/** Text preparation for retrieval: joining the text of a PDF's pages and
    cutting the result into overlapping fixed-size windows. */
module Utils {

  // ---------------------------------------------------------------------
  // Page concatenation
  // ---------------------------------------------------------------------

  /** What one page contributes: its text and a newline, or nothing when the
      page yielded no text. */
  function PageContribution(page: string): string
  {
    if page != "" then page + "\n" else ""
  }

  /** The document text: every page's contribution, in page order. */
  function JoinPages(pages: seq<string>): string
  {
    if pages == [] then ""
    else JoinPages(pages[..|pages| - 1]) + PageContribution(pages[|pages| - 1])
  }

  /** The page-concatenation loop of the PDF reader; the pages' texts are
      those the PDF library extracts. */
  method ReadPdf(pages: seq<string>) returns (text: string)
    ensures text == JoinPages(pages)
    ensures text == "" <==> forall i :: 0 <= i < |pages| ==> pages[i] == ""
  {
    text := "";
    for i := 0 to |pages|
      invariant text == JoinPages(pages[..i])
    {
      assert pages[..i + 1][..i] == pages[..i];
      if pages[i] != "" {
        text := text + pages[i] + "\n";
      }
    }
    assert pages[..|pages|] == pages;
    JoinPagesEmpty(pages);
  }

  /** Joining distributes over concatenating page lists. */
  lemma {:induction false} JoinPagesAppend(a: seq<string>, b: seq<string>)
    ensures JoinPages(a + b) == JoinPages(a) + JoinPages(b)
    decreases |b|
  {
    if b == [] {
      assert a + b == a;
    } else {
      var b', last := b[..|b| - 1], b[|b| - 1];
      assert (a + b)[..|a + b| - 1] == a + b';
      assert (a + b)[|a + b| - 1] == last;
      JoinPagesAppend(a, b');
      calc {
        JoinPages(a + b);
        JoinPages(a + b') + PageContribution(last);
        (JoinPages(a) + JoinPages(b')) + PageContribution(last);
        JoinPages(a) + (JoinPages(b') + PageContribution(last));
        JoinPages(a) + JoinPages(b);
      }
    }
  }

  /** Joining one more page adds that page's contribution. */
  lemma JoinPagesSnoc(a: seq<string>, page: string)
    ensures JoinPages(a + [page]) == JoinPages(a) + PageContribution(page)
  {
    assert (a + [page])[..|a|] == a;
  }

  /** A page without text contributes nothing, wherever it stands. */
  lemma EmptyPageContributesNothing(a: seq<string>, b: seq<string>)
    ensures JoinPages(a + [""] + b) == JoinPages(a + b)
  {
    var a1 := a + [""];
    JoinPagesSnoc(a, "");
    assert JoinPages(a1) == JoinPages(a);
    JoinPagesAppend(a1, b);
    JoinPagesAppend(a, b);
  }

  /** The text is empty exactly when no page has text. */
  lemma {:induction false} JoinPagesEmpty(pages: seq<string>)
    ensures JoinPages(pages) == "" <==> forall i :: 0 <= i < |pages| ==> pages[i] == ""
    decreases |pages|
  {
    if pages != [] {
      var init := pages[..|pages| - 1];
      JoinPagesEmpty(init);
      assert (forall i :: 0 <= i < |pages| ==> pages[i] == "") <==>
             (forall i :: 0 <= i < |init| ==> init[i] == "") && pages[|pages| - 1] == "";
    }
  }

  /** Each page with text appears, followed by a newline, at the offset where
      the pages before it end. */
  lemma PageInPlace(pages: seq<string>, i: nat)
    requires i < |pages| && pages[i] != ""
    ensures var off := |JoinPages(pages[..i])|;
      off + |pages[i]| + 1 <= |JoinPages(pages)| &&
      JoinPages(pages)[off..off + |pages[i]| + 1] == pages[i] + "\n"
  {
    assert pages == pages[..i] + [pages[i]] + pages[i + 1..];
    JoinPagesAppend(pages[..i] + [pages[i]], pages[i + 1..]);
    JoinPagesAppend(pages[..i], [pages[i]]);
    assert [pages[i]][..0] == [];
  }

  // ---------------------------------------------------------------------
  // Sliding-window chunker
  // ---------------------------------------------------------------------

  /** Python's `s[lo:hi]` for a non-negative `lo`: an end past the string is
      cut to its length, a negative end counts from the back, and a range
      that ends before it starts is empty. */
  function Slice(s: string, lo: nat, hi: int): string
  {
    var h := if hi < 0 then (if hi + |s| < 0 then 0 else hi + |s|)
             else if hi > |s| then |s| else hi;
    var l := if lo > |s| then |s| else lo;
    if h <= l then "" else s[l..h]
  }

  /** The windows the chunker emits from position `start` on. */
  function ChunksFrom(text: string, chunkSize: int, step: int, start: nat): seq<string>
    requires step > 0
    decreases |text| - start
  {
    if start < |text| then
      [Slice(text, start, start + chunkSize)] + ChunksFrom(text, chunkSize, step, start + step)
    else []
  }

  /** The chunk sequence of `text`. */
  function Chunks(text: string, chunkSize: int, overlap: int): seq<string>
    requires overlap < chunkSize
  {
    ChunksFrom(text, chunkSize, chunkSize - overlap, 0)
  }

  /** `ceil(n / d)` for a positive divisor. */
  function CeilDiv(n: nat, d: int): nat
    requires d > 0
  {
    (n + d - 1) / d
  }

  /** The chunker's default window size and overlap. */
  const DefaultChunkSize: int := 1000
  const DefaultOverlap: int := 200

  /** The chunker. Each window starts `chunkSize - overlap` characters after
      the previous one; on a non-empty text the loop terminates only because
      that step is positive, and on the empty text it does not run. */
  method SplitText(text: string, chunkSize: int := DefaultChunkSize, overlap: int := DefaultOverlap) returns (chunks: seq<string>)
    requires text == "" || overlap < chunkSize
    ensures text == "" ==> chunks == []
    ensures overlap < chunkSize ==> chunks == Chunks(text, chunkSize, overlap)
    ensures overlap < chunkSize ==> |chunks| == CeilDiv(|text|, chunkSize - overlap)
    ensures overlap < chunkSize ==> forall i :: 0 <= i < |chunks| ==>
      chunks[i] == Slice(text, i * (chunkSize - overlap), i * (chunkSize - overlap) + chunkSize)
  {
    var step := chunkSize - overlap;
    chunks := [];
    var start: nat := 0;
    while start < |text|
      invariant text == "" ==> chunks == []
      invariant overlap < chunkSize ==>
        chunks + ChunksFrom(text, chunkSize, step, start) == Chunks(text, chunkSize, overlap)
      decreases |text| - start
    {
      var window := Slice(text, start, start + chunkSize);
      var rest := ChunksFrom(text, chunkSize, step, start + step);
      assert ChunksFrom(text, chunkSize, step, start) == [window] + rest;
      assert chunks + ([window] + rest) == (chunks + [window]) + rest;
      chunks := chunks + [window];
      start := start + step;
    }
    if overlap < chunkSize {
      assert ChunksFrom(text, chunkSize, step, start) == [];
      assert chunks + [] == chunks;
      ChunksShape(text, chunkSize, overlap);
    }
  }

  /** The call the application makes, with the default arguments. */
  method SplitDocument(text: string) returns (chunks: seq<string>)
    ensures |chunks| == CeilDiv(|text|, 800)
    ensures chunks == Chunks(text, DefaultChunkSize, DefaultOverlap)
  {
    chunks := SplitText(text);
  }

  /** With the default arguments, windows of 1000 characters advance by 800:
      there are `ceil(length / 800)` of them, and full-length neighbours share
      200 characters. */
  lemma DefaultSplit(text: string, i: nat)
    ensures |Chunks(text, DefaultChunkSize, DefaultOverlap)| == CeilDiv(|text|, 800)
    ensures var cs := Chunks(text, DefaultChunkSize, DefaultOverlap);
      i + 1 < |cs| && |cs[i]| == 1000 ==> cs[i][800..] <= cs[i + 1] && |cs[i][800..]| == 200
  {
    ChunkTotal(text, DefaultChunkSize, 800);
    var cs := Chunks(text, DefaultChunkSize, DefaultOverlap);
    if i + 1 < |cs| {
      NeighboursOverlap(text, DefaultChunkSize, DefaultOverlap, i);
    }
  }

  /** How many chunks there are and where each one starts. */
  lemma ChunksShape(text: string, chunkSize: int, overlap: int)
    requires overlap < chunkSize
    ensures var chunks := Chunks(text, chunkSize, overlap);
      |chunks| == CeilDiv(|text|, chunkSize - overlap) &&
      forall i :: 0 <= i < |chunks| ==>
        chunks[i] == Slice(text, i * (chunkSize - overlap), i * (chunkSize - overlap) + chunkSize)
  {
    var step := chunkSize - overlap;
    ChunkTotal(text, chunkSize, step);
    forall i | 0 <= i < |Chunks(text, chunkSize, overlap)|
      ensures Chunks(text, chunkSize, overlap)[i] == Slice(text, i * step, i * step + chunkSize)
    {
      ChunkAt(text, chunkSize, step, 0, i);
    }
  }

  /** The number of windows of the whole text is `ceil(length / step)`. */
  lemma ChunkTotal(text: string, chunkSize: int, step: int)
    requires step > 0
    ensures |ChunksFrom(text, chunkSize, step, 0)| == CeilDiv(|text|, step)
  {
    ChunkCount(text, chunkSize, step, 0);
    if |text| == 0 {
      DivUnique(step - 1, step, 0, step - 1);
    }
  }

  /** A positive multiple of `d` is at least `d`. */
  lemma {:induction false} MulAtLeast(k: int, d: int)
    requires k >= 1 && d > 0
    ensures k * d >= d
    decreases k
  {
    if k > 1 {
      MulAtLeast(k - 1, d);
      assert k * d == (k - 1) * d + d;
    }
  }

  /** The only multiple of `d` strictly between `-d` and `d` is zero. */
  lemma SmallMultiple(k: int, d: int)
    requires d > 0 && -d < k * d < d
    ensures k == 0
  {
    if k >= 1 {
      MulAtLeast(k, d);
    } else if k <= -1 {
      assert (-k) * d == -(k * d);
      MulAtLeast(-k, d);
    }
  }

  /** Quotient and remainder are unique. */
  lemma DivUnique(x: int, d: int, q: int, r: int)
    requires d > 0 && 0 <= r < d && x == q * d + r
    ensures x / d == q
  {
    var q', r' := x / d, x % d;
    assert (q' - q) * d == r - r';
    SmallMultiple(q' - q, d);
  }

  /** `ceil` steps one window at a time. */
  lemma CeilDivStep(a: nat, d: int)
    requires d > 0 && a > 0
    ensures CeilDiv(a, d) == 1 + (if a <= d then 0 else CeilDiv(a - d, d))
  {
    if a <= d {
      DivUnique(a + d - 1, d, 1, a - 1);
    } else {
      var q, r := (a - 1) / d, (a - 1) % d;
      assert a + d - 1 == (q + 1) * d + r;
      DivUnique(a + d - 1, d, q + 1, r);
    }
  }

  /** The number of windows from `start` on is `ceil(remaining / step)`. */
  lemma {:induction false} ChunkCount(text: string, chunkSize: int, step: int, start: nat)
    requires step > 0
    ensures |ChunksFrom(text, chunkSize, step, start)| ==
            if start >= |text| then 0 else CeilDiv(|text| - start, step)
    decreases |text| - start
  {
    if start < |text| {
      ChunkCount(text, chunkSize, step, start + step);
      CeilDivStep(|text| - start, step);
    }
  }

  /** Window `i` from `start` on starts `i` steps after `start`, inside the text. */
  lemma {:induction false} ChunkAt(text: string, chunkSize: int, step: int, start: nat, i: nat)
    requires step > 0
    requires i < |ChunksFrom(text, chunkSize, step, start)|
    ensures start + i * step < |text|
    ensures ChunksFrom(text, chunkSize, step, start)[i] ==
            Slice(text, start + i * step, start + i * step + chunkSize)
    decreases i
  {
    if i > 0 {
      assert ChunksFrom(text, chunkSize, step, start)[i] == ChunksFrom(text, chunkSize, step, start + step)[i - 1];
      ChunkAt(text, chunkSize, step, start + step, i - 1);
      StepShift(start, step, i);
    }
  }

  /** `i` steps from `start` are one step and then `i - 1` more. */
  lemma StepShift(start: int, step: int, i: int)
    ensures start + step + (i - 1) * step == start + i * step
  {
    assert (i - 1) * step == i * step - step;
  }

  function Min(a: int, b: int): int
  {
    if a <= b then a else b
  }

  /** A Python slice that starts inside the string is a plain subsequence. */
  lemma SliceInside(s: string, lo: nat, hi: int)
    requires lo < |s| && lo <= hi
    ensures Slice(s, lo, hi) == s[lo..Min(hi, |s|)]
  {
  }

  /** Dropping the first `b - a` characters of `s[a..c]` leaves `s[b..c]`. */
  lemma DropOfSubsequence(s: string, a: nat, b: nat, c: nat)
    requires a <= b <= c <= |s|
    ensures s[a..c][b - a..] == s[b..c]
  {
  }

  /** Keeping the first `b - a` characters of `s[a..c]` leaves `s[a..b]`. */
  lemma TakeOfSubsequence(s: string, a: nat, b: nat, c: nat)
    requires a <= b <= c <= |s|
    ensures s[a..c][..b - a] == s[a..b]
  {
  }

  /** A shorter subsequence from the same position is a prefix of a longer one. */
  lemma SubsequencePrefix(s: string, a: nat, b: nat, c: nat)
    requires a <= b <= c <= |s|
    ensures s[a..b] <= s[a..c]
  {
  }

  /** Window `i`, starting at `a`, as a plain subsequence of the text, for a
      positive size. */
  lemma WindowAt(text: string, chunkSize: int, step: int, i: nat, a: nat)
    requires 0 < chunkSize && 0 < step
    requires i < |ChunksFrom(text, chunkSize, step, 0)| && a == i * step
    ensures a < |text|
    ensures ChunksFrom(text, chunkSize, step, 0)[i] == text[a..Min(a + chunkSize, |text|)]
  {
    ChunkAt(text, chunkSize, step, 0, i);
    SliceInside(text, a, a + chunkSize);
  }

  /** Every chunk has at most `chunkSize` characters, and exactly that many
      when its window lies inside the text. */
  lemma ChunkLength(text: string, chunkSize: int, overlap: int, i: nat)
    requires 0 < chunkSize && overlap < chunkSize
    requires i < |Chunks(text, chunkSize, overlap)|
    ensures 0 < |Chunks(text, chunkSize, overlap)[i]| <= chunkSize
    ensures i * (chunkSize - overlap) + chunkSize <= |text| ==>
            |Chunks(text, chunkSize, overlap)[i]| == chunkSize
  {
    WindowAt(text, chunkSize, chunkSize - overlap, i, i * (chunkSize - overlap));
  }

  /** What follows the first `step` characters of a chunk begins the next
      chunk; a full-length chunk shares exactly `overlap` characters with it. */
  lemma NeighboursOverlap(text: string, chunkSize: int, overlap: int, i: nat)
    requires 0 <= overlap < chunkSize
    requires i + 1 < |Chunks(text, chunkSize, overlap)|
    ensures var cs := Chunks(text, chunkSize, overlap);
      chunkSize - overlap <= |cs[i]| && cs[i][chunkSize - overlap..] <= cs[i + 1]
    ensures var cs := Chunks(text, chunkSize, overlap);
      |cs[i]| == chunkSize ==> |cs[i][chunkSize - overlap..]| == overlap
  {
    var step := chunkSize - overlap;
    var n := |text|;
    var a, a' := i * step, (i + 1) * step;
    assert a' == a + step;
    WindowAt(text, chunkSize, step, i, a);
    WindowAt(text, chunkSize, step, i + 1, a');
    var e, e' := Min(a + chunkSize, n), Min(a' + chunkSize, n);
    DropOfSubsequence(text, a, a', e);
    SubsequencePrefix(text, a', e, e');
  }

  /** The part of each chunk that the next one does not repeat: the first
      `step` characters of every chunk but the last, and all of the last. */
  function Reassemble(chunks: seq<string>, step: nat): string
  {
    if chunks == [] then ""
    else if |chunks| == 1 then chunks[0]
    else (if step <= |chunks[0]| then chunks[0][..step] else chunks[0]) + Reassemble(chunks[1..], step)
  }

  /** Reassembling a chunk followed by further chunks. */
  lemma ReassembleCons(c: string, rest: seq<string>, step: nat)
    requires rest != [] && step <= |c|
    ensures Reassemble([c] + rest, step) == c[..step] + Reassemble(rest, step)
  {
    assert ([c] + rest)[1..] == rest;
  }

  /** The first chunk from `start` on contributes its first `step`
      characters, or the rest of the text when it is the last one. */
  lemma ReassembleFirst(text: string, chunkSize: int, step: int, start: nat)
    requires 0 < step <= chunkSize
    requires start < |text|
    ensures Reassemble(ChunksFrom(text, chunkSize, step, start), step) ==
      if start + step < |text| then
        text[start..start + step] + Reassemble(ChunksFrom(text, chunkSize, step, start + step), step)
      else text[start..]
  {
    var n := |text|;
    var c := Slice(text, start, start + chunkSize);
    var rest := ChunksFrom(text, chunkSize, step, start + step);
    assert ChunksFrom(text, chunkSize, step, start) == [c] + rest;
    SliceInside(text, start, start + chunkSize);
    var e := Min(start + chunkSize, n);
    if start + step < n {
      assert rest != [];
      ReassembleCons(c, rest, step);
      TakeOfSubsequence(text, start, start + step, e);
    } else {
      assert rest == [];
      assert [c] + rest == [c];
      assert e == n;
    }
  }

  /** Coverage from `start` on. */
  lemma {:induction false} ReassembleFrom(text: string, chunkSize: int, step: int, start: nat)
    requires 0 < step <= chunkSize
    requires start <= |text|
    ensures Reassemble(ChunksFrom(text, chunkSize, step, start), step) == text[start..]
    decreases |text| - start
  {
    if start < |text| {
      ReassembleFirst(text, chunkSize, step, start);
      if start + step < |text| {
        ReassembleFrom(text, chunkSize, step, start + step);
        assert text[start..] == text[start..start + step] + text[start + step..];
      }
    }
  }

  /** Coverage: the chunks' non-repeated parts give back the text, without a
      character dropped or doubled. */
  lemma Coverage(text: string, chunkSize: int, overlap: int)
    requires 0 <= overlap < chunkSize
    ensures Reassemble(Chunks(text, chunkSize, overlap), chunkSize - overlap) == text
  {
    ReassembleFrom(text, chunkSize, chunkSize - overlap, 0);
    assert text[0..] == text;
  }

  /** The trailing chunk lies wholly inside its predecessor, as a suffix,
      whenever the predecessor's window already reaches the end of the text. */
  lemma TrailingChunkInsidePredecessor(text: string, chunkSize: int, overlap: int)
    requires 0 <= overlap < chunkSize
    requires |Chunks(text, chunkSize, overlap)| >= 2
    ensures var cs := Chunks(text, chunkSize, overlap);
      var k := |cs|;
      (k - 2) * (chunkSize - overlap) + chunkSize >= |text| ==>
        |cs[k - 1]| <= |cs[k - 2]| && cs[k - 2][|cs[k - 2]| - |cs[k - 1]|..] == cs[k - 1]
  {
    var cs := Chunks(text, chunkSize, overlap);
    var k := |cs|;
    var step := chunkSize - overlap;
    var n := |text|;
    var a := (k - 2) * step;
    if a + chunkSize >= n {
      var a' := (k - 1) * step;
      assert a' == a + step;
      WindowAt(text, chunkSize, step, k - 2, a);
      WindowAt(text, chunkSize, step, k - 1, a');
      assert Min(a + chunkSize, n) == n == Min(a' + chunkSize, n);
      DropOfSubsequence(text, a, a', n);
    }
  }

  /** Ten letters, windows of four advancing by three: four chunks, the last
      of which repeats the end of the third. */
  lemma WorkedExample()
    ensures Chunks("ABCDEFGHIJ", 4, 1) == ["ABCD", "DEFG", "GHIJ", "J"]
    ensures "GHIJ"[3..] == "J"
  {
    var t := "ABCDEFGHIJ";
    assert Slice(t, 9, 13) == t[9..10] == "J";
    assert Slice(t, 6, 10) == t[6..10] == "GHIJ";
    assert Slice(t, 3, 7) == t[3..7] == "DEFG";
    assert Slice(t, 0, 4) == t[0..4] == "ABCD";
    assert ChunksFrom(t, 4, 3, 12) == [];
    assert ChunksFrom(t, 4, 3, 9) == ["J"];
    assert ChunksFrom(t, 4, 3, 6) == ["GHIJ", "J"];
    assert ChunksFrom(t, 4, 3, 3) == ["DEFG", "GHIJ", "J"];
  }
}
