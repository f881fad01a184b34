/** The chat-history store: messages are converted between the
    application's `{content, role, timestamp}` dictionaries and a
    DynamoDB-typed nested form, saved as one item per session, read back,
    and listed most recent first. */
module ChatHistory {
  import opened PyValues

  /** Thirty days in seconds: how long a saved history lives. */
  const TtlSeconds: int := 30 * 24 * 60 * 60

  /** The wall clock as the store reads it: `datetime.now().isoformat()` and
      `datetime.now().timestamp()`. */
  datatype Clock = Clock(iso: string, seconds: real)

  // ---------------------------------------------------------------------
  // Message codec
  // ---------------------------------------------------------------------

  /** A value wrapped as a DynamoDB string attribute, `{"S": v}`. */
  function Typed(v: Value): Value
  {
    Dict(map["S" := v])
  }

  /** The application form a message takes after a trip through the store:
      its content, role and timestamp, with `''` for a missing content or
      role and the clock's reading for a missing timestamp. */
  function AppForm(f: map<string, Value>, nowIso: string): map<string, Value>
  {
    map["content" := Get(f, "content", Str("")),
        "role" := Get(f, "role", Str("")),
        "timestamp" := Get(f, "timestamp", Str(nowIso))]
  }

  /** Encodes one message for the store; `message.get` raises on anything
      but a dictionary. */
  function EncodeMessage(message: Value, nowIso: string): (r: Outcome<Value>)
    ensures r.Returned? <==> message.Dict?
    ensures r.Returned? ==> r.value.Dict? && r.value.fields.Keys == {"M"}
  {
    match message
    case Dict(f) =>
      Returned(Dict(map["M" := Dict(map[
        "message" := Typed(Get(f, "content", Str(""))),
        "role" := Typed(Get(f, "role", Str(""))),
        "timestamp" := Typed(Get(f, "timestamp", Str(nowIso)))])]))
    case _ => Raised
  }

  /** Encodes a list of messages, element by element; one element that
      cannot be encoded makes the whole list fail. */
  function EncodeMessages(messages: seq<Value>, nowIso: string): (r: Outcome<seq<Value>>)
    ensures r.Returned? <==> forall i :: 0 <= i < |messages| ==> messages[i].Dict?
    ensures r.Returned? ==>
      |r.value| == |messages| &&
      forall i :: 0 <= i < |messages| ==> EncodeMessage(messages[i], nowIso) == Returned(r.value[i])
  {
    if messages == [] then Returned([])
    else
      match (EncodeMessage(messages[0], nowIso), EncodeMessages(messages[1..], nowIso))
      case (Returned(e), Returned(es)) => Returned([e] + es)
      case _ => Raised
  }

  /** `msg_data.get(key, {}).get('S', '')`: raises when the attribute is
      present but not a dictionary. */
  function Field(data: map<string, Value>, key: string): (r: Outcome<Value>)
    ensures r.Returned? <==> key !in data || data[key].Dict?
    ensures key !in data ==> r == Returned(Str(""))
    ensures key in data && data[key].Dict? && "S" !in data[key].fields ==> r == Returned(Str(""))
    ensures key in data && data[key].Dict? && "S" in data[key].fields ==> r == Returned(data[key].fields["S"])
  {
    match Get(data, key, Dict(map[]))
    case Dict(attribute) => Returned(Get(attribute, "S", Str("")))
    case _ => Raised
  }

  /** Decodes one stored message. Python's `'M' in v` is key membership on a
      dictionary, substring search on a string and element membership on a
      list; indexing a string or a list with `'M'` raises, and so does `in`
      on any other value. */
  function DecodeMessage(stored: Value): (r: Outcome<Value>)
    ensures stored.Dict? && "M" !in stored.fields ==> r == Returned(Dict(map[]))
    ensures r.Returned? ==>
      r.value.Dict? && (r.value.fields == map[] || r.value.fields.Keys == {"content", "role", "timestamp"})
  {
    match stored
    case Dict(f) =>
      if "M" !in f then Returned(Dict(map[]))
      else (
        match f["M"]
        case Dict(data) =>
          var content, role, timestamp := Field(data, "message"), Field(data, "role"), Field(data, "timestamp");
          if content.Raised? || role.Raised? || timestamp.Raised? then Raised
          else Returned(Dict(map["content" := content.value, "role" := role.value, "timestamp" := timestamp.value]))
        case _ => Raised)
    case Str(s) => if 'M' in s then Raised else Returned(Dict(map[]))
    case List(xs) => if Str("M") in xs then Raised else Returned(Dict(map[]))
    case _ => Raised
  }

  /** Decodes a list of stored messages, element by element. */
  function DecodeMessages(stored: seq<Value>): (r: Outcome<seq<Value>>)
    ensures r.Returned? <==> forall i :: 0 <= i < |stored| ==> DecodeMessage(stored[i]).Returned?
    ensures r.Returned? ==>
      |r.value| == |stored| &&
      forall i :: 0 <= i < |stored| ==> DecodeMessage(stored[i]) == Returned(r.value[i])
  {
    if stored == [] then Returned([])
    else
      match (DecodeMessage(stored[0]), DecodeMessages(stored[1..]))
      case (Returned(m), Returned(ms)) => Returned([m] + ms)
      case _ => Raised
  }

  /** The round trip: a dictionary comes back as its application form, so its
      content, role and timestamp survive and every other key is dropped. */
  lemma DecodeEncode(f: map<string, Value>, nowIso: string)
    ensures EncodeMessage(Dict(f), nowIso).Returned?
    ensures DecodeMessage(EncodeMessage(Dict(f), nowIso).value) == Returned(Dict(AppForm(f, nowIso)))
  {
  }

  /** A message comes back unchanged exactly when its keys are content, role
      and timestamp. */
  lemma RoundTripExact(f: map<string, Value>, nowIso: string)
    ensures DecodeMessage(EncodeMessage(Dict(f), nowIso).value) == Returned(Dict(f))
            <==> f.Keys == {"content", "role", "timestamp"}
  {
    DecodeEncode(f, nowIso);
    var g := AppForm(f, nowIso);
    assert g.Keys == {"content", "role", "timestamp"};
    if f.Keys == {"content", "role", "timestamp"} {
      forall k | k in f ensures g[k] == f[k] {
        assert k == "content" || k == "role" || k == "timestamp";
      }
      assert g == f;
    }
  }

  /** A message written without content, role or timestamp comes back with
      `''` for the first two and the writer's clock for the third. */
  lemma MissingFieldsDefault(f: map<string, Value>, nowIso: string)
    ensures var back := DecodeMessage(EncodeMessage(Dict(f), nowIso).value).value.fields;
      ("content" !in f ==> back["content"] == Str("")) &&
      ("role" !in f ==> back["role"] == Str("")) &&
      ("timestamp" !in f ==> back["timestamp"] == Str(nowIso))
  {
    DecodeEncode(f, nowIso);
  }

  /** Stored messages with the typed layout but missing attributes decode to
      `''` for each missing one. */
  lemma DecodeMissingAttributes(data: map<string, Value>)
    requires forall k :: k in data ==> data[k].Dict?
    ensures var r := DecodeMessage(Dict(map["M" := Dict(data)]));
      r.Returned? &&
      ("message" !in data ==> r.value.fields["content"] == Str("")) &&
      ("role" !in data ==> r.value.fields["role"] == Str("")) &&
      ("timestamp" !in data ==> r.value.fields["timestamp"] == Str(""))
  {
    var r := DecodeMessage(Dict(map["M" := Dict(data)]));
    assert "message" in data ==> data["message"].Dict?;
    assert "role" in data ==> data["role"].Dict?;
    assert "timestamp" in data ==> data["timestamp"].Dict?;
  }

  /** Decodes the `messages` attribute of a stored item. Iterating a list
      gives its elements, a string its one-character strings, and a
      dictionary its keys (each of which decodes to `{}` unless it contains
      `'M'`); anything else is not iterable. */
  function DecodeStoredMessages(v: Value): (r: Outcome<Value>)
    ensures v.List? ==>
      (r.Returned? <==> DecodeMessages(v.items).Returned?) &&
      (r.Returned? ==> r.value == List(DecodeMessages(v.items).value))
  {
    match v
    case List(xs) =>
      (match DecodeMessages(xs)
       case Returned(ms) => Returned(List(ms))
       case Raised => Raised)
    case Str(s) =>
      (match DecodeMessages(seq(|s|, i requires 0 <= i < |s| => Str([s[i]])))
       case Returned(ms) => Returned(List(ms))
       case Raised => Raised)
    case Dict(f) =>
      if exists k :: k in f && 'M' in k then Raised
      else Returned(List(seq(|f|, i => Dict(map[]))))
    case _ => Raised
  }

  // ---------------------------------------------------------------------
  // Saved items
  // ---------------------------------------------------------------------

  /** Python's `int(x)`: truncation toward zero. */
  function TruncateToInt(x: real): (n: int)
    ensures x >= 0.0 ==> n as real <= x < n as real + 1.0
    ensures x < 0.0 ==> n as real - 1.0 < x <= n as real
  {
    if x >= 0.0 then x.Floor else -((-x).Floor)
  }

  /** The expiry time written with a history: thirty days after the clock,
      truncated to whole seconds. */
  function Ttl(now: real): (t: int)
    ensures now + TtlSeconds as real >= 0.0 ==>
      t as real <= now + TtlSeconds as real < t as real + 1.0
    ensures now + TtlSeconds as real < 0.0 ==>
      t as real - 1.0 < now + TtlSeconds as real <= t as real
  {
    TruncateToInt(now + TtlSeconds as real)
  }

  /** For a clock at or after the epoch the expiry is the whole seconds of
      the clock plus thirty days. */
  lemma TtlAfterEpoch(now: real)
    requires now >= 0.0
    ensures Ttl(now) == now.Floor + TtlSeconds
  {
    var x := now + TtlSeconds as real;
    assert (now.Floor + TtlSeconds) as real <= x < (now.Floor + TtlSeconds) as real + 1.0;
  }

  /** The item a save writes. */
  function SavedItem(sessionId: string, s3Key: string, formatted: seq<Value>, clock: Clock): map<string, Value>
  {
    map["session_id" := Str(sessionId),
        "s3_key" := Str(s3Key),
        "messages" := List(formatted),
        "last_updated" := Str(clock.iso),
        "ttl" := Int(Ttl(clock.seconds))]
  }

  /** What reading an item back returns: the item with its `messages`
      decoded, or `None` when decoding raises. */
  function HistoryView(item: map<string, Value>): (r: Option<map<string, Value>>)
    ensures "messages" !in item ==> r == Some(item)
    ensures r.Some? ==>
      r.value.Keys == item.Keys &&
      forall k :: k in item && k != "messages" ==> r.value[k] == item[k]
    ensures "messages" in item ==>
      (r.Some? <==> DecodeStoredMessages(item["messages"]).Returned?) &&
      (r.Some? ==> r.value["messages"] == DecodeStoredMessages(item["messages"]).value)
  {
    if "messages" !in item then Some(item)
    else
      match DecodeStoredMessages(item["messages"])
      case Returned(decoded) => Some(item["messages" := decoded])
      case Raised => None
  }

  /** The application forms of a list of dictionaries. */
  function AppForms(messages: seq<Value>, nowIso: string): seq<Value>
    requires forall i :: 0 <= i < |messages| ==> messages[i].Dict?
  {
    seq(|messages|, i requires 0 <= i < |messages| => Dict(AppForm(messages[i].fields, nowIso)))
  }

  /** The list round trip: decoding the encoded list gives each message's
      application form, in order. */
  lemma DecodeEncodeAll(messages: seq<Value>, nowIso: string)
    requires forall i :: 0 <= i < |messages| ==> messages[i].Dict?
    ensures EncodeMessages(messages, nowIso).Returned?
    ensures DecodeMessages(EncodeMessages(messages, nowIso).value) == Returned(AppForms(messages, nowIso))
  {
    var encoded := EncodeMessages(messages, nowIso).value;
    var expected := AppForms(messages, nowIso);
    forall i | 0 <= i < |encoded| ensures DecodeMessage(encoded[i]) == Returned(expected[i]) {
      DecodeEncode(messages[i].fields, nowIso);
    }
    assert DecodeMessages(encoded).value == expected;
  }

  /** Saving and reading back: each message returns as its application form,
      in the order saved, and the other attributes are those written. */
  lemma SaveThenRead(sessionId: string, s3Key: string, messages: seq<Value>, clock: Clock)
    requires forall i :: 0 <= i < |messages| ==> messages[i].Dict?
    ensures var item := SavedItem(sessionId, s3Key, EncodeMessages(messages, clock.iso).value, clock);
      HistoryView(item) == Some(item["messages" := List(AppForms(messages, clock.iso))])
  {
    var formatted := EncodeMessages(messages, clock.iso).value;
    var item := SavedItem(sessionId, s3Key, formatted, clock);
    DecodeEncodeAll(messages, clock.iso);
    assert item["messages"] == List(formatted);
    ViewOfStoredList(item, formatted);
  }

  /** Reading back an item whose `messages` is a list that decodes. */
  lemma ViewOfStoredList(item: map<string, Value>, stored: seq<Value>)
    requires "messages" in item && item["messages"] == List(stored)
    requires DecodeMessages(stored).Returned?
    ensures HistoryView(item) == Some(item["messages" := List(DecodeMessages(stored).value)])
  {
  }

  // ---------------------------------------------------------------------
  // Listing sessions
  // ---------------------------------------------------------------------

  /** Python's `a <= b` on strings: lexicographic by code point. */
  predicate LexLe(a: string, b: string)
  {
    a == [] || (b != [] && (a[0] < b[0] || (a[0] == b[0] && LexLe(a[1..], b[1..]))))
  }

  lemma {:induction false} LexLeTotal(a: string, b: string)
    ensures LexLe(a, b) || LexLe(b, a)
  {
    if a != [] && b != [] && a[0] == b[0] {
      LexLeTotal(a[1..], b[1..]);
    }
  }

  lemma {:induction false} LexLeTransitive(a: string, b: string, c: string)
    requires LexLe(a, b) && LexLe(b, c)
    ensures LexLe(a, c)
  {
    if a != [] && b != [] && c != [] && a[0] == b[0] == c[0] {
      LexLeTransitive(a[1..], b[1..], c[1..]);
    }
  }

  /** The sort key of a scanned item: its `last_updated`, `''` when missing. */
  function SortKey(item: map<string, Value>): Value
  {
    Get(item, "last_updated", Str(""))
  }

  /** The sort key as a string (only consulted when it is one). */
  function KeyText(item: map<string, Value>): string
  {
    match SortKey(item)
    case Str(s) => s
    case _ => ""
  }

  predicate KeysAreStrings(items: seq<map<string, Value>>)
  {
    forall i :: 0 <= i < |items| ==> SortKey(items[i]).Str?
  }

  /** Most recent first: keys never increase along the list. */
  predicate ByRecency(items: seq<map<string, Value>>)
  {
    forall i, j :: 0 <= i < j < |items| ==> LexLe(KeyText(items[j]), KeyText(items[i]))
  }

  /** Inserts an item before the first one whose key is not greater. */
  function InsertByRecency(x: map<string, Value>, s: seq<map<string, Value>>): (r: seq<map<string, Value>>)
    ensures multiset(r) == multiset(s) + multiset{x}
    ensures ByRecency(s) ==> ByRecency(r)
  {
    if s == [] then [x]
    else if LexLe(KeyText(s[0]), KeyText(x)) then
      InsertFront(x, s);
      [x] + s
    else
      var rest := InsertByRecency(x, s[1..]);
      LexLeTotal(KeyText(s[0]), KeyText(x));
      assert s == [s[0]] + s[1..];
      InsertBehind(x, s, rest);
      [s[0]] + rest
  }

  /** Putting `x` in front keeps the order when its key is the greatest. */
  lemma InsertFront(x: map<string, Value>, s: seq<map<string, Value>>)
    requires s != [] && LexLe(KeyText(s[0]), KeyText(x))
    ensures ByRecency(s) ==> ByRecency([x] + s)
  {
    if ByRecency(s) {
      var r := [x] + s;
      forall i, j | 0 <= i < j < |r| ensures LexLe(KeyText(r[j]), KeyText(r[i])) {
        if i == 0 && j > 1 {
          LexLeTransitive(KeyText(s[j - 1]), KeyText(s[0]), KeyText(x));
        }
      }
    }
  }

  /** Keeping `s[0]` in front keeps the order when the rest is `s[1..]` with
      `x`, whose key is below `s[0]`'s, inserted. */
  lemma InsertBehind(x: map<string, Value>, s: seq<map<string, Value>>, rest: seq<map<string, Value>>)
    requires s != [] && LexLe(KeyText(x), KeyText(s[0]))
    requires multiset(rest) == multiset(s[1..]) + multiset{x}
    requires ByRecency(s[1..]) ==> ByRecency(rest)
    ensures ByRecency(s) ==> ByRecency([s[0]] + rest)
  {
    if ByRecency(s) {
      var r := [s[0]] + rest;
      forall j | 0 < j < |r| ensures LexLe(KeyText(r[j]), KeyText(s[0])) {
        var y := rest[j - 1];
        assert y in multiset(rest);
        if y != x {
          assert y in multiset(s[1..]);
          var k :| 0 <= k < |s[1..]| && s[1..][k] == y;
          assert s[k + 1] == y;
        }
      }
    }
  }

  /** A stable sort, most recent first. */
  function SortByRecency(items: seq<map<string, Value>>): (r: seq<map<string, Value>>)
    ensures multiset(r) == multiset(items)
    ensures ByRecency(r)
  {
    if items == [] then []
    else
      assert items == [items[0]] + items[1..];
      InsertByRecency(items[0], SortByRecency(items[1..]))
  }

  /** The session listing over the items the table scan returned (the scan's
      expiry filter, projection and page limit are the database's). */
  function ListSessions(scan: Outcome<seq<map<string, Value>>>): (sessions: seq<map<string, Value>>)
    ensures scan.Raised? ==> sessions == []
    ensures scan.Returned? && (|scan.value| <= 1 || KeysAreStrings(scan.value)) ==>
      multiset(sessions) == multiset(scan.value) && ByRecency(sessions)
    ensures scan.Returned? && |scan.value| > 1 && !KeysAreStrings(scan.value) ==> sessions == []
  {
    match scan
    case Raised => []
    case Returned(items) =>
      if |items| <= 1 || KeysAreStrings(items) then SortByRecency(items) else []
  }

  // ---------------------------------------------------------------------
  // The store
  // ---------------------------------------------------------------------

  /** The history manager over its table, items keyed by `session_id`. The
      outcome of each database request is a parameter. */
  class ChatHistoryManager {
    var table: map<string, map<string, Value>>

    constructor (existing: map<string, map<string, Value>>)
      ensures table == existing
    {
      table := existing;
    }

    /** Saves a session's messages. Returns `true` only after the put
        succeeds; a non-list, a message that is not a dictionary, or a failed
        put returns `false` and leaves the table as it was. */
    method SaveChatHistory(sessionId: string, s3Key: string, messages: Value, clock: Clock, putSucceeds: bool)
      returns (saved: bool)
      modifies this
      ensures saved <==> messages.List? && EncodeMessages(messages.items, clock.iso).Returned? && putSucceeds
      ensures saved ==> table == old(table)[sessionId :=
        SavedItem(sessionId, s3Key, EncodeMessages(messages.items, clock.iso).value, clock)]
      ensures !saved ==> table == old(table)
    {
      if !messages.List? {
        return false;
      }
      var formatted := EncodeMessages(messages.items, clock.iso);
      if formatted.Raised? {
        return false;
      }
      var item := SavedItem(sessionId, s3Key, formatted.value, clock);
      if !putSucceeds {
        return false;
      }
      table := table[sessionId := item];
      saved := true;
    }

    /** Reads a session's history. `None` when the get fails, when there is
        no item, or when decoding its messages raises; otherwise the item with
        its messages decoded. */
    method GetChatHistory(sessionId: string, getSucceeds: bool) returns (history: Option<map<string, Value>>)
      ensures !getSucceeds || sessionId !in table ==> history == None
      ensures getSucceeds && sessionId in table ==> history == HistoryView(table[sessionId])
    {
      if !getSucceeds || sessionId !in table {
        return None;
      }
      var item := table[sessionId];
      if "messages" in item {
        var decoded := DecodeStoredMessages(item["messages"]);
        if decoded.Raised? {
          return None;
        }
        item := item["messages" := decoded.value];
      }
      history := Some(item);
    }
  }
}
