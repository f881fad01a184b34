# PDF question-answering demo: text preparation, chat-history store and session state

This project models the logic the demo writes itself and proves properties of that model. The demo uploads a PDF, extracts its pages' text, cuts the text into overlapping windows for retrieval, and keeps each user's conversation. The modelled code has three parts:

- **Text preparation** (`app2/utils.py`), module `Utils`:
  - `read_pdf` joins the non-empty page texts, each followed by a newline;
  - `split_text` is a sliding-window chunker. It emits `text[start:start + chunk_size]` and advances `start` by `chunk_size - overlap` while `start < len(text)`.
  - Both are loops in the source, so both are methods (`ReadPdf`, `SplitText`). Each is proved against a recursive specification function (`JoinPages`, `Chunks`), and the lemmas about each function state what the source promises.
- **Chat-history store** (`app2/chat_history.py`), module `ChatHistory`:
  - the codec between the application's `{content, role, timestamp}` messages and the DynamoDB-typed `{"M": {"message": {"S": …}, …}}` layout;
  - the item `save_chat_history` writes, including its 30-day `ttl`;
  - the decoding `get_chat_history` applies on the way back;
  - the most-recent-first sort of `list_sessions`.
  - The table is a field `table: map<string, map<string, Value>>` of class `ChatHistoryManager`, keyed by `session_id`; saving updates it in place.
- **Session state** (`app/session_state.py`), module `SessionState`: the front end's session dictionary, a field `sessionState: map<string, Value>` of class `SessionManager`. `initialize_session_state` fills defaults, `clear_session` resets a fixed key list, and `update_chat_history` appends one turn. Each method is proved against a function of the old state (`Initialize`, `Cleared`, `WithTurn`), and that function's lemmas give idempotence and "nothing else changes".

Module `PyValues` holds the Python values these functions pass around (`None`, bools, integers, strings, lists and string-keyed dictionaries) and `Outcome`. `Outcome` is either a returned value or a raised exception. The source's `try`/`except` blocks turn a raised exception into `False`, `None` or `[]`, and the model does the same where the source does.

Python semantics that the model writes out:

- slicing: an end past the string is cut to its length, a negative end counts from the back, and a range that ends before it starts is empty (`Utils.Slice`);
- `in`: key membership on a dict, substring search on a str, element membership on a list, and a `TypeError` on anything else;
- `.get` exists only on dictionaries;
- `int()` of a float truncates toward zero;
- strings compare lexicographically by code point;
- a sort whose keys cannot be compared raises.

For `"ABCDEFGHIJ"` with size 4 and overlap 1, `split_text` emits four chunks, `"ABCD"`, `"DEFG"`, `"GHIJ"` and `"J"`. The fourth exists because windows keep starting while `start < len(text)`; it lies wholly inside the third (`Utils.WorkedExample`, `Utils.TrailingChunkInsidePredecessor`).

## Model

| member | source | states |
|---|---|---|
| Utils.JoinPages | app2/utils.py:11-16 | Definition: the page-order concatenation of `p + "\n"` for each non-empty page text `p`; `ReadPdf` returns it, and `JoinPagesAppend`, `EmptyPageContributesNothing`, `JoinPagesEmpty` and `PageInPlace` are about it |
| Utils.ReadPdf | app2/utils.py:11-16 | The loop returns the page-order concatenation `JoinPages`; the text is empty exactly when every page's text is empty |
| Utils.JoinPagesAppend | app2/utils.py:11-16 | Joining the pages of two page lists one after the other is the concatenation of the two joined texts |
| Utils.EmptyPageContributesNothing | app2/utils.py:14-15 | A page with no text, wherever it stands, leaves the document text unchanged |
| Utils.JoinPagesEmpty | app2/utils.py:11-16 | The joined text is `""` if and only if no page has text |
| Utils.PageInPlace | app2/utils.py:12-15 | Every non-empty page appears, followed by `"\n"`, at the offset where the pages before it end |
| Utils.Slice | app2/utils.py:27 | Definition: Python's `s[lo:hi]` for a non-negative start, with an end past the string cut to its length, a negative end counted from the back and an empty result when the end is not after the start; `SliceInside` states it for a start inside the string |
| Utils.ChunksFrom | app2/utils.py:25-28 | Definition: the windows the loop emits from `start` on, one `Slice(text, start, start + chunk_size)` per iteration while `start < len(text)`; `ChunkCount`, `ChunkAt` and `ReassembleFrom` are about it |
| Utils.Chunks | app2/utils.py:23-29 | Definition: the chunk sequence, the windows from position 0 with step `chunk_size - overlap`; `SplitText` returns it, and `ChunksShape`, `ChunkLength`, `NeighboursOverlap`, `Coverage` and `TrailingChunkInsidePredecessor` are about it |
| Utils.SplitText | app2/utils.py:18-29 | Its `chunk_size` and `overlap` default to 1000 and 200, as in the source. On `""` the result is `[]` for any sizes. Whenever `overlap < chunk_size`, which is the condition for the loop to end on a non-empty text, the loop returns `Chunks(text, chunk_size, overlap)`: `ceil(len / step)` chunks, chunk `i` being `text[i*step : i*step + chunk_size]` |
| Utils.SplitDocument | app2/main.py:76 | The application's call `split_text(pdf_text)`, with the default arguments, returns `ceil(len / 800)` chunks, the chunk sequence for window 1000 and overlap 200 |
| Utils.DefaultSplit | app2/utils.py:18 | With the default arguments `chunk_size=1000, overlap=200` there are `ceil(len / 800)` chunks, and a full-length chunk shares its last 200 characters with the start of the next |
| Utils.ChunksShape | app2/utils.py:24-28 | The chunk count is `ceil(len(text) / step)` and chunk `i` is the Python slice starting at `i*step` |
| Utils.ChunkTotal | app2/utils.py:25-28 | The whole text yields `ceil(len(text) / step)` windows, including zero windows for the empty text |
| Utils.ChunkCount | app2/utils.py:25-28 | From any start, the number of windows is `ceil(remaining / step)`, or 0 at or past the end |
| Utils.ChunkAt | app2/utils.py:24-28 | Window `i` from `start` begins `i` steps later, inside the text, and is that slice |
| Utils.SliceInside | app2/utils.py:27 | A slice that starts inside the string and ends at or after its start is the subsequence up to `min(end, len)` |
| Utils.WindowAt | app2/utils.py:26-27 | Chunk `i` is `text[i*step .. min(i*step + chunk_size, len(text))]` and starts inside the text |
| Utils.ChunkLength | app2/utils.py:26-27 | Every chunk has between 1 and `chunk_size` characters, and exactly `chunk_size` when its window fits in the text |
| Utils.NeighboursOverlap | app2/utils.py:26-28 | `chunks[i][step:]` is a prefix of `chunks[i+1]`; full-length neighbours share exactly `overlap` characters |
| Utils.ReassembleFirst | app2/utils.py:26-28 | The first window from `start` on contributes `text[start:start+step]` ahead of the rest, or the rest of the text when it is the last window |
| Utils.ReassembleFrom | app2/utils.py:24-28 | From any start, the non-repeated parts of the windows give back `text[start:]` |
| Utils.Coverage | app2/utils.py:24-28 | The first `step` characters of every chunk but the last, then the whole last chunk, concatenate to exactly the text |
| Utils.TrailingChunkInsidePredecessor | app2/utils.py:25-28 | When the second-to-last window already reaches the end, the last chunk is a suffix of it and adds no new character |
| Utils.WorkedExample | app2/utils.py:18-29 | `"ABCDEFGHIJ"`, size 4, overlap 1 gives `["ABCD","DEFG","GHIJ","J"]`, and `"J"` ends `"GHIJ"` |
| ChatHistory.EncodeMessage | app2/chat_history.py:24-32 | Succeeds exactly on a dictionary and yields a dictionary whose only key is `"M"` |
| ChatHistory.EncodeMessages | app2/chat_history.py:34-36 | Succeeds exactly when every message is a dictionary; element `i` of the result is the encoding of message `i`, and the length is the same |
| ChatHistory.Field | app2/chat_history.py:43-45 | `msg_data.get(key, {}).get('S', '')` raises exactly when the attribute is present and not a dictionary; otherwise it gives the attribute's stored `"S"` value, or `''` when the attribute or its `"S"` is missing |
| ChatHistory.DecodeMessage | app2/chat_history.py:38-47 | A dictionary without `"M"` decodes to `{}`; any successful decoding is `{}` or has exactly the keys content, role and timestamp |
| ChatHistory.DecodeMessages | app2/chat_history.py:86-89 | Succeeds exactly when every element decodes; element `i` is the decoding of stored element `i`, and the length is the same |
| ChatHistory.DecodeEncode | app2/chat_history.py:24-47 | Decoding the encoding of a message gives its content, role and timestamp, with the defaults `''`, `''` and the clock; every other key is dropped |
| ChatHistory.RoundTripExact | app2/chat_history.py:24-47 | A message survives the round trip unchanged if and only if its keys are exactly content, role and timestamp |
| ChatHistory.MissingFieldsDefault | app2/chat_history.py:28-30 | A missing content or role comes back as `''`; a missing timestamp comes back as the writer's clock |
| ChatHistory.DecodeMissingAttributes | app2/chat_history.py:43-45 | A typed message missing an attribute decodes that field to `''` |
| ChatHistory.DecodeStoredMessages | app2/chat_history.py:85-89 | On a stored list: succeeds exactly when every element decodes, and gives the list of decodings |
| ChatHistory.TruncateToInt | app2/chat_history.py:64 | Python's `int()` of a float: the integer part, at most the value at or above zero and at least it below zero, within one |
| ChatHistory.Ttl | app2/chat_history.py:64 | The expiry is the clock plus thirty days, truncated toward zero to a whole second, on either side of zero |
| ChatHistory.TtlAfterEpoch | app2/chat_history.py:64 | For a clock at or after the epoch, the expiry is its whole seconds plus 2592000 |
| ChatHistory.SavedItem | app2/chat_history.py:59-65 | Definition: the item `save_chat_history` writes; `SaveChatHistory` stores it, `SaveThenRead` reads it back, and `Ttl`/`TtlAfterEpoch` give its expiry |
| ChatHistory.HistoryView | app2/chat_history.py:82-91 | An item without `messages` comes back as it is; otherwise the result exists exactly when the messages decode, carries their decoding, and keeps every other attribute and the key set |
| ChatHistory.DecodeEncodeAll | app2/chat_history.py:34-47 | Decoding an encoded list of dictionaries gives each message's application form, in order |
| ChatHistory.ViewOfStoredList | app2/chat_history.py:85-91 | An item whose stored list decodes is read back with `messages` replaced by the decoded list |
| ChatHistory.SaveThenRead | app2/chat_history.py:56-91 | Reading back the saved item gives the written attributes, and the messages in saved order, each in its application form |
| ChatHistory.LexLeTotal | app2/chat_history.py:107 | Python string comparison is total |
| ChatHistory.LexLeTransitive | app2/chat_history.py:107 | Python string comparison is transitive |
| ChatHistory.SortKey | app2/chat_history.py:107 | Definition: the sort key of a scanned item, its `last_updated` or `''` when it has none; `InsertByRecency`, `SortByRecency` and `ListSessions` are about it |
| ChatHistory.InsertByRecency | app2/chat_history.py:107 | Inserting adds exactly the item, and keeps a most-recent-first list in order |
| ChatHistory.SortByRecency | app2/chat_history.py:106-108 | The sort is a permutation of the items, and its keys never increase |
| ChatHistory.ListSessions | app2/chat_history.py:97-112 | A failed scan lists nothing. Comparable keys give a permutation of the scanned items, newest first, with a missing `last_updated` treated as `''`. A sort that meets a non-string key raises, and nothing is listed |
| ChatHistory.ChatHistoryManager.constructor | app2/chat_history.py:12-22 | The manager starts over the table as it stands |
| ChatHistory.ChatHistoryManager.SaveChatHistory | app2/chat_history.py:49-73 | Returns `True` if and only if the input is a list of dictionaries and the put succeeds; then the table maps the session to the built item. Otherwise the result is `False` and the table is unchanged |
| ChatHistory.ChatHistoryManager.GetChatHistory | app2/chat_history.py:75-95 | `None` when the get fails or there is no item; otherwise `HistoryView` of the stored item |
| SessionState.FillMissing | app/session_state.py:24-26 | Definition: each pair's key is set to its value, in order, unless already present; `FillMissingKeeps`, `FillMissingFirst` and `FillMissingPresent` are about it |
| SessionState.Initialize | app/session_state.py:12-26 | Definition: the state after filling the nine `initial_states` pairs, which `InitializeSessionState` leaves; `InitializeKeys`, `InitializeKeepsPresent`, `InitializeFillsDefault` and `InitializeIdempotent` are about it |
| SessionState.FillMissingKeeps | app/session_state.py:24-26 | Filling adds exactly the listed keys that are missing and never changes a present value |
| SessionState.FillMissingFirst | app/session_state.py:24-26 | A missing key gets the value paired with it |
| SessionState.FillMissingPresent | app/session_state.py:24-26 | When every listed key is present, filling changes nothing |
| SessionState.InitializeKeys | app/session_state.py:12-26 | After initialisation all nine keys are present, next to the keys that were there before, and no other key is added |
| SessionState.InitializeKeepsPresent | app/session_state.py:24-26 | Initialisation never overwrites a present key |
| SessionState.InitializeFillsDefault | app/session_state.py:12-26 | An absent key gets its default from the table of initial states |
| SessionState.InitializeIdempotent | app/session_state.py:24-26 | Initialising twice gives the same state as initialising once |
| SessionState.ResetPresent | app/session_state.py:73-75 | Definition: each listed key that is present is set to `None`, or `[]` for `chat_history`; `ResetPresentEffect` is about it |
| SessionState.Cleared | app/session_state.py:62-78 | Definition: the state after the reset loop and the two flag assignments, which `ClearSession` leaves; `ClearedResetsListed`, `ClearedLeavesOthers`, `ClearedFlags` and `ClearedIdempotent` are about it |
| SessionState.ResetPresentEffect | app/session_state.py:73-75 | The reset loop keeps the key set, resets each listed present key and leaves every other value alone |
| SessionState.ClearedResetsListed | app/session_state.py:62-78 | After a clear, each listed present key is `None`, except `chat_history`, which is `[]`, and the two flags, which are `False` |
| SessionState.ClearedLeavesOthers | app/session_state.py:62-75 | A key outside the list, such as `chat_sessions`, is present after a clear exactly when it was present before, with the same value |
| SessionState.ClearedFlags | app/session_state.py:77-78 | After a clear, `initialized` and `pdf_processed` are `False` whether or not they existed, and no other key is added |
| SessionState.ClearedIdempotent | app/session_state.py:60-78 | Clearing twice gives the same state as clearing once |
| SessionState.Turn | app/session_state.py:83-87 | Definition: the new turn, a dictionary of the role, the message and the timestamp |
| SessionState.WithTurn | app/session_state.py:83-92 | Definition: the history created as `[]` when absent and the turn appended, or a raise when the history present is not a list; `UpdateChatHistory` leaves it, and `WithTurnEffect` and `FirstTurn` are about it |
| SessionState.WithTurnEffect | app/session_state.py:83-92 | Appending fails exactly when a present history is not a list. Otherwise the history grows by exactly the new turn, the earlier entries stay as they were, and every other key is unchanged |
| SessionState.FirstTurn | app/session_state.py:89-92 | Without a history, the first turn creates a one-element list |
| SessionState.SessionManager.constructor | app/session_state.py:94-95 | The manager works on the session dictionary as it stands |
| SessionState.SessionManager.InitializeSessionState | app/session_state.py:10-26 | The loop leaves the state `Initialize(old state)` |
| SessionState.SessionManager.ClearSession | app/session_state.py:60-78 | The loop and the two flag assignments leave the state `Cleared(old state)` |
| SessionState.SessionManager.UpdateChatHistory | app/session_state.py:81-92 | Reports success exactly when the append can happen; on success the state is `WithTurn(old state)`, otherwise it is unchanged |

## Left out

- The PDF library: `read_pdf` takes the pages' extracted texts as a `seq<string>`, so opening and parsing the PDF is outside the model.
- SplitText: on a non-empty text with `overlap >= chunk_size` the source's loop never ends; the precondition leaves that call out, since the model has no non-terminating result for it.
- `generate_session_id` in `app2/utils.py`: a `uuid4` call, which is randomness.
- The DynamoDB service:
  - a put, a get and a scan are modelled by their outcomes, which are parameters: `putSucceeds`, `getSucceeds`, and the scanned items or a raised error;
  - `ChatHistoryManager.__init__`'s environment lookup and connection check are not modelled;
  - the scan's expiry filter, projection and page limit run server-side and are not modelled;
  - the numeric and binary attribute types are not modelled: a stored integer returns as a `Decimal`, and here it stays an integer.
- The clock: `datetime.now()` and `datetime.utcnow()` are parameters. `save_chat_history` reads the clock once per message and twice more for the item. The model uses one reading, `Clock`, for all of them. Its seconds are an exact real, where Python uses a floating-point number.
- Printing the error message in each `except` branch is output only and is left out.
- Dictionary insertion order is not modelled: dictionaries are `map`s. This does not affect the modelled functions, except that decoding a dictionary stored as `messages` yields one `{}` per key, which are all equal.
- Aliasing: `update_chat_history` appends to the list object in place. The model replaces the value under `chat_history`, so another reference to the same list would not see the new turn.
- UpdateChatHistory: where the source raises because a present `chat_history` is not a list, the method returns `false` and leaves the state unchanged. The result is an addition of the model, since the source returns nothing.
- ListSessions: keys that are mutually comparable without being strings (numbers, bools, lists) would be sorted by Python. The model treats every list of two or more items with a non-string `last_updated` as a failing sort.
- ListSessions: the sort's stability, the order of items with equal keys, is not stated; the contract fixes the order only up to equal keys.
- `SessionManager.load_session` in `app/session_state.py` is not part of this model: it only calls S3, FAISS and the LLM factory.
- `app/utils.py`'s `split_text` is not part of this model: it delegates to a library text splitter whose algorithm is not shown.
- The embedding store, the vector index, the LLM calls and the Streamlit pages are not part of this model.
