/** The per-user session state of the web front end: a dictionary of named
    values that the session manager fills with defaults, clears, and
    extends with chat turns. */
module SessionState {
  import opened PyValues

  /** The keys and default values set on first use, in declaration order. */
  const InitialStates: seq<(string, Value)> := [
    ("initialized", Bool(false)),
    ("chat_history", List([])),
    ("texts", Null),
    ("vectorstore", Null),
    ("conversation_chain", Null),
    ("session_id", Null),
    ("chat_sessions", List([])),
    ("selected_session", Null),
    ("pdf_processed", Bool(false))
  ]

  /** The keys a clear resets. */
  const SessionVars: seq<string> := [
    "initialized", "chat_history", "texts", "vectorstore",
    "conversation_chain", "session_id", "selected_session", "pdf_processed"
  ]

  /** The keys of a list of key/value pairs. */
  function KeysOf(pairs: seq<(string, Value)>): set<string>
  {
    set i | 0 <= i < |pairs| :: pairs[i].0
  }

  // ---------------------------------------------------------------------
  // Initialisation
  // ---------------------------------------------------------------------

  /** Adds each pair's key with its value unless the key is already there. */
  function FillMissing(state: map<string, Value>, pairs: seq<(string, Value)>): map<string, Value>
  {
    if pairs == [] then state
    else
      var before := FillMissing(state, pairs[..|pairs| - 1]);
      var (key, value) := pairs[|pairs| - 1];
      if key in before then before else before[key := value]
  }

  /** The state after initialisation. */
  function Initialize(state: map<string, Value>): map<string, Value>
  {
    FillMissing(state, InitialStates)
  }

  /** Filling adds exactly the missing keys and never overwrites a present
      one. */
  lemma {:induction false} FillMissingKeeps(state: map<string, Value>, pairs: seq<(string, Value)>)
    ensures FillMissing(state, pairs).Keys == state.Keys + KeysOf(pairs)
    ensures forall k :: k in state ==> FillMissing(state, pairs)[k] == state[k]
    decreases |pairs|
  {
    if pairs != [] {
      var init := pairs[..|pairs| - 1];
      FillMissingKeeps(state, init);
      assert KeysOf(pairs) == KeysOf(init) + {pairs[|pairs| - 1].0} by {
        forall k | k in KeysOf(pairs) ensures k in KeysOf(init) + {pairs[|pairs| - 1].0} {
          var i :| 0 <= i < |pairs| && pairs[i].0 == k;
          if i < |pairs| - 1 { assert init[i] == pairs[i]; }
        }
        forall k | k in KeysOf(init) ensures k in KeysOf(pairs) {
          var i :| 0 <= i < |init| && init[i].0 == k;
          assert pairs[i] == init[i];
        }
      }
    }
  }

  /** A missing key takes the value of its first pair. */
  lemma {:induction false} FillMissingFirst(state: map<string, Value>, pairs: seq<(string, Value)>, j: nat)
    requires j < |pairs| && pairs[j].0 !in state
    requires forall i :: 0 <= i < j ==> pairs[i].0 != pairs[j].0
    ensures pairs[j].0 in FillMissing(state, pairs)
    ensures FillMissing(state, pairs)[pairs[j].0] == pairs[j].1
    decreases |pairs|
  {
    var init := pairs[..|pairs| - 1];
    var key := pairs[j].0;
    if j < |pairs| - 1 {
      FillMissingFirst(state, init, j);
    } else {
      FillMissingKeeps(state, init);
      forall i | 0 <= i < |init| ensures init[i].0 != key {
        assert init[i] == pairs[i];
      }
      assert key !in KeysOf(init);
    }
  }

  /** Filling with keys that are all present changes nothing. */
  lemma {:induction false} FillMissingPresent(state: map<string, Value>, pairs: seq<(string, Value)>)
    requires KeysOf(pairs) <= state.Keys
    ensures FillMissing(state, pairs) == state
    decreases |pairs|
  {
    if pairs != [] {
      var init := pairs[..|pairs| - 1];
      assert KeysOf(init) <= KeysOf(pairs) by {
        forall k | k in KeysOf(init) ensures k in KeysOf(pairs) {
          var i :| 0 <= i < |init| && init[i].0 == k;
          assert pairs[i] == init[i];
        }
      }
      FillMissingPresent(state, init);
      assert pairs[|pairs| - 1].0 in KeysOf(pairs);
    }
  }

  /** After initialisation all nine keys are present, next to those that
      were there before. */
  lemma InitializeKeys(state: map<string, Value>)
    ensures Initialize(state).Keys == state.Keys + KeysOf(InitialStates)
    ensures forall j :: 0 <= j < |InitialStates| ==> InitialStates[j].0 in Initialize(state)
  {
    FillMissingKeeps(state, InitialStates);
    forall j | 0 <= j < |InitialStates| ensures InitialStates[j].0 in KeysOf(InitialStates) {
    }
  }

  /** Initialisation never overwrites a key that is present. */
  lemma InitializeKeepsPresent(state: map<string, Value>, k: string)
    requires k in state
    ensures k in Initialize(state) && Initialize(state)[k] == state[k]
  {
    FillMissingKeeps(state, InitialStates);
  }

  /** An absent key gets its default. */
  lemma InitializeFillsDefault(state: map<string, Value>, j: nat)
    requires j < |InitialStates| && InitialStates[j].0 !in state
    ensures InitialStates[j].0 in Initialize(state)
    ensures Initialize(state)[InitialStates[j].0] == InitialStates[j].1
  {
    FillMissingFirst(state, InitialStates, j);
  }

  /** Initialising twice is initialising once. */
  lemma InitializeIdempotent(state: map<string, Value>)
    ensures Initialize(Initialize(state)) == Initialize(state)
  {
    InitializeKeys(state);
    FillMissingPresent(Initialize(state), InitialStates);
  }

  // ---------------------------------------------------------------------
  // Clearing
  // ---------------------------------------------------------------------

  /** The value a clear gives a listed key. */
  function ClearedValue(key: string): Value
  {
    if key != "chat_history" then Null else List([])
  }

  /** Resets each listed key that is present. */
  function ResetPresent(state: map<string, Value>, keys: seq<string>): map<string, Value>
  {
    if keys == [] then state
    else
      var before := ResetPresent(state, keys[..|keys| - 1]);
      var key := keys[|keys| - 1];
      if key in before then before[key := ClearedValue(key)] else before
  }

  /** The state after a clear: the listed keys reset where present, then
      both flags set to `False`. */
  function Cleared(state: map<string, Value>): map<string, Value>
  {
    ResetPresent(state, SessionVars)["initialized" := Bool(false)]["pdf_processed" := Bool(false)]
  }

  /** Resetting keeps the key set, resets the listed present keys and leaves
      every other value alone. */
  lemma {:induction false} ResetPresentEffect(state: map<string, Value>, keys: seq<string>)
    ensures ResetPresent(state, keys).Keys == state.Keys
    ensures forall k :: k in state && k in keys ==> ResetPresent(state, keys)[k] == ClearedValue(k)
    ensures forall k :: k in state && k !in keys ==> ResetPresent(state, keys)[k] == state[k]
    decreases |keys|
  {
    if keys != [] {
      var init := keys[..|keys| - 1];
      ResetPresentEffect(state, init);
      assert forall k :: k in keys <==> k in init || k == keys[|keys| - 1] by {
        assert keys == init + [keys[|keys| - 1]];
      }
    }
  }

  /** Clearing resets every listed key that is present: the chat history to
      an empty list, the flags to `False`, the others to `None`. */
  lemma ClearedResetsListed(state: map<string, Value>, k: string)
    requires k in SessionVars && k in state
    ensures k in Cleared(state)
    ensures Cleared(state)[k] ==
      if k == "initialized" || k == "pdf_processed" then Bool(false)
      else if k == "chat_history" then List([])
      else Null
  {
    ResetPresentEffect(state, SessionVars);
  }

  /** Clearing leaves alone every key it does not list. */
  lemma ClearedLeavesOthers(state: map<string, Value>, k: string)
    requires k !in SessionVars
    ensures k in Cleared(state) <==> k in state
    ensures k in state ==> Cleared(state)[k] == state[k]
  {
    ResetPresentEffect(state, SessionVars);
  }

  /** After a clear both flags are `False`, present before or not, and no
      key but the flags is added. */
  lemma ClearedFlags(state: map<string, Value>)
    ensures Cleared(state)["initialized"] == Bool(false)
    ensures Cleared(state)["pdf_processed"] == Bool(false)
    ensures Cleared(state).Keys == state.Keys + {"initialized", "pdf_processed"}
  {
    ResetPresentEffect(state, SessionVars);
  }

  /** Clearing twice is clearing once. */
  lemma ClearedIdempotent(state: map<string, Value>)
    ensures Cleared(Cleared(state)) == Cleared(state)
  {
    var once := Cleared(state);
    ResetPresentEffect(state, SessionVars);
    ResetPresentEffect(once, SessionVars);
    forall k | k in once ensures Cleared(once)[k] == once[k] {
      if k !in SessionVars {
        assert k != "initialized" && k != "pdf_processed";
      }
    }
  }

  // ---------------------------------------------------------------------
  // Chat turns
  // ---------------------------------------------------------------------

  /** One chat turn as the session keeps it. */
  function Turn(role: string, message: string, timestamp: string): Value
  {
    Dict(map["role" := Str(role), "message" := Str(message), "timestamp" := Str(timestamp)])
  }

  /** Appends a turn to the chat history, creating it when absent; raises
      when the history present is not a list. */
  function WithTurn(state: map<string, Value>, role: string, message: string, timestamp: string)
    : Outcome<map<string, Value>>
  {
    var s := if "chat_history" in state then state else state["chat_history" := List([])];
    match s["chat_history"]
    case List(turns) => Returned(s["chat_history" := List(turns + [Turn(role, message, timestamp)])])
    case _ => Raised
  }

  /** A turn grows the history by exactly one entry, the new turn, leaves the
      earlier entries and every other key alone, and fails only when the
      present history is not a list. */
  lemma WithTurnEffect(state: map<string, Value>, role: string, message: string, timestamp: string)
    ensures var r := WithTurn(state, role, message, timestamp);
      r.Raised? <==> ("chat_history" in state && !state["chat_history"].List?)
    ensures var r := WithTurn(state, role, message, timestamp);
      r.Returned? ==>
        var before := if "chat_history" in state then state["chat_history"].items else [];
        var after := r.value["chat_history"];
        after.List? && after.items == before + [Turn(role, message, timestamp)] &&
        r.value.Keys == state.Keys + {"chat_history"} &&
        forall k :: k in state && k != "chat_history" ==> r.value[k] == state[k]
  {
    var s := if "chat_history" in state then state else state["chat_history" := List([])];
    assert s.Keys == state.Keys + {"chat_history"};
    assert forall k :: k in state && k != "chat_history" ==> s[k] == state[k];
  }

  /** Without a history the first turn makes a one-element list. */
  lemma FirstTurn(state: map<string, Value>, role: string, message: string, timestamp: string)
    requires "chat_history" !in state
    ensures WithTurn(state, role, message, timestamp) ==
      Returned(state["chat_history" := List([Turn(role, message, timestamp)])])
  {
    var t := Turn(role, message, timestamp);
    assert [] + [t] == [t];
    assert state["chat_history" := List([])]["chat_history" := List([t])] == state["chat_history" := List([t])];
  }

  // ---------------------------------------------------------------------
  // The session manager
  // ---------------------------------------------------------------------

  /** The session manager over the front end's state dictionary. */
  class SessionManager {
    var sessionState: map<string, Value>

    constructor (existing: map<string, Value>)
      ensures sessionState == existing
    {
      sessionState := existing;
    }

    /** Sets each default whose key is absent. */
    method InitializeSessionState()
      modifies this
      ensures sessionState == Initialize(old(sessionState))
    {
      for i := 0 to |InitialStates|
        invariant sessionState == FillMissing(old(sessionState), InitialStates[..i])
      {
        assert InitialStates[..i + 1][..i] == InitialStates[..i];
        var (key, value) := InitialStates[i];
        if key !in sessionState {
          sessionState := sessionState[key := value];
        }
      }
      assert InitialStates[..|InitialStates|] == InitialStates;
    }

    /** Resets the listed keys that are present, then sets both flags. */
    method ClearSession()
      modifies this
      ensures sessionState == Cleared(old(sessionState))
    {
      for i := 0 to |SessionVars|
        invariant sessionState == ResetPresent(old(sessionState), SessionVars[..i])
      {
        assert SessionVars[..i + 1][..i] == SessionVars[..i];
        var key := SessionVars[i];
        if key in sessionState {
          sessionState := sessionState[key := ClearedValue(key)];
        }
      }
      assert SessionVars[..|SessionVars|] == SessionVars;
      sessionState := sessionState["initialized" := Bool(false)];
      sessionState := sessionState["pdf_processed" := Bool(false)];
    }

    /** Appends one turn to the chat history. Returns `false`, with the state
        unchanged, when the `append` would raise. */
    method UpdateChatHistory(role: string, message: string, timestamp: string) returns (appended: bool)
      modifies this
      ensures appended <==> WithTurn(old(sessionState), role, message, timestamp).Returned?
      ensures appended ==> sessionState == WithTurn(old(sessionState), role, message, timestamp).value
      ensures !appended ==> sessionState == old(sessionState)
    {
      var newMessage := Turn(role, message, timestamp);
      var s := sessionState;
      if "chat_history" !in s {
        s := s["chat_history" := List([])];
      }
      match s["chat_history"]
      case List(turns) =>
        sessionState := s["chat_history" := List(turns + [newMessage])];
        appended := true;
      case _ =>
        appended := false;
    }
  }
}
