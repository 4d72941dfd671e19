/** The transfer check tracker of src/cython_ext/transfer_pool_core.py. */
module TransferChecks {
  import opened Wrappers

  type TransferId = nat

  type States = map<TransferId, map<string, int>>

  const REQUIRED: set<string> := {"balance", "cooldown", "daily_limit"}

  function StateOf(s: States, id: TransferId): map<string, int> {
    if id in s then s[id] else map[]
  }

  datatype Event = Record(id: TransferId, check: string, result: int) | Remove(id: TransferId) | Clear

  function Step(s: States, e: Event): States {
    match e
    case Record(id, check, result) => s[id := StateOf(s, id)[check := result]]
    case Remove(id) => s - {id}
    case Clear => map[]
  }

  function Replay(trace: seq<Event>): States {
    if trace == [] then map[] else Step(Replay(trace[..|trace| - 1]), trace[|trace| - 1])
  }

  class TransferCheckStateStore {
    var states: States

    constructor ()
      ensures states == Replay([])
    {
      states := map[];
    }

    method RecordCheck(id: TransferId, check: string, result: int) returns (complete: bool)
      modifies this
      ensures states == Step(old(states), Record(id, check, result))
      ensures complete <==> REQUIRED <= states[id].Keys
      ensures complete <==> "balance" in states[id] && "cooldown" in states[id] && "daily_limit" in states[id]
    {
      var state := if id in states then states[id] else map[];
      state := state[check := result];
      states := states[id := state];
      complete := REQUIRED <= state.Keys;
    }

    method GetState(id: TransferId) returns (state: map<string, int>)
      ensures state == StateOf(states, id)
    {
      state := if id in states then states[id] else map[];
    }

    method AllPassed(id: TransferId) returns (passed: bool)
      ensures passed <==> forall name :: name in REQUIRED ==> name in StateOf(states, id) && states[id][name] == 1
    {
      if id !in states || states[id] == map[] {
        assert "balance" in REQUIRED;
        return false;
      }
      var state := states[id];
      passed := forall name | name in REQUIRED :: name in state && state[name] == 1;
    }

    method RemoveTransfer(id: TransferId) returns (removed: bool)
      modifies this
      ensures states == Step(old(states), Remove(id))
      ensures removed <==> id in old(states)
    {
      removed := id in states;
      states := states - {id};
    }

    method ClearAll()
      modifies this
      ensures states == Step(old(states), Clear)
    {
      states := map[];
    }
  }

  // ---------------------------------------------------------------- the store is its trace

  /** The last result recorded for the check since the transfer was last removed. */
  function Latest(trace: seq<Event>, id: TransferId, check: string): Option<int> {
    if trace == [] then None
    else
      var e := trace[|trace| - 1];
      if e == Clear || e == Remove(id) then None
      else if e.Record? && e.id == id && e.check == check then Some(e.result)
      else Latest(trace[..|trace| - 1], id, check)
  }

  /** After any trace a transfer's state holds exactly the latest results, and no transfer is kept without one. */
  lemma {:induction false} StoreHoldsTheLatest(trace: seq<Event>, id: TransferId)
    ensures forall check ::
              (check in StateOf(Replay(trace), id) <==> Latest(trace, id, check).Some?)
              && (check in StateOf(Replay(trace), id) ==> Latest(trace, id, check) == Some(Replay(trace)[id][check]))
    ensures id in Replay(trace) <==> exists check :: Latest(trace, id, check).Some?
  {
    if trace != [] {
      var e := trace[|trace| - 1];
      StoreHoldsTheLatest(trace[..|trace| - 1], id);
      if e.Record? && e.id == id {
        assert Latest(trace, id, e.check).Some?;
      } else if e != Clear && e != Remove(id) {
        assert forall check :: Latest(trace, id, check) == Latest(trace[..|trace| - 1], id, check);
      }
    }
  }

  /** record answers True exactly when every required check has a result since the last removal. */
  lemma RecordCompletesExactly(trace: seq<Event>, id: TransferId, check: string, result: int)
    ensures
      var trace' := trace + [Record(id, check, result)];
      REQUIRED <= Step(Replay(trace), Record(id, check, result))[id].Keys
      <==> (&& Latest(trace', id, "balance").Some?
            && Latest(trace', id, "cooldown").Some?
            && Latest(trace', id, "daily_limit").Some?)
  {
    var trace' := trace + [Record(id, check, result)];
    assert trace'[..|trace'| - 1] == trace;
    StoreHoldsTheLatest(trace', id);
    assert Replay(trace') == Step(Replay(trace), Record(id, check, result));
  }

  /** all_passed holds exactly when the latest result of every required check is 1. */
  lemma PassesExactly(trace: seq<Event>, id: TransferId)
    ensures (forall name :: name in REQUIRED ==>
               name in StateOf(Replay(trace), id) && Replay(trace)[id][name] == 1)
       <==> Latest(trace, id, "balance") == Latest(trace, id, "cooldown") == Latest(trace, id, "daily_limit") == Some(1)
  {
    StoreHoldsTheLatest(trace, id);
  }

  /** Two records commute exactly when they are for different checks or transfers, or carry one result. */
  lemma RecordsCommuteExactly(s: States, a: Event, b: Event)
    requires a.Record? && b.Record?
    ensures Step(Step(s, a), b) == Step(Step(s, b), a) <==> a.id != b.id || a.check != b.check || a.result == b.result
  {
    if a.id == b.id {
      CommuteWithin(s, a, b);
    } else {
      assert Step(Step(s, a), b) == Step(Step(s, b), a);
    }
  }

  lemma CommuteWithin(s: States, a: Event, b: Event)
    requires a.Record? && b.Record? && a.id == b.id
    ensures Step(Step(s, a), b) == Step(Step(s, b), a) <==> a.check != b.check || a.result == b.result
  {
    var state := StateOf(s, a.id);
    var x, y := state[a.check := a.result][b.check := b.result], state[b.check := b.result][a.check := a.result];
    assert Step(Step(s, a), b) == s[a.id := x] && Step(Step(s, b), a) == s[a.id := y];
    assert x == y <==> s[a.id := x] == s[a.id := y] by {
      assert s[a.id := x][a.id] == x && s[a.id := y][a.id] == y;
    }
    assert x[b.check] == b.result && y[a.check] == a.result;
    if a.check != b.check || a.result == b.result {
      assert x == y;
    }
  }
}
