/**
  The background schedulers of src/bot/commands/council.py and
  src/bot/commands/supreme_assembly.py: which proposal results are broadcast, and how often.
*/
module Scheduler {
  import opened Wrappers

  type ProposalId = nat

  const ONGOING := "進行中"

  /** What reading a due proposal and broadcasting its result comes to. */
  datatype Reading =
    | ReadFails                                  // get_proposal raises, errs, or finds nothing
    | Read(status: string, guildKnown: bool, broadcastRaises: bool)
  {
    predicate Ended() { Read? && status != ONGOING }

    predicate Broadcasts() { Ended() && guildKnown && !broadcastRaises }
  }

  datatype Visit = Visit(id: ProposalId, reading: Reading)

  /**
    One tick.  The due proposals are listed first, with the reading each would meet when its
    turn comes; expiring, or sending reminders, may raise before the broadcasts start.
   */
  datatype Tick = Tick(due: Option<seq<Visit>>, expireRaises: bool, remindersRaise: bool) {
    predicate Reached() { due.Some? && !expireRaises && !remindersRaise }
  }

  /** The broadcasts completed by a pass over the due proposals. */
  function Pass(done: set<ProposalId>, visits: seq<Visit>): seq<ProposalId>
    decreases |visits|
  {
    if visits == [] then []
    else if visits[0].id !in done && visits[0].reading.Broadcasts() then
      [visits[0].id] + Pass(done + {visits[0].id}, visits[1..])
    else Pass(done, visits[1..])
  }

  function Ids(s: seq<ProposalId>): set<ProposalId> {
    set id | id in s
  }

  /** `broadcasted` is the set of the source; `sent` lists the completed broadcasts in order. */
  datatype State = State(broadcasted: set<ProposalId>, sent: seq<ProposalId>)

  function Next(s: State, t: Tick): State {
    if t.Reached() then
      var added := Pass(s.broadcasted, t.due.value);
      State(s.broadcasted + Ids(added), s.sent + added)
    else s
  }

  class Runner {
    var broadcasted: set<ProposalId>
    var sent: seq<ProposalId>

    ghost function View(): State
      reads this
    {
      State(broadcasted, sent)
    }

    constructor ()
      ensures View() == State({}, [])
    {
      broadcasted, sent := {}, [];
    }

    method RunTick(t: Tick)
      modifies this
      ensures View() == Next(old(View()), t)
    {
      if t.due.None? || t.expireRaises || t.remindersRaise {
        return;
      }
      var dueBefore := t.due.value;
      var i := 0;
      ghost var added := [];
      while i < |dueBefore|
        invariant 0 <= i <= |dueBefore|
        invariant Pass(old(broadcasted), dueBefore) == added + Pass(broadcasted, dueBefore[i..])
        invariant broadcasted == old(broadcasted) + Ids(added) && sent == old(sent) + added
      {
        var visit := dueBefore[i];
        assert dueBefore[i..][1..] == dueBefore[i + 1..];
        i := i + 1;
        if visit.id in broadcasted {
          continue;
        }
        if visit.reading.Ended() && visit.reading.guildKnown && !visit.reading.broadcastRaises {
          assert Ids(added + [visit.id]) == Ids(added) + {visit.id};
          added := added + [visit.id];
          sent := sent + [visit.id];
          broadcasted := broadcasted + {visit.id};
        }
      }
      assert dueBefore[i..] == [];
    }
  }

  // ---------------------------------------------------------------- any number of ticks

  function Run(ticks: seq<Tick>): State {
    if ticks == [] then State({}, []) else Next(Run(ticks[..|ticks| - 1]), ticks[|ticks| - 1])
  }

  /** In the given tick the id was listed due, its reading showed it ended, and its broadcast completed. */
  predicate BroadcastIn(t: Tick, id: ProposalId) {
    t.Reached() && exists v :: v in t.due.value && v.id == id && v.reading.Broadcasts()
  }

  predicate NoRepeats(s: seq<ProposalId>) {
    forall i, j :: 0 <= i < j < |s| ==> s[i] != s[j]
  }

  lemma {:induction false} PassFacts(done: set<ProposalId>, visits: seq<Visit>)
    ensures NoRepeats(Pass(done, visits)) && Ids(Pass(done, visits)) !! done
    ensures forall id :: id in Pass(done, visits) <==>
              id !in done && exists v :: v in visits && v.id == id && v.reading.Broadcasts()
    decreases |visits|
  {
    if visits != [] {
      var v := visits[0];
      assert forall u :: u in visits <==> u == v || u in visits[1..];
      if v.id !in done && v.reading.Broadcasts() {
        PassFacts(done + {v.id}, visits[1..]);
        var rest := Pass(done + {v.id}, visits[1..]);
        assert forall id :: id in rest ==> id in Ids(rest);
        assert v.id !in rest;
      } else {
        PassFacts(done, visits[1..]);
      }
    }
  }

  /**
    Over any run nothing is broadcast twice, the set equals the completed broadcasts, and it
    holds exactly the ids that in some tick were due, had ended, and could be broadcast.
   */
  lemma {:induction false} EachResultIsBroadcastOnce(ticks: seq<Tick>)
    ensures NoRepeats(Run(ticks).sent)
    ensures Run(ticks).broadcasted == Ids(Run(ticks).sent)
    ensures forall id :: id in Run(ticks).broadcasted <==> exists t :: t in ticks && BroadcastIn(t, id)
  {
    if ticks != [] {
      var before, t := Run(ticks[..|ticks| - 1]), ticks[|ticks| - 1];
      EachResultIsBroadcastOnce(ticks[..|ticks| - 1]);
      assert ticks == ticks[..|ticks| - 1] + [t];
      assert forall u :: u in ticks <==> u in ticks[..|ticks| - 1] || u == t;
      if t.Reached() {
        var added := Pass(before.broadcasted, t.due.value);
        PassFacts(before.broadcasted, t.due.value);
        forall i, j | 0 <= i < |before.sent| && 0 <= j < |added|
          ensures before.sent[i] != added[j]
        {
          assert before.sent[i] in Ids(before.sent) && added[j] in Ids(added);
        }
        assert Ids(before.sent + added) == Ids(before.sent) + Ids(added);
        assert forall id :: id in Ids(added) <==> id !in before.broadcasted && BroadcastIn(t, id);
      } else {
        assert forall id :: !BroadcastIn(t, id);
      }
      forall id
        ensures id in Run(ticks).broadcasted <==> id in before.broadcasted || BroadcastIn(t, id)
      {
      }
    }
  }

  // ---------------------------------------------------------------- the runner among other actors

  datatype Proposal = Proposal(status: string, deadline: int)

  /** Where the runner stands between two of its awaits. */
  datatype Phase =
    | Idle
    | Listed(due: seq<ProposalId>)                               // awaits expire_due_proposals
    | Expiring(due: seq<ProposalId>, todo: seq<ProposalId>)      // the service awaits its next mark_status
    | Reminding(due: seq<ProposalId>)
    | Broadcasting(seen: seq<Visit>, rest: seq<ProposalId>)      // awaits get_proposal of the first left
    | Sending(seen: seq<Visit>, id: ProposalId, status: string, rest: seq<ProposalId>)
  {
    /** The runner has not come to its broadcasts. */
    predicate Early() { Listed? || Expiring? || Reminding? }
  }

  /**
    Clock, proposals and runner.  `ticks` and `ended` are history: the ticks that are over, and
    for each proposal that has ended the number of the tick during or before which it did.
   */
  datatype System = System(now: int, proposals: map<ProposalId, Proposal>, phase: Phase, runner: State,
                           ticks: seq<Tick>, ended: map<ProposalId, nat>)

  const INITIAL: System := System(0, map[], Idle, State({}, []), [], map[])

  datatype Event =
    // anyone: time, the vote and cancel commands, executions
    | TimePasses(to: int)
    | Opens(id: ProposalId, deadline: int)
    | Closes(id: ProposalId, status: string)
    // the runner
    | Lists(due: seq<ProposalId>)
    | ListingFails
    | ExpiryLists(todo: seq<ProposalId>)
    | ExpiryMarks(status: string)
    | ExpiryEnds
    | ExpiryErrs                   // the service comes back with an error
    | TickFails                    // an exception before the broadcasts
    | RemindersEnd
    | Skips                        // the id was broadcast before
    | ReadingFails
    | Reads(guildKnown: bool)
    | Sends
    | SendingFails
    | TickEnds

  /** fn_list_due_proposals: the rows in progress past their deadline, each once, in some order. */
  ghost predicate ListsDue(s: System, due: seq<ProposalId>) {
    && (forall id :: id in due <==>
          id in s.proposals && s.proposals[id].status == ONGOING && s.proposals[id].deadline <= s.now)
    && NoRepeats(due)
  }

  ghost predicate Enabled(s: System, e: Event) {
    match e
    case TimePasses(to) => s.now <= to
    case Opens(id, _) => id !in s.proposals
    case Closes(id, status) => id in s.proposals && status != ONGOING
    case Lists(due) => s.phase.Idle? && ListsDue(s, due)
    case ListingFails => s.phase.Idle?
    case ExpiryLists(todo) => s.phase.Listed? && ListsDue(s, todo)
    case ExpiryMarks(status) =>
      s.phase.Expiring? && s.phase.todo != [] && s.phase.todo[0] in s.proposals && status != ONGOING
    case ExpiryEnds => s.phase.Expiring? && s.phase.todo == []
    case ExpiryErrs => s.phase.Listed? || s.phase.Expiring?
    case TickFails => s.phase.Early()
    case RemindersEnd => s.phase.Reminding?
    case Skips => s.phase.Broadcasting? && s.phase.rest != [] && s.phase.rest[0] in s.runner.broadcasted
    case ReadingFails => s.phase.Broadcasting? && s.phase.rest != [] && s.phase.rest[0] !in s.runner.broadcasted
    case Reads(_) =>
      s.phase.Broadcasting? && s.phase.rest != [] && s.phase.rest[0] !in s.runner.broadcasted
      && s.phase.rest[0] in s.proposals
    case Sends => s.phase.Sending?
    case SendingFails => s.phase.Sending?
    case TickEnds => s.phase.Broadcasting? && s.phase.rest == []
  }

  /** Any change of status to another than in progress. */
  function Marked(s: System, id: ProposalId, status: string): System
    requires id in s.proposals
  {
    s.(proposals := s.proposals[id := s.proposals[id].(status := status)],
       ended := if s.proposals[id].status == ONGOING then s.ended[id := |s.ticks|] else s.ended)
  }

  function Unread(due: seq<ProposalId>): seq<Visit> {
    seq(|due|, i requires 0 <= i < |due| => Visit(due[i], ReadFails))
  }

  function TickOver(s: System, t: Tick): System {
    s.(phase := Idle, ticks := s.ticks + [t])
  }

  function Seen(s: System, seen: seq<Visit>, v: Visit, rest: seq<ProposalId>): System {
    s.(phase := Broadcasting(seen + [v], rest))
  }

  function Apply(s: System, e: Event): System
    requires Enabled(s, e)
  {
    var p := s.phase;
    match e
    case TimePasses(to) => s.(now := to)
    case Opens(id, deadline) => s.(proposals := s.proposals[id := Proposal(ONGOING, deadline)])
    case Closes(id, status) => Marked(s, id, status)
    case Lists(due) => s.(phase := Listed(due))
    case ListingFails => TickOver(s, Tick(None, false, false))
    case ExpiryLists(todo) => s.(phase := Expiring(p.due, todo))
    case ExpiryMarks(status) => Marked(s, p.todo[0], status).(phase := Expiring(p.due, p.todo[1..]))
    case ExpiryEnds => s.(phase := Reminding(p.due))
    case ExpiryErrs => s.(phase := Reminding(p.due))
    case TickFails => TickOver(s, Tick(Some(Unread(p.due)), !p.Reminding?, p.Reminding?))
    case RemindersEnd => s.(phase := Broadcasting([], p.due))
    case Skips => Seen(s, p.seen, Visit(p.rest[0], ReadFails), p.rest[1..])
    case ReadingFails => Seen(s, p.seen, Visit(p.rest[0], ReadFails), p.rest[1..])
    case Reads(guildKnown) =>
      var status := s.proposals[p.rest[0]].status;
      if status != ONGOING && guildKnown then s.(phase := Sending(p.seen, p.rest[0], status, p.rest[1..]))
      else Seen(s, p.seen, Visit(p.rest[0], Read(status, guildKnown, false)), p.rest[1..])
    case Sends =>
      Seen(s, p.seen, Visit(p.id, Read(p.status, true, false)), p.rest)
      .(runner := State(s.runner.broadcasted + {p.id}, s.runner.sent + [p.id]))
    case SendingFails => Seen(s, p.seen, Visit(p.id, Read(p.status, true, true)), p.rest)
    case TickEnds => TickOver(s, Tick(Some(p.seen), false, false))
  }

  ghost predicate Runs(s: System, events: seq<Event>)
    decreases |events|
  {
    events == [] || (Enabled(s, events[0]) && Runs(Apply(s, events[0]), events[1..]))
  }

  ghost function After(s: System, events: seq<Event>): System
    requires Runs(s, events)
    decreases |events|
  {
    if events == [] then s else After(Apply(s, events[0]), events[1..])
  }

  // ---------------------------------------------------------------- invariants

  /** The ids of the current tick, and what was read of them. */
  function Current(p: Phase): seq<Visit> {
    match p
    case Idle => []
    case Listed(due) => Unread(due)
    case Expiring(due, _) => Unread(due)
    case Reminding(due) => Unread(due)
    case Broadcasting(seen, rest) => seen + Unread(rest)
    case Sending(seen, id, status, rest) => seen + [Visit(id, Read(status, true, true))] + Unread(rest)
  }

  /** A proposal has a number in `ended` exactly when its status has left progress. */
  ghost predicate EndedInv(s: System) {
    && (forall id :: id in s.ended <==> id in s.proposals && s.proposals[id].status != ONGOING)
    && (forall id :: id in s.ended ==> s.ended[id] <= |s.ticks|)
  }

  /** A visit fits the proposal: it was listed before the end, and read as ended only in the tick of the end. */
  predicate Fits(s: System, v: Visit, tick: nat) {
    && v.id in s.proposals
    && (v.id in s.ended ==> tick <= s.ended[v.id])
    && (v.reading.Ended() ==> v.id in s.ended && s.ended[v.id] == tick)
  }

  predicate LogInv(s: System) {
    forall j, v :: 0 <= j < |s.ticks| && s.ticks[j].due.Some? && v in s.ticks[j].due.value ==> Fits(s, v, j)
  }

  predicate CurrentInv(s: System) {
    forall v :: v in Current(s.phase) ==> Fits(s, v, |s.ticks|)
  }

  /** What is listed due was past its deadline, and is ended or still to be marked once expiry has its own list. */
  predicate DueInv(s: System) {
    match s.phase
    case Listed(due) => forall id :: id in due ==> id in s.proposals && s.proposals[id].deadline <= s.now
    case Expiring(due, todo) =>
      && (forall id :: id in due ==> id in s.ended || id in todo)
      && (forall id :: id in todo ==> id in s.proposals)
    case _ => true
  }

  /** A run of whole ticks, and the visits of the tick under way. */
  function Upto(s: State, seen: seq<Visit>): State {
    Next(s, Tick(Some(seen), false, false))
  }

  predicate RunnerInv(s: System) {
    s.runner == match s.phase
                case Broadcasting(seen, _) => Upto(Run(s.ticks), seen)
                case Sending(seen, id, _, _) => Upto(Run(s.ticks), seen)
                case _ => Run(s.ticks)
  }

  /** What is being sent has not been sent before. */
  predicate SendingInv(s: System) {
    s.phase.Sending? ==> s.phase.id !in s.runner.broadcasted && s.phase.status != ONGOING
  }

  ghost predicate Inv(s: System) {
    EndedInv(s) && LogInv(s) && CurrentInv(s) && DueInv(s) && RunnerInv(s) && SendingInv(s)
  }

  lemma StepKeepsEndedInv(s: System, e: Event)
    requires EndedInv(s) && Enabled(s, e)
    ensures EndedInv(Apply(s, e))
  {
  }

  /** A visit that fits goes on fitting. */
  lemma FitsOn(s: System, e: Event, v: Visit, tick: nat)
    requires EndedInv(s) && Enabled(s, e) && Fits(s, v, tick) && tick <= |s.ticks|
    ensures Fits(Apply(s, e), v, tick)
  {
  }

  /** The visits of a tick after an event: as before, or one of them with what was read. */
  lemma CurrentAfter(s: System, e: Event, v: Visit)
    requires Enabled(s, e) && !e.Lists? && !Apply(s, e).phase.Idle? && v in Current(Apply(s, e).phase)
    ensures v in Current(s.phase)
         || (e.Reads? && Visit(v.id, ReadFails) in Current(s.phase) && v.id in s.proposals
             && (v.reading.Ended() ==> s.proposals[v.id].status != ONGOING))
         || (s.phase.Sending? && Visit(v.id, Read(s.phase.status, true, true)) in Current(s.phase)
             && v.reading.Read? && v.reading.status == s.phase.status)
  {
    var p := s.phase;
    if p.Broadcasting? && p.rest != [] {
      var w := Visit(p.rest[0], ReadFails);
      assert Unread(p.rest) == [w] + Unread(p.rest[1..]);
      assert w in Current(p);
    } else if e.RemindersEnd? {
      assert [] + Unread(p.due) == Unread(p.due);
    }
  }

  /** A visit enters the current tick by listing, or by reading the status as it stands. */
  lemma NewVisitFits(s: System, e: Event, v: Visit)
    requires EndedInv(s) && CurrentInv(s) && Enabled(s, e) && !Apply(s, e).phase.Idle?
    requires v in Current(Apply(s, e).phase)
    ensures Fits(Apply(s, e), v, |s.ticks|)
  {
    if e.Lists? {
      assert v.id in e.due;
    } else {
      CurrentAfter(s, e, v);
      if v in Current(s.phase) {
        FitsOn(s, e, v, |s.ticks|);
      }
    }
  }

  lemma StepKeepsLogInv(s: System, e: Event)
    requires EndedInv(s) && LogInv(s) && CurrentInv(s) && Enabled(s, e)
    ensures LogInv(Apply(s, e))
  {
    var s' := Apply(s, e);
    forall j, v | 0 <= j < |s'.ticks| && s'.ticks[j].due.Some? && v in s'.ticks[j].due.value
      ensures Fits(s', v, j)
    {
      if j < |s.ticks| {
        assert s'.ticks[j] == s.ticks[j];
        FitsOn(s, e, v, j);
      } else {
        assert e.TickFails? || e.TickEnds?;
        assert v in Current(s.phase);
      }
    }
  }

  lemma StepKeepsCurrentInv(s: System, e: Event)
    requires EndedInv(s) && CurrentInv(s) && Enabled(s, e)
    ensures CurrentInv(Apply(s, e))
  {
    var s' := Apply(s, e);
    if !s'.phase.Idle? {
      assert s'.ticks == s.ticks;
      forall v | v in Current(s'.phase)
        ensures Fits(s', v, |s.ticks|)
      {
        NewVisitFits(s, e, v);
      }
    }
  }

  lemma StepKeepsDueInv(s: System, e: Event)
    requires EndedInv(s) && DueInv(s) && Enabled(s, e)
    ensures DueInv(Apply(s, e))
  {
  }

  lemma {:induction false} PassSnoc(done: set<ProposalId>, seen: seq<Visit>, v: Visit)
    ensures Pass(done, seen + [v]) ==
            Pass(done, seen) +
              if v.id !in done && v.id !in Pass(done, seen) && v.reading.Broadcasts() then [v.id] else []
    decreases |seen|
  {
    if seen == [] {
      assert seen + [v] == [v] && [v][1..] == [];
    } else {
      assert (seen + [v])[1..] == seen[1..] + [v] && (seen + [v])[0] == seen[0];
      if seen[0].id !in done && seen[0].reading.Broadcasts() {
        PassSnoc(done + {seen[0].id}, seen[1..], v);
      } else {
        PassSnoc(done, seen[1..], v);
      }
    }
  }

  lemma UptoSnoc(s: State, seen: seq<Visit>, v: Visit)
    ensures
      var before := Upto(s, seen);
      Upto(s, seen + [v]) ==
        if v.id !in before.broadcasted && v.reading.Broadcasts()
        then State(before.broadcasted + {v.id}, before.sent + [v.id]) else before
  {
    PassSnoc(s.broadcasted, seen, v);
    var added := Pass(s.broadcasted, seen);
    assert Ids(added + [v.id]) == Ids(added) + {v.id};
    assert s.sent + (added + [v.id]) == s.sent + added + [v.id];
    assert added + [] == added;
  }

  lemma RunSnoc(ticks: seq<Tick>, t: Tick)
    ensures Run(ticks + [t]) == Next(Run(ticks), t)
  {
    assert (ticks + [t])[..|ticks|] == ticks;
  }

  lemma StepKeepsRunnerInv(s: System, e: Event)
    requires RunnerInv(s) && SendingInv(s) && Enabled(s, e)
    ensures RunnerInv(Apply(s, e))
  {
    var p, s' := s.phase, Apply(s, e);
    if p.Broadcasting? && s'.phase.Broadcasting? && s'.phase != p {
      UptoSnoc(Run(s.ticks), p.seen, s'.phase.seen[|p.seen|]);
    } else if p.Sending? && s'.phase.Broadcasting? {
      UptoSnoc(Run(s.ticks), p.seen, s'.phase.seen[|p.seen|]);
    } else if e.ListingFails? || e.TickFails? || e.TickEnds? {
      RunSnoc(s.ticks, s'.ticks[|s.ticks|]);
    } else if e.RemindersEnd? {
      assert Pass(Run(s.ticks).broadcasted, []) == [];
      assert s.runner.sent + [] == s.runner.sent && Ids([]) == {};
    }
  }

  lemma StepKeepsInv(s: System, e: Event)
    requires Inv(s) && Enabled(s, e)
    ensures Inv(Apply(s, e))
  {
    StepKeepsEndedInv(s, e);
    StepKeepsLogInv(s, e);
    StepKeepsCurrentInv(s, e);
    StepKeepsDueInv(s, e);
    StepKeepsRunnerInv(s, e);
  }

  lemma {:induction false} RunKeepsInv(s: System, events: seq<Event>)
    requires Inv(s) && Runs(s, events)
    ensures Inv(After(s, events))
    decreases |events|
  {
    if events != [] {
      StepKeepsInv(s, events[0]);
      RunKeepsInv(Apply(s, events[0]), events[1..]);
    }
  }

  ghost predicate Reachable(s: System) {
    exists events :: Runs(INITIAL, events) && After(INITIAL, events) == s
  }

  lemma ReachableInv(s: System)
    requires Reachable(s)
    ensures Inv(s)
  {
    var events :| Runs(INITIAL, events) && After(INITIAL, events) == s;
    RunKeepsInv(INITIAL, events);
  }

  // ---------------------------------------------------------------- missed results

  /** An expiry that goes through has ended everything the tick listed, whoever else ended or opened what meanwhile. */
  lemma ExpiryEndsAllDue(s: System)
    requires Reachable(s) && Enabled(s, ExpiryEnds)
    ensures forall id :: id in s.phase.due ==> id in s.proposals && s.proposals[id].status != ONGOING
  {
    ReachableInv(s);
  }

  /** Between ticks the runner has broadcast what the ticks so far came to: the log is a run of whole ticks. */
  lemma BroadcastsFollowTheTicks(s: System)
    requires Reachable(s) && s.phase.Idle?
    ensures s.runner == Run(s.ticks) && NoRepeats(s.runner.sent) && s.runner.broadcasted == Ids(s.runner.sent)
  {
    ReachableInv(s);
    EachResultIsBroadcastOnce(s.ticks);
  }

  /**
    Between ticks a result has been broadcast exactly when the proposal has ended, and the very
    tick during which it ended had listed it due, reached its broadcasts, and read and sent it
    without a failure.
   */
  lemma BroadcastInItsTickExactly(s: System, id: ProposalId)
    requires Reachable(s) && s.phase.Idle?
    ensures id in s.runner.broadcasted <==>
            id in s.ended && s.ended[id] < |s.ticks| && BroadcastIn(s.ticks[s.ended[id]], id)
  {
    ReachableInv(s);
    EachResultIsBroadcastOnce(s.ticks);
    forall t | t in s.ticks && BroadcastIn(t, id)
      ensures id in s.ended && s.ended[id] < |s.ticks| && BroadcastIn(s.ticks[s.ended[id]], id)
    {
      var j :| 0 <= j < |s.ticks| && s.ticks[j] == t;
      var v :| v in t.due.value && v.id == id && v.reading.Broadcasts();
      assert Fits(s, v, j);
    }
  }

  /** The proposal has ended and the current tick has no more to do with it. */
  predicate Behind(s: System, id: ProposalId) {
    id in s.proposals && s.proposals[id].status != ONGOING
    && match s.phase
       case Idle => true
       case Broadcasting(_, rest) => id !in rest
       case Sending(_, current, _, rest) => id != current && id !in rest
       case _ => id !in s.phase.due
  }

  lemma BehindStaysBehind(s: System, e: Event, id: ProposalId)
    requires Behind(s, id) && Enabled(s, e)
    ensures Behind(Apply(s, e), id)
    ensures id in Apply(s, e).runner.broadcasted <==> id in s.runner.broadcasted
  {
  }

  /** Once a tick is over nothing more is broadcast of what had ended by then, whatever happens. */
  lemma {:induction false} MissedStaysMissed(s: System, events: seq<Event>, id: ProposalId)
    requires Behind(s, id) && Runs(s, events)
    ensures id in After(s, events).runner.broadcasted <==> id in s.runner.broadcasted
    decreases |events|
  {
    if events != [] {
      BehindStaysBehind(s, events[0], id);
      MissedStaysMissed(Apply(s, events[0]), events[1..], id);
    }
  }

  lemma {:induction false} RunsJoin(s: System, first: seq<Event>, second: seq<Event>)
    requires Runs(s, first) && Runs(After(s, first), second)
    ensures Runs(s, first + second) && After(s, first + second) == After(After(s, first), second)
    decreases |first|
  {
    if first == [] {
      assert first + second == second;
    } else {
      RunsJoin(Apply(s, first[0]), first[1..], second);
      assert (first + second)[1..] == first[1..] + second;
    }
  }

  lemma ReachNext(s: System, e: Event) returns (s': System)
    requires Reachable(s) && Enabled(s, e)
    ensures s' == Apply(s, e) && Reachable(s')
  {
    s' := Apply(s, e);
    var events :| Runs(INITIAL, events) && After(INITIAL, events) == s;
    assert [e][1..] == [];
    assert Runs(s', []) && After(s', []) == s';
    assert Runs(s, [e]) && After(s, [e]) == s';
    RunsJoin(INITIAL, events, [e]);
  }

  /** A tick expires a proposal and fails in its reminders: the result is lost, by MissedStaysMissed for good. */
  lemma FailedRemindersLoseAResult() returns (s: System, id: ProposalId)
    ensures Reachable(s) && s.phase.Idle? && Behind(s, id) && id !in s.runner.broadcasted
    ensures |s.ticks| == 1 && s.ticks[0].due == Some([Visit(id, ReadFails)]) && s.ticks[0].remindersRaise
  {
    id := 7;
    s := OneListed(id);
    s := ReachNext(s, ExpiryLists([id]));
    s := ReachNext(s, ExpiryMarks("已逾時"));
    s := ReachNext(s, ExpiryEnds);
    s := ReachNext(s, TickFails);
    assert Unread([id]) == [Visit(id, ReadFails)];
  }

  lemma OneListed(id: ProposalId) returns (s: System)
    ensures Reachable(s)
    ensures s == System(0, map[id := Proposal(ONGOING, 0)], Listed([id]), State({}, []), [], map[])
  {
    assert Runs(INITIAL, []);
    s := ReachNext(INITIAL, Opens(id, 0));
    s := ReachNext(s, Lists([id]));
  }
}
