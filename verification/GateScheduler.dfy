/** The bounded-concurrency scheduler of dsh/scripts/run-gates.ts: a state machine whose
    steps are the scheduler's own moves, theorems over all of its runs, and the loop of
    `runGates` as one way to take those steps. */
module GateScheduler {

  import opened Options
  import opened Digraph
  import opened ComponentSearch
  import opened SinkCycles
  import opened GateGraph

  datatype Status = Passed | Failed | Skipped

  datatype GateState = Pending | Running | Settled(status: Status)

  type States = map<string, GateState>

  /** What the executor reports for a gate it is given. */
  type Verdict = string -> Status

  /** The scheduler's maps and lists: `executed` and `observed` log the calls made to
      the executor and to the observer. */
  datatype Sched = Sched(
    states: States,
    running: seq<string>,
    results: map<string, Status>,
    executed: seq<string>,
    observed: seq<string>)

  // ------------------------------------------------------------------ gate predicates

  predicate GatePassed(states: States, id: string) {
    id in states && states[id] == Settled(Passed)
  }

  predicate GateSettled(states: States, id: string) {
    id in states && states[id].Settled?
  }

  predicate GateFailed(states: States, id: string) {
    id in states && (states[id] == Settled(Failed) || states[id] == Settled(Skipped))
  }

  predicate PredecessorsReady(gate: Gate, states: States) {
    && (forall id | id in gate.needs :: GatePassed(states, id))
    && (forall id | id in gate.after :: GateSettled(states, id))
  }

  predicate IsPending(states: States, id: string) {
    id in states && states[id].Pending?
  }

  predicate Startable(gate: Gate, states: States) {
    IsPending(states, gate.id) && PredecessorsReady(gate, states)
  }

  predicate Doomed(gate: Gate, states: States) {
    IsPending(states, gate.id) && exists id | id in gate.needs :: GateFailed(states, id)
  }

  /** The first gate of the list that may start. */
  function FirstStartable(gates: seq<Gate>, states: States): (r: Option<Gate>)
    ensures r.Some? ==> r.value in gates && Startable(r.value, states)
    ensures r.None? ==> forall gate | gate in gates :: !Startable(gate, states)
  {
    if gates == [] then None
    else if Startable(gates[0], states) then Some(gates[0])
    else FirstStartable(gates[1..], states)
  }

  /** The first pending gate of the list with a failed need. */
  function FirstDoomed(gates: seq<Gate>, states: States): (r: Option<Gate>)
    ensures r.Some? ==> r.value in gates && Doomed(r.value, states)
    ensures r.None? ==> forall gate | gate in gates :: !Doomed(gate, states)
  {
    if gates == [] then None
    else if Doomed(gates[0], states) then Some(gates[0])
    else FirstDoomed(gates[1..], states)
  }

  // -------------------------------------------------------------------------- steps

  function InitialStates(gates: seq<Gate>): (states: States)
    ensures forall id :: id in states <==> HasId(gates, id)
    ensures forall id | id in states :: states[id].Pending?
  {
    var ids := set gate | gate in gates :: gate.id;
    assert forall id :: id in ids <==> HasId(gates, id) by {
      forall id ensures id in ids <==> HasId(gates, id) {
        if HasId(gates, id) {
          var i :| 0 <= i < |gates| && gates[i].id == id;
          assert gates[i] in gates;
        }
      }
    }
    map id | id in ids :: Pending
  }

  function Init(gates: seq<Gate>): Sched {
    Sched(InitialStates(gates), [], map[], [], [])
  }

  function Start(s: Sched, id: string): Sched {
    s.(states := s.states[id := Running], running := s.running + [id], executed := s.executed + [id])
  }

  function Settle(s: Sched, k: nat, status: Status): Sched
    requires k < |s.running|
  {
    var id := s.running[k];
    s.(states := s.states[id := Settled(status)],
       running := s.running[..k] + s.running[k + 1..],
       results := s.results[id := status],
       observed := s.observed + [id])
  }

  function Skip(s: Sched, id: string): Sched {
    s.(states := s.states[id := Settled(Skipped)],
       results := s.results[id := Skipped],
       observed := s.observed + [id])
  }

  predicate CanStart(gates: seq<Gate>, maxActive: int, s: Sched) {
    |s.running| < maxActive && FirstStartable(gates, s.states).Some?
  }

  ghost predicate Starts(gates: seq<Gate>, maxActive: int, s: Sched, t: Sched) {
    CanStart(gates, maxActive, s) && t == Start(s, FirstStartable(gates, s.states).value.id)
  }

  /** Any running gate may be the one whose promise resolves first. */
  ghost predicate Settles(gates: seq<Gate>, maxActive: int, verdict: Verdict, s: Sched, t: Sched, k: nat) {
    !CanStart(gates, maxActive, s) && k < |s.running| && t == Settle(s, k, verdict(s.running[k]))
  }

  ghost predicate Skips(gates: seq<Gate>, maxActive: int, s: Sched, t: Sched) {
    && !CanStart(gates, maxActive, s) && s.running == []
    && FirstDoomed(gates, s.states).Some? && t == Skip(s, FirstDoomed(gates, s.states).value.id)
  }

  ghost predicate Next(gates: seq<Gate>, maxActive: int, verdict: Verdict, s: Sched, t: Sched) {
    || Starts(gates, maxActive, s, t)
    || (exists k: nat :: Settles(gates, maxActive, verdict, s, t, k))
    || Skips(gates, maxActive, s, t)
  }

  // ---------------------------------------------------------------------- invariant

  /** The lists agree with the state map: nothing is lost, started twice or observed twice. */
  ghost predicate Shape(gates: seq<Gate>, maxActive: int, s: Sched) {
    && (forall id :: id in s.states <==> HasId(gates, id))
    && Distinct(s.running) && Distinct(s.executed) && Distinct(s.observed)
    && |s.running| <= maxActive
    && (forall id :: id in s.running <==> id in s.states && s.states[id].Running?)
    && (forall id | id in s.executed :: id in s.states && !s.states[id].Pending?)
    && (forall id | id in s.running :: id in s.executed)
    && (forall id :: id in s.observed <==> GateSettled(s.states, id))
    && (forall id :: id in s.results <==> GateSettled(s.states, id))
    && (forall id | id in s.results :: s.states[id] == Settled(s.results[id]))
  }

  /** An executed gate had all predecessors ready and keeps its verdict; a gate settled
      without executing is skipped because of a need that did not pass. */
  ghost predicate Justified(verdict: Verdict, s: Sched, gate: Gate) {
    && (gate.id in s.executed ==> PredecessorsReady(gate, s.states))
    && (gate.id in s.executed && GateSettled(s.states, gate.id) ==> s.states[gate.id] == Settled(verdict(gate.id)))
    && (gate.id !in s.executed && GateSettled(s.states, gate.id) ==>
          s.states[gate.id] == Settled(Skipped) && exists id | id in gate.needs :: GateFailed(s.states, id))
  }

  ghost predicate Inv(gates: seq<Gate>, maxActive: int, verdict: Verdict, s: Sched) {
    Shape(gates, maxActive, s) && forall gate | gate in gates :: Justified(verdict, s, gate)
  }

  lemma InitInv(gates: seq<Gate>, maxActive: int, verdict: Verdict)
    requires maxActive >= 1
    ensures Inv(gates, maxActive, verdict, Init(gates))
  {
  }

  /** Settled states never change, and the logs only grow. */
  ghost predicate Keeps(s: Sched, t: Sched) {
    && (forall id | GateSettled(s.states, id) :: id in t.states && t.states[id] == s.states[id])
    && s.executed <= t.executed && s.observed <= t.observed
  }

  lemma SameGate(gates: seq<Gate>, a: Gate, b: Gate)
    requires UniqueIds(gates) && a in gates && b in gates && a.id == b.id
    ensures a == b
  {
    var i :| 0 <= i < |gates| && gates[i] == a;
    var j :| 0 <= j < |gates| && gates[j] == b;
  }

  lemma JustifiedKeeps(verdict: Verdict, s: Sched, t: Sched, gate: Gate)
    requires Justified(verdict, s, gate) && Keeps(s, t)
    requires gate.id in s.executed <==> gate.id in t.executed
    requires GateSettled(t.states, gate.id) <==> GateSettled(s.states, gate.id)
    ensures Justified(verdict, t, gate)
  {
  }

  lemma StartInv(gates: seq<Gate>, maxActive: int, verdict: Verdict, s: Sched, t: Sched)
    requires UniqueIds(gates) && Inv(gates, maxActive, verdict, s) && Starts(gates, maxActive, s, t)
    ensures Inv(gates, maxActive, verdict, t) && Keeps(s, t)
  {
    var r := FirstStartable(gates, s.states).value;
    hide Justified, FirstStartable, HasId;
    StartShape(gates, maxActive, s, r.id);
    forall gate | gate in gates
      ensures Justified(verdict, t, gate)
    {
      if gate.id == r.id {
        SameGate(gates, gate, r);
        StartedJustified(verdict, s, t, r);
      } else {
        JustifiedKeeps(verdict, s, t, gate);
      }
    }
  }

  lemma StartShape(gates: seq<Gate>, maxActive: int, s: Sched, id: string)
    requires Shape(gates, maxActive, s) && IsPending(s.states, id) && |s.running| < maxActive
    ensures Shape(gates, maxActive, Start(s, id))
  {
    hide HasId;
  }

  lemma SkipShape(gates: seq<Gate>, maxActive: int, s: Sched, id: string)
    requires Shape(gates, maxActive, s) && IsPending(s.states, id)
    ensures Shape(gates, maxActive, Skip(s, id)) && id !in s.executed
  {
    hide HasId;
  }

  lemma StartedJustified(verdict: Verdict, s: Sched, t: Sched, gate: Gate)
    requires Startable(gate, s.states) && t == Start(s, gate.id)
    ensures Justified(verdict, t, gate)
  {
  }

  lemma SettleInv(gates: seq<Gate>, maxActive: int, verdict: Verdict, s: Sched, t: Sched, k: nat)
    requires UniqueIds(gates) && Inv(gates, maxActive, verdict, s) && Settles(gates, maxActive, verdict, s, t, k)
    ensures Inv(gates, maxActive, verdict, t) && Keeps(s, t)
  {
    var r := s.running[k];
    hide Justified, CanStart, HasId;
    SettleShape(gates, maxActive, s, k, verdict(r));
    forall gate | gate in gates
      ensures Justified(verdict, t, gate)
    {
      if gate.id == r {
        SettledJustified(verdict, s, t, gate, k);
      } else {
        JustifiedKeeps(verdict, s, t, gate);
      }
    }
  }

  lemma SettleShape(gates: seq<Gate>, maxActive: int, s: Sched, k: nat, status: Status)
    requires Shape(gates, maxActive, s) && k < |s.running|
    ensures Shape(gates, maxActive, Settle(s, k, status))
  {
    hide HasId, Distinct;
    RemoveAt(s.running, k);
    assert s.running[k] in s.running;
    DistinctSnoc(s.observed, s.running[k]);
  }

  lemma DistinctSnoc(s: seq<string>, x: string)
    requires Distinct(s) && x !in s
    ensures Distinct(s + [x])
  {
  }

  lemma RemoveAt(s: seq<string>, k: nat)
    requires Distinct(s) && k < |s|
    ensures Distinct(s[..k] + s[k + 1..])
    ensures forall id :: id in s[..k] + s[k + 1..] <==> id in s && id != s[k]
  {
    var t := s[..k] + s[k + 1..];
    forall id | id in s && id != s[k]
      ensures id in t
    {
      var i :| 0 <= i < |s| && s[i] == id;
      assert if i < k then t[i] == id else t[i - 1] == id;
    }
  }

  lemma SettledJustified(verdict: Verdict, s: Sched, t: Sched, gate: Gate, k: nat)
    requires k < |s.running| && gate.id == s.running[k] && gate.id in s.executed
    requires Justified(verdict, s, gate) && Keeps(s, t) && t == Settle(s, k, verdict(gate.id))
    ensures Justified(verdict, t, gate)
  {
  }

  lemma SkipInv(gates: seq<Gate>, maxActive: int, verdict: Verdict, s: Sched, t: Sched)
    requires UniqueIds(gates) && Inv(gates, maxActive, verdict, s) && Skips(gates, maxActive, s, t)
    ensures Inv(gates, maxActive, verdict, t) && Keeps(s, t)
  {
    var r := FirstDoomed(gates, s.states).value;
    hide Justified, FirstDoomed, CanStart, HasId;
    SkipShape(gates, maxActive, s, r.id);
    forall gate | gate in gates
      ensures Justified(verdict, t, gate)
    {
      if gate.id == r.id {
        SameGate(gates, gate, r);
        SkippedJustified(verdict, s, t, r);
      } else {
        JustifiedKeeps(verdict, s, t, gate);
      }
    }
  }

  lemma SkippedJustified(verdict: Verdict, s: Sched, t: Sched, gate: Gate)
    requires Doomed(gate, s.states) && t == Skip(s, gate.id) && gate.id !in s.executed && Keeps(s, t)
    ensures Justified(verdict, t, gate)
  {
    var n :| n in gate.needs && GateFailed(s.states, n);
    assert GateFailed(t.states, n);
  }

  /** Every step keeps the invariant and every settled state. */
  lemma NextInv(gates: seq<Gate>, maxActive: int, verdict: Verdict, s: Sched, t: Sched)
    requires UniqueIds(gates) && Inv(gates, maxActive, verdict, s) && Next(gates, maxActive, verdict, s, t)
    ensures Inv(gates, maxActive, verdict, t) && Keeps(s, t)
  {
    hide Inv, Starts, Settles, Skips;
    if Starts(gates, maxActive, s, t) {
      StartInv(gates, maxActive, verdict, s, t);
    } else if Skips(gates, maxActive, s, t) {
      SkipInv(gates, maxActive, verdict, s, t);
    } else {
      var k: nat :| Settles(gates, maxActive, verdict, s, t, k);
      SettleInv(gates, maxActive, verdict, s, t, k);
    }
  }

  // ------------------------------------------------------------------ every run is safe

  /** A run from the initial state, every adjacent pair one step. */
  ghost predicate Run(gates: seq<Gate>, maxActive: int, verdict: Verdict, tr: seq<Sched>) {
    && tr != []
    && if |tr| == 1 then tr[0] == Init(gates)
       else
         && Run(gates, maxActive, verdict, tr[..|tr| - 1])
         && Next(gates, maxActive, verdict, tr[|tr| - 2], tr[|tr| - 1])
  }

  lemma {:induction false} RunInv(gates: seq<Gate>, maxActive: int, verdict: Verdict, tr: seq<Sched>, i: nat)
    requires UniqueIds(gates) && maxActive >= 1 && Run(gates, maxActive, verdict, tr) && i < |tr|
    ensures Inv(gates, maxActive, verdict, tr[i]) && Keeps(tr[i], tr[|tr| - 1])
  {
    hide Inv, Next;
    var n := |tr| - 1;
    InitInv(gates, maxActive, verdict);
    if n > 0 {
      RunInv(gates, maxActive, verdict, tr[..n], n - 1);
      if i < n - 1 {
        RunInv(gates, maxActive, verdict, tr[..n], i);
      }
      NextInv(gates, maxActive, verdict, tr[n - 1], tr[n]);
    }
  }

  lemma {:induction false} RunKeeps(gates: seq<Gate>, maxActive: int, verdict: Verdict, tr: seq<Sched>, i: nat, j: nat)
    requires UniqueIds(gates) && maxActive >= 1 && Run(gates, maxActive, verdict, tr) && i <= j < |tr|
    ensures Keeps(tr[i], tr[j])
  {
    hide Inv, Next, Keeps;
    if j == |tr| - 1 {
      RunInv(gates, maxActive, verdict, tr, i);
    } else {
      RunKeeps(gates, maxActive, verdict, tr[..|tr| - 1], i, j);
    }
  }

  /** Safety at every moment of every run. */
  lemma RunSafe(gates: seq<Gate>, maxActive: int, verdict: Verdict, tr: seq<Sched>, i: nat)
    requires UniqueIds(gates) && maxActive >= 1 && Run(gates, maxActive, verdict, tr) && i < |tr|
    // at most `maxActive` gates run at once, none of them twice
    ensures |tr[i].running| <= maxActive && Distinct(tr[i].running)
    // each gate is executed at most once and observed at most once
    ensures Distinct(tr[i].executed) && Distinct(tr[i].observed)
    // a gate is executed only behind passed needs and settled predecessors
    ensures forall gate, n | gate in gates && gate.id in tr[i].executed && n in gate.needs ::
              n in tr[i].states && tr[i].states[n] == Settled(Passed)
    ensures forall gate, n | gate in gates && gate.id in tr[i].executed && n in gate.after ::
              n in tr[i].states && tr[i].states[n].Settled?
    // a gate is observed exactly when it is settled, and then its result is its state
    ensures forall id :: id in tr[i].observed <==> id in tr[i].states && tr[i].states[id].Settled?
    ensures forall id | id in tr[i].states && tr[i].states[id].Settled? ::
              id in tr[i].results && tr[i].states[id] == Settled(tr[i].results[id])
    // a settled state is the state of the gate at the end of the run
    ensures forall id | id in tr[i].states && tr[i].states[id].Settled? ::
              id in tr[|tr| - 1].states && tr[|tr| - 1].states[id] == tr[i].states[id]
  {
    hide Run;
    RunInv(gates, maxActive, verdict, tr, i);
  }

  // --------------------------------------------------------- the moves, on the maps alone

  /** Pending, every need passed, every other predecessor settled. */
  ghost predicate MayStart(gate: Gate, states: States) {
    && gate.id in states && states[gate.id] == Pending
    && (forall n | n in gate.needs :: n in states && states[n] == Settled(Passed))
    && (forall n | n in gate.after :: n in states && states[n] in {Settled(Passed), Settled(Failed), Settled(Skipped)})
  }

  /** Pending, and some need has failed or was skipped. */
  ghost predicate Blocked(gate: Gate, states: States) {
    && gate.id in states && states[gate.id] == Pending
    && exists n | n in gate.needs :: n in states && states[n] in {Settled(Failed), Settled(Skipped)}
  }

  /** There is a free place, and gate `k` is the first of the list that may start. */
  ghost predicate StartMove(gates: seq<Gate>, maxActive: int, s: Sched, t: Sched, k: nat) {
    && k < |gates| && |s.running| < maxActive && MayStart(gates[k], s.states)
    && (forall j | 0 <= j < k :: !MayStart(gates[j], s.states))
    && t == Sched(s.states[gates[k].id := Running], s.running + [gates[k].id], s.results,
                  s.executed + [gates[k].id], s.observed)
  }

  /** No place is free or nothing may start; a running gate ends with its verdict and is observed. */
  ghost predicate SettleMove(gates: seq<Gate>, maxActive: int, verdict: Verdict, s: Sched, t: Sched, k: nat) {
    && k < |s.running| && (|s.running| >= maxActive || forall gate | gate in gates :: !MayStart(gate, s.states))
    && var id := s.running[k];
       t == Sched(s.states[id := Settled(verdict(id))], s.running[..k] + s.running[k + 1..],
                  s.results[id := verdict(id)], s.executed, s.observed + [id])
  }

  /** Nothing runs and nothing may start; the first blocked gate of the list is skipped and observed. */
  ghost predicate SkipMove(gates: seq<Gate>, s: Sched, t: Sched, k: nat) {
    && k < |gates| && s.running == [] && (forall gate | gate in gates :: !MayStart(gate, s.states))
    && Blocked(gates[k], s.states) && (forall j | 0 <= j < k :: !Blocked(gates[j], s.states))
    && t == Sched(s.states[gates[k].id := Settled(Skipped)], s.running, s.results[gates[k].id := Skipped],
                  s.executed, s.observed + [gates[k].id])
  }

  lemma StartableMeans(gate: Gate, states: States)
    ensures Startable(gate, states) <==> MayStart(gate, states)
    ensures Doomed(gate, states) <==> Blocked(gate, states)
  {
    forall n | n in states && states[n].Settled?
      ensures states[n] in {Settled(Passed), Settled(Failed), Settled(Skipped)}
    {
      match states[n].status
      case Passed =>
      case Failed =>
      case Skipped =>
    }
  }

  lemma {:induction false} StartableFirst(gates: seq<Gate>, states: States) returns (k: nat)
    requires FirstStartable(gates, states).Some?
    ensures k < |gates| && gates[k] == FirstStartable(gates, states).value && Startable(gates[k], states)
    ensures forall j | 0 <= j < k :: !Startable(gates[j], states)
  {
    hide Startable;
    k := 0;
    if !Startable(gates[0], states) {
      var more := StartableFirst(gates[1..], states);
      k := more + 1;
      assert forall j | 0 < j < k :: gates[j] == gates[1..][j - 1];
    }
  }

  lemma {:induction false} DoomedFirst(gates: seq<Gate>, states: States) returns (k: nat)
    requires FirstDoomed(gates, states).Some?
    ensures k < |gates| && gates[k] == FirstDoomed(gates, states).value && Doomed(gates[k], states)
    ensures forall j | 0 <= j < k :: !Doomed(gates[j], states)
  {
    hide Doomed;
    k := 0;
    if !Doomed(gates[0], states) {
      var more := DoomedFirst(gates[1..], states);
      k := more + 1;
      assert forall j | 0 < j < k :: gates[j] == gates[1..][j - 1];
    }
  }

  /** A step is a start, a settlement or a skip, as the state map and the lists say. */
  ghost predicate Moves(gates: seq<Gate>, maxActive: int, verdict: Verdict, s: Sched, t: Sched) {
    || (exists k: nat :: StartMove(gates, maxActive, s, t, k))
    || (exists k: nat :: SettleMove(gates, maxActive, verdict, s, t, k))
    || (exists k: nat :: SkipMove(gates, s, t, k))
  }

  lemma NextMoves(gates: seq<Gate>, maxActive: int, verdict: Verdict, s: Sched, t: Sched)
    requires maxActive >= 1 && Next(gates, maxActive, verdict, s, t)
    ensures Moves(gates, maxActive, verdict, s, t)
  {
    forall gate
      ensures Startable(gate, s.states) <==> MayStart(gate, s.states)
      ensures Doomed(gate, s.states) <==> Blocked(gate, s.states)
    {
      StartableMeans(gate, s.states);
    }
    hide Startable, Doomed, MayStart, Blocked;
    if Starts(gates, maxActive, s, t) {
      var k := StartableFirst(gates, s.states);
      assert t == Start(s, gates[k].id);
      hide FirstStartable;
      assert StartMove(gates, maxActive, s, t, k);
    } else if Skips(gates, maxActive, s, t) {
      var k := DoomedFirst(gates, s.states);
      assert t == Skip(s, gates[k].id) && s.running == [];
      hide FirstStartable, FirstDoomed;
      assert SkipMove(gates, s, t, k);
    } else {
      var k: nat :| Settles(gates, maxActive, verdict, s, t, k);
      hide FirstStartable;
      assert SettleMove(gates, maxActive, verdict, s, t, k);
    }
  }

  lemma {:induction false} RunNext(gates: seq<Gate>, maxActive: int, verdict: Verdict, tr: seq<Sched>, i: nat)
    requires Run(gates, maxActive, verdict, tr) && i + 1 < |tr|
    ensures Next(gates, maxActive, verdict, tr[i], tr[i + 1])
  {
    hide Next;
    if i + 2 < |tr| {
      RunNext(gates, maxActive, verdict, tr[..|tr| - 1], i);
    }
  }

  /** Every two neighbouring moments of every run are one such move. */
  lemma RunMoves(gates: seq<Gate>, maxActive: int, verdict: Verdict, tr: seq<Sched>, i: nat)
    requires maxActive >= 1 && Run(gates, maxActive, verdict, tr) && i + 1 < |tr|
    ensures Moves(gates, maxActive, verdict, tr[i], tr[i + 1])
  {
    hide Run, Next, Moves;
    RunNext(gates, maxActive, verdict, tr, i);
    NextMoves(gates, maxActive, verdict, tr[i], tr[i + 1]);
  }

  /** When a gate is started, each of its needs has passed and each gate it waits for is settled. */
  lemma StartedReady(gates: seq<Gate>, maxActive: int, verdict: Verdict, tr: seq<Sched>, i: nat, gate: Gate)
    requires UniqueIds(gates) && maxActive >= 1 && Run(gates, maxActive, verdict, tr) && i + 1 < |tr| && gate in gates
    requires gate.id in tr[i + 1].executed && gate.id !in tr[i].executed
    ensures forall n | n in gate.needs :: n in tr[i].states && tr[i].states[n] == Settled(Passed)
    ensures forall n | n in gate.after :: n in tr[i].states && tr[i].states[n].Settled?
    ensures |tr[i].running| < maxActive && gate.id in tr[i].states && tr[i].states[gate.id] == Pending
  {
    hide Run, UniqueIds;
    RunMoves(gates, maxActive, verdict, tr, i);
    var k: nat :| StartMove(gates, maxActive, tr[i], tr[i + 1], k);
    SameGate(gates, gate, gates[k]);
  }

  /** A gate with a need that fails or is skipped anywhere in a run is executed nowhere in it. */
  lemma FailedNeedNeverExecutes(gates: seq<Gate>, maxActive: int, verdict: Verdict, tr: seq<Sched>,
                                gate: Gate, need: string, i: nat, j: nat)
    requires UniqueIds(gates) && maxActive >= 1 && Run(gates, maxActive, verdict, tr)
    requires i < |tr| && j < |tr| && gate in gates && need in gate.needs
    requires need in tr[j].states && tr[j].states[need] in {Settled(Failed), Settled(Skipped)}
    ensures gate.id !in tr[i].executed
  {
    hide Run, Inv;
    RunInv(gates, maxActive, verdict, tr, i);
    RunInv(gates, maxActive, verdict, tr, j);
    RunInv(gates, maxActive, verdict, tr, |tr| - 1);
    FailedNeedNotExecuted(gates, maxActive, verdict, tr[|tr| - 1], gate, need);
    assert forall k | 0 <= k < |tr[i].executed| :: tr[i].executed[k] == tr[|tr| - 1].executed[k];
  }

  lemma FailedNeedNotExecuted(gates: seq<Gate>, maxActive: int, verdict: Verdict, s: Sched, gate: Gate, need: string)
    requires Inv(gates, maxActive, verdict, s) && gate in gates && need in gate.needs
    requires GateFailed(s.states, need)
    ensures gate.id !in s.executed
  {
    hide Shape;
    assert Justified(verdict, s, gate);
  }

  // ------------------------------------------------------------------------ termination

  ghost function PendingIds(s: Sched): set<string> {
    set id | id in s.states && s.states[id].Pending?
  }

  ghost function Measure(s: Sched): nat {
    2 * |PendingIds(s)| + |s.running|
  }

  /** Every start, settle and skip lowers the measure. */
  lemma NextMeasure(gates: seq<Gate>, maxActive: int, verdict: Verdict, s: Sched, t: Sched)
    requires Inv(gates, maxActive, verdict, s) && Next(gates, maxActive, verdict, s, t)
    ensures Measure(t) < Measure(s)
  {
    hide Justified, HasId, Distinct;
    if Starts(gates, maxActive, s, t) {
      PendingFewer(s, t, FirstStartable(gates, s.states).value.id, Running);
    } else if Skips(gates, maxActive, s, t) {
      PendingFewer(s, t, FirstDoomed(gates, s.states).value.id, Settled(Skipped));
    } else {
      var k: nat :| Settles(gates, maxActive, verdict, s, t, k);
      assert s.running[k] in s.running;
      assert PendingIds(t) == PendingIds(s);
    }
  }

  lemma PendingFewer(s: Sched, t: Sched, id: string, state: GateState)
    requires IsPending(s.states, id) && !state.Pending? && t.states == s.states[id := state]
    ensures |PendingIds(t)| == |PendingIds(s)| - 1
  {
    assert PendingIds(t) == PendingIds(s) - {id};
  }

  lemma {:induction false} InitialCount(gates: seq<Gate>)
    ensures |PendingIds(Init(gates))| <= |gates|
  {
    if gates != [] {
      var init, last := gates[..|gates| - 1], gates[|gates| - 1];
      InitialCount(init);
      assert gates == init + [last];
      forall id | id in PendingIds(Init(gates))
        ensures id in PendingIds(Init(init)) + {last.id}
      {
        var i :| 0 <= i < |gates| && gates[i].id == id;
        assert i < |init| ==> init[i].id == id;
      }
      SubsetCount(PendingIds(Init(gates)), PendingIds(Init(init)), last.id);
    } else {
      assert PendingIds(Init(gates)) == {};
    }
  }

  lemma SubsetCount(a: set<string>, b: set<string>, x: string)
    requires a <= b + {x}
    ensures |a| <= |b| + 1
  {
    assert |b + {x}| <= |b| + 1;
    assert |b + {x}| == |a| + |b + {x} - a| by {
      assert b + {x} == a + (b + {x} - a);
    }
  }

  /** No run takes more than two steps a gate. */
  lemma {:induction false} RunBounded(gates: seq<Gate>, maxActive: int, verdict: Verdict, tr: seq<Sched>)
    requires UniqueIds(gates) && maxActive >= 1 && Run(gates, maxActive, verdict, tr)
    ensures |tr| - 1 + Measure(tr[|tr| - 1]) <= 2 * |gates|
  {
    hide Inv, Next, Measure;
    var n := |tr| - 1;
    if n == 0 {
      InitMeasure(gates);
    } else {
      RunBounded(gates, maxActive, verdict, tr[..n]);
      RunInv(gates, maxActive, verdict, tr, n - 1);
      NextMeasure(gates, maxActive, verdict, tr[n - 1], tr[n]);
    }
  }

  lemma InitMeasure(gates: seq<Gate>)
    ensures Measure(Init(gates)) <= 2 * |gates|
  {
    InitialCount(gates);
  }

  // --------------------------------------------------------------------------- no stall

  ghost predicate Finished(s: Sched) {
    forall id | id in s.states :: s.states[id].Settled?
  }

  /** On a validated graph with nothing running and nothing to start, some pending gate
      has a failed need: the stalled-graph error cannot occur. */
  lemma NoStall(gates: seq<Gate>, maxActive: int, verdict: Verdict, s: Sched)
    requires ValidGates(gates) && maxActive >= 1 && Inv(gates, maxActive, verdict, s)
    requires s.running == [] && !CanStart(gates, maxActive, s) && !Finished(s)
    ensures FirstDoomed(gates, s.states).Some?
  {
    hide Justified, Acyclic, Distinct, Startable, Doomed, HasId;
    GraphKeys(gates);
    var p :| p in s.states && !s.states[p].Settled?;
    assert p !in s.running;
    assert p in PendingIds(s);
    var v := AcyclicHasMinimal(GateGraph.GraphOf(gates), PendingIds(s));
    var gate := GateOf(gates, v);
    MinimalPendingDoomed(gates, maxActive, s, gate);
  }

  lemma GateOf(gates: seq<Gate>, id: string) returns (gate: Gate)
    requires HasId(gates, id)
    ensures gate in gates && gate.id == id
  {
    var i :| 0 <= i < |gates| && gates[i].id == id;
    gate := gates[i];
  }

  lemma SettledEitherWay(states: States, id: string)
    requires GateSettled(states, id)
    ensures GatePassed(states, id) || GateFailed(states, id)
  {
    match states[id].status
    case Passed =>
    case Failed =>
    case Skipped =>
  }

  /** A pending gate that waits for no pending or running gate and still cannot start
      has a failed need. */
  lemma MinimalPendingDoomed(gates: seq<Gate>, maxActive: int, s: Sched, gate: Gate)
    requires UniqueIds(gates) && ClosedReferences(gates) && Shape(gates, maxActive, s)
    requires s.running == [] && gate in gates && IsPending(s.states, gate.id) && !Startable(gate, s.states)
    requires forall w | Edge(GateGraph.GraphOf(gates), gate.id, w) :: w !in PendingIds(s)
    ensures Doomed(gate, s.states)
  {
    hide HasId, Distinct;
    GraphKeys(gates);
    GraphEntry(gates, gate);
    forall id | id in Predecessors(gate)
      ensures GateSettled(s.states, id)
    {
      assert Edge(GateGraph.GraphOf(gates), gate.id, id);
      assert id !in s.running;
    }
    assert forall id | id in gate.after :: id in Predecessors(gate);
    var need :| need in gate.needs && !GatePassed(s.states, need);
    assert need in Predecessors(gate);
    assert GateSettled(s.states, need);
    SettledEitherWay(s.states, need);
  }

  /** Until every gate is settled, some step is possible. */
  lemma Progress(gates: seq<Gate>, maxActive: int, verdict: Verdict, s: Sched)
    requires ValidGates(gates) && maxActive >= 1 && Inv(gates, maxActive, verdict, s)
    ensures Finished(s) || exists t :: Next(gates, maxActive, verdict, s, t)
  {
    hide Inv, ValidGates, Finished;
    if CanStart(gates, maxActive, s) {
      assert Next(gates, maxActive, verdict, s, Start(s, FirstStartable(gates, s.states).value.id));
    } else if s.running != [] {
      assert Settles(gates, maxActive, verdict, s, Settle(s, 0, verdict(s.running[0])), 0);
      assert Next(gates, maxActive, verdict, s, Settle(s, 0, verdict(s.running[0])));
    } else if !Finished(s) {
      NoStall(gates, maxActive, verdict, s);
      assert Next(gates, maxActive, verdict, s, Skip(s, FirstDoomed(gates, s.states).value.id));
    }
  }

  // ------------------------------------------------------------------------- confluence

  /** The statuses the verdicts determine: skipped when some need did not pass, and
      otherwise the gate's own verdict. */
  ghost predicate IsOutcome(gates: seq<Gate>, verdict: Verdict, results: map<string, Status>) {
    && (forall id :: id in results <==> HasId(gates, id))
    && forall gate | gate in gates :: gate.id in results && results[gate.id] == OutcomeOf(verdict, results, gate)
  }

  ghost function OutcomeOf(verdict: Verdict, results: map<string, Status>, gate: Gate): Status {
    if exists id | id in gate.needs :: id in results && results[id] != Passed then Skipped
    else verdict(gate.id)
  }

  lemma FinishedOutcome(gates: seq<Gate>, maxActive: int, verdict: Verdict, s: Sched)
    requires ClosedReferences(gates) && Inv(gates, maxActive, verdict, s) && Finished(s)
    ensures IsOutcome(gates, verdict, s.results)
  {
    hide HasId, Distinct;
    forall gate | gate in gates
      ensures gate.id in s.results && s.results[gate.id] == OutcomeOf(verdict, s.results, gate)
    {
      GateHasId(gates, gate);
      assert Justified(verdict, s, gate);
      GateOutcome(gates, maxActive, verdict, s, gate);
    }
  }

  lemma GateHasId(gates: seq<Gate>, gate: Gate)
    requires gate in gates
    ensures HasId(gates, gate.id)
  {
    var i :| 0 <= i < |gates| && gates[i] == gate;
  }

  lemma GateOutcome(gates: seq<Gate>, maxActive: int, verdict: Verdict, s: Sched, gate: Gate)
    requires Shape(gates, maxActive, s) && Justified(verdict, s, gate) && GateSettled(s.states, gate.id)
    ensures s.results[gate.id] == OutcomeOf(verdict, s.results, gate)
  {
    hide HasId, Distinct;
    if gate.id in s.executed {
      assert forall id | id in gate.needs :: GatePassed(s.states, id);
    } else {
      var id :| id in gate.needs && GateFailed(s.states, id);
      assert id in s.results && s.results[id] != Passed;
    }
  }

  /** On an acyclic graph the verdicts determine every status. */
  lemma OutcomeUnique(gates: seq<Gate>, verdict: Verdict, a: map<string, Status>, b: map<string, Status>)
    requires ValidGates(gates) && IsOutcome(gates, verdict, a) && IsOutcome(gates, verdict, b)
    ensures a == b
  {
    hide Acyclic;
    GraphKeys(gates);
    var differ := set id | id in a && a[id] != b[id];
    if differ != {} {
      var v := AcyclicHasMinimal(GateGraph.GraphOf(gates), differ);
      var i :| 0 <= i < |gates| && gates[i].id == v;
      SameNeedsSameOutcome(gates, verdict, a, b, differ, gates[i]);
    }
    forall id | id in a
      ensures id in b && a[id] == b[id]
    {
      assert id !in differ;
      assert HasId(gates, id);
    }
    assert a.Keys == b.Keys;
  }

  lemma SameNeedsSameOutcome(gates: seq<Gate>, verdict: Verdict, a: map<string, Status>, b: map<string, Status>,
                             differ: set<string>, gate: Gate)
    requires UniqueIds(gates) && ClosedReferences(gates) && gate in gates
    requires IsOutcome(gates, verdict, a) && IsOutcome(gates, verdict, b)
    requires differ == set id | id in a && a[id] != b[id]
    requires forall w | Edge(GateGraph.GraphOf(gates), gate.id, w) :: w !in differ
    ensures a[gate.id] == b[gate.id]
  {
    hide HasId;
    GraphKeys(gates);
    GraphEntry(gates, gate);
    forall id | id in gate.needs
      ensures id in a && id in b && a[id] == b[id]
    {
      assert id in Predecessors(gate);
      assert Edge(GateGraph.GraphOf(gates), gate.id, id);
    }
  }

  /** A run that has settled every gate. */
  ghost predicate CompleteRun(gates: seq<Gate>, maxActive: int, verdict: Verdict, tr: seq<Sched>) {
    Run(gates, maxActive, verdict, tr) && Finished(tr[|tr| - 1])
  }

  lemma CompleteRunOutcome(gates: seq<Gate>, maxActive: int, verdict: Verdict, tr: seq<Sched>)
    requires ValidGates(gates) && maxActive >= 1 && CompleteRun(gates, maxActive, verdict, tr)
    ensures tr != [] && IsOutcome(gates, verdict, tr[|tr| - 1].results)
  {
    assert tr != [];
    hide Inv, Finished, Acyclic, IsOutcome, UniqueIds, ClosedReferences, Keeps, Run;
    RunInv(gates, maxActive, verdict, tr, |tr| - 1);
    FinishedOutcome(gates, maxActive, verdict, tr[|tr| - 1]);
  }

  /** Confluence: whatever the settling orders and the concurrency bounds, two complete
      runs under the same verdicts end with the same results. */
  lemma Confluence(gates: seq<Gate>, verdict: Verdict, m: int, n: int, a: seq<Sched>, b: seq<Sched>)
    requires ValidGates(gates) && m >= 1 && n >= 1
    requires CompleteRun(gates, m, verdict, a) && CompleteRun(gates, n, verdict, b)
    ensures a != [] && b != [] && a[|a| - 1].results == b[|b| - 1].results
  {
    hide *;
    CompleteRunOutcome(gates, m, verdict, a);
    CompleteRunOutcome(gates, n, verdict, b);
    OutcomeUnique(gates, verdict, a[|a| - 1].results, b[|b| - 1].results);
  }

  // ----------------------------------------------------------------- the scheduler loop

  datatype RunResult =
    | Refused(defect: Validation)
    | BadConcurrency
    | Completed(results: seq<(string, Status)>)

  const MAX_SAFE_INTEGER := 0x1F_FFFF_FFFF_FFFF

  lemma SafeInteger()
    ensures MAX_SAFE_INTEGER == 9007199254740991
  {
  }

  predicate NonePending(gates: seq<Gate>, states: States) {
    forall gate | gate in gates :: !IsPending(states, gate.id)
  }

  lemma ValidIsUnique(gates: seq<Gate>)
    requires ValidGates(gates)
    ensures UniqueIds(gates)
  {
  }

  lemma RunOfOne(gates: seq<Gate>, maxActive: int, verdict: Verdict)
    ensures Run(gates, maxActive, verdict, [Init(gates)])
  {
  }

  /** One more step of a run: the invariant goes on and the measure drops. */
  lemma RunExtend(gates: seq<Gate>, maxActive: int, verdict: Verdict, tr: seq<Sched>, t: Sched)
    requires UniqueIds(gates) && tr != [] && Run(gates, maxActive, verdict, tr)
    requires Inv(gates, maxActive, verdict, tr[|tr| - 1]) && Next(gates, maxActive, verdict, tr[|tr| - 1], t)
    ensures Run(gates, maxActive, verdict, tr + [t])
    ensures Inv(gates, maxActive, verdict, t) && Measure(t) < Measure(tr[|tr| - 1])
  {
    hide Inv, Next, Measure;
    NextInv(gates, maxActive, verdict, tr[|tr| - 1], t);
    NextMeasure(gates, maxActive, verdict, tr[|tr| - 1], t);
    assert (tr + [t])[..|tr|] == tr;
  }

  lemma NothingToStart(gates: seq<Gate>, maxActive: int, s: Sched)
    requires |s.running| >= maxActive || FirstStartable(gates, s.states).None?
    ensures !CanStart(gates, maxActive, s)
  {
  }

  /** `Progress`, in the form the loop uses it: a doomed gate is found, or all is settled. */
  lemma QuiescentMove(gates: seq<Gate>, maxActive: int, verdict: Verdict, s: Sched)
    requires ValidGates(gates) && maxActive >= 1 && Inv(gates, maxActive, verdict, s)
    requires s.running == [] && !CanStart(gates, maxActive, s)
    ensures NonePending(gates, s.states) ==> Finished(s)
    ensures !NonePending(gates, s.states) ==> FirstDoomed(gates, s.states).Some?
    ensures FirstDoomed(gates, s.states).Some? ==>
              Next(gates, maxActive, verdict, s, Skip(s, FirstDoomed(gates, s.states).value.id))
  {
    hide Justified, Acyclic, CanStart, FirstDoomed, Distinct, HasId;
    if !NonePending(gates, s.states) {
      NoStall(gates, maxActive, verdict, s);
    } else {
      forall id | id in s.states
        ensures s.states[id].Settled?
      {
        var gate := GateOf(gates, id);
        assert id !in s.running;
      }
    }
  }

  lemma StartIsStep(gates: seq<Gate>, maxActive: int, verdict: Verdict, s: Sched)
    requires |s.running| < maxActive && FirstStartable(gates, s.states).Some?
    ensures Next(gates, maxActive, verdict, s, Start(s, FirstStartable(gates, s.states).value.id))
  {
  }

  lemma SettleIsStep(gates: seq<Gate>, maxActive: int, verdict: Verdict, s: Sched, k: nat)
    requires !CanStart(gates, maxActive, s) && k < |s.running|
    ensures Next(gates, maxActive, verdict, s, Settle(s, k, verdict(s.running[k])))
  {
    assert Settles(gates, maxActive, verdict, s, Settle(s, k, verdict(s.running[k])), k);
  }

  lemma CompleteIntro(gates: seq<Gate>, maxActive: int, verdict: Verdict, tr: seq<Sched>)
    requires tr != [] && Run(gates, maxActive, verdict, tr) && Finished(tr[|tr| - 1])
    ensures CompleteRun(gates, maxActive, verdict, tr)
  {
  }

  lemma ResultsComplete(gates: seq<Gate>, maxActive: int, verdict: Verdict, s: Sched)
    requires Inv(gates, maxActive, verdict, s) && Finished(s)
    ensures forall gate | gate in gates :: gate.id in s.results
  {
    hide Justified, Distinct, HasId;
    forall gate | gate in gates
      ensures gate.id in s.results
    {
      GateHasId(gates, gate);
    }
  }

  /** `runGates`: validate, then start, settle and skip until no gate is pending. The
      gate that settles first is chosen by the environment. `tr` records the states the
      loop goes through. */
  method RunGates(gates: seq<Gate>, maxActive: int, verdict: Verdict) returns (r: RunResult, ghost tr: seq<Sched>)
    ensures r.Refused? <==> !ValidGates(gates)
    ensures r.Refused? ==> !r.defect.Valid? && Refuses(gates, r.defect)
    ensures r.BadConcurrency? <==> ValidGates(gates) && !(1 <= maxActive <= 9007199254740991)
    ensures r.Completed? ==> CompleteRun(gates, maxActive, verdict, tr) && tr != []
    ensures r.Completed? ==> |r.results| == |gates| && forall i | 0 <= i < |gates| ::
                r.results[i].0 == gates[i].id
                && gates[i].id in tr[|tr| - 1].results && r.results[i].1 == tr[|tr| - 1].results[gates[i].id]
  {
    hide *;
    tr := [];
    var validation := ValidateGateGraph(gates);
    if !validation.Valid? {
      return Refused(validation), tr;
    }
    SafeInteger();
    if !(1 <= maxActive <= MAX_SAFE_INTEGER) {
      return BadConcurrency, tr;
    }
    var s := Init(gates);
    tr := [s];
    ValidIsUnique(gates);
    RunOfOne(gates, maxActive, verdict);
    InitInv(gates, maxActive, verdict);
    while true
      invariant tr != [] && tr[|tr| - 1] == s
      invariant Run(gates, maxActive, verdict, tr) && Inv(gates, maxActive, verdict, s)
      decreases Measure(s)
    {
      var madeProgress := false;
      ghost var measure := Measure(s);
      while |s.running| < maxActive
        invariant tr != [] && tr[|tr| - 1] == s
        invariant Run(gates, maxActive, verdict, tr) && Inv(gates, maxActive, verdict, s)
        invariant if madeProgress then Measure(s) < measure else Measure(s) == measure
        decreases Measure(s)
      {
        var ready := FirstStartable(gates, s.states);
        if ready.None? {
          break;
        }
        ghost var before := s;
        s := Start(s, ready.value.id);
        StartIsStep(gates, maxActive, verdict, before);
        RunExtend(gates, maxActive, verdict, tr, s);
        tr := tr + [s];
        madeProgress := true;
      }
      NothingToStart(gates, maxActive, s);

      if |s.running| == 0 {
        QuiescentMove(gates, maxActive, verdict, s);
        if NonePending(gates, s.states) {
          break;
        }
        var gate := FirstDoomed(gates, s.states);
        if gate.None? {
          assert false;
        }
        ghost var before := s;
        s := Skip(s, gate.value.id);
        RunExtend(gates, maxActive, verdict, tr, s);
        tr := tr + [s];
        continue;
      }

      if !madeProgress {
        var k: nat :| k < |s.running|;
        ghost var before := s;
        s := Settle(s, k, verdict(s.running[k]));
        SettleIsStep(gates, maxActive, verdict, before, k);
        RunExtend(gates, maxActive, verdict, tr, s);
        tr := tr + [s];
      }
    }
    CompleteIntro(gates, maxActive, verdict, tr);
    ResultsComplete(gates, maxActive, verdict, s);
    assert forall i | 0 <= i < |gates| :: gates[i] in gates;
    r := Completed(seq(|gates|, i requires 0 <= i < |gates| => (gates[i].id, s.results[gates[i].id])));
  }
}
