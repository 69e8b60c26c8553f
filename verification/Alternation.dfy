/** Conservation as a condition on the history of a run: which switch-outs saved
their thread, and which switch-ins brought it back.

Where every thread alternates, out, in, out, in, and switch handling stays on, a
switch-out never finds its thread saved already, so conservation depends on
switch-ins alone. */
module Alternation {
  import opened HashTableSpec
  import opened SwitchSpec
  import opened Conservation

  // Threads in off are switched out; each comes back in before it goes out again.
  ghost predicate Alternates(evs: seq<Event>, off: set<nat>)
    decreases |evs|
  {
    evs == [] ||
    match evs[0]
    case SwitchOut(th, _, _) => th !in off && Alternates(evs[1..], off + {th})
    case SwitchIn(th, _, _) => th in off && Alternates(evs[1..], off - {th})
    case Toggle => false
    case _ => Alternates(evs[1..], off)
  }

  // The threads that are switched out after the event.
  ghost function OffAfter(off: set<nat>, e: Event): set<nat> {
    match e
    case SwitchOut(th, _, _) => off + {th}
    case SwitchIn(th, _, _) => off - {th}
    case _ => off
  }

  ghost predicate NoTombstoneMet(s: State, evs: seq<Event>, load: nat)
    requires Safe(s)
    decreases |evs|
  {
    evs != [] ==>
      && !(evs[0].SwitchIn? && Tombstoned(s, evs[0].thread))
      && (SafeNext(s, evs[0], load); NoTombstoneMet(Next(s, evs[0], load), evs[1..], load))
  }

  // ------------------------------------------------------------ the table

  ghost predicate Known(s: State, th: nat) {
    Find(s.table, th) >= 0
  }

  lemma Viewed(s: State, th: nat)
    ensures th in View(s.table) <==> Known(s, th)
    ensures Waiting(s, th) <==> th in View(s.table) && View(s.table)[th].live
  {
    FindIffKey(s.table, th);
  }

  // A saving switch-out makes its thread waiting and changes no other.
  lemma AfterSave(s: State, th: nat, cpu: nat, hw: Readings, load: nat, x: nat)
    requires Safe(s) && |s.table| < MAX_ELEMS && Grabs(s, cpu)
    ensures var s' := DoSwitchOut(s, th, cpu, hw, load);
            (Waiting(s', x) <==> x == th || Waiting(s, x)) && (Known(s', x) <==> x == th || Known(s, x))
  {
    StopsIffRunning(s.registry, s.mem, cpu, hw, load);
    StepRefines(s.table, OpAdd(th, s.head));
    Viewed(s, x);
    Viewed(s, th);
    Viewed(DoSwitchOut(s, th, cpu, hw, load), x);
  }

  // A switch-in leaves its thread not waiting and changes no other.
  lemma AfterIn(s: State, th: nat, cpu: nat, hw: Readings, load: nat, x: nat)
    requires Safe(s) && s.enabled
    ensures var s' := DoSwitchIn(s, th, cpu, hw, load);
            (Waiting(s', x) <==> x != th && Waiting(s, x)) && (Known(s', x) <==> Known(s, x))
  {
    InTable(s, th, cpu, hw, load);
    RemoveFinds(s.table, th, x);
  }

  lemma InTable(s: State, th: nat, cpu: nat, hw: Readings, load: nat)
    requires Safe(s) && s.enabled
    ensures DoSwitchIn(s, th, cpu, hw, load).table == Remove(s.table, th).0
  {
  }

  lemma RemoveFinds(es: seq<Entry>, th: nat, x: nat)
    ensures var es', i := Remove(es, th).0, Find(es, x);
            && Find(es', x) == i < |es'| == |es|
            && (i >= 0 ==> (!es'[i].removed <==> x != th && !es[i].removed))
  {
    var es' := Remove(es, th).0;
    FindSameKeys(es, es', x);
  }

  // ------------------------------------------------------------ alternating runs

  // Only threads that are switched out wait.
  ghost predicate WaitingOff(s: State, off: set<nat>) {
    forall th :: Waiting(s, th) ==> th in off
  }

  // So no switch-out finds its thread saved, and the only unclean step is a
  // switch-in at a tombstone.
  lemma AlternatingCleanIff(s: State, e: Event, off: set<nat>)
    requires s.enabled && WaitingOff(s, off) && Alternates([e], off)
    ensures Clean(s, e) <==> !(e.SwitchIn? && Tombstoned(s, e.thread))
  {
  }

  lemma WaitingOffNext(s: State, e: Event, load: nat, off: set<nat>)
    requires Safe(s) && s.enabled && |s.table| < MAX_ELEMS && WaitingOff(s, off) && Alternates([e], off)
    ensures Next(s, e, load).enabled && WaitingOff(Next(s, e, load), OffAfter(off, e))
  {
    forall x | Waiting(Next(s, e, load), x) ensures x in OffAfter(off, e) {
      match e
      case SwitchOut(th, cpu, hw) =>
        if Grabs(s, cpu) { AfterSave(s, th, cpu, hw, load, x); } else { StopsIffRunning(s.registry, s.mem, cpu, hw, load); }
      case SwitchIn(th, cpu, hw) => AfterIn(s, th, cpu, hw, load, x);
      case _ =>
    }
  }

  lemma AlternatesFirst(evs: seq<Event>, off: set<nat>)
    requires evs != [] && Alternates(evs, off)
    ensures Alternates([evs[0]], off) && Alternates(evs[1..], OffAfter(off, evs[0]))
  {
    var one := [evs[0]];
    assert one[1..] == [];
  }

  lemma {:induction false} AlternatingRunIff(s: State, evs: seq<Event>, load: nat, all: set<nat>, off: set<nat>)
    requires Safe(s) && s.enabled && Roomy(s, all) && Within(evs, all) && WaitingOff(s, off) && Alternates(evs, off)
    ensures AlwaysClean(s, evs, load) <==> NoTombstoneMet(s, evs, load)
    decreases |evs|
  {
    if evs != [] {
      AlternatesFirst(evs, off);
      AlternatingCleanIff(s, evs[0], off);
      RoomyFits(s, all);
      SafeNext(s, evs[0], load);
      RoomyNext(s, evs[0], load, all);
      WaitingOffNext(s, evs[0], load, off);
      AlternatingRunIff(Next(s, evs[0], load), evs[1..], load, all, OffAfter(off, evs[0]));
    }
  }

  // ------------------------------------------------------------ the condition on the history

  // Since the last clearing: the threads ever saved, and those saved and not yet
  // brought back by a switch-in with handling on.
  datatype Past = Past(ever: set<nat>, held: set<nat>)

  ghost function PastAfter(s: State, p: Past, e: Event): Past {
    match e
    case SwitchOut(th, cpu, _) => if Grabs(s, cpu) then Past(p.ever + {th}, p.held + {th}) else p
    case SwitchIn(th, _, _) => if s.enabled then p.(held := p.held - {th}) else p
    case Clear => Past({}, {})
    case _ => p
  }

  // With handling on, a thread ever saved comes in only if it is held; and no
  // thread is saved while it is held, as it still is when it came in with
  // handling off.
  ghost predicate InTurn(s: State, p: Past, e: Event) {
    match e
    case SwitchIn(th, _, _) => s.enabled && th in p.ever ==> th in p.held
    case SwitchOut(th, cpu, _) => Grabs(s, cpu) ==> th !in p.held
    case _ => true
  }

  ghost predicate AlwaysInTurn(s: State, evs: seq<Event>, load: nat, p: Past)
    requires Safe(s)
    decreases |evs|
  {
    evs != [] ==>
      && InTurn(s, p, evs[0])
      && (SafeNext(s, evs[0], load); AlwaysInTurn(Next(s, evs[0], load), evs[1..], load, PastAfter(s, p, evs[0])))
  }

  // The table remembers exactly this past.
  ghost predicate Remembers(s: State, p: Past) {
    forall th :: (Known(s, th) <==> th in p.ever) && (Waiting(s, th) <==> th in p.held)
  }

  lemma RemembersNext(s: State, e: Event, load: nat, p: Past)
    requires Safe(s) && |s.table| < MAX_ELEMS && Remembers(s, p)
    ensures Remembers(Next(s, e, load), PastAfter(s, p, e))
  {
    var s', p' := Next(s, e, load), PastAfter(s, p, e);
    forall x ensures (Known(s', x) <==> x in p'.ever) && (Waiting(s', x) <==> x in p'.held) {
      match e
      case SwitchOut(th, cpu, hw) =>
        if Grabs(s, cpu) { AfterSave(s, th, cpu, hw, load, x); } else { StopsIffRunning(s.registry, s.mem, cpu, hw, load); }
      case SwitchIn(th, cpu, hw) => if s.enabled { AfterIn(s, th, cpu, hw, load, x); }
      case _ =>
    }
  }

  lemma InTurnIff(s: State, p: Past, e: Event)
    requires Remembers(s, p)
    ensures Clean(s, e) <==> InTurn(s, p, e)
  {
    if e.SwitchIn? || e.SwitchOut? {
      assert Tombstoned(s, e.thread) <==> Known(s, e.thread) && !Waiting(s, e.thread);
    }
  }

  lemma {:induction false} HistoryIff(s: State, evs: seq<Event>, load: nat, all: set<nat>, p: Past)
    requires Safe(s) && Roomy(s, all) && Within(evs, all) && Remembers(s, p)
    ensures AlwaysClean(s, evs, load) <==> AlwaysInTurn(s, evs, load, p)
    decreases |evs|
  {
    if evs != [] {
      RoomyFits(s, all);
      SafeNext(s, evs[0], load);
      RoomyNext(s, evs[0], load, all);
      RemembersNext(s, evs[0], load, p);
      InTurnIff(s, p, evs[0]);
      HistoryIff(Next(s, evs[0], load), evs[1..], load, all, PastAfter(s, p, evs[0]));
    }
  }

  // From initialization, over every run of fewer than 256 threads, alternating or
  // not, with switch handling turned on and off at any time: the vectors stay
  // partitioned between free list and table at every step if and only if, as long
  // as handling is on, a thread ever saved comes in only when it is held, and
  // none is saved while it is held.
  lemma HistoryConservesIff(s: State, evs: seq<Event>, load: nat, all: set<nat>)
    requires Safe(s) && Within(evs, all) && |all| < MAX_ELEMS
    ensures Safe(Reset(s))
    ensures AlwaysConserved(Reset(s), evs, load) <==> AlwaysInTurn(Reset(s), evs, load, Past({}, {}))
  {
    RunFromResetConservesIff(s, evs, load, all);
    HistoryIff(Reset(s), evs, load, all, Past({}, {}));
  }

  // A thread saved once is saved again at every later switch-out it comes back
  // from.
  ghost predicate SavedEachTime(s: State, evs: seq<Event>, load: nat, p: Past)
    requires Safe(s)
    decreases |evs|
  {
    evs != [] ==>
      && (evs[0].SwitchIn? && evs[0].thread in p.ever ==> evs[0].thread in p.held)
      && (SafeNext(s, evs[0], load); SavedEachTime(Next(s, evs[0], load), evs[1..], load, PastAfter(s, p, evs[0])))
  }

  lemma {:induction false} SavedEachTimeIff(s: State, evs: seq<Event>, load: nat, all: set<nat>, p: Past)
    requires Safe(s) && Roomy(s, all) && Within(evs, all) && Remembers(s, p)
    ensures NoTombstoneMet(s, evs, load) <==> SavedEachTime(s, evs, load, p)
    decreases |evs|
  {
    if evs != [] {
      RoomyFits(s, all);
      SafeNext(s, evs[0], load);
      RoomyNext(s, evs[0], load, all);
      RemembersNext(s, evs[0], load, p);
      assert evs[0].SwitchIn? ==>
          (Tombstoned(s, evs[0].thread) <==> Known(s, evs[0].thread) && !Waiting(s, evs[0].thread));
      SavedEachTimeIff(Next(s, evs[0], load), evs[1..], load, all, PastAfter(s, p, evs[0]));
    }
  }

  // From initialization, with switch handling on and never toggled, over every
  // run of fewer than 256 threads that all alternate, whichever of them were
  // switched out at first: that is if and only if no switch-in meets a tombstone,
  // which is if and only if a thread saved once is saved again at every later
  // switch-out it comes back from.
  lemma AlternatingConservesIff(s: State, evs: seq<Event>, load: nat, all: set<nat>, off: set<nat>)
    requires Safe(s) && s.enabled && Within(evs, all) && |all| < MAX_ELEMS && Alternates(evs, off)
    ensures Safe(Reset(s))
    ensures AlwaysConserved(Reset(s), evs, load) <==> NoTombstoneMet(Reset(s), evs, load)
    ensures AlwaysConserved(Reset(s), evs, load) <==> SavedEachTime(Reset(s), evs, load, Past({}, {}))
  {
    RunFromResetConservesIff(s, evs, load, all);
    AlternatingRunIff(Reset(s), evs, load, all, off);
    SavedEachTimeIff(Reset(s), evs, load, all, Past({}, {}));
  }
}
