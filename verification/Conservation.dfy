/** The 200 timer vectors over whole runs: when every vector is either on the
free list or held by one live table entry, and what breaks that. */
module Conservation {
  import opened Wrappers
  import opened HashTableSpec
  import opened SwitchSpec

  // Following the free list from p meets exactly fl and then NULL, so a list
  // with a cycle is matched by no fl.
  ghost predicate Chain(next: seq<int>, p: int, fl: seq<nat>)
    decreases fl
  {
    if fl == [] then p == -1
    else p == fl[0] && fl[0] < |next| && Chain(next, next[fl[0]], fl[1..])
  }

  ghost function Occurs(fl: seq<nat>, v: nat): nat {
    if fl == [] then 0 else (if fl[0] == v then 1 else 0) + Occurs(fl[1..], v)
  }

  // How many live entries hold vector v.
  ghost function Held(es: seq<Entry>, v: nat): nat {
    if es == [] then 0
    else Held(es[..|es| - 1], v) + (if !es[|es| - 1].removed && es[|es| - 1].data == v then 1 else 0)
  }

  ghost predicate Accounts(s: State, fl: seq<nat>) {
    && Chain(s.next, s.head, fl)
    && (forall v :: 0 <= v < MAX_THREADS ==> Occurs(fl, v) + Held(s.table, v) == 1)
  }

  // Every vector is in exactly one place, once.
  ghost predicate Conserved(s: State) {
    exists fl :: Accounts(s, fl)
  }

  // The switch-out takes a vector off the free list.
  ghost predicate Grabs(s: State, cpu: nat) {
    s.enabled && s.head != -1 && exists i :: 0 <= i < |s.registry| && Running(s.mem, s.registry[i], cpu)
  }

  // The thread's newest table entry, live or a tombstone.
  ghost predicate Tombstoned(s: State, th: nat) {
    var i := Find(s.table, th);
    i >= 0 && s.table[i].removed
  }

  ghost predicate Waiting(s: State, th: nat) {
    var i := Find(s.table, th);
    i >= 0 && !s.table[i].removed
  }

  // What the switching protocol must give: no switch-in of a thread whose
  // entry is a tombstone, and no saving switch-out of a thread already saved.
  ghost predicate Clean(s: State, e: Event) {
    match e
    case SwitchIn(th, _, _) => !(s.enabled && Tombstoned(s, th))
    case SwitchOut(th, cpu, _) => !(Grabs(s, cpu) && Waiting(s, th))
    case _ => true
  }

  // ------------------------------------------------------------ counting

  lemma {:induction false} ChainUnique(next: seq<int>, p: int, a: seq<nat>, b: seq<nat>)
    requires Chain(next, p, a) && Chain(next, p, b)
    ensures a == b
    decreases a
  {
    if a != [] && b != [] { ChainUnique(next, next[a[0]], a[1..], b[1..]); }
  }

  // Rewriting the link of a vector not on the list leaves the list alone.
  lemma {:induction false} ChainFrame(next: seq<int>, p: int, fl: seq<nat>, v: nat, x: int)
    requires Chain(next, p, fl) && v < |next| && Occurs(fl, v) == 0
    ensures Chain(next[v := x], p, fl)
    decreases fl
  {
    if fl != [] { ChainFrame(next, next[fl[0]], fl[1..], v, x); }
  }

  // Freeing a vector that is already free ties the list into a cycle: with v
  // relinked to p, no finite list starts at p.
  lemma {:induction false} DoubleFreeCycles(next: seq<int>, p: int, q: int, fl: seq<nat>, v: nat, back: seq<nat>, all: seq<nat>)
    requires Chain(next, q, fl) && Occurs(fl, v) > 0 && v < |next|
    requires Chain(next[v := p], q, back) && Chain(next[v := p], p, all) && |back| <= |all|
    ensures false
    decreases |fl|
  {
    if fl[0] == v {
      ChainUnique(next[v := p], p, back[1..], all);
    } else {
      DoubleFreeCycles(next, p, next[q], fl[1..], v, back[1..], all);
    }
  }

  lemma {:induction false} HeldPut(es: seq<Entry>, i: nat, e: Entry, v: nat)
    requires i < |es|
    ensures Held(es[i := e], v) + Held([es[i]], v) == Held(es, v) + Held([e], v)
  {
    var n := |es| - 1;
    assert Held([es[i]], v) == (if !es[i].removed && es[i].data == v then 1 else 0);
    assert Held([e], v) == (if !e.removed && e.data == v then 1 else 0);
    if i < n {
      HeldPut(es[..n], i, e, v);
      assert es[i := e][..n] == es[..n][i := e];
    } else {
      assert es[i := e][..n] == es[..n];
    }
  }

  lemma HeldAppend(es: seq<Entry>, e: Entry, v: nat)
    ensures Held(es + [e], v) == Held(es, v) + Held([e], v)
  {
    assert (es + [e])[..|es|] == es;
    assert Held([e], v) == (if !e.removed && e.data == v then 1 else 0);
  }

  lemma {:induction false} HeldByLive(es: seq<Entry>, i: nat)
    requires i < |es| && !es[i].removed
    ensures Held(es, es[i].data) >= 1
  {
    if i < |es| - 1 { HeldByLive(es[..|es| - 1], i); }
  }

  // ------------------------------------------------------------ switch-in

  // A switch-in of a waiting thread moves its vector back to the free list.
  lemma SwitchInConserves(s: State, th: nat, cpu: nat, hw: Readings, load: nat, fl: seq<nat>)
    requires Safe(s) && s.enabled && Waiting(s, th) && Accounts(s, fl)
    ensures Accounts(DoSwitchIn(s, th, cpu, hw, load), [s.table[Find(s.table, th)].data] + fl)
  {
    var i := Find(s.table, th);
    var e := s.table[i];
    var v := e.data;
    HeldByLive(s.table, i);
    ChainFrame(s.next, s.head, fl, v, s.head);
    var s' := DoSwitchIn(s, th, cpu, hw, load);
    assert ([v] + fl)[1..] == fl;
    forall u | 0 <= u < MAX_THREADS ensures Occurs([v] + fl, u) + Held(s'.table, u) == 1 {
      HeldPut(s.table, i, e.(removed := true), u);
      assert Held([e], u) == (if e.data == u then 1 else 0) && Held([e.(removed := true)], u) == 0;
    }
  }

  // A switch-in that meets a tombstone frees a vector that is not the
  // thread's, and the accounts no longer balance, whichever list one tries.
  lemma TombstoneBreaks(s: State, th: nat, cpu: nat, hw: Readings, load: nat, fl: seq<nat>, fl': seq<nat>)
    requires Safe(s) && s.enabled && Tombstoned(s, th) && Accounts(s, fl)
    ensures !Accounts(DoSwitchIn(s, th, cpu, hw, load), fl')
  {
    var i := Find(s.table, th);
    var v := s.table[i].data;
    var s' := DoSwitchIn(s, th, cpu, hw, load);
    assert s'.table == s.table;
    assert s'.next == s.next[v := s.head] && s'.head == v;
    if Chain(s'.next, v, fl') {
      if Occurs(fl, v) > 0 {
        DoubleFreeCycles(s.next, s.head, s.head, fl, v, fl'[1..], fl'[1..]);
      } else {
        ChainFrame(s.next, s.head, fl, v, s.head);
        ChainUnique(s'.next, s.head, fl, fl'[1..]);
      }
    }
  }

  // ------------------------------------------------------------ switch-out

  lemma {:induction false} StopsIffRunning(regs: seq<nat>, m: Memory, cpu: nat, hw: Readings, load: nat)
    ensures StopAll(regs, m, cpu, hw, load).count > 0 <==>
              exists i :: 0 <= i < |regs| && Running(m, regs[i], cpu)
  {
    if regs != [] {
      var n := |regs| - 1;
      StopsIffRunning(regs[..n], m, cpu, hw, load);
      var p := StopAll(regs[..n], m, cpu, hw, load);
      if p.count > 0 {
        var i :| 0 <= i < n && Running(m, regs[..n][i], cpu);
        assert Running(m, regs[i], cpu);
      } else {
        forall i | 0 <= i < n ensures !Running(m, regs[i], cpu) { assert !Running(m, regs[..n][i], cpu); }
      }
    }
  }

  // A saving switch-out moves the head of the free list to the thread.
  lemma SwitchOutConserves(s: State, th: nat, cpu: nat, hw: Readings, load: nat, fl: seq<nat>)
    requires Safe(s) && |s.table| < MAX_ELEMS && Grabs(s, cpu) && !Waiting(s, th) && Accounts(s, fl)
    ensures fl != [] && Accounts(DoSwitchOut(s, th, cpu, hw, load), fl[1..])
  {
    StopsIffRunning(s.registry, s.mem, cpu, hw, load);
    var e := Entry(th, s.head, false);
    var s' := DoSwitchOut(s, th, cpu, hw, load);
    forall u | 0 <= u < MAX_THREADS ensures Occurs(fl[1..], u) + Held(s'.table, u) == 1 {
      var i := Find(s.table, th);
      if i < 0 {
        HeldAppend(s.table, e, u);
      } else {
        HeldPut(s.table, i, e, u);
        assert Held([s.table[i]], u) == 0;
      }
      assert Held([e], u) == (if s.head == u then 1 else 0);
    }
  }

  // Saving a thread that is already saved loses a vector for good.
  lemma DoubleSaveBreaks(s: State, th: nat, cpu: nat, hw: Readings, load: nat, fl: seq<nat>, fl': seq<nat>)
    requires Safe(s) && |s.table| < MAX_ELEMS && Grabs(s, cpu) && Waiting(s, th) && Accounts(s, fl)
    ensures !Accounts(DoSwitchOut(s, th, cpu, hw, load), fl')
  {
    StopsIffRunning(s.registry, s.mem, cpu, hw, load);
    var s' := DoSwitchOut(s, th, cpu, hw, load);
    assert s'.table == s.table && s'.next == s.next && s'.head == s.next[s.head];
    assert Occurs(fl[1..], s.head) + Held(s.table, s.head) == 0;
    if Chain(s'.next, s'.head, fl') { ChainUnique(s.next, s'.head, fl[1..], fl'); }
  }

  // ------------------------------------------------------------ every step

  lemma {:induction false} LinearChain(n: nat, k: nat, fl: seq<nat>)
    requires k <= n && fl == seq(n - k, i => k + i)
    ensures Chain(Linear(n), if k < n then k else -1, fl)
    ensures forall v :: 0 <= v < n ==> Occurs(fl, v) == if k <= v then 1 else 0
    decreases n - k
  {
    if k < n {
      assert fl[1..] == seq(n - k - 1, i => k + 1 + i);
      LinearChain(n, k + 1, fl[1..]);
    }
  }

  // Right after initialization every vector is on the free list.
  lemma ResetConserved(s: State)
    ensures Conserved(Reset(s))
  {
    var fl := seq(MAX_THREADS, i => i);
    LinearChain(MAX_THREADS, 0, fl);
    assert Accounts(Reset(s), fl);
  }

  // One step keeps the accounts balanced exactly when it is clean.
  lemma StepConservesIff(s: State, e: Event, load: nat)
    requires Safe(s) && |s.table| < MAX_ELEMS && Conserved(s)
    ensures Conserved(Next(s, e, load)) <==> Clean(s, e)
  {
    var fl :| Accounts(s, fl);
    var s' := Next(s, e, load);
    match e
    case SwitchIn(th, cpu, hw) =>
      if s.enabled && Tombstoned(s, th) {
        if Conserved(s') {
          var fl' :| Accounts(s', fl');
          TombstoneBreaks(s, th, cpu, hw, load, fl, fl');
        }
      } else if s.enabled && Waiting(s, th) {
        SwitchInConserves(s, th, cpu, hw, load, fl);
      }
    case SwitchOut(th, cpu, hw) =>
      StopsIffRunning(s.registry, s.mem, cpu, hw, load);
      if Grabs(s, cpu) && Waiting(s, th) {
        if Conserved(s') {
          var fl' :| Accounts(s', fl');
          DoubleSaveBreaks(s, th, cpu, hw, load, fl, fl');
        }
      } else if Grabs(s, cpu) {
        SwitchOutConserves(s, th, cpu, hw, load, fl);
      } else {
        assert Accounts(s', fl);
      }
    case Clear => ResetConserved(s);
    case Register(_) => assert Accounts(s', fl);
    case Deregister(_) => assert Accounts(s', fl);
    case Toggle => assert Accounts(s', fl);
    case Instrument(_) => assert Accounts(s', fl);
  }

  // ------------------------------------------------------------ whole runs

  ghost predicate AlwaysConserved(s: State, evs: seq<Event>, load: nat)
    requires Safe(s)
    decreases |evs|
  {
    && Conserved(s)
    && (evs != [] ==> (SafeNext(s, evs[0], load); AlwaysConserved(Next(s, evs[0], load), evs[1..], load)))
  }

  ghost predicate AlwaysClean(s: State, evs: seq<Event>, load: nat)
    requires Safe(s)
    decreases |evs|
  {
    evs != [] ==>
      Clean(s, evs[0]) && (SafeNext(s, evs[0], load); AlwaysClean(Next(s, evs[0], load), evs[1..], load))
  }

  ghost function Run(s: State, evs: seq<Event>, load: nat): (s': State)
    requires Safe(s)
    ensures Safe(s')
    decreases |evs|
  {
    if evs == [] then s else SafeNext(s, evs[0], load); Run(Next(s, evs[0], load), evs[1..], load)
  }

  ghost function ThreadsOf(e: Event): set<nat> {
    match e
    case SwitchOut(th, _, _) => {th}
    case SwitchIn(th, _, _) => {th}
    case _ => {}
  }

  ghost predicate Within(evs: seq<Event>, all: set<nat>) {
    forall i :: 0 <= i < |evs| ==> ThreadsOf(evs[i]) <= all
  }

  // The table never packs: its keys are distinct and all among fewer than 256
  // threads.
  ghost predicate Roomy(s: State, all: set<nat>) {
    DistinctKeys(s.table) && Keys(s.table) <= all && |all| < MAX_ELEMS
  }

  lemma RoomyFits(s: State, all: set<nat>)
    requires Roomy(s, all)
    ensures |s.table| < MAX_ELEMS
  {
    DistinctKeysCount(s.table);
    SubsetCount(Keys(s.table), all);
  }

  lemma RoomyNext(s: State, e: Event, load: nat, all: set<nat>)
    requires Safe(s) && Roomy(s, all) && ThreadsOf(e) <= all
    ensures Roomy(Next(s, e, load), all)
  {
    RoomyFits(s, all);
    match e
    case SwitchOut(th, cpu, hw) => StepKeys(s.table, OpAdd(th, if s.head >= 0 then s.head else 0));
    case SwitchIn(th, cpu, hw) => StepKeys(s.table, OpRemove(th));
    case Register(a) =>
    case Deregister(a) =>
    case Toggle =>
    case Clear =>
    case Instrument(m) =>
  }

  // Over every run of fewer than 256 threads, the vectors stay partitioned
  // between free list and live entries at every step exactly when every step
  // is clean.
  lemma {:induction false} RunConservesIff(s: State, evs: seq<Event>, load: nat, all: set<nat>)
    requires Safe(s) && Conserved(s) && Roomy(s, all) && Within(evs, all)
    ensures AlwaysConserved(s, evs, load) <==> AlwaysClean(s, evs, load)
    decreases |evs|
  {
    if evs != [] {
      RoomyFits(s, all);
      StepConservesIff(s, evs[0], load);
      if Clean(s, evs[0]) {
        SafeNext(s, evs[0], load);
        RoomyNext(s, evs[0], load, all);
        RunConservesIff(Next(s, evs[0], load), evs[1..], load, all);
      }
    }
  }

  // The same from initialization, whatever the vectors and memory held.
  lemma RunFromResetConservesIff(s: State, evs: seq<Event>, load: nat, all: set<nat>)
    requires Safe(s) && Within(evs, all) && |all| < MAX_ELEMS
    ensures Safe(Reset(s))
    ensures AlwaysConserved(Reset(s), evs, load) <==> AlwaysClean(Reset(s), evs, load)
  {
    ResetConserved(s);
    RunConservesIff(Reset(s), evs, load, all);
  }

  ghost function RoundTrip(th: nat, hw: Readings, rest: seq<Event>): seq<Event> {
    [SwitchOut(th, 0, hw)] + ([SwitchIn(th, 0, hw)] + rest)
  }

  lemma AlwaysCons(s: State, e: Event, rest: seq<Event>, load: nat)
    requires Safe(s)
    ensures Safe(Next(s, e, load))
    ensures AlwaysConserved(s, [e] + rest, load) ==> AlwaysConserved(Next(s, e, load), rest, load)
  {
    SafeNext(s, e, load);
    assert ([e] + rest)[1..] == rest;
  }

  lemma AlwaysRoundTrip(s: State, th: nat, hw: Readings, rest: seq<Event>, load: nat)
    requires Safe(s)
    ensures Safe(DoSwitchOut(s, th, 0, hw, load)) && Safe(DoSwitchIn(DoSwitchOut(s, th, 0, hw, load), th, 0, hw, load))
    ensures AlwaysConserved(s, RoundTrip(th, hw, rest), load) ==>
              AlwaysConserved(DoSwitchIn(DoSwitchOut(s, th, 0, hw, load), th, 0, hw, load), rest, load)
  {
    AlwaysCons(s, SwitchOut(th, 0, hw), [SwitchIn(th, 0, hw)] + rest, load);
    AlwaysCons(DoSwitchOut(s, th, 0, hw, load), SwitchIn(th, 0, hw), rest, load);
  }

  // After a saving switch-out and the switch-in, the thread has a tombstone.
  lemma RoundTripTombstone(s: State, th: nat, hw: Readings, load: nat)
    requires Safe(s) && Grabs(s, 0) && Find(s.table, th) < 0 && |s.table| + 1 < MAX_ELEMS
    ensures Safe(DoSwitchOut(s, th, 0, hw, load))
    ensures var s3 := DoSwitchIn(DoSwitchOut(s, th, 0, hw, load), th, 0, hw, load);
            Tombstoned(s3, th) && s3.enabled && s3.registry == s.registry && |s3.table| < MAX_ELEMS
  {
    SafeSwitchOut(s, th, 0, hw, load);
    StopsIffRunning(s.registry, s.mem, 0, hw, load);
    var s2 := DoSwitchOut(s, th, 0, hw, load);
    FindAppend(s.table, Entry(th, s.head, false), th);
    assert s2.table == s.table + [Entry(th, s.head, false)];
    FindSameKeys(s2.table, DoSwitchIn(s2, th, 0, hw, load).table, th);
  }

  // A switch-out with no timer running changes nothing, and a switch-in at a
  // tombstone then breaks the accounts.
  lemma QuietTripBreaks(s: State, th: nat, hw: Readings, load: nat)
    requires Safe(s) && s.enabled && Tombstoned(s, th) && |s.table| < MAX_ELEMS
    requires forall i :: 0 <= i < |s.registry| ==> !Running(s.mem, s.registry[i], 0)
    ensures !AlwaysConserved(s, RoundTrip(th, hw, []), load)
  {
    StopsIffRunning(s.registry, s.mem, 0, hw, load);
    AlwaysRoundTrip(s, th, hw, [], load);
    if Conserved(s) { StepConservesIff(s, SwitchIn(th, 0, hw), load); }
  }

  // The protocol cannot rule tombstones out: a thread that switches out with a
  // timer running, in, out with no timer running, and in again alternates
  // properly and breaks conservation.
  lemma AlternatingRunBreaks(s: State, th: nat, hw: Readings, load: nat, off: Memory)
    requires Safe(s) && Grabs(s, 0) && Find(s.table, th) < 0 && |s.table| + 1 < MAX_ELEMS
    requires forall i :: 0 <= i < |s.registry| ==> !Running(off, s.registry[i], 0)
    ensures !AlwaysConserved(s, RoundTrip(th, hw, [Instrument(off)] + RoundTrip(th, hw, [])), load)
  {
    AlwaysRoundTrip(s, th, hw, [Instrument(off)] + RoundTrip(th, hw, []), load);
    RoundTripTombstone(s, th, hw, load);
    TombstonedRunBreaks(DoSwitchIn(DoSwitchOut(s, th, 0, hw, load), th, 0, hw, load), th, hw, load, off);
  }

  lemma TombstonedRunBreaks(s: State, th: nat, hw: Readings, load: nat, off: Memory)
    requires Safe(s) && s.enabled && Tombstoned(s, th) && |s.table| < MAX_ELEMS
    requires forall i :: 0 <= i < |s.registry| ==> !Running(off, s.registry[i], 0)
    ensures !AlwaysConserved(s, [Instrument(off)] + RoundTrip(th, hw, []), load)
  {
    var s' := s.(mem := off);
    assert Next(s, Instrument(off), load) == s';
    QuietTripBreaks(s', th, hw, load);
    AlwaysCons(s, Instrument(off), RoundTrip(th, hw, []), load);
  }
}
