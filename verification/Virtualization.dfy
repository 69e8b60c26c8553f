/** What a thread gets back: timers stopped at its switch-out come back at its
switch-in with the recursion count they had, whatever other threads did. */
module Virtualization {
  import opened Wrappers
  import T = Timers
  import opened HashTableSpec
  import opened SwitchSpec
  import opened Conservation

  ghost predicate DistinctAddrs(p: seq<Saved>) {
    forall i, j :: 0 <= i < j < |p| ==> p[i].addr != p[j].addr
  }

  ghost predicate AddrsIn(p: seq<Saved>, regs: seq<nat>) {
    forall i :: 0 <= i < |p| ==> p[i].addr in regs
  }

  // ------------------------------------------------------------ stopping

  lemma SlotsDiffer(a: nat, b: nat, cpu: nat)
    ensures CpuTimer(a, cpu) == CpuTimer(b, cpu) <==> a == b
  {
  }

  // What stopping keeps of memory: every counter type, and every timer on this
  // CPU that was not running or is not registered.
  lemma {:induction false} StopAllFrame(regs: seq<nat>, m: Memory, cpu: nat, hw: Readings, load: nat, a: nat)
    ensures var r := StopAll(regs, m, cpu, hw, load);
            && At(r.mem, a).ctype == At(m, a).ctype
            && (a !in regs || !Running(m, a, cpu) ==> At(r.mem, CpuTimer(a, cpu)) == At(m, CpuTimer(a, cpu)))
  {
    if regs != [] {
      var n := |regs| - 1;
      StopAllFrame(regs[..n], m, cpu, hw, load, a);
      assert regs == regs[..n] + [regs[n]];
      SlotsDiffer(a, regs[n], cpu);
    }
  }

  // Afterwards no registered timer runs on that CPU, saved or not.
  lemma {:induction false} StopAllStops(regs: seq<nat>, m: Memory, cpu: nat, hw: Readings, load: nat, a: nat)
    requires a in regs
    ensures !Running(StopAll(regs, m, cpu, hw, load).mem, a, cpu)
  {
    var n := |regs| - 1;
    SlotsDiffer(a, regs[n], cpu);
    if a != regs[n] {
      assert regs == regs[..n] + [regs[n]];
      StopAllStops(regs[..n], m, cpu, hw, load, a);
    }
  }

  // The same for the whole routine, free list empty or not.
  lemma SwitchOutStopsAll(s: State, th: nat, cpu: nat, hw: Readings, load: nat, a: nat)
    requires Safe(s) && s.enabled && a in s.registry
    ensures !Running(DoSwitchOut(s, th, cpu, hw, load).mem, a, cpu)
  {
    StopAllStops(s.registry, s.mem, cpu, hw, load, a);
    StopsIffRunning(s.registry, s.mem, cpu, hw, load);
  }

  // The pair saved for timer a: its recursion count and the reading taken.
  ghost predicate SavedAs(x: Saved, m: Memory, a: nat, cpu: nat, hw: T.Hw, load: nat) {
    x.addr == a && T.VStop(At(m, CpuTimer(a, cpu)), At(m, a).ctype, hw, load).1 == Some(x.aux)
  }

  // A timer saved was running; each is saved once.
  lemma {:induction false} StopAllSaves(regs: seq<nat>, m: Memory, cpu: nat, hw: Readings, load: nat)
    ensures var r := StopAll(regs, m, cpu, hw, load);
            && DistinctAddrs(r.saved) && AddrsIn(r.saved, regs)
            && (forall i :: 0 <= i < |r.saved| ==> Running(m, r.saved[i].addr, cpu))
  {
    if regs != [] {
      var n := |regs| - 1;
      var p := StopAll(regs[..n], m, cpu, hw, load);
      StopAllSaves(regs[..n], m, cpu, hw, load);
      assert regs == regs[..n] + [regs[n]];
      if Running(p.mem, regs[n], cpu) {
        forall i | 0 <= i < |p.saved| ensures p.saved[i].addr != regs[n] {
          StopAllStops(regs[..n], m, cpu, hw, load, p.saved[i].addr);
        }
        StopAllFrame(regs[..n], m, cpu, hw, load, regs[n]);
      }
    }
  }

  // A registered running timer of a valid kind is saved, with its count.
  lemma {:induction false} StopAllComplete(regs: seq<nat>, m: Memory, cpu: nat, hw: Readings, load: nat, a: nat)
    returns (i: nat, j: nat)
    requires a in regs && Running(m, a, cpu) && T.ValidKind(At(m, a).ctype)
    ensures var r := StopAll(regs, m, cpu, hw, load);
            i < |r.saved| && SavedAs(r.saved[i], m, a, cpu, hw(j), load)
  {
    var n := |regs| - 1;
    var p := StopAll(regs[..n], m, cpu, hw, load);
    if a in regs[..n] {
      i, j := StopAllComplete(regs[..n], m, cpu, hw, load, a);
    } else {
      assert a == regs[n] by { assert regs == regs[..n] + [regs[n]]; }
      StopAllFrame(regs[..n], m, cpu, hw, load, a);
      i, j := |p.saved|, n;
    }
  }

  // ------------------------------------------------------------ restarting

  lemma {:induction false} RestartAllFrame(saved: seq<Saved>, m: Memory, cpu: nat, hw: Readings, load: nat, a: nat)
    ensures var m' := RestartAll(saved, m, cpu, hw, load);
            && At(m', a).ctype == At(m, a).ctype
            && ((forall i :: 0 <= i < |saved| ==> saved[i].addr != a) ==>
                  At(m', CpuTimer(a, cpu)) == At(m, CpuTimer(a, cpu)))
  {
    if saved != [] {
      var n := |saved| - 1;
      RestartAllFrame(saved[..n], m, cpu, hw, load, a);
      SlotsDiffer(a, saved[n].addr, cpu);
    }
  }

  // Every saved timer is restarted from exactly the pair saved for it.
  lemma {:induction false} RestartAllRestores(saved: seq<Saved>, m: Memory, cpu: nat, hw: Readings, load: nat, i: nat)
    requires i < |saved| && DistinctAddrs(saved)
    ensures var slot := CpuTimer(saved[i].addr, cpu);
            At(RestartAll(saved, m, cpu, hw, load), slot) ==
            T.VRestart(At(m, slot), saved[i].aux, At(m, saved[i].addr).ctype, hw(i), load)
  {
    var n := |saved| - 1;
    var a := saved[i].addr;
    if i < n {
      RestartAllRestores(saved[..n], m, cpu, hw, load, i);
      SlotsDiffer(a, saved[n].addr, cpu);
    } else {
      RestartAllFrame(saved[..n], m, cpu, hw, load, a);
    }
  }

  // ------------------------------------------------------------ saved vectors

  // Dropping address a from the saved pairs, order kept.
  ghost function Without(p: seq<Saved>, a: nat): seq<Saved> {
    if p == [] then []
    else (if p[0].addr == a then [] else [p[0]]) + Without(p[1..], a)
  }

  lemma {:induction false} WithoutAbsent(p: seq<Saved>, a: nat)
    requires forall i :: 0 <= i < |p| ==> p[i].addr != a
    ensures Without(p, a) == p
  {
    if p != [] { WithoutAbsent(p[1..], a); }
  }

  lemma {:induction false} WithoutHolds(p: seq<Saved>, a: nat, x: Saved)
    ensures x in Without(p, a) <==> x in p && x.addr != a
  {
    if p != [] { WithoutHolds(p[1..], a, x); assert p == [p[0]] + p[1..]; }
  }

  lemma {:induction false} WithoutDistinct(p: seq<Saved>, a: nat)
    requires DistinctAddrs(p)
    ensures DistinctAddrs(Without(p, a))
  {
    if p != [] {
      WithoutDistinct(p[1..], a);
      var w := Without(p[1..], a);
      forall i | 0 <= i < |w| ensures w[i].addr != p[0].addr { WithoutHolds(p[1..], a, w[i]); }
    }
  }

  lemma DropTail(vec: seq<Saved>, a: nat)
    requires vec != [] && vec[0].addr != a
    ensures Drop(vec, a) == [vec[0]] + Drop(vec[1..], a)
  {
    var i := SlotOf(vec, a);
    if i >= 0 {
      assert vec[..i] + vec[i + 1..] == [vec[0]] + (vec[1..][..i - 1] + vec[1..][i..]);
    } else {
      assert vec == [vec[0]] + vec[1..];
    }
  }

  lemma PrefixCons(x: Saved, vec: seq<Saved>)
    requires x.addr != 0
    ensures Prefix([x] + vec) == [x] + Prefix(vec)
  {
    assert ([x] + vec)[1..] == vec;
  }

  // Dropping a non-NULL address the prefix holds at most once removes it from
  // the prefix and nothing else, whatever lies past the terminator.
  lemma {:induction false} DropPrefix(vec: seq<Saved>, a: nat)
    requires a != 0 && DistinctAddrs(Prefix(vec)) && Terminated(vec)
    ensures Prefix(Drop(vec, a)) == Without(Prefix(vec), a)
  {
    var rest := vec[1..];
    if vec[0].addr == 0 {
      DropTail(vec, a);
    } else {
      assert vec == [vec[0]] + rest;
      PrefixCons(vec[0], rest);
      if vec[0].addr == a {
        assert Drop(vec, a) == rest + [NIL];
        PrefixPadded(rest, [NIL]);
        forall i | 0 <= i < |Prefix(rest)| ensures Prefix(rest)[i].addr != a {
          assert Prefix(vec)[0].addr == a && Prefix(vec)[i + 1] == Prefix(rest)[i];
        }
        WithoutAbsent(Prefix(rest), a);
      } else {
        forall i, j | 0 <= i < j < |Prefix(rest)| ensures Prefix(rest)[i].addr != Prefix(rest)[j].addr {
          assert Prefix(vec)[i + 1].addr != Prefix(vec)[j + 1].addr;
        }
        DropPrefix(rest, a);
        DropTail(vec, a);
        PrefixCons(vec[0], Drop(rest, a));
      }
      assert Prefix(vec)[1..] == Prefix(rest);
    }
  }

  lemma {:induction false} PrefixPadded(vec: seq<Saved>, tail: seq<Saved>)
    requires Terminated(vec)
    ensures Prefix(vec + tail) == Prefix(vec)
  {
    if vec[0].addr != 0 {
      PrefixPadded(vec[1..], tail);
      assert (vec + tail)[1..] == vec[1..] + tail;
    }
  }

  // What a saving switch-out leaves in its vector.
  lemma {:induction false} StorePrefix(vec: seq<Saved>, saved: seq<Saved>)
    requires |saved| < |vec| && forall i :: 0 <= i < |saved| ==> saved[i].addr != 0
    ensures Prefix(Store(vec, saved)) == saved
  {
    var w := Store(vec, saved);
    ZeroTerminates(w, |saved|);
    var p := Prefix(w);
    assert p == w[..|p|];
    forall j | 0 <= j < |saved| ensures w[j].addr != 0 { assert w[j] == saved[j]; }
    assert w[..|saved|] == saved;
  }

  // ------------------------------------------------------------ deregistering

  // Scrubbing reaches the vector of every live entry, once or more, with the
  // effect of once; other vectors are untouched.
  lemma {:induction false} ScrubPrefix(vecs: seq<seq<Saved>>, es: seq<Entry>, a: nat, v: nat)
    requires v < |vecs| && PointInto(es, |vecs|)
    requires a != 0 && DistinctAddrs(Prefix(vecs[v])) && Terminated(vecs[v])
    ensures Held(es, v) > 0 ==> Prefix(Scrub(vecs, es, a)[v]) == Without(Prefix(vecs[v]), a)
  {
    if es != [] {
      var n := |es| - 1;
      ScrubPrefix(vecs, es[..n], a, v);
      ScrubOthers(vecs, es[..n], a, v);
      if !es[n].removed && es[n].data == v {
        var w := Scrub(vecs, es[..n], a)[v];
        ScrubSafe(vecs, es[..n], a, v);
        WithoutDistinct(Prefix(vecs[v]), a);
        DropPrefix(w, a);
        WithoutTwice(Prefix(vecs[v]), a);
      }
    }
  }

  lemma {:induction false} ScrubOthers(vecs: seq<seq<Saved>>, es: seq<Entry>, a: nat, v: nat)
    requires v < |vecs| && PointInto(es, |vecs|)
    ensures Held(es, v) == 0 ==> Scrub(vecs, es, a)[v] == vecs[v]
  {
    if es != [] { ScrubOthers(vecs, es[..|es| - 1], a, v); }
  }

  lemma WithoutTwice(p: seq<Saved>, a: nat)
    ensures Without(Without(p, a), a) == Without(p, a)
  {
    var w := Without(p, a);
    forall i | 0 <= i < |w| ensures w[i].addr != a { WithoutHolds(p, a, w[i]); }
    WithoutAbsent(w, a);
  }

  // No saved vector repeats a timer or names one that is not registered.
  ghost predicate SavedOk(s: State)
    requires Safe(s)
  {
    && 0 !in s.registry
    && forall i :: 0 <= i < |s.table| && !s.table[i].removed ==> VectorOk(s.vecs[s.table[i].data], s.registry)
  }

  ghost predicate VectorOk(vec: seq<Saved>, regs: seq<nat>) {
    DistinctAddrs(Prefix(vec)) && AddrsIn(Prefix(vec), regs)
  }

  lemma {:induction false} OccursPut(regs: seq<nat>, i: nat, y: nat, x: nat)
    requires i < |regs|
    ensures Occurs(regs[i := y], x) + (if regs[i] == x then 1 else 0) == Occurs(regs, x) + (if y == x then 1 else 0)
  {
    if i > 0 {
      OccursPut(regs[1..], i - 1, y, x);
      assert regs[i := y][1..] == regs[1..][i - 1 := y];
    }
  }

  lemma {:induction false} OccursLast(regs: seq<nat>, x: nat)
    requires regs != []
    ensures var n := |regs| - 1; Occurs(regs[..n], x) + (if regs[n] == x then 1 else 0) == Occurs(regs, x)
  {
    var n := |regs| - 1;
    if n > 0 {
      OccursLast(regs[1..], x);
      assert regs[..n][1..] == regs[1..][..n - 1];
    }
  }

  lemma {:induction false} OccursIn(regs: seq<nat>, x: nat)
    ensures Occurs(regs, x) > 0 <==> x in regs
  {
    if regs != [] { OccursIn(regs[1..], x); assert regs == [regs[0]] + regs[1..]; }
  }

  // Deregistering a timer takes one registration away and removes it from the
  // saved timers of every waiting thread, leaving the other saved pairs and
  // their order alone; a timer registered once is then named nowhere.
  lemma DeregisterForgets(s: State, a: nat)
    requires Safe(s) && SavedOk(s) && a in s.registry
    ensures var s' := DoDeregister(s, a);
            && (forall x :: Occurs(s'.registry, x) == Occurs(s.registry, x) - (if x == a then 1 else 0))
            && s'.table == s.table
            && (forall i :: 0 <= i < |s.table| && !s.table[i].removed ==>
                  Prefix(s'.vecs[s.table[i].data]) == Without(Prefix(s.vecs[s.table[i].data]), a))
            && (forall v :: 0 <= v < MAX_THREADS && Held(s.table, v) == 0 ==> s'.vecs[v] == s.vecs[v])
  {
    var s' := DoDeregister(s, a);
    var i, n := IndexOf(s.registry, a), |s.registry| - 1;
    forall x ensures Occurs(s'.registry, x) == Occurs(s.registry, x) - (if x == a then 1 else 0) {
      OccursPut(s.registry, i, s.registry[n], x);
      OccursLast(s.registry[i := s.registry[n]], x);
    }
    forall i | 0 <= i < |s.table| && !s.table[i].removed
      ensures Prefix(s'.vecs[s.table[i].data]) == Without(Prefix(s.vecs[s.table[i].data]), a)
    {
      HeldByLive(s.table, i);
      ScrubPrefix(s.vecs, s.table, a, s.table[i].data);
    }
    forall v | 0 <= v < MAX_THREADS && Held(s.table, v) == 0 ensures s'.vecs[v] == s.vecs[v] {
      ScrubOthers(s.vecs, s.table, a, v);
    }
  }

  lemma SavedOkDeregister(s: State, a: nat)
    requires Safe(s) && SavedOk(s)
    ensures Safe(DoDeregister(s, a)) && SavedOk(DoDeregister(s, a))
  {
    SafeDeregister(s, a);
    if a in s.registry {
      DeregisterForgets(s, a);
      var s' := DoDeregister(s, a);
      OccursIn(s.registry, 0);
      OccursIn(s'.registry, 0);
      forall i | 0 <= i < |s.table| && !s.table[i].removed ensures VectorOk(s'.vecs[s.table[i].data], s'.registry) {
        var p := Prefix(s.vecs[s.table[i].data]);
        WithoutDistinct(p, a);
        var w := Without(p, a);
        forall j | 0 <= j < |w| ensures w[j].addr in s'.registry {
          WithoutHolds(p, a, w[j]);
          OccursIn(s.registry, w[j].addr);
          OccursIn(s'.registry, w[j].addr);
        }
      }
    }
  }

  lemma SavedOkSwitchOut(s: State, th: nat, cpu: nat, hw: Readings, load: nat)
    requires Safe(s) && SavedOk(s)
    ensures Safe(DoSwitchOut(s, th, cpu, hw, load)) && SavedOk(DoSwitchOut(s, th, cpu, hw, load))
  {
    SafeSwitchOut(s, th, cpu, hw, load);
    var r := StopAll(s.registry, s.mem, cpu, hw, load);
    if s.enabled && r.count > 0 && s.head != -1 {
      StopAllSaves(s.registry, s.mem, cpu, hw, load);
      StorePrefix(s.vecs[s.head], r.saved);
      var s' := DoSwitchOut(s, th, cpu, hw, load);
      forall i | 0 <= i < |s'.table| && !s'.table[i].removed
        ensures VectorOk(s'.vecs[s'.table[i].data], s'.registry)
      {
        AddHolds(s.table, th, s.head, i);
      }
    }
  }

  // In every run that registers no NULL timer, clean or not, no saved vector
  // names a timer twice or a timer that is not registered any more.
  lemma SavedOkNext(s: State, e: Event, load: nat)
    requires Safe(s) && SavedOk(s) && e != Register(0)
    ensures Safe(Next(s, e, load)) && SavedOk(Next(s, e, load))
  {
    SafeNext(s, e, load);
    match e
    case SwitchOut(th, cpu, hw) => SavedOkSwitchOut(s, th, cpu, hw, load);
    case SwitchIn(th, cpu, hw) =>
    case Register(a) =>
    case Deregister(a) => SavedOkDeregister(s, a);
    case Toggle =>
    case Clear =>
    case Instrument(m) =>
  }

  // ------------------------------------------------------------ virtualization

  // Thread th is saved, and its vector holds pair x.
  ghost predicate Keeps(s: State, th: nat, x: Saved)
    requires Safe(s)
  {
    Waiting(s, th) && x in Prefix(s.vecs[s.table[Find(s.table, th)].data])
  }

  lemma TableOther(es: seq<Entry>, op: Op, k: nat)
    requires |es| < MAX_ELEMS && op.key != k
    ensures Find(Step(es, op).0, k) == Find(es, k)
    ensures Find(es, k) >= 0 ==> Step(es, op).0[Find(es, k)] == es[Find(es, k)]
  {
    var es' := Step(es, op).0;
    if |es'| == |es| { FindSameKeys(es, es', k); }
    else { FindAppend(es, es'[|es|], k); }
  }

  // Events that may come between: any but the thread's own, deregistering the
  // timer, registering NULL, or clearing everything.
  ghost predicate Between(e: Event, th: nat, a: nat) {
    th !in ThreadsOf(e) && e != Deregister(a) && e != Register(0) && e != Clear
  }

  ghost predicate Good(s: State, all: set<nat>) {
    Safe(s) && SavedOk(s) && Conserved(s) && Roomy(s, all)
  }

  lemma GoodNext(s: State, e: Event, load: nat, all: set<nat>)
    requires Good(s, all) && Clean(s, e) && ThreadsOf(e) <= all && e != Register(0)
    ensures Good(Next(s, e, load), all)
  {
    RoomyFits(s, all);
    StepConservesIff(s, e, load);
    RoomyNext(s, e, load, all);
    SavedOkNext(s, e, load);
  }

  // A vector held by a waiting thread is not at the head of the free list.
  lemma HeldNotFree(s: State, i: nat)
    requires Safe(s) && Conserved(s) && i < |s.table| && !s.table[i].removed
    ensures s.head != s.table[i].data
  {
    var fl :| Accounts(s, fl);
    HeldByLive(s.table, i);
  }

  lemma KeepsNext(s: State, e: Event, load: nat, all: set<nat>, th: nat, x: Saved)
    requires Good(s, all) && Between(e, th, x.addr) && Keeps(s, th, x)
    ensures Safe(Next(s, e, load)) && Keeps(Next(s, e, load), th, x)
  {
    SafeNext(s, e, load);
    RoomyFits(s, all);
    var i := Find(s.table, th);
    match e
    case SwitchOut(u, cpu, hw) =>
      if s.head != -1 { TableOther(s.table, OpAdd(u, s.head), th); }
      HeldNotFree(s, i);
    case SwitchIn(u, cpu, hw) => TableOther(s.table, OpRemove(u), th);
    case Deregister(b) =>
      if b in s.registry {
        DeregisterForgets(s, b);
        WithoutHolds(Prefix(s.vecs[s.table[i].data]), b, x);
      }
    case Register(_) =>
    case Toggle =>
    case Instrument(_) =>
  }

  lemma {:induction false} KeepsRun(s: State, evs: seq<Event>, load: nat, all: set<nat>, th: nat, x: Saved)
    requires Good(s, all) && AlwaysClean(s, evs, load) && Within(evs, all) && Keeps(s, th, x)
    requires forall i :: 0 <= i < |evs| ==> Between(evs[i], th, x.addr)
    ensures Good(Run(s, evs, load), all) && Keeps(Run(s, evs, load), th, x)
    decreases |evs|
  {
    if evs != [] {
      KeepsNext(s, evs[0], load, all, th, x);
      GoodNext(s, evs[0], load, all);
      KeepsRun(Next(s, evs[0], load), evs[1..], load, all, th, x);
    }
  }

  // A clean saving switch-out keeps every registered running timer of a valid
  // kind for the thread.
  lemma SwitchOutKeeps(s: State, th: nat, cpu: nat, hw: Readings, load: nat, all: set<nat>, a: nat)
    returns (x: Saved, j: nat)
    requires Good(s, all) && s.enabled && s.head != -1 && !Waiting(s, th)
    requires a in s.registry && Running(s.mem, a, cpu) && T.ValidKind(At(s.mem, a).ctype)
    ensures SavedAs(x, s.mem, a, cpu, hw(j), load)
    ensures Safe(DoSwitchOut(s, th, cpu, hw, load)) && Keeps(DoSwitchOut(s, th, cpu, hw, load), th, x)
  {
    RoomyFits(s, all);
    SafeSwitchOut(s, th, cpu, hw, load);
    StopsIffRunning(s.registry, s.mem, cpu, hw, load);
    StopAllSaves(s.registry, s.mem, cpu, hw, load);
    var i;
    i, j := StopAllComplete(s.registry, s.mem, cpu, hw, load, a);
    var r := StopAll(s.registry, s.mem, cpu, hw, load);
    x := r.saved[i];
    StorePrefix(s.vecs[s.head], r.saved);
    AddStores(s.table, th, s.head);
  }

  // The switch-in of a thread restarts every timer kept for it.
  lemma SwitchInRestores(s: State, th: nat, x: Saved, cpu: nat, hw: Readings, load: nat) returns (k: nat)
    requires Safe(s) && SavedOk(s) && s.enabled && Keeps(s, th, x)
    ensures var slot := CpuTimer(x.addr, cpu);
            At(DoSwitchIn(s, th, cpu, hw, load).mem, slot) ==
            T.VRestart(At(s.mem, slot), x.aux, At(s.mem, x.addr).ctype, hw(k), load)
  {
    var p := Prefix(s.vecs[s.table[Find(s.table, th)].data]);
    k :| 0 <= k < |p| && p[k] == x;
    RestartAllRestores(p, s.mem, cpu, hw, load, k);
  }

  // Virtualization.  Thread th switches out of one CPU with a vector available
  // while registered timer a, of a valid kind, runs there; any clean run of
  // other threads, registrations, other deregistrations, toggles and
  // instrumentation follows, from s1 to s2; then th switches in on any CPU.
  // There the timer is restarted from exactly what was saved for it at the
  // switch-out, so it has the recursion count it had.
  lemma Virtualized(s: State, th: nat, cpu: nat, hw: Readings, s1: State, mid: seq<Event>, s2: State,
                    cpu': nat, hw': Readings, load: nat, all: set<nat>, a: nat) returns (x: Saved, j: nat, k: nat)
    requires Good(s, all) && s.enabled && s.head != -1 && !Waiting(s, th) && th in all
    requires a in s.registry && Running(s.mem, a, cpu) && T.ValidKind(At(s.mem, a).ctype)
    requires s1 == DoSwitchOut(s, th, cpu, hw, load)
    requires Safe(s1) && AlwaysClean(s1, mid, load) && Within(mid, all)
    requires forall i :: 0 <= i < |mid| ==> Between(mid[i], th, a)
    requires s2 == Run(s1, mid, load) && s2.enabled
    ensures SavedAs(x, s.mem, a, cpu, hw(j), load)
    ensures var m, slot := DoSwitchIn(s2, th, cpu', hw', load).mem, CpuTimer(a, cpu');
            && At(m, slot) == T.VRestart(At(s2.mem, slot), x.aux, At(s2.mem, a).ctype, hw'(k), load)
            && At(m, slot).st.rcount == At(s.mem, CpuTimer(a, cpu)).st.rcount
  {
    x, j := SwitchOutKeeps(s, th, cpu, hw, load, all, a);
    GoodNext(s, SwitchOut(th, cpu, hw), load, all);
    KeepsRun(s1, mid, load, all, th, x);
    k := SwitchInRestores(s2, th, x, cpu', hw', load);
  }
}
