/** The total of one registered timer over all CPUs, along runs of the whole
switch state in which any number of threads share it.

Every event happens at a count of the events the timer counts; its readings show
that count, cut to the width of the counter. */
module TimerTotals {
  import opened Arith
  import opened Wrappers
  import T = Timers
  import opened HashTableSpec
  import opened SwitchSpec
  import opened Conservation
  import opened Virtualization
  import Alternation

  // The timer's copies on the first n CPUs.
  ghost function Copies(m: Memory, a: nat, n: nat): seq<T.Timer> {
    seq(n, c requires 0 <= c => At(m, CpuTimer(a, c)))
  }

  ghost function Total(m: Memory, a: nat, ncpus: nat): nat {
    T.Total(Copies(m, a, ncpus))
  }

  // Two timers whose per-CPU copies never coincide.
  ghost predicate Apart(a: nat, b: nat) {
    a == b || (a - b) % STRIDE != 0
  }

  lemma SlotsApart(a: nat, c: nat, b: nat, d: nat)
    requires Apart(a, b) && CpuTimer(a, c) == CpuTimer(b, d)
    ensures a == b && c == d
  {
    assert a - b == (d - c) * STRIDE;
    if a != b { DivModUnique(a - b, d - c, 0, STRIDE); }
  }

  lemma TotalFrame(m: Memory, m': Memory, a: nat, n: nat)
    requires forall c :: 0 <= c < n ==> At(m', CpuTimer(a, c)) == At(m, CpuTimer(a, c))
    ensures Total(m', a, n) == Total(m, a, n)
  {
    assert Copies(m', a, n) == Copies(m, a, n);
  }

  lemma TotalPut(m: Memory, m': Memory, a: nat, n: nat, cpu: nat)
    requires cpu < n && forall c :: 0 <= c < n && c != cpu ==> At(m', CpuTimer(a, c)) == At(m, CpuTimer(a, c))
    ensures Total(m', a, n) + At(m, CpuTimer(a, cpu)).total == Total(m, a, n) + At(m', CpuTimer(a, cpu)).total
    ensures At(m, CpuTimer(a, cpu)).total <= Total(m, a, n)
  {
    assert Copies(m', a, n) == Copies(m, a, n)[cpu := At(m', CpuTimer(a, cpu))];
    T.TotalPut(Copies(m, a, n), cpu, At(m', CpuTimer(a, cpu)));
    T.TotalBounds(Copies(m, a, n), cpu);
  }

  // ------------------------------------------------------------ what the routines do to the timer

  lemma {:induction false} StopElsewhere(regs: seq<nat>, m: Memory, cpu: nat, hw: Readings, load: nat, slot: nat)
    requires forall i :: 0 <= i < |regs| ==> CpuTimer(regs[i], cpu) != slot
    ensures At(StopAll(regs, m, cpu, hw, load).mem, slot) == At(m, slot)
  {
    if regs != [] { StopElsewhere(regs[..|regs| - 1], m, cpu, hw, load, slot); }
  }

  // A registered running timer is stopped once, at some reading.
  lemma {:induction false} StopOwn(regs: seq<nat>, m: Memory, cpu: nat, hw: Readings, load: nat, a: nat) returns (j: nat)
    requires a in regs && Running(m, a, cpu)
    ensures At(StopAll(regs, m, cpu, hw, load).mem, CpuTimer(a, cpu)) ==
            T.VStop(At(m, CpuTimer(a, cpu)), At(m, a).ctype, hw(j), load).0
  {
    var n := |regs| - 1;
    if a in regs[..n] {
      j := StopOwn(regs[..n], m, cpu, hw, load, a);
      StopAllStops(regs[..n], m, cpu, hw, load, a);
      SlotsDiffer(a, regs[n], cpu);
    } else {
      assert a == regs[n] by { assert regs == regs[..n] + [regs[n]]; }
      StopAllFrame(regs[..n], m, cpu, hw, load, a);
      j := n;
    }
  }

  lemma {:induction false} RestartElsewhere(saved: seq<Saved>, m: Memory, cpu: nat, hw: Readings, load: nat, slot: nat)
    requires forall i :: 0 <= i < |saved| ==> CpuTimer(saved[i].addr, cpu) != slot
    ensures At(RestartAll(saved, m, cpu, hw, load), slot) == At(m, slot)
  {
    if saved != [] { RestartElsewhere(saved[..|saved| - 1], m, cpu, hw, load, slot); }
  }

  // Every registered timer keeps clear of a.
  ghost predicate AllApart(regs: seq<nat>, a: nat) {
    forall i :: 0 <= i < |regs| ==> Apart(a, regs[i])
  }

  // A switch-out changes the timer on its own CPU only, and there stops it if it
  // runs.
  lemma SlotsAfterOut(s: State, th: nat, cpu: nat, hw: Readings, load: nat, a: nat, n: nat) returns (j: nat)
    requires Safe(s) && s.enabled && a in s.registry && AllApart(s.registry, a) && cpu < n
    ensures var m, m' := s.mem, DoSwitchOut(s, th, cpu, hw, load).mem;
            && (forall c :: 0 <= c < n && c != cpu ==> At(m', CpuTimer(a, c)) == At(m, CpuTimer(a, c)))
            && At(m', a).ctype == At(m, a).ctype
            && At(m', CpuTimer(a, cpu)) ==
               if Running(m, a, cpu) then T.VStop(At(m, CpuTimer(a, cpu)), At(m, a).ctype, hw(j), load).0
               else At(m, CpuTimer(a, cpu))
  {
    var r := StopAll(s.registry, s.mem, cpu, hw, load);
    assert DoSwitchOut(s, th, cpu, hw, load).mem == r.mem;
    forall c | 0 <= c < n && c != cpu ensures At(r.mem, CpuTimer(a, c)) == At(s.mem, CpuTimer(a, c)) {
      forall i | 0 <= i < |s.registry| ensures CpuTimer(s.registry[i], cpu) != CpuTimer(a, c) {
        if CpuTimer(s.registry[i], cpu) == CpuTimer(a, c) { SlotsApart(a, c, s.registry[i], cpu); }
      }
      StopElsewhere(s.registry, s.mem, cpu, hw, load, CpuTimer(a, c));
    }
    StopAllFrame(s.registry, s.mem, cpu, hw, load, a);
    j := 0;
    if Running(s.mem, a, cpu) { j := StopOwn(s.registry, s.mem, cpu, hw, load, a); }
  }

  // The pair saved for timer a in the thread's vector, if there is one.
  ghost predicate Holds(s: State, th: nat, a: nat)
    requires Safe(s)
  {
    exists x :: Keeps(s, th, x) && x.addr == a
  }

  // A switch-in changes the timer on its own CPU only, and there restarts it if
  // the thread's vector holds it.
  lemma SlotsAfterIn(s: State, th: nat, cpu: nat, hw: Readings, load: nat, a: nat, n: nat) returns (x: Saved, k: nat)
    requires Safe(s) && SavedOk(s) && s.enabled && a in s.registry && AllApart(s.registry, a) && cpu < n
    requires !Tombstoned(s, th)
    ensures Holds(s, th, a) ==> Keeps(s, th, x) && x.addr == a
    ensures var m, m' := s.mem, DoSwitchIn(s, th, cpu, hw, load).mem;
            && (forall c :: 0 <= c < n && c != cpu ==> At(m', CpuTimer(a, c)) == At(m, CpuTimer(a, c)))
            && At(m', a).ctype == At(m, a).ctype
            && At(m', CpuTimer(a, cpu)) ==
               if Holds(s, th, a) then T.VRestart(At(m, CpuTimer(a, cpu)), x.aux, At(m, a).ctype, hw(k), load)
               else At(m, CpuTimer(a, cpu))
  {
    x, k := NIL, 0;
    if Waiting(s, th) {
      var i := Find(s.table, th);
      var p := Prefix(s.vecs[s.table[i].data]);
      assert VectorOk(s.vecs[s.table[i].data], s.registry);
      var m' := RestartAll(p, s.mem, cpu, hw, load);
      assert DoSwitchIn(s, th, cpu, hw, load).mem == m';
      forall c | 0 <= c < n && c != cpu ensures At(m', CpuTimer(a, c)) == At(s.mem, CpuTimer(a, c)) {
        forall j | 0 <= j < |p| ensures CpuTimer(p[j].addr, cpu) != CpuTimer(a, c) {
          if CpuTimer(p[j].addr, cpu) == CpuTimer(a, c) { SlotsApart(a, c, p[j].addr, cpu); }
        }
        RestartElsewhere(p, s.mem, cpu, hw, load, CpuTimer(a, c));
      }
      RestartAllFrame(p, s.mem, cpu, hw, load, a);
      if Holds(s, th, a) {
        x :| Keeps(s, th, x) && x.addr == a;
        k := SwitchInRestores(s, th, x, cpu, hw, load);
      } else {
        forall j | 0 <= j < |p| ensures p[j].addr != a { assert Keeps(s, th, p[j]); }
      }
    }
  }

  // ------------------------------------------------------------ the ledger

  // At which count the timer was last started on each CPU, and last saved for
  // each thread.
  datatype Stamps = Stamps(on: seq<nat>, off: map<nat, nat>)

  datatype Timed = Timed(e: Event, now: nat)

  // The ledger agrees with the cut readings in memory and in the saved vectors.
  ghost predicate Agrees(s: State, a: nat, st: Stamps, now: nat)
    requires Safe(s)
  {
    var w := T.Width(At(s.mem, a).ctype);
    && (forall c :: 0 <= c < |st.on| && Running(s.mem, a, c) ==>
          st.on[c] <= now && At(s.mem, CpuTimer(a, c)).st.start == st.on[c] % w)
    && (forall th, x :: Keeps(s, th, x) && x.addr == a ==>
          th in st.off && st.off[th] <= now && x.aux.start == st.off[th] % w)
  }

  // An event that leaves the timer's registration and, if it is instrumentation,
  // the timer alone; its readings show the count.
  ghost predicate Regular(s: State, a: nat, x: Timed, ncpus: nat) {
    match x.e
    case SwitchOut(_, cpu, hw) => cpu < ncpus && forall j :: T.Shows(At(s.mem, a).ctype, hw(j), x.now)
    case SwitchIn(_, cpu, hw) => cpu < ncpus && forall j :: T.Shows(At(s.mem, a).ctype, hw(j), x.now)
    case Register(b) => b != 0 && Apart(a, b)
    case Deregister(b) => b != a
    case Toggle => true
    case Clear => false
    case Instrument(m) => At(m, a) == At(s.mem, a) && forall c :: 0 <= c < ncpus ==> At(m, CpuTimer(a, c)) == At(s.mem, CpuTimer(a, c))
  }

  // From which count the event closes an interval of the timer: since it was
  // started on the CPU the thread leaves, or, for a wall timer, since it was
  // saved for the thread that comes back.
  ghost function Since(s: State, a: nat, st: Stamps, e: Event): Option<nat>
    requires Safe(s)
  {
    match e
    case SwitchOut(_, cpu, _) =>
      if s.enabled && cpu < |st.on| && Running(s.mem, a, cpu) then Some(st.on[cpu]) else None
    case SwitchIn(th, _, _) =>
      if s.enabled && th in st.off && Holds(s, th, a) && T.Wall(At(s.mem, a).ctype) then Some(st.off[th]) else None
    case _ => None
  }

  ghost function Stamped(s: State, a: nat, st: Stamps, x: Timed): Stamps
    requires Safe(s)
  {
    match x.e
    case SwitchOut(th, cpu, _) =>
      if Grabs(s, cpu) && Running(s.mem, a, cpu) then st.(off := st.off[th := x.now]) else st
    case SwitchIn(th, cpu, _) =>
      if s.enabled && cpu < |st.on| && Holds(s, th, a) then st.(on := st.on[cpu := x.now]) else st
    case _ => st
  }

  ghost function Due(s: State, a: nat, st: Stamps, x: Timed): int
    requires Safe(s)
  {
    match Since(s, a, st, x.e) case None => 0 case Some(from) => x.now - from
  }

  ghost predicate Right(s: State, a: nat, st: Stamps, x: Timed, load: nat)
    requires Safe(s)
  {
    match Since(s, a, st, x.e)
    case None => true
    case Some(from) => from <= x.now && T.Measurable(At(s.mem, a).ctype, load, from, x.now)
  }

  // What holds before every event of the runs considered.
  ghost predicate Ready(s: State, a: nat, st: Stamps, now: nat, all: set<nat>) {
    Good(s, all) && a in s.registry && AllApart(s.registry, a) && Agrees(s, a, st, now)
  }

  ghost predicate Fits(s: State, a: nat, st: Stamps, x: Timed)
    requires Safe(s)
  {
    Total(s.mem, a, |st.on|) + Due(s, a, st, x) < P64
  }

  // A switch-out adds what is due, or less, and exactly it if and only if the
  // interval is measurable.
  lemma OutCounts(s: State, a: nat, st: Stamps, th: nat, cpu: nat, hw: Readings, now: nat, load: nat, all: set<nat>)
    requires Ready(s, a, st, now, all) && Regular(s, a, Timed(SwitchOut(th, cpu, hw), now), |st.on|)
    requires Fits(s, a, st, Timed(SwitchOut(th, cpu, hw), now))
    ensures var x, n := Timed(SwitchOut(th, cpu, hw), now), |st.on|;
            var m' := DoSwitchOut(s, th, cpu, hw, load).mem;
            && Total(m', a, n) <= Total(s.mem, a, n) + Due(s, a, st, x)
            && (Total(m', a, n) == Total(s.mem, a, n) + Due(s, a, st, x) <==> Right(s, a, st, x, load))
  {
    if s.enabled {
      var n, m' := |st.on|, DoSwitchOut(s, th, cpu, hw, load).mem;
      var j := SlotsAfterOut(s, th, cpu, hw, load, a, n);
      TotalPut(s.mem, m', a, n, cpu);
      if Running(s.mem, a, cpu) {
        T.StopCountsIff(At(s.mem, CpuTimer(a, cpu)), At(s.mem, a).ctype, hw(j), load, st.on[cpu], now);
      }
    }
  }

  // A switch-in likewise.
  lemma InCounts(s: State, a: nat, st: Stamps, th: nat, cpu: nat, hw: Readings, now: nat, load: nat, all: set<nat>)
    requires Ready(s, a, st, now, all) && Regular(s, a, Timed(SwitchIn(th, cpu, hw), now), |st.on|)
    requires Clean(s, SwitchIn(th, cpu, hw)) && Fits(s, a, st, Timed(SwitchIn(th, cpu, hw), now))
    ensures var x, n := Timed(SwitchIn(th, cpu, hw), now), |st.on|;
            var m' := DoSwitchIn(s, th, cpu, hw, load).mem;
            && Total(m', a, n) <= Total(s.mem, a, n) + Due(s, a, st, x)
            && (Total(m', a, n) == Total(s.mem, a, n) + Due(s, a, st, x) <==> Right(s, a, st, x, load))
  {
    if s.enabled {
      var n, m' := |st.on|, DoSwitchIn(s, th, cpu, hw, load).mem;
      var x, k := SlotsAfterIn(s, th, cpu, hw, load, a, n);
      TotalPut(s.mem, m', a, n, cpu);
      if Holds(s, th, a) {
        var slot := At(s.mem, CpuTimer(a, cpu));
        if T.Wall(At(s.mem, a).ctype) {
          T.RestartCountsIff(slot, x.aux.rcount, At(s.mem, a).ctype, hw(k), load, st.off[th], now);
        }
      }
    }
  }

  // ------------------------------------------------------------ keeping the ledger

  // Other threads' events add nothing to a thread's vector.
  lemma KeepsBack(s: State, e: Event, load: nat, all: set<nat>, th: nat, x: Saved)
    requires Good(s, all) && th !in ThreadsOf(e) && e != Clear && e != Register(0)
    requires Safe(Next(s, e, load)) && Keeps(Next(s, e, load), th, x)
    ensures Keeps(s, th, x)
  {
    RoomyFits(s, all);
    match e
    case SwitchOut(u, cpu, hw) =>
      if s.head != -1 { TableOther(s.table, OpAdd(u, s.head), th); }
      HeldNotFree(s, Find(s.table, th));
    case SwitchIn(u, cpu, hw) => TableOther(s.table, OpRemove(u), th);
    case Deregister(b) =>
      if b in s.registry {
        DeregisterForgets(s, b);
        WithoutHolds(Prefix(s.vecs[s.table[Find(s.table, th)].data]), b, x);
      }
    case Register(_) =>
    case Toggle =>
    case Instrument(_) =>
  }

  // What a saving switch-out keeps of the timer shows the count it happened at.
  lemma SavedShows(s: State, a: nat, th: nat, cpu: nat, hw: Readings, now: nat, load: nat, all: set<nat>, y: Saved)
    requires Good(s, all) && Grabs(s, cpu) && !Waiting(s, th)
    requires forall j :: T.Shows(At(s.mem, a).ctype, hw(j), now)
    requires Safe(DoSwitchOut(s, th, cpu, hw, load)) && Keeps(DoSwitchOut(s, th, cpu, hw, load), th, y) && y.addr == a
    ensures Running(s.mem, a, cpu) && y.aux.start == now % T.Width(At(s.mem, a).ctype)
  {
    RoomyFits(s, all);
    StopsIffRunning(s.registry, s.mem, cpu, hw, load);
    StopAllSaves(s.registry, s.mem, cpu, hw, load);
    var r := StopAll(s.registry, s.mem, cpu, hw, load);
    StorePrefix(s.vecs[s.head], r.saved);
    AddStores(s.table, th, s.head);
    assert y in r.saved;
    assert T.Shows(At(s.mem, a).ctype, hw(0), now);
    var i, j := StopAllComplete(s.registry, s.mem, cpu, hw, load, a);
    T.ShowsReads(At(s.mem, a).ctype, hw(j), now);
  }

  lemma OutAgrees(s: State, a: nat, st: Stamps, th: nat, cpu: nat, hw: Readings, now: nat, load: nat, all: set<nat>)
    requires Ready(s, a, st, now, all) && Regular(s, a, Timed(SwitchOut(th, cpu, hw), now), |st.on|)
    requires Clean(s, SwitchOut(th, cpu, hw))
    ensures Safe(DoSwitchOut(s, th, cpu, hw, load))
    ensures Agrees(DoSwitchOut(s, th, cpu, hw, load), a, Stamped(s, a, st, Timed(SwitchOut(th, cpu, hw), now)), now)
  {
    SafeSwitchOut(s, th, cpu, hw, load);
    if s.enabled {
      var s', st' := DoSwitchOut(s, th, cpu, hw, load), Stamped(s, a, st, Timed(SwitchOut(th, cpu, hw), now));
      var _ := SlotsAfterOut(s, th, cpu, hw, load, a, |st.on|);
      SwitchOutStopsAll(s, th, cpu, hw, load, a);
      StopsIffRunning(s.registry, s.mem, cpu, hw, load);
      forall u, y | Keeps(s', u, y) && y.addr == a
        ensures u in st'.off && st'.off[u] <= now && y.aux.start == st'.off[u] % T.Width(At(s.mem, a).ctype)
      {
        if u == th && Grabs(s, cpu) {
          SavedShows(s, a, th, cpu, hw, now, load, all, y);
        } else if u != th {
          KeepsBack(s, SwitchOut(th, cpu, hw), load, all, u, y);
        } else {
          assert Keeps(s, u, y);
        }
      }
    }
  }

  lemma InAgrees(s: State, a: nat, st: Stamps, th: nat, cpu: nat, hw: Readings, now: nat, load: nat, all: set<nat>)
    requires Ready(s, a, st, now, all) && Regular(s, a, Timed(SwitchIn(th, cpu, hw), now), |st.on|)
    requires Clean(s, SwitchIn(th, cpu, hw))
    ensures Safe(DoSwitchIn(s, th, cpu, hw, load))
    ensures Agrees(DoSwitchIn(s, th, cpu, hw, load), a, Stamped(s, a, st, Timed(SwitchIn(th, cpu, hw), now)), now)
  {
    SafeSwitchIn(s, th, cpu, hw, load);
    if s.enabled {
      var s', st' := DoSwitchIn(s, th, cpu, hw, load), Stamped(s, a, st, Timed(SwitchIn(th, cpu, hw), now));
      var _, k := SlotsAfterIn(s, th, cpu, hw, load, a, |st.on|);
      T.ShowsReads(At(s.mem, a).ctype, hw(k), now);
      forall u, y | Keeps(s', u, y) && y.addr == a
        ensures u in st'.off && st'.off[u] <= now && y.aux.start == st'.off[u] % T.Width(At(s.mem, a).ctype)
      {
        Alternation.AfterIn(s, th, cpu, hw, load, u);
        KeepsBack(s, SwitchIn(th, cpu, hw), load, all, u, y);
      }
    }
  }

  lemma OtherAgrees(s: State, a: nat, st: Stamps, x: Timed, load: nat, all: set<nat>)
    requires Ready(s, a, st, x.now, all) && Regular(s, a, x, |st.on|) && ThreadsOf(x.e) == {}
    ensures Safe(Next(s, x.e, load)) && Agrees(Next(s, x.e, load), a, st, x.now)
    ensures Total(Next(s, x.e, load).mem, a, |st.on|) == Total(s.mem, a, |st.on|)
  {
    SafeNext(s, x.e, load);
    var s' := Next(s, x.e, load);
    TotalFrame(s.mem, s'.mem, a, |st.on|);
    forall u, y | Keeps(s', u, y) && y.addr == a
      ensures u in st.off && st.off[u] <= x.now && y.aux.start == st.off[u] % T.Width(At(s.mem, a).ctype)
    {
      KeepsBack(s, x.e, load, all, u, y);
    }
  }

  lemma StillRegistered(s: State, a: nat, x: Timed, load: nat, n: nat)
    requires Safe(s) && SavedOk(s) && a in s.registry && AllApart(s.registry, a) && Regular(s, a, x, n)
    ensures a in Next(s, x.e, load).registry && AllApart(Next(s, x.e, load).registry, a)
  {
    match x.e
    case Deregister(b) =>
      if b in s.registry {
        DeregisterForgets(s, b);
        var regs' := DoDeregister(s, b).registry;
        OccursIn(s.registry, a);
        OccursIn(regs', a);
        forall i | 0 <= i < |regs'| ensures Apart(a, regs'[i]) {
          OccursIn(regs', regs'[i]);
          OccursIn(s.registry, regs'[i]);
        }
      }
    case _ =>
  }

  // ------------------------------------------------------------ one event

  // The ledger is kept by every clean event.
  lemma StepReady(s: State, a: nat, st: Stamps, x: Timed, load: nat, all: set<nat>)
    requires Ready(s, a, st, x.now, all) && Regular(s, a, x, |st.on|) && Clean(s, x.e) && ThreadsOf(x.e) <= all
    ensures Ready(Next(s, x.e, load), a, Stamped(s, a, st, x), x.now, all)
  {
    GoodNext(s, x.e, load, all);
    StillRegistered(s, a, x, load, |st.on|);
    match x.e
    case SwitchOut(th, cpu, hw) => OutAgrees(s, a, st, th, cpu, hw, x.now, load, all);
    case SwitchIn(th, cpu, hw) => InAgrees(s, a, st, th, cpu, hw, x.now, load, all);
    case _ => OtherAgrees(s, a, st, x, load, all);
  }

  // One event: the total grows by what is due, or less, and by exactly that if
  // and only if the interval it closes is measurable.
  lemma StepCountsIff(s: State, a: nat, st: Stamps, x: Timed, load: nat, all: set<nat>)
    requires Ready(s, a, st, x.now, all) && Regular(s, a, x, |st.on|) && Clean(s, x.e) && Fits(s, a, st, x)
    ensures var n, s' := |st.on|, Next(s, x.e, load);
            && Total(s'.mem, a, n) <= Total(s.mem, a, n) + Due(s, a, st, x)
            && (Total(s'.mem, a, n) == Total(s.mem, a, n) + Due(s, a, st, x) <==> Right(s, a, st, x, load))
  {
    match x.e
    case SwitchOut(th, cpu, hw) => OutCounts(s, a, st, th, cpu, hw, x.now, load, all);
    case SwitchIn(th, cpu, hw) => InCounts(s, a, st, th, cpu, hw, x.now, load, all);
    case _ => OtherAgrees(s, a, st, x, load, all);
  }
}
