/** What the total of a registered timer should be over a run, and when it is.

Between two events the timer accrues the counts that pass, once for every CPU it
runs on and, if it is a wall timer, once for every thread it is saved for.  An
interval under way at either end of the run is not in the total yet. */
module TimerAccounts {
  import opened Arith
  import opened Wrappers
  import T = Timers
  import opened SwitchSpec
  import opened Conservation
  import opened Virtualization
  import opened TimerTotals
  import Alternation

  // ------------------------------------------------------------ what accrues

  // The CPUs, of the first n, on which the timer runs.
  ghost function CountOn(m: Memory, a: nat, n: nat): nat {
    if n == 0 then 0 else CountOn(m, a, n - 1) + if Running(m, a, n - 1) then 1 else 0
  }

  // The threads, of these, for which it is saved.
  ghost function CountOff(s: State, a: nat, ths: seq<nat>): nat
    requires Safe(s)
  {
    if ths == [] then 0
    else var k := |ths| - 1; CountOff(s, a, ths[..k]) + if Holds(s, ths[k], a) then 1 else 0
  }

  ghost function Accruing(s: State, a: nat, n: nat, ths: seq<nat>): nat
    requires Safe(s)
  {
    CountOn(s.mem, a, n) + if T.Wall(At(s.mem, a).ctype) then CountOff(s, a, ths) else 0
  }

  ghost function Gain(s: State, a: nat, n: nat, ths: seq<nat>, now: nat, later: nat): int
    requires Safe(s)
  {
    (later - now) * Accruing(s, a, n, ths)
  }

  // All that accrues over a run from count `now`.
  ghost function Accrued(s: State, a: nat, n: nat, ths: seq<nat>, now: nat, xs: seq<Timed>, load: nat): int
    requires Safe(s)
    decreases |xs|
  {
    if xs == [] then 0
    else
      SafeNext(s, xs[0].e, load);
      Gain(s, a, n, ths, now, xs[0].now)
      + Accrued(Next(s, xs[0].e, load), a, n, ths, xs[0].now, xs[1..], load)
  }

  // ------------------------------------------------------------ what is under way

  // The intervals under way at count `now`: since the last start on each CPU,
  ghost function OpenOn(m: Memory, a: nat, on: seq<nat>, now: nat): int {
    if on == [] then 0
    else var k := |on| - 1; OpenOn(m, a, on[..k], now) + if Running(m, a, k) then now - on[k] else 0
  }

  // and since the timer was saved for each thread.
  ghost function OpenOff(s: State, a: nat, off: map<nat, nat>, ths: seq<nat>, now: nat): int
    requires Safe(s)
  {
    if ths == [] then 0
    else var k := |ths| - 1; OpenOff(s, a, off, ths[..k], now) + Away(s, a, off, ths[k], now)
  }

  ghost function Away(s: State, a: nat, off: map<nat, nat>, th: nat, now: nat): int
    requires Safe(s)
  {
    if Holds(s, th, a) && th in off then now - off[th] else 0
  }

  ghost function Open(s: State, a: nat, st: Stamps, ths: seq<nat>, now: nat): int
    requires Safe(s)
  {
    OpenOn(s.mem, a, st.on, now) + if T.Wall(At(s.mem, a).ctype) then OpenOff(s, a, st.off, ths, now) else 0
  }

  lemma Distributes(d: int, p: int, q: int)
    ensures d * (p + q) == d * p + d * q
  {
  }

  lemma {:induction false} OnLater(m: Memory, a: nat, on: seq<nat>, now: nat, later: nat)
    ensures OpenOn(m, a, on, later) == OpenOn(m, a, on, now) + (later - now) * CountOn(m, a, |on|)
  {
    if on != [] {
      var k := |on| - 1;
      OnLater(m, a, on[..k], now, later);
      Distributes(later - now, CountOn(m, a, k), 1);
    }
  }

  lemma {:induction false} OffLater(s: State, a: nat, off: map<nat, nat>, ths: seq<nat>, now: nat, later: nat)
    requires Safe(s) && forall th :: Holds(s, th, a) ==> th in off
    ensures OpenOff(s, a, off, ths, later) == OpenOff(s, a, off, ths, now) + (later - now) * CountOff(s, a, ths)
  {
    if ths != [] {
      var k := |ths| - 1;
      OffLater(s, a, off, ths[..k], now, later);
      Distributes(later - now, CountOff(s, a, ths[..k]), 1);
    }
  }

  lemma HeldStamped(s: State, a: nat, st: Stamps, now: nat, th: nat)
    requires Safe(s) && Agrees(s, a, st, now) && Holds(s, th, a)
    ensures th in st.off && st.off[th] <= now
  {
    var x :| Keeps(s, th, x) && x.addr == a;
  }

  // As counts pass, what is under way grows by what accrues.
  lemma OpenLater(s: State, a: nat, st: Stamps, ths: seq<nat>, now: nat, later: nat)
    requires Safe(s) && Agrees(s, a, st, now)
    ensures Open(s, a, st, ths, later) == Open(s, a, st, ths, now) + Gain(s, a, |st.on|, ths, now, later)
  {
    var p, q := CountOn(s.mem, a, |st.on|), CountOff(s, a, ths);
    OnLater(s.mem, a, st.on, now, later);
    if T.Wall(At(s.mem, a).ctype) {
      forall th | Holds(s, th, a) ensures th in st.off { HeldStamped(s, a, st, now, th); }
      OffLater(s, a, st.off, ths, now, later);
      Distributes(later - now, p, q);
    }
  }

  lemma {:induction false} OnBounds(m: Memory, a: nat, on: seq<nat>, now: nat)
    requires forall c :: 0 <= c < |on| && Running(m, a, c) ==> on[c] <= now
    ensures OpenOn(m, a, on, now) >= 0
    ensures forall c :: 0 <= c < |on| && Running(m, a, c) ==> OpenOn(m, a, on, now) >= now - on[c]
  {
    if on != [] { OnBounds(m, a, on[..|on| - 1], now); }
  }

  lemma {:induction false} OffBounds(s: State, a: nat, off: map<nat, nat>, ths: seq<nat>, now: nat)
    requires Safe(s) && forall th :: Holds(s, th, a) && th in off ==> off[th] <= now
    ensures OpenOff(s, a, off, ths, now) >= 0
    ensures forall i :: 0 <= i < |ths| ==> OpenOff(s, a, off, ths, now) >= Away(s, a, off, ths[i], now)
  {
    if ths != [] { OffBounds(s, a, off, ths[..|ths| - 1], now); }
  }

  // ------------------------------------------------------------ what an event does to it

  lemma {:induction false} OnFrame(m: Memory, m': Memory, a: nat, on: seq<nat>, now: nat)
    requires forall c :: 0 <= c < |on| ==> (Running(m', a, c) <==> Running(m, a, c))
    ensures OpenOn(m', a, on, now) == OpenOn(m, a, on, now)
  {
    if on != [] { OnFrame(m, m', a, on[..|on| - 1], now); }
  }

  ghost function OnTerm(m: Memory, a: nat, on: seq<nat>, cpu: nat, now: nat): int
    requires cpu < |on|
  {
    if Running(m, a, cpu) then now - on[cpu] else 0
  }

  lemma {:induction false} OnPut(m: Memory, m': Memory, a: nat, on: seq<nat>, on': seq<nat>, cpu: nat, now: nat)
    requires cpu < |on| == |on'|
    requires forall c :: 0 <= c < |on| && c != cpu ==> (Running(m', a, c) <==> Running(m, a, c)) && on'[c] == on[c]
    ensures OpenOn(m', a, on', now) - OnTerm(m', a, on', cpu, now) == OpenOn(m, a, on, now) - OnTerm(m, a, on, cpu, now)
  {
    var k := |on| - 1;
    if cpu == k {
      assert on'[..k] == on[..k];
      OnFrame(m, m', a, on[..k], now);
    } else {
      OnPut(m, m', a, on[..k], on'[..k], cpu, now);
    }
  }

  lemma {:induction false} OffFrame(s: State, s': State, a: nat, off: map<nat, nat>, off': map<nat, nat>,
                                    ths: seq<nat>, now: nat)
    requires Safe(s) && Safe(s')
    requires forall i :: 0 <= i < |ths| ==> Away(s', a, off', ths[i], now) == Away(s, a, off, ths[i], now)
    ensures OpenOff(s', a, off', ths, now) == OpenOff(s, a, off, ths, now)
  {
    if ths != [] { OffFrame(s, s', a, off, off', ths[..|ths| - 1], now); }
  }

  lemma {:induction false} OffPut(s: State, s': State, a: nat, off: map<nat, nat>, off': map<nat, nat>,
                                  ths: seq<nat>, i: nat, now: nat)
    requires Safe(s) && Safe(s') && i < |ths|
    requires forall j :: 0 <= j < |ths| && j != i ==> Away(s', a, off', ths[j], now) == Away(s, a, off, ths[j], now)
    ensures OpenOff(s', a, off', ths, now) - Away(s', a, off', ths[i], now)
         == OpenOff(s, a, off, ths, now) - Away(s, a, off, ths[i], now)
  {
    var k := |ths| - 1;
    if i == k { OffFrame(s, s', a, off, off', ths[..k], now); } else { OffPut(s, s', a, off, off', ths[..k], i, now); }
  }

  // Other events take the timer from no thread and save it for none.
  lemma HoldsSame(s: State, a: nat, x: Timed, n: nat, load: nat, all: set<nat>, u: nat)
    requires Good(s, all) && Regular(s, a, x, n) && u !in ThreadsOf(x.e)
    ensures Safe(Next(s, x.e, load)) && (Holds(Next(s, x.e, load), u, a) <==> Holds(s, u, a))
  {
    SafeNext(s, x.e, load);
    var s' := Next(s, x.e, load);
    if Holds(s, u, a) {
      var y :| Keeps(s, u, y) && y.addr == a;
      KeepsNext(s, x.e, load, all, u, y);
    }
    if Holds(s', u, a) {
      var y :| Keeps(s', u, y) && y.addr == a;
      KeepsBack(s, x.e, load, all, u, y);
    }
  }

  // What a restart throws away: the interval under way on that CPU.
  ghost function Lost(s: State, a: nat, st: Stamps, x: Timed): int
    requires Safe(s)
  {
    match x.e
    case SwitchIn(th, cpu, _) =>
      if s.enabled && cpu < |st.on| && Holds(s, th, a) then OnTerm(s.mem, a, st.on, cpu, x.now) else 0
    case _ => 0
  }

  lemma OnAfterOut(s: State, a: nat, st: Stamps, th: nat, cpu: nat, hw: Readings, now: nat, load: nat)
    requires Safe(s) && s.enabled && a in s.registry && AllApart(s.registry, a) && cpu < |st.on|
    ensures var s', x := DoSwitchOut(s, th, cpu, hw, load), Timed(SwitchOut(th, cpu, hw), now);
            && At(s'.mem, a).ctype == At(s.mem, a).ctype
            && OpenOn(s'.mem, a, st.on, now) == OpenOn(s.mem, a, st.on, now) - Due(s, a, st, x)
  {
    var s' := DoSwitchOut(s, th, cpu, hw, load);
    var _ := SlotsAfterOut(s, th, cpu, hw, load, a, |st.on|);
    SwitchOutStopsAll(s, th, cpu, hw, load, a);
    OnPut(s.mem, s'.mem, a, st.on, st.on, cpu, now);
  }

  // A switch-out that saves nothing leaves every vector as it was.
  lemma QuietKeeps(s: State, th: nat, cpu: nat, hw: Readings, load: nat, u: nat, a: nat)
    requires Safe(s) && !Grabs(s, cpu) && Safe(DoSwitchOut(s, th, cpu, hw, load))
    ensures Holds(DoSwitchOut(s, th, cpu, hw, load), u, a) <==> Holds(s, u, a)
  {
    StopsIffRunning(s.registry, s.mem, cpu, hw, load);
    var s' := DoSwitchOut(s, th, cpu, hw, load);
    assert s'.table == s.table && s'.vecs == s.vecs;
    forall y ensures Keeps(s', u, y) <==> Keeps(s, u, y) {}
  }

  // The saving thread's own interval begins here.
  lemma AwayFromOut(s: State, a: nat, st: Stamps, th: nat, cpu: nat, hw: Readings, now: nat, load: nat, all: set<nat>)
    requires Good(s, all) && Regular(s, a, Timed(SwitchOut(th, cpu, hw), now), |st.on|)
    requires Clean(s, SwitchOut(th, cpu, hw))
    ensures var s', st' := DoSwitchOut(s, th, cpu, hw, load), Stamped(s, a, st, Timed(SwitchOut(th, cpu, hw), now));
            Safe(s') && Away(s', a, st'.off, th, now) == Away(s, a, st.off, th, now)
  {
    SafeSwitchOut(s, th, cpu, hw, load);
    var s' := DoSwitchOut(s, th, cpu, hw, load);
    if Grabs(s, cpu) {
      if Holds(s', th, a) {
        var y :| Keeps(s', th, y) && y.addr == a;
        SavedShows(s, a, th, cpu, hw, now, load, all, y);
      }
    } else {
      QuietKeeps(s, th, cpu, hw, load, th, a);
    }
  }

  lemma OffAfterOut(s: State, a: nat, st: Stamps, ths: seq<nat>, th: nat, cpu: nat, hw: Readings, now: nat,
                    load: nat, all: set<nat>)
    requires Good(s, all) && Regular(s, a, Timed(SwitchOut(th, cpu, hw), now), |st.on|)
    requires Clean(s, SwitchOut(th, cpu, hw))
    ensures var s', st' := DoSwitchOut(s, th, cpu, hw, load), Stamped(s, a, st, Timed(SwitchOut(th, cpu, hw), now));
            Safe(s') && OpenOff(s', a, st'.off, ths, now) == OpenOff(s, a, st.off, ths, now)
  {
    var x := Timed(SwitchOut(th, cpu, hw), now);
    var s', st' := DoSwitchOut(s, th, cpu, hw, load), Stamped(s, a, st, x);
    AwayFromOut(s, a, st, th, cpu, hw, now, load, all);
    forall i | 0 <= i < |ths| ensures Away(s', a, st'.off, ths[i], now) == Away(s, a, st.off, ths[i], now) {
      if ths[i] != th { HoldsSame(s, a, x, |st.on|, load, all, ths[i]); }
    }
    OffFrame(s, s', a, st.off, st'.off, ths, now);
  }

  lemma OpenAfterOut(s: State, a: nat, st: Stamps, ths: seq<nat>, th: nat, cpu: nat, hw: Readings, now: nat,
                     load: nat, all: set<nat>)
    requires Ready(s, a, st, now, all) && Regular(s, a, Timed(SwitchOut(th, cpu, hw), now), |st.on|)
    requires Clean(s, SwitchOut(th, cpu, hw))
    ensures var s', x := DoSwitchOut(s, th, cpu, hw, load), Timed(SwitchOut(th, cpu, hw), now);
            && Safe(s') && Open(s', a, Stamped(s, a, st, x), ths, now) == Open(s, a, st, ths, now) - Due(s, a, st, x)
  {
    if s.enabled {
      OnAfterOut(s, a, st, th, cpu, hw, now, load);
      OffAfterOut(s, a, st, ths, th, cpu, hw, now, load, all);
    }
  }

  lemma OnAfterIn(s: State, a: nat, st: Stamps, th: nat, cpu: nat, hw: Readings, now: nat, load: nat)
    requires Safe(s) && SavedOk(s) && s.enabled && a in s.registry && AllApart(s.registry, a) && cpu < |st.on|
    requires !Tombstoned(s, th)
    ensures var s', x := DoSwitchIn(s, th, cpu, hw, load), Timed(SwitchIn(th, cpu, hw), now);
            && At(s'.mem, a).ctype == At(s.mem, a).ctype
            && OpenOn(s'.mem, a, Stamped(s, a, st, x).on, now) == OpenOn(s.mem, a, st.on, now) - Lost(s, a, st, x)
  {
    var s' := DoSwitchIn(s, th, cpu, hw, load);
    var _, _ := SlotsAfterIn(s, th, cpu, hw, load, a, |st.on|);
    OnPut(s.mem, s'.mem, a, st.on, Stamped(s, a, st, Timed(SwitchIn(th, cpu, hw), now)).on, cpu, now);
  }

  lemma OffAfterIn(s: State, a: nat, st: Stamps, ths: seq<nat>, i: nat, cpu: nat, hw: Readings, now: nat,
                   load: nat, all: set<nat>)
    requires Good(s, all) && s.enabled && i < |ths| && Distinct(ths)
    requires Regular(s, a, Timed(SwitchIn(ths[i], cpu, hw), now), |st.on|)
    ensures var s' := DoSwitchIn(s, ths[i], cpu, hw, load);
            Safe(s') && OpenOff(s', a, st.off, ths, now) == OpenOff(s, a, st.off, ths, now) - Away(s, a, st.off, ths[i], now)
  {
    var x := Timed(SwitchIn(ths[i], cpu, hw), now);
    var s' := DoSwitchIn(s, ths[i], cpu, hw, load);
    SafeSwitchIn(s, ths[i], cpu, hw, load);
    Alternation.AfterIn(s, ths[i], cpu, hw, load, ths[i]);
    forall j | 0 <= j < |ths| && j != i ensures Away(s', a, st.off, ths[j], now) == Away(s, a, st.off, ths[j], now) {
      HoldsSame(s, a, x, |st.on|, load, all, ths[j]);
    }
    OffPut(s, s', a, st.off, st.off, ths, i, now);
  }

  // The run's threads, each once.
  ghost predicate Lists(ths: seq<nat>, all: set<nat>) {
    Distinct(ths) && forall th :: th in all ==> th in ths
  }

  lemma OpenAfterIn(s: State, a: nat, st: Stamps, ths: seq<nat>, th: nat, cpu: nat, hw: Readings, now: nat,
                    load: nat, all: set<nat>)
    requires Ready(s, a, st, now, all) && Regular(s, a, Timed(SwitchIn(th, cpu, hw), now), |st.on|)
    requires Clean(s, SwitchIn(th, cpu, hw)) && Lists(ths, all) && th in all
    ensures var s', x := DoSwitchIn(s, th, cpu, hw, load), Timed(SwitchIn(th, cpu, hw), now);
            && Safe(s')
            && Open(s', a, Stamped(s, a, st, x), ths, now) == Open(s, a, st, ths, now) - Due(s, a, st, x) - Lost(s, a, st, x)
  {
    if s.enabled {
      var i :| 0 <= i < |ths| && ths[i] == th;
      OnAfterIn(s, a, st, th, cpu, hw, now, load);
      OffAfterIn(s, a, st, ths, i, cpu, hw, now, load, all);
      if Holds(s, th, a) { HeldStamped(s, a, st, now, th); }
    }
  }

  lemma OpenAfterOther(s: State, a: nat, st: Stamps, ths: seq<nat>, x: Timed, load: nat, all: set<nat>)
    requires Ready(s, a, st, x.now, all) && Regular(s, a, x, |st.on|) && ThreadsOf(x.e) == {}
    ensures Safe(Next(s, x.e, load)) && Open(Next(s, x.e, load), a, st, ths, x.now) == Open(s, a, st, ths, x.now)
  {
    SafeNext(s, x.e, load);
    var s' := Next(s, x.e, load);
    OnFrame(s.mem, s'.mem, a, st.on, x.now);
    forall i | 0 <= i < |ths| ensures Away(s', a, st.off, ths[i], x.now) == Away(s, a, st.off, ths[i], x.now) {
      HoldsSame(s, a, x, |st.on|, load, all, ths[i]);
    }
    OffFrame(s, s', a, st.off, st.off, ths, x.now);
  }

  // An event takes from what is under way exactly what it closes and what it
  // throws away.
  lemma OpenNext(s: State, a: nat, st: Stamps, ths: seq<nat>, x: Timed, load: nat, all: set<nat>)
    requires Ready(s, a, st, x.now, all) && Regular(s, a, x, |st.on|) && Clean(s, x.e)
    requires Lists(ths, all) && ThreadsOf(x.e) <= all
    ensures Safe(Next(s, x.e, load))
    ensures Open(Next(s, x.e, load), a, Stamped(s, a, st, x), ths, x.now)
         == Open(s, a, st, ths, x.now) - Due(s, a, st, x) - Lost(s, a, st, x)
  {
    match x.e
    case SwitchOut(th, cpu, hw) => OpenAfterOut(s, a, st, ths, th, cpu, hw, x.now, load, all);
    case SwitchIn(th, cpu, hw) => OpenAfterIn(s, a, st, ths, th, cpu, hw, x.now, load, all);
    case _ => OpenAfterOther(s, a, st, ths, x, load, all);
  }

  // ------------------------------------------------------------ one event

  // The event neither closes an interval that cannot be measured nor restarts
  // the timer on a CPU where it has run since an earlier count.
  ghost predicate Exact(s: State, a: nat, st: Stamps, x: Timed, load: nat)
    requires Safe(s)
  {
    Right(s, a, st, x, load) && !Overruns(s, a, st, x)
  }

  ghost predicate Overruns(s: State, a: nat, st: Stamps, x: Timed)
    requires Safe(s)
  {
    && x.e.SwitchIn? && s.enabled && Holds(s, x.e.thread, a)
    && x.e.cpu < |st.on| && Running(s.mem, a, x.e.cpu) && st.on[x.e.cpu] < x.now
  }

  lemma Bounds(s: State, a: nat, st: Stamps, ths: seq<nat>, x: Timed, all: set<nat>)
    requires Ready(s, a, st, x.now, all) && Regular(s, a, x, |st.on|) && Lists(ths, all) && ThreadsOf(x.e) <= all
    ensures 0 <= Due(s, a, st, x) <= Open(s, a, st, ths, x.now)
    ensures 0 <= Lost(s, a, st, x) && (Lost(s, a, st, x) == 0 <==> !Overruns(s, a, st, x))
  {
    OnBounds(s.mem, a, st.on, x.now);
    forall th | Holds(s, th, a) ensures th in st.off && st.off[th] <= x.now { HeldStamped(s, a, st, x.now, th); }
    OffBounds(s, a, st.off, ths, x.now);
    if x.e.SwitchIn? { var i :| 0 <= i < |ths| && ths[i] == x.e.thread; }
  }

  // From one event to the next: total and intervals under way together grow by
  // at most what accrues, and by exactly that if and only if the event is exact.
  lemma StepAccruesIff(s: State, a: nat, st: Stamps, ths: seq<nat>, now: nat, x: Timed, load: nat, all: set<nat>)
    requires Ready(s, a, st, now, all) && now <= x.now && Regular(s, a, x, |st.on|) && Clean(s, x.e)
    requires Lists(ths, all) && ThreadsOf(x.e) <= all
    requires Total(s.mem, a, |st.on|) + Open(s, a, st, ths, now) + Gain(s, a, |st.on|, ths, now, x.now) < P64
    ensures Safe(Next(s, x.e, load))
    ensures var s', st', n := Next(s, x.e, load), Stamped(s, a, st, x), |st.on|;
            var got := Total(s'.mem, a, n) + Open(s', a, st', ths, x.now);
            var due := Total(s.mem, a, n) + Open(s, a, st, ths, now) + Gain(s, a, n, ths, now, x.now);
            got <= due && (got == due <==> Exact(s, a, st, x, load))
  {
    OpenLater(s, a, st, ths, now, x.now);
    Bounds(s, a, st, ths, x, all);
    OpenNext(s, a, st, ths, x, load, all);
    StepCountsIff(s, a, st, x, load, all);
  }

  // ------------------------------------------------------------ runs

  ghost function Events(xs: seq<Timed>): seq<Event> {
    if xs == [] then [] else [xs[0].e] + Events(xs[1..])
  }

  // A clean run of regular events at counts that never go back.
  ghost predicate RegularRun(s: State, a: nat, ncpus: nat, now: nat, xs: seq<Timed>, load: nat, all: set<nat>)
    requires Safe(s)
    decreases |xs|
  {
    xs == [] ||
    (&& now <= xs[0].now && Regular(s, a, xs[0], ncpus) && Clean(s, xs[0].e) && ThreadsOf(xs[0].e) <= all
     && (SafeNext(s, xs[0].e, load); RegularRun(Next(s, xs[0].e, load), a, ncpus, xs[0].now, xs[1..], load, all)))
  }

  ghost predicate AllExact(s: State, a: nat, st: Stamps, xs: seq<Timed>, load: nat)
    requires Safe(s)
    decreases |xs|
  {
    xs == [] ||
    (Exact(s, a, st, xs[0], load)
     && (SafeNext(s, xs[0].e, load); AllExact(Next(s, xs[0].e, load), a, Stamped(s, a, st, xs[0]), xs[1..], load)))
  }

  ghost function StampsAfter(s: State, a: nat, st: Stamps, xs: seq<Timed>, load: nat): Stamps
    requires Safe(s)
    decreases |xs|
  {
    if xs == [] then st
    else SafeNext(s, xs[0].e, load); StampsAfter(Next(s, xs[0].e, load), a, Stamped(s, a, st, xs[0]), xs[1..], load)
  }

  ghost function Ends(now: nat, xs: seq<Timed>): nat {
    if xs == [] then now else xs[|xs| - 1].now
  }

  lemma NotNegative(d: nat, k: nat)
    ensures d * k >= 0
  {
  }

  lemma {:induction false} AccruedNotNegative(s: State, a: nat, n: nat, ths: seq<nat>, now: nat,
                                              xs: seq<Timed>, load: nat, all: set<nat>)
    requires Safe(s) && RegularRun(s, a, n, now, xs, load, all)
    ensures Accrued(s, a, n, ths, now, xs, load) >= 0
    decreases |xs|
  {
    if xs != [] {
      SafeNext(s, xs[0].e, load);
      NotNegative(xs[0].now - now, Accruing(s, a, n, ths));
      AccruedNotNegative(Next(s, xs[0].e, load), a, n, ths, xs[0].now, xs[1..], load, all);
    }
  }

  // Total and intervals under way at the start, and what accrues over the run,
  // against total and intervals under way at its end.
  ghost predicate Squares(s: State, a: nat, st: Stamps, ths: seq<nat>, now: nat, xs: seq<Timed>, load: nat)
    requires Safe(s)
  {
    var s', st', n := Run(s, Events(xs), load), StampsAfter(s, a, st, xs, load), |st.on|;
    var got := Total(s'.mem, a, n) + Open(s', a, st', ths, Ends(now, xs));
    var due := Total(s.mem, a, n) + Open(s, a, st, ths, now) + Accrued(s, a, n, ths, now, xs, load);
    got <= due && (got == due <==> AllExact(s, a, st, xs, load))
  }

  lemma SquaresCons(s: State, a: nat, st: Stamps, ths: seq<nat>, now: nat, xs: seq<Timed>, load: nat,
                    s1: State, st1: Stamps)
    requires Safe(s) && xs != [] && s1 == Next(s, xs[0].e, load) && st1 == Stamped(s, a, st, xs[0]) && Safe(s1)
    requires |st1.on| == |st.on| && Squares(s1, a, st1, ths, xs[0].now, xs[1..], load)
    requires var got := Total(s1.mem, a, |st.on|) + Open(s1, a, st1, ths, xs[0].now);
             var due := Total(s.mem, a, |st.on|) + Open(s, a, st, ths, now) + Gain(s, a, |st.on|, ths, now, xs[0].now);
             got <= due && (got == due <==> Exact(s, a, st, xs[0], load))
    ensures Squares(s, a, st, ths, now, xs, load)
  {
    assert Events(xs)[1..] == Events(xs[1..]);
    assert Ends(now, xs) == Ends(xs[0].now, xs[1..]);
  }

  // Totals over whole runs.  Any number of threads share the registered timer a.
  // Over every clean run the sum of its per-CPU totals and the intervals under
  // way grow together by at most what accrues, and by exactly that if and only
  // if every interval closed is measurable and no switch-in restarts the timer
  // on a CPU where it has run since an earlier count.
  lemma TotalsIff(s: State, a: nat, st: Stamps, ths: seq<nat>, now: nat, xs: seq<Timed>, load: nat, all: set<nat>)
    requires Ready(s, a, st, now, all) && RegularRun(s, a, |st.on|, now, xs, load, all) && Lists(ths, all)
    requires Total(s.mem, a, |st.on|) + Open(s, a, st, ths, now) + Accrued(s, a, |st.on|, ths, now, xs, load) < P64
    ensures var s', st', n := Run(s, Events(xs), load), StampsAfter(s, a, st, xs, load), |st.on|;
            var got := Total(s'.mem, a, n) + Open(s', a, st', ths, Ends(now, xs));
            var due := Total(s.mem, a, n) + Open(s, a, st, ths, now) + Accrued(s, a, n, ths, now, xs, load);
            got <= due && (got == due <==> AllExact(s, a, st, xs, load))
  {
    AllSquare(s, a, st, ths, now, xs, load, all);
  }

  lemma {:induction false} AllSquare(s: State, a: nat, st: Stamps, ths: seq<nat>, now: nat, xs: seq<Timed>,
                                     load: nat, all: set<nat>)
    requires Ready(s, a, st, now, all) && RegularRun(s, a, |st.on|, now, xs, load, all) && Lists(ths, all)
    requires Total(s.mem, a, |st.on|) + Open(s, a, st, ths, now) + Accrued(s, a, |st.on|, ths, now, xs, load) < P64
    ensures Squares(s, a, st, ths, now, xs, load)
    decreases |xs|
  {
    if xs != [] {
      var x, s1, st1 := xs[0], Next(s, xs[0].e, load), Stamped(s, a, st, xs[0]);
      AgreesLater(s, a, st, now, x.now, all);
      StepReady(s, a, st, x, load, all);
      AccruedNotNegative(s1, a, |st.on|, ths, x.now, xs[1..], load, all);
      StepAccruesIff(s, a, st, ths, now, x, load, all);
      AllSquare(s1, a, st1, ths, x.now, xs[1..], load, all);
      SquaresCons(s, a, st, ths, now, xs, load, s1, st1);
    }
  }

  lemma AgreesLater(s: State, a: nat, st: Stamps, now: nat, later: nat, all: set<nat>)
    requires Ready(s, a, st, now, all) && now <= later
    ensures Ready(s, a, st, later, all)
  {
  }

  // ------------------------------------------------------------ a restart that loses counts

  ghost function TickAt(n: nat): Readings {
    j => T.Hw(n, 0)
  }

  // Timer a on CPU 0, counting ticks there since count 0.
  ghost function Started(a: nat): Memory {
    map[a := T.Timer(0, T.Start(1, 0), 1)]
  }

  lemma StartedRuns(a: nat)
    ensures Running(Started(a), a, 0) && At(Started(a), a) == T.Timer(0, T.Start(1, 0), 1)
    ensures T.ValidKind(1) && !T.Wall(1) && forall n, j :: T.Shows(1, TickAt(n)(j), n)
  {
  }

  lemma StartedTotal(a: nat)
    ensures Total(Started(a), a, 1) == 0 && CountOn(Started(a), a, 1) == 1
  {
    StartedRuns(a);
    var one := Copies(Started(a), a, 1);
    assert |one| == 1 && one[0] == At(Started(a), a) && one[..|one| - 1] == [];
    assert T.Total(one) == T.Total(one[..|one| - 1]) + one[|one| - 1].total;
    assert CountOn(Started(a), a, 0) == 0;
  }

  // Registered, and started on CPU 0.
  lemma FreshReady(s: State, a: nat, th: nat, s2: State)
    requires Safe(s) && s.enabled && a != 0
    requires s2 == Reset(s).(registry := [a], mem := Started(a))
    ensures Ready(s2, a, Stamps([0], map[]), 0, {th}) && Grabs(s2, 0) && !Waiting(s2, th)
  {
    ResetConserved(s);
    var fl :| Accounts(Reset(s), fl);
    assert Accounts(s2, fl);
    assert Running(s2.mem, s2.registry[0], 0);
  }

  // Instrumentation starts the timer on CPU 0 again.
  lemma RestartedReady(s: State, a: nat, th: nat, s': State)
    requires Ready(s, a, Stamps([0], map[th := 0]), 0, {th}) && At(s.mem, a).ctype == 1
    requires s' == s.(mem := Started(a))
    ensures Ready(s', a, Stamps([0], map[th := 0]), 0, {th}) && (Holds(s', th, a) <==> Holds(s, th, a))
  {
    var fl :| Accounts(s, fl);
    assert Accounts(s', fl);
    forall u, x ensures Keeps(s', u, x) <==> Keeps(s, u, x) {}
  }

  lemma SavedReady(s: State, a: nat, th: nat, load: nat, s': State)
    requires Ready(s, a, Stamps([0], map[]), 0, {th}) && Grabs(s, 0) && !Waiting(s, th)
    requires s.mem == Started(a) && s' == DoSwitchOut(s, th, 0, TickAt(0), load)
    ensures Ready(s', a, Stamps([0], map[th := 0]), 0, {th}) && Holds(s', th, a)
    ensures s'.enabled && At(s'.mem, a).ctype == 1
  {
    StartedRuns(a);
    var _, _ := SwitchOutKeeps(s, th, 0, TickAt(0), load, {th}, a);
    var _ := SlotsAfterOut(s, th, 0, TickAt(0), load, a, 1);
    StepReady(s, a, Stamps([0], map[]), Timed(SwitchOut(th, 0, TickAt(0)), 0), load, {th});
  }

  // A switch-in on a CPU where the virtual timer runs adds nothing to its total.
  lemma NothingAdded(s: State, a: nat, th: nat, load: nat)
    requires Ready(s, a, Stamps([0], map[th := 0]), 0, {th}) && s.enabled && s.mem == Started(a) && Holds(s, th, a)
    ensures var x := Timed(SwitchIn(th, 0, TickAt(10)), 10);
            && Clean(s, x.e) && Overruns(s, a, Stamps([0], map[th := 0]), x) && Accruing(s, a, 1, [th]) == 1
            && Total(s.mem, a, 1) == Total(Next(s, x.e, load).mem, a, 1) == 0
  {
    StartedRuns(a);
    StartedTotal(a);
    AgreesLater(s, a, Stamps([0], map[th := 0]), 0, 10, {th});
    StepCountsIff(s, a, Stamps([0], map[th := 0]), Timed(SwitchIn(th, 0, TickAt(10)), 10), load, {th});
  }

  lemma RunFour(s: State, e0: Event, e1: Event, e2: Event, e3: Event, load: nat, s2: State, s3: State)
    requires Safe(s) && Safe(Next(s, e0, load)) && s2 == Next(Next(s, e0, load), e1, load) && Safe(s2)
    requires s3 == Next(s2, e2, load) && Safe(s3)
    requires Clean(s, e0) && Clean(Next(s, e0, load), e1) && Clean(s2, e2) && Clean(s3, e3)
    ensures Run(s, [e0, e1, e2, e3], load) == Next(s3, e3, load) && AlwaysClean(s, [e0, e1, e2, e3], load)
  {
    var evs := [e0, e1, e2, e3];
    assert evs[1..] == [e1, e2, e3] && evs[1..][1..] == [e2, e3] && [e2, e3][1..] == [e3] && [e3][1..] == [];
    assert Run(s3, [e3], load) == Next(s3, e3, load) && AlwaysClean(s3, [e3], load);
    assert Run(s2, [e2, e3], load) == Next(s3, e3, load) && AlwaysClean(s2, [e2, e3], load);
  }

  lemma FourEvents(s: State, a: nat, th: nat, load: nat, s2: State, s3: State, s4: State)
    requires Safe(s) && a != 0 && Safe(Reset(s)) && Safe(s2) && !Waiting(s2, th) && Safe(s3)
    requires s2 == Reset(s).(registry := [a], mem := Started(a)) && s4 == s3.(mem := Started(a))
    requires s3 == DoSwitchOut(s2, th, 0, TickAt(0), load)
    ensures var evs := [Register(a), Instrument(Started(a)), SwitchOut(th, 0, TickAt(0)), Instrument(Started(a))];
            AlwaysClean(Reset(s), evs, load) && s4 == Run(Reset(s), evs, load)
  {
    RunFour(Reset(s), Register(a), Instrument(Started(a)), SwitchOut(th, 0, TickAt(0)), Instrument(Started(a)), load, s2, s3);
  }

  // From initialization: a timer runs on CPU 0 when a thread leaves and is saved
  // for it; instrumentation starts it there again, at count 0; at count 10 the
  // thread comes back to CPU 0.  Ten counts have accrued and nothing is added.
  lemma RestartLoses(s: State, a: nat, th: nat, load: nat) returns (s4: State)
    requires Safe(s) && s.enabled && a != 0
    ensures var evs := [Register(a), Instrument(Started(a)), SwitchOut(th, 0, TickAt(0)), Instrument(Started(a))];
            Safe(Reset(s)) && AlwaysClean(Reset(s), evs, load) && s4 == Run(Reset(s), evs, load)
    ensures var x := Timed(SwitchIn(th, 0, TickAt(10)), 10);
            && Ready(s4, a, Stamps([0], map[th := 0]), 0, {th}) && Clean(s4, x.e)
            && Overruns(s4, a, Stamps([0], map[th := 0]), x) && Accruing(s4, a, 1, [th]) == 1
            && Total(s4.mem, a, 1) == Total(Next(s4, x.e, load).mem, a, 1) == 0
  {
    var s2 := Reset(s).(registry := [a], mem := Started(a));
    FreshReady(s, a, th, s2);
    var s3 := DoSwitchOut(s2, th, 0, TickAt(0), load);
    SavedReady(s2, a, th, load, s3);
    s4 := s3.(mem := Started(a));
    RestartedReady(s3, a, th, s4);
    NothingAdded(s4, a, th, load);
    FourEvents(s, a, th, load, s2, s3, s4);
  }
}
