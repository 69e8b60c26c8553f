/** Virtual timers: what stopping and restarting one per-CPU timer does, and
why the 32-bit counter readings it keeps still add up exactly.

Fields are natural numbers; each write takes the width of the field it goes to
(16-bit recursion count, 48-bit start, 64-bit total).  A counter read is an
input: the value of %tick or %pic at that moment. */
module Timers {
  import opened Arith
  import opened Wrappers

  // struct vtimer_start: the timer is off when rcount is 0.
  datatype Start = Start(rcount: nat, start: nat)

  datatype Timer = Timer(total: nat, st: Start, ctype: nat)

  // The hardware registers at one read.
  datatype Hw = Hw(tick: nat, pic: nat)

  // The three parts of counter_type.
  function Kind(ctype: nat): nat { ctype % 0x8000 }
  predicate Wall(ctype: nat) { ctype / 0x8000 % 2 == 1 }
  function Ctr(ctype: nat): nat { ctype / 0x10000 }

  predicate Ticks(ctype: nat) { Kind(ctype) == 1 }

  // A kind for which there is a counter to read.
  predicate ValidKind(ctype: nat) {
    Ticks(ctype) || (Kind(ctype) != 0 && Ctr(ctype) <= 1)
  }

  // %tick masked to 48 bits, or one 32-bit half of %pic.
  function ReadCounter(ctype: nat, hw: Hw): nat
    requires ValidKind(ctype)
  {
    if Ticks(ctype) then hw.tick % P48
    else if Ctr(ctype) == 0 then hw.pic % P32
    else hw.pic / P32 % P32
  }

  // The events between two readings, as the code computes them: modulo 2^32
  // for a performance counter, guarded against bad starts and rollback for
  // ticks.
  function Elapsed(ctype: nat, load: nat, from: nat, to: nat): nat {
    if !Ticks(ctype) then (to - from) % P32
    else if from < load || to <= from then 0
    else to - from
  }

  function AddTotal(t: Timer, n: nat): nat {
    (t.total + n) % P64
  }

  // generic_vstop_routine: the stopped timer, and what to save for the thread
  // when the kind is valid.
  function VStop(t: Timer, ctype: nat, hw: Hw, load: nat): (r: (Timer, Option<Start>))
    ensures r.0.st == Start(0, 0) && r.0.ctype == t.ctype
    ensures r.1.Some? <==> ValidKind(ctype)
    ensures r.1.Some? ==> r.1.value.rcount == t.st.rcount
  {
    if !ValidKind(ctype) then (t.(st := Start(0, 0)), None)
    else
      var c := ReadCounter(ctype, hw);
      (Timer(AddTotal(t, Elapsed(ctype, load, t.st.start, c)), Start(0, 0), t.ctype),
       Some(Start(t.st.rcount, c)))
  }

  // generic_vrestart_routine: a wall timer also counts the time switched out.
  function VRestart(t: Timer, aux: Start, ctype: nat, hw: Hw, load: nat): (t': Timer)
    ensures t'.st.rcount == aux.rcount && t'.ctype == t.ctype
  {
    if !ValidKind(ctype) then t.(st := aux)
    else
      var c := ReadCounter(ctype, hw);
      Timer(if Wall(ctype) then AddTotal(t, Elapsed(ctype, load, aux.start, c)) else t.total,
            Start(aux.rcount, c), t.ctype)
  }

  // ------------------------------------------------------------ what one call counts

  // How far a counter reads.
  function Width(ctype: nat): (w: nat)
    ensures w > 0
  {
    if Ticks(ctype) then P48 else P32
  }

  // The two 32-bit counters that %pic holds.
  ghost predicate Halves(hw: Hw, lo: nat, hi: nat) {
    lo < P32 && hi < P32 && hw.pic == hi * P32 + lo
  }

  // The register shows the event count, cut to the width of the counter: %tick,
  // or the low half of %pic for counter 0 and the high half for counter 1.
  ghost predicate Shows(ctype: nat, hw: Hw, n: nat) {
    && ValidKind(ctype)
    && if Ticks(ctype) then hw.tick % P48 == n % P48
       else exists lo: nat, hi: nat :: Halves(hw, lo, hi) && n % P32 == if Ctr(ctype) == 0 then lo else hi
  }

  lemma HalvesOf(hw: Hw, lo: nat, hi: nat)
    requires Halves(hw, lo, hi)
    ensures hw.pic % P32 == lo && hw.pic / P32 % P32 == hi
  {
    DivModUnique(hw.pic, hi, lo, P32);
    ModSmall(hi, P32);
  }

  // What the code reads is that count.
  lemma ShowsReads(ctype: nat, hw: Hw, n: nat)
    requires Shows(ctype, hw, n)
    ensures ReadCounter(ctype, hw) == n % Width(ctype)
  {
    if !Ticks(ctype) {
      var lo: nat, hi: nat :| Halves(hw, lo, hi) && n % P32 == if Ctr(ctype) == 0 then lo else hi;
      HalvesOf(hw, lo, hi);
    }
  }

  // ------------------------------------------------------------ fields and registers

  // A counter_type, from its three fields.
  function TypeOf(kind: nat, wall: bool, ctr: nat): nat {
    kind + (if wall then 0x8000 else 0) + 0x10000 * ctr
  }

  lemma TypeFields(kind: nat, wall: bool, ctr: nat)
    requires kind < 0x8000
    ensures var ctype := TypeOf(kind, wall, ctr); Kind(ctype) == kind && (Wall(ctype) <==> wall) && Ctr(ctype) == ctr
  {
    var low := kind + if wall then 0x8000 else 0;
    DivModUnique(TypeOf(kind, wall, ctr), ctr, low, 0x10000);
    DivModUnique(TypeOf(kind, wall, ctr), 2 * ctr + (if wall then 1 else 0), kind, 0x8000);
    DivModUnique(2 * ctr + (if wall then 1 else 0), ctr, if wall then 1 else 0, 2);
  }

  // What a timer of this kind reads: 48 bits of %tick, or its half of %pic.
  ghost function Reading(kind: nat, ctr: nat, tick: nat, lo: nat, hi: nat): Option<nat> {
    if kind == 1 then Some(tick % P48)
    else if kind == 0 || ctr > 1 then None
    else Some(if ctr == 0 then lo else hi)
  }

  // total' is total with n more, in 64 bits.
  ghost predicate Gained(total: nat, total': nat, n: int) {
    total' < P64 && (total' - total - n) % P64 == 0
  }

  // The counts from one reading to another: modulo 2^32 for %pic; for %tick none
  // from before the driver was loaded and none backwards.
  ghost function Since(kind: nat, load: nat, from: nat, to: nat): int {
    if kind != 1 then (to - from) % P32 else if load <= from < to then to - from else 0
  }

  lemma GainedBy(t: Timer, n: nat)
    ensures Gained(t.total, AddTotal(t, n), n)
  {
    DivMod(t.total + n, P64);
    var q := (t.total + n) / P64;
    DivModUnique(AddTotal(t, n) - t.total - n, -q, 0, P64);
  }

  // A stop, for every counter_type and all register contents: it saves the
  // recursion count and the reading, and adds the counts since the start; a kind
  // without a counter is only turned off.
  lemma StopReads(t: Timer, kind: nat, wall: bool, ctr: nat, tick: nat, lo: nat, hi: nat, load: nat)
    requires kind < 0x8000 && lo < P32 && hi < P32
    ensures var (t', aux) := VStop(t, TypeOf(kind, wall, ctr), Hw(tick, hi * P32 + lo), load);
            && t'.st == Start(0, 0) && t'.ctype == t.ctype
            && match Reading(kind, ctr, tick, lo, hi)
               case None => aux == None && t'.total == t.total
               case Some(c) => aux == Some(Start(t.st.rcount, c)) && Gained(t.total, t'.total, Since(kind, load, t.st.start, c))
  {
    TypeFields(kind, wall, ctr);
    HalvesOf(Hw(tick, hi * P32 + lo), lo, hi);
    var c := Reading(kind, ctr, tick, lo, hi);
    if c.Some? { GainedBy(t, Elapsed(TypeOf(kind, wall, ctr), load, t.st.start, c.value)); }
  }

  // A restart likewise: the timer runs on from the reading with the saved
  // recursion count, and a wall timer's total takes the counts since the stop.
  lemma RestartReads(t: Timer, aux: Start, kind: nat, wall: bool, ctr: nat, tick: nat, lo: nat, hi: nat, load: nat)
    requires kind < 0x8000 && lo < P32 && hi < P32
    ensures var t' := VRestart(t, aux, TypeOf(kind, wall, ctr), Hw(tick, hi * P32 + lo), load);
            && t'.ctype == t.ctype
            && match Reading(kind, ctr, tick, lo, hi)
               case None => t'.st == aux && t'.total == t.total
               case Some(c) =>
                 && t'.st == Start(aux.rcount, c)
                 && if wall then Gained(t.total, t'.total, Since(kind, load, aux.start, c)) else t'.total == t.total
  {
    TypeFields(kind, wall, ctr);
    HalvesOf(Hw(tick, hi * P32 + lo), lo, hi);
    var c := Reading(kind, ctr, tick, lo, hi);
    if c.Some? { GainedBy(t, Elapsed(TypeOf(kind, wall, ctr), load, aux.start, c.value)); }
  }

  // ------------------------------------------------------------ intervals

  // Counts a to b as two cut readings see them.
  ghost function Seen(ctype: nat, load: nat, a: nat, b: nat): nat {
    Elapsed(ctype, load, a % Width(ctype), b % Width(ctype))
  }

  // An interval the code can measure: below 2^32 events for a performance
  // counter; for ticks an empty one, or one that starts at a reading not below
  // the driver's load time and stays between two multiples of 2^48.
  ghost predicate Measurable(ctype: nat, load: nat, a: nat, b: nat) {
    if Ticks(ctype) then a == b || (load <= a % P48 && a / P48 == b / P48) else b - a < P32
  }

  // The code never counts too much, and counts right exactly then.
  lemma SeenIff(ctype: nat, load: nat, a: nat, b: nat)
    requires a <= b
    ensures Seen(ctype, load, a, b) <= b - a
    ensures Seen(ctype, load, a, b) == b - a <==> Measurable(ctype, load, a, b)
  {
    var w := Width(ctype);
    DivMod(a, w);
    DivMod(b, w);
    DivLe(a, b, w);
    if Ticks(ctype) { SeenTick(load, a, b, ctype); } else { SeenPic(load, a, b, ctype); }
  }

  lemma DivLe(a: nat, b: nat, w: nat)
    requires w > 0 && a <= b
    ensures a / w <= b / w
  {
    if a / w > b / w {
      MulLt(b / w, a / w, w);
      DivMod(a, w);
      DivMod(b, w);
    }
  }

  lemma SeenPic(load: nat, a: nat, b: nat, ctype: nat)
    requires !Ticks(ctype) && a <= b
    ensures Seen(ctype, load, a, b) == (b - a) % P32
  {
    assert a == P32 * (a / P32) + a % P32 && b == P32 * (b / P32) + b % P32;
    var d := b % P32 - a % P32;
    assert b - a == d + P32 * (b / P32 - a / P32);
    ModShift(d, b / P32 - a / P32);
  }

  lemma ModShift(d: int, q: int)
    ensures (d + P32 * q) % P32 == d % P32
  {
  }

  lemma SeenTick(load: nat, a: nat, b: nat, ctype: nat)
    requires Ticks(ctype) && a <= b && a / P48 <= b / P48
    ensures Seen(ctype, load, a, b) <= b - a
    ensures Seen(ctype, load, a, b) == b - a <==> a == b || (load <= a % P48 && a / P48 == b / P48)
  {
    assert a == P48 * (a / P48) + a % P48 && b == P48 * (b / P48) + b % P48;
  }

  // Stopping a timer that was started at count a, at count b: the total grows by
  // the events between exactly if the interval is measurable, the timer is off,
  // and what is saved is the recursion count and the reading.
  lemma StopCountsIff(t: Timer, ctype: nat, hw: Hw, load: nat, a: nat, b: nat)
    requires a <= b && Shows(ctype, hw, b) && t.st.start == a % Width(ctype) && t.total + (b - a) < P64
    ensures var (t', aux) := VStop(t, ctype, hw, load);
            && t'.st == Start(0, 0) && t'.ctype == t.ctype
            && aux == Some(Start(t.st.rcount, b % Width(ctype)))
            && t.total <= t'.total <= t.total + (b - a)
            && (t'.total == t.total + (b - a) <==> Measurable(ctype, load, a, b))
  {
    ShowsReads(ctype, hw, b);
    SeenIff(ctype, load, a, b);
  }

  // Restarting at count b what was stopped at count a: a wall timer's total grows
  // by the events between exactly if the interval is measurable, a virtual
  // timer's not at all; the timer runs from this reading with its recursion count.
  lemma RestartCountsIff(t: Timer, rc: nat, ctype: nat, hw: Hw, load: nat, a: nat, b: nat)
    requires a <= b && Shows(ctype, hw, b) && t.total + (b - a) < P64
    ensures var t' := VRestart(t, Start(rc, a % Width(ctype)), ctype, hw, load);
            && t'.st == Start(rc, b % Width(ctype)) && t'.ctype == t.ctype
            && t.total <= t'.total <= t.total + (b - a)
            && (if Wall(ctype) then t'.total == t.total + (b - a) <==> Measurable(ctype, load, a, b)
                else t'.total == t.total)
  {
    ShowsReads(ctype, hw, b);
    SeenIff(ctype, load, a, b);
  }

  // ------------------------------------------------------------ totals

  // One stretch of a thread's life on a CPU: it runs there while the event
  // count goes from `on` to `off`, and the counters read hwOn and hwOff then.
  datatype Stretch = Stretch(cpu: nat, on: nat, off: nat, hwOn: Hw, hwOff: Hw)

  // The thread's stretches follow one another on one non-decreasing count.
  ghost predicate Feeds(ctype: nat, life: seq<Stretch>, ncpus: nat) {
    && (forall i :: 0 <= i < |life| ==>
          && life[i].cpu < ncpus && life[i].on <= life[i].off
          && Shows(ctype, life[i].hwOn, life[i].on) && Shows(ctype, life[i].hwOff, life[i].off))
    && (forall i :: 0 < i < |life| ==> life[i - 1].off <= life[i].on)
  }

  // The per-CPU timers and the saved start after the thread's i-th switch-out;
  // before the first, the timer was started at the first stretch's reading.
  ghost function Live(timers: seq<Timer>, ctype: nat, load: nat, rc: nat, life: seq<Stretch>): (r: (seq<Timer>, Start))
    requires life != [] && Feeds(ctype, life, |timers|)
    ensures |r.0| == |timers|
    decreases |life|
  {
    var n := |life| - 1;
    var x := life[n];
    var onCpu :=
      if n == 0 then timers[x.cpu := timers[x.cpu].(st := Start(rc, ReadCounter(ctype, x.hwOn)))]
      else
        var (ts, aux) := Live(timers, ctype, load, rc, life[..n]);
        ts[x.cpu := VRestart(ts[x.cpu], aux, ctype, x.hwOn, load)];
    var (t, aux') := VStop(onCpu[x.cpu], ctype, x.hwOff, load);
    (onCpu[x.cpu := t], aux'.value)
  }

  ghost function Total(timers: seq<Timer>): nat {
    if timers == [] then 0 else Total(timers[..|timers| - 1]) + timers[|timers| - 1].total
  }

  // What the whole life adds: every stretch, and for a wall timer every gap.
  ghost function Accrued(ctype: nat, load: nat, life: seq<Stretch>): nat {
    if life == [] then 0
    else
      var n := |life| - 1;
      Accrued(ctype, load, life[..n])
      + (if Wall(ctype) && n > 0 then Seen(ctype, load, life[n - 1].off, life[n].on) else 0)
      + Seen(ctype, load, life[n].on, life[n].off)
  }

  lemma {:induction false} TotalPut(timers: seq<Timer>, c: nat, t: Timer)
    requires c < |timers|
    ensures Total(timers[c := t]) + timers[c].total == Total(timers) + t.total
  {
    var n := |timers| - 1;
    if c < n {
      TotalPut(timers[..n], c, t);
      assert timers[c := t][..n] == timers[..n][c := t];
    } else {
      assert timers[c := t][..n] == timers[..n];
    }
  }

  lemma {:induction false} TotalBounds(timers: seq<Timer>, c: nat)
    requires c < |timers|
    ensures timers[c].total <= Total(timers)
  {
    if c < |timers| - 1 { TotalBounds(timers[..|timers| - 1], c); }
  }

  // Adding to one CPU's total is adding to the grand total, short of 2^64.
  lemma TotalAdds(timers: seq<Timer>, c: nat, t: Timer, n: nat)
    requires c < |timers| && t.total == AddTotal(timers[c], n) && Total(timers) + n < P64
    ensures Total(timers[c := t]) == Total(timers) + n
  {
    TotalPut(timers, c, t);
    TotalBounds(timers, c);
  }

  lemma FeedsPrefix(ctype: nat, life: seq<Stretch>, ncpus: nat, n: nat)
    requires Feeds(ctype, life, ncpus) && n <= |life|
    ensures Feeds(ctype, life[..n], ncpus)
  {
  }

  // Over any life, on any CPUs in any order, the grand total grows by exactly
  // what the readings show, and the saved start is the last reading.
  lemma {:induction false} LiveTotals(timers: seq<Timer>, ctype: nat, load: nat, rc: nat, life: seq<Stretch>)
    requires life != [] && Feeds(ctype, life, |timers|)
    requires Total(timers) + Accrued(ctype, load, life) < P64
    ensures var (ts, aux) := Live(timers, ctype, load, rc, life);
            && Total(ts) == Total(timers) + Accrued(ctype, load, life)
            && aux == Start(rc, life[|life| - 1].off % Width(ctype))
    decreases |life|
  {
    var n := |life| - 1;
    var x := life[n];
    var ran := Seen(ctype, load, x.on, x.off);
    ShowsReads(ctype, x.hwOn, x.on);
    ShowsReads(ctype, x.hwOff, x.off);
    if n == 0 {
      var t0 := timers[x.cpu].(st := Start(rc, ReadCounter(ctype, x.hwOn)));
      TotalPut(timers, x.cpu, t0);
      assert life[..0] == [];
      TotalAdds(timers[x.cpu := t0], x.cpu, VStop(t0, ctype, x.hwOff, load).0, ran);
    } else {
      FeedsPrefix(ctype, life, |timers|, n);
      ShowsReads(ctype, life[n - 1].hwOff, life[n - 1].off);
      LiveTotals(timers, ctype, load, rc, life[..n]);
      var (ts, aux) := Live(timers, ctype, load, rc, life[..n]);
      var t1 := VRestart(ts[x.cpu], aux, ctype, x.hwOn, load);
      var gap := if Wall(ctype) then Seen(ctype, load, life[n - 1].off, x.on) else 0;
      if Wall(ctype) { TotalAdds(ts, x.cpu, t1, gap); } else { TotalPut(ts, x.cpu, t1); }
      TotalAdds(ts[x.cpu := t1], x.cpu, VStop(t1, ctype, x.hwOff, load).0, ran);
    }
  }

  // The true count: events on CPU for a virtual timer, first to last for a
  // wall timer.
  ghost function TrueCount(ctype: nat, life: seq<Stretch>): int
    requires life != []
  {
    if Wall(ctype) then life[|life| - 1].off - life[0].on else OnCpu(life)
  }

  ghost function OnCpu(life: seq<Stretch>): int {
    if life == [] then 0 else OnCpu(life[..|life| - 1]) + life[|life| - 1].off - life[|life| - 1].on
  }

  // Every interval the timer measures is measurable: each stretch, and for a
  // wall timer each gap.
  ghost predicate AllMeasurable(ctype: nat, load: nat, life: seq<Stretch>) {
    && (forall i :: 0 <= i < |life| ==> Measurable(ctype, load, life[i].on, life[i].off))
    && (Wall(ctype) ==> forall i, j :: 0 <= i < j < |life| && j == i + 1 ==> Measurable(ctype, load, life[i].off, life[j].on))
  }

  lemma {:induction false} AccruedIff(ctype: nat, load: nat, life: seq<Stretch>, ncpus: nat)
    requires life != [] && Feeds(ctype, life, ncpus)
    ensures Accrued(ctype, load, life) <= TrueCount(ctype, life)
    ensures Accrued(ctype, load, life) == TrueCount(ctype, life) <==> AllMeasurable(ctype, load, life)
    decreases |life|
  {
    var n := |life| - 1;
    SeenIff(ctype, load, life[n].on, life[n].off);
    if n > 0 {
      SeenIff(ctype, load, life[n - 1].off, life[n].on);
      FeedsPrefix(ctype, life, ncpus, n);
      AccruedIff(ctype, load, life[..n], ncpus);
      MeasurableLast(ctype, load, life);
    } else {
      assert OnCpu(life[..n]) == Accrued(ctype, load, life[..n]) == 0;
    }
  }

  lemma MeasurableLast(ctype: nat, load: nat, life: seq<Stretch>)
    requires |life| > 1
    ensures var n := |life| - 1;
            AllMeasurable(ctype, load, life) <==>
              && AllMeasurable(ctype, load, life[..n])
              && Measurable(ctype, load, life[n].on, life[n].off)
              && (Wall(ctype) ==> Measurable(ctype, load, life[n - 1].off, life[n].on))
  {
    var n := |life| - 1;
    assert forall i :: 0 <= i < n ==> life[..n][i] == life[i];
  }

  // A timer keeps only cut readings, yet its total over all CPUs grows by exactly
  // the events on CPU (virtual) or from first to last (wall), if and only if
  // every interval it measures is measurable.
  lemma TotalExactIff(timers: seq<Timer>, ctype: nat, load: nat, rc: nat, life: seq<Stretch>)
    requires life != [] && Feeds(ctype, life, |timers|)
    requires Total(timers) + TrueCount(ctype, life) < P64
    ensures Total(Live(timers, ctype, load, rc, life).0) == Total(timers) + TrueCount(ctype, life)
       <==> AllMeasurable(ctype, load, life)
  {
    AccruedIff(ctype, load, life, |timers|);
    LiveTotals(timers, ctype, load, rc, life);
  }
}
