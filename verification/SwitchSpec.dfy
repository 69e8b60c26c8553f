/** Context-switch virtualization of timers, on values: the registered timers,
the free list of timer vectors, the vectors, the hash table from thread to
vector and the timers in memory, with one function per lock-held routine.

Addresses are natural numbers and NULL is 0.  Memory that no timer was put in
reads as a blank timer.  `Switch` holds the same state in arrays and proves its
methods against these functions. */
module SwitchSpec {
  import opened Arith
  import opened Wrappers
  import T = Timers
  import opened HashTableSpec

  const MAX_VTIMERS: nat := 50
  const MAX_THREADS: nat := 200
  const STRIDE: nat := 64

  // struct saved_timer; a vector of them ends at the first NULL address.
  datatype Saved = Saved(addr: nat, aux: T.Start)

  const NIL: Saved := Saved(0, T.Start(0, 0))

  type Memory = map<nat, T.Timer>

  datatype State = State(
    registry: seq<nat>,        // all_vtimers, up to finish
    head: int,                 // free list: -1 is NULL
    next: seq<int>,
    vecs: seq<seq<Saved>>,
    table: seq<Entry>,         // key: thread; data: index into vecs
    mem: Memory,
    unsaved: nat,
    enabled: bool)

  // The readings met in one routine: the i-th timer visited reads hw(i).
  type Readings = nat -> T.Hw

  datatype Event =
    | SwitchOut(thread: nat, cpu: nat, hw: Readings)
    | SwitchIn(thread: nat, cpu: nat, hw: Readings)
    | Register(addr: nat)
    | Deregister(addr: nat)
    | Toggle                     // enable or disable switch handling
    | Clear                      // reinitialize all client state
    | Instrument(mem: Memory)    // timers started and stopped by instrumentation

  function CpuTimer(base: nat, cpu: nat): nat { base + cpu * STRIDE }

  function At(m: Memory, a: nat): T.Timer {
    if a in m then m[a] else T.Timer(0, T.Start(0, 0), 0)
  }

  predicate Running(m: Memory, a: nat, cpu: nat) {
    At(m, CpuTimer(a, cpu)).st.rcount != 0
  }

  // ------------------------------------------------------------ switch-out

  datatype Stopped = Stopped(mem: Memory, saved: seq<Saved>, count: nat)

  // Stopping every running registered timer of a CPU, in registry order.
  function StopAll(regs: seq<nat>, m: Memory, cpu: nat, hw: Readings, load: nat): (r: Stopped)
    ensures |r.saved| <= r.count <= |regs|
    ensures r.count == 0 ==> r.mem == m
  {
    if regs == [] then Stopped(m, [], 0)
    else
      var n := |regs| - 1;
      StopOne(StopAll(regs[..n], m, cpu, hw, load), regs[n], cpu, hw(n), load)
  }

  function StopOne(r: Stopped, a: nat, cpu: nat, hw: T.Hw, load: nat): Stopped {
    if !Running(r.mem, a, cpu) then r
    else
      var slot := CpuTimer(a, cpu);
      var (t, aux) := T.VStop(At(r.mem, slot), At(r.mem, a).ctype, hw, load);
      Stopped(r.mem[slot := t], if aux.Some? then r.saved + [Saved(a, aux.value)] else r.saved, r.count + 1)
  }

  // A vector after saving: the timers, then a NULL address, then what was there.
  function Store(vec: seq<Saved>, saved: seq<Saved>): seq<Saved>
    requires |saved| < |vec|
  {
    saved + [vec[|saved|].(addr := 0)] + vec[|saved| + 1..]
  }

  function DoSwitchOut(s: State, thread: nat, cpu: nat, hw: Readings, load: nat): State
    requires Safe(s)
  {
    var r := StopAll(s.registry, s.mem, cpu, hw, load);
    if !s.enabled || r.count == 0 then s
    else if s.head == -1 then
      s.(mem := r.mem, unsaved := (s.unsaved + r.count) % P32)
    else
      s.(mem := r.mem,
         vecs := s.vecs[s.head := Store(s.vecs[s.head], r.saved)],
         head := s.next[s.head],
         table := Add(s.table, thread, s.head).0)   // its result is ignored
  }

  // ------------------------------------------------------------ switch-in

  // The timers saved in a vector: everything before the first NULL address.
  function Prefix(vec: seq<Saved>): (p: seq<Saved>)
    ensures |p| <= |vec| && p == vec[..|p|]
    ensures forall i :: 0 <= i < |p| ==> p[i].addr != 0
    ensures |p| < |vec| ==> vec[|p|].addr == 0
  {
    if vec == [] || vec[0].addr == 0 then [] else [vec[0]] + Prefix(vec[1..])
  }

  function RestartAll(saved: seq<Saved>, m: Memory, cpu: nat, hw: Readings, load: nat): Memory {
    if saved == [] then m
    else
      var n := |saved| - 1;
      RestartOne(RestartAll(saved[..n], m, cpu, hw, load), saved[n], cpu, hw(n), load)
  }

  function RestartOne(m: Memory, x: Saved, cpu: nat, hw: T.Hw, load: nat): Memory {
    var slot := CpuTimer(x.addr, cpu);
    m[slot := T.VRestart(At(m, slot), x.aux, At(m, x.addr).ctype, hw, load)]
  }

  function DoSwitchIn(s: State, thread: nat, cpu: nat, hw: Readings, load: nat): State
    requires Safe(s)
  {
    var (table, data) := Remove(s.table, thread);
    if !s.enabled || data.None? then s
    else
      var v := data.value;
      s.(mem := RestartAll(Prefix(s.vecs[v]), s.mem, cpu, hw, load),
         table := table,
         next := s.next[v := s.head],
         head := v)
  }

  // ------------------------------------------------------------ registry

  function DoRegister(s: State, a: nat): State {
    if |s.registry| + 1 == MAX_VTIMERS then s else s.(registry := s.registry + [a])
  }

  // The first index holding `a`, or -1.
  function IndexOf(regs: seq<nat>, a: nat): (i: int)
    ensures -1 <= i < |regs|
    ensures i >= 0 ==> regs[i] == a && a !in regs[..i]
    ensures i < 0 ==> a !in regs
  {
    if regs == [] then -1
    else if regs[0] == a then 0
    else var i := IndexOf(regs[1..], a); if i < 0 then -1 else i + 1
  }

  function SlotOf(vec: seq<Saved>, a: nat): (i: int)
    ensures -1 <= i < |vec|
    ensures i >= 0 ==> vec[i].addr == a
    ensures forall j :: 0 <= j < |vec| && (j < i || i < 0) ==> vec[j].addr != a
  {
    if vec == [] then -1
    else if vec[0].addr == a then 0
    else var i := SlotOf(vec[1..], a); if i < 0 then -1 else i + 1
  }

  // Dropping the first occurrence of `a`, wherever it lies, and shifting the
  // rest of the fixed-size vector down.
  function Drop(vec: seq<Saved>, a: nat): (r: seq<Saved>)
    ensures |r| == |vec|
  {
    var i := SlotOf(vec, a);
    if i < 0 then vec else vec[..i] + vec[i + 1..] + [NIL]
  }

  predicate PointInto(es: seq<Entry>, n: nat) {
    forall i :: 0 <= i < |es| ==> es[i].data < n
  }

  // The same for the vector of every live table entry, in table order.
  function Scrub(vecs: seq<seq<Saved>>, es: seq<Entry>, a: nat): (r: seq<seq<Saved>>)
    requires PointInto(es, |vecs|)
    ensures |r| == |vecs|
  {
    if es == [] then vecs
    else
      var n := |es| - 1;
      var vs := Scrub(vecs, es[..n], a);
      if es[n].removed then vs else vs[es[n].data := Drop(vs[es[n].data], a)]
  }

  function DoDeregister(s: State, a: nat): State
    requires PointInto(s.table, |s.vecs|)
  {
    var i := IndexOf(s.registry, a);
    if i < 0 then s
    else
      var n := |s.registry| - 1;
      s.(registry := s.registry[i := s.registry[n]][..n], vecs := Scrub(s.vecs, s.table, a))
  }

  // ------------------------------------------------------------ runs

  function Linear(n: nat): (next: seq<int>)
    ensures |next| == n
  {
    seq(n, i => if i + 1 < n then i + 1 else -1)
  }

  function Reset(s: State): State {
    s.(registry := [], head := 0, next := Linear(MAX_THREADS), table := [])
  }

  function Next(s: State, e: Event, load: nat): State
    requires Safe(s)
  {
    match e
    case SwitchOut(th, cpu, hw) => DoSwitchOut(s, th, cpu, hw, load)
    case SwitchIn(th, cpu, hw) => DoSwitchIn(s, th, cpu, hw, load)
    case Register(a) => DoRegister(s, a)
    case Deregister(a) => DoDeregister(s, a)
    case Toggle => s.(enabled := !s.enabled)
    case Clear => Reset(s)
    case Instrument(m) => s.(mem := m)
  }

  // ------------------------------------------------------------ safety

  ghost predicate Terminated(vec: seq<Saved>) {
    |Prefix(vec)| < |vec|
  }

  // What every routine relies on and keeps: links and indices stay in range,
  // and every vector the table can hand out ends in a NULL within its bounds.
  ghost predicate Safe(s: State) {
    && |s.registry| < MAX_VTIMERS
    && |s.next| == |s.vecs| == MAX_THREADS
    && -1 <= s.head < MAX_THREADS
    && (forall i :: 0 <= i < MAX_THREADS ==> -1 <= s.next[i] < MAX_THREADS)
    && (forall i :: 0 <= i < MAX_THREADS ==> |s.vecs[i]| == MAX_VTIMERS)
    && |s.table| <= MAX_ELEMS
    && PointInto(s.table, MAX_THREADS)
    && (forall i :: 0 <= i < |s.table| ==> Terminated(s.vecs[s.table[i].data]))
  }

  lemma StoreTerminated(vec: seq<Saved>, saved: seq<Saved>)
    requires |saved| < |vec|
    ensures |Store(vec, saved)| == |vec| && Terminated(Store(vec, saved))
  {
    var w := Store(vec, saved);
    assert w[|saved|].addr == 0;
    ZeroTerminates(w, |saved|);
  }

  // A zero address anywhere ends the prefix there at the latest.
  lemma ZeroTerminates(vec: seq<Saved>, i: nat)
    requires i < |vec| && vec[i].addr == 0
    ensures |Prefix(vec)| <= i
  {
    var p := Prefix(vec);
    forall j | 0 <= j < |p| ensures vec[j].addr != 0 { assert p[j] == vec[j]; }
  }

  lemma DropTerminated(vec: seq<Saved>, a: nat)
    requires Terminated(vec)
    ensures Terminated(Drop(vec, a))
  {
    var w := Drop(vec, a);
    if SlotOf(vec, a) >= 0 { ZeroTerminates(w, |w| - 1); }
  }

  lemma {:induction false} ScrubSafe(vecs: seq<seq<Saved>>, es: seq<Entry>, a: nat, v: nat)
    requires v < |vecs| && PointInto(es, |vecs|)
    ensures |Scrub(vecs, es, a)[v]| == |vecs[v]|
    ensures Terminated(vecs[v]) ==> Terminated(Scrub(vecs, es, a)[v])
  {
    if es != [] {
      ScrubSafe(vecs, es[..|es| - 1], a, v);
      if Terminated(vecs[v]) { DropTerminated(Scrub(vecs, es[..|es| - 1], a)[v], a); }
    }
  }

  // Adding introduces one entry at most; the others were there before.
  lemma AddHolds(es: seq<Entry>, k: nat, d: nat, i: nat)
    requires |es| <= MAX_ELEMS && i < |Add(es, k, d).0|
    ensures Add(es, k, d).0[i].data == d || Add(es, k, d).0[i] in es
  {
    if |es| == MAX_ELEMS {
      var p := Packed(es);
      if i < |p| { PackedHolds(es, p[i]); }
    }
  }

  lemma SafeSwitchOut(s: State, thread: nat, cpu: nat, hw: Readings, load: nat)
    requires Safe(s)
    ensures Safe(DoSwitchOut(s, thread, cpu, hw, load))
  {
    var r := StopAll(s.registry, s.mem, cpu, hw, load);
    if s.enabled && r.count > 0 && s.head != -1 {
      StoreTerminated(s.vecs[s.head], r.saved);
      var s' := DoSwitchOut(s, thread, cpu, hw, load);
      forall i | 0 <= i < |s'.table|
        ensures s'.table[i].data < MAX_THREADS && Terminated(s'.vecs[s'.table[i].data])
      {
        AddHolds(s.table, thread, s.head, i);
      }
    }
  }

  lemma SafeSwitchIn(s: State, thread: nat, cpu: nat, hw: Readings, load: nat)
    requires Safe(s)
    ensures Safe(DoSwitchIn(s, thread, cpu, hw, load))
  {
    var i := Find(s.table, thread);
    if i >= 0 { assert Remove(s.table, thread).0 == s.table[i := s.table[i].(removed := true)]; }
  }

  lemma SafeDeregister(s: State, a: nat)
    requires Safe(s)
    ensures Safe(DoDeregister(s, a))
  {
    var s' := DoDeregister(s, a);
    forall i | 0 <= i < MAX_THREADS ensures |s'.vecs[i]| == MAX_VTIMERS { ScrubSafe(s.vecs, s.table, a, i); }
    forall i | 0 <= i < |s.table| ensures Terminated(s'.vecs[s.table[i].data]) {
      ScrubSafe(s.vecs, s.table, a, s.table[i].data);
    }
  }

  lemma SafeNext(s: State, e: Event, load: nat)
    requires Safe(s)
    ensures Safe(Next(s, e, load))
  {
    match e
    case SwitchOut(th, cpu, hw) => SafeSwitchOut(s, th, cpu, hw, load);
    case SwitchIn(th, cpu, hw) => SafeSwitchIn(s, th, cpu, hw, load);
    case Register(a) =>
    case Deregister(a) => SafeDeregister(s, a);
    case Toggle =>
    case Clear =>
    case Instrument(m) =>
  }
}
