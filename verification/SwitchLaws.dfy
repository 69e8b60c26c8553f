/** What each routine of the switch state leaves alone, and the small things it
changes: registrations, the switch-handling flag, the free list as it starts,
and the count of timers that could not be saved. */
module SwitchLaws {
  import opened Arith
  import opened Wrappers
  import T = Timers
  import opened HashTableSpec
  import opened SwitchSpec
  import opened Conservation
  import opened Virtualization

  // Up to 49 timers are registered, in order; the next is turned away.
  lemma RegisterIff(s: State, a: nat, load: nat)
    requires Safe(s)
    ensures var s' := Next(s, Register(a), load);
            && s' == s.(registry := s'.registry)
            && s'.registry == if |s.registry| < 49 then s.registry + [a] else s.registry
  {
  }

  // Deregistering closes the gap with the last registration.
  lemma DeregisterMoves(s: State, a: nat, load: nat, i: nat)
    requires Safe(s) && i < |s.registry| && s.registry[i] == a && forall j :: 0 <= j < i ==> s.registry[j] != a
    ensures var s', n := Next(s, Deregister(a), load), |s.registry| - 1;
            && s' == s.(registry := s'.registry, vecs := s'.vecs) && |s'.registry| == n
            && forall j :: 0 <= j < n ==> s'.registry[j] == s.registry[if j == i then n else j]
  {
    FirstIndex(s.registry, a, i);
  }

  lemma {:induction false} FirstIndex(regs: seq<nat>, a: nat, i: nat)
    requires i < |regs| && regs[i] == a && forall j :: 0 <= j < i ==> regs[j] != a
    ensures IndexOf(regs, a) == i
  {
    if i > 0 { FirstIndex(regs[1..], a, i - 1); }
  }

  // Toggling turns switch handling on and off, and that is all.
  lemma ToggleFlips(s: State, load: nat)
    requires Safe(s)
    ensures var s' := Next(s, Toggle, load);
            s'.enabled != s.enabled && s' == s.(enabled := s'.enabled) && Safe(s') && Next(s', Toggle, load) == s
  {
  }

  // Clearing forgets every timer and thread and links all vectors in order.
  lemma ClearStarts(s: State, load: nat)
    requires Safe(s)
    ensures var s' := Next(s, Clear, load);
            && s'.registry == [] && s'.table == [] && Chain(s'.next, s'.head, seq(200, i => i))
            && s' == s.(registry := [], head := s'.head, next := s'.next, table := [])
  {
    LinearChain(MAX_THREADS, 0, seq(MAX_THREADS, i => i));
  }

  // With switch handling off, with no registered timer running on the CPU, or
  // for a thread never saved, nothing happens.
  lemma QuietSwitches(s: State, th: nat, cpu: nat, hw: Readings, load: nat)
    requires Safe(s)
    ensures !s.enabled || Runners(s.registry, s.mem, cpu) == {} ==> DoSwitchOut(s, th, cpu, hw, load) == s
    ensures !s.enabled || (forall i :: 0 <= i < |s.table| ==> s.table[i].key != th) ==>
              DoSwitchIn(s, th, cpu, hw, load) == s
  {
    StopCounts(s.registry, s.mem, cpu, hw, load);
  }

  // The registered timers running on a CPU.
  ghost function Runners(regs: seq<nat>, m: Memory, cpu: nat): set<nat> {
    set a | a in regs && Running(m, a, cpu)
  }

  // Each is stopped once, however often it is registered.
  lemma {:induction false} StopCounts(regs: seq<nat>, m: Memory, cpu: nat, hw: Readings, load: nat)
    ensures StopAll(regs, m, cpu, hw, load).count == |Runners(regs, m, cpu)|
  {
    if regs != [] {
      var n := |regs| - 1;
      var a, r := regs[n], StopAll(regs[..n], m, cpu, hw, load);
      StopCounts(regs[..n], m, cpu, hw, load);
      assert regs == regs[..n] + [a];
      if a in regs[..n] {
        StopAllStops(regs[..n], m, cpu, hw, load, a);
        assert Runners(regs, m, cpu) == Runners(regs[..n], m, cpu);
      } else {
        StopAllFrame(regs[..n], m, cpu, hw, load, a);
        assert Runners(regs, m, cpu) == Runners(regs[..n], m, cpu) + if Running(m, a, cpu) then {a} else {};
      }
    }
  }

  // Timers stopped without a vector to save them in are counted, in 32 bits; a
  // switch-out that has a vector counts none.
  lemma UnsavedCounts(s: State, th: nat, cpu: nat, hw: Readings, load: nat)
    requires Safe(s)
    ensures var s' := DoSwitchOut(s, th, cpu, hw, load);
            && s'.enabled == s.enabled && s'.registry == s.registry && s'.next == s.next
            && (s.enabled && s.head == -1 && Runners(s.registry, s.mem, cpu) != {} ==>
                  && s' == s.(mem := s'.mem, unsaved := s'.unsaved)
                  && s'.unsaved == (s.unsaved + |Runners(s.registry, s.mem, cpu)|) % P32)
            && (!(s.enabled && s.head == -1) ==> s'.unsaved == s.unsaved)
  {
    StopCounts(s.registry, s.mem, cpu, hw, load);
  }

  // A switch-in counts none and keeps every registration and vector.
  lemma SwitchInKeeps(s: State, th: nat, cpu: nat, hw: Readings, load: nat)
    requires Safe(s)
    ensures var s' := DoSwitchIn(s, th, cpu, hw, load);
            s' == s.(mem := s'.mem, table := s'.table, head := s'.head, next := s'.next)
  {
  }

  // What a switch-out writes of its vector: the saved pairs and then one NULL
  // address.  The rest of the vector, and every other one, stay as they were.
  lemma VectorFilled(s: State, th: nat, cpu: nat, hw: Readings, load: nat, i: nat)
    requires Safe(s) && Grabs(s, cpu) && i < MAX_VTIMERS
    ensures var s', saved := DoSwitchOut(s, th, cpu, hw, load), StopAll(s.registry, s.mem, cpu, hw, load).saved;
            && s'.vecs == s.vecs[s.head := s'.vecs[s.head]] && |s'.vecs[s.head]| == MAX_VTIMERS && |saved| < MAX_VTIMERS
            && (i < |saved| ==> s'.vecs[s.head][i] == saved[i])
            && (i == |saved| ==> s'.vecs[s.head][i] == Saved(0, s.vecs[s.head][i].aux))
            && (i > |saved| ==> s'.vecs[s.head][i] == s.vecs[s.head][i])
  {
    GrabFills(s, th, cpu, hw, load);
    StoreAt(s.vecs[s.head], StopAll(s.registry, s.mem, cpu, hw, load).saved, i);
  }

  lemma GrabFills(s: State, th: nat, cpu: nat, hw: Readings, load: nat)
    requires Safe(s) && Grabs(s, cpu)
    ensures var saved := StopAll(s.registry, s.mem, cpu, hw, load).saved;
            |saved| < MAX_VTIMERS && DoSwitchOut(s, th, cpu, hw, load).vecs == s.vecs[s.head := Store(s.vecs[s.head], saved)]
  {
    StopsIffRunning(s.registry, s.mem, cpu, hw, load);
  }

  lemma StoreAt(vec: seq<Saved>, saved: seq<Saved>, i: nat)
    requires |saved| < |vec| && i < |vec|
    ensures |Store(vec, saved)| == |vec|
    ensures i < |saved| ==> Store(vec, saved)[i] == saved[i]
    ensures i == |saved| ==> Store(vec, saved)[i] == Saved(0, vec[i].aux)
    ensures i > |saved| ==> Store(vec, saved)[i] == vec[i]
  {
  }

  // The pairs are saved in the order of registration.
  lemma {:induction false} SavedInOrder(regs: seq<nat>, m: Memory, cpu: nat, hw: Readings, load: nat, i: nat, j: nat)
    requires i < j < |StopAll(regs, m, cpu, hw, load).saved|
    ensures var saved := StopAll(regs, m, cpu, hw, load).saved;
            0 <= IndexOf(regs, saved[i].addr) < IndexOf(regs, saved[j].addr)
  {
    var n := |regs| - 1;
    var p, saved := StopAll(regs[..n], m, cpu, hw, load), StopAll(regs, m, cpu, hw, load).saved;
    StopAllSaves(regs[..n], m, cpu, hw, load);
    StopAllSaves(regs, m, cpu, hw, load);
    IndexSnoc(regs, n, saved[i].addr);
    if j < |p.saved| {
      SavedInOrder(regs[..n], m, cpu, hw, load, i, j);
      IndexSnoc(regs, n, saved[j].addr);
    } else {
      assert saved[j].addr == regs[n];
      StoppedIsNew(regs, m, cpu, hw, load);
      FirstIndex(regs, regs[n], n);
    }
  }

  lemma IndexSnoc(regs: seq<nat>, n: nat, a: nat)
    requires n < |regs| && a in regs[..n]
    ensures 0 <= IndexOf(regs, a) == IndexOf(regs[..n], a) < n
  {
    var i := IndexOf(regs[..n], a);
    FirstIndex(regs, a, i);
  }

  // A timer stopped for the last registration was not registered before.
  lemma StoppedIsNew(regs: seq<nat>, m: Memory, cpu: nat, hw: Readings, load: nat)
    requires regs != []
    requires var n := |regs| - 1; Running(StopAll(regs[..n], m, cpu, hw, load).mem, regs[n], cpu)
    ensures forall j :: 0 <= j < |regs| - 1 ==> regs[j] != regs[|regs| - 1]
  {
    var n := |regs| - 1;
    if regs[n] in regs[..n] { StopAllStops(regs[..n], m, cpu, hw, load, regs[n]); }
    forall j | 0 <= j < n ensures regs[j] != regs[n] { assert regs[..n][j] == regs[j]; }
  }
}
