/** The driver's context-switch state in memory, and the lock-held routines that
change it in place: the registered-timer vector, the free list of timer
vectors, the hash table and the timers.  Each routine is one step of
`SwitchSpec`. */
module Switch {
  import opened Arith
  import opened Wrappers
  import T = Timers
  import opened HashTableSpec
  import HashTable
  import opened SwitchSpec

  // struct stacklist: the vectors, and the free list threaded through them.
  class StackList {
    const timers: array<seq<Saved>>
    const next: array<int>
    var head: int   // -1 is NULL

    ghost predicate Valid()
      reads this, timers, next
    {
      && timers.Length == next.Length == MAX_THREADS
      && -1 <= head < MAX_THREADS
      && (forall i :: 0 <= i < MAX_THREADS ==> -1 <= next[i] < MAX_THREADS)
      && (forall i :: 0 <= i < MAX_THREADS ==> |timers[i]| == MAX_VTIMERS)
    }

    constructor ()
      ensures Valid() && fresh(timers) && fresh(next)
      ensures head == 0 && next[..] == Linear(MAX_THREADS)
    {
      timers := new seq<Saved>[MAX_THREADS](_ => seq(MAX_VTIMERS, _ => NIL));
      next := new int[MAX_THREADS](i => if i + 1 < MAX_THREADS then i + 1 else -1);
      head := 0;
    }

    // stacklist_initialize: every vector on the list, in array order.
    method Initialize()
      requires Valid()
      modifies this, next
      ensures Valid() && head == 0 && next[..] == Linear(MAX_THREADS)
    {
      head := 0;
      var iter := 0;
      while iter < MAX_THREADS - 1
        invariant iter <= MAX_THREADS - 1 && Valid() && head == 0
        invariant forall i :: 0 <= i < iter ==> next[i] == i + 1
      {
        next[iter] := iter + 1;
        iter := iter + 1;
      }
      next[iter] := -1;
    }

    // stacklist_get: -1 when nothing is free.
    method Get() returns (v: int)
      requires Valid()
      modifies this
      ensures Valid() && v == old(head)
      ensures head == if v == -1 then -1 else next[v]
    {
      v := head;
      if v == -1 { return; }
      head := next[v];
    }

    // stacklist_free: no check that the vector is not free already.
    method Free(v: nat)
      requires Valid() && v < MAX_THREADS
      modifies this, next
      ensures Valid() && head == v && next[..] == old(next[..])[v := old(head)]
    {
      next[v] := head;
      head := v;
    }
  }

  // struct all_vtimers; the slot at `finish` is NULL.
  class AllVtimers {
    const addrs: array<nat>
    var finish: nat

    ghost predicate Valid()
      reads this, addrs
    {
      addrs.Length == MAX_VTIMERS && finish < MAX_VTIMERS && addrs[finish] == 0
    }

    constructor ()
      ensures Valid() && fresh(addrs) && finish == 0
    {
      addrs := new nat[MAX_VTIMERS](_ => 0);
      finish := 0;
    }

    method Initialize()
      requires addrs.Length == MAX_VTIMERS
      modifies this, addrs
      ensures Valid() && finish == 0
    {
      finish := 0;
      var iter := 0;
      while iter != MAX_VTIMERS
        invariant iter <= MAX_VTIMERS && finish == 0
        invariant forall i :: 0 <= i < iter ==> addrs[i] == 0
      {
        addrs[iter] := 0;
        iter := iter + 1;
      }
    }

    // addto_all_vtimers: 1 on overflow; the sentinel check cannot fail.
    method Add(a: nat) returns (code: int)
      requires Valid()
      modifies this, addrs
      ensures Valid()
      ensures code == 0 || code == 1
      ensures addrs[..finish] == if code == 0 then old(addrs[..finish]) + [a] else old(addrs[..finish])
      ensures code == 1 <==> old(finish) + 1 == MAX_VTIMERS
    {
      if addrs[finish] != 0 { return -1; }
      if finish + 1 == MAX_VTIMERS { return 1; }
      addrs[finish + 1] := 0;
      addrs[finish] := a;
      finish := finish + 1;
      assert addrs[..finish] == old(addrs[..finish]) + [a];
      code := 0;
    }

    // The search and swap-with-last of removefrom_all_vtimers.
    method Remove(a: nat) returns (found: bool)
      requires Valid()
      modifies this, addrs
      ensures Valid()
      ensures found <==> a in old(addrs[..finish])
      ensures !found ==> addrs[..finish] == old(addrs[..finish])
      ensures found ==> var r := old(addrs[..finish]);
                        addrs[..finish] == r[IndexOf(r, a) := r[|r| - 1]][..|r| - 1]
    {
      ghost var r := addrs[..finish];
      var iter := 0;
      while iter != finish
        invariant iter <= finish && a !in r[..iter]
        invariant addrs[..finish] == r && addrs[finish] == 0
      {
        if addrs[iter] == a {
          FirstAt(r, a, iter);
          addrs[iter] := addrs[finish - 1];
          addrs[finish - 1] := 0;
          finish := finish - 1;
          assert addrs[..finish] == r[iter := r[|r| - 1]][..|r| - 1];
          return true;
        }
        iter := iter + 1;
      }
      found := false;
    }
  }

  lemma {:induction false} FirstAt(r: seq<nat>, a: nat, i: nat)
    requires i < |r| && r[i] == a && a !in r[..i]
    ensures IndexOf(r, a) == i
  {
    if i > 0 {
      assert r[0] == r[..i][0];
      assert r[..i][1..] == r[1..][..i - 1];
      FirstAt(r[1..], a, i - 1);
    }
  }

  // A vector part filled: the timers saved so far, then what was there.
  ghost function Filling(vec: seq<Saved>, saved: seq<Saved>): seq<Saved>
    requires |saved| <= |vec|
  {
    saved + vec[|saved|..]
  }

  class Driver {
    const table: HashTable.Table
    const heap: StackList
    const av: AllVtimers
    var mem: Memory
    var unsaved: nat
    var enabled: bool

    ghost predicate Separate()
      reads this
    {
      heap.next != table.next && heap.next != table.bins
    }

    ghost predicate Valid()
      reads this, table, table.entries, table.next, table.bins, heap, heap.timers, heap.next, av, av.addrs
    {
      && Separate() && table.Valid() && heap.Valid() && av.Valid()
      && Safe(Abs())
    }

    // The state this memory holds.
    ghost function Abs(): State
      reads this, table, table.entries, heap, heap.timers, heap.next, av, av.addrs
      requires av.finish <= av.addrs.Length && table.num <= table.entries.Length
    {
      State(av.addrs[..av.finish], heap.head, heap.next[..], heap.timers[..], table.Contents(), mem, unsaved, enabled)
    }

    constructor ()
      ensures Valid() && Abs() == Reset(Abs()) && enabled
    {
      table := new HashTable.Table();
      heap := new StackList();
      av := new AllVtimers();
      mem, unsaved, enabled := map[], 0, true;
    }

    // generic_vstop_routine on the timer at cpuVt; its saved pair goes to slot
    // `i` of vector v, when there is a vector.
    method Vstop(cpuVt: nat, ctype: nat, v: int, i: nat, hw: T.Hw, load: nat) returns (add: bool)
      requires heap.Valid() && -1 <= v < MAX_THREADS && i < MAX_VTIMERS
      modifies this`mem, heap.timers
      ensures heap.Valid()
      ensures var (t, aux) := T.VStop(At(old(mem), cpuVt), ctype, hw, load);
              && mem == old(mem)[cpuVt := t]
              && add == aux.Some?
              && heap.timers[..] == if v == -1 || !add then old(heap.timers[..])
                                    else old(heap.timers[..])[v := old(heap.timers[v])[i := Saved(old(heap.timers[v])[i].addr, aux.value)]]
    {
      var t := At(mem, cpuVt);
      if !T.ValidKind(ctype) {
        mem := mem[cpuVt := t.(st := T.Start(0, 0))];
        return false;
      }
      var counter := T.ReadCounter(ctype, hw);
      if v != -1 {
        heap.timers[v] := heap.timers[v][i := heap.timers[v][i].(aux := T.Start(t.st.rcount, counter))];
      }
      var total := T.AddTotal(t, T.Elapsed(ctype, load, t.st.start, counter));
      mem := mem[cpuVt := T.Timer(total, T.Start(0, 0), t.ctype)];
      add := true;
    }

    // Where the loop of on_switch_out stands: memory is as after r; v is the
    // vector taken, if any, and i its next free slot.
    ghost predicate SavedSoFar(s: State, r: Stopped, v: int, i: nat)
      reads this, heap, heap.timers, heap.next
      requires Safe(s)
    {
      && |r.saved| <= r.count && |r.saved| < MAX_VTIMERS
      && heap.next[..] == s.next && mem == r.mem
      && (if r.count == 0 || s.head == -1 then
            && v == -1 && i == 0 && heap.head == s.head && heap.timers[..] == s.vecs
            && unsaved == (if r.count == 0 then s.unsaved else (s.unsaved + r.count) % P32)
          else
            && v == s.head && heap.head == s.next[v] && i == |r.saved| && unsaved == s.unsaved
            && heap.timers[..] == s.vecs[v := Filling(s.vecs[v], r.saved)])
    }

    // Taking a vector for the first running timer met.
    method Grab(ghost s: State, ghost r: Stopped, v0: int, i: nat) returns (v: int)
      requires heap.Valid() && Safe(s) && SavedSoFar(s, r, v0, i)
      modifies this`unsaved, heap
      ensures heap.Valid() && heap.next[..] == s.next && mem == r.mem && i < MAX_VTIMERS
      ensures if s.head == -1 then
                && v == -1 && heap.head == -1 && unsaved == (s.unsaved + r.count + 1) % P32
                && heap.timers[..] == s.vecs
              else
                && v == s.head && heap.head == s.next[v] && unsaved == s.unsaved && i == |r.saved|
                && heap.timers[..] == s.vecs[v := Filling(s.vecs[v], r.saved)]
    {
      v := v0;
      if v == -1 {
        v := heap.Get();
        if v == -1 { unsaved := (unsaved + 1) % P32; }
        else {
          assert Filling(s.vecs[v], []) == s.vecs[v];
        }
      }
    }

    // The body of the loop, for one timer.
    method StopTimer(ghost s: State, ghost r: Stopped, a: nat, cpu: nat, hw: T.Hw, load: nat, v0: int, i0: nat)
      returns (v: int, i: nat)
      requires heap.Valid() && Safe(s) && SavedSoFar(s, r, v0, i0) && |r.saved| + 1 < MAX_VTIMERS
      modifies this`mem, this`unsaved, heap, heap.timers
      ensures heap.Valid()
      ensures SavedSoFar(s, StopOne(r, a, cpu, hw, load), v, i)
    {
      v, i := v0, i0;
      var cpuVt := CpuTimer(a, cpu);
      if At(mem, cpuVt).st.rcount != 0 {
        v := Grab(s, r, v, i);
        ghost var vecs := heap.timers[..];
        var add := Vstop(cpuVt, At(mem, a).ctype, v, i, hw, load);
        if v != -1 && add {
          heap.timers[v] := heap.timers[v][i := heap.timers[v][i].(addr := a)];
          ghost var x := heap.timers[v][i];
          FillOne(s.vecs[v], r.saved, x);
          assert vecs[v] == Filling(s.vecs[v], r.saved) && heap.timers[v] == vecs[v][i := x];
          assert heap.timers[..] == s.vecs[v := heap.timers[v]];
          i := i + 1;
        }
      }
    }

    static lemma StopAllNext(regs: seq<nat>, n: nat, m: Memory, cpu: nat, hw: Readings, load: nat)
      requires n < |regs|
      ensures StopAll(regs[..n + 1], m, cpu, hw, load) ==
              StopOne(StopAll(regs[..n], m, cpu, hw, load), regs[n], cpu, hw(n), load)
    {
      assert regs[..n + 1][..n] == regs[..n];
    }

    // The loop over the registered timers.
    method StopRegistered(ghost s: State, cpu: nat, hw: Readings, load: nat) returns (v: int, i: nat)
      requires heap.Valid() && av.Valid() && Safe(s) && av.addrs[..av.finish] == s.registry
      requires SavedSoFar(s, Stopped(s.mem, [], 0), -1, 0)
      modifies this`mem, this`unsaved, heap, heap.timers
      ensures heap.Valid() && SavedSoFar(s, StopAll(s.registry, s.mem, cpu, hw, load), v, i)
    {
      var iter := 0;
      v, i := -1, 0;
      ghost var r := Stopped(s.mem, [], 0);
      while iter != av.finish
        invariant iter <= av.finish && heap.Valid() && r == StopAll(s.registry[..iter], s.mem, cpu, hw, load)
        invariant SavedSoFar(s, r, v, i)
      {
        StopAllNext(s.registry, iter, s.mem, cpu, hw, load);
        v, i := StopTimer(s, r, av.addrs[iter], cpu, hw(iter), load, v, i);
        r := StopOne(r, s.registry[iter], cpu, hw(iter), load);
        iter := iter + 1;
      }
      assert s.registry[..iter] == s.registry;
    }

    method OnSwitchOut(thread: nat, cpu: nat, hw: Readings, load: nat)
      requires Valid()
      modifies this, table, table.entries, table.next, table.bins, heap, heap.timers
      ensures Valid() && Abs() == DoSwitchOut(old(Abs()), thread, cpu, hw, load)
    {
      ghost var s := Abs();
      SafeSwitchOut(s, thread, cpu, hw, load);
      if !enabled { return; }
      var v, i := StopRegistered(s, cpu, hw, load);
      if v != -1 {
        Terminate(s, StopAll(s.registry, s.mem, cpu, hw, load).saved, v, i);
        var _ := table.AddElem(v, thread);
      }
      assert Abs() == DoSwitchOut(s, thread, cpu, hw, load);
    }

    // Marking the end of the list.
    method Terminate(ghost s: State, ghost saved: seq<Saved>, v: nat, i: nat)
      requires heap.Valid() && Safe(s) && v < MAX_THREADS && i == |saved| < MAX_VTIMERS
      requires heap.timers[..] == s.vecs[v := Filling(s.vecs[v], saved)]
      modifies heap.timers
      ensures heap.Valid() && heap.timers[..] == s.vecs[v := Store(s.vecs[v], saved)]
    {
      heap.timers[v] := heap.timers[v][i := heap.timers[v][i].(addr := 0)];
      assert heap.timers[v] == Store(s.vecs[v], saved);
    }

    // generic_vrestart_routine on the timer at cpuVt.
    method Vrestart(cpuVt: nat, aux: T.Start, ctype: nat, hw: T.Hw, load: nat)
      modifies this`mem
      ensures mem == old(mem)[cpuVt := T.VRestart(At(old(mem), cpuVt), aux, ctype, hw, load)]
    {
      var t := At(mem, cpuVt);
      if !T.ValidKind(ctype) {
        mem := mem[cpuVt := t.(st := aux)];
        return;
      }
      var counter := T.ReadCounter(ctype, hw);
      mem := mem[cpuVt := t.(st := T.Start(aux.rcount, counter))];
      if T.Wall(ctype) {
        var total := T.AddTotal(t, T.Elapsed(ctype, load, aux.start, counter));
        mem := mem[cpuVt := mem[cpuVt].(total := total)];
      }
    }

    // The walk over a saved vector, up to its NULL.
    method RestartSaved(v: nat, cpu: nat, hw: Readings, load: nat)
      requires heap.Valid() && v < MAX_THREADS && Terminated(heap.timers[v])
      modifies this`mem
      ensures mem == RestartAll(Prefix(heap.timers[v]), old(mem), cpu, hw, load)
    {
      ghost var p := Prefix(heap.timers[v]);
      var iter := 0;
      while heap.timers[v][iter].addr != 0
        invariant iter <= |p| && mem == RestartAll(p[..iter], old(mem), cpu, hw, load)
        decreases |p| - iter
      {
        var x := heap.timers[v][iter];
        assert iter < |p| && p[iter] == x;
        Vrestart(CpuTimer(x.addr, cpu), x.aux, At(mem, x.addr).ctype, hw(iter), load);
        assert p[..iter + 1][..iter] == p[..iter];
        iter := iter + 1;
      }
      assert p[..iter] == p;
    }

    // Restarting the saved timers, then returning the vector to the free list.
    method RestartAndFree(v: nat, cpu: nat, hw: Readings, load: nat)
      requires heap.Valid() && v < MAX_THREADS && Terminated(heap.timers[v])
      modifies this`mem, heap, heap.next
      ensures heap.Valid() && heap.head == v && heap.next[..] == old(heap.next[..])[v := old(heap.head)]
      ensures mem == RestartAll(Prefix(heap.timers[v]), old(mem), cpu, hw, load)
    {
      RestartSaved(v, cpu, hw, load);
      heap.Free(v);
    }

    method OnSwitchIn(thread: nat, cpu: nat, hw: Readings, load: nat)
      requires Valid()
      modifies this`mem, table.entries, heap, heap.next
      ensures Valid() && Abs() == DoSwitchIn(old(Abs()), thread, cpu, hw, load)
    {
      if !enabled { return; }
      ghost var s := Abs();
      var data := table.RemoveElem(thread);
      if data == None { return; }
      Resume(s, thread, data.value, cpu, hw, load);
    }

    // The rest of on_switch_in, once the thread's vector v is out of the table.
    method Resume(ghost s: State, ghost thread: nat, v: nat, cpu: nat, hw: Readings, load: nat)
      requires Separate() && table.Valid() && heap.Valid() && av.Valid()
      requires Safe(s) && s.enabled && Remove(s.table, thread) == (table.Contents(), Some(v))
      requires Abs() == s.(table := table.Contents())
      modifies this`mem, heap, heap.next
      ensures Valid() && Abs() == DoSwitchIn(s, thread, cpu, hw, load)
    {
      SavedVector(s, thread);
      RestartAndFree(v, cpu, hw, load);
      SafeSwitchIn(s, thread, cpu, hw, load);
    }

    method AddToAllVtimers(a: nat) returns (code: int)
      requires Valid()
      modifies av, av.addrs
      ensures Valid() && Abs() == DoRegister(old(Abs()), a)
      ensures code == 0 || code == 1
      ensures code == 0 <==> |old(Abs()).registry| + 1 < MAX_VTIMERS
    {
      code := av.Add(a);
    }

    // The shifting loops of removefrom_hashtable, on one vector.
    method DropFrom(v: nat, a: nat)
      requires heap.Valid() && v < MAX_THREADS
      modifies heap.timers
      ensures heap.Valid() && heap.timers[..] == old(heap.timers[..])[v := Drop(old(heap.timers[v]), a)]
    {
      ghost var vec, vecs := heap.timers[v], heap.timers[..];
      var st := 0;
      while st != MAX_VTIMERS
        invariant st <= MAX_VTIMERS && heap.Valid()
        invariant heap.timers[..] == vecs[v := heap.timers[v]]
        invariant if st < MAX_VTIMERS then
                    heap.timers[v] == vec && forall j :: 0 <= j < st ==> vec[j].addr != a
                  else heap.timers[v] == Drop(vec, a)
      {
        if heap.timers[v][st].addr == a {
          ghost var i := st;
          SlotAt(vec, a, i);
          while st + 1 != MAX_VTIMERS
            invariant i <= st < MAX_VTIMERS && heap.Valid()
            invariant heap.timers[..] == vecs[v := heap.timers[v]]
            invariant forall j :: 0 <= j < i ==> heap.timers[v][j] == vec[j]
            invariant forall j :: i <= j < st ==> heap.timers[v][j] == vec[j + 1]
            invariant forall j :: st <= j < MAX_VTIMERS ==> heap.timers[v][j] == vec[j]
          {
            heap.timers[v] := heap.timers[v][st := heap.timers[v][st + 1]];
            st := st + 1;
          }
          heap.timers[v] := heap.timers[v][st := NIL];
          assert heap.timers[v] == vec[..i] + vec[i + 1..] + [NIL];
        } else if st + 1 == MAX_VTIMERS {
          NoSlot(vec, a);
        }
        st := st + 1;
      }
    }

    method RemoveFromHashtable(a: nat)
      requires heap.Valid() && table.Valid() && PointInto(table.Contents(), MAX_THREADS)
      modifies heap.timers
      ensures heap.Valid()
      ensures heap.timers[..] == Scrub(old(heap.timers[..]), table.Contents(), a)
    {
      ghost var es, vecs := table.Contents(), heap.timers[..];
      var iter := 0;
      while iter < table.num
        invariant iter <= table.num && heap.Valid()
        invariant heap.timers[..] == Scrub(vecs, es[..iter], a)
      {
        assert es[..iter + 1][..iter] == es[..iter];
        if !table.entries[iter].removed {
          DropFrom(table.entries[iter].data, a);
        }
        iter := iter + 1;
      }
      assert es[..iter] == es;
    }

    method RemoveFromAllVtimers(a: nat) returns (code: int)
      requires Valid()
      modifies av, av.addrs, heap.timers
      ensures Valid() && Abs() == DoDeregister(old(Abs()), a)
      ensures code == (if a in old(Abs()).registry then 0 else -1)
    {
      ghost var s := Abs();
      SafeDeregister(s, a);
      var found := av.Remove(a);
      if !found {
        return -1;
      }
      RemoveFromHashtable(a);
      assert Abs() == DoDeregister(s, a);
      code := 0;
    }

    // KERNINST_CLEAR_CLIENT_STATE.
    method ClearClientState()
      requires Valid()
      modifies table, table.bins, heap, heap.next, av, av.addrs
      ensures Valid() && Abs() == Reset(old(Abs()))
    {
      table.Initialize();
      av.Initialize();
      heap.Initialize();
    }

    // Instrumentation starts and stops timers between the driver's routines.
    method SetMemory(m: Memory)
      requires Valid()
      modifies this`mem
      ensures Valid() && Abs() == old(Abs()).(mem := m)
    {
      mem := m;
    }

    method ToggleSwitchHandling()
      requires Valid()
      modifies this`enabled
      ensures Valid() && Abs() == old(Abs()).(enabled := !old(enabled))
    {
      enabled := !enabled;
    }
  }

  lemma SavedVector(s: State, thread: nat)
    requires Safe(s) && Remove(s.table, thread).1.Some?
    ensures var v := Remove(s.table, thread).1.value; v < MAX_THREADS && Terminated(s.vecs[v])
  {
  }

  lemma {:induction false} SlotAt(vec: seq<Saved>, a: nat, i: nat)
    requires i < |vec| && vec[i].addr == a && forall j :: 0 <= j < i ==> vec[j].addr != a
    ensures SlotOf(vec, a) == i
  {
    if i > 0 { SlotAt(vec[1..], a, i - 1); }
  }

  lemma {:induction false} NoSlot(vec: seq<Saved>, a: nat)
    requires forall j :: 0 <= j < |vec| ==> vec[j].addr != a
    ensures SlotOf(vec, a) == -1
  {
    if vec != [] { NoSlot(vec[1..], a); }
  }

  lemma FillOne(vec: seq<Saved>, saved: seq<Saved>, x: Saved)
    requires |saved| < |vec|
    ensures Filling(vec, saved)[|saved| := x] == Filling(vec, saved + [x])
  {
  }
}
