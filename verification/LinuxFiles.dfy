/** The Linux log as a map: from start address to the one entry logged for it.
The list, its search and its swap-with-last removal are then a matter of order
alone, and every call does to the map what it does to the list. */
module LinuxFiles {
  import opened LinuxWritesSpec
  import opened LinuxWritesProofs

  type Files = map<nat, OneWrite>

  ghost predicate Has(log: seq<OneWrite>, a: nat) {
    exists i :: 0 <= i < |log| && log[i].addr == a
  }

  ghost predicate OneEach(log: seq<OneWrite>) {
    forall i, j :: 0 <= i < j < |log| ==> log[i].addr != log[j].addr
  }

  // The list has exactly these entries, one to an address.
  ghost predicate Indexed(log: seq<OneWrite>, f: Files) {
    && |f| == |log| && OneEach(log)
    && (forall a :: a in f <==> Has(log, a))
    && (forall i :: 0 <= i < |log| ==> f[log[i].addr] == log[i])
  }

  lemma IndexedAt(log: seq<OneWrite>, f: Files, a: nat)
    requires Indexed(log, f)
    ensures IndexOf(log, a) >= 0 <==> a in f
    ensures a in f ==> log[IndexOf(log, a)] == f[a]
  {
    var i := IndexOf(log, a);
    if i >= 0 { assert log[i].addr == a; }
  }

  lemma HasAdd(log: seq<OneWrite>, w: OneWrite, a: nat)
    ensures Has(log + [w], a) <==> Has(log, a) || a == w.addr
  {
    var log' := log + [w];
    assert log'[|log|].addr == w.addr;
    if Has(log, a) { var i :| 0 <= i < |log| && log[i].addr == a; assert log'[i].addr == a; }
  }

  lemma IndexedAdd(log: seq<OneWrite>, f: Files, w: OneWrite)
    requires Indexed(log, f) && w.addr !in f
    ensures Indexed(log + [w], f[w.addr := w])
  {
    forall a ensures a in f[w.addr := w] <==> Has(log + [w], a) { HasAdd(log, w, a); }
    forall i | 0 <= i < |log| ensures log[i].addr != w.addr { assert Has(log, log[i].addr); }
  }

  lemma HasPut(log: seq<OneWrite>, i: nat, w: OneWrite, a: nat)
    requires i < |log| && w.addr == log[i].addr
    ensures Has(log[i := w], a) <==> Has(log, a)
  {
    var log' := log[i := w];
    if Has(log, a) { var j :| 0 <= j < |log| && log[j].addr == a; assert log'[j].addr == a; }
  }

  lemma IndexedPut(log: seq<OneWrite>, f: Files, i: nat, w: OneWrite)
    requires Indexed(log, f) && i < |log| && w.addr == log[i].addr
    ensures Indexed(log[i := w], f[w.addr := w])
  {
    var log', g := log[i := w], f[w.addr := w];
    assert Has(log, w.addr);
    assert g.Keys == f.Keys;
    forall a ensures a in g <==> Has(log', a) { HasPut(log, i, w, a); }
  }

  // The list without entry i, the last entry in its place.
  ghost predicate Swapped(log: seq<OneWrite>, i: nat, log': seq<OneWrite>)
    requires i < |log|
  {
    |log'| == |log| - 1 && forall j :: 0 <= j < |log'| ==> log'[j] == if j == i then log[|log| - 1] else log[j]
  }

  lemma HasDrop(log: seq<OneWrite>, i: nat, log': seq<OneWrite>, a: nat)
    requires OneEach(log) && i < |log| && Swapped(log, i, log')
    ensures Has(log', a) <==> Has(log, a) && a != log[i].addr
  {
    if Has(log', a) {
      var j :| 0 <= j < |log'| && log'[j].addr == a;
      assert log[if j == i then |log| - 1 else j].addr == a;
    }
    if Has(log, a) && a != log[i].addr {
      var j :| 0 <= j < |log| && log[j].addr == a;
      assert log'[if j == |log| - 1 then i else j].addr == a;
    }
  }

  lemma OneEachDrop(log: seq<OneWrite>, i: nat, log': seq<OneWrite>)
    requires OneEach(log) && i < |log| && Swapped(log, i, log')
    ensures OneEach(log')
  {
  }

  lemma IndexedDrop(log: seq<OneWrite>, f: Files, i: nat, log': seq<OneWrite>)
    requires Indexed(log, f) && i < |log| && Swapped(log, i, log')
    ensures Indexed(log', f - {log[i].addr})
  {
    var g := f - {log[i].addr};
    assert Has(log, log[i].addr);
    assert g.Keys == f.Keys - {log[i].addr};
    OneEachDrop(log, i, log');
    forall a ensures a in g <==> Has(log', a) { HasDrop(log, i, log', a); }
    forall j | 0 <= j < |log'| ensures g[log'[j].addr] == log'[j] { assert Has(log', log'[j].addr); }
  }

  // ------------------------------------------------------------ calls on the map

  // What a call does: an address is filed by the first write that names it, with
  // the bytes there and the priority named, and not again; at most 1024 are.
  // Every write reaches memory if writing is enabled.  The reply is 1 for a call
  // that could not be served.
  ghost function File(f: Files, mem: Memory, w: OneWrite, val: seq<Byte>, enabled: bool): (Files, Memory, int)
    requires LinuxWritesSpec.Mapped(mem, w.addr, |val|)
  {
    if w.addr !in f && |f| == MAX_WRITES then (f, mem, 1)
    else (if w.addr in f then f else f[w.addr := w], if enabled then Poke(mem, w.addr, val) else mem, 0)
  }

  ghost function Unfile(f: Files, mem: Memory, addr: nat, enabled: bool): (Files, Memory, int)
    requires addr in f ==> LinuxWritesSpec.Mapped(mem, addr, |f[addr].orig|)
  {
    if addr !in f then (f, mem, 1)
    else (f - {addr}, if enabled then Poke(mem, addr, f[addr].orig) else mem, 0)
  }

  ghost function Refile(f: Files, addr: nat, howSoon: nat): (Files, int) {
    if addr in f then (f[addr := OneWrite(addr, f[addr].orig, howSoon)], 0) else (f, 1)
  }

  // A new entry goes to the end of the list.
  lemma EntryFiled(log: seq<OneWrite>, f: Files, w: OneWrite, log': seq<OneWrite>)
    requires Indexed(log, f) && log' == if IndexOf(log, w.addr) < 0 then log + [w] else log
    ensures Indexed(log', if w.addr in f then f else f[w.addr := w]) && (IndexOf(log, w.addr) < 0 <==> w.addr !in f)
  {
    IndexedAt(log, f, w.addr);
    if w.addr !in f { IndexedAdd(log, f, w); }
  }

  lemma WriteFiles(s: State, f: Files, addr: nat, val: seq<Byte>, howSoon: nat)
    requires Indexed(s.log, f) && LinuxWritesSpec.Mapped(s.mem, addr, |val|)
    ensures var (s', code) := DoWrite(s, addr, val, howSoon);
            var (f', mem', reply) := File(f, s.mem, OneWrite(addr, Peek(s.mem, addr, |val|), howSoon), val, s.enabled);
            Indexed(s'.log, f') && s'.mem == mem' && code == reply && s'.enabled == s.enabled
  {
    var w := OneWrite(addr, Peek(s.mem, addr, |val|), howSoon);
    var log' := if IndexOf(s.log, addr) < 0 then s.log + [w] else s.log;
    EntryFiled(s.log, f, w, log');
    assert (IndexOf(s.log, addr) < 0 && |s.log| == MAX_WRITES) || DoWrite(s, addr, val, howSoon).0.log == log';
  }

  lemma ZeroWriteFiles(s: State, f: Files, addr: nat, first: Byte, found: Byte, howSoon: nat)
    requires Indexed(s.log, f) && LinuxWritesSpec.Mapped(s.mem, addr, 1)
    ensures var (s', code) := DoZeroWrite(s, addr, first, found, howSoon);
            var (f', mem', reply) := File(f, s.mem, OneWrite(addr, [found], howSoon), [first], s.enabled);
            Indexed(s'.log, f') && s'.mem == mem' && code == reply && s'.enabled == s.enabled
  {
    var w := OneWrite(addr, [found], howSoon);
    var log' := if IndexOf(s.log, addr) < 0 then s.log + [w] else s.log;
    EntryFiled(s.log, f, w, log');
    assert (IndexOf(s.log, addr) < 0 && |s.log| == MAX_WRITES) || DoZeroWrite(s, addr, first, found, howSoon).0.log == log';
  }

  lemma UndoFiles(s: State, f: Files, addr: nat)
    requires Indexed(s.log, f) && LogMapped(s)
    ensures addr in f ==> LinuxWritesSpec.Mapped(s.mem, addr, |f[addr].orig|)
    ensures var (s', code) := DoUndo(s, addr);
            var (f', mem', reply) := Unfile(f, s.mem, addr, s.enabled);
            Indexed(s'.log, f') && s'.mem == mem' && code == reply && s'.enabled == s.enabled
  {
    IndexedAt(s.log, f, addr);
    if addr in f { IndexedDrop(s.log, f, IndexOf(s.log, addr), DoUndo(s, addr).0.log); }
  }

  // A change gives the entry at the address the new priority, and touches no
  // other and no memory.
  lemma ChangeFiles(s: State, f: Files, addr: nat, howSoon: nat)
    requires Indexed(s.log, f)
    ensures var (s', code) := DoChange(s, addr, howSoon);
            var (f', reply) := Refile(f, addr, howSoon);
            Indexed(s'.log, f') && s'.mem == s.mem && code == reply && s'.enabled == s.enabled
  {
    IndexedAt(s.log, f, addr);
    if addr in f { IndexedPut(s.log, f, IndexOf(s.log, addr), OneWrite(addr, f[addr].orig, howSoon)); }
  }

  // ------------------------------------------------------------ runs

  ghost function FileStep(f: Files, mem: Memory, enabled: bool, c: Call): (Files, Memory) {
    match c
    case CallWrite(addr, val, howSoon) =>
      if LinuxWritesSpec.Mapped(mem, addr, |val|)
      then var r := File(f, mem, OneWrite(addr, Peek(mem, addr, |val|), howSoon), val, enabled); (r.0, r.1)
      else (f, mem)
    case CallZeroWrite(addr, first, found, howSoon) =>
      if LinuxWritesSpec.Mapped(mem, addr, 1)
      then var r := File(f, mem, OneWrite(addr, [found], howSoon), [first], enabled); (r.0, r.1)
      else (f, mem)
    case CallUndo(addr) =>
      if addr in f && LinuxWritesSpec.Mapped(mem, addr, |f[addr].orig|)
      then var r := Unfile(f, mem, addr, enabled); (r.0, r.1)
      else (f, mem)
    case CallChange(addr, howSoon) => (Refile(f, addr, howSoon).0, mem)
  }

  ghost function RunFiles(f: Files, mem: Memory, enabled: bool, calls: seq<Call>): (Files, Memory)
    decreases |calls|
  {
    if calls == [] then (f, mem)
    else var (f', mem') := FileStep(f, mem, enabled, calls[0]); RunFiles(f', mem', enabled, calls[1..])
  }

  // The map and memory after the call, as the list and memory.
  ghost predicate Follows(s': State, s: State, r: (Files, Memory)) {
    Indexed(s'.log, r.0) && s'.mem == r.1 && s'.enabled == s.enabled
  }

  lemma StepFiles(s: State, f: Files, c: Call)
    requires Indexed(s.log, f) && LogMapped(s)
    ensures Follows(Step(s, c), s, FileStep(f, s.mem, s.enabled, c))
  {
    match c
    case CallWrite(addr, val, howSoon) =>
      if LinuxWritesSpec.Mapped(s.mem, addr, |val|) { WriteFiles(s, f, addr, val, howSoon); }
    case CallZeroWrite(addr, first, found, howSoon) =>
      if LinuxWritesSpec.Mapped(s.mem, addr, 1) { ZeroWriteFiles(s, f, addr, first, found, howSoon); }
    case CallUndo(addr) => UndoFiles(s, f, addr);
    case CallChange(addr, howSoon) => ChangeFiles(s, f, addr, howSoon);
  }

  lemma StepMapped(s: State, c: Call)
    requires LogMapped(s)
    ensures LogMapped(Step(s, c))
  {
  }

  // Over every run from open the log is this map, memory is its memory, and no
  // address is logged twice.
  lemma {:induction false} LogFollows(s: State, f: Files, calls: seq<Call>)
    requires Indexed(s.log, f) && LogMapped(s)
    ensures var (f', mem') := RunFiles(f, s.mem, s.enabled, calls);
            Indexed(RunCalls(s, calls).log, f') && RunCalls(s, calls).mem == mem'
    decreases |calls|
  {
    if calls != [] {
      StepFiles(s, f, calls[0]);
      StepMapped(s, calls[0]);
      LogFollows(Step(s, calls[0]), FileStep(f, s.mem, s.enabled, calls[0]).0, calls[1..]);
    }
  }
}
