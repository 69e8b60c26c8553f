/** What the Linux log guarantees over runs, how it refines the abstract undo
log, and exactly when closing the device fails to restore memory. */
module LinuxWritesProofs {
  import opened UndoLog
  import opened LinuxWritesSpec

  // ------------------------------------------------------------ refinement

  // The bytes some entry covers.
  ghost function Bytes(s: State): set<nat> {
    set b | b in s.mem && Covered(s.log, b)
  }

  // What the first entry over byte b says it held.
  ghost function Original(log: seq<OneWrite>, b: nat): Byte
    requires Covered(log, b)
  {
    if Covers(log[0], b) then log[0].orig[b - log[0].addr]
    else CoveredTail(log, b); Original(log[1..], b)
  }

  lemma CoveredTail(log: seq<OneWrite>, b: nat)
    requires Covered(log, b) && !Covers(log[0], b)
    ensures Covered(log[1..], b)
  {
    var i :| 0 <= i < |log| && Covers(log[i], b);
    assert log[1..][i - 1] == log[i];
  }

  ghost function Abs(s: State): Log<Byte> {
    Log(s.mem, map b | b in s.mem && Covered(s.log, b) :: Original(s.log, b))
  }

  lemma {:induction false} OriginalTruthful(log: seq<OneWrite>, mem0: Memory, b: nat)
    requires Truthful(log, mem0) && Covered(log, b)
    ensures b in mem0 && Original(log, b) == mem0[b]
    decreases |log|
  {
    if !Covers(log[0], b) {
      CoveredTail(log, b);
      TruthfulSubset(log, log[1..], mem0);
      OriginalTruthful(log[1..], mem0, b);
    }
  }

  // A good log is the abstract one: the originals are the bytes at open of the
  // bytes it covers.
  lemma GoodAbs(s: State, mem0: Memory)
    requires Good(s, mem0)
    ensures Abs(s) == Log(s.mem, Only(mem0, Bytes(s)))
  {
    var o := Abs(s).orig;
    forall b | b in o ensures o[b] == mem0[b] { OriginalTruthful(s.log, mem0, b); }
    assert o == Only(mem0, Bytes(s));
  }

  // Memory overlaid with the logged originals is the memory at open.
  lemma GoodIsOverlay(s: State, mem0: Memory)
    requires Good(s, mem0)
    ensures WellFormed(Abs(s)) && Opened(Abs(s)) == mem0
  {
    GoodAbs(s, mem0);
  }

  // The cells a write of bytes at addr changes.
  ghost function Cells(mem: Memory, addr: nat, val: seq<Byte>): map<nat, Byte> {
    map b | b in mem && InRange(b, addr, |val|) :: val[b - addr]
  }

  lemma PokeIsMerge(mem: Memory, addr: nat, val: seq<Byte>)
    requires LinuxWritesSpec.Mapped(mem, addr, |val|)
    ensures Poke(mem, addr, val) == mem + Cells(mem, addr, val)
  {
  }

  // What a write adds to the bytes covered.
  lemma WriteBytes(s: State, addr: nat, val: seq<Byte>, howSoon: nat)
    requires s.enabled && LinuxWritesSpec.Mapped(s.mem, addr, |val|) && WriteOk(s, addr, |val|)
    requires DoWrite(s, addr, val, howSoon).1 == 0
    ensures Bytes(DoWrite(s, addr, val, howSoon).0) == Bytes(s) + Cells(s.mem, addr, val).Keys
  {
    var s' := DoWrite(s, addr, val, howSoon).0;
    if IndexOf(s.log, addr) < 0 {
      var w := s'.log[|s.log|];
      assert s'.log[..|s.log|] == s.log;
      forall b: nat ensures Covered(s'.log, b) <==> Covered(s.log, b) || InRange(b, addr, |val|) {
        CoveredSnoc(s'.log, b);
        assert Covers(w, b) <==> InRange(b, addr, |val|);
      }
    }
  }

  lemma WriteOrigs(s: State, ks: set<nat>, mem0: Memory)
    requires s.mem.Keys == mem0.Keys && ks <= s.mem.Keys
    requires forall b :: b in mem0 && !Covered(s.log, b) ==> s.mem[b] == mem0[b]
    ensures Only(mem0, Bytes(s) + ks) == Only(s.mem, ks) + Only(mem0, Bytes(s))
  {
  }

  // A write the log can take back, with room for it, is one write of the
  // abstract log.
  lemma WriteRefines(s: State, addr: nat, val: seq<Byte>, howSoon: nat, mem0: Memory)
    requires Good(s, mem0) && s.enabled && LinuxWritesSpec.Mapped(s.mem, addr, |val|) && WriteOk(s, addr, |val|)
    requires DoWrite(s, addr, val, howSoon).1 == 0
    ensures Abs(DoWrite(s, addr, val, howSoon).0) == Write(Abs(s), Cells(s.mem, addr, val))
  {
    WriteKeepsGood(s, addr, val, howSoon, mem0);
    GoodAbs(s, mem0);
    GoodAbs(DoWrite(s, addr, val, howSoon).0, mem0);
    PokeIsMerge(s.mem, addr, val);
    WriteBytes(s, addr, val, howSoon);
    WriteOrigs(s, Cells(s.mem, addr, val).Keys, mem0);
  }

  lemma SwapRemoveCovers(log: seq<OneWrite>, i: nat, b: nat)
    requires i < |log|
    ensures var r := log[i := log[|log| - 1]][..|log| - 1];
            Covered(log, b) <==> Covered(r, b) || Covers(log[i], b)
  {
    var r := log[i := log[|log| - 1]][..|log| - 1];
    if Covered(log, b) && !Covers(log[i], b) {
      var j :| 0 <= j < |log| && Covers(log[j], b);
      SwapRemoveKeeps(log, i, j);
      CoveredMember(r, b);
    }
    if Covered(r, b) {
      SwapRemoveMember(log, i);
      CoveredMember(r, b);
      CoveredMember(log, b);
    }
  }

  lemma UndoOrigs(s: State, s': State, w: OneWrite, mem0: Memory)
    requires s.mem.Keys == s'.mem.Keys == mem0.Keys
    requires forall b :: b in mem0 ==> (Covered(s.log, b) <==> Covered(s'.log, b) || Covers(w, b))
    requires forall b :: b in mem0 ==> s'.mem[b] == if Covers(w, b) then mem0[b] else s.mem[b]
    ensures var ks := Cells(s.mem, w.addr, w.orig).Keys;
            && s'.mem == s.mem + Only(Only(mem0, Bytes(s)), ks)
            && Only(mem0, Bytes(s')) == Only(mem0, Bytes(s)) - (ks - Bytes(s'))
  {
  }

  lemma UndoCovers(s: State, addr: nat)
    requires LogMapped(s) && IndexOf(s.log, addr) >= 0
    ensures var log' := DoUndo(s, addr).0.log;
            forall b: nat :: Covered(s.log, b) <==> Covered(log', b) || Covers(s.log[IndexOf(s.log, addr)], b)
  {
    var i := IndexOf(s.log, addr);
    forall b: nat ensures Covered(s.log, b) <==> Covered(DoUndo(s, addr).0.log, b) || Covers(s.log[i], b) {
      SwapRemoveCovers(s.log, i, b);
    }
  }

  // An undo restores the range of one entry, and forgets the bytes no other
  // entry covers.
  lemma UndoRefines(s: State, addr: nat, mem0: Memory)
    requires Good(s, mem0) && s.enabled && IndexOf(s.log, addr) >= 0
    ensures LogMapped(s)
    ensures var s' := DoUndo(s, addr).0;
            var ks := Cells(s.mem, addr, s.log[IndexOf(s.log, addr)].orig).Keys;
            Abs(s') == Restore(Abs(s), ks, ks - Bytes(s'))
  {
    UndoKeepsGood(s, addr, mem0);
    UndoRestoresRange(s, addr, mem0);
    var i := IndexOf(s.log, addr);
    var s' := DoUndo(s, addr).0;
    GoodAbs(s, mem0);
    GoodAbs(s', mem0);
    UndoCovers(s, addr);
    UndoOrigs(s, s', s.log[i], mem0);
  }

  // ------------------------------------------------------------ runs

  datatype Call =
    | CallWrite(addr: nat, val: seq<Byte>, howSoon: nat)
    | CallZeroWrite(addr: nat, first: Byte, found: Byte, howSoon: nat)
    | CallUndo(addr: nat)
    | CallChange(addr: nat, howSoon: nat)

  ghost function Step(s: State, c: Call): State {
    match c
    case CallWrite(addr, val, howSoon) =>
      if LinuxWritesSpec.Mapped(s.mem, addr, |val|) then DoWrite(s, addr, val, howSoon).0 else s
    case CallZeroWrite(addr, first, found, howSoon) =>
      if LinuxWritesSpec.Mapped(s.mem, addr, 1) then DoZeroWrite(s, addr, first, found, howSoon).0 else s
    case CallUndo(addr) => if LogMapped(s) then DoUndo(s, addr).0 else s
    case CallChange(addr, howSoon) => DoChange(s, addr, howSoon).0
  }

  ghost function RunCalls(s: State, calls: seq<Call>): State
    decreases |calls|
  {
    if calls == [] then s else RunCalls(Step(s, calls[0]), calls[1..])
  }

  // A write goes to mapped memory, has a length the driver can store, and is one
  // the log can take back.
  ghost predicate CallOk(s: State, c: Call) {
    match c
    case CallWrite(addr, val, _) =>
      Writable(|val|) && LinuxWritesSpec.Mapped(s.mem, addr, |val|) && WriteOk(s, addr, |val|)
    case CallZeroWrite(addr, _, _, _) => LinuxWritesSpec.Mapped(s.mem, addr, 1) && ZeroWriteOk(s, addr)
    case _ => true
  }

  // Every write of the run is such a one at that point.
  ghost predicate AlwaysOk(s: State, calls: seq<Call>)
    decreases |calls|
  {
    calls != [] ==> CallOk(s, calls[0]) && AlwaysOk(Step(s, calls[0]), calls[1..])
  }

  lemma StepKeepsGood(s: State, c: Call, mem0: Memory)
    requires Good(s, mem0) && s.enabled
    requires CallOk(s, c)
    ensures Good(Step(s, c), mem0) && Step(s, c).enabled
  {
    match c
    case CallWrite(addr, val, howSoon) => WriteKeepsGood(s, addr, val, howSoon, mem0);
    case CallZeroWrite(addr, first, found, howSoon) => ZeroWriteKeepsGood(s, addr, first, found, howSoon, mem0);
    case CallUndo(addr) => UndoKeepsGood(s, addr, mem0);
    case CallChange(addr, howSoon) => ChangeKeepsGood(s, addr, howSoon, mem0);
  }

  lemma {:induction false} RunKeepsGood(s: State, calls: seq<Call>, mem0: Memory)
    requires Good(s, mem0) && s.enabled && AlwaysOk(s, calls)
    ensures Good(RunCalls(s, calls), mem0) && RunCalls(s, calls).enabled
    decreases |calls|
  {
    if calls != [] {
      StepKeepsGood(s, calls[0], mem0);
      RunKeepsGood(Step(s, calls[0]), calls[1..], mem0);
    }
  }

  // From open, after any run of such writes, undos and priority changes with
  // writes enabled, closing the device restores all of memory.
  lemma CloseRestores(mem0: Memory, calls: seq<Call>)
    requires AlwaysOk(State(mem0, [], true), calls)
    ensures var s := RunCalls(State(mem0, [], true), calls);
            LogMapped(s) && Destroyed(s) == mem0 && Opened(Abs(s)) == mem0
  {
    var s0 := State(mem0, [], true);
    RunKeepsGood(s0, calls, mem0);
    GoodRestores(RunCalls(s0, calls), mem0);
    GoodIsOverlay(RunCalls(s0, calls), mem0);
  }

  // Two habits that make every write one the log can take back: fresh ranges
  // meet no logged byte, and later writes are no longer than the first.
  lemma SimpleWritesOk(s: State, addr: nat, n: nat)
    requires LinuxWritesSpec.Mapped(s.mem, addr, n)
    requires var i := IndexOf(s.log, addr);
             if i >= 0 then n <= |s.log[i].orig| else forall b: nat :: InRange(b, addr, n) ==> !Covered(s.log, b)
    ensures WriteOk(s, addr, n)
  {
    var i := IndexOf(s.log, addr);
    if i >= 0 {
      forall b: nat | InRange(b, addr, n) ensures Covered(s.log, b) { assert Covers(s.log[i], b); }
    }
  }

  // ------------------------------------------------------------ exactly when

  lemma {:induction false} AfterAppend(x: Byte, a: seq<OneWrite>, c: seq<OneWrite>, b: nat)
    ensures After(x, a + c, b) == After(After(x, a, b), c, b)
  {
    if c == [] {
      assert a + c == a;
    } else {
      var n := |c| - 1;
      AfterAppend(x, a, c[..n], b);
      assert (a + c)[..|a| + n] == a + c[..n];
    }
  }

  lemma AfterSnoc(x: Byte, a: seq<OneWrite>, w: OneWrite, b: nat)
    ensures After(x, a + [w], b) == if Covers(w, b) then w.orig[b - w.addr] else After(x, a, b)
  {
    assert (a + [w])[..|a|] == a;
  }

  lemma TruthfulSelect(log: seq<OneWrite>, first: bool, mem0: Memory)
    requires Truthful(log, mem0)
    ensures Truthful(Select(log, first), mem0)
  {
    var ws := Select(log, first);
    forall i | 0 <= i < |ws| ensures ws[i] in log { SelectHolds(log, first, ws[i]); }
    TruthfulSubset(log, ws, mem0);
  }

  // Closing right after a write at a logged address restores memory exactly
  // when every byte written is logged or happens to be its byte at open.
  lemma LoggedWriteRestorableIff(s: State, addr: nat, val: seq<Byte>, howSoon: nat, mem0: Memory)
    requires Good(s, mem0) && s.enabled && Writable(|val|) && LinuxWritesSpec.Mapped(s.mem, addr, |val|) && IndexOf(s.log, addr) >= 0
    ensures var s' := DoWrite(s, addr, val, howSoon).0;
            && LogMapped(s')
            && (Destroyed(s') == mem0 <==>
                  forall b: nat :: InRange(b, addr, |val|) ==> Covered(s.log, b) || val[b - addr] == mem0[b])
  {
    GoodMapped(s, mem0);
    var s' := DoWrite(s, addr, val, howSoon).0;
    forall b | b in mem0
      ensures b in Destroyed(s')
      ensures Destroyed(s')[b] == if !Covered(s.log, b) && InRange(b, addr, |val|) then val[b - addr] else mem0[b]
    {
      LoggedCloses(s', mem0, b);
    }
    WrittenIff(Destroyed(s'), mem0, s.log, addr, val);
  }

  lemma LoggedCloses(s': State, mem0: Memory, b: nat)
    requires Truthful(s'.log, mem0) && LogMapped(s') && s'.enabled && b in mem0 && b in s'.mem
    ensures b in Destroyed(s') && Destroyed(s')[b] == if Covered(s'.log, b) then mem0[b] else s'.mem[b]
  {
    OrderTruthful(s'.log, mem0);
    DestroyedAt(s', b);
    AfterTruthful(s'.mem[b], UndoOrder(s'.log), mem0, b);
    OrderCovers(s'.log, b);
  }

  lemma WrittenIff(m: Memory, mem0: Memory, log: seq<OneWrite>, addr: nat, val: seq<Byte>)
    requires m.Keys == mem0.Keys && forall b: nat :: InRange(b, addr, |val|) ==> b in mem0
    requires forall b :: b in mem0 ==>
               m[b] == if !Covered(log, b) && InRange(b, addr, |val|) then val[b - addr] else mem0[b]
    ensures m == mem0 <==>
            forall b: nat :: InRange(b, addr, |val|) ==> Covered(log, b) || val[b - addr] == mem0[b]
  {
    SameIff(m, mem0);
  }

  lemma SameIff(m: Memory, n: Memory)
    requires m.Keys == n.Keys
    ensures m == n <==> forall b :: b in n ==> m[b] == n[b]
  {
  }

  lemma CoveredAppend(a: seq<OneWrite>, c: seq<OneWrite>, b: nat)
    ensures Covered(a + c, b) <==> Covered(a, b) || Covered(c, b)
  {
    CoveredMember(a, b);
    CoveredMember(c, b);
    CoveredMember(a + c, b);
  }

  // Where a new entry comes in the order of undoing.
  lemma OrderSnoc(log: seq<OneWrite>, w: OneWrite)
    ensures UndoOrder(log + [w]) ==
              if w.howSoon == 0 then (Select(log, true) + [w]) + Select(log, false) else UndoOrder(log) + [w]
  {
    assert (log + [w])[..|log|] == log;
  }

  // What closing leaves at byte b over x, right after a write that logged w.
  lemma FreshCloses(log: seq<OneWrite>, w: OneWrite, x: Byte, mem0: Memory, b: nat)
    requires Truthful(log, mem0) && b in mem0
    ensures After(x, UndoOrder(log + [w]), b) ==
              if Covers(w, b) && (w.howSoon != 0 || !Covered(Select(log, false), b)) then w.orig[b - w.addr]
              else if Covered(log, b) then mem0[b] else x
  {
    var a, c := Select(log, true), Select(log, false);
    OrderSnoc(log, w);
    OrderCovers(log, b);
    CoveredAppend(a, c, b);
    if w.howSoon == 0 {
      AfterAppend(x, a + [w], c, b);
      AfterSnoc(x, a, w, b);
      TruthfulSelect(log, true, mem0);
      TruthfulSelect(log, false, mem0);
      AfterTruthful(x, a, mem0, b);
      AfterTruthful(After(x, a + [w], b), c, mem0, b);
    } else {
      AfterSnoc(x, UndoOrder(log), w, b);
      OrderTruthful(log, mem0);
      AfterTruthful(x, UndoOrder(log), mem0, b);
    }
  }

  // Closing right after a fresh write restores memory exactly when every byte
  // of its range still has its value at open, or is undone again later, by an
  // entry of the second priority after this one of the first.
  lemma FreshWriteRestorableIff(s: State, addr: nat, val: seq<Byte>, howSoon: nat, mem0: Memory)
    requires Good(s, mem0) && s.enabled && Writable(|val|) && LinuxWritesSpec.Mapped(s.mem, addr, |val|)
    requires IndexOf(s.log, addr) < 0 && |s.log| < MAX_WRITES
    ensures var s' := DoWrite(s, addr, val, howSoon).0;
            && LogMapped(s')
            && (Destroyed(s') == mem0 <==>
                  forall b: nat :: InRange(b, addr, |val|) ==>
                    s.mem[b] == mem0[b] || (howSoon == 0 && Covered(Select(s.log, false), b)))
  {
    var s' := DoWrite(s, addr, val, howSoon).0;
    FreshMapped(s, addr, val, howSoon, mem0);
    forall b | b in mem0
      ensures Destroyed(s')[b] == mem0[b] <==>
                (InRange(b, addr, |val|) ==> s.mem[b] == mem0[b] || (howSoon == 0 && Covered(Select(s.log, false), b)))
    {
      FreshByte(s, addr, val, howSoon, mem0, b);
    }
    SameIff(Destroyed(s'), mem0);
  }

  lemma FreshMapped(s: State, addr: nat, val: seq<Byte>, howSoon: nat, mem0: Memory)
    requires Good(s, mem0) && LinuxWritesSpec.Mapped(s.mem, addr, |val|)
    ensures LogMapped(DoWrite(s, addr, val, howSoon).0)
  {
    GoodMapped(s, mem0);
  }

  lemma FreshByte(s: State, addr: nat, val: seq<Byte>, howSoon: nat, mem0: Memory, b: nat)
    requires Good(s, mem0) && s.enabled && LinuxWritesSpec.Mapped(s.mem, addr, |val|) && b in mem0
    requires IndexOf(s.log, addr) < 0 && |s.log| < MAX_WRITES
    requires LogMapped(DoWrite(s, addr, val, howSoon).0)
    ensures Destroyed(DoWrite(s, addr, val, howSoon).0)[b] == mem0[b] <==>
              (InRange(b, addr, |val|) ==> s.mem[b] == mem0[b] || (howSoon == 0 && Covered(Select(s.log, false), b)))
  {
    var s' := DoWrite(s, addr, val, howSoon).0;
    var w := OneWrite(addr, Peek(s.mem, addr, |val|), howSoon);
    assert InRange(b, addr, |val|) ==> w.orig[b - addr] == s.mem[addr + (b - addr)];
    assert s' == State(Poke(s.mem, addr, val), s.log + [w], true);
    DestroyedAt(s', b);
    FreshCloses(s.log, w, s'.mem[b], mem0, b);
    LateCovered(s.log, b);
    assert !Covered(s.log, b) ==> s.mem[b] == mem0[b];
  }

  lemma ZeroMapped(s: State, addr: nat, first: Byte, found: Byte, howSoon: nat, mem0: Memory)
    requires Good(s, mem0) && LinuxWritesSpec.Mapped(s.mem, addr, 1)
    ensures addr in mem0 && LogMapped(DoZeroWrite(s, addr, first, found, howSoon).0)
  {
    assert InRange(addr, addr, 1);
    GoodMapped(s, mem0);
  }

  lemma ZeroKeys(s: State, addr: nat, first: Byte, found: Byte, howSoon: nat, mem0: Memory)
    requires Good(s, mem0) && LinuxWritesSpec.Mapped(s.mem, addr, 1)
    requires LogMapped(DoZeroWrite(s, addr, first, found, howSoon).0)
    ensures Destroyed(DoZeroWrite(s, addr, first, found, howSoon).0).Keys == mem0.Keys
  {
  }

  // A memory that is mem0 but for one byte.
  lemma OneByteIff(m: Memory, mem0: Memory, addr: nat, x: Byte)
    requires addr in mem0 && m.Keys == mem0.Keys
    requires forall b :: b in mem0 ==> m[b] == if b == addr then x else mem0[b]
    ensures m == mem0 <==> x == mem0[addr]
  {
  }

  // Closing right after a write of length 0 at a new address restores memory
  // exactly when the byte found in its empty entry happens to be the byte at
  // open, or an entry undone later covers it.
  lemma ZeroWriteRestorableIff(s: State, addr: nat, first: Byte, found: Byte, howSoon: nat, mem0: Memory)
    requires Good(s, mem0) && s.enabled && LinuxWritesSpec.Mapped(s.mem, addr, 1)
    requires IndexOf(s.log, addr) < 0 && |s.log| < MAX_WRITES
    ensures addr in mem0
    ensures var s' := DoZeroWrite(s, addr, first, found, howSoon).0;
            && LogMapped(s')
            && (Destroyed(s') == mem0 <==>
                  found == mem0[addr] || (howSoon == 0 && Covered(Select(s.log, false), addr)))
  {
    ZeroMapped(s, addr, first, found, howSoon, mem0);
    var m := Destroyed(DoZeroWrite(s, addr, first, found, howSoon).0);
    var late := howSoon == 0 && Covered(Select(s.log, false), addr);
    forall b | b in mem0 ensures b in m && m[b] == if b == addr && !late then found else mem0[b] {
      ZeroByte(s, addr, first, found, howSoon, mem0, b);
    }
    ZeroKeys(s, addr, first, found, howSoon, mem0);
    OneByteIff(m, mem0, addr, if late then mem0[addr] else found);
  }

  lemma ZeroByte(s: State, addr: nat, first: Byte, found: Byte, howSoon: nat, mem0: Memory, b: nat)
    requires Good(s, mem0) && s.enabled && LinuxWritesSpec.Mapped(s.mem, addr, 1) && b in mem0
    requires IndexOf(s.log, addr) < 0 && |s.log| < MAX_WRITES
    requires LogMapped(DoZeroWrite(s, addr, first, found, howSoon).0)
    ensures b in Destroyed(DoZeroWrite(s, addr, first, found, howSoon).0)
    ensures Destroyed(DoZeroWrite(s, addr, first, found, howSoon).0)[b] ==
            if b == addr && !(howSoon == 0 && Covered(Select(s.log, false), addr)) then found else mem0[b]
  {
    var s' := DoZeroWrite(s, addr, first, found, howSoon).0;
    var w := OneWrite(addr, [found], howSoon);
    assert s' == State(Poke(s.mem, addr, [first]), s.log + [w], true);
    DestroyedAt(s', b);
    FreshCloses(s.log, w, s'.mem[b], mem0, b);
    LateCovered(s.log, b);
  }

  lemma LateCovered(log: seq<OneWrite>, b: nat)
    ensures Covered(Select(log, false), b) ==> Covered(log, b)
  {
    OrderCovers(log, b);
    CoveredAppend(Select(log, true), Select(log, false), b);
  }
}
