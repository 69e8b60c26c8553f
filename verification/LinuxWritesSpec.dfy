/** The Linux log of kernel text writes, on values: a flat list of byte ranges
with the bytes they held, found by start address and removed by swapping in the
last entry.

Memory is a map from address to byte.  The write-enable bit decides whether a
write reaches memory; the log is kept either way. */
module LinuxWritesSpec {
  import opened UndoLog

  const MAX_WRITES: nat := 1024
  const MAX_BYTES: nat := 16

  type Byte = b: int | 0 <= b < 256

  type Memory = map<nat, Byte>

  datatype OneWrite = OneWrite(addr: nat, orig: seq<Byte>, howSoon: nat)

  datatype State = State(mem: Memory, log: seq<OneWrite>, enabled: bool)

  // ------------------------------------------------------------ bytes

  predicate InRange(b: nat, addr: nat, n: nat) {
    addr <= b < addr + n
  }

  ghost predicate Mapped(mem: Memory, addr: nat, n: nat) {
    AllIn(addr, n, mem.Keys)
  }

  ghost predicate AllIn(addr: nat, n: nat, ks: set<nat>) {
    forall b :: InRange(b, addr, n) ==> b in ks
  }

  function Poke(mem: Memory, addr: nat, bytes: seq<Byte>): (m: Memory)
    requires Mapped(mem, addr, |bytes|)
    ensures m.Keys == mem.Keys
    ensures forall b :: b in mem ==> m[b] == if InRange(b, addr, |bytes|) then bytes[b - addr] else mem[b]
  {
    map b | b in mem :: if InRange(b, addr, |bytes|) then bytes[b - addr] else mem[b]
  }

  function Peek(mem: Memory, addr: nat, n: nat): (bytes: seq<Byte>)
    requires Mapped(mem, addr, n)
    ensures |bytes| == n && forall j :: 0 <= j < n ==> bytes[j] == mem[addr + j]
  {
    seq(n, j requires 0 <= j < n => mem[addr + j])
  }

  // ------------------------------------------------------------ operations

  // The first entry for this start address, or -1.
  function IndexOf(log: seq<OneWrite>, addr: nat): (i: int)
    ensures -1 <= i < |log|
    ensures i >= 0 ==> log[i].addr == addr
    ensures forall j :: 0 <= j < |log| && (j < i || i < 0) ==> log[j].addr != addr
  {
    if log == [] then -1
    else if log[0].addr == addr then 0
    else var i := IndexOf(log[1..], addr); if i < 0 then -1 else i + 1
  }

  function DoWrite(s: State, addr: nat, val: seq<Byte>, howSoon: nat): (State, int)
    requires Mapped(s.mem, addr, |val|)
  {
    var isNew := IndexOf(s.log, addr) < 0;
    if isNew && |s.log| == MAX_WRITES then (s, 1)
    else
      (State(if s.enabled then Poke(s.mem, addr, val) else s.mem,
             if isNew then s.log + [OneWrite(addr, Peek(s.mem, addr, |val|), howSoon)] else s.log,
             s.enabled),
       0)
  }

  // The lengths for which the driver stores exactly the bytes given.  A longer
  // write overruns its 16-byte buffers and has no defined effect.
  predicate Writable(n: nat) { 1 <= n <= MAX_BYTES }

  // A write of length 0 stores the first byte of its buffer all the same.  The
  // entry logged for it holds nothing, and undoing it stores the byte found
  // there: as far as memory goes, a one-byte entry with that byte.
  function DoZeroWrite(s: State, addr: nat, first: Byte, found: Byte, howSoon: nat): (State, int)
    requires Mapped(s.mem, addr, 1)
  {
    var isNew := IndexOf(s.log, addr) < 0;
    if isNew && |s.log| == MAX_WRITES then (s, 1)
    else
      (State(if s.enabled then Poke(s.mem, addr, [first]) else s.mem,
             if isNew then s.log + [OneWrite(addr, [found], howSoon)] else s.log,
             s.enabled),
       0)
  }

  function DoUndo(s: State, addr: nat): (State, int)
    requires LogMapped(s)
  {
    var i := IndexOf(s.log, addr);
    if i < 0 then (s, 1)
    else
      var last := |s.log| - 1;
      (State(if s.enabled then Poke(s.mem, addr, s.log[i].orig) else s.mem,
             s.log[i := s.log[last]][..last],
             s.enabled),
       0)
  }

  function DoChange(s: State, addr: nat, howSoon: nat): (State, int) {
    var i := IndexOf(s.log, addr);
    if i < 0 then (s, 1) else (s.(log := s.log[i := s.log[i].(howSoon := howSoon)]), 0)
  }

  // The entries of one undo priority, in log order.
  function Select(log: seq<OneWrite>, first: bool): seq<OneWrite> {
    if log == [] then []
    else
      var n := |log| - 1;
      Select(log[..n], first) + (if (log[n].howSoon == 0) == first then [log[n]] else [])
  }

  // The order in which closing the device undoes the log.
  function UndoOrder(log: seq<OneWrite>): seq<OneWrite> {
    Select(log, true) + Select(log, false)
  }

  ghost predicate AllMapped(mem: Memory, ws: seq<OneWrite>) {
    forall i :: 0 <= i < |ws| ==> Mapped(mem, ws[i].addr, |ws[i].orig|)
  }

  ghost predicate LogMapped(s: State) {
    AllMapped(s.mem, s.log)
  }

  // Writing back a list of entries, one after the other.
  function PokeAll(mem: Memory, ws: seq<OneWrite>): (m: Memory)
    requires AllMapped(mem, ws)
    ensures m.Keys == mem.Keys
  {
    if ws == [] then mem
    else
      var n := |ws| - 1;
      Poke(PokeAll(mem, ws[..n]), ws[n].addr, ws[n].orig)
  }

  // Memory after destroy_logged_writes.
  function Destroyed(s: State): Memory
    requires LogMapped(s)
  {
    SelectMapped(s.mem, s.log, true);
    SelectMapped(s.mem, s.log, false);
    if s.enabled then PokeAll(s.mem, UndoOrder(s.log)) else s.mem
  }

  lemma {:induction false} SelectHolds(log: seq<OneWrite>, first: bool, w: OneWrite)
    ensures w in Select(log, first) <==> w in log && (w.howSoon == 0) == first
  {
    if log != [] {
      var n := |log| - 1;
      SelectHolds(log[..n], first, w);
      assert log == log[..n] + [log[n]];
    }
  }

  lemma SelectMapped(mem: Memory, log: seq<OneWrite>, first: bool)
    requires AllMapped(mem, log)
    ensures AllMapped(mem, Select(log, first))
  {
    var ws := Select(log, first);
    forall i | 0 <= i < |ws| ensures Mapped(mem, ws[i].addr, |ws[i].orig|) { SelectHolds(log, first, ws[i]); }
  }

  // The whole log is undone, nothing else, and every entry with howsoon 0
  // before any other.
  lemma UndoOrderComplete(log: seq<OneWrite>, w: OneWrite)
    ensures w in UndoOrder(log) <==> w in log
    ensures var o := UndoOrder(log);
            forall i, j :: 0 <= i < j < |o| && o[j].howSoon == 0 ==> o[i].howSoon == 0
    ensures |UndoOrder(log)| == |log|
  {
    SelectHolds(log, true, w);
    SelectHolds(log, false, w);
    SelectCount(log);
    var a, b := Select(log, true), Select(log, false);
    forall i | 0 <= i < |a| ensures a[i].howSoon == 0 { SelectHolds(log, true, a[i]); }
    forall i | 0 <= i < |b| ensures b[i].howSoon != 0 { SelectHolds(log, false, b[i]); }
  }

  // Entries of one priority are undone in the order of the list: the selection
  // of a list is the selection of its first part, then of the rest.
  lemma {:induction false} SelectInOrder(a: seq<OneWrite>, b: seq<OneWrite>, first: bool)
    ensures Select(a + b, first) == Select(a, first) + Select(b, first)
    decreases |b|
  {
    if b == [] {
      assert a + b == a;
    } else {
      var n := |b| - 1;
      assert (a + b)[..|a| + n] == a + b[..n];
      SelectInOrder(a, b[..n], first);
    }
  }

  // Closing with writing disabled leaves memory as it is.
  lemma CloseDisabled(s: State)
    requires LogMapped(s) && !s.enabled
    ensures Destroyed(s) == s.mem
  {
  }

  lemma {:induction false} SelectCount(log: seq<OneWrite>)
    ensures |Select(log, true)| + |Select(log, false)| == |log|
  {
    if log != [] { SelectCount(log[..|log| - 1]); }
  }

  // ------------------------------------------------------------ the invariant

  ghost predicate Covers(w: OneWrite, b: nat) {
    InRange(b, w.addr, |w.orig|)
  }

  ghost predicate Covered(ws: seq<OneWrite>, b: nat) {
    exists i :: 0 <= i < |ws| && Covers(ws[i], b)
  }

  // Every logged byte is the one memory held at open.
  ghost predicate Truthful(ws: seq<OneWrite>, mem0: Memory) {
    forall i, b: nat :: 0 <= i < |ws| && Covers(ws[i], b) ==> b in mem0 && ws[i].orig[b - ws[i].addr] == mem0[b]
  }

  // What a good log keeps: its entries are truthful, and bytes under none of
  // them are as they were at open.  Ranges may overlap.
  ghost predicate Good(s: State, mem0: Memory) {
    && s.mem.Keys == mem0.Keys && |s.log| <= MAX_WRITES
    && Truthful(s.log, mem0)
    && (forall b :: b in mem0 && !Covered(s.log, b) ==> s.mem[b] == mem0[b])
  }

  lemma GoodMapped(s: State, mem0: Memory)
    requires Good(s, mem0)
    ensures LogMapped(s)
  {
    forall i | 0 <= i < |s.log| ensures Mapped(s.mem, s.log[i].addr, |s.log[i].orig|) {
      forall b | InRange(b, s.log[i].addr, |s.log[i].orig|) ensures b in s.mem { assert Covers(s.log[i], b); }
    }
  }

  // What byte b holds after writing entries back over x: the last to cover it
  // decides.
  ghost function After(x: Byte, ws: seq<OneWrite>, b: nat): Byte {
    if ws == [] then x
    else
      var n := |ws| - 1;
      if Covers(ws[n], b) then ws[n].orig[b - ws[n].addr] else After(x, ws[..n], b)
  }

  lemma {:induction false} PokeAllAt(mem: Memory, ws: seq<OneWrite>, b: nat)
    requires AllMapped(mem, ws) && b in mem
    ensures PokeAll(mem, ws)[b] == After(mem[b], ws, b)
  {
    if ws != [] { PokeAllAt(mem, ws[..|ws| - 1], b); }
  }

  // Writing truthful entries back, in any order, restores every byte under one
  // of them and touches no other.
  lemma {:induction false} AfterTruthful(x: Byte, ws: seq<OneWrite>, mem0: Memory, b: nat)
    requires Truthful(ws, mem0) && b in mem0
    ensures After(x, ws, b) == if Covered(ws, b) then mem0[b] else x
  {
    if ws != [] {
      var n := |ws| - 1;
      AfterTruthful(x, ws[..n], mem0, b);
      CoveredSnoc(ws, b);
    }
  }

  // What closing the device leaves at byte b.
  lemma DestroyedAt(s: State, b: nat)
    requires LogMapped(s) && b in s.mem && s.enabled
    ensures b in Destroyed(s) && Destroyed(s)[b] == After(s.mem[b], UndoOrder(s.log), b)
  {
    SelectMapped(s.mem, s.log, true);
    SelectMapped(s.mem, s.log, false);
    PokeAllAt(s.mem, UndoOrder(s.log), b);
  }

  lemma OrderTruthful(log: seq<OneWrite>, mem0: Memory)
    requires Truthful(log, mem0)
    ensures Truthful(UndoOrder(log), mem0)
  {
    var o := UndoOrder(log);
    forall i | 0 <= i < |o| ensures o[i] in log { UndoOrderComplete(log, o[i]); }
    TruthfulSubset(log, o, mem0);
  }

  lemma CoveredSnoc(ws: seq<OneWrite>, b: nat)
    requires ws != []
    ensures var n := |ws| - 1; Covered(ws, b) <==> Covered(ws[..n], b) || Covers(ws[n], b)
  {
    var n := |ws| - 1;
    if Covered(ws[..n], b) {
      var i :| 0 <= i < n && Covers(ws[..n][i], b);
      assert Covers(ws[i], b);
    }
    if Covered(ws, b) && !Covers(ws[n], b) {
      var i :| 0 <= i < |ws| && Covers(ws[i], b);
      assert Covers(ws[..n][i], b);
    }
  }

  lemma CoveredMember(ws: seq<OneWrite>, b: nat)
    ensures Covered(ws, b) <==> exists w :: w in ws && Covers(w, b)
  {
    if w :| w in ws && Covers(w, b) { var i :| 0 <= i < |ws| && ws[i] == w; }
  }

  lemma OrderCovers(log: seq<OneWrite>, b: nat)
    ensures Covered(UndoOrder(log), b) <==> Covered(log, b)
  {
    CoveredMember(log, b);
    CoveredMember(UndoOrder(log), b);
    forall w ensures w in UndoOrder(log) <==> w in log { UndoOrderComplete(log, w); }
  }

  lemma TruthfulSubset(ws: seq<OneWrite>, us: seq<OneWrite>, mem0: Memory)
    requires Truthful(ws, mem0) && forall i :: 0 <= i < |us| ==> us[i] in ws
    ensures Truthful(us, mem0)
  {
    forall i, b: nat | 0 <= i < |us| && Covers(us[i], b)
      ensures b in mem0 && us[i].orig[b - us[i].addr] == mem0[b]
    {
      var j :| 0 <= j < |ws| && ws[j] == us[i];
      assert Covers(ws[j], b);
    }
  }

  // Closing the device on a good log, writes enabled, gives back the memory at
  // open.
  lemma GoodRestores(s: State, mem0: Memory)
    requires Good(s, mem0) && s.enabled
    ensures LogMapped(s) && Destroyed(s) == mem0
  {
    GoodMapped(s, mem0);
    OrderTruthful(s.log, mem0);
    forall b | b in mem0 ensures Destroyed(s)[b] == mem0[b] {
      DestroyedAt(s, b);
      AfterTruthful(s.mem[b], UndoOrder(s.log), mem0, b);
      OrderCovers(s.log, b);
    }
  }

  // ------------------------------------------------------------ each step

  // A write the log can take back: a fresh range overlaps logged bytes only
  // where memory still holds their originals, and a write at a logged address
  // stays within logged bytes.
  ghost predicate WriteOk(s: State, addr: nat, n: nat)
    requires Mapped(s.mem, addr, n)
  {
    if IndexOf(s.log, addr) >= 0 then
      !s.enabled || forall b: nat :: InRange(b, addr, n) ==> Covered(s.log, b)
    else
      |s.log| == MAX_WRITES || forall b: nat :: InRange(b, addr, n) && Covered(s.log, b) ==> AtOriginal(s, b)
  }

  // Byte b holds what every entry over it logged.
  ghost predicate AtOriginal(s: State, b: nat)
    requires b in s.mem
  {
    forall i :: 0 <= i < |s.log| && Covers(s.log[i], b) ==> s.log[i].orig[b - s.log[i].addr] == s.mem[b]
  }

  lemma AtOriginalIff(s: State, mem0: Memory, b: nat)
    requires Good(s, mem0) && b in mem0
    ensures (Covered(s.log, b) ==> AtOriginal(s, b)) <==> s.mem[b] == mem0[b]
  {
    if Covered(s.log, b) { var i :| 0 <= i < |s.log| && Covers(s.log[i], b); }
  }

  lemma TruthfulSnoc(ws: seq<OneWrite>, w: OneWrite, mem0: Memory)
    ensures Truthful(ws + [w], mem0) <==>
              Truthful(ws, mem0) && forall b: nat :: Covers(w, b) ==> b in mem0 && w.orig[b - w.addr] == mem0[b]
  {
    var us := ws + [w];
    if Truthful(us, mem0) {
      forall i | 0 <= i < |ws| ensures ws[i] in us { assert us[i] == ws[i]; }
      TruthfulSubset(us, ws, mem0);
      forall b: nat | Covers(w, b) ensures b in mem0 && w.orig[b - w.addr] == mem0[b] { assert Covers(us[|ws|], b); }
    }
  }

  lemma WriteLoggedKeepsGood(s: State, addr: nat, val: seq<Byte>, mem0: Memory)
    requires Good(s, mem0) && Mapped(s.mem, addr, |val|)
    requires forall b: nat :: InRange(b, addr, |val|) ==> Covered(s.log, b)
    ensures Good(s.(mem := Poke(s.mem, addr, val)), mem0)
  {
  }

  lemma LogFreshKeepsGood(s: State, w: OneWrite, mem0: Memory)
    requires Good(s, mem0) && |s.log| < MAX_WRITES
    requires forall b: nat :: Covers(w, b) ==> b in mem0 && w.orig[b - w.addr] == mem0[b]
    ensures Good(s.(log := s.log + [w]), mem0)
    ensures forall b: nat :: Covers(w, b) ==> Covered(s.log + [w], b)
  {
    var log' := s.log + [w];
    TruthfulSnoc(s.log, w, mem0);
    assert log'[..|s.log|] == s.log;
    forall b: nat ensures Covered(log', b) <==> Covered(s.log, b) || Covers(w, b) { CoveredSnoc(log', b); }
  }

  // From a good log, a write the log can take back leaves a good log, whatever
  // the bytes written.
  lemma WriteKeepsGood(s: State, addr: nat, val: seq<Byte>, howSoon: nat, mem0: Memory)
    requires Good(s, mem0) && Mapped(s.mem, addr, |val|) && WriteOk(s, addr, |val|)
    ensures Good(DoWrite(s, addr, val, howSoon).0, mem0)
  {
    if IndexOf(s.log, addr) >= 0 {
      if s.enabled { WriteLoggedKeepsGood(s, addr, val, mem0); }
    } else if |s.log| < MAX_WRITES {
      var w := OneWrite(addr, Peek(s.mem, addr, |val|), howSoon);
      forall b: nat | Covers(w, b) ensures b in mem0 && w.orig[b - addr] == mem0[b] {
        assert w.orig[b - addr] == s.mem[addr + (b - addr)];
        AtOriginalIff(s, mem0, b);
      }
      LogFreshKeepsGood(s, w, mem0);
      if s.enabled {
        forall b: nat | InRange(b, addr, |val|) ensures Covered(s.log + [w], b) { assert Covers(w, b); }
        WriteLoggedKeepsGood(s.(log := s.log + [w]), addr, val, mem0);
      }
    }
  }

  // Otherwise some bytes, of the same length, leave a log that is not good: a
  // byte outside the log is changed for good,
  lemma LongWriteBreaks(s: State, addr: nat, val: seq<Byte>, howSoon: nat, b: nat, mem0: Memory)
    requires Good(s, mem0) && Mapped(s.mem, addr, |val|) && s.enabled && IndexOf(s.log, addr) >= 0
    requires InRange(b, addr, |val|) && !Covered(s.log, b) && val[b - addr] != s.mem[b]
    ensures !Good(DoWrite(s, addr, val, howSoon).0, mem0)
  {
    assert DoWrite(s, addr, val, howSoon).0.mem[b] == val[b - addr];
  }

  // or a changed byte is logged as if it were the original.
  lemma OverlapBreaks(s: State, addr: nat, val: seq<Byte>, howSoon: nat, b: nat, mem0: Memory)
    requires Good(s, mem0) && Mapped(s.mem, addr, |val|) && IndexOf(s.log, addr) < 0 && |s.log| < MAX_WRITES
    requires InRange(b, addr, |val|) && b in mem0 && s.mem[b] != mem0[b]
    ensures !Good(DoWrite(s, addr, val, howSoon).0, mem0)
  {
    var w := OneWrite(addr, Peek(s.mem, addr, |val|), howSoon);
    assert w.orig[b - addr] == s.mem[addr + (b - addr)];
    LastUntruthful(s.log, w, b, mem0);
    assert DoWrite(s, addr, val, howSoon).0.log == s.log + [w];
  }

  lemma LastUntruthful(log: seq<OneWrite>, w: OneWrite, b: nat, mem0: Memory)
    requires Covers(w, b) && b in mem0 && w.orig[b - w.addr] != mem0[b]
    ensures !Truthful(log + [w], mem0)
  {
    TruthfulSnoc(log, w, mem0);
  }

  // So a write keeps the log good for all bytes of its length exactly when the
  // log can take it back.
  lemma WriteKeepsGoodIff(s: State, addr: nat, n: nat, howSoon: nat, mem0: Memory)
    requires Good(s, mem0) && Mapped(s.mem, addr, n) && Writable(n)
    ensures (forall val: seq<Byte> :: |val| == n ==> Good(DoWrite(s, addr, val, howSoon).0, mem0)) <==> WriteOk(s, addr, n)
  {
    if WriteOk(s, addr, n) {
      forall val: seq<Byte> | |val| == n ensures Good(DoWrite(s, addr, val, howSoon).0, mem0) {
        WriteKeepsGood(s, addr, val, howSoon, mem0);
      }
    } else {
      var val := Flipped(s.mem, addr, n);
      if IndexOf(s.log, addr) >= 0 {
        var b: nat :| InRange(b, addr, n) && !Covered(s.log, b);
        LongWriteBreaks(s, addr, val, howSoon, b, mem0);
      } else {
        var b: nat :| InRange(b, addr, n) && Covered(s.log, b) && !AtOriginal(s, b);
        AtOriginalIff(s, mem0, b);
        OverlapBreaks(s, addr, val, howSoon, b, mem0);
      }
    }
  }

  // A write of length 0 the log can take back: one at a logged address, or one
  // that a full log refuses.
  ghost predicate ZeroWriteOk(s: State, addr: nat) {
    if IndexOf(s.log, addr) >= 0 then !s.enabled || Covered(s.log, addr) else |s.log| == MAX_WRITES
  }

  lemma ZeroWriteKeepsGood(s: State, addr: nat, first: Byte, found: Byte, howSoon: nat, mem0: Memory)
    requires Good(s, mem0) && Mapped(s.mem, addr, 1) && ZeroWriteOk(s, addr)
    ensures Good(DoZeroWrite(s, addr, first, found, howSoon).0, mem0)
  {
    if IndexOf(s.log, addr) >= 0 && s.enabled { WriteLoggedKeepsGood(s, addr, [first], mem0); }
  }

  // No other write of length 0 leaves a good log whatever the two bytes are.
  lemma ZeroWriteKeepsGoodIff(s: State, addr: nat, howSoon: nat, mem0: Memory)
    requires Good(s, mem0) && Mapped(s.mem, addr, 1)
    ensures (forall first: Byte, found: Byte :: Good(DoZeroWrite(s, addr, first, found, howSoon).0, mem0))
       <==> ZeroWriteOk(s, addr)
  {
    if ZeroWriteOk(s, addr) {
      forall first: Byte, found: Byte ensures Good(DoZeroWrite(s, addr, first, found, howSoon).0, mem0) {
        ZeroWriteKeepsGood(s, addr, first, found, howSoon, mem0);
      }
    } else {
      assert InRange(addr, addr, 1);
      var other: Byte := (mem0[addr] as int + 1) % 256;
      ZeroWriteBreaks(s, addr, other, howSoon, mem0);
    }
  }

  lemma ZeroWriteBreaks(s: State, addr: nat, other: Byte, howSoon: nat, mem0: Memory)
    requires Good(s, mem0) && Mapped(s.mem, addr, 1) && addr in mem0 && other != mem0[addr] && !ZeroWriteOk(s, addr)
    ensures !Good(DoZeroWrite(s, addr, other, other, howSoon).0, mem0)
  {
    var s' := DoZeroWrite(s, addr, other, other, howSoon).0;
    if IndexOf(s.log, addr) >= 0 {
      assert s'.log == s.log && s'.mem[addr] == other;
    } else {
      var w := OneWrite(addr, [other], howSoon);
      LastUntruthful(s.log, w, addr, mem0);
      assert s'.log == s.log + [w];
    }
  }

  // Bytes that differ from memory everywhere.
  ghost function Flipped(mem: Memory, addr: nat, n: nat): (val: seq<Byte>)
    requires Mapped(mem, addr, n)
    ensures |val| == n && forall b: nat :: InRange(b, addr, n) ==> val[b - addr] != mem[b]
  {
    var val := seq(n, j requires 0 <= j < n => (mem[addr + j] as int + 1) % 256);
    assert forall b: nat :: InRange(b, addr, n) ==> val[b - addr] == (mem[addr + (b - addr)] as int + 1) % 256;
    val
  }

  lemma PokeTruthful(mem: Memory, w: OneWrite, mem0: Memory, b: nat)
    requires mem.Keys == mem0.Keys && Mapped(mem, w.addr, |w.orig|) && Truthful([w], mem0) && b in mem0
    ensures Poke(mem, w.addr, w.orig)[b] == if Covers(w, b) then mem0[b] else mem[b]
  {
    assert Covers([w][0], b) ==> [w][0].orig[b - w.addr] == mem0[b];
  }

  // An undo gives the whole range of its entry the bytes it had at open, and
  // touches no other byte.
  lemma UndoRestoresRange(s: State, addr: nat, mem0: Memory)
    requires Good(s, mem0) && s.enabled && IndexOf(s.log, addr) >= 0
    ensures LogMapped(s)
    ensures var w, mem' := s.log[IndexOf(s.log, addr)], DoUndo(s, addr).0.mem;
            mem'.Keys == mem0.Keys && forall b :: b in mem0 ==> mem'[b] == if Covers(w, b) then mem0[b] else s.mem[b]
  {
    GoodMapped(s, mem0);
    var w := s.log[IndexOf(s.log, addr)];
    TruthfulSubset(s.log, [w], mem0);
    forall b | b in mem0 ensures Poke(s.mem, addr, w.orig)[b] == if Covers(w, b) then mem0[b] else s.mem[b] {
      PokeTruthful(s.mem, w, mem0, b);
    }
  }

  // It keeps the log good: the swap with the last entry loses no other entry.
  lemma UndoKeepsGood(s: State, addr: nat, mem0: Memory)
    requires Good(s, mem0) && s.enabled
    ensures LogMapped(s) && Good(DoUndo(s, addr).0, mem0)
  {
    GoodMapped(s, mem0);
    var i := IndexOf(s.log, addr);
    if i >= 0 {
      UndoRestoresRange(s, addr, mem0);
      UndoneKeepsGood(s, i, DoUndo(s, addr).0.mem, mem0);
      UndoIs(s, addr, i);
    }
  }

  lemma UndoIs(s: State, addr: nat, i: nat)
    requires LogMapped(s) && i == IndexOf(s.log, addr)
    ensures i < |s.log|
    ensures DoUndo(s, addr).0 ==
            State(DoUndo(s, addr).0.mem, s.log[i := s.log[|s.log| - 1]][..|s.log| - 1], s.enabled)
  {
  }

  lemma UndoneKeepsGood(s: State, i: nat, mem': Memory, mem0: Memory)
    requires Good(s, mem0) && i < |s.log| && mem'.Keys == mem0.Keys
    requires forall b :: b in mem0 ==> mem'[b] == if Covers(s.log[i], b) then mem0[b] else s.mem[b]
    ensures Good(State(mem', s.log[i := s.log[|s.log| - 1]][..|s.log| - 1], s.enabled), mem0)
  {
    UndoLogKeepsGood(s.(mem := mem'), i, mem0);
  }

  // Forgetting an entry whose range is restored, by swapping in the last.
  lemma UndoLogKeepsGood(s: State, i: nat, mem0: Memory)
    requires i < |s.log| <= MAX_WRITES && s.mem.Keys == mem0.Keys && Truthful(s.log, mem0)
    requires forall b :: b in mem0 && (Covers(s.log[i], b) || !Covered(s.log, b)) ==> s.mem[b] == mem0[b]
    ensures Good(s.(log := s.log[i := s.log[|s.log| - 1]][..|s.log| - 1]), mem0)
  {
    var log' := s.log[i := s.log[|s.log| - 1]][..|s.log| - 1];
    SwapRemoveMember(s.log, i);
    TruthfulSubset(s.log, log', mem0);
    forall b | b in mem0 && !Covered(log', b) ensures s.mem[b] == mem0[b] {
      if Covered(s.log, b) && !Covers(s.log[i], b) {
        var j :| 0 <= j < |s.log| && Covers(s.log[j], b);
        SwapRemoveKeeps(s.log, i, j);
        CoveredMember(log', b);
      }
    }
  }

  lemma SwapRemoveMember(log: seq<OneWrite>, i: nat)
    requires i < |log|
    ensures var r := log[i := log[|log| - 1]][..|log| - 1]; forall j :: 0 <= j < |r| ==> r[j] in log
  {
  }

  lemma SwapRemoveKeeps(log: seq<OneWrite>, i: nat, j: nat)
    requires i < |log| && j < |log| && i != j
    ensures log[j] in log[i := log[|log| - 1]][..|log| - 1]
  {
    var r := log[i := log[|log| - 1]][..|log| - 1];
    if j < |log| - 1 { assert r[j] == log[j]; } else { assert r[i] == log[j]; }
  }

  lemma ChangeKeepsGood(s: State, addr: nat, howSoon: nat, mem0: Memory)
    requires Good(s, mem0)
    ensures Good(DoChange(s, addr, howSoon).0, mem0)
  {
    var i := IndexOf(s.log, addr);
    if i >= 0 {
      RelabelTruthful(s.log, i, howSoon, mem0);
      forall b ensures Covered(DoChange(s, addr, howSoon).0.log, b) <==> Covered(s.log, b) {
        RelabelCovers(s.log, i, howSoon, b);
      }
    }
  }

  lemma RelabelTruthful(log: seq<OneWrite>, i: nat, howSoon: nat, mem0: Memory)
    requires i < |log| && Truthful(log, mem0)
    ensures Truthful(log[i := log[i].(howSoon := howSoon)], mem0)
  {
    var log' := log[i := log[i].(howSoon := howSoon)];
    forall j, b: nat | 0 <= j < |log'| && Covers(log'[j], b)
      ensures b in mem0 && log'[j].orig[b - log'[j].addr] == mem0[b]
    {
      assert Covers(log[j], b);
    }
  }

  lemma RelabelCovers(log: seq<OneWrite>, i: nat, howSoon: nat, b: nat)
    requires i < |log|
    ensures Covered(log[i := log[i].(howSoon := howSoon)], b) <==> Covered(log, b)
  {
    var log' := log[i := log[i].(howSoon := howSoon)];
    if j :| 0 <= j < |log| && Covers(log[j], b) { assert Covers(log'[j], b); }
    if j :| 0 <= j < |log'| && Covers(log'[j], b) { assert Covers(log[j], b); }
  }
}
