/** The Linux log of kernel text writes in memory: the fixed array of entries,
and the padded writes of the i386 driver.

A locked compare-and-exchange whose expected value was just read from the same
place is taken to succeed, as the driver takes it. */
module LinuxWrites {
  import opened LinuxWritesSpec

  // How many bytes a write of n bytes really stores.
  function Window(n: nat): (w: nat)
    requires 1 <= n <= MAX_BYTES
    ensures n <= w <= MAX_BYTES
  {
    if n == 1 then 1 else if n <= 4 then 4 else if n <= 8 then 8 else 16
  }

  // How many of its bytes a write of this length leaves in memory.
  function Stored(length: nat): nat {
    if length == 0 then 1 else length
  }

  lemma MappedPart(mem: Memory, addr: nat, n: nat, a: nat, m: nat)
    requires Mapped(mem, addr, n) && addr <= a && a + m <= addr + n
    ensures Mapped(mem, a, m)
  {
    forall b: nat | InRange(b, a, m) ensures b in mem { assert InRange(b, addr, n); }
  }

  // Bytes written back as they were change nothing.
  lemma PokePadded(mem: Memory, addr: nat, val: seq<Byte>, buff: seq<Byte>)
    requires |val| <= |buff| && Mapped(mem, addr, |buff|) && buff[..|val|] == val
    requires forall j :: |val| <= j < |buff| ==> addr + j in mem && buff[j] == mem[addr + j]
    ensures Mapped(mem, addr, |val|) && Poke(mem, addr, buff) == Poke(mem, addr, val)
  {
    MappedPart(mem, addr, |buff|, addr, |val|);
    forall b | b in mem ensures Poke(mem, addr, buff)[b] == Poke(mem, addr, val)[b] {
      if InRange(b, addr, |buff|) {
        if InRange(b, addr, |val|) { assert buff[b - addr] == val[b - addr]; }
        else { assert buff[b - addr] == mem[addr + (b - addr)]; }
      }
    }
  }

  // Two stores, one after the other, are one store of both.
  lemma PokeSplit(mem: Memory, addr: nat, buff: seq<Byte>, k: nat)
    requires k <= |buff| && Mapped(mem, addr, |buff|)
    ensures Mapped(mem, addr, k) && Mapped(mem, addr + k, |buff| - k)
    ensures Poke(Poke(mem, addr, buff[..k]), addr + k, buff[k..]) == Poke(mem, addr, buff)
  {
    MappedPart(mem, addr, |buff|, addr, k);
    MappedPart(mem, addr, |buff|, addr + k, |buff| - k);
    forall b | b in mem
      ensures Poke(Poke(mem, addr, buff[..k]), addr + k, buff[k..])[b] == Poke(mem, addr, buff)[b]
    {
    }
  }

  // Memory after writing entries back, when writes are enabled.
  ghost function WrittenBack(enabled: bool, mem: Memory, ws: seq<OneWrite>): Memory
    requires AllMapped(mem, ws)
  {
    if enabled then PokeAll(mem, ws) else mem
  }

  class LoggedWrites {
    const writes: array<OneWrite>
    var num: nat
    var mem: Memory
    var enabled: bool

    ghost predicate Valid()
      reads this, writes
    {
      && writes.Length == MAX_WRITES && num <= MAX_WRITES
      && (forall i :: 0 <= i < num ==> Windowed(mem, writes[i].addr, |writes[i].orig|))
    }

    // A range the driver can write: 1 to 16 bytes, with room for the padding.
    static ghost predicate Windowed(mem: Memory, addr: nat, n: nat) {
      1 <= n <= MAX_BYTES && Mapped(mem, addr, Window(n))
    }

    ghost function Now(): State
      reads this, writes
      requires num <= writes.Length
    {
      State(mem, writes[..num], enabled)
    }

    constructor (mem0: Memory)
      ensures Valid() && Now() == State(mem0, [], true)
    {
      writes := new OneWrite[MAX_WRITES](_ => OneWrite(0, [], 0));
      num, mem, enabled := 0, mem0, true;
    }

    // do_atomic_write: the padding copied from memory is stored back unchanged,
    // so only the bytes given are written.
    method DoAtomicWrite(to: nat, val: seq<Byte>)
      requires 2 <= |val| && Windowed(mem, to, |val|)
      modifies this`mem
      ensures Mapped(old(mem), to, |val|) && mem == Poke(old(mem), to, val)
    {
      var buff := new Byte[MAX_BYTES](_ => 0);
      var n, i := |val|, 0;
      while i < n
        invariant i <= n && mem == old(mem) && forall j :: 0 <= j < i ==> buff[j] == val[j]
      {
        buff[i] := val[i];
        i := i + 1;
      }
      var writeLength := 4;
      if n > writeLength {
        if n <= 8 { writeLength := 8; } else { writeLength := 16; }
      }
      assert writeLength == Window(n);
      while i < writeLength
        invariant n <= i <= writeLength && mem == old(mem)
        invariant forall j :: 0 <= j < n ==> buff[j] == val[j]
        invariant forall j :: n <= j < i ==> to + j in mem && buff[j] == mem[to + j]
      {
        assert InRange(to + i, to, writeLength);
        buff[i] := mem[to + i];
        i := i + 1;
      }
      PokePadded(mem, to, val, buff[..writeLength]);
      if writeLength == 16 {
        PokeSplit(mem, to, buff[..16], 8);
        assert buff[..16][..8] == buff[..8] && buff[..16][8..] == buff[8..16];
        mem := Poke(mem, to, buff[..8]);
        mem := Poke(mem, to + 8, buff[8..16]);
      } else {
        mem := Poke(mem, to, buff[..writeLength]);
      }
    }

    // write1Insn of the first `length` bytes of val; length 0 stores one byte too.
    method Write1Insn(addr: nat, val: seq<Byte>, length: nat)
      requires 1 <= |val| && length <= |val| && Windowed(mem, addr, Stored(length))
      modifies this`mem
      ensures Mapped(old(mem), addr, Stored(length))
      ensures mem == if enabled then Poke(old(mem), addr, val[..Stored(length)]) else old(mem)
    {
      MappedPart(mem, addr, Window(Stored(length)), addr, Stored(length));
      if enabled {
        if length > 1 {
          DoAtomicWrite(addr, val[..length]);
        } else {
          mem := Poke(mem, addr, [val[0]]);
          assert val[..1] == [val[0]];
        }
      }
    }

    // The linear search by start address.
    method Search(addr: nat) returns (i: int)
      requires Valid()
      ensures i == IndexOf(writes[..num], addr)
    {
      ghost var log := writes[..num];
      i := 0;
      while i < num
        invariant 0 <= i <= num
        invariant forall j :: 0 <= j < i ==> log[j].addr != addr
      {
        if writes[i].addr == addr {
          IndexAt(log, addr, i);
          return;
        }
        i := i + 1;
      }
      NoIndex(log, addr);
      i := -1;
    }

    // LW_performUndoableWrite; a full log writes nothing.
    // `found` is the byte a zero-length allocation happens to point at.
    method PerformUndoableWrite(addr: nat, length: nat, val: seq<Byte>, found: Byte, howSoon: nat)
      returns (code: int, oldval: seq<Byte>)
      requires Valid() && 1 <= |val| && length <= |val| && Windowed(mem, addr, Stored(length))
      modifies this, writes
      ensures Valid() && Mapped(old(mem), addr, Stored(length)) && Mapped(old(mem), addr, length)
      ensures length > 0 ==> (Now(), code) == DoWrite(old(Now()), addr, val[..length], howSoon)
      ensures length == 0 ==> (Now(), code) == DoZeroWrite(old(Now()), addr, val[0], found, howSoon)
      ensures IndexOf(old(Now()).log, addr) < 0 && code == 0 ==> oldval == Peek(old(mem), addr, length)
    {
      MappedPart(mem, addr, Window(Stored(length)), addr, Stored(length));
      MappedPart(mem, addr, Window(Stored(length)), addr, length);
      oldval := [];
      var i := Search(addr);
      if i < 0 {
        if num == MAX_WRITES { return 1, oldval; }
        oldval := Peek(mem, addr, length);
        Log(OneWrite(addr, if length == 0 then [found] else oldval, howSoon));
      }
      Write1Insn(addr, val, length);
      assert val[..1] == [val[0]];
      code := 0;
    }

    // The next entry of the array.
    method Log(w: OneWrite)
      requires Valid() && num < MAX_WRITES && Windowed(mem, w.addr, |w.orig|)
      modifies this`num, writes
      ensures Valid() && Now() == old(Now()).(log := old(Now()).log + [w])
    {
      ghost var log := writes[..num];
      writes[num] := w;
      num := num + 1;
      assert writes[..num] == log + [w];
    }

    // LW_undoWrite1Insn.
    method UndoWrite(addr: nat) returns (code: int)
      requires Valid()
      modifies this, writes
      ensures Valid() && LogMapped(old(Now()))
      ensures (Now(), code) == DoUndo(old(Now()), addr)
    {
      ValidLogMapped();
      var i := Search(addr);
      if i < 0 { return 1; }
      ghost var log := writes[..num];
      Write1Insn(writes[i].addr, writes[i].orig, |writes[i].orig|);
      assert log[i].orig[..|log[i].orig|] == log[i].orig;
      var last := num - 1;
      if i != last { writes[i] := writes[last]; }
      num := num - 1;
      assert writes[..num] == log[i := log[|log| - 1]][..|log| - 1];
      code := 0;
    }

    method ChangeHowSoon(addr: nat, howSoon: nat) returns (code: int)
      requires Valid()
      modifies writes
      ensures Valid() && (Now(), code) == DoChange(old(Now()), addr, howSoon)
    {
      var i := Search(addr);
      if i < 0 { return 1; }
      ghost var log := writes[..num];
      writes[i] := writes[i].(howSoon := howSoon);
      assert writes[..num] == log[i := log[i].(howSoon := howSoon)];
      code := 0;
    }

    // undo_blind on one entry, after the entries ws.
    method UndoBlind(w: OneWrite, ghost m0: Memory, ghost ws: seq<OneWrite>)
      requires Windowed(mem, w.addr, |w.orig|) && mem.Keys == m0.Keys
      requires AllMapped(m0, ws) && mem == WrittenBack(enabled, m0, ws)
      modifies this`mem
      ensures mem.Keys == m0.Keys
      ensures AllMapped(m0, ws + [w]) && mem == WrittenBack(enabled, m0, ws + [w])
    {
      MappedPart(mem, w.addr, Window(|w.orig|), w.addr, |w.orig|);
      PokeAllSnoc(m0, ws, w);
      Write1Insn(w.addr, w.orig, |w.orig|);
      assert w.orig[..|w.orig|] == w.orig;
    }

    // One of the two loops of destroy_logged_writes.
    method UndoPriority(first: bool)
      requires Valid()
      modifies this`mem
      ensures Valid() && mem.Keys == old(mem).Keys && AllMapped(old(mem), Select(writes[..num], first))
      ensures mem == WrittenBack(enabled, old(mem), Select(writes[..num], first))
    {
      ghost var log := writes[..num];
      ghost var done := [];
      var i := 0;
      while i < num
        invariant i <= num && mem.Keys == old(mem).Keys
        invariant done == Select(log[..i], first) && AllMapped(old(mem), done)
        invariant mem == WrittenBack(enabled, old(mem), done)
      {
        SelectStep(log, i, first);
        if (writes[i].howSoon == 0) == first {
          UndoBlind(writes[i], old(mem), done);
          done := done + [log[i]];
        }
        i := i + 1;
      }
      assert log[..i] == log;
    }

    // destroy_logged_writes: the howsoon==0 entries first, then the others.
    method Destroy()
      requires Valid()
      modifies this`mem
      ensures LogMapped(old(Now())) && mem == Destroyed(old(Now()))
    {
      ValidLogMapped();
      ghost var m0, log := mem, writes[..num];
      UndoPriority(true);
      UndoPriority(false);
      PokeAllAppend(m0, Select(log, true), Select(log, false));
    }

    lemma ValidLogMapped()
      requires Valid()
      ensures LogMapped(Now())
    {
      forall i | 0 <= i < num ensures Mapped(mem, writes[i].addr, |writes[i].orig|) {
        MappedPart(mem, writes[i].addr, Window(|writes[i].orig|), writes[i].addr, |writes[i].orig|);
      }
    }
  }

  lemma {:induction false} IndexAt(log: seq<OneWrite>, addr: nat, i: nat)
    requires i < |log| && log[i].addr == addr && forall j :: 0 <= j < i ==> log[j].addr != addr
    ensures IndexOf(log, addr) == i
  {
    if i > 0 { IndexAt(log[1..], addr, i - 1); }
  }

  lemma {:induction false} NoIndex(log: seq<OneWrite>, addr: nat)
    requires forall j :: 0 <= j < |log| ==> log[j].addr != addr
    ensures IndexOf(log, addr) == -1
  {
    if log != [] { NoIndex(log[1..], addr); }
  }

  lemma SelectStep(log: seq<OneWrite>, i: nat, first: bool)
    requires i < |log|
    ensures Select(log[..i + 1], first) ==
              if (log[i].howSoon == 0) == first then Select(log[..i], first) + [log[i]] else Select(log[..i], first)
  {
    assert log[..i + 1][..i] == log[..i];
  }

  lemma PokeAllSnoc(mem: Memory, ws: seq<OneWrite>, w: OneWrite)
    requires AllMapped(mem, ws) && Mapped(mem, w.addr, |w.orig|)
    ensures AllMapped(mem, ws + [w]) && PokeAll(mem, ws + [w]) == Poke(PokeAll(mem, ws), w.addr, w.orig)
  {
    assert (ws + [w])[..|ws|] == ws;
  }

  lemma {:induction false} PokeAllAppend(mem: Memory, a: seq<OneWrite>, b: seq<OneWrite>)
    requires AllMapped(mem, a) && AllMapped(mem, b)
    ensures AllMapped(mem, a + b) && PokeAll(PokeAll(mem, a), b) == PokeAll(mem, a + b)
  {
    if b == [] {
      assert a + b == a;
    } else {
      var n := |b| - 1;
      PokeAllAppend(mem, a, b[..n]);
      PokeAllSnoc(mem, a + b[..n], b[n]);
      assert (a + b[..n]) + [b[n]] == a + b;
    }
  }
}
