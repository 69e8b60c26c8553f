/** The two-pass serializer, writing into a buffer: the first pass only counts,
the second also fills in. */
module SymTab {
  import opened Arith
  import opened SymTabSpec
  import opened SymTabProofs

  // ------------------------------------------------------------ the buffer

  // The buffer with bytes laid over it from p on.
  function Splice(was: seq<Byte>, p: nat, bytes: seq<Byte>): (s: seq<Byte>)
    requires p + |bytes| <= |was|
    ensures |s| == |was|
  {
    was[..p] + bytes + was[p + |bytes|..]
  }

  lemma SpliceNext(was: seq<Byte>, p: nat, a: seq<Byte>, b: seq<Byte>)
    requires p + |a| + |b| <= |was|
    ensures Splice(Splice(was, p, a), p + |a|, b) == Splice(was, p, a + b)
  {
  }

  // Filling a gap that was left before b.
  lemma SpliceGap(was: seq<Byte>, p: nat, a: seq<Byte>, b: seq<Byte>)
    requires p + |a| + |b| <= |was|
    ensures Splice(Splice(was, p + |a|, b), p, a) == Splice(was, p, a + b)
  {
  }

  method CopyIn(buf: array<Byte>, p: nat, bytes: seq<Byte>)
    requires p + |bytes| <= buf.Length
    modifies buf
    ensures buf[..] == Splice(old(buf[..]), p, bytes)
  {
    var i := 0;
    while i < |bytes|
      invariant i <= |bytes|
      invariant buf[..] == Splice(old(buf[..]), p, bytes[..i])
    {
      buf[p + i] := bytes[i];
      i := i + 1;
    }
    assert bytes[..i] == bytes;
  }

  // Writes and moves on, in the second pass only.
  method Emit(fillin: bool, buf: array<Byte>, bufp: nat, bytes: seq<Byte>, ghost was: seq<Byte>, ghost p: nat,
              ghost before: seq<Byte>) returns (q: nat)
    requires |was| == buf.Length
    requires fillin ==> bufp == p + |before| && bufp + |bytes| <= buf.Length && buf[..] == Splice(was, p, before)
    modifies buf
    ensures fillin ==> q == bufp + |bytes| && buf[..] == Splice(was, p, before + bytes)
    ensures !fillin ==> q == bufp && buf[..] == old(buf[..])
  {
    q := bufp;
    if fillin {
      CopyIn(buf, bufp, bytes);
      q := bufp + |bytes|;
      SpliceNext(was, p, before, bytes);
    }
  }

  method FillGap(buf: array<Byte>, p: nat, bytes: seq<Byte>, ghost was: seq<Byte>, ghost after: seq<Byte>)
    requires p + |bytes| + |after| <= |was| == buf.Length && buf[..] == Splice(was, p + |bytes|, after)
    modifies buf
    ensures buf[..] == Splice(was, p, bytes + after)
  {
    CopyIn(buf, p, bytes);
    SpliceGap(was, p, bytes, after);
  }

  // ------------------------------------------------------------ names and records

  lemma NamesSnoc(syms: seq<Sym>, i: nat)
    requires i < |syms|
    ensures Names(syms[..i + 1]) == Names(syms[..i]) + Strncpy(syms[i].name, NameLen(syms[i].name))
  {
    assert syms[..i + 1] == syms[..i] + [syms[i]];
    NamesAppend(syms[..i], [syms[i]]);
  }

  lemma {:induction false} NamesPrefix(syms: seq<Sym>, i: nat)
    requires i <= |syms|
    ensures |Names(syms[..i])| <= |Names(syms)|
  {
    assert syms == syms[..i] + syms[i..];
    NamesAppend(syms[..i], syms[i..]);
  }

  method PutNames(fillin: bool, buf: array<Byte>, bufp: nat, syms: seq<Sym>) returns (len: nat, q: nat)
    requires fillin ==> bufp + |Names(syms)| <= buf.Length
    modifies buf
    ensures len == |Names(syms)|
    ensures fillin ==> q == bufp + len && buf[..] == Splice(old(buf[..]), bufp, Names(syms))
    ensures !fillin ==> buf[..] == old(buf[..])
  {
    ghost var was := buf[..];
    len, q := 0, bufp;
    assert fillin ==> Splice(was, bufp, []) == was;
    var i := 0;
    while i < |syms|
      invariant i <= |syms| && len == |Names(syms[..i])|
      invariant fillin ==> q == bufp + len && bufp + len <= buf.Length && buf[..] == Splice(was, bufp, Names(syms[..i]))
      invariant !fillin ==> buf[..] == was
    {
      var nameLen := NameLen(syms[i].name);
      NamesSnoc(syms, i);
      NamesPrefix(syms, i + 1);
      len := len + nameLen;
      q := Emit(fillin, buf, q, Strncpy(syms[i].name, nameLen), was, bufp, Names(syms[..i]));
      i := i + 1;
    }
    assert syms[..i] == syms;
  }

  lemma EntriesSnoc(w: nat, syms: seq<Sym>, i: nat)
    requires i < |syms|
    ensures Entries(w, syms[..i + 1], 0) ==
            Entries(w, syms[..i], 0) + (Le(syms[i].value, w) + Le(Offset(syms[..i]), w))
    ensures Offset(syms[..i + 1]) == Offset(syms[..i]) + NameStep(syms[i].name)
  {
    var one := [syms[i]];
    assert syms[..i + 1] == syms[..i] + one;
    EntriesAppend(w, syms[..i], one, 0);
    assert one[1..] == [];
    OffsetAppend(syms[..i], one);
  }

  lemma {:induction false} OffsetAppend(a: seq<Sym>, b: seq<Sym>)
    ensures Offset(a + b) == Offset(a) + Offset(b)
  {
    if a == [] {
      assert a + b == b;
    } else {
      assert (a + b)[1..] == a[1..] + b;
      OffsetAppend(a[1..], b);
    }
  }

  lemma EntriesPrefix(w: nat, syms: seq<Sym>, i: nat)
    requires i <= |syms|
    ensures |Entries(w, syms[..i], 0)| <= |Entries(w, syms, 0)|
  {
    assert syms == syms[..i] + syms[i..];
    EntriesAppend(w, syms[..i], syms[i..], 0);
  }

  // The records; in the second pass only.
  method PutEntries(w: nat, buf: array<Byte>, bufp: nat, syms: seq<Sym>) returns (q: nat)
    requires bufp + |Entries(w, syms, 0)| <= buf.Length
    modifies buf
    ensures q == bufp + |Entries(w, syms, 0)| && buf[..] == Splice(old(buf[..]), bufp, Entries(w, syms, 0))
  {
    ghost var was := buf[..];
    q := bufp;
    assert Splice(was, bufp, []) == was;
    var nameOffset := 0;
    var i := 0;
    while i < |syms|
      invariant i <= |syms| && nameOffset == Offset(syms[..i])
      invariant q == bufp + |Entries(w, syms[..i], 0)| <= buf.Length
      invariant buf[..] == Splice(was, bufp, Entries(w, syms[..i], 0))
    {
      EntriesSnoc(w, syms, i);
      EntriesPrefix(w, syms, i + 1);
      q := Emit(true, buf, q, Le(syms[i].value, w) + Le(nameOffset, w), was, bufp, Entries(w, syms[..i], 0));
      var nameLen := |syms[i].name| % 256;
      nameOffset := nameOffset + (nameLen + 1);
      i := i + 1;
    }
    assert syms[..i] == syms;
  }

  // ------------------------------------------------------------ modules

  // The string table, with its length filled in before it afterwards.
  method PutTable(w: nat, fillin: bool, buf: array<Byte>, bufp: nat, syms: seq<Sym>) returns (len: nat, q: nat)
    requires fillin ==> bufp + w + |Names(syms)| <= buf.Length
    modifies buf
    ensures len == |Names(syms)|
    ensures fillin ==> q == bufp + w + len && buf[..] == Splice(old(buf[..]), bufp, Le(len, w) + Names(syms))
    ensures !fillin ==> buf[..] == old(buf[..])
  {
    ghost var was := buf[..];
    var strTabLenPtr := bufp;
    q := bufp + w;
    len, q := PutNames(fillin, buf, q, syms);
    if fillin {
      FillGap(buf, strTabLenPtr, Le(len, w), was, Names(syms));
    }
  }

  // All of a body but its records.
  ghost function Front(w: nat, syms: seq<Sym>): seq<Byte> {
    Le(|Names(syms)|, w) + Names(syms) + Le(COOKIE, w) + Le(|syms|, w)
  }

  lemma FrontSize(w: nat, syms: seq<Sym>)
    ensures |Front(w, syms)| == (w + |Names(syms)|) + w + w
  {
  }

  // String table, cookie and count.
  method PutFront(w: nat, fillin: bool, buf: array<Byte>, bufp: nat, syms: seq<Sym>) returns (size: nat, q: nat)
    requires fillin ==> bufp + |Front(w, syms)| <= buf.Length
    modifies buf
    ensures size == |Front(w, syms)|
    ensures fillin ==> q == bufp + size && buf[..] == Splice(old(buf[..]), bufp, Front(w, syms))
    ensures !fillin ==> buf[..] == old(buf[..])
  {
    ghost var was := buf[..];
    FrontSize(w, syms);
    var len;
    len, q := PutTable(w, fillin, buf, bufp, syms);
    ghost var a := Le(len, w) + Names(syms);
    q := Emit(fillin, buf, q, Le(COOKIE, w), was, bufp, a);
    q := Emit(fillin, buf, q, Le(|syms|, w), was, bufp, a + Le(COOKIE, w));
    size := (w + len) + w + w;
  }

  lemma BodyIs(w: nat, syms: seq<Sym>, n: nat)
    requires n == |syms| * (w + w)
    ensures Body(w, syms) == Front(w, syms) + Entries(w, syms, 0) && |Entries(w, syms, 0)| == n
  {
    EntriesSize(w, syms, 0);
  }

  // And then the records.
  method PutBody(w: nat, fillin: bool, buf: array<Byte>, bufp: nat, syms: seq<Sym>) returns (size: nat, q: nat)
    requires fillin ==> bufp + |Body(w, syms)| <= buf.Length
    modifies buf
    ensures size == |Body(w, syms)|
    ensures fillin ==> q == bufp + size && buf[..] == Splice(old(buf[..]), bufp, Body(w, syms))
    ensures !fillin ==> buf[..] == old(buf[..])
  {
    ghost var was := buf[..];
    var records := |syms| * (w + w);
    BodyIs(w, syms, records);
    size, q := PutFront(w, fillin, buf, bufp, syms);
    if fillin {
      q := PutEntries(w, buf, q, syms);
      SpliceNext(was, bufp, Front(w, syms), Entries(w, syms, 0));
    }
    size := size + records;
  }

  // Name and sections.
  method PutHead(w: nat, fillin: bool, buf: array<Byte>, bufp: nat, m: Mod) returns (size: nat, q: nat)
    requires fillin ==> bufp + |NameBytes(m.name) + SectionBytes(w, m)| <= buf.Length
    modifies buf
    ensures size + 1 == |NameBytes(m.name) + SectionBytes(w, m)|
    ensures fillin ==> q == bufp + size + 1 && buf[..] == Splice(old(buf[..]), bufp, NameBytes(m.name) + SectionBytes(w, m))
    ensures !fillin ==> buf[..] == old(buf[..])
  {
    ghost var was := buf[..];
    assert fillin ==> Splice(was, bufp, []) == was;
    var nameLen := NameLen(m.name);
    q := Emit(fillin, buf, bufp, [nameLen], was, bufp, []);
    q := Emit(fillin, buf, q, Strncpy(m.name, nameLen), was, bufp, [] + [nameLen]);
    ghost var a := [] + [nameLen] + Strncpy(m.name, nameLen);
    q := Emit(fillin, buf, q, Le(m.core, w), was, bufp, a);
    q := Emit(fillin, buf, q, Le(m.textSize, w), was, bufp, a + Le(m.core, w));
    q := Emit(fillin, buf, q, Le(m.core + m.textSize, w), was, bufp, a + Le(m.core, w) + Le(m.textSize, w));
    q := Emit(fillin, buf, q, Le(m.coreSize - m.textSize, w), was, bufp,
              a + Le(m.core, w) + Le(m.textSize, w) + Le(m.core + m.textSize, w));
    HeadShape(w, m, a);
    size := nameLen + 2 * (w + w);
  }

  lemma HeadShape(w: nat, m: Mod, a: seq<Byte>)
    requires a == [] + [NameLen(m.name)] + Strncpy(m.name, NameLen(m.name))
    ensures a + Le(m.core, w) + Le(m.textSize, w) + Le(m.core + m.textSize, w) + Le(m.coreSize - m.textSize, w)
            == NameBytes(m.name) + SectionBytes(w, m)
  {
  }

  method PutModule(w: nat, fillin: bool, buf: array<Byte>, bufp: nat, m: Mod) returns (size: nat, q: nat)
    requires fillin ==> bufp + |ModBytes(w, m)| <= buf.Length
    modifies buf
    ensures size == ModSize(w, m)
    ensures fillin ==> q == bufp + |ModBytes(w, m)| && buf[..] == Splice(old(buf[..]), bufp, ModBytes(w, m))
    ensures !fillin ==> buf[..] == old(buf[..])
  {
    ghost var was := buf[..];
    ModSizeExact(w, m);
    var head, body;
    head, q := PutHead(w, fillin, buf, bufp, m);
    body, q := PutBody(w, fillin, buf, q, m.syms);
    if fillin {
      SpliceNext(was, bufp, NameBytes(m.name) + SectionBytes(w, m), Body(w, m.syms));
    }
    size := head + body;
  }

  // ------------------------------------------------------------ the module list

  // A node of the kernel's circular list, read as a module; `state` is garbage
  // in the list's head.
  datatype Node = Node(state: int, m: Mod)

  predicate LooksLikeModule(n: Node) { 0 <= n.state <= 2 }

  function Mods(nodes: seq<Node>): seq<Mod> {
    seq(|nodes|, i requires 0 <= i < |nodes| => nodes[i].m)
  }

  // The first node that cannot be a module, |ring| when there is none.
  function HeadOf(ring: seq<Node>): (h: nat)
    ensures h <= |ring| && (h < |ring| ==> !LooksLikeModule(ring[h]))
    ensures forall i :: 0 <= i < h ==> LooksLikeModule(ring[i])
  {
    if ring == [] || !LooksLikeModule(ring[0]) then 0 else 1 + HeadOf(ring[1..])
  }

  // The modules in list order, from the head around; ring is the list as seen
  // from this driver's own module on.
  function Modules(self: Mod, ring: seq<Node>): (mods: seq<Mod>)
    requires HeadOf(ring) < |ring|
    ensures |mods| == |ring|
  {
    Mods(ring)[HeadOf(ring) + 1..] + [self] + Mods(ring)[..HeadOf(ring)]
  }

  // The list as it is linked: from this driver's own module once around.
  function Circle(self: Mod, ring: seq<Node>): (c: seq<Mod>)
    ensures |c| == |ring| + 1
  {
    [self] + Mods(ring)
  }

  lemma RotatedAt<T>(x: T, c: seq<T>, h: nat, i: nat)
    requires h < |c| && i < |c|
    ensures (c[h + 1..] + [x] + c[..h])[i] == ([x] + c)[(h + 2 + i) % (|c| + 1)]
  {
    ModSmall(h + 2 + i, |c| + 1);
  }

  // Module i is i + 1 links past the head, which stands at h + 1.
  lemma ModulesAround(self: Mod, ring: seq<Node>, i: nat)
    requires HeadOf(ring) < |ring| && i < |ring|
    ensures var c := Circle(self, ring); Modules(self, ring)[i] == c[(HeadOf(ring) + 2 + i) % |c|]
  {
    RotatedAt(self, Mods(ring), HeadOf(ring), i);
  }

  // The places of the circle that are met are all different and never the head's,
  lemma AroundOnce(n: nat, h: nat, i: nat, j: nat)
    requires h + 1 < n && i < j < n - 1
    ensures (h + 2 + i) % n != (h + 2 + j) % n && (h + 2 + i) % n != h + 1 && (h + 2 + j) % n != h + 1
  {
    ModSmall(h + 2 + i, n);
    ModSmall(h + 2 + j, n);
  }

  // and every other place is met: this driver's own module, at 0, and every node
  // but the head are listed.
  lemma AllListed(self: Mod, ring: seq<Node>, k: nat) returns (i: nat)
    requires HeadOf(ring) < |ring| && k <= |ring| && k != HeadOf(ring) + 1
    ensures i < |ring| && Modules(self, ring)[i] == Circle(self, ring)[k]
    ensures (HeadOf(ring) + 2 + i) % (|ring| + 1) == k
  {
    var h, n := HeadOf(ring), |ring| + 1;
    i := if k > h + 1 then k - h - 2 else k + n - h - 2;
    ModSmall(h + 2 + i, n);
    ModulesAround(self, ring, i);
  }

  method FindHead(ring: seq<Node>) returns (h: nat)
    ensures h == HeadOf(ring) <= |ring|
    ensures forall i :: 0 <= i < h ==> ring[i].state in {0, 1, 2}
    ensures h < |ring| ==> ring[h].state !in {0, 1, 2}
  {
    h := 0;
    while h < |ring|
      invariant h <= |ring|
      invariant forall i :: 0 <= i < h ==> LooksLikeModule(ring[i])
    {
      if !LooksLikeModule(ring[h]) {
        return;
      }
      h := h + 1;
    }
  }

  // ------------------------------------------------------------ both passes

  lemma {:induction false} ModsAppend(w: nat, a: seq<Mod>, b: seq<Mod>)
    ensures AllMods(w, a + b) == AllMods(w, a) + AllMods(w, b)
    ensures ModsSize(w, a + b) == ModsSize(w, a) + ModsSize(w, b)
  {
    if a == [] {
      assert a + b == b;
    } else {
      assert (a + b)[1..] == a[1..] + b;
      ModsAppend(w, a[1..], b);
      Associate(ModBytes(w, a[0]), AllMods(w, a[1..]), AllMods(w, b));
    }
  }

  lemma ModsSnoc(w: nat, mods: seq<Mod>, i: nat)
    requires i < |mods|
    ensures AllMods(w, mods[..i + 1]) == AllMods(w, mods[..i]) + ModBytes(w, mods[i])
    ensures ModsSize(w, mods[..i + 1]) == ModsSize(w, mods[..i]) + ModSize(w, mods[i])
  {
    var one := [mods[i]];
    assert mods[..i + 1] == mods[..i] + one;
    ModsAppend(w, mods[..i], one);
    OneMod(w, mods[i], one);
  }

  lemma OneMod(w: nat, m: Mod, one: seq<Mod>)
    requires one == [m]
    ensures AllMods(w, one) == ModBytes(w, m) && ModsSize(w, one) == ModSize(w, m)
  {
    assert one[1..] == [];
    assert AllMods(w, one) == ModBytes(w, m) + [];
  }

  lemma ModsPrefix(w: nat, mods: seq<Mod>, i: nat)
    requires i <= |mods|
    ensures |AllMods(w, mods[..i])| <= |AllMods(w, mods)|
  {
    assert mods == mods[..i] + mods[i..];
    ModsAppend(w, mods[..i], mods[i..]);
  }

  method AppendModule(w: nat, fillin: bool, buf: array<Byte>, bufp: nat, m: Mod, ghost was: seq<Byte>,
                      ghost before: seq<Byte>) returns (size: nat, q: nat)
    requires |was| == buf.Length
    requires fillin ==> bufp == |before| && bufp + |ModBytes(w, m)| <= buf.Length && buf[..] == Splice(was, 0, before)
    modifies buf
    ensures size == ModSize(w, m)
    ensures fillin ==> q == bufp + |ModBytes(w, m)| && buf[..] == Splice(was, 0, before + ModBytes(w, m))
    ensures !fillin ==> buf[..] == old(buf[..])
  {
    size, q := PutModule(w, fillin, buf, bufp, m);
    if fillin {
      SpliceNext(was, 0, before, ModBytes(w, m));
    }
  }

  lemma SnocAfter(w: nat, mods: seq<Mod>, i: nat, before: seq<Byte>)
    requires i < |mods|
    ensures before + AllMods(w, mods[..i]) + ModBytes(w, mods[i]) == before + AllMods(w, mods[..i + 1])
    ensures ModsSize(w, mods[..i + 1]) == ModsSize(w, mods[..i]) + ModSize(w, mods[i])
    ensures |AllMods(w, mods[..i])| + |ModBytes(w, mods[i])| == |AllMods(w, mods[..i + 1])| <= |AllMods(w, mods)|
  {
    ModsSnoc(w, mods, i);
    ModsPrefix(w, mods, i + 1);
    Associate(before, AllMods(w, mods[..i]), ModBytes(w, mods[i]));
  }

  // Module i, after those before it.
  method PutNext(w: nat, fillin: bool, buf: array<Byte>, bufp: nat, mods: seq<Mod>, i: nat, ghost was: seq<Byte>,
                 ghost before: seq<Byte>) returns (size: nat, q: nat)
    requires i < |mods| && |was| == buf.Length
    requires fillin ==> |before| + |AllMods(w, mods)| <= buf.Length
    requires fillin ==> bufp == |before + AllMods(w, mods[..i])| <= buf.Length
    requires fillin ==> buf[..] == Splice(was, 0, before + AllMods(w, mods[..i]))
    modifies buf
    ensures ModsSize(w, mods[..i + 1]) == ModsSize(w, mods[..i]) + size
    ensures fillin ==> q == |before + AllMods(w, mods[..i + 1])| <= buf.Length
    ensures fillin ==> buf[..] == Splice(was, 0, before + AllMods(w, mods[..i + 1]))
    ensures !fillin ==> buf[..] == old(buf[..])
  {
    SnocAfter(w, mods, i, before);
    size, q := AppendModule(w, fillin, buf, bufp, mods[i], was, before + AllMods(w, mods[..i]));
  }

  method PutModules(w: nat, fillin: bool, buf: array<Byte>, bufp: nat, mods: seq<Mod>, ghost was: seq<Byte>,
                    ghost before: seq<Byte>) returns (size: nat, q: nat)
    requires |was| == buf.Length
    requires fillin ==> bufp == |before| && |before| + |AllMods(w, mods)| <= buf.Length && buf[..] == Splice(was, 0, before)
    modifies buf
    ensures size == ModsSize(w, mods)
    ensures fillin ==> q == |before + AllMods(w, mods)| <= buf.Length
    ensures fillin ==> buf[..] == Splice(was, 0, before + AllMods(w, mods))
    ensures !fillin ==> buf[..] == old(buf[..])
  {
    size, q := 0, bufp;
    var i := 0;
    assert before + AllMods(w, mods[..0]) == before;
    while i < |mods|
      invariant i <= |mods| && size == ModsSize(w, mods[..i])
      invariant fillin ==> q == |before + AllMods(w, mods[..i])| <= buf.Length
      invariant fillin ==> buf[..] == Splice(was, 0, before + AllMods(w, mods[..i]))
      invariant !fillin ==> buf[..] == old(buf[..])
    {
      var one;
      one, q := PutNext(w, fillin, buf, q, mods, i, was, before);
      size := size + one;
      i := i + 1;
    }
    assert mods[..i] == mods;
  }

  method PutAll(w: nat, fillin: bool, buf: array<Byte>, mods: seq<Mod>) returns (nbytes: nat)
    requires fillin ==> |Written(w, mods)| <= buf.Length
    modifies buf
    ensures nbytes == Reported(w, mods)
    ensures buf[..] == if fillin then Splice(old(buf[..]), 0, Written(w, mods)) else old(buf[..])
  {
    ghost var was := buf[..];
    ghost var count := [CountByte(|mods|)];
    ghost var all, kernel := AllMods(w, mods), KernelBytes(w);
    assert |count| + |all| + |kernel| == |Written(w, mods)|;
    var nmods: Byte := |mods| % 256;
    nbytes := 1 + nmods;
    assert [] + count == count;
    var bufp := Emit(fillin, buf, 0, [CountByte(|mods|)], was, 0, []);
    var size;
    size, bufp := PutModules(w, fillin, buf, bufp, mods, was, count);
    bufp := Emit(fillin, buf, bufp, KernelBytes(w), was, 0, count + all);
    nbytes := (nbytes + size + KernelSize(w)) % P32;
  }

  // The size, and in the second pass the table; 0 without a buffer to fill or
  // when no list head is found.
  method SymtabDo(w: nat, fillin: bool, buf: array?<Byte>, self: Mod, ring: seq<Node>) returns (nbytes: nat)
    requires fillin && buf != null && HeadOf(ring) < |ring| ==> |Written(w, Modules(self, ring))| <= buf.Length
    modifies buf
    ensures (fillin && buf == null) || HeadOf(ring) == |ring| ==> nbytes == 0
    ensures !(fillin && buf == null) && HeadOf(ring) < |ring| ==> nbytes == Reported(w, Modules(self, ring))
    ensures fillin && buf != null && HeadOf(ring) < |ring| ==>
              buf[..] == Splice(old(buf[..]), 0, Written(w, Modules(self, ring)))
    ensures buf != null && (!fillin || HeadOf(ring) == |ring|) ==> buf[..] == old(buf[..])
  {
    if fillin && buf == null {
      return 0;
    }
    var h := FindHead(ring);
    if h == |ring| {
      return 0;
    }
    var mods := Modules(self, ring);
    if buf == null {
      var none := new Byte[0];
      nbytes := PutAll(w, false, none, mods);
    } else {
      nbytes := PutAll(w, fillin, buf, mods);
    }
  }
}
