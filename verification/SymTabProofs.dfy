/** The size reported against the bytes written, and where name offsets point. */
module SymTabProofs {
  import opened Arith
  import opened SymTabSpec

  // ------------------------------------------------------------ sizes

  lemma {:induction false} NamesSizeExact(syms: seq<Sym>)
    ensures |Names(syms)| == NamesSize(syms)
  {
    if syms != [] { NamesSizeExact(syms[1..]); }
  }

  lemma {:induction false} EntriesSize(w: nat, syms: seq<Sym>, off: nat)
    ensures |Entries(w, syms, off)| == |syms| * (w + w)
  {
    if syms != [] {
      EntriesSize(w, syms[1..], off + NameStep(syms[0].name));
      assert |syms| * (w + w) == (|syms| - 1) * (w + w) + (w + w);
    }
  }

  lemma ModSizeExact(w: nat, m: Mod)
    ensures |ModBytes(w, m)| == 1 + ModSize(w, m)
  {
    NamesSizeExact(m.syms);
    EntriesSize(w, m.syms, 0);
  }

  lemma {:induction false} ModsSizeExact(w: nat, mods: seq<Mod>)
    ensures |AllMods(w, mods)| == |mods| + ModsSize(w, mods)
  {
    if mods != [] {
      ModSizeExact(w, mods[0]);
      ModsSizeExact(w, mods[1..]);
    }
  }

  lemma WrittenSize(w: nat, mods: seq<Mod>)
    ensures |Written(w, mods)| == 1 + |mods| + ModsSize(w, mods) + KernelSize(w)
  {
    ModsSizeExact(w, mods);
  }

  // The size is right exactly when the module count fits its byte, whatever the
  // names: both passes cut name lengths alike.
  lemma ReportedIff(w: nat, mods: seq<Mod>)
    requires |Written(w, mods)| < P32
    ensures Reported(w, mods) == |Written(w, mods)| <==> |mods| < 256
  {
    WrittenSize(w, mods);
    CutCount(|mods|, 1 + ModsSize(w, mods) + KernelSize(w));
  }

  // For any number of modules the size is short by whole multiples of 256, one
  // byte for each module the 8-bit count lost.
  lemma ReportedExact(w: nat, mods: seq<Mod>)
    ensures Reported(w, mods) == (|Written(w, mods)| - |mods| / 256 * 256) % P32
  {
    WrittenSize(w, mods);
    DivMod(|mods|, 256);
  }

  lemma CutCount(n: nat, rest: nat)
    requires n + rest < P32
    ensures (n % 256 + rest) % P32 == n + rest <==> n < 256
  {
    assert n == 256 * (n / 256) + n % 256;
    assert (n % 256 + rest) % P32 == n % 256 + rest;
  }

  // ------------------------------------------------------------ offsets

  predicate Short(name: seq<Byte>) {
    |name| < 255 && 0 !in name
  }

  ghost predicate AllShort(syms: seq<Sym>) {
    forall i :: 0 <= i < |syms| ==> Short(syms[i].name)
  }

  // The running name offset after these symbols.
  function Offset(syms: seq<Sym>): nat {
    if syms == [] then 0 else NameStep(syms[0].name) + Offset(syms[1..])
  }

  function Overlong(syms: seq<Sym>): nat {
    if syms == [] then 0 else (if |syms[0].name| % 256 == 255 then 1 else 0) + Overlong(syms[1..])
  }

  // The running offset is where the next name starts in the string table exactly
  // when no name before it has a length of 255 modulo 256.
  lemma {:induction false} OffsetDrift(syms: seq<Sym>)
    ensures Offset(syms) == |Names(syms)| + 256 * Overlong(syms)
  {
    if syms != [] { OffsetDrift(syms[1..]); }
  }

  lemma {:induction false} NoneOverlong(syms: seq<Sym>)
    requires AllShort(syms)
    ensures Overlong(syms) == 0
  {
    if syms != [] { NoneOverlong(syms[1..]); }
  }

  lemma ShortCopied(name: seq<Byte>)
    requires Short(name)
    ensures NameLen(name) == NameStep(name) == |name| + 1 && Strncpy(name, NameLen(name)) == name + [0]
  {
  }

  lemma {:induction false} EntriesAppend(w: nat, a: seq<Sym>, b: seq<Sym>, off: nat)
    ensures Entries(w, a + b, off) == Entries(w, a, off) + Entries(w, b, off + Offset(a))
  {
    if a == [] {
      assert a + b == b;
    } else {
      assert (a + b)[1..] == a[1..] + b;
      EntriesAppend(w, a[1..], b, off + NameStep(a[0].name));
    }
  }

  lemma FirstEntry(w: nat, syms: seq<Sym>, off: nat)
    requires syms != []
    ensures Entries(w, syms, off) ==
            Le(syms[0].value, w) + Le(off, w) + Entries(w, syms[1..], off + NameStep(syms[0].name))
  {
  }

  // Symbol k's record comes after those before it, and holds its value and the
  // offset accumulated before it.
  lemma EntryAt(w: nat, syms: seq<Sym>, k: nat)
    requires k < |syms|
    ensures var o := Offset(syms[..k]);
            Entries(w, syms, 0) ==
            Entries(w, syms[..k], 0)
            + (Le(syms[k].value, w) + Le(o, w) + Entries(w, syms[k..][1..], o + NameStep(syms[k].name)))
  {
    assert syms == syms[..k] + syms[k..];
    EntriesAppend(w, syms[..k], syms[k..], 0);
    FirstEntry(w, syms[k..], Offset(syms[..k]));
  }

  lemma {:induction false} NamesAppend(a: seq<Sym>, b: seq<Sym>)
    ensures Names(a + b) == Names(a) + Names(b)
  {
    if a == [] {
      assert a + b == b;
    } else {
      assert (a + b)[1..] == a[1..] + b;
      NamesAppend(a[1..], b);
    }
  }

  // Its offset points at its own name, NUL at the end, in the string table.
  lemma OffsetPointsAtName(syms: seq<Sym>, k: nat)
    requires k < |syms| && AllShort(syms[..k]) && Short(syms[k].name)
    ensures Names(syms[..k]) + (syms[k].name + [0]) <= Names(syms) && |Names(syms[..k])| == Offset(syms[..k])
  {
    OffsetDrift(syms[..k]);
    NoneOverlong(syms[..k]);
    ShortCopied(syms[k].name);
    assert syms == syms[..k] + syms[k..];
    NamesAppend(syms[..k], syms[k..]);
  }

  lemma Associate(a: seq<Byte>, b: seq<Byte>, c: seq<Byte>)
    ensures a + (b + c) == a + b + c
  {
  }
}
