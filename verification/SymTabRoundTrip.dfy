/** The round trip through the daemon's reader. */
module SymTabRoundTrip {
  import opened Arith
  import opened Wrappers
  import opened SymTabSpec
  import opened SymTabProofs

  function Pow256(n: nat): (p: nat)
    ensures p > 0
  {
    if n == 0 then 1 else 256 * Pow256(n - 1)
  }

  // ------------------------------------------------------------ words

  lemma {:induction false} LeBack(x: int, n: nat)
    ensures FromLe(Le(x, n), n) == x % Pow256(n)
    decreases n
  {
    if n == 0 {
      assert x % 1 == 0;
    } else {
      LeBack(x / 256, n - 1);
      assert Le(x, n)[1..] == Le(x / 256, n - 1);
      LowDigit(x, Pow256(n - 1));
    }
  }

  lemma LowDigit(x: int, p: nat)
    requires p > 0
    ensures x % 256 + 256 * (x / 256 % p) == x % (256 * p)
  {
    var y := x / 256;
    var q, r := y / p, y % p;
    assert x == 256 * y + x % 256 && y == q * p + r;
    assert 256 * (q * p) == q * (256 * p);
    DivModUnique(x, q, 256 * r + x % 256, 256 * p);
  }

  lemma {:induction false} FromLeFront(a: seq<Byte>, t: seq<Byte>, n: nat)
    requires n <= |a|
    ensures FromLe(a + t, n) == FromLe(a, n)
    decreases n
  {
    if n > 0 {
      assert (a + t)[1..] == a[1..] + t;
      FromLeFront(a[1..], t, n - 1);
    }
  }

  lemma FrontWord(w: nat, a: seq<Byte>, t: seq<Byte>)
    requires |a| == w
    ensures FromLe(a + t, w) == FromLe(a, w) && (a + t)[w..] == t
  {
    FromLeFront(a, t, w);
  }

  lemma Fits(w: nat, x: nat)
    requires x < Pow256(w)
    ensures FromLe(Le(x, w), w) == x
  {
    LeBack(x, w);
    ModSmall(x, Pow256(w));
  }

  lemma {:induction false} CStringBack(name: seq<Byte>, t: seq<Byte>)
    requires 0 !in name
    ensures CString(name + [0] + t) == name
  {
    var s := name + [0] + t;
    if name != [] {
      assert s[1..] == name[1..] + [0] + t;
      CStringBack(name[1..], t);
    }
  }

  // ------------------------------------------------------------ symbols

  function Infos(w: nat, syms: seq<Sym>): seq<SymInfo> {
    if syms == [] then [] else [SymInfo(syms[0].value % Pow256(w), syms[0].name)] + Infos(w, syms[1..])
  }

  // One record at the front of s.
  predicate FrontEntry(w: nat, s: seq<Byte>, addr: nat, off: nat) {
    |s| >= w + w && FromLe(s, w) == addr && FromLe(s[w..], w) == off
  }

  // s is the records of these symbols, then t.
  ghost predicate Records(w: nat, s: seq<Byte>, syms: seq<Sym>, off: nat, t: seq<Byte>)
    decreases |syms|
  {
    if syms == [] then s == t
    else
      && FrontEntry(w, s, syms[0].value % Pow256(w), off)
      && Records(w, s[w + w..], syms[1..], off + NameStep(syms[0].name), t)
  }

  lemma EntryFront(w: nat, value: int, off: nat, tail: seq<Byte>, s: seq<Byte>)
    requires off < Pow256(w) && s == Le(value, w) + Le(off, w) + tail
    ensures FrontEntry(w, s, value % Pow256(w), off) && s[w + w..] == tail
  {
    assert s == Le(value, w) + (Le(off, w) + tail);
    FrontWord(w, Le(value, w), Le(off, w) + tail);
    FrontWord(w, Le(off, w), tail);
    LeBack(value, w);
    Fits(w, off);
  }

  lemma {:induction false} EntriesAreRecords(w: nat, syms: seq<Sym>, off: nat, t: seq<Byte>, s: seq<Byte>)
    requires off + Offset(syms) < Pow256(w) && s == Entries(w, syms, off) + t
    ensures Records(w, s, syms, off, t)
    decreases |syms|
  {
    if syms == [] {
      assert s == t;
    } else {
      var next := off + NameStep(syms[0].name);
      var tail := Entries(w, syms[1..], next) + t;
      assert s == Le(syms[0].value, w) + Le(off, w) + tail;
      EntryFront(w, syms[0].value, off, tail, s);
      EntriesAreRecords(w, syms[1..], next, t, tail);
    }
  }

  // What the daemon makes of the records: an offset outside the pool stops it,
  // any other is taken for the start of a name.
  ghost function Found(w: nat, syms: seq<Sym>, off: nat, pool: seq<Byte>): Option<seq<SymInfo>>
    decreases |syms|
  {
    if syms == [] then Some([])
    else if off >= |pool| then None
    else
      match Found(w, syms[1..], off + NameStep(syms[0].name), pool)
      case None => None
      case Some(infos) => Some([SymInfo(syms[0].value % Pow256(w), CString(pool[off..]))] + infos)
  }

  // Every running offset is where the pool has that symbol's name.
  ghost predicate NamesFound(syms: seq<Sym>, off: nat, pool: seq<Byte>)
    decreases |syms|
  {
    syms == [] ||
    (off < |pool| && CString(pool[off..]) == syms[0].name
     && NamesFound(syms[1..], off + NameStep(syms[0].name), pool))
  }

  lemma {:induction false} FoundIff(w: nat, syms: seq<Sym>, off: nat, pool: seq<Byte>)
    ensures Found(w, syms, off, pool) == Some(Infos(w, syms)) <==> NamesFound(syms, off, pool)
    decreases |syms|
  {
    if syms != [] {
      var next := off + NameStep(syms[0].name);
      FoundIff(w, syms[1..], next, pool);
      if off < |pool| && Found(w, syms[1..], next, pool).Some? {
        ConsSame(SymInfo(syms[0].value % Pow256(w), CString(pool[off..])), Found(w, syms[1..], next, pool).value,
                 SymInfo(syms[0].value % Pow256(w), syms[0].name), Infos(w, syms[1..]));
      }
    }
  }

  lemma ConsSame<T>(x: T, xs: seq<T>, y: T, ys: seq<T>)
    ensures [x] + xs == [y] + ys <==> x == y && xs == ys
  {
    if [x] + xs == [y] + ys {
      assert ([x] + xs)[0] == ([y] + ys)[0];
      assert xs == ([x] + xs)[1..] == ([y] + ys)[1..] == ys;
    }
  }

  lemma {:induction false} RecordsRead(w: nat, s: seq<Byte>, syms: seq<Sym>, off: nat, pool: seq<Byte>, t: seq<Byte>)
    requires Records(w, s, syms, off, t)
    ensures ReadEntries(w, s, |syms|, pool) ==
            match Found(w, syms, off, pool) case None => None case Some(infos) => Some((infos, t))
    decreases |syms|
  {
    if syms != [] {
      RecordsRead(w, s[w + w..], syms[1..], off + NameStep(syms[0].name), pool, t);
    }
  }

  // From offset off on the pool is the table t.
  ghost predicate From(pool: seq<Byte>, off: nat, t: seq<Byte>) {
    off <= |pool| && pool[off..] == t
  }

  lemma FromNext(pool: seq<Byte>, off: nat, copy: seq<Byte>, t: seq<Byte>)
    requires From(pool, off, copy + t)
    ensures From(pool, off + |copy|, t)
  {
    assert pool[off + |copy|..] == pool[off..][|copy|..];
  }

  lemma FoundCons(syms: seq<Sym>, off: nat, next: nat, pool: seq<Byte>)
    requires syms != [] && off < |pool| && CString(pool[off..]) == syms[0].name
    requires next == off + NameStep(syms[0].name) && NamesFound(syms[1..], next, pool)
    ensures NamesFound(syms, off, pool)
  {
  }

  lemma ShortFirst(syms: seq<Sym>)
    requires syms != [] && Short(syms[0].name)
    ensures Names(syms) == syms[0].name + [0] + Names(syms[1..]) && NameStep(syms[0].name) == |syms[0].name + [0]|
  {
    ShortCopied(syms[0].name);
  }

  // Short names are always found.
  lemma {:induction false} ShortNamesFound(syms: seq<Sym>, off: nat, pool: seq<Byte>)
    requires AllShort(syms) && From(pool, off, Names(syms))
    ensures NamesFound(syms, off, pool)
    decreases |syms|
  {
    if syms != [] {
      ShortFirst(syms);
      CStringBack(syms[0].name, Names(syms[1..]));
      FromNext(pool, off, syms[0].name + [0], Names(syms[1..]));
      ShortNamesFound(syms[1..], off + |syms[0].name + [0]|, pool);
      FoundCons(syms, off, off + |syms[0].name + [0]|, pool);
    }
  }

  // The last running offset lies inside the pool.
  lemma {:induction false} OffsetInside(syms: seq<Sym>, off: nat, pool: seq<Byte>)
    requires syms != [] && NamesFound(syms, off, pool)
    ensures off + Offset(syms) < |pool| + 256
    decreases |syms|
  {
    var next := off + NameStep(syms[0].name);
    if |syms| == 1 {
      assert syms[1..] == [];
      assert Offset(syms) == NameStep(syms[0].name);
    } else {
      OffsetInside(syms[1..], next, pool);
    }
  }

  // A name of 255 bytes modulo 256 is not copied at all, and carries the running
  // offset past the end of the table.
  lemma OverlongLost(syms: seq<Sym>, off: nat, pool: seq<Byte>)
    requires syms != [] && |syms[0].name| % 256 == 255 && |pool| == off + |Names(syms)|
    ensures !NamesFound(syms, off, pool)
  {
    if NamesFound(syms, off, pool) {
      OffsetDrift(syms);
      OffsetInside(syms, off, pool);
    }
  }

  // A string that goes on past a part without NULs.
  lemma {:induction false} CStringOver(part: seq<Byte>, t: seq<Byte>)
    requires 0 !in part
    ensures CString(part + t) == part + CString(t)
  {
    if part == [] {
      assert part + t == t;
    } else {
      assert (part + t)[1..] == part[1..] + t;
      CStringOver(part[1..], t);
    }
  }

  lemma {:induction false} CStringClean(s: seq<Byte>)
    ensures 0 !in CString(s)
  {
    if s != [] && s[0] != 0 { CStringClean(s[1..]); }
  }

  lemma CleanCopy(name: seq<Byte>, n: nat, s: seq<Byte>)
    requires n <= |name| && CString(s) == name
    ensures 0 !in Strncpy(name, n)
  {
    CStringClean(s);
  }

  lemma CutRemainder(len: nat, n: nat, rest: nat)
    requires n == (len + 1) % 256 && len == n + rest
    ensures rest % 256 == 255
  {
  }

  // Any other name of 255 bytes or more is cut before its NUL and read together
  // with the next one, which would then be of the first kind.
  lemma CutReadsOn(name: seq<Byte>, cut: seq<Byte>, t: seq<Byte>)
    requires |cut| == (|name| + 1) % 256 && 0 !in cut && CString(cut + t) == name
    ensures |CString(t)| % 256 == 255
  {
    OverLength(cut, t, name);
    CutRemainder(|name|, |cut|, |CString(t)|);
  }

  lemma OverLength(part: seq<Byte>, t: seq<Byte>, name: seq<Byte>)
    requires 0 !in part && CString(part + t) == name
    ensures |name| == |part| + |CString(t)|
  {
    CStringOver(part, t);
  }

  lemma HeadLost(syms: seq<Sym>, off: nat, pool: seq<Byte>)
    requires syms != [] && off <= |pool| && CString(pool[off..]) != syms[0].name
    ensures !NamesFound(syms, off, pool)
  {
  }

  lemma NextLost(syms: seq<Sym>, off: nat, n: nat, pool: seq<Byte>)
    requires syms != [] && NameStep(syms[0].name) == n && !NamesFound(syms[1..], off + n, pool)
    ensures !NamesFound(syms, off, pool)
  {
  }

  // At the end of the table no name is left to be read together with it.
  lemma OverlongNext(rest: seq<Sym>, off: nat, pool: seq<Byte>)
    requires From(pool, off, Names(rest)) && |CString(Names(rest))| % 256 == 255
    ensures rest != [] && !NamesFound(rest, off, pool)
  {
    if rest != [] {
      if CString(Names(rest)) == rest[0].name {
        OverlongLost(rest, off, pool);
      } else {
        HeadLost(rest, off, pool);
      }
    }
  }

  lemma CutLength(name: seq<Byte>, n: nat)
    requires |name| >= 255 && |name| % 256 != 255 && n == NameLen(name)
    ensures NameStep(name) == n == (|name| + 1) % 256 && n < |name|
  {
  }

  lemma CutLost(syms: seq<Sym>, n: nat, off: nat, pool: seq<Byte>)
    requires syms != [] && NameStep(syms[0].name) == n == (|syms[0].name| + 1) % 256 && n < |syms[0].name|
    requires From(pool, off, Strncpy(syms[0].name, n) + Names(syms[1..]))
    ensures !NamesFound(syms, off, pool)
  {
    if CString(pool[off..]) == syms[0].name {
      CleanCopy(syms[0].name, n, pool[off..]);
      CutReadsOn(syms[0].name, Strncpy(syms[0].name, n), Names(syms[1..]));
      FromNext(pool, off, Strncpy(syms[0].name, n), Names(syms[1..]));
      OverlongNext(syms[1..], off + n, pool);
      NextLost(syms, off, n, pool);
    } else {
      HeadLost(syms, off, pool);
    }
  }

  lemma LongLost(syms: seq<Sym>, off: nat, pool: seq<Byte>)
    requires syms != [] && |syms[0].name| >= 255 && From(pool, off, Names(syms))
    ensures !NamesFound(syms, off, pool)
  {
    if |syms[0].name| % 256 == 255 {
      OverlongLost(syms, off, pool);
    } else {
      CutLength(syms[0].name, NameLen(syms[0].name));
      CutLost(syms, NameLen(syms[0].name), off, pool);
    }
  }

  lemma FoundFirst(syms: seq<Sym>, off: nat, pool: seq<Byte>)
    requires syms != [] && NamesFound(syms, off, pool) && From(pool, off, Names(syms))
    ensures Short(syms[0].name) && NamesFound(syms[1..], off + NameStep(syms[0].name), pool)
  {
    CStringClean(pool[off..]);
    if |syms[0].name| >= 255 { LongLost(syms, off, pool); }
  }

  lemma {:induction false} FoundNamesShort(syms: seq<Sym>, off: nat, pool: seq<Byte>)
    requires NamesFound(syms, off, pool) && From(pool, off, Names(syms))
    ensures AllShort(syms)
    decreases |syms|
  {
    if syms != [] {
      FoundFirst(syms, off, pool);
      ShortFirst(syms);
      FromNext(pool, off, syms[0].name + [0], Names(syms[1..]));
      FoundNamesShort(syms[1..], off + NameStep(syms[0].name), pool);
    }
  }

  // So exactly the modules whose symbols all have short names are read right.
  lemma NamesFoundIff(syms: seq<Sym>)
    ensures NamesFound(syms, 0, Names(syms)) <==> AllShort(syms)
  {
    assert From(Names(syms), 0, Names(syms));
    if NamesFound(syms, 0, Names(syms)) { FoundNamesShort(syms, 0, Names(syms)); }
    if AllShort(syms) { ShortNamesFound(syms, 0, Names(syms)); }
  }

  lemma {:induction false} CStringFits(s: seq<Byte>)
    ensures |CString(s)| <= |s|
  {
    if s != [] && s[0] != 0 { CStringFits(s[1..]); }
  }

  // ------------------------------------------------------------ modules

  // Length word, table, cookie, count and records e, in this order.
  lemma BodyParts(w: nat, s: seq<Byte>, l: seq<Byte>, pool: seq<Byte>, c: seq<Byte>, n: seq<Byte>, e: seq<Byte>, isKernel: bool)
    requires |l| == |c| == |n| == w && FromLe(l, w) == |pool| && FromLe(c, w) == COOKIE
    requires s == l + (pool + (c + (n + e)))
    ensures ReadBody(w, s, isKernel) == ReadEntries(w, e, if isKernel then 0 else FromLe(n, w), pool)
  {
    var u := c + (n + e);
    FrontWord(w, l, pool + u);
    assert (pool + u)[..|pool|] == pool && (pool + u)[|pool|..] == u;
    FrontWord(w, c, n + e);
    FrontWord(w, n, e);
  }

  // With any other word where the cookie belongs the daemon stops.
  lemma CookieChecked(w: nat, s: seq<Byte>, l: seq<Byte>, pool: seq<Byte>, c: seq<Byte>, rest: seq<Byte>, isKernel: bool)
    requires |l| == |c| == w <= |rest| && FromLe(l, w) == |pool| && FromLe(c, w) != 0x12345678
    requires s == l + (pool + (c + rest))
    ensures ReadBody(w, s, isKernel) == None
  {
    var u := c + rest;
    FrontWord(w, l, pool + u);
    assert (pool + u)[..|pool|] == pool && (pool + u)[|pool|..] == u;
    FrontWord(w, c, rest);
  }

  lemma SectionsBack(w: nat, w1: seq<Byte>, w2: seq<Byte>, w3: seq<Byte>, w4: seq<Byte>, b: seq<Byte>, s: seq<Byte>)
    requires |w1| == |w2| == |w3| == |w4| == w && s == w1 + (w2 + (w3 + (w4 + b)))
    ensures ReadSections(w, s) == Some((Sections(FromLe(w1, w), FromLe(w2, w), FromLe(w3, w), FromLe(w4, w)), b))
  {
    FrontWord(w, w1, w2 + (w3 + (w4 + b)));
    FrontWord(w, w2, w3 + (w4 + b));
    FrontWord(w, w3, w4 + b);
    FrontWord(w, w4, b);
  }

  lemma NamePart(name: seq<Byte>, t: seq<Byte>, s: seq<Byte>)
    requires Short(name) && s == NameBytes(name) + t
    ensures s != [] && s[0] == |name| + 1 && |s| >= |name| + 2
    ensures CString(s[1..]) == name && s[1..][|name| + 1..] == t
  {
    ShortCopied(name);
    CStringBack(name, t);
    assert s[1..] == name + [0] + t;
  }

  // Name, sections and a body b.
  lemma ModParts(w: nat, s: seq<Byte>, name: seq<Byte>, t: seq<Byte>, sections: Sections, b: seq<Byte>)
    requires Short(name) && s == NameBytes(name) + t && ReadSections(w, t) == Some((sections, b))
    ensures ReadMod(w, s) ==
            match ReadBody(w, b, name == KERNEL)
            case None => None
            case Some((syms, rest)) => Some((ModInfo(name, sections, syms), rest))
  {
    NamePart(name, t, s);
  }

  // The names' running offset fits a word, and so do table length and count.
  ghost predicate SymsFit(w: nat, syms: seq<Sym>) {
    Offset(syms) < Pow256(w)
  }

  lemma {:induction false} OffsetBounds(syms: seq<Sym>)
    ensures |Names(syms)| <= Offset(syms) && |syms| <= Offset(syms)
  {
    OffsetDrift(syms);
    if syms != [] { OffsetBounds(syms[1..]); }
  }

  lemma BodyShape(w: nat, syms: seq<Sym>, t: seq<Byte>)
    ensures Body(w, syms) + t ==
            Le(|Names(syms)|, w) + (Names(syms) + (Le(COOKIE, w) + (Le(|syms|, w) + (Entries(w, syms, 0) + t))))
  {
  }

  lemma BodyBack(w: nat, syms: seq<Sym>, t: seq<Byte>)
    requires COOKIE < Pow256(w) && SymsFit(w, syms)
    ensures ReadBody(w, Body(w, syms) + t, false) ==
            match Found(w, syms, 0, Names(syms)) case None => None case Some(infos) => Some((infos, t))
  {
    OffsetBounds(syms);
    Fits(w, |Names(syms)|);
    Fits(w, COOKIE);
    Fits(w, |syms|);
    BodyShape(w, syms, t);
    BodyParts(w, Body(w, syms) + t, Le(|Names(syms)|, w), Names(syms), Le(COOKIE, w), Le(|syms|, w),
              Entries(w, syms, 0) + t, false);
    EntriesAreRecords(w, syms, 0, t, Entries(w, syms, 0) + t);
    RecordsRead(w, Entries(w, syms, 0) + t, syms, 0, Names(syms), t);
  }

  // The module's name is a C string; its core starts on a multiple of 256, as
  // pages do, or else its name is short.
  ghost predicate ModFits(w: nat, m: Mod) {
    0 !in m.name && (|m.name| < 255 || m.core % 256 == 0) && SymsFit(w, m.syms)
  }

  function SectionsOf(w: nat, m: Mod): Sections {
    var p := Pow256(w);
    Sections(m.core % p, m.textSize % p, (m.core + m.textSize) % p, (m.coreSize - m.textSize) % p)
  }

  // What the daemon should learn of a module.
  function InfoOf(w: nat, m: Mod): ModInfo {
    ModInfo(m.name, SectionsOf(w, m), Infos(w, m.syms))
  }

  lemma RegroupFour(w1: seq<Byte>, w2: seq<Byte>, w3: seq<Byte>, w4: seq<Byte>, b: seq<Byte>)
    ensures w1 + w2 + w3 + w4 + b == w1 + (w2 + (w3 + (w4 + b)))
  {
  }

  lemma SectionBytesBack(w: nat, m: Mod, b: seq<Byte>)
    ensures ReadSections(w, SectionBytes(w, m) + b) == Some((SectionsOf(w, m), b))
  {
    LeBack(m.core, w);
    LeBack(m.textSize, w);
    LeBack(m.core + m.textSize, w);
    LeBack(m.coreSize - m.textSize, w);
    RegroupFour(Le(m.core, w), Le(m.textSize, w), Le(m.core + m.textSize, w), Le(m.coreSize - m.textSize, w), b);
    SectionsBack(w, Le(m.core, w), Le(m.textSize, w), Le(m.core + m.textSize, w), Le(m.coreSize - m.textSize, w),
                 b, SectionBytes(w, m) + b);
  }

  lemma Regroup(a: seq<Byte>, b: seq<Byte>, c: seq<Byte>, t: seq<Byte>)
    ensures a + b + c + t == a + (b + (c + t))
  {
  }

  lemma ModBack(w: nat, m: Mod, t: seq<Byte>, s: seq<Byte>)
    requires COOKIE < Pow256(w) && Short(m.name) && SymsFit(w, m.syms) && m.name != KERNEL && s == ModBytes(w, m) + t
    ensures ReadMod(w, s) ==
            match Found(w, m.syms, 0, Names(m.syms))
            case None => None
            case Some(infos) => Some((ModInfo(m.name, SectionsOf(w, m), infos), t))
  {
    var b := Body(w, m.syms) + t;
    SectionBytesBack(w, m, b);
    BodyBack(w, m.syms, t);
    Regroup(NameBytes(m.name), SectionBytes(w, m), Body(w, m.syms), t);
    ModParts(w, s, m.name, SectionBytes(w, m) + b, SectionsOf(w, m), b);
  }

  lemma KernelRegroup(n: seq<Byte>, z: seq<Byte>, c: seq<Byte>, t: seq<Byte>)
    ensures n + z + z + z + z + z + c + z + t == n + (z + z + z + z + (z + ([] + (c + (z + t)))))
  {
  }

  lemma KernelBody(w: nat, t: seq<Byte>)
    requires COOKIE < Pow256(w)
    ensures ReadBody(w, Le(0, w) + ([] + (Le(COOKIE, w) + (Le(0, w) + t))), true) == Some(([], t))
  {
    var z := Le(0, w);
    Fits(w, 0);
    Fits(w, COOKIE);
    BodyParts(w, z + ([] + (Le(COOKIE, w) + (z + t))), z, [], Le(COOKIE, w), z, t, true);
  }

  lemma KernelShape(w: nat, t: seq<Byte>, b: seq<Byte>)
    requires b == Le(0, w) + ([] + (Le(COOKIE, w) + (Le(0, w) + t)))
    ensures KernelBytes(w) + t == NameBytes(KERNEL) + (SectionBytes(w, KERNEL_MOD) + b)
  {
    assert NameBytes(KERNEL) == [7] + Strncpy(KERNEL, 7);
    KernelRegroup([7] + Strncpy(KERNEL, 7), Le(0, w), Le(COOKIE, w), t);
  }

  lemma KernelBack(w: nat, t: seq<Byte>, s: seq<Byte>)
    requires COOKIE < Pow256(w) && s == KernelBytes(w) + t
    ensures ReadMod(w, s) == Some((InfoOf(w, KERNEL_MOD), t))
  {
    var b := Le(0, w) + ([] + (Le(COOKIE, w) + (Le(0, w) + t)));
    KernelShape(w, t, b);
    KernelBody(w, t);
    KernelParts(w, KERNEL_MOD, b, t, s);
  }

  // A module called "kernel" whose body b is read without symbols.
  lemma KernelParts(w: nat, m: Mod, b: seq<Byte>, t: seq<Byte>, s: seq<Byte>)
    requires m.name == KERNEL && ReadBody(w, b, true) == Some(([], t))
    requires s == NameBytes(m.name) + (SectionBytes(w, m) + b)
    ensures ReadMod(w, s) == Some((ModInfo(KERNEL, SectionsOf(w, m), []), t))
  {
    SectionBytesBack(w, m, b);
    ModParts(w, s, m.name, SectionBytes(w, m) + b, SectionsOf(w, m), b);
  }

  // A loadable module called "kernel" with symbols is read without them, and the
  // reader is left standing on its first record.
  lemma KernelNamesake(w: nat, m: Mod, t: seq<Byte>, s: seq<Byte>)
    requires COOKIE < Pow256(w) && m.name == KERNEL && SymsFit(w, m.syms) && s == ModBytes(w, m) + t
    ensures ReadMod(w, s) == Some((ModInfo(KERNEL, SectionsOf(w, m), []), Entries(w, m.syms, 0) + t))
  {
    var b := Body(w, m.syms) + t;
    NamesakeBody(w, m.syms, t);
    Regroup(NameBytes(m.name), SectionBytes(w, m), Body(w, m.syms), t);
    KernelParts(w, m, b, Entries(w, m.syms, 0) + t, s);
  }

  lemma NamesakeBody(w: nat, syms: seq<Sym>, t: seq<Byte>)
    requires COOKIE < Pow256(w) && SymsFit(w, syms)
    ensures ReadBody(w, Body(w, syms) + t, true) == Some(([], Entries(w, syms, 0) + t))
  {
    OffsetBounds(syms);
    Fits(w, |Names(syms)|);
    Fits(w, COOKIE);
    BodyShape(w, syms, t);
    BodyParts(w, Body(w, syms) + t, Le(|Names(syms)|, w), Names(syms), Le(COOKIE, w), Le(|syms|, w),
              Entries(w, syms, 0) + t, true);
  }

  // The name read is the C string after the length.
  lemma NameRead(w: nat, s: seq<Byte>, name: seq<Byte>)
    requires s != [] && CString(s[1..]) == name
    ensures ReadMod(w, s).Some? ==> ReadMod(w, s).value.0.name == name
  {
  }

  lemma CutCopy(name: seq<Byte>, n: nat)
    requires n <= |name|
    ensures Strncpy(name, n) == name[..n]
  {
  }

  lemma LowByte(x: int, w: nat)
    requires w > 0 && x % 256 == 0
    ensures Le(x, w) == [0] + Le(x / 256, w - 1)
  {
  }

  lemma RegroupLong(k: Byte, cut: seq<Byte>, a: seq<Byte>, b: seq<Byte>, c: seq<Byte>, d: seq<Byte>, e: seq<Byte>,
                    t: seq<Byte>, s: seq<Byte>)
    requires s == [k] + cut + ([0] + a + b + c + d) + e + t
    ensures s != [] && s[1..] == cut + [0] + (a + b + c + d + e + t)
  {
  }

  // The copy of a name of 255 bytes or more is cut, and the first byte of the
  // core's address ends it.
  lemma LongNameCut(w: nat, m: Mod, t: seq<Byte>, s: seq<Byte>, a: seq<Byte>, b: seq<Byte>, c: seq<Byte>,
                    d: seq<Byte>, cut: seq<Byte>)
    requires Le(m.core, w) == [0] + a && Le(m.textSize, w) == b
    requires Le(m.core + m.textSize, w) == c && Le(m.coreSize - m.textSize, w) == d
    requires Strncpy(m.name, NameLen(m.name)) == cut && s == ModBytes(w, m) + t
    ensures s == [NameLen(m.name)] + cut + ([0] + a + b + c + d) + Body(w, m.syms) + t
  {
    assert SectionBytes(w, m) == [0] + a + b + c + d;
    assert NameBytes(m.name) == [NameLen(m.name)] + cut;
  }

  // A module whose name has 255 bytes or more is read with a shorter one.
  lemma LongNameLost(w: nat, m: Mod, t: seq<Byte>, s: seq<Byte>)
    requires w > 0 && 0 !in m.name && |m.name| >= 255 && m.core % 256 == 0 && s == ModBytes(w, m) + t
    ensures ReadMod(w, s).Some? ==> ReadMod(w, s).value.0.name != m.name
  {
    var cut := m.name[..NameLen(m.name)];
    var a, b, c, d := Le(m.core / 256, w - 1), Le(m.textSize, w), Le(m.core + m.textSize, w),
                      Le(m.coreSize - m.textSize, w);
    CutCopy(m.name, NameLen(m.name));
    LowByte(m.core, w);
    LongNameCut(w, m, t, s, a, b, c, d, cut);
    RegroupLong(NameLen(m.name), cut, a, b, c, d, Body(w, m.syms), t, s);
    CutName(w, s, m.name, cut, a + b + c + d + Body(w, m.syms) + t);
  }

  lemma CutName(w: nat, s: seq<Byte>, name: seq<Byte>, cut: seq<Byte>, rest: seq<Byte>)
    requires s != [] && s[1..] == cut + [0] + rest && 0 !in cut && |cut| < |name|
    ensures ReadMod(w, s).Some? ==> ReadMod(w, s).value.0.name != name
  {
    CStringBack(cut, rest);
    NameRead(w, s, cut);
  }

  // A module the daemon can read: its name and those of its symbols have fewer
  // than 255 bytes, or it is called "kernel" and has no symbols.
  ghost predicate Readable(m: Mod) {
    |m.name| < 255 && if m.name == KERNEL then m.syms == [] else AllShort(m.syms)
  }

  // Such a module is read back with what follows it; of any other the daemon
  // learns something else, or stops.
  lemma ModReadIff(w: nat, m: Mod, t: seq<Byte>, s: seq<Byte>)
    requires COOKIE < Pow256(w) && ModFits(w, m) && s == ModBytes(w, m) + t
    ensures Readable(m) ==> ReadMod(w, s) == Some((InfoOf(w, m), t))
    ensures !Readable(m) && ReadMod(w, s).Some? ==> ReadMod(w, s).value.0 != InfoOf(w, m)
  {
    if |m.name| >= 255 {
      assert w > 0;
      LongNameLost(w, m, t, s);
    } else if m.name == KERNEL {
      KernelNamesake(w, m, t, s);
      if m.syms == [] { assert Entries(w, m.syms, 0) + t == t; }
    } else {
      ModBack(w, m, t, s);
      FoundIff(w, m.syms, 0, Names(m.syms));
      NamesFoundIff(m.syms);
    }
  }

  // ------------------------------------------------------------ the whole table

  // The modules, and the kernel after them.
  function AllInfos(w: nat, mods: seq<Mod>): (infos: seq<ModInfo>)
    ensures |infos| == |mods| + 1
  {
    if mods == [] then [InfoOf(w, KERNEL_MOD)] else [InfoOf(w, mods[0])] + AllInfos(w, mods[1..])
  }

  function Flatten(parts: seq<seq<Byte>>): seq<Byte> {
    if parts == [] then [] else parts[0] + Flatten(parts[1..])
  }

  // A reader that inverts the good parts, and makes something else of the others,
  // reads them all back in a row exactly when all are good.
  lemma {:induction false} FlattenIff<T>(read: Reader<T>, parts: seq<seq<Byte>>, items: seq<T>, good: seq<bool>)
    requires |parts| == |items| == |good|
    requires forall i, t: seq<Byte> :: 0 <= i < |parts| && good[i] ==> read(parts[i] + t) == Some((items[i], t))
    requires forall i, t: seq<Byte> :: 0 <= i < |parts| && !good[i] ==>
               read(parts[i] + t).None? || read(parts[i] + t).value.0 != items[i]
    ensures ReadAll(read, Flatten(parts), |parts|) == Some((items, [])) <==> forall i :: 0 <= i < |good| ==> good[i]
    decreases |parts|
  {
    if parts != [] {
      var t := Flatten(parts[1..]);
      FlattenIff(read, parts[1..], items[1..], good[1..]);
      assert items == [items[0]] + items[1..];
      assert good == [good[0]] + good[1..];
      if read(parts[0] + t).Some? {
        ReadNext(read, parts[0] + t, |parts| - 1, items[0], items[1..]);
      }
    }
  }

  lemma ReadNext<T>(read: Reader<T>, s: seq<Byte>, n: nat, item: T, items: seq<T>)
    requires read(s).Some?
    ensures ReadAll(read, s, n + 1) == Some(([item] + items, [])) <==>
              read(s).value.0 == item && ReadAll(read, read(s).value.1, n) == Some((items, []))
  {
    var rest := ReadAll(read, read(s).value.1, n);
    if rest.Some? { ConsSame(read(s).value.0, rest.value.0, item, items); }
  }

  function Parts(w: nat, mods: seq<Mod>): (parts: seq<seq<Byte>>)
    ensures |parts| == |mods| + 1
  {
    if mods == [] then [KernelBytes(w)] else [ModBytes(w, mods[0])] + Parts(w, mods[1..])
  }

  lemma {:induction false} PartsFlat(w: nat, mods: seq<Mod>)
    ensures Flatten(Parts(w, mods)) == AllMods(w, mods) + KernelBytes(w)
  {
    var parts := Parts(w, mods);
    if mods == [] {
      assert parts[1..] == [];
    } else {
      PartsFlat(w, mods[1..]);
      assert parts[1..] == Parts(w, mods[1..]);
      Associate(ModBytes(w, mods[0]), AllMods(w, mods[1..]), KernelBytes(w));
    }
  }

  ghost function Goods(mods: seq<Mod>): (good: seq<bool>)
    ensures |good| == |mods| + 1 && good[|mods|] && forall i :: 0 <= i < |mods| ==> good[i] == Readable(mods[i])
  {
    seq(|mods| + 1, i requires 0 <= i <= |mods| => i == |mods| || Readable(mods[i]))
  }

  lemma {:induction false} PartRead(w: nat, mods: seq<Mod>, i: nat, t: seq<Byte>, s: seq<Byte>)
    requires COOKIE < Pow256(w) && i <= |mods| && (forall j :: 0 <= j < |mods| ==> ModFits(w, mods[j]))
    requires s == Parts(w, mods)[i] + t
    ensures i == |mods| || Readable(mods[i]) ==> ReadMod(w, s) == Some((AllInfos(w, mods)[i], t))
    ensures i < |mods| && !Readable(mods[i]) && ReadMod(w, s).Some? ==> ReadMod(w, s).value.0 != AllInfos(w, mods)[i]
  {
    if mods == [] {
      KernelBack(w, t, s);
    } else if i == 0 {
      ModReadIff(w, mods[0], t, s);
    } else {
      LaterPart(w, mods, i);
      PartRead(w, mods[1..], i - 1, t, s);
    }
  }

  lemma LaterPart(w: nat, mods: seq<Mod>, i: nat)
    requires mods != [] && 1 <= i <= |mods|
    ensures Parts(w, mods)[i] == Parts(w, mods[1..])[i - 1] && AllInfos(w, mods)[i] == AllInfos(w, mods[1..])[i - 1]
  {
  }

  lemma {:induction false} ReadAllCount<T>(read: Reader<T>, s: seq<Byte>, n: nat)
    ensures ReadAll(read, s, n).Some? ==> |ReadAll(read, s, n).value.0| == n
    decreases n
  {
    if n > 0 && read(s).Some? {
      ReadAllCount(read, read(s).value.1, n - 1);
    }
  }

  lemma Cons(b: Byte, x: seq<Byte>, y: seq<Byte>, s: seq<Byte>)
    requires s == [b] + x + y
    ensures s != [] && s[0] == b && s[1..] == x + y
  {
  }

  // The daemon's whole reading, from the count byte on.
  lemma ReadFrom(w: nat, s: seq<Byte>, n: nat, t: seq<Byte>)
    requires s != [] && s[0] == n && s[1..] == t
    ensures Read(w, s) == ReadAll(ModReader(w), t, n)
  {
  }

  ghost predicate AllReadable(mods: seq<Mod>) {
    forall i :: 0 <= i < |mods| ==> Readable(mods[i])
  }

  ghost predicate AllFit(w: nat, mods: seq<Mod>) {
    COOKIE < Pow256(w) && forall i :: 0 <= i < |mods| ==> ModFits(w, mods[i])
  }

  lemma AllPartsIff(w: nat, mods: seq<Mod>)
    requires AllFit(w, mods)
    ensures ReadAll(ModReader(w), Flatten(Parts(w, mods)), |mods| + 1) == Some((AllInfos(w, mods), [])) <==> AllReadable(mods)
  {
    var read, parts, infos, good := ModReader(w), Parts(w, mods), AllInfos(w, mods), Goods(mods);
    forall i, t: seq<Byte> | 0 <= i <= |mods|
      ensures good[i] ==> read(parts[i] + t) == Some((infos[i], t))
      ensures !good[i] ==> read(parts[i] + t).None? || read(parts[i] + t).value.0 != infos[i]
    {
      PartRead(w, mods, i, t, parts[i] + t);
    }
    FlattenIff(read, parts, infos, good);
  }

  lemma FewReadIff(w: nat, mods: seq<Mod>, s: seq<Byte>)
    requires AllFit(w, mods) && |mods| < 255
    requires s != [] && s[0] == |mods| + 1 && s[1..] == Flatten(Parts(w, mods))
    ensures Read(w, s) == Some((AllInfos(w, mods), [])) <==> AllReadable(mods)
  {
    AllPartsIff(w, mods);
    ReadFrom(w, s, |mods| + 1, Flatten(Parts(w, mods)));
  }

  lemma ReadCount(w: nat, s: seq<Byte>)
    requires s != []
    ensures Read(w, s).Some? ==> |Read(w, s).value.0| == s[0]
  {
    ReadAllCount(ModReader(w), s[1..], s[0]);
  }

  lemma WrittenFrame(w: nat, mods: seq<Mod>, s: seq<Byte>)
    requires s == Written(w, mods)
    ensures s != [] && s[0] == CountByte(|mods|) && s[1..] == Flatten(Parts(w, mods))
  {
    Cons(CountByte(|mods|), AllMods(w, mods), KernelBytes(w), s);
    PartsFlat(w, mods);
  }

  lemma CountByteIff(n: nat)
    ensures CountByte(n) == n + 1 <==> n < 255
  {
  }

  lemma FramedRoundTrip(w: nat, mods: seq<Mod>, s: seq<Byte>)
    requires AllFit(w, mods)
    requires s != [] && s[0] == CountByte(|mods|) && s[1..] == Flatten(Parts(w, mods))
    ensures Read(w, s) == Some((AllInfos(w, mods), [])) <==> |mods| < 255 && AllReadable(mods)
  {
    CountByteIff(|mods|);
    if |mods| < 255 {
      FewReadIff(w, mods, s);
    } else {
      ReadCount(w, s);
      var infos := AllInfos(w, mods);
      assert Read(w, s) != Some((infos, []));
    }
  }

  // The daemon reads back exactly the modules, with every section, symbol and
  // name, and not a byte more or less, if and only if fewer than 255 are loaded
  // and each is readable.
  lemma RoundTripIff(w: nat, mods: seq<Mod>, s: seq<Byte>)
    requires AllFit(w, mods) && s == Written(w, mods)
    ensures Read(w, s) == Some((AllInfos(w, mods), [])) <==> |mods| < 255 && AllReadable(mods)
  {
    WrittenFrame(w, mods, s);
    FramedRoundTrip(w, mods, s);
  }

  // At 255 modules the count byte wraps to 0 and the daemon sees none of them.
  lemma CountWraps(w: nat, mods: seq<Mod>, s: seq<Byte>)
    requires |mods| % 256 == 255 && s == Written(w, mods)
    ensures Read(w, s) == Some(([], s[1..]))
  {
    Cons(CountByte(|mods|), AllMods(w, mods), KernelBytes(w), s);
    ReadFrom(w, s, 0, s[1..]);
  }

  // The daemon asks for the size, fetches the table and reads it.  What it was
  // told is what it consumes, and all is read back, exactly in those cases.
  lemma DaemonAcceptsIff(w: nat, mods: seq<Mod>, s: seq<Byte>)
    requires AllFit(w, mods) && s == Written(w, mods) && |s| < P32
    ensures Reported(w, mods) == |s| && Read(w, s) == Some((AllInfos(w, mods), [])) <==>
              |mods| < 255 && AllReadable(mods)
  {
    ReportedIff(w, mods);
    RoundTripIff(w, mods, s);
  }
}
