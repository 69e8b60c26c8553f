/** The symbol table the Linux driver hands to the daemon: the bytes written, the
size reported, and the daemon's reader.

Every word (an address, an unsigned long, the cookie) has w bytes, low byte
first; w is 4 where both ends are built for the i386. */
module SymTabSpec {
  import opened Arith
  import opened Wrappers

  type Byte = x: int | 0 <= x < 256

  const COOKIE: nat := 0x12345678
  const KERNEL: seq<Byte> := [107, 101, 114, 110, 101, 108]

  // Names are C strings, held without their NUL.
  datatype Sym = Sym(name: seq<Byte>, value: int)
  datatype Mod = Mod(name: seq<Byte>, core: int, textSize: int, coreSize: int, syms: seq<Sym>)

  // ------------------------------------------------------------ writing

  // The low n bytes of x.
  function Le(x: int, n: nat): (s: seq<Byte>)
    ensures |s| == n
    decreases n
  {
    if n == 0 then [] else [x % 256] + Le(x / 256, n - 1)
  }

  // strlen + 1, kept in an unsigned char.
  function NameLen(name: seq<Byte>): Byte { (|name| + 1) % 256 }

  // strncpy: exactly n bytes, cut or filled up with NULs.
  function Strncpy(name: seq<Byte>, n: nat): (s: seq<Byte>)
    ensures |s| == n
  {
    seq(n, i requires 0 <= i < n => if i < |name| then name[i] else 0)
  }

  function Names(syms: seq<Sym>): seq<Byte> {
    if syms == [] then [] else Strncpy(syms[0].name, NameLen(syms[0].name)) + Names(syms[1..])
  }

  // What a name adds to the running offset: its 8-bit strlen, plus one.
  function NameStep(name: seq<Byte>): nat { |name| % 256 + 1 }

  function Entries(w: nat, syms: seq<Sym>, off: nat): seq<Byte> {
    if syms == [] then []
    else Le(syms[0].value, w) + Le(off, w) + Entries(w, syms[1..], off + NameStep(syms[0].name))
  }

  function NameBytes(name: seq<Byte>): seq<Byte> {
    [NameLen(name)] + Strncpy(name, NameLen(name))
  }

  // Start and size of text and data.
  function SectionBytes(w: nat, m: Mod): seq<Byte> {
    Le(m.core, w) + Le(m.textSize, w) + Le(m.core + m.textSize, w) + Le(m.coreSize - m.textSize, w)
  }

  function Body(w: nat, syms: seq<Sym>): seq<Byte> {
    Le(|Names(syms)|, w) + Names(syms) + Le(COOKIE, w) + Le(|syms|, w) + Entries(w, syms, 0)
  }

  function ModBytes(w: nat, m: Mod): seq<Byte> {
    NameBytes(m.name) + SectionBytes(w, m) + Body(w, m.syms)
  }

  function AllMods(w: nat, mods: seq<Mod>): seq<Byte> {
    if mods == [] then [] else ModBytes(w, mods[0]) + AllMods(w, mods[1..])
  }

  // The kernel itself comes last, without sections or symbols.
  const KERNEL_MOD: Mod := Mod(KERNEL, 0, 0, 0, [])

  function KernelBytes(w: nat): seq<Byte> {
    [7] + Strncpy(KERNEL, 7) + Le(0, w) + Le(0, w) + Le(0, w) + Le(0, w) + Le(0, w) + Le(COOKIE, w) + Le(0, w)
  }

  // The module count is an unsigned char.
  function CountByte(n: nat): Byte { (n % 256 + 1) % 256 }

  function Written(w: nat, mods: seq<Mod>): seq<Byte> {
    [CountByte(|mods|)] + AllMods(w, mods) + KernelBytes(w)
  }

  // ------------------------------------------------------------ sizing

  function NamesSize(syms: seq<Sym>): nat {
    if syms == [] then 0 else NameLen(syms[0].name) + NamesSize(syms[1..])
  }

  // A module's share, without the byte for its name's length.
  function ModSize(w: nat, m: Mod): nat {
    NameLen(m.name) + 2 * (w + w) + (w + NamesSize(m.syms)) + w + w + |m.syms| * (w + w)
  }

  function ModsSize(w: nat, mods: seq<Mod>): nat {
    if mods == [] then 0 else ModSize(w, mods[0]) + ModsSize(w, mods[1..])
  }

  function KernelSize(w: nat): nat { 1 + 7 + 2 * w + 4 * w + w }

  // What both passes return, as an `unsigned`.
  function Reported(w: nat, mods: seq<Mod>): nat {
    (1 + |mods| % 256 + ModsSize(w, mods) + KernelSize(w)) % P32
  }

  // ------------------------------------------------------------ reading

  datatype SymInfo = SymInfo(addr: nat, name: seq<Byte>)
  datatype Sections = Sections(textStart: nat, textLen: nat, dataStart: nat, dataLen: nat)
  datatype ModInfo = ModInfo(name: seq<Byte>, sections: Sections, syms: seq<SymInfo>)

  // The number in the first n bytes.
  function FromLe(s: seq<Byte>, n: nat): nat
    requires n <= |s|
    decreases n
  {
    if n == 0 then 0 else var b: int := s[0]; b + 256 * FromLe(s[1..], n - 1)
  }

  function CString(s: seq<Byte>): seq<Byte> {
    if s == [] || s[0] == 0 then [] else [s[0]] + CString(s[1..])
  }

  // n symbol records, their names looked up in the module's string pool.
  function ReadEntries(w: nat, s: seq<Byte>, n: nat, pool: seq<Byte>): Option<(seq<SymInfo>, seq<Byte>)>
    decreases n
  {
    if n == 0 then Some(([], s))
    else if |s| < w + w then None
    else
      var addr, off := FromLe(s, w), FromLe(s[w..], w);
      if off >= |pool| then None
      else
        match ReadEntries(w, s[w + w..], n - 1, pool)
        case None => None
        case Some((infos, rest)) => Some(([SymInfo(addr, CString(pool[off..]))] + infos, rest))
  }

  // String table, cookie and symbols; the kernel's symbols come from System.map.
  function ReadBody(w: nat, s: seq<Byte>, isKernel: bool): Option<(seq<SymInfo>, seq<Byte>)> {
    if |s| < w then None
    else
      var len, t := FromLe(s, w), s[w..];
      if |t| < len + w + w then None
      else
        var pool, u := t[..len], t[len..];
        if FromLe(u, w) != COOKIE then None
        else ReadEntries(w, u[w..][w..], if isKernel then 0 else FromLe(u[w..], w), pool)
  }

  function ReadSections(w: nat, s: seq<Byte>): Option<(Sections, seq<Byte>)> {
    if |s| < w + w + w + w then None
    else
      var s2 := s[w..];
      var s3 := s2[w..];
      var s4 := s3[w..];
      Some((Sections(FromLe(s, w), FromLe(s2, w), FromLe(s3, w), FromLe(s4, w)), s4[w..]))
  }

  function ReadMod(w: nat, s: seq<Byte>): Option<(ModInfo, seq<Byte>)> {
    if s == [] then None
    else
      var nameLen: int := s[0];
      var name, t := CString(s[1..]), s[1..];
      if |t| < nameLen then None
      else
        match ReadSections(w, t[nameLen..])
        case None => None
        case Some((sections, u)) =>
          match ReadBody(w, u, name == KERNEL)
          case None => None
          case Some((syms, rest)) => Some((ModInfo(name, sections, syms), rest))
  }

  type Reader<T> = seq<Byte> -> Option<(T, seq<Byte>)>

  // n items, one after the other.
  function ReadAll<T>(read: Reader<T>, s: seq<Byte>, n: nat): Option<(seq<T>, seq<Byte>)>
    decreases n
  {
    if n == 0 then Some(([], s))
    else
      match read(s)
      case None => None
      case Some((item, t)) =>
        match ReadAll(read, t, n - 1)
        case None => None
        case Some((items, rest)) => Some(([item] + items, rest))
  }

  function ModReader(w: nat): Reader<ModInfo> { r => ReadMod(w, r) }

  // None when the reader aborts or runs past the buffer; otherwise the modules
  // and the bytes left over.
  function Read(w: nat, s: seq<Byte>): Option<(seq<ModInfo>, seq<Byte>)> {
    if s == [] then None else ReadAll(ModReader(w), s[1..], s[0])
  }
}
