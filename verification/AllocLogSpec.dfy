/** The logged aligned allocator, on values.

What the backing allocators answer is an input.  Every block taken from or given
back to one is an event, so that what is held outside the log can be compared
with what the log records. */
module AllocLogSpec {
  import opened Arith
  import opened Wrappers

  type Word = x: int | 0 <= x < P32
  type Kptr = x: int | 0 <= x < P64

  const DATA: Word := 0
  const TRY_NUCLEUS: Word := 1
  const BELOW_NUCLEUS: Word := 2
  const NUCLEUS: Word := 3
  const KMEM32: Word := 4

  predicate Backed(ty: Word) {
    ty == DATA || ty == BELOW_NUCLEUS || ty == NUCLEUS || ty == KMEM32
  }

  // A block of a backing allocator, with its size as asked for.
  datatype Block = Block(ty: Word, addr: Kptr, mapped: Kptr, size: Word)

  // An allocator's answer; only the nucleus allocator maps a block elsewhere.
  datatype Answer = Answer(addr: Kptr, mapped: Kptr)

  // A logged request: what the caller was given, and the block it lies in.
  datatype Req = Req(prettyAddr: Kptr, prettyMapped: Kptr, prettyBytes: Word, block: Block)

  datatype Event = Got(b: Block) | Gave(b: Block)

  // ------------------------------------------------------------ allocation

  // One call of an allocate_* routine; Trap is a division by alignment zero.
  datatype Try = Yes(addr: Kptr, mapped: Kptr) | No | Trap

  function TryAligned(b: Block, align: Word): (Try, seq<Event>) {
    if align == 0 then (Trap, [Got(b)])
    else if b.addr % align == 0 then (Yes(b.addr, b.mapped), [Got(b)])
    else (No, [Got(b), Gave(b)])
  }

  function TryOnce(ty: Word, nbytes: Word, align: Word, a: Answer): (Try, seq<Event>) {
    var b := Block(ty, a.addr, if ty == NUCLEUS then a.mapped else a.addr, nbytes);
    if ty == DATA then TryAligned(b, align)
    else if a.addr == 0 then (No, [])
    else if ty == KMEM32 then TryAligned(b, align)
    else (Yes(b.addr, b.mapped), [Got(b)])
  }

  function RoundUp(x: Kptr, y: Word): (r: Kptr)
    requires y > 0
  {
    var s: Kptr := (x + (y - 1)) % P64;
    DivMulLe(s, y);
    s / y * y
  }

  lemma DivMulLe(x: nat, y: nat)
    requires y > 0
    ensures x / y * y <= x && x < x / y * y + y
  {
    assert x == x / y * y + x % y;
  }

  datatype Outcome = Granted(result: Kptr, mapped: Kptr, block: Block) | Failed | Panic

  // Placing an aligned range in a padded block; Failed is a misaligned mapping.
  function Place(b: Block, nbytes: Word, align: Word): Outcome
    requires align > 0
  {
    var result := RoundUp(b.addr, align);
    var pad: Word := (result - b.addr) % P32;
    var mapped: Kptr := (b.mapped + pad) % P64;
    if result % align != 0 || mapped % align != 0 then Failed
    else if (result + nbytes) % P64 > (b.addr + b.size) % P64 then Panic
    else Granted(result, mapped, b)
  }

  // The second attempt, without alignment but with padding.
  function Padded(ty: Word, nbytes: Word, align: Word, a: Answer): (Outcome, seq<Event>)
    requires align >= 4
  {
    var size: Word := (nbytes + (align - 4)) % P32;
    var (t, e) := TryOnce(ty, size, 1, a);
    if !t.Yes? then (Failed, e)
    else
      var b := Block(ty, t.addr, t.mapped, size);
      var o := Place(b, nbytes, align);
      (o, if o.Failed? then e + [Gave(b)] else e)
  }

  function Allocate(ty: Word, nbytes: Word, align: Word, a1: Answer, a2: Answer): (Outcome, seq<Event>) {
    var (t, e) := TryOnce(ty, nbytes, align, a1);
    if t.Trap? then (Panic, e)
    else if t.Yes? then (Granted(t.addr, t.mapped, Block(ty, t.addr, t.mapped, nbytes)), e)
    else if align == 1 then (Failed, e)
    else if align < 4 || align % 4 != 0 then (Panic, e)
    else
      var (o, e2) := Padded(ty, nbytes, align, a2);
      (o, e + e2)
  }

  datatype Request = Request(ty: Word, nbytes: Word, align: Word, a1: Answer, a2: Answer)

  function DoAlloc(v: seq<Req>, q: Request): (Outcome, seq<Req>, seq<Event>) {
    if q.align > 1 && q.align % 4 != 0 then (Panic, v, [])
    else if q.ty == TRY_NUCLEUS then (Failed, v, [])
    else if !Backed(q.ty) then (Panic, v, [])
    else
      var (o, e) := Allocate(q.ty, q.nbytes, q.align, q.a1, q.a2);
      if !o.Granted? then (o, v, e)
      else if o.block.size < (q.nbytes + (o.result - o.block.addr) % P64) % P64 then (Panic, v, e)
      else (o, v + [Req(o.result, o.mapped, q.nbytes, o.block)], e)
  }

  // ------------------------------------------------------------ release

  predicate Matches(r: Req, addr: Kptr, mapped: Kptr, nbytes: Word) {
    r.prettyAddr == addr && r.prettyMapped == mapped && r.prettyBytes == nbytes
  }

  // The first record that matches, |v| when there is none.
  function IndexOf(v: seq<Req>, addr: Kptr, mapped: Kptr, nbytes: Word): (i: nat)
    ensures i <= |v| && (i < |v| ==> Matches(v[i], addr, mapped, nbytes))
    ensures forall j :: 0 <= j < i ==> !Matches(v[j], addr, mapped, nbytes)
  {
    if v == [] || Matches(v[0], addr, mapped, nbytes) then 0
    else 1 + IndexOf(v[1..], addr, mapped, nbytes)
  }

  // The last record takes the place of record i.
  function Removed(v: seq<Req>, i: nat): seq<Req>
    requires i < |v|
  {
    v[i := v[|v| - 1]][..|v| - 1]
  }

  function DoFree(v: seq<Req>, addr: Kptr, mapped: Kptr, nbytes: Word): (seq<Req>, seq<Event>) {
    var i := IndexOf(v, addr, mapped, nbytes);
    if addr == 0 || i == |v| then (v, []) else (Removed(v, i), [Gave(v[i].block)])
  }

  function UndoEvents(v: seq<Req>): (e: seq<Event>)
    ensures |e| == |v| && forall i :: 0 <= i < |v| ==> e[i] == Gave(v[i].block)
  {
    if v == [] then [] else [Gave(v[0].block)] + UndoEvents(v[1..])
  }

  // ------------------------------------------------------------ the outside

  function Count(held: seq<Block>, b: Block): nat {
    if held == [] then 0 else (if held[0] == b then 1 else 0) + Count(held[1..], b)
  }

  function Logged(v: seq<Req>, b: Block): nat {
    if v == [] then 0 else (if v[0].block == b then 1 else 0) + Logged(v[1..], b)
  }

  function Without(held: seq<Block>, b: Block): seq<Block> {
    if held == [] then [] else if held[0] == b then held[1..] else [held[0]] + Without(held[1..], b)
  }

  // None when a block is given back that is not held.
  function Apply(held: seq<Block>, evs: seq<Event>): Option<seq<Block>>
    decreases |evs|
  {
    if evs == [] then Some(held)
    else
      match evs[0]
      case Got(b) => Apply(held + [b], evs[1..])
      case Gave(b) => if Count(held, b) == 0 then None else Apply(Without(held, b), evs[1..])
  }

  // The blocks held are exactly the blocks logged.
  ghost predicate Conserved(held: seq<Block>, v: seq<Req>) {
    forall b :: Count(held, b) == Logged(v, b)
  }
}
