/** What the allocation log keeps over every run, and what its padding achieves. */
module AllocLogProofs {
  import opened Arith
  import opened Wrappers
  import opened AllocLogSpec

  // ------------------------------------------------------------ counting

  lemma CountOne(c: Block, b: Block)
    ensures Count([c], b) == if c == b then 1 else 0
  {
    var one := [c];
    assert one[1..] == [];
  }

  lemma {:induction false} CountAppend(held: seq<Block>, c: Block, b: Block)
    ensures Count(held + [c], b) == Count(held, b) + if c == b then 1 else 0
  {
    if held != [] {
      assert (held + [c])[1..] == held[1..] + [c];
      CountAppend(held[1..], c, b);
    }
  }

  lemma {:induction false} CountWithout(held: seq<Block>, c: Block, b: Block)
    requires Count(held, c) > 0
    ensures Count(Without(held, c), b) == Count(held, b) - if c == b then 1 else 0
  {
    if held[0] != c {
      CountWithout(held[1..], c, b);
    }
  }

  lemma {:induction false} LoggedAppend(v: seq<Req>, r: Req, b: Block)
    ensures Logged(v + [r], b) == Logged(v, b) + if r.block == b then 1 else 0
  {
    if v != [] {
      assert (v + [r])[1..] == v[1..] + [r];
      LoggedAppend(v[1..], r, b);
    }
  }

  lemma {:induction false} LoggedUpdate(v: seq<Req>, i: nat, r: Req, b: Block)
    requires i < |v|
    ensures Logged(v[i := r], b) == Logged(v, b) - (if v[i].block == b then 1 else 0) + if r.block == b then 1 else 0
  {
    if i > 0 {
      assert v[i := r][1..] == v[1..][i - 1 := r];
      LoggedUpdate(v[1..], i - 1, r, b);
    }
  }

  // Moving the last record into place i removes record i and nothing else.
  lemma LoggedRemoved(v: seq<Req>, i: nat, b: Block)
    requires i < |v|
    ensures Logged(Removed(v, i), b) == Logged(v, b) - if v[i].block == b then 1 else 0
  {
    var last := v[|v| - 1];
    var w := v[i := last];
    LoggedUpdate(v, i, last, b);
    assert w == w[..|v| - 1] + [last];
    LoggedAppend(w[..|v| - 1], last, b);
  }

  lemma {:induction false} LoggedAt(v: seq<Req>, i: nat)
    requires i < |v|
    ensures Logged(v, v[i].block) > 0
  {
    if i > 0 { LoggedAt(v[1..], i - 1); }
  }

  // ------------------------------------------------------------ conservation

  lemma ApplyGot(held: seq<Block>, b: Block)
    ensures Apply(held, [Got(b)]) == Some(held + [b])
  {
    var e := [Got(b)];
    assert e[1..] == [];
  }

  lemma ApplyGave(held: seq<Block>, b: Block)
    requires Count(held, b) > 0
    ensures Apply(held, [Gave(b)]) == Some(Without(held, b))
  {
    var e := [Gave(b)];
    assert e[1..] == [];
  }

  lemma {:induction false} ApplyAppend(held: seq<Block>, e: seq<Event>, f: seq<Event>)
    requires Apply(held, e).Some?
    ensures Apply(held, e + f) == Apply(Apply(held, e).value, f)
    decreases |e|
  {
    if e == [] {
      assert e + f == f;
    } else {
      assert (e + f)[1..] == e[1..] + f;
      match e[0]
      case Got(b) => ApplyAppend(held + [b], e[1..], f);
      case Gave(b) => ApplyAppend(Without(held, b), e[1..], f);
    }
  }

  // The events leave the count of every block as it was, plus one of `extra`.
  ghost predicate Adds(held: seq<Block>, e: seq<Event>, extra: seq<Block>) {
    Apply(held, e).Some? && forall b :: Count(Apply(held, e).value, b) == Count(held, b) + Count(extra, b)
  }

  lemma AddsGot(held: seq<Block>, c: Block)
    ensures Adds(held, [Got(c)], [c])
  {
    ApplyGot(held, c);
    forall b ensures Count(held + [c], b) == Count(held, b) + Count([c], b) {
      CountAppend(held, c, b);
      CountOne(c, b);
    }
  }

  // Giving back the block just taken.
  lemma AddsGave(held: seq<Block>, e: seq<Event>, c: Block)
    requires Adds(held, e, [c])
    ensures Adds(held, e + [Gave(c)], [])
  {
    var mid := Apply(held, e).value;
    CountOne(c, c);
    ApplyAppend(held, e, [Gave(c)]);
    ApplyGave(mid, c);
    forall b ensures Count(Without(mid, c), b) == Count(held, b) + Count([], b) {
      CountWithout(mid, c, b);
      CountOne(c, b);
    }
  }

  // A call of an allocate_* routine keeps its block exactly when it succeeds.
  lemma TryAdds(held: seq<Block>, ty: Word, nbytes: Word, align: Word, a: Answer)
    ensures var (t, e) := TryOnce(ty, nbytes, align, a);
            (t.Yes? ==> Adds(held, e, [Block(ty, t.addr, t.mapped, nbytes)])) && (t.No? ==> Adds(held, e, []))
            && Apply(held, e).Some?
  {
    var c := Block(ty, a.addr, if ty == NUCLEUS then a.mapped else a.addr, nbytes);
    AddsGot(held, c);
    AddsGave(held, [Got(c)], c);
    assert [Got(c)] + [Gave(c)] == [Got(c), Gave(c)];
  }

  lemma PaddedAdds(held: seq<Block>, ty: Word, nbytes: Word, align: Word, a: Answer)
    requires align >= 4
    ensures var (o, e) := Padded(ty, nbytes, align, a);
            (o.Granted? ==> Adds(held, e, [o.block])) && (o.Failed? ==> Adds(held, e, [])) && Apply(held, e).Some?
  {
    var size: Word := (nbytes + (align - 4)) % P32;
    TryAdds(held, ty, size, 1, a);
    var (t, e) := TryOnce(ty, size, 1, a);
    if t.Yes? {
      AddsGave(held, e, Block(ty, t.addr, t.mapped, size));
    }
  }

  // allocate() holds one block more when it succeeds, and none when it fails,
  // whichever attempt failed and for whatever reason.
  lemma AllocateAdds(held: seq<Block>, q: Request)
    ensures var (o, e) := Allocate(q.ty, q.nbytes, q.align, q.a1, q.a2);
            (o.Granted? ==> Adds(held, e, [o.block])) && (o.Failed? ==> Adds(held, e, [])) && Apply(held, e).Some?
  {
    TryAdds(held, q.ty, q.nbytes, q.align, q.a1);
    var (t, e) := TryOnce(q.ty, q.nbytes, q.align, q.a1);
    if t.No? && q.align >= 4 {
      var mid := Apply(held, e).value;
      PaddedAdds(mid, q.ty, q.nbytes, q.align, q.a2);
      var (o, e2) := Padded(q.ty, q.nbytes, q.align, q.a2);
      ApplyAppend(held, e, e2);
    }
  }

  ghost predicate TypesOk(v: seq<Req>) {
    forall i :: 0 <= i < |v| ==> Backed(v[i].block.ty)
  }

  lemma AllocConserves(v: seq<Req>, held: seq<Block>, q: Request)
    requires Conserved(held, v) && TypesOk(v)
    ensures var (o, v', e) := DoAlloc(v, q);
            && Apply(held, e).Some?
            && TypesOk(v')
            && (!o.Panic? ==> Conserved(Apply(held, e).value, v'))
            && (v' != v <==> o.Granted?)
  {
    if Backed(q.ty) {
      AllocateAdds(held, q);
      var (o, v', e) := DoAlloc(v, q);
      if o.Granted? {
        forall b ensures Count(Apply(held, e).value, b) == Logged(v', b) {
          LoggedAppend(v, v'[|v|], b);
          CountOne(o.block, b);
        }
        GrantedType(q);
      }
    }
  }

  lemma GrantedType(q: Request)
    ensures var o := Allocate(q.ty, q.nbytes, q.align, q.a1, q.a2).0;
            o.Granted? ==> o.block.ty == q.ty
  {
  }

  // free() gives back only a block that is held, with the size it was taken with.
  lemma FreeConserves(v: seq<Req>, held: seq<Block>, addr: Kptr, mapped: Kptr, nbytes: Word)
    requires Conserved(held, v) && TypesOk(v)
    ensures var (v', e) := DoFree(v, addr, mapped, nbytes);
            Apply(held, e).Some? && Conserved(Apply(held, e).value, v') && TypesOk(v')
  {
    var i := IndexOf(v, addr, mapped, nbytes);
    if addr != 0 && i < |v| {
      var c := v[i].block;
      LoggedAt(v, i);
      ApplyGave(held, c);
      forall b ensures Count(Without(held, c), b) == Logged(Removed(v, i), b) {
        CountWithout(held, c, b);
        LoggedRemoved(v, i, b);
      }
    }
  }

  // undo() gives back every block held, each once and with its size.
  lemma {:induction false} UndoReleasesAll(v: seq<Req>, held: seq<Block>)
    requires Conserved(held, v)
    ensures Apply(held, UndoEvents(v)) == Some([])
    decreases |v|
  {
    if v == [] {
      if held != [] { assert Count(held, held[0]) > 0; }
    } else {
      var c := v[0].block;
      forall b ensures Count(Without(held, c), b) == Logged(v[1..], b) { CountWithout(held, c, b); }
      UndoReleasesAll(v[1..], Without(held, c));
      assert UndoEvents(v)[1..] == UndoEvents(v[1..]);
    }
  }

  // ------------------------------------------------------------ runs

  datatype Op = Alloc(q: Request) | Free(addr: Kptr, mapped: Kptr, nbytes: Word)

  // After a panic nothing more happens.
  datatype World = World(v: seq<Req>, held: Option<seq<Block>>, halted: bool)

  function Step(w: World, op: Op): World {
    if w.halted || w.held.None? then w
    else
      match op
      case Alloc(q) =>
        var (o, v', e) := DoAlloc(w.v, q);
        World(v', Apply(w.held.value, e), o.Panic?)
      case Free(addr, mapped, nbytes) =>
        var (v', e) := DoFree(w.v, addr, mapped, nbytes);
        World(v', Apply(w.held.value, e), false)
  }

  function Run(w: World, ops: seq<Op>): World
    decreases |ops|
  {
    if ops == [] then w else Run(Step(w, ops[0]), ops[1..])
  }

  ghost predicate Good(w: World) {
    w.held.Some? && TypesOk(w.v) && (!w.halted ==> Conserved(w.held.value, w.v))
  }

  lemma {:induction false} RunKeepsGood(w: World, ops: seq<Op>)
    requires Good(w)
    ensures Good(Run(w, ops))
    decreases |ops|
  {
    if ops != [] {
      if !w.halted {
        match ops[0]
        case Alloc(q) => AllocConserves(w.v, w.held.value, q);
        case Free(addr, mapped, nbytes) => FreeConserves(w.v, w.held.value, addr, mapped, nbytes);
      }
      RunKeepsGood(Step(w, ops[0]), ops[1..]);
    }
  }

  // From an empty log, whatever the allocators answer: no block is ever given
  // back that is not held, the blocks held are those logged, and undo gives
  // back all of them.
  lemma AnyRunConserves(ops: seq<Op>)
    ensures var w := Run(World([], Some([]), false), ops);
            && w.held.Some?
            && TypesOk(w.v)
            && (!w.halted ==> Conserved(w.held.value, w.v) && Apply(w.held.value, UndoEvents(w.v)) == Some([]))
  {
    RunKeepsGood(World([], Some([]), false), ops);
    var w := Run(World([], Some([]), false), ops);
    if !w.halted { UndoReleasesAll(w.v, w.held.value); }
  }

  // free() takes exactly the first record that matches in address, mapping and
  // size, gives its block back and moves the last record into its place; null, or
  // an address nothing matches, changes nothing.
  lemma FreeExact(v: seq<Req>, addr: Kptr, mapped: Kptr, nbytes: Word, i: nat)
    requires i <= |v|
    requires forall j :: 0 <= j < i ==> (v[j].prettyAddr, v[j].prettyMapped, v[j].prettyBytes) != (addr, mapped, nbytes)
    requires i < |v| ==> (v[i].prettyAddr, v[i].prettyMapped, v[i].prettyBytes) == (addr, mapped, nbytes)
    ensures var (v', e) := DoFree(v, addr, mapped, nbytes);
            && (addr == 0 || i == |v| ==> v' == v && e == [])
            && (addr != 0 && i < |v| ==>
                  && e == [Gave(v[i].block)] && |v'| == |v| - 1
                  && forall j :: 0 <= j < |v'| ==> v'[j] == v[if j == i then |v| - 1 else j])
  {
    var k := IndexOf(v, addr, mapped, nbytes);
    assert k == i;
  }
}
