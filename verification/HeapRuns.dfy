/** Every run of alloc() and free(): disjointness, conservation and growth. */
module HeapRuns {
  import opened Arith
  import opened Wrappers
  import opened HeapSpec
  import opened HeapProofs

  // `raw` is what create_subheap would answer if it is asked.
  datatype Op = Alloc(raw: Option<nat>) | Free(p: nat)

  // The heap together with the chunks its callers hold.
  datatype World = World(h: Heap, out: set<nat>)

  // The first subheap exists and sizes are positive.
  predicate Shaped(w: World) {
    w.h.subs != [] && w.h.sz > 0 && w.h.per > 0
  }

  function Step(w: World, op: Op): (w': World)
    requires Shaped(w)
    ensures Shaped(w')
  {
    match op
    case Alloc(raw) =>
      var (h', p) := DoAlloc(w.h, raw);
      World(h', if p == 0 then w.out else w.out + {p})
    case Free(p) =>
      if p == 0 then w
      else
        match Push(w.h.subs, w.h.sz, p)
        case None => w
        case Some(subs) => World(w.h.(subs := subs), w.out - {p})
  }

  // Callers free only null or what they hold.
  ghost predicate Allowed(w: World, op: Op)
    requires Shaped(w)
  {
    match op
    case Alloc(raw) => Grants(w.h, raw)
    case Free(p) => p == 0 || p in w.out
  }

  ghost predicate Fine(w: World) {
    w.h.subs != [] && HeapOk(w.h, w.out) && Geometric(w.h.subs)
  }

  ghost predicate AllowedRun(w: World, ops: seq<Op>)
    requires Shaped(w)
    decreases |ops|
  {
    ops == [] || (Allowed(w, ops[0]) && AllowedRun(Step(w, ops[0]), ops[1..]))
  }

  function Run(w: World, ops: seq<Op>): World
    requires Shaped(w)
    decreases |ops|
  {
    if ops == [] then w else Run(Step(w, ops[0]), ops[1..])
  }

  // The list only ever grows at the front, and sizes never change.
  ghost predicate Extends(subs: seq<Sub>, subs': seq<Sub>) {
    && |subs| <= |subs'|
    && forall j, k :: 0 <= j < |subs| && k == j + (|subs'| - |subs|) ==> subs'[k].n == subs[j].n
  }

  lemma GeometricSame(subs: seq<Sub>, subs': seq<Sub>)
    requires Geometric(subs) && SameSizes(subs, subs')
    ensures Geometric(subs') && Extends(subs, subs')
  {
  }

  lemma GeometricGrown(h: Heap, raw: nat)
    requires h.subs != [] && h.per > 0 && Geometric(h.subs) && Grants(h, Some(raw))
    ensures Geometric(Grown(h, raw).subs) && Extends(h.subs, Grown(h, raw).subs)
  {
    NewSizeGrows(h.subs[0].n, h.per);
    var s := Grown(h, raw).subs;
    forall i, j | 0 <= i < j < |s| && j == i + 1 ensures s[i].n > s[j].n && 3 * s[i].n >= 4 * s[j].n {
      if i > 0 { assert s[i] == h.subs[i - 1] && s[j] == h.subs[j - 1]; }
    }
  }

  lemma StepFine(w: World, op: Op)
    requires Fine(w) && Allowed(w, op)
    ensures Fine(Step(w, op)) && Extends(w.h.subs, Step(w, op).h.subs)
  {
    match op
    case Alloc(raw) =>
      var (h', p) := DoAlloc(w.h, raw);
      AllocKeeps(w.h, w.out, raw, h', p);
      AllocGeometric(w.h, w.out, raw);
    case Free(p) =>
      if p != 0 {
        FreeKeeps(w.h, w.out, p);
        GeometricSame(w.h.subs, Push(w.h.subs, w.h.sz, p).value);
      }
  }

  lemma AllocGeometric(h: Heap, out: set<nat>, raw: Option<nat>)
    requires HeapOk(h, out) && h.subs != [] && Grants(h, raw) && Geometric(h.subs)
    ensures DoAlloc(h, raw).0.subs != []
    ensures Geometric(DoAlloc(h, raw).0.subs) && Extends(h.subs, DoAlloc(h, raw).0.subs)
  {
    PopKeeps(h, out, h.(subs := Pop(h.subs).0), Pop(h.subs).1);
    GeometricSame(h.subs, Pop(h.subs).0);
    if Pop(h.subs).1 == 0 && raw.Some? {
      var g := Grown(h, raw.value);
      GrowKeeps(h, out, raw.value);
      GeometricGrown(h, raw.value);
      PopKeeps(g, out, g.(subs := Pop(g.subs).0), Pop(g.subs).1);
      GeometricSame(g.subs, Pop(g.subs).0);
      ExtendsTrans(h.subs, g.subs, Pop(g.subs).0);
    }
  }

  lemma ExtendsTrans(a: seq<Sub>, b: seq<Sub>, c: seq<Sub>)
    requires Extends(a, b) && Extends(b, c)
    ensures Extends(a, c)
  {
    forall j, k | 0 <= j < |a| && k == j + (|c| - |a|) ensures c[k].n == a[j].n {
      var m := j + (|b| - |a|);
      assert b[m].n == a[j].n;
      assert k == m + (|c| - |b|);
    }
  }

  // Over every allowed run free and outstanding chunks stay exactly all chunks.
  lemma {:induction false} RunFine(w: World, ops: seq<Op>)
    requires Fine(w) && AllowedRun(w, ops)
    ensures Fine(Run(w, ops)) && Extends(w.h.subs, Run(w, ops).h.subs)
    decreases |ops|
  {
    if ops != [] {
      StepFine(w, ops[0]);
      RunFine(Step(w, ops[0]), ops[1..]);
      ExtendsTrans(w.h.subs, Step(w, ops[0]).h.subs, Run(w, ops).h.subs);
    }
  }

  // From one fresh subheap: no two chunks held after a run overlap, and after k
  // growths the largest subheap has at least (4/3)^k times the first one's elements.
  lemma FreshHeapRuns(first: Sub, sz: nat, per: nat, ops: seq<Op>)
    requires sz > 0 && per > 0 && first.raw > 0 && first.n % per == 0 && first.n < P32
    requires first.free == Chunks(first.raw, per * sz, first.n / per)
    requires AllowedRun(World(Heap(sz, per, [first]), {}), ops)
    ensures var w := Run(World(Heap(sz, per, [first]), {}), ops);
            && w.h.subs != []
            && HeapOk(w.h, w.out)
            && (forall p, q :: p in w.out && q in w.out && p != q ==>
                                 p + ChunkSize(w.h) <= q || q + ChunkSize(w.h) <= p)
            && Pow(3, |w.h.subs| - 1) * w.h.subs[0].n >= Pow(4, |w.h.subs| - 1) * first.n
  {
    var w0 := World(Heap(sz, per, [first]), {});
    NewSubOk(first, sz, per);
    RunFine(w0, ops);
    var w := Run(w0, ops);
    forall p, q | p in w.out && q in w.out && p != q ensures p + ChunkSize(w.h) <= q || q + ChunkSize(w.h) <= p {
      OutstandingApart(w.h, w.out, p, q);
    }
    GrowthBound(w.h.subs, |w.h.subs| - 1);
    assert w0.h.subs[0].n == w.h.subs[|w.h.subs| - 1].n;
  }

  // Regions 2^32 elements apart do not overlap, but the index is cut to 32 bits
  // and a chunk of the far one goes to the near one's stack.
  lemma FarRegionMisfiles(near: Sub, far: Sub, sz: nat, per: nat)
    requires sz > 0 && 0 < per <= far.n && 0 < near.n < P32 && far.raw == near.raw + P32 * sz
    ensures End(near, sz) <= far.raw && IsChunk(far, sz, per, far.raw)
    ensures Push([near, far], sz, far.raw) == Some([near.(free := near.free + [far.raw]), far])
  {
    MulLt(near.n, P32, sz);
    DivLt(far.n, 1, per);
    assert far.raw == far.raw + 0 * (per * sz);
    DivModUnique(far.raw - near.raw, P32, 0, sz);
    assert Belongs(near, sz, far.raw);
    var subs := [near, far];
    assert [near.(free := near.free + [far.raw])] + subs[1..] == [near.(free := near.free + [far.raw]), far];
  }
}
