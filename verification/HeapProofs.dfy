/** What the homogenous heap keeps over every run: chunks handed out never
overlap, free and outstanding chunks are exactly all chunks, and a chunk freed
finds the subheap it came from. */
module HeapProofs {
  import opened Arith
  import opened Wrappers
  import opened HeapSpec

  // A chunk address of the subheap.
  ghost predicate IsChunk(sub: Sub, sz: nat, per: nat, p: nat)
    requires sz > 0 && per > 0
  {
    exists k :: 0 <= k < sub.n / per && p == sub.raw + k * (per * sz)
  }

  ghost function End(sub: Sub, sz: nat): nat {
    sub.raw + sub.n * sz
  }

  ghost predicate SubOk(sub: Sub, sz: nat, per: nat)
    requires sz > 0 && per > 0
  {
    && sub.raw > 0 && sub.n % per == 0 && sub.n < P32
    && Distinct(sub.free)
    && (forall i :: 0 <= i < |sub.free| ==> IsChunk(sub, sz, per, sub.free[i]))
  }

  // Regions do not overlap, and lie close enough that an element index counted
  // from one region's start into another fits in 32 bits.
  ghost predicate Apart(a: Sub, b: Sub, sz: nat) {
    && (End(a, sz) <= b.raw || End(b, sz) <= a.raw)
    && End(a, sz) <= b.raw + P32 * sz && End(b, sz) <= a.raw + P32 * sz
  }

  ghost predicate AllApart(subs: seq<Sub>, sz: nat) {
    forall i, j :: 0 <= i < j < |subs| ==> Apart(subs[i], subs[j], sz)
  }

  // Outstanding and free chunks are exactly all chunks.
  ghost predicate Accounted(sub: Sub, sz: nat, per: nat, out: set<nat>)
    requires sz > 0 && per > 0
  {
    forall p :: IsChunk(sub, sz, per, p) ==> (p in sub.free <==> p !in out)
  }

  ghost predicate Owned(subs: seq<Sub>, sz: nat, per: nat, p: nat)
    requires sz > 0 && per > 0
  {
    exists i :: 0 <= i < |subs| && IsChunk(subs[i], sz, per, p)
  }

  ghost predicate HeapOk(h: Heap, out: set<nat>) {
    && h.sz > 0 && h.per > 0
    && (forall i :: 0 <= i < |h.subs| ==> SubOk(h.subs[i], h.sz, h.per) && Accounted(h.subs[i], h.sz, h.per, out))
    && AllApart(h.subs, h.sz)
    && (forall p :: p in out ==> Owned(h.subs, h.sz, h.per, p))
  }

  // ------------------------------------------------------------ arithmetic

  // A region is exactly its chunks.
  lemma RegionSize(sub: Sub, sz: nat, per: nat)
    requires sz > 0 && per > 0 && sub.n % per == 0
    ensures sub.n * sz == sub.n / per * (per * sz)
  {
    var q := sub.n / per;
    assert sub.n == q * per;
    assert q * per * sz == q * (per * sz);
  }

  lemma ChunkInRegion(sub: Sub, sz: nat, per: nat, p: nat)
    requires sz > 0 && per > 0 && sub.n % per == 0 && IsChunk(sub, sz, per, p)
    ensures sub.raw <= p && p + per * sz <= End(sub, sz)
  {
    var k :| 0 <= k < sub.n / per && p == sub.raw + k * (per * sz);
    MulLt(k, sub.n / per, per * sz);
    RegionSize(sub, sz, per);
  }

  // Two chunks of a subheap do not overlap.
  lemma ChunksApart(sub: Sub, sz: nat, per: nat, p: nat, q: nat)
    requires sz > 0 && per > 0 && IsChunk(sub, sz, per, p) && IsChunk(sub, sz, per, q) && p != q
    ensures p + per * sz <= q || q + per * sz <= p
  {
    var cs := per * sz;
    var a :| 0 <= a < sub.n / per && p == sub.raw + a * cs;
    var b :| 0 <= b < sub.n / per && q == sub.raw + b * cs;
    if a < b { MulLt(a, b, cs); } else if b < a { MulLt(b, a, cs); }
  }

  lemma DivLt(x: nat, n: nat, y: nat)
    requires y > 0
    ensures x / y < n <==> x < n * y
  {
    var q := x / y;
    assert x == q * y + x % y;
    if q < n { MulLt(q, n, y); } else { MulLe(y, n, q); }
  }

  // A chunk belongs to its own subheap,
  lemma BelongsToOwn(sub: Sub, sz: nat, per: nat, p: nat)
    requires sz > 0 && per > 0 && SubOk(sub, sz, per) && IsChunk(sub, sz, per, p)
    ensures Belongs(sub, sz, p)
  {
    ChunkInRegion(sub, sz, per, p);
    MulLe(sz, 1, per);
    DivLt(p - sub.raw, sub.n, sz);
    Small((p - sub.raw) / sz);
  }

  lemma Regroup(k: nat, per: nat, sz: nat)
    ensures k * (per * sz) == (k * per) * sz
  {
  }

  // where both checks in belongs() hold.
  lemma OwnChecksHold(sub: Sub, sz: nat, per: nat, p: nat)
    requires sz > 0 && per > 0 && IsChunk(sub, sz, per, p)
    ensures p >= sub.raw && (p - sub.raw) % sz == 0 && (p - sub.raw) / sz % per == 0
  {
    var k :| 0 <= k < sub.n / per && p == sub.raw + k * (per * sz);
    Regroup(k, per, sz);
    DivModUnique(p - sub.raw, k * per, 0, sz);
    DivModUnique(k * per, k, 0, per);
  }

  // An address in another subheap's region does not.
  lemma BelongsToNoOther(sub: Sub, other: Sub, sz: nat, per: nat, p: nat)
    requires sz > 0 && per > 0 && SubOk(other, sz, per) && IsChunk(other, sz, per, p) && Apart(sub, other, sz)
    ensures !Belongs(sub, sz, p)
  {
    ChunkInRegion(other, sz, per, p);
    if p >= sub.raw {
      MulLe(sz, 1, per);
      DivLt(p - sub.raw, sub.n, sz);
      DivLt(p - sub.raw, P32, sz);
      Small((p - sub.raw) / sz);
    }
  }

  // ------------------------------------------------------------ counting

  ghost function ChunkSet(raw: nat, cs: nat, count: nat): set<nat> {
    if count == 0 then {} else ChunkSet(raw, cs, count - 1) + {raw + (count - 1) * cs}
  }

  lemma {:induction false} ChunkSetSize(raw: nat, cs: nat, count: nat)
    ensures |ChunkSet(raw, cs, count)| <= count
    ensures forall k :: 0 <= k < count ==> raw + k * cs in ChunkSet(raw, cs, count)
  {
    if count > 0 { ChunkSetSize(raw, cs, count - 1); }
  }

  ghost function Elems(xs: seq<nat>): set<nat> {
    set i | 0 <= i < |xs| :: xs[i]
  }

  lemma {:induction false} ElemsCount(xs: seq<nat>)
    requires Distinct(xs)
    ensures |Elems(xs)| == |xs|
  {
    if xs != [] {
      var n := |xs| - 1;
      ElemsCount(xs[..n]);
      assert Elems(xs) == Elems(xs[..n]) + {xs[n]};
    }
  }

  // While a chunk of the subheap is outstanding its stack has room.
  lemma StackHasRoom(sub: Sub, sz: nat, per: nat, p: nat)
    requires sz > 0 && per > 0 && SubOk(sub, sz, per) && IsChunk(sub, sz, per, p) && p !in sub.free
    ensures |sub.free| < sub.n / per
  {
    var cs, count := per * sz, sub.n / per;
    var all := ChunkSet(sub.raw, cs, count);
    ChunkSetSize(sub.raw, cs, count);
    ElemsCount(sub.free);
    forall x | x in Elems(sub.free) + {p} ensures x in all {
      if x in Elems(sub.free) { var i :| 0 <= i < |sub.free| && sub.free[i] == x; }
      assert IsChunk(sub, sz, per, x);
      var k :| 0 <= k < count && x == sub.raw + k * cs;
    }
    SubsetCount(Elems(sub.free) + {p}, all);
  }

  // ------------------------------------------------------------ disjointness

  lemma OneOwner(h: Heap, out: set<nat>, i: nat, j: nat, p: nat)
    requires HeapOk(h, out) && i < |h.subs| && j < |h.subs|
    requires IsChunk(h.subs[i], h.sz, h.per, p) && IsChunk(h.subs[j], h.sz, h.per, p)
    ensures i == j
  {
    if i != j {
      ChunkInRegion(h.subs[i], h.sz, h.per, p);
      ChunkInRegion(h.subs[j], h.sz, h.per, p);
      var lo, hi := if i < j then i else j, if i < j then j else i;
      assert Apart(h.subs[lo], h.subs[hi], h.sz);
      MulLe(h.sz, 1, h.per);
    }
  }

  // Chunks handed out never overlap.
  lemma OutstandingApart(h: Heap, out: set<nat>, p: nat, q: nat)
    requires HeapOk(h, out) && p in out && q in out && p != q
    ensures p + ChunkSize(h) <= q || q + ChunkSize(h) <= p
  {
    var i :| 0 <= i < |h.subs| && IsChunk(h.subs[i], h.sz, h.per, p);
    var j :| 0 <= j < |h.subs| && IsChunk(h.subs[j], h.sz, h.per, q);
    if i == j {
      ChunksApart(h.subs[i], h.sz, h.per, p, q);
    } else {
      ChunkInRegion(h.subs[i], h.sz, h.per, p);
      ChunkInRegion(h.subs[j], h.sz, h.per, q);
      var lo, hi := if i < j then i else j, if i < j then j else i;
      assert Apart(h.subs[lo], h.subs[hi], h.sz);
    }
  }

  // ------------------------------------------------------------ alloc and free

  // The list with the stack of subheap i replaced.
  ghost predicate Restacked(subs: seq<Sub>, subs': seq<Sub>, i: nat, free: seq<nat>) {
    i < |subs| && subs' == subs[i := subs[i].(free := free)]
  }

  // Popping takes the top chunk of the first subheap that has one.
  lemma {:induction false} PopTakes(subs: seq<Sub>) returns (i: nat)
    requires forall j :: 0 <= j < |subs| ==> forall k :: 0 <= k < |subs[j].free| ==> subs[j].free[k] > 0
    ensures Pop(subs).1 == 0 ==> Pop(subs).0 == subs && forall j :: 0 <= j < |subs| ==> subs[j].free == []
    ensures Pop(subs).1 != 0 ==>
              && i < |subs| && subs[i].free != []
              && var m := |subs[i].free| - 1;
              Pop(subs).1 == subs[i].free[m] && Restacked(subs, Pop(subs).0, i, subs[i].free[..m])
  {
    i := 0;
    if subs != [] && |subs[0].free| == 0 {
      i := PopTakes(subs[1..]);
      i := i + 1;
      assert subs == [subs[0]] + subs[1..];
    }
  }

  // Freeing a chunk pushes it on the stack of the subheap that owns it.
  lemma {:induction false} PushReaches(subs: seq<Sub>, sz: nat, per: nat, i: nat, p: nat)
    requires sz > 0 && per > 0 && i < |subs| && AllApart(subs, sz)
    requires forall j :: 0 <= j < |subs| ==> SubOk(subs[j], sz, per)
    requires IsChunk(subs[i], sz, per, p)
    ensures Push(subs, sz, p).Some? && Restacked(subs, Push(subs, sz, p).value, i, subs[i].free + [p])
  {
    if i == 0 {
      BelongsToOwn(subs[0], sz, per, p);
    } else {
      assert Apart(subs[0], subs[i], sz);
      BelongsToNoOther(subs[0], subs[i], sz, per, p);
      PushReaches(subs[1..], sz, per, i - 1, p);
      assert subs == [subs[0]] + subs[1..];
    }
  }

  // Exactly when freeing reaches the owner, whatever lies where: no subheap
  // before it takes the address for its own by an index cut to 32 bits.
  lemma {:induction false} PushReachesIff(subs: seq<Sub>, sz: nat, per: nat, i: nat, p: nat)
    requires sz > 0 && per > 0 && i < |subs| && SubOk(subs[i], sz, per) && IsChunk(subs[i], sz, per, p)
    ensures Push(subs, sz, p).Some? && Restacked(subs, Push(subs, sz, p).value, i, subs[i].free + [p])
       <==> forall j :: 0 <= j < i ==> !(p >= subs[j].raw && (p - subs[j].raw) / sz % P32 < subs[j].n)
  {
    if i == 0 {
      BelongsToOwn(subs[0], sz, per, p);
    } else if Belongs(subs[0], sz, p) {
      assert Push(subs, sz, p).value[0].free != subs[0].free;
    } else {
      PushReachesIff(subs[1..], sz, per, i - 1, p);
      assert subs == [subs[0]] + subs[1..];
      RestackedTail(subs, sz, i, p);
    }
  }

  lemma RestackedTail(subs: seq<Sub>, sz: nat, i: nat, p: nat)
    requires sz > 0 && 1 <= i < |subs| && !Belongs(subs[0], sz, p)
    ensures Push(subs, sz, p).Some? <==> Push(subs[1..], sz, p).Some?
    ensures Push(subs, sz, p).Some? ==>
              (Restacked(subs, Push(subs, sz, p).value, i, subs[i].free + [p]) <==>
               Restacked(subs[1..], Push(subs[1..], sz, p).value, i - 1, subs[1..][i - 1].free + [p]))
  {
    if Push(subs, sz, p).Some? {
      var rest := Push(subs[1..], sz, p).value;
      assert Push(subs, sz, p).value[1..] == rest;
      var want := subs[i := subs[i].(free := subs[i].free + [p])];
      assert want[1..] == subs[1..][i - 1 := subs[i].(free := subs[i].free + [p])];
      assert want == [subs[0]] + want[1..];
    }
  }

  // Replacing a stack by another of the same subheap's chunks, and adjusting
  // the outstanding set by the one chunk p that moved.
  lemma RestackOk(h: Heap, out: set<nat>, i: nat, p: nat, h': Heap, out': set<nat>)
    requires HeapOk(h, out) && i < |h.subs| && IsChunk(h.subs[i], h.sz, h.per, p)
    requires h' == h.(subs := h'.subs) && |h'.subs| == |h.subs|
    requires h'.subs == h.subs[i := h.subs[i].(free := h'.subs[i].free)]
    requires SubOk(h'.subs[i], h.sz, h.per)
    requires forall q :: q in h'.subs[i].free || q in h.subs[i].free || q == p ==>
               (q in h'.subs[i].free <==> if q == p then p !in out' else q in h.subs[i].free)
    requires forall q :: q != p ==> (q in out' <==> q in out)
    ensures HeapOk(h', out')
  {
    var sz, per := h.sz, h.per;
    forall j, q | 0 <= j < |h.subs| ensures IsChunk(h'.subs[j], sz, per, q) <==> IsChunk(h.subs[j], sz, per, q) {
    }
    forall j | 0 <= j < |h.subs| ensures SubOk(h'.subs[j], sz, per) && Accounted(h'.subs[j], sz, per, out') {
      forall q | IsChunk(h'.subs[j], sz, per, q) ensures q in h'.subs[j].free <==> q !in out' {
        assert IsChunk(h.subs[j], sz, per, q);
        if q == p { OneOwner(h, out, i, j, p); }
      }
    }
    forall q | q in out' ensures Owned(h'.subs, sz, per, q) {
      if q == p { assert IsChunk(h'.subs[i], sz, per, q); }
      else {
        var j :| 0 <= j < |h.subs| && IsChunk(h.subs[j], sz, per, q);
        assert IsChunk(h'.subs[j], sz, per, q);
      }
    }
  }

  ghost predicate Exhausted(subs: seq<Sub>) {
    forall j :: 0 <= j < |subs| ==> subs[j].free == []
  }

  // allocate() takes a chunk nobody holds, and fails only when none is free.
  lemma PopKeeps(h: Heap, out: set<nat>, h': Heap, p: nat)
    requires HeapOk(h, out) && (h'.subs, p) == Pop(h.subs) && h' == h.(subs := h'.subs)
    ensures p == 0 <==> Exhausted(h.subs)
    ensures p == 0 ==> h' == h
    ensures p != 0 ==> p !in out && HeapOk(h', out + {p})
    ensures SameSizes(h.subs, h'.subs)
  {
    forall j, k | 0 <= j < |h.subs| && 0 <= k < |h.subs[j].free| ensures h.subs[j].free[k] > 0 {
      assert SubOk(h.subs[j], h.sz, h.per);
      ChunkInRegion(h.subs[j], h.sz, h.per, h.subs[j].free[k]);
    }
    var i := PopTakes(h.subs);
    if p != 0 {
      TopTaken(h.subs[i], h'.subs[i], h.sz, h.per, p);
      RestackOk(h, out, i, p, h', out + {p});
    }
  }

  lemma TopTaken(sub: Sub, sub': Sub, sz: nat, per: nat, p: nat)
    requires sz > 0 && per > 0 && SubOk(sub, sz, per) && sub.free != []
    requires p == sub.free[|sub.free| - 1] && sub' == sub.(free := sub.free[..|sub.free| - 1])
    ensures IsChunk(sub, sz, per, p) && p in sub.free && SubOk(sub', sz, per)
    ensures forall q :: q in sub'.free <==> q in sub.free && q != p
  {
    forall q ensures IsChunk(sub', sz, per, q) <==> IsChunk(sub, sz, per, q) {
    }
    forall q ensures q in sub'.free <==> q in sub.free && q != p {
      if q in sub.free && q != p {
        var i :| 0 <= i < |sub.free| && sub.free[i] == q;
        assert sub'.free[i] == q;
      }
    }
  }

  // free() of a chunk that is out puts it back on its own subheap's stack.
  lemma FreeKeeps(h: Heap, out: set<nat>, p: nat)
    requires HeapOk(h, out) && p in out
    ensures Push(h.subs, h.sz, p).Some?
    ensures HeapOk(h.(subs := Push(h.subs, h.sz, p).value), out - {p})
    ensures SameSizes(h.subs, Push(h.subs, h.sz, p).value)
  {
    var i :| 0 <= i < |h.subs| && IsChunk(h.subs[i], h.sz, h.per, p);
    PushReaches(h.subs, h.sz, h.per, i, p);
    var h' := h.(subs := Push(h.subs, h.sz, p).value);
    assert Accounted(h.subs[i], h.sz, h.per, out);
    TopAdded(h.subs[i], h'.subs[i], h.sz, h.per, p);
    RestackOk(h, out, i, p, h', out - {p});
  }

  lemma TopAdded(sub: Sub, sub': Sub, sz: nat, per: nat, p: nat)
    requires sz > 0 && per > 0 && SubOk(sub, sz, per) && IsChunk(sub, sz, per, p) && p !in sub.free
    requires sub' == sub.(free := sub.free + [p])
    ensures SubOk(sub', sz, per)
    ensures forall q :: q in sub'.free <==> q in sub.free || q == p
  {
    forall q ensures IsChunk(sub', sz, per, q) <==> IsChunk(sub, sz, per, q) {
    }
  }

  ghost predicate SameSizes(subs: seq<Sub>, subs': seq<Sub>) {
    |subs'| == |subs| && forall j :: 0 <= j < |subs| ==> subs'[j].n == subs[j].n
  }

  // What create_subheap must give: a non-null region clear of the others, of a
  // size whose computation does not wrap.
  ghost predicate Grants(h: Heap, raw: Option<nat>)
    requires h.subs != [] && h.per > 0
  {
    raw.Some? ==>
      var n := NewSize(h.subs[0].n, h.per);
      && raw.value > 0 && h.subs[0].n + h.subs[0].n / 2 + 1 + h.per <= P32
      && forall j :: 0 <= j < |h.subs| ==> Apart(Sub(raw.value, n, []), h.subs[j], h.sz)
  }

  function Grown(h: Heap, raw: nat): Heap
    requires h.subs != [] && h.per > 0
  {
    var n := NewSize(h.subs[0].n, h.per);
    h.(subs := [Sub(raw, n, Chunks(raw, ChunkSize(h), n / h.per))] + h.subs)
  }

  // A new subheap starts with every chunk free.
  lemma NewSubOk(sub: Sub, sz: nat, per: nat)
    requires sz > 0 && per > 0 && sub.raw > 0 && sub.n % per == 0 && sub.n < P32
    requires sub.free == Chunks(sub.raw, per * sz, sub.n / per)
    ensures SubOk(sub, sz, per)
    ensures forall p :: IsChunk(sub, sz, per, p) ==> p in sub.free
  {
    var cs := per * sz;
    MulLe(per, 1, sz);
    forall i, j | 0 <= i < j < |sub.free| ensures sub.free[i] != sub.free[j] {
      MulLt(i, j, cs);
    }
    forall p | IsChunk(sub, sz, per, p) ensures p in sub.free {
      var k :| 0 <= k < sub.n / per && p == sub.raw + k * cs;
      assert sub.free[k] == p;
    }
  }

  lemma GrowKeeps(h: Heap, out: set<nat>, raw: nat)
    requires HeapOk(h, out) && h.subs != [] && Grants(h, Some(raw))
    ensures HeapOk(Grown(h, raw), out) && Grown(h, raw).subs[0].free != []
  {
    var sz, per := h.sz, h.per;
    var h' := Grown(h, raw);
    var sub := h'.subs[0];
    NewSizeGrows(h.subs[0].n, per);
    NewSubOk(sub, sz, per);
    assert sub.n / per > 0 by { DivLt(sub.n, 1, per); WholeChunk(sub.n, per); }
    forall j | 0 <= j < |h.subs| ensures Apart(sub, h.subs[j], sz) {
      assert Apart(Sub(raw, sub.n, []), h.subs[j], sz);
    }
    NewNotOut(h, out, sub);
    assert AllApart(h'.subs, sz) by {
      forall i, j | 0 <= i < j < |h'.subs| ensures Apart(h'.subs[i], h'.subs[j], sz) {
        assert h'.subs[j] == h.subs[j - 1];
        if i > 0 { assert h'.subs[i] == h.subs[i - 1]; }
      }
    }
    forall p | p in out ensures Owned(h'.subs, sz, per, p) {
      var j :| 0 <= j < |h.subs| && IsChunk(h.subs[j], sz, per, p);
      assert h'.subs[j + 1] == h.subs[j];
    }
  }

  lemma WholeChunk(n: nat, per: nat)
    requires per > 0 && n > 0 && n % per == 0
    ensures n >= per
  {
  }

  lemma NewNotOut(h: Heap, out: set<nat>, sub: Sub)
    requires HeapOk(h, out) && SubOk(sub, h.sz, h.per)
    requires forall j :: 0 <= j < |h.subs| ==> Apart(sub, h.subs[j], h.sz)
    ensures forall p :: IsChunk(sub, h.sz, h.per, p) ==> p !in out
  {
    forall p | IsChunk(sub, h.sz, h.per, p) ensures p !in out {
      if p in out {
        var j :| 0 <= j < |h.subs| && IsChunk(h.subs[j], h.sz, h.per, p);
        ChunkInRegion(sub, h.sz, h.per, p);
        ChunkInRegion(h.subs[j], h.sz, h.per, p);
        MulLe(h.sz, 1, h.per);
      }
    }
  }

  // alloc(): fails only when no chunk is free and no region is given, and then
  // changes nothing; otherwise the chunk was not out before.
  lemma AllocKeeps(h: Heap, out: set<nat>, raw: Option<nat>, h': Heap, p: nat)
    requires HeapOk(h, out) && h.subs != [] && Grants(h, raw)
    requires (h', p) == DoAlloc(h, raw)
    ensures p == 0 <==> Exhausted(h.subs) && raw.None?
    ensures p == 0 ==> h' == h
    ensures p != 0 ==> p !in out && HeapOk(h', out + {p})
  {
    PopKeeps(h, out, h.(subs := Pop(h.subs).0), Pop(h.subs).1);
    if Pop(h.subs).1 == 0 && raw.Some? {
      var g := Grown(h, raw.value);
      GrowKeeps(h, out, raw.value);
      PopKeeps(g, out, g.(subs := Pop(g.subs).0), Pop(g.subs).1);
    }
  }

  // allocate() takes the top of the stack of the first subheap with a free chunk,
  // and touches no other.
  lemma {:induction false} PopTakesFirst(subs: seq<Sub>, i: nat)
    requires i < |subs| && subs[i].free != [] && forall j :: 0 <= j < i ==> subs[j].free == []
    ensures var m := |subs[i].free| - 1;
            Pop(subs) == (subs[i := subs[i].(free := subs[i].free[..m])], subs[i].free[m])
  {
    var m := |subs[i].free| - 1;
    var sub := subs[i].(free := subs[i].free[..m]);
    if i == 0 {
      assert [sub] + subs[1..] == subs[0 := sub];
    } else {
      PopTakesFirst(subs[1..], i - 1);
      assert [subs[0]] + subs[1..][i - 1 := sub] == subs[i := sub];
    }
  }

  lemma {:induction false} PopNone(subs: seq<Sub>)
    requires Exhausted(subs)
    ensures Pop(subs) == (subs, 0)
  {
    if subs != [] {
      PopNone(subs[1..]);
      assert [subs[0]] + subs[1..] == subs;
    }
  }

  // alloc() makes a subheap exactly when nothing is free and a region is given.
  // The new one comes first, with the region given, the next size and all its
  // chunks, of which the last is handed out; the others are as they were.
  lemma AllocGrowsIff(h: Heap, out: set<nat>, raw: Option<nat>, h': Heap, p: nat)
    requires HeapOk(h, out) && h.subs != [] && Grants(h, raw) && (h', p) == DoAlloc(h, raw)
    ensures |h'.subs| == |h.subs| <==> !Exhausted(h.subs) || raw.None?
    ensures Exhausted(h.subs) && raw.Some? ==>
              var n := NewSize(h.subs[0].n, h.per);
              var last := n / h.per - 1;
              && last >= 0 && p == raw.value + last * ChunkSize(h)
              && h'.subs == [Sub(raw.value, n, Chunks(raw.value, ChunkSize(h), last))] + h.subs
    ensures !Exhausted(h.subs) ==> (h'.subs, p) == Pop(h.subs)
  {
    PopKeeps(h, out, h.(subs := Pop(h.subs).0), Pop(h.subs).1);
    if Exhausted(h.subs) {
      PopNone(h.subs);
      if raw.Some? {
        GrowKeeps(h, out, raw.value);
        FreshPop(h, raw.value);
      }
    }
  }

  lemma FreshPop(h: Heap, raw: nat)
    requires h.subs != [] && h.per > 0 && Grown(h, raw).subs[0].free != []
    ensures var n := NewSize(h.subs[0].n, h.per);
            var last := n / h.per - 1;
            && last >= 0
            && Pop(Grown(h, raw).subs) ==
               ([Sub(raw, n, Chunks(raw, ChunkSize(h), last))] + h.subs, raw + last * ChunkSize(h))
  {
    var g := Grown(h, raw).subs;
    PopTakesFirst(g, 0);
    var last := NewSize(h.subs[0].n, h.per) / h.per - 1;
    assert g[0].free[..last] == Chunks(raw, ChunkSize(h), last);
  }
}
