/** The homogenous heap as linked subheaps with array stacks, behind a header. */
module Heap {
  import opened Arith
  import opened Wrappers
  import opened HeapSpec
  import opened HeapProofs

  ghost predicate AllSubOk(subs: seq<Sub>, sz: nat, per: nat)
    requires sz > 0 && per > 0
  {
    forall j :: 0 <= j < |subs| ==> SubOk(subs[j], sz, per)
  }

  lemma HeapSubsOk(h: HeapSpec.Heap, out: set<nat>)
    requires HeapOk(h, out)
    ensures AllSubOk(h.subs, h.sz, h.per)
  {
  }

  // The owner of p is in the list and does not have it on its stack.
  ghost predicate Returnable(subs: seq<Sub>, sz: nat, per: nat, p: nat)
    requires sz > 0 && per > 0
  {
    && AllApart(subs, sz) && AllSubOk(subs, sz, per)
    && exists i :: 0 <= i < |subs| && IsChunk(subs[i], sz, per, p) && p !in subs[i].free
  }

  lemma ReturnableHere(subs: seq<Sub>, sz: nat, per: nat, p: nat)
    requires sz > 0 && per > 0 && subs != [] && Returnable(subs, sz, per, p) && Belongs(subs[0], sz, p)
    ensures |subs[0].free| < subs[0].n / per
    ensures (p - subs[0].raw) % sz == 0 && (p - subs[0].raw) / sz % per == 0
  {
    var i :| 0 <= i < |subs| && IsChunk(subs[i], sz, per, p) && p !in subs[i].free;
    if i > 0 {
      assert Apart(subs[0], subs[i], sz);
      BelongsToNoOther(subs[0], subs[i], sz, per, p);
    }
    StackHasRoom(subs[0], sz, per, p);
    OwnChecksHold(subs[0], sz, per, p);
  }

  lemma ReturnableBelow(subs: seq<Sub>, sz: nat, per: nat, p: nat)
    requires sz > 0 && per > 0 && subs != [] && Returnable(subs, sz, per, p) && !Belongs(subs[0], sz, p)
    ensures |subs| > 1 && Returnable(subs[1..], sz, per, p)
  {
    var i :| 0 <= i < |subs| && IsChunk(subs[i], sz, per, p) && p !in subs[i].free;
    if i == 0 {
      BelongsToOwn(subs[0], sz, per, p);
    } else {
      assert subs[1..][i - 1] == subs[i];
    }
  }

  lemma HeldReturnable(h: HeapSpec.Heap, out: set<nat>, p: nat)
    requires HeapOk(h, out) && p in out
    ensures Returnable(h.subs, h.sz, h.per, p)
  {
    var i :| 0 <= i < |h.subs| && IsChunk(h.subs[i], h.sz, h.per, p);
    assert Accounted(h.subs[i], h.sz, h.per, out);
  }

  class SubHeap {
    const sizeOfT: nat
    const numAtATime: nat
    const nBasicElems: nat
    const rawData: nat
    const freeList: array<nat>
    var numFree: nat
    var nextHeap: SubHeap?
    ghost var repr: set<object>

    ghost predicate Valid()
      reads this, repr
      decreases repr
    {
      && this in repr && freeList in repr
      && sizeOfT > 0 && numAtATime > 0
      && freeList.Length == nBasicElems / numAtATime && numFree <= freeList.Length
      && (nextHeap != null ==>
            && nextHeap in repr && nextHeap.repr < repr
            && this !in nextHeap.repr && freeList !in nextHeap.repr
            && nextHeap.sizeOfT == sizeOfT && nextHeap.numAtATime == numAtATime
            && nextHeap.Valid())
    }

    ghost function Here(): Sub
      requires numFree <= freeList.Length
      reads this, freeList
    {
      Sub(rawData, nBasicElems, freeList[..numFree])
    }

    // This subheap and those after it.
    ghost function Subs(): seq<Sub>
      requires Valid()
      reads this, repr
      decreases repr
    {
      [Here()] + if nextHeap == null then [] else nextHeap.Subs()
    }

    constructor (sz: nat, per: nat, n: nat, raw: nat)
      requires sz > 0 && per > 0 && n % per == 0
      ensures Valid() && fresh(repr) && nextHeap == null
      ensures sizeOfT == sz && numAtATime == per
      ensures Here() == Sub(raw, n, Chunks(raw, per * sz, n / per))
    {
      sizeOfT, numAtATime, nBasicElems, rawData := sz, per, n, raw;
      numFree := n / per;
      var stack := new nat[n / per];
      freeList := stack;
      nextHeap := null;
      repr := {this, stack};
      new;
      var freeChunkAddr := raw;
      var chunkSize := per * sz;
      var lcv := 0;
      while lcv < numFree
        invariant lcv <= numFree == n / per == stack.Length
        invariant freeChunkAddr == raw + lcv * chunkSize
        invariant forall k :: 0 <= k < lcv ==> stack[k] == raw + k * chunkSize
        modifies stack
      {
        stack[lcv] := freeChunkAddr;
        freeChunkAddr := freeChunkAddr + chunkSize;
        lcv := lcv + 1;
      }
      assert freeList[..numFree] == Chunks(raw, per * sz, n / per);
    }

    predicate BelongsHere(p: nat)
      requires sizeOfT > 0
    {
      p >= rawData && (p - rawData) / sizeOfT % P32 < nBasicElems
    }

    // Rewriting this subheap's own stack leaves the rest of the list alone.
    twostate lemma RestKept()
      requires old(Valid()) && Valid() && nextHeap == old(nextHeap) && repr == old(repr)
      requires unchanged(old(repr) - {this, freeList})
      ensures Subs() == [Here()] + old(Subs())[1..]
    {
      assert old(Subs())[1..] == if nextHeap == null then [] else old(nextHeap.Subs());
    }

    method Allocate() returns (p: nat)
      requires Valid() && AllSubOk(Subs(), sizeOfT, numAtATime)
      modifies repr
      ensures Valid() && repr == old(repr) && nextHeap == old(nextHeap)
      ensures (Subs(), p) == Pop(old(Subs()))
      decreases repr
    {
      if numFree == 0 {
        if nextHeap == null {
          p := 0;
        } else {
          assert forall j :: 0 <= j < |nextHeap.Subs()| ==> nextHeap.Subs()[j] == Subs()[j + 1];
          p := nextHeap.Allocate();
        }
      } else {
        assert SubOk(Subs()[0], sizeOfT, numAtATime);
        assert Here().free[numFree - 1] == freeList[numFree - 1];
        p := freeList[numFree - 1];
        BelongsToOwn(Here(), sizeOfT, numAtATime, p);
        numFree := numFree - 1;
        assert BelongsHere(p);
        RestKept();
        assert old(Here().free)[..numFree] == Here().free;
      }
    }

    method Deallocate(p: nat)
      requires Valid() && Returnable(Subs(), sizeOfT, numAtATime, p)
      modifies repr
      ensures Valid() && repr == old(repr) && nextHeap == old(nextHeap)
      ensures Push(old(Subs()), sizeOfT, p) == Some(Subs())
      decreases repr
    {
      if BelongsHere(p) {
        ReturnableHere(Subs(), sizeOfT, numAtATime, p);
        assert (p - rawData) % sizeOfT == 0 && (p - rawData) / sizeOfT % numAtATime == 0;
        freeList[numFree] := p;
        numFree := numFree + 1;
        RestKept();
        assert Here().free == old(Here().free) + [p];
      } else {
        ReturnableBelow(Subs(), sizeOfT, numAtATime, p);
        assert nextHeap != null;
        assert Subs()[1..] == nextHeap.Subs();
        nextHeap.Deallocate(p);
      }
    }
  }

  // In whole chunks, with `unsigned` wrap-around.
  method NextSize(largest: nat, per: nat) returns (n: nat)
    requires per > 0
    ensures n == NewSize(largest, per)
  {
    n := (largest + largest / 2) % P32;
    if n == largest {
      n := (n + 1) % P32;
    }
    n := RoundUp(n, per) % P32;
  }

  class HomogenousHeap {
    const sizeOfT: nat
    const numAtATime: nat
    var nextHeap: SubHeap?
    // The chunks callers hold.
    ghost var out: set<nat>

    ghost function Repr(): set<object>
      reads this`nextHeap, nextHeap
    {
      {this} + if nextHeap == null then {} else nextHeap.repr
    }

    ghost predicate Linked()
      reads this`nextHeap, nextHeap, if nextHeap == null then {} else nextHeap.repr
    {
      && nextHeap != null && this !in nextHeap.repr && nextHeap.Valid()
      && nextHeap.sizeOfT == sizeOfT && nextHeap.numAtATime == numAtATime
    }

    ghost function Abs(): (h: HeapSpec.Heap)
      reads this`nextHeap, nextHeap, if nextHeap == null then {} else nextHeap.repr
      requires Linked()
      ensures h.sz == sizeOfT && h.per == numAtATime && h.subs != [] && h.subs[0].n == nextHeap.nBasicElems
    {
      HeapSpec.Heap(sizeOfT, numAtATime, nextHeap.Subs())
    }

    ghost predicate Valid()
      reads this, nextHeap, if nextHeap == null then {} else nextHeap.repr
    {
      Linked() && HeapOk(Abs(), out)
    }

    // The header, with the first subheap its derived class creates.
    constructor (sz: nat, per: nat, n: nat, raw: nat)
      requires sz > 0 && per > 0 && n % per == 0 && n < P32 && raw > 0
      ensures Valid() && fresh(Repr()) && out == {}
      ensures Abs() == HeapSpec.Heap(sz, per, [Sub(raw, n, Chunks(raw, per * sz, n / per))])
    {
      sizeOfT, numAtATime, out := sz, per, {};
      nextHeap := new SubHeap(sz, per, n, raw);
      new;
      NewSubOk(nextHeap.Here(), sz, per);
    }

    method Pull() returns (p: nat)
      requires Linked() && AllSubOk(Abs().subs, sizeOfT, numAtATime)
      modifies Repr() - {this}
      ensures Linked() && Repr() == old(Repr())
      ensures (Abs().subs, p) == Pop(old(Abs()).subs)
    {
      p := nextHeap.Allocate();
    }

    method Take() returns (p: nat)
      requires Valid()
      modifies Repr()
      ensures Valid() && Repr() == old(Repr())
      ensures (Abs().subs, p) == Pop(old(Abs()).subs)
      ensures p == 0 <==> Exhausted(old(Abs()).subs)
      ensures p == 0 ==> Abs() == old(Abs()) && out == old(out)
      ensures p != 0 ==> p !in old(out) && out == old(out) + {p}
    {
      ghost var h := Abs();
      HeapSubsOk(h, out);
      p := Pull();
      PopKeeps(h, out, Abs(), p);
      if p != 0 {
        out := out + {p};
      }
    }

    // Links a new subheap in front of the others.
    method Prepend(n: nat, raw: nat)
      requires Linked() && n % numAtATime == 0
      modifies this`nextHeap
      ensures Linked() && fresh(Repr() - old(Repr()))
      ensures Abs().subs == [Sub(raw, n, Chunks(raw, ChunkSize(old(Abs())), n / numAtATime))] + old(Abs()).subs
    {
      var newBigHeap := new SubHeap(sizeOfT, numAtATime, n, raw);
      newBigHeap.nextHeap := nextHeap;
      newBigHeap.repr := newBigHeap.repr + nextHeap.repr;
      nextHeap := newBigHeap;
    }

    // A subheap half as large again as the largest so far.
    method Grow(raw: nat)
      requires Valid() && Grants(Abs(), Some(raw))
      modifies this`nextHeap
      ensures Valid() && fresh(Repr() - old(Repr()))
      ensures Abs() == Grown(old(Abs()), raw) && Abs().subs[0].free != []
    {
      var n := NextSize(nextHeap.nBasicElems, numAtATime);
      ghost var h := Abs();
      NewSizeGrows(h.subs[0].n, h.per);
      GrowKeeps(h, out, raw);
      Prepend(n, raw);
    }

    // raw is where create_subheap puts the new region, None when it fails.
    method Alloc(raw: Option<nat>) returns (p: nat)
      requires Valid() && Grants(Abs(), raw)
      modifies Repr()
      ensures Valid() && fresh(Repr() - old(Repr()))
      ensures (Abs(), p) == DoAlloc(old(Abs()), raw)
      ensures p == 0 <==> Exhausted(old(Abs()).subs) && raw.None?
      ensures p == 0 ==> Abs() == old(Abs()) && out == old(out)
      ensures p != 0 ==> p !in old(out) && out == old(out) + {p}
    {
      p := Take();
      if p == 0 {
        if raw.None? {
          return;
        }
        Grow(raw.value);
        p := Take();
      }
    }

    method PutBack(item: nat)
      requires Linked() && Returnable(Abs().subs, sizeOfT, numAtATime, item)
      modifies Repr() - {this}
      ensures Linked() && Repr() == old(Repr())
      ensures Push(old(Abs()).subs, sizeOfT, item) == Some(Abs().subs)
    {
      nextHeap.Deallocate(item);
    }

    method Free(item: nat)
      requires Valid() && (item == 0 || item in out)
      modifies Repr()
      ensures Valid() && Repr() == old(Repr())
      ensures item == 0 ==> Abs() == old(Abs()) && out == old(out)
      ensures item != 0 ==> out == old(out) - {item}
      ensures item != 0 ==> Push(old(Abs()).subs, sizeOfT, item) == Some(Abs().subs)
    {
      if item == 0 {
        return;
      }
      ghost var h := Abs();
      HeldReturnable(h, out, item);
      PutBack(item);
      FreeKeeps(h, out, item);
      out := out - {item};
    }
  }
}
