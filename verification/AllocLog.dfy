/** The allocation log as an object, over a record of every call it makes to the
backing allocators. */
module AllocLog {
  import opened Arith
  import opened Wrappers
  import opened AllocLogSpec
  import opened AllocLogProofs

  lemma {:induction false} UndoEventsSnoc(v: seq<Req>, i: nat)
    requires i < |v|
    ensures UndoEvents(v[..i + 1]) == UndoEvents(v[..i]) + [Gave(v[i].block)]
  {
    var longer, shorter := UndoEvents(v[..i + 1]), UndoEvents(v[..i]) + [Gave(v[i].block)];
    assert forall k :: 0 <= k <= i ==> longer[k] == shorter[k];
  }

  class LoggedAllocRequests {
    var v: seq<Req>
    // The calls made so far to the backing allocators.
    ghost var calls: seq<Event>

    ghost function Held(): Option<seq<Block>>
      reads this`calls
    {
      Apply([], calls)
    }

    // Only held blocks were given back, and those still held are the logged ones.
    ghost predicate Valid()
      reads this
    {
      Held().Some? && Conserved(Held().value, v) && TypesOk(v)
    }

    constructor ()
      ensures Valid() && v == [] && calls == []
    {
      v, calls := [], [];
    }

    method Take(b: Block)
      modifies this`calls
      ensures calls == old(calls) + [Got(b)]
    {
      calls := calls + [Got(b)];
    }

    method Give(b: Block)
      modifies this`calls
      ensures calls == old(calls) + [Gave(b)]
    {
      calls := calls + [Gave(b)];
    }

    method AllocateNonnucleus(nbytes: Word, align: Word, a: Answer) returns (t: Try)
      modifies this`calls
      ensures t == TryOnce(DATA, nbytes, align, a).0 && calls == old(calls) + TryOnce(DATA, nbytes, align, a).1
    {
      var b := Block(DATA, a.addr, a.addr, nbytes);
      Take(b);
      if align == 0 {
        return Trap;
      }
      if b.addr % align == 0 {
        return Yes(b.addr, b.mapped);
      }
      Give(b);
      t := No;
    }

    method AllocateNucleus(nbytes: Word, align: Word, a: Answer) returns (t: Try)
      modifies this`calls
      ensures t == TryOnce(NUCLEUS, nbytes, align, a).0 && calls == old(calls) + TryOnce(NUCLEUS, nbytes, align, a).1
    {
      if a.addr == 0 {
        return No;
      }
      Take(Block(NUCLEUS, a.addr, a.mapped, nbytes));
      t := Yes(a.addr, a.mapped);
    }

    method AllocateKmem32(nbytes: Word, align: Word, a: Answer) returns (t: Try)
      modifies this`calls
      ensures t == TryOnce(KMEM32, nbytes, align, a).0 && calls == old(calls) + TryOnce(KMEM32, nbytes, align, a).1
    {
      if a.addr == 0 {
        return No;
      }
      var b := Block(KMEM32, a.addr, a.addr, nbytes);
      Take(b);
      if align == 0 {
        return Trap;
      }
      if b.addr % align != 0 {
        Give(b);
        return No;
      }
      t := Yes(b.addr, b.mapped);
    }

    method AllocateBelow(nbytes: Word, align: Word, a: Answer) returns (t: Try)
      modifies this`calls
      ensures t == TryOnce(BELOW_NUCLEUS, nbytes, align, a).0 && calls == old(calls) + TryOnce(BELOW_NUCLEUS, nbytes, align, a).1
    {
      if a.addr == 0 {
        return No;
      }
      Take(Block(BELOW_NUCLEUS, a.addr, a.addr, nbytes));
      t := Yes(a.addr, a.addr);
    }

    // The allocate_* routine of the type.
    method AllocFunc(ty: Word, nbytes: Word, align: Word, a: Answer) returns (t: Try)
      requires Backed(ty)
      modifies this`calls
      ensures t == TryOnce(ty, nbytes, align, a).0 && calls == old(calls) + TryOnce(ty, nbytes, align, a).1
    {
      if ty == BELOW_NUCLEUS {
        t := AllocateBelow(nbytes, align, a);
      } else if ty == NUCLEUS {
        t := AllocateNucleus(nbytes, align, a);
      } else if ty == DATA {
        t := AllocateNonnucleus(nbytes, align, a);
      } else {
        t := AllocateKmem32(nbytes, align, a);
      }
    }

    method AllocatePadded(ty: Word, nbytes: Word, align: Word, a: Answer) returns (o: Outcome)
      requires Backed(ty) && align >= 4
      modifies this`calls
      ensures o == Padded(ty, nbytes, align, a).0 && calls == old(calls) + Padded(ty, nbytes, align, a).1
    {
      var size: Word := (nbytes + (align - 4)) % P32;
      var t := AllocFunc(ty, size, 1, a);
      if !t.Yes? {
        return Failed;
      }
      var b := Block(ty, t.addr, t.mapped, size);
      o := Place(b, nbytes, align);
      if o.Failed? {
        Give(b);
      }
    }

    method Allocate(ty: Word, nbytes: Word, align: Word, a1: Answer, a2: Answer) returns (o: Outcome)
      requires Backed(ty)
      modifies this`calls
      ensures o == AllocLogSpec.Allocate(ty, nbytes, align, a1, a2).0
      ensures calls == old(calls) + AllocLogSpec.Allocate(ty, nbytes, align, a1, a2).1
    {
      var t := AllocFunc(ty, nbytes, align, a1);
      if t.Trap? {
        return Panic;
      }
      if t.Yes? {
        return Granted(t.addr, t.mapped, Block(ty, t.addr, t.mapped, nbytes));
      }
      if align == 1 {
        return Failed;
      }
      if align < 4 || align % 4 != 0 {
        return Panic;
      }
      o := AllocatePadded(ty, nbytes, align, a2);
    }

    // a1 and a2 are what the backing allocator answers, if it is asked.
    method Alloc(q: Request) returns (o: Outcome)
      requires Valid()
      modifies this
      ensures o == DoAlloc(old(v), q).0 && v == DoAlloc(old(v), q).1 && calls == old(calls) + DoAlloc(old(v), q).2
      ensures Held().Some? && (!o.Panic? ==> Valid())
    {
      AllocConserves(v, Held().value, q);
      ApplyAppend([], calls, DoAlloc(v, q).2);
      if q.align > 1 && q.align % 4 != 0 {
        return Panic;
      }
      if q.ty == TRY_NUCLEUS {
        return Failed;
      }
      if !Backed(q.ty) {
        return Panic;
      }
      o := Allocate(q.ty, q.nbytes, q.align, q.a1, q.a2);
      if o.Granted? {
        if o.block.size < (q.nbytes + (o.result - o.block.addr) % P64) % P64 {
          return Panic;
        }
        v := v + [Req(o.result, o.mapped, q.nbytes, o.block)];
      }
    }

    method Free(kernelAddr: Kptr, mappedKernelAddr: Kptr, nbytes: Word)
      requires Valid()
      modifies this
      ensures Valid()
      ensures v == DoFree(old(v), kernelAddr, mappedKernelAddr, nbytes).0
      ensures calls == old(calls) + DoFree(old(v), kernelAddr, mappedKernelAddr, nbytes).1
    {
      FreeConserves(v, Held().value, kernelAddr, mappedKernelAddr, nbytes);
      ApplyAppend([], calls, DoFree(v, kernelAddr, mappedKernelAddr, nbytes).1);
      if kernelAddr == 0 {
        return;
      }
      var i := 0;
      while i < |v|
        invariant i <= |v| && v == old(v) && calls == old(calls)
        invariant forall j :: 0 <= j < i ==> !Matches(v[j], kernelAddr, mappedKernelAddr, nbytes)
      {
        if Matches(v[i], kernelAddr, mappedKernelAddr, nbytes) {
          assert IndexOf(v, kernelAddr, mappedKernelAddr, nbytes) == i;
          assert Backed(v[i].block.ty);
          Give(v[i].block);
          v := Removed(v, i);
          return;
        }
        i := i + 1;
      }
    }

    // Gives back everything still held.
    method Undo()
      requires Valid()
      modifies this
      ensures v == [] && calls == old(calls) + UndoEvents(old(v))
      ensures Held() == Some([]) && Valid()
    {
      UndoReleasesAll(v, Held().value);
      ApplyAppend([], calls, UndoEvents(v));
      var i := 0;
      while i < |v|
        invariant i <= |v| && v == old(v) && calls == old(calls) + UndoEvents(v[..i])
      {
        assert Backed(v[i].block.ty);
        UndoEventsSnoc(v, i);
        Give(v[i].block);
        i := i + 1;
      }
      assert v[..i] == v;
      v := [];
    }
  }
}
