/** Alignment and containment: what a granted request gets, and exactly when the
size checks panic. */
module Padding {
  import opened Arith
  import opened AllocLogSpec
  import opened AllocLogProofs

  lemma RoundNat(q: nat, r: nat, y: nat)
    requires r < y
    ensures (q * y + r + (y - 1)) / y == if r == 0 then q else q + 1
  {
    assert (q + 1) * y == q * y + y;
    if r == 0 {
      DivModUnique(q * y + r + (y - 1), q, y - 1, y);
    } else {
      DivModUnique(q * y + r + (y - 1), q + 1, r - 1, y);
    }
  }

  // The rounded address is the next multiple of the alignment.
  lemma RoundUpExact(x: Kptr, y: Word)
    requires y > 0 && x + (y - 1) < P64
    ensures RoundUp(x, y) == if x % y == 0 then x else x + (y - x % y)
    ensures RoundUp(x, y) % y == 0
  {
    var q, r := x / y, x % y;
    assert x == q * y + r;
    RoundNat(q, r, y);
    ModSmall(x + (y - 1), P64);
    var p := if r == 0 then q else q + 1;
    assert (q + 1) * y == q * y + y;
    DivModUnique(p * y, p, 0, y);
  }

  // Adding the padding aligns the mapped address exactly when both addresses
  // were equally far from alignment.
  lemma PadAligns(x: nat, y: nat, m: nat, pad: nat)
    requires m > 0 && pad == (if x % m == 0 then 0 else m - x % m)
    ensures (y + pad) % m == 0 <==> y % m == x % m
  {
    var q, r := y / m, y % m;
    assert y == q * m + r;
    if r + pad < m {
      DivModUnique(y + pad, q, r + pad, m);
    } else {
      assert (q + 1) * m == q * m + m;
      DivModUnique(y + pad, q + 1, r + pad - m, m);
    }
  }

  // An answer none of whose sums wraps.
  predicate Sane(ty: Word, nbytes: Word, align: Word, a: Answer) {
    && align >= 4 && nbytes + (align - 4) < P32
    && (ty != DATA ==> a.addr != 0)
    && a.addr + nbytes + align < P64 && a.mapped + align < P64
  }

  function MappedAt(ty: Word, a: Answer): Kptr {
    if ty == NUCLEUS then a.mapped else a.addr
  }

  function PadOf(x: Kptr, align: Word): nat
    requires align > 0
  {
    if x % align == 0 then 0 else align - x % align
  }

  // Placing without its wrap-arounds.
  lemma PlaceUnwrapped(b: Block, nbytes: Word, align: Word)
    requires align >= 4 && b.size == nbytes + (align - 4)
    requires b.addr + nbytes + align < P64 && b.mapped + align < P64
    ensures var pad := PadOf(b.addr, align);
            Place(b, nbytes, align) ==
            if (b.mapped + pad) % align != 0 then Failed
            else if pad > align - 4 then Panic
            else Granted(b.addr + pad, b.mapped + pad, b)
  {
    var pad := PadOf(b.addr, align);
    RoundUpExact(b.addr, align);
    ModSmall(pad, P32);
    ModSmall(b.mapped + pad, P64);
    ModSmall(b.addr + pad + nbytes, P64);
    ModSmall(b.addr + b.size, P64);
  }

  // The second attempt without its wrap-arounds.
  lemma PaddedUnwrapped(ty: Word, nbytes: Word, align: Word, a: Answer)
    requires Backed(ty) && Sane(ty, nbytes, align, a)
    ensures var pad := PadOf(a.addr, align);
            Padded(ty, nbytes, align, a).0 ==
            if (MappedAt(ty, a) + pad) % align != 0 then Failed
            else if pad > align - 4 then Panic
            else Granted(a.addr + pad, MappedAt(ty, a) + pad, Block(ty, a.addr, MappedAt(ty, a), nbytes + (align - 4)))
  {
    var size: Word := nbytes + (align - 4);
    ModSmall(size, P32);
    PlaceUnwrapped(Block(ty, a.addr, MappedAt(ty, a), size), nbytes, align);
  }

  // Decided by the block's address alone: granted, given back for a mapping out
  // of step, or a panic because the block starts 1 to 3 bytes past a multiple
  // of the alignment.
  lemma PaddedExact(ty: Word, nbytes: Word, align: Word, a: Answer)
    requires Backed(ty) && Sane(ty, nbytes, align, a)
    ensures var o := Padded(ty, nbytes, align, a).0;
            var r := a.addr % align;
            && (o.Failed? <==> MappedAt(ty, a) % align != r)
            && (o.Panic? <==> MappedAt(ty, a) % align == r && 0 < r < 4)
            && (o.Granted? <==> MappedAt(ty, a) % align == r && !(0 < r < 4))
  {
    PaddedUnwrapped(ty, nbytes, align, a);
    PadAligns(a.addr, MappedAt(ty, a), align, PadOf(a.addr, align));
  }

  // ------------------------------------------------------------ containment

  // A granted range lies inside its block, for every size, alignment and answer
  // that is a block of the address space: the checks are enough.
  lemma GrantedInside(v: seq<Req>, q: Request)
    ensures var o := DoAlloc(v, q).0;
            o.Granted? && o.block.addr + o.block.size < P64 ==>
              o.block.addr <= o.result && o.result + q.nbytes <= o.block.addr + o.block.size
  {
    var o := DoAlloc(v, q).0;
    if o.Granted? && o.block.addr + o.block.size < P64 {
      GrantedWhere(q);
      if o.result != o.block.addr || o.block.size != q.nbytes {
        CheckedFits(o.block.addr, q.align, q.nbytes, o.block.size, o.result);
      }
    }
  }

  // A grant is the first block as it is, or the second rounded up.
  lemma GrantedWhere(q: Request)
    ensures var o := Allocate(q.ty, q.nbytes, q.align, q.a1, q.a2).0;
            o.Granted? ==>
              || (o.result == o.block.addr && o.block.size == q.nbytes)
              || (q.align >= 4 && o.result == RoundUp(o.block.addr, q.align))
  {
  }

  // A rounded address that passes the last check leaves room for the range.
  lemma CheckedFits(addr: Kptr, align: Word, nbytes: Word, size: Word, result: Kptr)
    requires align >= 4 && result == RoundUp(addr, align) && addr + size < P64
    requires size >= (nbytes + (result - addr) % P64) % P64
    ensures addr <= result && result + nbytes <= addr + size
  {
    var s := addr + (align - 1);
    if s < P64 {
      RoundUpExact(addr, align);
    } else {
      ModSmall(s, P64);
      DivMulLe(s - P64, align);
    }
    ModSmall(result - addr, P64);
    ModSmall(nbytes + (result - addr) % P64, P64);
  }

  // ------------------------------------------------------------ alignment

  // Every allocator but the one for data may answer NULL.
  predicate Answered(q: Request, a: Answer) {
    q.ty == DATA || a.addr != 0
  }

  // The first answer is good: there is one and, where that is tested, aligned.
  predicate Acceptable(q: Request)
    requires q.align > 0
  {
    Answered(q, q.a1) && (q.ty == DATA || q.ty == KMEM32 ==> q.a1.addr % q.align == 0)
  }

  // Whether alloc() goes on to a second attempt that is answered.
  predicate Retries(q: Request)
    requires q.align > 0
  {
    !Acceptable(q) && q.align != 1 && Answered(q, q.a2)
  }

  // A retry block is good if its mapping is as far from alignment as the block,
  // and that is none or at least 4 bytes.
  predicate Usable(q: Request)
    requires q.align > 0
  {
    var r := q.a2.addr % q.align;
    MappedAt(q.ty, q.a2) % q.align == r && !(0 < r < 4)
  }

  predicate Permitted(q: Request) {
    q.ty <= KMEM32 && q.ty != TRY_NUCLEUS && (q.align == 1 || (q.align >= 4 && q.align % 4 == 0))
  }

  ghost predicate Proper(q: Request) {
    Permitted(q) && (Retries(q) ==> Sane(q.ty, q.nbytes, q.align, q.a2))
  }

  function FirstBlock(q: Request): Block {
    Block(q.ty, q.a1.addr, MappedAt(q.ty, q.a1), q.nbytes)
  }

  // A bad first answer is given back, if there was one.
  function FirstEvents(q: Request): seq<Event> {
    if Answered(q, q.a1) then [Got(FirstBlock(q)), Gave(FirstBlock(q))] else []
  }

  // A good first answer is granted as it is, with the size asked for, logged and
  // nothing else taken.
  lemma FirstAnswerGranted(v: seq<Req>, q: Request)
    requires Permitted(q) && Acceptable(q)
    ensures var b := FirstBlock(q);
            DoAlloc(v, q) == (Granted(b.addr, b.mapped, b), v + [Req(b.addr, b.mapped, q.nbytes, b)], [Got(b)])
  {
    ModSmall(q.nbytes, P64);
  }

  // A bad one fails when there is no padding to try, or no second answer.
  lemma FirstAnswerFails(v: seq<Req>, q: Request)
    requires Permitted(q) && !Acceptable(q) && !Retries(q)
    ensures DoAlloc(v, q) == (Failed, v, FirstEvents(q))
  {
    assert FirstEvents(q) + [] == FirstEvents(q);
    if q.align != 1 { assert Padded(q.ty, q.nbytes, q.align, q.a2) == (Failed, []); }
  }

  // Otherwise the block asked for second is larger by the alignment less 4, and
  // what is granted is its first aligned address.
  lemma SecondAnswer(v: seq<Req>, q: Request)
    requires Proper(q) && Retries(q)
    ensures var m, r, pad := MappedAt(q.ty, q.a2), q.a2.addr % q.align, PadOf(q.a2.addr, q.align);
            var b := Block(q.ty, q.a2.addr, m, q.nbytes + (q.align - 4));
            DoAlloc(v, q) ==
            if m % q.align != r then (Failed, v, FirstEvents(q) + [Got(b), Gave(b)])
            else if 0 < r < 4 then (Panic, v, FirstEvents(q) + [Got(b)])
            else (Granted(b.addr + pad, m + pad, b), v + [Req(b.addr + pad, m + pad, q.nbytes, b)],
                  FirstEvents(q) + [Got(b)])
  {
    PaddedExact(q.ty, q.nbytes, q.align, q.a2);
    PaddedUnwrapped(q.ty, q.nbytes, q.align, q.a2);
    PaddedEvents(q);
    var pad := PadOf(q.a2.addr, q.align);
    ModSmall(pad, P64);
    ModSmall(q.nbytes + pad, P64);
  }

  lemma PaddedEvents(q: Request)
    requires Proper(q) && Retries(q)
    ensures var b := Block(q.ty, q.a2.addr, MappedAt(q.ty, q.a2), q.nbytes + (q.align - 4));
            var (o, e) := Padded(q.ty, q.nbytes, q.align, q.a2);
            e == if o.Failed? then [Got(b), Gave(b)] else [Got(b)]
  {
    ModSmall(q.nbytes + (q.align - 4), P32);
  }

  // So a permitted request is granted exactly when the first answer is good, or
  // it is not and a second one is tried and usable;
  lemma AllocGrantsIff(v: seq<Req>, q: Request)
    requires Proper(q)
    ensures DoAlloc(v, q).0.Granted? <==> Acceptable(q) || (Retries(q) && Usable(q))
  {
    if Acceptable(q) { FirstAnswerGranted(v, q); }
    else if Retries(q) { SecondAnswer(v, q); }
    else { FirstAnswerFails(v, q); }
  }

  // and both size checks, and the two alignment checks before them, together panic
  // exactly when the retry block is 1 to 3 bytes past a multiple of the alignment.
  lemma AllocPanicsIff(v: seq<Req>, q: Request)
    requires Proper(q)
    ensures DoAlloc(v, q).0.Panic? <==>
              Retries(q) && MappedAt(q.ty, q.a2) % q.align == q.a2.addr % q.align && 0 < q.a2.addr % q.align < 4
  {
    if Acceptable(q) { FirstAnswerGranted(v, q); }
    else if Retries(q) { SecondAnswer(v, q); }
    else { FirstAnswerFails(v, q); }
  }

  // Requests that are not permitted: a bad alignment or type brings the machine
  // down before anything is taken, the obsolete try-nucleus type fails; and with
  // alignment 0 an answer passes only where alignment is not tested.
  lemma AllocRejects(v: seq<Req>, q: Request)
    ensures q.align > 1 && q.align % 4 != 0 ==> DoAlloc(v, q) == (Panic, v, [])
    ensures q.align <= 1 || q.align % 4 == 0 ==>
              && (q.ty == TRY_NUCLEUS ==> DoAlloc(v, q) == (Failed, v, []))
              && (q.ty > KMEM32 ==> DoAlloc(v, q) == (Panic, v, []))
    ensures q.align == 0 && Backed(q.ty) ==>
              (DoAlloc(v, q).0.Granted? <==> (q.ty == BELOW_NUCLEUS || q.ty == NUCLEUS) && q.a1.addr != 0)
              && !DoAlloc(v, q).0.Failed?
  {
    ModSmall(q.nbytes, P64);
  }

  lemma MultipleOfFour(x: nat, m: nat)
    requires m > 0 && m % 4 == 0 && x % 4 == 0
    ensures x % m % 4 == 0
  {
    var q, r, k := x / m, x % m, m / 4;
    assert x == q * m + r && m == k * 4;
    assert q * (k * 4) == (q * k) * 4;
    var t := x / 4 - q * k;
    DivModUnique(r, t, 0, 4);
  }

  // Allocators that align to 4 bytes never make it panic.
  lemma AlignedAnswersNeverPanic(v: seq<Req>, q: Request)
    requires Proper(q) && q.a2.addr % 4 == 0
    ensures !DoAlloc(v, q).0.Panic?
  {
    AllocPanicsIff(v, q);
    if Retries(q) { MultipleOfFour(q.a2.addr, q.align); }
  }

  // The below and nucleus allocators are asked for the alignment but their
  // answers are not checked: the first answer is passed on as it is.
  predicate Misanswered(q: Request)
    requires q.align > 0
  {
    && (q.ty == BELOW_NUCLEUS || q.ty == NUCLEUS) && q.a1.addr != 0
    && !(q.a1.addr % q.align == 0 && MappedAt(q.ty, q.a1) % q.align == 0)
  }

  // What is granted is aligned, its mapping too, exactly when the first answer
  // is not such a misaligned one.
  lemma GrantedAlignedIff(v: seq<Req>, q: Request)
    requires q.align > 0 && DoAlloc(v, q).0.Granted?
    ensures var o := DoAlloc(v, q).0;
            o.result % q.align == 0 && o.mapped % q.align == 0 <==> !Misanswered(q)
  {
    var t := TryOnce(q.ty, q.nbytes, q.align, q.a1).0;
    if !t.Yes? && q.align >= 4 { PaddedAligned(q.ty, q.nbytes, q.align, q.a2); }
  }

  lemma PaddedAligned(ty: Word, nbytes: Word, align: Word, a: Answer)
    requires align >= 4
    ensures var o := Padded(ty, nbytes, align, a).0;
            o.Granted? ==> o.result % align == 0 && o.mapped % align == 0
  {
  }

  // ------------------------------------------------------------ free undoes alloc

  // Records lie inside their blocks, and blocks do not overlap.
  ghost predicate SoundLog(v: seq<Req>) {
    && (forall i :: 0 <= i < |v| ==>
          v[i].prettyBytes > 0 && v[i].block.addr <= v[i].prettyAddr
          && v[i].prettyAddr + v[i].prettyBytes <= v[i].block.addr + v[i].block.size)
    && (forall i, j :: 0 <= i < j < |v| ==>
          v[i].block.addr + v[i].block.size <= v[j].block.addr || v[j].block.addr + v[j].block.size <= v[i].block.addr)
  }

  // The address returned by alloc() finds its own record and its own block.
  lemma FreeReleasesOwn(v: seq<Req>, i: nat)
    requires SoundLog(v) && i < |v| && v[i].prettyAddr != 0
    ensures DoFree(v, v[i].prettyAddr, v[i].prettyMapped, v[i].prettyBytes) == (Removed(v, i), [Gave(v[i].block)])
  {
    var j := IndexOf(v, v[i].prettyAddr, v[i].prettyMapped, v[i].prettyBytes);
    assert Matches(v[i], v[i].prettyAddr, v[i].prettyMapped, v[i].prettyBytes);
  }

  // A granted request keeps the log sound when its block is clear of the others,
  lemma AllocKeepsSound(v: seq<Req>, q: Request)
    requires SoundLog(v) && q.nbytes > 0 && DoAlloc(v, q).0.Granted?
    requires var b := DoAlloc(v, q).0.block;
             && b.addr + b.size < P64
             && forall i :: 0 <= i < |v| ==>
                  v[i].block.addr + v[i].block.size <= b.addr || b.addr + b.size <= v[i].block.addr
    ensures SoundLog(DoAlloc(v, q).1)
  {
    GrantedInside(v, q);
  }

  // and freeing what it returned gives back that block and restores the log.
  lemma AllocThenFree(v: seq<Req>, q: Request)
    requires SoundLog(v) && q.nbytes > 0 && DoAlloc(v, q).0.Granted? && DoAlloc(v, q).0.result != 0
    requires var b := DoAlloc(v, q).0.block;
             && b.addr + b.size < P64
             && forall i :: 0 <= i < |v| ==>
                  v[i].block.addr + v[i].block.size <= b.addr || b.addr + b.size <= v[i].block.addr
    ensures var (o, v', e) := DoAlloc(v, q);
            DoFree(v', o.result, o.mapped, q.nbytes) == (v, [Gave(o.block)])
  {
    AllocKeepsSound(v, q);
    FreeReleasesOwn(DoAlloc(v, q).1, |v|);
    assert Removed(DoAlloc(v, q).1, |v|) == v;
  }
}
