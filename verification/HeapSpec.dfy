/** The homogenous heap, on values: a list of subheaps, newest and largest
first, each a region of equal chunks with a stack of its free ones.

Addresses are natural numbers and 0 is failure.  `sz` is the element size,
`per` the number of elements in a chunk. */
module HeapSpec {
  import opened Arith
  import opened Wrappers

  // One subheap: its region starts at raw and holds n elements; the top of the
  // free stack is its last element.
  datatype Sub = Sub(raw: nat, n: nat, free: seq<nat>)

  datatype Heap = Heap(sz: nat, per: nat, subs: seq<Sub>)

  // ------------------------------------------------------------ operations

  function ChunkSize(h: Heap): nat { h.per * h.sz }

  // The stack a new subheap starts with.
  function Chunks(raw: nat, cs: nat, count: nat): (c: seq<nat>)
    ensures |c| == count
    ensures forall k :: 0 <= k < count ==> c[k] == raw + k * cs
  {
    seq(count, k requires 0 <= k < count => raw + k * cs)
  }

  // allocate(): pops from the first subheap with a free chunk.
  function Pop(subs: seq<Sub>): (r: (seq<Sub>, nat))
    ensures |r.0| == |subs|
  {
    if subs == [] then (subs, 0)
    else if |subs[0].free| > 0 then
      var m := |subs[0].free| - 1;
      ([subs[0].(free := subs[0].free[..m])] + subs[1..], subs[0].free[m])
    else
      var (rest, p) := Pop(subs[1..]);
      ([subs[0]] + rest, p)
  }

  // belongs(): the element index is cut to 32 bits.
  predicate Belongs(sub: Sub, sz: nat, p: nat)
    requires sz > 0
  {
    p >= sub.raw && (p - sub.raw) / sz % P32 < sub.n
  }

  // deallocate(): pushes on the first subheap the chunk belongs to.
  function Push(subs: seq<Sub>, sz: nat, p: nat): (r: Option<seq<Sub>>)
    requires sz > 0
    ensures r.Some? ==> |r.value| == |subs|
  {
    if subs == [] then None
    else if Belongs(subs[0], sz, p) then Some([subs[0].(free := subs[0].free + [p])] + subs[1..])
    else
      match Push(subs[1..], sz, p)
      case None => None
      case Some(rest) => Some([subs[0]] + rest)
  }

  function RoundUp(x: nat, y: nat): nat
    requires y > 0
  {
    (x + (y - 1)) / y * y
  }

  // How many elements the next subheap gets; `unsigned` arithmetic wraps.
  function NewSize(n: nat, per: nat): nat
    requires per > 0
  {
    var m := (n + n / 2) % P32;
    var m1 := if m == n then (m + 1) % P32 else m;
    RoundUp(m1, per) % P32
  }

  // alloc(): `raw` is the region create_subheap would give, None when it fails.
  function DoAlloc(h: Heap, raw: Option<nat>): (Heap, nat)
    requires h.subs != [] && h.per > 0
  {
    var (subs, p) := Pop(h.subs);
    if p != 0 then (h.(subs := subs), p)
    else if raw.None? then (h, 0)
    else
      var n := NewSize(h.subs[0].n, h.per);
      var sub := Sub(raw.value, n, Chunks(raw.value, ChunkSize(h), n / h.per));
      var (subs', p') := Pop([sub] + h.subs);
      (h.(subs := subs'), p')
  }

  // ------------------------------------------------------------ growth

  // Half as much again, or one more, rounded up to whole chunks.
  lemma NewSizeBounds(n: nat, per: nat)
    requires per > 0 && n + n / 2 + 1 + per <= P32
    ensures var m := if n / 2 == 0 then n + 1 else n + n / 2;
            NewSize(n, per) % per == 0 && m <= NewSize(n, per) < m + per
  {
    var m := n + n / 2;
    var m1 := if m == n then m + 1 else m;
    RoundUpBounds(m1, per);
    Small(m);
    Small(m1);
    Small(RoundUp(m1, per));
  }

  // Each new subheap is at least 4/3 of the largest so far, and holds whole
  // chunks, barring wrap-around.
  lemma NewSizeGrows(n: nat, per: nat)
    requires per > 0 && n + n / 2 + 1 + per <= P32
    ensures NewSize(n, per) % per == 0 && NewSize(n, per) > n && 3 * NewSize(n, per) >= 4 * n
  {
    NewSizeBounds(n, per);
  }

  // A new subheap has twice the elements, as the header promises, exactly while
  // the largest so far holds at most one chunk;
  lemma DoublesIff(n: nat, per: nat)
    requires per > 0 && n % per == 0 && n + n / 2 + 1 + per <= P32
    ensures NewSize(n, per) >= 2 * n <==> n <= per
  {
    NewSizeBounds(n, per);
    DivMod(n, per);
    DivMod(NewSize(n, per), per);
    WholeChunksDouble(n, n / per, NewSize(n, per), NewSize(n, per) / per, per);
  }

  lemma WholeChunksDouble(n: nat, k: nat, size: nat, q: nat, per: nat)
    requires per > 0 && n == k * per && size == q * per
    requires var m := if n / 2 == 0 then n + 1 else n + n / 2; m <= size < m + per
    ensures size >= 2 * n <==> n <= per
  {
    if k >= 2 {
      MulLe(per, 2, k);
      AlmostHalfAgain(k, q, per);
    } else if k == 1 {
      MulCancel(1, q, per);
      MulLe(per, 2, q);
    }
  }

  lemma AlmostHalfAgain(k: nat, q: nat, per: nat)
    requires per > 0 && k >= 2 && 2 * (q * per) < 3 * (k * per) + 2 * per
    ensures q * per < 2 * (k * per) && k * per > per
  {
    MulLt(1, k, per);
    assert (2 * q) * per == 2 * (q * per) && (3 * k + 2) * per == 3 * (k * per) + 2 * per;
    MulCancel(2 * q, 3 * k + 2, per);
    MulLt(q, 2 * k, per);
    assert (2 * k) * per == 2 * (k * per);
  }

  // as with two elements, one to a chunk, which grow to three.
  lemma NotTwice()
    ensures NewSize(2, 1) == 3
  {
  }

  lemma Small(x: nat)
    ensures x < P32 ==> x % P32 == x
  {
  }

  lemma RoundUpBounds(x: nat, y: nat)
    requires y > 0
    ensures RoundUp(x, y) % y == 0 && x <= RoundUp(x, y) < x + y
  {
    var q := (x + (y - 1)) / y;
    assert x + (y - 1) == q * y + (x + (y - 1)) % y;
    DivModUnique(q * y, q, 0, y);
  }

  function Pow(b: nat, e: nat): nat {
    if e == 0 then 1 else b * Pow(b, e - 1)
  }

  // Sizes along the list: each subheap at least 4/3 of the next.
  ghost predicate Geometric(subs: seq<Sub>) {
    forall i, j :: 0 <= i < j < |subs| && j == i + 1 ==> subs[i].n > subs[j].n && 3 * subs[i].n >= 4 * subs[j].n
  }

  // After k growths the largest subheap has at least (4/3)^k times the elements.
  lemma {:induction false} GrowthBound(subs: seq<Sub>, k: nat)
    requires Geometric(subs) && k < |subs|
    ensures Pow(3, k) * subs[0].n >= Pow(4, k) * subs[k].n
  {
    if k > 0 {
      GrowthBound(subs, k - 1);
      GrowthStep(Pow(3, k - 1), Pow(4, k - 1), subs[0].n, subs[k - 1].n, subs[k].n);
    }
  }

  lemma GrowthStep(a: nat, b: nat, x: nat, y: nat, z: nat)
    requires a * x >= b * y && 3 * y >= 4 * z
    ensures (3 * a) * x >= (4 * b) * z
  {
    assert (3 * a) * x == 3 * (a * x);
    assert (4 * b) * z == b * (4 * z);
    MulLe(b, 4 * z, 3 * y);
    assert b * (3 * y) == 3 * (b * y);
  }
}
