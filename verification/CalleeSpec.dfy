/** The callee counter's table: 512 chain headers followed by cells handed out
in order, each cell linked once into the chain of its call site's bin.

Links are cell indices and NULL is -1.  Chains are described by the paths they
follow, header first. */
module CalleeSpec {
  import opened Arith
  import opened Hashing
  import opened Wrappers

  const NUM_TOTAL: nat := 8192
  const NUM_BINS: nat := 512

  datatype Cell = Cell(site: nat, callee: nat, count: nat, next: int)

  type Pair = (nat, nat)

  ghost function PairOf(c: Cell): Pair { (c.site, c.callee) }

  function Bin(site: nat): (b: nat)
    ensures b < NUM_BINS
  {
    HashFrom(site / 4, 0) % NUM_BINS
  }

  // The bin of a word address, whatever its two low bits; the 32-bit wrap-around
  // never shows in it.
  lemma BinOfWord(word: nat, low: nat)
    requires low < 4
    ensures Bin(4 * word + low) == Horner(word, 0) % NUM_BINS
  {
    DivModUnique(4 * word + low, word, low, 4);
    HashMod(word, 0, 0, NUM_BINS, 0x80_0000);
  }

  // ------------------------------------------------------------ paths

  // Following next from p[0] meets exactly p and then NULL.
  ghost predicate Follows(cells: seq<Cell>, p: seq<nat>) {
    && p != []
    && (forall k :: 0 <= k < |p| ==> p[k] < |cells|)
    && (forall k, j :: 0 <= k < j < |p| && j == k + 1 ==> cells[p[k]].next == p[j])
    && cells[p[|p| - 1]].next == -1
  }

  // The path of bin b: its header, then used cells of sites hashing to b.
  ghost predicate BinPath(cells: seq<Cell>, freePos: nat, b: nat, p: seq<nat>) {
    && Follows(cells, p) && Distinct(p) && p[0] == b
    && (forall k :: 1 <= k < |p| ==> NUM_BINS < p[k] <= freePos && Bin(cells[p[k]].site) == b)
  }

  // Every bin has its path, and no used cell is lost: each is on the path of
  // its site's bin.
  ghost predicate Table(cells: seq<Cell>, freePos: nat, paths: seq<seq<nat>>) {
    && |cells| == NUM_TOTAL && NUM_BINS <= freePos < NUM_TOTAL && |paths| == NUM_BINS
    && (forall b :: 0 <= b < NUM_BINS ==> BinPath(cells, freePos, b, paths[b]))
    && (forall i :: NUM_BINS < i <= freePos ==> i in paths[Bin(cells[i].site)])
  }

  ghost function InsertAt(p: seq<nat>, k: nat, x: nat): seq<nat>
    requires k < |p|
  {
    p[..k + 1] + [x] + p[k + 1..]
  }

  // Taking the next free cell for a pair and linking it in after `curr`.
  function Append(cells: seq<Cell>, freePos: nat, curr: nat, site: nat, callee: nat): seq<Cell>
    requires freePos + 1 < |cells| && curr < |cells|
  {
    var idx := freePos + 1;
    var cells1 := cells[idx := Cell(site, callee, 1, cells[curr].next)];
    cells1[curr := cells1[curr].(next := idx)]
  }

  lemma InsertIndex(p: seq<nat>, k: nat, x: nat)
    requires k < |p|
    ensures var q := InsertAt(p, k, x);
            && |q| == |p| + 1
            && (forall i :: 0 <= i < |q| ==> q[i] == if i <= k then p[i] else if i == k + 1 then x else p[i - 1])
  {
  }

  lemma InsertDistinct(p: seq<nat>, k: nat, x: nat)
    requires k < |p| && Distinct(p) && x !in p
    ensures Distinct(InsertAt(p, k, x))
  {
    InsertIndex(p, k, x);
    var q := InsertAt(p, k, x);
    forall i, j | 0 <= i < j < |q| ensures q[i] != q[j] {
      var i', j' := if i <= k then i else i - 1, if j <= k then j else j - 1;
      if i != k + 1 && j != k + 1 { assert p[i'] != p[j']; }
    }
  }

  lemma InsertFollows(cells: seq<Cell>, freePos: nat, p: seq<nat>, k: nat, site: nat, callee: nat)
    requires freePos + 1 < |cells| && Follows(cells, p) && Distinct(p) && k < |p| && freePos + 1 !in p
    ensures Follows(Append(cells, freePos, p[k], site, callee), InsertAt(p, k, freePos + 1))
  {
    var q := InsertAt(p, k, freePos + 1);
    InsertIndex(p, k, freePos + 1);
    var cells' := Append(cells, freePos, p[k], site, callee);
    forall i | 0 <= i < |q| ensures cells'[q[i]].next == if i + 1 < |q| then q[i + 1] else -1 {
      if i == k + 1 {
        assert p[k] in p;
      } else {
        AppendLink(cells, freePos, p, k, site, callee, if i <= k then i else i - 1);
      }
    }
  }

  // The links of a path's own cells after appending at p[k].
  lemma AppendLink(cells: seq<Cell>, freePos: nat, p: seq<nat>, k: nat, site: nat, callee: nat, i: nat)
    requires freePos + 1 < |cells| && Follows(cells, p) && Distinct(p) && k < |p| && i < |p| && freePos + 1 !in p
    ensures Append(cells, freePos, p[k], site, callee)[p[i]].next ==
            if i == k then freePos + 1 else if i + 1 < |p| then p[i + 1] else -1
  {
    assert p[i] in p && p[k] in p;
    if i < k { assert p[i] != p[k]; } else if k < i { assert p[k] != p[i]; }
  }

  // The path of the bin takes the new cell after curr.
  lemma AppendPath(cells: seq<Cell>, freePos: nat, b: nat, p: seq<nat>, k: nat, site: nat, callee: nat)
    requires |cells| == NUM_TOTAL && NUM_BINS <= freePos && freePos + 1 < NUM_TOTAL && b < NUM_BINS
    requires BinPath(cells, freePos, b, p) && k < |p| && Bin(site) == b
    ensures BinPath(Append(cells, freePos, p[k], site, callee), freePos + 1, b, InsertAt(p, k, freePos + 1))
  {
    var idx := freePos + 1;
    assert idx !in p;
    InsertFollows(cells, freePos, p, k, site, callee);
    InsertDistinct(p, k, idx);
    InsertIndex(p, k, idx);
    var q := InsertAt(p, k, idx);
    forall i | 1 <= i < |q|
      ensures NUM_BINS < q[i] <= idx && Bin(Append(cells, freePos, p[k], site, callee)[q[i]].site) == b
    {
      AppendSites(cells, freePos, p[k], site, callee);
    }
  }

  // Appending changes the site of no other cell.
  lemma AppendSites(cells: seq<Cell>, freePos: nat, curr: nat, site: nat, callee: nat)
    requires freePos + 1 < |cells| && curr < |cells|
    ensures var cells' := Append(cells, freePos, curr, site, callee);
            && (forall i :: 0 <= i < |cells| && i != freePos + 1 ==>
                  cells'[i].site == cells[i].site && cells'[i].callee == cells[i].callee && cells'[i].count == cells[i].count)
            && cells'[freePos + 1].site == site && cells'[freePos + 1].callee == callee && cells'[freePos + 1].count == 1
  {
  }

  // The paths of the other bins are untouched.
  lemma AppendOther(cells: seq<Cell>, freePos: nat, b: nat, p: seq<nat>, curr: nat, site: nat, callee: nat)
    requires |cells| == NUM_TOTAL && NUM_BINS <= freePos && freePos + 1 < NUM_TOTAL && b < NUM_BINS && curr < |cells|
    requires BinPath(cells, freePos, b, p) && curr !in p
    ensures BinPath(Append(cells, freePos, curr, site, callee), freePos + 1, b, p)
  {
    var cells' := Append(cells, freePos, curr, site, callee);
    forall i | 0 <= i < |p| ensures cells'[p[i]] == cells[p[i]] { assert p[i] in p; }
  }

  lemma PathsDisjoint(cells: seq<Cell>, freePos: nat, paths: seq<seq<nat>>, b: nat, c: nat, x: nat)
    requires Table(cells, freePos, paths) && b < NUM_BINS && c < NUM_BINS && x in paths[b] && x in paths[c]
    ensures b == c
  {
    var i :| 0 <= i < |paths[b]| && paths[b][i] == x;
    var j :| 0 <= j < |paths[c]| && paths[c][j] == x;
    assert i == 0 <==> j == 0;
  }

  // Appending keeps the table, with the new cell on the path of its bin.
  lemma AppendKeepsTable(cells: seq<Cell>, freePos: nat, paths: seq<seq<nat>>, k: nat, site: nat, callee: nat,
                         cells': seq<Cell>, paths': seq<seq<nat>>)
    requires Table(cells, freePos, paths) && freePos + 1 < NUM_TOTAL && k < |paths[Bin(site)]|
    requires cells' == Append(cells, freePos, paths[Bin(site)][k], site, callee)
    requires paths' == paths[Bin(site) := InsertAt(paths[Bin(site)], k, freePos + 1)]
    ensures Table(cells', freePos + 1, paths')
  {
    var b := Bin(site);
    var p, curr := paths[b], paths[b][k];
    AppendPath(cells, freePos, b, p, k, site, callee);
    forall c | 0 <= c < NUM_BINS && c != b ensures BinPath(cells', freePos + 1, c, paths'[c]) {
      if curr in paths[c] { PathsDisjoint(cells, freePos, paths, b, c, curr); }
      AppendOther(cells, freePos, c, paths[c], curr, site, callee);
    }
    forall i | NUM_BINS < i <= freePos + 1 ensures i in paths'[Bin(cells'[i].site)] {
      if i == freePos + 1 {
        assert paths'[b][k + 1] == i;
      } else {
        var c := Bin(cells[i].site);
        assert cells'[i].site == cells[i].site;
        if c == b { InsertKeeps(p, k, freePos + 1, i); }
      }
    }
  }

  lemma InsertKeeps(p: seq<nat>, k: nat, x: nat, y: nat)
    requires k < |p| && y in p
    ensures y in InsertAt(p, k, x)
  {
    var i :| 0 <= i < |p| && p[i] == y;
    if i <= k { assert InsertAt(p, k, x)[i] == y; } else { assert InsertAt(p, k, x)[i + 1] == y; }
  }

  // Counts wrap at 32 bits.
  function Inc(n: nat): nat {
    (n + 1) % P32
  }

  // Counting one more call in a cell.
  function Bump(cells: seq<Cell>, i: nat): seq<Cell>
    requires i < |cells|
  {
    cells[i := cells[i].(count := Inc(cells[i].count))]
  }

  lemma BumpKeepsTable(cells: seq<Cell>, freePos: nat, paths: seq<seq<nat>>, i: nat, cells': seq<Cell>)
    requires Table(cells, freePos, paths) && i < |cells| && cells' == Bump(cells, i)
    ensures Table(cells', freePos, paths)
  {
    forall b | 0 <= b < NUM_BINS ensures BinPath(cells', freePos, b, paths[b]) {
      assert BinPath(cells, freePos, b, paths[b]);
    }
    forall j | NUM_BINS < j <= freePos ensures j in paths[Bin(cells'[j].site)] {
      assert cells'[j].site == cells[j].site;
    }
  }

  // ------------------------------------------------------------ counts

  ghost function Sum(cells: seq<Cell>, p: seq<nat>): nat
    requires forall k :: 0 <= k < |p| ==> p[k] < |cells|
  {
    if p == [] then 0 else Sum(cells, p[..|p| - 1]) + cells[p[|p| - 1]].count
  }

  // The calls counted on a path, its header apart.
  ghost function PathSum(cells: seq<Cell>, p: seq<nat>): nat
    requires p != [] && forall k :: 0 <= k < |p| ==> p[k] < |cells|
  {
    Sum(cells, p[1..])
  }

  lemma {:induction false} SumFrame(cells: seq<Cell>, cells': seq<Cell>, p: seq<nat>)
    requires |cells| == |cells'| && forall k :: 0 <= k < |p| ==> p[k] < |cells| && cells'[p[k]].count == cells[p[k]].count
    ensures Sum(cells', p) == Sum(cells, p)
  {
    if p != [] { SumFrame(cells, cells', p[..|p| - 1]); }
  }

  lemma {:induction false} SumAppend(cells: seq<Cell>, p: seq<nat>, q: seq<nat>)
    requires forall k :: 0 <= k < |p| ==> p[k] < |cells|
    requires forall k :: 0 <= k < |q| ==> q[k] < |cells|
    ensures Sum(cells, p + q) == Sum(cells, p) + Sum(cells, q)
  {
    if q == [] {
      assert p + q == p;
    } else {
      assert (p + q)[..|p + q| - 1] == p + q[..|q| - 1];
      SumAppend(cells, p, q[..|q| - 1]);
    }
  }

  lemma {:induction false} SumPut(cells: seq<Cell>, p: seq<nat>, k: nat, c: Cell)
    requires k < |p| && Distinct(p) && forall j :: 0 <= j < |p| ==> p[j] < |cells|
    ensures Sum(cells[p[k] := c], p) + cells[p[k]].count == Sum(cells, p) + c.count
  {
    var n := |p| - 1;
    if k < n {
      SumPut(cells, p[..n], k, c);
    } else {
      SumFrame(cells, cells[p[k] := c], p[..n]);
    }
  }

  lemma {:induction false} SumBounds(cells: seq<Cell>, p: seq<nat>, k: nat)
    requires k < |p| && forall j :: 0 <= j < |p| ==> p[j] < |cells|
    ensures cells[p[k]].count <= Sum(cells, p)
  {
    if k < |p| - 1 { SumBounds(cells, p[..|p| - 1], k); }
  }

  // A new cell adds one call to its bin.
  lemma AppendSum(cells: seq<Cell>, freePos: nat, p: seq<nat>, k: nat, site: nat, callee: nat)
    requires freePos + 1 < |cells| && k < |p| && forall j :: 0 <= j < |p| ==> p[j] <= freePos
    ensures var q := InsertAt(p, k, freePos + 1);
            && (forall j :: 0 <= j < |q| ==> q[j] <= freePos + 1)
            && PathSum(Append(cells, freePos, p[k], site, callee), q) == PathSum(cells, p) + 1
  {
    var idx := freePos + 1;
    var cells' := Append(cells, freePos, p[k], site, callee);
    AppendSites(cells, freePos, p[k], site, callee);
    InsertIndex(p, k, idx);
    var a, c := p[1..k + 1], p[k + 1..];
    assert InsertAt(p, k, idx)[1..] == (a + [idx]) + c;
    assert p[1..] == a + c;
    SumSplice(cells, cells', a, c, idx);
  }

  lemma SumSplice(cells: seq<Cell>, cells': seq<Cell>, a: seq<nat>, c: seq<nat>, idx: nat)
    requires |cells| == |cells'| && idx < |cells|
    requires forall k :: 0 <= k < |a| ==> a[k] < |cells| && cells'[a[k]].count == cells[a[k]].count
    requires forall k :: 0 <= k < |c| ==> c[k] < |cells| && cells'[c[k]].count == cells[c[k]].count
    ensures Sum(cells', (a + [idx]) + c) == Sum(cells, a + c) + cells'[idx].count
  {
    SumAppend(cells', a + [idx], c);
    SumAppend(cells', a, [idx]);
    SumAppend(cells, a, c);
    SumFrame(cells, cells', a);
    SumFrame(cells, cells', c);
    assert Sum(cells', [idx]) == cells'[idx].count by { assert [idx][..0] == []; }
  }
}
