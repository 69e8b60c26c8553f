/** The callee counter used by one thread at a time: a map from (site, callee)
to the number of calls, for the first 7679 pairs. */
module CalleeCounter {
  import opened Arith
  import opened Hashing
  import opened Wrappers
  import opened CalleeSpec

  const CAPACITY: nat := NUM_TOTAL - 1 - NUM_BINS

  // One update of the map: a new pair is dropped when the table is full.
  ghost function Record(view: map<Pair, nat>, p: Pair): map<Pair, nat> {
    if p in view then view[p := Inc(view[p])]
    else if |view| < CAPACITY then view[p := 1]
    else view
  }

  // Map `at` finds the one cell of every recorded pair.
  ghost predicate Indexed(cells: seq<Cell>, freePos: nat, at: map<Pair, nat>) {
    && NUM_BINS <= freePos < |cells| && |at| == freePos - NUM_BINS
    && (forall p :: p in at ==> NUM_BINS < at[p] <= freePos && PairOf(cells[at[p]]) == p)
    && (forall i :: NUM_BINS < i <= freePos ==> PairOf(cells[i]) in at && at[PairOf(cells[i])] == i)
  }

  // The calls recorded for each pair.
  ghost function View(cells: seq<Cell>, freePos: nat, at: map<Pair, nat>): (view: map<Pair, nat>)
    requires Indexed(cells, freePos, at)
    ensures view.Keys == at.Keys && |view| == |at|
  {
    var view := map p | p in at :: cells[at[p]].count;
    assert view.Keys == at.Keys;
    view
  }

  // None of the first n cells of a path, its header apart, is for pair p.
  ghost predicate OffPath(cells: seq<Cell>, q: seq<nat>, n: nat, p: Pair) {
    forall k :: 1 <= k < n && k < |q| ==> q[k] < |cells| && PairOf(cells[q[k]]) != p
  }

  // A pair met nowhere on the path of its bin is not recorded.
  lemma NotOnPath(cells: seq<Cell>, freePos: nat, paths: seq<seq<nat>>, at: map<Pair, nat>, p: Pair)
    requires Table(cells, freePos, paths) && Indexed(cells, freePos, at)
    requires OffPath(cells, paths[Bin(p.0)], |paths[Bin(p.0)]|, p)
    ensures p !in at
  {
    assert BinPath(cells, freePos, Bin(p.0), paths[Bin(p.0)]);
  }

  lemma OnPathUsed(cells: seq<Cell>, freePos: nat, paths: seq<seq<nat>>, b: nat, k: nat)
    requires Table(cells, freePos, paths) && b < NUM_BINS && k < |paths[b]|
    ensures paths[b][k] <= freePos
  {
    assert BinPath(cells, freePos, b, paths[b]);
  }

  lemma IndexedAppend(cells: seq<Cell>, freePos: nat, at: map<Pair, nat>, curr: nat, p: Pair, cells': seq<Cell>)
    requires Indexed(cells, freePos, at) && freePos + 1 < |cells| && curr <= freePos && p !in at
    requires cells' == Append(cells, freePos, curr, p.0, p.1)
    ensures Indexed(cells', freePos + 1, at[p := freePos + 1])
    ensures forall q :: q in at ==> cells'[at[q]].count == cells[at[q]].count
    ensures cells'[freePos + 1].count == 1
  {
    AppendSites(cells, freePos, curr, p.0, p.1);
    forall i | NUM_BINS < i <= freePos ensures PairOf(cells'[i]) == PairOf(cells[i]) {
    }
  }

  lemma RecordAppend(cells: seq<Cell>, freePos: nat, at: map<Pair, nat>, curr: nat, p: Pair, cells': seq<Cell>)
    requires Indexed(cells, freePos, at) && freePos + 1 < |cells| && curr <= freePos && p !in at
    requires |at| < CAPACITY && cells' == Append(cells, freePos, curr, p.0, p.1)
    ensures Indexed(cells', freePos + 1, at[p := freePos + 1])
    ensures View(cells', freePos + 1, at[p := freePos + 1]) == Record(View(cells, freePos, at), p)
  {
    IndexedAppend(cells, freePos, at, curr, p, cells');
  }

  lemma RecordBump(cells: seq<Cell>, freePos: nat, at: map<Pair, nat>, i: nat, cells': seq<Cell>)
    requires Indexed(cells, freePos, at) && NUM_BINS < i <= freePos && cells' == Bump(cells, i)
    ensures Indexed(cells', freePos, at)
    ensures View(cells', freePos, at) == Record(View(cells, freePos, at), PairOf(cells[i]))
  {
    var p := PairOf(cells[i]);
    forall q | q in at && q != p ensures cells'[at[q]] == cells[at[q]] {
    }
    forall j | NUM_BINS < j <= freePos ensures PairOf(cells'[j]) == PairOf(cells[j]) {
    }
  }

  // ------------------------------------------------------------ reading back

  // Following next from p meets exactly the cells xs and then NULL.
  ghost predicate ChainFrom(cells: seq<Cell>, p: int, xs: seq<nat>)
    decreases xs
  {
    if xs == [] then p == -1
    else p == xs[0] && xs[0] < |cells| && ChainFrom(cells, cells[xs[0]].next, xs[1..])
  }

  lemma {:induction false} PathChain(cells: seq<Cell>, q: seq<nat>, k: nat)
    requires Follows(cells, q) && k < |q|
    ensures ChainFrom(cells, cells[q[k]].next, q[k + 1..])
    decreases |q| - k
  {
    if k + 1 < |q| {
      PathChain(cells, q, k + 1);
      assert q[k + 1..][1..] == q[k + 2..];
    }
  }

  // The (callee, count) entries of a site among the cells xs, in order.
  ghost function Entries(cells: seq<Cell>, xs: seq<nat>, site: nat): seq<(nat, nat)>
    requires InTable(cells, xs)
    decreases xs
  {
    if xs == [] then []
    else
      var c := cells[xs[0]];
      (if c.site == site then [(c.callee, c.count)] else []) + Entries(cells, xs[1..], site)
  }

  ghost predicate InTable(cells: seq<Cell>, xs: seq<nat>) {
    forall k :: 0 <= k < |xs| ==> xs[k] < |cells|
  }

  ghost predicate DistinctFirsts(es: seq<(nat, nat)>) {
    forall i, j :: 0 <= i < j < |es| ==> es[i].0 != es[j].0
  }

  // Every recorded callee of the site once, with its count, and no other.
  ghost predicate Lists(es: seq<(nat, nat)>, view: map<Pair, nat>, site: nat) {
    && (forall k :: 0 <= k < |es| ==> (site, es[k].0) in view && view[(site, es[k].0)] == es[k].1)
    && DistinctFirsts(es)
    && (forall callee :: (site, callee) in view ==> exists k :: 0 <= k < |es| && es[k].0 == callee)
  }

  lemma {:induction false} EntryFrom(cells: seq<Cell>, xs: seq<nat>, site: nat, e: (nat, nat))
    requires InTable(cells, xs) && e in Entries(cells, xs, site)
    ensures exists k :: 0 <= k < |xs| && cells[xs[k]].site == site && (cells[xs[k]].callee, cells[xs[k]].count) == e
    decreases xs
  {
    var c := cells[xs[0]];
    if !(c.site == site && (c.callee, c.count) == e) {
      EntryFrom(cells, xs[1..], site, e);
      var k :| 0 <= k < |xs| - 1 && cells[xs[1..][k]].site == site && (cells[xs[1..][k]].callee, cells[xs[1..][k]].count) == e;
      assert xs[1..][k] == xs[k + 1];
    }
  }

  lemma {:induction false} EntryFor(cells: seq<Cell>, xs: seq<nat>, site: nat, k: nat)
    requires InTable(cells, xs) && k < |xs| && cells[xs[k]].site == site
    ensures (cells[xs[k]].callee, cells[xs[k]].count) in Entries(cells, xs, site)
  {
    if k > 0 { EntryFor(cells, xs[1..], site, k - 1); }
  }

  lemma {:induction false} EntriesDistinct(cells: seq<Cell>, freePos: nat, at: map<Pair, nat>, xs: seq<nat>, site: nat)
    requires Indexed(cells, freePos, at) && Distinct(xs)
    requires forall k :: 0 <= k < |xs| ==> NUM_BINS < xs[k] <= freePos
    ensures DistinctFirsts(Entries(cells, xs, site))
    decreases xs
  {
    if xs != [] {
      EntriesDistinct(cells, freePos, at, xs[1..], site);
      var rest := Entries(cells, xs[1..], site);
      if cells[xs[0]].site == site {
        forall i | 0 <= i < |rest| ensures rest[i].0 != cells[xs[0]].callee {
          EntryFrom(cells, xs[1..], site, rest[i]);
          var k :| 0 <= k < |xs| - 1 && cells[xs[1..][k]].site == site && cells[xs[1..][k]].callee == rest[i].0;
          assert xs[0] != xs[k + 1] && at[PairOf(cells[xs[0]])] == xs[0] && at[PairOf(cells[xs[k + 1]])] == xs[k + 1];
        }
      }
    }
  }

  lemma EntryInView(cells: seq<Cell>, freePos: nat, at: map<Pair, nat>, xs: seq<nat>, site: nat, e: (nat, nat))
    requires Indexed(cells, freePos, at) && forall k :: 0 <= k < |xs| ==> NUM_BINS < xs[k] <= freePos
    requires e in Entries(cells, xs, site)
    ensures (site, e.0) in at && View(cells, freePos, at)[(site, e.0)] == e.1
  {
    EntryFrom(cells, xs, site, e);
    var k :| 0 <= k < |xs| && cells[xs[k]].site == site && (cells[xs[k]].callee, cells[xs[k]].count) == e;
    assert at[PairOf(cells[xs[k]])] == xs[k];
  }

  // Used cells without repetition, all those of the site among them.
  ghost predicate SiteCells(cells: seq<Cell>, freePos: nat, xs: seq<nat>, site: nat)
    requires freePos < |cells|
  {
    && (forall k :: 0 <= k < |xs| ==> NUM_BINS < xs[k] <= freePos)
    && Distinct(xs)
    && (forall i :: NUM_BINS < i <= freePos && cells[i].site == site ==> i in xs)
  }

  lemma PathSiteCells(cells: seq<Cell>, freePos: nat, paths: seq<seq<nat>>, site: nat)
    requires Table(cells, freePos, paths)
    ensures paths[Bin(site)] != [] && SiteCells(cells, freePos, paths[Bin(site)][1..], site)
  {
    var q := paths[Bin(site)];
    assert BinPath(cells, freePos, Bin(site), q);
    forall i | NUM_BINS < i <= freePos && cells[i].site == site ensures i in q[1..] {
      assert i in q;
      var k :| 0 <= k < |q| && q[k] == i;
      assert q[1..][k - 1] == i;
    }
  }

  lemma EntryOfRecorded(cells: seq<Cell>, freePos: nat, xs: seq<nat>, at: map<Pair, nat>, site: nat, callee: nat)
    requires Indexed(cells, freePos, at) && SiteCells(cells, freePos, xs, site) && (site, callee) in at
    ensures exists j :: 0 <= j < |Entries(cells, xs, site)| && Entries(cells, xs, site)[j].0 == callee
  {
    var i := at[(site, callee)];
    assert i in xs;
    var k :| 0 <= k < |xs| && xs[k] == i;
    EntryFor(cells, xs, site, k);
    var e := (callee, cells[i].count);
    var j :| 0 <= j < |Entries(cells, xs, site)| && Entries(cells, xs, site)[j] == e;
  }

  // The entries met along the cells of the site list its callees.
  lemma EntriesList(cells: seq<Cell>, freePos: nat, xs: seq<nat>, at: map<Pair, nat>, site: nat)
    requires Indexed(cells, freePos, at) && SiteCells(cells, freePos, xs, site)
    ensures Lists(Entries(cells, xs, site), View(cells, freePos, at), site)
  {
    var es, view := Entries(cells, xs, site), View(cells, freePos, at);
    EntriesDistinct(cells, freePos, at, xs, site);
    forall j | 0 <= j < |es| ensures (site, es[j].0) in view && view[(site, es[j].0)] == es[j].1 {
      EntryInView(cells, freePos, at, xs, site, es[j]);
    }
    forall callee | (site, callee) in view ensures exists k :: 0 <= k < |es| && es[k].0 == callee {
      EntryOfRecorded(cells, freePos, xs, at, site, callee);
    }
  }

  ghost function Callees(view: map<Pair, nat>, site: nat): set<nat> {
    set p | p in view && p.0 == site :: p.1
  }

  lemma ListCount(es: seq<(nat, nat)>, view: map<Pair, nat>, site: nat)
    requires Lists(es, view, site)
    ensures |es| == |Callees(view, site)|
  {
    var firsts := set k | 0 <= k < |es| :: es[k].0;
    forall c ensures c in firsts <==> c in Callees(view, site) {
      if c in Callees(view, site) { assert (site, c) in view; }
      if c in firsts { var k :| 0 <= k < |es| && es[k].0 == c; assert (site, c) in view; }
    }
    assert firsts == Callees(view, site);
    FirstsCount(es, |es|);
  }

  lemma {:induction false} FirstsCount(es: seq<(nat, nat)>, n: nat)
    requires n <= |es| && DistinctFirsts(es)
    ensures |set k | 0 <= k < n :: es[k].0| == n
  {
    if n > 0 {
      FirstsCount(es, n - 1);
      var a := set k | 0 <= k < n - 1 :: es[k].0;
      var b := set k | 0 <= k < n :: es[k].0;
      assert b == a + {es[n - 1].0};
    }
  }

  // ------------------------------------------------------------ runs

  ghost function RecordAll(us: seq<Pair>): map<Pair, nat> {
    if us == [] then map[] else Record(RecordAll(us[..|us| - 1]), us[|us| - 1])
  }

  ghost function Occurrences(us: seq<Pair>, p: Pair): nat {
    if us == [] then 0 else Occurrences(us[..|us| - 1], p) + (if us[|us| - 1] == p then 1 else 0)
  }

  ghost function PairSet(us: seq<Pair>): set<Pair> {
    set i | 0 <= i < |us| :: us[i]
  }

  // A pair got a cell: fewer than 7679 distinct pairs came before it.
  ghost predicate Admitted(us: seq<Pair>, p: Pair) {
    exists i :: 0 <= i < |us| && us[i] == p && |PairSet(us[..i])| < CAPACITY
  }

  lemma PairSetSnoc(us: seq<Pair>)
    requires us != []
    ensures PairSet(us) == PairSet(us[..|us| - 1]) + {us[|us| - 1]}
  {
    var n := |us| - 1;
    forall x | x in PairSet(us[..n]) ensures x in PairSet(us) { var i :| 0 <= i < n && us[..n][i] == x; assert us[i] == x; }
    forall x | x in PairSet(us) && x != us[n] ensures x in PairSet(us[..n]) {
      var i :| 0 <= i < |us| && us[i] == x;
      assert us[..n][i] == x;
    }
    assert us[n] in PairSet(us);
  }

  lemma AdmittedSnoc(us: seq<Pair>, p: Pair)
    requires us != []
    ensures var n := |us| - 1;
            Admitted(us, p) <==> Admitted(us[..n], p) || (us[n] == p && |PairSet(us[..n])| < CAPACITY)
  {
    var n := |us| - 1;
    if Admitted(us[..n], p) {
      var i :| 0 <= i < n && us[..n][i] == p && |PairSet(us[..n][..i])| < CAPACITY;
      assert us[..n][..i] == us[..i];
      assert us[i] == p;
    }
    if Admitted(us, p) {
      var i :| 0 <= i < |us| && us[i] == p && |PairSet(us[..i])| < CAPACITY;
      if i < n { assert us[..n][i] == p && us[..n][..i] == us[..i]; }
    }
  }

  // How many pairs are recorded: all those met, up to the capacity.
  lemma {:induction false} RecordedCount(us: seq<Pair>)
    ensures RecordAll(us).Keys <= PairSet(us)
    ensures |PairSet(us)| <= CAPACITY ==> RecordAll(us).Keys == PairSet(us)
    ensures |PairSet(us)| > CAPACITY ==> |RecordAll(us)| == CAPACITY
    ensures |RecordAll(us)| <= CAPACITY
  {
    if us != [] {
      var n := |us| - 1;
      RecordedCount(us[..n]);
      PairSetSnoc(us);
      var m := RecordAll(us[..n]);
      assert |m| == |m.Keys|;
      if us[n] in m {
        assert RecordAll(us).Keys == m.Keys;
        assert PairSet(us) == PairSet(us[..n]);
      } else if |m| < CAPACITY {
        assert RecordAll(us).Keys == m.Keys + {us[n]};
      } else if |PairSet(us[..n])| > CAPACITY {
        SubsetCount(PairSet(us[..n]), PairSet(us));
      }
    }
  }

  // After any run of updates from reset, a pair has a cell exactly when fewer
  // than 7679 distinct pairs preceded its first update, and its cell counts
  // exactly its updates, modulo 2^32.
  lemma {:induction false} RunCounts(us: seq<Pair>, p: Pair)
    ensures p in RecordAll(us) <==> Admitted(us, p)
    ensures p in RecordAll(us) ==> RecordAll(us)[p] == Occurrences(us, p) % P32
  {
    if us != [] {
      var n := |us| - 1;
      var vs := us[..n];
      RunCounts(vs, p);
      AdmittedSnoc(us, p);
      if us[n] == p {
        if p in RecordAll(vs) { ModNext(Occurrences(vs, p)); } else { RecordsFresh(vs, p); }
      }
    }
  }

  lemma ModNext(n: nat)
    ensures Inc(n % P32) == (n + 1) % P32
  {
  }

  // A pair with no cell that finds room was never met before.
  lemma RecordsFresh(vs: seq<Pair>, p: Pair)
    requires p !in RecordAll(vs)
    ensures |RecordAll(vs)| < CAPACITY <==> |PairSet(vs)| < CAPACITY
    ensures |RecordAll(vs)| < CAPACITY ==> Occurrences(vs, p) == 0
  {
    RecordedCount(vs);
    var m := RecordAll(vs);
    assert |m| == |m.Keys|;
    if |m| < CAPACITY {
      assert p !in PairSet(vs);
      NeverMet(vs, p);
    }
  }

  lemma {:induction false} NeverMet(vs: seq<Pair>, p: Pair)
    requires p !in PairSet(vs)
    ensures Occurrences(vs, p) == 0
  {
    if vs != [] {
      PairSetSnoc(vs);
      NeverMet(vs[..|vs| - 1], p);
    }
  }

  // ------------------------------------------------------------ in memory

  class Counter {
    const htable: array<Cell>
    var freePos: nat
    ghost var paths: seq<seq<nat>>
    ghost var at: map<Pair, nat>

    ghost predicate Valid()
      reads this, htable
    {
      && htable.Length == NUM_TOTAL
      && Table(htable[..], freePos, paths)
      && Indexed(htable[..], freePos, at)
    }

    ghost function Calls(): map<Pair, nat>
      reads this, htable
      requires Valid()
    {
      View(htable[..], freePos, at)
    }

    // The object holds a table of these cells, paths and index.
    lemma Settled(cells: seq<Cell>, f: nat, ps: seq<seq<nat>>, index: map<Pair, nat>)
      requires Table(cells, f, ps) && Indexed(cells, f, index)
      requires htable.Length == NUM_TOTAL && htable[..] == cells && freePos == f && paths == ps && at == index
      ensures Valid() && Calls() == View(cells, f, index)
    {
    }

    constructor ()
      ensures htable.Length == NUM_TOTAL
    {
      htable := new Cell[NUM_TOTAL](_ => Cell(0, 0, 0, -1));
      freePos := 0;
    }

    // Whatever the table held before.
    method Reset()
      requires htable.Length == NUM_TOTAL
      modifies this, htable
      ensures Valid() && Calls() == map[]
    {
      var i := 0;
      while i < NUM_BINS
        invariant i <= NUM_BINS
        invariant forall b :: 0 <= b < i ==> htable[b] == Cell(0, 0, 0, -1)
      {
        htable[i] := Cell(0, 0, 0, -1);
        i := i + 1;
      }
      freePos := NUM_BINS;
      paths := seq(NUM_BINS, b => [b]);
      at := map[];
    }

    method Hfunc(site: nat) returns (b: nat)
      ensures b == Bin(site)
    {
      var val: nat, result: nat := site / 4, 0;
      while val != 0
        invariant HashFrom(val, result) == HashFrom(site / 4, 0)
        decreases val
      {
        result := (result * 3 + val % 4) % P32;
        val := val / 4;
      }
      b := result % NUM_BINS;
    }

    // The walk of kerninst_update_callee_count along path q: stops before the
    // cell of the pair, or at the end of the chain when there is none.
    method Walk(site: nat, callee: nat, ghost q: seq<nat>) returns (curr: nat, ghost k: nat)
      requires htable.Length == NUM_TOTAL && BinPath(htable[..], freePos, Bin(site), q)
      ensures k < |q| && curr == q[k] < NUM_TOTAL
      ensures if htable[curr].next == -1 then OffPath(htable[..], q, |q|, (site, callee))
              else k + 1 < |q| && htable[curr].next == q[k + 1] && NUM_BINS < q[k + 1] <= freePos &&
                   q[k + 1] < NUM_TOTAL && PairOf(htable[q[k + 1]]) == (site, callee)
    {
      curr := Hfunc(site);
      k := 0;
      ghost var cells := htable[..];
      StepOn(cells, freePos, Bin(site), q, k);
      while htable[curr].next != -1 &&
            (htable[htable[curr].next].site != site || htable[htable[curr].next].callee != callee)
        invariant k < |q| && curr == q[k] < NUM_TOTAL
        invariant cells[curr].next == if k + 1 < |q| then q[k + 1] else -1
        invariant k + 1 < |q| ==> NUM_BINS < q[k + 1] <= freePos && q[k + 1] < NUM_TOTAL
        invariant OffPath(cells, q, k + 1, (site, callee))
        decreases |q| - k
      {
        curr := htable[curr].next;
        k := k + 1;
        StepOn(cells, freePos, Bin(site), q, k);
      }
    }

    method BumpCell(next: nat)
      requires next < htable.Length
      modifies htable
      ensures htable[..] == Bump(old(htable[..]), next)
    {
      htable[next] := htable[next].(count := (htable[next].count + 1) % P32);
    }

    // Incrementing the count of a used cell.
    method CountCall(next: nat)
      requires Valid() && NUM_BINS < next <= freePos
      modifies htable
      ensures Valid() && Calls() == Record(old(Calls()), PairOf(old(htable[next])))
    {
      ghost var cells := htable[..];
      BumpCell(next);
      ghost var cells' := htable[..];
      RecordBump(cells, freePos, at, next, cells');
      BumpKeepsTable(cells, freePos, paths, next, cells');
      Settled(cells', freePos, paths, at);
    }

    // Filling the cell at freePos and linking it after curr.
    method LinkCell(curr: nat, site: nat, callee: nat)
      requires 0 < freePos < htable.Length && curr < freePos
      modifies htable
      ensures htable[..] == Append(old(htable[..]), freePos - 1, curr, site, callee)
    {
      var idx := freePos;
      htable[idx] := Cell(site, callee, 1, htable[curr].next);
      htable[curr] := htable[curr].(next := idx);
    }

    // The table becomes cells, threaded by ps and indexed by index.
    method AddCell(curr: nat, site: nat, callee: nat,
                   ghost cells: seq<Cell>, ghost ps: seq<seq<nat>>, ghost index: map<Pair, nat>)
      requires htable.Length == NUM_TOTAL && 0 < freePos < NUM_TOTAL && curr < freePos
      requires cells == Append(htable[..], freePos - 1, curr, site, callee)
      requires Table(cells, freePos, ps) && Indexed(cells, freePos, index)
      modifies this`paths, this`at, htable
      ensures Valid() && Calls() == View(cells, freePos, index)
    {
      LinkCell(curr, site, callee);
      paths, at := ps, index;
      Settled(cells, freePos, ps, index);
    }

    // No cell for the pair yet: a new one at the end of the chain.
    method RecordNew(curr: nat, site: nat, callee: nat, ghost k: nat)
      requires Valid() && freePos < NUM_TOTAL - 1 && k < |paths[Bin(site)]| && curr == paths[Bin(site)][k]
      requires OffPath(htable[..], paths[Bin(site)], |paths[Bin(site)]|, (site, callee))
      modifies this, htable
      ensures Valid() && Calls() == Record(old(Calls()), (site, callee))
    {
      ghost var cells', ps, index := NewCell(htable[..], freePos, paths, at, k, curr, (site, callee));
      freePos := freePos + 1;
      AddCell(curr, site, callee, cells', ps, index);
    }

    method Update(site: nat, callee: nat)
      requires Valid()
      modifies this, htable
      ensures Valid() && Calls() == Record(old(Calls()), (site, callee))
    {
      ghost var q := paths[Bin(site)];
      assert BinPath(htable[..], freePos, Bin(site), q);
      var curr, k := Walk(site, callee, q);
      if htable[curr].next == -1 {
        if freePos >= NUM_TOTAL - 1 {
          FullDrops(htable[..], freePos, paths, at, (site, callee));
          return;
        }
        RecordNew(curr, site, callee, k);
      } else {
        CountCall(htable[curr].next);
      }
    }

    // The counting walk, along the chain xs.
    method CountEntries(site: nat, ghost xs: seq<nat>) returns (rv: nat)
      requires htable.Length == NUM_TOTAL && ChainFrom(htable[..], htable[Bin(site)].next, xs) && InTable(htable[..], xs)
      ensures rv == |Entries(htable[..], xs, site)|
    {
      ghost var cells, rest := htable[..], xs;
      var head := Hfunc(site);
      var curr := htable[head].next;
      rv := 0;
      while curr != -1
        invariant InTable(cells, rest) && ChainFrom(cells, curr, rest)
        invariant rv + |Entries(cells, rest, site)| == |Entries(cells, xs, site)|
        decreases rest
      {
        if htable[curr].site == site { rv := rv + 1; }
        curr := htable[curr].next;
        rest := rest[1..];
      }
    }

    // kerninst_num_callees_for_site: the number of recorded callees.
    method NumCallees(site: nat) returns (rv: nat)
      requires Valid()
      ensures rv == |Callees(Calls(), site)|
    {
      ghost var xs := SiteChain(htable[..], freePos, paths, at, site);
      rv := CountEntries(site, xs);
      ListCount(Entries(htable[..], xs, site), Calls(), site);
    }

    // Buffer b starts with the flattened entries es and is otherwise as in old_.
    static ghost predicate Filled(b: seq<nat>, es: seq<(nat, nat)>, old_: seq<nat>) {
      && |b| == |old_| && 2 * |es| <= |b| && b[2 * |es|..] == old_[2 * |es|..]
      && (forall i :: 0 <= i < |es| ==> b[2 * i] == es[i].0 && b[2 * i + 1] == es[i].1)
    }

    // One (callee, count) pair into the next two slots.
    method PutPair(buffer: array<nat>, j0: nat, callee: nat, count: nat, ghost es: seq<(nat, nat)>, ghost old_: seq<nat>)
      returns (j: nat)
      requires Filled(buffer[..], es, old_) && j0 == 2 * |es| && j0 + 1 < buffer.Length
      modifies buffer
      ensures Filled(buffer[..], es + [(callee, count)], old_) && j == j0 + 2
    {
      FilledOne(buffer[..], es, old_, (callee, count));
      ghost var b: seq<nat> := buffer[..];
      buffer[j0] := callee;
      buffer[j0 + 1] := count;
      ghost var b1: seq<nat> := b[j0 := callee];
      assert buffer[..] == b1[j0 + 1 := count];
      j := j0 + 2;
    }

    // One cell of the filling walk.
    method FillOne(site: nat, cell: Cell, buffer: array<nat>, j0: nat, ghost es: seq<(nat, nat)>, ghost old_: seq<nat>)
      returns (j: nat, ghost es': seq<(nat, nat)>)
      requires Filled(buffer[..], es, old_) && j0 == 2 * |es| && j0 + 1 < buffer.Length
      modifies buffer
      ensures es' == if cell.site == site then es + [(cell.callee, cell.count)] else es
      ensures Filled(buffer[..], es', old_) && j == 2 * |es'|
    {
      j, es' := j0, es;
      if cell.site == site {
        j := PutPair(buffer, j0, cell.callee, cell.count, es, old_);
        es' := es + [(cell.callee, cell.count)];
      }
    }

    // The filling walk, along the chain xs, up to numAddrs entries.
    method FillEntries(site: nat, numAddrs: nat, buffer: array<nat>, ghost xs: seq<nat>) returns (ghost es: seq<(nat, nat)>)
      requires htable.Length == NUM_TOTAL && ChainFrom(htable[..], htable[Bin(site)].next, xs) && InTable(htable[..], xs)
      requires 2 * numAddrs <= buffer.Length
      modifies buffer
      ensures Filled(buffer[..], es, old(buffer[..]))
      ensures es <= Entries(htable[..], xs, site)
      ensures |es| <= numAddrs && (|es| < numAddrs ==> es == Entries(htable[..], xs, site))
    {
      ghost var cells, rest := htable[..], xs;
      es := [];
      var head := Hfunc(site);
      var curr := htable[head].next;
      var j := 0;
      while curr != -1 && j < 2 * numAddrs
        invariant InTable(cells, rest) && ChainFrom(cells, curr, rest)
        invariant j == 2 * |es| <= 2 * numAddrs
        invariant es + Entries(cells, rest, site) == Entries(cells, xs, site)
        invariant Filled(buffer[..], es, old(buffer[..]))
        decreases rest
      {
        EntriesNext(cells, curr, rest, site, es);
        j, es := FillOne(site, htable[curr], buffer, j, es, old(buffer[..]));
        curr := htable[curr].next;
        rest := rest[1..];
      }
      assert curr == -1 ==> es + [] == es;
    }

    // kerninst_get_callees_for_site: fills the first slots with the (callee,
    // count) pairs of the site's listing, as many as asked for and there are.
    method GetCallees(site: nat, numAddrs: nat, buffer: array<nat>) returns (ghost listing: seq<(nat, nat)>, ghost es: seq<(nat, nat)>)
      requires Valid() && 2 * numAddrs <= buffer.Length
      modifies buffer
      ensures Valid() && Lists(listing, Calls(), site)
      ensures Filled(buffer[..], es, old(buffer[..]))
      ensures es <= listing && |es| <= numAddrs && (|es| < numAddrs ==> es == listing)
    {
      ghost var cells := htable[..];
      ghost var xs := SiteChain(cells, freePos, paths, at, site);
      listing := Entries(cells, xs, site);
      es := FillEntries(site, numAddrs, buffer, xs);
      assert htable[..] == cells;
    }
  }

  // What adding a cell does to the table and to the map it records.
  lemma Added(cells: seq<Cell>, freePos: nat, paths: seq<seq<nat>>, at: map<Pair, nat>, k: nat, site: nat, callee: nat,
              cells': seq<Cell>) returns (paths': seq<seq<nat>>, at': map<Pair, nat>)
    requires Table(cells, freePos, paths) && Indexed(cells, freePos, at) && (site, callee) !in at
    requires freePos + 1 < NUM_TOTAL && k < |paths[Bin(site)]| && paths[Bin(site)][k] <= freePos
    requires cells' == Append(cells, freePos, paths[Bin(site)][k], site, callee)
    ensures Table(cells', freePos + 1, paths') && Indexed(cells', freePos + 1, at')
    ensures View(cells', freePos + 1, at') == Record(View(cells, freePos, at), (site, callee))
  {
    at' := at[(site, callee) := freePos + 1];
    paths' := paths[Bin(site) := InsertAt(paths[Bin(site)], k, freePos + 1)];
    RecordAppend(cells, freePos, at, paths[Bin(site)][k], (site, callee), cells');
    AppendKeepsTable(cells, freePos, paths, k, site, callee, cells', paths');
  }

  // A pair without a cell, with one more cell left.
  lemma NewCell(cells: seq<Cell>, f: nat, paths: seq<seq<nat>>, at: map<Pair, nat>, k: nat, curr: nat, p: Pair)
    returns (cells': seq<Cell>, ps: seq<seq<nat>>, index: map<Pair, nat>)
    requires Table(cells, f, paths) && Indexed(cells, f, at) && f + 1 < NUM_TOTAL
    requires k < |paths[Bin(p.0)]| && curr == paths[Bin(p.0)][k]
    requires OffPath(cells, paths[Bin(p.0)], |paths[Bin(p.0)]|, p)
    ensures curr <= f && cells' == Append(cells, f, curr, p.0, p.1)
    ensures Table(cells', f + 1, ps) && Indexed(cells', f + 1, index)
    ensures View(cells', f + 1, index) == Record(View(cells, f, at), p)
  {
    NotOnPath(cells, f, paths, at, p);
    OnPathUsed(cells, f, paths, Bin(p.0), k);
    cells' := Append(cells, f, curr, p.0, p.1);
    ps, index := Added(cells, f, paths, at, k, p.0, p.1, cells');
  }

  // A pair without a cell, with none left.
  lemma FullDrops(cells: seq<Cell>, f: nat, paths: seq<seq<nat>>, at: map<Pair, nat>, p: Pair)
    requires Table(cells, f, paths) && Indexed(cells, f, at) && f + 1 >= NUM_TOTAL
    requires OffPath(cells, paths[Bin(p.0)], |paths[Bin(p.0)]|, p)
    ensures Record(View(cells, f, at), p) == View(cells, f, at)
  {
    NotOnPath(cells, f, paths, at, p);
  }

  // The chain of a site's bin, and that its entries list the site's callees.
  lemma SiteChain(cells: seq<Cell>, freePos: nat, paths: seq<seq<nat>>, at: map<Pair, nat>, site: nat) returns (xs: seq<nat>)
    requires Table(cells, freePos, paths) && Indexed(cells, freePos, at)
    ensures InTable(cells, xs) && ChainFrom(cells, cells[Bin(site)].next, xs)
    ensures Lists(Entries(cells, xs, site), View(cells, freePos, at), site)
  {
    var q := paths[Bin(site)];
    assert BinPath(cells, freePos, Bin(site), q);
    xs := q[1..];
    PathChain(cells, q, 0);
    PathSiteCells(cells, freePos, paths, site);
    EntriesList(cells, freePos, xs, at, site);
  }

  // One step of the filling walk.
  lemma EntriesNext(cells: seq<Cell>, curr: int, rest: seq<nat>, site: nat, es: seq<(nat, nat)>)
    requires InTable(cells, rest) && ChainFrom(cells, curr, rest) && curr != -1
    ensures rest != [] && rest[0] == curr < |cells|
    ensures InTable(cells, rest[1..]) && ChainFrom(cells, cells[curr].next, rest[1..])
    ensures var later := Entries(cells, rest[1..], site);
            es + Entries(cells, rest, site) ==
            if cells[curr].site == site then es + [(cells[curr].callee, cells[curr].count)] + later else es + later
  {
    var later := Entries(cells, rest[1..], site);
    var e := (cells[curr].callee, cells[curr].count);
    assert es + ([e] + later) == es + [e] + later;
  }

  lemma FilledOne(b: seq<nat>, es: seq<(nat, nat)>, old_: seq<nat>, e: (nat, nat))
    requires Counter.Filled(b, es, old_) && 2 * |es| + 1 < |b|
    ensures Counter.Filled(b[2 * |es| := e.0][2 * |es| + 1 := e.1], es + [e], old_)
  {
  }

  lemma StepOn(cells: seq<Cell>, freePos: nat, b: nat, q: seq<nat>, k: nat)
    requires BinPath(cells, freePos, b, q) && k < |q|
    ensures q[k] < |cells| && cells[q[k]].next == if k + 1 < |q| then q[k + 1] else -1
    ensures k + 1 < |q| ==> NUM_BINS < q[k + 1] <= freePos
  {
  }
}
