/** What the driver's fixed-size hash table computes, on values.

The table in memory is an array of 256 elements threaded by chains.  With the
chains intact its behaviour depends only on the elements below `num_elems`, in
array order; this module gives that behaviour on a sequence of entries, and
relates it to a plain map.  `HashTable` holds the arrays and the chains. */
module HashTableSpec {
  import opened Arith
  import opened Hashing
  import opened Wrappers

  // `removed` marks a tombstone: the element stays on its chain.
  datatype Entry = Entry(key: nat, data: nat, removed: bool)

  const MAX_ELEMS: nat := 256
  const NUM_BINS: nat := 256

  // ------------------------------------------------------------ hashing

  function Bin(key: nat): (b: nat)
    ensures b < NUM_BINS
  {
    HashFrom(key, 0) % NUM_BINS
  }

  // The 32-bit wrap-around never shows in the bin.
  lemma BinIgnoresWrap(key: nat)
    ensures Bin(key) == Horner(key, 0) % NUM_BINS
  {
    HashMod(key, 0, 0, NUM_BINS, 0x100_0000);
  }

  // ------------------------------------------------------------ searching

  // The highest index whose entry has key `k`; -1 when there is none.
  function Find(es: seq<Entry>, k: nat): (i: int)
    ensures -1 <= i < |es|
    ensures i >= 0 ==> es[i].key == k
    ensures forall j :: i < j < |es| ==> es[j].key != k
  {
    if es == [] then -1
    else if es[|es| - 1].key == k then |es| - 1
    else Find(es[..|es| - 1], k)
  }

  // The highest index whose key hashes to bin `b`; -1 when there is none.
  function Top(es: seq<Entry>, b: nat): (i: int)
    ensures -1 <= i < |es|
    ensures i >= 0 ==> Bin(es[i].key) == b
    ensures forall j :: i < j < |es| ==> Bin(es[j].key) != b
  {
    if es == [] then -1
    else if Bin(es[|es| - 1].key) == b then |es| - 1
    else Top(es[..|es| - 1], b)
  }

  // Array `next` and `bins` thread every entry, newest first, on the chain of
  // its own bin.
  ghost predicate Linked(es: seq<Entry>, next: seq<int>, bins: seq<int>) {
    && |next| == |es|
    && |bins| == NUM_BINS
    && (forall b :: 0 <= b < NUM_BINS ==> bins[b] == Top(es, b))
    && (forall i :: 0 <= i < |es| ==> next[i] == Top(es[..i], Bin(es[i].key)))
  }

  // Following `next` from `p`: the indices met.
  ghost function Walk(next: seq<int>, p: int): seq<int>
    requires -1 <= p < |next|
    requires forall i :: 0 <= i < |next| ==> -1 <= next[i] < i
    decreases p
  {
    if p == -1 then [] else [p] + Walk(next, next[p])
  }

  lemma {:induction false} WalkVisitsBelow(es: seq<Entry>, next: seq<int>, bins: seq<int>, b: nat, n: nat)
    requires Linked(es, next, bins) && n <= |es|
    ensures ChainHolds(es[..n], Walk(next, Top(es[..n], b)), b)
    decreases n
  {
    var p := Top(es[..n], b);
    if p >= 0 {
      WalkVisitsBelow(es, next, bins, b, p);
      assert es[..n][..p] == es[..p];
      assert next[p] == Top(es[..p], b);
      ChainPush(es[..n], Walk(next, next[p]), b, p);
    }
  }

  // Sequence w is the chain of bin b: it descends, and holds exactly the
  // indices whose keys hash to b.
  ghost predicate ChainHolds(es: seq<Entry>, w: seq<int>, b: nat) {
    && (forall x :: 0 <= x < |w| ==> 0 <= w[x] < |es| && Bin(es[w[x]].key) == b)
    && (forall i :: 0 <= i < |es| && Bin(es[i].key) == b ==> i in w)
    && (forall x, y :: 0 <= x < y < |w| ==> w[x] > w[y])
  }

  lemma ChainPush(es: seq<Entry>, w: seq<int>, b: nat, p: nat)
    requires p < |es| && p == Top(es, b) && ChainHolds(es[..p], w, b)
    ensures ChainHolds(es, [p] + w, b)
  {
    var w' := [p] + w;
    forall i | 0 <= i < |es| && Bin(es[i].key) == b ensures i in w' {
      if i != p {
        assert es[..p][i] == es[i];
        assert i in w;
      }
    }
    forall x | 0 <= x < |w'| ensures 0 <= w'[x] < |es| && Bin(es[w'[x]].key) == b {
      if x > 0 { assert w'[x] == w[x - 1] && es[..p][w[x - 1]] == es[w[x - 1]]; }
    }
  }

  // Every index lies on exactly one chain, that of its key's bin, exactly once:
  // chain b holds index i iff i's key hashes to b, and chains strictly descend.
  lemma ChainsPartition(es: seq<Entry>, next: seq<int>, bins: seq<int>, b: nat)
    requires Linked(es, next, bins) && b < NUM_BINS
    ensures ChainHolds(es, Walk(next, bins[b]), b)
  {
    assert es[..|es|] == es;
    WalkVisitsBelow(es, next, bins, b, |es|);
  }

  lemma {:induction false} TopSameKeys(es: seq<Entry>, es': seq<Entry>, b: nat)
    requires |es| == |es'|
    requires forall i :: 0 <= i < |es| ==> es[i].key == es'[i].key
    ensures Top(es, b) == Top(es', b)
  {
    if es != [] { TopSameKeys(es[..|es| - 1], es'[..|es| - 1], b); }
  }

  // Changing data and tombstones but no key leaves every chain right.
  lemma LinkedSameKeys(es: seq<Entry>, es': seq<Entry>, next: seq<int>, bins: seq<int>)
    requires Linked(es, next, bins)
    requires |es| == |es'|
    requires forall i :: 0 <= i < |es| ==> es[i].key == es'[i].key
    ensures Linked(es', next, bins)
  {
    forall b | 0 <= b < NUM_BINS ensures bins[b] == Top(es', b) { TopSameKeys(es, es', b); }
    forall i | 0 <= i < |es| ensures next[i] == Top(es'[..i], Bin(es'[i].key)) {
      TopSameKeys(es[..i], es'[..i], Bin(es[i].key));
    }
  }

  // Appending at the end and pushing on the front of the key's chain.
  lemma LinkedAppend(es: seq<Entry>, next: seq<int>, bins: seq<int>, e: Entry)
    requires Linked(es, next, bins)
    ensures Linked(es + [e], next + [bins[Bin(e.key)]], bins[Bin(e.key) := |es|])
  {
    var es' := es + [e];
    assert es'[..|es|] == es;
    forall i | 0 <= i < |es'| ensures (next + [bins[Bin(e.key)]])[i] == Top(es'[..i], Bin(es'[i].key)) {
      if i < |es| { assert es'[..i] == es[..i]; }
    }
  }

  // ------------------------------------------------------------ packing

  // The two-pointer compaction: `to` runs up over live entries, `from` runs
  // down over tombstones, and a live entry at `from` is copied to a tombstone
  // at `to`.  The copied-from slot is not marked removed.
  function CompactStep(es: seq<Entry>, to: nat, from: nat): (r: (seq<Entry>, nat, nat))
    requires to < from < |es|
    ensures |r.0| == |es| && to <= r.1 <= r.2 <= from && r.2 - r.1 < from - to
  {
    if !es[to].removed then (es, to + 1, from)
    else if !es[from].removed then
      (es[to := es[from]], to + 1, if to + 1 == from then from else from - 1)
    else (es, to, from - 1)
  }

  function Compact(es: seq<Entry>, to: nat, from: nat): (r: (seq<Entry>, nat))
    requires to <= from < |es|
    ensures |r.0| == |es| && to <= r.1 <= from
    decreases from - to
  {
    if to == from then (es, to)
    else
      var (es', to', from') := CompactStep(es, to, from);
      Compact(es', to', from')
  }

  function Packed(es: seq<Entry>): (p: seq<Entry>)
    requires es != []
    ensures |p| <= |es|
  {
    var (c, t) := Compact(es, 0, |es| - 1);
    if c[t].removed then c[..t] else c[..t + 1]
  }

  // How many of the first n entries are live.
  ghost function LiveBelow(es: seq<Entry>, n: nat): (c: nat)
    requires n <= |es|
    ensures c <= n
  {
    if n == 0 then 0 else LiveBelow(es, n - 1) + (if es[n - 1].removed then 0 else 1)
  }

  // How many of the first n entries are live and hold exactly (k, d).
  ghost function CopiesBelow(es: seq<Entry>, n: nat, k: nat, d: nat): nat
    requires n <= |es|
  {
    if n == 0 then 0
    else CopiesBelow(es, n - 1, k, d) + (if es[n - 1] == Entry(k, d, false) then 1 else 0)
  }

  ghost function Live(es: seq<Entry>): nat {
    LiveBelow(es, |es|)
  }

  ghost function Copies(es: seq<Entry>, k: nat, d: nat): nat {
    CopiesBelow(es, |es|, k, d)
  }

  ghost predicate AllLive(es: seq<Entry>, n: nat)
    requires n <= |es|
  {
    forall i :: 0 <= i < n ==> !es[i].removed
  }

  ghost predicate DistinctKeys(es: seq<Entry>) {
    forall i, j :: 0 <= i < j < |es| ==> es[i].key != es[j].key
  }

  // The one shape on which packing duplicates: with L live entries in all,
  // slot L-1 is a tombstone and slot L is live.
  ghost predicate Straddles(es: seq<Entry>) {
    0 < Live(es) < |es| && es[Live(es) - 1].removed && !es[Live(es)].removed
  }

  lemma {:induction false} CountsFrame(es: seq<Entry>, es': seq<Entry>, n: nat, k: nat, d: nat)
    requires n <= |es| && n <= |es'|
    requires forall i :: 0 <= i < n ==> es[i] == es'[i]
    ensures LiveBelow(es, n) == LiveBelow(es', n)
    ensures CopiesBelow(es, n, k, d) == CopiesBelow(es', n, k, d)
  {
    if n > 0 { CountsFrame(es, es', n - 1, k, d); }
  }

  // Putting a live entry where a tombstone was adds one.
  lemma {:induction false} CountsRevive(es: seq<Entry>, i: nat, e: Entry, n: nat, k: nat, d: nat)
    requires i < n <= |es| && es[i].removed && !e.removed
    ensures LiveBelow(es[i := e], n) == LiveBelow(es, n) + 1
    ensures CopiesBelow(es[i := e], n, k, d) == CopiesBelow(es, n, k, d) + (if e == Entry(k, d, false) then 1 else 0)
  {
    if i == n - 1 { CountsFrame(es, es[i := e], n - 1, k, d); } else { CountsRevive(es, i, e, n - 1, k, d); }
  }

  lemma {:induction false} AllLiveCount(es: seq<Entry>, n: nat)
    requires n <= |es| && AllLive(es, n)
    ensures LiveBelow(es, n) == n
  {
    if n > 0 { AllLiveCount(es, n - 1); }
  }

  lemma {:induction false} CopiesMember(es: seq<Entry>, n: nat, k: nat, d: nat)
    requires n <= |es|
    ensures CopiesBelow(es, n, k, d) > 0 <==> Entry(k, d, false) in es[..n]
  {
    if n > 0 { CopiesMember(es, n - 1, k, d); assert es[..n] == es[..n - 1] + [es[n - 1]]; }
  }

  // Where compaction of es[to..from] stops, at slot t: that slot is as it was,
  // all below is live, and with l live entries in play at the start the first
  // l slots now hold them, copy for copy.
  ghost predicate Compacted(es: seq<Entry>, to: nat, from: nat, c: seq<Entry>, t: nat, k: nat, d: nat)
    requires to <= from < |es| == |c| && t < |es|
  {
    var l := LiveBelow(es, from + 1);
    && AllLive(c, t) && c[t] == es[t]
    && t <= l <= t + 1
    && (l == t ==> es[t].removed || (to < t && es[t - 1].removed))
    && (l == t + 1 ==> !es[t].removed)
    && CopiesBelow(c, l, k, d) == CopiesBelow(es, from + 1, k, d)
  }

  // Copying the live entry at `from` onto a tombstone at `to` moves one.
  lemma CompactedMove(es: seq<Entry>, to: nat, from: nat, c: seq<Entry>, t: nat, k: nat, d: nat)
    requires to + 1 < from < |es| == |c| && to < t < |es| && es[to].removed && !es[from].removed
    requires Compacted(es[to := es[from]], to + 1, from - 1, c, t, k, d)
    ensures Compacted(es, to, from, c, t, k, d)
  {
    CountsRevive(es, to, es[from], from, k, d);
  }

  // The last move between neighbours leaves the source slot live as well.
  lemma CompactedLastMove(es: seq<Entry>, to: nat, k: nat, d: nat)
    requires to + 1 < |es| && es[to].removed && !es[to + 1].removed && AllLive(es, to)
    ensures Compacted(es, to, to + 1, es[to := es[to + 1]], to + 1, k, d)
  {
    CountsRevive(es, to, es[to + 1], to + 1, k, d);
    AllLiveCount(es[to := es[to + 1]], to + 1);
  }

  lemma {:induction false} CompactKeeps(es: seq<Entry>, to: nat, from: nat, k: nat, d: nat)
    requires to <= from < |es| && AllLive(es, to)
    ensures Compacted(es, to, from, Compact(es, to, from).0, Compact(es, to, from).1, k, d)
    decreases from - to
  {
    if to == from {
      AllLiveCount(es, to);
    } else {
      var (es', to', from') := CompactStep(es, to, from);
      if es[to].removed && !es[from].removed && to + 1 == from {
        CompactedLastMove(es, to, k, d);
        assert Compact(es, to, from) == (es', to + 1);
      } else {
        CompactKeeps(es', to', from', k, d);
        var (c, t) := Compact(es', to', from');
        if es[to].removed && !es[from].removed { CompactedMove(es, to, from, c, t, k, d); }
        assert Compact(es, to, from) == (c, t);
      }
    }
  }

  lemma PackedFrom(es: seq<Entry>, c: seq<Entry>, t: nat)
    requires es != [] && t < |c| && (c, t) == Compact(es, 0, |es| - 1)
    ensures AllLive(c, t)
    ensures Packed(es) == if c[t].removed then c[..t] else c[..t + 1]
  {
    CompactLive(es, 0, |es| - 1, c, t);
    PackedIs(es, c, t);
  }

  lemma PackedIs(es: seq<Entry>, c: seq<Entry>, t: nat)
    requires es != [] && t < |c| && (c, t) == Compact(es, 0, |es| - 1)
    ensures Packed(es) == if c[t].removed then c[..t] else c[..t + 1]
  {
  }

  lemma CompactLive(es: seq<Entry>, to: nat, from: nat, c: seq<Entry>, t: nat)
    requires to <= from < |es| && AllLive(es, to) && c == Compact(es, to, from).0 && t == Compact(es, to, from).1
    ensures AllLive(c, t)
  {
    CompactKeeps(es, to, from, 0, 0);
  }

  // Packing keeps every live (key, data) pair copy for copy, drops every
  // tombstone and leaves the entries dense and live; it adds nothing, except
  // that on the straddling shape the entry at slot L survives twice.
  lemma PackedContents(es: seq<Entry>, k: nat, d: nat)
    requires es != []
    ensures AllLive(Packed(es), |Packed(es)|)
    ensures |Packed(es)| == Live(es) + (if Straddles(es) then 1 else 0)
    ensures Copies(Packed(es), k, d)
         == Copies(es, k, d) + (if Straddles(es) && es[Live(es)] == Entry(k, d, false) then 1 else 0)
  {
    CompactKeeps(es, 0, |es| - 1, k, d);
    var (c, t) := Compact(es, 0, |es| - 1);
    CountsFrame(c, Packed(es), |Packed(es)|, k, d);
  }

  // Exactly when packing leaves more entries than it found live ones.
  lemma PackDuplicatesIff(es: seq<Entry>)
    requires es != []
    ensures |Packed(es)| != Live(es) <==> Straddles(es)
  {
    PackedContents(es, 0, 0);
  }

  lemma PackedHolds(es: seq<Entry>, e: Entry)
    requires es != []
    ensures e in Packed(es) <==> e in es && !e.removed
  {
    var p := Packed(es);
    PackedContents(es, e.key, e.data);
    CopiesMember(p, |p|, e.key, e.data);
    CopiesMember(es, |es|, e.key, e.data);
    assert p[..|p|] == p && es[..|es|] == es;
  }

  // With distinct keys, every live key still finds its data after packing, and
  // no other key is found: stale data behind a tombstone is forgotten.
  lemma PackedFinds(es: seq<Entry>, k: nat)
    requires es != [] && DistinctKeys(es)
    ensures var i, j := Find(es, k), Find(Packed(es), k);
            && (j >= 0 <==> i >= 0 && !es[i].removed)
            && (j >= 0 ==> Packed(es)[j] == es[i])
  {
    var i, j := Find(es, k), Find(Packed(es), k);
    if j >= 0 { PackedHolds(es, Packed(es)[j]); }
    if i >= 0 { PackedHolds(es, es[i]); }
  }

  // ------------------------------------------------------------ operations

  // Adding packs first when the array is full; a live key is refused, a
  // tombstone of the same key is overwritten where it stands.
  function Add(es: seq<Entry>, k: nat, d: nat): (r: (seq<Entry>, bool))
    requires |es| <= MAX_ELEMS
    ensures |r.0| <= MAX_ELEMS
  {
    var es1 := if |es| == MAX_ELEMS then Packed(es) else es;
    var i := Find(es1, k);
    if |es1| == MAX_ELEMS then (es1, false)
    else if i < 0 then (es1 + [Entry(k, d, false)], true)
    else if es1[i].removed then (es1[i := Entry(k, d, false)], true)
    else (es1, false)
  }

  ghost predicate LiveIn(es: seq<Entry>, k: nat) {
    exists i :: 0 <= i < |es| && es[i].key == k && !es[i].removed
  }

  // A full table refuses a key exactly when some entry of the key is live, nothing
  // is left to pack, or packing wins one slot and the straddling entry takes it.
  lemma FullRefusesIff(es: seq<Entry>, k: nat, d: nat)
    requires |es| == MAX_ELEMS
    ensures !Add(es, k, d).1 <==>
              LiveIn(es, k) || Live(es) == MAX_ELEMS || (Live(es) == MAX_ELEMS - 1 && Straddles(es))
  {
    PackedContents(es, k, d);
    var p := Packed(es);
    if Find(p, k) >= 0 { PackedHolds(es, p[Find(p, k)]); }
    if LiveIn(es, k) {
      var i :| 0 <= i < |es| && es[i].key == k && !es[i].removed;
      PackedHolds(es, es[i]);
    }
  }

  // Whatever the table, full or not, a key that was added is found, live and with
  // its data;
  lemma AddStores(es: seq<Entry>, k: nat, d: nat)
    requires |es| <= MAX_ELEMS && Add(es, k, d).1
    ensures var es' := Add(es, k, d).0; Find(es', k) >= 0 && es'[Find(es', k)] == Entry(k, d, false)
  {
    var es1 := if |es| == MAX_ELEMS then Packed(es) else es;
    var i := Find(es1, k);
    if i < 0 { FindAppend(es1, Entry(k, d, false), k); } else { FindSameKeys(es1, es1[i := Entry(k, d, false)], k); }
  }

  lemma CopiesAppend(es: seq<Entry>, e: Entry, k: nat, d: nat)
    ensures Copies(es + [e], k, d) == Copies(es, k, d) + if e == Entry(k, d, false) then 1 else 0
  {
    CountsFrame(es, es + [e], |es|, k, d);
  }

  // and every live pair keeps its copies, but for the one more of an entry that
  // packing a full table duplicates, and the pair added.
  lemma AddCopies(es: seq<Entry>, k: nat, d: nat, x: nat, y: nat)
    requires |es| <= MAX_ELEMS
    ensures Copies(Add(es, k, d).0, x, y) ==
            Copies(es, x, y)
            + (if |es| == MAX_ELEMS && Straddles(es) && es[Live(es)] == Entry(x, y, false) then 1 else 0)
            + (if Add(es, k, d).1 && (x, y) == (k, d) then 1 else 0)
  {
    if |es| == MAX_ELEMS { PackedContents(es, x, y); }
    var es1 := if |es| == MAX_ELEMS then Packed(es) else es;
    if Add(es, k, d).1 {
      var i := Find(es1, k);
      if i < 0 { CopiesAppend(es1, Entry(k, d, false), x, y); }
      else { CountsRevive(es1, i, Entry(k, d, false), |es1|, x, y); }
    }
  }

  // The tombstone flag is not consulted: a key removed before is found again.
  function Remove(es: seq<Entry>, k: nat): (seq<Entry>, Option<nat>) {
    var i := Find(es, k);
    if i < 0 then (es, None) else (es[i := es[i].(removed := true)], Some(es[i].data))
  }

  function Lookup(es: seq<Entry>, k: nat): Option<nat> {
    var i := Find(es, k);
    if i < 0 then None else Some(es[i].data)
  }

  function Update(es: seq<Entry>, k: nat, d: nat): (seq<Entry>, bool) {
    var i := Find(es, k);
    if i < 0 then (es, false) else (es[i := es[i].(data := d)], true)
  }

  // A key duplicated by one packing, then removed, is live again after the
  // next packing.
  lemma PackResurrects(es: seq<Entry>)
    requires es != [] && DistinctKeys(es) && Straddles(es)
    ensures var k := es[Live(es)].key;
            var gone := Remove(Packed(es), k).0;
            gone != [] && Find(Packed(gone), k) >= 0
  {
    var e, p := es[Live(es)], Packed(es);
    PackedContents(es, e.key, e.data);
    CopiesMember(es, |es|, e.key, e.data);
    assert es[..|es|] == es;
    var i := Find(p, e.key);
    PackedFinds(es, e.key);
    CopiesMember(p, i, e.key, e.data);
    CopiesOnTop(p, i, e.key, e.data, |p|);
    var gone := Remove(p, e.key).0;
    assert e in gone[..i];
    PackedHolds(gone, e);
  }

  // No copy of a key lies above the index the search returns.
  lemma {:induction false} CopiesOnTop(es: seq<Entry>, i: nat, k: nat, d: nat, n: nat)
    requires i < n <= |es| && forall j :: i < j < |es| ==> es[j].key != k
    ensures CopiesBelow(es, n, k, d) <= CopiesBelow(es, i, k, d) + 1
  {
    if n > i + 1 { CopiesOnTop(es, i, k, d, n - 1); }
  }

  // ------------------------------------------------------------ a plain map

  datatype Slot = Slot(data: nat, live: bool)

  datatype Op = OpAdd(key: nat, data: nat) | OpRemove(key: nat) | OpLookup(key: nat) | OpUpdate(key: nat, data: nat)

  datatype Reply = Code(ok: bool) | Data(data: Option<nat>)

  function Step(es: seq<Entry>, op: Op): (r: (seq<Entry>, Reply))
    requires |es| <= MAX_ELEMS
    ensures |r.0| <= MAX_ELEMS
  {
    match op
    case OpAdd(k, d) => var (es', ok) := Add(es, k, d); (es', Code(ok))
    case OpRemove(k) => var (es', r) := Remove(es, k); (es', Data(r))
    case OpLookup(k) => (es, Data(Lookup(es, k)))
    case OpUpdate(k, d) => var (es', ok) := Update(es, k, d); (es', Code(ok))
  }

  function MapStep(m: map<nat, Slot>, op: Op): (map<nat, Slot>, Reply) {
    var k := op.key;
    match op
    case OpAdd(_, d) =>
      if k in m && m[k].live then (m, Code(false)) else (m[k := Slot(d, true)], Code(true))
    case OpRemove(_) =>
      if k in m then (m[k := Slot(m[k].data, false)], Data(Some(m[k].data))) else (m, Data(None))
    case OpLookup(_) =>
      (m, Data(if k in m then Some(m[k].data) else None))
    case OpUpdate(_, d) =>
      if k in m then (m[k := Slot(d, m[k].live)], Code(true)) else (m, Code(false))
  }

  ghost function Keys(es: seq<Entry>): set<nat> {
    set i | 0 <= i < |es| :: es[i].key
  }

  // What a search can see of the table.
  ghost function View(es: seq<Entry>): map<nat, Slot> {
    map k | k in Keys(es) :: ViewAt(es, k)
  }

  ghost function ViewAt(es: seq<Entry>, k: nat): Slot
    requires k in Keys(es)
  {
    var i := Find(es, k);
    Slot(es[i].data, !es[i].removed)
  }

  lemma {:induction false} FindSameKeys(es: seq<Entry>, es': seq<Entry>, k: nat)
    requires |es| == |es'|
    requires forall i :: 0 <= i < |es| ==> es[i].key == es'[i].key
    ensures Find(es, k) == Find(es', k)
  {
    if es != [] { FindSameKeys(es[..|es| - 1], es'[..|es| - 1], k); }
  }

  lemma FindAppend(es: seq<Entry>, e: Entry, k: nat)
    ensures Find(es + [e], k) == if e.key == k then |es| else Find(es, k)
  {
    assert (es + [e])[..|es|] == es;
  }

  lemma FindIffKey(es: seq<Entry>, k: nat)
    ensures Find(es, k) >= 0 <==> k in Keys(es)
  {
    if Find(es, k) >= 0 { assert es[Find(es, k)].key == k; }
  }

  lemma KeysPut(es: seq<Entry>, i: nat, e: Entry)
    requires i < |es| && i == Find(es, e.key)
    ensures Keys(es[i := e]) == Keys(es)
  {
    var es' := es[i := e];
    forall k ensures k in Keys(es) <==> k in Keys(es') {
      FindSameKeys(es, es', k);
      FindIffKey(es, k);
      FindIffKey(es', k);
    }
  }

  lemma ViewPutAt(es: seq<Entry>, i: nat, e: Entry, k: nat)
    requires i < |es| && i == Find(es, e.key) && k in Keys(es) && k in Keys(es[i := e])
    ensures ViewAt(es[i := e], k) == if k == e.key then Slot(e.data, !e.removed) else ViewAt(es, k)
  {
    FindSameKeys(es, es[i := e], k);
  }

  // Writing at the index a search for k returned changes the view at k alone.
  lemma ViewPut(es: seq<Entry>, i: nat, e: Entry)
    requires i < |es| && i == Find(es, e.key)
    ensures View(es[i := e]) == View(es)[e.key := Slot(e.data, !e.removed)]
    ensures Keys(es[i := e]) == Keys(es)
  {
    KeysPut(es, i, e);
    FindIffKey(es, e.key);
    forall k | k in Keys(es) ensures View(es[i := e])[k] == View(es)[e.key := Slot(e.data, !e.removed)][k] {
      ViewPutAt(es, i, e, k);
    }
  }

  lemma ViewAppend(es: seq<Entry>, e: Entry)
    requires Find(es, e.key) < 0
    ensures View(es + [e]) == View(es)[e.key := Slot(e.data, !e.removed)]
    ensures Keys(es + [e]) == Keys(es) + {e.key}
  {
    var es' := es + [e];
    forall k ensures k in Keys(es') <==> k in Keys(es) || k == e.key {
      if k in Keys(es) { var i :| 0 <= i < |es| && es[i].key == k; assert es'[i].key == k; }
      assert es'[|es|].key == e.key;
    }
    forall k | k in Keys(es') ensures View(es')[k] == View(es)[e.key := Slot(e.data, !e.removed)][k] {
      FindAppend(es, e, k);
    }
  }

  // One operation is the same operation on the map, but for adding to a full table.
  lemma StepRefines(es: seq<Entry>, op: Op)
    requires |es| <= MAX_ELEMS && (op.OpAdd? ==> |es| < MAX_ELEMS)
    ensures View(Step(es, op).0) == MapStep(View(es), op).0
    ensures Step(es, op).1 == MapStep(View(es), op).1
  {
    var i := Find(es, op.key);
    FindIffKey(es, op.key);
    match op
    case OpAdd(k, d) =>
      if i < 0 { ViewAppend(es, Entry(k, d, false)); }
      else if es[i].removed { ViewPut(es, i, Entry(k, d, false)); }
    case OpRemove(k) => if i >= 0 { ViewPut(es, i, es[i].(removed := true)); }
    case OpLookup(k) =>
    case OpUpdate(k, d) => if i >= 0 { ViewPut(es, i, es[i].(data := d)); }
  }

  // The keys that are live.
  ghost function LivePart(m: map<nat, Slot>): map<nat, Slot> {
    map k | k in m && m[k].live :: m[k]
  }

  lemma PackedView(es: seq<Entry>)
    requires es != [] && DistinctKeys(es)
    ensures View(Packed(es)) == LivePart(View(es))
  {
    var m, m' := View(es), View(Packed(es));
    forall k ensures k in m' <==> k in m && m[k].live {
      PackedFinds(es, k);
      FindIffKey(es, k);
      FindIffKey(Packed(es), k);
    }
    forall k | k in m' ensures m'[k] == m[k] {
      PackedFinds(es, k);
      FindIffKey(es, k);
      FindIffKey(Packed(es), k);
    }
  }

  // Adding to a full table of distinct keys forgets every key that is not live,
  // and then does what it does to any table, unless it refuses.
  lemma FullAddRefines(es: seq<Entry>, k: nat, d: nat)
    requires |es| == MAX_ELEMS && DistinctKeys(es)
    ensures var (es', ok) := Add(es, k, d);
            View(es') == if ok then LivePart(View(es))[k := Slot(d, true)] else LivePart(View(es))
  {
    PackedView(es);
    PackedContents(es, k, d);
    var p := Packed(es);
    if Add(es, k, d).1 {
      assert Find(p, k) < 0;
      ViewAppend(p, Entry(k, d, false));
    }
  }

  lemma StepKeys(es: seq<Entry>, op: Op)
    requires |es| < MAX_ELEMS && DistinctKeys(es)
    ensures DistinctKeys(Step(es, op).0)
    ensures Keys(Step(es, op).0) <= Keys(es) + if op.OpAdd? then {op.key} else {}
  {
    forall k | k in Keys(Step(es, op).0) ensures k in Keys(es) || (op.OpAdd? && k == op.key) {
      var es' := Step(es, op).0;
      var j :| 0 <= j < |es'| && es'[j].key == k;
      if j < |es| { assert es'[j].key == es[j].key; }
    }
  }

  ghost function TableRun(es: seq<Entry>, ops: seq<Op>): (seq<Entry>, seq<Reply>)
    requires |es| <= MAX_ELEMS
    decreases |ops|
  {
    if ops == [] then (es, [])
    else
      var (es1, r) := Step(es, ops[0]);
      var (es2, rs) := TableRun(es1, ops[1..]);
      (es2, [r] + rs)
  }

  ghost function MapRun(m: map<nat, Slot>, ops: seq<Op>): (map<nat, Slot>, seq<Reply>)
    decreases |ops|
  {
    if ops == [] then (m, [])
    else
      var (m1, r) := MapStep(m, ops[0]);
      var (m2, rs) := MapRun(m1, ops[1..]);
      (m2, [r] + rs)
  }

  // The keys some add names.
  ghost function AddKeys(ops: seq<Op>): set<nat> {
    set i | 0 <= i < |ops| && ops[i].OpAdd? :: ops[i].key
  }

  lemma {:induction false} DistinctKeysCount(es: seq<Entry>)
    requires DistinctKeys(es)
    ensures |Keys(es)| == |es|
  {
    if es != [] {
      var n := |es| - 1;
      DistinctKeysCount(es[..n]);
      assert es == es[..n] + [es[n]];
      ViewAppend(es[..n], es[n]);
    }
  }

  lemma {:induction false} RunRefinesFrom(es: seq<Entry>, ops: seq<Op>, all: set<nat>)
    requires |es| <= MAX_ELEMS && DistinctKeys(es) && Keys(es) <= all && AddKeys(ops) <= all && |all| < MAX_ELEMS
    ensures View(TableRun(es, ops).0) == MapRun(View(es), ops).0
    ensures TableRun(es, ops).1 == MapRun(View(es), ops).1
    decreases |ops|
  {
    DistinctKeysCount(es);
    SubsetCount(Keys(es), all);
    if ops != [] {
      assert ops[0].OpAdd? ==> ops[0].key in AddKeys(ops);
      StepRefines(es, ops[0]);
      StepKeys(es, ops[0]);
      forall k | k in AddKeys(ops[1..]) ensures k in all {
        var i :| 0 <= i < |ops[1..]| && ops[1..][i].OpAdd? && ops[1..][i].key == k;
        assert ops[i + 1].OpAdd? && ops[i + 1].key == k;
      }
      RunRefinesFrom(Step(es, ops[0]).0, ops[1..], all);
    }
  }

  // From initialization, every run of operations that adds at most 255 keys is a
  // run of the plain map, reply for reply.
  lemma RunRefinesMap(ops: seq<Op>)
    requires |AddKeys(ops)| < MAX_ELEMS
    ensures View(TableRun([], ops).0) == MapRun(map[], ops).0
    ensures TableRun([], ops).1 == MapRun(map[], ops).1
  {
    assert View([]) == map[];
    RunRefinesFrom([], ops, AddKeys(ops));
  }

  ghost predicate Adds(ops: seq<Op>, k: nat) {
    exists i :: 0 <= i < |ops| && ops[i].OpAdd? && ops[i].key == k
  }

  // A key is known to the map iff it was there or some add named it, removed
  // since or not.
  lemma {:induction false} MapRunKnows(m: map<nat, Slot>, ops: seq<Op>, k: nat)
    ensures k in MapRun(m, ops).0 <==> k in m || Adds(ops, k)
    decreases |ops|
  {
    if ops != [] {
      MapRunKnows(MapStep(m, ops[0]).0, ops[1..], k);
      if Adds(ops[1..], k) {
        var i :| 0 <= i < |ops[1..]| && ops[1..][i].OpAdd? && ops[1..][i].key == k;
        assert ops[i + 1].OpAdd? && ops[i + 1].key == k;
      }
      if Adds(ops, k) && !(ops[0].OpAdd? && ops[0].key == k) {
        var i :| 0 <= i < |ops| && ops[i].OpAdd? && ops[i].key == k;
        assert ops[1..][i - 1].OpAdd? && ops[1..][i - 1].key == k;
      }
    }
  }

  // So, after any run that adds at most 255 keys, remove and lookup return data, and
  // update succeeds, exactly for the keys ever added: a removed key still
  // yields its last data, where the header promises NULL.
  lemma StaleKeysStillFound(ops: seq<Op>, k: nat)
    requires |AddKeys(ops)| < MAX_ELEMS
    ensures var es := TableRun([], ops).0;
            && (Remove(es, k).1.Some? <==> Adds(ops, k))
            && (Lookup(es, k).Some? <==> Adds(ops, k))
            && (Update(es, k, 0).1 <==> Adds(ops, k))
  {
    RunRefinesMap(ops);
    MapRunKnows(map[], ops, k);
    var es := TableRun([], ops).0;
    assert k in View(es) <==> k in Keys(es);
    if Find(es, k) >= 0 { assert es[Find(es, k)].key in Keys(es); }
  }
}
