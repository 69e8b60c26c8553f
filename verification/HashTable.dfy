/** The driver's hash table in memory: `struct hash_table`, with its element
array, the chain links of the elements, and the bin heads.  Pointers into
`all_elems` are indices, and NULL is -1. */
module HashTable {
  import opened Arith
  import opened Hashing
  import opened Wrappers
  import opened HashTableSpec

  method HashBin(key: nat) returns (b: nat)
    ensures b == Bin(key)
  {
    var k: nat, result: nat := key, 0;
    while k != 0
      invariant HashFrom(k, result) == HashFrom(key, 0)
      decreases k
    {
      result := (result * 3 + k % 4) % P32;
      k := k / 4;
    }
    b := result % NUM_BINS;
  }

  // After compaction the array is ready for rebuilding the chains.
  lemma PackReady(es: seq<Entry>, all: seq<Entry>, n: nat, t: nat)
    requires es != [] && n == |es| <= |all| && (all[..n], t) == Compact(es, 0, n - 1)
    ensures t < n && AllLive(all, t)
    ensures Packed(es) == if all[t].removed then all[..t] else all[..t + 1]
  {
    PackedFrom(es, all[..n], t);
    assert all[..n][..t] == all[..t] && all[..n][..t + 1] == all[..t + 1];
    assert forall i :: 0 <= i < t ==> all[i] == all[..n][i];
  }

  // The chain's next element is the key's, or the search goes on below it.
  lemma WalkStep(es: seq<Entry>, n: nat, key: nat, i: nat)
    requires n <= |es| && i < n && i == Top(es[..n], Bin(key)) && Find(es, key) < n
    ensures Bin(es[i].key) == Bin(key)
    ensures if es[i].key == key then Find(es, key) == i else Find(es, key) < i
  {
    assert es[..n][i] == es[i];
    forall j | i < j < n ensures es[j].key != key { assert es[..n][j] == es[j]; }
  }

  lemma WalkEnd(es: seq<Entry>, n: nat, key: nat)
    requires n <= |es| && Top(es[..n], Bin(key)) == -1 && Find(es, key) < n
    ensures Find(es, key) == -1
  {
    forall j | 0 <= j < n ensures es[j].key != key { assert es[..n][j] == es[j]; }
  }

  class Table {
    const entries: array<Entry>   // all_elems[i].the_key, the_data, removed
    const next: array<int>        // all_elems[i].next
    const bins: array<int>
    var num: nat

    ghost predicate Valid()
      reads this, entries, next, bins
    {
      && entries.Length == next.Length == MAX_ELEMS
      && bins.Length == NUM_BINS
      && next != bins
      && num <= MAX_ELEMS
      && Linked(entries[..num], next[..num], bins[..])
    }

    // What the table holds: the elements below num_elems, in array order.
    ghost function Contents(): seq<Entry>
      reads this, entries
      requires num <= entries.Length
    {
      entries[..num]
    }

    constructor ()
      ensures Valid() && Contents() == []
      ensures fresh(entries) && fresh(next) && fresh(bins)
    {
      entries := new Entry[MAX_ELEMS](_ => Entry(0, 0, false));
      next := new int[MAX_ELEMS](_ => -1);
      bins := new int[NUM_BINS](_ => -1);
      num := 0;
    }

    // hash_table_initialize; hash_table_destroy is the same call.
    method Initialize()
      requires bins.Length == NUM_BINS
      modifies this`num, bins
      ensures num == 0 && forall b :: 0 <= b < NUM_BINS ==> bins[b] == -1
      ensures entries.Length == next.Length == MAX_ELEMS && next != bins ==> Valid()
    {
      num := 0;
      var i := 0;
      while i < NUM_BINS
        invariant i <= NUM_BINS && num == 0
        invariant forall b :: 0 <= b < i ==> bins[b] == -1
      {
        bins[i] := -1;
        i := i + 1;
      }
    }

    // The chain walk: exactly the highest-index element with the key, or -1.
    method KeyAndBinToElem(key: nat, bin: nat) returns (i: int)
      requires Valid() && bin == Bin(key)
      ensures i == Find(Contents(), key)
    {
      ghost var es, n := Contents(), num;
      i := bins[bin];
      assert es[..n] == es;
      while i != -1
        invariant n <= num && i == Top(es[..n], bin) && Find(es, key) < n
        decreases i
      {
        WalkStep(es, n, key, i);
        if entries[i].key == key {
          return;
        }
        assert next[..num][i] == Top(es[..i], Bin(es[i].key));
        n := i;
        i := next[i];
      }
      WalkEnd(es, n, key);
    }

    // The two-pointer loop of hash_table_pack; `from - to` is its measure.
    method CompactElems() returns (toNdx: nat)
      requires 0 < num <= entries.Length
      modifies entries
      ensures toNdx < num && (entries[..num], toNdx) == Compact(old(Contents()), 0, num - 1)
    {
      var to, from := 0, num - 1;
      ghost var es := entries[..num];
      while to != from
        invariant to <= from < num && entries[..num] == es
        invariant Compact(es, to, from) == Compact(old(Contents()), 0, num - 1)
        decreases from - to
      {
        ghost var es0, to0, from0 := es, to, from;
        if !entries[to].removed {
          to := to + 1;
        } else if !entries[from].removed {
          entries[to] := Entry(entries[from].key, entries[from].data, false);
          es := es[to := es[from]];
          to := to + 1;
          if to != from { from := from - 1; }
        } else {
          from := from - 1;
        }
        assert (es, to, from) == CompactStep(es0, to0, from0);
      }
      toNdx := to;
    }

    // Putting the element at index num at the front of its chain.
    method Chain(bin: nat)
      requires entries.Length == next.Length == MAX_ELEMS && bins.Length == NUM_BINS && next != bins
      requires num < MAX_ELEMS && bin == Bin(entries[num].key) && Linked(entries[..num], next[..num], bins[..])
      modifies this`num, next, bins
      ensures num == old(num) + 1 && Linked(entries[..num], next[..num], bins[..])
    {
      ghost var es, nx, bs := entries[..num], next[..num], bins[..];
      LinkedAppend(es, nx, bs, entries[num]);
      next[num] := bins[bin];
      bins[bin] := num;
      num := num + 1;
      assert entries[..num] == es + [entries[num - 1]];
      assert next[..num] == nx + [bs[bin]];
    }

    // The rebuilding loop of hash_table_pack, over elements 0..last.
    method Rebuild(last: nat)
      requires entries.Length == next.Length == MAX_ELEMS && bins.Length == NUM_BINS && next != bins
      requires last < MAX_ELEMS && AllLive(entries[..], last)
      modifies this, next, bins
      ensures Valid()
      ensures Contents() == if entries[last].removed then entries[..last] else entries[..last + 1]
    {
      Initialize();
      var ndx := 0;
      while ndx <= last
        invariant ndx <= last + 1
        invariant num == if ndx == last + 1 && entries[last].removed then last else ndx
        invariant Linked(entries[..num], next[..num], bins[..])
      {
        if !entries[ndx].removed {
          var bin := HashBin(entries[ndx].key);
          Chain(bin);
        }
        ndx := ndx + 1;
      }
    }

    method Pack()
      requires Valid() && num > 0
      modifies this, entries, next, bins
      ensures Valid() && Contents() == Packed(old(Contents()))
    {
      ghost var es, n := Contents(), num;
      var t := CompactElems();
      ghost var all := entries[..];
      assert all[..n] == entries[..n];
      PackReady(es, all, n, t);
      Rebuild(t);
      assert entries[..t] == all[..t] && entries[..t + 1] == all[..t + 1];
    }

    // Overwriting an element without changing its key leaves the chains alone.
    method Put(i: nat, e: Entry)
      requires Valid() && i < num && entries[i].key == e.key
      modifies entries
      ensures Valid() && Contents() == old(Contents())[i := e]
    {
      ghost var es := Contents();
      entries[i] := e;
      assert entries[..num] == es[i := e];
      LinkedSameKeys(es, entries[..num], next[..num], bins[..]);
    }

    // A new element goes at the end of the array and the front of its chain.
    method Append(e: Entry, bin: nat)
      requires Valid() && num < MAX_ELEMS && bin == Bin(e.key)
      modifies this, entries, next, bins
      ensures Valid() && Contents() == old(Contents()) + [e]
    {
      ghost var es := Contents();
      entries[num] := e;
      assert entries[..num] == es;
      Chain(bin);
    }

    // hash_table_add: 0 on success, -1 when the key is live or the table full.
    method AddElem(data: nat, key: nat) returns (code: int)
      requires Valid()
      modifies this, entries, next, bins
      ensures Valid()
      ensures (Contents(), code == 0) == Add(old(Contents()), key, data)
      ensures code == 0 || code == -1
    {
      if num == MAX_ELEMS {
        Pack();
        if num == MAX_ELEMS { return -1; }
      }
      var bin := HashBin(key);
      var prev := KeyAndBinToElem(key, bin);
      if prev == -1 {
        Append(Entry(key, data, false), bin);
      } else if !entries[prev].removed {
        return -1;
      } else {
        Put(prev, Entry(key, data, false));
      }
      code := 0;
    }

    method RemoveElem(key: nat) returns (data: Option<nat>)
      requires Valid()
      modifies entries
      ensures Valid() && (Contents(), data) == Remove(old(Contents()), key)
    {
      var bin := HashBin(key);
      var e := KeyAndBinToElem(key, bin);
      if e == -1 { return None; }
      Put(e, entries[e].(removed := true));
      data := Some(entries[e].data);
    }

    method LookupElem(key: nat) returns (data: Option<nat>)
      requires Valid()
      ensures data == Lookup(Contents(), key)
    {
      var bin := HashBin(key);
      var e := KeyAndBinToElem(key, bin);
      if e == -1 { return None; }
      data := Some(entries[e].data);
    }

    method UpdateElem(key: nat, data: nat) returns (code: int)
      requires Valid()
      modifies entries
      ensures Valid() && (Contents(), code == 0) == Update(old(Contents()), key, data)
      ensures code == 0 || code == -1
    {
      var bin := HashBin(key);
      var e := KeyAndBinToElem(key, bin);
      if e == -1 { return -1; }
      Put(e, entries[e].(data := data));
      code := 0;
    }
  }
}
