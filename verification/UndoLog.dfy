/** The undo log both drivers keep of their writes to kernel text, as one
abstract structure: memory, and for every cell changed since open the value it
had at open. */
module UndoLog {

  datatype Log<V> = Log(mem: map<nat, V>, orig: map<nat, V>)

  // Memory overlaid with the logged originals.
  ghost function Opened<V>(l: Log<V>): map<nat, V> {
    l.mem + l.orig
  }

  ghost predicate WellFormed<V>(l: Log<V>) {
    l.orig.Keys <= l.mem.Keys
  }

  ghost function Only<V>(m: map<nat, V>, ks: set<nat>): map<nat, V> {
    map k | k in m && k in ks :: m[k]
  }

  // Writing cells: the first write to a cell logs what it held.
  ghost function Write<V>(l: Log<V>, w: map<nat, V>): Log<V> {
    Log(l.mem + w, Only(l.mem, w.Keys) + l.orig)
  }

  // Restoring the cells `ks`, and forgetting those of them in `done`.
  ghost function Restore<V>(l: Log<V>, ks: set<nat>, done: set<nat>): Log<V> {
    Log(l.mem + Only(l.orig, ks), l.orig - done)
  }

  lemma WriteKeepsOpened<V>(l: Log<V>, w: map<nat, V>)
    requires WellFormed(l) && w.Keys <= l.mem.Keys
    ensures WellFormed(Write(l, w)) && Opened(Write(l, w)) == Opened(l)
  {
    var l' := Write(l, w);
    assert l'.mem.Keys == l.mem.Keys;
    forall k | k in l.mem ensures Opened(l')[k] == Opened(l)[k] {
      assert k in w.Keys ==> k in Only(l.mem, w.Keys);
    }
  }

  lemma RestoreKeepsOpened<V>(l: Log<V>, ks: set<nat>, done: set<nat>)
    requires WellFormed(l) && done <= ks
    ensures WellFormed(Restore(l, ks, done)) && Opened(Restore(l, ks, done)) == Opened(l)
  {
    var l' := Restore(l, ks, done);
    assert l'.mem.Keys == l.mem.Keys;
    forall k | k in l.mem ensures Opened(l')[k] == Opened(l)[k] {
      assert k in l.orig && k in done ==> k in Only(l.orig, ks);
    }
  }

  // One cell at a time.
  lemma WriteOne<V>(l: Log<V>, a: nat, v: V)
    requires a in l.mem
    ensures Write(l, map[a := v]) == Log(l.mem[a := v], if a in l.orig then l.orig else l.orig[a := l.mem[a]])
  {
    var only := Only(l.mem, map[a := v].Keys);
    assert only == map[a := l.mem[a]];
    assert l.mem + map[a := v] == l.mem[a := v];
    if a in l.orig { assert only + l.orig == l.orig; } else { assert only + l.orig == l.orig[a := l.mem[a]]; }
  }

  lemma RestoreOne<V>(l: Log<V>, a: nat)
    ensures Restore(l, {a}, {a}) == Log(if a in l.orig then l.mem[a := l.orig[a]] else l.mem, l.orig - {a})
  {
    var only := Only(l.orig, {a});
    if a in l.orig {
      assert only == map[a := l.orig[a]];
      assert l.mem + only == l.mem[a := l.orig[a]];
    } else {
      assert only == map[];
      assert l.mem + only == l.mem;
    }
  }

  lemma OpenedPutLogged<V>(l: Log<V>, a: nat, v: V)
    requires a in l.orig
    ensures Opened(Log(l.mem[a := v], l.orig)) == Opened(l)
  {
  }

  lemma OpenedPutFresh<V>(l: Log<V>, a: nat, v: V, o: V)
    requires a in l.mem && a !in l.orig
    ensures Opened(Log(l.mem[a := v], l.orig[a := o])) == Opened(l)[a := o]
    ensures Opened(l)[a := o] == Opened(l) <==> o == l.mem[a]
  {
    var m := Opened(l);
    assert m[a] == l.mem[a] && m[a := o][a] == o;
  }

  // ------------------------------------------------------------ runs

  datatype Op<V> = OpWrite(w: map<nat, V>) | OpRestore(ks: set<nat>)

  ghost function Step<V>(l: Log<V>, op: Op<V>): Log<V> {
    match op
    case OpWrite(w) => Write(l, w)
    case OpRestore(ks) => Restore(l, ks, ks)
  }

  ghost function Run<V>(l: Log<V>, ops: seq<Op<V>>): Log<V>
    decreases |ops|
  {
    if ops == [] then l else Run(Step(l, ops[0]), ops[1..])
  }

  ghost predicate Mapped<V>(l: Log<V>, ops: seq<Op<V>>) {
    forall i :: 0 <= i < |ops| && ops[i].OpWrite? ==> ops[i].w.Keys <= l.mem.Keys
  }

  // After any run of writes and undos the overlay is the memory at open.
  lemma {:induction false} RunKeepsOpened<V>(l: Log<V>, ops: seq<Op<V>>)
    requires WellFormed(l) && Mapped(l, ops)
    ensures WellFormed(Run(l, ops)) && Opened(Run(l, ops)) == Opened(l) && Run(l, ops).mem.Keys == l.mem.Keys
    decreases |ops|
  {
    if ops != [] {
      match ops[0] {
        case OpWrite(w) => WriteKeepsOpened(l, w);
        case OpRestore(ks) => RestoreKeepsOpened(l, ks, ks);
      }
      assert Step(l, ops[0]).mem.Keys == l.mem.Keys;
      RunKeepsOpened(Step(l, ops[0]), ops[1..]);
    }
  }

  // So an undo after any stack of writes gives a cell its oldest value, and
  // undoing everything gives back the memory at open and an empty log.
  lemma UndoRestoresOldest<V>(mem0: map<nat, V>, ops: seq<Op<V>>, ks: set<nat>)
    requires Mapped(Log(mem0, map[]), ops)
    ensures var l := Run(Log(mem0, map[]), ops);
            && (forall k :: k in ks && k in mem0 ==> k in Restore(l, ks, ks).mem && Restore(l, ks, ks).mem[k] == mem0[k])
            && Restore(l, l.orig.Keys, l.orig.Keys) == Log(mem0, map[])
  {
    var l0 := Log(mem0, map[]);
    var l := Run(l0, ops);
    RunKeepsOpened(l0, ops);
    assert Opened(l0) == mem0;
    RestoreKeepsOpened(l, ks, ks);
    forall k | k in ks && k in mem0 ensures k in Restore(l, ks, ks).mem && Restore(l, ks, ks).mem[k] == mem0[k] {
      assert Opened(Restore(l, ks, ks))[k] == mem0[k];
    }
    RestoreKeepsOpened(l, l.orig.Keys, l.orig.Keys);
    var r := Restore(l, l.orig.Keys, l.orig.Keys);
    assert r.orig == map[];
    assert r.mem == Opened(r);
  }
}
