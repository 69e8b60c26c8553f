/** The Solaris log of kernel text writes: two dictionaries, by undo priority,
from word address to the value the word had when it was first written. */
module SolarisWrites {
  import opened UndoLog
  import opened Wrappers

  datatype OneWrite = OneWrite(origval: nat, nucleus: bool)

  type Dict = map<nat, OneWrite>

  datatype State = State(
    pri0: Dict,           // undo these first
    pri1: Dict,           // undo these second
    mem: map<nat, nat>)   // kernel words by address

  // A call either returns a code or brings the machine down.
  datatype Outcome = Code(code: int) | Panic

  predicate Logged(s: State, a: nat) {
    a in s.pri0 || a in s.pri1
  }

  // performUndoableAlignedWrite.  The caller says what the word held; an entry
  // already there is older and is kept.
  function DoWrite(s: State, a: nat, nucleus: bool, val: nat, origval: nat, howSoon: nat): (State, Outcome) {
    if a % 4 != 0 || (!Logged(s, a) && howSoon > 1) then (s, Panic)
    else if Logged(s, a) then (s.(mem := s.mem[a := val]), Code(1))
    else if howSoon == 0 then (State(s.pri0[a := OneWrite(origval, nucleus)], s.pri1, s.mem[a := val]), Code(0))
    else (State(s.pri0, s.pri1[a := OneWrite(origval, nucleus)], s.mem[a := val]), Code(0))
  }

  function DoUndoWord(s: State, a: nat): (State, int) {
    if a in s.pri0 then (State(s.pri0 - {a}, s.pri1, s.mem[a := s.pri0[a].origval]), 0)
    else if a in s.pri1 then (State(s.pri0, s.pri1 - {a}, s.mem[a := s.pri1[a].origval]), 0)
    else (s, -1)
  }

  function DoChange(s: State, a: nat, howSoon: nat): State {
    if a in s.pri0 && howSoon == 1 then State(s.pri0 - {a}, s.pri1[a := s.pri0[a]], s.mem)
    else if a !in s.pri0 && a in s.pri1 && howSoon == 0 then State(s.pri0[a := s.pri1[a]], s.pri1 - {a}, s.mem)
    else s
  }

  // ------------------------------------------------------------ refinement

  ghost function Origs(d: Dict): map<nat, nat> {
    map k | k in d :: d[k].origval
  }

  ghost function Abs(s: State): Log<nat> {
    Log(s.mem, Origs(s.pri0) + Origs(s.pri1))
  }

  ghost predicate Valid(s: State) {
    s.pri0.Keys !! s.pri1.Keys && s.pri0.Keys <= s.mem.Keys && s.pri1.Keys <= s.mem.Keys
  }

  lemma OrigsPut(d: Dict, a: nat, w: OneWrite)
    ensures Origs(d[a := w]) == Origs(d)[a := w.origval]
  {
  }

  lemma MergePut(m: map<nat, nat>, n: map<nat, nat>, a: nat, v: nat)
    requires a !in n
    ensures m[a := v] + n == (m + n)[a := v] == m + n[a := v]
  {
  }

  lemma OrigsOf(s: State, a: nat)
    ensures a in Abs(s).orig <==> Logged(s, a)
    ensures a in s.pri1 ==> Abs(s).orig[a] == s.pri1[a].origval
    ensures a in s.pri0 && a !in s.pri1 ==> Abs(s).orig[a] == s.pri0[a].origval
  {
  }

  // The logged originals after a first write.
  lemma WriteLogs(s: State, a: nat, nucleus: bool, val: nat, origval: nat, howSoon: nat)
    requires !Logged(s, a) && a % 4 == 0 && howSoon <= 1
    ensures Abs(DoWrite(s, a, nucleus, val, origval, howSoon).0).orig == Abs(s).orig[a := origval]
  {
    OrigsPut(s.pri0, a, OneWrite(origval, nucleus));
    OrigsPut(s.pri1, a, OneWrite(origval, nucleus));
    MergePut(Origs(s.pri0), Origs(s.pri1), a, origval);
  }

  lemma WriteValid(s: State, a: nat, nucleus: bool, val: nat, origval: nat, howSoon: nat)
    requires Valid(s) && a in s.mem
    ensures Valid(DoWrite(s, a, nucleus, val, origval, howSoon).0)
  {
  }

  // Undoable writing through write1UndoableAlignedWord, which reads the word
  // first, is one write of the abstract log, or a panic that changes nothing.
  lemma WriteRefines(s: State, a: nat, nucleus: bool, val: nat, howSoon: nat)
    requires Valid(s) && a in s.mem
    ensures var (s', out) := DoWrite(s, a, nucleus, val, s.mem[a], howSoon);
            Valid(s') && Abs(s') == if out.Panic? then Abs(s) else Write(Abs(s), map[a := val])
  {
    WriteValid(s, a, nucleus, val, s.mem[a], howSoon);
    WriteOne(Abs(s), a, val);
    OrigsOf(s, a);
    if !Logged(s, a) && a % 4 == 0 && howSoon <= 1 { WriteLogs(s, a, nucleus, val, s.mem[a], howSoon); }
  }

  // With any other old value the overlay survives exactly when the word was
  // logged before or the value given is the one it holds.
  lemma WriteKeepsOpenedIff(s: State, a: nat, nucleus: bool, val: nat, origval: nat, howSoon: nat)
    requires Valid(s) && a in s.mem && a % 4 == 0 && howSoon <= 1
    ensures Opened(Abs(DoWrite(s, a, nucleus, val, origval, howSoon).0)) == Opened(Abs(s))
       <==> Logged(s, a) || origval == s.mem[a]
  {
    OrigsOf(s, a);
    if Logged(s, a) {
      OpenedPutLogged(Abs(s), a, val);
    } else {
      OpenedPutFresh(Abs(s), a, val, origval);
      WriteLogs(s, a, nucleus, val, origval, howSoon);
    }
  }

  lemma OrigsDrop0(s: State, a: nat)
    requires Valid(s) && a in s.pri0
    ensures Origs(s.pri0 - {a}) + Origs(s.pri1) == Abs(s).orig - {a}
  {
  }

  lemma OrigsDrop1(s: State, a: nat)
    requires Valid(s) && a in s.pri1
    ensures Origs(s.pri0) + Origs(s.pri1 - {a}) == Abs(s).orig - {a}
  {
  }

  lemma OrigsDropNone(s: State, a: nat)
    requires !Logged(s, a)
    ensures Abs(s).orig - {a} == Abs(s).orig
  {
  }

  // An explicit undo restores the oldest value of the word and forgets it.
  lemma UndoWordRefines(s: State, a: nat)
    requires Valid(s)
    ensures var (s', code) := DoUndoWord(s, a);
            Valid(s') && Abs(s') == Restore(Abs(s), {a}, {a}) && (code == 0 <==> Logged(s, a))
  {
    RestoreOne(Abs(s), a);
    OrigsOf(s, a);
    if a in s.pri0 { OrigsDrop0(s, a); }
    else if a in s.pri1 { OrigsDrop1(s, a); }
    else { OrigsDropNone(s, a); }
  }

  lemma OrigsMove(d: Dict, e: Dict, a: nat)
    requires d.Keys !! e.Keys && a in d
    ensures Origs(d - {a}) + Origs(e[a := d[a]]) == Origs(d) + Origs(e)
  {
  }

  lemma MergeComm(d: Dict, e: Dict)
    requires d.Keys !! e.Keys
    ensures Origs(d) + Origs(e) == Origs(e) + Origs(d)
  {
  }

  // Moving an entry between the priorities logs and restores nothing.
  lemma ChangeRefines(s: State, a: nat, howSoon: nat)
    requires Valid(s) && howSoon <= 1
    ensures var s' := DoChange(s, a, howSoon);
            Valid(s') && Abs(s') == Abs(s) && (Logged(s, a) ==> (a in s'.pri0 <==> howSoon == 0))
  {
    if a in s.pri0 && howSoon == 1 { OrigsMove(s.pri0, s.pri1, a); }
    if a in s.pri1 && howSoon == 0 {
      OrigsMove(s.pri1, s.pri0, a);
      MergeComm(s.pri0[a := s.pri1[a]], s.pri1 - {a});
      MergeComm(s.pri0, s.pri1);
    }
  }

  // ------------------------------------------------------------ runs

  datatype Call =
    | CallWrite(a: nat, nucleus: bool, val: nat, howSoon: nat)
    | CallUndo(a: nat)
    | CallChange(a: nat, howSoon: nat)

  ghost function Step(s: State, c: Call): State {
    match c
    case CallWrite(a, nucleus, val, howSoon) =>
      if a in s.mem then DoWrite(s, a, nucleus, val, s.mem[a], howSoon).0 else s
    case CallUndo(a) => DoUndoWord(s, a).0
    case CallChange(a, howSoon) => if howSoon <= 1 then DoChange(s, a, howSoon) else s
  }

  ghost function RunCalls(s: State, calls: seq<Call>): State
    decreases |calls|
  {
    if calls == [] then s else RunCalls(Step(s, calls[0]), calls[1..])
  }

  lemma StepKeeps(s: State, c: Call)
    requires Valid(s)
    ensures Valid(Step(s, c)) && Opened(Abs(Step(s, c))) == Opened(Abs(s))
  {
    match c
    case CallWrite(a, nucleus, val, howSoon) =>
      if a in s.mem {
        WriteRefines(s, a, nucleus, val, howSoon);
        WriteKeepsOpened(Abs(s), map[a := val]);
      }
    case CallUndo(a) =>
      UndoWordRefines(s, a);
      RestoreKeepsOpened(Abs(s), {a}, {a});
    case CallChange(a, howSoon) =>
      if howSoon <= 1 { ChangeRefines(s, a, howSoon); }
  }

  // After any run from open, the two priorities are disjoint and memory
  // overlaid with the logged originals is the memory at open.
  lemma {:induction false} RunKeeps(s: State, calls: seq<Call>)
    requires Valid(s)
    ensures Valid(RunCalls(s, calls)) && Opened(Abs(RunCalls(s, calls))) == Opened(Abs(s))
    decreases |calls|
  {
    if calls != [] {
      StepKeeps(s, calls[0]);
      RunKeeps(Step(s, calls[0]), calls[1..]);
    }
  }

  // A write files an unlogged word by the priority named, with the value given,
  // and a logged one not again; it panics, changing nothing, on an address off
  // word alignment or a new word with neither priority.
  lemma WriteFiles(s: State, a: nat, nucleus: bool, val: nat, origval: nat, howSoon: nat)
    requires Valid(s)
    ensures var (s', out) := DoWrite(s, a, nucleus, val, origval, howSoon);
            && (out.Panic? <==> a % 4 != 0 || (!Logged(s, a) && howSoon != 0 && howSoon != 1))
            && (out.Panic? ==> s' == s)
            && (!out.Panic? ==> a in s'.mem && s'.mem[a] == val && (out.code == 1 <==> Logged(s, a)))
            && (!out.Panic? && !Logged(s, a) ==>
                  && out.code == 0
                  && (a in s'.pri0 <==> howSoon == 0) && (a in s'.pri1 <==> howSoon == 1)
                  && (if howSoon == 0 then s'.pri0[a] else s'.pri1[a]) == OneWrite(origval, nucleus))
            && (Logged(s, a) ==> s'.pri0 == s.pri0 && s'.pri1 == s.pri1)
  {
  }

  // The two dictionaries as one, from word to priority and entry.
  datatype Filed = Filed(howSoon: nat, w: OneWrite)

  type Files = map<nat, Filed>

  // A word is filed by the first write that names it, under the priority it
  // names, refiled by a change, and taken out by an undo.
  ghost function FileStep(f: Files, mem: map<nat, nat>, c: Call): (Files, map<nat, nat>) {
    match c
    case CallWrite(a, nucleus, val, howSoon) =>
      if a !in mem || a % 4 != 0 || (a !in f && howSoon > 1) then (f, mem)
      else (if a in f then f else f[a := Filed(howSoon, OneWrite(mem[a], nucleus))], mem[a := val])
    case CallUndo(a) => if a in f then (f - {a}, mem[a := f[a].w.origval]) else (f, mem)
    case CallChange(a, howSoon) =>
      (if a in f && howSoon <= 1 then f[a := Filed(howSoon, f[a].w)] else f, mem)
  }

  ghost function RunFiles(f: Files, mem: map<nat, nat>, calls: seq<Call>): (Files, map<nat, nat>)
    decreases |calls|
  {
    if calls == [] then (f, mem) else var (f', mem') := FileStep(f, mem, calls[0]); RunFiles(f', mem', calls[1..])
  }

  // Each dictionary holds exactly the words filed under its priority.
  ghost predicate FiledAs(s: State, f: Files, mem: map<nat, nat>) {
    && s.mem == mem
    && (forall a :: a in f ==> f[a].howSoon <= 1)
    && (forall a :: a in s.pri0 <==> a in f && f[a].howSoon == 0)
    && (forall a :: a in s.pri1 <==> a in f && f[a].howSoon == 1)
    && (forall a :: a in s.pri0 ==> s.pri0[a] == f[a].w)
    && (forall a :: a in s.pri1 ==> s.pri1[a] == f[a].w)
  }

  lemma WriteStepFiles(s: State, f: Files, mem: map<nat, nat>, a: nat, nucleus: bool, val: nat, howSoon: nat)
    requires FiledAs(s, f, mem) && a in mem
    ensures var (f', mem') := FileStep(f, mem, CallWrite(a, nucleus, val, howSoon));
            FiledAs(DoWrite(s, a, nucleus, val, mem[a], howSoon).0, f', mem')
  {
    assert Logged(s, a) <==> a in f;
  }

  lemma UndoStepFiles(s: State, f: Files, mem: map<nat, nat>, a: nat)
    requires FiledAs(s, f, mem)
    ensures var (f', mem') := FileStep(f, mem, CallUndo(a)); FiledAs(DoUndoWord(s, a).0, f', mem')
  {
    assert Logged(s, a) <==> a in f;
  }

  lemma ChangeStepFiles(s: State, f: Files, mem: map<nat, nat>, a: nat, howSoon: nat)
    requires FiledAs(s, f, mem) && howSoon <= 1
    ensures var (f', mem') := FileStep(f, mem, CallChange(a, howSoon)); FiledAs(DoChange(s, a, howSoon), f', mem')
  {
    assert Logged(s, a) <==> a in f;
  }

  lemma StepFiles(s: State, f: Files, mem: map<nat, nat>, c: Call)
    requires FiledAs(s, f, mem)
    ensures FiledAs(Step(s, c), FileStep(f, mem, c).0, FileStep(f, mem, c).1)
  {
    match c
    case CallWrite(a, nucleus, val, howSoon) => if a in mem { WriteStepFiles(s, f, mem, a, nucleus, val, howSoon); }
    case CallUndo(a) => UndoStepFiles(s, f, mem, a);
    case CallChange(a, howSoon) => if howSoon <= 1 { ChangeStepFiles(s, f, mem, a, howSoon); }
  }

  // Over every run from open, a word is in pri0 if and only if it is logged and
  // the last write that logged it, or change since, named 0.
  lemma {:induction false} PrioritiesFollow(s: State, f: Files, mem: map<nat, nat>, calls: seq<Call>)
    requires FiledAs(s, f, mem)
    ensures FiledAs(RunCalls(s, calls), RunFiles(f, mem, calls).0, RunFiles(f, mem, calls).1)
    decreases |calls|
  {
    if calls != [] {
      StepFiles(s, f, mem, calls[0]);
      var (f', mem') := FileStep(f, mem, calls[0]);
      PrioritiesFollow(Step(s, calls[0]), f', mem', calls[1..]);
    }
  }

  // So an explicit undo of a logged word, after any run, gives it its value at
  // open.
  lemma UndoAfterAnyRun(mem0: map<nat, nat>, calls: seq<Call>, a: nat)
    requires a in mem0 && Logged(RunCalls(State(map[], map[], mem0), calls), a)
    ensures var s' := DoUndoWord(RunCalls(State(map[], map[], mem0), calls), a).0;
            a in s'.mem && s'.mem[a] == mem0[a] && !Logged(s', a)
  {
    var s0 := State(map[], map[], mem0);
    RunKeeps(s0, calls);
    var s := RunCalls(s0, calls);
    assert Opened(Abs(s0)) == mem0;
    OrigsOf(s, a);
    assert Opened(Abs(s))[a] == Abs(s).orig[a];
  }

  // ------------------------------------------------------------ in memory

  ghost function Members(t: seq<nat>): set<nat> {
    set i | 0 <= i < |t| :: t[i]
  }

  lemma MembersSnoc(t: seq<nat>, a: nat)
    ensures Members(t + [a]) == Members(t) + {a}
  {
    var u := t + [a];
    forall x | x in Members(t) ensures x in Members(u) { var i :| 0 <= i < |t| && t[i] == x; assert u[i] == x; }
    assert u[|t|] == a;
  }

  // The trace lists exactly these addresses, each once.
  ghost predicate Lists(t: seq<nat>, keys: set<nat>) {
    Distinct(t) && Members(t) == keys
  }

  lemma ListsSnoc(t: seq<nat>, keys: set<nat>, left: set<nat>, a: nat)
    requires Lists(t, keys - left) && a in left && a in keys
    ensures Lists(t + [a], keys - (left - {a}))
  {
    MembersSnoc(t, a);
    forall i | 0 <= i < |t| ensures t[i] != a { assert t[i] in Members(t); }
  }

  lemma ListsConcat(s: seq<nat>, t: seq<nat>, a: set<nat>, b: set<nat>)
    requires Lists(s, a) && Lists(t, b) && a !! b
    ensures Distinct(s + t)
  {
    forall i, j | 0 <= i < |s| && 0 <= j < |t| ensures s[i] != t[j] { assert s[i] in Members(s) && t[j] in Members(t); }
  }

  lemma OrigsStep(mem: map<nat, nat>, d: Dict, left: set<nat>, a: nat)
    requires left <= d.Keys && a in left
    ensures mem + Origs(d - (left - {a})) == (mem + Origs(d - left))[a := d[a].origval]
  {
  }

  class LoggedWrites {
    var pri0: Dict
    var pri1: Dict
    var mem: map<nat, nat>
    ghost var undone: seq<nat>   // the words put back so far, in order

    ghost function Now(): State
      reads this
    {
      State(pri0, pri1, mem)
    }

    constructor (mem0: map<nat, nat>)
      ensures Now() == State(map[], map[], mem0) && undone == []
    {
      pri0, pri1, mem, undone := map[], map[], mem0, [];
    }

    method PerformUndoableAlignedWrite(a: nat, nucleus: bool, val: nat, origval: nat, howSoon: nat)
      returns (out: Outcome)
      modifies this`pri0, this`pri1, this`mem
      ensures (Now(), out) == DoWrite(old(Now()), a, nucleus, val, origval, howSoon)
    {
      var logged := a in pri0 || a in pri1;
      if !logged {
        if a % 4 != 0 { return Panic; }
        if howSoon == 0 { pri0 := pri0[a := OneWrite(origval, nucleus)]; }
        else if howSoon == 1 { pri1 := pri1[a := OneWrite(origval, nucleus)]; }
        else { return Panic; }
      }
      if a % 4 != 0 { return Panic; }
      mem := mem[a := val];
      out := Code(if logged then 1 else 0);
    }

    method WriteUndoable(a: nat, nucleus: bool, val: nat, howSoon: nat) returns (out: Outcome, oldval: nat)
      requires a in mem
      modifies this`pri0, this`pri1, this`mem
      ensures oldval == old(mem[a])
      ensures (Now(), out) == DoWrite(old(Now()), a, nucleus, val, oldval, howSoon)
    {
      oldval := mem[a];
      if a % 4 != 0 { return Panic, oldval; }
      out := PerformUndoableAlignedWrite(a, nucleus, val, oldval, howSoon);
    }

    // oneWrite::undo.
    method UndoOne(a: nat, w: OneWrite)
      modifies this`mem, this`undone
      ensures mem == old(mem)[a := w.origval] && undone == old(undone) + [a]
    {
      mem, undone := mem[a := w.origval], undone + [a];
    }

    // undoWriteWordCommon.
    method UndoWriteWord(a: nat) returns (code: int)
      modifies this
      ensures (Now(), code) == DoUndoWord(old(Now()), a)
      ensures undone == if code == 0 then old(undone) + [a] else old(undone)
    {
      if a in pri0 {
        UndoOne(a, pri0[a]);
        pri0 := pri0 - {a};
        return 0;
      }
      if a in pri1 {
        UndoOne(a, pri1[a]);
        pri1 := pri1 - {a};
        return 0;
      }
      code := -1;
    }

    method ChangeHowSoon(a: nat, howSoon: nat)
      requires howSoon <= 1
      modifies this`pri0, this`pri1
      ensures Now() == DoChange(old(Now()), a, howSoon)
    {
      if a in pri0 {
        if howSoon == 0 { return; }
        pri1, pri0 := pri1[a := pri0[a]], pri0 - {a};
      } else if a in pri1 {
        if howSoon == 1 { return; }
        pri0, pri1 := pri0[a := pri1[a]], pri1 - {a};
      }
    }

    // Undoing one dictionary, in whatever order its iterator gives.
    method UndoAllOf(d: Dict) returns (ghost trace: seq<nat>)
      modifies this`mem, this`undone
      ensures mem == old(mem) + Origs(d)
      ensures undone == old(undone) + trace && Lists(trace, d.Keys)
    {
      trace := [];
      var left := d.Keys;
      assert Origs(d - left) == map[];
      while left != {}
        invariant left <= d.Keys && mem == old(mem) + Origs(d - left)
        invariant undone == old(undone) + trace && Lists(trace, d.Keys - left)
        decreases left
      {
        var a :| a in left;
        UndoOne(a, d[a]);
        OrigsStep(old(mem), d, left, a);
        ListsSnoc(trace, d.Keys, left, a);
        trace := trace + [a];
        left := left - {a};
      }
      assert d - {} == d;
    }

    // undo: every word of priority 0, then every word of priority 1, each once.
    // Memory is then what it was at open, and nothing is left to undo.  The trace
    // is what was stored, in order, its first n words of priority 0.
    method Undo() returns (ghost trace: seq<nat>, ghost n: nat)
      requires Valid(Now())
      modifies this
      ensures Now() == State(map[], map[], Opened(old(Abs(Now()))))
      ensures undone == old(undone) + trace && Distinct(trace) && n <= |trace|
      ensures Lists(trace[..n], old(pri0.Keys)) && Lists(trace[n..], old(pri1.Keys))
    {
      ghost var first := UndoAllOf(pri0);
      pri0 := map[];
      ghost var second := UndoAllOf(pri1);
      pri1 := map[];
      trace, n := first + second, |first|;
      ListsConcat(first, second, old(pri0.Keys), old(pri1.Keys));
      assert trace[..n] == first && trace[n..] == second;
      MergeAssoc(old(mem), Origs(old(pri0)), Origs(old(pri1)));
    }
  }

  lemma MergeAssoc(a: map<nat, nat>, b: map<nat, nat>, c: map<nat, nat>)
    ensures (a + b) + c == a + (b + c)
  {
  }
}
