/** Which cell a concurrent update of the callee counter is counted in.

A thread reads curr->next for each test of its pair, to decide, and again when it
counts.  The link of curr changes exactly when a thread inserts there, so the
count goes to another pair exactly when, since the visit of curr began, the last
insertion after curr was for another pair. */
module CalleeDiversion {
  import opened Wrappers
  import opened CalleeSpec
  import opened CalleeThreads

  ghost predicate Sized(s: System) {
    |s.done| == |s.carries| == |s.dropped| == NUM_BINS
  }

  // The event links a new cell in after cell c.
  ghost predicate InsertsAt(s: System, e: Event, c: nat) {
    && e.Go? && e.tid in s.threads && s.threads[e.tid].Active?
    && s.threads[e.tid].pc == Insert && s.threads[e.tid].curr == c && s.freePos < NUM_TOTAL - 1
  }

  // The pair of the last cell linked in after c during a run, if any.
  ghost function LastInserted(s: System, evs: seq<Event>, c: nat): Option<Pair>
    requires Sized(s)
    decreases |evs|
  {
    if evs == [] || Step(s, evs[0]).Crash? then None
    else
      var later := LastInserted(Step(s, evs[0]).s, evs[1..], c);
      if later.Some? then later
      else if InsertsAt(s, evs[0], c) then Some((s.threads[evs[0].tid].site, s.threads[evs[0].tid].callee))
      else None
  }

  // ------------------------------------------------------------ links over runs

  // One step relinks cell c exactly when it inserts there, and changes the pair
  // of no used cell.
  lemma LinkStep(s: System, paths: seq<seq<nat>>, e: Event, c: nat, s1: System)
    requires Inv(s, paths) && c <= s.freePos && Step(s, e) == Ok(s1)
    ensures |s1.cells| == NUM_TOTAL && s.freePos <= s1.freePos < NUM_TOTAL
    ensures PairOf(s1.cells[c]) == PairOf(s.cells[c])
    ensures if InsertsAt(s, e, c)
            then s1.cells[c].next == s1.freePos == s.freePos + 1
                 && PairOf(s1.cells[s1.freePos]) == (s.threads[e.tid].site, s.threads[e.tid].callee)
            else s1.cells[c].next == s.cells[c].next
  {
    if e.Go? && e.tid in s.threads && s.threads[e.tid].Active? {
      var t := s.threads[e.tid];
      assert Standing(s.cells, paths, t);
      if t.pc == Insert {
        if s.freePos < NUM_TOTAL - 1 { AppendLinks(s.cells, s.freePos, t.curr, t.site, t.callee, c); }
      } else if t.pc == Increment {
        BumpLinks(s.cells, s.cells[t.curr].next, c);
      }
    }
  }

  lemma AppendLinks(cells: seq<Cell>, freePos: nat, curr: nat, site: nat, callee: nat, c: nat)
    requires freePos + 1 < |cells| && curr < |cells| && c <= freePos
    ensures var cells' := Append(cells, freePos, curr, site, callee);
            && PairOf(cells'[c]) == PairOf(cells[c])
            && cells'[c].next == (if c == curr then freePos + 1 else cells[c].next)
            && (curr <= freePos ==> PairOf(cells'[freePos + 1]) == (site, callee))
  {
  }

  lemma BumpLinks(cells: seq<Cell>, x: int, c: nat)
    requires 0 <= x < |cells| && c < |cells|
    ensures PairOf(Bump(cells, x)[c]) == PairOf(cells[c]) && Bump(cells, x)[c].next == cells[c].next
  {
  }

  // Over any run: with no insertion after it a cell keeps its link; otherwise
  // it leads to a cell handed out since, for the pair inserted last.
  lemma {:induction false} LinkAfter(s: System, paths: seq<seq<nat>>, evs: seq<Event>, c: nat)
    requires Inv(s, paths) && c <= s.freePos
    ensures Run(s, evs).Ok?
    ensures var s' := Run(s, evs).s;
            && |s'.cells| == NUM_TOTAL && s.freePos <= s'.freePos < NUM_TOTAL
            && PairOf(s'.cells[c]) == PairOf(s.cells[c])
            && match LastInserted(s, evs, c)
               case None => s'.cells[c].next == s.cells[c].next
               case Some(p) => s.freePos < s'.cells[c].next <= s'.freePos && PairOf(s'.cells[s'.cells[c].next]) == p
    decreases |evs|
  {
    if evs != [] {
      var paths1 := StepKeepsInv(s, paths, evs[0]);
      var s1 := Step(s, evs[0]).s;
      LinkStep(s, paths, evs[0], c, s1);
      LinkAfter(s1, paths1, evs[1..], c);
      if InsertsAt(s, evs[0], c) { LinkAfter(s1, paths1, evs[1..], s1.freePos); }
    }
  }

  // A cell the thread can follow to is in use.
  lemma UsedLink(s: System, paths: seq<seq<nat>>, t: Thread)
    requires Inv(s, paths) && t.Active? && Standing(s.cells, paths, t)
    ensures t.curr <= s.freePos
    ensures s.cells[t.curr].next != -1 ==> 0 <= s.cells[t.curr].next <= s.freePos
  {
    var k := NextOnPath(s, paths, t);
    assert BinPath(s.cells, s.freePos, Bin(t.site), paths[Bin(t.site)]);
  }

  // ------------------------------------------------------------ the thread

  ghost predicate Others(evs: seq<Event>, t: nat) {
    forall i :: 0 <= i < |evs| ==> evs[i].tid != t
  }

  lemma {:induction false} ThreadStays(s: System, evs: seq<Event>, t: nat)
    requires Sized(s) && Others(evs, t) && t in s.threads && Run(s, evs).Ok?
    ensures t in Run(s, evs).s.threads && Run(s, evs).s.threads[t] == s.threads[t]
    decreases |evs|
  {
    if evs != [] { ThreadStays(Step(s, evs[0]).s, evs[1..], t); }
  }

  // Bumping two different cells gives two different tables.
  lemma BumpTells(cells: seq<Cell>, x: nat, y: nat)
    requires x < |cells| && y < |cells|
    ensures Bump(cells, x) == Bump(cells, y) <==> x == y
  {
    if x != y {
      assert Bump(cells, x)[x].count != cells[x].count;
      assert Bump(cells, y)[x].count == cells[x].count;
    }
  }

  // The thread's count, from the state s in which it decided to count the cell x
  // after curr, after a run of others to s': it goes to x if and only if nothing
  // was inserted after curr in between.
  lemma CountsFoundIff(s: System, paths: seq<seq<nat>>, t: nat, evs: seq<Event>, s': System)
    requires Inv(s, paths) && t in s.threads && s.threads[t].Active? && s.threads[t].pc == Increment && Others(evs, t)
    requires Run(s, evs) == Ok(s')
    ensures s.threads[t].curr < |s.cells| && Sized(s') && Step(s', Go(t)).Ok?
    ensures var x := s.cells[s.threads[t].curr].next;
            && 0 <= x < |s'.cells|
            && (Step(s', Go(t)).s.cells == Bump(s'.cells, x) <==> LastInserted(s, evs, s.threads[t].curr).None?)
  {
    var curr := s.threads[t].curr;
    assert Standing(s.cells, paths, s.threads[t]);
    UsedLink(s, paths, s.threads[t]);
    LinkAfter(s, paths, evs, curr);
    ThreadStays(s, evs, t);
    var paths' := RunKeepsInv(s, paths, evs);
    CountGoes(s', paths', t);
    BumpTells(s'.cells, s.cells[curr].next, s'.cells[curr].next);
  }

  // The count itself.
  lemma CountGoes(s: System, paths: seq<seq<nat>>, t: nat)
    requires Inv(s, paths) && t in s.threads && s.threads[t].Active? && s.threads[t].pc == Increment
    ensures s.threads[t].curr < |s.cells| && 0 <= s.cells[s.threads[t].curr].next < |s.cells|
    ensures Step(s, Go(t)).Ok? && Step(s, Go(t)).s.cells == Bump(s.cells, s.cells[s.threads[t].curr].next)
  {
    assert Standing(s.cells, paths, s.threads[t]);
    IncrementKeepsInv(s, paths, t, s.threads[t]);
    UsedLink(s, paths, s.threads[t]);
  }

  lemma {:induction false} RunAppend(s: System, a: seq<Event>, b: seq<Event>)
    requires Sized(s) && Run(s, a).Ok? && Sized(Run(s, a).s)
    ensures Run(s, a + b) == Run(Run(s, a).s, b)
    decreases |a|
  {
    if a == [] {
      assert a + b == b;
    } else {
      assert (a + b)[1..] == a[1..] + b;
      RunAppend(Step(s, a[0]).s, a[1..], b);
    }
  }

  lemma RunThen(s: System, evs: seq<Event>, e: Event, s1: System, s2: System)
    requires Sized(s) && Run(s, evs) == Ok(s1) && Sized(s1) && Step(s1, e) == Ok(s2)
    ensures Run(s, evs + [e]) == Ok(s2)
  {
    RunAppend(s, evs, [e]);
    var one := [e];
    assert one[1..] == [];
  }

  // ------------------------------------------------------------ a visit of a cell

  ghost predicate Updating(s: System, t: nat) {
    t in s.threads && s.threads[t].Active?
  }

  ghost predicate Tests(pc: PC) {
    pc == TestNext || pc == TestSite || pc == TestCallee || pc == Decide
  }

  // Throughout the run thread t is active, and takes no steps but tests.
  ghost predicate Visit(s: System, evs: seq<Event>, t: nat)
    requires Sized(s)
    decreases |evs|
  {
    && t in s.threads && s.threads[t].Active?
    && (evs != [] ==>
          && (evs[0] == Go(t) ==> Tests(s.threads[t].pc))
          && Step(s, evs[0]).Ok? && Sized(Step(s, evs[0]).s) && Visit(Step(s, evs[0]).s, evs[1..], t))
  }

  // The step a thread has come to is the one that the link of its cell calls for.
  ghost predicate Told(cells: seq<Cell>, th: Thread)
    requires th.Active? && th.curr < |cells|
  {
    var x := cells[th.curr].next;
    && -1 <= x < |cells|
    && match th.pc
       case TestNext => true
       case TestSite => x >= 0
       case TestCallee => x >= 0 && cells[x].site == th.site
       case Advance => x >= 0 && PairOf(cells[x]) != (th.site, th.callee)
       case Decide => x == -1 || PairOf(cells[x]) == (th.site, th.callee)
       case Insert => x == -1
       case Increment => x >= 0 && PairOf(cells[x]) == (th.site, th.callee)
  }

  ghost predicate SameUpdate(a: Thread, b: Thread) {
    a.Active? && b.Active? && (a.site, a.callee, a.curr) == (b.site, b.callee, b.curr)
  }

  // The thread's own tests tell the truth,
  lemma ToldTest(s: System, paths: seq<seq<nat>>, t: nat, s1: System)
    requires Inv(s, paths) && Updating(s, t) && Tests(s.threads[t].pc) && Step(s, Go(t)) == Ok(s1)
    ensures Updating(s1, t) && SameUpdate(s.threads[t], s1.threads[t]) && s1.cells == s.cells
    ensures s.threads[t].curr <= s.freePos < |s.cells|
    ensures Told(s.cells, s.threads[t]) ==> Told(s1.cells, s1.threads[t])
  {
    assert Standing(s.cells, paths, s.threads[t]);
    UsedLink(s, paths, s.threads[t]);
  }

  // and stay true until something is inserted after its cell.
  lemma ToldOther(s: System, paths: seq<seq<nat>>, e: Event, th: Thread, s1: System)
    requires Inv(s, paths) && th.Active? && Standing(s.cells, paths, th) && Step(s, e) == Ok(s1)
    ensures th.curr <= s.freePos < |s.cells| == |s1.cells|
    ensures Told(s.cells, th) && !InsertsAt(s, e, th.curr) ==> Told(s1.cells, th)
  {
    UsedLink(s, paths, th);
    LinkStep(s, paths, e, th.curr, s1);
    if s.cells[th.curr].next != -1 { LinkStep(s, paths, e, s.cells[th.curr].next, s1); }
  }

  lemma ThreadKept(s: System, e: Event, t: nat, s1: System)
    requires Sized(s) && Updating(s, t) && e != Go(t) && Step(s, e) == Ok(s1)
    ensures t in s1.threads && s1.threads[t] == s.threads[t]
  {
  }

  lemma ToldStep(s: System, paths: seq<seq<nat>>, e: Event, t: nat, s1: System)
    requires Inv(s, paths) && Updating(s, t) && Step(s, e) == Ok(s1) && (e == Go(t) ==> Tests(s.threads[t].pc))
    ensures Updating(s1, t) && SameUpdate(s.threads[t], s1.threads[t])
    ensures s.threads[t].curr <= s.freePos < |s.cells| == |s1.cells|
    ensures Told(s.cells, s.threads[t]) && !InsertsAt(s, e, s.threads[t].curr) ==> Told(s1.cells, s1.threads[t])
  {
    if e == Go(t) {
      ToldTest(s, paths, t, s1);
    } else {
      ThreadKept(s, e, t, s1);
      assert Standing(s.cells, paths, s.threads[t]);
      ToldOther(s, paths, e, s.threads[t], s1);
    }
  }

  lemma {:induction false} VisitTold(s: System, paths: seq<seq<nat>>, evs: seq<Event>, t: nat, s': System)
    requires Inv(s, paths) && Visit(s, evs, t) && Run(s, evs) == Ok(s')
    ensures t in s'.threads && SameUpdate(s.threads[t], s'.threads[t])
    ensures s.threads[t].curr <= s.freePos && s.threads[t].curr < |s.cells| == |s'.cells|
    ensures Told(s.cells, s.threads[t]) && LastInserted(s, evs, s.threads[t].curr).None? ==> Told(s'.cells, s'.threads[t])
    decreases |evs|
  {
    if evs == [] {
      assert Standing(s.cells, paths, s.threads[t]);
      UsedLink(s, paths, s.threads[t]);
    } else {
      var s1 := Step(s, evs[0]).s;
      ToldStep(s, paths, evs[0], t, s1);
      var paths1 := StepKeepsInv(s, paths, evs[0]);
      VisitTold(s1, paths1, evs[1..], t, s');
    }
  }

  // A visit of curr from the test for its end to the count, under any
  // interleaving: the count goes to the cell y then after curr.  That is the cell
  // after curr at the start exactly when no thread inserted there meanwhile, and
  // one of the thread's own pair exactly when none did or the last one inserted
  // that pair.
  lemma VisitCountsIff(s: System, paths: seq<seq<nat>>, evs: seq<Event>, t: nat, s': System)
    requires Inv(s, paths) && Visit(s, evs, t) && s.threads[t].pc == TestNext
    requires Run(s, evs) == Ok(s') && t in s'.threads && s'.threads[t].Active? && s'.threads[t].pc == Increment
    ensures Sized(s') && Step(s', Go(t)).Ok? && s.threads[t].curr < |s.cells| == |s'.cells|
    ensures var own, curr := (s.threads[t].site, s.threads[t].callee), s.threads[t].curr;
            var y, last := s'.cells[curr].next, LastInserted(s, evs, curr);
            && 0 <= y < |s'.cells| && Step(s', Go(t)).s.cells == Bump(s'.cells, y)
            && (y == s.cells[curr].next <==> last.None?)
            && (PairOf(s'.cells[y]) == own <==> last.None? || last == Some(own))
  {
    var th := s.threads[t];
    assert Standing(s.cells, paths, th);
    UsedLink(s, paths, th);
    VisitTold(s, paths, evs, t, s');
    LinkAfter(s, paths, evs, th.curr);
    var paths' := RunKeepsInv(s, paths, evs);
    CountGoes(s', paths', t);
  }

  // A visit that ends in an insertion records the thread's own pair, or drops the
  // update when no cell is left.
  lemma VisitInserts(s: System, paths: seq<seq<nat>>, t: nat)
    requires Inv(s, paths) && t in s.threads && s.threads[t].Active? && s.threads[t].pc == Insert
    ensures Step(s, Go(t)).Ok?
    ensures var s', th := Step(s, Go(t)).s, s.threads[t];
            if s.freePos < NUM_TOTAL - 1
            then s'.freePos == s.freePos + 1 < |s'.cells| && PairOf(s'.cells[s'.freePos]) == (th.site, th.callee)
                 && s'.cells[s'.freePos].count == 1 && s'.cells[th.curr].next == s'.freePos
            else s'.cells == s.cells
  {
    var th := s.threads[t];
    assert Standing(s.cells, paths, th);
    UsedLink(s, paths, th);
    if s.freePos < NUM_TOTAL - 1 { AppendLinks(s.cells, s.freePos, th.curr, th.site, th.callee, th.curr); }
  }

  // ------------------------------------------------------------ whole updates

  lemma {:induction false} VisitThen(s: System, evs: seq<Event>, t: nat, s1: System, e: Event)
    requires Sized(s) && Visit(s, evs, t) && Run(s, evs) == Ok(s1) && Sized(s1)
    requires t in s1.threads && s1.threads[t].Active? && (e == Go(t) ==> Tests(s1.threads[t].pc))
    requires Step(s1, e).Ok? && Sized(Step(s1, e).s)
    requires t in Step(s1, e).s.threads && Step(s1, e).s.threads[t].Active?
    ensures Visit(s, evs + [e], t)
    decreases |evs|
  {
    var all := evs + [e];
    if evs == [] {
      assert all == [e] && all[1..] == [];
    } else {
      assert all[1..] == evs[1..] + [e];
      VisitThen(Step(s, evs[0]).s, evs[1..], t, s1, e);
    }
  }

  // From event n on the thread has been on its present visit.
  ghost predicate VisitSince(s: System, evs: seq<Event>, t: nat, n: nat)
    requires Sized(s)
  {
    && n <= |evs| && Run(s, evs[..n]).Ok?
    && var s0 := Run(s, evs[..n]).s;
       Sized(s0) && Updating(s0, t) && s0.threads[t].pc == TestNext && Visit(s0, evs[n..], t)
  }

  lemma SinceNow(s: System, evs: seq<Event>, t: nat, s': System)
    requires Sized(s) && Run(s, evs) == Ok(s') && Sized(s') && Updating(s', t) && s'.threads[t].pc == TestNext
    ensures VisitSince(s, evs, t, |evs|)
  {
    assert evs[..|evs|] == evs && evs[|evs|..] == [];
  }

  lemma SinceThen(s: System, evs: seq<Event>, t: nat, n: nat, s1: System, e: Event)
    requires Sized(s) && VisitSince(s, evs, t, n) && Run(s, evs) == Ok(s1) && Sized(s1)
    requires Updating(s1, t) && (e == Go(t) ==> Tests(s1.threads[t].pc))
    requires Step(s1, e).Ok? && Sized(Step(s1, e).s) && Updating(Step(s1, e).s, t)
    ensures VisitSince(s, evs + [e], t, n)
  {
    SplitThen(evs, n, e);
    RunAppend(s, evs[..n], evs[n..]);
    VisitThen(Run(s, evs[..n]).s, evs[n..], t, s1, e);
  }

  lemma SplitThen(evs: seq<Event>, n: nat, e: Event)
    requires n <= |evs|
    ensures (evs + [e])[..n] == evs[..n] && (evs + [e])[n..] == evs[n..] + [e] && evs[..n] + evs[n..] == evs
  {
  }

  // An event that brings the thread into an update, or on to the next cell, brings
  // it to the test for the end.
  lemma StartsVisit(s: System, e: Event, t: nat, s1: System)
    requires Sized(s) && Step(s, e) == Ok(s1) && Updating(s1, t)
    requires Updating(s, t) ==> e == Go(t) && !Tests(s.threads[t].pc)
    ensures s1.threads[t].pc == TestNext
  {
  }

  // A thread in the middle of an update is on some visit, since some event.
  lemma {:induction false} LastVisit(s: System, paths: seq<seq<nat>>, evs: seq<Event>, t: nat, s': System)
    returns (n: nat)
    requires Inv(s, paths) && !Updating(s, t) && Run(s, evs) == Ok(s') && Updating(s', t)
    ensures VisitSince(s, evs, t, n)
    decreases |evs|, 0
  {
    var k := |evs| - 1;
    var before, e := evs[..k], evs[k];
    assert evs == before + [e];
    var paths1 := RunKeepsInv(s, paths, before);
    var s1 := Run(s, before).s;
    var paths2 := StepKeepsInv(s1, paths1, e);
    RunThen(s, before, e, s1, Step(s1, e).s);
    n := VisitNow(s, paths, before, e, t, s1, s');
  }

  lemma {:induction false} VisitNow(s: System, paths: seq<seq<nat>>, evs: seq<Event>, e: Event, t: nat,
                                    s1: System, s': System)
    returns (n: nat)
    requires Inv(s, paths) && !Updating(s, t) && Run(s, evs) == Ok(s1) && Sized(s1)
    requires Step(s1, e) == Ok(s') && Sized(s') && Updating(s', t)
    ensures VisitSince(s, evs + [e], t, n)
    decreases |evs|, 1
  {
    if Updating(s1, t) && (e == Go(t) ==> Tests(s1.threads[t].pc)) {
      n := LastVisit(s, paths, evs, t, s1);
      SinceThen(s, evs, t, n, s1, e);
    } else {
      n := |evs + [e]|;
      StartsVisit(s1, e, t, s');
      RunThen(s, evs, e, s1, s');
      SinceNow(s, evs + [e], t, s');
    }
  }

  // From a state in which the thread is between updates, as at reset, after any
  // interleaving in which it has come to its count: its present visit began with
  // event n, and the count goes to a cell of its own pair if and only if, since
  // then, no thread inserted after the cell visited or the last one to do so
  // inserted that pair.
  lemma CountsOwnIff(s: System, paths: seq<seq<nat>>, evs: seq<Event>, t: nat, s': System) returns (n: nat)
    requires Inv(s, paths) && !Updating(s, t)
    requires Run(s, evs) == Ok(s') && Updating(s', t) && s'.threads[t].pc == Increment
    ensures VisitSince(s, evs, t, n) && Sized(s') && Step(s', Go(t)).Ok? && s'.threads[t].curr < |s'.cells|
    ensures var own, curr := (s'.threads[t].site, s'.threads[t].callee), s'.threads[t].curr;
            var y, last := s'.cells[curr].next, LastInserted(Run(s, evs[..n]).s, evs[n..], curr);
            && 0 <= y < |s'.cells| && Step(s', Go(t)).s.cells == Bump(s'.cells, y)
            && (PairOf(s'.cells[y]) == own <==> last.None? || last == Some(own))
  {
    n := LastVisit(s, paths, evs, t, s');
    var paths0 := RunKeepsInv(s, paths, evs[..n]);
    var s0 := Run(s, evs[..n]).s;
    assert evs[..n] + evs[n..] == evs;
    RunAppend(s, evs[..n], evs[n..]);
    VisitTold(s0, paths0, evs[n..], t, s');
    VisitCountsIff(s0, paths0, evs[n..], t, s');
  }

  // ------------------------------------------------------------ miscounts from reset

  // The pairs updates were begun for.
  ghost function Begun(evs: seq<Event>): seq<Pair> {
    if evs == [] then []
    else
      var n := |evs| - 1;
      Begun(evs[..n]) + match evs[n] case Begin(_, site, callee) => [(site, callee)] case Go(_) => []
  }

  // A run from s, event by event.
  ghost predicate Reaches(s: System, evs: seq<Event>, s': System)
    requires Sized(s)
  {
    Sized(s') && Run(s, evs) == Ok(s')
  }

  lemma Extend(s: System, evs: seq<Event>, s1: System, e: Event) returns (evs': seq<Event>, s2: System)
    requires Sized(s) && Reaches(s, evs, s1) && Step(s1, e).Ok? && Sized(Step(s1, e).s)
    ensures s2 == Step(s1, e).s && Reaches(s, evs', s2)
    ensures Begun(evs') == if e.Begin? then Begun(evs) + [(e.site, e.callee)] else Begun(evs)
  {
    evs', s2 := evs + [e], Step(s1, e).s;
    assert evs'[..|evs|] == evs;
    RunThen(s, evs, e, s1, s2);
  }

  // Thread u finds the chain of its site's bin empty and is about to insert.
  lemma AboutToInsert(s: System, evs: seq<Event>, s1: System, u: nat, site: nat, callee: nat)
    returns (evs': seq<Event>, s': System)
    requires Sized(s) && Reaches(s, evs, s1) && |s1.cells| == NUM_TOTAL && s1.cells[Bin(site)].next == -1
    requires u !in s1.threads
    ensures Reaches(s, evs', s') && Begun(evs') == Begun(evs) + [(site, callee)]
    ensures s' == s1.(threads := s1.threads[u := Active(Insert, site, callee, Bin(site))])
  {
    evs', s' := Extend(s, evs, s1, Begin(u, site, callee));
    evs', s' := Extend(s, evs', s', Go(u));
    evs', s' := Extend(s, evs', s', Go(u));
    assert s'.threads == s1.threads[u := Active(Insert, site, callee, Bin(site))];
  }

  // Thread t finds its pair in the first cell of the chain
  lemma Matches(s: System, evs: seq<Event>, s1: System, t: nat, site: nat, callee: nat)
    returns (evs': seq<Event>, s': System)
    requires Sized(s) && Reaches(s, evs, s1) && |s1.cells| == NUM_TOTAL && t !in s1.threads
    requires 0 <= s1.cells[Bin(site)].next < NUM_TOTAL && s1.cells[s1.cells[Bin(site)].next].site == site
    ensures Reaches(s, evs', s') && Begun(evs') == Begun(evs) + [(site, callee)]
    ensures s' == s1.(threads := s1.threads[t := Active(TestCallee, site, callee, Bin(site))])
  {
    evs', s' := Extend(s, evs, s1, Begin(t, site, callee));
    evs', s' := Extend(s, evs', s', Go(t));
    evs', s' := Extend(s, evs', s', Go(t));
    assert s'.threads == s1.threads[t := Active(TestCallee, site, callee, Bin(site))];
  }

  // and is about to count.
  lemma AboutToCount(s: System, evs: seq<Event>, s1: System, t: nat, site: nat, callee: nat)
    returns (evs': seq<Event>, s': System)
    requires Sized(s) && Reaches(s, evs, s1) && |s1.cells| == NUM_TOTAL && t !in s1.threads
    requires 0 <= s1.cells[Bin(site)].next < NUM_TOTAL && PairOf(s1.cells[s1.cells[Bin(site)].next]) == (site, callee)
    ensures Reaches(s, evs', s') && Begun(evs') == Begun(evs) + [(site, callee)]
    ensures s' == s1.(threads := s1.threads[t := Active(Increment, site, callee, Bin(site))])
  {
    evs', s' := Matches(s, evs, s1, t, site, callee);
    evs', s' := Extend(s, evs', s', Go(t));
    evs', s' := Extend(s, evs', s', Go(t));
    assert s'.threads == s1.threads[t := Active(Increment, site, callee, Bin(site))];
  }

  // Thread v inserts at the front of the chain.
  lemma InsertsInFront(s: System, evs: seq<Event>, s1: System, v: nat, site: nat, callee: nat)
    returns (evs': seq<Event>, s': System)
    requires Sized(s) && Reaches(s, evs, s1) && |s1.cells| == NUM_TOTAL && s1.freePos < NUM_TOTAL - 1
    requires v in s1.threads && s1.threads[v] == Active(Insert, site, callee, Bin(site))
    ensures Reaches(s, evs', s') && Begun(evs') == Begun(evs)
    ensures s'.cells == Append(s1.cells, s1.freePos, Bin(site), site, callee) && s'.freePos == s1.freePos + 1
    ensures s'.threads == s1.threads[v := Idle] && s'.done == Tally(s1.done, Bin(site))
  {
    evs', s' := Extend(s, evs, s1, Go(v));
  }

  // Two threads find one chain empty; v inserts and u is about to.
  lemma OneInserted(s: System, other: nat, a: nat, site: nat, b: nat, u: nat, v: nat)
    returns (evs: seq<Event>, s': System)
    requires IsReset(s) && Bin(site) == Bin(other) && u != v
    ensures Sized(s) && Reaches(s, evs, s') && Begun(evs) == [(other, a), (site, b)]
    ensures s'.cells == Append(s.cells, NUM_BINS, Bin(site), site, b) && s'.freePos == NUM_BINS + 1
    ensures s'.threads == map[u := Active(Insert, other, a, Bin(other)), v := Idle]
  {
    evs, s' := AboutToInsert(s, [], s, u, other, a);
    evs, s' := AboutToInsert(s, evs, s', v, site, b);
    evs, s' := InsertsInFront(s, evs, s', v, site, b);
  }

  // From reset, for every site and any two callees, three updates, one of (site, a)
  // and two of (site, b), can leave (site, a) with two calls and (site, b) with
  // one: u is about to insert (site, a), v inserts (site, b), t finds it and is
  // about to count, u inserts in front of it, and t counts there.
  lemma MiscountPossible(s: System, site: nat, a: nat, b: nat, t: nat, u: nat, v: nat)
    returns (evs: seq<Event>, s': System)
    requires IsReset(s) && a != b && t != u && u != v && v != t
    ensures Run(s, evs) == Ok(s') && Begun(evs) == [(site, a), (site, b), (site, b)]
    ensures s'.threads == map[t := Idle, u := Idle, v := Idle]
    ensures |s'.cells| == NUM_TOTAL && s'.freePos == NUM_BINS + 2
    ensures PairOf(s'.cells[NUM_BINS + 1]) == (site, b) && s'.cells[NUM_BINS + 1].count == 1
    ensures PairOf(s'.cells[NUM_BINS + 2]) == (site, a) && s'.cells[NUM_BINS + 2].count == 2
  {
    evs, s' := OneInserted(s, site, a, site, b, u, v);
    evs, s' := AboutToCount(s, evs, s', t, site, b);
    evs, s' := InsertsInFront(s, evs, s', u, site, a);
    assert s'.cells[Bin(site)].next == NUM_BINS + 2;
    evs, s' := Extend(s, evs, s', Go(t));
  }

  // A thread about to decide counts the cell there is.
  lemma DecidesToCount(s: System, evs: seq<Event>, s1: System, t: nat, site: nat, callee: nat)
    returns (evs': seq<Event>, s': System)
    requires Sized(s) && Reaches(s, evs, s1) && |s1.cells| == NUM_TOTAL
    requires t in s1.threads && s1.threads[t] == Active(Decide, site, callee, Bin(site))
    requires 0 <= s1.cells[Bin(site)].next < NUM_TOTAL
    ensures Reaches(s, evs', s') && Begun(evs') == Begun(evs) && s'.freePos == s1.freePos
    ensures s'.cells == Bump(s1.cells, s1.cells[Bin(site)].next) && s'.threads == s1.threads[t := Idle]
  {
    evs', s' := Extend(s, evs, s1, Go(t));
    evs', s' := Extend(s, evs', s', Go(t));
    assert s'.threads == s1.threads[t := Idle];
  }

  // Thread u finds the chain of its site's bin empty and is about to decide.
  lemma FindsNone(s: System, u: nat, site: nat, callee: nat) returns (evs: seq<Event>, s': System)
    requires IsReset(s)
    ensures Sized(s) && Reaches(s, evs, s') && Begun(evs) == [(site, callee)]
    ensures s' == s.(threads := map[u := Active(Decide, site, callee, Bin(site))])
  {
    evs, s' := Extend(s, [], s, Begin(u, site, callee));
    evs, s' := Extend(s, evs, s', Go(u));
    assert s'.threads == map[u := Active(Decide, site, callee, Bin(site))];
  }

  // Then v inserts.
  lemma InsertedMeanwhile(s: System, site: nat, a: nat, b: nat, u: nat, v: nat) returns (evs: seq<Event>, s': System)
    requires IsReset(s) && u != v
    ensures Sized(s) && Reaches(s, evs, s') && Begun(evs) == [(site, a), (site, b)]
    ensures s'.cells == Append(s.cells, NUM_BINS, Bin(site), site, b) && s'.freePos == NUM_BINS + 1
    ensures s'.threads == map[u := Active(Decide, site, a, Bin(site)), v := Idle]
  {
    evs, s' := FindsNone(s, u, site, a);
    evs, s' := AboutToInsert(s, evs, s', v, site, b);
    evs, s' := InsertsInFront(s, evs, s', v, site, b);
  }

  // Nor need a thread have found anything: u finds the chain empty, v inserts
  // (site, b), and u, seeing a cell after all, counts there.  (site, a) has no cell
  // although cells are left.
  lemma NullMiscount(s: System, site: nat, a: nat, b: nat, u: nat, v: nat) returns (evs: seq<Event>, s': System)
    requires IsReset(s) && a != b && u != v
    ensures Run(s, evs) == Ok(s') && Begun(evs) == [(site, a), (site, b)]
    ensures s'.threads == map[u := Idle, v := Idle]
    ensures |s'.cells| == NUM_TOTAL && s'.freePos == NUM_BINS + 1
    ensures PairOf(s'.cells[NUM_BINS + 1]) == (site, b) && s'.cells[NUM_BINS + 1].count == 2
  {
    evs, s' := InsertedMeanwhile(s, site, a, b, u, v);
    evs, s' := DecidesToCount(s, evs, s', u, site, a);
  }

  // Two sites of one bin: t finds its site in one cell and its callee in another,
  // inserted in between by u, and counts there.  Neither is of its pair.
  lemma MixedMiscount(s: System, site: nat, other: nat, a: nat, b: nat, t: nat, u: nat, v: nat)
    returns (evs: seq<Event>, s': System)
    requires IsReset(s) && a != b && site != other && Bin(site) == Bin(other) && t != u && u != v && v != t
    ensures Run(s, evs) == Ok(s') && Begun(evs) == [(other, a), (site, b), (site, a)]
    ensures s'.threads == map[t := Idle, u := Idle, v := Idle]
    ensures |s'.cells| == NUM_TOTAL && s'.freePos == NUM_BINS + 2
    ensures PairOf(s'.cells[NUM_BINS + 1]) == (site, b) && s'.cells[NUM_BINS + 1].count == 1
    ensures PairOf(s'.cells[NUM_BINS + 2]) == (other, a) && s'.cells[NUM_BINS + 2].count == 2
  {
    evs, s' := OneInserted(s, other, a, site, b, u, v);
    evs, s' := Matches(s, evs, s', t, site, a);
    evs, s' := InsertsInFront(s, evs, s', u, other, a);
    evs, s' := Extend(s, evs, s', Go(t));
    evs, s' := DecidesToCount(s, evs, s', t, site, a);
  }
}
