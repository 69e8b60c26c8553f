/** The callee counter under concurrent updates.  A thread's update is cut into
the reads and the locked sections of the code; any thread may take its next
step at any time.  A step that follows a NULL or wild pointer crashes. */
module CalleeThreads {
  import opened Arith
  import opened Wrappers
  import opened CalleeSpec

  datatype PC =
    | TestNext     // while: curr->next != NULL
    | TestSite     // while: curr->next->site_addr != site
    | TestCallee   // while: curr->next->callee_addr != callee
    | Advance      // locked: curr = curr->next
    | Decide       // if: curr->next == NULL
    | Insert       // locked: take a cell and link it after curr
    | Increment    // locked: curr->next->call_count++

  datatype Thread = Idle | Active(pc: PC, site: nat, callee: nat, curr: nat)

  datatype System = System(
    cells: seq<Cell>,
    freePos: nat,
    threads: map<nat, Thread>,
    done: seq<nat>,       // per bin: updates completed and not dropped
    carries: seq<nat>,    // per bin: how often a 32-bit count wrapped
    dropped: seq<nat>)    // per bin: updates given up for lack of a cell

  datatype Event = Begin(tid: nat, site: nat, callee: nat) | Go(tid: nat)

  datatype Result = Crash | Ok(s: System)

  function Goto(s: System, tid: nat, t: Thread, pc: PC): Result
    requires t.Active?
  {
    Ok(s.(threads := s.threads[tid := t.(pc := pc)]))
  }

  // One more for bin b.
  function Tally(counts: seq<nat>, b: nat): seq<nat>
    requires b < |counts|
  {
    counts[b := counts[b] + 1]
  }

  function StepThread(s: System, tid: nat, t: Thread): Result
    requires t.Active? && |s.done| == |s.carries| == |s.dropped| == NUM_BINS
  {
    if t.curr >= |s.cells| then Crash
    else
      var next := s.cells[t.curr].next;
      var wild := !(0 <= next < |s.cells|);
      match t.pc
      case TestNext => Goto(s, tid, t, if next == -1 then Decide else TestSite)
      case TestSite =>
        if wild then Crash else Goto(s, tid, t, if s.cells[next].site != t.site then Advance else TestCallee)
      case TestCallee =>
        if wild then Crash else Goto(s, tid, t, if s.cells[next].callee != t.callee then Advance else Decide)
      case Advance =>
        if wild then Crash else Ok(s.(threads := s.threads[tid := Active(TestNext, t.site, t.callee, next)]))
      case Decide => Goto(s, tid, t, if next == -1 then Insert else Increment)
      case Insert =>
        var threads := s.threads[tid := Idle];
        if s.freePos >= NUM_TOTAL - 1 then Ok(s.(threads := threads, dropped := Tally(s.dropped, Bin(t.site))))
        else if s.freePos + 1 >= |s.cells| then Crash
        else
          Ok(System(Append(s.cells, s.freePos, t.curr, t.site, t.callee), s.freePos + 1, threads,
                    Tally(s.done, Bin(t.site)), s.carries, s.dropped))
      case Increment =>
        if wild then Crash
        else
          var carries := s.carries[Bin(t.site) := s.carries[Bin(t.site)] + (s.cells[next].count + 1) / P32];
          Ok(System(Bump(s.cells, next), s.freePos, s.threads[tid := Idle],
                    Tally(s.done, Bin(t.site)), carries, s.dropped))
  }

  function Step(s: System, e: Event): Result
    requires |s.done| == |s.carries| == |s.dropped| == NUM_BINS
  {
    match e
    case Begin(tid, site, callee) =>
      if tid in s.threads && s.threads[tid].Active? then Ok(s)
      else Ok(s.(threads := s.threads[tid := Active(TestNext, site, callee, Bin(site))]))
    case Go(tid) =>
      if tid in s.threads && s.threads[tid].Active? then StepThread(s, tid, s.threads[tid]) else Ok(s)
  }

  // ------------------------------------------------------------ invariant

  // The steps that follow curr->next.
  predicate Follower(pc: PC) {
    pc == TestSite || pc == TestCallee || pc == Advance || pc == Increment
  }

  // A thread stands on the path of its site's bin, and before a step that
  // follows curr->next there is a next cell.
  ghost predicate Standing(cells: seq<Cell>, paths: seq<seq<nat>>, t: Thread)
    requires |cells| == NUM_TOTAL && |paths| == NUM_BINS
  {
    t.Active? ==>
      && t.curr < NUM_TOTAL && t.curr in paths[Bin(t.site)]
      && (Follower(t.pc) ==> cells[t.curr].next != -1)
  }

  ghost predicate AllStanding(cells: seq<Cell>, paths: seq<seq<nat>>, threads: map<nat, Thread>)
    requires |cells| == NUM_TOTAL && |paths| == NUM_BINS
  {
    forall tid :: tid in threads ==> Standing(cells, paths, threads[tid])
  }

  // The counts on each path and what their wrap-arounds lost add up to the
  // updates completed for the bin.
  ghost predicate Balanced(cells: seq<Cell>, freePos: nat, paths: seq<seq<nat>>, done: seq<nat>, carries: seq<nat>)
    requires Table(cells, freePos, paths) && |done| == |carries| == NUM_BINS
  {
    forall b :: 0 <= b < NUM_BINS ==> done[b] == PathSum(cells, paths[b]) + P32 * carries[b]
  }

  ghost predicate Inv(s: System, paths: seq<seq<nat>>) {
    && Table(s.cells, s.freePos, paths)
    && |s.done| == |s.carries| == |s.dropped| == NUM_BINS
    && Balanced(s.cells, s.freePos, paths, s.done, s.carries)
    && AllStanding(s.cells, paths, s.threads)
  }

  lemma FollowsAt(cells: seq<Cell>, p: seq<nat>, k: nat)
    requires Follows(cells, p) && k < |p|
    ensures p[k] < |cells| && cells[p[k]].next == if k + 1 < |p| then p[k + 1] else -1
  {
  }

  lemma NextOnPath(s: System, paths: seq<seq<nat>>, t: Thread) returns (k: nat)
    requires Inv(s, paths) && t.Active? && Standing(s.cells, paths, t)
    ensures k < |paths[Bin(t.site)]| && paths[Bin(t.site)][k] == t.curr
    ensures var p, next := paths[Bin(t.site)], s.cells[t.curr].next;
            next != -1 ==> k + 1 < |p| && p[k + 1] == next && next in p && 0 <= next < NUM_TOTAL
  {
    var p := paths[Bin(t.site)];
    k :| 0 <= k < |p| && p[k] == t.curr;
    assert BinPath(s.cells, s.freePos, Bin(t.site), p);
    FollowsAt(s.cells, p, k);
  }

  lemma StandingInsert(s: System, paths: seq<seq<nat>>, k: nat, site: nat, callee: nat, cells': seq<Cell>,
                       paths': seq<seq<nat>>, u: Thread)
    requires Table(s.cells, s.freePos, paths) && s.freePos + 1 < NUM_TOTAL && k < |paths[Bin(site)]|
    requires paths[Bin(site)][k] <= s.freePos && Standing(s.cells, paths, u)
    requires paths' == paths[Bin(site) := InsertAt(paths[Bin(site)], k, s.freePos + 1)]
    requires cells' == Append(s.cells, s.freePos, paths[Bin(site)][k], site, callee)
    ensures Standing(cells', paths', u)
  {
    if u.Active? {
      assert BinPath(s.cells, s.freePos, Bin(u.site), paths[Bin(u.site)]);
      NextKept(s.cells, s.freePos, paths[Bin(site)][k], site, callee, u.curr);
      if Bin(u.site) == Bin(site) { InsertKeeps(paths[Bin(site)], k, s.freePos + 1, u.curr); }
    }
  }

  lemma NextKept(cells: seq<Cell>, freePos: nat, curr: nat, site: nat, callee: nat, c: nat)
    requires freePos + 1 < |cells| && curr < |cells| && c <= freePos
    ensures cells[c].next != -1 ==> Append(cells, freePos, curr, site, callee)[c].next != -1
  {
  }

  // Inserting keeps every thread standing.
  lemma StandingAppend(s: System, paths: seq<seq<nat>>, k: nat, site: nat, callee: nat, cells': seq<Cell>, paths': seq<seq<nat>>)
    requires Inv(s, paths) && s.freePos + 1 < NUM_TOTAL && k < |paths[Bin(site)]|
    requires paths' == paths[Bin(site) := InsertAt(paths[Bin(site)], k, s.freePos + 1)]
    requires cells' == Append(s.cells, s.freePos, paths[Bin(site)][k], site, callee)
    ensures AllStanding(cells', paths', s.threads)
  {
    forall tid | tid in s.threads ensures Standing(cells', paths', s.threads[tid]) {
      StandingInsert(s, paths, k, site, callee, cells', paths', s.threads[tid]);
    }
  }

  lemma StandingIdle(cells: seq<Cell>, paths: seq<seq<nat>>, threads: map<nat, Thread>, tid: nat, t: Thread)
    requires |cells| == NUM_TOTAL && |paths| == NUM_BINS && AllStanding(cells, paths, threads)
    requires Standing(cells, paths, t)
    ensures AllStanding(cells, paths, threads[tid := t])
  {
  }

  lemma InsertOther(s: System, p: seq<nat>, curr: nat, site: nat, callee: nat)
    requires s.freePos + 1 < |s.cells| && curr < |s.cells| && p != [] && (forall j :: 0 <= j < |p| ==> p[j] <= s.freePos)
    ensures PathSum(Append(s.cells, s.freePos, curr, site, callee), p) == PathSum(s.cells, p)
  {
    AppendSites(s.cells, s.freePos, curr, site, callee);
    SumFrame(s.cells, Append(s.cells, s.freePos, curr, site, callee), p[1..]);
  }

  lemma InsertCounts(s: System, paths: seq<seq<nat>>, k: nat, site: nat, callee: nat, cells': seq<Cell>, paths': seq<seq<nat>>)
    requires Inv(s, paths) && s.freePos + 1 < NUM_TOTAL && k < |paths[Bin(site)]|
    requires paths' == paths[Bin(site) := InsertAt(paths[Bin(site)], k, s.freePos + 1)]
    requires cells' == Append(s.cells, s.freePos, paths[Bin(site)][k], site, callee)
    requires Table(cells', s.freePos + 1, paths')
    ensures Balanced(cells', s.freePos + 1, paths', Tally(s.done, Bin(site)), s.carries)
  {
    var b := Bin(site);
    forall c | 0 <= c < NUM_BINS
      ensures Tally(s.done, b)[c] == PathSum(cells', paths'[c]) + P32 * s.carries[c]
    {
      InsertSum(s, paths, k, site, callee, cells', paths', c);
    }
  }

  lemma InsertSum(s: System, paths: seq<seq<nat>>, k: nat, site: nat, callee: nat, cells': seq<Cell>,
                  paths': seq<seq<nat>>, c: nat)
    requires Table(s.cells, s.freePos, paths) && s.freePos + 1 < NUM_TOTAL && k < |paths[Bin(site)]| && c < NUM_BINS
    requires paths[Bin(site)][k] < NUM_TOTAL
    requires paths' == paths[Bin(site) := InsertAt(paths[Bin(site)], k, s.freePos + 1)]
    requires cells' == Append(s.cells, s.freePos, paths[Bin(site)][k], site, callee)
    requires forall j :: 0 <= j < |paths'[c]| ==> paths'[c][j] < |cells'|
    requires paths'[c] != []
    ensures PathSum(cells', paths'[c]) == PathSum(s.cells, paths[c]) + if c == Bin(site) then 1 else 0
  {
    assert BinPath(s.cells, s.freePos, c, paths[c]);
    if c == Bin(site) { AppendSum(s.cells, s.freePos, paths[c], k, site, callee); }
    else { InsertOther(s, paths[c], paths[Bin(site)][k], site, callee); }
  }

  lemma InsertKeepsInv(s: System, paths: seq<seq<nat>>, tid: nat, t: Thread, s': System) returns (paths': seq<seq<nat>>)
    requires Inv(s, paths) && t.Active? && t.pc == Insert && Standing(s.cells, paths, t)
    requires s.freePos + 1 < NUM_TOTAL && StepThread(s, tid, t) == Ok(s')
    ensures Inv(s', paths')
  {
    var b := Bin(t.site);
    var k := NextOnPath(s, paths, t);
    paths' := paths[b := InsertAt(paths[b], k, s.freePos + 1)];
    assert s'.cells == Append(s.cells, s.freePos, t.curr, t.site, t.callee);
    AppendKeepsTable(s.cells, s.freePos, paths, k, t.site, t.callee, s'.cells, paths');
    InsertCounts(s, paths, k, t.site, t.callee, s'.cells, paths');
    StandingAppend(s, paths, k, t.site, t.callee, s'.cells, paths');
    StandingIdle(s'.cells, paths', s.threads, tid, Idle);
  }

  lemma BumpOwn(s: System, p: seq<nat>, k: nat)
    requires k + 1 < |p| && Distinct(p) && (forall j :: 0 <= j < |p| ==> p[j] < |s.cells|)
    ensures PathSum(Bump(s.cells, p[k + 1]), p) + P32 * ((s.cells[p[k + 1]].count + 1) / P32) == PathSum(s.cells, p) + 1
  {
    var q, next := p[1..], p[k + 1];
    assert q[k] == next;
    SumPut(s.cells, q, k, Bump(s.cells, next)[next]);
  }

  lemma BumpOther(s: System, paths: seq<seq<nat>>, c: nat, b: nat, k: nat)
    requires Inv(s, paths) && c < NUM_BINS && b < NUM_BINS && c != b && k + 1 < |paths[b]|
    requires paths[b][k + 1] < NUM_TOTAL && BinPath(s.cells, s.freePos, c, paths[c])
    ensures PathSum(Bump(s.cells, paths[b][k + 1]), paths[c]) == PathSum(s.cells, paths[c])
  {
    var q, next := paths[c][1..], paths[b][k + 1];
    assert next in paths[b];
    if next in paths[c] { PathsDisjoint(s.cells, s.freePos, paths, b, c, next); }
    forall j | 0 <= j < |q| ensures q[j] != next { assert q[j] == paths[c][j + 1] && paths[c][j + 1] in paths[c]; }
    SumFrame(s.cells, Bump(s.cells, next), q);
  }

  lemma IncrementCounts(s: System, paths: seq<seq<nat>>, b: nat, k: nat, cells': seq<Cell>, carries: seq<nat>)
    requires Inv(s, paths) && b < NUM_BINS && k + 1 < |paths[b]| && paths[b][k + 1] < NUM_TOTAL
    requires cells' == Bump(s.cells, paths[b][k + 1]) && Table(cells', s.freePos, paths)
    requires carries == s.carries[b := s.carries[b] + (s.cells[paths[b][k + 1]].count + 1) / P32]
    ensures Balanced(cells', s.freePos, paths, Tally(s.done, b), carries)
  {
    forall c | 0 <= c < NUM_BINS
      ensures Tally(s.done, b)[c] == PathSum(cells', paths[c]) + P32 * carries[c]
    {
      assert BinPath(s.cells, s.freePos, c, paths[c]);
      if c == b { BumpOwn(s, paths[b], k); } else { BumpOther(s, paths, c, b, k); }
    }
  }

  lemma IncrementKeepsInv(s: System, paths: seq<seq<nat>>, tid: nat, t: Thread)
    requires Inv(s, paths) && t.Active? && t.pc == Increment && Standing(s.cells, paths, t)
    ensures StepThread(s, tid, t).Ok? && Inv(StepThread(s, tid, t).s, paths)
  {
    var b := Bin(t.site);
    var k := NextOnPath(s, paths, t);
    var next := paths[b][k + 1];
    BumpKeepsTable(s.cells, s.freePos, paths, next, Bump(s.cells, next));
    IncrementCounts(s, paths, b, k, Bump(s.cells, next), s.carries[b := s.carries[b] + (s.cells[next].count + 1) / P32]);
    StandingIdle(Bump(s.cells, next), paths, s.threads, tid, Idle);
  }

  lemma MoveKeepsInv(s: System, paths: seq<seq<nat>>, tid: nat, t: Thread)
    requires Inv(s, paths) && t.Active? && t.pc != Insert && t.pc != Increment && Standing(s.cells, paths, t)
    ensures StepThread(s, tid, t).Ok? && Inv(StepThread(s, tid, t).s, paths)
  {
    var k := NextOnPath(s, paths, t);
    StandingIdle(s.cells, paths, s.threads, tid, StepThread(s, tid, t).s.threads[tid]);
  }

  // Under every interleaving no step crashes, and each keeps the chains whole
  // and the counts right.
  lemma StepKeepsInv(s: System, paths: seq<seq<nat>>, e: Event) returns (paths': seq<seq<nat>>)
    requires Inv(s, paths)
    ensures Step(s, e).Ok? && Inv(Step(s, e).s, paths')
  {
    paths' := paths;
    match e
    case Begin(tid, site, callee) =>
      assert BinPath(s.cells, s.freePos, Bin(site), paths[Bin(site)]);
      assert paths[Bin(site)][0] in paths[Bin(site)];
    case Go(tid) =>
      if tid in s.threads && s.threads[tid].Active? {
        var t := s.threads[tid];
        if t.pc == Increment {
          IncrementKeepsInv(s, paths, tid, t);
        } else if t.pc != Insert {
          MoveKeepsInv(s, paths, tid, t);
        } else if s.freePos + 1 < NUM_TOTAL {
          paths' := InsertKeepsInv(s, paths, tid, t, StepThread(s, tid, t).s);
        }
      }
  }

  // ------------------------------------------------------------ runs

  ghost function Run(s: System, evs: seq<Event>): Result
    requires |s.done| == |s.carries| == |s.dropped| == NUM_BINS
    decreases |evs|
  {
    if evs == [] then Ok(s)
    else
      var r := Step(s, evs[0]);
      if r.Crash? then Crash else Run(r.s, evs[1..])
  }

  // Right after kerninst_reset_callee_counter, whatever the cells held.
  ghost predicate IsReset(s: System) {
    && |s.cells| == NUM_TOTAL && s.freePos == NUM_BINS && s.threads == map[]
    && |s.done| == |s.carries| == |s.dropped| == NUM_BINS
    && (forall b :: 0 <= b < NUM_BINS ==> s.cells[b] == Cell(0, 0, 0, -1) && s.done[b] == s.carries[b] == s.dropped[b] == 0)
  }

  lemma ResetInv(s: System) returns (paths: seq<seq<nat>>)
    requires IsReset(s)
    ensures Inv(s, paths)
  {
    paths := seq(NUM_BINS, b => [b]);
    forall b | 0 <= b < NUM_BINS ensures BinPath(s.cells, s.freePos, b, paths[b]) {
    }
  }

  lemma {:induction false} RunKeepsInv(s: System, paths: seq<seq<nat>>, evs: seq<Event>) returns (paths': seq<seq<nat>>)
    requires Inv(s, paths)
    ensures Run(s, evs).Ok? && Inv(Run(s, evs).s, paths')
    decreases |evs|
  {
    paths' := paths;
    if evs != [] {
      paths' := StepKeepsInv(s, paths, evs[0]);
      paths' := RunKeepsInv(Step(s, evs[0]).s, paths', evs[1..]);
    }
  }

  // From reset, under every interleaving of any number of updates: nothing
  // crashes; every chain is finite and loses no cell; and the counts of each
  // bin add up to its completed updates, exactly while those are below 2^32.
  lemma AnyInterleaving(s: System, evs: seq<Event>) returns (paths: seq<seq<nat>>)
    requires IsReset(s)
    ensures Run(s, evs).Ok?
    ensures var s' := Run(s, evs).s;
            && Table(s'.cells, s'.freePos, paths) && |s'.done| == |s'.carries| == NUM_BINS
            && (forall b :: 0 <= b < NUM_BINS ==>
                  s'.done[b] == PathSum(s'.cells, paths[b]) + P32 * s'.carries[b])
            && (forall b :: 0 <= b < NUM_BINS && s'.done[b] < P32 ==> PathSum(s'.cells, paths[b]) == s'.done[b])
  {
    paths := ResetInv(s);
    paths := RunKeepsInv(s, paths, evs);
  }

  // ------------------------------------------------------------ every update accounted for

  // The threads in the middle of an update for bin b.
  ghost function Busy(threads: map<nat, Thread>, b: nat): set<nat> {
    set tid | tid in threads && threads[tid].Active? && Bin(threads[tid].site) == b
  }

  // An event that begins an update for bin b: its thread is not in one already.
  ghost function Begins(s: System, e: Event, b: nat): nat {
    if e.Begin? && !(e.tid in s.threads && s.threads[e.tid].Active?) && Bin(e.site) == b then 1 else 0
  }

  lemma BusyPut(threads: map<nat, Thread>, tid: nat, t: Thread, b: nat)
    ensures |Busy(threads[tid := t], b)| + (if tid in Busy(threads, b) then 1 else 0) ==
            |Busy(threads, b)| + (if t.Active? && Bin(t.site) == b then 1 else 0)
  {
    var was, now := Busy(threads, b), Busy(threads[tid := t], b);
    if t.Active? && Bin(t.site) == b {
      assert now == was + {tid};
    } else {
      assert now == was - {tid};
    }
  }

  lemma ThreadAccounts(s: System, tid: nat, t: Thread, b: nat, s': System)
    requires |s.done| == |s.carries| == |s.dropped| == NUM_BINS && b < NUM_BINS
    requires tid in s.threads && s.threads[tid] == t && t.Active? && StepThread(s, tid, t) == Ok(s')
    ensures |s'.done| == |s'.carries| == |s'.dropped| == NUM_BINS
    ensures s'.done[b] + s'.dropped[b] + |Busy(s'.threads, b)| == s.done[b] + s.dropped[b] + |Busy(s.threads, b)|
  {
    assert s'.threads == s.threads[tid := s'.threads[tid]];
    BusyPut(s.threads, tid, s'.threads[tid], b);
  }

  lemma StepAccounts(s: System, e: Event, b: nat, s': System)
    requires |s.done| == |s.carries| == |s.dropped| == NUM_BINS && b < NUM_BINS && Step(s, e) == Ok(s')
    ensures |s'.done| == |s'.carries| == |s'.dropped| == NUM_BINS
    ensures s'.done[b] + s'.dropped[b] + |Busy(s'.threads, b)| ==
            s.done[b] + s.dropped[b] + |Busy(s.threads, b)| + Begins(s, e, b)
  {
    if e.Begin? {
      BusyPut(s.threads, e.tid, Active(TestNext, e.site, e.callee, Bin(e.site)), b);
    } else if e.tid in s.threads && s.threads[e.tid].Active? {
      ThreadAccounts(s, e.tid, s.threads[e.tid], b, s');
    }
  }

  ghost function BegunFor(s: System, evs: seq<Event>, b: nat): nat
    requires |s.done| == |s.carries| == |s.dropped| == NUM_BINS && b < NUM_BINS
    decreases |evs|
  {
    if evs == [] || Step(s, evs[0]).Crash? then 0
    else
      StepAccounts(s, evs[0], b, Step(s, evs[0]).s);
      Begins(s, evs[0], b) + BegunFor(Step(s, evs[0]).s, evs[1..], b)
  }

  lemma {:induction false} RunAccounts(s: System, evs: seq<Event>, b: nat, s': System)
    requires |s.done| == |s.carries| == |s.dropped| == NUM_BINS && b < NUM_BINS && Run(s, evs) == Ok(s')
    ensures |s'.done| == |s'.dropped| == NUM_BINS
    ensures s'.done[b] + s'.dropped[b] + |Busy(s'.threads, b)| ==
            s.done[b] + s.dropped[b] + |Busy(s.threads, b)| + BegunFor(s, evs, b)
    decreases |evs|
  {
    if evs != [] {
      StepAccounts(s, evs[0], b, Step(s, evs[0]).s);
      RunAccounts(Step(s, evs[0]).s, evs[1..], b, s');
    }
  }

  // From reset, under every interleaving: each update begun is completed, given
  // up for lack of a cell, or still under way.
  lemma UpdatesAccounted(s: System, evs: seq<Event>, b: nat)
    requires IsReset(s) && b < NUM_BINS
    ensures Run(s, evs).Ok?
    ensures var s' := Run(s, evs).s;
            && |s'.done| == |s'.dropped| == NUM_BINS
            && BegunFor(s, evs, b) == s'.done[b] + s'.dropped[b] + |Busy(s'.threads, b)|
  {
    var paths := ResetInv(s);
    var _ := RunKeepsInv(s, paths, evs);
    RunAccounts(s, evs, b, Run(s, evs).s);
  }
}
