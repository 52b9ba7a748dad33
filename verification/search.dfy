/** The depth-first branch-and-bound driver of one rank (class Worker in
hw3/src/Worker.cpp): the initial round-robin split of single-task schedules,
and the work step that pops the most recent schedule off the backlog and
processes it. The backlog is a stack; its top is the last element of the
sequence. */
module Search {
  import opened Schedules
  import opened Messages
  import opened TokenRing

  /** INT32_MAX, the initial upper bound. */
  const Int32Max: int := 0x7fff_ffff

  /** The members of Schedule the search calls but whose definitions are not
      part of this model. They are arbitrary total functions here, so what is
      proved below holds for every choice of them. */
  datatype Oracle = Oracle(
    single: int -> Schedule,                // Schedule(taskList, initialTask)
    child: (Schedule, int) -> Schedule,     // Schedule(schedule, task)
    validate: (Schedule, int) -> bool,      // Schedule::validate(UB)
    isSolution: Schedule -> bool,           // Schedule::isSolution
    getLength: Schedule -> int,             // Schedule::getLength
    getNotScheduled: Schedule -> seq<int>,  // Schedule::getNotScheduled
    getScheduledIndex: Schedule -> seq<int> // Schedule::getScheduledIndex
  )

  /** The state of one rank. */
  datatype Worker = Worker(
    myRank: int,
    worldSize: int,
    taskCount: nat,
    UB: int,
    backlog: seq<Schedule>,
    bestSolution: seq<int>,
    tokens: TokenState)

  /** A worker as the constructor and the task broadcast leave it: no work,
      the bound at INT32_MAX, and a best solution of taskCount entries -1. */
  function NewWorker(myRank: int, worldSize: int, taskCount: nat, tokens: TokenState): Worker {
    Worker(myRank, worldSize, taskCount, Int32Max, [], seq(taskCount, _ => -1), tokens)
  }

  /** The task indices below n that the round-robin split keeps on rank 0
      (onRoot) or sends to another rank (!onRoot), in increasing order. */
  function RankShare(n: int, worldSize: int, onRoot: bool): (r: seq<int>)
    requires worldSize >= 1
    ensures forall x :: x in r <==> 0 <= x < n && (x % worldSize == 0) == onRoot
    ensures StrictlyAscending(r)
    decreases if n < 0 then 0 else n
  {
    if n <= 0 then []
    else if ((n - 1) % worldSize == 0) == onRoot then
      var prefix := RankShare(n - 1, worldSize, onRoot);
      AscendingExtend(prefix, n - 1);
      prefix + [n - 1]
    else RankShare(n - 1, worldSize, onRoot)
  }

  lemma AscendingExtend(xs: seq<int>, v: int)
    requires StrictlyAscending(xs)
    requires forall x :: x in xs ==> x < v
    ensures StrictlyAscending(xs + [v])
  {
    var ys := xs + [v];
    forall a, b | 0 <= a < b < |ys| ensures ys[a] < ys[b] {
      assert ys[a] == xs[a] && xs[a] in xs;
    }
  }

  /** The single-task schedules for the indices `idx`, in order. */
  function Singles(o: Oracle, idx: seq<int>): (r: seq<Schedule>)
    ensures |r| == |idx| && forall k :: 0 <= k < |idx| ==> r[k] == o.single(idx[k])
  {
    seq(|idx|, k requires 0 <= k < |idx| => o.single(idx[k]))
  }

  /** One schedule message per index of `idx`, each to the index's rank. */
  function Sends(o: Oracle, worldSize: int, idx: seq<int>): (r: seq<Message>)
    requires worldSize >= 1
    ensures |r| == |idx|
    ensures forall k :: 0 <= k < |idx| ==> r[k] == ScheduleSend(idx[k] % worldSize, o.single(idx[k]))
  {
    seq(|idx|, k requires 0 <= k < |idx| => ScheduleSend(idx[k] % worldSize, o.single(idx[k])))
  }

  /** Worker::InitialJobDistribution on the root: task i goes to rank
      i % worldSize. The root's own single-task schedules are pushed in
      increasing task order, so the largest of them ends on top; the others
      are sent, in increasing task order, to ranks other than the root. */
  method InitialJobDistribution(w: Worker, o: Oracle) returns (r: Worker, outbox: seq<Message>)
    requires w.worldSize >= 1
    ensures r == w.(backlog := w.backlog + Singles(o, RankShare(w.taskCount, w.worldSize, true)))
    ensures outbox == Sends(o, w.worldSize, RankShare(w.taskCount, w.worldSize, false))
    ensures AddressedWithin(outbox, w.worldSize)
    ensures forall k :: 0 <= k < |outbox| ==> outbox[k].ScheduleSend? && outbox[k].dest != 0
  {
    var backlog := w.backlog;
    outbox := [];
    for i := 0 to w.taskCount
      invariant backlog == w.backlog + Singles(o, RankShare(i, w.worldSize, true))
      invariant outbox == Sends(o, w.worldSize, RankShare(i, w.worldSize, false))
    {
      var destination := i % w.worldSize;
      var schedule := o.single(i);
      ghost var onRoot := RankShare(i, w.worldSize, true);
      ghost var offRoot := RankShare(i, w.worldSize, false);
      if destination != 0 {
        assert RankShare(i + 1, w.worldSize, false) == offRoot + [i];
        assert Sends(o, w.worldSize, offRoot + [i]) == Sends(o, w.worldSize, offRoot) + [ScheduleSend(destination, schedule)];
        outbox := outbox + [ScheduleSend(destination, schedule)];
      } else {
        assert RankShare(i + 1, w.worldSize, true) == onRoot + [i];
        assert Singles(o, onRoot + [i]) == Singles(o, onRoot) + [schedule];
        backlog := backlog + [schedule];
      }
    }
    r := w.(backlog := backlog);
    forall k | 0 <= k < |outbox| ensures outbox[k].dest != 0 {
      assert RankShare(w.taskCount, w.worldSize, false)[k] in RankShare(w.taskCount, w.worldSize, false);
    }
  }

  /** With at least one task, the root keeps task 0, and the last task it
      keeps, the one left on top of its backlog, is the largest index below
      taskCount that is a multiple of worldSize. */
  lemma RootTopIsLargest(n: int, worldSize: int)
    requires n > 0 && worldSize >= 1
    ensures var share := RankShare(n, worldSize, true);
            && |share| > 0
            && var top := share[|share| - 1];
               && 0 <= top < n && top % worldSize == 0
               && forall x :: top < x < n ==> x % worldSize != 0
  {
    var share := RankShare(n, worldSize, true);
    assert 0 in share;
    var top := share[|share| - 1];
    assert top in share;
    forall x | top < x < n ensures x % worldSize != 0 {
      if x % worldSize == 0 {
        assert x in share;
        var k :| 0 <= k < |share| && share[k] == x;
      }
    }
  }

  /** Every task index below taskCount is dealt to exactly one rank: kept by
      the root or sent once, to the rank index % worldSize. */
  lemma EachTaskDealtOnce(n: int, worldSize: int, x: int)
    requires worldSize >= 1 && 0 <= x < n
    ensures x in RankShare(n, worldSize, true) <==> x !in RankShare(n, worldSize, false)
    ensures x in RankShare(n, worldSize, false) ==> 0 < x % worldSize < worldSize
    ensures multiset(RankShare(n, worldSize, true))[x] + multiset(RankShare(n, worldSize, false))[x] == 1
  {
    AscendingCountsOnce(RankShare(n, worldSize, true), x);
    AscendingCountsOnce(RankShare(n, worldSize, false), x);
  }

  lemma {:induction false} AscendingCountsOnce(xs: seq<int>, x: int)
    requires StrictlyAscending(xs)
    ensures multiset(xs)[x] == if x in xs then 1 else 0
  {
    if xs != [] {
      var tail := xs[1..];
      assert StrictlyAscending(tail);
      AscendingCountsOnce(tail, x);
      assert xs == [xs[0]] + tail;
    }
  }

  /** The children ProcessSchedule pushes, in push order: one per entry of
      `ns`, the child for the last entry first. */
  function PushedChildren(o: Oracle, s: Schedule, ns: seq<int>): (r: seq<Schedule>)
    ensures |r| == |ns|
    ensures forall k :: 0 <= k < |ns| ==> r[k] == o.child(s, ns[|ns| - 1 - k])
  {
    seq(|ns|, k requires 0 <= k < |ns| => o.child(s, ns[|ns| - 1 - k]))
  }

  /** Worker::ProcessSchedule. A schedule failing validation changes nothing.
      A valid solution strictly below the bound becomes the bound and the best
      solution; any other solution changes nothing. A valid partial schedule
      pushes one child per unscheduled task, from the last to the first, so
      that the child for the first unscheduled task ends on top; the bound is
      untouched. */
  method ProcessSchedule(w: Worker, s: Schedule, o: Oracle) returns (r: Worker)
    ensures r.UB <= w.UB
    ensures r == w.(UB := r.UB, bestSolution := r.bestSolution, backlog := r.backlog)
    ensures !o.validate(s, w.UB) ==> r == w
    ensures o.validate(s, w.UB) && o.isSolution(s) && o.getLength(s) < w.UB ==>
              r == w.(UB := o.getLength(s), bestSolution := o.getScheduledIndex(s))
    ensures o.validate(s, w.UB) && o.isSolution(s) && o.getLength(s) >= w.UB ==> r == w
    ensures o.validate(s, w.UB) && !o.isSolution(s) ==>
              && r == w.(backlog := w.backlog + PushedChildren(o, s, o.getNotScheduled(s)))
              && (|o.getNotScheduled(s)| > 0 ==> r.backlog[|r.backlog| - 1] == o.child(s, o.getNotScheduled(s)[0]))
  {
    r := w;
    if o.validate(s, w.UB) {
      if o.isSolution(s) {
        if o.getLength(s) < w.UB {
          r := w.(UB := o.getLength(s), bestSolution := o.getScheduledIndex(s));
        }
      } else {
        var ns := o.getNotScheduled(s);
        var backlog := w.backlog;
        // The index is an int initialised from size() - 1; for an empty list
        // that is -1 and the loop does not run.
        var i := |ns| - 1;
        while i > -1
          invariant -1 <= i < |ns|
          invariant backlog == w.backlog + PushedChildren(o, s, ns)[..|ns| - 1 - i]
        {
          assert PushedChildren(o, s, ns)[..|ns| - i] == PushedChildren(o, s, ns)[..|ns| - 1 - i] + [o.child(s, ns[i])];
          backlog := backlog + [o.child(s, ns[i])];
          i := i - 1;
        }
        assert PushedChildren(o, s, ns)[..|ns|] == PushedChildren(o, s, ns);
        r := w.(backlog := backlog);
      }
    }
  }

  /** Worker::Work: the most recently pushed schedule is taken off the
      backlog and processed as ProcessSchedule does, against what lay below
      it. What lay below is kept, the bound can only fall, a top that fails
      validation is simply dropped, a better solution on top becomes the
      bound and the best solution, and a partial schedule on top is replaced
      by its children, the child for its first open task on top. */
  method Work(w: Worker, o: Oracle) returns (r: Worker)
    requires |w.backlog| > 0
    ensures var top := w.backlog[|w.backlog| - 1];
            var below := w.backlog[..|w.backlog| - 1];
            && r == w.(UB := r.UB, bestSolution := r.bestSolution, backlog := r.backlog)
            && |r.backlog| >= |below| && r.backlog[..|below|] == below
            && r.UB <= w.UB
            && (!o.validate(top, w.UB) ==> r == w.(backlog := below))
            && (o.validate(top, w.UB) && o.isSolution(top) && o.getLength(top) < w.UB ==>
                  r == w.(backlog := below, UB := o.getLength(top), bestSolution := o.getScheduledIndex(top)))
            && (o.validate(top, w.UB) && o.isSolution(top) && o.getLength(top) >= w.UB ==>
                  r == w.(backlog := below))
            && (o.validate(top, w.UB) && !o.isSolution(top) ==>
                  && r == w.(backlog := below + PushedChildren(o, top, o.getNotScheduled(top)))
                  && (|o.getNotScheduled(top)| > 0 ==>
                        r.backlog[|r.backlog| - 1] == o.child(top, o.getNotScheduled(top)[0])))
  {
    var top := w.backlog[|w.backlog| - 1];
    var rest := w.(backlog := w.backlog[..|w.backlog| - 1]);
    r := ProcessSchedule(rest, top, o);
  }

  /** The root from construction to the end of the initial split: no work
      and the bound at INT32_MAX, a best solution of taskCount entries -1,
      then the split. Its backlog is then exactly its own share of
      single-task schedules, the largest task index of that share on top,
      and every other task has been sent. */
  method StartRoot(worldSize: int, taskCount: nat, tokens: TokenState, o: Oracle)
      returns (r: Worker, outbox: seq<Message>)
    requires worldSize >= 1
    ensures r.myRank == 0 && r.worldSize == worldSize && r.taskCount == taskCount && r.tokens == tokens
    ensures r.UB == Int32Max
    ensures |r.bestSolution| == taskCount && forall k :: 0 <= k < taskCount ==> r.bestSolution[k] == -1
    ensures r.backlog == Singles(o, RankShare(taskCount, worldSize, true))
    ensures taskCount > 0 ==>
              && |r.backlog| > 0
              && exists top :: 0 <= top < taskCount && top % worldSize == 0
                   && r.backlog[|r.backlog| - 1] == o.single(top)
                   && forall x :: top < x < taskCount ==> x % worldSize != 0
    ensures outbox == Sends(o, worldSize, RankShare(taskCount, worldSize, false))
  {
    r, outbox := InitialJobDistribution(NewWorker(0, worldSize, taskCount, tokens), o);
    if taskCount > 0 {
      RootTopIsLargest(taskCount, worldSize);
      var share := RankShare(taskCount, worldSize, true);
      var top := share[|share| - 1];
      assert r.backlog[|r.backlog| - 1] == o.single(top);
    }
  }
}
