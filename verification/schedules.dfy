/** Partial schedules of the branch-and-bound scheduler (hw3/src/Schedule.cpp).

A schedule refers to tasks by their index in the shared task list. It keeps
the indices sequenced so far, a counter `pointer` of the appends performed,
and the indices not yet sequenced. Only the size of the task list matters to
the operations modelled here, so a schedule records that size.
 */
module Schedules {

  datatype Schedule = Schedule(taskCount: nat, scheduled: seq<int>, pointer: int, notScheduled: seq<int>)

  /** The vector 0, 1, ..., n-1 that std::iota writes. */
  function Iota(n: nat): (r: seq<int>)
    ensures |r| == n
    ensures forall k :: 0 <= k < n ==> r[k] == k
  {
    if n == 0 then [] else Iota(n - 1) + [n - 1]
  }

  predicate StrictlyAscending(xs: seq<int>) {
    forall a, b :: 0 <= a < b < |xs| ==> xs[a] < xs[b]
  }

  predicate Distinct(xs: seq<int>) {
    forall a, b :: 0 <= a < b < |xs| ==> xs[a] != xs[b]
  }

  /** Every index of the task list is either scheduled or not scheduled,
      exactly once, and nothing else appears. */
  predicate Partitioned(s: Schedule) {
    multiset(s.scheduled) + multiset(s.notScheduled) == multiset(Iota(s.taskCount))
  }

  /** `pointer` counts the scheduled entries. */
  predicate PointerInSync(s: Schedule) {
    s.pointer == |s.scheduled|
  }

  /** What the erase-remove idiom leaves of `xs`: every occurrence of `el`
      dropped, every other entry kept. */
  function RemoveAll(xs: seq<int>, el: int): (r: seq<int>)
    ensures forall x :: x in r <==> x in xs && x != el
    ensures el !in xs ==> r == xs
  {
    if xs == [] then []
    else if xs[0] == el then RemoveAll(xs[1..], el)
      else [xs[0]] + RemoveAll(xs[1..], el)
  }

  /** Removal takes out every copy of `el` and no copy of anything else. */
  lemma {:induction false} RemoveAllMultiset(xs: seq<int>, el: int)
    ensures multiset(RemoveAll(xs, el)) == multiset(xs)[el := 0]
  {
    if xs != [] {
      RemoveAllMultiset(xs[1..], el);
      assert xs == [xs[0]] + xs[1..];
    }
  }

  /** Removal distributes over concatenation: the entries that survive keep
      their original relative order. */
  lemma {:induction false} RemoveAllConcat(xs: seq<int>, ys: seq<int>, el: int)
    ensures RemoveAll(xs + ys, el) == RemoveAll(xs, el) + RemoveAll(ys, el)
  {
    if xs == [] {
      assert xs + ys == ys;
    } else {
      assert (xs + ys)[1..] == xs[1..] + ys;
      RemoveAllConcat(xs[1..], ys, el);
    }
  }

  /** std::remove followed by erase, as the in-place compaction the
      standard library performs: a read position `i` walks the vector and
      every entry different from `el` is copied down to the write position
      `w`; the tail from `w` on is then erased. */
  method EraseRemove(xs: seq<int>, el: int) returns (r: seq<int>)
    ensures r == RemoveAll(xs, el)
  {
    var buf := xs;
    var w := 0;
    for i := 0 to |xs|
      invariant w <= i
      invariant |buf| == |xs|
      invariant forall k :: i <= k < |xs| ==> buf[k] == xs[k]
      invariant buf[..w] == RemoveAll(xs[..i], el)
    {
      assert xs[..i + 1] == xs[..i] + [xs[i]];
      RemoveAllConcat(xs[..i], [xs[i]], el);
      if buf[i] != el {
        var old_ := buf;
        buf := buf[w := buf[i]];
        assert buf[..w + 1] == old_[..w] + [xs[i]];
        w := w + 1;
      }
    }
    assert xs[..|xs|] == xs;
    r := buf[..w];
  }

  /** Schedule(taskList): nothing scheduled, every index 0..n-1 open in
      ascending order. */
  function NewSchedule(taskCount: nat): (r: Schedule)
    ensures r.taskCount == taskCount
    ensures r.scheduled == [] && r.pointer == 0
    ensures |r.notScheduled| == taskCount
    ensures forall k :: 0 <= k < taskCount ==> r.notScheduled[k] == k
    ensures Partitioned(r) && PointerInSync(r)
  {
    Schedule(taskCount, [], 0, Iota(taskCount))
  }

  /** Schedule::append: `el` goes to the end of the scheduled list, the
      counter grows by one and every occurrence of `el` leaves the open list.
      An `el` that is not open is appended all the same. */
  function Append(s: Schedule, el: int): (r: Schedule)
    ensures r.taskCount == s.taskCount
    ensures |r.scheduled| == |s.scheduled| + 1
    ensures r.scheduled[..|s.scheduled|] == s.scheduled && r.scheduled[|s.scheduled|] == el
    ensures r.pointer == s.pointer + 1
    ensures el !in r.notScheduled
    ensures forall x :: x != el ==> (x in r.notScheduled <==> x in s.notScheduled)
    ensures el !in s.notScheduled ==> r.notScheduled == s.notScheduled
  {
    s.(scheduled := s.scheduled + [el], pointer := s.pointer + 1,
       notScheduled := RemoveAll(s.notScheduled, el))
  }

  lemma AppendKeepsPointerInSync(s: Schedule, el: int)
    requires PointerInSync(s)
    ensures PointerInSync(Append(s, el))
  {
  }

  /** Each index of Iota(n) occurs in it exactly once. */
  lemma {:induction false} IotaMultiplicity(n: nat, x: int)
    ensures multiset(Iota(n))[x] == if 0 <= x < n then 1 else 0
  {
    if n > 0 {
      IotaMultiplicity(n - 1, x);
      assert multiset(Iota(n)) == multiset(Iota(n - 1)) + multiset{n - 1};
    }
  }

  /** Appending an open index to a partitioned schedule keeps it partitioned. */
  lemma AppendPreservesPartition(s: Schedule, el: int)
    requires Partitioned(s)
    requires el in s.notScheduled
    ensures Partitioned(Append(s, el))
  {
    var r := Append(s, el);
    var ns := multiset(s.notScheduled);
    RemoveAllMultiset(s.notScheduled, el);
    IotaMultiplicity(s.taskCount, el);
    assert ns[el] >= 1;
    assert multiset(s.scheduled)[el] + ns[el] == multiset(Iota(s.taskCount))[el];
    assert ns[el] == 1 && multiset(s.scheduled)[el] == 0;
    assert ns[el := 0] + multiset{el} == ns;
    assert multiset(r.scheduled) == multiset(s.scheduled) + multiset{el};
  }

  /** What Partitioned means index by index: each index below the task count
      is in exactly one of the two lists, once, and no other value appears. */
  lemma PartitionedMeans(s: Schedule, x: int)
    requires Partitioned(s)
    ensures (x in s.scheduled || x in s.notScheduled) <==> 0 <= x < s.taskCount
    ensures !(x in s.scheduled && x in s.notScheduled)
    ensures multiset(s.scheduled)[x] <= 1 && multiset(s.notScheduled)[x] <= 1
  {
    IotaMultiplicity(s.taskCount, x);
    assert multiset(s.scheduled)[x] + multiset(s.notScheduled)[x] == multiset(Iota(s.taskCount))[x];
  }

  /** The entries of `xs` that do not occur in `excluded`, in their order. */
  function Without(xs: seq<int>, excluded: seq<int>): (r: seq<int>)
    ensures forall x :: x in r <==> x in xs && x !in excluded
  {
    if xs == [] then []
    else if xs[0] in excluded then Without(xs[1..], excluded)
    else [xs[0]] + Without(xs[1..], excluded)
  }

  lemma {:induction false} RemoveAllWithout(xs: seq<int>, excluded: seq<int>, el: int)
    ensures RemoveAll(Without(xs, excluded), el) == Without(xs, excluded + [el])
  {
    if xs != [] {
      RemoveAllWithout(xs[1..], excluded, el);
      if xs[0] !in excluded && xs[0] != el {
        RemoveAllConcat([xs[0]], Without(xs[1..], excluded), el);
      }
    }
  }

  lemma {:induction false} WithoutAscending(xs: seq<int>, excluded: seq<int>)
    requires StrictlyAscending(xs)
    ensures StrictlyAscending(Without(xs, excluded))
  {
    if xs != [] {
      WithoutAscending(xs[1..], excluded);
      var t := Without(xs[1..], excluded);
      forall y | y in t ensures xs[0] < y {
        var k :| 0 <= k < |xs[1..]| && xs[1..][k] == y;
      }
      if xs[0] !in excluded {
        var r := [xs[0]] + t;
        forall a, b | 0 <= a < b < |r| ensures r[a] < r[b] {
          assert r[b] == t[b - 1] && t[b - 1] in t;
          if a > 0 {
            assert r[a] == t[a - 1];
          }
        }
      }
    }
  }

  /** Schedule(taskList, initialState): a fresh schedule to which every entry
      of `initialState` is appended in turn. The open list is the ascending
      complement of the initial state; for distinct in-range indices the
      result is partitioned. */
  method FromState(taskCount: nat, initialState: seq<int>) returns (s: Schedule)
    ensures s.taskCount == taskCount
    ensures s.scheduled == initialState && s.pointer == |initialState|
    ensures forall x :: x in s.notScheduled <==> 0 <= x < taskCount && x !in initialState
    ensures StrictlyAscending(s.notScheduled)
    ensures s.notScheduled == Without(Iota(taskCount), initialState)
    ensures Distinct(initialState) && (forall k :: 0 <= k < |initialState| ==> 0 <= initialState[k] < taskCount)
            ==> Partitioned(s)
  {
    var wellFormed := Distinct(initialState) && (forall k :: 0 <= k < |initialState| ==> 0 <= initialState[k] < taskCount);
    s := NewSchedule(taskCount);
    WithoutNothing(Iota(taskCount));
    for k := 0 to |initialState|
      invariant s.taskCount == taskCount
      invariant s.scheduled == initialState[..k] && s.pointer == k
      invariant s.notScheduled == Without(Iota(taskCount), initialState[..k])
      invariant wellFormed ==> Partitioned(s)
    {
      FromStateStep(s, initialState, k, wellFormed);
      s := Append(s, initialState[k]);
    }
    assert initialState[..|initialState|] == initialState;
    WithoutAscending(Iota(taskCount), initialState);
    IotaMembers(taskCount);
  }

  lemma IotaMembers(n: nat)
    ensures forall x :: x in Iota(n) <==> 0 <= x < n
  {
    forall x | 0 <= x < n ensures x in Iota(n) {
      assert Iota(n)[x] == x;
    }
  }

  /** One iteration of the append loop of FromState. */
  lemma FromStateStep(s: Schedule, initialState: seq<int>, k: nat, wellFormed: bool)
    requires k < |initialState|
    requires s.scheduled == initialState[..k]
    requires s.notScheduled == Without(Iota(s.taskCount), initialState[..k])
    requires wellFormed ==> Partitioned(s)
    requires wellFormed ==> Distinct(initialState) && 0 <= initialState[k] < s.taskCount
    ensures Append(s, initialState[k]).scheduled == initialState[..k + 1]
    ensures Append(s, initialState[k]).notScheduled == Without(Iota(s.taskCount), initialState[..k + 1])
    ensures wellFormed ==> Partitioned(Append(s, initialState[k]))
  {
    var el := initialState[k];
    if wellFormed {
      assert el !in initialState[..k];
      assert Iota(s.taskCount)[el] == el;
      AppendPreservesPartition(s, el);
    }
    RemoveAllWithout(Iota(s.taskCount), initialState[..k], el);
    assert initialState[..k + 1] == initialState[..k] + [el];
  }

  lemma {:induction false} WithoutNothing(xs: seq<int>)
    ensures Without(xs, []) == xs
  {
    if xs != [] {
      WithoutNothing(xs[1..]);
    }
  }
}
