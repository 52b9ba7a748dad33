/** The distance graph of hw1 (the nested loop in main of
hw1/src/Storage.cpp): an n x n matrix, zero-initialised, whose entries above
the diagonal are the record distances and whose entries below it mirror them.
The loop runs sequentially here. */
module DistanceGraph {
  import opened EditDistance

  /** Whether the loop has written entry (p, q) once it is at row i and
      column j: p and q differ and the pair, taken with the smaller index
      first, comes before (i, j) in row-major order. */
  predicate Written(p: int, q: int, i: int, j: int) {
    var lo := if p < q then p else q;
    var hi := if p < q then q else p;
    lo != hi && (lo < i || (lo == i && hi < j))
  }

  /** Entry (p, q) of `graph` is as the loop leaves it at (i, j): the
      distance between the two records if written, in either orientation,
      and 0 otherwise. */
  ghost predicate EntryOk(records: seq<seq<int>>, graph: seq<seq<int>>, p: int, q: int, i: int, j: int)
    requires 0 <= p < |records| && 0 <= q < |records|
    requires |graph| == |records| && |graph[p]| == |records| && |graph[q]| == |records|
  {
    if Written(p, q, i, j)
    then graph[p][q] == graph[q][p] && IsDistance(records[if p < q then p else q], records[if p < q then q else p], graph[p][q])
    else graph[p][q] == 0
  }

  /** Entry (p, q) is as the loop leaves it when it starts row i. */
  ghost predicate RowsDone(records: seq<seq<int>>, graph: seq<seq<int>>, p: int, q: int, i: int)
    requires 0 <= p < |records| && 0 <= q < |records|
    requires |graph| == |records| && |graph[p]| == |records| && |graph[q]| == |records|
  {
    EntryOk(records, graph, p, q, i, i + 1)
  }

  predicate Square(graph: seq<seq<int>>, n: nat) {
    |graph| == n && forall p :: 0 <= p < n ==> |graph[p]| == n
  }

  /** The graph-filling loop. It needs at least one record: with none,
      `records.size() - 1` wraps around as an unsigned value. The result is
      symmetric with a zero diagonal, and each entry above the diagonal is
      the distance between the two records. */
  method FillGraph(records: seq<seq<int>>) returns (graph: seq<seq<int>>)
    requires |records| >= 1
    ensures Square(graph, |records|)
    ensures forall i :: 0 <= i < |records| ==> graph[i][i] == 0
    ensures forall i, j :: 0 <= i < |records| && 0 <= j < |records| ==> graph[i][j] == graph[j][i]
    ensures forall i, j :: 0 <= i < j < |records| ==> IsDistance(records[i], records[j], graph[i][j])
  {
    var n := |records|;
    graph := seq(n, _ => seq(n, _ => 0));
    for i := 0 to n - 1
      invariant Square(graph, n)
      invariant forall p, q :: 0 <= p < n && 0 <= q < n ==> RowsDone(records, graph, p, q, i)
    {
      ghost var first := i + 1;
      forall p, q | 0 <= p < n && 0 <= q < n ensures EntryOk(records, graph, p, q, i, first) {
        assert RowsDone(records, graph, p, q, i);
      }
      for j := i + 1 to n
        invariant Square(graph, n)
        invariant forall p, q :: 0 <= p < n && 0 <= q < n ==> EntryOk(records, graph, p, q, i, j)
      {
        var distance := CalculateFrankenstein(records[i], records[j]);
        ghost var before := graph;
        ghost var next := j + 1;
        graph := graph[i := graph[i][j := distance]];
        graph := graph[j := graph[j][i := distance]];
        forall p, q | 0 <= p < n && 0 <= q < n
          ensures EntryOk(records, graph, p, q, i, next)
        {
          assert EntryOk(records, before, p, q, i, j);
        }
      }
      ghost var row := i + 1;
      forall p, q | 0 <= p < n && 0 <= q < n
        ensures RowsDone(records, graph, p, q, row)
      {
        assert EntryOk(records, graph, p, q, i, n);
      }
    }
    forall p, q | 0 <= p < n && 0 <= q < n
      ensures graph[p][q] == graph[q][p]
      ensures p < q ==> IsDistance(records[p], records[q], graph[p][q])
      ensures p == q ==> graph[p][q] == 0
    {
      assert RowsDone(records, graph, p, q, n - 1);
    }
  }
}
