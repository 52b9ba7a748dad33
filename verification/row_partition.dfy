/** The row split of the heat-diffusion program (main in
hw2/src/HeatDiffusion.cpp): the root cuts the n spots into one contiguous
chunk per rank, the counts and displacements handed to the scatter. The root
takes the first chunk, which also absorbs the remainder; every other rank
gets n / worldSize spots. Also the spot equality, which looks only at the
coordinates. */
module RowPartition {

  /** The chunk size of every rank other than the root. */
  function LinesSlave(n: nat, worldSize: int): (r: nat)
    requires worldSize >= 1
    ensures r * worldSize <= n < (r + 1) * worldSize
  {
    n / worldSize
  }

  /** The root's chunk: whatever the other ranks leave over. It is the slave
      size plus the remainder, so it is never negative and never smaller
      than a slave chunk. */
  function LinesRoot(n: nat, worldSize: int): (r: int)
    requires worldSize >= 1
    ensures r == LinesSlave(n, worldSize) + n % worldSize
    ensures LinesSlave(n, worldSize) <= r < LinesSlave(n, worldSize) + worldSize
  {
    n - LinesSlave(n, worldSize) * (worldSize - 1)
  }

  function Sum(s: seq<int>): int {
    if s == [] then 0 else Sum(s[..|s| - 1]) + s[|s| - 1]
  }

  /** The scatter layout: `counts[k]` spots starting at offset `bases[k]`
      for each rank k, the chunks laid end to end from 0 up to n. */
  predicate Contiguous(n: int, counts: seq<int>, bases: seq<int>) {
    && |counts| == |bases| > 0
    && bases[0] == 0
    && (forall k :: 0 <= k < |counts| ==> counts[k] >= 0)
    && (forall k :: 0 < k < |bases| ==> bases[k] == bases[k - 1] + counts[k - 1])
    && bases[|bases| - 1] + counts[|counts| - 1] == n
  }

  predicate InChunk(counts: seq<int>, bases: seq<int>, k: int, x: int)
    requires |counts| == |bases|
    requires 0 <= k < |counts|
  {
    bases[k] <= x < bases[k] + counts[k]
  }

  /** The loop filling `linesOnProcessors` and `bases`. The root gets
      LinesRoot spots at offset 0, every other rank LinesSlave spots right
      after the chunk before it; the chunks cover 0..n exactly, and the last
      count, which the root broadcasts as the slave chunk size, is
      n / worldSize as soon as there is a second rank. */
  method Chunks(n: nat, worldSize: int) returns (counts: seq<int>, bases: seq<int>)
    requires worldSize >= 1
    ensures |counts| == worldSize && |bases| == worldSize
    ensures counts[0] == LinesRoot(n, worldSize)
    ensures forall k :: 0 < k < worldSize ==> counts[k] == n / worldSize
    ensures Contiguous(n, counts, bases)
    ensures Sum(counts) == n
    ensures worldSize > 1 ==> counts[worldSize - 1] == n / worldSize
  {
    var linesSlave := LinesSlave(n, worldSize);
    var linesRoot := LinesRoot(n, worldSize);
    counts := seq(worldSize, _ => 0);
    bases := seq(worldSize, _ => 0);
    for i := 0 to worldSize
      invariant |counts| == worldSize && |bases| == worldSize
      invariant i > 0 ==> counts[0] == linesRoot && bases[0] == 0
      invariant forall k :: 0 < k < i ==> counts[k] == linesSlave
      invariant forall k :: 0 < k < i ==> bases[k] == bases[k - 1] + counts[k - 1]
      invariant forall k :: 0 < k < i ==> bases[k] == linesRoot + (k - 1) * linesSlave
    {
      if i == 0 {
        counts := counts[i := linesRoot];
        bases := bases[i := 0];
      } else {
        counts := counts[i := linesSlave];
        bases := bases[i := linesRoot + (i - 1) * linesSlave];
        if i > 1 {
          assert bases[i - 1] == linesRoot + (i - 2) * linesSlave;
          assert linesRoot + (i - 1) * linesSlave == linesRoot + (i - 2) * linesSlave + linesSlave;
        }
      }
    }
    if worldSize > 1 {
      assert bases[worldSize - 1] + counts[worldSize - 1] == linesRoot + (worldSize - 1) * linesSlave;
    }
    ContiguousSum(n, counts, bases);
  }

  /** Each offset is the total size of the chunks before it. */
  lemma {:induction false} BaseIsPrefixSum(n: int, counts: seq<int>, bases: seq<int>, k: int)
    requires Contiguous(n, counts, bases)
    requires 0 <= k < |bases|
    ensures bases[k] == Sum(counts[..k])
  {
    if k > 0 {
      BaseIsPrefixSum(n, counts, bases, k - 1);
      assert counts[..k][..k - 1] == counts[..k - 1];
    }
  }

  /** The chunk sizes add up to n. */
  lemma ContiguousSum(n: int, counts: seq<int>, bases: seq<int>)
    requires Contiguous(n, counts, bases)
    ensures Sum(counts) == n
  {
    var last := |counts| - 1;
    BaseIsPrefixSum(n, counts, bases, last);
    assert counts[..|counts|][..last] == counts[..last];
    assert counts[..|counts|] == counts;
  }

  /** The offsets never decrease, and each chunk ends where the next begins
      or earlier. */
  lemma {:induction false} BasesAscend(n: int, counts: seq<int>, bases: seq<int>, k: int, k': int)
    requires Contiguous(n, counts, bases)
    requires 0 <= k < k' < |bases|
    ensures bases[k] + counts[k] <= bases[k']
    decreases k' - k
  {
    if k' > k + 1 {
      BasesAscend(n, counts, bases, k, k' - 1);
    }
  }

  /** The rank whose chunk holds spot x, found by walking down from rank k. */
  lemma {:induction false} OwnerBelow(n: int, counts: seq<int>, bases: seq<int>, x: int, k: int)
      returns (owner: int)
    requires Contiguous(n, counts, bases)
    requires 0 <= k < |bases| && 0 <= x < bases[k] + counts[k]
    ensures 0 <= owner <= k && InChunk(counts, bases, owner, x)
  {
    if bases[k] <= x {
      owner := k;
    } else {
      owner := OwnerBelow(n, counts, bases, x, k - 1);
    }
  }

  /** Every spot 0 <= x < n lies in the chunk of exactly one rank, so the
      scatter hands out each spot once. */
  lemma ChunksPartitionSpots(n: int, counts: seq<int>, bases: seq<int>, x: int)
    requires Contiguous(n, counts, bases)
    requires 0 <= x < n
    ensures exists k :: 0 <= k < |counts| && InChunk(counts, bases, k, x)
    ensures forall k, k' ::
              (0 <= k < |counts| && 0 <= k' < |counts| &&
               InChunk(counts, bases, k, x) && InChunk(counts, bases, k', x)) ==> k == k'
  {
    var owner := OwnerBelow(n, counts, bases, x, |bases| - 1);
    forall k, k' | 0 <= k < |counts| && 0 <= k' < |counts| &&
                   InChunk(counts, bases, k, x) && InChunk(counts, bases, k', x)
      ensures k == k'
    {
      if k < k' {
        BasesAscend(n, counts, bases, k, k');
      } else if k' < k {
        BasesAscend(n, counts, bases, k', k);
      }
    }
  }

  /** A spot with a fixed temperature. The temperature is a float in the
      program; only its presence matters here. */
  datatype Spot = Spot(mX: int, mY: int, mTemperature: real)

  /** Spot::operator==: the same grid position, whatever the temperature. */
  function SameSpot(a: Spot, b: Spot): (r: bool)
    ensures r <==> a.(mTemperature := 0.0) == b.(mTemperature := 0.0)
  {
    a.mX == b.mX && a.mY == b.mY
  }

  /** The spot equality is an equivalence relation. */
  lemma SameSpotIsEquivalence(a: Spot, b: Spot, c: Spot)
    ensures SameSpot(a, a)
    ensures SameSpot(a, b) ==> SameSpot(b, a)
    ensures SameSpot(a, b) && SameSpot(b, c) ==> SameSpot(a, c)
  {
  }

  /** Changing a spot's temperature never changes what it equals. */
  lemma TemperatureIgnored(a: Spot, b: Spot, t: real)
    ensures SameSpot(a.(mTemperature := t), b) <==> SameSpot(a, b)
  {
  }
}
