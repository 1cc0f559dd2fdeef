/** The latency histogram of the runtime metrics: each observation is counted in at most one
  * stored bucket, and the rendering adds the buckets up. Counters are 64 bits wide. */
module Histogram {
  import opened Arithmetic

  const BOUNDS: seq<nat> := [5, 10, 25, 50, 100, 250, 500, 1000, 2500, 5000]

  // The bucket an observation is stored in; `|BOUNDS|` stands for none.
  function BucketFrom(ms: nat, i: nat): (bucket: nat)
    requires i <= |BOUNDS|
    ensures i <= bucket <= |BOUNDS|
    decreases |BOUNDS| - i
  {
    if i < |BOUNDS| && ms > BOUNDS[i] then BucketFrom(ms, i + 1) else i
  }

  function Stored(observed: seq<nat>, i: nat): nat {
    if observed == [] then 0
    else Stored(observed[1..], i) + if BucketFrom(observed[0], 0) == i then 1 else 0
  }

  function AtMost(observed: seq<nat>, bound: nat): nat {
    if observed == [] then 0
    else AtMost(observed[1..], bound) + if observed[0] <= bound then 1 else 0
  }

  function Sum(observed: seq<nat>): nat {
    if observed == [] then 0 else Sum(observed[1..]) + observed[0]
  }

  // The buckets 0..i added up.
  function StoredUpTo(observed: seq<nat>, i: nat): nat {
    Stored(observed, i) + if i == 0 then 0 else StoredUpTo(observed, i - 1)
  }

  lemma {:induction false} BucketIsFirstFit(ms: nat, from: nat, i: nat)
    requires from <= i < |BOUNDS|
    requires from > 0 ==> ms > BOUNDS[from - 1]
    ensures BucketFrom(ms, from) <= i <==> ms <= BOUNDS[i]
    decreases i - from
  {
    if ms > BOUNDS[from] && from < i {
      BucketIsFirstFit(ms, from + 1, i);
    }
  }

  lemma {:induction false} StoredUpToSplits(observed: seq<nat>, i: nat)
    requires observed != []
    ensures StoredUpTo(observed, i) == StoredUpTo(observed[1..], i) + if BucketFrom(observed[0], 0) <= i then 1 else 0
  {
    if i > 0 {
      StoredUpToSplits(observed, i - 1);
    }
  }

  lemma {:induction false} EmptyStoresNothing(i: nat)
    ensures StoredUpTo([], i) == 0
  {
    if i > 0 { EmptyStoresNothing(i - 1); }
  }

  // Although an observation touches at most one bucket, the buckets up to a boundary together
  // count exactly the observations at or below it.
  lemma {:induction false} CumulativeCountsAtMost(observed: seq<nat>, i: nat)
    requires i < |BOUNDS|
    ensures StoredUpTo(observed, i) == AtMost(observed, BOUNDS[i]) <= |observed|
  {
    if observed == [] {
      EmptyStoresNothing(i);
    } else {
      CumulativeCountsAtMost(observed[1..], i);
      StoredUpToSplits(observed, i);
      BucketIsFirstFit(observed[0], 0, i);
    }
  }

  // Wrapping before or after an addition makes no difference.
  lemma WrapOnce(a: nat, b: nat)
    ensures (a % U64 + b) % U64 == (a + b) % U64
  {}

  lemma {:induction false} StoredIsSmall(observed: seq<nat>, i: nat)
    ensures Stored(observed, i) <= |observed|
    ensures |observed| < U64 ==> Stored(observed, i) % U64 == Stored(observed, i)
  {
    if observed != [] {
      StoredIsSmall(observed[1..], i);
    }
  }

  lemma {:induction false} AtMostGrows(observed: seq<nat>, a: nat, b: nat)
    requires a <= b
    ensures AtMost(observed, a) <= AtMost(observed, b)
  {
    if observed != [] {
      AtMostGrows(observed[1..], a, b);
    }
  }

  // The buckets below the i-th added up.
  function StoredBelow(observed: seq<nat>, i: nat): nat {
    if i == 0 then 0 else StoredUpTo(observed, i - 1)
  }

  // Adding the stored bucket to those before it counts what is at or below the next boundary.
  lemma BucketIsNext(observed: seq<nat>, i: nat)
    requires i < |BOUNDS|
    ensures |observed| < U64 ==>
      && StoredBelow(observed, i) + Stored(observed, i) % U64 == StoredBelow(observed, i + 1)
      && StoredBelow(observed, i + 1) == AtMost(observed, BOUNDS[i]) <= |observed|
  {
    CumulativeCountsAtMost(observed, i);
    StoredIsSmall(observed, i);
  }

  // Nondecreasing, and nowhere above a top.
  predicate Climbs(s: seq<nat>, top: nat) {
    (forall i, j :: 0 <= i <= j < |s| ==> s[i] <= s[j]) && forall i :: 0 <= i < |s| ==> s[i] <= top
  }

  lemma ClimbsOneMore(s: seq<nat>, top: nat, next: nat)
    requires Climbs(s, top) && top <= next
    ensures Climbs(s + [next], next)
  {}

  class RuntimeMetrics {
    var sumMs: nat
    var count: nat
    const buckets: array<nat>
    // Everything observed so far, latest first.
    ghost var observed: seq<nat>

    ghost predicate Valid()
      reads this, buckets
    {
      && buckets.Length == |BOUNDS|
      && sumMs == Sum(observed) % U64
      && count == |observed| % U64
      && forall i :: 0 <= i < buckets.Length ==> buckets[i] == Stored(observed, i) % U64
    }

    constructor ()
      ensures Valid() && observed == [] && fresh(buckets)
    {
      sumMs, count, observed := 0, 0, [];
      buckets := new nat[|BOUNDS|](_ => 0);
    }

    method Observe(elapsedMs: nat)
      requires Valid()
      modifies this`sumMs, this`count, this`observed, buckets
      ensures Valid()
      ensures observed == [if elapsedMs < U64 then elapsedMs else U64 - 1] + old(observed)
    {
      var ms := if elapsedMs < U64 then elapsedMs else U64 - 1;
      ghost var earlier := observed;
      observed := [ms] + observed;
      assert observed[1..] == earlier;
      WrapOnce(Sum(earlier), ms);
      WrapOnce(|earlier|, 1);
      sumMs := (sumMs + ms) % U64;
      count := (count + 1) % U64;
      CountInBucket(ms, earlier);
    }

    // The loop over the boundaries: the first that fits is counted, and the rest are not visited.
    method CountInBucket(ms: nat, ghost earlier: seq<nat>)
      requires buckets.Length == |BOUNDS|
      requires forall i :: 0 <= i < buckets.Length ==> buckets[i] == Stored(earlier, i) % U64
      modifies buckets
      ensures forall i :: 0 <= i < buckets.Length ==> buckets[i] == Stored([ms] + earlier, i) % U64
    {
      assert ([ms] + earlier)[1..] == earlier;
      var idx := 0;
      while idx < |BOUNDS|
        invariant 0 <= idx <= |BOUNDS|
        invariant BucketFrom(ms, 0) == BucketFrom(ms, idx)
        invariant forall i :: 0 <= i < buckets.Length ==> buckets[i] == Stored(earlier, i) % U64
      {
        if ms <= BOUNDS[idx] {
          WrapOnce(Stored(earlier, idx), 1);
          buckets[idx] := (buckets[idx] + 1) % U64;
          return;
        }
        idx := idx + 1;
      }
    }

    // What is rendered: the cumulative buckets, the `+Inf` bucket and the sum. The buckets are
    // exact as long as fewer than 2^64 observations were made.
    method Render() returns (cumulative: seq<nat>, inf: nat, sum: nat)
      requires Valid()
      ensures |cumulative| == |BOUNDS|
      ensures |observed| < U64 ==> forall i :: 0 <= i < |BOUNDS| ==> cumulative[i] == AtMost(observed, BOUNDS[i])
      ensures inf == |observed| % U64 && sum == Sum(observed) % U64
      ensures forall i, j :: 0 <= i <= j < |cumulative| ==> cumulative[i] <= cumulative[j]
      ensures |observed| < U64 ==> forall i :: 0 <= i < |cumulative| ==> cumulative[i] <= inf
    {
      cumulative := [];
      var total: nat := 0;
      var idx := 0;
      while idx < |BOUNDS|
        invariant 0 <= idx <= |BOUNDS| && |cumulative| == idx && total < U64
        invariant |observed| < U64 ==> total == StoredBelow(observed, idx)
        invariant |observed| < U64 ==> forall i :: 0 <= i < idx ==> cumulative[i] == AtMost(observed, BOUNDS[i])
        invariant |observed| < U64 ==> total <= |observed|
        invariant Climbs(cumulative, total)
      {
        BucketIsNext(observed, idx);
        ghost var earlier := total;
        total := if total + buckets[idx] < U64 then total + buckets[idx] else U64 - 1;
        ClimbsOneMore(cumulative, earlier, total);
        cumulative := cumulative + [total];
        idx := idx + 1;
      }
      inf, sum := count, sumMs;
    }
  }

  lemma {:induction false} BoundsIncrease(i: nat, j: nat)
    requires i <= j < |BOUNDS|
    ensures BOUNDS[i] <= BOUNDS[j]
    decreases j - i
  {
    if i < j {
      BoundsIncrease(i + 1, j);
    }
  }

  // What is rendered never decreases from one boundary to the next, and never exceeds `+Inf`.
  lemma CumulativeBucketsNeverDecrease(observed: seq<nat>, i: nat, j: nat)
    requires i <= j < |BOUNDS|
    ensures AtMost(observed, BOUNDS[i]) <= AtMost(observed, BOUNDS[j]) <= |observed|
  {
    BoundsIncrease(i, j);
    AtMostGrows(observed, BOUNDS[i], BOUNDS[j]);
    CumulativeCountsAtMost(observed, j);
  }
}
