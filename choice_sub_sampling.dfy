/**
 * Sub-sampling of wide discrete-choice instances into instances of n_objects
 * objects.
 *
 * X holds the features and S the selection scores of N instances with m objects
 * each (a matrix of N rows of width m). The bucket size is int(m / n_objects).
 * Round i (for i below the bucket size) draws, from a generator seeded 42 + i, one
 * offset in [0, bucket size) per instance and slot, adds slot * bucket size to it,
 * gathers those columns of X and S, and labels each instance with the first index
 * of a maximum of its gathered scores. The rounds are concatenated.
 *
 * The generator is an oracle: for a seed, a bound, an instance and a slot it gives
 * a draw in [0, bound). Everything below holds for any such oracle.
 */
module ChoiceSubSampling {
  import opened Wrappers
  import opened Arith

  datatype SamplingError =
    | ZeroDivision   // int(m / n_objects) with n_objects == 0
    | NoShape        // no round ran, so the result is still the empty list, which has no shape

  /** The draw of randint(bound) seeded with seed, at (instance, slot); below bound when bound > 0. */
  type RandInt = f: (int, nat, nat, nat) -> nat
    | forall seed: int, bound: nat, row: nat, slot: nat :: 0 < bound ==> f(seed, bound, row, slot) < bound
    witness (seed: int, bound: nat, row: nat, slot: nat) => 0

  /** The sub-sampled instances and their labels. */
  datatype Sample<V> = Sample(x: seq<seq<V>>, y: seq<nat>)

  /** X and S are N by m matrices. */
  predicate Shaped<V>(X: seq<seq<V>>, S: seq<seq<int>>, m: nat)
  {
    |S| == |X| &&
    (forall r :: 0 <= r < |X| ==> |X[r]| == m) &&
    (forall r :: 0 <= r < |S| ==> |S[r]| == m)
  }

  /**
   * Python int(m / n) for m >= 0: true division truncated toward zero. Its magnitude
   * is the floor of m / |n| and its sign is that of n.
   */
  function BucketSize(m: nat, nObjects: int): (b: int)
    requires nObjects != 0
    ensures nObjects > 0 ==> 0 <= b && b * nObjects <= m < (b + 1) * nObjects
    ensures nObjects < 0 ==> b <= 0 && -b * -nObjects <= m < (-b + 1) * -nObjects
  {
    if nObjects > 0 then m / nObjects else -(m / -nObjects)
  }

  /** n slots of b columns each fit in m columns. */
  predicate Bucketed(m: nat, n: int, b: int)
  {
    0 < n && 0 < b && b * n <= m
  }

  /** The column gathered for slot j of an instance: the draw of generator 42 + round, plus j * b. */
  function DrawnColumn(rng: RandInt, b: nat, round: nat, row: nat, slot: nat): nat
  {
    rng(42 + round, b, row, slot) + slot * b
  }

  /** The gathered columns of one instance in one round: slot j draws from [j*b, (j+1)*b). */
  function RoundColumns(rng: RandInt, m: nat, n: nat, b: nat, round: nat, row: nat): (cols: seq<nat>)
    requires Bucketed(m, n, b)
    ensures |cols| == n
    ensures forall j :: 0 <= j < n ==> j * b <= cols[j] < (j + 1) * b && cols[j] < m
  {
    var cols := seq(n, j requires 0 <= j < n => DrawnColumn(rng, b, round, row, j));
    assert forall j :: 0 <= j < n ==> j * b <= cols[j] < (j + 1) * b && cols[j] < m by {
      forall j | 0 <= j < n ensures j * b <= cols[j] < (j + 1) * b && cols[j] < m {
        assert rng(42 + round, b, row, j) < b;
        assert (j + 1) * b == j * b + b;
        MulMonotone(j + 1, n, b);
      }
    }
    cols
  }

  function Gather<T>(row: seq<T>, cols: seq<nat>): (g: seq<T>)
    requires forall j :: 0 <= j < |cols| ==> cols[j] < |row|
    ensures |g| == |cols|
  {
    seq(|cols|, j requires 0 <= j < |cols| => row[cols[j]])
  }

  /** numpy argmax: the first index of a maximum. */
  function ArgMax(s: seq<int>): (k: nat)
    requires |s| > 0
    ensures k < |s|
    ensures forall j :: 0 <= j < |s| ==> s[j] <= s[k]
    ensures forall j :: 0 <= j < k ==> s[j] < s[k]
  {
    if |s| == 1 then 0
    else
      var k := ArgMax(s[..|s| - 1]);
      if s[|s| - 1] > s[k] then |s| - 1 else k
  }

  /** One round: every instance gathers n columns of X and S and is labelled with a slot below n. */
  function Round<V>(X: seq<seq<V>>, S: seq<seq<int>>, m: nat, n: nat, b: nat, rng: RandInt, i: nat): (r: Sample<V>)
    requires Shaped(X, S, m) && Bucketed(m, n, b)
    ensures |r.x| == |X| && |r.y| == |X|
    ensures forall row :: 0 <= row < |X| ==> |r.x[row]| == n && r.y[row] < n
  {
    Sample(
      seq(|X|, row requires 0 <= row < |X| => Gather(X[row], RoundColumns(rng, m, n, b, i, row))),
      seq(|X|, row requires 0 <= row < |X| => ArgMax(Gather(S[row], RoundColumns(rng, m, n, b, i, row)))))
  }

  /** Rounds 0 .. k-1 concatenated; k rounds of N instances hold k * N instances. */
  function Rounds<V>(X: seq<seq<V>>, S: seq<seq<int>>, m: nat, n: nat, b: nat, rng: RandInt, k: nat): (r: Sample<V>)
    requires Shaped(X, S, m) && Bucketed(m, n, b)
    ensures |r.x| == k * |X| && |r.y| == k * |X|
  {
    if k == 0 then Sample([], [])
    else
      var prev := Rounds(X, S, m, n, b, rng, k - 1);
      var cur := Round(X, S, m, n, b, rng, k - 1);
      assert (k - 1) * |X| + |X| == k * |X|;
      Sample(prev.x + cur.x, prev.y + cur.y)
  }

  lemma BucketedWhenPositive(m: nat, nObjects: int)
    requires nObjects != 0 && BucketSize(m, nObjects) > 0
    ensures nObjects > 0 && Bucketed(m, nObjects, BucketSize(m, nObjects))
  {
  }

  /** What sub_sampling_discerete_choices returns, for a given generator. */
  function SubSampling<V>(X: seq<seq<V>>, S: seq<seq<int>>, m: nat, nObjects: int, rng: RandInt): Result<Sample<V>, SamplingError>
    requires Shaped(X, S, m)
  {
    if nObjects == 0 then Failure(ZeroDivision)
    else
      var b := BucketSize(m, nObjects);
      if b <= 0 then Failure(NoShape)
      else
        BucketedWhenPositive(m, nObjects);
        Success(Rounds(X, S, m, nObjects, b, rng, b))
  }

  /**
   * sub_sampling_discerete_choices: one round per bucket; the first round replaces
   * the empty result, later rounds are appended to it.
   */
  method SubSampleDiscreteChoices<V>(X: seq<seq<V>>, S: seq<seq<int>>, m: nat, nObjects: int, rng: RandInt)
    returns (r: Result<Sample<V>, SamplingError>)
    requires Shaped(X, S, m)
    ensures r == SubSampling(X, S, m, nObjects, rng)
  {
    if nObjects == 0 {
      return Failure(ZeroDivision);
    }
    var bucketSize := BucketSize(m, nObjects);
    var xTrain: seq<seq<V>> := [];
    var yTrain: seq<nat> := [];
    var isList := true;  // the result is still the initial empty list
    var i := 0;
    while i < bucketSize
      invariant 0 <= i && (0 < bucketSize ==> i <= bucketSize)
      invariant isList <==> i == 0
      invariant i == 0 ==> xTrain == [] && yTrain == []
      invariant 0 < i ==> Bucketed(m, nObjects, bucketSize)
      invariant 0 < i ==> Sample(xTrain, yTrain) == Rounds(X, S, m, nObjects, bucketSize, rng, i)
    {
      BucketedWhenPositive(m, nObjects);
      var round := Round(X, S, m, nObjects, bucketSize, rng, i);
      if |xTrain| == 0 {
        assert |yTrain| == 0;
        xTrain, yTrain := round.x, round.y;
      } else {
        yTrain := yTrain + round.y;
        xTrain := xTrain + round.x;
      }
      isList := false;
      i := i + 1;
    }
    if isList {
      return Failure(NoShape);
    }
    r := Success(Sample(xTrain, yTrain));
  }

  // ---------------------------------------------------------------------------
  // Properties of the sub-sampler.
  // ---------------------------------------------------------------------------

  /**
   * The sub-sampler fails exactly when the bucket size is not positive, that is
   * when n_objects is not positive or exceeds m; it divides by zero when n_objects is 0.
   */
  lemma SubSamplingFails<V>(X: seq<seq<V>>, S: seq<seq<int>>, m: nat, nObjects: int, rng: RandInt)
    requires Shaped(X, S, m)
    ensures SubSampling(X, S, m, nObjects, rng).Failure? <==> nObjects <= 0 || m < nObjects
    ensures SubSampling(X, S, m, nObjects, rng) == Failure(ZeroDivision) <==> nObjects == 0
  {
  }

  /** Instance i * N + r of the concatenation is instance r of round i. */
  lemma {:induction false} RoundsAt<V>(X: seq<seq<V>>, S: seq<seq<int>>, m: nat, n: nat, b: nat, rng: RandInt,
                                     k: nat, i: nat, r: nat)
    requires Shaped(X, S, m) && Bucketed(m, n, b)
    requires i < k && r < |X|
    ensures i * |X| + r < k * |X|
    ensures Rounds(X, S, m, n, b, rng, k).x[i * |X| + r] == Round(X, S, m, n, b, rng, i).x[r]
    ensures Rounds(X, S, m, n, b, rng, k).y[i * |X| + r] == Round(X, S, m, n, b, rng, i).y[r]
  {
    var prev := Rounds(X, S, m, n, b, rng, k - 1);
    assert |prev.x| == (k - 1) * |X|;
    if i < k - 1 {
      RoundsAt(X, S, m, n, b, rng, k - 1, i, r);
    } else {
      assert i * |X| == (k - 1) * |X|;
    }
  }

  /**
   * On success there are N * bucket size instances of n_objects objects each, as
   * many labels, and every label is an index below n_objects.
   */
  lemma SubSamplingShape<V>(X: seq<seq<V>>, S: seq<seq<int>>, m: nat, nObjects: int, rng: RandInt)
    requires Shaped(X, S, m)
    requires SubSampling(X, S, m, nObjects, rng).Success?
    ensures var out := SubSampling(X, S, m, nObjects, rng).value;
      var b := m / nObjects;
      nObjects > 0 &&
      |out.x| == |X| * b && |out.y| == |X| * b &&
      (forall t :: 0 <= t < |out.x| ==> |out.x[t]| == nObjects) &&
      (forall t :: 0 <= t < |out.y| ==> out.y[t] < nObjects)
  {
    var b := BucketSize(m, nObjects);
    BucketedWhenPositive(m, nObjects);
    var out := Rounds(X, S, m, nObjects, b, rng, b);
    forall t | 0 <= t < |out.x| ensures |out.x[t]| == nObjects && out.y[t] < nObjects {
      var i, r := t / |X|, t % |X|;
      assert t == i * |X| + r;
      if i >= b {
        MulMonotone(b, i, |X|);
      }
      RoundsAt(X, S, m, nObjects, b, rng, b, i, r);
    }
  }

  /**
   * On success, instance i * N + r is instance r of round i: its slot j is the
   * column DrawnColumn(rng, b, i, r, j) of row r, which lies in [j*b, (j+1)*b) and
   * below m.
   */
  lemma SubSampledInstance<V>(X: seq<seq<V>>, S: seq<seq<int>>, m: nat, nObjects: int, rng: RandInt,
                              i: nat, r: nat)
    requires Shaped(X, S, m)
    requires SubSampling(X, S, m, nObjects, rng).Success?
    requires i < m / nObjects && r < |X|
    ensures var out := SubSampling(X, S, m, nObjects, rng).value;
      var b := m / nObjects;
      var t := i * |X| + r;
      t < |out.x| && |out.x[t]| == nObjects &&
      (forall j :: 0 <= j < nObjects ==>
        j * b <= DrawnColumn(rng, b, i, r, j) < (j + 1) * b && DrawnColumn(rng, b, i, r, j) < m) &&
      (forall j :: 0 <= j < nObjects ==> out.x[t][j] == X[r][DrawnColumn(rng, b, i, r, j)])
  {
    var b := BucketSize(m, nObjects);
    BucketedWhenPositive(m, nObjects);
    RoundsAt(X, S, m, nObjects, b, rng, b, i, r);
    var cols := RoundColumns(rng, m, nObjects, b, i, r);
    assert forall j :: 0 <= j < nObjects ==> cols[j] == DrawnColumn(rng, b, i, r, j);
  }

  /**
   * On success, the label of instance i * N + r is the first index of a maximum of
   * the scores gathered from the same columns of S.
   */
  lemma SubSampledLabel<V>(X: seq<seq<V>>, S: seq<seq<int>>, m: nat, nObjects: int, rng: RandInt,
                           i: nat, r: nat)
    requires Shaped(X, S, m)
    requires SubSampling(X, S, m, nObjects, rng).Success?
    requires i < m / nObjects && r < |X|
    ensures var out := SubSampling(X, S, m, nObjects, rng).value;
      var b := m / nObjects;
      var t := i * |X| + r;
      t < |out.y| && out.y[t] < nObjects &&
      (forall j :: 0 <= j < nObjects ==> DrawnColumn(rng, b, i, r, j) < m) &&
      (forall j :: 0 <= j < nObjects ==>
        S[r][DrawnColumn(rng, b, i, r, j)] <= S[r][DrawnColumn(rng, b, i, r, out.y[t])]) &&
      (forall j :: 0 <= j < out.y[t] ==>
        S[r][DrawnColumn(rng, b, i, r, j)] < S[r][DrawnColumn(rng, b, i, r, out.y[t])])
  {
    var b := BucketSize(m, nObjects);
    BucketedWhenPositive(m, nObjects);
    RoundsAt(X, S, m, nObjects, b, rng, b, i, r);
    var cols := RoundColumns(rng, m, nObjects, b, i, r);
    var g := Gather(S[r], cols);
    var out := Rounds(X, S, m, nObjects, b, rng, b);
    var t := i * |X| + r;
    var best := ArgMax(g);
    assert out.y[t] == best;
    forall j | 0 <= j < nObjects
      ensures cols[j] == DrawnColumn(rng, b, i, r, j) && g[j] == S[r][cols[j]]
    {
    }
  }
}
