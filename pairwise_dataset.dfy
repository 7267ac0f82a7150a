/**
 * Pairwise instance generation for discrete-choice datasets.
 *
 * An object is a feature vector of the generic type F. One instance is an
 * object set x; its chosen object is one feature vector. The generator pairs
 * every object of x with the chosen object, swaps the sides of the pairs at even
 * positions, and labels each pair: [0, 1] and 0 at even positions, [1, 0] and 1
 * at odd ones. The complete-dataset generator does this for every instance, the
 * chosen object being picked by the instance's index, and concatenates the
 * results in instance order.
 */
module PairwiseDataset {
  import opened Wrappers

  datatype PairwiseError =
    | TooManyIndices     // an empty object set yields a one-dimensional pair array
    | IndexOutOfBounds   // a chosen index outside the instance's objects

  /** The four arrays returned: both sides of each pair, the one-hot and the scalar labels. */
  datatype Pairwise<F> = Pairwise(x1: seq<F>, x2: seq<F>, yDouble: seq<seq<int>>, ySingle: seq<int>)

  function EmptyPairwise<F>(): Pairwise<F>
  {
    Pairwise([], [], [], [])
  }

  function Append<F>(a: Pairwise<F>, b: Pairwise<F>): Pairwise<F>
  {
    Pairwise(a.x1 + b.x1, a.x2 + b.x2, a.yDouble + b.yDouble, a.ySingle + b.ySingle)
  }

  function Slice<F>(p: Pairwise<F>, lo: nat, hi: nat): Pairwise<F>
    requires lo <= hi <= |p.x1| && hi <= |p.x2| && hi <= |p.yDouble| && hi <= |p.ySingle|
  {
    Pairwise(p.x1[lo..hi], p.x2[lo..hi], p.yDouble[lo..hi], p.ySingle[lo..hi])
  }

  /** All four arrays hold n entries. */
  predicate HasLength<F>(p: Pairwise<F>, n: nat)
  {
    |p.x1| == n && |p.x2| == n && |p.yDouble| == n && |p.ySingle| == n
  }

  /**
   * Reference definition of the pairs of one instance, position by position:
   * pair k is (choice, x[k]) labelled [0, 1] and 0 when k is even, and
   * (x[k], choice) labelled [1, 0] and 1 when k is odd.
   */
  function Pairs<F>(x: seq<F>, choice: F): Pairwise<F>
  {
    Pairwise(
      seq(|x|, k requires 0 <= k < |x| => if k % 2 == 0 then choice else x[k]),
      seq(|x|, k requires 0 <= k < |x| => if k % 2 == 0 then x[k] else choice),
      seq(|x|, k => if k % 2 == 0 then [0, 1] else [1, 0]),
      seq(|x|, k => if k % 2 == 0 then 0 else 1))
  }

  /**
   * generate_pairwise_instances: build the product of x with the choice, swap the
   * sides of the pairs at the even positions in place, fill the labels with
   * [1, 0] and 1 and overwrite them at the even positions.
   */
  method GeneratePairwiseInstances<F>(x: seq<F>, choice: F) returns (r: Result<Pairwise<F>, PairwiseError>)
    ensures r.Failure? <==> |x| == 0
    ensures r.Failure? ==> r.error == TooManyIndices
    ensures r.Success? ==> r.value == Pairs(x, choice)
  {
    var n := |x|;
    if n == 0 {
      return Failure(TooManyIndices);
    }
    var left := new F[n](k requires 0 <= k < n => x[k]);
    var right := new F[n](_ => choice);
    var yDouble := new seq<int>[n](_ => [1, 0]);
    var ySingle := new int[n](_ => 1);
    var k := 0;
    while k < n
      invariant 0 <= k <= n + 1 && k % 2 == 0
      invariant forall t :: 0 <= t < n ==> left[t] == (if t < k && t % 2 == 0 then choice else x[t])
      invariant forall t :: 0 <= t < n ==> right[t] == (if t < k && t % 2 == 0 then x[t] else choice)
      invariant forall t :: 0 <= t < n ==> yDouble[t] == (if t < k && t % 2 == 0 then [0, 1] else [1, 0])
      invariant forall t :: 0 <= t < n ==> ySingle[t] == (if t < k && t % 2 == 0 then 0 else 1)
    {
      left[k], right[k] := right[k], left[k];
      yDouble[k] := [0, 1];
      ySingle[k] := 0;
      k := k + 2;
    }
    r := Success(Pairwise(left[..], right[..], yDouble[..], ySingle[..]));
    assert r.value.x1 == Pairs(x, choice).x1;
    assert r.value.x2 == Pairs(x, choice).x2;
    assert r.value.yDouble == Pairs(x, choice).yDouble;
    assert r.value.ySingle == Pairs(x, choice).ySingle;
  }

  // ---------------------------------------------------------------------------
  // Properties of the pairs of one instance.
  // ---------------------------------------------------------------------------

  /** One pair per object, in all four arrays. */
  lemma PairsLength<F>(x: seq<F>, choice: F)
    ensures HasLength(Pairs(x, choice), |x|)
  {
  }

  /**
   * Each pair holds the object and the choice, and the scalar label says on which
   * side the choice is: on the left when it is 0, on the right when it is 1.
   */
  lemma LabelLocatesChoice<F>(x: seq<F>, choice: F, k: nat)
    requires k < |x|
    ensures var p := Pairs(x, choice);
      p.ySingle[k] in {0, 1} &&
      (p.ySingle[k] == 0 ==> p.x1[k] == choice && p.x2[k] == x[k]) &&
      (p.ySingle[k] == 1 ==> p.x1[k] == x[k] && p.x2[k] == choice)
  {
  }

  /** The unordered pair at each position is {x[k], choice}. */
  lemma UnorderedPairs<F>(x: seq<F>, choice: F)
    ensures forall k :: 0 <= k < |x| ==>
      multiset{Pairs(x, choice).x1[k], Pairs(x, choice).x2[k]} == multiset{x[k], choice}
  {
  }

  /** The one-hot label is [0, 1] or [1, 0], and its first entry is the scalar label. */
  lemma LabelsAgree<F>(x: seq<F>, choice: F, k: nat)
    requires k < |x|
    ensures var p := Pairs(x, choice);
      (p.yDouble[k] == [0, 1] || p.yDouble[k] == [1, 0]) && p.yDouble[k][0] == p.ySingle[k]
  {
  }

  /** Number of entries of s equal to v. */
  function Count(s: seq<int>, v: int): nat
  {
    if s == [] then 0 else Count(s[..|s| - 1], v) + (if s[|s| - 1] == v then 1 else 0)
  }

  /** The swapped (label 0) pairs are the ceil(n/2) even positions; the other floor(n/2) keep label 1. */
  lemma {:induction false} LabelCounts<F>(x: seq<F>, choice: F)
    ensures Count(Pairs(x, choice).ySingle, 0) == (|x| + 1) / 2
    ensures Count(Pairs(x, choice).ySingle, 1) == |x| / 2
  {
    if x != [] {
      var n := |x|;
      var prev := x[..n - 1];
      LabelCounts(prev, choice);
      assert Pairs(x, choice).ySingle[..n - 1] == Pairs(prev, choice).ySingle;
    }
  }

  /** Objects 1, 2, 3 with choice 9 give sides 9, 2, 9 and 1, 9, 3 with labels 0, 1, 0. */
  lemma PairsExample(x: seq<seq<int>>, choice: seq<int>)
    requires x == [[1], [2], [3]] && choice == [9]
    ensures Pairs(x, choice) ==
      Pairwise([[9], [2], [9]], [[1], [9], [3]], [[0, 1], [1, 0], [0, 1]], [0, 1, 0])
  {
    var p := Pairs(x, choice);
    assert p.x1 == [[9], [2], [9]];
    assert p.x2 == [[1], [9], [3]];
    assert p.yDouble == [[0, 1], [1, 0], [0, 1]];
    assert p.ySingle == [0, 1, 0];
  }

  // ---------------------------------------------------------------------------
  // The complete dataset.
  // ---------------------------------------------------------------------------

  /** Python sequence indexing: -n <= y < 0 counts from the end, anything else outside [0, n) fails. */
  function PyIndex(y: int, n: nat): (r: Option<nat>)
    ensures r.Some? <==> 0 <= y + n && y < n
    ensures r.Some? ==> r.value < n && (r.value == y || r.value == y + n)
  {
    if 0 <= y < n then Some(y)
    else if 0 <= y + n && y < 0 then Some(y + n)
    else None
  }

  /** X[arange(N), Y]: the chosen object of every instance, or the index error. */
  function Choices<F>(X: seq<seq<F>>, Y: seq<int>): (r: Result<seq<F>, PairwiseError>)
    requires |Y| == |X|
    ensures r.Success? <==> forall i :: 0 <= i < |X| ==> PyIndex(Y[i], |X[i]|).Some?
    ensures r.Failure? ==> r.error == IndexOutOfBounds
    ensures r.Success? ==> |r.value| == |X|
    ensures r.Success? ==> forall i :: 0 <= i < |X| ==> r.value[i] == X[i][PyIndex(Y[i], |X[i]|).value]
  {
    if X == [] then Success([])
    else
      var n := |X| - 1;
      match PyIndex(Y[n], |X[n]|)
      case None => Failure(IndexOutOfBounds)
      case Some(c) =>
        match Choices(X[..n], Y[..n])
        case Failure(e) => Failure(e)
        case Success(cs) => Success(cs + [X[n][c]])
  }

  /** Reference definition: the pairs of every instance, concatenated in instance order. */
  function ExpandAll<F>(X: seq<seq<F>>, choices: seq<F>): Pairwise<F>
    requires |choices| == |X|
  {
    if X == [] then EmptyPairwise()
    else
      var n := |X| - 1;
      Append(ExpandAll(X[..n], choices[..n]), Pairs(X[n], choices[n]))
  }

  /** What generate_complete_pairwise_dataset returns. */
  function CompletePairwise<F>(X: seq<seq<F>>, Y: seq<int>): Result<Pairwise<F>, PairwiseError>
    requires |Y| == |X|
  {
    match Choices(X, Y)
    case Failure(e) => Failure(e)
    case Success(cs) => Success(ExpandAll(X, cs))
  }

  /**
   * generate_complete_pairwise_dataset: pick the chosen objects, then extend four
   * accumulators with the pairs of each instance in turn.
   */
  method GenerateCompletePairwiseDataset<F>(X: seq<seq<F>>, Y: seq<int>) returns (r: Result<Pairwise<F>, PairwiseError>)
    requires |Y| == |X|
    ensures r == CompletePairwise(X, Y)
  {
    var chosen := Choices(X, Y);
    if chosen.Failure? {
      return Failure(chosen.error);
    }
    var choices := chosen.value;
    var x1: seq<F>, x2: seq<F>, yDouble: seq<seq<int>>, ySingle: seq<int> := [], [], [], [];
    var i := 0;
    while i < |X|
      invariant 0 <= i <= |X|
      invariant Pairwise(x1, x2, yDouble, ySingle) == ExpandAll(X[..i], choices[..i])
    {
      assert PyIndex(Y[i], |X[i]|).Some?;
      var instance := GeneratePairwiseInstances(X[i], choices[i]);
      var p := instance.value;
      x1, x2, yDouble, ySingle := x1 + p.x1, x2 + p.x2, yDouble + p.yDouble, ySingle + p.ySingle;
      assert X[..i + 1][..i] == X[..i] && choices[..i + 1][..i] == choices[..i];
      i := i + 1;
    }
    assert X[..i] == X && choices[..i] == choices;
    r := Success(Pairwise(x1, x2, yDouble, ySingle));
  }

  // ---------------------------------------------------------------------------
  // Properties of the complete dataset.
  // ---------------------------------------------------------------------------

  /** Total number of objects over all instances. */
  function TotalObjects<F>(X: seq<seq<F>>): nat
  {
    if X == [] then 0 else TotalObjects(X[..|X| - 1]) + |X[|X| - 1]|
  }

  /** The output holds one pair per object of every instance. */
  lemma {:induction false} ExpandAllLength<F>(X: seq<seq<F>>, choices: seq<F>)
    requires |choices| == |X|
    ensures HasLength(ExpandAll(X, choices), TotalObjects(X))
  {
    if X != [] {
      var n := |X| - 1;
      ExpandAllLength(X[..n], choices[..n]);
      PairsLength(X[n], choices[n]);
    }
  }

  lemma {:induction false} TotalObjectsPrefix<F>(X: seq<seq<F>>, i: nat)
    requires i < |X|
    ensures TotalObjects(X[..i]) + |X[i]| <= TotalObjects(X)
  {
    var n := |X| - 1;
    assert X[..n + 1] == X;
    if i < n {
      TotalObjectsPrefix(X[..n], i);
      assert X[..n][..i] == X[..i];
    }
  }

  lemma SliceAppendLeft<F>(a: Pairwise<F>, b: Pairwise<F>, na: nat, nb: nat, lo: nat, hi: nat)
    requires HasLength(a, na) && HasLength(b, nb) && lo <= hi <= na
    ensures HasLength(Append(a, b), na + nb)
    ensures Slice(Append(a, b), lo, hi) == Slice(a, lo, hi)
  {
  }

  lemma SliceAppendRight<F>(a: Pairwise<F>, b: Pairwise<F>, na: nat, nb: nat)
    requires HasLength(a, na) && HasLength(b, nb)
    ensures HasLength(Append(a, b), na + nb)
    ensures Slice(Append(a, b), na, na + nb) == b
  {
  }

  /**
   * The block of instance i starts after the pairs of the instances before it and
   * equals the pairs generated for instance i alone.
   */
  lemma {:induction false} ExpandAllBlock<F>(X: seq<seq<F>>, choices: seq<F>, i: nat)
    requires |choices| == |X| && i < |X|
    ensures var all := ExpandAll(X, choices);
      var lo := TotalObjects(X[..i]);
      HasLength(all, TotalObjects(X)) && lo + |X[i]| <= TotalObjects(X) &&
      Slice(all, lo, lo + |X[i]|) == Pairs(X[i], choices[i])
  {
    var n := |X| - 1;
    var prev := ExpandAll(X[..n], choices[..n]);
    var last := Pairs(X[n], choices[n]);
    var lo := TotalObjects(X[..i]);
    ExpandAllLength(X, choices);
    ExpandAllLength(X[..n], choices[..n]);
    PairsLength(X[n], choices[n]);
    TotalObjectsPrefix(X, i);
    assert ExpandAll(X, choices) == Append(prev, last);
    if i < n {
      ExpandAllBlock(X[..n], choices[..n], i);
      assert X[..n][..i] == X[..i] && X[..n][i] == X[i] && choices[..n][i] == choices[i];
      SliceAppendLeft(prev, last, TotalObjects(X[..n]), |X[n]|, lo, lo + |X[i]|);
    } else {
      SliceAppendRight(prev, last, TotalObjects(X[..n]), |X[n]|);
    }
  }

  /** The complete dataset fails exactly when some chosen index is out of range. */
  lemma CompleteFailsOnBadIndex<F>(X: seq<seq<F>>, Y: seq<int>)
    requires |Y| == |X|
    ensures CompletePairwise(X, Y).Failure? <==> exists i :: 0 <= i < |X| && !(-|X[i]| <= Y[i] < |X[i]|)
    ensures CompletePairwise(X, Y).Failure? ==> CompletePairwise(X, Y).error == IndexOutOfBounds
  {
  }

  /**
   * On success, the output has one pair per object over all instances, and the
   * block of instance i is the instance's own pairs with the object at the chosen
   * index as the choice.
   */
  lemma CompleteBlocks<F>(X: seq<seq<F>>, Y: seq<int>, i: nat)
    requires |Y| == |X| && i < |X|
    requires CompletePairwise(X, Y).Success?
    ensures var p := CompletePairwise(X, Y).value;
      var lo := TotalObjects(X[..i]);
      var c := PyIndex(Y[i], |X[i]|);
      c.Some? && c.value < |X[i]| &&
      HasLength(p, TotalObjects(X)) && lo + |X[i]| <= TotalObjects(X) &&
      Slice(p, lo, lo + |X[i]|) == Pairs(X[i], X[i][c.value])
  {
    var cs := Choices(X, Y).value;
    ExpandAllBlock(X, cs, i);
  }

  /** The chosen object is paired with itself: no self-pair is removed. */
  lemma SelfPairKept<F>(X: seq<seq<F>>, Y: seq<int>, i: nat)
    requires |Y| == |X| && i < |X|
    requires CompletePairwise(X, Y).Success?
    ensures var p := CompletePairwise(X, Y).value;
      var c := PyIndex(Y[i], |X[i]|).value;
      var at := TotalObjects(X[..i]) + c;
      c < |X[i]| && at < |p.x1| && at < |p.x2| &&
      p.x1[at] == X[i][c] && p.x2[at] == X[i][c]
  {
    CompleteBlocks(X, Y, i);
    var p := CompletePairwise(X, Y).value;
    var c := PyIndex(Y[i], |X[i]|).value;
    var lo := TotalObjects(X[..i]);
    var block := Slice(p, lo, lo + |X[i]|);
    assert block.x1[c] == p.x1[lo + c] && block.x2[c] == p.x2[lo + c];
  }
}
