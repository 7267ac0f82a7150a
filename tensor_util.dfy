/**
 * Rank recovery and instance counting from the tensor utilities.
 *
 * Scores are integer keys (the source works on floats); a batch is a sequence of
 * rows of equal width. The framework's top_k with k equal to the row width is a
 * stable descending sort of the indices: among equal keys the lower index comes
 * first, as the framework documents.
 */
module TensorUtil {
  import opened Wrappers
  import opened Arith

  datatype TensorError =
    | NegativeK      // top_k refuses k < 0
    | KTooLarge      // top_k refuses a row with fewer than k entries

  /** Index a is placed before index b by a stable descending sort of keys. */
  predicate Before(keys: seq<int>, a: nat, b: nat)
    requires a < |keys| && b < |keys|
  {
    keys[a] > keys[b] || (keys[a] == keys[b] && a < b)
  }

  /** Every earlier entry of idx is placed before every later one. */
  predicate SortedBy(keys: seq<int>, idx: seq<nat>)
  {
    (forall t :: 0 <= t < |idx| ==> idx[t] < |keys|) &&
    (forall p, q :: 0 <= p < q < |idx| ==> Before(keys, idx[p], idx[q]))
  }

  /** p lists each of 0 .. n-1 exactly once. */
  predicate IsPermutation(p: seq<nat>, n: nat)
  {
    |p| == n &&
    (forall t :: 0 <= t < n ==> p[t] < n) &&
    (forall s, t :: 0 <= s < t < n ==> p[s] != p[t])
  }

  /** Insert index i into a sorted index list, after every index placed before it. */
  function Insert(keys: seq<int>, i: nat, s: seq<nat>): (r: seq<nat>)
    requires i < |keys| && i !in s && SortedBy(keys, s)
    ensures |r| == |s| + 1
    ensures forall v :: v in r <==> v == i || v in s
    ensures SortedBy(keys, r)
  {
    if s == [] then [i]
    else if Before(keys, s[0], i) then
      var tail := Insert(keys, i, s[1..]);
      assert forall t :: 0 <= t < |tail| ==> Before(keys, s[0], tail[t]) by {
        forall t | 0 <= t < |tail| ensures Before(keys, s[0], tail[t]) {
          assert tail[t] in tail;
          if tail[t] != i {
            var u :| 0 <= u < |s[1..]| && s[1..][u] == tail[t];
            assert Before(keys, s[0], s[u + 1]);
          }
        }
      }
      [s[0]] + tail
    else
      assert forall t :: 0 <= t < |s| ==> Before(keys, i, s[t]) by {
        forall t | 0 <= t < |s| ensures Before(keys, i, s[t]) {
          if t > 0 { assert Before(keys, s[0], s[t]); }
        }
      }
      [i] + s
  }

  /** The indices 0 .. n-1 of keys, sorted descending by key, ties by ascending index. */
  function ArgSortDesc(keys: seq<int>, n: nat): (r: seq<nat>)
    requires n <= |keys|
    ensures |r| == n
    ensures forall v: int :: v in r <==> 0 <= v < n
    ensures SortedBy(keys, r)
  {
    if n == 0 then []
    else
      var prefix := ArgSortDesc(keys, n - 1);
      assert n - 1 !in prefix;
      Insert(keys, n - 1, prefix)
  }

  /** The framework's top_k: the indices of the k largest keys, largest first. */
  function TopK(keys: seq<int>, k: nat): (r: seq<nat>)
    requires k <= |keys|
    ensures |r| == k
    ensures SortedBy(keys, r)
    ensures forall v: nat, t :: v < |keys| && v !in r && 0 <= t < k ==> Before(keys, r[t], v)
  {
    var full := ArgSortDesc(keys, |keys|);
    assert forall v: nat, t :: v < |keys| && v !in full[..k] && 0 <= t < k ==> Before(keys, full[t], v) by {
      forall v: nat, t | v < |keys| && v !in full[..k] && 0 <= t < k ensures Before(keys, full[t], v) {
        assert v in full;
        assert full == full[..k] + full[k..];
        assert v in full[k..];
        var u :| 0 <= u < |full[k..]| && full[k..][u] == v;
        assert Before(keys, full[t], full[k + u]);
      }
    }
    full[..k]
  }

  /** s[::-1] */
  function Reverse<T>(s: seq<T>): seq<T>
  {
    seq(|s|, t requires 0 <= t < |s| => s[|s| - 1 - t])
  }

  /** Reversing a permutation of 0 .. n-1 gives a permutation of 0 .. n-1. */
  lemma ReverseKeepsPermutation(p: seq<nat>, n: nat)
    requires IsPermutation(p, n)
    ensures IsPermutation(Reverse(p), n)
  {
  }

  function AsKeys(s: seq<nat>): seq<int>
  {
    seq(|s|, t requires 0 <= t < |s| => s[t] as int)
  }

  /**
   * One row of scores_to_rankings: top_k of the scores, top_k of that, reversed.
   * The k ranks are a permutation of 0 .. k-1.
   */
  function RowRanking(scores: seq<int>, k: nat): (r: seq<nat>)
    requires k <= |scores|
    ensures IsPermutation(r, k)
  {
    var orderings := TopK(scores, k);
    var q := TopK(AsKeys(orderings), k);
    SortedIsPermutation(AsKeys(orderings), q);
    ReverseKeepsPermutation(q, k);
    Reverse(q)
  }

  /** scores_to_rankings over a batch whose rows all have the given width. */
  function ScoresToRankings(k: int, yPred: seq<seq<int>>, width: nat): (r: Result<seq<seq<nat>>, TensorError>)
    requires forall b :: 0 <= b < |yPred| ==> |yPred[b]| == width
    ensures r.Failure? <==> k < 0 || k > width
    ensures r.Success? ==> |r.value| == |yPred|
    ensures r.Success? ==> forall b :: 0 <= b < |yPred| ==> r.value[b] == RowRanking(yPred[b], k)
  {
    if k < 0 then Failure(NegativeK)
    else if k > width then Failure(KTooLarge)
    else Success(seq(|yPred|, b requires 0 <= b < |yPred| => RowRanking(yPred[b], k)))
  }

  // ---------------------------------------------------------------------------
  // Rank recovery: the second sort inverts the first.
  // ---------------------------------------------------------------------------

  lemma {:induction false} SortedIsPermutation(keys: seq<int>, r: seq<nat>)
    requires |r| == |keys| && SortedBy(keys, r)
    ensures IsPermutation(r, |keys|)
  {
  }

  /** A strictly decreasing sequence of n values in [0, n) is n-1, ..., 0 (lower bound). */
  lemma {:induction false} DecreasingAtLeast(v: seq<int>, t: nat)
    requires t < |v|
    requires forall s :: 0 <= s < |v| ==> 0 <= v[s]
    requires forall p, q :: 0 <= p < q < |v| ==> v[p] > v[q]
    ensures v[t] >= |v| - 1 - t
    decreases |v| - t
  {
    if t + 1 < |v| {
      DecreasingAtLeast(v, t + 1);
      assert v[t] > v[t + 1];
    }
  }

  /** A strictly decreasing sequence of n values in [0, n) is n-1, ..., 0 (upper bound). */
  lemma {:induction false} DecreasingAtMost(v: seq<int>, t: nat)
    requires t < |v|
    requires forall s :: 0 <= s < |v| ==> v[s] < |v|
    requires forall p, q :: 0 <= p < q < |v| ==> v[p] > v[q]
    ensures v[t] <= |v| - 1 - t
  {
    if t > 0 {
      DecreasingAtMost(v, t - 1);
      assert v[t - 1] > v[t];
    }
  }

  /** Sorting a permutation o descending by its own values puts value n-1-t at position t. */
  lemma {:induction false} ArgSortOfPermutation(o: seq<nat>)
    requires IsPermutation(o, |o|)
    ensures forall t :: 0 <= t < |o| ==> o[ArgSortDesc(AsKeys(o), |o|)[t]] == |o| - 1 - t
  {
    var n := |o|;
    var keys := AsKeys(o);
    var q := ArgSortDesc(keys, n);
    SortedIsPermutation(keys, q);
    var v := seq(n, t requires 0 <= t < n => o[q[t]] as int);
    forall a, b | 0 <= a < b < n ensures v[a] > v[b] {
      assert Before(keys, q[a], q[b]);
    }
    forall t | 0 <= t < n ensures o[q[t]] == n - 1 - t {
      DecreasingAtLeast(v, t);
      DecreasingAtMost(v, t);
    }
  }

  /**
   * For any permutation o of 0 .. n-1 (whatever produced it), reversing the
   * descending argsort of o gives the inverse of o: entry j is the position of j in o.
   */
  lemma {:induction false} ReversedArgSortInverts(o: seq<nat>)
    requires IsPermutation(o, |o|)
    ensures IsPermutation(Reverse(ArgSortDesc(AsKeys(o), |o|)), |o|)
    ensures forall j :: 0 <= j < |o| ==> o[Reverse(ArgSortDesc(AsKeys(o), |o|))[j]] == j
    ensures forall p :: 0 <= p < |o| ==> Reverse(ArgSortDesc(AsKeys(o), |o|))[o[p]] == p
  {
    var n := |o|;
    var q := ArgSortDesc(AsKeys(o), n);
    var rk := Reverse(q);
    SortedIsPermutation(AsKeys(o), q);
    ArgSortOfPermutation(o);
    ReverseKeepsPermutation(q, n);
    forall j | 0 <= j < n ensures o[rk[j]] == j {
      assert rk[j] == q[n - 1 - j];
    }
    forall p | 0 <= p < n ensures rk[o[p]] == p {
      assert o[rk[o[p]]] == o[p];
    }
  }

  // ---------------------------------------------------------------------------
  // Properties of one row, with k equal to the row width.
  // ---------------------------------------------------------------------------

  /**
   * The ranking of a row is a permutation of 0 .. n-1, and it is the inverse of the
   * descending ordering: object j sits at position rankings[j] of the ordering.
   */
  lemma RankingIsInverseOfOrdering(scores: seq<int>)
    ensures IsPermutation(RowRanking(scores, |scores|), |scores|)
    ensures forall j :: 0 <= j < |scores| ==>
      TopK(scores, |scores|)[RowRanking(scores, |scores|)[j]] == j
    ensures forall p :: 0 <= p < |scores| ==>
      RowRanking(scores, |scores|)[TopK(scores, |scores|)[p]] == p
  {
    var o := TopK(scores, |scores|);
    assert o == ArgSortDesc(scores, |scores|);
    SortedIsPermutation(scores, o);
    ReversedArgSortInverts(o);
  }

  /** Ranks follow the descending order of scores, and equal scores keep index order. */
  lemma RankOrder(scores: seq<int>, a: nat, b: nat)
    requires a < |scores| && b < |scores| && a != b
    requires scores[a] > scores[b] || (scores[a] == scores[b] && a < b)
    ensures RowRanking(scores, |scores|)[a] < RowRanking(scores, |scores|)[b]
  {
    var n := |scores|;
    var o := TopK(scores, n);
    var rk := RowRanking(scores, n);
    RankingIsInverseOfOrdering(scores);
    assert o == ArgSortDesc(scores, n);
    assert o[rk[a]] == a && o[rk[b]] == b;
  }

  /** With distinct scores, a higher score always means a smaller (better) rank. */
  lemma HigherScoreBetterRank(scores: seq<int>, a: nat, b: nat)
    requires a < |scores| && b < |scores|
    requires scores[a] > scores[b]
    ensures RowRanking(scores, |scores|)[a] < RowRanking(scores, |scores|)[b]
  {
    RankOrder(scores, a, b);
  }

  /** The object scoring strictly above all others gets rank 0. */
  lemma BestGetsRankZero(scores: seq<int>, a: nat)
    requires a < |scores|
    requires forall b :: 0 <= b < |scores| && b != a ==> scores[a] > scores[b]
    ensures RowRanking(scores, |scores|)[a] == 0
  {
    var n := |scores|;
    var o := TopK(scores, n);
    RankingIsInverseOfOrdering(scores);
    var c := o[0];
    assert RowRanking(scores, n)[c] == 0;
    if c != a {
      RankOrder(scores, a, c);
    }
  }

  /** The object scoring strictly below all others gets rank n-1. */
  lemma WorstGetsLastRank(scores: seq<int>, a: nat)
    requires a < |scores|
    requires forall b :: 0 <= b < |scores| && b != a ==> scores[a] < scores[b]
    ensures RowRanking(scores, |scores|)[a] == |scores| - 1
  {
    var n := |scores|;
    var o := TopK(scores, n);
    RankingIsInverseOfOrdering(scores);
    var c := o[n - 1];
    assert RowRanking(scores, n)[c] == n - 1;
    if c != a {
      RankOrder(scores, c, a);
    }
  }

  /** Scores 1, 9, 5 (for 0.1, 0.9, 0.5) rank as 2, 0, 1, by the lemmas above. */
  lemma RowRankingExample(s: seq<int>)
    requires s == [1, 9, 5]
    ensures RowRanking(s, |s|) == [2, 0, 1]
  {
    var rk := RowRanking(s, |s|);
    BestGetsRankZero(s, 1);
    WorstGetsLastRank(s, 0);
    RankingIsInverseOfOrdering(s);
    assert rk[2] != rk[0] && rk[2] != rk[1];
  }

  /** The same example through the batch operation. */
  lemma RankingExample(yPred: seq<seq<int>>)
    requires yPred == [[1, 9, 5]]
    ensures ScoresToRankings(|yPred[0]|, yPred, |yPred[0]|) == Success([[2, 0, 1]])
  {
    RowRankingExample(yPred[0]);
    var r := ScoresToRankings(|yPred[0]|, yPred, |yPred[0]|);
    assert r.Success? && |r.value| == 1 && r.value[0] == [2, 0, 1];
    assert r.value == [[2, 0, 1]];
  }

  // ---------------------------------------------------------------------------
  // get_instances_objects: counting non-negative entries.
  // ---------------------------------------------------------------------------

  function CountNonNegativeRow(row: seq<int>): (c: nat)
  {
    if row == [] then 0
    else CountNonNegativeRow(row[..|row| - 1]) + (if row[|row| - 1] >= 0 then 1 else 0)
  }

  /** The coordinates (b, t) of the entries of row b that are >= 0. */
  function RowCoordinates(row: seq<int>, b: int): set<(int, int)>
  {
    set t | 0 <= t < |row| && row[t] >= 0 :: (b, t)
  }

  /** The coordinates (b, t) whose entry `K.greater_equal(y, 0)` marks 1, that is the entries of y that are >= 0. */
  function NonNegativeCoordinates(y: seq<seq<int>>): set<(int, int)>
  {
    set b, t | 0 <= b < |y| && 0 <= t < |y[b]| && y[b][t] >= 0 :: (b, t)
  }

  lemma {:induction false} RowCoordinatesCount(row: seq<int>, b: int)
    ensures |RowCoordinates(row, b)| == CountNonNegativeRow(row)
  {
    if row != [] {
      var n := |row| - 1;
      RowCoordinatesCount(row[..n], b);
      assert RowCoordinates(row, b) ==
        RowCoordinates(row[..n], b) + (if row[n] >= 0 then {(b, n)} else {});
    }
  }

  /** The sum of the 0/1 matrix y >= 0: the number of non-negative entries of y. */
  function CountNonNegative(y: seq<seq<int>>): (c: nat)
    ensures c == |NonNegativeCoordinates(y)|
  {
    if y == [] then 0
    else
      var n := |y| - 1;
      RowCoordinatesCount(y[n], n);
      assert NonNegativeCoordinates(y) == NonNegativeCoordinates(y[..n]) + RowCoordinates(y[n], n);
      assert NonNegativeCoordinates(y[..n]) * RowCoordinates(y[n], n) == {};
      CountNonNegative(y[..n]) + CountNonNegativeRow(y[n])
  }

  /** (n_instances, n_objects) of a batch whose rows all have the given width. */
  function GetInstancesObjects(yTrue: seq<seq<int>>, width: nat): (r: (nat, nat))
    requires width > 0
    requires forall b :: 0 <= b < |yTrue| ==> |yTrue[b]| == width
    ensures r.1 == width
    ensures r.0 * width <= CountNonNegative(yTrue) < (r.0 + 1) * width
  {
    var c := CountNonNegative(yTrue);
    DivBounds(c, width);
    (c / width, width)
  }

  lemma {:induction false} CountRowBounded(row: seq<int>)
    ensures CountNonNegativeRow(row) <= |row|
    ensures (forall t :: 0 <= t < |row| ==> row[t] >= 0) ==> CountNonNegativeRow(row) == |row|
  {
    if row != [] {
      CountRowBounded(row[..|row| - 1]);
    }
  }

  lemma {:induction false} CountBounded(y: seq<seq<int>>, width: nat)
    requires forall b :: 0 <= b < |y| ==> |y[b]| == width
    ensures CountNonNegative(y) <= |y| * width
    ensures (forall b, t :: 0 <= b < |y| && 0 <= t < width ==> y[b][t] >= 0) ==>
      CountNonNegative(y) == |y| * width
  {
    if y != [] {
      CountBounded(y[..|y| - 1], width);
      CountRowBounded(y[|y| - 1]);
      assert (|y| - 1) * width + width == |y| * width;
    }
  }

  /** n_instances never exceeds the number of rows. */
  lemma InstancesAtMostRows(yTrue: seq<seq<int>>, width: nat)
    requires width > 0
    requires forall b :: 0 <= b < |yTrue| ==> |yTrue[b]| == width
    ensures GetInstancesObjects(yTrue, width).0 <= |yTrue|
  {
    CountBounded(yTrue, width);
    DivAtMost(CountNonNegative(yTrue), width, |yTrue|);
  }

  /** With no negative (padding) entry, n_instances is the number of rows. */
  lemma AllNonNegativeCountsRows(yTrue: seq<seq<int>>, width: nat)
    requires width > 0
    requires forall b :: 0 <= b < |yTrue| ==> |yTrue[b]| == width
    requires forall b, t :: 0 <= b < |yTrue| && 0 <= t < width ==> yTrue[b][t] >= 0
    ensures GetInstancesObjects(yTrue, width).0 == |yTrue|
  {
    CountBounded(yTrue, width);
    DivOfMultiple(|yTrue|, width);
  }
}
