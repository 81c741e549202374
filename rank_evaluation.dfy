/**
 * The integer core of `eval_ranks`: given each prediction's similarity to every
 * dataset item, rank the items per prediction (0 = most similar) and read off
 * the rank of the item each prediction was generated from.
 *
 * Similarities are abstract integer scores supplied by the caller; computing
 * them (centring, normalising, the dot product) is floating point and is not
 * part of this model.
 */
module RankEvaluation {
  import opened Wrappers
  import opened Permutations

  /** What `eval_ranks` raises. */
  datatype EvalError =
    | AssertionError  // `len(Y_pred) != len(idxs)`
    | IndexError      // a target index outside the `m` columns

  /** The two arrays `eval_ranks` returns. */
  datatype Evaluation = Evaluation(ranks: seq<seq<int>>, ranksTest: seq<int>)

  /** `sims` is an `n x m` matrix. */
  ghost predicate IsMatrix(sims: seq<seq<int>>, m: nat) {
    forall i :: 0 <= i < |sims| ==> |sims[i]| == m
  }

  /** `order` lists the columns of `row` from most to least similar. */
  ghost predicate IsDescendingOrder(row: seq<int>, order: seq<int>) {
    && IsPermutation(order, |row|)
    && (forall k, l :: 0 <= k < l < |row| ==> row[order[k]] >= row[order[l]])
  }

  /** `rank` gives each column of `row` a distinct rank in [0, |row|), and a
      strictly more similar column always a strictly smaller rank. */
  ghost predicate IsRanking(row: seq<int>, rank: seq<int>) {
    && IsPermutation(rank, |row|)
    && (forall a, b :: 0 <= a < |row| && 0 <= b < |row| && row[a] > row[b] ==> rank[a] < rank[b])
  }

  /** Column `t` of `row` is strictly more similar than every other column. */
  ghost predicate IsUniqueMaximum(row: seq<int>, t: int) {
    && 0 <= t < |row|
    && (forall b :: 0 <= b < |row| && b != t ==> row[t] > row[b])
  }

  /** NumPy accepts an index into an axis of length `m` when it lies in [-m, m). */
  predicate InBounds(idx: int, m: nat): (b: bool)
    ensures b ==> m > 0
    ensures b <==> (0 <= idx < m || 0 <= idx + m < m)
  {
    -(m as int) <= idx < m
  }

  /** The column an in-bounds NumPy index denotes: negative indices count from the end. */
  function Column(idx: int, m: nat): (c: nat)
    requires InBounds(idx, m)
    ensures c < m
    ensures (c - idx) % m == 0
    ensures idx >= 0 ==> c == idx
  {
    if idx < 0 then idx + m else idx
  }

  /** `-row`, element by element. */
  function Negated(row: seq<int>): (r: seq<int>)
    ensures |r| == |row|
    ensures forall a, b :: 0 <= a < |row| && 0 <= b < |row| ==> (r[a] <= r[b] <==> row[a] >= row[b])
  {
    seq(|row|, k requires 0 <= k < |row| => -row[k])
  }

  /** What a successful `eval_ranks(Y_pred, idxs, ...)` returns for similarities `sims`. */
  ghost predicate IsEvaluation(sims: seq<seq<int>>, m: nat, idxs: seq<int>, ev: Evaluation) {
    && IsMatrix(sims, m)
    && |idxs| == |sims|
    && (forall i :: 0 <= i < |idxs| ==> InBounds(idxs[i], m))
    && |ev.ranks| == |sims|
    && |ev.ranksTest| == |sims|
    && (forall i :: 0 <= i < |sims| ==> IsRanking(sims[i], ev.ranks[i]))
    && (forall i :: 0 <= i < |sims| ==> ev.ranksTest[i] == ev.ranks[i][Column(idxs[i], m)])
  }

  /**
   * One row of the double argsort: `orders = (-similarities).argsort()` and
   * `ranks = orders.argsort()`.
   */
  method RankRow(row: seq<int>) returns (order: seq<int>, rank: seq<int>)
    ensures IsDescendingOrder(row, order)
    ensures IsInverse(order, rank)
    ensures IsRanking(row, rank)
  {
    order := Argsort(Negated(row));
    rank := Argsort(order);
    ArgsortOfPermutationIsInverse(order, rank);
    DescendingInverseIsRanking(row, order, rank);
  }

  /** `eval_ranks` over a given similarity matrix. */
  method EvalRanks(sims: seq<seq<int>>, m: nat, idxs: seq<int>) returns (result: Result<Evaluation, EvalError>)
    requires IsMatrix(sims, m)
    ensures |idxs| != |sims| ==> result == Failure(AssertionError)
    ensures |idxs| == |sims| && (exists i :: 0 <= i < |idxs| && !InBounds(idxs[i], m)) ==>
              result == Failure(IndexError)
    ensures result.Success? <==> |idxs| == |sims| && forall i :: 0 <= i < |idxs| ==> InBounds(idxs[i], m)
    ensures result.Success? ==> IsEvaluation(sims, m, idxs, result.value)
  {
    if |idxs| != |sims| {
      return Failure(AssertionError);
    }
    var ranks: seq<seq<int>> := [];
    var i := 0;
    while i < |sims|
      invariant 0 <= i <= |sims|
      invariant |ranks| == i
      invariant forall j :: 0 <= j < i ==> IsRanking(sims[j], ranks[j])
    {
      var order, rank := RankRow(sims[i]);
      ranks := ranks + [rank];
      i := i + 1;
    }
    var ranksTest: seq<int> := [];
    i := 0;
    while i < |idxs|
      invariant 0 <= i <= |idxs|
      invariant |ranksTest| == i
      invariant forall j :: 0 <= j < i ==> InBounds(idxs[j], m)
      invariant forall j :: 0 <= j < i ==> ranksTest[j] == ranks[j][Column(idxs[j], m)]
    {
      if !InBounds(idxs[i], m) {
        return Failure(IndexError);
      }
      ranksTest := ranksTest + [ranks[i][Column(idxs[i], m)]];
      i := i + 1;
    }
    result := Success(Evaluation(ranks, ranksTest));
  }

  /** The inverse of a descending order is a ranking. */
  lemma DescendingInverseIsRanking(row: seq<int>, order: seq<int>, rank: seq<int>)
    requires IsDescendingOrder(row, order)
    requires IsInverse(order, rank)
    ensures IsRanking(row, rank)
  {
  }

  /** The rank of the target item lies in [0, m). */
  lemma TargetRankInRange(sims: seq<seq<int>>, m: nat, idxs: seq<int>, ev: Evaluation, i: int)
    requires IsEvaluation(sims, m, idxs, ev)
    requires 0 <= i < |sims|
    ensures 0 <= ev.ranksTest[i] < m
  {
  }

  /** Every row with a column has a column of rank 0, and that column is a most
      similar one. */
  lemma RankZeroIsMaximal(row: seq<int>, rank: seq<int>)
    requires IsRanking(row, rank)
    requires |row| > 0
    ensures exists c :: 0 <= c < |row| && rank[c] == 0
    ensures forall c, b :: 0 <= c < |row| && 0 <= b < |row| && rank[c] == 0 ==> row[c] >= row[b]
  {
    PermutationCovers(rank, |row|);
    assert 0 in rank;
  }

  /** A uniquely most similar column has rank 0. */
  lemma UniqueMaximumRanksFirst(row: seq<int>, rank: seq<int>, t: int)
    requires IsRanking(row, rank)
    requires IsUniqueMaximum(row, t)
    ensures rank[t] == 0
  {
    RankZeroIsMaximal(row, rank);
    var c :| 0 <= c < |row| && rank[c] == 0;
  }

  /**
   * The perfect decoder: when every prediction is strictly more similar to its
   * own target item than to any other item, every target has rank 0.
   */
  lemma PerfectDecoderRanksZero(sims: seq<seq<int>>, m: nat, idxs: seq<int>, ev: Evaluation)
    requires IsEvaluation(sims, m, idxs, ev)
    requires forall i :: 0 <= i < |sims| ==> IsUniqueMaximum(sims[i], Column(idxs[i], m))
    ensures forall i :: 0 <= i < |sims| ==> ev.ranksTest[i] == 0
  {
    forall i | 0 <= i < |sims| ensures ev.ranksTest[i] == 0 {
      UniqueMaximumRanksFirst(sims[i], ev.ranks[i], Column(idxs[i], m));
    }
  }

  /**
   * Four orthonormal dataset vectors e0..e3 and predictions [e2, e0] with
   * targets [2, 0]: the dot products are the rows below, and both targets rank 0.
   */
  lemma OrthonormalExample(ev: Evaluation)
    requires IsEvaluation([[0, 0, 1, 0], [1, 0, 0, 0]], 4, [2, 0], ev)
    ensures ev.ranksTest == [0, 0]
  {
    PerfectDecoderRanksZero([[0, 0, 1, 0], [1, 0, 0, 0]], 4, [2, 0], ev);
  }
}
