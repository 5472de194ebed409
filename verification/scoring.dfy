/** The weighted contamination score of one curated species: the sum, over the
    weight entries, of the species' value for that property times the weight. */
module Scoring {
  import opened Results

  /** One entry of the weight dictionary, in its iteration order. */
  datatype Weight = Weight(property: string, factor: int)

  /** The property names the weights refer to. */
  function WeightKeys(weights: seq<Weight>): set<string>
  {
    set w | w in weights :: w.property
  }

  /** Every weighted property has a (non-null) value in the curated entry. */
  predicate Valued(entry: map<string, int>, weights: seq<Weight>)
  {
    forall w :: w in weights ==> w.property in entry
  }

  function Sum(entry: map<string, int>, weights: seq<Weight>): int
    requires Valued(entry, weights)
  {
    if weights == [] then 0
    else entry[weights[0].property] * weights[0].factor + Sum(entry, weights[1..])
  }

  /** `Weight Score`: `None` stands for the NaN a null curated value produces. */
  function Score(entry: map<string, int>, weights: seq<Weight>): Option<int>
  {
    if Valued(entry, weights) then Some(Sum(entry, weights)) else None
  }

  lemma {:induction false} SumConcat(entry: map<string, int>, a: seq<Weight>, b: seq<Weight>)
    requires Valued(entry, a) && Valued(entry, b)
    ensures Valued(entry, a + b)
    ensures Sum(entry, a + b) == Sum(entry, a) + Sum(entry, b)
    decreases |a|
  {
    if a == [] {
      assert a + b == b;
    } else {
      assert (a + b)[1..] == a[1..] + b;
      SumConcat(entry, a[1..], b);
    }
  }

  /** Taking one entry out of the weight list takes its term out of the sum. */
  lemma SumWithout(entry: map<string, int>, weights: seq<Weight>, j: int)
    requires Valued(entry, weights) && 0 <= j < |weights|
    ensures Valued(entry, weights[..j] + weights[j + 1..])
    ensures Sum(entry, weights)
         == entry[weights[j].property] * weights[j].factor + Sum(entry, weights[..j] + weights[j + 1..])
  {
    var front, back := weights[..j], weights[j + 1..];
    assert weights == front + [weights[j]] + back;
    assert Valued(entry, front) && Valued(entry, back) && Valued(entry, [weights[j]]);
    SumConcat(entry, front, back);
    SumConcat(entry, front, [weights[j]]);
    SumConcat(entry, front + [weights[j]], back);
  }

  /** Whether the score is NaN depends only on which entries are weighted. */
  lemma ValuedSameEntries(entry: map<string, int>, weights: seq<Weight>, reordered: seq<Weight>)
    requires multiset(weights) == multiset(reordered)
    ensures Valued(entry, weights) <==> Valued(entry, reordered)
  {
    forall w | w in weights
      ensures w in reordered
    {
      assert w in multiset(weights);
    }
    forall w | w in reordered
      ensures w in weights
    {
      assert w in multiset(reordered);
    }
  }

  /** Removing the head of one list and an equal entry of a permutation of it
      leaves permutations of each other. */
  lemma RemoveMatching(weights: seq<Weight>, reordered: seq<Weight>, j: int)
    requires multiset(weights) == multiset(reordered)
    requires weights != [] && 0 <= j < |reordered| && reordered[j] == weights[0]
    ensures multiset(reordered[..j] + reordered[j + 1..]) == multiset(weights[1..])
  {
    var w := weights[0];
    assert reordered == reordered[..j] + [w] + reordered[j + 1..];
    assert weights == [w] + weights[1..];
    assert multiset(reordered) == multiset(reordered[..j]) + multiset{w} + multiset(reordered[j + 1..]);
    assert multiset(weights) == multiset{w} + multiset(weights[1..]);
    var front, back := multiset(reordered[..j]), multiset(reordered[j + 1..]);
    assert multiset(reordered[..j] + reordered[j + 1..]) == front + back;
    assert (front + multiset{w} + back) - multiset{w} == front + back;
    assert (multiset{w} + multiset(weights[1..])) - multiset{w} == multiset(weights[1..]);
  }

  /** The score does not depend on the iteration order of the weight keys. */
  lemma {:induction false} ScoreOrderIndependent(entry: map<string, int>, weights: seq<Weight>, reordered: seq<Weight>)
    requires multiset(weights) == multiset(reordered)
    ensures Score(entry, weights) == Score(entry, reordered)
    decreases |weights|
  {
    ValuedSameEntries(entry, weights, reordered);
    if weights != [] && Valued(entry, weights) {
      var w := weights[0];
      assert w in multiset(reordered);
      var j :| 0 <= j < |reordered| && reordered[j] == w;
      var others := reordered[..j] + reordered[j + 1..];
      RemoveMatching(weights, reordered, j);
      ScoreOrderIndependent(entry, weights[1..], others);
      SumWithout(entry, reordered, j);
    }
  }

  /** With non-negative weights and non-negative curated values the score is non-negative. */
  lemma {:induction false} ScoreNonNegative(entry: map<string, int>, weights: seq<Weight>)
    requires forall p :: p in entry ==> entry[p] >= 0
    requires forall w :: w in weights ==> w.factor >= 0
    ensures Score(entry, weights).Some? ==> Score(entry, weights).value >= 0
    decreases |weights|
  {
    if weights != [] && Valued(entry, weights) {
      ScoreNonNegative(entry, weights[1..]);
      assert weights[0] in weights;
    }
  }
}
