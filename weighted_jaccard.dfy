/**
 * IDF-weighted Jaccard scores (`calculateWJC` and `calculateContainedWJC` in
 * refDiffTS/packages/refdiffts-core/src/Diff/CodeSimiliarity.ts).
 *
 * Sums run over the IDF table's tokens. A zero denominator, which the source
 * turns into NaN, is `NoScore`; NaN never exceeds a threshold.
 */
module WeightedJaccard {
  import opened Wrappers
  import opened Multisets
  import opened Sequences

  datatype Score = NoScore | Value(ratio: real)
  {
    /** `score > threshold` in the source: false for NaN. */
    predicate Exceeds(threshold: real)
    {
      Value? && ratio > threshold
    }
  }

  /** An IDF map: its tokens in iteration order and their weights. */
  datatype IdfTable = IdfTable(order: seq<string>, weight: map<string, real>)
  {
    ghost predicate Valid()
    {
      && NoDup(order)
      && (forall t :: t in order <==> t in weight)
      && (forall t | t in weight :: weight[t] >= 0.0)
    }

    function WeightOf(t: string): real
    {
      if t in weight then weight[t] else 0.0
    }
  }

  function MinNat(x: nat, y: nat): nat
  {
    if x < y then x else y
  }

  /** One token's contribution: its count scaled by its weight. */
  function Term(c: nat, w: real): real
  {
    (c as real) * w
  }

  /** Σ idf(t) · min(m1(t), m2(t)) over the first tokens of the table. */
  function MinSum(idf: IdfTable, tokens: seq<string>, m1: Counts<string>, m2: Counts<string>): real
  {
    if tokens == [] then 0.0
    else
      var t := tokens[|tokens| - 1];
      MinSum(idf, tokens[..|tokens| - 1], m1, m2) + Term(MinNat(Count(m1, t), Count(m2, t)), idf.WeightOf(t))
  }

  /** Σ idf(t) · max(m1(t), m2(t)). */
  function MaxSum(idf: IdfTable, tokens: seq<string>, m1: Counts<string>, m2: Counts<string>): real
  {
    if tokens == [] then 0.0
    else
      var t := tokens[|tokens| - 1];
      MaxSum(idf, tokens[..|tokens| - 1], m1, m2) + Term(MaxNat(Count(m1, t), Count(m2, t)), idf.WeightOf(t))
  }

  /** Σ idf(t) · m(t). */
  function CountSum(idf: IdfTable, tokens: seq<string>, m: Counts<string>): real
  {
    if tokens == [] then 0.0
    else
      var t := tokens[|tokens| - 1];
      CountSum(idf, tokens[..|tokens| - 1], m) + Term(Count(m, t), idf.WeightOf(t))
  }

  function Ratio(top: real, bottom: real): Score
  {
    if bottom == 0.0 then NoScore else Value(top / bottom)
  }

  /** The weighted Jaccard coefficient of two multisets. */
  function Wjc(idf: IdfTable, m1: Counts<string>, m2: Counts<string>): Score
  {
    Ratio(MinSum(idf, idf.order, m1, m2), MaxSum(idf, idf.order, m1, m2))
  }

  /** The share of `m1`'s weight that `m2` also holds. */
  function ContainedWjc(idf: IdfTable, m1: Counts<string>, m2: Counts<string>): Score
  {
    Ratio(MinSum(idf, idf.order, m1, m2), CountSum(idf, idf.order, m1))
  }

  lemma ScaleMonotone(x: nat, y: nat, w: real)
    requires x <= y && w >= 0.0
    ensures 0.0 <= Term(x, w) <= Term(y, w)
  {
    assert Term(y, w) - Term(x, w) == ((y - x) as real) * w;
  }

  lemma MinSumStep(idf: IdfTable, tokens: seq<string>, m1: Counts<string>, m2: Counts<string>)
    requires tokens != []
    ensures var t := tokens[|tokens| - 1];
      MinSum(idf, tokens, m1, m2) == MinSum(idf, tokens[..|tokens| - 1], m1, m2) + Term(MinNat(Count(m1, t), Count(m2, t)), idf.WeightOf(t))
  {
  }

  lemma MaxSumStep(idf: IdfTable, tokens: seq<string>, m1: Counts<string>, m2: Counts<string>)
    requires tokens != []
    ensures var t := tokens[|tokens| - 1];
      MaxSum(idf, tokens, m1, m2) == MaxSum(idf, tokens[..|tokens| - 1], m1, m2) + Term(MaxNat(Count(m1, t), Count(m2, t)), idf.WeightOf(t))
  {
  }

  lemma CountSumStep(idf: IdfTable, tokens: seq<string>, m: Counts<string>)
    requires tokens != []
    ensures var t := tokens[|tokens| - 1];
      CountSum(idf, tokens, m) == CountSum(idf, tokens[..|tokens| - 1], m) + Term(Count(m, t), idf.WeightOf(t))
  {
  }

  /** With non-negative weights: 0 <= Σ min <= Σ count of either multiset. */
  lemma {:induction false} MinSumBelowCounts(idf: IdfTable, tokens: seq<string>, m1: Counts<string>, m2: Counts<string>)
    requires forall t | t in idf.weight :: idf.weight[t] >= 0.0
    ensures 0.0 <= MinSum(idf, tokens, m1, m2)
    ensures MinSum(idf, tokens, m1, m2) <= CountSum(idf, tokens, m1)
    ensures MinSum(idf, tokens, m1, m2) <= CountSum(idf, tokens, m2)
  {
    if tokens != [] {
      var t := tokens[|tokens| - 1];
      MinSumBelowCounts(idf, tokens[..|tokens| - 1], m1, m2);
      var c1, c2, w := Count(m1, t), Count(m2, t), idf.WeightOf(t);
      ScaleMonotone(MinNat(c1, c2), c1, w);
      ScaleMonotone(MinNat(c1, c2), c2, w);
      MinSumStep(idf, tokens, m1, m2);
      CountSumStep(idf, tokens, m1);
      CountSumStep(idf, tokens, m2);
    }
  }

  /** With non-negative weights: Σ count of the first multiset <= Σ max. */
  lemma {:induction false} CountSumBelowMax(idf: IdfTable, tokens: seq<string>, m1: Counts<string>, m2: Counts<string>)
    requires forall t | t in idf.weight :: idf.weight[t] >= 0.0
    ensures CountSum(idf, tokens, m1) <= MaxSum(idf, tokens, m1, m2)
  {
    if tokens != [] {
      var t := tokens[|tokens| - 1];
      CountSumBelowMax(idf, tokens[..|tokens| - 1], m1, m2);
      var c1, c2, w := Count(m1, t), Count(m2, t), idf.WeightOf(t);
      ScaleMonotone(c1, MaxNat(c1, c2), w);
      CountSumStep(idf, tokens, m1);
      MaxSumStep(idf, tokens, m1, m2);
    }
  }

  /** Swapping the multisets changes neither sum. */
  lemma {:induction false} SumsSymmetric(idf: IdfTable, tokens: seq<string>, m1: Counts<string>, m2: Counts<string>)
    ensures MinSum(idf, tokens, m1, m2) == MinSum(idf, tokens, m2, m1)
    ensures MaxSum(idf, tokens, m1, m2) == MaxSum(idf, tokens, m2, m1)
  {
    if tokens != [] {
      var t := tokens[|tokens| - 1];
      SumsSymmetric(idf, tokens[..|tokens| - 1], m1, m2);
      var c1, c2 := Count(m1, t), Count(m2, t);
      assert MinNat(c1, c2) == MinNat(c2, c1) && MaxNat(c1, c2) == MaxNat(c2, c1);
      MinSumStep(idf, tokens, m1, m2);
      MinSumStep(idf, tokens, m2, m1);
      MaxSumStep(idf, tokens, m1, m2);
      MaxSumStep(idf, tokens, m2, m1);
    }
  }

  /** On identical multisets the numerator equals the denominator. */
  lemma {:induction false} SumsOfIdentical(idf: IdfTable, tokens: seq<string>, m: Counts<string>)
    ensures MinSum(idf, tokens, m, m) == MaxSum(idf, tokens, m, m) == CountSum(idf, tokens, m)
  {
    if tokens != [] {
      SumsOfIdentical(idf, tokens[..|tokens| - 1], m);
    }
  }

  /** A non-zero sum divided by itself is 1. */
  lemma RatioOfSelf(x: real)
    ensures Ratio(x, x) == if x == 0.0 then NoScore else Value(1.0)
  {
    if x != 0.0 {
      assert x / x == 1.0 by {
        assert (x / x) * x == 1.0 * x;
      }
    }
  }

  lemma RatioAtMostOne(top: real, bottom: real)
    requires 0.0 <= top <= bottom && bottom != 0.0
    ensures 0.0 <= top / bottom <= 1.0
  {
    var q := top / bottom;
    assert q * bottom == top;
  }

  /** With non-negative weights the coefficient lies in [0, 1]; a zero denominator means a zero numerator. */
  lemma WjcBounded(idf: IdfTable, m1: Counts<string>, m2: Counts<string>)
    requires idf.Valid()
    ensures MinSum(idf, idf.order, m1, m2) <= MaxSum(idf, idf.order, m1, m2)
    ensures MaxSum(idf, idf.order, m1, m2) == 0.0 ==> MinSum(idf, idf.order, m1, m2) == 0.0
    ensures Wjc(idf, m1, m2).Value? ==> 0.0 <= Wjc(idf, m1, m2).ratio <= 1.0
  {
    MinSumBelowCounts(idf, idf.order, m1, m2);
    CountSumBelowMax(idf, idf.order, m1, m2);
    var top, bottom := MinSum(idf, idf.order, m1, m2), MaxSum(idf, idf.order, m1, m2);
    if bottom != 0.0 {
      RatioAtMostOne(top, bottom);
    }
  }

  /** The coefficient is symmetric. */
  lemma WjcSymmetric(idf: IdfTable, m1: Counts<string>, m2: Counts<string>)
    ensures Wjc(idf, m1, m2) == Wjc(idf, m2, m1)
  {
    SumsSymmetric(idf, idf.order, m1, m2);
  }

  /** A multiset scores 1 against itself whenever its weight is positive. */
  lemma WjcOfIdentical(idf: IdfTable, m: Counts<string>)
    ensures Wjc(idf, m, m) == if MaxSum(idf, idf.order, m, m) == 0.0 then NoScore else Value(1.0)
  {
    SumsOfIdentical(idf, idf.order, m);
    RatioOfSelf(MaxSum(idf, idf.order, m, m));
  }

  /** With non-negative weights the contained coefficient lies in [0, 1]. */
  lemma ContainedWjcBounded(idf: IdfTable, m1: Counts<string>, m2: Counts<string>)
    requires idf.Valid()
    ensures MinSum(idf, idf.order, m1, m2) <= CountSum(idf, idf.order, m1)
    ensures ContainedWjc(idf, m1, m2).Value? ==> 0.0 <= ContainedWjc(idf, m1, m2).ratio <= 1.0
  {
    MinSumBelowCounts(idf, idf.order, m1, m2);
    var top, bottom := MinSum(idf, idf.order, m1, m2), CountSum(idf, idf.order, m1);
    if bottom != 0.0 {
      assert 0.0 <= top <= bottom;
      RatioAtMostOne(top, bottom);
    }
  }

  /** When `m2` holds every token of `m1` at least as often, the contained coefficient is 1 (or undefined). */
  lemma ContainedWjcOfContained(idf: IdfTable, m1: Counts<string>, m2: Counts<string>)
    requires forall t :: Count(m1, t) <= Count(m2, t)
    ensures ContainedWjc(idf, m1, m2) == if CountSum(idf, idf.order, m1) == 0.0 then NoScore else Value(1.0)
  {
    MinSumOfContained(idf, idf.order, m1, m2);
    RatioOfSelf(CountSum(idf, idf.order, m1));
  }

  lemma {:induction false} MinSumOfContained(idf: IdfTable, tokens: seq<string>, m1: Counts<string>, m2: Counts<string>)
    requires forall t :: Count(m1, t) <= Count(m2, t)
    ensures MinSum(idf, tokens, m1, m2) == CountSum(idf, tokens, m1)
  {
    if tokens != [] {
      var t := tokens[|tokens| - 1];
      MinSumOfContained(idf, tokens[..|tokens| - 1], m1, m2);
      assert MinNat(Count(m1, t), Count(m2, t)) == Count(m1, t);
    }
  }

  /** The TypeError the source throws when a query reads an undefined value. */
  datatype Fault = UndefinedParameters | UndefinedMultiset

  function OrEmpty(m: Option<Counts<string>>): Counts<string>
  {
    if m.Some? then m.value else map[]
  }

  /**
   * `calculateWJC` on multisets that may be undefined: reading a count of an
   * undefined multiset throws, which happens exactly when the table has a token.
   */
  function WjcOf(idf: IdfTable, m1: Option<Counts<string>>, m2: Option<Counts<string>>): Result<Score, Fault>
  {
    if (m1.None? || m2.None?) && idf.order != [] then Failure(UndefinedMultiset)
    else Success(Wjc(idf, OrEmpty(m1), OrEmpty(m2)))
  }

  /** `calculateContainedWJC`, whose second multiset is always a fresh one. */
  function ContainedWjcOf(idf: IdfTable, m1: Option<Counts<string>>, m2: Counts<string>): Result<Score, Fault>
  {
    if m1.None? && idf.order != [] then Failure(UndefinedMultiset)
    else Success(ContainedWjc(idf, OrEmpty(m1), m2))
  }

  /** On two defined multisets `calculateWJC` yields a score; it is symmetric and lies in [0, 1]. */
  lemma WjcOfDefined(idf: IdfTable, m1: Counts<string>, m2: Counts<string>)
    requires idf.Valid()
    ensures WjcOf(idf, Some(m1), Some(m2)).Success?
    ensures WjcOf(idf, Some(m1), Some(m2)) == WjcOf(idf, Some(m2), Some(m1))
    ensures WjcOf(idf, Some(m1), Some(m2)).value.Value? ==> 0.0 <= WjcOf(idf, Some(m1), Some(m2)).value.ratio <= 1.0
  {
    WjcBounded(idf, m1, m2);
    WjcSymmetric(idf, m1, m2);
  }

  /** `calculateWJC` fails exactly when a multiset is undefined and the table has a token; it is symmetric and lies in [0, 1]. */
  lemma WjcOfProperties(idf: IdfTable, m1: Option<Counts<string>>, m2: Option<Counts<string>>)
    requires idf.Valid()
    ensures WjcOf(idf, m1, m2).Failure? <==> (m1.None? || m2.None?) && idf.order != []
    ensures WjcOf(idf, m1, m2) == WjcOf(idf, m2, m1)
    ensures WjcOf(idf, m1, m2).Success? && WjcOf(idf, m1, m2).value.Value? ==> 0.0 <= WjcOf(idf, m1, m2).value.ratio <= 1.0
  {
    WjcBounded(idf, OrEmpty(m1), OrEmpty(m2));
    WjcSymmetric(idf, OrEmpty(m1), OrEmpty(m2));
  }

  /** A defined multiset scores 1 against itself, or nothing when it weighs nothing. */
  lemma WjcOfSame(idf: IdfTable, m: Counts<string>)
    ensures WjcOf(idf, Some(m), Some(m)) == Success(NoScore) || WjcOf(idf, Some(m), Some(m)) == Success(Value(1.0))
  {
    WjcOfIdentical(idf, m);
  }

  /** `calculateContainedWJC` fails exactly when its first multiset is undefined and the table has a token; otherwise it lies in [0, 1]. */
  lemma ContainedWjcOfProperties(idf: IdfTable, m1: Option<Counts<string>>, m2: Counts<string>)
    requires idf.Valid()
    ensures ContainedWjcOf(idf, m1, m2).Failure? <==> m1.None? && idf.order != []
    ensures ContainedWjcOf(idf, m1, m2).Success? && ContainedWjcOf(idf, m1, m2).value.Value? ==>
      0.0 <= ContainedWjcOf(idf, m1, m2).value.ratio <= 1.0
  {
    ContainedWjcBounded(idf, OrEmpty(m1), m2);
  }

  /** `calculateWJC`: one pass over the table accumulating numerator and denominator. */
  method CalculateWjc(idf: IdfTable, m1: Option<Counts<string>>, m2: Option<Counts<string>>) returns (r: Result<Score, Fault>)
    ensures r == WjcOf(idf, m1, m2)
  {
    var top, bottom := 0.0, 0.0;
    var i := 0;
    while i < |idf.order|
      invariant 0 <= i <= |idf.order|
      invariant top == MinSum(idf, idf.order[..i], OrEmpty(m1), OrEmpty(m2))
      invariant bottom == MaxSum(idf, idf.order[..i], OrEmpty(m1), OrEmpty(m2))
      invariant i > 0 ==> m1.Some? && m2.Some?
    {
      if m1.None? || m2.None? {
        return Failure(UndefinedMultiset);
      }
      var token := idf.order[i];
      var c1, c2 := Count(m1.value, token), Count(m2.value, token);
      assert idf.order[..i + 1][..i] == idf.order[..i];
      MinSumStep(idf, idf.order[..i + 1], m1.value, m2.value);
      MaxSumStep(idf, idf.order[..i + 1], m1.value, m2.value);
      top := top + Term(MinNat(c1, c2), idf.WeightOf(token));
      bottom := bottom + Term(MaxNat(c1, c2), idf.WeightOf(token));
      i := i + 1;
    }
    assert idf.order[..i] == idf.order;
    r := Success(Ratio(top, bottom));
  }

  /** `calculateContainedWJC`: as `CalculateWjc` with the first multiset's weight as denominator. */
  method CalculateContainedWjc(idf: IdfTable, m1: Option<Counts<string>>, m2: Counts<string>) returns (r: Result<Score, Fault>)
    ensures r == ContainedWjcOf(idf, m1, m2)
  {
    var top, bottom := 0.0, 0.0;
    var i := 0;
    while i < |idf.order|
      invariant 0 <= i <= |idf.order|
      invariant top == MinSum(idf, idf.order[..i], OrEmpty(m1), m2)
      invariant bottom == CountSum(idf, idf.order[..i], OrEmpty(m1))
      invariant i > 0 ==> m1.Some?
    {
      if m1.None? {
        return Failure(UndefinedMultiset);
      }
      var token := idf.order[i];
      var c1, c2 := Count(m1.value, token), Count(m2, token);
      assert idf.order[..i + 1][..i] == idf.order[..i];
      MinSumStep(idf, idf.order[..i + 1], m1.value, m2);
      CountSumStep(idf, idf.order[..i + 1], m1.value);
      top := top + Term(MinNat(c1, c2), idf.WeightOf(token));
      bottom := bottom + Term(c1, idf.WeightOf(token));
      i := i + 1;
    }
    assert idf.order[..i] == idf.order;
    r := Success(Ratio(top, bottom));
  }
}
