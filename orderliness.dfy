/**
  Orderliness of a currency (D. Pearson, "A Polynomial-time Algorithm for the
  Change-Making Problem", Operations Research Letters 33(3), 2005): greedy
  change is always optimal unless one of O(n^2) candidate coinreps, each built
  from the greedy coinrep of a value just below a denomination, beats greedy
  on its own value.
 */
module Orderliness {
  import opened Wrappers
  import opened CoinReps
  import opened GreedyRep
  import opened PairSearch

  /** Greedy change is optimal for `value`: no coinrep over the currency worth
      `value` uses fewer coins than the greedy one. */
  ghost predicate GreedyOptimalFor(currency: seq<int>, value: int)
    requires ValidCurrency(currency)
  {
    forall rep :: CoinRepOver(rep, currency) && Value(rep) == value ==>
      Count(Greedy(value, currency)) <= Count(rep)
  }

  /** An orderly currency: greedy change is optimal for every value. */
  ghost predicate Orderly(currency: seq<int>)
    requires ValidCurrency(currency)
  {
    forall value :: value >= 0 ==> GreedyOptimalFor(currency, value)
  }

  /** The template with the entries before position j kept, the count at j
      raised by one and every count after j set to zero. */
  function Raise(template: CoinRep, j: int): (r: CoinRep)
    requires 0 <= j < |template|
  {
    seq(|template|, k requires 0 <= k < |template| =>
      if k < j then template[k]
      else if k == j then Entry(template[k].denom, template[k].count + 1)
      else Entry(template[k].denom, 0))
  }

  /** mk_candidate(i, j): the greedy coinrep of currency[i - 1] - 1, raised at j. */
  function Candidate(currency: seq<int>, i: int, j: int): CoinRep
    requires ValidCurrency(currency) && 1 <= i < |currency| && 0 <= j < |currency|
  {
    Raise(Greedy(currency[i - 1] - 1, currency), j)
  }

  /** The shape of mk_candidate(i, j): one entry per denomination of the
      currency, in its order; before j the greedy template of the probe value
      currency[i - 1] - 1 (which is at least 1, since denomination i - 1 lies
      above the trailing 1); at j one coin more than the
      template; after j no coins. So it is a coinrep over the currency. */
  lemma CandidateShape(currency: seq<int>, i: int, j: int)
    requires ValidCurrency(currency) && 1 <= i < |currency| && 0 <= j < |currency|
    ensures var probe := currency[i - 1] - 1;
            var template := Greedy(probe, currency);
            var r := Candidate(currency, i, j);
            && probe >= 1
            && CoinRepOver(r, currency)
            && r[..j] == template[..j]
            && r[j].count == template[j].count + 1
            && forall k :: j < k < |currency| ==> r[k].count == 0
  {
    DescendingOrder(currency, i - 1, |currency| - 1);
    GreedyShape(currency[i - 1] - 1, currency);
  }

  /** The candidate is worth the greedy coins of the probe on the denominations
      before j plus one more coin of denomination j than greedy took. */
  lemma CandidateValue(currency: seq<int>, i: int, j: int)
    requires ValidCurrency(currency) && 1 <= i < |currency| && 0 <= j < |currency|
    ensures var probe := currency[i - 1] - 1;
            var template := Greedy(probe, currency);
            && Value(Candidate(currency, i, j))
               == Value(Greedy(probe, currency[..j])) + currency[j] * (template[j].count + 1)
            && Count(Candidate(currency, i, j))
               == Count(Greedy(probe, currency[..j])) + template[j].count + 1
  {
    var probe := currency[i - 1] - 1;
    var template := Greedy(probe, currency);
    var cand := Candidate(currency, i, j);
    var mid := [Entry(currency[j], template[j].count + 1)];
    var tail := cand[j + 1..];
    GreedyShape(probe, currency);
    assert cand == template[..j] + mid + tail;
    ZeroCounts(tail);
    ValueConcat(template[..j] + mid, tail);
    ValueConcat(template[..j], mid);
    GreedyPrefix(probe, currency, j);
  }

  /** is_counterexample: the candidate uses fewer coins than the greedy
      coinrep of the candidate's own value. */
  predicate IsCounterexample(currency: seq<int>, candidate: CoinRep)
    requires ValidCurrency(currency)
  {
    Count(candidate) < Count(Greedy(Value(candidate), currency))
  }

  /** A counterexample shows that greedy change is not optimal for its value,
      and so that the currency is not orderly. */
  lemma CounterexampleRefutesGreedy(currency: seq<int>, candidate: CoinRep)
    requires ValidCurrency(currency) && CoinRepOver(candidate, currency)
    requires IsCounterexample(currency, candidate)
    ensures Value(Greedy(Value(candidate), currency)) == Value(candidate)
    ensures !GreedyOptimalFor(currency, Value(candidate))
    ensures !Orderly(currency)
  {
    GreedyRoundTrip(Value(candidate), currency);
    CoinRepOverNonNegative(candidate, currency);
  }

  /** The test orderly_counterex applies to pair (i, j): is the candidate
      mk_candidate(i, j) a counterexample? */
  function CounterexampleAt(currency: seq<int>): (int, int) -> bool
    requires ValidCurrency(currency)
  {
    (i: int, j: int) =>
      1 <= i < |currency| && 0 <= j < |currency| && IsCounterexample(currency, Candidate(currency, i, j))
  }

  /** The pair (i, j) at which orderly_counterex stops, if any. */
  function CounterexamplePair(currency: seq<int>): (r: Option<(int, int)>)
    requires ValidCurrency(currency)
    ensures r.Some? ==> InRange(|currency|, r.value.0, r.value.1)
  {
    FirstPair(CounterexampleAt(currency), |currency|, 1, 1)
  }

  /** What orderly_counterex returns: the candidate of the first pair whose
      candidate is a counterexample, or None. */
  function FirstCounterexample(currency: seq<int>): Option<CoinRep>
    requires ValidCurrency(currency)
  {
    match CounterexamplePair(currency)
    case None => None
    case Some((i, j)) => Some(Candidate(currency, i, j))
  }

  /** The search order of orderly_counterex: None exactly when no pair
      1 <= i <= j <= n - 1 gives a counterexample; otherwise the candidate of
      the lexicographically first pair that does. */
  lemma FirstCounterexampleSpec(currency: seq<int>)
    requires ValidCurrency(currency)
    ensures FirstCounterexample(currency).None? <==>
      forall a, b :: InRange(|currency|, a, b) ==> !IsCounterexample(currency, Candidate(currency, a, b))
    ensures FirstCounterexample(currency).Some? ==>
      var (a, b) := CounterexamplePair(currency).value;
      && FirstCounterexample(currency).value == Candidate(currency, a, b)
      && IsCounterexample(currency, Candidate(currency, a, b))
      && forall a', b' :: InRange(|currency|, a', b') && Before(a', b', a, b) ==>
           !IsCounterexample(currency, Candidate(currency, a', b'))
  {
    var n := |currency|;
    var hit := CounterexampleAt(currency);
    FirstPairSpec(hit, n);
    var found := CounterexamplePair(currency);
    if found.Some? {
      var (a, b) := found.value;
      assert IsCounterexample(currency, Candidate(currency, a, b)) by {
        assert hit(a, b);
      }
      assert forall a', b' :: InRange(n, a', b') && Before(a', b', a, b) ==>
        !IsCounterexample(currency, Candidate(currency, a', b')) by {
        forall a', b' | InRange(n, a', b') && Before(a', b', a, b)
          ensures !IsCounterexample(currency, Candidate(currency, a', b'))
        {
          assert !hit(a', b');
        }
      }
    } else {
      forall a, b | InRange(n, a, b)
        ensures !IsCounterexample(currency, Candidate(currency, a, b))
      {
        assert !hit(a, b);
      }
    }
  }

  /** Soundness: whatever the search returns is a coinrep over the currency
      that beats greedy on its own value, so the currency is not orderly. */
  lemma Soundness(currency: seq<int>)
    requires ValidCurrency(currency)
    ensures FirstCounterexample(currency).Some? ==>
      var c := FirstCounterexample(currency).value;
      && CoinRepOver(c, currency)
      && Value(Greedy(Value(c), currency)) == Value(c)
      && Count(c) < Count(Greedy(Value(c), currency))
      && !Orderly(currency)
  {
    var hit := CounterexampleAt(currency);
    FirstPairSpec(hit, |currency|);
    if FirstPair(hit, |currency|, 1, 1).Some? {
      var (a, b) := FirstPair(hit, |currency|, 1, 1).value;
      assert hit(a, b);
      CandidateShape(currency, a, b);
      CounterexampleRefutesGreedy(currency, Candidate(currency, a, b));
    }
  }

  /** The three loops of mk_candidate: copy the template's entries before j,
      append entry j with one more coin, then append zero-count entries for
      the rest. */
  method RaiseCopy(template: CoinRep, j: int) returns (candidate: CoinRep)
    requires 0 <= j < |template|
    ensures candidate == Raise(template, j)
  {
    candidate := [];
    for k := 0 to j
      invariant candidate == template[..k]
    {
      candidate := candidate + [template[k]];
    }
    candidate := candidate + [Entry(template[j].denom, template[j].count + 1)];
    for k := j + 1 to |template|
      invariant |candidate| == k
      invariant forall m :: 0 <= m < j ==> candidate[m] == template[m]
      invariant candidate[j] == Entry(template[j].denom, template[j].count + 1)
      invariant forall m :: j < m < k ==> candidate[m] == Entry(template[m].denom, 0)
    {
      candidate := candidate + [Entry(template[k].denom, 0)];
    }
  }

  /** mk_candidate: the greedy template of the probe value, raised at j. */
  method MakeCandidate(currency: seq<int>, i: int, j: int) returns (candidate: CoinRep)
    requires ValidCurrency(currency) && 1 <= i < |currency| && 0 <= j < |currency|
    ensures candidate == Candidate(currency, i, j)
  {
    var template := GreedyCoinRep(currency[i - 1] - 1, currency);
    candidate := RaiseCopy(template, j);
  }

  /** orderly_counterex: try the pairs (i, j) with 1 <= i <= j <= n - 1 in
      lexicographic order and return the first candidate that is a
      counterexample, or None. */
  method OrderlyCounterex(currency: seq<int>) returns (result: Option<CoinRep>)
    requires ValidCurrency(currency)
    ensures result == FirstCounterexample(currency)
    ensures result.Some? ==>
      && CoinRepOver(result.value, currency)
      && Value(Greedy(Value(result.value), currency)) == Value(result.value)
      && Count(result.value) < Count(Greedy(Value(result.value), currency))
      && !Orderly(currency)
  {
    Soundness(currency);
    ghost var hit := CounterexampleAt(currency);
    var n := |currency|;
    for i := 1 to n
      invariant FirstPair(hit, n, i, i) == FirstPair(hit, n, 1, 1)
    {
      for j := i to n
        invariant FirstPair(hit, n, i, j) == FirstPair(hit, n, 1, 1)
      {
        var candidate := MakeCandidate(currency, i, j);
        if IsCounterexample(currency, candidate) {
          assert hit(i, j);
          return Some(candidate);
        }
        assert !hit(i, j);
      }
    }
    return None;
  }

  /** is_orderly: true exactly when orderly_counterex returns None. */
  method IsOrderly(currency: seq<int>) returns (orderly: bool)
    requires ValidCurrency(currency)
    ensures orderly <==> FirstCounterexample(currency).None?
    ensures orderly <==>
      forall a, b :: InRange(|currency|, a, b) ==> !IsCounterexample(currency, Candidate(currency, a, b))
    ensures !orderly ==> !Orderly(currency)
  {
    var counterex := OrderlyCounterex(currency);
    FirstCounterexampleSpec(currency);
    orderly := counterex.None?;
  }
}

/** Worked examples: two small currencies put through the search. */
module OrderlinessExamples {
  import opened Wrappers
  import opened CoinReps
  import opened GreedyRep
  import opened PairSearch
  import opened Orderliness

  /** [4, 3, 1] is not orderly: the first candidate, two coins of 3, is worth 6,
      for which greedy takes 4 + 1 + 1. */
  lemma NotOrderlyExample()
    ensures ValidCurrency([4, 3, 1])
    ensures FirstCounterexample([4, 3, 1]) == Some([Entry(4, 0), Entry(3, 2), Entry(1, 0)])
    ensures Greedy(6, [4, 3, 1]) == [Entry(4, 1), Entry(3, 0), Entry(1, 2)]
    ensures !Orderly([4, 3, 1])
  {
    var c := [4, 3, 1];
    var cand := [Entry(4, 0), Entry(3, 2), Entry(1, 0)];
    var greedy := [Entry(4, 1), Entry(3, 0), Entry(1, 2)];
    assert Greedy(3, c) == [Entry(4, 0), Entry(3, 1), Entry(1, 0)];
    assert Candidate(c, 1, 1) == cand;
    assert cand[1..] == [Entry(3, 2), Entry(1, 0)] && cand[1..][1..] == [Entry(1, 0)];
    assert Value(cand) == 6 && Count(cand) == 2;
    assert Greedy(6, c) == greedy;
    assert greedy[1..] == [Entry(3, 0), Entry(1, 2)] && greedy[1..][1..] == [Entry(1, 2)];
    assert Count(greedy) == 3;
    assert IsCounterexample(c, cand);
    Soundness(c);
  }

  /** Value and coin count of a four-entry coinrep, written out. */
  lemma SumsOfFour(rep: CoinRep)
    requires |rep| == 4
    ensures Value(rep) == rep[0].denom * rep[0].count + rep[1].denom * rep[1].count
                        + rep[2].denom * rep[2].count + rep[3].denom * rep[3].count
    ensures Count(rep) == rep[0].count + rep[1].count + rep[2].count + rep[3].count
  {
    assert rep == [rep[0]] + [rep[1]] + [rep[2]] + [rep[3]];
    ValueConcat([rep[0]] + [rep[1]] + [rep[2]], [rep[3]]);
    ValueConcat([rep[0]] + [rep[1]], [rep[2]]);
    ValueConcat([rep[0]], [rep[1]]);
  }

  /** One pair of the [25, 10, 5, 1] search: its candidate, worth `value`,
      does not beat the greedy coinrep `greedy` of that value. */
  lemma NoCounterexampleAt(a: int, b: int, cand: CoinRep, value: int, greedy: CoinRep)
    requires InRange(4, a, b)
    requires Candidate([25, 10, 5, 1], a, b) == cand && |cand| == 4
    requires Greedy(value, [25, 10, 5, 1]) == greedy && |greedy| == 4
    requires cand[0].denom * cand[0].count + cand[1].denom * cand[1].count
           + cand[2].denom * cand[2].count + cand[3].denom * cand[3].count == value
    requires cand[0].count + cand[1].count + cand[2].count + cand[3].count
          >= greedy[0].count + greedy[1].count + greedy[2].count + greedy[3].count
    ensures !IsCounterexample([25, 10, 5, 1], Candidate([25, 10, 5, 1], a, b))
  {
    SumsOfFour(cand);
    SumsOfFour(greedy);
  }

  /** None of the six candidates of [25, 10, 5, 1] uses fewer coins than the
      greedy coinrep of its value. */
  lemma UsCoinsNoCounterexample(a: int, b: int)
    requires InRange(4, a, b)
    ensures !IsCounterexample([25, 10, 5, 1], Candidate([25, 10, 5, 1], a, b))
  {
    var c := [25, 10, 5, 1];
    if a == 1 {
      assert Greedy(24, c) == [Entry(25, 0), Entry(10, 2), Entry(5, 0), Entry(1, 4)];
      if b == 1 {
        var g30 := [Entry(25, 1), Entry(10, 0), Entry(5, 1), Entry(1, 0)];
        assert Greedy(30, c) == g30;
        NoCounterexampleAt(1, 1, [Entry(25, 0), Entry(10, 3), Entry(5, 0), Entry(1, 0)], 30, g30);
      } else {
        var g25 := [Entry(25, 1), Entry(10, 0), Entry(5, 0), Entry(1, 0)];
        assert Greedy(25, c) == g25;
        if b == 2 {
          NoCounterexampleAt(1, 2, [Entry(25, 0), Entry(10, 2), Entry(5, 1), Entry(1, 0)], 25, g25);
        } else {
          NoCounterexampleAt(1, 3, [Entry(25, 0), Entry(10, 2), Entry(5, 0), Entry(1, 5)], 25, g25);
        }
      }
    } else if a == 2 {
      assert Greedy(9, c) == [Entry(25, 0), Entry(10, 0), Entry(5, 1), Entry(1, 4)];
      var g10 := [Entry(25, 0), Entry(10, 1), Entry(5, 0), Entry(1, 0)];
      assert Greedy(10, c) == g10;
      if b == 2 {
        NoCounterexampleAt(2, 2, [Entry(25, 0), Entry(10, 0), Entry(5, 2), Entry(1, 0)], 10, g10);
      } else {
        NoCounterexampleAt(2, 3, [Entry(25, 0), Entry(10, 0), Entry(5, 1), Entry(1, 5)], 10, g10);
      }
    } else {
      assert Greedy(4, c) == [Entry(25, 0), Entry(10, 0), Entry(5, 0), Entry(1, 4)];
      var g5 := [Entry(25, 0), Entry(10, 0), Entry(5, 1), Entry(1, 0)];
      assert Greedy(5, c) == g5;
      NoCounterexampleAt(3, 3, [Entry(25, 0), Entry(10, 0), Entry(5, 0), Entry(1, 5)], 5, g5);
    }
  }

  /** [25, 10, 5, 1] is orderly by the search: none of its six candidates
      beats greedy. */
  lemma OrderlyExample()
    ensures ValidCurrency([25, 10, 5, 1])
    ensures FirstCounterexample([25, 10, 5, 1]) == None
  {
    forall a, b | InRange(4, a, b)
      ensures !IsCounterexample([25, 10, 5, 1], Candidate([25, 10, 5, 1], a, b))
    {
      UsCoinsNoCounterexample(a, b);
    }
    FirstCounterexampleSpec([25, 10, 5, 1]);
  }

  /** The one-denomination currency [1] has no pair to try. */
  lemma SingleCoinExample()
    ensures ValidCurrency([1])
    ensures FirstCounterexample([1]) == None
  {
  }
}
