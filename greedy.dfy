/**
  The greedy coinrep of a value: going through the denominations from the
  largest to the smallest, take as many coins of each as fit in what remains
  and carry the rest to the next denomination.
 */
module GreedyRep {
  import opened CoinReps

  /** The greedy coinrep of `value`. Dafny's `/` and `%` with a positive
      divisor are floor division and its remainder, as Python's `divmod` is,
      so a negative value is modelled too (its first count is negative). */
  function Greedy(value: int, currency: seq<int>): (r: CoinRep)
    requires PositiveDenoms(currency)
    ensures |r| == |currency|
    decreases |currency|
  {
    if currency == [] then []
    else [Entry(currency[0], value / currency[0])] + Greedy(value % currency[0], currency[1..])
  }

  /** What is left of `value` once every denomination of `currency` has been
      taken greedily. */
  function Remainder(value: int, currency: seq<int>): (rest: int)
    requires PositiveDenoms(currency)
    ensures currency != [] ==> 0 <= rest < currency[|currency| - 1]
    decreases |currency|
  {
    if currency == [] then value
    else Remainder(value % currency[0], currency[1..])
  }

  /** The coins taken greedily and the remainder together make up the value. */
  lemma {:induction false} GreedyValue(value: int, currency: seq<int>)
    requires PositiveDenoms(currency)
    ensures Value(Greedy(value, currency)) + Remainder(value, currency) == value
    decreases |currency|
  {
    if currency != [] {
      var d := currency[0];
      var rest := Greedy(value % d, currency[1..]);
      assert Greedy(value, currency) == [Entry(d, value / d)] + rest;
      assert ([Entry(d, value / d)] + rest)[1..] == rest;
      GreedyValue(value % d, currency[1..]);
      assert d * (value / d) + value % d == value;
    }
  }

  /** The greedy coinrep has the currency's denominations in its order, and
      for a non-negative value no negative count. */
  lemma {:induction false} GreedyShape(value: int, currency: seq<int>)
    requires PositiveDenoms(currency)
    ensures forall k :: 0 <= k < |currency| ==> Greedy(value, currency)[k].denom == currency[k]
    ensures value >= 0 ==> CoinRepOver(Greedy(value, currency), currency)
    decreases |currency|
  {
    if currency != [] {
      var d := currency[0];
      GreedyShape(value % d, currency[1..]);
      assert forall k :: 1 <= k < |currency| ==> Greedy(value, currency)[k] == Greedy(value % d, currency[1..])[k - 1];
    }
  }

  /** Round trip: with a valid currency (ending in 1) nothing is left over, and
      the greedy coinrep is worth exactly the value; for a non-negative value
      it is a coinrep over the currency. */
  lemma GreedyRoundTrip(value: int, currency: seq<int>)
    requires ValidCurrency(currency)
    ensures Remainder(value, currency) == 0
    ensures Value(Greedy(value, currency)) == value
    ensures value >= 0 ==> CoinRepOver(Greedy(value, currency), currency)
  {
    GreedyValue(value, currency);
    GreedyShape(value, currency);
  }

  /** The greedy coinrep of a currency's prefix is the prefix of its greedy coinrep. */
  lemma {:induction false} GreedyPrefix(value: int, currency: seq<int>, k: nat)
    requires PositiveDenoms(currency) && k <= |currency|
    ensures Greedy(value, currency)[..k] == Greedy(value, currency[..k])
    decreases k
  {
    if k > 0 {
      var d := currency[0];
      assert currency[..k][1..] == currency[1..][..k - 1];
      GreedyPrefix(value % d, currency[1..], k - 1);
    }
  }

  /** The step rule: the count of denomination k is the value remaining after
      the larger denominations divided by it, the new remainder is that value
      modulo it, and so lies strictly below it. */
  lemma {:induction false} GreedyStep(value: int, currency: seq<int>, k: nat)
    requires PositiveDenoms(currency) && k < |currency|
    ensures Greedy(value, currency)[k]
         == Entry(currency[k], Remainder(value, currency[..k]) / currency[k])
    ensures Remainder(value, currency[..k + 1]) == Remainder(value, currency[..k]) % currency[k]
    ensures 0 <= Remainder(value, currency[..k + 1]) < currency[k]
    decreases k
  {
    var d := currency[0];
    if k == 0 {
      assert currency[..1][1..] == [];
    } else {
      GreedyStep(value % d, currency[1..], k - 1);
      assert currency[..k][1..] == currency[1..][..k - 1];
      assert currency[..k + 1][1..] == currency[1..][..k];
    }
  }

  /** One greedy step keeps the value of the coins taken plus what remains. */
  lemma TakeCoins(rep: CoinRep, remaining: int, denom: int)
    requires denom > 0
    ensures Value(rep + [Entry(denom, remaining / denom)]) + remaining % denom
         == Value(rep) + remaining
  {
    ValueConcat(rep, [Entry(denom, remaining / denom)]);
    assert Value([Entry(denom, remaining / denom)]) == denom * (remaining / denom);
  }

  /** Taking denomination k greedily moves its entry from the greedy coinrep
      of the rest onto the coins taken so far. */
  lemma GreedyUnfold(rep: CoinRep, remaining: int, currency: seq<int>, k: nat)
    requires PositiveDenoms(currency) && k < |currency|
    ensures rep + Greedy(remaining, currency[k..])
         == (rep + [Entry(currency[k], remaining / currency[k])])
            + Greedy(remaining % currency[k], currency[k + 1..])
  {
    assert currency[k..][1..] == currency[k + 1..];
  }

  /** grdy_coinrep: one pass over the denominations, appending one entry per
      denomination and carrying the remainder. */
  method GreedyCoinRep(value: int, currency: seq<int>) returns (rep: CoinRep)
    requires PositiveDenoms(currency)
    ensures rep == Greedy(value, currency)
    ensures ValidCurrency(currency) ==> Value(rep) == value
    ensures ValidCurrency(currency) && value >= 0 ==> CoinRepOver(rep, currency)
  {
    rep := [];
    var remaining := value;
    for k := 0 to |currency|
      invariant rep + Greedy(remaining, currency[k..]) == Greedy(value, currency)
      invariant Value(rep) + remaining == value
      invariant k > 0 ==> 0 <= remaining < currency[k - 1]
    {
      var denom := currency[k];
      var count := remaining / denom;
      GreedyUnfold(rep, remaining, currency, k);
      TakeCoins(rep, remaining, denom);
      rep := rep + [Entry(denom, count)];
      remaining := remaining % denom;
    }
    assert currency[|currency|..] == [];
    GreedyShape(value, currency);
  }
}
