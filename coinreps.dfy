/**
  The two data structures of the change-making module: a currency (a list of
  denominations) and a coinrep (one (denomination, count) entry per
  denomination), with the total value and the number of coins of a coinrep.
 */
module CoinReps {

  /** One entry of a coinrep: a denomination and how many coins of it are used. */
  datatype Entry = Entry(denom: int, count: int)

  type CoinRep = seq<Entry>

  predicate PositiveDenoms(currency: seq<int>)
  {
    forall k :: 0 <= k < |currency| ==> currency[k] > 0
  }

  /** Each denomination is larger than the next one. */
  predicate StrictlyDescending(currency: seq<int>)
  {
    |currency| <= 1 || (currency[1] < currency[0] && StrictlyDescending(currency[1..]))
  }

  /** A currency: positive denominations, strictly descending (so without
      duplicates), with 1 as the last element. */
  predicate ValidCurrency(currency: seq<int>)
  {
    && |currency| >= 1
    && PositiveDenoms(currency)
    && StrictlyDescending(currency)
    && currency[|currency| - 1] == 1
  }

  /** In a strictly descending currency an earlier denomination is larger
      than every later one; so no denomination occurs twice, and every
      denomination before the last is larger than the last. */
  lemma {:induction false} DescendingOrder(currency: seq<int>, a: int, b: int)
    requires StrictlyDescending(currency) && 0 <= a < b < |currency|
    ensures currency[a] > currency[b]
    decreases |currency|
  {
    if a > 0 {
      DescendingOrder(currency[1..], a - 1, b - 1);
    } else if b > 1 {
      DescendingOrder(currency[1..], 0, b - 1);
    }
  }

  /** A coinrep over a currency: one entry per denomination, in the currency's
      order, with a non-negative count. */
  predicate CoinRepOver(rep: CoinRep, currency: seq<int>)
  {
    && |rep| == |currency|
    && forall k :: 0 <= k < |rep| ==> rep[k].denom == currency[k] && rep[k].count >= 0
  }

  /** The total value of the coins: the sum of denom * count over the entries. */
  function Value(rep: CoinRep): int
  {
    if rep == [] then 0 else rep[0].denom * rep[0].count + Value(rep[1..])
  }

  /** The number of coins: the sum of the counts. */
  function Count(rep: CoinRep): int
  {
    if rep == [] then 0 else rep[0].count + Count(rep[1..])
  }

  /** Both sums distribute over concatenation. */
  lemma {:induction false} ValueConcat(a: CoinRep, b: CoinRep)
    ensures Value(a + b) == Value(a) + Value(b)
    ensures Count(a + b) == Count(a) + Count(b)
  {
    if a != [] {
      assert (a + b)[1..] == a[1..] + b;
      ValueConcat(a[1..], b);
    } else {
      assert a + b == b;
    }
  }

  /** With non-negative counts there is a non-negative number of coins, and
      with positive denominations as well a non-negative value. */
  lemma {:induction false} NonNegative(rep: CoinRep)
    requires forall k :: 0 <= k < |rep| ==> rep[k].count >= 0
    ensures Count(rep) >= 0
    ensures (forall k :: 0 <= k < |rep| ==> rep[k].denom > 0) ==> Value(rep) >= 0
  {
    if rep != [] {
      assert forall k :: 0 <= k < |rep| - 1 ==> rep[1..][k] == rep[k + 1];
      NonNegative(rep[1..]);
    }
  }

  /** A coinrep whose counts are all zero is worth nothing and holds no coins. */
  lemma {:induction false} ZeroCounts(rep: CoinRep)
    requires forall k :: 0 <= k < |rep| ==> rep[k].count == 0
    ensures Value(rep) == 0 && Count(rep) == 0
  {
    if rep != [] {
      assert forall k :: 0 <= k < |rep| - 1 ==> rep[1..][k] == rep[k + 1];
      ZeroCounts(rep[1..]);
    }
  }

  /** Every coinrep over a currency has a non-negative value and coin count. */
  lemma CoinRepOverNonNegative(rep: CoinRep, currency: seq<int>)
    requires ValidCurrency(currency) && CoinRepOver(rep, currency)
    ensures Value(rep) >= 0 && Count(rep) >= 0
  {
    NonNegative(rep);
  }
}
