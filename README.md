# Orderly currencies for change-making, in Dafny

This project models `kludge-box/orderlycur/orderlycur.py`, a small module about
the change-making problem. A *currency* is a list of denominations: positive,
strictly descending, ending in 1. A *coinrep* has one `(denomination, count)`
entry per denomination of the currency, in the same order, with counts of zero
or more. The module provides five functions:

- `coinrep_value` gives the value of a coinrep, and `coinrep_count` gives its
  number of coins.
- `grdy_coinrep` makes change greedily: for each denomination it takes the
  floor quotient of what remains and carries the remainder on.
- `orderly_counterex` is Pearson's polynomial-time test (D. Pearson, "A
  Polynomial-time Algorithm for the Change-Making Problem", Operations Research
  Letters 33(3), 2005). It builds a candidate coinrep for each pair
  1 <= i <= j <= n-1 in lexicographic order. The candidate is the greedy coinrep
  of `currency[i-1] - 1`, kept before position j, with one more coin at j and no
  coins after j. The test returns the first candidate that uses fewer coins
  than the greedy coinrep of its own value, or None.
- `is_orderly` is true when that search returns None.

The Dafny modules follow the module's structure:

- `CoinReps` (coinreps.dfy): the entities, the validity predicates, and the two
  sums.
- `GreedyRep` (greedy.dfy): greedy change. `Greedy` is a recursive function.
  The method `GreedyCoinRep` is the source's loop, proved equal to it.
- `PairSearch` (pairsearch.dfy): the lexicographic enumeration of index pairs
  and its first-hit search. It is written over an arbitrary test, so the
  search-order proof is separate from coin arithmetic.
- `Orderliness` (orderliness.dfy): the candidate builder, the counterexample
  test, the search, and `is_orderly`. `MakeCandidate` and `OrderlyCounterex`
  are methods with the source's loops, proved equal to the functions
  `Candidate` and `FirstCounterexample`. Those functions carry the soundness
  and search-order lemmas.
- `OrderlinessExamples` (orderliness.dfy): the worked currencies [4, 3, 1] (not
  orderly) and [25, 10, 5, 1] and [1] (no counterexample found).

Orderliness itself is the ghost predicate `Orderly`: for every value >= 0, no
coinrep over the currency with that value uses fewer coins than greedy.

Index convention: candidate j indexes `template[j]` 0-based, from i to n-1
(orderlycur.py:100, 114), so it includes the final 1-denomination, as in
Pearson's paper.

Validity of inputs: the source validates nothing and raises nothing
(orderlycur.py:58-118). A malformed currency is therefore a precondition
(`ValidCurrency`), not an error result. A negative value passed to greedy
change is modelled as Python computes it: Dafny's `/` and `%` with a positive
divisor are floor division and its remainder, as `divmod` is.

## Model

| member | source | states |
|---|---|---|
| CoinReps.Value | kludge-box/orderlycur/orderlycur.py:50-52 | coinrep_value: the sum of denomination * count over the entries (a definition; its properties are the lemmas below) |
| CoinReps.Count | kludge-box/orderlycur/orderlycur.py:54-56 | coinrep_count: the sum of the counts (a definition; its properties are the lemmas below) |
| CoinReps.DescendingOrder | kludge-box/orderlycur/orderlycur.py:20-21 | in a descending currency an earlier denomination is strictly larger than every later one, so there are no duplicates and every denomination before the last exceeds the trailing 1 |
| CoinReps.ValueConcat | kludge-box/orderlycur/orderlycur.py:50-56 | the value and the coin count of a concatenation are the sums of those of its parts |
| CoinReps.NonNegative | kludge-box/orderlycur/orderlycur.py:50-56 | with counts >= 0 the coin count is >= 0; with positive denominations as well, the value is >= 0 |
| CoinReps.ZeroCounts | kludge-box/orderlycur/orderlycur.py:50-56 | entries that all have count 0 are worth 0 and hold 0 coins |
| CoinReps.CoinRepOverNonNegative | kludge-box/orderlycur/orderlycur.py:23-31 | a coinrep over a valid currency has value >= 0 and coin count >= 0 |
| GreedyRep.Greedy | kludge-box/orderlycur/orderlycur.py:70-75 | the greedy coinrep has one entry per denomination |
| GreedyRep.Remainder | kludge-box/orderlycur/orderlycur.py:72-74 | the remainder carried past the last denomination lies in [0, last denomination) |
| GreedyRep.GreedyValue | kludge-box/orderlycur/orderlycur.py:70-75 | the coins taken plus the final remainder equal the value, for every integer value |
| GreedyRep.GreedyShape | kludge-box/orderlycur/orderlycur.py:70-75 | the greedy coinrep has the currency's denominations in its order; for a value >= 0 every count is >= 0 (a coinrep over the currency) |
| GreedyRep.GreedyRoundTrip | kludge-box/orderlycur/orderlycur.py:58-75 | over a currency ending in 1 the remainder is 0 and the greedy coinrep is worth exactly the value; for a value >= 0 it is a coinrep over the currency |
| GreedyRep.GreedyPrefix | kludge-box/orderlycur/orderlycur.py:72-74 | the first k greedy entries depend only on the first k denominations |
| GreedyRep.GreedyStep | kludge-box/orderlycur/orderlycur.py:72-74 | count k is the floor of the amount remaining after the larger denominations divided by denomination k; the new remainder is that amount mod denomination k, so it lies in [0, denomination k) |
| GreedyRep.TakeCoins | kludge-box/orderlycur/orderlycur.py:73-74 | appending one greedy entry and carrying the remainder keeps coins taken plus remaining unchanged |
| GreedyRep.GreedyUnfold | kludge-box/orderlycur/orderlycur.py:72-74 | one loop step moves the entry of denomination k from the greedy coinrep of the rest onto the coins taken |
| GreedyRep.GreedyCoinRep | kludge-box/orderlycur/orderlycur.py:58-75 | the loop returns exactly `Greedy(value, currency)`; over a valid currency it is worth the value, and for a value >= 0 it is a coinrep over the currency |
| PairSearch.FirstPair | kludge-box/orderlycur/orderlycur.py:113-118 | a found pair is an enumerated pair at or after the starting pair |
| PairSearch.FirstPairFrom | kludge-box/orderlycur/orderlycur.py:114-117 | from a starting pair: nothing is found exactly when no later enumerated pair passes; what is found passes, and no pair between the start and it passes |
| PairSearch.FirstPairSpec | kludge-box/orderlycur/orderlycur.py:113-118 | over all pairs 1 <= i <= j <= n-1: None exactly when none passes, otherwise the lexicographically first pair that passes |
| Orderliness.Candidate | kludge-box/orderlycur/orderlycur.py:93-106 | mk_candidate as a value: the greedy coinrep of `currency[i-1] - 1`, kept before j, one more coin at j, zero counts after j (its properties are CandidateShape and CandidateValue) |
| Orderliness.CandidateShape | kludge-box/orderlycur/orderlycur.py:93-106 | the probe `currency[i-1] - 1` is >= 1; the candidate is a coinrep over the currency (same length and denominations, counts >= 0); before j it equals the greedy template, at j it has one coin more, after j no coins |
| Orderliness.CandidateValue | kludge-box/orderlycur/orderlycur.py:93-106 | the candidate's value and coin count are those of the greedy template on the denominations before j, plus template count + 1 coins of denomination j |
| Orderliness.IsCounterexample | kludge-box/orderlycur/orderlycur.py:108-111 | is_counterexample: the candidate uses fewer coins than the greedy coinrep of the candidate's own value (its meaning is CounterexampleRefutesGreedy) |
| Orderliness.CounterexampleRefutesGreedy | kludge-box/orderlycur/orderlycur.py:108-111 | a coinrep that passes the counterexample test shows greedy is not optimal for its value, so the currency is not orderly |
| Orderliness.CounterexamplePair | kludge-box/orderlycur/orderlycur.py:114 | the pair where the search stops is an enumerated pair 1 <= i <= j <= n-1 |
| Orderliness.FirstCounterexample | kludge-box/orderlycur/orderlycur.py:113-118 | the result of orderly_counterex: the candidate of the pair where the search stops, or None (its properties are FirstCounterexampleSpec and Soundness) |
| Orderliness.FirstCounterexampleSpec | kludge-box/orderlycur/orderlycur.py:113-118 | the result is None exactly when no pair gives a counterexample; otherwise it is the candidate of a pair that does, and no lexicographically earlier pair does |
| Orderliness.Soundness | kludge-box/orderlycur/orderlycur.py:81-84 | a returned candidate is a coinrep over the currency, has the same value as the greedy coinrep of that value, uses strictly fewer coins, and so the currency is not orderly |
| Orderliness.RaiseCopy | kludge-box/orderlycur/orderlycur.py:97-104 | the three append loops build exactly the raised template: prefix kept, entry j plus one coin, zero counts after j |
| Orderliness.MakeCandidate | kludge-box/orderlycur/orderlycur.py:93-106 | mk_candidate returns exactly `Candidate(currency, i, j)` |
| Orderliness.OrderlyCounterex | kludge-box/orderlycur/orderlycur.py:77-118 | the nested loops with early return compute exactly the first-counterexample search; a returned coinrep is sound |
| Orderliness.IsOrderly | kludge-box/orderlycur/orderlycur.py:120-126 | true exactly when the search returns None, and exactly when no candidate is a counterexample; false implies the currency is not orderly |
| OrderlinessExamples.NotOrderlyExample | kludge-box/orderlycur/orderlycur.py:113-117 | [4, 3, 1] is valid; the search returns (4,0),(3,2),(1,0), worth 6 in 2 coins; greedy of 6 is (4,1),(3,0),(1,2); the currency is not orderly |
| OrderlinessExamples.SumsOfFour | kludge-box/orderlycur/orderlycur.py:50-56 | helper of UsCoinsNoCounterexample: value and coin count of a four-entry coinrep, written out as sums |
| OrderlinessExamples.NoCounterexampleAt | kludge-box/orderlycur/orderlycur.py:108-111 | helper of UsCoinsNoCounterexample: a candidate of [25, 10, 5, 1] with no fewer coins than greedy of its value fails the test |
| OrderlinessExamples.UsCoinsNoCounterexample | kludge-box/orderlycur/orderlycur.py:114-116 | none of the six candidates of [25, 10, 5, 1] is a counterexample |
| OrderlinessExamples.OrderlyExample | kludge-box/orderlycur/orderlycur.py:113-118 | [25, 10, 5, 1] is valid and the search returns None |
| OrderlinessExamples.SingleCoinExample | kludge-box/orderlycur/orderlycur.py:113-118 | for [1] there is no pair to try, and the search returns None |

## Left out

- The command-line block (kludge-box/orderlycur/orderlycur.py:128-137) reads arguments and prints; it is not modelled.
- kludge-box/animefreak/afextract.py (HTTP fetching, URL handling, base64 decoding) is not part of this model.
- Input validation: the source has none, so a valid currency is a `requires`. There is no typed invalid-currency or invalid-value failure.
- Completeness of Pearson's theorem (None implies orderly) is not proved. Only soundness is: a returned candidate refutes orderliness.
- Python lists that the source appends to are modelled as `seq` values that the methods reassign. Tuples are the datatype `Entry`.
- Python integers are unbounded, as Dafny's `int` is, so there is no overflow to model.
