# Token swap form and wallet page: a Dafny model

This project models the two pieces of real logic in a small React
code-challenge repository:

- **The token catalog and swap estimator** (`useSwapForm`). The price feed is
  filtered to quotes with a truthy price. It is then reduced to one quote per
  currency: a later quote replaces the kept one only when its date is strictly
  later. The result is sorted by currency. The form computes the cross-rate
  `toPrice / fromPrice` (0 when either price is missing), shows
  `amount × rate` as the estimate, and validates the three fields when the swap
  is submitted.
- **The wallet page** (`WalletPage`). Balances with a positive amount on a
  blockchain the priority table has an entry for are kept (see "## Left out"
  for chain names the JavaScript lookup also finds). They are stably sorted by
  descending priority and given a `formatted` amount. Each one then becomes one
  row keyed by its currency, with `usdValue = price × amount`.

Modules, one per concern:

| file | module | contents |
|---|---|---|
| `wrappers.dfy` | `Wrappers` | `Option` |
| `string_order.dfy` | `StringOrder` | ordinal string order used for `localeCompare`, proved a strict total order |
| `stable_sort.dfy` | `StableSort` | a key-based stable sort: the functional specification `Sort`, its properties, and the in-place `InsertionSort` proved to compute it |
| `token_catalog.dfy` | `TokenCatalog` | the feed filter, `find`, the dedup `reduce`, the catalog, the cross-rate |
| `swap_form.dfy` | `SwapForm` | the form's state as a class: fields, setters, the estimate effect, `handleSwap` |
| `wallet_page.dfy` | `WalletPage` | the priority table, the filter/sort/format pipeline, the rows |

Both sorts, in `useSwapForm` and `WalletPage`, call `Array.prototype.sort` on a freshly built array.
ECMAScript 2019 and later requires that sort to be stable.
`StableSort.SortCharacterised` proves that only one sequence is both sorted
and stable. So the insertion sort here gives the same result as any stable
sort the engine uses.

Behaviour of the code worth knowing:

- On equal dates, the reduce keeps the quote it saw first, because it compares
  with a strict `>`. It does not keep the later one
  (`TokenCatalog.EqualDatesKeepFirst`).
- The feed filter drops only falsy prices. A negative price passes it.
- The balance sort breaks no ties. Balances with equal priority keep their
  input order (`WalletPage.EqualPrioritiesKeepInputOrder`).
- Rows are keyed by currency. Those keys are unique exactly when no currency
  appears twice (`WalletPage.RowKeysUnique`).
- The rate is `toPrice / fromPrice`, as written. `TokenCatalog.EstimateAmount`
  states what that means: `estimate × fromPrice = amount × toPrice`.

## Model

| member | source | states |
|---|---|---|
| `StringOrder.Less` | problem2/src/hooks/useSwapForm.ts:38 | the order `localeCompare` supplies to the sort; its contract is in the four lemmas below |
| `StringOrder.LessIrreflexive` | problem2/src/hooks/useSwapForm.ts:37-39 | no currency sorts before itself |
| `StringOrder.LessTransitive` | problem2/src/hooks/useSwapForm.ts:37-39 | the currency order is transitive |
| `StringOrder.LessTrichotomous` | problem2/src/hooks/useSwapForm.ts:37-39 | any two different currencies are ordered one way or the other |
| `StringOrder.LessIsStrictTotalOrder` | problem2/src/hooks/useSwapForm.ts:37-39 | the comparator on currencies is a strict total order, so the sort is well defined |
| `StableSort.Insert` | problem3/problem3.ts:68-72 | one step of the stable sort; its contract is in `InsertAt`, `InsertPermutes`, `InsertSorted` and `InsertWithKey` |
| `StableSort.Sort` | problem3/problem3.ts:68-72 | the stable sort both sorts compute (also useSwapForm.ts:37-39); its contract is in `SortLength`, `SortMembers`, `SortPermutes`, `SortSorted`, `SortStable` and `SortCharacterised` |
| `StableSort.InsertionSort` | problem3/problem3.ts:68-72 | sorting the array in place leaves exactly `Sort` of its old contents |
| `StableSort.ShiftInsert` | problem3/problem3.ts:68-72 | one insertion step puts `a[i]` into the sorted prefix and leaves the rest of the array alone |
| `StableSort.InsertAt` | problem3/problem3.ts:68-72 | the inserted element lands behind the last element whose key it does not precede |
| `StableSort.SortLength` | problem3/problem3.ts:68-72 | sorting keeps the length |
| `StableSort.SortMembers` | problem3/problem3.ts:68-72 | sorting neither adds nor loses an element |
| `StableSort.SortPermutes` | problem3/problem3.ts:68-72 | the sort is a permutation: nothing lost, nothing duplicated |
| `StableSort.SortSorted` | problem3/problem3.ts:68-72 | no element follows one whose key it precedes |
| `StableSort.SortStable` | problem3/problem3.ts:68-72 | for every key, the elements with that key keep their input order |
| `StableSort.SortedStableUnique` | problem3/problem3.ts:68-72 | two sorted sequences that agree on every key's subsequence are equal |
| `StableSort.SortCharacterised` | problem3/problem3.ts:68-72 | a sequence is the sort's result if and only if it is sorted and stable with respect to the input |
| `StableSort.SortStrictlySorted` | problem2/src/hooks/useSwapForm.ts:37-39 | sorting elements with pairwise different keys gives strictly ascending keys |
| `StableSort.InsertPermutes` | problem3/problem3.ts:68-72 | inserting adds exactly the one element |
| `StableSort.InsertSorted` | problem3/problem3.ts:68-72 | inserting into a sorted sequence keeps it sorted |
| `StableSort.InsertWithKey` | problem3/problem3.ts:68-72 | the inserted element goes behind every element with the same key |
| `TokenCatalog.PricedTokens` | problem2/src/hooks/useSwapForm.ts:13 | a quote survives the feed filter if and only if its price is nonzero |
| `TokenCatalog.PricedTokensAppend` | problem2/src/hooks/useSwapForm.ts:13 | the filter distributes over concatenation, so it keeps feed order |
| `TokenCatalog.Find` | problem2/src/hooks/useSwapForm.ts:24 | `find` by currency; its contract is `FindSpec` |
| `TokenCatalog.FindSpec` | problem2/src/hooks/useSwapForm.ts:24 | the result is absent exactly when no quote has the currency; otherwise it is the first quote with that currency |
| `TokenCatalog.Step` | problem2/src/hooks/useSwapForm.ts:24-34 | one step of the `reduce`; its contract is in `StepNewCurrency`, `StepKnownCurrency` and `StepKnownAt` |
| `TokenCatalog.Dedup` | problem2/src/hooks/useSwapForm.ts:23-35 | the whole `reduce`; its contract is `DedupCorrect`, with `DedupMembers`, `LaterQuoteWins` and `EqualDatesKeepFirst` |
| `TokenCatalog.StepNewCurrency` | problem2/src/hooks/useSwapForm.ts:25-26 | appending a quote of a new currency keeps one-per-currency, the currency set, and the first-latest choice |
| `TokenCatalog.StepKnownCurrency` | problem2/src/hooks/useSwapForm.ts:27-33 | replacing only by a strictly later quote keeps the same three facts |
| `TokenCatalog.StepKnownAt` | problem2/src/hooks/useSwapForm.ts:28-33 | after a step each position keeps its currency and holds that currency's first latest quote |
| `TokenCatalog.FirstLatestExtend` | problem2/src/hooks/useSwapForm.ts:28-33 | a kept quote stays chosen when the next quote is not strictly later |
| `TokenCatalog.FirstLatestNew` | problem2/src/hooks/useSwapForm.ts:28-33 | a quote strictly later than every earlier quote of its currency is chosen |
| `TokenCatalog.DedupCorrect` | problem2/src/hooks/useSwapForm.ts:23-35 | the reduce keeps one quote per currency, for every currency in the feed: the first quote with that currency's latest date |
| `TokenCatalog.LaterQuoteWins` | problem2/src/hooks/useSwapForm.ts:28-33 | a strictly later ETH quote replaces the earlier one in place; BTC is appended |
| `TokenCatalog.EqualDatesKeepFirst` | problem2/src/hooks/useSwapForm.ts:30 | with equal dates the first quote stays |
| `TokenCatalog.DedupMembers` | problem2/src/hooks/useSwapForm.ts:23-35 | every quote the reduce keeps is a feed quote that is its currency's first latest |
| `TokenCatalog.CatalogFacts` | problem2/src/hooks/useSwapForm.ts:22-40 | the sorted reduce is strictly ascending by currency, has one quote per feed currency, and holds only input quotes, each its currency's first latest |
| `TokenCatalog.BuildCatalog` | problem2/src/hooks/useSwapForm.ts:22-40 | the memoised `tokens` equals the stable sort of the reduce, with the facts above |
| `TokenCatalog.PriceOf` | problem2/src/hooks/useSwapForm.ts:51-53 | `find(...)?.price \|\| 0`; its contract is `PriceOfSpec`, with `PriceOfCatalog` |
| `TokenCatalog.PriceOfSpec` | problem2/src/hooks/useSwapForm.ts:51-53 | the price is 0 when no quote has the currency; a nonzero price belongs to a quote of that currency |
| `TokenCatalog.PriceOfCatalog` | problem2/src/hooks/useSwapForm.ts:51-53 | in a one-per-currency catalog, the looked-up price is that currency's quote's price |
| `TokenCatalog.Quote` | problem2/src/hooks/useSwapForm.ts:54 | the quotient is 0 if and only if either price is 0; otherwise it times the source price gives the target price; it is positive when both prices are |
| `TokenCatalog.QuoteReciprocal` | problem2/src/hooks/useSwapForm.ts:54 | the quotients of a pair of prices taken both ways multiply to 1 |
| `TokenCatalog.GetExchangeRate` | problem2/src/hooks/useSwapForm.ts:49-57 | the rate is 0 if and only if either price is 0 or missing; otherwise `rate × fromPrice = toPrice`; it is positive when both prices are |
| `TokenCatalog.RateRoundTrip` | problem2/src/hooks/useSwapForm.ts:49-57 | the two directions' rates multiply to 1 whenever one is defined |
| `TokenCatalog.EstimateAmount` | problem2/src/hooks/useSwapForm.ts:62 | the estimate is 0 without a rate; otherwise `estimate × fromPrice = amount × toPrice` |
| `TokenCatalog.EstimateRoundTrip` | problem2/src/hooks/useSwapForm.ts:59-65 | estimating there and back returns the original amount |
| `SwapForm.EstimateText` | problem2/src/hooks/useSwapForm.ts:59-65 | the estimate shows "0" whenever a field is empty |
| `SwapForm.SwapError` | problem2/src/hooks/useSwapForm.ts:71-79 | "Please fill in all fields." exactly when a field is empty; the different-currencies message exactly when all are set and equal; cleared exactly otherwise |
| `SwapForm.SwapNotice` | problem2/src/hooks/useSwapForm.ts:80-82 | the `alert` text; `HandleSwap` states when it is produced and with which estimate |
| `SwapForm.SwapFormState.constructor` | problem2/src/hooks/useSwapForm.ts:42-47 | the initial state: empty fields, estimate "0", no error |
| `SwapForm.SwapFormState.RunEstimateEffect` | problem2/src/hooks/useSwapForm.ts:59-66 | after the effect, the displayed estimate matches the current fields and catalog |
| `SwapForm.SwapFormState.ReceiveFeed` | problem2/src/hooks/useSwapForm.ts:17-40 | the catalog becomes the sorted, one-per-currency reduce of the priced feed; no kept quote has price 0; the fields and error are unchanged |
| `SwapForm.SwapFormState.SetFromToken` | problem2/src/hooks/useSwapForm.ts:42 | sets the source currency only, and the estimate follows |
| `SwapForm.SwapFormState.SetToToken` | problem2/src/hooks/useSwapForm.ts:43 | sets the target currency only, and the estimate follows |
| `SwapForm.SwapFormState.SetAmount` | problem2/src/hooks/useSwapForm.ts:44 | sets the amount only, and the estimate follows |
| `SwapForm.SwapFormState.HandleSwap` | problem2/src/hooks/useSwapForm.ts:68-85 | keeps `Valid()`; sets the error that `SwapError` gives; a confirmation is produced exactly when the error is cleared, and it carries `EstimateText` of the current fields |
| `WalletPage.BlockchainPriorities` | problem3/problem3.ts:49-55 | the priority table; its contract is `PriorityRanking` |
| `WalletPage.PriorityRanking` | problem3/problem3.ts:49-55 | Osmosis > Ethereum > Arbitrum > Zilliqa = Neo, and no other chain is ranked |
| `WalletPage.Keep` | problem3/problem3.ts:64-66 | the filter predicate; `FilterBalances` and `FilterBalancesCounts` state what it keeps |
| `WalletPage.SortKey` | problem3/problem3.ts:70-71 | a kept balance's key is its table priority, so the `|| 0` fallback never applies to one; an unranked chain gets 0 |
| `WalletPage.Higher` | problem3/problem3.ts:69-71 | the order the comparator induces on keys; its contract is `HigherIsStrictTotalOrder` |
| `WalletPage.HigherIsStrictTotalOrder` | problem3/problem3.ts:68-72 | the comparator `key(b) - key(a)` orders priorities by a strict total order |
| `WalletPage.FilterBalances` | problem3/problem3.ts:62-67 | every kept balance has a positive amount and a ranked chain |
| `WalletPage.FilterBalancesCounts` | problem3/problem3.ts:62-67 | each passing balance is kept exactly as often as it occurs, and no other balance is kept |
| `WalletPage.FilterBalancesAppend` | problem3/problem3.ts:62-67 | the filter distributes over concatenation, so it keeps input order |
| `WalletPage.UnrankedChainDropped` | problem3/problem3.ts:66 | a balance on an unranked chain is dropped |
| `WalletPage.SortedBalances` | problem3/problem3.ts:68-72 | the sorted kept balances are a stable permutation of them, all kept, in non-increasing priority |
| `WalletPage.EqualPrioritiesKeepInputOrder` | problem3/problem3.ts:68-72 | Neo and Zilliqa balances keep their input order behind Osmosis |
| `WalletPage.Unformat` | problem3/problem3.ts:73-78 | dropping `formatted` gives back the balance's three fields |
| `WalletPage.FormatAll` | problem3/problem3.ts:73-78 | each record carries its balance's fields unchanged, in the same order, plus the formatted amount |
| `WalletPage.FormattedFacts` | problem3/problem3.ts:68-78 | the formatted records of the sorted kept balances all have positive amounts and ranked chains, in non-increasing priority |
| `WalletPage.SortedAndFormattedBalances` | problem3/problem3.ts:61-79 | the output is the stable sort of exactly the kept balances, with positive amounts, ranked chains, non-increasing priority, and formatted amounts |
| `WalletPage.UsdValue` | problem3/problem3.ts:83 | NaN exactly when the currency has no price; otherwise `price × amount` |
| `WalletPage.Rows` | problem3/problem3.ts:81-94 | one row per balance, in order, keyed by currency, with its amount and formatted amount, and `usdValue` as `UsdValue` gives it |
| `WalletPage.RowKeysUnique` | problem3/problem3.ts:87 | the row keys are unique if and only if the currencies are |
| `WalletPage.PageFacts` | problem3/problem3.ts:61-94 | the rows of the sorted, formatted balances match the stable sort of the kept balances one for one, with positive amounts and formatted amounts |
| `WalletPage.PageRows` | problem3/problem3.ts:57-97 | row `i` is the `i`-th balance of the stable sort of the kept balances (its currency as key and its amount), so there is one row per kept balance in non-increasing priority; each amount is positive and formatted by `toFixed`; `usdValue` is `UsdValue`: NaN exactly when the currency has no price, otherwise `price × amount` |

## Left out

- Fetching the price feed and `response.json()`: network I/O. The feed is a parameter of `ReceiveFeed`.
- The `useQuery` cache and the shared query client: library plumbing. The default empty token list is the constructor's empty catalog.
- React's hook mechanics (`useMemo`, `useCallback`, `useEffect` re-running on dependency changes). Each setter and `ReceiveFeed` runs the estimate effect explicitly, and the class invariant `Valid()` says the estimate is up to date.
- `alert`: a UI side effect. `HandleSwap` returns the confirmation text instead.
- `e.preventDefault()`: a browser event detail with no effect on the state.
- All JSX and rendering: `CurrencySwapForm.tsx`, `TokenSelect.tsx`, `AmountInput.tsx`, `App.tsx`, `WalletRow`, the CSS class and `<div {...rest}>`. `Row` records only the props that carry data.
- `useWalletBalances` and `usePrices`: hooks not part of this model. Their values are parameters.
- `problem3/problem3.js`: comments only.
- Floating point. Prices and amounts are `real`, so there is no rounding, overflow, `Infinity` or `NaN` arithmetic. A missing or NaN feed price is represented as 0.0, which the truthiness checks treat the same way. `prices[currency]` being undefined gives `Num.NaN`.
- `parseFloat`, `toFixed(6)` and `toFixed()`: function parameters. `parseFloat` returns `None` for NaN, and NaN renders as "NaN".
- `new Date(...)` parsing: dates are integer timestamps. An unparsable date, which makes the `>` comparison in `useSwapForm` false, is not modelled.
- `localeCompare`'s locale-dependent collation: the model uses ordinal string order on Unicode scalar values.
- WalletPage.Keep: the test `blockchainPriorities[chain] !== undefined` is also true for names the object literal inherits from `Object.prototype` (`constructor`, `toString`, `__proto__`, …). The model keeps only the five listed chains. For an inherited name the sort key `(value || 0)` is a function, the comparator yields NaN, and the resulting order is implementation-defined. So balances on such chains are not modelled.
- WalletPage.FilterBalances: drops positive balances on inherited property names, which the JavaScript filter keeps (see the line above).
- SwapForm.EstimateText: the contract states only the "0" case. The other cases appear in the body and in the class invariant `Valid()`.
