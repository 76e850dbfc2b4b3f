/** The wallet page (`WalletPage`): wallet balances are filtered to positive
    amounts on ranked blockchains, stably sorted by descending blockchain
    priority, formatted, and turned into one USD-valued row each. */
module WalletPage {

  import StableSort

  datatype WalletBalance = WalletBalance(currency: string, amount: real, blockchain: string)

  /** A balance with its amount rendered for display. */
  datatype FormattedWalletBalance =
    FormattedWalletBalance(currency: string, amount: real, blockchain: string, formatted: string)

  /** A JavaScript number that may be NaN. */
  datatype Num = Real(value: real) | NaN

  /** The properties of one `WalletRow`, with the React `key`. */
  datatype Row = Row(key: string, amount: real, usdValue: Num, formattedAmount: string)

  const BlockchainPriorities: map<string, int> :=
    map["Osmosis" := 100, "Ethereum" := 50, "Arbitrum" := 30, "Zilliqa" := 20, "Neo" := 20]

  /** The ranking the table encodes; chains without an entry are unranked. */
  lemma PriorityRanking()
    ensures BlockchainPriorities.Keys == {"Osmosis", "Ethereum", "Arbitrum", "Zilliqa", "Neo"}
    ensures BlockchainPriorities["Osmosis"] > BlockchainPriorities["Ethereum"] > BlockchainPriorities["Arbitrum"]
    ensures BlockchainPriorities["Arbitrum"] > BlockchainPriorities["Zilliqa"] == BlockchainPriorities["Neo"]
  {
  }

  /** The filter: a positive amount on a blockchain the table ranks. */
  predicate Keep(b: WalletBalance) {
    b.amount > 0.0 && b.blockchain in BlockchainPriorities
  }

  /** The sort comparator's key, `blockchainPriorities[chain] || 0`. The `|| 0`
      fallback never changes a kept balance's key. */
  function SortKey(b: WalletBalance): (k: int)
    ensures Keep(b) ==> k == BlockchainPriorities[b.blockchain]
    ensures b.blockchain !in BlockchainPriorities ==> k == 0
  {
    if b.blockchain in BlockchainPriorities && BlockchainPriorities[b.blockchain] != 0
    then BlockchainPriorities[b.blockchain]
    else 0
  }

  /** The comparator `key(b) - key(a)` puts `a` first exactly when its key is
      the higher one. */
  function Higher(x: int, y: int): bool {
    x > y
  }

  lemma HigherIsStrictTotalOrder()
    ensures StableSort.StrictTotalOrder(Higher)
  {
  }

  /** The balances the filter keeps, in input order. */
  function FilterBalances(balances: seq<WalletBalance>): (r: seq<WalletBalance>)
    ensures forall i :: 0 <= i < |r| ==> Keep(r[i])
    decreases |balances|
  {
    if balances == [] then []
    else (if Keep(balances[0]) then [balances[0]] else []) + FilterBalances(balances[1..])
  }

  /** The filter keeps every copy of a kept balance and no copy of any other. */
  lemma {:induction false} FilterBalancesCounts(balances: seq<WalletBalance>)
    ensures forall b :: multiset(FilterBalances(balances))[b] == if Keep(b) then multiset(balances)[b] else 0
    decreases |balances|
  {
    if balances != [] {
      assert balances == [balances[0]] + balances[1..];
      FilterBalancesCounts(balances[1..]);
    }
  }

  /** Filtering commutes with concatenation: the filter keeps input order. */
  lemma {:induction false} FilterBalancesAppend(a: seq<WalletBalance>, b: seq<WalletBalance>)
    ensures FilterBalances(a + b) == FilterBalances(a) + FilterBalances(b)
    decreases |a|
  {
    if a == [] {
      assert a + b == b;
    } else {
      var ab := a + b;
      assert ab[0] == a[0] && ab[1..] == a[1..] + b;
      var head := if Keep(a[0]) then [a[0]] else [];
      assert FilterBalances(ab) == head + FilterBalances(ab[1..]);
      assert FilterBalances(a) == head + FilterBalances(a[1..]);
      FilterBalancesAppend(a[1..], b);
    }
  }

  /** The balances behind formatted records: each record without `formatted`. */
  function Unformat(fs: seq<FormattedWalletBalance>): (bs: seq<WalletBalance>)
    ensures |bs| == |fs|
    ensures forall i :: 0 <= i < |fs| ==>
              bs[i].currency == fs[i].currency && bs[i].amount == fs[i].amount &&
              bs[i].blockchain == fs[i].blockchain
  {
    seq(|fs|, i requires 0 <= i < |fs| => WalletBalance(fs[i].currency, fs[i].amount, fs[i].blockchain))
  }

  /** The `map` adding `formatted`: one record per balance, same order,
      fields carried over unchanged. */
  function FormatAll(bs: seq<WalletBalance>, toFixed: real -> string): (fs: seq<FormattedWalletBalance>)
    ensures Unformat(fs) == bs
    ensures forall i :: 0 <= i < |fs| ==> fs[i].formatted == toFixed(fs[i].amount)
  {
    var fs := seq(|bs|, i requires 0 <= i < |bs| =>
                FormattedWalletBalance(bs[i].currency, bs[i].amount, bs[i].blockchain, toFixed(bs[i].amount)));
    assert |Unformat(fs)| == |bs|;
    assert forall i :: 0 <= i < |bs| ==> Unformat(fs)[i] == bs[i];
    assert Unformat(fs) == bs;
    fs
  }

  /** What the stable sort of the kept balances guarantees. */
  lemma SortedBalances(kept: seq<WalletBalance>, sorted: seq<WalletBalance>)
    requires forall i :: 0 <= i < |kept| ==> Keep(kept[i])
    requires sorted == StableSort.Sort(kept, SortKey, Higher)
    ensures multiset(sorted) == multiset(kept)
    ensures StableSort.Stable(sorted, kept, SortKey)
    ensures forall i :: 0 <= i < |sorted| ==> Keep(sorted[i])
    ensures forall i, j :: 0 <= i < j < |sorted| ==> SortKey(sorted[i]) >= SortKey(sorted[j])
  {
    HigherIsStrictTotalOrder();
    StableSort.SortCharacterised(kept, sorted, SortKey, Higher);
    StableSort.SortPermutes(kept, SortKey, Higher);
    forall i | 0 <= i < |sorted|
      ensures Keep(sorted[i])
    {
      assert sorted[i] in multiset(sorted);
      assert sorted[i] in multiset(kept);
      var k :| 0 <= k < |kept| && kept[k] == sorted[i];
    }
    forall i, j | 0 <= i < j < |sorted|
      ensures SortKey(sorted[i]) >= SortKey(sorted[j])
    {
      assert !Higher(SortKey(sorted[j]), SortKey(sorted[i]));
    }
  }

  /** What the page needs of formatted records whose balances are the stable
      sort of the kept ones. */
  lemma FormattedFacts(kept: seq<WalletBalance>, formatted: seq<FormattedWalletBalance>)
    requires forall i :: 0 <= i < |kept| ==> Keep(kept[i])
    requires Unformat(formatted) == StableSort.Sort(kept, SortKey, Higher)
    ensures forall i :: 0 <= i < |formatted| ==>
              formatted[i].amount > 0.0 && formatted[i].blockchain in BlockchainPriorities
    ensures forall i, j :: 0 <= i < j < |formatted| ==>
              BlockchainPriorities[formatted[i].blockchain] >= BlockchainPriorities[formatted[j].blockchain]
  {
    var sorted := Unformat(formatted);
    SortedBalances(kept, sorted);
    forall i | 0 <= i < |formatted|
      ensures Keep(sorted[i])
      ensures formatted[i].blockchain == sorted[i].blockchain && formatted[i].amount == sorted[i].amount
    {
    }
    forall i, j | 0 <= i < j < |formatted|
      ensures BlockchainPriorities[formatted[i].blockchain] >= BlockchainPriorities[formatted[j].blockchain]
    {
      assert SortKey(sorted[i]) >= SortKey(sorted[j]);
    }
  }

  /** The memoised `sortedAndFormattedBalances`: filter, an in-place stable
      sort of the filtered array, then `toFixed()` on every amount. */
  method SortedAndFormattedBalances(balances: seq<WalletBalance>, toFixed: real -> string)
    returns (formatted: seq<FormattedWalletBalance>)
    ensures Unformat(formatted) == StableSort.Sort(FilterBalances(balances), SortKey, Higher)
    ensures multiset(Unformat(formatted)) == multiset(FilterBalances(balances))
    ensures StableSort.Stable(Unformat(formatted), FilterBalances(balances), SortKey)
    ensures forall i :: 0 <= i < |formatted| ==>
              formatted[i].amount > 0.0 && formatted[i].blockchain in BlockchainPriorities
    ensures forall i, j :: 0 <= i < j < |formatted| ==>
              BlockchainPriorities[formatted[i].blockchain] >= BlockchainPriorities[formatted[j].blockchain]
    ensures forall i :: 0 <= i < |formatted| ==> formatted[i].formatted == toFixed(formatted[i].amount)
  {
    var kept := FilterBalances(balances);
    var a := new WalletBalance[|kept|](i requires 0 <= i < |kept| => kept[i]);
    assert a[..] == kept;
    StableSort.InsertionSort(a, SortKey, Higher);
    var sorted := a[..];
    SortedBalances(kept, sorted);
    formatted := FormatAll(sorted, toFixed);
    FormattedFacts(kept, formatted);
  }

  /** Neo and Zilliqa share a priority, so their balances keep their input
      order behind the higher-ranked Osmosis balance. */
  lemma EqualPrioritiesKeepInputOrder()
    ensures var a, b, c := WalletBalance("NEO", 1.0, "Neo"), WalletBalance("ZIL", 2.0, "Zilliqa"),
                           WalletBalance("ATOM", 3.0, "Osmosis");
            StableSort.Sort([a, b, c], SortKey, Higher) == [c, a, b]
  {
    var a, b, c := WalletBalance("NEO", 1.0, "Neo"), WalletBalance("ZIL", 2.0, "Zilliqa"),
                   WalletBalance("ATOM", 3.0, "Osmosis");
    assert [a, b, c][..2] == [a, b] && [a, b][..1] == [a];
    assert StableSort.Sort([a], SortKey, Higher) == [a] by {
      assert [a][..0] == [];
    }
    assert StableSort.Insert([a], b, SortKey, Higher) == [a, b];
    assert StableSort.Insert([a], c, SortKey, Higher) == [c, a] by {
      assert [a][..0] == [];
    }
  }

  /** A balance on a chain the table does not rank is dropped. */
  lemma UnrankedChainDropped()
    ensures FilterBalances([WalletBalance("SOL", 5.0, "Solana")]) == []
  {
    assert [WalletBalance("SOL", 5.0, "Solana")][1..] == [];
  }

  /** A row's `usdValue`: `prices[currency] * amount`, which is NaN when the
      currency has no price. */
  function UsdValue(prices: map<string, real>, currency: string, amount: real): (v: Num)
    ensures v.NaN? <==> currency !in prices
    ensures v.Real? ==> v.value == prices[currency] * amount
  {
    if currency in prices then Real(prices[currency] * amount) else NaN
  }

  /** The memoised `rows`: one row per formatted balance, in the same order,
      keyed by currency and valued by `UsdValue`. */
  function Rows(sorted: seq<FormattedWalletBalance>, prices: map<string, real>): (rows: seq<Row>)
    ensures |rows| == |sorted|
    ensures forall i :: 0 <= i < |rows| ==>
              rows[i].key == sorted[i].currency && rows[i].amount == sorted[i].amount &&
              rows[i].formattedAmount == sorted[i].formatted
    ensures forall i :: 0 <= i < |rows| ==>
              rows[i].usdValue == UsdValue(prices, rows[i].key, rows[i].amount)
  {
    seq(|sorted|, i requires 0 <= i < |sorted| =>
      var b := sorted[i];
      Row(b.currency, b.amount, UsdValue(prices, b.currency, b.amount), b.formatted))
  }

  /** The rows' React keys are unique exactly when no currency is listed twice
      (the same currency on two blockchains repeats a key). */
  lemma RowKeysUnique(sorted: seq<FormattedWalletBalance>, prices: map<string, real>)
    ensures (forall i, j :: 0 <= i < j < |sorted| ==> Rows(sorted, prices)[i].key != Rows(sorted, prices)[j].key)
        <==> (forall i, j :: 0 <= i < j < |sorted| ==> sorted[i].currency != sorted[j].currency)
  {
    var rows := Rows(sorted, prices);
    assert forall i :: 0 <= i < |rows| ==> rows[i].key == sorted[i].currency;
  }

  /** What the rows of the sorted, formatted balances say about the page. */
  lemma PageFacts(kept: seq<WalletBalance>, formatted: seq<FormattedWalletBalance>,
                  prices: map<string, real>, toFixed: real -> string)
    requires Unformat(formatted) == StableSort.Sort(kept, SortKey, Higher)
    requires forall i :: 0 <= i < |formatted| ==> formatted[i].amount > 0.0
    requires forall i :: 0 <= i < |formatted| ==> formatted[i].formatted == toFixed(formatted[i].amount)
    ensures var rows, sorted := Rows(formatted, prices), StableSort.Sort(kept, SortKey, Higher);
            |rows| == |sorted| == |kept| &&
            forall i :: 0 <= i < |rows| ==>
              rows[i].key == sorted[i].currency && rows[i].amount == sorted[i].amount &&
              rows[i].amount > 0.0 && rows[i].formattedAmount == toFixed(rows[i].amount)
  {
    var rows, sorted := Rows(formatted, prices), Unformat(formatted);
    StableSort.SortLength(kept, SortKey, Higher);
    forall i | 0 <= i < |rows|
      ensures rows[i].key == sorted[i].currency && rows[i].amount == sorted[i].amount
    {
    }
  }

  /** The whole page: one row per kept balance, in the order of the stable
      sort by non-increasing priority, keyed by currency and valued at
      `prices[currency] * amount` where the currency has a price. */
  method PageRows(balances: seq<WalletBalance>, prices: map<string, real>, toFixed: real -> string)
    returns (rows: seq<Row>)
    ensures var sorted := StableSort.Sort(FilterBalances(balances), SortKey, Higher);
            |rows| == |sorted| &&
            forall i :: 0 <= i < |rows| ==>
              rows[i].key == sorted[i].currency && rows[i].amount == sorted[i].amount
    ensures |rows| == |FilterBalances(balances)|
    ensures forall i :: 0 <= i < |rows| ==> rows[i].amount > 0.0
    ensures forall i :: 0 <= i < |rows| ==> rows[i].formattedAmount == toFixed(rows[i].amount)
    ensures forall i :: 0 <= i < |rows| ==>
              rows[i].usdValue == UsdValue(prices, rows[i].key, rows[i].amount)
  {
    var formatted := SortedAndFormattedBalances(balances, toFixed);
    PageFacts(FilterBalances(balances), formatted, prices, toFixed);
    rows := Rows(formatted, prices);
  }
}
