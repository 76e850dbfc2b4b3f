/** The token catalog behind the swap form (`useSwapForm`): the price feed is
    filtered, reduced to one quote per currency and sorted by currency; the
    cross-rate between two currencies is read from the result. */
module TokenCatalog {

  import opened Wrappers
  import StringOrder
  import StableSort

  /** One quote of the price feed. `price` is 0.0 where the feed has no
      usable price; `date` is the quote's timestamp. */
  datatype Token = Token(currency: string, price: real, date: int)

  function CurrencyOf(t: Token): string {
    t.currency
  }

  ghost function Currencies(s: seq<Token>): set<string> {
    set t | t in s :: t.currency
  }

  ghost predicate UniqueCurrencies(s: seq<Token>) {
    StableSort.UniqueKeys(s, CurrencyOf)
  }

  // ---------------------------------------------------------------------
  // The feed filter

  /** The quotes whose price is truthy, in feed order. */
  function PricedTokens(data: seq<Token>): (r: seq<Token>)
    ensures forall t :: t in r <==> t in data && t.price != 0.0
    ensures |r| <= |data|
    decreases |data|
  {
    if data == [] then []
    else (if data[0].price != 0.0 then [data[0]] else []) + PricedTokens(data[1..])
  }

  /** Filtering commutes with concatenation: the filter keeps feed order. */
  lemma {:induction false} PricedTokensAppend(a: seq<Token>, b: seq<Token>)
    ensures PricedTokens(a + b) == PricedTokens(a) + PricedTokens(b)
    decreases |a|
  {
    if a != [] {
      assert (a + b)[1..] == a[1..] + b;
      PricedTokensAppend(a[1..], b);
    } else {
      assert a + b == b;
    }
  }

  // ---------------------------------------------------------------------
  // Lookup

  /** `find` by currency: the first quote for `c`. */
  function Find(tokens: seq<Token>, c: string): (r: Option<Token>)
    decreases |tokens|
  {
    if tokens == [] then None
    else if tokens[0].currency == c then Some(tokens[0])
    else Find(tokens[1..], c)
  }

  /** `Find` fails exactly when no quote has the currency, and otherwise
      returns the quote with the currency at the lowest index. */
  lemma {:induction false} FindSpec(tokens: seq<Token>, c: string)
    ensures Find(tokens, c).None? <==> c !in Currencies(tokens)
    ensures Find(tokens, c).Some? ==>
              exists i :: 0 <= i < |tokens| && tokens[i] == Find(tokens, c).value &&
                tokens[i].currency == c &&
                forall j :: 0 <= j < i ==> tokens[j].currency != c
    decreases |tokens|
  {
    if tokens != [] {
      assert tokens[0] in tokens;
      if tokens[0].currency != c {
        var rest := tokens[1..];
        FindSpec(rest, c);
        assert Currencies(tokens) == {tokens[0].currency} + Currencies(rest) by {
          assert tokens == [tokens[0]] + rest;
        }
        if Find(rest, c).Some? {
          var i :| 0 <= i < |rest| && rest[i] == Find(rest, c).value && rest[i].currency == c &&
                   forall j :: 0 <= j < i ==> rest[j].currency != c;
          assert tokens[i + 1] == rest[i];
          forall j | 0 <= j < i + 1
            ensures tokens[j].currency != c
          {
            if j > 0 {
              assert tokens[j] == rest[j - 1];
            }
          }
        }
      }
    }
  }

  // ---------------------------------------------------------------------
  // Deduplication

  /** One step of the `reduce`: a quote for a currency not yet kept is
      appended; otherwise the kept quote of that currency is replaced when the
      new quote is strictly later, and everything else stays. */
  function Step(acc: seq<Token>, current: Token): seq<Token> {
    match Find(acc, current.currency)
    case None => acc + [current]
    case Some(_) =>
      seq(|acc|, i requires 0 <= i < |acc| =>
        if acc[i].currency == current.currency && current.date > acc[i].date then current else acc[i])
  }

  /** The `reduce` over the feed, left to right. */
  function Dedup(all: seq<Token>): seq<Token>
    decreases |all|
  {
    if all == [] then []
    else Step(Dedup(all[..|all| - 1]), all[|all| - 1])
  }

  /** `k` is a quote of `s` with the latest date of its currency, and no
      earlier quote of that currency has the same date. */
  ghost predicate FirstLatest(s: seq<Token>, k: Token) {
    exists j :: 0 <= j < |s| && s[j] == k &&
      (forall i :: 0 <= i < |s| && s[i].currency == k.currency ==> s[i].date <= k.date) &&
      (forall i :: 0 <= i < j && s[i].currency == k.currency ==> s[i].date < k.date)
  }

  /** A winner stays the winner when the next quote does not beat it. */
  lemma FirstLatestExtend(p: seq<Token>, cur: Token, k: Token)
    requires FirstLatest(p, k)
    requires cur.currency == k.currency ==> cur.date <= k.date
    ensures FirstLatest(p + [cur], k)
  {
    var j :| 0 <= j < |p| && p[j] == k &&
      (forall i :: 0 <= i < |p| && p[i].currency == k.currency ==> p[i].date <= k.date) &&
      (forall i :: 0 <= i < j && p[i].currency == k.currency ==> p[i].date < k.date);
    var s := p + [cur];
    assert s[j] == k;
    assert forall i :: 0 <= i < |p| ==> s[i] == p[i];
  }

  /** A quote later than every earlier quote of its currency is the winner. */
  lemma FirstLatestNew(p: seq<Token>, cur: Token)
    requires forall t :: t in p && t.currency == cur.currency ==> t.date < cur.date
    ensures FirstLatest(p + [cur], cur)
  {
    var s := p + [cur];
    assert s[|p|] == cur;
    forall i | 0 <= i < |p|
      ensures s[i] == p[i] && p[i] in p
    {
    }
  }

  /** What the accumulator `d` satisfies after the reduce has consumed `s`. */
  ghost predicate DedupInvariant(s: seq<Token>, d: seq<Token>) {
    UniqueCurrencies(d) &&
    Currencies(d) == Currencies(s) &&
    forall i :: 0 <= i < |d| ==> FirstLatest(s, d[i])
  }

  /** A step with a currency not kept so far appends the quote. */
  lemma StepNewCurrency(p: seq<Token>, d0: seq<Token>, cur: Token)
    requires DedupInvariant(p, d0) && Find(d0, cur.currency).None?
    ensures DedupInvariant(p + [cur], Step(d0, cur))
  {
    var all := p + [cur];
    var d := Step(d0, cur);
    assert d == d0 + [cur];
    CurrenciesAppend(p, cur);
    CurrenciesAppend(d0, cur);
    FindSpec(d0, cur.currency);
    forall i, j | 0 <= i < j < |d|
      ensures d[i].currency != d[j].currency
    {
      if j == |d0| {
        assert d[i] in d0;
      }
    }
    forall i | 0 <= i < |d|
      ensures FirstLatest(all, d[i])
    {
      if i < |d0| {
        assert d[i] in d0;
        assert d[i].currency in Currencies(p);
        FirstLatestExtend(p, cur, d[i]);
      } else {
        FirstLatestNew(p, cur);
      }
    }
  }

  lemma CurrenciesAppend(p: seq<Token>, cur: Token)
    ensures Currencies(p + [cur]) == Currencies(p) + {cur.currency}
  {
  }

  /** Two sequences with the same currency at every position. */
  lemma SameCurrencies(d0: seq<Token>, d: seq<Token>)
    requires |d| == |d0| && forall i :: 0 <= i < |d| ==> d[i].currency == d0[i].currency
    ensures Currencies(d) == Currencies(d0)
    ensures UniqueCurrencies(d0) ==> UniqueCurrencies(d)
  {
    forall c | c in Currencies(d0)
      ensures c in Currencies(d)
    {
      var t :| t in d0 && t.currency == c;
      var i :| 0 <= i < |d0| && d0[i] == t;
      assert d[i] in d;
    }
    forall c | c in Currencies(d)
      ensures c in Currencies(d0)
    {
      var t :| t in d && t.currency == c;
      var i :| 0 <= i < |d| && d[i] == t;
      assert d0[i] in d0;
    }
  }

  /** Position `i` after a step with a kept currency. */
  lemma StepKnownAt(p: seq<Token>, d0: seq<Token>, cur: Token, i: nat)
    requires i < |d0| && FirstLatest(p, d0[i]) && Find(d0, cur.currency).Some?
    ensures |Step(d0, cur)| == |d0|
    ensures Step(d0, cur)[i].currency == d0[i].currency
    ensures FirstLatest(p + [cur], Step(d0, cur)[i])
  {
    var d := Step(d0, cur);
    if d0[i].currency == cur.currency && cur.date > d0[i].date {
      assert d[i] == cur;
      forall t | t in p && t.currency == cur.currency
        ensures t.date < cur.date
      {
        var k :| 0 <= k < |p| && p[k] == t;
      }
      FirstLatestNew(p, cur);
    } else {
      assert d[i] == d0[i];
      FirstLatestExtend(p, cur, d0[i]);
    }
  }

  /** A step with a kept currency replaces that quote only by a strictly
      later one. */
  lemma StepKnownCurrency(p: seq<Token>, d0: seq<Token>, cur: Token)
    requires DedupInvariant(p, d0) && Find(d0, cur.currency).Some?
    ensures DedupInvariant(p + [cur], Step(d0, cur))
  {
    var all := p + [cur];
    var d := Step(d0, cur);
    CurrenciesAppend(p, cur);
    forall i | 0 <= i < |d0|
      ensures d[i].currency == d0[i].currency && FirstLatest(all, d[i])
    {
      StepKnownAt(p, d0, cur, i);
    }
    assert |d| == |d0|;
    SameCurrencies(d0, d);
    FindSpec(d0, cur.currency);
  }

  /** The reduce keeps one quote per currency of the feed, for every currency
      of the feed: the first quote with that currency's latest date. */
  lemma {:induction false} DedupCorrect(all: seq<Token>)
    ensures UniqueCurrencies(Dedup(all))
    ensures Currencies(Dedup(all)) == Currencies(all)
    ensures forall i :: 0 <= i < |Dedup(all)| ==> FirstLatest(all, Dedup(all)[i])
    decreases |all|
  {
    if all != [] {
      var n := |all| - 1;
      var p, cur := all[..n], all[n];
      assert all == p + [cur];
      DedupCorrect(p);
      if Find(Dedup(p), cur.currency).None? {
        StepNewCurrency(p, Dedup(p), cur);
      } else {
        StepKnownCurrency(p, Dedup(p), cur);
      }
    }
  }

  /** A later quote replaces an earlier one of the same currency. */
  lemma LaterQuoteWins()
    ensures Dedup([Token("ETH", 100.0, 1), Token("ETH", 150.0, 2), Token("BTC", 20000.0, 1)])
         == [Token("ETH", 150.0, 2), Token("BTC", 20000.0, 1)]
  {
    var q := [Token("ETH", 100.0, 1), Token("ETH", 150.0, 2), Token("BTC", 20000.0, 1)];
    assert q[..2][..1] == [q[0]] && q[..2] == [q[0], q[1]];
    assert q[..|q| - 1] == q[..2];
    assert [q[0]][..0] == [];
    assert Dedup([q[0]]) == [q[0]];
    assert Find([q[0]], "ETH") == Some(q[0]);
    assert Dedup(q[..2]) == [q[1]];
    assert Find([q[1]], "BTC") == None by {
      assert [q[1]][1..] == [];
    }
  }

  /** On equal dates the quote seen first is kept. */
  lemma EqualDatesKeepFirst()
    ensures Dedup([Token("ETH", 100.0, 5), Token("ETH", 200.0, 5)]) == [Token("ETH", 100.0, 5)]
  {
    var q := [Token("ETH", 100.0, 5), Token("ETH", 200.0, 5)];
    assert q[..1] == [q[0]];
  }

  // ---------------------------------------------------------------------
  // The catalog

  /** Every quote the reduce keeps comes from the feed and wins its currency. */
  lemma DedupMembers(allTokens: seq<Token>)
    ensures UniqueCurrencies(Dedup(allTokens))
    ensures Currencies(Dedup(allTokens)) == Currencies(allTokens)
    ensures forall t :: t in Dedup(allTokens) ==> t in allTokens && FirstLatest(allTokens, t)
  {
    DedupCorrect(allTokens);
    var unique := Dedup(allTokens);
    forall t | t in unique
      ensures t in allTokens && FirstLatest(allTokens, t)
    {
      var i :| 0 <= i < |unique| && unique[i] == t;
      assert FirstLatest(allTokens, unique[i]);
    }
  }

  /** Two sequences with the same quotes have the same currencies. */
  lemma SameMembers(a: seq<Token>, b: seq<Token>)
    requires forall t :: t in a <==> t in b
    ensures Currencies(a) == Currencies(b)
  {
  }

  /** What the sorted reduce guarantees. */
  lemma CatalogFacts(allTokens: seq<Token>, tokens: seq<Token>)
    requires tokens == StableSort.Sort(Dedup(allTokens), CurrencyOf, StringOrder.Less)
    ensures forall i, j :: 0 <= i < j < |tokens| ==>
              StringOrder.Less(tokens[i].currency, tokens[j].currency)
    ensures UniqueCurrencies(tokens)
    ensures Currencies(tokens) == Currencies(allTokens)
    ensures forall t :: t in tokens ==> t in allTokens && FirstLatest(allTokens, t)
  {
    var unique := Dedup(allTokens);
    DedupMembers(allTokens);
    StringOrder.LessIsStrictTotalOrder();
    StableSort.SortStrictlySorted(unique, CurrencyOf, StringOrder.Less);
    StableSort.SortMembers(unique, CurrencyOf, StringOrder.Less);
    SameMembers(tokens, unique);
    forall i, j | 0 <= i < j < |tokens|
      ensures CurrencyOf(tokens[i]) != CurrencyOf(tokens[j])
    {
      StringOrder.LessIrreflexive(tokens[i].currency);
    }
  }

  /** The memoised `tokens` list: the reduce, then an in-place sort by
      currency of the array it produced. */
  method BuildCatalog(allTokens: seq<Token>) returns (tokens: seq<Token>)
    ensures tokens == StableSort.Sort(Dedup(allTokens), CurrencyOf, StringOrder.Less)
    ensures forall i, j :: 0 <= i < j < |tokens| ==>
              StringOrder.Less(tokens[i].currency, tokens[j].currency)
    ensures UniqueCurrencies(tokens)
    ensures Currencies(tokens) == Currencies(allTokens)
    ensures forall t :: t in tokens ==> t in allTokens && FirstLatest(allTokens, t)
  {
    var unique := Dedup(allTokens);
    var a := new Token[|unique|](i requires 0 <= i < |unique| => unique[i]);
    assert a[..] == unique;
    StableSort.InsertionSort(a, CurrencyOf, StringOrder.Less);
    tokens := a[..];
    CatalogFacts(allTokens, tokens);
  }

  // ---------------------------------------------------------------------
  // Cross-rate

  /** `find(...)?.price || 0`: the price of the first quote for `c`, 0 when
      there is none. */
  function PriceOf(tokens: seq<Token>, c: string): real {
    match Find(tokens, c)
    case None => 0.0
    case Some(t) => t.price
  }

  /** A missing currency has price 0; a nonzero price is the price of a
      quote of that currency. */
  lemma PriceOfSpec(tokens: seq<Token>, c: string)
    ensures c !in Currencies(tokens) ==> PriceOf(tokens, c) == 0.0
    ensures PriceOf(tokens, c) != 0.0 ==>
              exists t :: t in tokens && t.currency == c && t.price == PriceOf(tokens, c)
  {
    FindSpec(tokens, c);
  }

  /** In a catalog with one quote per currency, the price of a currency is
      the price of its quote. */
  lemma PriceOfCatalog(tokens: seq<Token>, t: Token)
    requires UniqueCurrencies(tokens) && t in tokens
    ensures PriceOf(tokens, t.currency) == t.price
  {
    FindSpec(tokens, t.currency);
    var f := Find(tokens, t.currency);
    var i :| 0 <= i < |tokens| && tokens[i] == f.value && tokens[i].currency == t.currency &&
             forall j :: 0 <= j < i ==> tokens[j].currency != t.currency;
    var k :| 0 <= k < |tokens| && tokens[k] == t;
    assert CurrencyOf(tokens[k]) == CurrencyOf(tokens[i]);
  }

  /** The cross-rate between two prices: `toPrice / fromPrice`, or 0 when
      either price is 0. */
  function Quote(fromPrice: real, toPrice: real): (r: real)
    ensures r == 0.0 <==> fromPrice == 0.0 || toPrice == 0.0
    ensures r != 0.0 ==> r * fromPrice == toPrice
    ensures fromPrice > 0.0 && toPrice > 0.0 ==> r > 0.0
  {
    if fromPrice != 0.0 && toPrice != 0.0 then toPrice / fromPrice else 0.0
  }

  /** The two cross-rates between a pair of prices are reciprocal. */
  lemma QuoteReciprocal(pa: real, pb: real, x: real)
    requires Quote(pa, pb) != 0.0
    ensures Quote(pb, pa) != 0.0
    ensures Quote(pa, pb) * Quote(pb, pa) == 1.0
    ensures x * Quote(pa, pb) * Quote(pb, pa) == x
  {
    var r, s := Quote(pa, pb), Quote(pb, pa);
    assert r * pa == pb && s * pb == pa;
    calc {
      r * s * pb;
      r * (s * pb);
      r * pa;
      pb;
    }
    assert (r * s - 1.0) * pb == 0.0;
    calc {
      x * r * s;
      x * (r * s);
      x;
    }
  }

  /** Scaling an amount by a rate relating two prices relates the values. */
  lemma ScaleRelation(x: real, r: real, f: real, t: real)
    ensures r * f == t ==> x * r * f == x * t
  {
    assert x * r * f == x * (r * f);
  }

  /** How many units of `to` one unit of `from` buys: `toPrice / fromPrice`,
      or 0 when either price is 0 or missing. */
  function GetExchangeRate(tokens: seq<Token>, from: string, to: string): (r: real)
    ensures r == 0.0 <==> PriceOf(tokens, from) == 0.0 || PriceOf(tokens, to) == 0.0
    ensures r != 0.0 ==> r * PriceOf(tokens, from) == PriceOf(tokens, to)
    ensures PriceOf(tokens, from) > 0.0 && PriceOf(tokens, to) > 0.0 ==> r > 0.0
  {
    Quote(PriceOf(tokens, from), PriceOf(tokens, to))
  }

  /** Converting there and back with the two cross-rates gives the amount
      back, whenever the first rate is defined. */
  lemma RateRoundTrip(tokens: seq<Token>, a: string, b: string, x: real)
    requires GetExchangeRate(tokens, a, b) != 0.0
    ensures GetExchangeRate(tokens, b, a) != 0.0
    ensures GetExchangeRate(tokens, a, b) * GetExchangeRate(tokens, b, a) == 1.0
    ensures x * GetExchangeRate(tokens, a, b) * GetExchangeRate(tokens, b, a) == x
  {
    QuoteReciprocal(PriceOf(tokens, a), PriceOf(tokens, b), x);
  }

  /** The amount of `to` the form quotes for `x` units of `from`: `x` times
      the cross-rate. With a defined rate, `r` units priced at `from`'s price
      are worth what `x` units priced at `to`'s price are worth. */
  function EstimateAmount(tokens: seq<Token>, from: string, to: string, x: real): (r: real)
    ensures GetExchangeRate(tokens, from, to) == 0.0 ==> r == 0.0
    ensures GetExchangeRate(tokens, from, to) != 0.0 ==>
              r * PriceOf(tokens, from) == x * PriceOf(tokens, to)
  {
    var rate := GetExchangeRate(tokens, from, to);
    ScaleRelation(x, rate, PriceOf(tokens, from), PriceOf(tokens, to));
    x * rate
  }

  /** Estimating `a` to `b` and then the result back from `b` to `a` returns
      the original amount. */
  lemma EstimateRoundTrip(tokens: seq<Token>, a: string, b: string, x: real)
    requires GetExchangeRate(tokens, a, b) != 0.0
    ensures EstimateAmount(tokens, b, a, EstimateAmount(tokens, a, b, x)) == x
  {
    RateRoundTrip(tokens, a, b, x);
  }
}
