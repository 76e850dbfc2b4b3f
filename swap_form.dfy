/** The state of the currency swap form (`useSwapForm`): three input fields,
    the displayed estimate and the error message, over the token catalog. */
module SwapForm {

  import opened Wrappers
  import opened TokenCatalog
  import StringOrder

  const FillAllFields := "Please fill in all fields."
  const DifferentCurrencies := "Please select different currencies to swap."

  /** The text the estimate effect shows: "0" until all three fields are set,
      otherwise the parsed amount times the cross-rate, rendered by
      `toFixed6`; an unparsable amount gives "NaN". */
  function EstimateText(tokens: seq<Token>, fromToken: string, toToken: string, amount: string,
                        parse: string -> Option<real>, toFixed6: real -> string): (r: string)
    ensures fromToken == "" || toToken == "" || amount == "" ==> r == "0"
  {
    if fromToken != "" && toToken != "" && amount != "" then
      match parse(amount)
      case None => "NaN"
      case Some(x) => toFixed6(EstimateAmount(tokens, fromToken, toToken, x))
    else "0"
  }

  /** The error `handleSwap` sets: the empty-field check comes first, then the
      same-currency check; an accepted swap clears the error. */
  function SwapError(amount: string, fromToken: string, toToken: string): (e: string)
    ensures e == FillAllFields <==> amount == "" || fromToken == "" || toToken == ""
    ensures e == DifferentCurrencies <==>
              amount != "" && fromToken != "" && toToken != "" && fromToken == toToken
    ensures e == "" <==> amount != "" && fromToken != "" && toToken != "" && fromToken != toToken
  {
    if amount == "" || fromToken == "" || toToken == "" then FillAllFields
    else if fromToken == toToken then DifferentCurrencies
    else ""
  }

  /** The confirmation `handleSwap` shows for an accepted swap. */
  function SwapNotice(amount: string, fromToken: string, estimate: string, toToken: string): string {
    "Swap " + amount + " " + fromToken + " for " + estimate + " " + toToken
  }

  class SwapFormState {
    /** `parseFloat`, with None for NaN. */
    const parse: string -> Option<real>
    /** `Number.prototype.toFixed(6)`. */
    const toFixed6: real -> string

    var tokens: seq<Token>
    var fromToken: string
    var toToken: string
    var amount: string
    var estimatedReceiveAmount: string
    var error: string

    /** The displayed estimate always reflects the current inputs: the
        effect has run after the last change. */
    ghost predicate Valid()
      reads this
    {
      estimatedReceiveAmount == EstimateText(tokens, fromToken, toToken, amount, parse, toFixed6)
    }

    /** The initial state: empty fields, estimate "0", no error, and no
        tokens until the price feed arrives. */
    constructor (parse: string -> Option<real>, toFixed6: real -> string)
      ensures Valid()
      ensures this.parse == parse && this.toFixed6 == toFixed6
      ensures tokens == [] && fromToken == "" && toToken == "" && amount == ""
      ensures estimatedReceiveAmount == "0" && error == ""
    {
      this.parse := parse;
      this.toFixed6 := toFixed6;
      tokens := [];
      fromToken, toToken, amount := "", "", "";
      estimatedReceiveAmount := "0";
      error := "";
    }

    /** The estimate effect: recomputes the displayed estimate. */
    method RunEstimateEffect()
      modifies this`estimatedReceiveAmount
      ensures Valid()
    {
      if fromToken != "" && toToken != "" && amount != "" {
        match parse(amount)
        case None =>
          estimatedReceiveAmount := "NaN";
        case Some(x) =>
          estimatedReceiveAmount := toFixed6(EstimateAmount(tokens, fromToken, toToken, x));
      } else {
        estimatedReceiveAmount := "0";
      }
    }

    /** The price feed arrived: the filtered feed becomes the catalog, and
        the estimate is recomputed against it. */
    method ReceiveFeed(data: seq<Token>)
      modifies this
      ensures Valid()
      ensures forall i, j :: 0 <= i < j < |tokens| ==>
                StringOrder.Less(tokens[i].currency, tokens[j].currency)
      ensures forall t :: t in tokens ==> t.price != 0.0 && FirstLatest(PricedTokens(data), t)
      ensures Currencies(tokens) == Currencies(PricedTokens(data))
      ensures fromToken == old(fromToken) && toToken == old(toToken) && amount == old(amount)
      ensures error == old(error)
    {
      var allTokens := PricedTokens(data);
      var catalog := BuildCatalog(allTokens);
      forall t | t in catalog
        ensures t.price != 0.0
      {
        assert t in allTokens;
      }
      tokens := catalog;
      RunEstimateEffect();
    }

    method SetFromToken(v: string)
      modifies this
      ensures Valid() && fromToken == v
      ensures tokens == old(tokens) && toToken == old(toToken) && amount == old(amount)
      ensures error == old(error)
    {
      fromToken := v;
      RunEstimateEffect();
    }

    method SetToToken(v: string)
      modifies this
      ensures Valid() && toToken == v
      ensures tokens == old(tokens) && fromToken == old(fromToken) && amount == old(amount)
      ensures error == old(error)
    {
      toToken := v;
      RunEstimateEffect();
    }

    method SetAmount(v: string)
      modifies this
      ensures Valid() && amount == v
      ensures tokens == old(tokens) && fromToken == old(fromToken) && toToken == old(toToken)
      ensures error == old(error)
    {
      amount := v;
      RunEstimateEffect();
    }

    /** `handleSwap`: validates the fields and sets the error; an accepted
        swap returns the confirmation `useSwapForm` shows with `alert`. */
    method HandleSwap() returns (notice: Option<string>)
      requires Valid()
      modifies this`error
      ensures Valid()
      ensures error == SwapError(amount, fromToken, toToken)
      ensures notice.Some? <==> error == ""
      ensures notice.Some? ==>
                notice.value == SwapNotice(amount, fromToken, estimatedReceiveAmount, toToken)
      ensures notice.Some? ==>
                notice.value == SwapNotice(amount, fromToken,
                  EstimateText(tokens, fromToken, toToken, amount, parse, toFixed6), toToken)
    {
      if amount == "" || fromToken == "" || toToken == "" {
        error := FillAllFields;
        return None;
      }
      if fromToken == toToken {
        error := DifferentCurrencies;
        return None;
      }
      error := "";
      notice := Some(SwapNotice(amount, fromToken, estimatedReceiveAmount, toToken));
    }
  }
}
