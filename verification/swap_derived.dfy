/**
  The values the swap form hook derives from its state on every render (the `useMemo`s of
  src/problem2/src/hooks/useSwapForm.ts) and `isSubmitDisabled`.
*/
module SwapDerived {
  import opened Wrappers
  import opened Numerals
  import opened Format
  import opened FormatProofs
  import opened SwapState
  import Api

  /** `balances[symbol] ?? 0`. */
  function BalanceOf(balances: Balances, symbol: string): real {
    if symbol in balances then balances[symbol] else 0.0
  }

  /** `fromBalance`: 0 without a source token or without a ledger entry. */
  function FromBalance(s: State): (b: real)
    ensures s.form.fromToken.None? ==> b == 0.0
    ensures s.form.fromToken.Some? && s.form.fromToken.value.symbol !in s.balances ==> b == 0.0
    ensures s.form.fromToken.Some? && s.form.fromToken.value.symbol in s.balances ==>
              b == s.balances[s.form.fromToken.value.symbol]
  {
    match s.form.fromToken
    case None => 0.0
    case Some(t) => BalanceOf(s.balances, t.symbol)
  }

  /** `toBalance`. */
  function ToBalance(s: State): (b: real)
    ensures s.form.toToken.None? ==> b == 0.0
    ensures s.form.toToken.Some? && s.form.toToken.value.symbol !in s.balances ==> b == 0.0
    ensures s.form.toToken.Some? && s.form.toToken.value.symbol in s.balances ==>
              b == s.balances[s.form.toToken.value.symbol]
  {
    match s.form.toToken
    case None => 0.0
    case Some(t) => BalanceOf(s.balances, t.symbol)
  }

  /** `token?.price` is truthy: present and non-zero. */
  function TruthyPrice(token: Option<Token>): Option<real> {
    if token.Some? && token.value.price.Some? && token.value.price.value != 0.0
    then token.value.price else None
  }

  /** `token?.price && token.price > 0`. */
  predicate PricedPositive(token: Option<Token>) {
    TruthyPrice(token).Some? && TruthyPrice(token).value > 0.0
  }

  /** `exchangeRate`: present only when both tokens have a positive price. */
  function ExchangeRate(form: Form): (rate: Option<real>)
    ensures rate.Some? <==> PricedPositive(form.fromToken) && PricedPositive(form.toToken)
    ensures rate.Some? ==> rate.value > 0.0
    ensures rate.Some? ==> rate.value * form.toToken.value.price.value == form.fromToken.value.price.value
  {
    if PricedPositive(form.fromToken) && PricedPositive(form.toToken) then
      var p := form.fromToken.value.price.value;
      var q := form.toToken.value.price.value;
      Api.PositiveConversion(0.0, p, q);
      Some(Api.CalculateExchangeRate(p, q))
    else None
  }

  /** `formattedExchangeRate`: "1 FROM = rate TO". */
  function FormattedExchangeRate(r: Renderer, form: Form): (text: Option<string>)
    ensures text.Some? <==> ExchangeRate(form).Some?
    ensures text.Some? ==>
      text.value == "1 " + form.fromToken.value.symbol + " = "
                    + FormatExchangeRate(r, Finite(ExchangeRate(form).value))
                    + " " + form.toToken.value.symbol
  {
    match ExchangeRate(form)
    case None => None
    case Some(rate) =>
      if form.fromToken.None? || form.toToken.None? then None
      else Some("1 " + form.fromToken.value.symbol + " = " + FormatExchangeRate(r, Finite(rate))
                + " " + form.toToken.value.symbol)
  }

  /** `numericFromAmount`: the parsed amount, NaN read as 0. */
  function NumericFromAmount(form: Form): (amount: real)
    ensures ParseFloat(form.fromAmount) == Some(amount) || (ParseFloat(form.fromAmount).None? && amount == 0.0)
  {
    ParseFloat(form.fromAmount).GetOr(0.0)
  }

  /** `!rate || amount <= 0 ? 0 : calculateToAmount(amount, rate)`. */
  function ConvertAtRate(rate: Option<real>, amount: real): real {
    if rate.None? || rate.value == 0.0 || amount <= 0.0 then 0.0
    else Api.CalculateToAmount(amount, rate.value)
  }

  /**
    `toAmountValue`: the amount at the rate, or 0 without a rate or a positive amount; never
    negative, and positive exactly when there is a rate and a positive amount.
  */
  function ToAmountValue(form: Form): (received: real)
    ensures received >= 0.0
    ensures received > 0.0 <==> ExchangeRate(form).Some? && NumericFromAmount(form) > 0.0
  {
    var rate := ExchangeRate(form);
    var amount := NumericFromAmount(form);
    ConvertAtRateSign(rate, amount);
    ConvertAtRate(rate, amount)
  }

  /** At a positive rate the conversion is never negative, and positive exactly for a positive amount. */
  lemma ConvertAtRateSign(rate: Option<real>, amount: real)
    requires rate.Some? ==> rate.value > 0.0
    ensures ConvertAtRate(rate, amount) >= 0.0
    ensures ConvertAtRate(rate, amount) > 0.0 <==> rate.Some? && amount > 0.0
    ensures ConvertAtRate(rate, amount) > 0.0 ==> ConvertAtRate(rate, amount) == amount * rate.value
  {
    if rate.Some? && amount > 0.0 {
      ProductPositive(amount, rate.value);
    }
  }

  lemma ProductPositive(a: real, b: real)
    requires a > 0.0 && b > 0.0
    ensures a * b > 0.0
  {
  }

  /** `formattedToAmount`: empty unless something is received. */
  function FormattedToAmount(r: Renderer, form: Form): (text: string)
    ensures ToAmountValue(form) <= 0.0 <==> text == ""
    ensures text != "" ==> AmountPattern(text)
  {
    var v := ToAmountValue(form);
    if v <= 0.0 then ""
    else
      FormatTokenAmountIsNumeral(r, v, DEFAULT_MAX_DECIMALS);
      FormatTokenAmountNonEmpty(r, v, DEFAULT_MAX_DECIMALS);
      FormatTokenAmount(r, Finite(v), DEFAULT_MAX_DECIMALS)
  }

  /** A fiat value: `!price || amount <= 0 ? null : formatFiatValue(amount * price)`. */
  function FiatValue(r: Renderer, price: Option<real>, amount: real): (text: Option<string>)
    requires price.Some? ==> price.value != 0.0
    ensures text.Some? <==> price.Some? && amount > 0.0
    ensures text.Some? ==> text.value == r.currency(amount * price.value)
  {
    if price.None? || amount <= 0.0 then None
    else FormatFiatValue(r, Some(Finite(amount * price.value)))
  }

  /** `fromFiatValue`: the USD value of the amount, when the source has a price. */
  function FromFiatValue(r: Renderer, form: Form): Option<string> {
    FiatValue(r, TruthyPrice(form.fromToken), NumericFromAmount(form))
  }

  /** `toFiatValue`: the USD value of what is received, when the destination has a price. */
  function ToFiatValue(r: Renderer, form: Form): Option<string> {
    FiatValue(r, TruthyPrice(form.toToken), ToAmountValue(form))
  }

  /** `hasSufficientBalance`: vacuous without a source or a positive amount. */
  predicate HasSufficientBalance(s: State): (sufficient: bool)
    ensures sufficient <==> (s.form.fromToken.Some? && NumericFromAmount(s.form) > 0.0 ==> NumericFromAmount(s.form) <= FromBalance(s))
  {
    s.form.fromToken.None? || NumericFromAmount(s.form) <= 0.0
    || NumericFromAmount(s.form) <= FromBalance(s)
  }

  /**
    `isSubmitDisabled`. The button is enabled exactly when both tokens are chosen, the amount
    is positive and within the balance, and something is received; the empty-amount test is
    implied by the others.
  */
  predicate IsSubmitDisabled(s: State): (disabled: bool)
    ensures !disabled <==> && s.form.fromToken.Some? && s.form.toToken.Some?
                           && 0.0 < NumericFromAmount(s.form) <= FromBalance(s)
                           && ToAmountValue(s.form) > 0.0
  {
    s.form.fromToken.None? || s.form.toToken.None? || s.form.fromAmount == ""
    || !HasSufficientBalance(s) || ToAmountValue(s.form) <= 0.0
  }

  // ---------------------------------------------------------------------------
  // Lemmas
  // ---------------------------------------------------------------------------

  /** Converting at a rate `x` with `x * q == p` is the amount times the quotient `p / q`. */
  lemma ConvertAtPrices(rate: Option<real>, amount: real, p: real, q: real)
    requires q > 0.0 && rate.Some? && rate.value > 0.0 && rate.value * q == p
    ensures ConvertAtRate(rate, amount) > 0.0 <==> amount > 0.0
    ensures amount > 0.0 ==> ConvertAtRate(rate, amount) == amount * p / q
    ensures amount > 0.0 ==> ConvertAtRate(rate, amount) * q == amount * p
  {
    var x := rate.value;
    if amount > 0.0 {
      assert ConvertAtRate(rate, amount) == amount * x;
      assert amount * x > 0.0;
      assert (amount * x) * q == amount * (x * q);
      assert amount * p / q == (amount * x) * q / q;
    }
  }

  /**
    At the form's rate, any amount converts to something positive exactly when both prices
    are positive and so is the amount; it is then the amount times the price quotient, so its
    value at the destination price is the amount's value at the source price.
  */
  lemma ConvertAtFormRate(form: Form, amount: real)
    ensures ConvertAtRate(ExchangeRate(form), amount) > 0.0
            <==> PricedPositive(form.fromToken) && PricedPositive(form.toToken) && amount > 0.0
    ensures ConvertAtRate(ExchangeRate(form), amount) <= 0.0 ==> ConvertAtRate(ExchangeRate(form), amount) == 0.0
    ensures ConvertAtRate(ExchangeRate(form), amount) > 0.0 ==>
              var p := form.fromToken.value.price.value;
              var q := form.toToken.value.price.value;
              && ConvertAtRate(ExchangeRate(form), amount) == amount * p / q
              && ConvertAtRate(ExchangeRate(form), amount) * q == amount * p
  {
    var rate := ExchangeRate(form);
    if rate.Some? {
      ConvertAtPrices(rate, amount, form.fromToken.value.price.value, form.toToken.value.price.value);
    }
  }

  /** What is received: 0 without a rate or a positive amount, otherwise the amount times the price quotient. */
  lemma ToAmountIsPriceRatio(form: Form)
    ensures ToAmountValue(form) > 0.0
            <==> PricedPositive(form.fromToken) && PricedPositive(form.toToken) && NumericFromAmount(form) > 0.0
    ensures ToAmountValue(form) <= 0.0 ==> ToAmountValue(form) == 0.0
    ensures ToAmountValue(form) > 0.0 ==>
              ToAmountValue(form)
              == NumericFromAmount(form) * form.fromToken.value.price.value / form.toToken.value.price.value
  {
    ConvertAtFormRate(form, NumericFromAmount(form));
  }

  /** The fiat values of an amount and of what it converts to at the form's rate are the same text. */
  lemma FiatAtFormRate(r: Renderer, form: Form, amount: real)
    requires ConvertAtRate(ExchangeRate(form), amount) > 0.0
    ensures FiatValue(r, TruthyPrice(form.fromToken), amount).Some?
    ensures FiatValue(r, TruthyPrice(form.fromToken), amount)
            == FiatValue(r, TruthyPrice(form.toToken), ConvertAtRate(ExchangeRate(form), amount))
  {
    ConvertAtFormRate(form, amount);
    FiatAtPrices(r, TruthyPrice(form.fromToken), TruthyPrice(form.toToken),
                 amount, ConvertAtRate(ExchangeRate(form), amount));
  }

  /** Two amounts of equal value at their prices have the same fiat text. */
  lemma FiatAtPrices(r: Renderer, p: Option<real>, q: Option<real>, amount: real, c: real)
    requires p.Some? && q.Some? && p.value > 0.0 && q.value > 0.0
    requires amount > 0.0 && c > 0.0 && c * q.value == amount * p.value
    ensures FiatValue(r, p, amount).Some?
    ensures FiatValue(r, p, amount) == FiatValue(r, q, c)
  {
    FiatOfPrice(r, p, amount);
    FiatOfPrice(r, q, c);
  }

  /** A priced positive amount is shown as the currency text of its dollar value. */
  lemma FiatOfPrice(r: Renderer, p: Option<real>, amount: real)
    requires p.Some? && p.value > 0.0 && amount > 0.0
    ensures FiatValue(r, p, amount) == Some(r.currency(amount * p.value))
  {
  }

  /** Both fiat values are shown whenever something is received, and they agree: a swap at the rate conserves USD value. */
  lemma FiatValuesAgree(r: Renderer, form: Form)
    requires ToAmountValue(form) > 0.0
    ensures FromFiatValue(r, form).Some? && FromFiatValue(r, form) == ToFiatValue(r, form)
  {
    FiatAtFormRate(r, form, NumericFromAmount(form));
  }

  /** On amount-field text, the numeric amount is 0 exactly for "", "." and all-zero numerals. */
  lemma NumericAmountOfPattern(form: Form)
    requires AmountPattern(form.fromAmount)
    ensures NumericFromAmount(form) >= 0.0
    ensures form.fromAmount == "" || form.fromAmount == "." ==> NumericFromAmount(form) == 0.0
  {
    ParseAmount(form.fromAmount);
  }

  /** An enabled submit button means a complete pair, a positive amount and enough balance. */
  lemma EnabledMeans(s: State)
    requires !IsSubmitDisabled(s)
    ensures s.form.fromToken.Some? && s.form.toToken.Some?
    ensures NumericFromAmount(s.form) > 0.0 && ToAmountValue(s.form) > 0.0
    ensures NumericFromAmount(s.form) <= FromBalance(s)
    ensures ExchangeRate(s.form).Some?
  {
  }

  /** Without prices nothing is received, so the submit button stays disabled. */
  lemma NoPriceDisables(s: State)
    requires TruthyPrice(s.form.fromToken).None? || TruthyPrice(s.form.toToken).None?
    ensures ToAmountValue(s.form) == 0.0 && IsSubmitDisabled(s)
  {
  }
}
