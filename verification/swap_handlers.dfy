/**
  The event handlers of the swap form hook (src/problem2/src/hooks/useSwapForm.ts), each a
  function from the hook's state to the state React holds after the update.

  Handlers that format amounts take the host's `Renderer`. `handleMaxFromAmount` is modelled
  as written here (`MaxAsWritten`); the module `MaxRounding` shows that it can overdraw and
  gives a corrected version beside it.
*/
module SwapHandlers {
  import opened Wrappers
  import opened Numerals
  import opened Format
  import opened FormatProofs
  import opened Seqs
  import opened SwapState
  import opened SwapDerived
  import opened SwapValidation

  /** `prev.filter((error) => error.field !== ...)`: the errors on the other fields, in order. */
  function WithoutFields(errors: seq<ValidationError>, fields: set<Field>): (kept: seq<ValidationError>)
    ensures forall i | 0 <= i < |kept| :: kept[i].field !in fields && kept[i] in errors
    ensures forall i | 0 <= i < |errors| && errors[i].field !in fields :: errors[i] in kept
    ensures forall e :: e in kept <==> e in errors && e.field !in fields
  {
    FilterMembers(errors, (e: ValidationError) => e.field !in fields);
    Filter(errors, (e: ValidationError) => e.field !in fields)
  }

  /**
    `handleFromTokenChange(token)`: a new source sets the token, empties the amount, drops the
    errors on the source and the amount (keeping the others in order), and changes nothing else.
  */
  function SelectSource(s: State, token: Option<Token>): (t: State)
    ensures t.form == Form(token, s.form.toToken, "")
    ensures t.errors == WithoutFields(s.errors, {FromTokenField, FromAmountField})
    ensures forall e :: e in t.errors <==> e in s.errors && e.field != FromTokenField && e.field != FromAmountField
    ensures t.tokens == s.tokens && t.balances == s.balances
    ensures t.modalOpen == s.modalOpen && t.snapshot == s.snapshot
  {
    s.(form := s.form.(fromToken := token, fromAmount := ""),
       errors := WithoutFields(s.errors, {FromTokenField, FromAmountField}))
  }

  /**
    `handleToTokenChange(token)`: sets the destination, drops the errors on it (keeping the
    others in order), and changes nothing else.
  */
  function SelectDestination(s: State, token: Option<Token>): (t: State)
    ensures t.form == s.form.(toToken := token)
    ensures t.errors == WithoutFields(s.errors, {ToTokenField})
    ensures forall e :: e in t.errors <==> e in s.errors && e.field != ToTokenField
    ensures t.tokens == s.tokens && t.balances == s.balances
    ensures t.modalOpen == s.modalOpen && t.snapshot == s.snapshot
  {
    s.(form := s.form.(toToken := token), errors := WithoutFields(s.errors, {ToTokenField}))
  }

  /** The test `handleFromAmountChange` puts new amount text through. */
  predicate AmountAccepted(value: string) {
    (value == "" || AmountPattern(value)) && DotCount(value) <= 1
  }

  /**
    `handleFromAmountChange(value)`: text matching the amount syntax replaces the amount and
    drops exactly the amount errors; any other text leaves the state as it was.
  */
  function EditAmount(s: State, value: string): (t: State)
    ensures AmountPattern(value) ==>
              t == s.(form := s.form.(fromAmount := value), errors := WithoutFields(s.errors, {FromAmountField}))
    ensures AmountPattern(value) ==> forall e :: e in t.errors <==> e in s.errors && e.field != FromAmountField
    ensures !AmountPattern(value) ==> t == s
  {
    AmountAcceptedIff(value);
    if AmountAccepted(value) then
      s.(form := s.form.(fromAmount := value), errors := WithoutFields(s.errors, {FromAmountField}))
    else s
  }

  /**
    `handleSwapTokens()`: the tokens change places, the amount that would have been received
    becomes the amount (as text the field accepts, empty exactly when nothing would be
    received), every error is cleared and nothing else changes.
  */
  function Flip(r: Renderer, s: State): (t: State)
    ensures t.form.fromToken == s.form.toToken && t.form.toToken == s.form.fromToken
    ensures t.form.fromAmount == "" <==> ToAmountValue(s.form) <= 0.0
    ensures t.form.fromAmount == "" || AmountPattern(t.form.fromAmount)
    ensures t.errors == []
    ensures t == s.(form := t.form, errors := [])
  {
    s.(form := Form(s.form.toToken, s.form.fromToken, FormattedToAmount(r, s.form)), errors := [])
  }

  /**
    `handleMaxFromAmount()` as written: nothing without a source token; otherwise the formatted
    balance becomes the amount (text the field accepts when the balance is not negative), the
    amount errors are dropped, the others kept in order, and nothing else changes.
  */
  function MaxAsWritten(r: Renderer, s: State): (t: State)
    ensures s.form.fromToken.None? ==> t == s
    ensures s.form.fromToken.Some? ==>
              t.form == s.form.(fromAmount := FormatTokenAmount(r, Finite(FromBalance(s)), DEFAULT_MAX_DECIMALS))
    ensures s.form.fromToken.Some? && FromBalance(s) >= 0.0 ==> AmountPattern(t.form.fromAmount)
    ensures s.form.fromToken.Some? ==> t.errors == WithoutFields(s.errors, {FromAmountField})
    ensures s.form.fromToken.Some? ==> forall e :: e in t.errors <==> e in s.errors && e.field != FromAmountField
    ensures t == s.(form := t.form, errors := t.errors)
  {
    if s.form.fromToken.None? then s
    else
      BalanceAmountAccepted(r, FromBalance(s));
      s.(form := s.form.(fromAmount := FormatTokenAmount(r, Finite(FromBalance(s)), DEFAULT_MAX_DECIMALS)),
         errors := WithoutFields(s.errors, {FromAmountField}))
  }

  function MaxReal(a: real, b: real): real {
    if a >= b then a else b
  }

  /**
    The ledger after a swap: `{...prev, [from]: Math.max(0, (prev[from] ?? 0) - amount),
    [to]: (prev[to] ?? 0) + received}`; both entries read the ledger before the swap. The
    ledger gains entries for both symbols, the source is debited (never below 0), the
    destination credited, and every other entry kept. When the two symbols are the same, the
    credit is written last and wins.
  */
  function SwapBalances(balances: Balances, from: string, to: string, amount: real, received: real): (b: Balances)
    ensures b.Keys == balances.Keys + {from, to}
    ensures from != to ==> b[from] == MaxReal(0.0, BalanceOf(balances, from) - amount)
    ensures b[to] == BalanceOf(balances, to) + received
    ensures forall k | k in balances && k != from && k != to :: b[k] == balances[k]
  {
    balances[from := MaxReal(0.0, BalanceOf(balances, from) - amount)][to := BalanceOf(balances, to) + received]
  }

  /** The guard of `handleSubmit`: a valid form, both tokens and positive amounts. */
  predicate SubmitGoesThrough(s: State) {
    && ValidationErrors(s.form, HasSufficientBalance(s)) == []
    && s.form.fromToken.Some? && s.form.toToken.Some?
    && NumericFromAmount(s.form) > 0.0 && ToAmountValue(s.form) > 0.0
  }

  /**
    `handleSubmit()`: validation stores its errors; a rejected form changes nothing else. A
    form that goes through updates the ledger, records the swap for the success dialog, opens
    it and empties the amount, keeping the tokens.
  */
  function Submit(r: Renderer, s: State): (t: State)
    ensures t.errors == ValidationErrors(s.form, HasSufficientBalance(s))
    ensures !SubmitGoesThrough(s) ==> t == s.(errors := t.errors)
    ensures SubmitGoesThrough(s) ==>
              && t.modalOpen && t.snapshot.Some?
              && t.form == s.form.(fromAmount := "") && t.tokens == s.tokens
  {
    var checked := s.(errors := ValidationErrors(s.form, HasSufficientBalance(s)));
    if !SubmitGoesThrough(s) then checked
    else
      var from := s.form.fromToken.value.symbol;
      var to := s.form.toToken.value.symbol;
      var amount := NumericFromAmount(s.form);
      var received := ToAmountValue(s.form);
      checked.(balances := SwapBalances(s.balances, from, to, amount, received),
               snapshot := Some(Snapshot(FormatTokenAmount(r, Finite(amount), DEFAULT_MAX_DECIMALS), from,
                                         FormatTokenAmount(r, Finite(received), DEFAULT_MAX_DECIMALS), to)),
               modalOpen := true,
               form := s.form.(fromAmount := ""))
  }

  /** `closeSuccessModal()`: the dialog closes; the last swap stays recorded, and nothing else changes. */
  function CloseModal(s: State): (t: State)
    ensures !t.modalOpen
    ensures t.snapshot == s.snapshot
    ensures t == s.(modalOpen := false)
  {
    s.(modalOpen := false)
  }

  /**
    `formattedBalanceLabel(token, balance)`: empty without a token; otherwise the formatted
    balance, followed by a space and the symbol unless the symbol is empty. It reads back as
    the formatted balance does.
  */
  function BalanceLabel(r: Renderer, token: Option<Token>, balance: real): (text: string)
    ensures token.None? ==> text == ""
    ensures token.Some? && token.value.symbol != "" ==>
              text == FormatTokenAmount(r, Finite(balance), DEFAULT_MAX_DECIMALS) + " " + token.value.symbol
    ensures token.Some? && token.value.symbol == "" ==>
              text == FormatTokenAmount(r, Finite(balance), DEFAULT_MAX_DECIMALS)
    ensures token.Some? ==> ParseFloat(text) == ParseFloat(FormatTokenAmount(r, Finite(balance), DEFAULT_MAX_DECIMALS))
  {
    if token.None? then ""
    else
      FormatBalanceDisplayReadsBack(r, balance, Some(token.value.symbol));
      FormatBalanceDisplay(r, Finite(balance), Some(token.value.symbol))
  }

  // ---------------------------------------------------------------------------
  // Lemmas
  // ---------------------------------------------------------------------------

  /** Filtering out fields keeps the other fields' errors, in order, and is idempotent. */
  lemma WithoutFieldsKeeps(errors: seq<ValidationError>, fields: set<Field>)
    ensures forall e | e in WithoutFields(errors, fields) :: e.field !in fields
    ensures WithoutFields(WithoutFields(errors, fields), fields) == WithoutFields(errors, fields)
  {
    FilterIdempotent(errors, (e: ValidationError) => e.field !in fields);
  }

  /** The dot count test is redundant: text is accepted exactly when it matches `^\d*\.?\d*$`. */
  lemma AmountAcceptedIff(value: string)
    ensures AmountAccepted(value) <==> AmountPattern(value)
  {
    AmountPatternIff(value);
  }

  /** A non-negative amount is formatted as text the amount field accepts. */
  lemma FormattedAmountAccepted(r: Renderer, x: real, maxDecimals: nat)
    requires x >= 0.0
    ensures AmountPattern(FormatTokenAmount(r, Finite(x), maxDecimals))
  {
    if x > 0.0 {
      FormatTokenAmountIsNumeral(r, x, maxDecimals);
    } else {
      FormatTokenAmountZero(r, Finite(x), maxDecimals);
      ShowMatchesAmountPattern(Numeral("0", []));
      assert Show(Numeral("0", [])) == "0";
    }
  }

  /** Flipping twice restores the pair of tokens. */
  lemma FlipTwice(r: Renderer, s: State)
    ensures Flip(r, Flip(r, s)).form.fromToken == s.form.fromToken
    ensures Flip(r, Flip(r, s)).form.toToken == s.form.toToken
    ensures Flip(r, Flip(r, s)).balances == s.balances
  {
  }

  /** When the balance covers the amount, the clamp never applies: the source loses exactly the amount. */
  lemma SwapBalancesExact(balances: Balances, from: string, to: string, amount: real, received: real)
    requires from != to && amount <= BalanceOf(balances, from)
    ensures SwapBalances(balances, from, to, amount, received)[from] == BalanceOf(balances, from) - amount
  {
  }

  /** Submitting goes through exactly when validation passes and something is received. */
  lemma SubmitGoesThroughIff(s: State)
    ensures SubmitGoesThrough(s) <==> ValidationErrors(s.form, HasSufficientBalance(s)) == [] && ToAmountValue(s.form) > 0.0
    ensures SubmitGoesThrough(s) ==> s.form.fromToken.value.symbol != s.form.toToken.value.symbol
  {
    ValidIff(s.form, HasSufficientBalance(s));
    ToAmountIsPriceRatio(s.form);
  }

  /**
    A submit that goes through moves exactly the amount out of the source, credits the
    received amount to the destination, adds ledger entries for both symbols and leaves every
    other balance; it records the two formatted amounts and symbols, opens the dialog and
    empties the amount field.
  */
  lemma SubmitAccepted(r: Renderer, s: State)
    requires SubmitGoesThrough(s)
    ensures var t := Submit(r, s);
            var from := s.form.fromToken.value.symbol;
            var to := s.form.toToken.value.symbol;
            var amount := NumericFromAmount(s.form);
            var received := ToAmountValue(s.form);
            && t.errors == []
            && t.balances.Keys == s.balances.Keys + {from, to}
            && t.balances[from] == FromBalance(s) - amount
            && t.balances[to] == ToBalance(s) + received
            && (forall k | k in s.balances && k != from && k != to :: t.balances[k] == s.balances[k])
            && t.modalOpen
            && t.snapshot == Some(Snapshot(FormatTokenAmount(r, Finite(amount), DEFAULT_MAX_DECIMALS), from,
                                           FormatTokenAmount(r, Finite(received), DEFAULT_MAX_DECIMALS), to))
            && t.form == s.form.(fromAmount := "")
            && t.tokens == s.tokens
  {
    SubmitAmounts(r, s, NumericFromAmount(s.form), ToAmountValue(s.form));
  }

  /** `SubmitAccepted` for amounts given by name. */
  lemma SubmitAmounts(r: Renderer, s: State, amount: real, received: real)
    requires SubmitGoesThrough(s)
    requires amount == NumericFromAmount(s.form) && received == ToAmountValue(s.form)
    ensures var t := Submit(r, s);
            var from := s.form.fromToken.value.symbol;
            var to := s.form.toToken.value.symbol;
            && t.errors == []
            && t.balances.Keys == s.balances.Keys + {from, to}
            && t.balances[from] == FromBalance(s) - amount
            && t.balances[to] == ToBalance(s) + received
            && (forall k | k in s.balances && k != from && k != to :: t.balances[k] == s.balances[k])
            && t.modalOpen
            && t.snapshot == Some(Snapshot(FormatTokenAmount(r, Finite(amount), DEFAULT_MAX_DECIMALS), from,
                                           FormatTokenAmount(r, Finite(received), DEFAULT_MAX_DECIMALS), to))
            && t.form == s.form.(fromAmount := "")
            && t.tokens == s.tokens
  {
    var from := s.form.fromToken.value.symbol;
    SubmitGoesThroughIff(s);
    ValidIff(s.form, HasSufficientBalance(s));
    assert amount <= BalanceOf(s.balances, from);
  }

  /** The formatted balance is text the amount field accepts whenever the balance is not negative. */
  lemma BalanceAmountAccepted(r: Renderer, balance: real)
    ensures balance >= 0.0 ==> AmountPattern(FormatTokenAmount(r, Finite(balance), DEFAULT_MAX_DECIMALS))
  {
    if balance >= 0.0 {
      FormattedAmountAccepted(r, balance, DEFAULT_MAX_DECIMALS);
    }
  }
}
