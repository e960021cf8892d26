/**
  Form validation of the swap form hook (`validateForm` and `getError` in
  src/problem2/src/hooks/useSwapForm.ts).

  The checks run in a fixed order: source token, destination token, distinct symbols, then
  one check of the amount. Validation depends on the state only through the form and the
  hook's `hasSufficientBalance`, which is passed in as `sufficient`.
*/
module SwapValidation {
  import opened Wrappers
  import opened Numerals
  import opened Seqs
  import opened SwapState

  const SELECT_SOURCE := "Please select source token"
  const SELECT_DESTINATION := "Please select destination token"
  const TOKENS_MUST_DIFFER := "Source and destination tokens must be different"
  const ENTER_AMOUNT := "Please enter amount"
  const INSUFFICIENT_BALANCE := "Insufficient balance"
  const AMOUNT_NOT_POSITIVE := "Amount must be greater than 0"

  /** `parseFloat(text)` is a number greater than 0. */
  predicate AmountPositive(text: string) {
    ParseFloat(text).Some? && ParseFloat(text).value > 0.0
  }

  /** `!fromAmount || fromAmount === '0'`. */
  predicate AmountMissing(text: string) {
    text == "" || text == "0"
  }

  /** Both tokens are chosen and carry the same symbol. */
  predicate SameSymbol(form: Form) {
    form.fromToken.Some? && form.toToken.Some? && form.fromToken.value.symbol == form.toToken.value.symbol
  }

  /**
    The one error the amount field can get, if any: none exactly when the amount is present,
    covered by the balance and positive; otherwise one of the three amount messages.
  */
  function AmountError(text: string, sufficient: bool): (message: Option<string>)
    ensures message.None? <==> !AmountMissing(text) && sufficient && AmountPositive(text)
    ensures message.Some? ==> message.value in {ENTER_AMOUNT, INSUFFICIENT_BALANCE, AMOUNT_NOT_POSITIVE}
  {
    if AmountMissing(text) then Some(ENTER_AMOUNT)
    else if !sufficient then Some(INSUFFICIENT_BALANCE)
    else if !AmountPositive(text) then Some(AMOUNT_NOT_POSITIVE)
    else None
  }

  function ErrorsFor(field: Field, message: Option<string>): seq<ValidationError> {
    match message
    case None => []
    case Some(m) => [ValidationError(field, m)]
  }

  function SourceErrors(form: Form): seq<ValidationError> {
    ErrorsFor(FromTokenField, if form.fromToken.None? then Some(SELECT_SOURCE) else None)
  }

  /** A missing destination and a clash of symbols exclude each other. */
  function DestinationErrors(form: Form): (errors: seq<ValidationError>)
    ensures |errors| <= 1
  {
    ErrorsFor(ToTokenField, if form.toToken.None? then Some(SELECT_DESTINATION) else None)
    + ErrorsFor(ToTokenField, if SameSymbol(form) then Some(TOKENS_MUST_DIFFER) else None)
  }

  /**
    The errors `validateForm` collects, in the order it pushes them: at most three, none on
    the received amount, and a missing source reported first.
  */
  function ValidationErrors(form: Form, sufficient: bool): (errors: seq<ValidationError>)
    ensures |errors| <= 3
    ensures forall i | 0 <= i < |errors| :: errors[i].field != ToAmountField
    ensures form.fromToken.None? ==> |errors| > 0 && errors[0] == ValidationError(FromTokenField, SELECT_SOURCE)
  {
    SourceErrors(form) + DestinationErrors(form)
    + ErrorsFor(FromAmountField, AmountError(form.fromAmount, sufficient))
  }

  /** `getError(field)`: the message of the first error on `field`. */
  function GetError(errors: seq<ValidationError>, field: Field): (message: Option<string>)
    ensures message.Some? <==> exists i | 0 <= i < |errors| :: errors[i].field == field
    ensures message.Some? ==>
              exists k | 0 <= k < |errors| ::
                && errors[k].field == field && errors[k].message == message.value
                && forall j | 0 <= j < k :: errors[j].field != field
  {
    match Find(errors, (e: ValidationError) => e.field == field)
    case None => None
    case Some(e) => Some(e.message)
  }

  /** `validateForm()`: the errors are stored and the form is valid when there are none. */
  function ValidateForm(s: State, sufficient: bool): (result: (State, bool))
    ensures result.1 <==> result.0.errors == []
    ensures result.0 == s.(errors := result.0.errors)
  {
    var errors := ValidationErrors(s.form, sufficient);
    (s.(errors := errors), errors == [])
  }

  /** The position of a field in the order the checks run. */
  function FieldRank(field: Field): nat {
    match field
    case FromTokenField => 0
    case ToTokenField => 1
    case FromAmountField => 2
    case ToAmountField => 3
  }

  /** Errors listed in check order, at most one per field. */
  predicate Ordered(errors: seq<ValidationError>) {
    forall i, j | 0 <= i < j < |errors| :: FieldRank(errors[i].field) < FieldRank(errors[j].field)
  }

  // ---------------------------------------------------------------------------
  // Lemmas
  // ---------------------------------------------------------------------------

  /**
    The form is valid exactly when both tokens are chosen with different symbols, the amount
    is neither empty nor "0", the balance suffices and the amount parses to a positive number.
  */
  lemma ValidIff(form: Form, sufficient: bool)
    ensures ValidationErrors(form, sufficient) == []
            <==> && form.fromToken.Some? && form.toToken.Some?
                 && form.fromToken.value.symbol != form.toToken.value.symbol
                 && !AmountMissing(form.fromAmount) && sufficient && AmountPositive(form.fromAmount)
  {
  }

  /** The errors come in check order, so each field has at most one and there are at most three. */
  lemma ErrorsOrdered(form: Form, sufficient: bool)
    ensures Ordered(ValidationErrors(form, sufficient))
    ensures |ValidationErrors(form, sufficient)| <= 3
    ensures forall e | e in ValidationErrors(form, sufficient) :: e.field != ToAmountField
  {
  }

  /** `getError` on a concatenation looks at the second part only when the first has no error on the field. */
  lemma GetErrorAppend(a: seq<ValidationError>, b: seq<ValidationError>, field: Field)
    ensures GetError(a + b, field) == (if GetError(a, field).Some? then GetError(a, field) else GetError(b, field))
  {
    FindAppend(a, b, (e: ValidationError) => e.field == field);
  }

  /** What `getError` reports for the source token. */
  lemma SourceTokenError(form: Form, sufficient: bool)
    ensures GetError(ValidationErrors(form, sufficient), FromTokenField)
            == (if form.fromToken.None? then Some(SELECT_SOURCE) else None)
  {
  }

  /**
    What `getError` reports for the destination token: a missing token, otherwise a clash of
    symbols; the two cannot both happen.
  */
  lemma DestinationTokenError(form: Form, sufficient: bool)
    ensures GetError(ValidationErrors(form, sufficient), ToTokenField)
            == (if form.toToken.None? then Some(SELECT_DESTINATION)
                else if SameSymbol(form) then Some(TOKENS_MUST_DIFFER)
                else None)
  {
    var amount := ErrorsFor(FromAmountField, AmountError(form.fromAmount, sufficient));
    GetErrorAppend(SourceErrors(form) + DestinationErrors(form), amount, ToTokenField);
    GetErrorAppend(SourceErrors(form), DestinationErrors(form), ToTokenField);
  }

  /**
    What `getError` reports for the amount: an empty or "0" amount first, then an insufficient
    balance, then an amount that does not parse to a positive number.
  */
  lemma AmountFieldError(form: Form, sufficient: bool)
    ensures GetError(ValidationErrors(form, sufficient), FromAmountField)
            == AmountError(form.fromAmount, sufficient)
    ensures AmountError(form.fromAmount, sufficient).None?
            <==> !AmountMissing(form.fromAmount) && sufficient && AmountPositive(form.fromAmount)
  {
    var amount := ErrorsFor(FromAmountField, AmountError(form.fromAmount, sufficient));
    GetErrorAppend(SourceErrors(form) + DestinationErrors(form), amount, FromAmountField);
  }

  /** "0" parses to 0, so the "Please enter amount" check also covers every other reading of it. */
  lemma ZeroIsNotPositive()
    ensures !AmountPositive("0")
  {
    assert DigitPrefix("0") == "0" by {
      DigitPrefixOf("0", "");
    }
    assert "0"[1..] == "";
  }
}
