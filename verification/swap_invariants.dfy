/**
  What every state of the swap form hook (src/problem2/src/hooks/useSwapForm.ts) satisfies
  once it is reached from the initial state through loading and the handlers: no balance is
  negative, the errors are in check order with at most one per field, and the amount is
  empty or text the amount field accepts.

  A session is a sequence of intents, one per handler call, each handled as the hook's code
  does, "Max" included (`MaxAsWritten`). The corrected "Max" of `MaxRounding` keeps the
  invariant too.
*/
module SwapInvariants {
  import opened Wrappers
  import opened Numerals
  import opened Format
  import opened Seqs
  import opened SwapState
  import opened SwapStateProofs
  import opened SwapDerived
  import opened SwapValidation
  import opened SwapHandlers
  import opened MaxRounding
  import Api

  /** One call into the hook. */
  datatype Intent =
    | LoadTokens(fetched: Option<Api.PriceTable>)
    | ChooseSource(token: Option<Token>)
    | ChooseDestination(token: Option<Token>)
    | TypeAmount(value: string)
    | SwapTokens
    | UseMax
    | SubmitSwap
    | CloseDialog

  /** The hook's state after one call; only loading replaces the catalog and only a submit moves balances. */
  function Step(r: Renderer, s: State, intent: Intent): (t: State)
    ensures !intent.LoadTokens? ==> t.tokens == s.tokens
    ensures !intent.SubmitSwap? ==> t.balances == s.balances
    ensures intent.LoadTokens? ==> t.tokens == BuildCatalog(intent.fetched.GetOr(map[]))
  {
    match intent
    case LoadTokens(fetched) => Load(s, fetched)
    case ChooseSource(token) => SelectSource(s, token)
    case ChooseDestination(token) => SelectDestination(s, token)
    case TypeAmount(value) => EditAmount(s, value)
    case SwapTokens => Flip(r, s)
    case UseMax => MaxAsWritten(r, s)
    case SubmitSwap => Submit(r, s)
    case CloseDialog => CloseModal(s)
  }

  /** The state after the intents, in order. */
  function Run(r: Renderer, s: State, intents: seq<Intent>): State
    decreases |intents|
  {
    if intents == [] then s else Run(r, Step(r, s, intents[0]), intents[1..])
  }

  predicate NonNegative(balances: Balances) {
    forall k | k in balances :: balances[k] >= 0.0
  }

  predicate AmountWellFormed(text: string) {
    text == "" || AmountPattern(text)
  }

  predicate Inv(s: State) {
    NonNegative(s.balances) && Ordered(s.errors) && AmountWellFormed(s.form.fromAmount)
  }

  // ---------------------------------------------------------------------------
  // Lemmas
  // ---------------------------------------------------------------------------

  /** Dropping errors keeps the rest in check order. */
  lemma {:induction false} FilterKeepsOrder(errors: seq<ValidationError>, p: ValidationError -> bool)
    requires Ordered(errors)
    ensures Ordered(Filter(errors, p))
  {
    if errors != [] {
      var tail := Filter(errors[1..], p);
      FilterKeepsOrder(errors[1..], p);
      if p(errors[0]) {
        HeadBelowTail(errors);
        HeadBelowFiltered(errors[0], errors[1..], p);
        ConsOrdered(errors[0], tail);
      }
    }
  }

  /** In an ordered list the first error ranks below every later one. */
  lemma HeadBelowTail(errors: seq<ValidationError>)
    requires Ordered(errors) && errors != []
    ensures forall y | y in errors[1..] :: FieldRank(errors[0].field) < FieldRank(y.field)
  {
    forall y | y in errors[1..]
      ensures FieldRank(errors[0].field) < FieldRank(y.field)
    {
      var k :| 0 <= k < |errors[1..]| && errors[1..][k] == y;
      assert errors[k + 1] == y;
    }
  }

  lemma HeadBelowFiltered(e: ValidationError, rest: seq<ValidationError>, p: ValidationError -> bool)
    requires forall y | y in rest :: FieldRank(e.field) < FieldRank(y.field)
    ensures forall y | y in Filter(rest, p) :: FieldRank(e.field) < FieldRank(y.field)
  {
    var tail := Filter(rest, p);
    forall y | y in tail
      ensures FieldRank(e.field) < FieldRank(y.field)
    {
      var k :| 0 <= k < |tail| && tail[k] == y;
    }
  }

  /** An error ranking below every error of an ordered list can go in front of it. */
  lemma ConsOrdered(e: ValidationError, tail: seq<ValidationError>)
    requires Ordered(tail)
    requires forall y | y in tail :: FieldRank(e.field) < FieldRank(y.field)
    ensures Ordered([e] + tail)
  {
    var r := [e] + tail;
    forall i, j | 0 <= i < j < |r|
      ensures FieldRank(r[i].field) < FieldRank(r[j].field)
    {
      assert r[j] == tail[j - 1];
      if i > 0 {
        assert r[i] == tail[i - 1];
      }
    }
  }

  lemma WithoutFieldsOrdered(errors: seq<ValidationError>, fields: set<Field>)
    requires Ordered(errors)
    ensures Ordered(WithoutFields(errors, fields))
  {
    FilterKeepsOrder(errors, (e: ValidationError) => e.field !in fields);
  }

  /** A swap keeps the ledger non-negative whenever the received amount is. */
  lemma SwapKeepsNonNegative(balances: Balances, from: string, to: string, amount: real, received: real)
    requires NonNegative(balances) && received >= 0.0
    ensures NonNegative(SwapBalances(balances, from, to, amount, received))
  {
  }

  /** The starting ledger has no negative balance. */
  lemma InitialBalancesNonNegative()
    ensures NonNegative(INITIAL_BALANCES)
  {
  }

  /** The hook's initial state satisfies the invariant. */
  lemma InitialInv()
    ensures Inv(INITIAL_STATE)
  {
    InitialBalancesNonNegative();
  }

  lemma LoadInv(s: State, fetched: Option<Api.PriceTable>)
    requires Inv(s)
    ensures Inv(Load(s, fetched))
  {
  }

  lemma SelectionInv(s: State, token: Option<Token>)
    requires Inv(s)
    ensures Inv(SelectSource(s, token)) && Inv(SelectDestination(s, token))
  {
    WithoutFieldsOrdered(s.errors, {FromTokenField, FromAmountField});
    WithoutFieldsOrdered(s.errors, {ToTokenField});
  }

  lemma EditAmountInv(s: State, value: string)
    requires Inv(s)
    ensures Inv(EditAmount(s, value))
  {
    WithoutFieldsOrdered(s.errors, {FromAmountField});
  }

  lemma FlipInv(r: Renderer, s: State)
    requires Inv(s)
    ensures Inv(Flip(r, s))
  {
  }

  /** "Max" as written keeps the invariant: the ledger never holds a negative balance to format. */
  lemma MaxInv(r: Renderer, s: State)
    requires Inv(s)
    ensures Inv(MaxAsWritten(r, s))
  {
    if s.form.fromToken.Some? {
      assert FromBalance(s) >= 0.0;
      WithoutFieldsOrdered(s.errors, {FromAmountField});
    }
  }

  /** The corrected "Max" keeps the invariant as well. */
  lemma MaxCorrectedInv(r: Renderer, s: State)
    requires Inv(s)
    ensures Inv(MaxCorrected(r, s))
  {
    if s.form.fromToken.Some? {
      var balance := FromBalance(s);
      assert balance >= 0.0;
      var amount := Truncate(balance, AmountDecimals(balance, DEFAULT_MAX_DECIMALS));
      TruncateBounds(balance, AmountDecimals(balance, DEFAULT_MAX_DECIMALS));
      FormattedAmountAccepted(r, amount, DEFAULT_MAX_DECIMALS);
      WithoutFieldsOrdered(s.errors, {FromAmountField});
    }
  }

  lemma SubmitInv(r: Renderer, s: State)
    requires Inv(s)
    ensures Inv(Submit(r, s))
  {
    ErrorsOrdered(s.form, HasSufficientBalance(s));
    if SubmitGoesThrough(s) {
      SwapKeepsNonNegative(s.balances, s.form.fromToken.value.symbol, s.form.toToken.value.symbol,
                           NumericFromAmount(s.form), ToAmountValue(s.form));
    }
  }

  /** Every handler, and loading, keeps the invariant. */
  lemma StepInv(r: Renderer, s: State, intent: Intent)
    requires Inv(s)
    ensures Inv(Step(r, s, intent))
  {
    match intent
    case LoadTokens(fetched) => LoadInv(s, fetched);
    case ChooseSource(token) => SelectionInv(s, token);
    case ChooseDestination(token) => SelectionInv(s, token);
    case TypeAmount(value) => EditAmountInv(s, value);
    case SwapTokens => FlipInv(r, s);
    case UseMax => MaxInv(r, s);
    case SubmitSwap => SubmitInv(r, s);
    case CloseDialog =>
  }

  /** Any session keeps the invariant. */
  lemma {:induction false} RunInv(r: Renderer, s: State, intents: seq<Intent>)
    requires Inv(s)
    ensures Inv(Run(r, s, intents))
    decreases |intents|
  {
    if intents != [] {
      StepInv(r, s, intents[0]);
      RunInv(r, Step(r, s, intents[0]), intents[1..]);
    }
  }

  /** Every state reachable from the hook's initial state satisfies the invariant. */
  lemma ReachableInv(r: Renderer, intents: seq<Intent>)
    ensures Inv(Run(r, INITIAL_STATE, intents))
  {
    InitialInv();
    RunInv(r, INITIAL_STATE, intents);
  }
}
