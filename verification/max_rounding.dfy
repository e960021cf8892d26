/**
  `handleMaxFromAmount` (src/problem2/src/hooks/useSwapForm.ts) fills the amount with
  `formatTokenAmount(fromBalance)`, and `toFixed` rounds to nearest. A balance such as
  1.99999 is shown as "2", which is more than the balance, so the "Max" amount is refused
  with "Insufficient balance". The corrected handler rounds the balance down to the decimals
  `formatTokenAmount` keeps before formatting it.
*/
module MaxRounding {
  import opened Wrappers
  import opened Numerals
  import opened Format
  import opened FormatProofs
  import opened SwapState
  import opened SwapDerived
  import opened SwapValidation
  import opened SwapHandlers
  import Api

  function Pow10(d: nat): (p: real)
    ensures p >= 1.0
  {
    if d == 0 then 1.0 else 10.0 * Pow10(d - 1)
  }

  /** `x` rounded down to a multiple of `1 / scale`. */
  function TruncateBy(x: real, scale: real): real
    requires scale >= 1.0
  {
    (x * scale).Floor as real / scale
  }

  /** `x` is a multiple of `1 / scale`. */
  predicate WholeBy(x: real, scale: real) {
    (x * scale).Floor as real == x * scale
  }

  /** `x` rounded down to `d` decimals. */
  function Truncate(x: real, d: nat): real {
    TruncateBy(x, Pow10(d))
  }

  /** `x` has at most `d` decimals. */
  predicate HasDecimals(x: real, d: nat) {
    WholeBy(x, Pow10(d))
  }

  /** `toFixed(d)` prints a value that already has at most `d` decimals exactly. */
  ghost predicate PrintsExactDecimals(r: Renderer) {
    forall x: real, d: nat | x >= 0.0 && HasDecimals(x, d) :: NumeralValue(r.fixedDigits(x, d)) == x
  }

  /** `handleMaxFromAmount()` with the balance rounded down before it is formatted. */
  function MaxCorrected(r: Renderer, s: State): (t: State)
    ensures s.form.fromToken.None? ==> t == s
    ensures s.form.fromToken.Some? ==>
              t == s.(form := s.form.(fromAmount := t.form.fromAmount),
                      errors := WithoutFields(s.errors, {FromAmountField}))
    ensures s.form.fromToken.Some? && FromBalance(s) >= 0.0 ==> AmountPattern(t.form.fromAmount)
  {
    if s.form.fromToken.None? then s
    else
      var balance := FromBalance(s);
      var amount := Truncate(balance, AmountDecimals(balance, DEFAULT_MAX_DECIMALS));
      TruncatedAccepted(r, balance);
      s.(form := s.form.(fromAmount := FormatTokenAmount(r, Finite(amount), DEFAULT_MAX_DECIMALS)),
         errors := WithoutFields(s.errors, {FromAmountField}))
  }

  // ---------------------------------------------------------------------------
  // Lemmas
  // ---------------------------------------------------------------------------

  /** A non-negative balance rounded down formats as an amount the input field accepts. */
  lemma TruncatedAccepted(r: Renderer, balance: real)
    ensures balance >= 0.0 ==>
              AmountPattern(FormatTokenAmount(r, Finite(Truncate(balance, AmountDecimals(balance, DEFAULT_MAX_DECIMALS))),
                                              DEFAULT_MAX_DECIMALS))
  {
    if balance >= 0.0 {
      var amount := Truncate(balance, AmountDecimals(balance, DEFAULT_MAX_DECIMALS));
      TruncateBounds(balance, AmountDecimals(balance, DEFAULT_MAX_DECIMALS));
      BalanceAmountAccepted(r, amount);
    }
  }

  /** Rounding down stays within one unit of the last decimal below the value, and has `d` decimals. */
  lemma TruncateBounds(x: real, d: nat)
    requires x >= 0.0
    ensures 0.0 <= Truncate(x, d) <= x
    ensures x - Truncate(x, d) < 1.0 / Pow10(d)
    ensures HasDecimals(Truncate(x, d), d)
    ensures x >= 1.0 ==> Truncate(x, d) >= 1.0
  {
    Pow10Whole(d);
    ScaledFloor(x, Pow10(d));
  }

  /** Rounding down to a multiple of `1 / p` stays within `1 / p` below `x`, and at least 1 when `x` is. */
  lemma ScaledFloor(x: real, p: real)
    requires x >= 0.0 && p >= 1.0 && p.Floor as real == p
    ensures 0.0 <= TruncateBy(x, p) <= x
    ensures x - TruncateBy(x, p) < 1.0 / p
    ensures WholeBy(TruncateBy(x, p), p)
    ensures x >= 1.0 ==> TruncateBy(x, p) >= 1.0
  {
    QuotientBounds(x, p, (x * p).Floor, TruncateBy(x, p));
  }

  lemma QuotientBounds(x: real, p: real, k: int, t: real)
    requires x >= 0.0 && p >= 1.0 && p.Floor as real == p
    requires k == (x * p).Floor && t == k as real / p
    ensures 0.0 <= t <= x && x - t < 1.0 / p
    ensures WholeBy(t, p)
    ensures x >= 1.0 ==> t >= 1.0
  {
    var y := x * p;
    assert 0 <= k && k as real <= y < k as real + 1.0;
    ScaleBack(t, p, k as real);
    QuotientBelow(t, x, p, k as real);
    QuotientClose(t, x, p, k as real);
    if x >= 1.0 {
      QuotientAtLeastOne(t, x, p, k);
    }
  }

  /** Dividing by `p` and multiplying back gives the number again. */
  lemma ScaleBack(t: real, p: real, a: real)
    requires p > 0.0 && t == a / p
    ensures t * p == a
  {
  }

  /** Multiplying by a positive number keeps the order. */
  lemma MulLeq(a: real, b: real, p: real)
    requires p > 0.0
    ensures a <= b <==> a * p <= b * p
  {
    assert b * p - a * p == (b - a) * p;
  }

  lemma MulLess(a: real, b: real, p: real)
    requires p > 0.0
    ensures a < b <==> a * p < b * p
  {
    assert b * p - a * p == (b - a) * p;
  }

  lemma QuotientBelow(t: real, x: real, p: real, a: real)
    requires p > 0.0 && t * p == a && 0.0 <= a <= x * p
    ensures 0.0 <= t <= x
  {
    MulLeq(0.0, t, p);
    MulLeq(t, x, p);
  }

  lemma QuotientClose(t: real, x: real, p: real, a: real)
    requires p > 0.0 && t * p == a && x * p < a + 1.0
    ensures x - t < 1.0 / p
  {
    assert (x - t) * p == x * p - t * p;
    assert (1.0 / p) * p == 1.0;
    MulLess(x - t, 1.0 / p, p);
  }

  lemma QuotientAtLeastOne(t: real, x: real, p: real, k: int)
    requires p >= 1.0 && p.Floor as real == p && x >= 1.0
    requires k == (x * p).Floor && t * p == k as real
    ensures t >= 1.0
  {
    MulLeq(1.0, x, p);
    FloorAtLeast(x * p, p);
    MulLeq(1.0, t, p);
  }

  /** A number at least a whole number `p` has a floor at least `p`. */
  lemma FloorAtLeast(y: real, p: real)
    requires p.Floor as real == p && y >= p
    ensures y.Floor as real >= p
  {
  }

  /** Powers of ten are whole numbers. */
  lemma {:induction false} Pow10Whole(d: nat)
    ensures Pow10(d).Floor as real == Pow10(d)
  {
    if d > 0 {
      Pow10Whole(d - 1);
      var q := Pow10(d - 1);
      assert q == q.Floor as real;
      assert 10.0 * q == (10 * q.Floor) as real;
    }
  }

  /** Rounding the balance down does not change how many decimals `formatTokenAmount` keeps. */
  lemma TruncateKeepsDecimals(x: real, maxDecimals: nat)
    requires x >= 0.0
    ensures var d := AmountDecimals(x, maxDecimals);
            AmountDecimals(Truncate(x, d), maxDecimals) == d
  {
    TruncateBounds(x, AmountDecimals(x, maxDecimals));
  }

  /** "0" reads back as 0. */
  lemma ParseZero()
    ensures ParseFloat("0") == Some(0.0)
  {
    ParseDigit('0');
  }

  /** A single digit reads back as its value. */
  lemma ParseDigit(c: char)
    requires IsDigit(c)
    ensures ParseFloat([c]) == Some(DigitValue(c) as real)
  {
    var n: FixedNumeral := Numeral([c], []);
    ParseShowPositive(n);
    assert Show(n) == [c];
    assert [c][..0] == [];
    assert DigitsValue([c]) == DigitValue(c);
    assert FractionValue([]) == 0.0;
  }

  /**
    A non-negative value with the decimals `formatTokenAmount` keeps is formatted as text that
    reads back as exactly that value.
  */
  lemma FormatExactReadsBack(r: Renderer, t: real)
    requires PrintsExactDecimals(r)
    requires t >= 0.0 && HasDecimals(t, AmountDecimals(t, DEFAULT_MAX_DECIMALS))
    ensures ParseFloat(FormatTokenAmount(r, Finite(t), DEFAULT_MAX_DECIMALS)) == Some(t)
  {
    if t == 0.0 {
      ParseZero();
    } else {
      var d := AmountDecimals(t, DEFAULT_MAX_DECIMALS);
      FormatTokenAmountReadsBack(r, t, DEFAULT_MAX_DECIMALS);
      assert Abs(t) == t;
      assert NumeralValue(r.fixedDigits(t, d)) == t;
    }
  }

  /**
    The corrected "Max" fills in the balance rounded down: never more than the balance, less
    than one unit of the last kept decimal below it, and always a sufficient amount.
  */
  lemma MaxCorrectedFits(r: Renderer, s: State)
    requires PrintsExactDecimals(r)
    requires s.form.fromToken.Some? && FromBalance(s) >= 0.0
    ensures var t := MaxCorrected(r, s);
            var balance := FromBalance(s);
            && AmountPattern(t.form.fromAmount)
            && NumericFromAmount(t.form) <= balance
            && balance - NumericFromAmount(t.form) < 1.0 / Pow10(AmountDecimals(balance, DEFAULT_MAX_DECIMALS))
            && FromBalance(t) == balance
            && HasSufficientBalance(t)
  {
    var balance := FromBalance(s);
    var d := AmountDecimals(balance, DEFAULT_MAX_DECIMALS);
    var amount := Truncate(balance, d);
    TruncateBounds(balance, d);
    TruncateKeepsDecimals(balance, DEFAULT_MAX_DECIMALS);
    FormatExactReadsBack(r, amount);
    var text := FormatTokenAmount(r, Finite(amount), DEFAULT_MAX_DECIMALS);
    if amount > 0.0 {
      FormatTokenAmountIsNumeral(r, amount, DEFAULT_MAX_DECIMALS);
    } else {
      assert text == "0";
      ShowMatchesAmountPattern(Numeral("0", []));
      assert Show(Numeral("0", [])) == "0";
    }
    MaxReadsBack(s, MaxCorrected(r, s), text, amount);
  }

  lemma MaxReadsBack(s: State, t: State, text: string, amount: real)
    requires s.form.fromToken.Some?
    requires t == s.(form := s.form.(fromAmount := text), errors := t.errors)
    requires ParseFloat(text) == Some(amount) && amount <= FromBalance(s)
    ensures NumericFromAmount(t.form) == amount && FromBalance(t) == FromBalance(s)
    ensures HasSufficientBalance(t)
  {
  }

  /** The balance of the example: 1.99999 BTC. */
  const EXAMPLE_BALANCE: real := 1.99999

  function ExampleState(): State {
    var btc := Token("BTC", "Bitcoin", Some(1.0), Api.GetTokenIconUrl("BTC"));
    INITIAL_STATE.(balances := map["BTC" := EXAMPLE_BALANCE], form := Form(Some(btc), None, ""))
  }

  /**
    With a balance of 1.99999, `toFixed(4)` rounds to "2.0000", so the "Max" amount as
    written is "2": more than the balance, and validation answers "Insufficient balance".
  */
  lemma MaxAsWrittenOverdraws(r: Renderer)
    requires r.fixedDigits(EXAMPLE_BALANCE, 4) == Numeral("2", "0000")
    ensures MaxAsWritten(r, ExampleState()).form.fromAmount == "2"
    ensures NumericFromAmount(MaxAsWritten(r, ExampleState()).form) == 2.0 > FromBalance(ExampleState())
    ensures !HasSufficientBalance(MaxAsWritten(r, ExampleState()))
    ensures AmountError("2", false) == Some(INSUFFICIENT_BALANCE)
  {
    var s := ExampleState();
    ExampleBalance();
    ExampleFormatsAsTwo(r);
    ParseTwo();
    MaxReadsBackOver(s, MaxAsWritten(r, s), "2", 2.0);
  }

  lemma ExampleBalance()
    ensures ExampleState().form.fromToken.Some?
    ensures FromBalance(ExampleState()) == EXAMPLE_BALANCE
  {
  }

  /** Trimming "2.0000" leaves "2". */
  lemma ExampleFormatsAsTwo(r: Renderer)
    requires r.fixedDigits(EXAMPLE_BALANCE, 4) == Numeral("2", "0000")
    ensures FormatTokenAmount(r, Finite(EXAMPLE_BALANCE), DEFAULT_MAX_DECIMALS) == "2"
  {
    var n: FixedNumeral := Numeral("2", "0000");
    assert AllZeros(n.frac);
    FormatsAsWhole(r, EXAMPLE_BALANCE, n);
  }

  /** A value of at least 1 whose four decimals print as zeros is formatted as its whole part. */
  lemma FormatsAsWhole(r: Renderer, v: real, n: FixedNumeral)
    requires v >= 1.0 && r.fixedDigits(v, 4) == n && AllZeros(n.frac)
    ensures FormatTokenAmount(r, Finite(v), DEFAULT_MAX_DECIMALS) == n.whole
  {
    FormatTokenAmountCanonical(r, v, DEFAULT_MAX_DECIMALS);
    DropAllZeros(n.frac);
    assert Canonical(n) == Numeral(n.whole, []);
    assert Show(Numeral(n.whole, [])) == n.whole;
  }

  /** "2" reads back as 2. */
  lemma ParseTwo()
    ensures ParseFloat("2") == Some(2.0)
  {
    ParseDigit('2');
  }

  lemma MaxReadsBackOver(s: State, t: State, text: string, amount: real)
    requires s.form.fromToken.Some?
    requires t == s.(form := s.form.(fromAmount := text), errors := t.errors)
    requires ParseFloat(text) == Some(amount) && amount > FromBalance(s) >= 0.0
    ensures NumericFromAmount(t.form) == amount && FromBalance(t) == FromBalance(s)
    ensures !HasSufficientBalance(t)
  {
  }

  /** On the same balance, the corrected "Max" fills in 1.9999, which the balance covers. */
  lemma MaxCorrectedExample(r: Renderer)
    requires PrintsExactDecimals(r)
    ensures HasSufficientBalance(MaxCorrected(r, ExampleState()))
  {
    MaxCorrectedFits(r, ExampleState());
  }
}
