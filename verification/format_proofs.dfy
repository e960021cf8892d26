/**
  What the formatters of src/problem2/src/utils/format.ts promise about the text they
  produce: the values `parseFloat` reads back from it, and its shape.
*/
module FormatProofs {
  import opened Wrappers
  import opened Numerals
  import opened Format

  /** Numerals of equal value read back equally. */
  lemma ParseEqualValue(negative: bool, n: FixedNumeral, c: FixedNumeral)
    requires NumeralValue(c) == NumeralValue(n)
    ensures ParseFloat(Signed(negative, Show(c)))
            == Some(if negative then -NumeralValue(n) else NumeralValue(n))
  {
    ParseSignedNumeral(negative, c);
  }

  /** `parseFloat` reads a canonical numeral as the value of the numeral it came from. */
  lemma ParseCanonical(negative: bool, n: FixedNumeral)
    ensures ParseFloat(Signed(negative, Show(Canonical(n))))
            == Some(if negative then -NumeralValue(n) else NumeralValue(n))
  {
    CanonicalValue(n);
    ParseEqualValue(negative, n, Canonical(n));
  }

  /** Text equal to a canonical numeral reads back as that numeral's source value. */
  lemma ParseAsCanonical(s: string, negative: bool, n: FixedNumeral)
    requires s == Signed(negative, Show(Canonical(n)))
    ensures ParseFloat(s) == Some(if negative then -NumeralValue(n) else NumeralValue(n))
  {
    ParseCanonical(negative, n);
  }

  lemma TrimReadsValue(negative: bool, n: FixedNumeral)
    ensures ParseFloat(TrimTrailingZeros(Signed(negative, Show(n))))
            == Some(if negative then -NumeralValue(n) else NumeralValue(n))
  {
    TrimNumeral(negative, n);
    ParseCanonical(negative, n);
  }

  /** `parseFloat` reads the same value before and after trimming a `toFixed` result. */
  lemma TrimKeepsValue(negative: bool, n: FixedNumeral)
    ensures var s := Signed(negative, Show(n));
            ParseFloat(TrimTrailingZeros(s)) == ParseFloat(s)
  {
    TrimReadsValue(negative, n);
    ParseSignedNumeral(negative, n);
  }

  /** The examples the helper is written for. */
  lemma TrimExampleFraction()
    ensures TrimTrailingZeros("1.2000") == "1.2"
  {
    var n := Numeral("1", "2000");
    assert Signed(false, Show(n)) == "1.2000";
    assert "2000"[..3] == "200" && "200"[..2] == "20" && "20"[..1] == "2";
    assert DropTrailingZeros("2000") == "2";
    assert Signed(false, Show(Canonical(n))) == "1.2";
    TrimNumeral(false, n);
  }

  lemma TrimExampleAllZeros()
    ensures TrimTrailingZeros("1.0000") == "1"
  {
    var n := Numeral("1", "0000");
    assert Signed(false, Show(n)) == "1.0000";
    DropAllZeros("0000");
    assert Signed(false, Show(Canonical(n))) == "1";
    TrimNumeral(false, n);
  }

  lemma TrimExampleOneZero()
    ensures TrimTrailingZeros("100.0") == "100"
  {
    var n := Numeral("100", "0");
    assert Signed(false, Show(n)) == "100.0";
    assert DropTrailingZeros("0") == [];
    assert Signed(false, Show(Canonical(n))) == "100";
    TrimNumeral(false, n);
  }

  lemma TrimExampleNoPoint()
    ensures TrimTrailingZeros("10") == "10"
  {
    var n := Numeral("10", []);
    assert Signed(false, Show(n)) == "10";
    TrimNumeral(false, n);
  }

  /** A non-zero amount is formatted as the canonical form of its `toFixed` numeral. */
  lemma FormatTokenAmountCanonical(r: Renderer, v: real, maxDecimals: nat)
    requires v != 0.0
    ensures var n := r.fixedDigits(Abs(v), AmountDecimals(v, maxDecimals));
            FormatTokenAmount(r, Finite(v), maxDecimals) == Signed(v < 0.0, Show(Canonical(n)))
  {
    var n := r.fixedDigits(Abs(v), AmountDecimals(v, maxDecimals));
    var s := ToFixed(r, v, AmountDecimals(v, maxDecimals));
    assert s == Signed(v < 0.0, Show(n));
    assert FormatTokenAmount(r, Finite(v), maxDecimals) == TrimTrailingZeros(s);
    TrimNumeral(v < 0.0, n);
  }

  /** `formatTokenAmount` prints "0" for zero and for every non-finite number. */
  lemma FormatTokenAmountZero(r: Renderer, value: Num, maxDecimals: nat)
    requires !value.Finite? || value.v == 0.0
    ensures FormatTokenAmount(r, value, maxDecimals) == "0"
  {
  }

  /**
    Otherwise it prints `toFixed` at `AmountDecimals` decimals, trimmed, which `parseFloat`
    reads back as exactly the value `toFixed` printed.
  */
  lemma FormatTokenAmountReadsBack(r: Renderer, v: real, maxDecimals: nat)
    requires v != 0.0
    ensures var n := r.fixedDigits(Abs(v), AmountDecimals(v, maxDecimals));
            ParseFloat(FormatTokenAmount(r, Finite(v), maxDecimals))
            == Some(if v < 0.0 then -NumeralValue(n) else NumeralValue(n))
  {
    FormatTokenAmountReadsNumeral(r, v, maxDecimals, r.fixedDigits(Abs(v), AmountDecimals(v, maxDecimals)));
  }

  lemma FormatTokenAmountReadsNumeral(r: Renderer, v: real, maxDecimals: nat, n: FixedNumeral)
    requires v != 0.0
    requires n == r.fixedDigits(Abs(v), AmountDecimals(v, maxDecimals))
    ensures ParseFloat(FormatTokenAmount(r, Finite(v), maxDecimals))
            == Some(if v < 0.0 then -NumeralValue(n) else NumeralValue(n))
  {
    FormatTokenAmountCanonical(r, v, maxDecimals);
    ParseAsCanonical(FormatTokenAmount(r, Finite(v), maxDecimals), v < 0.0, n);
  }


  /**
    When `toFixed` writes the requested number of decimals, a formatted amount has at most
    four digits after the point for values >= 1, and at most `maxDecimals` otherwise.
  */
  lemma FormatTokenAmountDecimals(r: Renderer, v: real, maxDecimals: nat)
    requires WritesRequestedDecimals(r)
    requires v != 0.0
    ensures var n := Canonical(r.fixedDigits(Abs(v), AmountDecimals(v, maxDecimals)));
            && FormatTokenAmount(r, Finite(v), maxDecimals) == Signed(v < 0.0, Show(n))
            && |n.frac| <= maxDecimals
            && (v >= 1.0 ==> |n.frac| <= 4)
  {
    var n := r.fixedDigits(Abs(v), AmountDecimals(v, maxDecimals));
    FormatTokenAmountCanonical(r, v, maxDecimals);
    assert |n.frac| == AmountDecimals(v, maxDecimals);
  }

  /** A positive amount is formatted as text the amount field accepts. */
  lemma FormatTokenAmountIsNumeral(r: Renderer, v: real, maxDecimals: nat)
    requires v > 0.0
    ensures AmountPattern(FormatTokenAmount(r, Finite(v), maxDecimals))
  {
    var c := Canonical(r.fixedDigits(Abs(v), AmountDecimals(v, maxDecimals)));
    FormatTokenAmountCanonical(r, v, maxDecimals);
    assert Signed(false, Show(c)) == Show(c);
    ShowMatchesAmountPattern(c);
  }

  /** A formatted amount is never empty. */
  lemma FormatTokenAmountNonEmpty(r: Renderer, v: real, maxDecimals: nat)
    ensures FormatTokenAmount(r, Finite(v), maxDecimals) != ""
  {
    if v != 0.0 {
      var c := Canonical(r.fixedDigits(Abs(v), AmountDecimals(v, maxDecimals)));
      FormatTokenAmountCanonical(r, v, maxDecimals);
      assert |Signed(v < 0.0, Show(c))| >= |c.whole| > 0;
    }
  }

  /** Every formatted amount is a numeral, with a sign exactly for negative values. */
  lemma FormatTokenAmountNumeral(r: Renderer, v: real, maxDecimals: nat)
    returns (negative: bool, n: FixedNumeral)
    ensures FormatTokenAmount(r, Finite(v), maxDecimals) == Signed(negative, Show(n))
    ensures negative <==> v < 0.0
  {
    if v == 0.0 {
      n := Numeral("0", []);
      negative := false;
      assert Signed(negative, Show(n)) == "0";
    } else {
      FormatTokenAmountCanonical(r, v, maxDecimals);
      n := Canonical(r.fixedDigits(Abs(v), AmountDecimals(v, maxDecimals)));
      negative := v < 0.0;
    }
  }

  /** What `formatBalanceDisplay` writes after the amount. */
  function SymbolSuffix(symbol: Option<string>): string {
    if symbol.Some? && symbol.value != [] then " " + symbol.value else []
  }

  lemma FormatBalanceDisplaySplits(r: Renderer, v: real, symbol: Option<string>)
    ensures FormatBalanceDisplay(r, Finite(v), symbol)
            == FormatTokenAmount(r, Finite(v), DEFAULT_MAX_DECIMALS) + SymbolSuffix(symbol)
  {
    var amount := FormatTokenAmount(r, Finite(v), DEFAULT_MAX_DECIMALS);
    if symbol.Some? && symbol.value != [] {
      assert amount + " " + symbol.value == amount + (" " + symbol.value);
    } else {
      assert amount + [] == amount;
    }
  }

  lemma AppendParts(a: string, t: string)
    ensures a <= a + t && |a + t| == |a| + |t| && (a + t)[|a|..] == t
  {
  }

  /**
    `formatBalanceDisplay` shows the formatted amount, followed by a space and the symbol
    exactly when a non-empty symbol is given; `parseFloat` reads the amount's value off it.
  */
  lemma FormatBalanceDisplayReadsBack(r: Renderer, v: real, symbol: Option<string>)
    ensures var amount := FormatTokenAmount(r, Finite(v), DEFAULT_MAX_DECIMALS);
            var shown := FormatBalanceDisplay(r, Finite(v), symbol);
            && amount <= shown
            && (symbol.Some? && symbol.value != [] <==> |shown| > |amount|)
            && (|shown| > |amount| ==> shown[|amount|..] == " " + symbol.value)
            && ParseFloat(shown) == ParseFloat(amount)
  {
    var amount := FormatTokenAmount(r, Finite(v), DEFAULT_MAX_DECIMALS);
    var t := SymbolSuffix(symbol);
    FormatBalanceDisplaySplits(r, v, symbol);
    AppendParts(amount, t);
    var negative, n := FormatTokenAmountNumeral(r, v, DEFAULT_MAX_DECIMALS);
    ReadsBackWithSuffix(negative, n, t);
  }

  lemma SignedAppend(negative: bool, body: string, t: string)
    ensures Signed(negative, body) + t == Signed(negative, body + t)
  {
  }

  /** A sign in front of text starting with a digit negates (or keeps) its unsigned reading. */
  lemma ParseSignedText(negative: bool, u: string, v: real)
    requires ParseUnsigned(u) == Some(v) && u != [] && IsDigit(u[0])
    ensures ParseFloat(Signed(negative, u)) == Some(if negative then -v else v)
  {
    if negative {
      assert Signed(negative, u) == "-" + u;
      ParseFloatMinus(u, v);
    } else {
      assert Signed(negative, u) == u;
      ParseFloatUnsigned(u);
    }
  }

  lemma ReadsBackSigned(negative: bool, n: FixedNumeral, t: string)
    requires Stops(t)
    ensures ParseFloat(Signed(negative, Show(n) + t))
            == Some(if negative then -NumeralValue(n) else NumeralValue(n))
  {
    ParseUnsignedNumeral(n, t);
    ShowStartsWithDigit(n, t);
    ParseSignedText(negative, Show(n) + t, NumeralValue(n));
  }

  /** A shown numeral, whatever follows it, starts with its first whole digit. */
  lemma ShowStartsWithDigit(n: FixedNumeral, t: string)
    ensures Show(n) + t != [] && IsDigit((Show(n) + t)[0])
  {
    assert (Show(n) + t)[0] == n.whole[0];
  }

  /** `parseFloat` stops at text that cannot extend a numeral. */
  lemma ReadsBackWithSuffix(negative: bool, n: FixedNumeral, t: string)
    requires Stops(t)
    ensures ParseFloat(Signed(negative, Show(n)) + t) == ParseFloat(Signed(negative, Show(n)))
  {
    SignedAppend(negative, Show(n), t);
    ReadsBackSigned(negative, n, t);
    ParseSignedNumeral(negative, n);
  }

  /**
    `formatExchangeRate`: "0" for a non-finite or non-positive rate; the exponential
    rendering with two fraction digits below 1e-8; otherwise the canonical form of `toFixed`
    at 4 decimals for rates >= 1 and 8 below, reading back as the printed value.
  */
  lemma FormatExchangeRateShape(r: Renderer, rate: Num)
    ensures !rate.Finite? || rate.v <= 0.0 ==> FormatExchangeRate(r, rate) == "0"
    ensures rate.Finite? && 0.0 < rate.v < MIN_RATE_DISPLAY ==>
      FormatExchangeRate(r, rate) == r.exponential(rate.v, 2)
    ensures rate.Finite? && rate.v >= MIN_RATE_DISPLAY ==>
      var n := r.fixedDigits(rate.v, if rate.v >= 1.0 then 4 else 8);
      && FormatExchangeRate(r, rate) == Show(Canonical(n))
      && ParseFloat(FormatExchangeRate(r, rate)) == Some(NumeralValue(n))
  {
    if rate.Finite? && rate.v >= MIN_RATE_DISPLAY {
      FormatExchangeRateCanonical(r, rate.v);
      var n := r.fixedDigits(rate.v, RateDecimals(rate.v));
      ParseCanonical(false, n);
      SignedPositive(Show(Canonical(n)));
    }
  }

  lemma SignedPositive(body: string)
    ensures Signed(false, body) == body
  {
  }

  lemma FormatExchangeRateCanonical(r: Renderer, v: real)
    requires v >= MIN_RATE_DISPLAY
    ensures var n := r.fixedDigits(v, RateDecimals(v));
            FormatExchangeRate(r, Finite(v)) == Show(Canonical(n))
  {
    var n := r.fixedDigits(v, RateDecimals(v));
    assert ToFixed(r, v, RateDecimals(v)) == Signed(false, Show(n));
    TrimNumeral(false, n);
    SignedPositive(Show(Canonical(n)));
  }

}
