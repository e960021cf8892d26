/**
  The formatting helpers of the swap form (src/problem2/src/utils/format.ts).

  JavaScript numbers are modelled by `Num`, so that the `isFinite` guards have cases to
  reject. The host's own renderings (`toFixed`, `toExponential`, `Intl.NumberFormat`) are
  not defined here: they are the fields of a `Renderer`, a record of arbitrary functions.
  The only thing assumed of `toFixed` is the shape of what it prints: a minus sign exactly
  for a negative argument, then a numeral `digits[.digits]`.
*/
module Format {
  import opened Wrappers
  import opened Numerals

  /** A JavaScript number. */
  datatype Num = Finite(v: real) | NaN | PosInfinity | NegInfinity

  /** The host's number renderings, left uninterpreted. */
  datatype Renderer = Renderer(
    // the numeral `x.toFixed(d)` prints for a magnitude x >= 0 (rounding is not modelled)
    fixedDigits: (real, nat) -> FixedNumeral,
    // `x.toExponential(d)`
    exponential: (real, nat) -> string,
    // `Intl.NumberFormat('en-US', {style: 'currency', currency: 'USD', maximumFractionDigits: 2})`
    currency: real -> string)

  const MIN_RATE_DISPLAY: real := 0.00000001
  const DEFAULT_MAX_DECIMALS: nat := 8

  function Abs(x: real): real {
    if x < 0.0 then -x else x
  }

  function Min(a: nat, b: nat): nat {
    if a <= b then a else b
  }

  /** `x.toFixed(d)`. */
  function ToFixed(r: Renderer, x: real, d: nat): (text: string)
    ensures |text| > 0 && (text[0] == '-' <==> x < 0.0)
  {
    var n := r.fixedDigits(Abs(x), d);
    assert Show(n)[0] == n.whole[0];
    Signed(x < 0.0, Show(n))
  }

  /** `toFixed(d)` always writes exactly `d` digits after the point (none, and no point, for 0). */
  ghost predicate WritesRequestedDecimals(r: Renderer) {
    forall x: real, d: nat :: |r.fixedDigits(x, d).frac| == d
  }

  // ---------------------------------------------------------------------------
  // trimTrailingZeros
  // ---------------------------------------------------------------------------

  /** The index of the last '.' of `s`, if any. */
  function LastDot(s: string): (k: Option<nat>)
    ensures k.Some? ==> k.value < |s| && s[k.value] == '.'
    ensures k.Some? ==> forall i | k.value < i < |s| :: s[i] != '.'
    ensures k.None? ==> forall i | 0 <= i < |s| :: s[i] != '.'
  {
    if s == [] then None
    else if s[|s| - 1] == '.' then Some(|s| - 1)
    else LastDot(s[..|s| - 1])
  }

  predicate AllZeros(s: string) {
    forall i | 0 <= i < |s| :: s[i] == '0'
  }

  /**
    `value.replace(/(?:\.0+|(\.\d*?))0+$/, '$1')`. A match must start at a point and run
    over digits only to the end, so it can only start at the last point. When everything
    after that point is two or more zeros the first alternative wins and the point goes
    too; otherwise the lazy group keeps the point and the digits before the trailing zeros.
  */
  function StripFractionZeros(s: string): (u: string)
    ensures u <= s
  {
    match LastDot(s)
    case None => s
    case Some(k) =>
      var tail := s[k + 1..];
      if tail != [] && AllDigits(tail) && tail[|tail| - 1] == '0' then
        if |tail| >= 2 && AllZeros(tail) then s[..k]
        else
          assert DropTrailingZeros(tail) <= tail;
          s[..k + 1] + DropTrailingZeros(tail)
      else s
  }

  /**
    `trimTrailingZeros`: the replacement above, then `.replace(/\.$/, '')`. It only ever cuts
    the end of its input, and text without a point comes back unchanged.
  */
  function TrimTrailingZeros(s: string): (r: string)
    ensures r <= s
    ensures (forall i | 0 <= i < |s| :: s[i] != '.') ==> r == s
  {
    var u := StripFractionZeros(s);
    if u != [] && u[|u| - 1] == '.' then u[..|u| - 1] else u
  }

  // ---------------------------------------------------------------------------
  // The number formatters
  // ---------------------------------------------------------------------------

  /** The number of decimals `formatTokenAmount` asks `toFixed` for. */
  function AmountDecimals(value: real, maxDecimals: nat): nat {
    if value >= 1.0 then Min(4, maxDecimals) else maxDecimals
  }

  /** `formatTokenAmount(value, maxDecimals)`. */
  function FormatTokenAmount(r: Renderer, value: Num, maxDecimals: nat): (text: string)
    ensures !value.Finite? || value.v == 0.0 ==> text == "0"
    ensures value.Finite? && value.v != 0.0 ==> text <= ToFixed(r, value.v, AmountDecimals(value.v, maxDecimals))
    ensures |text| > 0
    ensures value.Finite? && value.v != 0.0 ==> (text[0] == '-' <==> value.v < 0.0)
  {
    if !value.Finite? || value.v == 0.0 then "0"
    else
      var n := r.fixedDigits(Abs(value.v), AmountDecimals(value.v, maxDecimals));
      TrimNumeral(value.v < 0.0, n);
      assert Show(Canonical(n))[0] == n.whole[0];
      TrimTrailingZeros(ToFixed(r, value.v, AmountDecimals(value.v, maxDecimals)))
  }

  /** `formatBalanceDisplay(value, symbol)`: the amount, then the symbol when one is given. */
  function FormatBalanceDisplay(r: Renderer, value: Num, symbol: Option<string>): (shown: string)
    ensures var amount := FormatTokenAmount(r, value, DEFAULT_MAX_DECIMALS);
            && amount <= shown
            && (|shown| > |amount| <==> symbol.Some? && symbol.value != [])
            && (|shown| > |amount| ==> shown[|amount|..] == " " + symbol.value)
  {
    WithSymbol(FormatTokenAmount(r, value, DEFAULT_MAX_DECIMALS), symbol)
  }

  /** Any text followed by a space and the symbol when one is given. */
  function WithSymbol(amount: string, symbol: Option<string>): (shown: string)
    ensures amount <= shown
    ensures |shown| > |amount| <==> symbol.Some? && symbol.value != []
    ensures |shown| > |amount| ==> shown[|amount|..] == " " + symbol.value
  {
    if symbol.Some? && symbol.value != [] then
      assert (amount + " " + symbol.value)[|amount|..] == " " + symbol.value;
      amount + " " + symbol.value
    else amount
  }

  /** `formatFiatValue(value)`: absent for `undefined` and for non-finite numbers. */
  function FormatFiatValue(r: Renderer, value: Option<Num>): (s: Option<string>)
    ensures s.None? <==> value.None? || !value.value.Finite?
    ensures s.Some? ==> s.value == r.currency(value.value.v)
  {
    if value.None? || !value.value.Finite? then None else Some(r.currency(value.value.v))
  }

  /** The number of decimals `formatExchangeRate` asks `toFixed` for. */
  function RateDecimals(rate: real): nat {
    if rate >= 1.0 then 4 else 8
  }

  /** `formatExchangeRate(rate)`. */
  function FormatExchangeRate(r: Renderer, rate: Num): (text: string)
    ensures !rate.Finite? || rate.v <= 0.0 ==> text == "0"
    ensures rate.Finite? && 0.0 < rate.v < MIN_RATE_DISPLAY ==> text == r.exponential(rate.v, 2)
    ensures rate.Finite? && rate.v >= MIN_RATE_DISPLAY ==>
              && text <= ToFixed(r, rate.v, if rate.v >= 1.0 then 4 else 8)
              && |text| > 0 && text[0] != '-'
  {
    if !rate.Finite? || rate.v <= 0.0 then "0"
    else if rate.v < MIN_RATE_DISPLAY then r.exponential(rate.v, 2)
    else
      var n := r.fixedDigits(rate.v, RateDecimals(rate.v));
      TrimNumeral(false, n);
      assert Show(Canonical(n))[0] == n.whole[0];
      TrimTrailingZeros(ToFixed(r, rate.v, RateDecimals(rate.v)))
  }

  // ---------------------------------------------------------------------------
  // Lemmas
  // ---------------------------------------------------------------------------

  /** The last point of `p + "." + f`, when neither `p` nor `f` holds one. */
  lemma LastDotOf(p: string, f: string)
    requires forall i | 0 <= i < |p| :: p[i] != '.'
    requires forall i | 0 <= i < |f| :: f[i] != '.'
    ensures LastDot(p + "." + f) == Some(|p|)
  {
    var s := p + "." + f;
    assert s[|p|] == '.';
    assert forall i | |p| < i < |s| :: s[i] == f[i - |p| - 1];
  }

  /** The part of a printed numeral before its point: a sign and digits, ending in a digit. */
  predicate WholePart(p: string) {
    |p| > 0 && IsDigit(p[|p| - 1]) && forall i | 0 <= i < |p| :: p[i] != '.'
  }

  lemma SignedWholePart(negative: bool, n: FixedNumeral)
    ensures WholePart(Signed(negative, n.whole))
  {
    var p := Signed(negative, n.whole);
    assert forall i | 0 <= i < |p| :: p[i] == '-' || IsDigit(p[i]);
    assert p[|p| - 1] == n.whole[|n.whole| - 1];
  }

  /** The three outcomes of the regular-expression replacement on `p.f`. */
  lemma StripCases(p: string, f: string)
    requires WholePart(p) && AllDigits(f) && f != []
    ensures var s := p + "." + f;
      StripFractionZeros(s) ==
        if f[|f| - 1] != '0' then s
        else if |f| >= 2 && AllZeros(f) then p
        else p + "." + DropTrailingZeros(f)
  {
    var s := p + "." + f;
    assert LastDot(s) == Some(|p|) by {
      LastDotOf(p, f);
    }
    assert s[|p| + 1..] == f;
    assert s[..|p|] == p;
    assert s[..|p| + 1] == p + ".";
  }

  lemma {:induction false} DropAllZeros(f: string)
    requires AllZeros(f)
    ensures DropTrailingZeros(f) == []
  {
    if f != [] {
      DropAllZeros(f[..|f| - 1]);
    }
  }

  /** Trimming `p.f` keeps `p` and the fraction up to its last non-zero digit. */
  lemma TrimFraction(p: string, f: string)
    requires WholePart(p) && AllDigits(f) && f != []
    ensures var d := DropTrailingZeros(f);
      TrimTrailingZeros(p + "." + f) == if d == [] then p else p + "." + d
  {
    var s := p + "." + f;
    var d := DropTrailingZeros(f);
    StripCases(p, f);
    if f[|f| - 1] != '0' {
      assert d == f;
      assert s[|s| - 1] == f[|f| - 1];
    } else if |f| >= 2 && AllZeros(f) {
      DropAllZeros(f);
    } else if d == [] {
      assert (p + ".")[..|p|] == p;
    } else {
      assert (p + "." + d)[|p + "." + d| - 1] == d[|d| - 1];
    }
  }

  lemma SignedShow(negative: bool, n: Numeral)
    ensures Signed(negative, Show(n))
            == Signed(negative, n.whole) + (if n.frac == [] then [] else "." + n.frac)
  {
  }

  lemma TrimNumeralFraction(negative: bool, n: FixedNumeral)
    requires n.frac != []
    ensures TrimTrailingZeros(Signed(negative, Show(n))) == Signed(negative, Show(Canonical(n)))
  {
    var p := Signed(negative, n.whole);
    SignedWholePart(negative, n);
    SignedShow(negative, n);
    SignedShow(negative, Canonical(n));
    var d := DropTrailingZeros(n.frac);
    var s := Signed(negative, Show(n));
    assert s == p + "." + n.frac;
    TrimFraction(p, n.frac);
    var t := Signed(negative, Show(Canonical(n)));
    assert t == if d == [] then p else p + "." + d;
  }

  lemma TrimNumeralWhole(negative: bool, n: FixedNumeral)
    requires n.frac == []
    ensures TrimTrailingZeros(Signed(negative, Show(n))) == Signed(negative, Show(Canonical(n)))
  {
    SignedWholePart(negative, n);
    SignedShow(negative, n);
    SignedShow(negative, Canonical(n));
  }

  /**
    On what `toFixed` prints, `trimTrailingZeros` yields the canonical numeral: the same sign
    and whole part, the fraction without its trailing zeros, and no point when nothing
    remains after it.
  */
  lemma TrimNumeral(negative: bool, n: FixedNumeral)
    ensures TrimTrailingZeros(Signed(negative, Show(n))) == Signed(negative, Show(Canonical(n)))
  {
    if n.frac == [] {
      TrimNumeralWhole(negative, n);
    } else {
      TrimNumeralFraction(negative, n);
    }
  }

  lemma CanonicalIdempotent(n: FixedNumeral)
    ensures Canonical(Canonical(n)) == Canonical(n)
  {
    var d := DropTrailingZeros(n.frac);
    assert DropTrailingZeros(d) == d;
  }

  /** A canonical numeral ends in a digit, and in a non-zero digit when it has a point. */
  lemma CanonicalEnding(negative: bool, n: FixedNumeral)
    ensures var t := Signed(negative, Show(Canonical(n)));
            t != [] && t[|t| - 1] != '.' && ('.' in t ==> t[|t| - 1] != '0')
  {
    var c := Canonical(n);
    var t := Signed(negative, Show(c));
    var p := Signed(negative, n.whole);
    assert forall i | 0 <= i < |p| :: p[i] == '-' || IsDigit(p[i]);
    if c.frac == [] {
      assert t == p;
      assert t[|t| - 1] == n.whole[|n.whole| - 1];
    } else {
      assert t == p + "." + c.frac;
      assert t[|t| - 1] == c.frac[|c.frac| - 1];
    }
  }

  /** A trimmed `toFixed` result never ends in a point nor, after a point, in a zero. */
  lemma TrimEnding(negative: bool, n: FixedNumeral)
    ensures var t := TrimTrailingZeros(Signed(negative, Show(n)));
            t != [] && t[|t| - 1] != '.' && ('.' in t ==> t[|t| - 1] != '0')
  {
    TrimNumeral(negative, n);
    CanonicalEnding(negative, n);
  }

  /** Trimming a `toFixed` result a second time changes nothing. */
  lemma TrimIdempotent(negative: bool, n: FixedNumeral)
    ensures var t := TrimTrailingZeros(Signed(negative, Show(n)));
            TrimTrailingZeros(t) == t
  {
    TrimNumeral(negative, n);
    TrimNumeral(negative, Canonical(n));
    CanonicalIdempotent(n);
  }
}
