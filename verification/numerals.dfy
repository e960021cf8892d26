/**
  Decimal numerals as text: runs of digits and their values, JavaScript's `parseFloat`
  restricted to the digit/point syntax the swap form produces, the amount-field pattern
  `^\d*\.?\d*$`, and the numeral shape `digits[.digits]` that `Number.prototype.toFixed`
  prints for a magnitude below 1e21.
*/
module Numerals {
  import opened Wrappers

  predicate IsDigit(c: char) {
    '0' <= c <= '9'
  }

  predicate AllDigits(s: string) {
    forall i | 0 <= i < |s| :: IsDigit(s[i])
  }

  function DigitValue(c: char): nat
    requires IsDigit(c)
  {
    c as int - '0' as int
  }

  /** The value of a run of digits, most significant first. */
  function DigitsValue(ds: string): nat
    requires AllDigits(ds)
  {
    if ds == [] then 0 else 10 * DigitsValue(ds[..|ds| - 1]) + DigitValue(ds[|ds| - 1])
  }

  /** The value of the digits written after a decimal point: `0.d1d2...`. */
  function FractionValue(ds: string): (v: real)
    requires AllDigits(ds)
    ensures 0.0 <= v < 1.0
  {
    if ds == [] then 0.0 else (DigitValue(ds[0]) as real + FractionValue(ds[1..])) / 10.0
  }

  /** The longest leading run of digits of `s`. */
  function DigitPrefix(s: string): (p: string)
    ensures p <= s && AllDigits(p)
    ensures |p| == |s| || !IsDigit(s[|p|])
  {
    if |s| > 0 && IsDigit(s[0]) then [s[0]] + DigitPrefix(s[1..]) else []
  }

  /**
    `parseFloat` once an optional sign is consumed: the longest prefix of the shape
    `\d*(\.\d*)?` is read; when it holds no digit the result is NaN (`None`).
  */
  function ParseUnsigned(s: string): Option<real> {
    var w := DigitPrefix(s);
    var f := FractionDigits(s[|w|..]);
    if |w| + |f| == 0 then None else Some(DigitsValue(w) as real + FractionValue(f))
  }

  /** The digits `parseFloat` reads after the whole part: those following a leading point. */
  function FractionDigits(rest: string): (f: string)
    ensures AllDigits(f)
  {
    if |rest| > 0 && rest[0] == '.' then DigitPrefix(rest[1..]) else []
  }

  /** JavaScript's `parseFloat` on text without leading blanks, exponent or `Infinity`. */
  function ParseFloat(s: string): (v: Option<real>)
    ensures s == [] ==> v.None?
    ensures v.Some? && s[0] != '-' ==> v.value >= 0.0
    ensures v.Some? && s[0] == '-' ==> v.value <= 0.0
  {
    ParseUnsignedNonNegative(s);
    ParseUnsignedNonNegative(if s == [] then s else s[1..]);
    if |s| > 0 && (s[0] == '-' || s[0] == '+') then
      match ParseUnsigned(s[1..])
      case None => None
      case Some(v) => Some(if s[0] == '-' then -v else v)
    else
      ParseUnsigned(s)
  }

  /** A numeral `whole[.frac]`; an empty `frac` means the point is not written. */
  datatype Numeral = Numeral(whole: string, frac: string) {
    predicate Valid() {
      |whole| > 0 && AllDigits(whole) && AllDigits(frac)
    }
  }

  type FixedNumeral = n: Numeral | n.Valid() witness Numeral("0", [])

  function Show(n: Numeral): string {
    n.whole + (if n.frac == [] then [] else "." + n.frac)
  }

  /** A body with a leading minus sign when `negative` holds. */
  function Signed(negative: bool, body: string): string {
    (if negative then "-" else "") + body
  }

  function NumeralValue(n: FixedNumeral): real {
    DigitsValue(n.whole) as real + FractionValue(n.frac)
  }

  /** The longest prefix of `s` that does not end in '0'. */
  function DropTrailingZeros(s: string): (r: string)
    ensures r <= s
    ensures r == [] || r[|r| - 1] != '0'
    ensures forall i | |r| <= i < |s| :: s[i] == '0'
  {
    if |s| > 0 && s[|s| - 1] == '0' then DropTrailingZeros(s[..|s| - 1]) else s
  }

  /** The same numeral without redundant zeros after the point. */
  function Canonical(n: FixedNumeral): FixedNumeral {
    Numeral(n.whole, DropTrailingZeros(n.frac))
  }

  /** `^\d*\.?\d*$`: digits, at most one point, digits. */
  predicate AmountPattern(s: string) {
    var w := DigitPrefix(s);
    var rest := s[|w|..];
    rest == [] || (rest[0] == '.' && AllDigits(rest[1..]))
  }

  /** The number of points in `s` (`(value.match(/\./g) || []).length`). */
  function DotCount(s: string): nat {
    if s == [] then 0 else (if s[0] == '.' then 1 else 0) + DotCount(s[1..])
  }

  predicate DigitsAndDots(s: string) {
    forall i | 0 <= i < |s| :: IsDigit(s[i]) || s[i] == '.'
  }

  // ---------------------------------------------------------------------------
  // Lemmas
  // ---------------------------------------------------------------------------

  /** A digit run followed by a non-digit (or nothing) is exactly the digit prefix. */
  lemma {:induction false} DigitPrefixOf(ds: string, t: string)
    requires AllDigits(ds)
    requires t == [] || !IsDigit(t[0])
    ensures DigitPrefix(ds + t) == ds
  {
    if ds != [] {
      assert (ds + t)[1..] == ds[1..] + t;
      DigitPrefixOf(ds[1..], t);
    } else {
      assert ds + t == t;
    }
  }

  /** Appending a zero after the point does not change the value of a fraction. */
  lemma {:induction false} FractionAppendZero(f: string)
    requires AllDigits(f)
    ensures AllDigits(f + "0")
    ensures FractionValue(f + "0") == FractionValue(f)
  {
    var g := f + "0";
    if f != [] {
      assert g[0] == f[0] && g[1..] == f[1..] + "0";
      FractionAppendZero(f[1..]);
    } else {
      assert g[1..] == [];
    }
  }

  /** Dropping trailing zeros after the point keeps the value of the fraction. */
  lemma {:induction false} DropTrailingZerosValue(f: string)
    requires AllDigits(f)
    ensures AllDigits(DropTrailingZeros(f))
    ensures FractionValue(DropTrailingZeros(f)) == FractionValue(f)
  {
    if |f| > 0 && f[|f| - 1] == '0' {
      var g := f[..|f| - 1];
      assert f == g + "0";
      DropTrailingZerosValue(g);
      FractionAppendZero(g);
    }
  }

  /** Canonicalising a numeral keeps its value. */
  lemma CanonicalValue(n: FixedNumeral)
    ensures NumeralValue(Canonical(n)) == NumeralValue(n)
  {
    DropTrailingZerosValue(n.frac);
  }

  /** Text that cannot extend a numeral: nothing, or a first character that is neither a digit nor a point. */
  predicate Stops(t: string) {
    t == [] || (!IsDigit(t[0]) && t[0] != '.')
  }

  /** `parseFloat` on text whose whole part and fraction digits are known. */
  lemma ParseUnsignedParts(s: string, w: string, f: string)
    requires AllDigits(w) && AllDigits(f) && |w| > 0
    requires DigitPrefix(s) == w && FractionDigits(s[|w|..]) == f
    ensures ParseUnsigned(s) == Some(DigitsValue(w) as real + FractionValue(f))
  {
  }

  /** The whole part of a printed numeral is its digit prefix; what follows is the rest. */
  lemma ShowSplits(n: FixedNumeral, t: string)
    requires Stops(t)
    ensures var rest: string := (if n.frac == [] then [] else "." + n.frac) + t;
            DigitPrefix(Show(n) + t) == n.whole && (Show(n) + t)[|n.whole|..] == rest
  {
    var rest: string := (if n.frac == [] then [] else "." + n.frac) + t;
    assert Show(n) + t == n.whole + rest;
    DigitPrefixOf(n.whole, rest);
  }

  /** After the whole part, `parseFloat` reads exactly the written fraction digits. */
  lemma FractionOfShow(n: FixedNumeral, t: string)
    requires Stops(t)
    ensures FractionDigits((if n.frac == [] then [] else "." + n.frac) + t) == n.frac
  {
    var rest: string := (if n.frac == [] then [] else "." + n.frac) + t;
    if n.frac != [] {
      assert rest[1..] == n.frac + t;
      DigitPrefixOf(n.frac, t);
    }
  }

  /** Reading an unsigned numeral back yields its value, whatever non-numeric text follows it. */
  lemma ParseUnsignedNumeral(n: FixedNumeral, t: string)
    requires Stops(t)
    ensures ParseUnsigned(Show(n) + t) == Some(NumeralValue(n))
  {
    ShowSplits(n, t);
    FractionOfShow(n, t);
    ParseUnsignedParts(Show(n) + t, n.whole, n.frac);
  }

  /** `parseFloat` on text that starts with neither sign is the unsigned reading. */
  lemma ParseFloatUnsigned(s: string)
    requires s == [] || (s[0] != '-' && s[0] != '+')
    ensures ParseFloat(s) == ParseUnsigned(s)
  {
  }

  /** `parseFloat` on a leading minus negates the unsigned reading of the rest. */
  lemma ParseFloatMinus(s: string, v: real)
    requires ParseUnsigned(s) == Some(v)
    ensures ParseFloat("-" + s) == Some(-v)
  {
    assert ("-" + s)[1..] == s;
  }

  lemma ParseShowUnsigned(n: FixedNumeral)
    ensures ParseUnsigned(Show(n)) == Some(NumeralValue(n))
  {
    ParseUnsignedNumeral(n, []);
    assert Show(n) + [] == Show(n);
  }

  lemma ParseShowPositive(n: FixedNumeral)
    ensures ParseFloat(Show(n)) == Some(NumeralValue(n))
  {
    ParseShowUnsigned(n);
    assert Show(n)[0] == n.whole[0];
    ParseFloatUnsigned(Show(n));
  }

  lemma ParseShowNegative(n: FixedNumeral)
    ensures ParseFloat("-" + Show(n)) == Some(-NumeralValue(n))
  {
    ParseShowUnsigned(n);
    ParseFloatMinus(Show(n), NumeralValue(n));
  }

  /** `parseFloat` reads back exactly the value of a (signed) numeral. */
  lemma ParseSignedNumeral(negative: bool, n: FixedNumeral)
    ensures ParseFloat(Signed(negative, Show(n)))
            == Some(if negative then -NumeralValue(n) else NumeralValue(n))
  {
    if negative {
      assert Signed(negative, Show(n)) == "-" + Show(n);
      ParseShowNegative(n);
    } else {
      assert Signed(negative, Show(n)) == Show(n);
      ParseShowPositive(n);
    }
  }

  /** A numeral printed without a sign matches the amount-field pattern. */
  lemma ShowMatchesAmountPattern(n: FixedNumeral)
    ensures AmountPattern(Show(n))
  {
    var tail: string := if n.frac == [] then [] else "." + n.frac;
    assert Show(n) == n.whole + tail;
    DigitPrefixOf(n.whole, tail);
    assert Show(n)[|n.whole|..] == tail;
    if n.frac != [] {
      assert tail[1..] == n.frac;
    }
  }

  lemma {:induction false} NoDotsAllDigits(s: string)
    requires DigitsAndDots(s) && DotCount(s) == 0
    ensures AllDigits(s)
  {
    if s != [] {
      NoDotsAllDigits(s[1..]);
      assert forall i | 1 <= i < |s| :: s[i] == s[1..][i - 1];
    }
  }

  lemma {:induction false} AllDigitsNoDots(s: string)
    requires AllDigits(s)
    ensures DigitsAndDots(s) && DotCount(s) == 0
  {
    if s != [] {
      AllDigitsNoDots(s[1..]);
    }
  }

  /**
    The pattern `^\d*\.?\d*$` accepts exactly the texts made of digits and points with at
    most one point; so the hook's separate "at most one point" test never rejects anything.
  */
  lemma {:induction false} AmountPatternIff(s: string)
    ensures AmountPattern(s) <==> DigitsAndDots(s) && DotCount(s) <= 1
  {
    if s == [] {
    } else if IsDigit(s[0]) {
      AmountPatternIff(s[1..]);
      assert DigitPrefix(s) == [s[0]] + DigitPrefix(s[1..]);
      assert s[|DigitPrefix(s)|..] == s[1..][|DigitPrefix(s[1..])|..];
      assert DigitsAndDots(s) <==> DigitsAndDots(s[1..]) by {
        assert forall i | 1 <= i < |s| :: s[i] == s[1..][i - 1];
      }
    } else {
      assert DigitPrefix(s) == [];
      assert s[|DigitPrefix(s)|..] == s;
      if s[0] == '.' && AllDigits(s[1..]) {
        AllDigitsNoDots(s[1..]);
        assert forall i | 1 <= i < |s| :: s[i] == s[1..][i - 1];
      }
      if DigitsAndDots(s) && DotCount(s) <= 1 {
        assert s[0] == '.';
        assert DigitsAndDots(s[1..]);
        NoDotsAllDigits(s[1..]);
      }
    }
  }

  lemma AmountHasNoSign(s: string)
    requires AmountPattern(s)
    ensures s == [] || (s[0] != '-' && s[0] != '+')
  {
    var w := DigitPrefix(s);
    var rest := s[|w|..];
    assert s == w + rest;
    if s != [] && w == [] {
      assert s[0] == rest[0];
    }
  }

  /** On accepted amount text, the fraction digits are everything after the point. */
  lemma AmountFraction(s: string)
    requires AmountPattern(s)
    ensures var rest := s[|DigitPrefix(s)|..];
            FractionDigits(rest) == if rest == [] then [] else rest[1..]
  {
    var rest := s[|DigitPrefix(s)|..];
    if rest != [] {
      DigitPrefixOf(rest[1..], []);
      assert rest[1..] + [] == rest[1..];
    }
  }

  lemma ParseUnsignedNonNegative(s: string)
    ensures ParseUnsigned(s).Some? ==> ParseUnsigned(s).value >= 0.0
  {
  }

  lemma ParseUnsignedNaNAmount(s: string)
    requires AmountPattern(s)
    ensures ParseUnsigned(s).None? ==> s == [] || s == "."
  {
    var w := DigitPrefix(s);
    var rest := s[|w|..];
    assert s == w + rest;
    AmountFraction(s);
  }

  lemma ParseUnsignedNaNEmpty(s: string)
    requires s == [] || s == "."
    ensures ParseUnsigned(s).None?
  {
    if s == "." {
      assert DigitPrefix(s) == [];
    }
  }

  /**
    On text the amount field accepts, `parseFloat` fails exactly for "" and ".", and never
    yields a negative value.
  */
  lemma ParseAmount(s: string)
    requires AmountPattern(s)
    ensures ParseFloat(s).None? <==> s == [] || s == "."
    ensures ParseFloat(s).Some? ==> ParseFloat(s).value >= 0.0
  {
    AmountHasNoSign(s);
    ParseFloatUnsigned(s);
    ParseUnsignedNonNegative(s);
    ParseUnsignedNaNAmount(s);
    if s == [] || s == "." {
      ParseUnsignedNaNEmpty(s);
    }
  }
}
