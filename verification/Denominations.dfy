/** Exact conversion between display and base units. */
module Denominations {
  import opened Common
  import opened Decimal

  const DEFAULT_EXPONENT: nat := 6
  const DOT: byte := 46

  datatype DenomError = InvalidAmount | TooManyDigits

  // White space as Unicode defines it, in UTF-8: one octet, two (U+0085, U+00A0) or three.

  predicate Space1(a: byte) { 9 <= a <= 13 || a == 32 }

  predicate Space2(a: byte, b: byte) { a == 0xC2 && (b == 0x85 || b == 0xA0) }

  predicate Space3(a: byte, b: byte, c: byte) {
    || (a == 0xE1 && b == 0x9A && c == 0x80)
    || (a == 0xE2 && b == 0x80 && (0x80 <= c <= 0x8A || c == 0xA8 || c == 0xA9 || c == 0xAF))
    || (a == 0xE2 && b == 0x81 && c == 0x9F)
    || (a == 0xE3 && b == 0x80 && c == 0x80)
  }

  /** How many octets of white space a text starts with, one character at most. */
  function SpaceBefore(s: Bytes): (n: nat)
    ensures n <= |s|
  {
    if |s| >= 1 && Space1(s[0]) then 1
    else if |s| >= 2 && Space2(s[0], s[1]) then 2
    else if |s| >= 3 && Space3(s[0], s[1], s[2]) then 3
    else 0
  }

  /** The same at the end. */
  function SpaceAfter(s: Bytes): (n: nat)
    ensures n <= |s|
  {
    var k := |s|;
    if k >= 1 && Space1(s[k - 1]) then 1
    else if k >= 2 && Space2(s[k - 2], s[k - 1]) then 2
    else if k >= 3 && Space3(s[k - 3], s[k - 2], s[k - 1]) then 3
    else 0
  }

  /** strings.TrimSpace, and Rust's trim, which agree on what white space is. */
  function TrimSpace(s: Bytes): Bytes {
    if SpaceBefore(s) > 0 then TrimSpace(s[SpaceBefore(s)..])
    else if SpaceAfter(s) > 0 then TrimSpace(s[..|s| - SpaceAfter(s)])
    else s
  }

  /** Whole and fractional digits of a text matching ^\d+(\.\d+)?$. */
  function DecimalParts(s: Bytes): (r: Option<(Bytes, Bytes)>)
    ensures r.Some? ==> AllDigits(r.value.0) && Digital(r.value.1)
  {
    var i := FirstOf(s, DOT);
    if i == |s| then if AllDigits(s) then Some((s, [])) else None
    else if AllDigits(s[..i]) && AllDigits(s[i + 1..]) then Some((s[..i], s[i + 1..]))
    else None
  }

  function Exponent(e: int): (r: nat)
    ensures r >= 1
  {
    if e <= 0 then DEFAULT_EXPONENT else e
  }

  /** QorToUqor. */
  function QorToUqor(amount: Bytes, exponent: int): (r: Result<Bytes, DenomError>) {
    var e := Exponent(exponent);
    match DecimalParts(TrimSpace(amount))
    case None => Err(InvalidAmount)
    case Some((whole, frac)) =>
      if |frac| > e then Err(TooManyDigits)
      else
        var combined := TrimLeft(whole + frac + Zeros(e - |frac|));
        Ok(if combined == [] then [48] else combined)
  }

  /** UqorToQor on the value of its argument. */
  function QorText(value: nat, e: nat): Bytes
    requires e >= 1
  {
    hide Pow, Text, Padded;
    var base := Pow(10, e);
    var whole, frac := value / base, value % base;
    if frac == 0 then Text(whole)
    else
      PaddedIsText(frac, e);
      Text(whole) + [DOT] + TrimRight(Zeros(e - |Text(frac)|) + Text(frac))
  }

  function UqorToQor(amount: Bytes, exponent: int): (r: Result<Bytes, DenomError>) {
    var t := TrimSpace(amount);
    if !AllDigits(t) then Err(InvalidAmount) else Ok(QorText(DigitsValue(t), Exponent(exponent)))
  }

  // ---------------------------------------------------------------------------
  // Both conversions are exact

  /** The base units a decimal stands for, when it has at most e fractional digits. */
  function BaseUnits(whole: Bytes, frac: Bytes, e: nat): nat
    requires Digital(whole) && Digital(frac) && |frac| <= e
  {
    DigitsValue(whole) * Pow(10, e) + DigitsValue(frac) * Pow(10, e - |frac|)
  }

  lemma {:induction false} PowerSum(a: nat, b: nat)
    ensures Pow(10, a + b) == Pow(10, a) * Pow(10, b)
  {
    if b == 0 {
    } else {
      PowerSum(a, b - 1);
      MulAssoc(Pow(10, a), Pow(10, b - 1), 10);
    }
  }

  lemma CombinedValue(whole: Bytes, frac: Bytes, e: nat)
    requires Digital(whole) && Digital(frac) && |frac| <= e
    ensures Digital(whole + frac + Zeros(e - |frac|))
    ensures DigitsValue(whole + frac + Zeros(e - |frac|)) == BaseUnits(whole, frac, e)
  {
    hide DigitsValue, Pow, Digital;
    var k := e - |frac|;
    DigitsAppend(whole, frac);
    DigitsAppend(whole + frac, Zeros(k));
    ZerosValue(k);
    PowerSum(|frac|, k);
    var w, f, p, q := DigitsValue(whole), DigitsValue(frac), Pow(10, |frac|), Pow(10, k);
    Horner(w, f, 0, p, q);
  }

  /** The base-unit text is the canonical text of exactly the amount written. */
  lemma QorToUqorExact(amount: Bytes, exponent: int)
    ensures QorToUqor(amount, exponent) ==
      match DecimalParts(TrimSpace(amount))
      case None => Err(InvalidAmount)
      case Some((whole, frac)) =>
        if |frac| > Exponent(exponent) then Err(TooManyDigits)
        else Ok(Text(BaseUnits(whole, frac, Exponent(exponent))))
  {
    hide DecimalParts, TrimSpace, TrimLeft, BaseUnits, Text, DigitsValue;
    var parts := DecimalParts(TrimSpace(amount));
    if parts.Some? {
      var (whole, frac) := parts.value;
      if |frac| <= Exponent(exponent) {
        CombinedValue(whole, frac, Exponent(exponent));
        TrimLeftText(whole + frac + Zeros(Exponent(exponent) - |frac|));
      }
    }
  }

  /** The parts of the display text: canonical digits whose base units are the value. */
  lemma QorTextParts(value: nat, e: nat)
    requires e >= 1
    ensures TrimSpace(QorText(value, e)) == QorText(value, e)
    ensures DecimalParts(QorText(value, e)).Some?
    ensures var (whole, frac) := DecimalParts(QorText(value, e)).value;
            && Canonical(whole, frac) && |frac| <= e && BaseUnits(whole, frac, e) == value
  {
    hide DigitsValue, Pow, Text, Padded, TrimRight, TrimSpace, DecimalParts;
    var w, f := value / Pow(10, e), value % Pow(10, e);
    assert value == w * Pow(10, e) + f;
    TextValue(w);
    TextCanonical(w);
    if f == 0 {
      NoDot(Text(w));
      LastDigit([]);
    } else {
      PaddedIsText(f, e);
      PaddedValue(f, e);
      TrimmedFraction(Padded(f, e), e);
      OneDot(Text(w), TrimRight(Padded(f, e)));
    }
  }

  lemma TextCanonical(n: nat)
    ensures AllDigits(Text(n)) && (Text(n)[0] != 48 || |Text(n)| == 1)
  {
  }

  lemma NothingToTrim(s: Bytes)
    requires |s| > 0 && 33 <= s[0] < 128 && 33 <= s[|s| - 1] < 128
    ensures TrimSpace(s) == s
  {
    hide SpaceBefore, SpaceAfter;
    NoSpaceAround(s);
  }

  lemma NoSpaceAround(s: Bytes)
    requires |s| > 0 && 33 <= s[0] < 128 && 33 <= s[|s| - 1] < 128
    ensures SpaceBefore(s) == 0 && SpaceAfter(s) == 0
  {
    hide TrimSpace;
  }

  lemma NoDot(s: Bytes)
    requires AllDigits(s)
    ensures TrimSpace(s) == s && DecimalParts(s) == Some((s, []))
  {
    hide TrimSpace, FirstOf;
    NothingToTrim(s);
    assert DOT !in s;
    FirstOfJoin(s, DOT, []);
  }

  lemma OneDot(a: Bytes, b: Bytes)
    requires AllDigits(a) && AllDigits(b)
    ensures TrimSpace(a + [DOT] + b) == a + [DOT] + b
    ensures DecimalParts(a + [DOT] + b) == Some((a, b))
  {
    hide TrimSpace, FirstOf;
    var s := a + [DOT] + b;
    assert DOT !in a;
    FirstOfJoin(a, DOT, b);
    assert s[..|a|] == a && s[|a| + 1..] == b;
    assert s[0] == a[0] && s[|s| - 1] == b[|b| - 1];
    NothingToTrim(s);
  }

  lemma TrimmedFraction(padded: Bytes, e: nat)
    requires Digital(padded) && |padded| == e && DigitsValue(padded) > 0
    ensures var frac := TrimRight(padded);
            AllDigits(frac) && NoTrailingZero(frac) && DigitsValue(frac) * Pow(10, e - |frac|) == DigitsValue(padded)
  {
    hide DigitsValue, Pow, TrimRight;
    ScaledFraction(TrimRight(padded), e);
    LastDigit([]);
  }

  /** Base to display to base: the canonical text of the amount, whatever zeros it was written with. */
  lemma BaseRoundTrip(amount: Bytes, exponent: int)
    requires AllDigits(TrimSpace(amount))
    ensures UqorToQor(amount, exponent).Ok?
    ensures QorToUqor(UqorToQor(amount, exponent).value, exponent) == Ok(Text(DigitsValue(TrimSpace(amount))))
  {
    hide QorText, DecimalParts, TrimSpace, BaseUnits, Text, QorToUqor;
    var v, e := DigitsValue(TrimSpace(amount)), Exponent(exponent);
    QorTextParts(v, e);
    QorToUqorExact(QorText(v, e), exponent);
  }

  /** A display text without superfluous zeros. */
  predicate Canonical(whole: Bytes, frac: Bytes) {
    AllDigits(whole) && Digital(frac) && (whole[0] != 48 || |whole| == 1) && NoTrailingZero(frac)
  }

  lemma FractionBelow(frac: Bytes, e: nat)
    requires Digital(frac) && |frac| <= e
    ensures DigitsValue(frac) * Pow(10, e - |frac|) < Pow(10, e)
  {
    hide DigitsValue, Pow;
    DigitsBound(frac);
    PowerSum(|frac|, e - |frac|);
    MulMonotone(DigitsValue(frac) + 1, Pow(10, |frac|), Pow(10, e - |frac|));
  }

  lemma CanonicalWhole(whole: Bytes)
    requires AllDigits(whole) && (whole[0] != 48 || |whole| == 1)
    ensures whole == Text(DigitsValue(whole))
  {
    if whole[0] != 48 {
      TextUnique(whole);
    } else {
      assert whole == [48];
      ZeroDigit();
    }
  }

  predicate NoTrailingZero(f: Bytes) { |f| > 0 ==> f[|f| - 1] != 48 }

  lemma TrimOneZero(s: Bytes)
    requires Digital(s)
    ensures Digital(s + [48]) && TrimRight(s + [48]) == TrimRight(s)
  {
    assert (s + [48])[..|s|] == s;
  }

  lemma NothingTrimmed(s: Bytes)
    requires Digital(s) && NoTrailingZero(s)
    ensures TrimRight(s) == s
  {
  }

  lemma {:induction false} TrimRightBack(f: Bytes, k: nat)
    requires Digital(f) && NoTrailingZero(f)
    ensures Digital(f + Zeros(k)) && TrimRight(f + Zeros(k)) == f
  {
    hide TrimRight;
    if k == 0 {
      assert f + Zeros(0) == f;
      NothingTrimmed(f);
    } else {
      TrimRightBack(f, k - 1);
      TrimOneZero(f + Zeros(k - 1));
      assert f + Zeros(k) == f + Zeros(k - 1) + [48];
    }
  }

  lemma ScaledFraction(f: Bytes, e: nat)
    requires Digital(f) && |f| <= e
    ensures Digital(f + Zeros(e - |f|)) && DigitsValue(f + Zeros(e - |f|)) == DigitsValue(f) * Pow(10, e - |f|)
  {
    hide DigitsValue, Pow;
    DigitsAppend(f, Zeros(e - |f|));
    ZerosValue(e - |f|);
  }

  /** A fraction without trailing zeros is recovered from its value at scale e. */
  lemma CanonicalFraction(f: Bytes, padded: Bytes, e: nat)
    requires Digital(f) && |f| <= e && NoTrailingZero(f)
    requires Digital(padded) && |padded| == e && DigitsValue(padded) == DigitsValue(f) * Pow(10, e - |f|)
    ensures TrimRight(padded) == f
  {
    hide DigitsValue, Pow, TrimRight;
    ScaledFraction(f, e);
    SameDigits(f + Zeros(e - |f|), padded);
    TrimRightBack(f, e - |f|);
  }

  /** Display to base to display: a canonical amount comes back as it was written. */
  lemma DisplayRoundTrip(whole: Bytes, frac: Bytes, exponent: int)
    requires Canonical(whole, frac) && |frac| <= Exponent(exponent)
    ensures var amount := if frac == [] then whole else whole + [DOT] + frac;
            && QorToUqor(amount, exponent).Ok?
            && UqorToQor(QorToUqor(amount, exponent).value, exponent) == Ok(amount)
  {
    var amount, e := if frac == [] then whole else whole + [DOT] + frac, Exponent(exponent);
    if frac == [] { NoDot(whole); } else { OneDot(whole, frac); }
    QorToUqorExact(amount, exponent);
    var v := BaseUnits(whole, frac, e);
    NoDot(Text(v));
    TextValue(v);
    CanonicalText(whole, frac, e);
  }

  lemma CanonicalText(whole: Bytes, frac: Bytes, e: nat)
    requires Canonical(whole, frac) && |frac| <= e && e >= 1
    ensures QorText(BaseUnits(whole, frac, e), e) == if frac == [] then whole else whole + [DOT] + frac
  {
    hide DigitsValue, Pow, Text, Padded, TrimRight;
    var low := DigitsValue(frac) * Pow(10, e - |frac|);
    FractionBelow(frac, e);
    CanonicalWhole(whole);
    FractionIsZero(frac, e);
    DivModUnique(DigitsValue(whole), Pow(10, e), low);
    PaddedIsText(low, e);
    PaddedValue(low, e);
    CanonicalFraction(frac, Padded(low, e), e);
  }

  lemma FractionIsZero(frac: Bytes, e: nat)
    requires Digital(frac) && |frac| <= e && NoTrailingZero(frac)
    ensures DigitsValue(frac) * Pow(10, e - |frac|) == 0 <==> frac == []
  {
    LastDigit(frac);
    hide DigitsValue;
    var x, p := DigitsValue(frac), Pow(10, e - |frac|);
    assert x > 0 ==> x * p > 0;
  }

  lemma LastDigit(frac: Bytes)
    requires Digital(frac) && NoTrailingZero(frac)
    ensures DigitsValue(frac) == 0 <==> frac == []
  {
    hide DigitsValue;
    NoDigits();
    if frac != [] { DigitsSplit(frac); }
  }

  // ---------------------------------------------------------------------------
  // What the parts of an amount are

  /** The pattern ^\d+(\.\d+)?$ and its two groups. */
  lemma DecimalPartsExact(s: Bytes, whole: Bytes, frac: Bytes)
    ensures DecimalParts(s) == Some((whole, frac))
       <==> AllDigits(whole) && ((frac == [] && s == whole) || (AllDigits(frac) && s == whole + [DOT] + frac))
  {
    hide TrimSpace, FirstOf;
    if AllDigits(whole) && frac == [] && s == whole {
      NoDot(s);
    } else if AllDigits(whole) && AllDigits(frac) && s == whole + [DOT] + frac {
      OneDot(whole, frac);
    }
  }

  /** A text of white space only. */
  predicate Blank(s: Bytes)
    decreases |s|
  {
    s == [] || (SpaceBefore(s) > 0 && Blank(s[SpaceBefore(s)..]))
  }

  lemma {:induction false} BlankBehind(a: Bytes, b: Bytes)
    requires Blank(a) && Blank(b)
    ensures Blank(a + b)
    decreases |a|
  {
    if a == [] {
      assert a + b == b;
    } else {
      var n := SpaceBefore(a);
      SpaceIsKept(a, b);
      assert (a + b)[n..] == a[n..] + b;
      BlankBehind(a[n..], b);
    }
  }

  lemma SpaceIsKept(a: Bytes, b: Bytes)
    requires SpaceBefore(a) > 0
    ensures SpaceBefore(a + b) == SpaceBefore(a)
  {
  }

  lemma OneSpace(s: Bytes)
    ensures SpaceBefore(s) > 0 ==> Blank(s[..SpaceBefore(s)])
    ensures SpaceAfter(s) > 0 ==> Blank(s[|s| - SpaceAfter(s)..])
  {
    if SpaceBefore(s) > 0 {
      var t := s[..SpaceBefore(s)];
      assert SpaceBefore(t) == |t| && t[|t|..] == [];
    }
    if SpaceAfter(s) > 0 {
      var t := s[|s| - SpaceAfter(s)..];
      assert SpaceBefore(t) == |t| && t[|t|..] == [];
    }
  }

  /** Trimming takes white space off both ends, all of it and nothing else. */
  lemma {:induction false} TrimSpaceExact(s: Bytes) returns (a: Bytes, b: Bytes)
    ensures s == a + TrimSpace(s) + b && Blank(a) && Blank(b)
    ensures SpaceBefore(TrimSpace(s)) == 0 && SpaceAfter(TrimSpace(s)) == 0
    decreases |s|
  {
    hide SpaceBefore, SpaceAfter, Blank;
    NothingIsBlank();
    OneSpace(s);
    if SpaceBefore(s) > 0 {
      var n := SpaceBefore(s);
      a, b := TrimSpaceExact(s[n..]);
      BlankBehind(s[..n], a);
      assert s == (s[..n] + a) + TrimSpace(s) + b;
      a := s[..n] + a;
    } else if SpaceAfter(s) > 0 {
      var n := |s| - SpaceAfter(s);
      a, b := TrimSpaceExact(s[..n]);
      BlankBehind(b, s[n..]);
      assert s == a + TrimSpace(s) + (b + s[n..]);
      b := b + s[n..];
    } else {
      a, b := [], [];
      assert s == [] + s + [];
    }
  }

  lemma NothingIsBlank()
    ensures Blank([])
  {
  }

  /** The octets of white space: tab to carriage return, space, and what lies beyond ASCII. */
  lemma AsciiSpaces(c: byte)
    requires c < 128
    ensures SpaceBefore([c]) == 1 <==> c in {9, 10, 11, 12, 13, 32}
  {
  }

  /** An exponent of zero or less stands for six. */
  lemma ExponentDefault(amount: Bytes, exponent: int)
    requires exponent <= 0
    ensures QorToUqor(amount, exponent) == QorToUqor(amount, 6) && UqorToQor(amount, exponent) == UqorToQor(amount, 6)
  {
    hide TrimSpace, DecimalParts, Text, DigitsValue, QorText, TrimLeft;
  }
}
