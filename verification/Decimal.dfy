/** Decimal digit strings and the numbers they stand for. */
module Decimal {
  import opened Common

  /** Position of the first separator, or the length. */
  function FirstOf(s: Bytes, sep: byte): (i: nat)
    ensures i <= |s| && (i < |s| ==> s[i] == sep) && sep !in s[..i]
  {
    if |s| == 0 then 0 else if s[0] == sep then 0 else 1 + FirstOf(s[1..], sep)
  }

  predicate Digital(s: Bytes) { forall i :: 0 <= i < |s| ==> 48 <= s[i] <= 57 }

  predicate AllDigits(s: Bytes) { |s| > 0 && Digital(s) }

  /** The digits of a text, and the text of digits. */
  function Figures(s: Bytes): (r: seq<nat>)
    requires Digital(s)
    ensures |r| == |s| && Below(r, 10)
  {
    seq(|s|, i requires 0 <= i < |s| => s[i] - 48)
  }

  function Shown(d: seq<nat>): (s: Bytes)
    requires Below(d, 10)
    ensures |s| == |d| && Digital(s)
  {
    seq(|d|, i requires 0 <= i < |d| => 48 + d[i])
  }

  function DigitsValue(s: Bytes): nat
    requires Digital(s)
  {
    Number(Figures(s), 10)
  }

  lemma NoDigits()
    ensures DigitsValue([]) == 0 && Pow(10, 0) == 1
  {
  }

  lemma DigitsPush(s: Bytes, d: byte)
    requires Digital(s) && 48 <= d <= 57
    ensures Digital(s + [d]) && DigitsValue(s + [d]) == DigitsValue(s) * 10 + (d - 48)
  {
    hide Number;
    NumberAppend(Figures(s), d - 48, 10);
    assert Figures(s + [d]) == Figures(s) + [d - 48];
  }

  /** The value of a text from the value of all but its last digit. */
  lemma DigitsSplit(s: Bytes)
    requires AllDigits(s)
    ensures DigitsValue(s) == DigitsValue(s[..|s| - 1]) * 10 + (s[|s| - 1] - 48)
  {
    hide DigitsValue;
    DigitsPush(s[..|s| - 1], s[|s| - 1]);
    assert s == s[..|s| - 1] + [s[|s| - 1]];
  }

  lemma {:induction false} FirstOfJoin(a: Bytes, sep: byte, b: Bytes)
    requires sep !in a
    ensures FirstOf(a + [sep] + b, sep) == |a| && FirstOf(a, sep) == |a|
  {
    if |a| == 0 {
    } else {
      FirstOfJoin(a[1..], sep, b);
      assert (a + [sep] + b)[1..] == a[1..] + [sep] + b;
    }
  }

  /** n in `width` decimal digits. */
  function Padded(n: nat, width: nat): (s: Bytes)
    ensures |s| == width && Digital(s)
  {
    Shown(Digits(n, 10, width))
  }

  lemma PaddedSplit(n: nat, width: nat)
    requires width >= 1
    ensures Padded(n, width) == Padded(n / 10, width - 1) + [48 + n % 10]
  {
  }

  lemma PaddedValue(n: nat, width: nat)
    requires n < Pow(10, width)
    ensures DigitsValue(Padded(n, width)) == n
  {
    hide Digits, Number, Pow;
    NumberOfDigits(n, 10, width);
    assert Figures(Padded(n, width)) == Digits(n, 10, width);
  }

  /** The usual decimal text of a number, without leading zeros. */
  function Text(n: nat): (s: Bytes)
    ensures AllDigits(s) && (s[0] == 48 ==> n == 0) && (n == 0 ==> s == [48])
  {
    if n < 10 then [48 + n] else Text(n / 10) + [48 + n % 10]
  }

  lemma {:induction false} TextValue(n: nat)
    ensures DigitsValue(Text(n)) == n
  {
    hide DigitsValue;
    if n < 10 {
      NoDigits();
      DigitsPush([], 48 + n);
      assert [] + [48 + n] == Text(n);
    } else {
      TextValue(n / 10);
      DigitsPush(Text(n / 10), 48 + n % 10);
    }
  }

  lemma TenTimes(n: nat)
    ensures Pow(10, n + 1) == Pow(10, n) * 10
  {
  }

  lemma {:induction false} DigitsAppend(a: Bytes, b: Bytes)
    requires Digital(a) && Digital(b)
    ensures Digital(a + b) && DigitsValue(a + b) == DigitsValue(a) * Pow(10, |b|) + DigitsValue(b)
    decreases |b|
  {
    hide DigitsValue, Pow;
    if |b| == 0 {
      NoDigits();
      assert a + b == a && b == [];
    } else {
      var init, last := b[..|b| - 1], b[|b| - 1];
      TenTimes(|init|);
      DigitsAppend(a, init);
      DigitsPush(a + init, last);
      DigitsPush(init, last);
      assert a + b == a + init + [last] && b == init + [last];
      Horner(DigitsValue(a), DigitsValue(init), last - 48, Pow(10, |init|), 10);
    }
  }

  lemma DigitsBound(s: Bytes)
    requires Digital(s)
    ensures DigitsValue(s) < Pow(10, |s|)
  {
    NumberBound(Figures(s), 10);
  }

  /** Texts of one length with one value are the same. */
  lemma SameDigits(x: Bytes, y: Bytes)
    requires Digital(x) && Digital(y) && |x| == |y| && DigitsValue(x) == DigitsValue(y)
    ensures x == y
  {
    hide Number, Digits;
    DigitsOfNumber(Figures(x), 10);
    DigitsOfNumber(Figures(y), 10);
    forall i | 0 <= i < |x| ensures x[i] == y[i] { assert Figures(x)[i] == Figures(y)[i]; }
  }

  lemma {:induction false} LeadingDigit(s: Bytes)
    requires AllDigits(s) && s[0] != 48
    ensures DigitsValue(s) >= 1
  {
    hide DigitsValue;
    DigitsSplit(s);
    if |s| <= 1 {
    } else {
      LeadingDigit(s[..|s| - 1]);
    }
  }

  /** A digit string without a leading zero is the text of its value. */
  lemma {:induction false} TextUnique(s: Bytes)
    requires AllDigits(s) && s[0] != 48
    ensures s == Text(DigitsValue(s))
  {
    hide DigitsValue;
    var init, last := s[..|s| - 1], s[|s| - 1];
    DigitsSplit(s);
    if |s| == 1 {
      NoDigits();
      assert init == [];
    } else {
      TextUnique(init);
      LeadingDigit(init);
      assert s == init + [last];
    }
  }

  /** strings.TrimLeft(s, "0"). */
  function TrimLeft(s: Bytes): (r: Bytes)
    requires Digital(s)
    ensures Digital(r) && (|r| > 0 ==> r[0] != 48)
  {
    if |s| > 0 && s[0] == 48 then TrimLeft(s[1..]) else s
  }

  lemma {:induction false} TrimLeftValue(s: Bytes)
    requires Digital(s)
    ensures DigitsValue(TrimLeft(s)) == DigitsValue(s)
  {
    if |s| == 0 || s[0] != 48 {
    } else {
      TrimLeftValue(s[1..]);
      DigitsAppend([48], s[1..]);
      assert [48] + s[1..] == s;
      ZeroDigit();
    }
  }

  lemma ZeroDigit()
    ensures DigitsValue([48]) == 0
  {
    hide DigitsValue;
    NoDigits();
    DigitsPush([], 48);
    assert [] + [48] == [48];
  }

  /** Trimming zeros, with "0" for nothing left, gives the text of the value. */
  lemma TrimLeftText(s: Bytes)
    requires Digital(s)
    ensures (if TrimLeft(s) == [] then [48] else TrimLeft(s)) == Text(DigitsValue(s))
  {
    TrimLeftValue(s);
    if TrimLeft(s) != [] { TextUnique(TrimLeft(s)); }
  }

  function Zeros(n: nat): (z: Bytes)
    ensures |z| == n && Digital(z)
  {
    seq(n, _ => 48)
  }

  lemma {:induction false} ZerosValue(n: nat)
    ensures DigitsValue(Zeros(n)) == 0
  {
    hide DigitsValue;
    if n == 0 {
      NoDigits();
      assert Zeros(0) == [];
    } else {
      ZerosValue(n - 1);
      DigitsPush(Zeros(n - 1), 48);
      assert Zeros(n) == Zeros(n - 1) + [48];
    }
  }

  /** strings.TrimRight(s, "0"). */
  function TrimRight(s: Bytes): (r: Bytes)
    requires Digital(s)
    ensures Digital(r) && |r| <= |s| && (|r| > 0 ==> r[|r| - 1] != 48)
    ensures s == r + Zeros(|s| - |r|)
  {
    if |s| > 0 && s[|s| - 1] == 48 then
      var r := TrimRight(s[..|s| - 1]);
      assert s == s[..|s| - 1] + [48];
      assert Zeros(|s| - |r|) == Zeros(|s| - 1 - |r|) + [48];
      r
    else s
  }

  /** A numeral padded to a width is its text behind zeros. */
  lemma {:induction false} PaddedIsText(n: nat, width: nat)
    requires n < Pow(10, width) && width >= 1
    ensures |Text(n)| <= width && Padded(n, width) == Zeros(width - |Text(n)|) + Text(n)
    decreases width
  {
    hide Padded;
    if n < 10 {
      PaddedSmall(n, width);
    } else {
      assert Pow(10, 0) == 1;
      PaddedIsText(n / 10, width - 1);
      PaddedSplit(n, width);
    }
  }

  lemma {:induction false} PaddedSmall(n: nat, width: nat)
    requires n < 10 && width >= 1
    ensures Padded(n, width) == Zeros(width - 1) + [48 + n]
  {
    hide Padded;
    PaddedSplit(n, width);
    if width == 1 {
      assert |Padded(0, 0)| == 0;
    } else {
      PaddedSmall(0, width - 1);
      assert Zeros(width - 1) == Zeros(width - 2) + [48];
    }
  }
}
