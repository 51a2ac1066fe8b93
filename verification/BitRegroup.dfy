/** Regrouping a string of digits of one bit width into digits of another (convertBits). */
module BitRegroup {
  import opened Common

  datatype RegroupError = DataRange | Padding

  /**
   * What convertBits computes, said on numbers: the input is one numeral in base 2^from, the
   * output the same value in base 2^to, either scaled up to a whole number of digits or, without
   * padding, cut to whole digits provided the cut part is short and zero.
   */
  function Regrouped(data: Bytes, from: nat, to: nat, pad: bool): (r: Result<Bytes, RegroupError>)
    requires 1 <= from <= 8 && 1 <= to <= 8
  {
    if exists i :: 0 <= i < |data| && data[i] >= Pow2(from) then Err(DataRange)
    else RegroupedNumber(Number(data, Pow2(from)), from * |data| / to, from * |data| % to, from, to, pad)
  }

  /** The same for a numeral of value n that fills `whole` output digits and `left` more bits. */
  function RegroupedNumber(n: nat, whole: nat, left: nat, from: nat, to: nat, pad: bool)
    : (r: Result<Bytes, RegroupError>)
    requires 1 <= to <= 8 && left < to
  {
    if pad then
      Ok(if left == 0 then ByteDigits(n, to, whole) else ByteDigits(n * Pow2(to - left), to, whole + 1))
    else if left >= from || n % Pow2(left) != 0 then Err(Padding)
    else Ok(ByteDigits(n / Pow2(left), to, whole))
  }

  function ByteDigits(n: nat, w: nat, len: nat): (s: Bytes)
    requires 1 <= w <= 8
  {
    DigitWidth(w);
    Digits(n, Pow2(w), len)
  }

  lemma DigitWidth(w: nat)
    requires w <= 8
    ensures Pow2(w) <= 256
  {
    Pow2Monotone(w, 8);
    assert Pow2(8) == 256;
  }

  /** Shifting one input digit into the masked accumulator keeps every pending bit. */
  lemma ShiftIn(acc: nat, v: nat, bits: nat, from: nat, to: nat)
    requires v < Pow2(from) && bits < to
    ensures (acc * Pow2(from) + v) % Pow2(from + to - 1) % Pow2(bits + from)
         == acc % Pow2(bits) * Pow2(from) + v
  {
    hide Pow2;
    var f, b, rest := Pow2(from), Pow2(bits), Pow2(to - 1 - bits);
    Pow2Add(bits, from);
    Pow2Add(to - 1 - bits, bits + from);
    ModMod(acc * f + v, rest, b * f);
    ShiftedRemainder(acc, v, b, f);
  }

  lemma ShiftedRemainder(acc: nat, v: nat, b: nat, f: nat)
    requires v < f && b > 0
    ensures b * f > 0 && (acc * f + v) % (b * f) == acc % b * f + v
  {
    ModSplit(acc * f + v, b, f);
    DivModUnique(acc, f, v);
  }

  /** Taking the top digit off the pending bits. */
  lemma ShiftOut(acc: nat, bits: nat, to: nat)
    requires to <= bits
    ensures acc % Pow2(bits) == acc / Pow2(bits - to) % Pow2(to) * Pow2(bits - to) + acc % Pow2(bits - to)
  {
    Pow2Add(to, bits - to);
    ModSplit(acc, Pow2(to), Pow2(bits - to));
  }

  /** Left-aligning the pending bits in a last digit. */
  lemma Align(acc: nat, bits: nat, to: nat)
    requires bits <= to
    ensures acc * Pow2(to - bits) % Pow2(to) == acc % Pow2(bits) * Pow2(to - bits)
  {
    var s := Pow2(to - bits);
    Pow2Add(bits, to - bits);
    ModSplit(acc * s, Pow2(bits), s);
    DivModUnique(acc, s, 0);
  }

  /** One emitted digit moves value from the pending bits to the output. */
  lemma EmitKeepsValue(high: nat, d: nat, low: nat, bits: nat, to: nat)
    requires to <= bits
    ensures high * Pow2(bits) + (d * Pow2(bits - to) + low) == (high * Pow2(to) + d) * Pow2(bits - to) + low
  {
    hide Pow2;
    Pow2Add(to, bits - to);
    MulAssoc(high, Pow2(to), Pow2(bits - to));
  }

  ghost predicate Pending(data: Bytes, out: Bytes, acc: nat, bits: nat, from: nat, to: nat) {
    && Below(out, Pow2(to))
    && from * |data| == to * |out| + bits
    && Number(data, Pow2(from)) == Number(out, Pow2(to)) * Pow2(bits) + acc % Pow2(bits)
  }

  lemma OneMore(w: nat, n: nat)
    ensures w * (n + 1) == w * n + w
  {
  }

  lemma PendingIn(data: Bytes, v: byte, out: Bytes, acc: nat, bits: nat, from: nat, to: nat)
    requires Pending(data, out, acc, bits, from, to) && v < Pow2(from) && bits < to
    ensures Pending(data + [v], out, (acc * Pow2(from) + v) % Pow2(from + to - 1), bits + from, from, to)
  {
    hide Pow2, Number, Below;
    NumberAppend(data, v, Pow2(from));
    ShiftIn(acc, v, bits, from, to);
    Horner(Number(out, Pow2(to)), acc % Pow2(bits), v, Pow2(bits), Pow2(from));
    Pow2Add(bits, from);
    OneMore(from, |data|);
  }

  lemma PendingOut(data: Bytes, out: Bytes, acc: nat, bits: nat, from: nat, to: nat, d: byte)
    requires Pending(data, out, acc, bits, from, to) && to <= bits
    requires d == acc / Pow2(bits - to) % Pow2(to)
    ensures Pending(data, out + [d], acc, bits - to, from, to)
  {
    BelowAppend(out, d, Pow2(to));
    hide Pow2, Number, Below;
    ShiftOut(acc, bits, to);
    NumberAppend(out, d, Pow2(to));
    EmitKeepsValue(Number(out, Pow2(to)), d, acc % Pow2(bits - to), bits, to);
    OneMore(to, |out|);
  }

  lemma BelowAppend(s: Bytes, d: byte, base: nat)
    requires Below(s, base) && d < base
    ensures Below(s + [d], base)
  {
  }

  /** The regrouping loop over a masked accumulator (convertBits). */
  method ConvertBits(data: Bytes, from: nat, to: nat, pad: bool) returns (r: Result<Bytes, RegroupError>)
    requires 1 <= from <= 8 && 1 <= to <= 8
    ensures r == Regrouped(data, from, to, pad)
  {
    hide Pow2, Pending, RegroupedNumber;
    var acc: nat, bits: nat, out: Bytes := 0, 0, [];
    PendingStart(from, to);
    DigitWidth(to);
    for i := 0 to |data|
      invariant bits < to
      invariant forall k :: 0 <= k < i ==> data[k] < Pow2(from)
      invariant Pending(data[..i], out, acc, bits, from, to)
    {
      if data[i] >= Pow2(from) {
        return Err(DataRange);
      }
      PendingIn(data[..i], data[i], out, acc, bits, from, to);
      assert data[..i + 1] == data[..i] + [data[i]];
      acc := (acc * Pow2(from) + data[i]) % Pow2(from + to - 1);
      bits := bits + from;
      while bits >= to
        invariant Pending(data[..i + 1], out, acc, bits, from, to)
      {
        var d := acc / Pow2(bits - to) % Pow2(to);
        PendingOut(data[..i + 1], out, acc, bits, from, to, d);
        bits := bits - to;
        out := out + [d];
      }
    }
    assert data[..|data|] == data;
    PendingEnd(data, from, to, out, bits, acc);
    if pad {
      if bits > 0 {
        out := out + [acc * Pow2(to - bits) % Pow2(to)];
      }
    } else if bits >= from || acc * Pow2(to - bits) % Pow2(to) != 0 {
      return Err(Padding);
    }
    return Ok(out);
  }

  lemma PendingStart(from: nat, to: nat)
    ensures Pending([], [], 0, 0, from, to)
  {
    assert from * 0 == 0 && to * 0 == 0;
  }

  /** The loop's final state, read back as the numeric specification. */
  lemma PendingEnd(data: Bytes, from: nat, to: nat, out: Bytes, bits: nat, acc: nat)
    requires 1 <= from <= 8 && 1 <= to <= 8 && bits < to
    requires Pending(data, out, acc, bits, from, to)
    ensures from * |data| / to == |out| && from * |data| % to == bits
    ensures var n, last := Number(data, Pow2(from)), acc * Pow2(to - bits) % Pow2(to);
            && RegroupedNumber(n, |out|, bits, from, to, true) == Ok(if bits > 0 then out + [last] else out)
            && RegroupedNumber(n, |out|, bits, from, to, false)
               == if bits >= from || last != 0 then Err(Padding) else Ok(out)
  {
    hide Pow2, Number, Digits, Below;
    var n, low, s := Number(data, Pow2(from)), acc % Pow2(bits), Pow2(to - bits);
    assert from * |data| / to == |out| && from * |data| % to == bits by {
      assert |out| * to == to * |out|;
      DivModUnique(|out|, to, bits);
    }
    Align(acc, bits, to);
    EndCut(n, out, bits, low, to);
    EndPadded(n, out, bits, low, to);
    assert low * s == 0 <==> low == 0;
  }

  lemma EndCut(n: nat, out: Bytes, bits: nat, low: nat, to: nat)
    requires n == Number(out, Pow2(to)) * Pow2(bits) + low && low < Pow2(bits)
    requires Below(out, Pow2(to))
    ensures n % Pow2(bits) == low && Digits(n / Pow2(bits), Pow2(to), |out|) == out
  {
    DigitsOfNumber(out, Pow2(to));
    hide Pow2, Number, Digits;
    DivModUnique(Number(out, Pow2(to)), Pow2(bits), low);
  }

  lemma EndPadded(n: nat, out: Bytes, bits: nat, low: nat, to: nat)
    requires n == Number(out, Pow2(to)) * Pow2(bits) + low && low < Pow2(bits)
    requires Below(out, Pow2(to)) && bits <= to
    ensures bits == 0 ==> Digits(n, Pow2(to), |out|) == out
    ensures Digits(n * Pow2(to - bits), Pow2(to), |out| + 1) == out + [low * Pow2(to - bits)]
  {
    var high, t, b, s := Number(out, Pow2(to)), Pow2(to), Pow2(bits), Pow2(to - bits);
    assert bits == 0 ==> b == 1;
    DigitsOfNumber(out, t);
    Pow2Add(bits, to - bits);
    hide Pow2, Number;
    Scale(high, b, low, s);
    DivModUnique(high, t, low * s);
  }

  lemma Scale(high: nat, b: nat, low: nat, s: nat)
    requires low < b && s > 0
    ensures (high * b + low) * s == high * (b * s) + low * s && low * s < b * s
  {
    MulAssoc(high, b, s);
    MulMonotone(low + 1, b, s);
  }

  // ---------------------------------------------------------------------------
  // Bytes to quintets and back

  lemma {:induction false} PowerOfBytes(len: nat)
    ensures Pow(256, len) == Pow2(8 * len)
  {
    if len == 0 {
    } else {
      PowerOfBytes(len - 1);
      Pow2Add(8 * (len - 1), 8);
      assert Pow2(8) == 256;
    }
  }

  lemma {:induction false} PowerOfQuintets(len: nat)
    ensures Pow(32, len) == Pow2(5 * len)
  {
    if len == 0 {
    } else {
      PowerOfQuintets(len - 1);
      Pow2Add(5 * (len - 1), 5);
      assert Pow2(5) == 32;
    }
  }

  lemma Widths()
    ensures Pow2(8) == 256 && Pow2(5) == 32 && Pow2(0) == 1
  {
  }

  /** A multiple of 2^p, and back. */
  lemma ExactShift(n: nat, p: nat)
    ensures n * Pow2(p) % Pow2(p) == 0 && n * Pow2(p) / Pow2(p) == n
  {
    hide Pow2;
    DivModUnique(n, Pow2(p), 0);
  }

  /** Scaling by 2^p trades p bits of width. */
  lemma ScaledBound(n: nat, a: nat, p: nat)
    ensures n * Pow2(p) < Pow2(a + p) <==> n < Pow2(a)
  {
    Pow2Add(a, p);
    hide Pow2;
    var x, y := Pow2(a), Pow2(p);
    assert n < x ==> (n + 1) * y <= x * y by { if n < x { MulMonotone(n + 1, x, y); } }
    assert n >= x ==> n * y >= x * y by { if n >= x { MulMonotone(x, n, y); } }
    assert (n + 1) * y == n * y + y;
  }

  /** How many quintets n bytes take, and how many zero bits end the last one. */
  function QuintetCount(n: nat): nat { (8 * n + 4) / 5 }

  function PadBits(n: nat): (p: nat)
    ensures p < 5
  {
    5 * QuintetCount(n) - 8 * n
  }

  lemma ByteLengths(n: nat)
    ensures var whole, left := 8 * n / 5, 8 * n % 5;
            && (left == 0 ==> QuintetCount(n) == whole && PadBits(n) == 0)
            && (left != 0 ==> QuintetCount(n) == whole + 1 && PadBits(n) == 5 - left)
    ensures 5 * QuintetCount(n) / 8 == n && 5 * QuintetCount(n) % 8 == PadBits(n)
    ensures 8 * n + PadBits(n) == 5 * QuintetCount(n)
  {
  }

  lemma QuintetLengths(m: nat)
    requires 5 * m % 8 < 5
    ensures var k := 5 * m / 8; QuintetCount(k) == m && PadBits(k) == 5 * m % 8
  {
  }

  /** The quintets of a byte string. */
  function ToQuintets(data: Bytes): (d5: Bytes)
    ensures |d5| == QuintetCount(|data|)
  {
    ByteDigits(Number(data, 256) * Pow2(PadBits(|data|)), 5, QuintetCount(|data|))
  }

  /** What both directions of the 8/5 regrouping compute, with the case split removed. */
  lemma Regroup8To5(data: Bytes)
    ensures Regrouped(data, 8, 5, true) == Ok(ToQuintets(data)) && Below(ToQuintets(data), 32)
  {
    Widths();
    ByteLengths(|data|);
    hide Number, Digits, Pow2, QuintetCount, PadBits;
  }

  lemma Regroup5To8(d5: Bytes)
    requires Below(d5, 32)
    ensures var p := 5 * |d5| % 8;
            var v := Number(d5, 32);
            Regrouped(d5, 5, 8, false)
            == if p >= 5 || v % Pow2(p) != 0 then Err(Padding) else Ok(ByteDigits(v / Pow2(p), 8, 5 * |d5| / 8))
  {
    Widths();
    hide Number, Digits, Pow2;
  }

  lemma ShiftedFits(n: nat, k: nat, p: nat, m: nat)
    requires 8 * k + p == 5 * m && n < Pow(256, k)
    ensures n * Pow2(p) < Pow(32, m)
  {
    hide Pow2, Pow;
    PowerOfBytes(k);
    PowerOfQuintets(m);
    ScaledBound(n, 8 * k, p);
  }

  lemma QuintetValue(data: Bytes)
    ensures Number(ToQuintets(data), 32) == Number(data, 256) * Pow2(PadBits(|data|))
  {
    hide Number, Digits, Pow2, Pow, QuintetCount, PadBits;
    Widths();
    ByteLengths(|data|);
    NumberBound(data, 256);
    var n, p, m := Number(data, 256), PadBits(|data|), QuintetCount(|data|);
    ShiftedFits(n, |data|, p, m);
    var v := n * Pow2(p);
    assert ToQuintets(data) == Digits(v, 32, m);
    NumberOfDigits(v, 32, m);
  }

  /** Regrouping bytes to quintets loses nothing: the other direction returns the bytes. */
  lemma BytesSurvive(data: Bytes)
    ensures Regrouped(data, 8, 5, true) == Ok(ToQuintets(data)) && Below(ToQuintets(data), 32)
    ensures Regrouped(ToQuintets(data), 5, 8, false) == Ok(data)
  {
    Widths();
    DigitsOfNumber(data, 256);
    hide Number, Digits, Pow2, Regrouped, QuintetCount, PadBits;
    Regroup8To5(data);
    QuintetValue(data);
    ByteLengths(|data|);
    ExactShift(Number(data, 256), PadBits(|data|));
    Regroup5To8(ToQuintets(data));
  }

  /** Every accepted quintet string is the regrouping of the bytes it yields. */
  lemma QuintetsSurvive(d5: Bytes, data: Bytes)
    requires Below(d5, 32) && Regrouped(d5, 5, 8, false) == Ok(data)
    ensures ToQuintets(data) == d5
  {
    Widths();
    DigitsOfNumber(d5, 32);
    var v, p, k := Number(d5, 32), 5 * |d5| % 8, 5 * |d5| / 8;
    hide Number, Digits, Pow2, Regrouped, Pow, QuintetCount, PadBits;
    Regroup5To8(d5);
    QuintetLengths(|d5|);
    CutValue(v, p, k, |d5|, d5);
    NumberOfDigits(v / Pow2(p), 256, k);
  }

  lemma CutValue(v: nat, p: nat, k: nat, m: nat, d5: Bytes)
    requires 5 * m == 8 * k + p && |d5| == m && Below(d5, 32) && v == Number(d5, 32) && v % Pow2(p) == 0
    ensures v / Pow2(p) < Pow(256, k) && v / Pow2(p) * Pow2(p) == v
  {
    hide Number, Pow2, Pow;
    NumberBound(d5, 32);
    PowerOfQuintets(m);
    PowerOfBytes(k);
    var n, s := v / Pow2(p), Pow2(p);
    assert v == n * s;
    ScaledBound(n, 8 * k, p);
  }
}
