/** Values shared by every component: bytes, results, and fixed-base numerals. */
module Common {

  /** One octet. Go strings and byte slices are both sequences of octets. */
  type byte = b: int | 0 <= b < 256
  type Bytes = seq<byte>

  const TWO_32: int := 0x1_0000_0000
  const TWO_63: int := 0x8000_0000_0000_0000
  const TWO_64: int := 0x1_0000_0000_0000_0000

  type u64 = n: int | 0 <= n < TWO_64
  type i64 = n: int | -TWO_63 <= n < TWO_63

  datatype Option<+T> = None | Some(value: T)

  datatype Result<+T, +E> = Ok(value: T) | Err(error: E)

  /** The octets of an ASCII literal; anything wider is cut to its low octet. */
  function Ascii(s: string): (r: Bytes)
    ensures |r| == |s|
  {
    seq(|s|, i requires 0 <= i < |s| => (s[i] as int) % 256)
  }

  /** Each ASCII character is one octet, its code. */
  lemma AsciiOctets(s: string, i: nat)
    requires i < |s| && s[i] < 128 as char
    ensures Ascii(s)[i] == s[i] as int
  {
  }

  function LowerByte(c: byte): byte { if 65 <= c <= 90 then c + 32 else c }

  function UpperByte(c: byte): byte { if 97 <= c <= 122 then c - 32 else c }

  /** ASCII letter case; octets from 128 up are left alone. */
  function Lower(s: Bytes): (r: Bytes)
    ensures |r| == |s|
  {
    seq(|s|, i requires 0 <= i < |s| => LowerByte(s[i]))
  }

  function Upper(s: Bytes): (r: Bytes)
    ensures |r| == |s|
  {
    seq(|s|, i requires 0 <= i < |s| => UpperByte(s[i]))
  }

  // ---------------------------------------------------------------------------
  // Powers of two and division

  function Pow2(n: nat): (r: nat)
    ensures r >= 1
  {
    if n == 0 then 1 else 2 * Pow2(n - 1)
  }

  lemma {:induction false} Pow2Add(a: nat, b: nat)
    ensures Pow2(a + b) == Pow2(a) * Pow2(b)
  {
    if a == 0 {
    } else {
      Pow2Add(a - 1, b);
      assert Pow2(a + b) == 2 * Pow2(a + b - 1);
    }
  }

  lemma {:induction false} Pow2Monotone(a: nat, b: nat)
    requires a <= b
    ensures Pow2(a) <= Pow2(b)
    decreases b
  {
    if a == b {
    } else {
      Pow2Monotone(a, b - 1);
    }
  }

  /** Division toward zero, as Go and Rust divide. */
  function TruncDiv(a: int, b: int): int
    requires b > 0
  {
    if a >= 0 then a / b else -(-a / b)
  }

  lemma MulMonotone(x: int, y: int, b: int)
    requires x <= y && 0 <= b
    ensures x * b <= y * b
  {
  }

  /** Quotient and remainder are unique. */
  lemma DivModUnique(q: int, b: int, r: int)
    requires 0 <= r < b
    ensures (q * b + r) / b == q && (q * b + r) % b == r
  {
    var n := q * b + r;
    var d := q - n / b;
    assert d * b == n % b - r by { assert n == (n / b) * b + n % b; }
    assert d >= 1 ==> d * b >= b;
    assert d <= -1 ==> d * b <= -b;
  }

  /** Remainder by a product, one factor at a time. */
  lemma ModSplit(x: nat, a: nat, b: nat)
    requires a > 0 && b > 0
    ensures a * b > 0 && x % (a * b) == (x / b % a) * b + x % b
  {
    var q, r, low := x / b / a, x / b % a, x % b;
    assert x == (q * a + r) * b + low;
    assert (q * a + r) * b == q * (a * b) + r * b;
    assert r * b <= (a - 1) * b;
    DivModUnique(q, a * b, r * b + low);
  }

  lemma ModMod(x: nat, a: nat, b: nat)
    requires a > 0 && b > 0
    ensures a * b > 0 && x % (a * b) % b == x % b
  {
    ModSplit(x, a, b);
    DivModUnique(x / b % a, b, x % b);
  }

  lemma MulAssoc(x: int, y: int, z: int)
    ensures x * y * z == x * (y * z)
  {
  }

  /** Appending a digit to a number split into a high and a low part. */
  lemma Horner(high: nat, low: nat, v: nat, b: nat, f: nat)
    ensures (high * b + low) * f + v == high * (b * f) + (low * f + v)
  {
    MulAssoc(high, b, f);
  }

  // ---------------------------------------------------------------------------
  // Numerals, most significant digit first

  predicate Below(s: seq<nat>, base: nat) {
    forall i :: 0 <= i < |s| ==> s[i] < base
  }

  lemma BelowParts(a: seq<nat>, b: seq<nat>, base: nat)
    ensures Below(a + b, base) <==> Below(a, base) && Below(b, base)
  {
    if Below(a + b, base) {
      forall i | 0 <= i < |a| ensures a[i] < base { assert (a + b)[i] == a[i]; }
      forall i | 0 <= i < |b| ensures b[i] < base { assert (a + b)[|a| + i] == b[i]; }
    }
  }

  function Number(s: seq<nat>, base: nat): (n: nat) {
    if |s| == 0 then 0 else Number(s[..|s| - 1], base) * base + s[|s| - 1]
  }

  function Digits(n: nat, base: nat, len: nat): (s: seq<nat>)
    requires base > 0
    ensures |s| == len && Below(s, base)
    decreases len
  {
    if len == 0 then [] else Digits(n / base, base, len - 1) + [n % base]
  }

  lemma NumberAppend(s: seq<nat>, d: nat, base: nat)
    ensures Number(s + [d], base) == Number(s, base) * base + d
  {
    assert (s + [d])[..|s|] == s;
  }

  /** A numeral of known length is determined by its value. */
  lemma {:induction false} DigitsOfNumber(s: seq<nat>, base: nat)
    requires base > 0 && Below(s, base)
    ensures Digits(Number(s, base), base, |s|) == s
  {
    if |s| == 0 {
    } else {
      var init, last := s[..|s| - 1], s[|s| - 1];
      DivModUnique(Number(init, base), base, last);
      DigitsOfNumber(init, base);
      assert s == init + [last];
    }
  }

  function Pow(base: nat, n: nat): (r: nat)
    ensures base > 0 ==> r > 0
  {
    if n == 0 then 1 else Pow(base, n - 1) * base
  }

  lemma QuotientBelow(n: nat, limit: nat, base: nat) returns (q: nat, r: nat)
    requires base > 0 && n < limit * base
    ensures q == n / base && r == n % base && n == q * base + r && q < limit
  {
    q, r := n / base, n % base;
    assert q >= limit ==> q * base >= limit * base;
  }

  lemma NumeralBelow(high: nat, low: nat, limit: nat, base: nat)
    requires high < limit && low < base
    ensures high * base + low < limit * base
  {
    MulMonotone(high + 1, limit, base);
  }

  /** Digits shows a value exactly when the value fits in the length. */
  lemma {:induction false} NumberOfDigits(n: nat, base: nat, len: nat)
    requires base > 0 && n < Pow(base, len)
    ensures Number(Digits(n, base, len), base) == n
    decreases len
  {
    if len == 0 {
    } else {
      var q, r := QuotientBelow(n, Pow(base, len - 1), base);
      NumberOfDigits(q, base, len - 1);
      NumberAppend(Digits(q, base, len - 1), r, base);
    }
  }

  lemma {:induction false} NumberBound(s: seq<nat>, base: nat)
    requires base > 0 && Below(s, base)
    ensures Number(s, base) < Pow(base, |s|)
  {
    if |s| == 0 {
    } else {
      var init := s[..|s| - 1];
      NumberBound(init, base);
      NumeralBelow(Number(init, base), s[|s| - 1], Pow(base, |init|), base);
    }
  }
}
