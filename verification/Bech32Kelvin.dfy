/**
 * Letter case beyond ASCII: Go lower-cases U+212A, the Kelvin sign, to "k" and leaves it alone when
 * upper-casing, so it can stand for a K in an address in capitals.
 */
module Bech32Kelvin {
  import opened Common
  import opened Bech32Codec

  /** U+212A in UTF-8. */
  const KELVIN: Bytes := [0xE2, 0x84, 0xAA]
  const SMALL_K: byte := 107

  /** Lower case of a text over ASCII and the Kelvin sign. */
  function KelvinLower(s: Bytes): Bytes {
    if |s| == 0 then []
    else if |s| >= 3 && s[0] == KELVIN[0] && s[1] == KELVIN[1] && s[2] == KELVIN[2] then [SMALL_K] + KelvinLower(s[3..])
    else [LowerByte(s[0])] + KelvinLower(s[1..])
  }

  const WITH_KELVIN: LetterCase := LetterCase(KelvinLower, Upper)

  lemma LowerFirst(s: Bytes)
    requires |s| > 0
    ensures Lower(s) == [LowerByte(s[0])] + Lower(s[1..])
  {
    hide LowerByte;
  }

  lemma KelvinLowerFirst(s: Bytes)
    requires |s| > 0 && s[0] < 128
    ensures KelvinLower(s) == [LowerByte(s[0])] + KelvinLower(s[1..])
  {
    hide LowerByte, Lower;
  }

  lemma LowerSteps(s: Bytes)
    requires |s| > 0
    ensures Lower(s) == [LowerByte(s[0])] + Lower(s[1..])
    ensures s[0] < 128 ==> KelvinLower(s) == [LowerByte(s[0])] + KelvinLower(s[1..])
  {
    hide *;
    LowerFirst(s);
    if s[0] < 128 { KelvinLowerFirst(s); }
  }

  lemma NothingToLower()
    ensures Lower([]) == [] && KelvinLower([]) == []
  {
  }

  lemma AsciiTail(s: Bytes)
    requires |s| > 0 && IsAscii(s)
    ensures s[0] < 128 && IsAscii(s[1..])
  {
  }

  lemma {:induction false} AsciiLower(s: Bytes)
    requires IsAscii(s)
    ensures KelvinLower(s) == Lower(s)
  {
    hide Lower, KelvinLower, LowerByte, IsAscii;
    if |s| == 0 {
      NothingToLower();
      assert s == [];
    } else {
      AsciiTail(s);
      AsciiLower(s[1..]);
      LowerSteps(s);
    }
  }

  /** On ASCII text this is the usual letter case. */
  lemma KelvinIsAsciiCase()
    ensures AsciiCase(WITH_KELVIN)
  {
    hide Lower, IsAscii;
    forall s | IsAscii(s) ensures KelvinLower(s) == Lower(s) { AsciiLower(s); }
  }

  lemma KelvinFirst(q: Bytes)
    ensures KelvinLower(KELVIN + q) == [SMALL_K] + KelvinLower(q)
  {
    assert (KELVIN + q)[3..] == q;
  }

  lemma {:induction false} LowerAround(p: Bytes, q: Bytes)
    requires IsAscii(p) && IsAscii(q)
    ensures KelvinLower(p + KELVIN + q) == Lower(p) + [SMALL_K] + Lower(q)
  {
    hide Lower, KelvinLower, LowerByte, IsAscii;
    var s := p + KELVIN + q;
    if |p| == 0 {
      assert s == KELVIN + q && p == [];
      KelvinFirst(q);
      NothingToLower();
      AsciiLower(q);
    } else {
      AsciiTail(p);
      assert s[0] == p[0] && s[1..] == p[1..] + KELVIN + q;
      LowerAround(p[1..], q);
      LowerSteps(s);
      LowerSteps(p);
    }
  }

  lemma LowerOfUpper(s: Bytes)
    requires NoUpperCase(s)
    ensures Lower(Upper(s)) == s
  {
  }

  lemma UpperFixed(p: Bytes, q: Bytes)
    ensures var s := Upper(p) + KELVIN + Upper(q); Upper(s) == s
  {
  }

  /**
   * Every address with a k is also accepted, with the same prefix and bytes, in capitals with the Kelvin sign
   * in place of that K, although this string is not ASCII.
   */
  lemma KelvinAccepted(hrp: Bytes, data8: Bytes, p: Bytes, q: Bytes)
    requires |hrp| >= 1 && IsAscii(hrp) && NoUpperCase(hrp) && Encoded(hrp, data8) == p + [SMALL_K] + q
    ensures Decoded(Upper(p) + KELVIN + Upper(q), WITH_KELVIN) == Ok((hrp, data8))
    ensures !IsAscii(Upper(p) + KELVIN + Upper(q))
  {
    hide Encoded, DecodedLower, KelvinLower, Lower, Upper, IsAscii, NoUpperCase;
    EncodedCase(hrp, data8);
    CaseOfParts(p + [SMALL_K], q);
    CaseOfParts(p, [SMALL_K]);
    UpperIsAscii(p);
    UpperIsAscii(q);
    LowerAround(Upper(p), Upper(q));
    LowerOfUpper(p);
    LowerOfUpper(q);
    UpperFixed(p, q);
    DecodesEncoded(hrp, data8);
    KelvinIsNotAscii();
    CaseOfParts(Upper(p) + KELVIN, Upper(q));
    CaseOfParts(Upper(p), KELVIN);
  }

  lemma UpperIsAscii(s: Bytes)
    requires IsAscii(s)
    ensures IsAscii(Upper(s))
  {
  }

  lemma KelvinIsNotAscii()
    ensures !IsAscii(KELVIN)
  {
    assert KELVIN[0] >= 128;
  }

  /** Under the prefix "k" every byte string has such a second address. */
  lemma KelvinPrefix(data8: Bytes) returns (addr: Bytes)
    ensures Decoded(addr, WITH_KELVIN) == Ok(([SMALL_K], data8)) && !IsAscii(addr)
  {
    hide Encoded, Decoded;
    var hrp: Bytes, s := [SMALL_K], Encoded([SMALL_K], data8);
    EncodedCase(hrp, data8);
    assert s == [] + [SMALL_K] + s[1..];
    KelvinAccepted(hrp, data8, [], s[1..]);
    addr := Upper([]) + KELVIN + Upper(s[1..]);
  }
}
