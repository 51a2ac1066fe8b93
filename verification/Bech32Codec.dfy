/** Bech32 strings: human-readable part, separator, data symbols, checksum. */
module Bech32Codec {
  import opened Common
  import opened Bech32Checksum
  import opened BitRegroup

  datatype Bech32Error = MixedCase | Separator | Character | Checksum | Regroup(reason: RegroupError)

  const SEPARATOR: byte := 49 // '1'

  /** The alphabet "qpzry9x8gf2tvdw0s3jn54khce6mua7l". */
  const CHARSET: Bytes := [
    113, 112, 122, 114, 121, 57, 120, 56, 103, 102, 50, 116, 118, 100, 119, 48,
    115, 51, 106, 110, 53, 52, 107, 104, 99, 101, 54, 109, 117, 97, 55, 108]

  function HighBits(hrp: Bytes): (r: Bytes)
    ensures |r| == |hrp| && Below(r, 32)
  {
    seq(|hrp|, i requires 0 <= i < |hrp| => hrp[i] / 32)
  }

  function LowBits(hrp: Bytes): (r: Bytes)
    ensures |r| == |hrp| && Below(r, 32)
  {
    seq(|hrp|, i requires 0 <= i < |hrp| => hrp[i] % 32)
  }

  function HrpExpanded(hrp: Bytes): (r: Bytes)
    ensures Below(r, 32)
  {
    HighBits(hrp) + [0] + LowBits(hrp)
  }

  /** bech32HrpExpand. */
  method HrpExpand(hrp: Bytes) returns (out: Bytes)
    ensures out == HrpExpanded(hrp)
  {
    out := [];
    for i := 0 to |hrp|
      invariant |out| == i && forall k :: 0 <= k < i ==> out[k] == hrp[k] / 32
    {
      out := out + [hrp[i] / 32];
    }
    out := out + [0];
    for i := 0 to |hrp|
      invariant |out| == |hrp| + 1 + i && forall k :: 0 <= k < |hrp| ==> out[k] == hrp[k] / 32
      invariant out[|hrp|] == 0
      invariant forall k :: 0 <= k < i ==> out[|hrp| + 1 + k] == hrp[k] % 32
    {
      out := out + [hrp[i] % 32];
    }
    forall k | 0 <= k < |out| ensures out[k] == HrpExpanded(hrp)[k] {
      if k > |hrp| { assert out[|hrp| + 1 + (k - |hrp| - 1)] == hrp[k - |hrp| - 1] % 32; }
    }
  }

  /** bech32CreateChecksum. */
  method CreateChecksum(hrp: Bytes, data: Bytes) returns (out: Bytes)
    ensures out == ChecksumOf(HrpExpanded(hrp) + data)
  {
    hide PolymodOf, Xor, SymbolAt;
    var values := HrpExpand(hrp);
    values := values + data;
    var polymod := Polymod(values + SIX_ZEROS);
    polymod := Xor(polymod, 1);
    out := [];
    for i := 0 to 6
      invariant |out| == i && forall k :: 0 <= k < i ==> out[k] == ToByte(SymbolAt(polymod, k))
    {
      out := out + [ToByte(SymbolAt(polymod, i))];
    }
  }

  function Text(symbols: Bytes): (r: Bytes)
    requires Below(symbols, 32)
    ensures |r| == |symbols|
  {
    seq(|symbols|, i requires 0 <= i < |symbols| => CHARSET[symbols[i]])
  }

  /** The string bech32Encode writes. */
  function Encoded(hrp: Bytes, data8: Bytes): (s: Bytes) {
    Regroup8To5(data8);
    var data5 := ToQuintets(data8);
    hrp + [SEPARATOR] + Text(data5) + Text(ChecksumOf(HrpExpanded(hrp) + data5))
  }

  /** bech32Encode; regrouping whole octets with padding cannot fail. */
  method Encode(hrp: Bytes, data8: Bytes) returns (r: Result<Bytes, Bech32Error>)
    ensures r == Ok(Encoded(hrp, data8))
  {
    hide Regrouped, ToQuintets, PolymodOf, Xor, SymbolAt, ChecksumOf;
    var converted := ConvertBits(data8, 8, 5, true);
    Regroup8To5(data8);
    var data5 := converted.value;
    var checksum := CreateChecksum(hrp, data5);
    var sb := hrp + [SEPARATOR];
    for i := 0 to |data5|
      invariant sb == hrp + [SEPARATOR] + Text(data5)[..i]
    {
      sb := sb + [CHARSET[data5[i]]];
    }
    assert Text(data5)[..|data5|] == Text(data5);
    for i := 0 to |checksum|
      invariant sb == hrp + [SEPARATOR] + Text(data5) + Text(checksum)[..i]
    {
      sb := sb + [CHARSET[checksum[i]]];
    }
    assert Text(checksum)[..|checksum|] == Text(checksum);
    return Ok(sb);
  }

  // ---------------------------------------------------------------------------
  // Decoding

  function IndexIn(c: byte, k: nat): (r: int)
    requires k <= 32
    ensures -1 <= r < k
    ensures r >= 0 ==> CHARSET[r] == c
    ensures r == -1 ==> forall j :: 0 <= j < k ==> CHARSET[j] != c
  {
    if k == 0 then -1 else if CHARSET[k - 1] == c then k - 1 else IndexIn(c, k - 1)
  }

  /** The symbol a character stands for, or -1 (the reverse table). */
  function SymbolOf(c: byte): (r: int)
    ensures -1 <= r < 32
    ensures r >= 0 ==> CHARSET[r] == c
    ensures r == -1 ==> c !in CHARSET
  {
    IndexIn(c, 32)
  }

  predicate AllSymbols(text: Bytes) { forall i :: 0 <= i < |text| ==> SymbolOf(text[i]) >= 0 }

  function SymbolsOfText(text: Bytes): (r: Bytes)
    requires AllSymbols(text)
    ensures |r| == |text| && Below(r, 32)
  {
    seq(|text|, i requires 0 <= i < |text| => SymbolOf(text[i]))
  }

  /** The position of the last separator, or -1. */
  function LastSeparator(s: Bytes): (p: int)
    ensures -1 <= p < |s|
    ensures p >= 0 ==> s[p] == SEPARATOR
    ensures forall k :: p < k < |s| ==> s[k] != SEPARATOR
  {
    if |s| == 0 then -1 else if s[|s| - 1] == SEPARATOR then |s| - 1 else LastSeparator(s[..|s| - 1])
  }

  /**
   * Go's strings.ToLower and strings.ToUpper, which go by Unicode. They are parameters: nothing is assumed of
   * them, or only that they treat ASCII text as expected.
   */
  datatype LetterCase = LetterCase(lower: Bytes -> Bytes, upper: Bytes -> Bytes)

  /** What bech32Decode answers. */
  function Decoded(addr: Bytes, c: LetterCase): (r: Result<(Bytes, Bytes), Bech32Error>) {
    if addr != c.lower(addr) && addr != c.upper(addr) then Err(MixedCase) else DecodedLower(c.lower(addr))
  }

  /** The same for a string in lower case. */
  function DecodedLower(low: Bytes): (r: Result<(Bytes, Bytes), Bech32Error>) {
    var pos := LastSeparator(low);
    if pos < 1 || pos + 7 > |low| then Err(Separator) else DecodedParts(low[..pos], low[pos + 1..])
  }

  function DecodedParts(hrp: Bytes, text: Bytes): (r: Result<(Bytes, Bytes), Bech32Error>)
    requires |text| >= 6
  {
    if !AllSymbols(text) then Err(Character)
    else if PolymodOf(HrpExpanded(hrp) + SymbolsOfText(text)) != 1 then Err(Checksum)
    else
      match Regrouped(SymbolsOfText(text)[..|text| - 6], 5, 8, false)
      case Err(e) => Err(Regroup(e))
      case Ok(data8) => Ok((hrp, data8))
  }

  /** bech32Decode. */
  method Decode(addr: Bytes, c: LetterCase) returns (r: Result<(Bytes, Bytes), Bech32Error>)
    ensures r == Decoded(addr, c)
  {
    hide DecodedParts, Regrouped, PolymodOf, SymbolOf, HrpExpanded;
    var lower, upper := c.lower(addr), c.upper(addr);
    if addr != lower && addr != upper {
      return Err(MixedCase);
    }
    var pos := LastSeparator(lower);
    if pos < 1 || pos + 7 > |lower| {
      return Err(Separator);
    }
    r := DecodeParts(lower[..pos], lower[pos + 1..]);
  }

  /** The second half of bech32Decode: from the split string to the bytes. */
  method DecodeParts(hrp: Bytes, dataPart: Bytes) returns (r: Result<(Bytes, Bytes), Bech32Error>)
    requires |dataPart| >= 6
    ensures r == DecodedParts(hrp, dataPart)
  {
    hide Regrouped, PolymodOf, SymbolOf, HrpExpanded;
    var data5: Bytes := [];
    for i := 0 to |dataPart|
      invariant |data5| == i
      invariant forall k :: 0 <= k < i ==> SymbolOf(dataPart[k]) >= 0 && data5[k] == SymbolOf(dataPart[k])
    {
      if SymbolOf(dataPart[i]) < 0 {
        return Err(Character);
      }
      data5 := data5 + [SymbolOf(dataPart[i])];
    }
    assert data5 == SymbolsOfText(dataPart);
    var expanded := HrpExpand(hrp);
    var chk := Polymod(expanded + data5);
    if chk != 1 {
      return Err(Checksum);
    }
    var converted := ConvertBits(data5[..|data5| - 6], 5, 8, false);
    match converted
    case Err(e) => return Err(Regroup(e));
    case Ok(data8) => return Ok((hrp, data8));
  }

  // ---------------------------------------------------------------------------
  // The two directions undo each other

  predicate NoUpperCase(s: Bytes) { forall i :: 0 <= i < |s| ==> !(65 <= s[i] <= 90) }

  predicate IsAscii(s: Bytes) { forall i :: 0 <= i < |s| ==> s[i] < 128 }

  /** The reverse table, written out. */
  function Rank(c: byte): int {
    match c
    case 113 => 0 case 112 => 1 case 122 => 2 case 114 => 3 case 121 => 4 case 57 => 5 case 120 => 6 case 56 => 7
    case 103 => 8 case 102 => 9 case 50 => 10 case 116 => 11 case 118 => 12 case 100 => 13 case 119 => 14 case 48 => 15
    case 115 => 16 case 51 => 17 case 106 => 18 case 110 => 19 case 53 => 20 case 52 => 21 case 107 => 22 case 104 => 23
    case 99 => 24 case 101 => 25 case 54 => 26 case 109 => 27 case 117 => 28 case 97 => 29 case 55 => 30 case 108 => 31
    case _ => -1
  }

  lemma CharsetRank(i: nat)
    requires i < 32
    ensures Rank(CHARSET[i]) == i && CHARSET[i] != SEPARATOR && !(65 <= CHARSET[i] <= 90) && CHARSET[i] < 128
  {
    match i
    case 0 => case 1 => case 2 => case 3 => case 4 => case 5 => case 6 => case 7 =>
    case 8 => case 9 => case 10 => case 11 => case 12 => case 13 => case 14 => case 15 =>
    case 16 => case 17 => case 18 => case 19 => case 20 => case 21 => case 22 => case 23 =>
    case 24 => case 25 => case 26 => case 27 => case 28 => case 29 => case 30 => case _ =>
  }

  lemma CharsetFacts(i: nat)
    requires i < 32
    ensures SymbolOf(CHARSET[i]) == i
    ensures CHARSET[i] != SEPARATOR && !(65 <= CHARSET[i] <= 90) && CHARSET[i] < 128
  {
    hide IndexIn, Rank;
    CharsetRank(i);
    var r := SymbolOf(CHARSET[i]);
    CharsetRank(r);
  }

  lemma TextFacts(symbols: Bytes)
    requires Below(symbols, 32)
    ensures NoUpperCase(Text(symbols)) && IsAscii(Text(symbols)) && SEPARATOR !in Text(symbols)
    ensures AllSymbols(Text(symbols))
    ensures SymbolsOfText(Text(symbols)) == symbols
  {
    hide SymbolOf;
    forall i | 0 <= i < |symbols|
      ensures SymbolOf(Text(symbols)[i]) == symbols[i] && Text(symbols)[i] != SEPARATOR
      ensures !(65 <= Text(symbols)[i] <= 90) && Text(symbols)[i] < 128
    {
      CharsetFacts(symbols[i]);
    }
  }

  lemma LowerFixed(s: Bytes)
    ensures Lower(s) == s <==> NoUpperCase(s)
  {
    if Lower(s) == s {
      forall i | 0 <= i < |s| ensures !(65 <= s[i] <= 90) { assert Lower(s)[i] == s[i]; }
    }
  }

  lemma SeparatorFound(hrp: Bytes, text: Bytes)
    requires SEPARATOR !in text
    ensures LastSeparator(hrp + [SEPARATOR] + text) == |hrp|
  {
    hide LastSeparator;
    var s := hrp + [SEPARATOR] + text;
    assert s[|hrp|] == SEPARATOR;
    assert s[|hrp| + 1..] == text;
    assert forall k :: |hrp| < k < |s| ==> s[k] in s[|hrp| + 1..];
  }

  /** A string in lower case is decoded part by part. */
  lemma DecodeSplits(hrp: Bytes, text: Bytes)
    requires |hrp| >= 1 && |text| >= 6 && SEPARATOR !in text
    ensures DecodedLower(hrp + [SEPARATOR] + text) == DecodedParts(hrp, text)
  {
    hide DecodedParts, LastSeparator;
    var s := hrp + [SEPARATOR] + text;
    SeparatorFound(hrp, text);
    assert s[..|hrp|] == hrp && s[|hrp| + 1..] == text;
  }

  /** What is encoded is read back from the string itself. */
  lemma DecodesEncoded(hrp: Bytes, data8: Bytes)
    requires |hrp| >= 1
    ensures DecodedLower(Encoded(hrp, data8)) == Ok((hrp, data8))
  {
    hide Regrouped, ToQuintets, PolymodOf, ChecksumOf, SymbolOf, Below, DecodedLower, HrpExpanded;
    BytesSurvive(data8);
    var data5 := ToQuintets(data8);
    var cs := ChecksumOf(HrpExpanded(hrp) + data5);
    var symbols := data5 + cs;
    BelowParts(data5, cs, 32);
    BelowParts(HrpExpanded(hrp), data5, 32);
    assert Text(symbols) == Text(data5) + Text(cs);
    assert Encoded(hrp, data8) == hrp + [SEPARATOR] + Text(symbols);
    assert HrpExpanded(hrp) + symbols == HrpExpanded(hrp) + data5 + cs;
    ChecksumVerifies(HrpExpanded(hrp) + data5);
    TextFacts(symbols);
    DecodeSplits(hrp, Text(symbols));
    assert symbols[..|symbols| - 6] == data5;
  }

  /** Apart from the prefix, an encoded string is ASCII without capitals. */
  lemma EncodedCase(hrp: Bytes, data8: Bytes)
    ensures NoUpperCase(Encoded(hrp, data8)) <==> NoUpperCase(hrp)
    ensures IsAscii(Encoded(hrp, data8)) <==> IsAscii(hrp)
    ensures |Encoded(hrp, data8)| > |hrp| && Encoded(hrp, data8)[..|hrp|] == hrp
  {
    hide Regrouped, ToQuintets, PolymodOf, ChecksumOf, SymbolOf, Below, HrpExpanded, Text;
    Regroup8To5(data8);
    var data5 := ToQuintets(data8);
    var rest := [SEPARATOR] + Text(data5) + Text(ChecksumOf(HrpExpanded(hrp) + data5));
    TextFacts(data5);
    TextFacts(ChecksumOf(HrpExpanded(hrp) + data5));
    assert Encoded(hrp, data8) == hrp + rest;
    CaseOfParts(hrp, rest);
  }

  lemma CaseOfParts(a: Bytes, b: Bytes)
    ensures NoUpperCase(a + b) <==> NoUpperCase(a) && NoUpperCase(b)
    ensures IsAscii(a + b) <==> IsAscii(a) && IsAscii(b)
  {
    assert forall i :: 0 <= i < |a| ==> (a + b)[i] == a[i];
    assert forall i :: 0 <= i < |b| ==> (a + b)[|a| + i] == b[i];
  }

  /** The round trip, for every prefix and every case mapping: exact iff lower-casing leaves the string alone. */
  lemma RoundTripExact(hrp: Bytes, data8: Bytes, c: LetterCase)
    ensures var addr := Encoded(hrp, data8);
            Decoded(addr, c) == Ok((hrp, data8)) <==> |hrp| >= 1 && c.lower(addr) == addr
  {
    hide Encoded, DecodedLower;
    var addr := Encoded(hrp, data8);
    if |hrp| >= 1 { DecodesEncoded(hrp, data8); }
    if Decoded(addr, c) == Ok((hrp, data8)) {
      EncodeOfDecode(addr, hrp, data8, c);
    }
  }

  /** A case mapping that treats ASCII text as expected. */
  ghost predicate AsciiCase(c: LetterCase) {
    forall s :: IsAscii(s) ==> c.lower(s) == Lower(s) && c.upper(s) == Upper(s)
  }

  /** For an ASCII prefix: exactly when it is non-empty and has no upper-case letter. */
  lemma DecodeOfEncode(hrp: Bytes, data8: Bytes, c: LetterCase)
    requires IsAscii(hrp) && AsciiCase(c)
    ensures Decoded(Encoded(hrp, data8), c) == Ok((hrp, data8)) <==> |hrp| >= 1 && NoUpperCase(hrp)
  {
    hide Decoded, Encoded, Lower, NoUpperCase, IsAscii;
    RoundTripExact(hrp, data8, c);
    EncodedCase(hrp, data8);
    LowerFixed(Encoded(hrp, data8));
  }

  lemma TextOfSymbols(text: Bytes)
    requires AllSymbols(text)
    ensures Text(SymbolsOfText(text)) == text
  {
  }

  lemma EncodeOfParts(hrp: Bytes, text: Bytes, data8: Bytes)
    requires |text| >= 6 && DecodedParts(hrp, text) == Ok((hrp, data8))
    ensures Encoded(hrp, data8) == hrp + [SEPARATOR] + text
  {
    hide Regrouped, ToQuintets, PolymodOf, ChecksumOf, SymbolOf, Below, HrpExpanded;
    var data5 := SymbolsOfText(text);
    var payload, cs := data5[..|data5| - 6], data5[|data5| - 6..];
    assert data5 == payload + cs;
    BelowParts(payload, cs, 32);
    BelowParts(HrpExpanded(hrp), payload, 32);
    QuintetsSurvive(payload, data8);
    assert HrpExpanded(hrp) + data5 == HrpExpanded(hrp) + payload + cs;
    ChecksumUnique(HrpExpanded(hrp) + payload, cs);
    TextOfSymbols(text);
    assert Text(data5) == Text(payload) + Text(cs);
  }

  lemma PartsKeepPrefix(hrp: Bytes, text: Bytes)
    requires |text| >= 6 && DecodedParts(hrp, text).Ok?
    ensures DecodedParts(hrp, text).value.0 == hrp
  {
    hide Regrouped, PolymodOf, AllSymbols, HrpExpanded;
  }

  /** Every accepted string, ASCII or not, is in lower case the encoding of what it decodes to. */
  lemma EncodeOfDecode(addr: Bytes, hrp: Bytes, data8: Bytes, c: LetterCase)
    requires Decoded(addr, c) == Ok((hrp, data8))
    ensures Encoded(hrp, data8) == c.lower(addr) && |hrp| >= 1
  {
    hide Encoded, DecodedParts, LastSeparator;
    var low := c.lower(addr);
    var pos := LastSeparator(low);
    PartsKeepPrefix(low[..pos], low[pos + 1..]);
    EncodeOfParts(low[..pos], low[pos + 1..], data8);
    assert low == low[..pos] + [SEPARATOR] + low[pos + 1..];
  }

  /** Only the lower-case form matters, besides the refusal of mixed case. */
  lemma CaseDecides(addr: Bytes, other: Bytes, c: LetterCase)
    requires Decoded(addr, c).Ok? && c.lower(addr) == c.lower(other)
    ensures Decoded(other, c) == Decoded(addr, c) <==> other == c.lower(other) || other == c.upper(other)
  {
    hide DecodedLower;
  }

  lemma SymbolsOfTextAppend(a: Bytes, b: Bytes)
    requires AllSymbols(a + b)
    ensures AllSymbols(a) && AllSymbols(b)
    ensures SymbolsOfText(a + b) == SymbolsOfText(a) + SymbolsOfText(b)
  {
    hide SymbolOf;
    assert forall i :: 0 <= i < |a| ==> (a + b)[i] == a[i];
    assert forall i :: 0 <= i < |b| ==> (a + b)[|a| + i] == b[i];
  }

  /** What acceptance of a string in lower case says about its parts. */
  lemma AcceptedParts(hrp: Bytes, text: Bytes)
    requires SEPARATOR !in text && DecodedLower(hrp + [SEPARATOR] + text).Ok?
    ensures AllSymbols(text) && PolymodOf(HrpExpanded(hrp) + SymbolsOfText(text)) == 1
  {
    hide Regrouped, PolymodOf, SymbolOf, LastSeparator, HrpExpanded;
    SeparatorFound(hrp, text);
    DecodeSplits(hrp, text);
  }

  /** Up to six retyped characters of a string in lower case. */
  lemma LowerTypoRejected(hrp: Bytes, before: Bytes, typed: Bytes, typo: Bytes, after: Bytes)
    requires SEPARATOR !in before + typed + after && SEPARATOR !in before + typo + after
    requires |typed| == |typo| <= 6 && typed != typo
    requires DecodedLower(hrp + [SEPARATOR] + (before + typed + after)).Ok?
    ensures DecodedLower(hrp + [SEPARATOR] + (before + typo + after)).Err?
  {
    hide DecodedLower, PolymodOf, SymbolOf, HrpExpanded;
    var good, bad := before + typed + after, before + typo + after;
    AcceptedParts(hrp, good);
    if DecodedLower(hrp + [SEPARATOR] + bad).Ok? {
      AcceptedParts(hrp, bad);
      SymbolsOfTextAppend(before + typed, after);
      SymbolsOfTextAppend(before, typed);
      SymbolsOfTextAppend(before + typo, after);
      SymbolsOfTextAppend(before, typo);
      TextOfSymbols(typed);
      TextOfSymbols(typo);
      var pre, us, vs, post := HrpExpanded(hrp) + SymbolsOfText(before), SymbolsOfText(typed),
        SymbolsOfText(typo), SymbolsOfText(after);
      assert HrpExpanded(hrp) + SymbolsOfText(good) == pre + us + post;
      assert HrpExpanded(hrp) + SymbolsOfText(bad) == pre + vs + post;
      BurstRejected(pre, us, vs, post);
    }
  }

  /**
   * Whatever the case mapping: if the lower-case forms of two strings differ in up to six neighbouring
   * characters after the prefix, checksum included, and neither has a separator there, not both are accepted.
   */
  lemma TypoRejected(addr: Bytes, other: Bytes, c: LetterCase, hrp: Bytes, before: Bytes, typed: Bytes, typo: Bytes,
                     after: Bytes)
    requires c.lower(addr) == hrp + [SEPARATOR] + (before + typed + after)
    requires c.lower(other) == hrp + [SEPARATOR] + (before + typo + after)
    requires SEPARATOR !in before + typed + after && SEPARATOR !in before + typo + after
    requires |typed| == |typo| <= 6 && typed != typo
    requires Decoded(addr, c).Ok?
    ensures Decoded(other, c).Err?
  {
    hide DecodedLower;
    LowerTypoRejected(hrp, before, typed, typo, after);
  }

  // ---------------------------------------------------------------------------
  // Typos in the prefix

  /** Prefixes of one length whose characters lie, place by place, in the same block of 32: letters and letters. */
  predicate SameBlocks(hrp: Bytes, wrong: Bytes) {
    |hrp| == |wrong| && forall i :: 0 <= i < |hrp| ==> hrp[i] / 32 == wrong[i] / 32
  }

  lemma PrefixDiffers(hrp: Bytes, wrong: Bytes)
    requires SameBlocks(hrp, wrong) && hrp != wrong
    ensures HighBits(hrp) == HighBits(wrong) && LowBits(hrp) != LowBits(wrong)
  {
    if LowBits(hrp) == LowBits(wrong) {
      forall i | 0 <= i < |hrp| ensures hrp[i] == wrong[i] {
        assert LowBits(hrp)[i] == LowBits(wrong)[i];
      }
    }
  }

  /** One data part is never accepted under two prefixes of up to six characters from the same blocks. */
  lemma LowerPrefixTypoRejected(hrp: Bytes, wrong: Bytes, text: Bytes)
    requires SameBlocks(hrp, wrong) && hrp != wrong && |hrp| <= 6 && SEPARATOR !in text
    requires DecodedLower(hrp + [SEPARATOR] + text).Ok?
    ensures DecodedLower(wrong + [SEPARATOR] + text).Err?
  {
    hide DecodedLower, PolymodOf, SymbolOf, HighBits, LowBits;
    AcceptedParts(hrp, text);
    if DecodedLower(wrong + [SEPARATOR] + text).Ok? {
      AcceptedParts(wrong, text);
      PrefixDiffers(hrp, wrong);
      BurstRejected(HighBits(hrp) + [0], LowBits(hrp), LowBits(wrong), SymbolsOfText(text));
    }
  }

  lemma PrefixTypoRejected(addr: Bytes, other: Bytes, c: LetterCase, hrp: Bytes, wrong: Bytes, text: Bytes)
    requires c.lower(addr) == hrp + [SEPARATOR] + text && c.lower(other) == wrong + [SEPARATOR] + text
    requires SameBlocks(hrp, wrong) && hrp != wrong && |hrp| <= 6 && SEPARATOR !in text
    requires Decoded(addr, c).Ok?
    ensures Decoded(other, c).Err?
  {
    hide DecodedLower;
    LowerPrefixTypoRejected(hrp, wrong, text);
  }

  // ---------------------------------------------------------------------------
  // The alphabet, and what each refusal says

  lemma FirstQuarter(i: nat)
    requires i < 8
    ensures CHARSET[i] == Ascii("qpzry9x8")[i]
  {
    match i case 0 => case 1 => case 2 => case 3 => case 4 => case 5 => case 6 => case _ =>
  }

  lemma SecondQuarter(i: nat)
    requires i < 8
    ensures CHARSET[8 + i] == Ascii("gf2tvdw0")[i]
  {
    match i case 0 => case 1 => case 2 => case 3 => case 4 => case 5 => case 6 => case _ =>
  }

  lemma ThirdQuarter(i: nat)
    requires i < 8
    ensures CHARSET[16 + i] == Ascii("s3jn54kh")[i]
  {
    match i case 0 => case 1 => case 2 => case 3 => case 4 => case 5 => case 6 => case _ =>
  }

  lemma FourthQuarter(i: nat)
    requires i < 8
    ensures CHARSET[24 + i] == Ascii("ce6mua7l")[i]
  {
    match i case 0 => case 1 => case 2 => case 3 => case 4 => case 5 => case 6 => case _ =>
  }

  /** The alphabet as BIP-173 writes it, by quarters. */
  lemma CharsetIs(i: nat)
    requires i < 8
    ensures CHARSET[i] == Ascii("qpzry9x8")[i] && CHARSET[8 + i] == Ascii("gf2tvdw0")[i]
    ensures CHARSET[16 + i] == Ascii("s3jn54kh")[i] && CHARSET[24 + i] == Ascii("ce6mua7l")[i]
  {
    hide Ascii;
    FirstQuarter(i);
    SecondQuarter(i);
    ThirdQuarter(i);
    FourthQuarter(i);
  }

  /** How a string in lower case falls apart: at its last separator, into a prefix and at least six characters. */
  predicate Splits(low: Bytes, hrp: Bytes, text: Bytes) {
    low == hrp + [SEPARATOR] + text && SEPARATOR !in text && |hrp| >= 1 && |text| >= 6
  }

  lemma SplitExact(low: Bytes, hrp: Bytes, text: Bytes)
    requires Splits(low, hrp, text)
    ensures DecodedLower(low) == DecodedParts(hrp, text)
  {
    hide DecodedLower, DecodedParts;
    DecodeSplits(hrp, text);
  }

  lemma NoSplit(low: Bytes)
    ensures DecodedLower(low) == Err(Separator) <==> !exists hrp, text :: Splits(low, hrp, text)
  {
    hide DecodedParts, LastSeparator;
    var pos := LastSeparator(low);
    if exists hrp, text :: Splits(low, hrp, text) {
      var hrp, text :| Splits(low, hrp, text);
      SplitExact(low, hrp, text);
      PartsNeverMissSeparator(hrp, text);
    } else if pos >= 1 && pos + 7 <= |low| {
      assert low == low[..pos] + [SEPARATOR] + low[pos + 1..];
      assert SEPARATOR !in low[pos + 1..];
      assert Splits(low, low[..pos], low[pos + 1..]);
    }
  }

  lemma PartsNeverMissSeparator(hrp: Bytes, text: Bytes)
    requires |text| >= 6
    ensures DecodedParts(hrp, text) != Err(Separator) && DecodedParts(hrp, text) != Err(MixedCase)
  {
    hide Regrouped, PolymodOf, AllSymbols, HrpExpanded;
  }

  /** What is wrong with the parts, in this order: a character, the checksum, the bits left over. */
  lemma PartsRefused(hrp: Bytes, text: Bytes)
    requires |text| >= 6
    ensures var r := DecodedParts(hrp, text);
            && (r == Err(Character) <==> exists i :: 0 <= i < |text| && text[i] !in CHARSET)
            && (r == Err(Checksum) <==>
                  AllSymbols(text) && text[|text| - 6..] != Text(ChecksumOf(HrpExpanded(hrp) + Payload(text))))
            && (r.Err? && r.error.Regroup? ==>
                  AllSymbols(text) && forall data8 :: ToQuintets(data8) != Payload(text))
  {
    hide Regrouped, ToQuintets, PolymodOf, ChecksumOf, SymbolOf, HrpExpanded, Below;
    CharactersExact(text);
    if AllSymbols(text) {
      var symbols := SymbolsOfText(text);
      var payload, cs := symbols[..|symbols| - 6], symbols[|symbols| - 6..];
      assert symbols == payload + cs;
      BelowParts(payload, cs, 32);
      BelowParts(HrpExpanded(hrp), payload, 32);
      assert HrpExpanded(hrp) + symbols == HrpExpanded(hrp) + payload + cs;
      ChecksumUnique(HrpExpanded(hrp) + payload, cs);
      var right := ChecksumOf(HrpExpanded(hrp) + payload);
      TextOfSymbols(text);
      assert Text(cs) == text[|text| - 6..];
      if Text(cs) == Text(right) { TextFacts(cs); TextFacts(right); }
      forall data8 | ToQuintets(data8) == payload ensures Regrouped(payload, 5, 8, false) == Ok(data8) {
        BytesSurvive(data8);
      }
    }
  }

  /** All symbols but the checksum's, of a text over the alphabet. */
  function Payload(text: Bytes): Bytes
    requires |text| >= 6
  {
    if AllSymbols(text) then SymbolsOfText(text)[..|text| - 6] else []
  }

  lemma CharactersExact(text: Bytes)
    ensures AllSymbols(text) <==> forall i :: 0 <= i < |text| ==> text[i] in CHARSET
  {
    hide IndexIn;
  }

  /** Mixed case is refused first, and only a string that is neither its lower nor its upper case. */
  lemma MixedCaseExact(addr: Bytes, c: LetterCase)
    ensures Decoded(addr, c) == Err(MixedCase) <==> addr != c.lower(addr) && addr != c.upper(addr)
    ensures Decoded(addr, c) == Err(Separator) <==>
              (addr == c.lower(addr) || addr == c.upper(addr)) && !exists hrp, text :: Splits(c.lower(addr), hrp, text)
  {
    hide DecodedLower;
    NoSplit(c.lower(addr));
    NeverMixed(c.lower(addr));
  }

  lemma NeverMixed(low: Bytes)
    ensures DecodedLower(low) != Err(MixedCase)
  {
    hide DecodedParts, LastSeparator;
    var pos := LastSeparator(low);
    if pos >= 1 && pos + 7 <= |low| { PartsNeverMissSeparator(low[..pos], low[pos + 1..]); }
  }
}
