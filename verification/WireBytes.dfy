/** Byte values as text: hexadecimal, base64, and the wire decoder that tells them apart. */
module WireBytes {
  import opened Common

  // ---------------------------------------------------------------------------
  // Hexadecimal

  function HexChar(d: nat): (c: byte)
    requires d < 16
  {
    if d < 10 then 48 + d else 87 + d
  }

  function HexValue(c: byte): (r: int)
    ensures -1 <= r < 16
  {
    if 48 <= c <= 57 then c - 48 else if 97 <= c <= 102 then c - 87 else if 65 <= c <= 70 then c - 55 else -1
  }

  predicate AllHex(s: Bytes) { forall i :: 0 <= i < |s| ==> HexValue(s[i]) >= 0 }

  /** BytesToHex: two lower-case digits per octet. */
  function HexOf(b: Bytes): (s: Bytes)
    ensures |s| == 2 * |b|
  {
    if |b| == 0 then [] else [HexChar(b[0] / 16), HexChar(b[0] % 16)] + HexOf(b[1..])
  }

  function HexDecoded(s: Bytes): (b: Bytes)
    requires |s| % 2 == 0 && AllHex(s)
    ensures |b| == |s| / 2
  {
    if |s| == 0 then [] else [HexValue(s[0]) * 16 + HexValue(s[1])] + HexDecoded(s[2..])
  }

  function Unprefixed(h: Bytes): Bytes {
    if |h| >= 2 && h[0] == 48 && (h[1] == 120 || h[1] == 88) then h[2..] else h
  }

  /** HexToBytes: an optional 0x prefix, then pairs of digits in either case. */
  function HexToBytes(h: Bytes): Option<Bytes> {
    var s := Unprefixed(h);
    if |s| % 2 == 0 && AllHex(s) then Some(HexDecoded(s)) else None
  }

  /** The bytes where an error is ignored: text that does not parse counts as empty. */
  function HexOrEmpty(h: Bytes): Bytes { match HexToBytes(h) case Some(b) => b case None => [] }

  /** Hexadecimal without prefix and in lower case; empty for text that does not parse. */
  function NormalHex(h: Bytes): Bytes { if HexToBytes(h).Some? then Lower(Unprefixed(h)) else [] }

  lemma HexDigit(d: nat)
    requires d < 16
    ensures HexValue(HexChar(d)) == d
  {
  }

  lemma PairIsHex(a: byte, b: byte, rest: Bytes)
    requires HexValue(a) >= 0 && HexValue(b) >= 0 && AllHex(rest)
    ensures AllHex([a, b] + rest)
  {
    hide HexValue;
  }

  lemma PairDecodes(a: byte, b: byte, rest: Bytes)
    requires HexValue(a) >= 0 && HexValue(b) >= 0 && |rest| % 2 == 0 && AllHex(rest)
    ensures AllHex([a, b] + rest)
    ensures HexDecoded([a, b] + rest) == [HexValue(a) * 16 + HexValue(b)] + HexDecoded(rest)
  {
    hide HexValue, AllHex;
    PairIsHex(a, b, rest);
    var s := [a, b] + rest;
    assert s[2..] == rest && s[0] == a && s[1] == b;
  }

  lemma {:induction false} HexDecodes(b: Bytes)
    ensures AllHex(HexOf(b)) && HexDecoded(HexOf(b)) == b
  {
    hide HexChar, HexValue, AllHex;
    if |b| == 0 {
      NoHex();
    } else {
      HexDecodes(b[1..]);
      HexDigit(b[0] / 16);
      HexDigit(b[0] % 16);
      hide HexDecoded;
      PairDecodes(HexChar(b[0] / 16), HexChar(b[0] % 16), HexOf(b[1..]));
      assert b == [b[0]] + b[1..];
    }
  }

  lemma NoHex()
    ensures AllHex([])
  {
  }

  lemma HexRoundTrip(b: Bytes)
    ensures HexToBytes(HexOf(b)) == Some(b)
  {
    HexDecodes(b);
    if |b| != 0 { assert HexValue(HexOf(b)[1]) >= 0; }
  }

  lemma LowerPair(s: Bytes)
    requires |s| >= 2
    ensures Lower(s) == [LowerByte(s[0]), LowerByte(s[1])] + Lower(s[2..])
  {
  }

  lemma DigitBack(c: byte)
    requires HexValue(c) >= 0
    ensures HexChar(HexValue(c)) == LowerByte(c)
  {
  }

  lemma {:induction false} HexOfDecoded(s: Bytes)
    requires |s| % 2 == 0 && AllHex(s)
    ensures HexOf(HexDecoded(s)) == Lower(s)
  {
    hide Lower, LowerByte, HexValue, HexChar;
    if |s| == 0 {
      assert |Lower(s)| == 0;
    } else {
      LowerPair(s);
      DigitBack(s[0]);
      DigitBack(s[1]);
      HexOfDecoded(s[2..]);
      var b := HexDecoded(s);
      assert b[1..] == HexDecoded(s[2..]);
      assert b[0] / 16 == HexValue(s[0]) && b[0] % 16 == HexValue(s[1]);
    }
  }

  /** A text is read as b exactly when, without prefix and in lower case, it is the hexadecimal of b. */
  lemma HexReadsExactly(h: Bytes, b: Bytes)
    ensures HexToBytes(h) == Some(b) <==> Lower(Unprefixed(h)) == HexOf(b)
  {
    hide HexDecoded, HexOf;
    var s := Unprefixed(h);
    HexDecodes(b);
    if Lower(s) == HexOf(b) {
      forall i | 0 <= i < |s| ensures HexValue(s[i]) >= 0 { assert HexValue(Lower(s)[i]) >= 0; }
      HexOfDecoded(s);
      HexDecodes(HexDecoded(s));
    } else if HexToBytes(h) == Some(b) {
      HexOfDecoded(s);
    }
  }

  /** Two texts stand for the same bytes, errors ignored, exactly when their normal forms are equal. */
  lemma SameHex(g: Bytes, h: Bytes)
    ensures HexOrEmpty(g) == HexOrEmpty(h) <==> NormalHex(g) == NormalHex(h)
    ensures |NormalHex(g)| == 2 * |HexOrEmpty(g)| && HexOf(HexOrEmpty(g)) == NormalHex(g)
  {
    NormalForm(g);
    NormalForm(h);
    HexDecodes(HexOrEmpty(g));
    HexDecodes(HexOrEmpty(h));
    hide HexToBytes, HexDecoded, HexOf, AllHex;
  }

  lemma NormalForm(h: Bytes)
    ensures HexOf(HexOrEmpty(h)) == NormalHex(h)
  {
    HexReadsExactly(h, HexOrEmpty(h));
    hide HexToBytes, Lower;
    assert HexOf([]) == [];
  }

  // ---------------------------------------------------------------------------
  // Base64 (RFC 4648, section 4)

  const PAD: byte := 61 // '='

  function Base64Char(d: nat): (c: byte)
    requires d < 64
    ensures c != PAD
  {
    if d < 26 then 65 + d else if d < 52 then 71 + d else if d < 62 then d - 4 else if d == 62 then 43 else 47
  }

  function Base64Value(c: byte): (r: int)
    ensures -1 <= r < 64
  {
    if 65 <= c <= 90 then c - 65 else if 97 <= c <= 122 then c - 71 else if 48 <= c <= 57 then c + 4
    else if c == 43 then 62 else if c == 47 then 63 else -1
  }

  lemma Base64CharValue(d: nat)
    requires d < 64
    ensures Base64Value(Base64Char(d)) == d
  {
  }

  /** Three octets as one 24-bit number, its octets, and its four sextets. */
  function Pack(b0: byte, b1: byte, b2: byte): (n: nat)
    ensures n < 16777216
  {
    (b0 * 256 + b1) * 256 + b2
  }

  function Octet(n: nat, k: nat): (b: byte)
    requires k < 3
  {
    match k case 0 => n / 256 / 256 % 256 case 1 => n / 256 % 256 case _ => n % 256
  }

  function Sextet(n: nat, k: nat): (d: nat)
    requires k < 4
    ensures d < 64
  {
    match k case 0 => n / 64 / 64 / 64 % 64 case 1 => n / 64 / 64 % 64 case 2 => n / 64 % 64 case _ => n % 64
  }

  function Group(a: nat, b: nat, c: nat, d: nat): nat { ((a * 64 + b) * 64 + c) * 64 + d }

  lemma PackOctets(b0: byte, b1: byte, b2: byte)
    ensures var n := Pack(b0, b1, b2); Octet(n, 0) == b0 && Octet(n, 1) == b1 && Octet(n, 2) == b2
  {
  }

  lemma GroupSextets(n: nat)
    requires n < 16777216
    ensures Group(Sextet(n, 0), Sextet(n, 1), Sextet(n, 2), Sextet(n, 3)) == n
  {
  }

  lemma ZeroSextets(b0: byte, b1: byte)
    ensures Sextet(Pack(b0, b1, 0), 3) == 0
    ensures Sextet(Pack(b0, 0, 0), 2) == 0 && Sextet(Pack(b0, 0, 0), 3) == 0
  {
    assert Pack(b0, b1, 0) == 64 * (b0 * 1024 + b1 * 4);
    assert Pack(b0, 0, 0) / 64 == 64 * (b0 * 16);
  }

  /** The four characters of the first `count` octets of a 24-bit number. */
  function Quad(n: nat, count: nat): (q: Bytes)
    ensures |q| == 4
  {
    [Base64Char(Sextet(n, 0)), Base64Char(Sextet(n, 1)),
     if count > 1 then Base64Char(Sextet(n, 2)) else PAD,
     if count > 2 then Base64Char(Sextet(n, 3)) else PAD]
  }

  function Base64Of(b: Bytes): (s: Bytes) {
    if |b| == 0 then []
    else if |b| == 1 then Quad(Pack(b[0], 0, 0), 1)
    else if |b| == 2 then Quad(Pack(b[0], b[1], 0), 2)
    else Quad(Pack(b[0], b[1], b[2]), 3) + Base64Of(b[3..])
  }

  /** The text is k quads for every three octets begun, the last one padded unless it is full. */
  lemma {:induction false} Base64Length(b: Bytes) returns (k: nat)
    ensures |Base64Of(b)| == 4 * k && 3 * k - 3 < |b| <= 3 * k
    ensures |b| < 3 * k ==> Base64Of(b)[4 * k - 1] == PAD
  {
    hide Sextet, Pack, Base64Char;
    if |b| >= 3 {
      k := Base64Length(b[3..]);
      k := k + 1;
    } else {
      k := if |b| == 0 then 0 else 1;
    }
  }

  /** The hand-written base64 encoder of the transaction client. */
  method Base64Encode(input: Bytes) returns (out: Bytes)
    ensures out == Base64Of(input)
  {
    hide Sextet, Pack, Base64Char, Base64Of;
    out := [];
    var at := 0;
    assert input[0..] == input;
    while at < |input|
      invariant 0 <= at <= |input|
      invariant out + Base64Of(input[at..]) == Base64Of(input)
    {
      var chunk := input[at..if at + 3 <= |input| then at + 3 else |input|];
      var b0 := chunk[0];
      var b1 := if |chunk| > 1 then chunk[1] else 0;
      var b2 := if |chunk| > 2 then chunk[2] else 0;
      var n := Pack(b0, b1, b2);
      ghost var before := out;
      out := out + [Base64Char(Sextet(n, 0))];
      out := out + [Base64Char(Sextet(n, 1))];
      out := out + [if |chunk| > 1 then Base64Char(Sextet(n, 2)) else PAD];
      out := out + [if |chunk| > 2 then Base64Char(Sextet(n, 3)) else PAD];
      assert out == before + Quad(n, |chunk|);
      ChunkStep(input[at..], chunk);
      assert input[at..][|chunk|..] == input[at + |chunk|..];
      at := at + |chunk|;
    }
    EmptyText();
    assert input[at..] == [];
  }

  lemma EmptyText()
    ensures Base64Of([]) == []
  {
  }

  lemma ShortChunks(s: Bytes)
    ensures |s| == 1 ==> Base64Of(s) == Quad(Pack(s[0], 0, 0), 1)
    ensures |s| == 2 ==> Base64Of(s) == Quad(Pack(s[0], s[1], 0), 2)
    ensures |s| >= 3 ==> Base64Of(s) == Quad(Pack(s[0], s[1], s[2]), 3) + Base64Of(s[3..])
  {
    hide Quad, Pack;
  }

  lemma ChunkStep(s: Bytes, chunk: Bytes)
    requires |s| > 0 && chunk == if |s| >= 3 then s[..3] else s
    ensures Base64Of(s)
         == Quad(Pack(chunk[0], if |chunk| > 1 then chunk[1] else 0, if |chunk| > 2 then chunk[2] else 0), |chunk|)
            + Base64Of(s[|chunk|..])
  {
    hide Quad, Pack, Base64Of;
    ShortChunks(s);
    EmptyText();
    if |s| >= 3 {
      assert chunk[0] == s[0] && chunk[1] == s[1] && chunk[2] == s[2];
    } else {
      assert s[|chunk|..] == [];
    }
  }

  /** The decoder, defined from the standard: whole quads, padding only in the last one. */
  function Base64Decoded(s: Bytes): (r: Option<Bytes>) {
    if |s| == 0 then Some([])
    else if |s| < 4 || Base64Value(s[0]) < 0 || Base64Value(s[1]) < 0 then None
    else
      var v0, v1, v2, v3 := Base64Value(s[0]), Base64Value(s[1]), Base64Value(s[2]), Base64Value(s[3]);
      if |s| == 4 && s[2] == PAD && s[3] == PAD then Some([Octet(Group(v0, v1, 0, 0), 0)])
      else if v2 < 0 then None
      else if |s| == 4 && s[3] == PAD then
        Some([Octet(Group(v0, v1, v2, 0), 0), Octet(Group(v0, v1, v2, 0), 1)])
      else if v3 < 0 then None
      else
        var n := Group(v0, v1, v2, v3);
        match Base64Decoded(s[4..])
        case None => None
        case Some(rest) => Some([Octet(n, 0), Octet(n, 1), Octet(n, 2)] + rest)
  }

  lemma QuadValues(n: nat, count: nat)
    ensures var q := Quad(n, count);
            && Base64Value(q[0]) == Sextet(n, 0) && Base64Value(q[1]) == Sextet(n, 1)
            && (if count > 1 then Base64Value(q[2]) == Sextet(n, 2) && q[2] != PAD else q[2] == PAD)
            && (if count > 2 then Base64Value(q[3]) == Sextet(n, 3) && q[3] != PAD else q[3] == PAD)
  {
    hide Base64Char, Base64Value, Sextet;
    Base64CharValue(Sextet(n, 0));
    Base64CharValue(Sextet(n, 1));
    Base64CharValue(Sextet(n, 2));
    Base64CharValue(Sextet(n, 3));
  }

  lemma QuadDecodes(b0: byte, b1: byte, b2: byte, rest: Bytes)
    ensures Base64Decoded(Quad(Pack(b0, b1, b2), 3) + rest)
         == match Base64Decoded(rest) case None => None case Some(r) => Some([b0, b1, b2] + r)
  {
    hide Base64Value, Quad, Group, Sextet, Octet, Pack;
    var n := Pack(b0, b1, b2);
    QuadValues(n, 3);
    GroupSextets(n);
    PackOctets(b0, b1, b2);
    var s := Quad(n, 3) + rest;
    assert s[0] == Quad(n, 3)[0] && s[1] == Quad(n, 3)[1] && s[2] == Quad(n, 3)[2] && s[3] == Quad(n, 3)[3];
    assert s[4..] == rest;
  }

  lemma ShortQuadDecodes(b0: byte, b1: byte)
    ensures Base64Decoded(Quad(Pack(b0, 0, 0), 1)) == Some([b0])
    ensures Base64Decoded(Quad(Pack(b0, b1, 0), 2)) == Some([b0, b1])
  {
    hide Base64Value, Quad, Group, Sextet, Octet, Pack;
    QuadValues(Pack(b0, 0, 0), 1);
    QuadValues(Pack(b0, b1, 0), 2);
    ZeroSextets(b0, b1);
    GroupSextets(Pack(b0, 0, 0));
    GroupSextets(Pack(b0, b1, 0));
    PackOctets(b0, 0, 0);
    PackOctets(b0, b1, 0);
  }

  /** Decoding the encoder's output returns the bytes. */
  lemma {:induction false} Base64RoundTrip(b: Bytes)
    ensures Base64Decoded(Base64Of(b)) == Some(b)
  {
    hide Quad, Base64Decoded, Pack;
    if |b| == 0 {
      EmptyDecodes();
    } else if |b| <= 2 {
      ShortQuadDecodes(b[0], b[|b| - 1]);
      assert b == if |b| == 1 then [b[0]] else [b[0], b[1]];
    } else {
      Base64RoundTrip(b[3..]);
      QuadDecodes(b[0], b[1], b[2], Base64Of(b[3..]));
      assert b == [b[0], b[1], b[2]] + b[3..];
    }
  }

  lemma EmptyDecodes()
    ensures Base64Decoded([]) == Some([])
  {
  }

  // ---------------------------------------------------------------------------
  // The wire decoder

  /** Whether a text has a character no hexadecimal text has: + / = or a letter past F. */
  predicate Base64Mark(c: byte) { c == 43 || c == 47 || c == 61 || 103 <= c <= 122 || 71 <= c <= 90 }

  /** DecodeWireBytes: read as hexadecimal when that is possible, as base64 otherwise. */
  function DecodeWireBytes(value: Bytes): (r: Option<Bytes>) {
    if |value| == 0 then Some([])
    else if |value| % 2 == 0 && AllHex(value) && !(exists i :: 0 <= i < |value| && Base64Mark(value[i])) then
      Some(HexDecoded(value))
    else Base64Decoded(value)
  }

  /** hexWireBytes: the same, normalised to lower-case hexadecimal; empty on failure. */
  function HexWireBytes(value: Bytes): Bytes {
    match DecodeWireBytes(value) case None => [] case Some(b) => HexOf(b)
  }

  lemma HexIsNotMarked(s: Bytes)
    requires AllHex(s)
    ensures forall i :: 0 <= i < |s| ==> !Base64Mark(s[i])
  {
    forall i | 0 <= i < |s| ensures !Base64Mark(s[i]) { assert HexValue(s[i]) >= 0; }
  }

  /** Hexadecimal text of any bytes is read back as those bytes. */
  lemma WireReadsHex(b: Bytes)
    ensures DecodeWireBytes(HexOf(b)) == Some(b)
  {
    HexDecodes(b);
    HexIsNotMarked(HexOf(b));
  }

  lemma NotHex(b: Bytes, k: nat)
    requires |Base64Of(b)| == 4 * k && k > 0 && Base64Of(b)[4 * k - 1] == PAD
    ensures !AllHex(Base64Of(b))
  {
    hide Base64Of, HexValue;
    PadIsNotHex();
  }

  /** Quads that pass for hexadecimal are read as two octets each. */
  lemma QuadsAsHex(s: Bytes, k: nat)
    requires |s| == 4 * k && AllHex(s)
    ensures DecodeWireBytes(s).Some? && |DecodeWireBytes(s).value| == 2 * k
  {
    hide Base64Decoded, AllHex, DecodeWireBytes;
    WireCases(s);
  }

  lemma NotThirds(n: nat, k: nat)
    requires n == 3 * k
    ensures n % 3 == 0
  {
  }

  /** Base64 text is read back as its bytes exactly when it is empty or cannot pass for hexadecimal. */
  lemma WireReadsBase64(b: Bytes)
    ensures DecodeWireBytes(Base64Of(b)) == Some(b) <==> |b| == 0 || !AllHex(Base64Of(b))
    ensures |b| % 3 != 0 ==> !AllHex(Base64Of(b))
  {
    hide *;
    var k := Base64Length(b);
    var s := Base64Of(b);
    Base64RoundTrip(b);
    EmptyText();
    WireCases(s);
    if |b| < 3 * k { NotHex(b, k); } else { NotThirds(|b|, k); }
    if AllHex(s) { QuadsAsHex(s, k); }
  }

  /** The wire decoder goes by the number of characters and the hexadecimal alphabet alone. */
  lemma WireCases(s: Bytes)
    ensures |s| % 2 == 0 && AllHex(s) ==> DecodeWireBytes(s) == Some(HexDecoded(s))
    ensures !(|s| % 2 == 0 && AllHex(s)) ==> DecodeWireBytes(s) == Base64Decoded(s)
    ensures DecodeWireBytes([]) == Some([])
  {
    hide Base64Decoded, HexDecoded, HexValue, Base64Mark;
    if AllHex(s) { HexIsNotMarked(s); }
  }

  lemma PadIsNotHex()
    ensures HexValue(PAD) == -1
  {
  }

  /** Three octets whose base64 text, "abcd", is also hexadecimal: two other octets are read. */
  lemma WireMisreads() returns (b: Bytes)
    ensures b == [105, 183, 29] && DecodeWireBytes(Base64Of(b)) == Some([171, 205])
  {
    b := [105, 183, 29];
    var s: Bytes := [97, 98, 99, 100];
    assert Pack(105, 183, 29) == 6928157;
    assert Quad(6928157, 3) == s;
    assert Base64Of(b) == s by {
      assert b[3..] == [];
      EmptyText();
    }
    assert AllHex(s);
    WireCases(s);
    var tail: Bytes := [99, 100];
    assert s[2..] == tail && tail[2..] == [];
    assert HexDecoded(tail) == [205];
    assert HexDecoded(s) == [171] + HexDecoded(tail) == [171, 205];
  }

  // ---------------------------------------------------------------------------
  // The alphabets, and texts as they stand in the source

  lemma SmallHexDigits(d: nat)
    requires d < 8
    ensures HexChar(d) == Ascii("01234567")[d] && HexChar(d + 8) == Ascii("89abcdef")[d]
  {
    match d case 0 => case 1 => case 2 => case 3 => case 4 => case 5 => case 6 => case _ =>
  }

  lemma CapitalHexDigits(d: nat)
    requires d < 6
    ensures HexValue(Ascii("ABCDEF")[d]) == 10 + d
  {
    match d case 0 => case 1 => case 2 => case 3 => case 4 => case _ =>
  }

  /** The hexadecimal digits written, and those read besides. */
  lemma HexAlphabet(d: nat)
    requires d < 16
    ensures HexChar(d) == if d < 8 then Ascii("01234567")[d] else Ascii("89abcdef")[d - 8]
    ensures HexValue(HexChar(d)) == d && (d >= 10 ==> HexValue(Ascii("ABCDEF")[d - 10]) == d)
  {
    hide Ascii;
    SmallHexDigits(d % 8);
    if d >= 10 { CapitalHexDigits(d - 10); }
  }

  /** Table 1 of RFC 4648, by parts. */
  function Base64Letter(d: nat): byte
    requires d < 64
  {
    if d < 13 then Ascii("ABCDEFGHIJKLM")[d]
    else if d < 26 then Ascii("NOPQRSTUVWXYZ")[d - 13]
    else if d < 39 then Ascii("abcdefghijklm")[d - 26]
    else if d < 52 then Ascii("nopqrstuvwxyz")[d - 39]
    else Ascii("0123456789+/")[d - 52]
  }

  lemma LettersUpper(d: nat)
    requires d < 13
    ensures Ascii("ABCDEFGHIJKLM")[d] == 65 + d && Ascii("NOPQRSTUVWXYZ")[d] == 78 + d
  {
    match d case 0 => case 1 => case 2 => case 3 => case 4 => case 5 => case 6 => case 7 => case 8 => case 9 =>
      case 10 => case 11 => case _ =>
  }

  lemma LettersLower(d: nat)
    requires d < 13
    ensures Ascii("abcdefghijklm")[d] == 97 + d && Ascii("nopqrstuvwxyz")[d] == 110 + d
  {
    match d case 0 => case 1 => case 2 => case 3 => case 4 => case 5 => case 6 => case 7 => case 8 => case 9 =>
      case 10 => case 11 => case _ =>
  }

  lemma DigitsAndSigns(d: nat)
    requires d < 12
    ensures Ascii("0123456789+/")[d] == if d < 10 then 48 + d else if d == 10 then 43 else 47
  {
    match d case 0 => case 1 => case 2 => case 3 => case 4 => case 5 => case 6 => case 7 => case 8 => case 9 =>
      case 10 => case _ =>
  }

  lemma Base64CharExact(d: nat)
    requires d < 64
    ensures Base64Char(d) == Base64Letter(d) && PAD == Ascii("=")[0]
  {
    assert Ascii("=")[0] == 61;
    hide Ascii;
    if d < 13 {
      LettersUpper(d);
    } else if d < 26 {
      LettersUpper(d - 13);
    } else if d < 39 {
      LettersLower(d - 26);
    } else if d < 52 {
      LettersLower(d - 39);
    } else {
      DigitsAndSigns(d - 52);
    }
  }

  /** A 0x in either case in front of hexadecimal is passed over. */
  lemma PrefixPassedOver(b: Bytes)
    ensures HexToBytes(Ascii("0x") + HexOf(b)) == Some(b) && HexToBytes(Ascii("0X") + HexOf(b)) == Some(b)
  {
    hide HexDecoded, HexOf;
    HexDecodes(b);
    assert (Ascii("0x") + HexOf(b))[2..] == HexOf(b) && (Ascii("0X") + HexOf(b))[2..] == HexOf(b);
    assert Ascii("0x")[0] == 48 && Ascii("0x")[1] == 120 && Ascii("0X")[0] == 48 && Ascii("0X")[1] == 88;
  }

  /** hexWireBytes is the hexadecimal of what the wire decoder reads, and empty where it reads nothing. */
  lemma HexWireExact(b: Bytes, s: Bytes)
    ensures HexWireBytes(HexOf(b)) == HexOf(b)
    ensures !AllHex(Base64Of(b)) ==> HexWireBytes(Base64Of(b)) == HexOf(b)
    ensures HexToBytes(HexWireBytes(s)) == Some(if DecodeWireBytes(s).Some? then DecodeWireBytes(s).value else [])
  {
    hide HexDecoded, Base64Of, DecodeWireBytes, HexToBytes, AllHex;
    WireReadsHex(b);
    WireReadsBase64(b);
    var read := if DecodeWireBytes(s).Some? then DecodeWireBytes(s).value else [];
    HexRoundTrip(read);
    assert HexOf([]) == [];
    assert HexWireBytes(s) == HexOf(read);
  }
}
