/**
 * Why a typo must not type the separator: two accepted addresses, "a1qq2ejacncldpl8" and
 * "a1qq1qqqqqcldpl8", that differ in six neighbouring characters only.
 */
module Bech32SeparatorTypo {
  import opened Common
  import opened Bech32Checksum
  import opened BitRegroup
  import opened Bech32Codec

  // ---------------------------------------------------------------------------
  // The checksum, step by step

  lemma RunNone(c: bv32, ws: seq<bv32>)
    ensures Run(c, ws[..0]) == c
  {
  }

  lemma RunPush(c: bv32, ws: seq<bv32>, i: nat)
    requires i < |ws|
    ensures Run(c, ws[..i + 1]) == Step(Run(c, ws[..i]), ws[i])
  {
    assert ws[..i + 1][..i] == ws[..i];
  }

  lemma GoodFrontSteps()
    ensures Step(0x1, 3) == 0x23
    ensures Step(0x23, 0) == 0x460
    ensures Step(0x460, 1) == 0x8c01
    ensures Step(0x8c01, 0) == 0x118020
    ensures Step(0x118020, 0) == 0x2300400
    ensures Step(0x2300400, 10) == 0x3d6ad7b8
  {
  }

  lemma GoodFront()
    ensures Run(0x1, [3, 0, 1, 0, 0, 10]) == 0x3d6ad7b8
  {
    hide Step, Run;
    GoodFrontSteps();
    var ws: seq<bv32> := [3, 0, 1, 0, 0, 10];
    RunNone(0x1, ws);
    RunPush(0x1, ws, 0);
    RunPush(0x1, ws, 1);
    RunPush(0x1, ws, 2);
    RunPush(0x1, ws, 3);
    RunPush(0x1, ws, 4);
    RunPush(0x1, ws, 5);
    assert ws[..6] == ws;
  }

  lemma GoodMiddleSteps()
    ensures Step(0x3d6ad7b8, 25) == 0x2fd31e0
    ensures Step(0x2fd31e0, 18) == 0x24cc6ba0
    ensures Step(0x24cc6ba0, 29) == 0x15c998c3
    ensures Step(0x15c998c3, 24) == 0x2221a5c8
    ensures Step(0x2221a5c8, 19) == 0x154a8c12
  {
  }

  lemma GoodMiddle()
    ensures Run(0x3d6ad7b8, [25, 18, 29, 24, 19]) == 0x154a8c12
  {
    hide Step, Run;
    GoodMiddleSteps();
    var ws: seq<bv32> := [25, 18, 29, 24, 19];
    RunNone(0x3d6ad7b8, ws);
    RunPush(0x3d6ad7b8, ws, 0);
    RunPush(0x3d6ad7b8, ws, 1);
    RunPush(0x3d6ad7b8, ws, 2);
    RunPush(0x3d6ad7b8, ws, 3);
    RunPush(0x3d6ad7b8, ws, 4);
    assert ws[..5] == ws;
  }

  lemma BadFrontSteps()
    ensures Step(0x1, 3) == 0x23
    ensures Step(0x23, 1) == 0x461
    ensures Step(0x461, 3) == 0x8c23
    ensures Step(0x8c23, 3) == 0x118463
    ensures Step(0x118463, 0) == 0x2308c60
    ensures Step(0x2308c60, 1) == 0x3d7bdbb3
    ensures Step(0x3d7bdbb3, 17) == 0xdcb088
  {
  }

  lemma BadFront()
    ensures Run(0x1, [3, 1, 3, 3, 0, 1, 17]) == 0xdcb088
  {
    hide Step, Run;
    BadFrontSteps();
    var ws: seq<bv32> := [3, 1, 3, 3, 0, 1, 17];
    RunNone(0x1, ws);
    RunPush(0x1, ws, 0);
    RunPush(0x1, ws, 1);
    RunPush(0x1, ws, 2);
    RunPush(0x1, ws, 3);
    RunPush(0x1, ws, 4);
    RunPush(0x1, ws, 5);
    RunPush(0x1, ws, 6);
    assert ws[..7] == ws;
  }

  lemma BadMiddleSteps()
    ensures Step(0xdcb088, 17) == 0x1b961111
    ensures Step(0x1b961111, 17) == 0x2a4b5fa4
    ensures Step(0x2a4b5fa4, 0) == 0x6b4d87b
    ensures Step(0x6b4d87b, 0) == 0xba1d6bf
    ensures Step(0xba1d6bf, 0) == 0x11f199a8
    ensures Step(0x11f199a8, 0) == 0x37106dd
    ensures Step(0x37106dd, 0) == 0x154a8c12
  {
  }

  lemma BadMiddle()
    ensures Run(0xdcb088, [17, 17, 0, 0, 0, 0, 0]) == 0x154a8c12
  {
    hide Step, Run;
    BadMiddleSteps();
    var ws: seq<bv32> := [17, 17, 0, 0, 0, 0, 0];
    RunNone(0xdcb088, ws);
    RunPush(0xdcb088, ws, 0);
    RunPush(0xdcb088, ws, 1);
    RunPush(0xdcb088, ws, 2);
    RunPush(0xdcb088, ws, 3);
    RunPush(0xdcb088, ws, 4);
    RunPush(0xdcb088, ws, 5);
    RunPush(0xdcb088, ws, 6);
    assert ws[..7] == ws;
  }

  lemma SharedEndSteps()
    ensures Step(0x154a8c12, 24) == 0x32433fe8
    ensures Step(0x32433fe8, 31) == 0x245bfbc3
    ensures Step(0x245bfbc3, 13) == 0x73b94b3
    ensures Step(0x73b94b3, 1) == 0x3a484fbe
    ensures Step(0x3a484fbe, 31) == 0x3b94e8f9
    ensures Step(0x3b94e8f9, 7) == 0x1
  {
  }

  lemma SharedEnd()
    ensures Run(0x154a8c12, [24, 31, 13, 1, 31, 7]) == 0x1
  {
    hide Step, Run;
    SharedEndSteps();
    var ws: seq<bv32> := [24, 31, 13, 1, 31, 7];
    RunNone(0x154a8c12, ws);
    RunPush(0x154a8c12, ws, 0);
    RunPush(0x154a8c12, ws, 1);
    RunPush(0x154a8c12, ws, 2);
    RunPush(0x154a8c12, ws, 3);
    RunPush(0x154a8c12, ws, 4);
    RunPush(0x154a8c12, ws, 5);
    assert ws[..6] == ws;
  }

  /** The symbols after the prefix: those of both windows and the common end. */
  const BEFORE: Bytes := [0, 0]
  const TYPED: Bytes := [10, 25, 18, 29, 24, 19]
  const TYPO: Bytes := [0, 0, 0, 0, 0]
  const AFTER: Bytes := [24, 31, 13, 1, 31, 7]

  const GOOD_WORDS: seq<bv32> := [3, 0, 1, 0, 0, 10, 25, 18, 29, 24, 19]
  const BAD_WORDS: seq<bv32> := [3, 1, 3, 3, 0, 1, 17, 17, 17, 0, 0, 0, 0, 0]
  const END_WORDS: seq<bv32> := [24, 31, 13, 1, 31, 7]

  lemma GoodVerifies()
    ensures Run(1, GOOD_WORDS + END_WORDS) == 1
  {
    hide Step, Run;
    GoodFront();
    GoodMiddle();
    SharedEnd();
    var front, middle: seq<bv32> := [3, 0, 1, 0, 0, 10], [25, 18, 29, 24, 19];
    RunAppend(1, front, middle);
    RunAppend(1, front + middle, END_WORDS);
    assert front + middle == GOOD_WORDS;
  }

  lemma BadVerifies()
    ensures Run(1, BAD_WORDS + END_WORDS) == 1
  {
    hide Step, Run;
    BadFront();
    BadMiddle();
    SharedEnd();
    var front, middle: seq<bv32> := [3, 1, 3, 3, 0, 1, 17], [17, 17, 0, 0, 0, 0, 0];
    RunAppend(1, front, middle);
    RunAppend(1, front + middle, END_WORDS);
    assert front + middle == BAD_WORDS;
  }

  // ---------------------------------------------------------------------------
  // The two addresses

  const PREFIX: Bytes := [97] // "a"

  function LongPrefix(): Bytes { PREFIX + [SEPARATOR] + Text(BEFORE) }

  lemma Expanded()
    ensures HrpExpanded(PREFIX) == [3, 0, 1] && HrpExpanded(LongPrefix()) == [3, 1, 3, 3, 0, 1, 17, 17, 17]
  {
    assert CHARSET[0] == 113;
    assert Text(BEFORE) == [113, 113];
    var long: Bytes := [97, 49, 113, 113];
    assert LongPrefix() == long;
    assert HighBits(long) == [3, 1, 3, 3] && LowBits(long) == [1, 17, 17, 17];
  }

  lemma WordValues()
    ensures Word(0) == 0 && Word(1) == 1 && Word(3) == 3 && Word(7) == 7 && Word(10) == 10 && Word(13) == 13
    ensures Word(17) == 17 && Word(18) == 18 && Word(19) == 19 && Word(24) == 24 && Word(25) == 25 && Word(29) == 29
    ensures Word(31) == 31
  {
  }

  lemma WindowWords()
    ensures Words(BEFORE) == [0, 0] && Words(TYPO) == [0, 0, 0, 0, 0] && Words([3, 0, 1]) == [3, 0, 1]
    ensures Words(TYPED) == [10, 25, 18, 29, 24, 19] && Words(AFTER) == END_WORDS
  {
    hide Word;
    WordValues();
  }

  lemma PrefixWords()
    ensures Words([3, 1, 3, 3, 0, 1, 17, 17, 17]) == [3, 1, 3, 3, 0, 1, 17, 17, 17]
  {
    hide Word;
    WordValues();
  }

  lemma GoodPolymod()
    ensures PolymodOf(HrpExpanded(PREFIX) + (BEFORE + TYPED + AFTER)) == 1
  {
    hide Run, HrpExpanded, Words;
    Expanded();
    WindowWords();
    GoodVerifies();
    WordsAppend(BEFORE, TYPED);
    WordsAppend(BEFORE + TYPED, AFTER);
    WordsAppend(HrpExpanded(PREFIX), BEFORE + TYPED + AFTER);
    assert Words(HrpExpanded(PREFIX) + (BEFORE + TYPED + AFTER)) == GOOD_WORDS + END_WORDS;
  }

  lemma BadPolymod()
    ensures PolymodOf(HrpExpanded(LongPrefix()) + (TYPO + AFTER)) == 1
  {
    hide Run, HrpExpanded, Words, LongPrefix;
    Expanded();
    WindowWords();
    PrefixWords();
    BadVerifies();
    WordsAppend(TYPO, AFTER);
    WordsAppend(HrpExpanded(LongPrefix()), TYPO + AFTER);
    assert Words(HrpExpanded(LongPrefix()) + (TYPO + AFTER)) == BAD_WORDS + END_WORDS;
  }

  lemma WholeBytes(d5: Bytes)
    requires Below(d5, 32) && |d5| == 8
    ensures Regrouped(d5, 5, 8, false).Ok?
  {
    Widths();
    hide Pow2, Number, ByteDigits;
    assert forall x: nat :: x % 1 == 0;
  }

  lemma ZeroBytes()
    ensures Regrouped(TYPO, 5, 8, false).Ok?
  {
    Widths();
    assert Number(TYPO, 32) == 0 by { NumberOfZeros(TYPO); }
    assert Pow2(1) == 2;
    hide Pow2, Number, ByteDigits;
  }

  lemma {:induction false} NumberOfZeros(s: Bytes)
    requires forall i :: 0 <= i < |s| ==> s[i] == 0
    ensures Number(s, 32) == 0
  {
    if |s| == 0 {
    } else {
      NumberOfZeros(s[..|s| - 1]);
    }
  }

  lemma Accepts(hrp: Bytes, payload: Bytes, end: Bytes)
    requires |hrp| >= 1 && Below(payload, 32) && Below(end, 32) && |end| == 6
    requires PolymodOf(HrpExpanded(hrp) + (payload + end)) == 1 && Regrouped(payload, 5, 8, false).Ok?
    ensures DecodedLower(hrp + [SEPARATOR] + Text(payload + end)).Ok?
  {
    hide Regrouped, PolymodOf, SymbolOf, HrpExpanded, DecodedLower;
    TextFacts(payload + end);
    DecodeSplits(hrp, Text(payload + end));
    assert (payload + end)[..|payload|] == payload;
  }

  /**
   * Both addresses are accepted, have the same length and differ in one window of six characters, the first
   * of which is a separator in one of them.
   */
  lemma SeparatorTypoAccepted(c: LetterCase) returns (before: Bytes, typed: Bytes, typo: Bytes, after: Bytes)
    requires AsciiCase(c)
    ensures |typed| == |typo| == 6 && typed != typo && typo[0] == SEPARATOR && SEPARATOR !in before + typed + after
    ensures Decoded(PREFIX + [SEPARATOR] + (before + typed + after), c).Ok?
    ensures Decoded(PREFIX + [SEPARATOR] + (before + typo + after), c).Ok?
  {
    hide DecodedLower, PolymodOf, HrpExpanded, Regrouped, SymbolOf;
    before, typed, typo, after := Text(BEFORE), Text(TYPED), [SEPARATOR] + Text(TYPO), Text(AFTER);
    var good, bad := PREFIX + [SEPARATOR] + (before + typed + after), PREFIX + [SEPARATOR] + (before + typo + after);
    GoodPolymod();
    WholeBytes(BEFORE + TYPED);
    Accepts(PREFIX, BEFORE + TYPED, AFTER);
    BadPolymod();
    ZeroBytes();
    Accepts(LongPrefix(), TYPO, AFTER);
    TextFacts(BEFORE + TYPED + AFTER);
    TextFacts(TYPO + AFTER);
    TextFacts(BEFORE);
    assert before + typed + after == Text(BEFORE + TYPED + AFTER);
    assert bad == LongPrefix() + [SEPARATOR] + Text(TYPO + AFTER);
    PlainText(good, PREFIX + [SEPARATOR], before + typed + after, c);
    PlainText(bad, LongPrefix() + [SEPARATOR], Text(TYPO + AFTER), c);
  }

  lemma PlainText(s: Bytes, a: Bytes, b: Bytes, c: LetterCase)
    requires s == a + b && IsAscii(a) && NoUpperCase(a) && IsAscii(b) && NoUpperCase(b) && AsciiCase(c)
    ensures c.lower(s) == s
  {
    CaseOfParts(a, b);
    LowerFixed(s);
  }
}
