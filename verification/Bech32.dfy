/** The BIP-173 checksum: a BCH code over 5-bit symbols, computed on 32-bit words. */
module Bech32Checksum {
  import opened Common

  const GENERATORS: seq<bv32> := [0x3b6a57b2, 0x26508e6d, 0x1ea119fa, 0x3d4233dd, 0x2a1462b3]

  function Xor(a: bv32, b: bv32): bv32 { a ^ b }

  function Shifted(chk: bv32): bv32 { (chk & 0x1ffffff) << 5 }

  function Top(chk: bv32): bv32 { chk >> 25 }

  predicate Bit(b: bv32, i: nat)
    requires i < 5
  {
    (b >> i) & 1 == 1
  }

  /** The reduction by the first k generators selected by the bits of b. */
  function Mix(chk: bv32, b: bv32, k: nat): bv32
    requires k <= 5
  {
    if k == 0 then chk
    else if Bit(b, k - 1) then Xor(Mix(chk, b, k - 1), GENERATORS[k - 1])
    else Mix(chk, b, k - 1)
  }

  function Step(chk: bv32, v: bv32): bv32 { Mix(Xor(Shifted(chk), v), Top(chk), 5) }

  function Run(chk: bv32, vs: seq<bv32>): bv32 {
    if |vs| == 0 then chk else Step(Run(chk, vs[..|vs| - 1]), vs[|vs| - 1])
  }

  function Word(v: byte): bv32 { (v as bv8) as bv32 }

  function Words(vs: Bytes): (ws: seq<bv32>)
    ensures |ws| == |vs|
  {
    seq(|vs|, i requires 0 <= i < |vs| => Word(vs[i]))
  }

  function PolymodOf(values: Bytes): bv32 { Run(1, Words(values)) }

  /** The polymod loop (bech32Polymod). */
  method Polymod(values: Bytes) returns (chk: bv32)
    ensures chk == PolymodOf(values)
  {
    chk := 1;
    for j := 0 to |values|
      invariant chk == Run(1, Words(values)[..j])
    {
      var b := Top(chk);
      ghost var start := Xor(Shifted(chk), Word(values[j]));
      chk := Xor(Shifted(chk), Word(values[j]));
      for i := 0 to 5
        invariant chk == Mix(start, b, i)
      {
        if Bit(b, i) { chk := Xor(chk, GENERATORS[i]); }
      }
      assert Words(values)[..j + 1][..j] == Words(values)[..j];
    }
    assert Words(values)[..|values|] == Words(values);
  }

  // ---------------------------------------------------------------------------
  // Linearity over xor

  lemma XorCommutes(a: bv32, b: bv32)
    ensures Xor(a, b) == Xor(b, a)
  {
  }

  lemma XorAssoc(a: bv32, b: bv32, c: bv32)
    ensures Xor(Xor(a, b), c) == Xor(a, Xor(b, c))
  {
  }

  lemma XorShuffle(a: bv32, b: bv32, c: bv32, d: bv32)
    ensures Xor(Xor(a, b), Xor(c, d)) == Xor(Xor(a, c), Xor(b, d))
  {
    hide Xor;
    XorAssoc(a, b, Xor(c, d));
    XorAssoc(b, c, d);
    XorCommutes(b, c);
    XorAssoc(c, b, d);
    XorAssoc(a, c, Xor(b, d));
  }

  lemma XorLaws(a: bv32, b: bv32)
    ensures Xor(a, 0) == a && Xor(0, a) == a && Xor(a, a) == 0
    ensures Xor(a, b) == 0 ==> a == b
  {
  }

  lemma BitLinear(a: bv32, b: bv32, i: nat)
    requires i < 5
    ensures Bit(Xor(a, b), i) <==> Bit(a, i) != Bit(b, i)
  {
    match i
    case 0 => assert Bit(Xor(a, b), 0) <==> Bit(a, 0) != Bit(b, 0);
    case 1 => assert Bit(Xor(a, b), 1) <==> Bit(a, 1) != Bit(b, 1);
    case 2 => assert Bit(Xor(a, b), 2) <==> Bit(a, 2) != Bit(b, 2);
    case 3 => assert Bit(Xor(a, b), 3) <==> Bit(a, 3) != Bit(b, 3);
    case _ => assert Bit(Xor(a, b), 4) <==> Bit(a, 4) != Bit(b, 4);
  }

  lemma {:induction false} MixLinear(c: bv32, d: bv32, a: bv32, b: bv32, k: nat)
    requires k <= 5
    ensures Mix(Xor(c, d), Xor(a, b), k) == Xor(Mix(c, a, k), Mix(d, b, k))
  {
    hide Xor, Bit;
    if k == 0 {
    } else {
      MixLinear(c, d, a, b, k - 1);
      BitLinear(a, b, k - 1);
      var x, y, g := Mix(c, a, k - 1), Mix(d, b, k - 1), GENERATORS[k - 1];
      XorShuffle(x, y, g, g);
      XorShuffle(x, y, g, 0);
      XorShuffle(x, y, 0, g);
      XorLaws(g, g);
      XorLaws(x, x);
      XorLaws(y, y);
      XorLaws(Xor(x, y), g);
    }
  }

  lemma ShiftLinear(a: bv32, b: bv32)
    ensures Shifted(Xor(a, b)) == Xor(Shifted(a), Shifted(b))
    ensures Top(Xor(a, b)) == Xor(Top(a), Top(b))
  {
  }

  lemma StepLinear(a: bv32, b: bv32, v: bv32, w: bv32)
    ensures Step(Xor(a, b), Xor(v, w)) == Xor(Step(a, v), Step(b, w))
  {
    hide Xor, Shifted, Top, Mix;
    ShiftLinear(a, b);
    XorShuffle(Shifted(a), Shifted(b), v, w);
    MixLinear(Xor(Shifted(a), v), Xor(Shifted(b), w), Top(a), Top(b), 5);
  }

  // ---------------------------------------------------------------------------
  // The state stays in 30 bits and a step never merges two states

  const LIMIT: bv32 := 0x4000_0000

  lemma {:induction false} MixBound(chk: bv32, b: bv32, k: nat)
    requires k <= 5 && chk < LIMIT
    ensures Mix(chk, b, k) < LIMIT
  {
    if k == 0 {
    } else {
      MixBound(chk, b, k - 1);
      var m := Mix(chk, b, k - 1);
      hide Mix;
      match k - 1
      case 0 => assert m ^ 0x3b6a57b2 < LIMIT;
      case 1 => assert m ^ 0x26508e6d < LIMIT;
      case 2 => assert m ^ 0x1ea119fa < LIMIT;
      case 3 => assert m ^ 0x3d4233dd < LIMIT;
      case _ => assert m ^ 0x2a1462b3 < LIMIT;
    }
  }

  lemma StepBound(chk: bv32, v: bv32)
    requires v < 32
    ensures Step(chk, v) < LIMIT
  {
    assert Xor(Shifted(chk), v) < LIMIT;
    hide Mix;
    MixBound(Xor(Shifted(chk), v), Top(chk), 5);
  }

  lemma {:induction false} MixNothing(chk: bv32, k: nat)
    requires k <= 5
    ensures Mix(chk, 0, k) == chk
  {
    if k == 0 {
    } else {
      MixNothing(chk, k - 1);
      assert !Bit(0, k - 1);
    }
  }

  function Selected(b: bv32, i: nat): bv32
    requires i < 5
  {
    if Bit(b, i) then GENERATORS[i] else 0
  }

  lemma MixUnrolled(b: bv32)
    ensures Mix(0, b, 5)
         == Selected(b, 0) ^ Selected(b, 1) ^ Selected(b, 2) ^ Selected(b, 3) ^ Selected(b, 4)
  {
    assert Mix(0, b, 1) == Selected(b, 0);
    assert Mix(0, b, 2) == Mix(0, b, 1) ^ Selected(b, 1);
    assert Mix(0, b, 3) == Mix(0, b, 2) ^ Selected(b, 2);
    assert Mix(0, b, 4) == Mix(0, b, 3) ^ Selected(b, 3);
    assert Mix(0, b, 5) == Mix(0, b, 4) ^ Selected(b, 4);
  }

  /** The low five bits of the generators are independent. */
  lemma GeneratorsIndependent(b: bv32)
    requires b < 32 && Mix(0, b, 5) & 31 == 0
    ensures b == 0
  {
    MixUnrolled(b);
  }

  lemma StepKernel(d: bv32)
    requires d < LIMIT && Step(d, 0) == 0
    ensures d == 0
  {
    var s, t := Shifted(d), Top(d);
    assert s & 31 == 0 && t < 32;
    assert s == 0 && t == 0 ==> d == 0;
    hide Shifted, Top, Mix;
    assert Mix(s, t, 5) == Xor(s, Mix(0, t, 5)) by {
      MixLinear(s, 0, 0, t, 5);
      MixNothing(s, 5);
      XorLaws(s, s);
      XorLaws(t, t);
    }
    XorLaws(s, Mix(0, t, 5));
    GeneratorsIndependent(t);
    MixNothing(0, 5);
  }

  lemma StepInjective(a: bv32, b: bv32, v: bv32)
    requires a < LIMIT && b < LIMIT && Step(a, v) == Step(b, v)
    ensures a == b
  {
    assert Xor(a, b) < LIMIT;
    hide Step, Xor;
    StepLinear(a, b, v, v);
    XorLaws(v, v);
    XorLaws(Step(a, v), Step(b, v));
    XorLaws(a, b);
    StepKernel(Xor(a, b));
  }

  // ---------------------------------------------------------------------------
  // Runs

  predicate Symbols(ws: seq<bv32>) { forall i :: 0 <= i < |ws| ==> ws[i] < 32 }

  function Zeros(n: nat): (z: seq<bv32>)
    ensures |z| == n
  {
    seq(n, _ => 0)
  }

  lemma {:induction false} RunAppend(c: bv32, us: seq<bv32>, ws: seq<bv32>)
    ensures Run(c, us + ws) == Run(Run(c, us), ws)
  {
    hide Step;
    if |ws| == 0 {
      assert us + ws == us;
    } else {
      RunAppend(c, us, ws[..|ws| - 1]);
      assert (us + ws)[..|us + ws| - 1] == us + ws[..|ws| - 1];
    }
  }

  lemma {:induction false} RunBound(c: bv32, ws: seq<bv32>)
    requires Symbols(ws) && c < LIMIT
    ensures Run(c, ws) < LIMIT
  {
    hide Step;
    if |ws| == 0 {
    } else {
      StepBound(Run(c, ws[..|ws| - 1]), ws[|ws| - 1]);
    }
  }

  /** What the symbols contribute is independent of the state they are fed to. */
  lemma {:induction false} RunSplits(c: bv32, ws: seq<bv32>)
    ensures Run(c, ws) == Xor(Run(c, Zeros(|ws|)), Run(0, ws))
  {
    hide Step, Xor;
    XorLaws(c, c);
    if |ws| == 0 {
    } else {
      var init, last := ws[..|ws| - 1], ws[|ws| - 1];
      RunSplits(c, init);
      assert Zeros(|ws|)[..|ws| - 1] == Zeros(|init|);
      XorLaws(last, last);
      StepLinear(Run(c, Zeros(|init|)), Run(0, init), 0, last);
    }
  }

  /** From equal symbols, equal results only from equal states. */
  lemma {:induction false} RunInjectiveInState(a: bv32, b: bv32, ws: seq<bv32>)
    requires Symbols(ws) && a < LIMIT && b < LIMIT && Run(a, ws) == Run(b, ws)
    ensures a == b
  {
    hide Step;
    if |ws| == 0 {
    } else {
      var init := ws[..|ws| - 1];
      RunBound(a, init);
      RunBound(b, init);
      StepInjective(Run(a, init), Run(b, init), ws[|ws| - 1]);
      RunInjectiveInState(a, b, init);
    }
  }

  /** Below 25 bits a step only shifts the new symbol in. */
  lemma StepPacks(d: bv32, v: bv32)
    requires d < 0x200_0000 && v < 32
    ensures Step(d, v) == (d << 5) | v
  {
    assert Top(d) == 0;
    MixNothing(Xor(Shifted(d), v), 5);
    assert Xor(Shifted(d), v) == (d << 5) | v;
  }

  function PackLimit(n: nat): bv32
    requires n <= 6
  {
    match n case 0 => 1 case 1 => 0x20 case 2 => 0x400 case 3 => 0x8000 case 4 => 0x10_0000
      case 5 => 0x200_0000 case _ => LIMIT
  }

  lemma {:induction false} PackBound(ws: seq<bv32>)
    requires Symbols(ws) && |ws| <= 6
    ensures Run(0, ws) < PackLimit(|ws|)
  {
    hide Step;
    if |ws| == 0 {
    } else {
      PackBound(ws[..|ws| - 1]);
      StepPacks(Run(0, ws[..|ws| - 1]), ws[|ws| - 1]);
    }
  }

  lemma PackStepInjective(a: bv32, v: bv32, b: bv32, w: bv32)
    requires a < 0x200_0000 && b < 0x200_0000 && v < 32 && w < 32
    requires Step(a, v) == Step(b, w)
    ensures a == b && v == w
  {
    hide Step;
    StepPacks(a, v);
    StepPacks(b, w);
  }

  /** Up to six symbols are determined by what they contribute. */
  lemma {:induction false} PackInjective(us: seq<bv32>, ws: seq<bv32>)
    requires Symbols(us) && Symbols(ws) && |us| == |ws| <= 6 && Run(0, us) == Run(0, ws)
    ensures us == ws
  {
    hide Step;
    if |us| == 0 {
    } else {
      var u, w := us[..|us| - 1], ws[..|ws| - 1];
      PackBound(u);
      PackBound(w);
      PackStepInjective(Run(0, u), us[|us| - 1], Run(0, w), ws[|ws| - 1]);
      PackInjective(u, w);
      assert us == u + [us[|us| - 1]] && ws == w + [ws[|ws| - 1]];
    }
  }

  /** No change confined to six neighbouring symbols can keep the final state. */
  lemma BurstDetected(c: bv32, pre: seq<bv32>, us: seq<bv32>, ws: seq<bv32>, post: seq<bv32>)
    requires c < LIMIT && Symbols(pre) && Symbols(us) && Symbols(ws) && Symbols(post)
    requires |us| == |ws| <= 6 && us != ws
    ensures Run(c, pre + us + post) != Run(c, pre + ws + post)
  {
    hide Step, Xor;
    var d := Run(c, pre);
    RunBound(c, pre);
    RunBound(d, us);
    RunBound(d, ws);
    RunAppend(c, pre + us, post);
    RunAppend(c, pre, us);
    RunAppend(c, pre + ws, post);
    RunAppend(c, pre, ws);
    if Run(c, pre + us + post) == Run(c, pre + ws + post) {
      RunInjectiveInState(Run(d, us), Run(d, ws), post);
      SameContribution(d, us, ws);
      PackInjective(us, ws);
    }
  }

  lemma SameContribution(d: bv32, us: seq<bv32>, ws: seq<bv32>)
    requires |us| == |ws| && Run(d, us) == Run(d, ws)
    ensures Run(0, us) == Run(0, ws)
  {
    hide Step, Xor;
    RunSplits(d, us);
    RunSplits(d, ws);
    var z, x, y := Run(d, Zeros(|us|)), Run(0, us), Run(0, ws);
    XorCancel(z, x, y);
  }

  lemma XorCancel(z: bv32, x: bv32, y: bv32)
    requires Xor(z, x) == Xor(z, y)
    ensures x == y
  {
    assert z ^ (z ^ x) == x && z ^ (z ^ y) == y;
  }

  // ---------------------------------------------------------------------------
  // The six checksum symbols

  /** Symbol i of a 30-bit word, most significant first. */
  function SymbolAt(p: bv32, i: nat): (w: bv32)
    requires i < 6
    ensures w < 32
  {
    (p >> (5 * (5 - i))) & 31
  }

  function ToByte(w: bv32): (b: byte)
    requires w < 32
    ensures b < 32 && Word(b) == w
  {
    ByteOfWord(w);
    (w as bv5) as int
  }

  lemma ByteOfWord(w: bv32)
    requires w < 32
    ensures Word((w as bv5) as int) == w
  {
  }

  lemma WordSmall(b: byte)
    requires b < 32
    ensures Word(b) < 32
  {
  }

  lemma NarrowInt(b: byte)
    requires b < 32
    ensures (b as bv8) as int == b
  {
  }

  lemma WordInjective(a: byte, b: byte)
    requires a < 32 && b < 32 && Word(a) == Word(b)
    ensures a == b
  {
    var x, y := a as bv8, b as bv8;
    assert x as bv32 == y as bv32 ==> x == y;
    NarrowInt(a);
    NarrowInt(b);
  }

  lemma WordsSymbols(vs: Bytes)
    requires Below(vs, 32)
    ensures Symbols(Words(vs))
  {
    forall i | 0 <= i < |vs| ensures Words(vs)[i] < 32 { WordSmall(vs[i]); }
  }

  lemma WordsInjective(us: Bytes, vs: Bytes)
    requires Below(us, 32) && Below(vs, 32) && Words(us) == Words(vs)
    ensures us == vs
  {
    assert |us| == |vs|;
    forall i | 0 <= i < |us| ensures us[i] == vs[i] {
      assert Words(us)[i] == Words(vs)[i];
      WordInjective(us[i], vs[i]);
    }
  }

  function UnpackedTo(t: bv32, k: nat): (r: bv32)
    requires k <= 6
  {
    match k case 0 => t >> 30 case 1 => t >> 25 case 2 => t >> 20 case 3 => t >> 15
      case 4 => t >> 10 case 5 => t >> 5 case _ => t
  }

  lemma UnpackStep(t: bv32, k: nat)
    requires k < 6
    ensures (UnpackedTo(t, k) << 5) | SymbolAt(t, k) == UnpackedTo(t, k + 1)
    ensures SymbolAt(t, k) < 32
    ensures t < LIMIT ==> UnpackedTo(t, k) < 0x200_0000
  {
    match k case 0 => case 1 => case 2 => case 3 => case 4 => case _ =>
  }

  function SymbolsOf(t: bv32): (ws: seq<bv32>)
    ensures |ws| == 6
  {
    seq(6, i requires 0 <= i < 6 => SymbolAt(t, i))
  }

  /** Splitting a 30-bit word into symbols and feeding them in rebuilds it. */
  lemma {:induction false} RunRebuilds(t: bv32, k: nat)
    requires t < LIMIT && k <= 6
    ensures Run(0, SymbolsOf(t)[..k]) == UnpackedTo(t, k)
  {
    assert UnpackedTo(t, 0) == 0;
    hide Step, UnpackedTo, SymbolAt;
    var ws := SymbolsOf(t);
    if k == 0 {
    } else {
      RunRebuilds(t, k - 1);
      UnpackStep(t, k - 1);
      assert ws[..k][..k - 1] == ws[..k - 1];
      StepPacks(UnpackedTo(t, k - 1), SymbolAt(t, k - 1));
    }
  }

  const SIX_ZEROS: Bytes := [0, 0, 0, 0, 0, 0]

  /** bech32CreateChecksum over the expanded human-readable part and the data. */
  function ChecksumOf(values: Bytes): (cs: Bytes)
    ensures |cs| == 6 && Below(cs, 32)
  {
    var polymod := Xor(PolymodOf(values + SIX_ZEROS), 1);
    seq(6, i requires 0 <= i < 6 => ToByte(SymbolAt(polymod, i)))
  }

  lemma WordsAppend(us: Bytes, vs: Bytes)
    ensures Words(us + vs) == Words(us) + Words(vs)
  {
  }

  lemma PolymodAppend(values: Bytes, cs: Bytes)
    requires Below(values, 32)
    ensures PolymodOf(values) < LIMIT
    ensures PolymodOf(values + cs) == Run(PolymodOf(values), Words(cs))
  {
    hide Run;
    WordsSymbols(values);
    RunBound(1, Words(values));
    WordsAppend(values, cs);
    RunAppend(1, Words(values), Words(cs));
  }

  /** Every created checksum verifies, for data of any length. */
  lemma ChecksumVerifies(values: Bytes)
    requires Below(values, 32)
    ensures PolymodOf(values + ChecksumOf(values)) == 1
  {
    var c := PolymodOf(values);
    PolymodAppend(values, SIX_ZEROS);
    PolymodAppend(values, ChecksumOf(values));
    assert Words(SIX_ZEROS) == Zeros(6) by { assert Word(0) == 0; }
    var r := Run(c, Zeros(6));
    var t := Xor(r, 1);
    hide Run;
    RunBound(c, Zeros(6));
    assert t < LIMIT;
    assert Xor(r, t) == 1;
    hide Xor, SymbolAt;
    assert Words(ChecksumOf(values)) == SymbolsOf(t);
    RunRebuilds(t, 6);
    assert SymbolsOf(t)[..6] == SymbolsOf(t);
    RunSplits(c, SymbolsOf(t));
  }

  /** Only the created checksum verifies. */
  lemma ChecksumUnique(values: Bytes, cs: Bytes)
    requires Below(values, 32) && Below(cs, 32) && |cs| == 6
    ensures PolymodOf(values + cs) == 1 <==> cs == ChecksumOf(values)
  {
    hide Run;
    ChecksumVerifies(values);
    if PolymodOf(values + cs) == 1 {
      var c, own := PolymodOf(values), ChecksumOf(values);
      PolymodAppend(values, cs);
      PolymodAppend(values, own);
      SameContribution(c, Words(cs), Words(own));
      WordsSymbols(cs);
      WordsSymbols(own);
      PackInjective(Words(cs), Words(own));
      WordsInjective(cs, own);
    }
  }

  /** A verifying word changed only inside six neighbouring symbols no longer verifies. */
  lemma BurstRejected(pre: Bytes, us: Bytes, vs: Bytes, post: Bytes)
    requires Below(pre, 32) && Below(us, 32) && Below(vs, 32) && Below(post, 32)
    requires |us| == |vs| <= 6 && us != vs
    requires PolymodOf(pre + us + post) == 1
    ensures PolymodOf(pre + vs + post) != 1
  {
    hide Run;
    WordsAppend(pre + us, post);
    WordsAppend(pre, us);
    WordsAppend(pre + vs, post);
    WordsAppend(pre, vs);
    WordsSymbols(pre);
    WordsSymbols(us);
    WordsSymbols(vs);
    WordsSymbols(post);
    if Words(us) == Words(vs) { WordsInjective(us, vs); }
    BurstDetected(1, Words(pre), Words(us), Words(vs), Words(post));
  }
}
