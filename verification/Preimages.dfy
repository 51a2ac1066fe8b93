/** The byte strings that are hashed or signed, and when two inputs can share one. */
module Preimages {
  import opened Common
  import opened WireBytes

  // ---------------------------------------------------------------------------
  // Fixed-width integers and length prefixes

  /** Big-endian in `len` octets, keeping the low digits as a Go conversion does. */
  function BigEndian(n: nat, len: nat): (r: Bytes)
    ensures |r| == len
  {
    Digits(n, 256, len)
  }

  function U64Bytes(n: nat): (r: Bytes)
    ensures |r| == 8
  {
    BigEndian(n, 8)
  }

  /** lenPrefixed: a 4-octet length (uint32, so taken modulo 2^32) and the bytes. */
  function LenPrefixed(b: Bytes): Bytes { BigEndian(|b|, 4) + b }

  /** The 8-octet form the anchor message uses. */
  function LongPrefixed(b: Bytes): Bytes { BigEndian(|b|, 8) + b }

  lemma PowerOf256()
    ensures Pow(256, 4) == TWO_32 && Pow(256, 8) == TWO_64
  {
    assert Pow(256, 2) == 65536;
    assert Pow(256, 4) == Pow(256, 2) * 256 * 256;
    assert Pow(256, 6) == Pow(256, 4) * 256 * 256;
    assert Pow(256, 8) == Pow(256, 6) * 256 * 256;
  }

  lemma BigEndianInjective(m: nat, n: nat, len: nat)
    requires m < Pow(256, len) && n < Pow(256, len) && BigEndian(m, len) == BigEndian(n, len)
    ensures m == n
  {
    hide Digits, Number, Pow;
    NumberOfDigits(m, 256, len);
    NumberOfDigits(n, 256, len);
  }

  lemma SplitEqual(a: Bytes, x: Bytes, b: Bytes, y: Bytes)
    requires a + x == b + y && |a| == |b|
    ensures a == b && x == y
  {
    assert a == (a + x)[..|a|] && b == (b + y)[..|b|];
    assert x == (a + x)[|a|..] && y == (b + y)[|b|..];
  }

  lemma PeelU64(m: u64, x: Bytes, n: u64, y: Bytes)
    requires U64Bytes(m) + x == U64Bytes(n) + y
    ensures m == n && x == y
  {
    hide BigEndian, Pow;
    SplitEqual(U64Bytes(m), x, U64Bytes(n), y);
    PowerOf256();
    BigEndianInjective(m, n, 8);
  }

  lemma PeelPrefix(len: nat, a: Bytes, x: Bytes, b: Bytes, y: Bytes)
    requires |a| < Pow(256, len) && |b| < Pow(256, len)
    requires (BigEndian(|a|, len) + a) + x == (BigEndian(|b|, len) + b) + y
    ensures a == b && x == y
  {
    hide BigEndian, Pow;
    var p, q := BigEndian(|a|, len), BigEndian(|b|, len);
    assert (p + a) + x == p + (a + x) && (q + b) + y == q + (b + y);
    SplitEqual(p, a + x, q, b + y);
    BigEndianInjective(|a|, |b|, len);
    SplitEqual(a, x, b, y);
  }

  lemma Peel4(a: Bytes, x: Bytes, b: Bytes, y: Bytes)
    requires |a| < TWO_32 && |b| < TWO_32 && LenPrefixed(a) + x == LenPrefixed(b) + y
    ensures a == b && x == y
  {
    PowerOf256();
    PeelPrefix(4, a, x, b, y);
  }

  lemma Peel8(a: Bytes, x: Bytes, b: Bytes, y: Bytes)
    requires |a| < TWO_64 && |b| < TWO_64 && LongPrefixed(a) + x == LongPrefixed(b) + y
    ensures a == b && x == y
  {
    PowerOf256();
    PeelPrefix(8, a, x, b, y);
  }

  // ---------------------------------------------------------------------------
  // Anchor messages

  datatype AnchorFields = AnchorFields(chainId: Bytes, layerId: Bytes, layerHeight: u64, stateRoot: Bytes,
                                       validatorSetHash: Bytes, txCount: u64, stateProof: Bytes)

  /** "qorechain-multilayer-anchor-v2". */
  const ANCHOR_DOMAIN_V2: Bytes := Ascii("qorechain-multilayer-anchor-v2")

  /** AnchorSignBytesV1: no prefixes and no chain id. */
  function AnchorMessageV1(f: AnchorFields): Bytes {
    f.layerId + (U64Bytes(f.layerHeight) + (f.stateRoot + f.validatorSetHash))
  }

  function AnchorMessageV2(f: AnchorFields): Bytes {
    ANCHOR_DOMAIN_V2 + (LongPrefixed(f.chainId) + (LongPrefixed(f.layerId) + (U64Bytes(f.layerHeight)
      + (LongPrefixed(f.stateRoot) + (LongPrefixed(f.validatorSetHash) + (U64Bytes(f.txCount)
      + LongPrefixed(f.stateProof)))))))
  }

  /** The arguments as a caller passes them, hashes and proof in hexadecimal. */
  datatype AnchorArgs = AnchorArgs(chainId: Bytes, layerId: Bytes, layerHeight: u64, stateRootHex: Bytes,
                                   validatorSetHashHex: Bytes, txCount: u64, stateProofHex: Bytes)

  function Fields(a: AnchorArgs): AnchorFields {
    AnchorFields(a.chainId, a.layerId, a.layerHeight, HexOrEmpty(a.stateRootHex), HexOrEmpty(a.validatorSetHashHex),
                 a.txCount, HexOrEmpty(a.stateProofHex))
  }

  /** AnchorSignBytesV1: appends to one buffer; hexadecimal that does not parse counts as empty. */
  method AnchorSignBytesV1(a: AnchorArgs) returns (out: Bytes)
    ensures out == AnchorMessageV1(Fields(a))
  {
    hide BigEndian, HexOrEmpty;
    var height := U64Bytes(a.layerHeight);
    var stateRoot, vsh := HexOrEmpty(a.stateRootHex), HexOrEmpty(a.validatorSetHashHex);
    out := a.layerId;
    out := out + height;
    out := out + stateRoot;
    out := out + vsh;
  }

  /** AnchorSignBytesV2: appends field after field to one buffer. */
  method AnchorSignBytesV2(a: AnchorArgs) returns (out: Bytes)
    ensures out == AnchorMessageV2(Fields(a))
  {
    hide BigEndian, HexOrEmpty;
    var stateRoot, vsh := HexOrEmpty(a.stateRootHex), HexOrEmpty(a.validatorSetHashHex);
    var proof := HexOrEmpty(a.stateProofHex);
    out := ANCHOR_DOMAIN_V2;
    out := PutBytes(out, a.chainId);
    out := PutBytes(out, a.layerId);
    out := out + U64Bytes(a.layerHeight);
    out := PutBytes(out, stateRoot);
    out := PutBytes(out, vsh);
    out := out + U64Bytes(a.txCount);
    out := PutBytes(out, proof);
  }

  method PutBytes(buf: Bytes, b: Bytes) returns (out: Bytes)
    ensures out == buf + LongPrefixed(b)
  {
    out := buf + BigEndian(|b|, 8);
    out := out + b;
  }

  predicate ShortFields(f: AnchorFields) {
    |f.chainId| < TWO_64 && |f.layerId| < TWO_64 && |f.stateRoot| < TWO_64
    && |f.validatorSetHash| < TWO_64 && |f.stateProof| < TWO_64
  }

  /** The v2 anchor message determines every field. */
  lemma AnchorV2Injective(f: AnchorFields, g: AnchorFields)
    requires ShortFields(f) && ShortFields(g) && AnchorMessageV2(f) == AnchorMessageV2(g)
    ensures f == g
  {
    hide LongPrefixed, U64Bytes, Ascii;
    var f6, g6 := U64Bytes(f.txCount) + LongPrefixed(f.stateProof), U64Bytes(g.txCount) + LongPrefixed(g.stateProof);
    var f5, g5 := LongPrefixed(f.validatorSetHash) + f6, LongPrefixed(g.validatorSetHash) + g6;
    var f4, g4 := LongPrefixed(f.stateRoot) + f5, LongPrefixed(g.stateRoot) + g5;
    var f3, g3 := U64Bytes(f.layerHeight) + f4, U64Bytes(g.layerHeight) + g4;
    var f2, g2 := LongPrefixed(f.layerId) + f3, LongPrefixed(g.layerId) + g3;
    var f1, g1 := LongPrefixed(f.chainId) + f2, LongPrefixed(g.chainId) + g2;
    SplitEqual(ANCHOR_DOMAIN_V2, f1, ANCHOR_DOMAIN_V2, g1);
    Peel8(f.chainId, f2, g.chainId, g2);
    Peel8(f.layerId, f3, g.layerId, g3);
    PeelU64(f.layerHeight, f4, g.layerHeight, g4);
    Peel8(f.stateRoot, f5, g.stateRoot, g5);
    Peel8(f.validatorSetHash, f6, g.validatorSetHash, g6);
    PeelU64(f.txCount, LongPrefixed(f.stateProof), g.txCount, LongPrefixed(g.stateProof));
    assert LongPrefixed(f.stateProof) + [] == LongPrefixed(g.stateProof) + [];
    Peel8(f.stateProof, [], g.stateProof, []);
  }

  predicate SameV1Fields(f: AnchorFields, g: AnchorFields) {
    f.layerId == g.layerId && f.layerHeight == g.layerHeight && f.stateRoot == g.stateRoot
    && f.validatorSetHash == g.validatorSetHash
  }

  /** The arguments a v2 message covers, up to how the hexadecimal is written. */
  predicate SameArgs(a: AnchorArgs, b: AnchorArgs) {
    && a.chainId == b.chainId && a.layerId == b.layerId && a.layerHeight == b.layerHeight && a.txCount == b.txCount
    && NormalHex(a.stateRootHex) == NormalHex(b.stateRootHex)
    && NormalHex(a.validatorSetHashHex) == NormalHex(b.validatorSetHashHex)
    && NormalHex(a.stateProofHex) == NormalHex(b.stateProofHex)
  }

  /** Two argument lists share a v2 message exactly when they differ at most in how hexadecimal is written. */
  lemma AnchorV2Exact(a: AnchorArgs, b: AnchorArgs)
    requires ShortFields(Fields(a)) && ShortFields(Fields(b))
    ensures AnchorMessageV2(Fields(a)) == AnchorMessageV2(Fields(b)) <==> SameArgs(a, b)
  {
    hide AnchorMessageV2, NormalHex, HexOrEmpty;
    SameHex(a.stateRootHex, b.stateRootHex);
    SameHex(a.validatorSetHashHex, b.validatorSetHashHex);
    SameHex(a.stateProofHex, b.stateProofHex);
    if AnchorMessageV2(Fields(a)) == AnchorMessageV2(Fields(b)) { AnchorV2Injective(Fields(a), Fields(b)); }
  }

  predicate SameV1Args(a: AnchorArgs, b: AnchorArgs) {
    && a.layerId == b.layerId && a.layerHeight == b.layerHeight
    && NormalHex(a.stateRootHex) == NormalHex(b.stateRootHex)
    && NormalHex(a.validatorSetHashHex) == NormalHex(b.validatorSetHashHex)
  }

  /** Argument lists that share a v1 message are the same exactly when both hashes have the same lengths. */
  lemma AnchorV1Exact(a: AnchorArgs, b: AnchorArgs)
    requires AnchorMessageV1(Fields(a)) == AnchorMessageV1(Fields(b))
    ensures SameV1Args(a, b)
       <==> && |NormalHex(a.stateRootHex)| == |NormalHex(b.stateRootHex)|
            && |NormalHex(a.validatorSetHashHex)| == |NormalHex(b.validatorSetHashHex)|
  {
    hide AnchorMessageV1, NormalHex, HexOrEmpty;
    SameHex(a.stateRootHex, b.stateRootHex);
    SameHex(b.stateRootHex, a.stateRootHex);
    SameHex(a.validatorSetHashHex, b.validatorSetHashHex);
    SameHex(b.validatorSetHashHex, a.validatorSetHashHex);
    AnchorV1Fields(Fields(a), Fields(b));
  }

  /** Text that is not hexadecimal, such as "zz", is signed as if it were empty, in both forms. */
  lemma BadHexIsEmpty(a: AnchorArgs)
    ensures var bad, none := a.(stateRootHex := Ascii("zz")), a.(stateRootHex := []);
            && AnchorMessageV1(Fields(bad)) == AnchorMessageV1(Fields(none))
            && AnchorMessageV2(Fields(bad)) == AnchorMessageV2(Fields(none))
  {
    var zz := Ascii("zz");
    assert HexValue(zz[0]) == -1;
    hide AnchorMessageV1, AnchorMessageV2, AllHex, HexDecoded;
    assert HexOrEmpty(zz) == [] == HexOrEmpty([]) by { NotHexText(zz); }
  }

  lemma NotHexText(s: Bytes)
    requires |s| == 2 && s[0] != 48 && HexValue(s[0]) == -1
    ensures HexOrEmpty(s) == [] && HexOrEmpty([]) == []
  {
  }

  /** Equal v1 messages mean equal fields exactly when both hashes have the same lengths. */
  lemma AnchorV1Fields(f: AnchorFields, g: AnchorFields)
    requires AnchorMessageV1(f) == AnchorMessageV1(g)
    ensures SameV1Fields(f, g)
       <==> |f.stateRoot| == |g.stateRoot| && |f.validatorSetHash| == |g.validatorSetHash|
  {
    if |f.stateRoot| == |g.stateRoot| && |f.validatorSetHash| == |g.validatorSetHash| {
      hide U64Bytes;
      var f1, g1 := f.stateRoot + f.validatorSetHash, g.stateRoot + g.validatorSetHash;
      SplitEqual(f.layerId, U64Bytes(f.layerHeight) + f1, g.layerId, U64Bytes(g.layerHeight) + g1);
      PeelU64(f.layerHeight, f1, g.layerHeight, g1);
      SplitEqual(f.stateRoot, f.validatorSetHash, g.stateRoot, g.validatorSetHash);
    }
  }

  /** Without fixed lengths the v1 message is ambiguous: a byte can move between the two hashes. */
  lemma AnchorV1Ambiguous(f: AnchorFields, b: byte)
    ensures var g := f.(stateRoot := f.stateRoot + [b], validatorSetHash := f.validatorSetHash);
            var h := f.(stateRoot := f.stateRoot, validatorSetHash := [b] + f.validatorSetHash);
            AnchorMessageV1(g) == AnchorMessageV1(h) && !SameV1Fields(g, h)
  {
    assert (f.stateRoot + [b]) + f.validatorSetHash == f.stateRoot + ([b] + f.validatorSetHash);
  }

  // ---------------------------------------------------------------------------
  // Transition and withdrawal preimages

  datatype TransitionInput = TransitionInput(chainId: Bytes, rollupId: Bytes, prevStateRoot: Bytes, dataHash: Bytes,
                                             txCount: u64, withdrawalsRoot: Bytes)

  datatype WithdrawalLeafInput = WithdrawalLeafInput(rollupId: Bytes, withdrawalIndex: u64, recipient: Bytes,
                                                     denom: Bytes, amount: u64)

  const TRANSITION_TAG: Bytes := Ascii("qorechain-rdk-transition/v2")
  const WITHDRAWAL_TAG: Bytes := Ascii("qorechain-rdk-withdrawal/v2")

  function TransitionPreimageV1(t: TransitionInput): Bytes { t.prevStateRoot + (t.dataHash + U64Bytes(t.txCount)) }

  function TransitionPreimageV2(t: TransitionInput): Bytes {
    LenPrefixed(TRANSITION_TAG) + (LenPrefixed(t.chainId) + (LenPrefixed(t.rollupId) + (LenPrefixed(t.prevStateRoot)
      + (LenPrefixed(t.dataHash) + (U64Bytes(t.txCount) + LenPrefixed(t.withdrawalsRoot))))))
  }

  function LeafPreimageV1(w: WithdrawalLeafInput): Bytes {
    w.rollupId + ([0] + (U64Bytes(w.withdrawalIndex) + (w.recipient + ([0] + (w.denom + ([0] + U64Bytes(w.amount)))))))
  }

  function LeafPreimageV2(chainId: Bytes, w: WithdrawalLeafInput): Bytes {
    LenPrefixed(WITHDRAWAL_TAG) + (LenPrefixed(chainId) + (LenPrefixed(w.rollupId) + (U64Bytes(w.withdrawalIndex)
      + (LenPrefixed(w.recipient) + (LenPrefixed(w.denom) + U64Bytes(w.amount))))))
  }

  datatype RootError = MissingId | BadWithdrawalsRoot | UnknownVersion

  /** BatchTransitionRoot, over the chain's hash. */
  function BatchTransitionRoot(t: TransitionInput, version: Bytes, hash: Bytes -> Bytes): Result<Bytes, RootError> {
    if version == Ascii("v1") then Ok(hash(TransitionPreimageV1(t)))
    else if version == Ascii("v2") then
      if t.chainId == [] || t.rollupId == [] then Err(MissingId)
      else if |t.withdrawalsRoot| != 0 && |t.withdrawalsRoot| != 32 then Err(BadWithdrawalsRoot)
      else Ok(hash(TransitionPreimageV2(t)))
    else Err(UnknownVersion)
  }

  predicate ShortTransition(t: TransitionInput) {
    |t.chainId| < TWO_32 && |t.rollupId| < TWO_32 && |t.prevStateRoot| < TWO_32 && |t.dataHash| < TWO_32
    && |t.withdrawalsRoot| < TWO_32
  }

  predicate ShortLeaf(w: WithdrawalLeafInput) {
    |w.rollupId| < TWO_32 && |w.recipient| < TWO_32 && |w.denom| < TWO_32
  }

  /** The v2 transition preimage determines every field. */
  lemma TransitionV2Injective(s: TransitionInput, t: TransitionInput)
    requires ShortTransition(s) && ShortTransition(t) && TransitionPreimageV2(s) == TransitionPreimageV2(t)
    ensures s == t
  {
    hide LenPrefixed, U64Bytes, Ascii;
    var s5 := U64Bytes(s.txCount) + LenPrefixed(s.withdrawalsRoot);
    var t5 := U64Bytes(t.txCount) + LenPrefixed(t.withdrawalsRoot);
    var s4, t4 := LenPrefixed(s.dataHash) + s5, LenPrefixed(t.dataHash) + t5;
    var s3, t3 := LenPrefixed(s.prevStateRoot) + s4, LenPrefixed(t.prevStateRoot) + t4;
    var s2, t2 := LenPrefixed(s.rollupId) + s3, LenPrefixed(t.rollupId) + t3;
    var s1, t1 := LenPrefixed(s.chainId) + s2, LenPrefixed(t.chainId) + t2;
    SplitEqual(LenPrefixed(TRANSITION_TAG), s1, LenPrefixed(TRANSITION_TAG), t1);
    Peel4(s.chainId, s2, t.chainId, t2);
    Peel4(s.rollupId, s3, t.rollupId, t3);
    Peel4(s.prevStateRoot, s4, t.prevStateRoot, t4);
    Peel4(s.dataHash, s5, t.dataHash, t5);
    PeelU64(s.txCount, LenPrefixed(s.withdrawalsRoot), t.txCount, LenPrefixed(t.withdrawalsRoot));
    assert LenPrefixed(s.withdrawalsRoot) + [] == LenPrefixed(t.withdrawalsRoot) + [];
    Peel4(s.withdrawalsRoot, [], t.withdrawalsRoot, []);
  }

  lemma VersionNames()
    ensures Ascii("v1") != Ascii("v2")
  {
    assert Ascii("v1")[1] == 49 && Ascii("v2")[1] == 50;
  }

  /** Equal v1 preimages mean equal covered fields exactly when the previous roots have the same length. */
  lemma TransitionV1Exact(s: TransitionInput, t: TransitionInput)
    requires TransitionPreimageV1(s) == TransitionPreimageV1(t)
    ensures s.txCount == t.txCount && s.prevStateRoot + s.dataHash == t.prevStateRoot + t.dataHash
    ensures s.prevStateRoot == t.prevStateRoot && s.dataHash == t.dataHash
       <==> |s.prevStateRoot| == |t.prevStateRoot|
  {
    hide U64Bytes;
    var a, b := s.prevStateRoot + s.dataHash, t.prevStateRoot + t.dataHash;
    assert TransitionPreimageV1(s) == a + U64Bytes(s.txCount) && TransitionPreimageV1(t) == b + U64Bytes(t.txCount);
    SplitEqual(a, U64Bytes(s.txCount), b, U64Bytes(t.txCount));
    assert U64Bytes(s.txCount) + [] == U64Bytes(t.txCount) + [];
    PeelU64(s.txCount, [], t.txCount, []);
    if |s.prevStateRoot| == |t.prevStateRoot| {
      SplitEqual(s.prevStateRoot, s.dataHash, t.prevStateRoot, t.dataHash);
    }
  }

  function PreimageOf(t: TransitionInput, version: Bytes): Bytes {
    if version == Ascii("v1") then TransitionPreimageV1(t) else TransitionPreimageV2(t)
  }

  predicate Hashes32(t: TransitionInput) { |t.prevStateRoot| == 32 && |t.dataHash| == 32 }

  /** What a root under a version commits to. */
  predicate SameCommitment(s: TransitionInput, t: TransitionInput, version: Bytes) {
    if version == Ascii("v1") then
      s.prevStateRoot == t.prevStateRoot && s.dataHash == t.dataHash && s.txCount == t.txCount
    else s == t
  }

  lemma PreimageLengths(s: TransitionInput, t: TransitionInput)
    requires Hashes32(s) && Hashes32(t)
    ensures |TransitionPreimageV1(s)| == 72 < |TransitionPreimageV2(t)|
  {
    hide U64Bytes, Ascii;
  }

  /**
   * One root for two inputs, whatever the versions, means the same version and the same committed fields, or
   * two preimages with one hash. For v1, which has no length prefixes, both hashes must have 32 octets.
   */
  lemma RootBinds(s: TransitionInput, v: Bytes, t: TransitionInput, w: Bytes, hash: Bytes -> Bytes)
    requires ShortTransition(s) && ShortTransition(t) && BatchTransitionRoot(s, v, hash).Ok?
    requires BatchTransitionRoot(s, v, hash) == BatchTransitionRoot(t, w, hash)
    requires (v == Ascii("v2") && w == Ascii("v2")) || (Hashes32(s) && Hashes32(t))
    ensures var x, y := PreimageOf(s, v), PreimageOf(t, w);
            || (v == w && SameCommitment(s, t, v))
            || (x != y && hash(x) == hash(y))
  {
    hide TransitionPreimageV1, TransitionPreimageV2, Ascii, ShortTransition;
    VersionNames();
    if PreimageOf(s, v) == PreimageOf(t, w) {
      if v == w == Ascii("v2") {
        TransitionV2Injective(s, t);
      } else if v == w {
        TransitionV1Exact(s, t);
      } else {
        PreimageLengths(s, t);
        PreimageLengths(t, s);
      }
    }
  }

  /** The v2 leaf preimage determines the chain and every field. */
  lemma LeafV2Injective(c: Bytes, v: WithdrawalLeafInput, d: Bytes, w: WithdrawalLeafInput)
    requires |c| < TWO_32 && |d| < TWO_32 && ShortLeaf(v) && ShortLeaf(w)
    requires LeafPreimageV2(c, v) == LeafPreimageV2(d, w)
    ensures c == d && v == w
  {
    hide LenPrefixed, U64Bytes, Ascii;
    var v5, w5 := LenPrefixed(v.denom) + U64Bytes(v.amount), LenPrefixed(w.denom) + U64Bytes(w.amount);
    var v4, w4 := LenPrefixed(v.recipient) + v5, LenPrefixed(w.recipient) + w5;
    var v3, w3 := U64Bytes(v.withdrawalIndex) + v4, U64Bytes(w.withdrawalIndex) + w4;
    var v2, w2 := LenPrefixed(v.rollupId) + v3, LenPrefixed(w.rollupId) + w3;
    var v1, w1 := LenPrefixed(c) + v2, LenPrefixed(d) + w2;
    SplitEqual(LenPrefixed(WITHDRAWAL_TAG), v1, LenPrefixed(WITHDRAWAL_TAG), w1);
    Peel4(c, v2, d, w2);
    Peel4(v.rollupId, v3, w.rollupId, w3);
    PeelU64(v.withdrawalIndex, v4, w.withdrawalIndex, w4);
    Peel4(v.recipient, v5, w.recipient, w5);
    Peel4(v.denom, U64Bytes(v.amount), w.denom, U64Bytes(w.amount));
    assert U64Bytes(v.amount) + [] == U64Bytes(w.amount) + [];
    PeelU64(v.amount, [], w.amount, []);
  }

  lemma TagsDiffer()
    ensures |TRANSITION_TAG| == |WITHDRAWAL_TAG| && TRANSITION_TAG != WITHDRAWAL_TAG
  {
    assert TRANSITION_TAG[14] == 't' as int && WITHDRAWAL_TAG[14] == 'w' as int;
  }

  lemma PrefixedDiffer(a: Bytes, x: Bytes, b: Bytes, y: Bytes)
    requires |a| == |b| && a != b
    ensures LenPrefixed(a) + x != LenPrefixed(b) + y
  {
    hide BigEndian;
    if LenPrefixed(a) + x == LenPrefixed(b) + y {
      SplitEqual(LenPrefixed(a), x, LenPrefixed(b), y);
      SplitEqual(BigEndian(|a|, 4), a, BigEndian(|b|, 4), b);
    }
  }

  /** No v2 leaf preimage is a v2 transition preimage, whatever the field lengths. */
  lemma DomainsSeparated(t: TransitionInput, chainId: Bytes, w: WithdrawalLeafInput)
    ensures TransitionPreimageV2(t) != LeafPreimageV2(chainId, w)
  {
    hide LenPrefixed, U64Bytes, Ascii;
    TagsDiffer();
    PrefixedDiffer(TRANSITION_TAG, LenPrefixed(t.chainId) + (LenPrefixed(t.rollupId) + (LenPrefixed(t.prevStateRoot)
      + (LenPrefixed(t.dataHash) + (U64Bytes(t.txCount) + LenPrefixed(t.withdrawalsRoot))))),
      WITHDRAWAL_TAG, LenPrefixed(chainId) + (LenPrefixed(w.rollupId) + (U64Bytes(w.withdrawalIndex)
      + (LenPrefixed(w.recipient) + (LenPrefixed(w.denom) + U64Bytes(w.amount))))));
  }

  predicate ZeroFree(b: Bytes) { 0 !in b }

  /** A zero-free field is delimited by the first zero. */
  lemma PeelZero(a: Bytes, x: Bytes, b: Bytes, y: Bytes)
    requires ZeroFree(a) && ZeroFree(b) && a + ([0] + x) == b + ([0] + y)
    ensures a == b && x == y
  {
    var s, t := a + ([0] + x), b + ([0] + y);
    assert s[|a|] == 0 && t[|b|] == 0;
    assert forall k :: 0 <= k < |a| ==> s[k] == a[k];
    assert forall k :: 0 <= k < |b| ==> t[k] == b[k];
    SplitEqual(a, [0] + x, b, [0] + y);
    SplitEqual([0], x, [0], y);
  }

  predicate ZeroFreeLeaf(w: WithdrawalLeafInput) {
    ZeroFree(w.rollupId) && ZeroFree(w.recipient) && ZeroFree(w.denom)
  }

  /** The v1 leaf preimage determines every field as long as no text field holds a zero byte. */
  lemma LeafV1Injective(v: WithdrawalLeafInput, w: WithdrawalLeafInput)
    requires ZeroFreeLeaf(v) && ZeroFreeLeaf(w) && LeafPreimageV1(v) == LeafPreimageV1(w)
    ensures v == w
  {
    hide U64Bytes, ZeroFree;
    var v3, w3 := v.denom + ([0] + U64Bytes(v.amount)), w.denom + ([0] + U64Bytes(w.amount));
    var v2, w2 := v.recipient + ([0] + v3), w.recipient + ([0] + w3);
    var v1, w1 := U64Bytes(v.withdrawalIndex) + v2, U64Bytes(w.withdrawalIndex) + w2;
    PeelZero(v.rollupId, v1, w.rollupId, w1);
    PeelU64(v.withdrawalIndex, v2, w.withdrawalIndex, w2);
    PeelZero(v.recipient, v3, w.recipient, w3);
    PeelZero(v.denom, U64Bytes(v.amount), w.denom, U64Bytes(w.amount));
    assert U64Bytes(v.amount) + [] == U64Bytes(w.amount) + [];
    PeelU64(v.amount, [], w.amount, []);
  }

  // Where a v1 preimage can be cut: a separator at p, eight octets, a separator at q, and one nine octets
  // before the end.

  predicate Cut(s: Bytes, p: nat, q: nat) {
    p + 9 <= q && q + 9 < |s| && s[p] == 0 && s[q] == 0 && s[|s| - 9] == 0
  }

  function RecipientCut(w: WithdrawalLeafInput): nat { |w.rollupId| + 9 + |w.recipient| }

  lemma FrontLayout(a: Bytes, b: Bytes, c: Bytes, t: Bytes)
    requires |b| == 8
    ensures var s, p, q := a + ([0] + (b + (c + ([0] + t)))), |a|, |a| + 9 + |c|;
            && |s| == q + 1 + |t| && s[p] == 0 && s[q] == 0
            && s[..p] == a && s[p + 1..p + 9] == b && s[p + 9..q] == c && s[q + 1..] == t
  {
  }

  lemma EndLayout(s: Bytes, at: nat, d: Bytes, e: Bytes)
    requires at <= |s| && s[at..] == d + ([0] + e) && |e| == 8
    ensures |s| == at + |d| + 9 && s[at..|s| - 9] == d && s[|s| - 9] == 0 && s[|s| - 8..] == e
  {
    var t := s[at..];
    assert t[..|d|] == d && t[|d|] == 0 && t[|d| + 1..] == e;
  }

  lemma Layout(w: WithdrawalLeafInput)
    ensures var s, p, q := LeafPreimageV1(w), |w.rollupId|, RecipientCut(w);
            && Cut(s, p, q) && |s| == q + 10 + |w.denom|
            && s[..p] == w.rollupId && s[p + 1..p + 9] == U64Bytes(w.withdrawalIndex) && s[p + 9..q] == w.recipient
            && s[q + 1..|s| - 9] == w.denom && s[|s| - 8..] == U64Bytes(w.amount)
  {
    hide U64Bytes;
    var end := w.denom + ([0] + U64Bytes(w.amount));
    FrontLayout(w.rollupId, U64Bytes(w.withdrawalIndex), w.recipient, end);
    EndLayout(LeafPreimageV1(w), RecipientCut(w) + 1, w.denom, U64Bytes(w.amount));
  }

  function U64Of(b: Bytes): (n: u64)
    requires |b| == 8
    ensures U64Bytes(n) == b
  {
    PowerOf256();
    NumberBound(b, 256);
    DigitsOfNumber(b, 256);
    Number(b, 256)
  }

  /** Every cut of a byte string is the preimage of a withdrawal. */
  function Reading(s: Bytes, p: nat, q: nat): (v: WithdrawalLeafInput)
    requires Cut(s, p, q)
    ensures LeafPreimageV1(v) == s && |v.rollupId| == p && RecipientCut(v) == q
  {
    hide U64Bytes;
    var n := |s|;
    assert s == s[..p] + ([0] + (s[p + 1..p + 9] + (s[p + 9..q] + ([0] + (s[q + 1..n - 9] + ([0] + s[n - 8..]))))));
    WithdrawalLeafInput(s[..p], U64Of(s[p + 1..p + 9]), s[p + 9..q], s[q + 1..n - 9], U64Of(s[n - 8..]))
  }

  ghost predicate SharedV1(w: WithdrawalLeafInput) {
    exists v :: v != w && LeafPreimageV1(v) == LeafPreimageV1(w)
  }

  /** The index has a zero octet with at least as many recipient octets behind it as it lies deep. */
  predicate IndexCuts(w: WithdrawalLeafInput) {
    exists j :: 0 <= j < 8 && j < |w.recipient| && U64Bytes(w.withdrawalIndex)[j] == 0
  }

  /** A clean leaf's preimage can be cut in one way only. */
  lemma OneCut(w: WithdrawalLeafInput, p: nat, q: nat)
    requires ZeroFreeLeaf(w) && !IndexCuts(w) && Cut(LeafPreimageV1(w), p, q)
    ensures p == |w.rollupId| && q == RecipientCut(w)
  {
    hide U64Bytes, LeafPreimageV1;
    Layout(w);
    var s, p0, q0 := LeafPreimageV1(w), |w.rollupId|, RecipientCut(w);
    assert forall k :: 0 <= k < p0 ==> s[k] == s[..p0][k] && s[k] in w.rollupId;
    assert forall k :: p0 + 9 <= k < q0 ==> s[k] == s[p0 + 9..q0][k - p0 - 9] && s[k] in w.recipient;
    assert forall k :: q0 < k < |s| - 9 ==> s[k] == s[q0 + 1..|s| - 9][k - q0 - 1] && s[k] in w.denom;
    assert forall k :: p0 < k < p0 + 9 ==> s[k] == s[p0 + 1..p0 + 9][k - p0 - 1];
  }

  lemma SameCut(v: WithdrawalLeafInput, w: WithdrawalLeafInput)
    requires LeafPreimageV1(v) == LeafPreimageV1(w)
    requires |v.rollupId| == |w.rollupId| && RecipientCut(v) == RecipientCut(w)
    ensures v == w
  {
    hide U64Bytes, LeafPreimageV1;
    Layout(v);
    Layout(w);
    assert U64Bytes(v.withdrawalIndex) + [] == U64Bytes(w.withdrawalIndex) + [];
    assert U64Bytes(v.amount) + [] == U64Bytes(w.amount) + [];
    PeelU64(v.withdrawalIndex, [], w.withdrawalIndex, []);
    PeelU64(v.amount, [], w.amount, []);
  }

  /** A second cut of a dirty leaf's preimage. */
  lemma OtherCut(w: WithdrawalLeafInput) returns (p: nat, q: nat)
    requires !ZeroFreeLeaf(w) || IndexCuts(w)
    ensures Cut(LeafPreimageV1(w), p, q) && !(p == |w.rollupId| && q == RecipientCut(w))
  {
    hide U64Bytes, LeafPreimageV1;
    Layout(w);
    var s, p0, q0 := LeafPreimageV1(w), |w.rollupId|, RecipientCut(w);
    p, q := p0, q0;
    if 0 in w.rollupId {
      p :| 0 <= p < p0 && w.rollupId[p] == 0;
      assert s[..p0][p] == 0;
    } else if 0 in w.recipient {
      var j :| 0 <= j < |w.recipient| && w.recipient[j] == 0;
      q := p0 + 9 + j;
      assert s[p0 + 9..q0][j] == 0;
    } else if 0 in w.denom {
      var j :| 0 <= j < |w.denom| && w.denom[j] == 0;
      q := q0 + 1 + j;
      assert s[q0 + 1..|s| - 9][j] == 0;
    } else {
      var j :| 0 <= j < 8 && j < |w.recipient| && U64Bytes(w.withdrawalIndex)[j] == 0;
      p := p0 + 1 + j;
      assert s[p0 + 1..p0 + 9][j] == 0;
    }
  }

  /**
   * A v1 preimage belongs to a second withdrawal exactly when a text field holds a zero byte or the index
   * has one that the recipient is long enough to make up for.
   */
  lemma LeafV1Exact(w: WithdrawalLeafInput)
    ensures SharedV1(w) <==> !ZeroFreeLeaf(w) || IndexCuts(w)
  {
    hide LeafPreimageV1, ZeroFreeLeaf, IndexCuts, Cut, RecipientCut;
    if !ZeroFreeLeaf(w) || IndexCuts(w) {
      var p, q := OtherCut(w);
      var v := Reading(LeafPreimageV1(w), p, q);
      assert v != w;
    } else if SharedV1(w) {
      var v :| v != w && LeafPreimageV1(v) == LeafPreimageV1(w);
      Layout(v);
      OneCut(w, |v.rollupId|, RecipientCut(v));
      SameCut(v, w);
    }
  }

  lemma FirstOctet(n: u64)
    requires n < 0x100_0000_0000_0000
    ensures U64Bytes(n)[0] == 0
  {
    var d := n / 256 / 256 / 256 / 256 / 256 / 256 / 256;
    assert U64Bytes(n)[0] == d % 256 by { Leading(n); }
    QuotientSmall(n);
  }

  lemma Leading(n: nat)
    ensures BigEndian(n, 8)[0] == n / 256 / 256 / 256 / 256 / 256 / 256 / 256 % 256
  {
    var q := n / 256 / 256 / 256 / 256 / 256 / 256 / 256;
    assert Digits(q, 256, 1) == [q % 256];
  }

  lemma QuotientSmall(n: nat)
    requires n < 0x100_0000_0000_0000
    ensures n / 256 / 256 / 256 / 256 / 256 / 256 / 256 == 0
  {
  }

  /**
   * Below 2^56 withdrawals every v1 leaf with a recipient has a second reading: the separator joins the rollup
   * id, which then ends in a zero byte, and a recipient byte joins the index.
   */
  lemma LeafV1SecondReading(w: WithdrawalLeafInput) returns (v: WithdrawalLeafInput)
    requires w.withdrawalIndex < 0x100_0000_0000_0000 && w.recipient != []
    ensures LeafPreimageV1(v) == LeafPreimageV1(w) && v != w && v.rollupId == w.rollupId + [0]
  {
    hide U64Bytes, LeafPreimageV1;
    Layout(w);
    FirstOctet(w.withdrawalIndex);
    var s, p := LeafPreimageV1(w), |w.rollupId| + 1;
    assert s[p] == s[p..p + 8][0];
    v := Reading(s, p, RecipientCut(w));
    Layout(v);
    assert s[..p] == s[..p - 1] + [s[p - 1]];
  }
}
