/**
 * How each hashed or signed byte string is read back, field after field, each one where the previous one
 * ends: a four- or eight-octet big-endian length in front of a text, eight octets for an integer.
 */
module PreimageReaders {
  import opened Common
  import opened Preimages

  /** The number in the first `width` octets, most significant first, and what follows. */
  function TakeNumber(b: Bytes, width: nat): Option<(nat, Bytes)> {
    if |b| < width then None else Some((Number(b[..width], 256), b[width..]))
  }

  function TakeU64(b: Bytes): Option<(u64, Bytes)> {
    match TakeNumber(b, 8)
    case Some((n, rest)) => if n < TWO_64 then Some((n, rest)) else None
    case None => None
  }

  function TakeOctets(b: Bytes, n: nat): Option<(Bytes, Bytes)> {
    if |b| < n then None else Some((b[..n], b[n..]))
  }

  /** A text behind its length in `width` octets. */
  function TakeText(b: Bytes, width: nat): Option<(Bytes, Bytes)> {
    match TakeNumber(b, width)
    case Some((n, rest)) => TakeOctets(rest, n)
    case None => None
  }

  /** What follows an expected text. */
  function Skip(b: Bytes, text: Bytes): Option<Bytes> {
    if text <= b then Some(b[|text|..]) else None
  }

  lemma TakesNumber(n: nat, width: nat, rest: Bytes)
    requires n < Pow(256, width)
    ensures TakeNumber(BigEndian(n, width) + rest, width) == Some((n, rest))
  {
    hide Digits, Number, Pow;
    NumberOfDigits(n, 256, width);
    var b := BigEndian(n, width) + rest;
    assert b[..width] == BigEndian(n, width) && b[width..] == rest;
  }

  lemma TakesU64(n: u64, rest: Bytes)
    ensures TakeU64(U64Bytes(n) + rest) == Some((n, rest))
  {
    hide BigEndian, Pow, TakeNumber;
    PowerOf256();
    TakesNumber(n, 8, rest);
  }

  lemma TakesOctets(a: Bytes, rest: Bytes)
    ensures TakeOctets(a + rest, |a|) == Some((a, rest))
  {
    assert (a + rest)[..|a|] == a && (a + rest)[|a|..] == rest;
  }

  lemma TakesText(a: Bytes, width: nat, rest: Bytes)
    requires |a| < Pow(256, width)
    ensures TakeText((BigEndian(|a|, width) + a) + rest, width) == Some((a, rest))
  {
    hide BigEndian, Pow, TakeNumber, TakeOctets;
    assert (BigEndian(|a|, width) + a) + rest == BigEndian(|a|, width) + (a + rest);
    TakesNumber(|a|, width, a + rest);
    TakesOctets(a, rest);
  }

  lemma TakesText4(a: Bytes, rest: Bytes)
    requires |a| < TWO_32
    ensures TakeText(LenPrefixed(a) + rest, 4) == Some((a, rest))
  {
    hide BigEndian, Pow, TakeText;
    PowerOf256();
    TakesText(a, 4, rest);
  }

  lemma TakesText8(a: Bytes, rest: Bytes)
    requires |a| < TWO_64
    ensures TakeText(LongPrefixed(a) + rest, 8) == Some((a, rest))
  {
    hide BigEndian, Pow, TakeText;
    PowerOf256();
    TakesText(a, 8, rest);
  }

  lemma Skips(text: Bytes, rest: Bytes)
    ensures Skip(text + rest, text) == Some(rest)
  {
    assert (text + rest)[..|text|] == text && (text + rest)[|text|..] == rest;
  }

  // ---------------------------------------------------------------------------
  // Withdrawal leaves

  /** Tag, chain id, rollup id, index, recipient, denomination, amount, and nothing behind. */
  function ReadLeafV2(b: Bytes): Option<(Bytes, WithdrawalLeafInput)> {
    match TakeText(b, 4)
    case Some((tag, b1)) =>
      if tag != Ascii("qorechain-rdk-withdrawal/v2") then None
      else
        (match TakeText(b1, 4)
         case Some((chainId, b2)) =>
           (match TakeText(b2, 4)
            case Some((rollupId, b3)) =>
              (match TakeU64(b3)
               case Some((index, b4)) => ReadPayee(chainId, rollupId, index, b4)
               case None => None)
            case None => None)
         case None => None)
    case None => None
  }

  function ReadPayee(chainId: Bytes, rollupId: Bytes, index: u64, b: Bytes): Option<(Bytes, WithdrawalLeafInput)> {
    match TakeText(b, 4)
    case Some((recipient, b1)) =>
      (match TakeText(b1, 4)
       case Some((denom, b2)) =>
         (match TakeU64(b2)
          case Some((amount, end)) =>
            if end != [] then None
            else Some((chainId, WithdrawalLeafInput(rollupId, index, recipient, denom, amount)))
          case None => None)
       case None => None)
    case None => None
  }

  lemma TagFits()
    ensures |WITHDRAWAL_TAG| == |TRANSITION_TAG| == 27
  {
  }

  /** The v2 leaf preimage is read as the chain and the withdrawal it was made of. */
  lemma LeafV2Reads(chainId: Bytes, w: WithdrawalLeafInput)
    requires |chainId| < TWO_32 && ShortLeaf(w)
    ensures ReadLeafV2(LeafPreimageV2(chainId, w)) == Some((chainId, w))
  {
    hide LenPrefixed, U64Bytes, Ascii, TakeText, TakeU64;
    var b5 := LenPrefixed(w.denom) + U64Bytes(w.amount);
    var b4 := LenPrefixed(w.recipient) + b5;
    var b3 := U64Bytes(w.withdrawalIndex) + b4;
    var b2 := LenPrefixed(w.rollupId) + b3;
    var b1 := LenPrefixed(chainId) + b2;
    TagFits();
    TakesText4(WITHDRAWAL_TAG, b1);
    TakesText4(chainId, b2);
    TakesText4(w.rollupId, b3);
    TakesU64(w.withdrawalIndex, b4);
    TakesText4(w.recipient, b5);
    TakesText4(w.denom, U64Bytes(w.amount));
    TakesU64(w.amount, []);
    assert U64Bytes(w.amount) + [] == U64Bytes(w.amount);
  }

  /** Rollup id, zero, index, recipient, zero, denomination, zero, amount, at the places their lengths give. */
  predicate IsLeafV1(s: Bytes, w: WithdrawalLeafInput) {
    var p, q := |w.rollupId|, |w.rollupId| + 9 + |w.recipient|;
    && |s| == q + 10 + |w.denom|
    && s[..p] == w.rollupId && s[p] == 0
    && Number(s[p + 1..p + 9], 256) == w.withdrawalIndex
    && s[p + 9..q] == w.recipient && s[q] == 0
    && s[q + 1..|s| - 9] == w.denom && s[|s| - 9] == 0
    && Number(s[|s| - 8..], 256) == w.amount
  }

  lemma LeafV1Reads(w: WithdrawalLeafInput)
    ensures IsLeafV1(LeafPreimageV1(w), w)
  {
    hide U64Bytes, LeafPreimageV1, Number;
    Layout(w);
    U64Value(w.withdrawalIndex);
    U64Value(w.amount);
  }

  lemma U64Value(n: u64)
    ensures Number(U64Bytes(n), 256) == n
  {
    hide Digits, Number, Pow;
    PowerOf256();
    NumberOfDigits(n, 256, 8);
  }

  // ---------------------------------------------------------------------------
  // Transitions

  /** Tag, chain id, rollup id, previous root, data hash, count, withdrawals root, and nothing behind. */
  function ReadTransitionV2(b: Bytes): Option<TransitionInput> {
    match TakeText(b, 4)
    case Some((tag, b1)) =>
      if tag != Ascii("qorechain-rdk-transition/v2") then None
      else
        (match TakeText(b1, 4)
         case Some((chainId, b2)) =>
           (match TakeText(b2, 4)
            case Some((rollupId, b3)) => ReadBatch(chainId, rollupId, b3)
            case None => None)
         case None => None)
    case None => None
  }

  function ReadBatch(chainId: Bytes, rollupId: Bytes, b: Bytes): Option<TransitionInput> {
    match TakeText(b, 4)
    case Some((prev, b1)) =>
      (match TakeText(b1, 4)
       case Some((data, b2)) =>
         (match TakeU64(b2)
          case Some((count, b3)) =>
            (match TakeText(b3, 4)
             case Some((withdrawals, end)) =>
               if end != [] then None else Some(TransitionInput(chainId, rollupId, prev, data, count, withdrawals))
             case None => None)
          case None => None)
       case None => None)
    case None => None
  }

  /** The v2 transition preimage is read as the transition it was made of. */
  lemma TransitionV2Reads(t: TransitionInput)
    requires ShortTransition(t)
    ensures ReadTransitionV2(TransitionPreimageV2(t)) == Some(t)
  {
    hide LenPrefixed, U64Bytes, Ascii, TakeText, TakeU64;
    var b5 := U64Bytes(t.txCount) + LenPrefixed(t.withdrawalsRoot);
    var b4 := LenPrefixed(t.dataHash) + b5;
    var b3 := LenPrefixed(t.prevStateRoot) + b4;
    var b2 := LenPrefixed(t.rollupId) + b3;
    var b1 := LenPrefixed(t.chainId) + b2;
    TagFits();
    TakesText4(TRANSITION_TAG, b1);
    TakesText4(t.chainId, b2);
    TakesText4(t.rollupId, b3);
    TakesText4(t.prevStateRoot, b4);
    TakesText4(t.dataHash, b5);
    TakesU64(t.txCount, LenPrefixed(t.withdrawalsRoot));
    TakesText4(t.withdrawalsRoot, []);
    assert LenPrefixed(t.withdrawalsRoot) + [] == LenPrefixed(t.withdrawalsRoot);
  }

  /** Given the lengths, the v1 transition preimage is previous root, data hash, count. */
  lemma TransitionV1Reads(t: TransitionInput)
    ensures var s, p := TransitionPreimageV1(t), |t.prevStateRoot|;
            && |s| == p + |t.dataHash| + 8 && s[..p] == t.prevStateRoot && s[p..|s| - 8] == t.dataHash
            && Number(s[|s| - 8..], 256) == t.txCount
  {
    hide U64Bytes, Number;
    U64Value(t.txCount);
    var s, p := TransitionPreimageV1(t), |t.prevStateRoot|;
    assert s[p..] == t.dataHash + U64Bytes(t.txCount);
    assert s[|s| - 8..] == U64Bytes(t.txCount);
  }

  /** A root is the hash of its version's preimage; a v2 root names both ids. */
  lemma RootIsHashed(t: TransitionInput, hash: Bytes -> Bytes)
    ensures BatchTransitionRoot(t, Ascii("v1"), hash) == Ok(hash(TransitionPreimageV1(t)))
    ensures BatchTransitionRoot(t, Ascii("v2"), hash)
         == if t.chainId == [] || t.rollupId == [] then Err(MissingId)
            else if |t.withdrawalsRoot| !in {0, 32} then Err(BadWithdrawalsRoot)
            else Ok(hash(TransitionPreimageV2(t)))
  {
    hide TransitionPreimageV1, TransitionPreimageV2, Ascii;
    VersionNames();
  }

  // ---------------------------------------------------------------------------
  // Anchors

  /** Domain, chain id, layer, height, state root, validators, count, proof, and nothing behind. */
  function ReadAnchorV2(b: Bytes): Option<AnchorFields> {
    match Skip(b, Ascii("qorechain-multilayer-anchor-v2"))
    case Some(b1) =>
      (match TakeText(b1, 8)
       case Some((chainId, b2)) =>
         (match TakeText(b2, 8)
          case Some((layerId, b3)) =>
            (match TakeU64(b3)
             case Some((height, b4)) => ReadCommitment(chainId, layerId, height, b4)
             case None => None)
          case None => None)
       case None => None)
    case None => None
  }

  function ReadCommitment(chainId: Bytes, layerId: Bytes, height: u64, b: Bytes): Option<AnchorFields> {
    match TakeText(b, 8)
    case Some((root, b1)) =>
      (match TakeText(b1, 8)
       case Some((validators, b2)) =>
         (match TakeU64(b2)
          case Some((count, b3)) =>
            (match TakeText(b3, 8)
             case Some((proof, end)) =>
               if end != [] then None
               else Some(AnchorFields(chainId, layerId, height, root, validators, count, proof))
             case None => None)
          case None => None)
       case None => None)
    case None => None
  }

  /** The v2 anchor message is read as the fields it was made of. */
  lemma AnchorV2Reads(f: AnchorFields)
    requires ShortFields(f)
    ensures ReadAnchorV2(AnchorMessageV2(f)) == Some(f)
  {
    hide LongPrefixed, U64Bytes, Ascii, TakeText, TakeU64, Skip;
    var b6 := U64Bytes(f.txCount) + LongPrefixed(f.stateProof);
    var b5 := LongPrefixed(f.validatorSetHash) + b6;
    var b4 := LongPrefixed(f.stateRoot) + b5;
    var b3 := U64Bytes(f.layerHeight) + b4;
    var b2 := LongPrefixed(f.layerId) + b3;
    var b1 := LongPrefixed(f.chainId) + b2;
    Skips(ANCHOR_DOMAIN_V2, b1);
    TakesText8(f.chainId, b2);
    TakesText8(f.layerId, b3);
    TakesU64(f.layerHeight, b4);
    TakesText8(f.stateRoot, b5);
    TakesText8(f.validatorSetHash, b6);
    TakesU64(f.txCount, LongPrefixed(f.stateProof));
    TakesText8(f.stateProof, []);
    assert LongPrefixed(f.stateProof) + [] == LongPrefixed(f.stateProof);
  }

  /** Given the lengths, the v1 anchor message is layer, height, state root, validators. */
  lemma AnchorV1Reads(f: AnchorFields)
    ensures var s, p, q := AnchorMessageV1(f), |f.layerId|, |f.layerId| + 8 + |f.stateRoot|;
            && |s| == q + |f.validatorSetHash| && s[..p] == f.layerId && Number(s[p..p + 8], 256) == f.layerHeight
            && s[p + 8..q] == f.stateRoot && s[q..] == f.validatorSetHash
  {
    hide U64Bytes, Number;
    U64Value(f.layerHeight);
    var s, p := AnchorMessageV1(f), |f.layerId|;
    assert s[p..] == U64Bytes(f.layerHeight) + (f.stateRoot + f.validatorSetHash);
    assert s[p..p + 8] == U64Bytes(f.layerHeight);
    assert s[p + 8..] == f.stateRoot + f.validatorSetHash;
  }
}
