/** What a receipt's verdict says, in terms of what the chain holds: nothing here goes by the verifier's own steps. */
module ReceiptMeaning {
  import opened Common
  import opened WireBytes
  import opened Receipts
  import P = Preimages

  // ---------------------------------------------------------------------------
  // What the chain holds

  predicate Readable(r: Receipt) {
    && (r.version == 1 || r.version == 2) && r.algorithm == Ascii("ML-DSA-87") && (r.version == 2 ==> r.chainId != [])
  }

  /** The rollup exists and belongs to the layer the receipt names. */
  predicate LayerBound(r: Receipt, c: Chain) {
    r.rollupId in c.rollups && r.layerId != [] && c.rollups[r.rollupId].layerId == r.layerId
  }

  /** The batch exists and its root, in whichever text form, is the receipt's state root, given twice. */
  predicate RootCarried(r: Receipt, c: Chain) {
    && (r.rollupId, r.batchIndex) in c.batches && r.stateRoot != [] && r.batchStateRoot == r.stateRoot
    && HexWireBytes(c.batches[(r.rollupId, r.batchIndex)]) == r.stateRoot
  }

  predicate Names(r: Receipt, a: AnchorView) {
    r.stateRoot == a.stateRoot && r.layerHeight == a.layerHeight && r.pqcSignature == a.pqcSignature
  }

  /** Anchor k of the layer is the first the receipt names. */
  predicate FirstNamed(r: Receipt, c: Chain, k: nat) {
    && r.layerId in c.anchors && k < |c.anchors[r.layerId]| && Names(r, c.anchors[r.layerId][k])
    && forall j :: 0 <= j < k ==> !Names(r, c.anchors[r.layerId][j])
  }

  /** The receipt repeats the anchor; version 1 may leave the count and the proof out. */
  predicate Repeats(r: Receipt, a: AnchorView, lower: Bytes -> Bytes) {
    && r.validatorSetHash == a.validatorSetHash && r.mainChainHeight == a.mainChainHeight
    && r.anchoredAt == a.anchoredAt
    && (r.transactionCount == a.transactionCount || (r.version != 2 && r.transactionCount == 0))
    && (lower(r.compressedStateProof) == lower(a.compressedStateProof)
        || (r.version != 2 && lower(r.compressedStateProof) == []))
  }

  predicate AnchoredAt(r: Receipt, c: Chain, k: nat) {
    FirstNamed(r, c, k) && Repeats(r, c.anchors[r.layerId][k], c.lower)
  }

  /** The receipt names the rollup's creator, who has a registered key. */
  predicate CreatorKnown(r: Receipt, c: Chain) {
    && r.rollupId in c.rollups && r.creator == c.rollups[r.rollupId].creator
    && r.creator in c.keys && c.keys[r.creator] != []
  }

  predicate ChainNamed(r: Receipt, c: Chain) { r.chainId == [] || r.chainId == c.chainId }

  /** Key and signature are hexadecimal texts, not empty, and the signature check accepts them over the message. */
  predicate Accepted(key: Bytes, signature: Bytes, message: Bytes, accepts: (Bytes, Bytes, Bytes) -> bool) {
    && key != [] && signature != []
    && match (HexToBytes(key), HexToBytes(signature))
       case (Some(k), Some(s)) => accepts(k, message, s)
       case _ => false
  }

  function MessageV1(layerId: Bytes, height: u64, stateRoot: Bytes, validators: Bytes): Bytes {
    P.AnchorMessageV1(P.AnchorFields([], layerId, height, HexOrEmpty(stateRoot), HexOrEmpty(validators), 0, []))
  }

  function MessageV2(chainId: Bytes, layerId: Bytes, height: u64, stateRoot: Bytes, validators: Bytes, count: u64,
                     proof: Bytes): Bytes {
    P.AnchorMessageV2(P.AnchorFields(chainId, layerId, height, HexOrEmpty(stateRoot), HexOrEmpty(validators), count,
                                     HexOrEmpty(proof)))
  }

  /** The key accepts an anchor in the v1 form below the v2 height and in the v2 form from it on. */
  predicate SignedInForce(a: AnchorView, key: Bytes, c: Chain) {
    if a.mainChainHeight < c.v2Height then
      Accepted(key, a.pqcSignature, MessageV1(a.layerId, a.layerHeight, a.stateRoot, a.validatorSetHash), c.accepts)
    else
      Accepted(key, a.pqcSignature,
               MessageV2(c.chainId, a.layerId, a.layerHeight, a.stateRoot, a.validatorSetHash, a.transactionCount,
                         a.compressedStateProof), c.accepts)
  }

  /** Everything a valid receipt stands for, with anchor k of its layer. */
  predicate Settled(r: Receipt, c: Chain, k: nat) {
    && Readable(r) && LayerBound(r, c) && RootCarried(r, c) && AnchoredAt(r, c, k) && CreatorKnown(r, c)
    && ChainNamed(r, c) && SignedInForce(c.anchors[r.layerId][k], c.keys[r.creator], c)
  }

  // ---------------------------------------------------------------------------
  // The verifier's parts say the same

  lemma ReadableExact(r: Receipt)
    ensures SchemaError(r) == Fine <==> Readable(r)
  {
    hide Ascii;
  }

  lemma SignatureExact(a: AnchorView, key: Bytes, c: Chain)
    ensures SignatureOver(a, key, c.chainId, VersionFor(a.mainChainHeight, c.v2Height), c.accepts)
       <==> SignedInForce(a, key, c)
  {
    hide HexToBytes, HexOrEmpty, P.AnchorMessageV2, P.LongPrefixed, P.U64Bytes;
  }

  lemma {:induction false} MatchedIsFirst(anchors: seq<AnchorView>, r: Receipt) returns (k: nat)
    ensures k <= |anchors| && forall j :: 0 <= j < k ==> !Names(r, anchors[j])
    ensures k < |anchors| <==> Matched(anchors, r).Some?
    ensures k < |anchors| ==> Names(r, anchors[k]) && Matched(anchors, r) == Some(anchors[k])
  {
    if |anchors| == 0 || Matches(anchors[0], r) {
      k := 0;
    } else {
      k := MatchedIsFirst(anchors[1..], r);
      assert forall j :: 1 <= j < k + 1 ==> anchors[j] == anchors[1..][j - 1];
      k := k + 1;
    }
  }

  lemma FirstIsUnique(r: Receipt, c: Chain, j: nat, k: nat)
    requires FirstNamed(r, c, j) && FirstNamed(r, c, k)
    ensures j == k
  {
  }

  /** The anchor the verifier works with is the first one named. */
  lemma FoundExact(r: Receipt, c: Chain) returns (k: nat)
    ensures Found(r, c).Some? <==> FirstNamed(r, c, k)
    ensures (exists i: nat :: FirstNamed(r, c, i)) <==> FirstNamed(r, c, k)
    ensures FirstNamed(r, c, k) ==> Found(r, c) == Some(c.anchors[r.layerId][k])
    ensures forall i: nat :: FirstNamed(r, c, i) ==> i == k
  {
    k := 0;
    if r.layerId in c.anchors {
      k := MatchedIsFirst(c.anchors[r.layerId], r);
      hide Names, Matched;
    }
  }

  lemma RepeatsExact(r: Receipt, a: AnchorView, lower: Bytes -> Bytes)
    requires Readable(r)
    ensures FieldMismatch(r, a, lower) == Fine <==> Repeats(r, a, lower)
  {
    hide Ascii;
  }

  lemma Step3Exact(r: Receipt, c: Chain)
    requires Readable(r)
    ensures Step3(r, c) == Fine <==> exists k: nat :: AnchoredAt(r, c, k)
  {
    hide Readable, FieldMismatch, Repeats, Names, Found;
    var k := FoundExact(r, c);
    if FirstNamed(r, c, k) { RepeatsExact(r, c.anchors[r.layerId][k], c.lower); }
    FoundNeedsAnchors(r, c);
    if exists i: nat :: AnchoredAt(r, c, i) {
      var i: nat :| AnchoredAt(r, c, i);
      assert i == k;
    } else if Step3(r, c) == Fine {
      assert AnchoredAt(r, c, k);
    }
  }

  lemma FoundNeedsAnchors(r: Receipt, c: Chain)
    ensures Found(r, c).Some? ==> r.layerId in c.anchors
  {
  }

  // ---------------------------------------------------------------------------
  // The verdict

  ghost predicate Anchored(r: Receipt, c: Chain) { exists k: nat :: AnchoredAt(r, c, k) }

  ghost predicate Signed(r: Receipt, c: Chain)
    requires CreatorKnown(r, c)
  {
    exists k: nat :: AnchoredAt(r, c, k) && SignedInForce(c.anchors[r.layerId][k], c.keys[r.creator], c)
  }

  /** Each check is set exactly when the ones before it are and the chain bears out its own. */
  lemma ChecksMean(r: Receipt, key: Bytes, c: Chain, accepts: (Bytes, Bytes, Bytes) -> bool)
    ensures var v := Verdict(r, key, Some(c), accepts).checks;
            && (v.layerBinding <==> Readable(r) && LayerBound(r, c))
            && (v.batchStateRoot <==> v.layerBinding && RootCarried(r, c))
            && (v.anchorOnChain <==> v.batchStateRoot && Anchored(r, c))
            && (v.creatorAuthority <==> v.anchorOnChain && CreatorKnown(r, c))
            && (v.chainBinding <==> v.creatorAuthority && ChainNamed(r, c))
            && (v.pqcSignature <==> v.chainBinding && Signed(r, c))
  {
    ReadableExact(r);
    if Readable(r) {
      hide Ascii, HexWireBytes, Readable, Step3, Found, AnchoredAt, SignatureOver, SignedInForce;
      Step3Exact(r, c);
      if Step1(r, c) == Fine && Step3(r, c) == Fine && Step4(r, c) == Fine { Step6Exact(r, c); }
    }
  }

  lemma Step6Exact(r: Receipt, c: Chain)
    requires Readable(r) && Step1(r, c) == Fine && Step3(r, c) == Fine && Step4(r, c) == Fine
    ensures CreatorKnown(r, c) && (Step6(r, c) == Fine <==> Signed(r, c))
  {
    hide Ascii, Readable, FieldMismatch, Found, FirstNamed, Repeats, SignatureOver, SignedInForce, VersionFor;
    var k := FoundExact(r, c);
    SignatureExact(Found(r, c).value, c.keys[r.creator], c);
    Step3Exact(r, c);
    var i: nat :| AnchoredAt(r, c, i);
    assert i == k;
  }

  /** A receipt is valid exactly when the chain bears out all it stands for, and it is then rebuilt from the chain. */
  lemma ValidExact(r: Receipt, key: Bytes, c: Chain, accepts: (Bytes, Bytes, Bytes) -> bool)
    ensures Verdict(r, key, Some(c), accepts).valid <==> exists k: nat :: Settled(r, c, k)
  {
    hide Verdict, Readable, LayerBound, RootCarried, Names, Repeats, ChainNamed, SignedInForce;
    ChecksMean(r, key, c, accepts);
    ValidMeansAllSix(r, key, c, accepts);
    if Verdict(r, key, Some(c), accepts).valid {
      var k: nat :| AnchoredAt(r, c, k) && SignedInForce(c.anchors[r.layerId][k], c.keys[r.creator], c);
      assert Settled(r, c, k);
    }
    if exists k: nat :: Settled(r, c, k) {
      var k: nat :| Settled(r, c, k);
      assert AnchoredAt(r, c, k);
    }
  }

  /** The receipt of an anchor, field by field. */
  predicate RebuiltFrom(s: Receipt, a: AnchorView, rollupId: Bytes, rollup: Rollup, batchIndex: u64, root: Bytes,
                        chainId: Bytes) {
    && s.version == 2 && s.algorithm == Ascii("ML-DSA-87") && s.chainId == chainId
    && s.rollupId == rollupId && s.layerId == rollup.layerId && s.creator == rollup.creator
    && s.batchIndex == batchIndex && s.batchStateRoot == root && s.stateRoot == a.stateRoot
    && s.layerHeight == a.layerHeight && s.validatorSetHash == a.validatorSetHash
    && s.mainChainHeight == a.mainChainHeight && s.anchoredAt == a.anchoredAt && s.pqcSignature == a.pqcSignature
    && s.transactionCount == a.transactionCount && s.compressedStateProof == a.compressedStateProof
  }

  /** The rebuilt receipt, the reported anchor and the reported form are those of the anchor that settles it. */
  lemma RebuiltIs(r: Receipt, key: Bytes, c: Chain, accepts: (Bytes, Bytes, Bytes) -> bool, k: nat)
    requires Settled(r, c, k) && Verdict(r, key, Some(c), accepts).valid
    ensures var v, a := Verdict(r, key, Some(c), accepts), c.anchors[r.layerId][k];
            && v.anchor == Some(a) && v.reason == Fine
            && v.signVersion == Some(if a.mainChainHeight < c.v2Height then SignV1 else SignV2)
            && RebuiltFrom(v.verified.value, a, r.rollupId, c.rollups[r.rollupId], r.batchIndex, r.stateRoot, c.chainId)
  {
    hide Ascii, HexWireBytes, FieldMismatch, Found, FirstNamed, SignatureOver, SignedInForce, Repeats;
    var i := FoundExact(r, c);
    assert i == k;
  }

  /** What each reason claims; a valid verdict claims nothing. */
  predicate Holds(reason: Reason, r: Receipt, c: Chain)
  {
    match reason
    case Fine => true
    case UnsupportedVersion => r.version != 1 && r.version != 2
    case UnsupportedAlgorithm => r.algorithm != Ascii("ML-DSA-87")
    case MissingChainId => r.version == 2 && r.chainId == []
    case RollupNotFound => r.rollupId !in c.rollups
    case WrongLayer =>
      r.rollupId in c.rollups && (c.rollups[r.rollupId].layerId == [] || c.rollups[r.rollupId].layerId != r.layerId)
    case BatchNotFound => (r.rollupId, r.batchIndex) !in c.batches
    case WrongStateRoot => (r.rollupId, r.batchIndex) in c.batches && !RootCarried(r, c)
    case AnchorsNotRead => r.layerId !in c.anchors
    case NoMatchingAnchor => r.layerId in c.anchors && forall a :: a in c.anchors[r.layerId] ==> !Names(r, a)
    case WrongValidatorSet => Differs(r, c, (a: AnchorView) => a.validatorSetHash != r.validatorSetHash)
    case WrongMainChainHeight => Differs(r, c, (a: AnchorView) => a.mainChainHeight != r.mainChainHeight)
    case WrongTime => Differs(r, c, (a: AnchorView) => a.anchoredAt != r.anchoredAt)
    case WrongTxCount => Differs(r, c, (a: AnchorView) => a.transactionCount != r.transactionCount)
    case WrongStateProof =>
      Differs(r, c, (a: AnchorView) => c.lower(a.compressedStateProof) != c.lower(r.compressedStateProof))
    case KeyNotRead => r.rollupId in c.rollups && c.rollups[r.rollupId].creator !in c.keys
    case WrongCreator => r.rollupId in c.rollups && r.creator != c.rollups[r.rollupId].creator
    case NoKey => r.creator in c.keys && c.keys[r.creator] == []
    case WrongChain => r.chainId != [] && r.chainId != c.chainId
    case BadSignature =>
      r.creator in c.keys && Differs(r, c, (a: AnchorView) => !SignedInForce(a, c.keys[r.creator], c))
    case _ => false
  }

  /** An anchor the receipt names fails a test. */
  predicate Differs(r: Receipt, c: Chain, fails: AnchorView -> bool) {
    r.layerId in c.anchors && exists a :: a in c.anchors[r.layerId] && Names(r, a) && fails(a)
  }

  /** The reason given is true of the receipt and the chain; validity is the absence of one. */
  lemma ReasonIsTrue(r: Receipt, key: Bytes, c: Chain, accepts: (Bytes, Bytes, Bytes) -> bool)
    ensures var v := Verdict(r, key, Some(c), accepts);
            Holds(v.reason, r, c) && (v.valid <==> v.reason == Fine)
  {
    hide Ascii, HexWireBytes, SignatureOver, SignedInForce;
    if Found(r, c).Some? {
      FoundNeedsAnchors(r, c);
      var a := Found(r, c).value;
      assert a in c.anchors[r.layerId] && Names(r, a);
      if r.creator in c.keys { SignatureExact(a, c.keys[r.creator], c); }
    }
  }

  /** The key accepts the receipt's own fields, in the v2 form for the chain it names or in the v1 form. */
  predicate AcceptedAsWritten(r: Receipt, key: Bytes, accepts: (Bytes, Bytes, Bytes) -> bool) {
    var v1 := MessageV1(r.layerId, r.layerHeight, r.stateRoot, r.validatorSetHash);
    var v2 := MessageV2(r.chainId, r.layerId, r.layerHeight, r.stateRoot, r.validatorSetHash, r.transactionCount,
                        r.compressedStateProof);
    || (r.chainId != [] && Accepted(key, r.pqcSignature, v2, accepts))
    || Accepted(key, r.pqcSignature, v1, accepts)
  }

  /** Without a client the signature check is set exactly when the key accepts the receipt's own fields in a form. */
  lemma OfflineExact(r: Receipt, key: Bytes, accepts: (Bytes, Bytes, Bytes) -> bool)
    ensures Verdict(r, key, None, accepts).checks.pqcSignature
       <==> Readable(r) && AcceptedAsWritten(r, key, accepts)
    ensures Readable(r) ==>
              Verdict(r, key, None, accepts).reason
              == if key == [] then NoClient
                 else if AcceptedAsWritten(r, key, accepts) then SignatureOnlyValid else SignatureOnlyInvalid
  {
    ReadableExact(r);
    hide Ascii, Readable, SchemaError, HexToBytes, HexOrEmpty, P.AnchorMessageV2, P.LongPrefixed, P.U64Bytes;
  }

  // ---------------------------------------------------------------------------
  // The builder

  /** Anchor k is the first of the layer to commit the batch's root. */
  predicate FirstCovering(c: Chain, layerId: Bytes, root: Bytes, k: nat) {
    && layerId in c.anchors && k < |c.anchors[layerId]| && root != [] && c.anchors[layerId][k].stateRoot == root
    && forall j :: 0 <= j < k ==> c.anchors[layerId][j].stateRoot != root
  }

  predicate BuiltFrom(s: Receipt, c: Chain, rollupId: Bytes, batchIndex: u64, k: nat) {
    && rollupId in c.rollups && (rollupId, batchIndex) in c.batches
    && var rollup, root := c.rollups[rollupId], HexWireBytes(c.batches[(rollupId, batchIndex)]);
       && rollup.layerId != [] && FirstCovering(c, rollup.layerId, root, k)
       && RebuiltFrom(s, c.anchors[rollup.layerId][k], rollupId, rollup, batchIndex, root, c.chainId)
  }

  lemma {:induction false} CoveringIsFirst(anchors: seq<AnchorView>, root: Bytes) returns (k: nat)
    ensures k <= |anchors| && forall j :: 0 <= j < k ==> !(root != [] && anchors[j].stateRoot == root)
    ensures k < |anchors| <==> Covering(anchors, root).Some?
    ensures k < |anchors| ==>
              root != [] && anchors[k].stateRoot == root && Covering(anchors, root) == Some(anchors[k])
  {
    if |anchors| == 0 || Covers(anchors[0], root) {
      k := 0;
    } else {
      k := CoveringIsFirst(anchors[1..], root);
      assert forall j :: 1 <= j < k + 1 ==> anchors[j] == anchors[1..][j - 1];
      k := k + 1;
    }
  }

  /** A receipt is built exactly from the first anchor that commits the batch's root. */
  lemma BuiltExact(c: Chain, rollupId: Bytes, batchIndex: u64, s: Receipt)
    ensures Built(c, rollupId, batchIndex) == Ok(s) <==> exists k: nat :: BuiltFrom(s, c, rollupId, batchIndex, k)
  {
    hide Ascii, HexWireBytes, Covering, RebuiltFrom, FromParts;
    if rollupId in c.rollups && (rollupId, batchIndex) in c.batches && c.rollups[rollupId].layerId in c.anchors {
      var rollup, root := c.rollups[rollupId], HexWireBytes(c.batches[(rollupId, batchIndex)]);
      var anchors := c.anchors[rollup.layerId];
      var k := CoveringIsFirst(anchors, root);
      if k < |anchors| {
        RebuiltExact(s, anchors[k], rollupId, rollup, batchIndex, root, c.chainId);
        assert forall i: nat :: BuiltFrom(s, c, rollupId, batchIndex, i) ==> i == k;
        if Built(c, rollupId, batchIndex) == Ok(s) { assert BuiltFrom(s, c, rollupId, batchIndex, k); }
      }
    }
  }

  lemma RebuiltExact(s: Receipt, a: AnchorView, rollupId: Bytes, rollup: Rollup, batchIndex: u64, root: Bytes,
                     chainId: Bytes)
    ensures s == FromParts(rollupId, rollup.layerId, batchIndex, rollup.creator, a, root, chainId)
       <==> RebuiltFrom(s, a, rollupId, rollup, batchIndex, root, chainId)
  {
    hide Ascii;
  }

  /** What each refusal to build claims. */
  ghost predicate BuildHolds(e: BuildError, c: Chain, rollupId: Bytes, batchIndex: u64) {
    match e
    case RollupUnread => rollupId !in c.rollups
    case NoLayer => rollupId in c.rollups && c.rollups[rollupId].layerId == []
    case BatchUnread => (rollupId, batchIndex) !in c.batches
    case AnchorsUnread => rollupId in c.rollups && c.rollups[rollupId].layerId !in c.anchors
    case LatestUnread => rollupId in c.rollups && c.rollups[rollupId].layerId !in c.latest
    case NoStateAnchor =>
      && rollupId in c.rollups && c.rollups[rollupId].layerId in c.latest
      && c.latest[c.rollups[rollupId].layerId].stateRoot == []
    case NotAnchored =>
      && rollupId in c.rollups && (rollupId, batchIndex) in c.batches
      && forall k: nat :: !FirstCovering(c, c.rollups[rollupId].layerId,
                                         HexWireBytes(c.batches[(rollupId, batchIndex)]), k)
  }

  lemma BuildErrorIsTrue(c: Chain, rollupId: Bytes, batchIndex: u64)
    requires Built(c, rollupId, batchIndex).Err?
    ensures BuildHolds(Built(c, rollupId, batchIndex).error, c, rollupId, batchIndex)
  {
    hide Ascii, HexWireBytes, Covering, FromParts;
    if rollupId in c.rollups && (rollupId, batchIndex) in c.batches && c.rollups[rollupId].layerId in c.anchors {
      var rollup, root := c.rollups[rollupId], HexWireBytes(c.batches[(rollupId, batchIndex)]);
      var k := CoveringIsFirst(c.anchors[rollup.layerId], root);
    }
  }

  /**
   * A built receipt is valid on its chain exactly when the chain is named and the creator's registered key
   * accepts the anchor, over the v1 message below the v2 height and over the v2 message from it on.
   */
  lemma BuiltValidExact(c: Chain, rollupId: Bytes, batchIndex: u64, s: Receipt, k: nat, key: Bytes,
                        accepts: (Bytes, Bytes, Bytes) -> bool)
    requires BuiltFrom(s, c, rollupId, batchIndex, k)
    ensures Verdict(s, key, Some(c), accepts).valid
       <==> && c.chainId != [] && s.creator in c.keys && c.keys[s.creator] != []
            && SignedInForce(c.anchors[s.layerId][k], c.keys[s.creator], c)
  {
    hide Ascii, HexWireBytes, SignatureOver, SignedInForce, Verdict, Built;
    BuiltExact(c, rollupId, batchIndex, s);
    BuiltVerifies(c, rollupId, batchIndex, key, accepts);
    var i := CoveringIsFirst(c.anchors[s.layerId], s.batchStateRoot);
    assert i == k;
    SignatureExact(c.anchors[s.layerId][k], if s.creator in c.keys then c.keys[s.creator] else [], c);
    SignedNeedsKey(c.anchors[s.layerId][k], c);
  }

  lemma SignedNeedsKey(a: AnchorView, c: Chain)
    ensures !SignedInForce(a, [], c)
  {
  }
}
