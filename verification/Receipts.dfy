/** Settlement receipts: built from chain state, and verified by reading it again. */
module Receipts {
  import opened Common
  import opened WireBytes
  import P = Preimages

  datatype AnchorView = AnchorView(layerId: Bytes, layerHeight: u64, stateRoot: Bytes, validatorSetHash: Bytes,
                                   mainChainHeight: u64, anchoredAt: i64, pqcSignature: Bytes, transactionCount: u64,
                                   compressedStateProof: Bytes)

  datatype Receipt = Receipt(version: int, rollupId: Bytes, layerId: Bytes, batchIndex: u64, creator: Bytes,
                             algorithm: Bytes, stateRoot: Bytes, layerHeight: u64, validatorSetHash: Bytes,
                             mainChainHeight: u64, anchoredAt: i64, pqcSignature: Bytes, batchStateRoot: Bytes,
                             chainId: Bytes, transactionCount: u64, compressedStateProof: Bytes)

  datatype Rollup = Rollup(layerId: Bytes, creator: Bytes)

  /**
   * What a client can read: a missing key stands for a failed read. `batches` holds each batch's state
   * root as it arrives on the wire, `accepts` is the post-quantum signature check, `lower` is strings.ToLower.
   */
  datatype Chain = Chain(rollups: map<Bytes, Rollup>, batches: map<(Bytes, u64), Bytes>,
                         anchors: map<Bytes, seq<AnchorView>>, latest: map<Bytes, AnchorView>,
                         keys: map<Bytes, Bytes>, chainId: Bytes, v2Height: u64,
                         accepts: (Bytes, Bytes, Bytes) -> bool, lower: Bytes -> Bytes)

  datatype SignVersion = SignV1 | SignV2

  const ALGORITHM: Bytes := Ascii("ML-DSA-87")

  // ---------------------------------------------------------------------------
  // Building

  datatype BuildError = RollupUnread | NoLayer | BatchUnread | AnchorsUnread | LatestUnread | NoStateAnchor
                      | NotAnchored

  /** receiptFromParts. */
  function FromParts(rollupId: Bytes, layerId: Bytes, batchIndex: u64, creator: Bytes, a: AnchorView, root: Bytes,
                     chainId: Bytes): Receipt {
    Receipt(2, rollupId, layerId, batchIndex, creator, ALGORITHM, a.stateRoot, a.layerHeight, a.validatorSetHash,
            a.mainChainHeight, a.anchoredAt, a.pqcSignature, root, chainId, a.transactionCount, a.compressedStateProof)
  }

  predicate Covers(a: AnchorView, root: Bytes) { a.stateRoot != [] && a.stateRoot == root }

  /** The first anchor that commits a root. */
  function Covering(anchors: seq<AnchorView>, root: Bytes): (r: Option<AnchorView>)
    ensures r.Some? ==> r.value in anchors && Covers(r.value, root)
    ensures r.None? ==> forall a :: a in anchors ==> !Covers(a, root)
  {
    if |anchors| == 0 then None
    else if Covers(anchors[0], root) then Some(anchors[0])
    else Covering(anchors[1..], root)
  }

  function Built(c: Chain, rollupId: Bytes, batchIndex: u64): Result<Receipt, BuildError> {
    if rollupId !in c.rollups then Err(RollupUnread)
    else
      var rollup := c.rollups[rollupId];
      if rollup.layerId == [] then Err(NoLayer)
      else if (rollupId, batchIndex) !in c.batches then Err(BatchUnread)
      else if rollup.layerId !in c.anchors then Err(AnchorsUnread)
      else
        var root := HexWireBytes(c.batches[(rollupId, batchIndex)]);
        match Covering(c.anchors[rollup.layerId], root)
        case Some(a) => Ok(FromParts(rollupId, rollup.layerId, batchIndex, rollup.creator, a, root, c.chainId))
        case None =>
          if rollup.layerId !in c.latest then Err(LatestUnread)
          else if c.latest[rollup.layerId].stateRoot == [] then Err(NoStateAnchor)
          else Err(NotAnchored)
  }

  /** BuildSettlementReceipt. */
  method BuildSettlementReceipt(c: Chain, rollupId: Bytes, batchIndex: u64) returns (r: Result<Receipt, BuildError>)
    ensures r == Built(c, rollupId, batchIndex)
  {
    hide HexWireBytes, Ascii;
    if rollupId !in c.rollups {
      return Err(RollupUnread);
    }
    var rollup := c.rollups[rollupId];
    if rollup.layerId == [] {
      return Err(NoLayer);
    }
    if (rollupId, batchIndex) !in c.batches {
      return Err(BatchUnread);
    }
    var root := HexWireBytes(c.batches[(rollupId, batchIndex)]);
    if rollup.layerId !in c.anchors {
      return Err(AnchorsUnread);
    }
    var anchors := c.anchors[rollup.layerId];
    var covering: Option<AnchorView> := None;
    var i := 0;
    while i < |anchors| && covering.None?
      invariant 0 <= i <= |anchors|
      invariant Covering(anchors, root) == if covering.Some? then covering else Covering(anchors[i..], root)
    {
      if anchors[i].stateRoot != [] && anchors[i].stateRoot == root {
        covering := Some(anchors[i]);
      }
      i := i + 1;
    }
    if covering.None? {
      if rollup.layerId !in c.latest {
        return Err(LatestUnread);
      }
      if c.latest[rollup.layerId].stateRoot == [] {
        return Err(NoStateAnchor);
      }
      return Err(NotAnchored);
    }
    return Ok(FromParts(rollupId, rollup.layerId, batchIndex, rollup.creator, covering.value, root, c.chainId));
  }

  // ---------------------------------------------------------------------------
  // The parts of verification

  datatype Reason =
    | Fine | UnsupportedVersion | UnsupportedAlgorithm | MissingChainId
    | NoClient | SignatureOnlyValid | SignatureOnlyInvalid
    | RollupNotFound | WrongLayer | BatchNotFound | WrongStateRoot | AnchorsNotRead | NoMatchingAnchor
    | WrongValidatorSet | WrongMainChainHeight | WrongTime | WrongTxCount | WrongStateProof
    | KeyNotRead | WrongCreator | NoKey | WrongChain | BadSignature

  /** ReceiptSchemaError. */
  function SchemaError(r: Receipt): Reason {
    if r.version != 1 && r.version != 2 then UnsupportedVersion
    else if r.algorithm != ALGORITHM then UnsupportedAlgorithm
    else if r.version == 2 && r.chainId == [] then MissingChainId
    else Fine
  }

  /** anchorFieldMismatch: a version-1 receipt need not state the count and the proof. */
  function FieldMismatch(r: Receipt, a: AnchorView, lower: Bytes -> Bytes): Reason {
    if r.validatorSetHash != a.validatorSetHash then WrongValidatorSet
    else if r.mainChainHeight != a.mainChainHeight then WrongMainChainHeight
    else if r.anchoredAt != a.anchoredAt then WrongTime
    else if (r.version == 2 || r.transactionCount != 0) && r.transactionCount != a.transactionCount then WrongTxCount
    else
      var claimed, onChain := lower(r.compressedStateProof), lower(a.compressedStateProof);
      if (r.version == 2 || claimed != []) && claimed != onChain then WrongStateProof else Fine
  }

  function Args(a: AnchorView, chainId: Bytes): P.AnchorArgs {
    P.AnchorArgs(chainId, a.layerId, a.layerHeight, a.stateRoot, a.validatorSetHash, a.transactionCount,
                 a.compressedStateProof)
  }

  /** The canonical anchor message over the anchor's fields as they are stored, hashes in hexadecimal. */
  function AnchorMessage(a: AnchorView, chainId: Bytes, v: SignVersion): Bytes {
    if v == SignV2 then P.AnchorMessageV2(P.Fields(Args(a, chainId))) else P.AnchorMessageV1(P.Fields(Args(a, chainId)))
  }

  /** signatureOver. */
  predicate SignatureOver(a: AnchorView, key: Bytes, chainId: Bytes, v: SignVersion,
                          accepts: (Bytes, Bytes, Bytes) -> bool) {
    key != [] && a.pqcSignature != [] && HexToBytes(key).Some? && HexToBytes(a.pqcSignature).Some?
    && accepts(HexToBytes(key).value, AnchorMessage(a, chainId, v), HexToBytes(a.pqcSignature).value)
  }

  /** AnchorSignBytesVersionFor: the form in force at the anchor's height, never both. */
  function VersionFor(height: u64, v2Height: u64): SignVersion { if height >= v2Height then SignV2 else SignV1 }

  predicate Matches(a: AnchorView, r: Receipt) {
    a.stateRoot == r.stateRoot && a.layerHeight == r.layerHeight && a.pqcSignature == r.pqcSignature
  }

  /** The first anchor a receipt can mean. */
  function Matched(anchors: seq<AnchorView>, r: Receipt): (m: Option<AnchorView>)
    ensures m.Some? ==> m.value in anchors && Matches(m.value, r)
    ensures m.None? ==> forall a :: a in anchors ==> !Matches(a, r)
  {
    if |anchors| == 0 then None
    else if Matches(anchors[0], r) then Some(anchors[0])
    else Matched(anchors[1..], r)
  }

  // ---------------------------------------------------------------------------
  // The six steps

  function Step1(r: Receipt, c: Chain): Reason {
    if r.rollupId !in c.rollups then RollupNotFound
    else if c.rollups[r.rollupId].layerId == [] || c.rollups[r.rollupId].layerId != r.layerId then WrongLayer
    else Fine
  }

  function Step2(r: Receipt, c: Chain): Reason {
    if (r.rollupId, r.batchIndex) !in c.batches then BatchNotFound
    else
      var root := HexWireBytes(c.batches[(r.rollupId, r.batchIndex)]);
      if root != [] && root == r.stateRoot && root == r.batchStateRoot then Fine else WrongStateRoot
  }

  function Found(r: Receipt, c: Chain): Option<AnchorView> {
    if r.layerId in c.anchors then Matched(c.anchors[r.layerId], r) else None
  }

  function Step3(r: Receipt, c: Chain): Reason {
    if r.layerId !in c.anchors then AnchorsNotRead
    else if Found(r, c).None? then NoMatchingAnchor
    else FieldMismatch(r, Found(r, c).value, c.lower)
  }

  function Step4(r: Receipt, c: Chain): Reason
    requires Step1(r, c) == Fine
  {
    var creator := c.rollups[r.rollupId].creator;
    if creator !in c.keys then KeyNotRead
    else if r.creator != creator then WrongCreator
    else if c.keys[creator] == [] then NoKey
    else Fine
  }

  function Step5(r: Receipt, c: Chain): Reason {
    if r.chainId != [] && r.chainId != c.chainId then WrongChain else Fine
  }

  function Step6(r: Receipt, c: Chain): Reason
    requires Step1(r, c) == Fine && Step3(r, c) == Fine && Step4(r, c) == Fine
  {
    var a, key := Found(r, c).value, c.keys[c.rollups[r.rollupId].creator];
    var version := VersionFor(a.mainChainHeight, c.v2Height);
    if SignatureOver(a, key, c.chainId, version, c.accepts) then Fine else BadSignature
  }

  /** How many leading steps pass, and why the next one does not. */
  function Progress(r: Receipt, c: Chain): (nat, Reason) {
    if Step1(r, c) != Fine then (0, Step1(r, c))
    else if Step2(r, c) != Fine then (1, Step2(r, c))
    else if Step3(r, c) != Fine then (2, Step3(r, c))
    else if Step4(r, c) != Fine then (3, Step4(r, c))
    else if Step5(r, c) != Fine then (4, Step5(r, c))
    else if Step6(r, c) != Fine then (5, Step6(r, c))
    else (6, Fine)
  }

  datatype Checks = Checks(layerBinding: bool, batchStateRoot: bool, anchorOnChain: bool, creatorAuthority: bool,
                           chainBinding: bool, pqcSignature: bool)

  const NO_CHECKS: Checks := Checks(false, false, false, false, false, false)

  function FirstChecks(k: nat): Checks { Checks(k > 0, k > 1, k > 2, k > 3, k > 4, k > 5) }

  datatype Mode = ChainMode | SignatureOnlyMode

  function ModeOf(client: Option<Chain>): Mode { if client.None? then SignatureOnlyMode else ChainMode }

  datatype Verification = Verification(valid: bool, mode: Mode, checks: Checks, signVersion: Option<SignVersion>,
                                       reason: Reason, anchor: Option<AnchorView>, verified: Option<Receipt>)

  /** The verdict with a client: the passed steps, the matched anchor, and the rebuilt receipt. */
  function ChainVerdict(r: Receipt, c: Chain): Verification {
    var (passed, reason) := Progress(r, c);
    var anchor := if passed >= 2 && Found(r, c).Some? then Found(r, c) else None;
    var version := if passed >= 5 then Some(VersionFor(anchor.value.mainChainHeight, c.v2Height)) else None;
    var verified := if passed < 6 then None
      else Some(FromParts(r.rollupId, c.rollups[r.rollupId].layerId, r.batchIndex, c.rollups[r.rollupId].creator,
                          anchor.value, r.batchStateRoot, c.chainId));
    Verification(passed == 6, ChainMode, FirstChecks(passed), version, reason, anchor, verified)
  }

  /** The receipt's own copies of the signed fields (receiptAsAnchor). */
  function AsAnchor(r: Receipt): AnchorView {
    AnchorView(r.layerId, r.layerHeight, r.stateRoot, r.validatorSetHash, r.mainChainHeight, r.anchoredAt,
               r.pqcSignature, r.transactionCount, r.compressedStateProof)
  }

  /** Whether the supplied key accepts the receipt's own fields, in the v2 form if it names a chain or in v1. */
  predicate SelfSigned(r: Receipt, key: Bytes, accepts: (Bytes, Bytes, Bytes) -> bool) {
    || (r.chainId != [] && SignatureOver(AsAnchor(r), key, r.chainId, SignV2, accepts))
    || SignatureOver(AsAnchor(r), key, [], SignV1, accepts)
  }

  function OfflineVerdict(r: Receipt, key: Bytes, accepts: (Bytes, Bytes, Bytes) -> bool): Verification {
    if key == [] then Verification(false, SignatureOnlyMode, NO_CHECKS, None, NoClient, None, None)
    else
      var signed := SelfSigned(r, key, accepts);
      Verification(false, SignatureOnlyMode, NO_CHECKS.(pqcSignature := signed), None,
                   if signed then SignatureOnlyValid else SignatureOnlyInvalid, None, None)
  }

  function Verdict(r: Receipt, key: Bytes, client: Option<Chain>, accepts: (Bytes, Bytes, Bytes) -> bool)
    : Verification
  {
    if SchemaError(r) != Fine then
      Verification(false, ModeOf(client), NO_CHECKS, None, SchemaError(r), None, None)
    else if client.None? then OfflineVerdict(r, key, accepts)
    else ChainVerdict(r, client.value)
  }

  /** VerifySettlementReceipt: fields of `checks` are set one step at a time. */
  method VerifySettlementReceipt(r: Receipt, key: Bytes, client: Option<Chain>, accepts: (Bytes, Bytes, Bytes) -> bool)
    returns (v: Verification)
    ensures v == Verdict(r, key, client, accepts)
  {
    hide HexWireBytes, Ascii, SignatureOver, FieldMismatch;
    var checks := NO_CHECKS;
    var schema := SchemaError(r);
    if schema != Fine {
      return Verification(false, ModeOf(client), checks, None, schema, None, None);
    }
    if client.None? {
      v := VerifyOffline(r, key, accepts);
      return;
    }
    var c := client.value;
    if r.rollupId !in c.rollups {
      return Failed(checks, RollupNotFound, None);
    }
    var rollup := c.rollups[r.rollupId];
    checks := checks.(layerBinding := rollup.layerId != [] && rollup.layerId == r.layerId);
    if !checks.layerBinding {
      return Failed(checks, WrongLayer, None);
    }
    if (r.rollupId, r.batchIndex) !in c.batches {
      return Failed(checks, BatchNotFound, None);
    }
    var root := HexWireBytes(c.batches[(r.rollupId, r.batchIndex)]);
    checks := checks.(batchStateRoot := root != [] && root == r.stateRoot && root == r.batchStateRoot);
    if !checks.batchStateRoot {
      return Failed(checks, WrongStateRoot, None);
    }
    if r.layerId !in c.anchors {
      return Failed(checks, AnchorsNotRead, None);
    }
    var matched := FindMatch(c.anchors[r.layerId], r);
    if matched.None? {
      return Failed(checks, NoMatchingAnchor, None);
    }
    var mismatch := FieldMismatch(r, matched.value, c.lower);
    if mismatch != Fine {
      return Failed(checks, mismatch, matched);
    }
    checks := checks.(anchorOnChain := true);
    if rollup.creator !in c.keys {
      return Failed(checks, KeyNotRead, matched);
    }
    if r.creator != rollup.creator {
      return Failed(checks, WrongCreator, matched);
    }
    checks := checks.(creatorAuthority := c.keys[rollup.creator] != []);
    if !checks.creatorAuthority {
      return Failed(checks, NoKey, matched);
    }
    if r.chainId != [] && r.chainId != c.chainId {
      return Failed(checks, WrongChain, matched);
    }
    checks := checks.(chainBinding := true);
    var version := VersionFor(matched.value.mainChainHeight, c.v2Height);
    var signed := SignatureOver(matched.value, c.keys[rollup.creator], c.chainId, version, c.accepts);
    checks := checks.(pqcSignature := signed);
    if !checks.pqcSignature {
      return Verification(false, ChainMode, checks, Some(version), BadSignature, matched, None);
    }
    var verified := FromParts(r.rollupId, rollup.layerId, r.batchIndex, rollup.creator, matched.value,
                              r.batchStateRoot, c.chainId);
    return Verification(true, ChainMode, checks, Some(version), Fine, matched, Some(verified));
  }

  function Failed(checks: Checks, reason: Reason, anchor: Option<AnchorView>): Verification {
    Verification(false, ChainMode, checks, None, reason, anchor, None)
  }

  method VerifyOffline(r: Receipt, key: Bytes, accepts: (Bytes, Bytes, Bytes) -> bool) returns (v: Verification)
    ensures v == OfflineVerdict(r, key, accepts)
  {
    hide SignatureOver;
    var checks := NO_CHECKS;
    if key == [] {
      return Verification(false, SignatureOnlyMode, checks, None, NoClient, None, None);
    }
    if r.chainId != [] && SignatureOver(AsAnchor(r), key, r.chainId, SignV2, accepts) {
      checks := checks.(pqcSignature := true);
    } else if SignatureOver(AsAnchor(r), key, [], SignV1, accepts) {
      checks := checks.(pqcSignature := true);
    }
    var reason := if checks.pqcSignature then SignatureOnlyValid else SignatureOnlyInvalid;
    return Verification(false, SignatureOnlyMode, checks, None, reason, None, None);
  }

  method FindMatch(anchors: seq<AnchorView>, r: Receipt) returns (m: Option<AnchorView>)
    ensures m == Matched(anchors, r)
  {
    m := None;
    var i := 0;
    while i < |anchors| && m.None?
      invariant 0 <= i <= |anchors|
      invariant Matched(anchors, r) == if m.Some? then m else Matched(anchors[i..], r)
    {
      if Matches(anchors[i], r) {
        m := Some(anchors[i]);
      }
      i := i + 1;
    }
  }

  // ---------------------------------------------------------------------------
  // What a verdict means

  /** Each check implies the one before it. */
  predicate IsPrefix(c: Checks) {
    && (c.batchStateRoot ==> c.layerBinding) && (c.anchorOnChain ==> c.batchStateRoot)
    && (c.creatorAuthority ==> c.anchorOnChain) && (c.chainBinding ==> c.creatorAuthority)
    && (c.pqcSignature ==> c.chainBinding)
  }

  /**
   * The passed checks are a prefix of the six steps exactly when there is a client, or the receipt is refused
   * unread, or no key is supplied, or the key does not accept the receipt's own fields: without a client the
   * signature is the one check that can be set.
   */
  lemma ChecksArePrefix(r: Receipt, key: Bytes, client: Option<Chain>, accepts: (Bytes, Bytes, Bytes) -> bool)
    ensures IsPrefix(Verdict(r, key, client, accepts).checks)
       <==> client.Some? || SchemaError(r) != Fine || key == [] || !SelfSigned(r, key, accepts)
  {
    hide Ascii, HexWireBytes, FieldMismatch, SignatureOver;
  }

  /** A receipt checked without a client, against a key that accepts it: the last check is set, the first five not. */
  lemma SignatureCheckedAlone() returns (r: Receipt, key: Bytes, accepts: (Bytes, Bytes, Bytes) -> bool)
    ensures Verdict(r, key, None, accepts).checks == NO_CHECKS.(pqcSignature := true)
    ensures !IsPrefix(Verdict(r, key, None, accepts).checks)
  {
    var zero: Bytes := [48, 48];
    key, accepts := zero, (k, m, sig) => true;
    r := Receipt(1, [], [], 0, [], ALGORITHM, [], 0, [], 0, 0, zero, [], [], 0, []);
    assert HexToBytes(zero).Some? by { assert AllHex(zero); }
    hide Ascii, HexToBytes, AnchorMessage;
    assert SignatureOver(AsAnchor(r), key, [], SignV1, accepts);
  }

  /** With a client, validity is the last check, and the matched anchor is one the receipt can mean. */
  lemma ValidMeansAllSix(r: Receipt, key: Bytes, c: Chain, accepts: (Bytes, Bytes, Bytes) -> bool)
    ensures var v := Verdict(r, key, Some(c), accepts);
            && IsPrefix(v.checks) && v.mode == ChainMode
            && (v.valid <==> v.checks.pqcSignature) && (v.valid <==> v.verified.Some?)
            && (v.checks.anchorOnChain ==> v.anchor.Some? && Matches(v.anchor.value, r))
  {
    hide Ascii, HexWireBytes, FieldMismatch, SignatureOver;
  }

  /** Nothing is valid without a client, whatever key is supplied. */
  lemma NeverValidOffline(r: Receipt, key: Bytes, accepts: (Bytes, Bytes, Bytes) -> bool)
    ensures var v := Verdict(r, key, None, accepts);
            !v.valid && v.mode == SignatureOnlyMode && v.verified.None? && v.anchor.None?
  {
  }

  /** A receipt with its state proof in lower case. */
  function Folded(r: Receipt, c: Chain): Receipt { r.(compressedStateProof := c.lower(r.compressedStateProof)) }

  /** A valid version-2 receipt is the one rebuilt from chain state, up to the proof's letter case. */
  lemma ValidIsRebuilt(r: Receipt, key: Bytes, c: Chain, accepts: (Bytes, Bytes, Bytes) -> bool)
    requires r.version == 2 && Verdict(r, key, Some(c), accepts).valid
    ensures Folded(r, c) == Folded(Verdict(r, key, Some(c), accepts).verified.value, c)
  {
    hide Ascii, HexWireBytes, SignatureOver;
  }

  lemma {:induction false} MatchedSame(anchors: seq<AnchorView>, r: Receipt, s: Receipt)
    requires r.stateRoot == s.stateRoot && r.layerHeight == s.layerHeight && r.pqcSignature == s.pqcSignature
    ensures Matched(anchors, r) == Matched(anchors, s)
  {
    if |anchors| == 0 {
    } else {
      MatchedSame(anchors[1..], r, s);
    }
  }

  /** The rebuilt receipt verifies again, to the same anchor and itself, iff the client names its chain. */
  lemma RebuiltVerifiesAgain(r: Receipt, key: Bytes, c: Chain, accepts: (Bytes, Bytes, Bytes) -> bool)
    requires Verdict(r, key, Some(c), accepts).valid
    ensures var v := Verdict(r, key, Some(c), accepts);
            var w := Verdict(v.verified.value, key, Some(c), accepts);
            && (w.valid <==> c.chainId != [])
            && (w.valid ==> w == v)
  {
    hide Ascii, HexWireBytes, SignatureOver;
    var again := Verdict(r, key, Some(c), accepts).verified.value;
    if r.layerId in c.anchors { MatchedSame(c.anchors[r.layerId], r, again); }
  }

  /** Two valid version-2 receipts that point at the same anchor of the same batch are the same receipt. */
  lemma OneReceiptPerAnchor(r: Receipt, s: Receipt, key: Bytes, c: Chain, accepts: (Bytes, Bytes, Bytes) -> bool)
    requires r.version == 2 && s.version == 2
    requires Verdict(r, key, Some(c), accepts).valid && Verdict(s, key, Some(c), accepts).valid
    requires r.rollupId == s.rollupId && r.batchIndex == s.batchIndex && r.layerHeight == s.layerHeight
    requires r.pqcSignature == s.pqcSignature
    ensures Folded(r, c) == Folded(s, c)
  {
    hide Ascii, HexWireBytes, SignatureOver;
    ValidIsRebuilt(r, key, c, accepts);
    ValidIsRebuilt(s, key, c, accepts);
    MatchedSame(c.anchors[r.layerId], r, s);
  }

  lemma {:induction false} CoveringMatches(anchors: seq<AnchorView>, root: Bytes, r: Receipt)
    requires Covering(anchors, root).Some? && r.stateRoot == root && Matches(Covering(anchors, root).value, r)
    ensures Matched(anchors, r) == Covering(anchors, root)
  {
    if Covers(anchors[0], root) {
    } else {
      CoveringMatches(anchors[1..], root, r);
    }
  }

  /**
   * A receipt built from a chain verifies on that chain exactly when the client names the chain and the
   * creator's registered key accepts the anchor in the form in force at its height; every other step passes.
   */
  lemma BuiltVerifies(c: Chain, rollupId: Bytes, batchIndex: u64, key: Bytes, accepts: (Bytes, Bytes, Bytes) -> bool)
    requires Built(c, rollupId, batchIndex).Ok?
    ensures var r := Built(c, rollupId, batchIndex).value;
            var creator := c.rollups[rollupId].creator;
            var anchor := Covering(c.anchors[c.rollups[rollupId].layerId], r.batchStateRoot).value;
            var v := Verdict(r, key, Some(c), accepts);
            && (v.valid <==> && c.chainId != [] && creator in c.keys
                             && SignatureOver(anchor, c.keys[creator], c.chainId,
                                              VersionFor(anchor.mainChainHeight, c.v2Height), c.accepts))
            && (v.valid ==> v.verified == Some(r) && v.anchor == Some(anchor))
  {
    hide Ascii, HexWireBytes, HexToBytes, AnchorMessage;
    var r := Built(c, rollupId, batchIndex).value;
    CoveringMatches(c.anchors[c.rollups[rollupId].layerId], r.batchStateRoot, r);
  }

  // ---------------------------------------------------------------------------
  // What step 6 binds

  /** The fields a v2 signature covers, up to how hexadecimal is written. */
  predicate SameSigned(a: AnchorView, b: AnchorView) {
    && a.layerId == b.layerId && a.layerHeight == b.layerHeight && a.transactionCount == b.transactionCount
    && NormalHex(a.stateRoot) == NormalHex(b.stateRoot)
    && NormalHex(a.validatorSetHash) == NormalHex(b.validatorSetHash)
    && NormalHex(a.compressedStateProof) == NormalHex(b.compressedStateProof)
  }

  /**
   * Under v2 the signed message of an anchor is shared by another anchor or another chain exactly when the
   * chain and all signed fields are the same.
   */
  lemma V2Binds(a: AnchorView, c: Bytes, b: AnchorView, d: Bytes)
    requires P.ShortFields(P.Fields(Args(a, c))) && P.ShortFields(P.Fields(Args(b, d)))
    ensures AnchorMessage(a, c, SignV2) == AnchorMessage(b, d, SignV2) <==> c == d && SameSigned(a, b)
  {
    hide P.AnchorMessageV2, NormalHex, P.Fields;
    P.AnchorV2Exact(Args(a, c), Args(b, d));
  }

  /** Under v1 the signature of an anchor counts on every chain alike, with any count and any state proof. */
  lemma V1DoesNotBind(a: AnchorView, b: AnchorView, c: Bytes, d: Bytes, key: Bytes,
                      accepts: (Bytes, Bytes, Bytes) -> bool)
    requires b == a.(transactionCount := b.transactionCount, compressedStateProof := b.compressedStateProof)
    ensures SignatureOver(a, key, c, SignV1, accepts) <==> SignatureOver(b, key, d, SignV1, accepts)
  {
    hide HexToBytes, HexOrEmpty, P.U64Bytes;
  }

  /**
   * Why the form goes by height: an anchor recorded from the v2 height on verifies only if its key accepts a
   * message that no other chain and no other signed fields share.
   */
  lemma ValidFromV2Height(r: Receipt, key: Bytes, c: Chain, accepts: (Bytes, Bytes, Bytes) -> bool, b: AnchorView,
                          d: Bytes)
    requires Verdict(r, key, Some(c), accepts).valid && r.mainChainHeight >= c.v2Height
    requires P.ShortFields(P.Fields(Args(b, d)))
    requires P.ShortFields(P.Fields(Args(Verdict(r, key, Some(c), accepts).anchor.value, c.chainId)))
    ensures var a := Verdict(r, key, Some(c), accepts).anchor.value;
            var sig := HexToBytes(a.pqcSignature);
            var pub := HexToBytes(c.keys[c.rollups[r.rollupId].creator]);
            && sig.Some? && pub.Some? && c.accepts(pub.value, AnchorMessage(a, c.chainId, SignV2), sig.value)
            && (AnchorMessage(b, d, SignV2) == AnchorMessage(a, c.chainId, SignV2)
                <==> d == c.chainId && SameSigned(a, b))
  {
    hide Ascii, HexWireBytes, HexToBytes, AnchorMessage, SameSigned, P.Fields;
    V2Binds(Verdict(r, key, Some(c), accepts).anchor.value, c.chainId, b, d);
  }
}
