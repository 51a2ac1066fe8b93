/** A batch's withdrawals from the list to the message that executes one of them. */
module Withdrawals {
  import opened Common
  import opened Merkle
  import opened Preimages
  import opened Messages
  import Bech32Codec
  import ProtoWire

  /** One entry of a batch's withdrawals; its position is its withdrawal index. */
  datatype Withdrawal = Withdrawal(recipient: Bytes, denom: Bytes, amount: u64)

  datatype TreeOptions = TreeOptions(rollupId: Bytes, version: Bytes, chainId: Bytes)

  datatype WithdrawalsTree = WithdrawalsTree(root: Bytes, leaves: seq<Bytes>)

  datatype TreeError = NoWithdrawals | UnknownTreeVersion | NoChainId

  const V1: Bytes := Ascii("v1")
  const V2: Bytes := Ascii("v2")
  const ESCROW_DENOM: Bytes := Ascii("uqor")
  const MAX_DEPTH: nat := 64

  /** The chain's tree: leaves are taken as they are and an odd last node is paired with itself. */
  function ChainTree(hash: Bytes -> Bytes): Options { Options(hash, false, true) }

  function LeafInput(opts: TreeOptions, i: u64, w: Withdrawal): WithdrawalLeafInput {
    WithdrawalLeafInput(opts.rollupId, i, w.recipient, w.denom, w.amount)
  }

  /** The leaf of a withdrawal under the tree's version. */
  function LeafHash(opts: TreeOptions, input: WithdrawalLeafInput, hash: Bytes -> Bytes): Bytes {
    hash(if opts.version == V2 then LeafPreimageV2(opts.chainId, input) else LeafPreimageV1(input))
  }

  function Leaves(ws: seq<Withdrawal>, opts: TreeOptions, hash: Bytes -> Bytes): (r: seq<Bytes>)
    requires |ws| <= TWO_64
    ensures |r| == |ws|
  {
    seq(|ws|, i requires 0 <= i < |ws| => LeafHash(opts, LeafInput(opts, i, ws[i]), hash))
  }

  predicate ValidOptions(opts: TreeOptions) { opts.version == V1 || (opts.version == V2 && opts.chainId != []) }

  /** NewWithdrawalsTree. */
  method NewWithdrawalsTree(ws: seq<Withdrawal>, opts: TreeOptions, hash: Bytes -> Bytes)
    returns (r: Result<WithdrawalsTree, TreeError>)
    requires |ws| <= TWO_64
    ensures r.Ok? <==> |ws| > 0 && ValidOptions(opts)
    ensures r.Ok? ==> var leaves := Leaves(ws, opts, hash);
                      r.value == WithdrawalsTree(Root(leaves, ChainTree(hash)), leaves)
    ensures r.Err? ==> r.error == if |ws| == 0 then NoWithdrawals
                                  else if opts.version != V1 && opts.version != V2 then UnknownTreeVersion
                                  else NoChainId
  {
    hide Ascii, LeafPreimageV1, LeafPreimageV2;
    if |ws| == 0 {
      return Err(NoWithdrawals);
    }
    if opts.version != V1 && opts.version != V2 {
      return Err(UnknownTreeVersion);
    }
    VersionNames();
    var leaves: seq<Bytes> := [];
    for i := 0 to |ws|
      invariant leaves == Leaves(ws, opts, hash)[..i]
      invariant i > 0 ==> ValidOptions(opts)
    {
      var input := LeafInput(opts, i, ws[i]);
      if opts.version == V2 {
        if opts.chainId == [] {
          return Err(NoChainId);
        }
        leaves := leaves + [hash(LeafPreimageV2(opts.chainId, input))];
      } else {
        leaves := leaves + [hash(LeafPreimageV1(input))];
      }
    }
    assert leaves == Leaves(ws, opts, hash);
    var root := BinaryMerkleRoot(leaves, ChainTree(hash));
    return Ok(WithdrawalsTree(root, leaves));
  }

  // ---------------------------------------------------------------------------
  // The message and its pre-checks

  /** The message assembled for withdrawal i: int64(amount) is a conversion, not a check. */
  function MessageFor(submitter: Bytes, opts: TreeOptions, batchIndex: u64, ws: seq<Withdrawal>, i: nat,
                      hash: Bytes -> Bytes): (m: Msg)
    requires i < |ws| <= TWO_64
    ensures m.MsgExecuteWithdrawal?
  {
    var w := ws[i];
    MsgExecuteWithdrawal(submitter, opts.rollupId, batchIndex, i, w.recipient, w.denom, ProtoWire.Signed(w.amount),
                         PathOf(Leaves(ws, opts, hash), i, ChainTree(hash)))
  }

  /** Proof, AssembleWithdrawalProof, BuildExecuteWithdrawalInput and ExecuteWithdrawalMsg in one. */
  method BuildMessage(submitter: Bytes, opts: TreeOptions, batchIndex: u64, tree: WithdrawalsTree, index: int,
                      w: Withdrawal, hash: Bytes -> Bytes) returns (r: Option<Msg>)
    requires |tree.leaves| <= TWO_64
    ensures r.Some? <==> 0 <= index < |tree.leaves|
    ensures r.Some? ==>
              var path := PathOf(tree.leaves, index, ChainTree(hash));
              r.value == MsgExecuteWithdrawal(submitter, opts.rollupId, batchIndex, index, w.recipient, w.denom,
                                              ProtoWire.Signed(w.amount), path)
  {
    var proof := BinaryMerkleProof(tree.leaves, index, ChainTree(hash));
    if proof.None? {
      return None;
    }
    assert LeafNodes(tree.leaves, ChainTree(hash)) == tree.leaves;
    return Some(MsgExecuteWithdrawal(submitter, opts.rollupId, batchIndex, index, w.recipient, w.denom,
                                     ProtoWire.Signed(w.amount), proof.value.siblings));
  }

  datatype WithdrawalError = BadSubmitter | EmptyRollupId | BadRecipient | BadDenom | AmountNotPositive | TooDeep
                           | BadLevel(level: nat)

  function LevelErrors(siblings: seq<Bytes>, k: nat): seq<WithdrawalError>
    requires k <= |siblings|
  {
    if k == 0 then []
    else LevelErrors(siblings, k - 1) + if |siblings[k - 1]| != 32 then [BadLevel(k - 1)] else []
  }

  function When(bad: bool, e: WithdrawalError): seq<WithdrawalError> { if bad then [e] else [] }

  /** Every reason the chain would refuse the withdrawal, in the order they are checked. */
  function ErrorsOf(m: Msg, c: Bech32Codec.LetterCase): seq<WithdrawalError>
    requires m.MsgExecuteWithdrawal?
  {
    [] + When(Bech32Codec.Decoded(m.submitter, c).Err?, BadSubmitter)
    + When(m.rollupId == [], EmptyRollupId)
    + When(Bech32Codec.Decoded(m.recipient, c).Err?, BadRecipient)
    + When(m.denom != ESCROW_DENOM, BadDenom)
    + When(m.amount <= 0, AmountNotPositive)
    + When(|m.siblings| > MAX_DEPTH, TooDeep)
    + LevelErrors(m.siblings, |m.siblings|)
  }

  /** WithdrawalErrors. */
  method WithdrawalErrors(m: Msg, c: Bech32Codec.LetterCase) returns (errs: seq<WithdrawalError>)
    requires m.MsgExecuteWithdrawal?
    ensures errs == ErrorsOf(m, c)
  {
    hide Bech32Codec.Decoded, Ascii, When;
    var submitter := Bech32Codec.Decode(m.submitter, c);
    errs := Report([], submitter.Err?, BadSubmitter);
    // Only emptiness: older ids may sit outside the grammar for new ones.
    errs := Report(errs, m.rollupId == [], EmptyRollupId);
    var recipient := Bech32Codec.Decode(m.recipient, c);
    errs := Report(errs, recipient.Err?, BadRecipient);
    errs := Report(errs, m.denom != ESCROW_DENOM, BadDenom);
    errs := Report(errs, m.amount <= 0, AmountNotPositive);
    errs := Report(errs, |m.siblings| > MAX_DEPTH, TooDeep);
    ghost var first := errs;
    for i := 0 to |m.siblings|
      invariant errs == first + LevelErrors(m.siblings, i)
    {
      if |m.siblings[i]| != 32 {
        errs := errs + [BadLevel(i)];
      }
    }
  }

  method Report(errs: seq<WithdrawalError>, bad: bool, e: WithdrawalError) returns (r: seq<WithdrawalError>)
    ensures r == errs + When(bad, e)
  {
    r := errs;
    if bad { r := r + [e]; }
  }

  lemma {:induction false} NoLevelErrors(siblings: seq<Bytes>, k: nat)
    requires k <= |siblings|
    ensures LevelErrors(siblings, k) == [] <==> forall j :: 0 <= j < k ==> |siblings[j]| == 32
  {
    if k == 0 {
    } else {
      NoLevelErrors(siblings, k - 1);
    }
  }

  lemma NoErrors(m: Msg, c: Bech32Codec.LetterCase)
    requires m.MsgExecuteWithdrawal?
    ensures ErrorsOf(m, c) == []
       <==> && Bech32Codec.Decoded(m.submitter, c).Ok? && Bech32Codec.Decoded(m.recipient, c).Ok?
            && m.rollupId != [] && m.denom == ESCROW_DENOM && m.amount > 0
            && |m.siblings| <= MAX_DEPTH && All32(m.siblings)
  {
    hide Bech32Codec.Decoded, Ascii, LevelErrors;
    NoLevelErrors(m.siblings, |m.siblings|);
    AllEmpty(When(Bech32Codec.Decoded(m.submitter, c).Err?, BadSubmitter), When(m.rollupId == [], EmptyRollupId),
      When(Bech32Codec.Decoded(m.recipient, c).Err?, BadRecipient), When(m.denom != ESCROW_DENOM, BadDenom),
      When(m.amount <= 0, AmountNotPositive), When(|m.siblings| > MAX_DEPTH, TooDeep),
      LevelErrors(m.siblings, |m.siblings|));
  }

  lemma AllEmpty<T>(a: seq<T>, b: seq<T>, c: seq<T>, d: seq<T>, e: seq<T>, f: seq<T>, g: seq<T>)
    ensures a + b + c + d + e + f + g == []
       <==> a == [] && b == [] && c == [] && d == [] && e == [] && f == [] && g == []
  {
    assert |a + b + c + d + e + f + g| == |a| + |b| + |c| + |d| + |e| + |f| + |g|;
  }

  // ---------------------------------------------------------------------------
  // End to end

  lemma PathIsShort(ws: seq<Withdrawal>, opts: TreeOptions, i: nat, hash: Bytes -> Bytes)
    requires i < |ws| <= TWO_64 && Hash32(hash)
    ensures var leaves := Leaves(ws, opts, hash);
            var path := PathOf(leaves, i, ChainTree(hash));
            |path| == Height(|ws|) <= MAX_DEPTH && All32(path) && All32(leaves)
  {
    hide LeafHash, PathOf;
    var leaves := Leaves(ws, opts, hash);
    forall j | 0 <= j < |leaves| ensures |leaves[j]| == 32 { LeafIs32(opts, LeafInput(opts, j, ws[j]), hash); }
    PathLeadsToRoot(leaves, i, ChainTree(hash));
    Path32(leaves, i, ChainTree(hash));
    TwoTo64();
    HeightIsLog(|ws|, 64);
  }

  lemma LeafIs32(opts: TreeOptions, input: WithdrawalLeafInput, hash: Bytes -> Bytes)
    requires Hash32(hash)
    ensures |LeafHash(opts, input, hash)| == 32
  {
    hide LeafPreimageV1, LeafPreimageV2, Ascii;
  }

  lemma TwoTo64()
    ensures Pow2(64) == TWO_64
  {
    assert Pow2(8) == 256;
    hide Pow2;
    Pow2Add(8, 8);
    Pow2Add(16, 16);
    Pow2Add(32, 32);
  }

  /**
   * The message assembled for a withdrawal passes the pre-checks exactly when the caller's own data
   * does: depth and sibling sizes never stand in the way, and an amount of 2^63 or more is refused.
   */
  lemma PrechecksExact(submitter: Bytes, opts: TreeOptions, batchIndex: u64, ws: seq<Withdrawal>, i: nat,
                       hash: Bytes -> Bytes, c: Bech32Codec.LetterCase)
    requires i < |ws| <= TWO_64 && Hash32(hash)
    ensures ErrorsOf(MessageFor(submitter, opts, batchIndex, ws, i, hash), c) == []
       <==> && Bech32Codec.Decoded(submitter, c).Ok? && Bech32Codec.Decoded(ws[i].recipient, c).Ok?
            && opts.rollupId != [] && ws[i].denom == ESCROW_DENOM && 1 <= ws[i].amount < TWO_63
  {
    hide Bech32Codec.Decoded, Ascii, ErrorsOf, PathOf, LeafHash;
    PathIsShort(ws, opts, i, hash);
    NoErrors(MessageFor(submitter, opts, batchIndex, ws, i, hash), c);
  }

  /** The leaf a message claims, from its own fields. */
  function ClaimedLeaf(m: Msg): WithdrawalLeafInput
    requires m.MsgExecuteWithdrawal?
  {
    WithdrawalLeafInput(m.rollupId, m.withdrawalIndex, m.recipient, m.denom, ProtoWire.Unsigned(m.amount))
  }

  /** Whether a message proves its leaf against a withdrawals root. */
  predicate Proves(m: Msg, opts: TreeOptions, root: Bytes, hash: Bytes -> Bytes)
    requires m.MsgExecuteWithdrawal?
  {
    Verifies(LeafHash(opts, ClaimedLeaf(m), hash), m.withdrawalIndex, m.siblings, root, ChainTree(hash))
  }

  /** The assembled message's fields hash to the leaf its path proves against the batch's root. */
  lemma MessageProves(submitter: Bytes, opts: TreeOptions, batchIndex: u64, ws: seq<Withdrawal>, i: nat,
                      hash: Bytes -> Bytes)
    requires i < |ws| <= TWO_64
    ensures Proves(MessageFor(submitter, opts, batchIndex, ws, i, hash), opts,
                   Root(Leaves(ws, opts, hash), ChainTree(hash)), hash)
  {
    hide LeafHash, PathOf, Root, Climb;
    var leaves, o := Leaves(ws, opts, hash), ChainTree(hash);
    assert LeafNodes(leaves, o) == leaves;
    Completeness(leaves, i, o);
    assert ProtoWire.Unsigned(ProtoWire.Signed(ws[i].amount)) == ws[i].amount;
  }

  /** The preimages of a v2 batch's leaves. */
  function LeafPreimages(ws: seq<Withdrawal>, opts: TreeOptions): (pre: seq<Bytes>)
    requires |ws| <= TWO_64
    ensures |pre| == |ws|
  {
    seq(|ws|, i requires 0 <= i < |ws| => LeafPreimageV2(opts.chainId, LeafInput(opts, i, ws[i])))
  }

  /** With a chain id and a rollup id, a v2 leaf preimage never has the size of a node's input. */
  lemma LeafIsNotNodeSized(chainId: Bytes, w: WithdrawalLeafInput)
    requires chainId != [] && w.rollupId != []
    ensures |LeafPreimageV2(chainId, w)| > 64
  {
    hide Ascii, U64Bytes, BigEndian;
  }

  lemma LeavesAreHashed(ws: seq<Withdrawal>, opts: TreeOptions, hash: Bytes -> Bytes)
    requires |ws| <= TWO_64 && opts.version == V2
    ensures Leaves(ws, opts, hash) == Hashed(LeafPreimages(ws, opts), hash)
  {
    hide Ascii, LeafPreimageV1, LeafPreimageV2;
    VersionNames();
  }

  predicate ShortWithdrawals(ws: seq<Withdrawal>) {
    forall i :: 0 <= i < |ws| ==> |ws[i].recipient| < TWO_32 && |ws[i].denom| < TWO_32
  }

  /**
   * Under the v2 binding, whatever message proves itself against a batch's root, at any index and with any
   * number of siblings, claims the withdrawal committed at its index, on that chain. Anything else exhibits
   * two different inputs with one hash, one hashed by the verifier and one by the batch's tree.
   */
  lemma OnlyTheCommittedWithdrawal(m: Msg, chainId: Bytes, opts: TreeOptions, ws: seq<Withdrawal>,
                                   hash: Bytes -> Bytes)
    requires m.MsgExecuteWithdrawal? && 1 <= |ws| <= TWO_64 && Hash32(hash) && opts.version == V2
    requires chainId != [] && m.rollupId != [] && opts.chainId != [] && opts.rollupId != []
    requires |chainId| < TWO_32 && |opts.chainId| < TWO_32 && |opts.rollupId| < TWO_32
    requires ShortLeaf(ClaimedLeaf(m)) && ShortWithdrawals(ws) && All32(m.siblings)
    requires Proves(m, opts.(chainId := chainId), Root(Leaves(ws, opts, hash), ChainTree(hash)), hash)
    ensures var i := m.withdrawalIndex;
            || (i < |ws| && chainId == opts.chainId && ClaimedLeaf(m) == LeafInput(opts, i, ws[i]))
            || Conflict(LeafPreimageV2(chainId, ClaimedLeaf(m)), i, m.siblings, LeafPreimages(ws, opts),
                        ChainTree(hash))
  {
    hide LeafPreimageV1, LeafPreimageV2, Root, Climb, Ascii, Conflict;
    var x, pre := LeafPreimageV2(chainId, ClaimedLeaf(m)), LeafPreimages(ws, opts);
    LeavesAreHashed(ws, opts, hash);
    LeafIsNotNodeSized(chainId, ClaimedLeaf(m));
    forall j | 0 <= j < |pre| ensures |pre[j]| != 64 { LeafIsNotNodeSized(opts.chainId, LeafInput(opts, j, ws[j])); }
    VersionNames();
    SoundAtAnyDepth(x, m.withdrawalIndex, m.siblings, pre, ChainTree(hash));
    if x in pre {
      var j :| 0 <= j < |pre| && pre[j] == x;
      LeafV2Injective(chainId, ClaimedLeaf(m), opts.chainId, LeafInput(opts, j, ws[j]));
    }
  }

  // ---------------------------------------------------------------------------
  // What the reported errors and the committed leaves are

  /** What each error claims of a message. */
  predicate Deserves(m: Msg, e: WithdrawalError, c: Bech32Codec.LetterCase)
    requires m.MsgExecuteWithdrawal?
  {
    match e
    case BadSubmitter => Bech32Codec.Decoded(m.submitter, c).Err?
    case EmptyRollupId => m.rollupId == []
    case BadRecipient => Bech32Codec.Decoded(m.recipient, c).Err?
    case BadDenom => m.denom != Ascii("uqor")
    case AmountNotPositive => m.amount <= 0
    case TooDeep => |m.siblings| > 64
    case BadLevel(level) => level < |m.siblings| && |m.siblings[level]| != 32
  }

  /** The order in which errors are reported. */
  function Place(e: WithdrawalError): nat {
    match e
    case BadSubmitter => 0 case EmptyRollupId => 1 case BadRecipient => 2 case BadDenom => 3
    case AmountNotPositive => 4 case TooDeep => 5 case BadLevel(level) => 6 + level
  }

  predicate InPlace(es: seq<WithdrawalError>) { forall i, j :: 0 <= i < j < |es| ==> Place(es[i]) < Place(es[j]) }

  /** The errors of the first places, and no others, in order. */
  ghost predicate ExactBelow(es: seq<WithdrawalError>, m: Msg, c: Bech32Codec.LetterCase, limit: nat)
    requires m.MsgExecuteWithdrawal?
  {
    InPlace(es) && forall e :: e in es <==> Place(e) < limit && Deserves(m, e, c)
  }

  lemma OnePerPlace(e: WithdrawalError, f: WithdrawalError)
    requires Place(e) == Place(f)
    ensures e == f
  {
  }

  lemma NextPlace(es: seq<WithdrawalError>, m: Msg, c: Bech32Codec.LetterCase, bad: bool, e: WithdrawalError)
    requires m.MsgExecuteWithdrawal? && ExactBelow(es, m, c, Place(e)) && (bad <==> Deserves(m, e, c))
    ensures ExactBelow(es + When(bad, e), m, c, Place(e) + 1)
  {
    hide Deserves, Place;
    var s := es + When(bad, e);
    forall x ensures x in s <==> Place(x) < Place(e) + 1 && Deserves(m, x, c) {
      if Place(x) == Place(e) { OnePerPlace(x, e); }
    }
    forall i, j | 0 <= i < j < |s| ensures Place(s[i]) < Place(s[j]) {
      if i < |es| { assert s[i] in es; }
    }
  }

  /** The same for the errors about siblings. */
  lemma {:induction false} LevelPlaces(es: seq<WithdrawalError>, m: Msg, c: Bech32Codec.LetterCase, k: nat)
    requires m.MsgExecuteWithdrawal? && k <= |m.siblings| && ExactBelow(es, m, c, 6)
    ensures ExactBelow(es + LevelErrors(m.siblings, k), m, c, 6 + k)
  {
    hide ExactBelow;
    if k == 0 {
      assert es + LevelErrors(m.siblings, 0) == es;
    } else {
      LevelPlaces(es, m, c, k - 1);
      var bad := |m.siblings[k - 1]| != 32;
      NextPlace(es + LevelErrors(m.siblings, k - 1), m, c, bad, BadLevel(k - 1));
      assert es + LevelErrors(m.siblings, k)
          == es + LevelErrors(m.siblings, k - 1) + When(bad, BadLevel(k - 1));
    }
  }

  lemma NoPlace(m: Msg, c: Bech32Codec.LetterCase)
    requires m.MsgExecuteWithdrawal?
    ensures ExactBelow([], m, c, 0)
  {
  }

  lemma EveryPlace(es: seq<WithdrawalError>, m: Msg, c: Bech32Codec.LetterCase)
    requires m.MsgExecuteWithdrawal? && ExactBelow(es, m, c, 6 + |m.siblings|)
    ensures InPlace(es) && forall e :: e in es <==> Deserves(m, e, c)
  {
    hide Bech32Codec.Decoded, Ascii;
  }

  /** Exactly the errors a message deserves are reported, each once, in order. */
  lemma ErrorsExact(m: Msg, c: Bech32Codec.LetterCase)
    requires m.MsgExecuteWithdrawal?
    ensures InPlace(ErrorsOf(m, c)) && forall e :: e in ErrorsOf(m, c) <==> Deserves(m, e, c)
  {
    hide Bech32Codec.Decoded, Ascii, When, LevelErrors, InPlace, ExactBelow;
    NoPlace(m, c);
    var es: seq<WithdrawalError> := [];
    NextPlace(es, m, c, Bech32Codec.Decoded(m.submitter, c).Err?, BadSubmitter);
    es := es + When(Bech32Codec.Decoded(m.submitter, c).Err?, BadSubmitter);
    NextPlace(es, m, c, m.rollupId == [], EmptyRollupId);
    es := es + When(m.rollupId == [], EmptyRollupId);
    NextPlace(es, m, c, Bech32Codec.Decoded(m.recipient, c).Err?, BadRecipient);
    es := es + When(Bech32Codec.Decoded(m.recipient, c).Err?, BadRecipient);
    NextPlace(es, m, c, m.denom != ESCROW_DENOM, BadDenom);
    es := es + When(m.denom != ESCROW_DENOM, BadDenom);
    NextPlace(es, m, c, m.amount <= 0, AmountNotPositive);
    es := es + When(m.amount <= 0, AmountNotPositive);
    NextPlace(es, m, c, |m.siblings| > MAX_DEPTH, TooDeep);
    es := es + When(|m.siblings| > MAX_DEPTH, TooDeep);
    LevelPlaces(es, m, c, |m.siblings|);
    EveryPlace(es + LevelErrors(m.siblings, |m.siblings|), m, c);
    assert ErrorsOf(m, c) == es + LevelErrors(m.siblings, |m.siblings|);
  }

  /** Leaf i commits the rollup, the index and the withdrawal's own fields, under v2 also the chain. */
  lemma LeavesCommit(ws: seq<Withdrawal>, opts: TreeOptions, hash: Bytes -> Bytes, i: nat)
    requires i < |ws| <= TWO_64
    ensures var input := WithdrawalLeafInput(opts.rollupId, i, ws[i].recipient, ws[i].denom, ws[i].amount);
            && (opts.version == Ascii("v1") ==> Leaves(ws, opts, hash)[i] == hash(LeafPreimageV1(input)))
            && (opts.version == Ascii("v2") ==> Leaves(ws, opts, hash)[i] == hash(LeafPreimageV2(opts.chainId, input)))
  {
    hide Ascii, LeafPreimageV1, LeafPreimageV2;
    VersionNames();
  }
}
