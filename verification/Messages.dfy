/** The rdk transaction messages, their Marshal methods, and a decoder for them. */
module Messages {
  import opened Common
  import opened ProtoWire
  import opened ProtoMessage

  datatype Msg =
    | MsgCreateRollup(creator: Bytes, rollupId: Bytes, profile: Bytes, vmType: Bytes, stakeAmount: i64)
    | MsgSubmitBatch(sequencer: Bytes, rollupId: Bytes, batchIndex: u64, stateRoot: Bytes, prevStateRoot: Bytes,
                     txCount: u64, dataHash: Bytes, proof: Bytes, withdrawalsRoot: Bytes)
    | MsgChallengeBatch(challenger: Bytes, rollupId: Bytes, batchIndex: u64, proof: Bytes)
    | MsgResolveChallenge(resolver: Bytes, rollupId: Bytes, batchIndex: u64, fraudUpheld: bool)
    | MsgPauseRollup(creator: Bytes, rollupId: Bytes, reason: Bytes)
    | MsgResumeRollup(creator: Bytes, rollupId: Bytes)
    | MsgStopRollup(creator: Bytes, rollupId: Bytes)
    | MsgExecuteWithdrawal(submitter: Bytes, rollupId: Bytes, batchIndex: u64, withdrawalIndex: u64, recipient: Bytes,
                           denom: Bytes, amount: i64, siblings: seq<Bytes>)

  datatype MsgKind = CreateRollup | SubmitBatch | ChallengeBatch | ResolveChallenge | PauseRollup | ResumeRollup
                   | StopRollup | ExecuteWithdrawal

  function KindOf(m: Msg): MsgKind {
    match m
    case MsgCreateRollup(_, _, _, _, _) => CreateRollup
    case MsgSubmitBatch(_, _, _, _, _, _, _, _, _) => SubmitBatch
    case MsgChallengeBatch(_, _, _, _) => ChallengeBatch
    case MsgResolveChallenge(_, _, _, _) => ResolveChallenge
    case MsgPauseRollup(_, _, _) => PauseRollup
    case MsgResumeRollup(_, _) => ResumeRollup
    case MsgStopRollup(_, _) => StopRollup
    case MsgExecuteWithdrawal(_, _, _, _, _, _, _, _) => ExecuteWithdrawal
  }

  /** A slot that is left out when it holds its default. */
  function Opt(v: Value): Slot { Slot(v, false) }

  function Slots(m: Msg): (r: seq<Slot>)
    ensures |r| <= 9
  {
    match m
    case MsgCreateRollup(c, id, p, vm, stake) =>
      [Opt(BytesV(c)), Opt(BytesV(id)), Opt(BytesV(p)), Opt(BytesV(vm)), Opt(IntV(stake))]
    case MsgSubmitBatch(s, id, i, root, prev, txs, data, proof, wr) =>
      [Opt(BytesV(s)), Opt(BytesV(id)), Opt(NumV(i)), Opt(BytesV(root)), Opt(BytesV(prev)), Opt(NumV(txs)),
       Opt(BytesV(data)), Opt(BytesV(proof)), Opt(BytesV(wr))]
    case MsgChallengeBatch(c, id, i, proof) =>
      [Opt(BytesV(c)), Opt(BytesV(id)), Opt(NumV(i)), Opt(BytesV(proof))]
    case MsgResolveChallenge(r, id, i, upheld) =>
      [Opt(BytesV(r)), Opt(BytesV(id)), Opt(NumV(i)), Opt(FlagV(upheld))]
    case MsgPauseRollup(c, id, reason) => [Opt(BytesV(c)), Opt(BytesV(id)), Opt(BytesV(reason))]
    case MsgResumeRollup(c, id) => [Opt(BytesV(c)), Opt(BytesV(id))]
    case MsgStopRollup(c, id) => [Opt(BytesV(c)), Opt(BytesV(id))]
    case MsgExecuteWithdrawal(s, id, i, w, r, d, amount, siblings) =>
      [Opt(BytesV(s)), Opt(BytesV(id)), Opt(NumV(i)), Opt(NumV(w)), Opt(BytesV(r)), Opt(BytesV(d)),
       Opt(IntV(amount)), Opt(RepV(siblings))]
  }

  /** The bytes Marshal returns. */
  function Marshalled(m: Msg): Bytes { Encoding(Slots(m)) }

  // ---------------------------------------------------------------------------
  // Driving the writer slot by slot

  ghost function Prefix(slots: seq<Slot>, k: nat): Bytes
    requires k <= |slots|
  {
    FieldsBytes(FieldsUpTo(slots, k))
  }

  lemma PrefixStep(slots: seq<Slot>, k: nat)
    requires 1 <= k <= |slots|
    ensures Prefix(slots, k) == Prefix(slots, k - 1) + FieldsBytes(SlotFields(k, slots[k - 1]))
  {
    FieldsBytesAppend(FieldsUpTo(slots, k - 1), SlotFields(k, slots[k - 1]));
  }

  method PutBytes(w: ProtoWriter, ghost slots: seq<Slot>, k: nat, b: Bytes)
    requires 1 <= k <= |slots| && slots[k - 1] == Opt(BytesV(b)) && w.buf == Prefix(slots, k - 1)
    modifies w
    ensures w.buf == Prefix(slots, k)
  {
    hide Prefix, FieldsBytes;
    w.WriteBytes(k, b);
    PrefixStep(slots, k);
    assert SlotFields(k, slots[k - 1]) == IfNot(b == [], BytesField(k, b));
  }

  method PutRaw(w: ProtoWriter, ghost slots: seq<Slot>, k: nat, b: Bytes)
    requires 1 <= k <= |slots| && slots[k - 1] == Slot(BytesV(b), true) && w.buf == Prefix(slots, k - 1)
    modifies w
    ensures w.buf == Prefix(slots, k)
  {
    hide Prefix, FieldsBytes;
    w.WriteRawBytes(k, b);
    PrefixStep(slots, k);
    assert SlotFields(k, slots[k - 1]) == [BytesField(k, b)];
  }

  method PutUint64(w: ProtoWriter, ghost slots: seq<Slot>, k: nat, v: u64)
    requires 1 <= k <= |slots| && slots[k - 1] == Opt(NumV(v)) && w.buf == Prefix(slots, k - 1)
    modifies w
    ensures w.buf == Prefix(slots, k)
  {
    hide Prefix, FieldsBytes;
    w.WriteUint64(k, v);
    PrefixStep(slots, k);
    assert SlotFields(k, slots[k - 1]) == IfNot(v == 0, VarintField(k, v));
  }

  method PutInt64(w: ProtoWriter, ghost slots: seq<Slot>, k: nat, v: i64)
    requires 1 <= k <= |slots| && slots[k - 1] == Opt(IntV(v)) && w.buf == Prefix(slots, k - 1)
    modifies w
    ensures w.buf == Prefix(slots, k)
  {
    hide Prefix, FieldsBytes;
    w.WriteInt64(k, v);
    PrefixStep(slots, k);
    assert SlotFields(k, slots[k - 1]) == IfNot(v == 0, VarintField(k, Unsigned(v)));
  }

  method PutBool(w: ProtoWriter, ghost slots: seq<Slot>, k: nat, v: bool)
    requires 1 <= k <= |slots| && slots[k - 1] == Opt(FlagV(v)) && w.buf == Prefix(slots, k - 1)
    modifies w
    ensures w.buf == Prefix(slots, k)
  {
    hide Prefix, FieldsBytes;
    w.WriteBool(k, v);
    PrefixStep(slots, k);
    assert SlotFields(k, slots[k - 1]) == IfNot(!v, VarintField(k, 1));
  }

  method PutRepeated(w: ProtoWriter, ghost slots: seq<Slot>, k: nat, items: seq<Bytes>)
    requires 1 <= k <= |slots| && slots[k - 1] == Opt(RepV(items)) && w.buf == Prefix(slots, k - 1)
    modifies w
    ensures w.buf == Prefix(slots, k)
  {
    hide Prefix, FieldsBytes;
    w.WriteRepeatedBytes(k, items);
    PrefixStep(slots, k);
    assert SlotFields(k, slots[k - 1]) == Repeated(k, items);
  }

  method Start(ghost slots: seq<Slot>) returns (w: ProtoWriter)
    ensures fresh(w) && w.buf == Prefix(slots, 0)
  {
    w := new ProtoWriter();
    NothingYet(slots);
  }

  /** Marshal of the two long messages: every field in ascending order through one writer. */
  method MarshalSubmitBatch(m: Msg) returns (r: Bytes)
    requires m.MsgSubmitBatch?
    ensures r == Marshalled(m)
  {
    hide FieldsBytes, SlotFields, FieldsUpTo;
    ghost var s := Slots(m);
    var w := Start(s);
    PutBytes(w, s, 1, m.sequencer);
    PutBytes(w, s, 2, m.rollupId);
    PutUint64(w, s, 3, m.batchIndex);
    PutBytes(w, s, 4, m.stateRoot);
    PutBytes(w, s, 5, m.prevStateRoot);
    PutUint64(w, s, 6, m.txCount);
    PutBytes(w, s, 7, m.dataHash);
    PutBytes(w, s, 8, m.proof);
    PutBytes(w, s, 9, m.withdrawalsRoot);
    return w.buf;
  }

  method MarshalExecuteWithdrawal(m: Msg) returns (r: Bytes)
    requires m.MsgExecuteWithdrawal?
    ensures r == Marshalled(m)
  {
    hide FieldsBytes, SlotFields, FieldsUpTo;
    ghost var s := Slots(m);
    var w := Start(s);
    PutBytes(w, s, 1, m.submitter);
    PutBytes(w, s, 2, m.rollupId);
    PutUint64(w, s, 3, m.batchIndex);
    PutUint64(w, s, 4, m.withdrawalIndex);
    PutBytes(w, s, 5, m.recipient);
    PutBytes(w, s, 6, m.denom);
    PutInt64(w, s, 7, m.amount);
    PutRepeated(w, s, 8, m.siblings);
    return w.buf;
  }

  /** Marshal of any message. */
  method Marshal(m: Msg) returns (r: Bytes)
    ensures r == Marshalled(m)
  {
    hide FieldsBytes, SlotFields, FieldsUpTo;
    if m.MsgSubmitBatch? {
      r := MarshalSubmitBatch(m);
      return;
    }
    if m.MsgExecuteWithdrawal? {
      r := MarshalExecuteWithdrawal(m);
      return;
    }
    ghost var s := Slots(m);
    var w := Start(s);
    match m {
      case MsgCreateRollup(creator, rollupId, profile, vmType, stakeAmount) =>
        PutBytes(w, s, 1, creator);
        PutBytes(w, s, 2, rollupId);
        PutBytes(w, s, 3, profile);
        PutBytes(w, s, 4, vmType);
        PutInt64(w, s, 5, stakeAmount);
      case MsgChallengeBatch(challenger, rollupId, batchIndex, proof) =>
        PutBytes(w, s, 1, challenger);
        PutBytes(w, s, 2, rollupId);
        PutUint64(w, s, 3, batchIndex);
        PutBytes(w, s, 4, proof);
      case MsgResolveChallenge(resolver, rollupId, batchIndex, fraudUpheld) =>
        PutBytes(w, s, 1, resolver);
        PutBytes(w, s, 2, rollupId);
        PutUint64(w, s, 3, batchIndex);
        PutBool(w, s, 4, fraudUpheld);
      case MsgPauseRollup(creator, rollupId, reason) =>
        PutBytes(w, s, 1, creator);
        PutBytes(w, s, 2, rollupId);
        PutBytes(w, s, 3, reason);
      case MsgResumeRollup(creator, rollupId) =>
        PutBytes(w, s, 1, creator);
        PutBytes(w, s, 2, rollupId);
      case MsgStopRollup(creator, rollupId) =>
        PutBytes(w, s, 1, creator);
        PutBytes(w, s, 2, rollupId);
      case _ =>
    }
    return w.buf;
  }

  lemma NothingYet(slots: seq<Slot>)
    ensures Prefix(slots, 0) == []
  {
  }

  // ---------------------------------------------------------------------------
  // Decoding

  const B: Value := BytesV([])
  const N: Value := NumV(0)

  function Shape(k: MsgKind): seq<Value> {
    match k
    case CreateRollup => [B, B, B, B, IntV(0)]
    case SubmitBatch => [B, B, N, B, B, N, B, B, B]
    case ChallengeBatch => [B, B, N, B]
    case ResolveChallenge => [B, B, N, FlagV(false)]
    case PauseRollup => [B, B, B]
    case ResumeRollup => [B, B]
    case StopRollup => [B, B]
    case ExecuteWithdrawal => [B, B, N, N, B, B, IntV(0), RepV([])]
  }

  function FromValues(k: MsgKind, v: seq<Value>): Msg
    requires Defaults(v) == Shape(k)
  {
    assert |v| == |Shape(k)|;
    assert forall i :: 0 <= i < |v| ==> Default(v[i]) == Shape(k)[i];
    match k
    case CreateRollup => MsgCreateRollup(v[0].b, v[1].b, v[2].b, v[3].b, v[4].i)
    case SubmitBatch => MsgSubmitBatch(v[0].b, v[1].b, v[2].n, v[3].b, v[4].b, v[5].n, v[6].b, v[7].b, v[8].b)
    case ChallengeBatch => MsgChallengeBatch(v[0].b, v[1].b, v[2].n, v[3].b)
    case ResolveChallenge => MsgResolveChallenge(v[0].b, v[1].b, v[2].n, v[3].f)
    case PauseRollup => MsgPauseRollup(v[0].b, v[1].b, v[2].b)
    case ResumeRollup => MsgResumeRollup(v[0].b, v[1].b)
    case StopRollup => MsgStopRollup(v[0].b, v[1].b)
    case ExecuteWithdrawal =>
      MsgExecuteWithdrawal(v[0].b, v[1].b, v[2].n, v[3].n, v[4].b, v[5].b, v[6].i, v[7].items)
  }

  function DecodeMsg(k: MsgKind, bs: Bytes): Option<Msg> {
    match Decoding(Shape(k), bs)
    case None => None
    case Some(v) => if Defaults(v) == Shape(k) then Some(FromValues(k, v)) else None
  }

  lemma SlotsHaveShape(m: Msg)
    ensures Defaults(Values(Slots(m))) == Shape(KindOf(m)) == Defaults(Shape(KindOf(m)))
    ensures FromValues(KindOf(m), Values(Slots(m))) == m
  {
  }

  /** Decoding a marshalled message returns it. */
  lemma MarshalRoundTrip(m: Msg)
    requires |Marshalled(m)| < TWO_64
    ensures DecodeMsg(KindOf(m), Marshalled(m)) == Some(m)
  {
    hide Encoding, Decoding, Slots, Shape, FromValues, Values, Defaults;
    SlotsHaveShape(m);
    MessageRoundTrip(Slots(m));
    SameShape(Shape(KindOf(m)), Values(Slots(m)), Marshalled(m));
  }

  /** A flag that is set is field 4 with the value 1; a flag that is not is left out. */
  lemma FlagOctets()
    ensures Marshalled(MsgResolveChallenge([], [], 0, true)) == [32, 1]
    ensures Marshalled(MsgResolveChallenge([], [], 0, false)) == []
  {
    FlagFields(true);
    FlagFields(false);
    One(VarintField(4, 1));
  }

  lemma FlagFields(upheld: bool)
    ensures FieldsUpTo(Slots(MsgResolveChallenge([], [], 0, upheld)), 4) == if upheld then [VarintField(4, 1)] else []
  {
    var s := Slots(MsgResolveChallenge([], [], 0, upheld));
    assert FieldsUpTo(s, 1) == [] && FieldsUpTo(s, 2) == [] && FieldsUpTo(s, 3) == [];
  }
}
