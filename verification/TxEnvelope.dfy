/** The Cosmos transaction envelope: TxBody, AuthInfo, SignDoc and TxRaw, and their decoders. */
module TxEnvelope {
  import opened Common
  import opened ProtoWire
  import opened ProtoMessage
  import opened Messages

  datatype Coin = Coin(denom: Bytes, amount: Bytes)
  datatype Fee = Fee(amount: seq<Coin>, gasLimit: u64)

  /** Everything one signature covers. */
  datatype Tx = Tx(messages: seq<Msg>, memo: Bytes, fee: Fee, publicKey: Bytes, sequence: u64, chainId: Bytes,
                   accountNumber: u64)

  const SIGN_MODE_DIRECT: u64 := 1
  const PUBKEY_URL: Bytes := Ascii("/cosmos.crypto.secp256k1.PubKey")

  /** The type URL: the package prefix and the message name. */
  function TypeUrl(k: MsgKind): Bytes {
    Ascii("/qorechain.rdk.v1.") + MessageName(k)
  }

  function MessageName(k: MsgKind): Bytes {
    match k
    case CreateRollup => Ascii("MsgCreateRollup")
    case SubmitBatch => Ascii("MsgSubmitBatch")
    case ChallengeBatch => Ascii("MsgChallengeBatch")
    case ResolveChallenge => Ascii("MsgResolveChallenge")
    case PauseRollup => Ascii("MsgPauseRollup")
    case ResumeRollup => Ascii("MsgResumeRollup")
    case StopRollup => Ascii("MsgStopRollup")
    case ExecuteWithdrawal => Ascii("MsgExecuteWithdrawal")
  }

  /** A slot that is always written. */
  function Raw(b: Bytes): Slot { Slot(BytesV(b), true) }

  function AnySlots(url: Bytes, value: Bytes): seq<Slot> { [Raw(url), Raw(value)] }

  function AnyOf(m: Msg): Bytes { Encoding(AnySlots(TypeUrl(KindOf(m)), Marshalled(m))) }

  function Anys(ms: seq<Msg>): (r: seq<Bytes>)
    ensures |r| == |ms|
  {
    seq(|ms|, i requires 0 <= i < |ms| => AnyOf(ms[i]))
  }

  function BodySlots(ms: seq<Msg>, memo: Bytes): seq<Slot> { [Opt(RepV(Anys(ms))), Opt(BytesV(memo))] }

  function PubKeySlots(key: Bytes): seq<Slot> { [Raw(key)] }

  function ModeSlots(mode: u64): seq<Slot> { [Raw(Encoding([Slot(NumV(mode), true)]))] }

  function SignerSlots(key: Bytes, sequence: u64): seq<Slot> {
    [Raw(Encoding(AnySlots(PUBKEY_URL, Encoding(PubKeySlots(key))))), Raw(Encoding(ModeSlots(SIGN_MODE_DIRECT))),
     Opt(NumV(sequence))]
  }

  function CoinSlots(c: Coin): seq<Slot> { [Opt(BytesV(c.denom)), Opt(BytesV(c.amount))] }

  function Coins(cs: seq<Coin>): (r: seq<Bytes>)
    ensures |r| == |cs|
  {
    seq(|cs|, i requires 0 <= i < |cs| => Encoding(CoinSlots(cs[i])))
  }

  function FeeSlots(f: Fee): seq<Slot> { [Opt(RepV(Coins(f.amount))), Opt(NumV(f.gasLimit))] }

  function AuthSlots(key: Bytes, sequence: u64, fee: Fee): seq<Slot> {
    [Raw(Encoding(SignerSlots(key, sequence))), Raw(Encoding(FeeSlots(fee)))]
  }

  function DocSlots(body: Bytes, auth: Bytes, chainId: Bytes, account: u64): seq<Slot> {
    [Raw(body), Raw(auth), Opt(BytesV(chainId)), Opt(NumV(account))]
  }

  function RawSlots(body: Bytes, auth: Bytes, signatures: seq<Bytes>): seq<Slot> {
    [Raw(body), Raw(auth), Opt(RepV(signatures))]
  }

  function BodyOf(t: Tx): Bytes { Encoding(BodySlots(t.messages, t.memo)) }

  function AuthOf(t: Tx): Bytes { Encoding(AuthSlots(t.publicKey, t.sequence, t.fee)) }

  /** The bytes SignDocBytes returns. */
  function SignDocOf(t: Tx): Bytes { Encoding(DocSlots(BodyOf(t), AuthOf(t), t.chainId, t.accountNumber)) }

  // ---------------------------------------------------------------------------
  // The encode functions

  method EncodeAny(url: Bytes, value: Bytes) returns (r: Bytes)
    ensures r == Encoding(AnySlots(url, value))
  {
    hide FieldsBytes, SlotFields, FieldsUpTo;
    ghost var s := AnySlots(url, value);
    var w := Start(s);
    PutRaw(w, s, 1, url);
    PutRaw(w, s, 2, value);
    return w.buf;
  }

  /** Writing the next element of a repeated field. */
  lemma RepeatedStep(items: seq<Bytes>, i: nat)
    requires i < |items|
    ensures FieldsBytes(Repeated(1, items[..i + 1]))
         == FieldsBytes(Repeated(1, items[..i])) + FieldsBytes([BytesField(1, items[i])])
  {
    hide FieldsBytes;
    FieldsBytesAppend(Repeated(1, items[..i]), [BytesField(1, items[i])]);
    assert Repeated(1, items[..i + 1]) == Repeated(1, items[..i]) + [BytesField(1, items[i])];
  }

  lemma RepeatedDone(slots: seq<Slot>, items: seq<Bytes>)
    requires |slots| >= 1 && slots[0] == Opt(RepV(items))
    ensures Prefix(slots, 1) == FieldsBytes(Repeated(1, items[..|items|]))
    ensures FieldsBytes(Repeated(1, [])) == []
  {
    hide FieldsBytes;
    PrefixStep(slots, 1);
    NothingYet(slots);
    assert items[..|items|] == items;
    assert SlotFields(1, slots[0]) == Repeated(1, items);
    NothingWritten();
  }

  lemma NothingWritten()
    ensures FieldsBytes(Repeated(1, [])) == []
  {
  }

  method EncodeTxBody(messages: seq<Msg>, memo: Bytes) returns (r: Bytes)
    ensures r == Encoding(BodySlots(messages, memo))
  {
    hide FieldsBytes, SlotFields, FieldsUpTo, TypeUrl, AnyOf;
    ghost var s, anys := BodySlots(messages, memo), Anys(messages);
    RepeatedDone(s, anys);
    var w := Start(s);
    NothingYet(s);
    for i := 0 to |messages|
      invariant w.buf == FieldsBytes(Repeated(1, anys[..i])) && fresh(w)
    {
      var value := Marshal(messages[i]);
      var any := EncodeAny(TypeUrl(KindOf(messages[i])), value);
      assert any == anys[i] by { AnyIs(messages[i]); }
      w.WriteRawBytes(1, any);
      RepeatedStep(anys, i);
    }
    PutBytes(w, s, 2, memo);
    return w.buf;
  }

  lemma AnyIs(m: Msg)
    ensures AnyOf(m) == Encoding(AnySlots(TypeUrl(KindOf(m)), Marshalled(m)))
  {
  }

  method EncodeCoin(c: Coin) returns (r: Bytes)
    ensures r == Encoding(CoinSlots(c))
  {
    hide FieldsBytes, SlotFields, FieldsUpTo;
    ghost var s := CoinSlots(c);
    var w := Start(s);
    PutBytes(w, s, 1, c.denom);
    PutBytes(w, s, 2, c.amount);
    return w.buf;
  }

  method EncodeFee(fee: Fee) returns (r: Bytes)
    ensures r == Encoding(FeeSlots(fee))
  {
    hide FieldsBytes, SlotFields, FieldsUpTo;
    ghost var s, coins := FeeSlots(fee), Coins(fee.amount);
    RepeatedDone(s, coins);
    var w := Start(s);
    NothingYet(s);
    for i := 0 to |fee.amount|
      invariant w.buf == FieldsBytes(Repeated(1, coins[..i])) && fresh(w)
    {
      var coin := EncodeCoin(fee.amount[i]);
      w.WriteRawBytes(1, coin);
      RepeatedStep(coins, i);
    }
    PutUint64(w, s, 2, fee.gasLimit);
    return w.buf;
  }

  method EncodeModeInfoSingle(mode: u64) returns (r: Bytes)
    ensures r == Encoding(ModeSlots(mode))
  {
    hide FieldsBytes, SlotFields, FieldsUpTo;
    ghost var inner := [Slot(NumV(mode), true)];
    var single := Start(inner);
    single.WriteRawUint64(1, mode);
    PrefixStep(inner, 1);
    assert SlotFields(1, inner[0]) == [VarintField(1, mode)] by { AlwaysNum(mode); }
    ghost var s := ModeSlots(mode);
    var w := Start(s);
    PutRaw(w, s, 1, single.buf);
    return w.buf;
  }

  lemma AlwaysNum(mode: u64)
    ensures SlotFields(1, Slot(NumV(mode), true)) == [VarintField(1, mode)]
  {
  }

  method EncodeSignerInfo(key: Bytes, sequence: u64) returns (r: Bytes)
    ensures r == Encoding(SignerSlots(key, sequence))
  {
    hide FieldsBytes, SlotFields, FieldsUpTo, Ascii;
    ghost var inner := PubKeySlots(key);
    var pub := Start(inner);
    PutRaw(pub, inner, 1, key);
    var pubAny := EncodeAny(PUBKEY_URL, pub.buf);
    var mode := EncodeModeInfoSingle(SIGN_MODE_DIRECT);
    ghost var s := SignerSlots(key, sequence);
    var w := Start(s);
    PutRaw(w, s, 1, pubAny);
    PutRaw(w, s, 2, mode);
    PutUint64(w, s, 3, sequence);
    return w.buf;
  }

  method EncodeAuthInfo(key: Bytes, sequence: u64, fee: Fee) returns (r: Bytes)
    ensures r == Encoding(AuthSlots(key, sequence, fee))
  {
    hide FieldsBytes, SlotFields, FieldsUpTo, SignerSlots, FeeSlots;
    var signer := EncodeSignerInfo(key, sequence);
    var feeBytes := EncodeFee(fee);
    ghost var s := AuthSlots(key, sequence, fee);
    var w := Start(s);
    PutRaw(w, s, 1, signer);
    PutRaw(w, s, 2, feeBytes);
    return w.buf;
  }

  /** SignDocBytes: the canonical sign bytes of a transaction. */
  method SignDocBytes(t: Tx) returns (r: Bytes)
    ensures r == SignDocOf(t)
  {
    hide Encoding;
    var body := EncodeTxBody(t.messages, t.memo);
    var auth := EncodeAuthInfo(t.publicKey, t.sequence, t.fee);
    r := EncodeSignDoc(body, auth, t.chainId, t.accountNumber);
  }

  method EncodeSignDoc(body: Bytes, auth: Bytes, chainId: Bytes, account: u64) returns (r: Bytes)
    ensures r == Encoding(DocSlots(body, auth, chainId, account))
  {
    hide FieldsBytes, SlotFields, FieldsUpTo;
    ghost var s := DocSlots(body, auth, chainId, account);
    var w := Start(s);
    PutRaw(w, s, 1, body);
    PutRaw(w, s, 2, auth);
    PutBytes(w, s, 3, chainId);
    PutUint64(w, s, 4, account);
    return w.buf;
  }

  method EncodeTxRaw(body: Bytes, auth: Bytes, signatures: seq<Bytes>) returns (r: Bytes)
    ensures r == Encoding(RawSlots(body, auth, signatures))
  {
    hide FieldsBytes, SlotFields, FieldsUpTo;
    ghost var s := RawSlots(body, auth, signatures);
    var w := Start(s);
    PutRaw(w, s, 1, body);
    PutRaw(w, s, 2, auth);
    PutRepeated(w, s, 3, signatures);
    return w.buf;
  }

  // ---------------------------------------------------------------------------
  // Decoders

  /** Decode by shape and insist that every slot came back with its kind. */
  function Checked(shape: seq<Value>, bs: Bytes): (r: Option<seq<Value>>)
    ensures r.Some? ==> Defaults(r.value) == shape && |r.value| == |shape|
  {
    match Decoding(shape, bs)
    case None => None
    case Some(v) => if Defaults(v) == shape then Some(v) else None
  }

  const REP: Value := RepV([])

  function BytesAt(v: seq<Value>, i: nat): Bytes { if i < |v| && v[i].BytesV? then v[i].b else [] }

  function NumAt(v: seq<Value>, i: nat): u64 { if i < |v| && v[i].NumV? then v[i].n else 0 }

  function ItemsAt(v: seq<Value>, i: nat): seq<Bytes> { if i < |v| && v[i].RepV? then v[i].items else [] }

  /** The kind a chain reads from a type URL: the package prefix, then one of the eight message names. */
  function KindNamed(url: Bytes): Option<MsgKind> {
    if |url| < 18 || url[..18] != Ascii("/qorechain.rdk.v1.") then None else MessageNamed(url[18..])
  }

  function MessageNamed(name: Bytes): Option<MsgKind> {
    if name == Ascii("MsgCreateRollup") then Some(CreateRollup)
    else if name == Ascii("MsgSubmitBatch") then Some(SubmitBatch)
    else if name == Ascii("MsgChallengeBatch") then Some(ChallengeBatch)
    else if name == Ascii("MsgResolveChallenge") then Some(ResolveChallenge)
    else if name == Ascii("MsgPauseRollup") then Some(PauseRollup)
    else if name == Ascii("MsgResumeRollup") then Some(ResumeRollup)
    else if name == Ascii("MsgStopRollup") then Some(StopRollup)
    else if name == Ascii("MsgExecuteWithdrawal") then Some(ExecuteWithdrawal)
    else None
  }

  function DecodeAny(bs: Bytes): Option<Msg> {
    match Checked([B, B], bs)
    case None => None
    case Some(v) =>
      match KindNamed(BytesAt(v, 0))
      case None => None
      case Some(k) => DecodeMsg(k, BytesAt(v, 1))
  }

  function DecodeAnys(items: seq<Bytes>): Option<seq<Msg>> {
    if |items| == 0 then Some([])
    else
      match (DecodeAnys(items[..|items| - 1]), DecodeAny(items[|items| - 1]))
      case (Some(ms), Some(m)) => Some(ms + [m])
      case _ => None
  }

  function DecodeCoins(items: seq<Bytes>): Option<seq<Coin>> {
    if |items| == 0 then Some([])
    else
      match (DecodeCoins(items[..|items| - 1]), Checked([B, B], items[|items| - 1]))
      case (Some(cs), Some(v)) => Some(cs + [Coin(BytesAt(v, 0), BytesAt(v, 1))])
      case _ => None
  }

  function DecodeBody(bs: Bytes): Option<(seq<Msg>, Bytes)> {
    match Checked([REP, B], bs)
    case None => None
    case Some(v) =>
      match DecodeAnys(ItemsAt(v, 0))
      case None => None
      case Some(ms) => Some((ms, BytesAt(v, 1)))
  }

  function DecodeFee(bs: Bytes): Option<Fee> {
    match Checked([REP, N], bs)
    case None => None
    case Some(v) =>
      match DecodeCoins(ItemsAt(v, 0))
      case None => None
      case Some(cs) => Some(Fee(cs, NumAt(v, 1)))
  }

  /** Public key and sequence of a SignerInfo that has a secp256k1 key and signs directly. */
  function DecodeSigner(bs: Bytes): Option<(Bytes, u64)> {
    match Checked([B, B, N], bs)
    case None => None
    case Some(v) =>
      (match (DecodePubKey(BytesAt(v, 0)), DecodeMode(BytesAt(v, 1)))
       case (Some(key), Some(mode)) => if mode == 1 then Some((key, NumAt(v, 2))) else None
       case _ => None)
  }

  function DecodePubKey(bs: Bytes): Option<Bytes> {
    match Checked([B, B], bs)
    case None => None
    case Some(any) =>
      if BytesAt(any, 0) != Ascii("/cosmos.crypto.secp256k1.PubKey") then None
      else match Checked([B], BytesAt(any, 1)) case None => None case Some(key) => Some(BytesAt(key, 0))
  }

  /** The signing mode inside ModeInfo.Single. */
  function DecodeMode(bs: Bytes): Option<u64> {
    match Checked([B], bs)
    case None => None
    case Some(v) => match Checked([N], BytesAt(v, 0)) case None => None case Some(single) => Some(NumAt(single, 0))
  }

  function DecodeSignDoc(bs: Bytes): Option<Tx> {
    match Checked([B, B, B, N], bs)
    case None => None
    case Some(doc) =>
      match (DecodeBody(BytesAt(doc, 0)), Checked([B, B], BytesAt(doc, 1)))
      case (Some((ms, memo)), Some(auth)) =>
        (match (DecodeSigner(BytesAt(auth, 0)), DecodeFee(BytesAt(auth, 1)))
         case (Some((key, seqno)), Some(fee)) => Some(Tx(ms, memo, fee, key, seqno, BytesAt(doc, 2), NumAt(doc, 3)))
         case _ => None)
      case _ => None
  }

  // ---------------------------------------------------------------------------
  // Round trips

  /** The common step: a message of a given shape comes back slot by slot. */
  lemma CheckedRoundTrip(slots: seq<Slot>, shape: seq<Value>)
    requires |slots| < 16 && Defaults(Values(slots)) == shape && |Encoding(slots)| < TWO_64
    ensures Checked(shape, Encoding(slots)) == Some(Values(slots))
  {
    hide Decoding, Encoding;
    MessageRoundTrip(slots);
    assert Defaults(shape) == shape by {
      forall i | 0 <= i < |shape| ensures Default(shape[i]) == shape[i] {
        assert shape[i] == Default(Values(slots)[i]);
      }
    }
    SameShape(shape, Values(slots), Encoding(slots));
  }

  lemma Fits(slots: seq<Slot>, i: nat)
    requires i < |slots|
    ensures ContentsWithin(slots[i].value, |Encoding(slots)|)
  {
    SlotFits(slots, |slots|, i);
  }

  /** The length and the fourth octet tell the names apart. */
  lemma NameMarks()
    ensures Ascii("MsgCreateRollup")[3] == 67 && Ascii("MsgSubmitBatch")[3] == 83
    ensures Ascii("MsgChallengeBatch")[3] == 67 && Ascii("MsgResolveChallenge")[3] == 82
    ensures Ascii("MsgPauseRollup")[3] == 80 && Ascii("MsgResumeRollup")[3] == 82
    ensures Ascii("MsgStopRollup")[3] == 83 && Ascii("MsgExecuteWithdrawal")[3] == 69
  {
  }

  lemma NameFound(k: MsgKind)
    ensures MessageNamed(MessageName(k)) == Some(k)
  {
    NameMarks();
    hide Ascii;
  }

  /** The chain reads the kind of a message from its type URL. */
  lemma KindFound(k: MsgKind)
    ensures KindNamed(TypeUrl(k)) == Some(k)
  {
    hide MessageName, MessageNamed, Ascii;
    NameFound(k);
    var prefix := Ascii("/qorechain.rdk.v1.");
    assert TypeUrl(k)[..18] == prefix && TypeUrl(k)[18..] == MessageName(k);
  }

  lemma AnyRoundTrip(m: Msg)
    requires |AnyOf(m)| < TWO_64
    ensures DecodeAny(AnyOf(m)) == Some(m)
  {
    hide TypeUrl, KindNamed, Encoding, Checked, DecodeMsg;
    var slots := AnySlots(TypeUrl(KindOf(m)), Marshalled(m));
    Fits(slots, 1);
    CheckedRoundTrip(slots, [B, B]);
    KindFound(KindOf(m));
    MarshalRoundTrip(m);
  }

  lemma {:induction false} AnysRoundTrip(ms: seq<Msg>)
    requires forall i :: 0 <= i < |ms| ==> |Anys(ms)[i]| < TWO_64
    ensures DecodeAnys(Anys(ms)) == Some(ms)
  {
    hide DecodeAny, AnyOf;
    if |ms| == 0 {
    } else {
      var init, last := ms[..|ms| - 1], ms[|ms| - 1];
      assert Anys(ms)[..|ms| - 1] == Anys(init);
      assert forall i :: 0 <= i < |init| ==> Anys(init)[i] == Anys(ms)[i];
      AnysRoundTrip(init);
      assert |Anys(ms)[|ms| - 1]| < TWO_64;
      AnyRoundTrip(last);
      assert ms == init + [last];
    }
  }

  lemma {:induction false} CoinsRoundTrip(cs: seq<Coin>)
    requires forall i :: 0 <= i < |cs| ==> |Coins(cs)[i]| < TWO_64
    ensures DecodeCoins(Coins(cs)) == Some(cs)
  {
    hide Checked, Encoding;
    if |cs| == 0 {
    } else {
      var init, last := cs[..|cs| - 1], cs[|cs| - 1];
      assert Coins(cs)[..|cs| - 1] == Coins(init);
      assert forall i :: 0 <= i < |init| ==> Coins(init)[i] == Coins(cs)[i];
      CoinsRoundTrip(init);
      assert |Coins(cs)[|cs| - 1]| < TWO_64;
      CheckedRoundTrip(CoinSlots(last), [B, B]);
      assert cs == init + [last];
    }
  }

  lemma BodyRoundTrip(ms: seq<Msg>, memo: Bytes)
    requires |Encoding(BodySlots(ms, memo))| < TWO_64
    ensures DecodeBody(Encoding(BodySlots(ms, memo))) == Some((ms, memo))
  {
    hide Encoding, Checked, DecodeAnys, Anys;
    Fits(BodySlots(ms, memo), 0);
    CheckedRoundTrip(BodySlots(ms, memo), [REP, B]);
    AnysRoundTrip(ms);
  }

  lemma FeeRoundTrip(f: Fee)
    requires |Encoding(FeeSlots(f))| < TWO_64
    ensures DecodeFee(Encoding(FeeSlots(f))) == Some(f)
  {
    hide Encoding, Checked, DecodeCoins, Coins;
    Fits(FeeSlots(f), 0);
    CheckedRoundTrip(FeeSlots(f), [REP, N]);
    CoinsRoundTrip(f.amount);
  }

  lemma PubKeyRoundTrip(key: Bytes)
    requires |Encoding(AnySlots(PUBKEY_URL, Encoding(PubKeySlots(key))))| < TWO_64
    ensures DecodePubKey(Encoding(AnySlots(PUBKEY_URL, Encoding(PubKeySlots(key))))) == Some(key)
  {
    hide Encoding, Checked, Ascii;
    var any := AnySlots(PUBKEY_URL, Encoding(PubKeySlots(key)));
    Fits(any, 1);
    CheckedRoundTrip(any, [B, B]);
    CheckedRoundTrip(PubKeySlots(key), [B]);
  }

  lemma ModeRoundTrip(mode: u64)
    requires |Encoding(ModeSlots(mode))| < TWO_64
    ensures DecodeMode(Encoding(ModeSlots(mode))) == Some(mode)
  {
    hide Encoding, Checked;
    Fits(ModeSlots(mode), 0);
    CheckedRoundTrip(ModeSlots(mode), [B]);
    CheckedRoundTrip([Slot(NumV(mode), true)], [N]);
  }

  lemma SignerRoundTrip(key: Bytes, sequence: u64)
    requires |Encoding(SignerSlots(key, sequence))| < TWO_64
    ensures DecodeSigner(Encoding(SignerSlots(key, sequence))) == Some((key, sequence))
  {
    hide Encoding, Checked, Ascii, DecodePubKey, DecodeMode, AnySlots, PubKeySlots, ModeSlots;
    Fits(SignerSlots(key, sequence), 0);
    Fits(SignerSlots(key, sequence), 1);
    CheckedRoundTrip(SignerSlots(key, sequence), [B, B, N]);
    PubKeyRoundTrip(key);
    ModeRoundTrip(SIGN_MODE_DIRECT);
  }

  /** A SignDoc determines the whole transaction it was built from. */
  lemma SignDocRoundTrip(t: Tx)
    requires |SignDocOf(t)| < TWO_64
    ensures DecodeSignDoc(SignDocOf(t)) == Some(t)
  {
    hide Encoding, Checked, DecodeBody, DecodeSigner, DecodeFee, BodySlots, SignerSlots, FeeSlots;
    var doc := DocSlots(BodyOf(t), AuthOf(t), t.chainId, t.accountNumber);
    var auth := AuthSlots(t.publicKey, t.sequence, t.fee);
    Fits(doc, 0);
    Fits(doc, 1);
    Fits(auth, 0);
    Fits(auth, 1);
    CheckedRoundTrip(doc, [B, B, B, N]);
    CheckedRoundTrip(auth, [B, B]);
    BodyRoundTrip(t.messages, t.memo);
    SignerRoundTrip(t.publicKey, t.sequence);
    FeeRoundTrip(t.fee);
  }

  /** Two transactions with the same sign bytes are the same transaction. */
  lemma SignDocInjective(s: Tx, t: Tx)
    requires |SignDocOf(s)| < TWO_64 && SignDocOf(s) == SignDocOf(t)
    ensures s == t
  {
    hide SignDocOf, DecodeSignDoc;
    SignDocRoundTrip(s);
    SignDocRoundTrip(t);
  }

  /** A TxRaw determines its body, its auth info and every signature, empty ones included. */
  lemma TxRawRoundTrip(body: Bytes, auth: Bytes, signatures: seq<Bytes>)
    requires |Encoding(RawSlots(body, auth, signatures))| < TWO_64
    ensures Checked([B, B, REP], Encoding(RawSlots(body, auth, signatures)))
         == Some([BytesV(body), BytesV(auth), RepV(signatures)])
  {
    hide Encoding, Checked;
    CheckedRoundTrip(RawSlots(body, auth, signatures), [B, B, REP]);
    assert Values(RawSlots(body, auth, signatures)) == [BytesV(body), BytesV(auth), RepV(signatures)];
  }
}
