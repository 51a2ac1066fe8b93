/**
 * Messages as lists of slots: slot i carries field number i + 1. Encoding writes a slot unless it
 * holds its default and may be elided; decoding starts from the defaults and applies every field.
 */
module ProtoMessage {
  import opened Common
  import opened ProtoWire

  datatype Value =
    | BytesV(b: Bytes)
    | NumV(n: u64)
    | IntV(i: i64)
    | FlagV(f: bool)
    | RepV(items: seq<Bytes>)

  /** A slot's value, and whether it is written even when it is the default. */
  datatype Slot = Slot(value: Value, always: bool)

  function Default(v: Value): Value {
    match v
    case BytesV(_) => BytesV([])
    case NumV(_) => NumV(0)
    case IntV(_) => IntV(0)
    case FlagV(_) => FlagV(false)
    case RepV(_) => RepV([])
  }

  function SlotFields(num: nat, s: Slot): seq<Field> {
    if !s.always && s.value == Default(s.value) then []
    else
      match s.value
      case BytesV(b) => [BytesField(num, b)]
      case NumV(n) => [VarintField(num, n)]
      case IntV(i) => [VarintField(num, Unsigned(i))]
      case FlagV(f) => [VarintField(num, if f then 1 else 0)]
      case RepV(items) => Repeated(num, items)
  }

  /** The fields of the first k slots. */
  function FieldsUpTo(slots: seq<Slot>, k: nat): seq<Field>
    requires k <= |slots|
  {
    if k == 0 then [] else FieldsUpTo(slots, k - 1) + SlotFields(k, slots[k - 1])
  }

  function Encoding(slots: seq<Slot>): Bytes { FieldsBytes(FieldsUpTo(slots, |slots|)) }

  function Values(slots: seq<Slot>): (vs: seq<Value>)
    ensures |vs| == |slots|
  {
    seq(|slots|, i requires 0 <= i < |slots| => slots[i].value)
  }

  function Defaults(vs: seq<Value>): (ds: seq<Value>)
    ensures |ds| == |vs|
  {
    seq(|vs|, i requires 0 <= i < |vs| => Default(vs[i]))
  }

  // ---------------------------------------------------------------------------
  // Decoding

  /** One field into its slot: the last scalar wins, repeated fields append, unknown numbers are skipped. */
  function Apply(vs: seq<Value>, f: Field): (r: Option<seq<Value>>)
    ensures r.Some? ==> |r.value| == |vs|
  {
    if f.num == 0 || f.num > |vs| then Some(vs)
    else
      var k := f.num - 1;
      match (vs[k], f)
      case (BytesV(_), BytesField(_, b)) => Some(vs[k := BytesV(b)])
      case (RepV(items), BytesField(_, b)) => Some(vs[k := RepV(items + [b])])
      case (NumV(_), VarintField(_, v)) => if v < TWO_64 then Some(vs[k := NumV(v)]) else None
      case (IntV(_), VarintField(_, v)) => if v < TWO_64 then Some(vs[k := IntV(Signed(v))]) else None
      case (FlagV(_), VarintField(_, v)) => Some(vs[k := FlagV(v != 0)])
      case _ => None
  }

  function ApplyAll(vs: seq<Value>, fs: seq<Field>): (r: Option<seq<Value>>)
    decreases |fs|
  {
    if |fs| == 0 then Some(vs)
    else
      match ApplyAll(vs, fs[..|fs| - 1])
      case None => None
      case Some(ws) => Apply(ws, fs[|fs| - 1])
  }

  /** Decode a message of the given shape. */
  function Decoding(shape: seq<Value>, bs: Bytes): Option<seq<Value>> {
    match ReadFields(bs)
    case None => None
    case Some(fs) => ApplyAll(Defaults(shape), fs)
  }

  lemma {:induction false} ApplyAllAppend(vs: seq<Value>, fs: seq<Field>, gs: seq<Field>)
    ensures ApplyAll(vs, fs + gs)
         == match ApplyAll(vs, fs) case None => None case Some(ws) => ApplyAll(ws, gs)
  {
    hide Apply;
    if |gs| == 0 {
      assert fs + gs == fs;
    } else {
      ApplyAllAppend(vs, fs, gs[..|gs| - 1]);
      assert (fs + gs)[..|fs + gs| - 1] == fs + gs[..|gs| - 1];
    }
  }

  lemma {:induction false} ApplyRepeated(vs: seq<Value>, k: nat, items: seq<Bytes>)
    requires k < |vs| && vs[k] == RepV([])
    ensures ApplyAll(vs, Repeated(k + 1, items)) == Some(vs[k := RepV(items)])
    decreases |items|
  {
    if |items| == 0 {
      assert vs[k := RepV([])] == vs;
    } else {
      var init := items[..|items| - 1];
      ApplyRepeated(vs, k, init);
      assert Repeated(k + 1, items)[..|items| - 1] == Repeated(k + 1, init);
      assert items == init + [items[|items| - 1]];
      var ws := vs[k := RepV(init)];
      assert ApplyAll(vs, Repeated(k + 1, items)) == Apply(ws, BytesField(k + 1, items[|items| - 1]));
      assert ws[k := RepV(items)] == vs[k := RepV(items)];
    }
  }

  lemma ApplyOne(vs: seq<Value>, f: Field)
    ensures ApplyAll(vs, [f]) == Apply(vs, f)
  {
    assert [f][..0] == [];
  }

  /** A slot's fields set exactly that slot. */
  lemma ApplySlot(vs: seq<Value>, k: nat, s: Slot)
    requires k < |vs| && vs[k] == Default(s.value)
    ensures ApplyAll(vs, SlotFields(k + 1, s)) == Some(vs[k := s.value])
  {
    hide ApplyAll;
    if !s.always && s.value == Default(s.value) {
      assert vs[k := s.value] == vs;
      ApplyNone(vs);
    } else if s.value.RepV? {
      ApplyRepeated(vs, k, s.value.items);
    } else {
      ApplyOne(vs, SlotFields(k + 1, s)[0]);
      assert SlotFields(k + 1, s) == [SlotFields(k + 1, s)[0]];
    }
  }

  lemma ApplyNone(vs: seq<Value>)
    ensures ApplyAll(vs, []) == Some(vs)
  {
  }

  lemma {:induction false} ApplyUpTo(slots: seq<Slot>, k: nat)
    requires k <= |slots|
    ensures ApplyAll(Defaults(Values(slots)), FieldsUpTo(slots, k))
         == Some(Values(slots)[..k] + Defaults(Values(slots))[k..])
  {
    hide ApplyAll, SlotFields;
    var vs, ds := Values(slots), Defaults(Values(slots));
    if k == 0 {
      ApplyNone(ds);
      assert vs[..0] + ds[0..] == ds;
    } else {
      ApplyUpTo(slots, k - 1);
      ApplyAllAppend(ds, FieldsUpTo(slots, k - 1), SlotFields(k, slots[k - 1]));
      var ws := vs[..k - 1] + ds[k - 1..];
      ApplySlot(ws, k - 1, slots[k - 1]);
      assert ws[k - 1 := vs[k - 1]] == vs[..k] + ds[k..];
    }
  }

  lemma SlotFieldsValid(num: nat, s: Slot, i: nat)
    requires i < |SlotFields(num, s)|
    ensures SlotFields(num, s)[i].num == num
    ensures var f := SlotFields(num, s)[i]; f.VarintField? ==> f.v < TWO_64
  {
  }

  lemma {:induction false} FieldsValid(slots: seq<Slot>, k: nat, i: nat)
    requires k <= |slots| && i < |FieldsUpTo(slots, k)|
    ensures var f := FieldsUpTo(slots, k)[i]; 1 <= f.num <= k && (f.VarintField? ==> f.v < TWO_64)
  {
    hide SlotFields;
    var before := FieldsUpTo(slots, k - 1);
    if i < |before| {
      FieldsValid(slots, k - 1, i);
    } else {
      SlotFieldsValid(k, slots[k - 1], i - |before|);
    }
  }

  /** Decoding an encoded message returns every slot's value, elided ones included. */
  lemma MessageRoundTrip(slots: seq<Slot>)
    requires |slots| < 0x2000_0000 && |Encoding(slots)| < TWO_64
    ensures Decoding(Values(slots), Encoding(slots)) == Some(Values(slots))
  {
    hide ReadFields, FieldsBytes, ApplyAll;
    var fs := FieldsUpTo(slots, |slots|);
    forall i | 0 <= i < |fs| ensures ValidField(fs[i]) {
      FieldsValid(slots, |slots|, i);
      if fs[i].BytesField? { ContentsFit(fs, i); }
    }
    ReadsFields(fs);
    ApplyUpTo(slots, |slots|);
    var vs := Values(slots);
    assert vs[..|slots|] + Defaults(vs)[|slots|..] == vs;
  }

  /** A decoder of a shape depends on the kinds of the slots only. */
  lemma SameShape(us: seq<Value>, vs: seq<Value>, bs: Bytes)
    requires Defaults(us) == Defaults(vs)
    ensures Decoding(us, bs) == Decoding(vs, bs)
  {
  }

  predicate ContentsWithin(v: Value, limit: nat) {
    && (v.BytesV? ==> |v.b| <= limit)
    && (v.RepV? ==> forall j :: 0 <= j < |v.items| ==> |v.items[j]| <= limit)
  }

  lemma FieldsHold(num: nat, s: Slot)
    ensures ContentsWithin(s.value, |FieldsBytes(SlotFields(num, s))|)
  {
    hide FieldsBytes;
    var fs := SlotFields(num, s);
    if s.value.BytesV? && |fs| > 0 {
      ContentsFit(fs, 0);
    }
    if s.value.RepV? {
      forall j | 0 <= j < |s.value.items| ensures |s.value.items[j]| <= |FieldsBytes(fs)| {
        ContentsFit(fs, j);
      }
    }
  }

  /** The contents of a slot are no longer than the message. */
  lemma {:induction false} SlotFits(slots: seq<Slot>, k: nat, i: nat)
    requires i < k <= |slots|
    ensures ContentsWithin(slots[i].value, |FieldsBytes(FieldsUpTo(slots, k))|)
    decreases k
  {
    hide FieldsBytes, SlotFields;
    FieldsBytesAppend(FieldsUpTo(slots, k - 1), SlotFields(k, slots[k - 1]));
    if i < k - 1 {
      SlotFits(slots, k - 1, i);
    } else {
      FieldsHold(k, slots[i]);
    }
  }
}
