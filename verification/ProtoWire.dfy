/** The hand-written protobuf wire encoder, and a decoder written from the encoding guide. */
module ProtoWire {
  import opened Common

  // ---------------------------------------------------------------------------
  // Fields on the wire

  /** A field as it stands on the wire: a varint or a length-delimited value. */
  datatype Field = VarintField(num: nat, v: nat) | BytesField(num: nat, b: Bytes)

  /** Base-128 digits, least significant first, all but the last with the top bit set. */
  function Varint(v: nat): (r: Bytes)
    ensures |r| >= 1
  {
    if v < 128 then [v] else [v % 128 + 128] + Varint(v / 128)
  }

  function Tag(f: Field): nat { f.num * 8 + if f.BytesField? then 2 else 0 }

  function FieldBytes(f: Field): (r: Bytes)
    ensures |r| >= 1
  {
    Varint(Tag(f)) + match f case VarintField(_, v) => Varint(v) case BytesField(_, b) => Varint(|b|) + b
  }

  function FieldsBytes(fs: seq<Field>): Bytes {
    if |fs| == 0 then [] else FieldBytes(fs[0]) + FieldsBytes(fs[1..])
  }

  lemma Associate(a: Bytes, b: Bytes, c: Bytes)
    ensures (a + b) + c == a + (b + c)
  {
  }

  lemma {:induction false} FieldsBytesAppend(fs: seq<Field>, gs: seq<Field>)
    ensures FieldsBytes(fs + gs) == FieldsBytes(fs) + FieldsBytes(gs)
  {
    hide FieldBytes;
    if |fs| == 0 {
      assert fs + gs == gs;
    } else {
      FieldsBytesAppend(fs[1..], gs);
      assert (fs + gs)[0] == fs[0] && (fs + gs)[1..] == fs[1..] + gs;
      Associate(FieldBytes(fs[0]), FieldsBytes(fs[1..]), FieldsBytes(gs));
    }
  }

  // ---------------------------------------------------------------------------
  // The decoder

  /** Value and length of the varint at the front, of at most `budget` octets. */
  function ReadVarintIn(bs: Bytes, budget: nat): (r: Option<(nat, nat)>)
    ensures r.Some? ==> 1 <= r.value.1 <= |bs|
    decreases budget
  {
    if budget == 0 || |bs| == 0 then None
    else if bs[0] < 128 then Some((bs[0], 1))
    else
      match ReadVarintIn(bs[1..], budget - 1)
      case None => None
      case Some((v, n)) => Some((bs[0] - 128 + 128 * v, n + 1))
  }

  /** A 64-bit varint: at most ten octets and below 2^64. */
  function ReadVarint(bs: Bytes): (r: Option<(nat, nat)>)
    ensures r.Some? ==> 1 <= r.value.1 <= |bs|
  {
    match ReadVarintIn(bs, 10)
    case None => None
    case Some((v, n)) => if v < TWO_64 then Some((v, n)) else None
  }

  /** The field at the front and its length; wire types 0 and 2 only. */
  function ReadField(bs: Bytes): (r: Option<(Field, nat)>)
    ensures r.Some? ==> 1 <= r.value.1 <= |bs|
  {
    match ReadVarint(bs)
    case None => None
    case Some((tag, n)) =>
      if tag / 8 == 0 then None
      else
        match ReadVarint(bs[n..])
        case None => None
        case Some((v, k)) =>
          if tag % 8 == 0 then Some((VarintField(tag / 8, v), n + k))
          else if tag % 8 == 2 && n + k + v <= |bs| then Some((BytesField(tag / 8, bs[n + k..n + k + v]), n + k + v))
          else None
  }

  function ReadFields(bs: Bytes): (r: Option<seq<Field>>)
    decreases |bs|
  {
    if |bs| == 0 then Some([])
    else
      match ReadField(bs)
      case None => None
      case Some((f, n)) =>
        match ReadFields(bs[n..])
        case None => None
        case Some(fs) => Some([f] + fs)
  }

  // ---------------------------------------------------------------------------
  // Reading back what was written

  lemma {:induction false} VarintLength(v: nat, k: nat)
    requires k >= 1 && v < Pow(128, k)
    ensures |Varint(v)| <= k
    decreases k
  {
    if v < 128 {
    } else {
      assert Pow(128, 0) == 1;
      VarintLength(v / 128, k - 1);
    }
  }

  lemma TenOctets()
    ensures TWO_64 <= Pow(128, 10)
  {
    assert Pow(128, 2) == 16384;
    assert Pow(128, 4) == Pow(128, 2) * 128 * 128;
    assert Pow(128, 6) == Pow(128, 4) * 128 * 128;
    assert Pow(128, 8) == Pow(128, 6) * 128 * 128;
    assert Pow(128, 10) == Pow(128, 8) * 128 * 128;
  }

  lemma {:induction false} ReadsVarintIn(v: nat, rest: Bytes, budget: nat)
    requires |Varint(v)| <= budget
    ensures ReadVarintIn(Varint(v) + rest, budget) == Some((v, |Varint(v)|))
    decreases v
  {
    var bs := Varint(v) + rest;
    if v < 128 {
    } else {
      assert bs[1..] == Varint(v / 128) + rest;
      ReadsVarintIn(v / 128, rest, budget - 1);
    }
  }

  lemma ReadsVarint(v: nat, rest: Bytes)
    requires v < TWO_64
    ensures ReadVarint(Varint(v) + rest) == Some((v, |Varint(v)|))
  {
    hide Pow, Varint;
    TenOctets();
    VarintLength(v, 10);
    ReadsVarintIn(v, rest, 10);
  }

  predicate ValidField(f: Field) {
    1 <= f.num < 0x2000_0000 && match f case VarintField(_, v) => v < TWO_64 case BytesField(_, b) => |b| < TWO_64
  }

  lemma ReadsField(f: Field, rest: Bytes)
    requires ValidField(f)
    ensures ReadField(FieldBytes(f) + rest) == Some((f, |FieldBytes(f)|))
  {
    hide ReadVarint, Varint;
    var tag := Varint(Tag(f));
    var bs := FieldBytes(f) + rest;
    match f
    case VarintField(_, v) =>
      assert bs == tag + (Varint(v) + rest);
      ReadsVarint(Tag(f), Varint(v) + rest);
      assert bs[|tag|..] == Varint(v) + rest;
      ReadsVarint(v, rest);
    case BytesField(_, b) =>
      var len := Varint(|b|);
      assert bs == tag + (len + (b + rest));
      ReadsVarint(Tag(f), len + (b + rest));
      assert bs[|tag|..] == len + (b + rest);
      ReadsVarint(|b|, b + rest);
      assert bs[|tag| + |len|..|tag| + |len| + |b|] == b;
  }

  lemma {:induction false} ReadsFields(fs: seq<Field>)
    requires forall i :: 0 <= i < |fs| ==> ValidField(fs[i])
    ensures ReadFields(FieldsBytes(fs)) == Some(fs)
  {
    hide ReadField, FieldBytes;
    if |fs| == 0 {
    } else {
      ReadsField(fs[0], FieldsBytes(fs[1..]));
      ReadsFields(fs[1..]);
      var bs := FieldsBytes(fs);
      assert bs[|FieldBytes(fs[0])|..] == FieldsBytes(fs[1..]);
      assert fs == [fs[0]] + fs[1..];
    }
  }

  /** A field's contents are never longer than the encoding that holds them. */
  lemma {:induction false} ContentsFit(fs: seq<Field>, i: nat)
    requires i < |fs| && fs[i].BytesField?
    ensures |fs[i].b| <= |FieldsBytes(fs)|
  {
    if i == 0 {
    } else {
      ContentsFit(fs[1..], i - 1);
    }
  }

  // ---------------------------------------------------------------------------
  // The writer

  function IfNot(skip: bool, f: Field): seq<Field> { if skip then [] else [f] }

  function Repeated(num: nat, items: seq<Bytes>): (fs: seq<Field>)
    ensures |fs| == |items|
  {
    seq(|items|, i requires 0 <= i < |items| => BytesField(num, items[i]))
  }

  /** uint64(v) of a signed value. */
  function Unsigned(v: i64): u64 { if v >= 0 then v else v + TWO_64 }

  function Signed(v: u64): i64 { if v < TWO_63 then v else v - TWO_64 }

  class ProtoWriter {
    var buf: Bytes

    constructor ()
      ensures buf == []
    {
      buf := [];
    }

    /** binary.PutUvarint into a scratch array, then appended. */
    method WriteVarint(v: nat)
      modifies this
      ensures buf == old(buf) + Varint(v)
    {
      var x, tmp: Bytes := v, [];
      while x >= 128
        invariant tmp + Varint(x) == Varint(v)
      {
        tmp := tmp + [x % 128 + 128];
        x := x / 128;
      }
      tmp := tmp + [x];
      buf := buf + tmp;
    }

    method WriteTag(field: nat, wireType: nat)
      modifies this
      ensures buf == old(buf) + Varint(field * 8 + wireType)
    {
      WriteVarint(field * 8 + wireType);
    }

    /** writeRawString, writeRawBytes and writeMessage: written even when empty. */
    method WriteRawBytes(field: nat, b: Bytes)
      modifies this
      ensures buf == old(buf) + FieldsBytes([BytesField(field, b)])
    {
      hide Varint;
      WriteTag(field, 2);
      WriteVarint(|b|);
      buf := buf + b;
      One(BytesField(field, b));
    }

    /** writeString and writeBytes: omitted when empty. */
    method WriteBytes(field: nat, b: Bytes)
      modifies this
      ensures buf == old(buf) + FieldsBytes(IfNot(b == [], BytesField(field, b)))
    {
      if b == [] {
        return;
      }
      WriteRawBytes(field, b);
    }

    method WriteRepeatedBytes(field: nat, items: seq<Bytes>)
      modifies this
      ensures buf == old(buf) + FieldsBytes(Repeated(field, items))
    {
      hide FieldBytes;
      for i := 0 to |items|
        invariant buf == old(buf) + FieldsBytes(Repeated(field, items)[..i])
      {
        WriteRawBytes(field, items[i]);
        FieldsBytesAppend(Repeated(field, items)[..i], [BytesField(field, items[i])]);
        assert Repeated(field, items)[..i + 1] == Repeated(field, items)[..i] + [BytesField(field, items[i])];
      }
      assert Repeated(field, items)[..|items|] == Repeated(field, items);
    }

    /** writeRawUint64 and writeEnum: written even when zero. */
    method WriteRawUint64(field: nat, v: u64)
      modifies this
      ensures buf == old(buf) + FieldsBytes([VarintField(field, v)])
    {
      hide Varint;
      WriteTag(field, 0);
      WriteVarint(v);
      One(VarintField(field, v));
    }

    method WriteUint64(field: nat, v: u64)
      modifies this
      ensures buf == old(buf) + FieldsBytes(IfNot(v == 0, VarintField(field, v)))
    {
      if v == 0 {
        return;
      }
      WriteRawUint64(field, v);
    }

    method WriteInt64(field: nat, v: i64)
      modifies this
      ensures buf == old(buf) + FieldsBytes(IfNot(v == 0, VarintField(field, Unsigned(v))))
    {
      if v == 0 {
        return;
      }
      WriteRawUint64(field, Unsigned(v));
    }

    method WriteBool(field: nat, v: bool)
      modifies this
      ensures buf == old(buf) + FieldsBytes(IfNot(!v, VarintField(field, 1)))
    {
      if !v {
        return;
      }
      WriteRawUint64(field, 1);
    }
  }

  lemma One(f: Field)
    ensures FieldsBytes([f]) == FieldBytes(f)
  {
    assert [f][1..] == [];
  }

  /** The two readings of 64 bits differ by a multiple of 2^64 and undo each other: two's complement. */
  lemma TwosComplement(v: i64, u: u64)
    ensures Unsigned(v) % TWO_64 == v % TWO_64 && Signed(u) % TWO_64 == u % TWO_64
    ensures Signed(Unsigned(v)) == v && Unsigned(Signed(u)) == u
  {
  }
}
