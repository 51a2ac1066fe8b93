/** ABI tuples of byte strings, as the cross-VM precompile reads and returns them. */
module CrossVmAbi {
  import opened Common

  // ---------------------------------------------------------------------------
  // Words

  /** A number in one 32-octet word. */
  function Word(n: nat): (w: Bytes)
    ensures |w| == 32
  {
    Digits(n, 256, 32)
  }

  /** u256be: octets written from the last to the first. */
  method U256Be(value: nat) returns (r: Bytes)
    ensures r == Word(value)
  {
    hide Digits;
    var v, out := value, new byte[32];
    ghost var w := Word(value);
    assert w[..32] == w == Digits(v, 256, 32);
    for i := 32 downto 0
      invariant forall k :: i <= k < 32 ==> out[k] == w[k]
      invariant Digits(v, 256, i) == w[..i]
    {
      LastDigit(v, i + 1);
      assert w[..i + 1][..i] == w[..i] && w[..i + 1][i] == w[i];
      out[i] := v % 256;
      v := v / 256;
    }
    assert out[..] == w;
    r := out[..];
  }

  lemma LastDigit(v: nat, len: nat)
    requires len >= 1
    ensures Digits(v, 256, len)[len - 1] == v % 256 && Digits(v, 256, len)[..len - 1] == Digits(v / 256, 256, len - 1)
  {
  }

  /** The number at an offset. */
  function WordAt(b: Bytes, at: nat): nat
    requires at + 32 <= |b|
  {
    Number(b[at..at + 32], 256)
  }

  /** readWord. */
  method ReadWord(b: Bytes, at: nat) returns (v: nat)
    requires at + 32 <= |b|
    ensures v == WordAt(b, at)
  {
    v := 0;
    for i := 0 to 32
      invariant v == Number(b[at..at + i], 256)
    {
      v := v * 256 + b[at + i];
      NumberAppend(b[at..at + i], b[at + i], 256);
      assert b[at..at + i + 1] == b[at..at + i] + [b[at + i]];
    }
  }

  lemma WordReads(n: nat, before: Bytes, after: Bytes)
    requires n < Pow(256, 32)
    ensures WordAt(before + Word(n) + after, |before|) == n
  {
    hide Digits, Number, Pow;
    NumberOfDigits(n, 256, 32);
    var b := before + Word(n) + after;
    assert b[|before|..|before| + 32] == Word(n);
  }

  // ---------------------------------------------------------------------------
  // Tuples

  /** padRight32. */
  function Padded(data: Bytes): (r: Bytes)
    ensures |r| % 32 == 0 && |data| <= |r| < |data| + 32 && r[..|data|] == data
    ensures forall k :: |data| <= k < |r| ==> r[k] == 0
  {
    data + seq((32 - |data| % 32) % 32, _ => 0)
  }

  /** An item's length word and padded contents. */
  function Chunk(item: Bytes): (r: Bytes)
    ensures |r| >= 32
  {
    Word(|item|) + Padded(item)
  }

  function Tail(items: seq<Bytes>, k: nat): Bytes
    requires k <= |items|
  {
    if k == 0 then [] else Tail(items, k - 1) + Chunk(items[k - 1])
  }

  function Offset(items: seq<Bytes>, headWords: nat, i: nat): nat
    requires i <= |items|
  {
    (headWords + |items|) * 32 + |Tail(items, i)|
  }

  function Heads(items: seq<Bytes>, headWords: nat, k: nat): (r: Bytes)
    requires k <= |items|
    ensures |r| == 32 * k
  {
    if k == 0 then [] else Heads(items, headWords, k - 1) + Word(Offset(items, headWords, k - 1))
  }

  function Tuple(items: seq<Bytes>, headWords: nat): Bytes {
    Heads(items, headWords, |items|) + Tail(items, |items|)
  }

  /** encodeDynamicTuple. */
  method EncodeDynamicTuple(items: seq<Bytes>, headWords: nat) returns (r: Bytes)
    ensures r == Tuple(items, headWords)
  {
    hide Word, Padded;
    var headLen := (headWords + |items|) * 32;
    var offsets: Bytes, tail: Bytes, running := [], [], 0;
    for i := 0 to |items|
      invariant offsets == Heads(items, headWords, i) && tail == Tail(items, i) && running == |tail|
    {
      var offset := U256Be(headLen + running);
      var len := U256Be(|items[i]|);
      var chunk := len + Padded(items[i]);
      offsets := offsets + offset;
      tail := tail + chunk;
      running := running + |chunk|;
    }
    return offsets + tail;
  }

  /** Where item i stands: its offset word, its length word, its bytes. */
  ghost predicate Located(b: Bytes, slot: nat, item: Bytes) {
    && slot + 32 <= |b|
    && WordAt(b, slot) + 32 <= |b|
    && WordAt(b, WordAt(b, slot)) == |item|
    && WordAt(b, slot) + 32 + |item| <= |b|
    && b[WordAt(b, slot) + 32..WordAt(b, slot) + 32 + |item|] == item
  }

  lemma {:induction false} HeadSplits(items: seq<Bytes>, headWords: nat, i: nat, k: nat)
    requires i < k <= |items|
    ensures exists rest: Bytes ::
              Heads(items, headWords, k) == Heads(items, headWords, i) + Word(Offset(items, headWords, i)) + rest
    decreases k
  {
    hide Word, Offset;
    var w := Heads(items, headWords, i) + Word(Offset(items, headWords, i));
    if i == k - 1 {
      assert Heads(items, headWords, k) == w + [];
    } else {
      HeadSplits(items, headWords, i, k - 1);
      var rest: Bytes :| Heads(items, headWords, k - 1) == w + rest;
      var last := Word(Offset(items, headWords, k - 1));
      assert (w + rest) + last == w + (rest + last);
    }
  }

  lemma {:induction false} TailSplits(items: seq<Bytes>, i: nat, k: nat)
    requires i < k <= |items|
    ensures exists rest: Bytes :: Tail(items, k) == Tail(items, i) + Chunk(items[i]) + rest
    decreases k
  {
    hide Chunk;
    var t := Tail(items, i) + Chunk(items[i]);
    if i == k - 1 {
      assert Tail(items, k) == t + [];
    } else {
      TailSplits(items, i, k - 1);
      var rest: Bytes :| Tail(items, k - 1) == t + rest;
      assert (t + rest) + Chunk(items[k - 1]) == t + (rest + Chunk(items[k - 1]));
    }
  }

  lemma OffsetRead(head: Bytes, items: seq<Bytes>, headWords: nat, i: nat)
    requires |head| == 32 * headWords && i < |items| && Offset(items, headWords, i) < Pow(256, 32)
    ensures var b := head + Tuple(items, headWords);
            32 * (headWords + i) + 32 <= |b| && WordAt(b, 32 * (headWords + i)) == Offset(items, headWords, i)
  {
    hide Word, Pow, Number, Offset, Tail, WordAt;
    var n, off := |items|, Offset(items, headWords, i);
    HeadSplits(items, headWords, i, n);
    var hs: Bytes :| Heads(items, headWords, n) == Heads(items, headWords, i) + Word(off) + hs;
    var before, after := head + Heads(items, headWords, i), hs + Tail(items, n);
    assert head + Tuple(items, headWords) == before + Word(off) + after;
    WordReads(off, before, after);
  }

  lemma ChunkFound(head: Bytes, items: seq<Bytes>, headWords: nat, i: nat)
    requires |head| == 32 * headWords && i < |items| && |head + Tuple(items, headWords)| < Pow(256, 32)
    ensures var b, off := head + Tuple(items, headWords), Offset(items, headWords, i);
            && off + 32 + |items[i]| <= |b| && WordAt(b, off) == |items[i]|
            && b[off + 32..off + 32 + |items[i]|] == items[i]
  {
    hide Word, Padded, Pow, Number, Chunk, WordAt;
    var n := |items|;
    TailSplits(items, i, n);
    var ts: Bytes :| Tail(items, n) == Tail(items, i) + Chunk(items[i]) + ts;
    var front := head + Heads(items, headWords, n) + Tail(items, i);
    assert head + Tuple(items, headWords) == front + (Chunk(items[i]) + ts);
    ChunkAt(front, items[i], ts, head + Tuple(items, headWords));
  }

  /** Every item is found again from its offset and length words, whatever static words precede. */
  lemma ItemRecovered(head: Bytes, items: seq<Bytes>, headWords: nat, i: nat)
    requires |head| == 32 * headWords && i < |items|
    requires |head + Tuple(items, headWords)| < Pow(256, 32)
    ensures Located(head + Tuple(items, headWords), 32 * (headWords + i), items[i])
  {
    hide Tuple, Pow, Number, Offset, WordAt;
    ChunkFound(head, items, headWords, i);
    OffsetRead(head, items, headWords, i);
  }

  lemma ChunkAt(front: Bytes, item: Bytes, rest: Bytes, b: Bytes)
    requires b == front + (Chunk(item) + rest) && |b| < Pow(256, 32)
    ensures |front| + 32 + |item| <= |b| && WordAt(b, |front|) == |item|
    ensures b[|front| + 32..|front| + 32 + |item|] == item
  {
    hide Word, Pow, Number;
    var p := Padded(item);
    assert b == front + Word(|item|) + (p + rest);
    WordReads(|item|, front, p + rest);
    assert b[|front| + 32..] == p + rest;
    assert (p + rest)[..|item|] == item;
  }

  // ---------------------------------------------------------------------------
  // Return data

  datatype AbiError = EmptyData | TooShort | BadOffset | BadLength

  /** The dynamic value whose offset stands in the first word: an in-range slice or an error. */
  function Slice(b: Bytes): (r: Result<Bytes, AbiError>)
    requires |b| >= 64
    ensures r.Ok? <==> WordAt(b, 0) + 32 <= |b| && WordAt(b, 0) + 32 + WordAt(b, WordAt(b, 0)) <= |b|
    ensures r.Ok? ==> Located(b, 0, r.value)
  {
    var offset := WordAt(b, 0);
    if offset + 32 > |b| then Err(BadOffset)
    else
      var len := WordAt(b, offset);
      if offset + 32 + len > |b| then Err(BadLength) else Ok(b[offset + 32..offset + 32 + len])
  }

  /** decodeCrossVmResult. */
  function DecodeResult(b: Bytes): (r: Result<Bytes, AbiError>)
    ensures r.Ok? ==> |b| >= 64 && Located(b, 0, r.value)
  {
    if |b| == 0 then Err(EmptyData) else if |b| < 64 then Err(TooShort) else Slice(b)
  }

  const ERROR_SELECTOR: Bytes := [0x08, 0xc3, 0x79, 0xa0]

  /** decodeRevertReason; `utf8` turns the reason's bytes into text, as a TextDecoder does. */
  function DecodeRevert(data: Bytes, utf8: Bytes -> string): Option<string> {
    if |data| < 68 || data[..4] != ERROR_SELECTOR then None
    else match Slice(data[4..]) case Ok(reason) => Some(utf8(reason)) case Err(_) => None
  }

  /**
   * A result is decoded to an item exactly when that item is located at the first word of data of two words
   * or more: the decoder misses no well-placed item and invents none.
   */
  lemma DecodesWhatIsLocated(b: Bytes, item: Bytes)
    ensures DecodeResult(b) == Ok(item) <==> |b| >= 64 && Located(b, 0, item)
  {
    hide Number, WordAt, Located, Slice;
    if |b| >= 64 && Located(b, 0, item) {
      LocatedSlice(b, item);
    }
  }

  /** A revert has a reason exactly when its body decodes as a result, and it is the text of that. */
  lemma RevertIsResult(b: Bytes, utf8: Bytes -> string)
    ensures DecodeRevert(ERROR_SELECTOR + b, utf8)
         == match DecodeResult(b) case Ok(reason) => Some(utf8(reason)) case Err(_) => None
  {
    hide Slice;
    var data := ERROR_SELECTOR + b;
    assert data[..4] == ERROR_SELECTOR && data[4..] == b;
  }

  lemma LocatedSlice(b: Bytes, item: Bytes)
    requires |b| >= 64 && Located(b, 0, item)
    ensures Slice(b) == Ok(item)
  {
    hide Number, WordAt;
  }

  lemma OneItem(item: Bytes)
    requires |Tuple([item], 0)| < Pow(256, 32)
    ensures |Tuple([item], 0)| >= 64 && Slice(Tuple([item], 0)) == Ok(item)
  {
    hide Word, Padded, Pow, Number;
    ItemRecovered([], [item], 0, 0);
    assert [] + Tuple([item], 0) == Tuple([item], 0);
    assert Tail([item], 1) == Tail([item], 0) + Chunk(item);
  }

  /** Decoding an encoded response returns it, and a revert's reason is the one encoded. */
  lemma ResponseRoundTrip(item: Bytes, utf8: Bytes -> string)
    requires |Tuple([item], 0)| < Pow(256, 32)
    ensures DecodeResult(Tuple([item], 0)) == Ok(item)
    ensures DecodeRevert(ERROR_SELECTOR + Tuple([item], 0), utf8) == Some(utf8(item))
  {
    hide Tuple, Pow, Slice;
    OneItem(item);
    var data := ERROR_SELECTOR + Tuple([item], 0);
    assert data[..4] == ERROR_SELECTOR && data[4..] == Tuple([item], 0);
  }

  // ---------------------------------------------------------------------------
  // Calldata

  /** The lane of QoreChain Native contracts, which is called unless another is named. */
  const NATIVE: nat := 1

  /** The calldata of a cross-VM call, or nothing for an unsupported target. */
  function Calldata(selector: Bytes, targetVm: nat, contract: Bytes, msg: Bytes): Option<Bytes> {
    if targetVm > 1 then None else Some(selector + (Word(targetVm) + Tuple([contract, msg], 1)))
  }

  /** encodeCrossVmCalldata, as octets. */
  method EncodeCalldata(selector: Bytes, target: Option<nat>, contract: Bytes, msg: Bytes) returns (r: Option<Bytes>)
    ensures target.None? ==> r == Calldata(selector, 1, contract, msg)
    ensures target.Some? ==> r == Calldata(selector, target.value, contract, msg)
  {
    hide Word, Tuple;
    var targetVm := if target.None? then NATIVE else target.value;
    if targetVm != 0 && targetVm != 1 {
      return None;
    }
    var head := U256Be(targetVm);
    var dynamic := EncodeDynamicTuple([contract, msg], 1);
    return Some(selector + (head + dynamic));
  }

  /** How a chain reads the calldata of executeCrossVMCall(uint8,string,bytes), behind its selector. */
  ghost predicate Calls(b: Bytes, targetVm: nat, contract: Bytes, msg: Bytes) {
    |b| >= 96 && WordAt(b, 0) == targetVm && Located(b, 32, contract) && Located(b, 64, msg)
  }

  /** Calldata exists for targets 0 and 1 only; it is the selector, the target, the contract and the message. */
  lemma CalldataReads(selector: Bytes, targetVm: nat, contract: Bytes, msg: Bytes)
    requires |Word(targetVm) + Tuple([contract, msg], 1)| < Pow(256, 32)
    ensures Calldata(selector, targetVm, contract, msg).Some? <==> targetVm in {0, 1}
    ensures targetVm in {0, 1} ==>
              var data := Calldata(selector, targetVm, contract, msg).value;
              && |selector| <= |data| && data[..|selector|] == selector
              && Calls(data[|selector|..], targetVm, contract, msg)
  {
    hide Word, Tuple, Pow, Located;
    if targetVm in {0, 1} {
      var b := Word(targetVm) + Tuple([contract, msg], 1);
      assert (selector + b)[..|selector|] == selector && (selector + b)[|selector|..] == b;
      ItemRecovered(Word(targetVm), [contract, msg], 1, 0);
      ItemRecovered(Word(targetVm), [contract, msg], 1, 1);
      LocatedLength(b, 64, msg);
      TargetRead(targetVm, Tuple([contract, msg], 1));
    }
  }

  lemma LocatedLength(b: Bytes, slot: nat, x: Bytes)
    requires Located(b, slot, x)
    ensures |b| >= slot + 32
  {
  }

  /** The calldata determines target, contract and message. */
  lemma CalldataDetermines(selector: Bytes, t: nat, c: Bytes, m: Bytes, u: nat, d: Bytes, n: Bytes)
    requires t <= 1 && u <= 1 && |Word(t) + Tuple([c, m], 1)| < Pow(256, 32)
    requires Calldata(selector, t, c, m) == Calldata(selector, u, d, n)
    ensures t == u && c == d && m == n
  {
    hide Word, Tuple, Pow, Located;
    var x, y := Word(t) + Tuple([c, m], 1), Word(u) + Tuple([d, n], 1);
    assert (selector + x)[|selector|..] == x && (selector + y)[|selector|..] == y;
    ItemRecovered(Word(t), [c, m], 1, 0);
    ItemRecovered(Word(t), [c, m], 1, 1);
    ItemRecovered(Word(u), [d, n], 1, 0);
    ItemRecovered(Word(u), [d, n], 1, 1);
    LocatedOnce(x, 32, c, d);
    LocatedOnce(x, 64, m, n);
    TargetRead(t, Tuple([c, m], 1));
    TargetRead(u, Tuple([d, n], 1));
  }

  lemma LocatedOnce(b: Bytes, slot: nat, x: Bytes, y: Bytes)
    requires Located(b, slot, x) && Located(b, slot, y)
    ensures x == y
  {
    hide Number;
  }

  lemma TargetRead(t: nat, rest: Bytes)
    requires t <= 1
    ensures WordAt(Word(t) + rest, 0) == t
  {
    hide Word, Number, WordAt, Pow;
    SmallFits();
    WordReads(t, [], rest);
    assert [] + Word(t) + rest == Word(t) + rest;
  }

  lemma SmallFits()
    ensures 1 < Pow(256, 32)
  {
    hide Pow;
    PowAtLeast(32);
  }

  lemma {:induction false} PowAtLeast(n: nat)
    requires n >= 1
    ensures Pow(256, n) >= 256
  {
    if n <= 1 {
    } else {
      PowAtLeast(n - 1);
    }
  }
}
