# Rollup Development Kit: a verified model

The Rollup Development Kit (RDK) is a client toolkit for a settlement chain. What is hard in it is the code that has to
match the chain byte for byte and rule for rule. This project models that code and proves what it is for:

| component | modules | main results |
|---|---|---|
| Bech32 addresses | `Bech32Checksum`, `BitRegroup`, `Bech32Codec`, `Bech32SeparatorTypo`, `Bech32Kelvin` | encoding and decoding undo each other; the checksum exists, is unique, and catches every change within six neighbouring symbols |
| Merkle withdrawals | `Merkle`, `MerklePromotion`, `Withdrawals` | completeness; soundness, for any index and depth, up to a collision that is exhibited; the exact failure of promoted odd nodes; a withdrawal from list to message |
| Binary encodings | `ProtoWire`, `ProtoMessage`, `Messages`, `TxEnvelope`, `Preimages`, `PreimageReaders`, `CrossVmAbi`, `WireBytes` | every encoder is inverted by a decoder written from the format's own definition; hashed and signed messages determine their fields, or exactly when they do not |
| Settlement receipts | `Receipts`, `ReceiptMeaning` | what each check, verdict and refusal means on the chain; builder and six-step verifier agree; a valid receipt is the rebuilt one; verifying is idempotent |
| Settlement | `ChallengeWindow`, `Settlement`, `HealthSearch` | what holds in every run; from which listings the bounded search is sure to equal a full scan |
| Exact arithmetic | `Decimal`, `CivilDate`, `Denominations`, `Economics` | the civil-date formula counts days; denominations are exact; the burn conserves stake; on which inputs exactly the bounded forms answer like the unbounded ones |
| Sign-bytes client | `SignBytesClient` | cache and single retry against a chain that upgrades underneath |

`Common` holds bytes, results and numerals. Go strings and byte slices are sequences of octets. A hash is always a
function parameter: nothing is assumed of it except, where stated, that its output has 32 octets; letter case is one too. A network is a value or
an object whose answers are arbitrary unless a statement restricts them. Loops of the source are loops here, proved equal
to a specification function; the laws are then proved of that function.

## Where the code does not do what a reader might expect

- The bounded search for the batch that holds a rollup back starts 4096 batches before the latest, because at most 4096
  can wait. Rejected batches do not wait but take up indices, so after rejections a waiting batch can lie outside the
  window. `HealthSearch.SearchMissesAfterRejections` is a reachable run. What a caller can go by is the listing itself:
  it settles the matter if and only if it starts at batch 0, shows a finalized batch, or shows 4095 waiting batches
  before the latest (`HealthSearch.ListingDecides`).
- `BatchTransitions` has no step from submitted to rejected, while `packages/go/transition.go:21-24` says that an upheld
  fraud rejects the later batches too. The step system has both: the table for single moves, the cascade for an upheld
  fraud. `Settlement.StepFollowsTable` and `Settlement.RunFollowsTable` say exactly when a move leaves the table, and
  `Settlement.CascadeLeavesTable` is a run with one.
- With `DuplicateOdd` off, a sibling path that passes an unpaired node is built but need not verify
  (`MerklePromotion.PromotionExact`); it does only if, wherever the verifier has the order wrong, the two halves are equal,
  or else a collision is found (`MerklePromotion.PromotedPathExact`).
- The wire decoder reads base64 text that is also hexadecimal as hexadecimal (`WireBytes.WireReadsBase64`,
  `WireBytes.WireMisreads`).
- The v1 anchor message and the v1 withdrawal leaf do not determine their fields (`Preimages.AnchorV1Ambiguous`,
  `Preimages.LeafV1Exact`). For an index below 2^56 and a non-empty recipient a v1 leaf always has a second reading, whose
  rollup id ends in a zero byte (`Preimages.LeafV1SecondReading`).
- The timestamp parser takes 31 February for a day in March (`CivilDate.OverlongMonthCarries`), a signed clock field such
  as "-1:00:00" for an hour of the day before (`CivilDate.NegativeHourAccepted`) and second 60 for the next minute.
  `CivilDate.ShowsWhatWasRead` says exactly when the result shows what was written.
- The reported deadline of a challenge window and what remains of it overflow separately
  (`ChallengeWindow.DeadlineExact`, `ChallengeWindow.WrongDeadlineRightRemainder`).
- The Rust conversions are not the Go ones with bounds: they take exponent 0 as 0 where Go takes it as 6
  (`Economics.ExponentZeroDiffers`), "5." for 5, which Go refuses (`Economics.TrailingDot`), and an empty burn rate for an
  error, where Go takes the default (`Economics.EmptyRate`).
- Without a client, the receipt verifier can set the signature check alone (`Receipts.SignatureCheckedAlone`); the passed
  checks are a prefix of the six exactly as `Receipts.ChecksArePrefix` says.
- Letter case is Unicode's: in an address in capitals the Kelvin sign stands for a K (`Bech32Kelvin.KelvinAccepted`).
- A typo in an address that types the separator moves the end of its prefix, and the checksum need not catch it
  (`Bech32SeparatorTypo.SeparatorTypoAccepted`).

## Model

| member | source | states |
|---|---|---|
| Bech32Checksum.Polymod | packages/go/bech32.go:26-39 | the two loops compute the left fold of the BCH step over the symbols |
| Bech32Checksum.StepLinear | packages/go/bech32.go:29-37 | a step of an xor is the xor of the steps, for all states and symbols |
| Bech32Checksum.StepInjective | packages/go/bech32.go:29-37 | a step never merges two 30-bit states: the generators' low bits are independent |
| Bech32Checksum.RunSplits | packages/go/bech32.go:26-39 | what the symbols contribute does not depend on the state they are fed to, for any length |
| Bech32Checksum.PackInjective | packages/go/bech32.go:26-39 | up to six symbols are determined by what they contribute |
| Bech32Checksum.BurstDetected | packages/go/bech32.go:26-39 | two different runs of at most six symbols in the same place never lead to the same state |
| Bech32Checksum.ChecksumVerifies | packages/go/bech32.go:53-66 | for symbols of any number the created checksum verifies |
| Bech32Checksum.ChecksumUnique | packages/go/bech32.go:53-66 | six symbols verify if and only if they are the created checksum |
| Bech32Checksum.BurstRejected | packages/go/bech32.go:64-66 | changing up to six neighbouring symbols of a verifying string, one included, never verifies |
| BitRegroup.ConvertBits | packages/go/bech32.go:69-94 | for all widths 1 to 8 the output is the input's value in the new base, scaled up or cut, and both errors occur exactly when a digit is too wide or the cut bits are too many or not zero |
| BitRegroup.ShiftIn | packages/go/bech32.go:79-80 | masking the accumulator never loses a pending bit |
| BitRegroup.BytesSurvive | packages/go/bech32.go:69-94 | 8 to 5 with padding, then 5 to 8 without, is the identity on all byte strings |
| BitRegroup.QuintetsSurvive | packages/go/bech32.go:69-94 | every 5-bit string accepted without padding is the regrouping of what it gives: the inverse bijection |
| Bech32Codec.HrpExpand | packages/go/bech32.go:41-51 | high bits, a zero, low bits of the prefix, all below 32 |
| Bech32Codec.CreateChecksum | packages/go/bech32.go:53-62 | the loop writes the checksum that ChecksumVerifies and ChecksumUnique are about |
| Bech32Codec.Encode | packages/go/bech32.go:98-114 | encoding never fails and gives the string of the round-trip laws |
| Bech32Codec.Decode | packages/go/bech32.go:118-147 | under any letter case mapping, mixed case, separator position, alphabet, checksum and padding are refused in this order, and only they |
| Bech32Codec.DecodeParts | packages/go/bech32.go:128-147 | the second half: the first bad character, then the checksum, then the regrouping |
| Bech32Codec.RoundTripExact | packages/go/bech32.go:98-147 | for every prefix, all data and any case mapping, decode(encode(hrp, data)) = (hrp, data) if and only if the prefix is non-empty and lower-casing leaves the string alone |
| Bech32Codec.DecodeOfEncode | packages/go/bech32.go:98-147 | for an ASCII prefix: if and only if it is non-empty and has no upper-case letter |
| Bech32Codec.EncodeOfDecode | packages/go/bech32.go:98-147 | every accepted string, ASCII or not, is in lower case the encoding of what it decodes to |
| Bech32Codec.CaseDecides | packages/go/bech32.go:118-124 | of two strings with one lower-case form, one of them accepted, the other is accepted as the same if and only if it is its own lower or upper case |
| Bech32Codec.MixedCaseExact | packages/go/bech32.go:118-128 | mixed case is reported exactly for a string that is neither its lower nor its upper case, a bad separator exactly when the rest has no split into a prefix and at least six characters |
| Bech32Codec.PartsRefused | packages/go/bech32.go:129-147 | a bad character is reported exactly when there is one, a bad checksum exactly when the last six are not the created ones, leftover bits only when no bytes regroup to the payload |
| Bech32Codec.CharsetIs | packages/go/bech32.go:12-24 | the alphabet is BIP-173's, character by character |
| Bech32Codec.TypoRejected | packages/go/bech32.go:118-147 | under any case mapping, two strings whose lower-case forms differ in up to six neighbouring characters after the prefix, checksum included, without a separator there, are never both accepted |
| Bech32Codec.PrefixTypoRejected | packages/go/bech32.go:118-147 | one data part is never accepted under two prefixes of up to six characters that lie, place by place, in the same block of 32, such as lower-case letters |
| Bech32Kelvin.KelvinAccepted | packages/go/bech32.go:118-124 | every address with a k is also accepted, as the same address, in capitals with U+212A for that K |
| Bech32Kelvin.KelvinIsAsciiCase | packages/go/bech32.go:118-124 | the case mapping used there treats ASCII text as usual |
| Bech32Kelvin.KelvinPrefix | packages/go/bech32.go:118-124 | under the prefix "k" every byte string has such a second, non-ASCII address |
| Bech32SeparatorTypo.SeparatorTypoAccepted | packages/go/bech32.go:118-147 | two accepted addresses that differ in six neighbouring characters, one of them a typed separator: why the exception |
| Merkle.HashLeaves | packages/go/merkle.go:62-72 | the leaf row under either setting of leaf hashing |
| Merkle.NextLevel | packages/go/merkle.go:89-101 | one level up: pairs hashed, an odd last node paired with itself or promoted |
| Merkle.BinaryMerkleRoot | packages/go/merkle.go:82-103 | the level loop computes the root, and the hash of nothing for no leaves |
| Merkle.RootIsTopNode | packages/go/merkle.go:82-103 | that root is the single top node of the tree defined from the top down, at the tree's height |
| Merkle.HeightIsLog | packages/go/merkle.go:82-103 | the number of levels is at most h if and only if there are at most 2^h leaves |
| Merkle.SmallTrees | packages/go/merkle.go:82-103 | the roots of no to four leaves, written out |
| Merkle.BinaryMerkleProof | packages/go/merkle.go:117-151 | refuses exactly the indices outside the leaves; otherwise the sibling path and the same root the root function gives, under every option |
| Merkle.VerifyBinaryMerkleProof | packages/go/merkle.go:155-171 | the verifier's loop, for any integer index, is the climb from the leaf compared with the root |
| Merkle.PathLeadsToRoot | packages/go/merkle.go:117-171 | the path built for a node leads from it to the root and has the tree's height |
| Merkle.Completeness | packages/go/merkle.go:82-171 | for all leaves and indices the built proof verifies with DuplicateOdd, or when the path meets no unpaired node |
| Merkle.ClimbsMeet | packages/go/merkle.go:155-171 | two climbs of one shape that end alike are the same, or show two different 64-byte inputs with one hash at the same height |
| Merkle.Soundness | packages/go/merkle.go:82-171 | a verifying 32-byte leaf and path of the tree's height are the genuine ones, or the two climbs exhibit a collision |
| Merkle.Path32 | packages/go/merkle.go:117-151 | over 32-byte leaves every sibling and the root have 32 bytes |
| Merkle.LastStep | packages/go/merkle.go:155-171 | what the verifier hashes last is the climb so far and the last sibling, in one order or the other |
| Merkle.SoundAtAnyDepth | packages/go/merkle.go:155-171 | for any index and any number of 32-byte siblings, what verifies against hashed leaves whose preimages are not 64 bytes is the preimage of a leaf, or a collision is exhibited between an input of the verifier and a leaf preimage or node input of the tree, root included and nothing above |
| MerklePromotion.PromotionExact | packages/go/merkle.go:117-171 | without DuplicateOdd the built path verifies for all hashes and leaves if and only if it never meets an unpaired node |
| MerklePromotion.MarkerMisplaced | packages/go/merkle.go:117-171 | under the identity as hash, every path past an unpaired node puts the leaf in the wrong place |
| MerklePromotion.LastNodeRoot | packages/go/merkle.go:82-151 | from the last node all siblings lie to the left, so the root holds the leaf behind all of them |
| MerklePromotion.LastNodeClimb | packages/go/merkle.go:82-151 | over any hash, the root of a promoting tree is the climb of its last node with every sibling to the left |
| MerklePromotion.FirstIsTwin | packages/go/merkle.go:117-171 | for such a path to verify without a collision the promoted node must equal the sibling it is first joined with |
| MerklePromotion.PromotedPathExact | packages/go/merkle.go:117-171 | for a 32-byte hash and leaves, a built path verifies if, wherever the verifier takes a promoted node for a left child, it equals its sibling, and only then, unless verifier and tree show a collision at the same height |
| Withdrawals.NewWithdrawalsTree | packages/go/withdrawal.go:107-134 | succeeds exactly on a non-empty list with a known version and, for v2, a chain id; which error otherwise; root and leaves of the chain's tree |
| Withdrawals.LeavesCommit | packages/go/withdrawal.go:115-131 | leaf i is the hash of the preimage of its version over rollup, index and the withdrawal's own fields, under v2 also the chain |
| Withdrawals.BuildMessage | packages/go/merkle.go:191-219 | exists exactly for indices of the tree; the amount is reinterpreted as signed, the path is the tree's |
| Withdrawals.WithdrawalErrors | packages/go/rules.go:58-85 | every reason of refusal, in order, one per bad level |
| Withdrawals.NoErrors | packages/go/rules.go:58-85 | no reason is reported if and only if addresses, id, denomination, amount, depth and sibling sizes are all acceptable |
| Withdrawals.ErrorsExact | packages/go/rules.go:58-85 | an error is reported if and only if what it claims is true of the message, each once and in order |
| Withdrawals.PathIsShort | packages/go/rules.go:58-85 | a path for at most 2^64 withdrawals has depth ceil(log2 n), at most 64, and 32-byte siblings |
| Withdrawals.PrechecksExact | packages/go/withdrawal.go:100-134 | the assembled message passes the pre-checks if and only if the caller's own addresses, id and denomination do and the amount is in 1..2^63-1: larger amounts are refused, never changed |
| Withdrawals.MessageProves | packages/go/withdrawal.go:100-134 | the message's own fields hash to the leaf its path proves against the batch's root, for every list and index |
| Withdrawals.OnlyTheCommittedWithdrawal | packages/go/withdrawal.go:48-64 | under v2, whatever proves itself against a batch's root, at any index and with any number of 32-byte siblings, claims the withdrawal committed at its index on the committed chain, or verifier and tree hash two different inputs to one value |
| ProtoWire.ReadsVarint | packages/go/protowire.go:20-24 | the base-128 decoder of at most ten octets returns every 64-bit value and its length, whatever follows |
| ProtoWire.ReadsFields | packages/go/protowire.go:20-118 | a field list is recovered from its bytes |
| ProtoWire.ContentsFit | packages/go/protowire.go:41-62 | a field's contents are no longer than the encoding that holds them |
| ProtoWire.TwosComplement | packages/go/protowire.go:88-96 | the signed and unsigned readings differ by a multiple of 2^64 and undo each other |
| ProtoWire.ProtoWriter.WriteVarint | packages/go/protowire.go:20-24 | the buffer grows by the varint and nothing else |
| ProtoWire.ProtoWriter.WriteTag | packages/go/protowire.go:26-28 | the buffer grows by field number times eight plus wire type, as a varint |
| ProtoWire.ProtoWriter.WriteRawBytes | packages/go/protowire.go:41-62 | a length-delimited field is written even when empty |
| ProtoWire.ProtoWriter.WriteBytes | packages/go/protowire.go:31-55 | an empty value writes nothing |
| ProtoWire.ProtoWriter.WriteRepeatedBytes | packages/go/protowire.go:65-71 | one field per element, empty elements included |
| ProtoWire.ProtoWriter.WriteRawUint64 | packages/go/protowire.go:83-86 | a varint field is written even when zero |
| ProtoWire.ProtoWriter.WriteUint64 | packages/go/protowire.go:74-80 | zero writes nothing |
| ProtoWire.ProtoWriter.WriteInt64 | packages/go/protowire.go:90-96 | negative values are written in two's complement, zero not at all |
| ProtoWire.ProtoWriter.WriteBool | packages/go/protowire.go:99-105 | false writes nothing |
| ProtoMessage.MessageRoundTrip | packages/go/protowire.go:20-118 | decoding returns every slot, elided defaults, negative numbers and empty repeated elements included |
| ProtoMessage.SlotFits | packages/go/protowire.go:20-118 | no bytes slot or repeated element is longer than the message |
| Messages.Marshal | packages/go/messages.go:35-184 | each of the eight messages is written as the fields its round trip is about, in ascending order |
| Messages.MarshalSubmitBatch | packages/go/messages.go:60-72 | the nine fields of a batch submission |
| Messages.MarshalExecuteWithdrawal | packages/go/messages.go:173-184 | the eight fields of a withdrawal, siblings repeated |
| Messages.MarshalRoundTrip | packages/go/messages.go:35-184 | decoding a marshalled message returns it, so distinct messages of a kind have distinct bytes |
| Messages.FlagOctets | packages/go/messages.go:103-110 | an upheld challenge alone is the octets 32 and 1, a dismissed one nothing |
| TxEnvelope.EncodeAny | packages/go/tx.go:32-37 | type URL and value, both always present |
| TxEnvelope.EncodeTxBody | packages/go/tx.go:40-48 | the loop writes one wrapped message per message, then the memo |
| TxEnvelope.EncodeModeInfoSingle | packages/go/tx.go:58-64 | the signing mode, nested and never elided |
| TxEnvelope.EncodeSignerInfo | packages/go/tx.go:51-75 | key, mode and sequence of the one signer |
| TxEnvelope.EncodeCoin | packages/go/tx.go:78-83 | denomination and amount |
| TxEnvelope.EncodeFee | packages/go/tx.go:86-93 | one field per coin, then the gas limit |
| TxEnvelope.EncodeAuthInfo | packages/go/tx.go:96-101 | signer and fee |
| TxEnvelope.EncodeSignDoc | packages/go/tx.go:105-112 | body and auth info always, chain id and account unless default |
| TxEnvelope.EncodeTxRaw | packages/go/tx.go:116-122 | body, auth info and every signature |
| TxEnvelope.SignDocBytes | packages/go/tx.go:125-129 | the composition signed for a transaction |
| TxEnvelope.KindFound | packages/go/messages.go:4-15 | a chain that knows the package prefix and the eight message names reads each kind from its type URL |
| TxEnvelope.AnyRoundTrip | packages/go/tx.go:32-37 | a wrapped message is recovered with its kind, read from the literal type URL |
| TxEnvelope.SignerRoundTrip | packages/go/tx.go:51-75 | a decoder that insists on the secp256k1 type URL and signing mode 1 recovers key and sequence |
| TxEnvelope.SignDocRoundTrip | packages/go/tx.go:40-129 | messages, memo, fee, key, sequence, chain id and account are all recovered from the sign bytes |
| TxEnvelope.SignDocInjective | packages/go/tx.go:125-129 | two transactions with the same sign bytes are the same transaction |
| TxEnvelope.TxRawRoundTrip | packages/go/tx.go:116-122 | body, auth info and all signatures are recovered |
| Preimages.AnchorSignBytesV1 | packages/go/receipts.go:198-209 | from hexadecimal arguments, invalid ones as empty, the buffer ends as the message AnchorV1Exact is about |
| Preimages.AnchorSignBytesV2 | packages/go/receipts.go:230-256 | from hexadecimal arguments, invalid ones as empty, the buffer ends as the message AnchorV2Exact is about |
| Preimages.AnchorV2Exact | packages/go/receipts.go:230-256 | two argument lists share a v2 message if and only if they agree in all seven arguments, hexadecimal up to prefix, letter case and invalid-as-empty |
| Preimages.AnchorV1Exact | packages/go/receipts.go:198-209 | argument lists that share a v1 message agree, hexadecimal in the same sense, if and only if both hashes have equal lengths |
| Preimages.BadHexIsEmpty | packages/go/receipts.go:196-256 | for every anchor, the state root "zz" gives the message of an empty one, in both forms |
| Preimages.AnchorV1Ambiguous | packages/go/receipts.go:198-209 | for every anchor a byte can move between the two hashes without changing the v1 message |
| Preimages.TransitionV2Injective | packages/go/transition.go:68-84 | the v2 transition preimage determines all six fields |
| Preimages.TransitionV1Exact | packages/go/transition.go:60-62 | equal v1 preimages have equal counts and mean equal hashes if and only if the previous roots have equal lengths |
| Preimages.RootBinds | packages/go/transition.go:60-95 | one root for two inputs, under whichever versions, means the same version and the same committed fields, or two preimages with one hash (v1 with 32-byte hashes) |
| Preimages.LeafV2Injective | packages/go/withdrawal.go:51-64 | the v2 leaf preimage determines the chain id and all five fields |
| Preimages.DomainsSeparated | packages/go/withdrawal.go:55-56 | no v2 leaf preimage is a v2 transition preimage, whatever the lengths |
| Preimages.LeafV1Injective | packages/go/withdrawal.go:34-46 | the v1 leaf preimage determines all fields among leaves without zero bytes in their texts |
| Preimages.LeafV1Exact | packages/go/withdrawal.go:34-46 | a v1 preimage belongs to a second withdrawal if and only if a text field has a zero byte, or the index has one at a depth the recipient is longer than |
| Preimages.LeafV1SecondReading | packages/go/withdrawal.go:34-46 | every v1 leaf with an index below 2^56 and a recipient has a second reading, whose rollup id ends in a zero byte |
| PreimageReaders.LeafV2Reads | packages/go/withdrawal.go:51-64 | a reader that takes the tag, chain id, rollup id, index, recipient, denomination and amount, each where the previous one ends, recovers all of them |
| PreimageReaders.LeafV1Reads | packages/go/withdrawal.go:34-46 | rollup id, zero, index, recipient, zero, denomination, zero and amount stand where their lengths put them |
| PreimageReaders.TransitionV2Reads | packages/go/transition.go:75-83 | the same for tag, chain id, rollup id, previous root, data hash, count and withdrawals root |
| PreimageReaders.TransitionV1Reads | packages/go/transition.go:60-62 | previous root, data hash and count stand where their lengths put them |
| PreimageReaders.AnchorV2Reads | packages/go/receipts.go:230-256 | the same for domain, chain id, layer, height, state root, validators, count and proof |
| PreimageReaders.AnchorV1Reads | packages/go/receipts.go:198-209 | layer, height, state root and validators stand where their lengths put them |
| PreimageReaders.RootIsHashed | packages/go/transition.go:60-95 | a root is the hash of its version's preimage, and a v2 root names both ids |
| WireBytes.HexRoundTrip | packages/go/utils.go:15-30 | reading the hexadecimal text of any bytes returns them |
| WireBytes.HexReadsExactly | packages/go/utils.go:15-30 | a text is read as b if and only if, without prefix and in lower case, it is the hexadecimal of b |
| WireBytes.SameHex | packages/go/utils.go:22-30 | two texts stand for the same bytes, errors ignored, if and only if their normal forms are equal |
| WireBytes.PrefixPassedOver | packages/go/utils.go:22-30 | "0x" or "0X" in front of the hexadecimal of b is passed over |
| WireBytes.HexAlphabet | packages/go/utils.go:15-30 | the digits written are 0-9 and a-f, and A-F are read alike |
| WireBytes.Base64CharExact | packages/rust/src/tx/client.rs:679 | the 64 characters and the padding of RFC 4648 |
| WireBytes.Base64Encode | packages/rust/src/tx/client.rs:678-700 | the chunk loop writes the text of the round trip |
| WireBytes.Base64RoundTrip | packages/rust/src/tx/client.rs:678-700 | the decoder of section 4 of RFC 4648 inverts the encoder on all byte strings |
| WireBytes.WireReadsHex | packages/go/utils.go:46-56 | unprefixed hexadecimal of any bytes is read as those bytes |
| WireBytes.WireReadsBase64 | packages/go/utils.go:46-56 | base64 of b is read as b if and only if b is empty or the text has a non-hexadecimal character, which a length not divisible by 3 ensures |
| WireBytes.WireMisreads | packages/go/utils.go:46-56 | three octets whose base64 text is read as two others |
| WireBytes.WireCases | packages/go/utils.go:46-56 | the marker tests are redundant: a text is hexadecimal if it has an even number of hexadecimal digits and nothing else, and base64 otherwise |
| WireBytes.HexWireExact | packages/go/utils.go:61-70 | the normalised text is the hexadecimal of what is read, and empty where nothing is |
| CrossVmAbi.U256Be | packages/ts/src/crossvm/index.ts:68-76 | the downward loop writes the number's 32 base-256 digits |
| CrossVmAbi.ReadWord | packages/ts/src/crossvm/index.ts:262-266 | the loop reads the number a word stands for |
| CrossVmAbi.EncodeDynamicTuple | packages/ts/src/crossvm/index.ts:105-117 | offset words, then length and padded contents of every item |
| CrossVmAbi.ItemRecovered | packages/ts/src/crossvm/index.ts:105-117 | for any items and any number of leading words each item is found from its offset and length words |
| CrossVmAbi.DecodeResult | packages/ts/src/crossvm/index.ts:274-285 | on arbitrary bytes: an error, or the in-range slice the first word points to |
| CrossVmAbi.DecodesWhatIsLocated | packages/ts/src/crossvm/index.ts:274-285 | an item is decoded if and only if it is located at the first word: none is missed and none invented |
| CrossVmAbi.RevertIsResult | packages/ts/src/crossvm/index.ts:292-301 | a revert has a reason if and only if its body decodes as a result, and it is the text of that |
| CrossVmAbi.ResponseRoundTrip | packages/ts/src/crossvm/index.ts:274-301 | decoding inverts the one-item encoding, for results and, under any text decoding, for revert reasons |
| CrossVmAbi.EncodeCalldata | packages/ts/src/crossvm/index.ts:141-154 | the calldata CalldataReads is about, for the Native lane unless another is named |
| CrossVmAbi.CalldataReads | packages/ts/src/crossvm/index.ts:141-154 | calldata exists for targets 0 and 1 only; behind the selector the target stands in the first word, the contract is located from the second and the message from the third |
| CrossVmAbi.CalldataDetermines | packages/ts/src/crossvm/index.ts:141-154 | calldata determines target, contract and message |
| Receipts.BuildSettlementReceipt | packages/go/receipts.go:283-326 | the receipt of the first anchor that covers the batch's root, or which of seven reads or conditions failed |
| Receipts.FindMatch | packages/go/receipts.go:499-508 | the first anchor with the receipt's root, height and signature |
| Receipts.VerifyOffline | packages/go/receipts.go:423-450 | without a client: only the signature check, tried in both forms, never a valid verdict |
| Receipts.VerifySettlementReceipt | packages/go/receipts.go:412-572 | the verdict is the number of leading steps that pass, the reason of the next, the matched anchor and the rebuilt receipt |
| ReceiptMeaning.ChecksMean | packages/go/receipts.go:412-572 | each check is set if and only if those before it are and the chain bears out its own: layer, root, first named anchor repeated, creator and key, chain, signature over the message in force |
| ReceiptMeaning.ValidExact | packages/go/receipts.go:412-572 | a receipt is valid if and only if the chain bears out all it stands for, the signature check included, over the v1 message below the v2 height and the v2 message from it on |
| ReceiptMeaning.RebuiltIs | packages/go/receipts.go:546-571 | the reported anchor, form and rebuilt receipt are those of that anchor, field by field |
| ReceiptMeaning.ReasonIsTrue | packages/go/receipts.go:412-572 | the reason given is true of receipt and chain, and there is one unless the receipt is valid |
| ReceiptMeaning.OfflineExact | packages/go/receipts.go:423-450 | without a client the signature check is set, and said to be valid, if and only if the key accepts the receipt's own fields in the v2 form for its chain or in the v1 form |
| ReceiptMeaning.BuiltExact | packages/go/receipts.go:283-326 | a receipt is built if and only if it is that of the first anchor that commits the batch's root, field by field |
| ReceiptMeaning.BuildErrorIsTrue | packages/go/receipts.go:283-326 | each refusal to build is true of the chain |
| ReceiptMeaning.BuiltValidExact | packages/go/receipts.go:283-572 | a built receipt is valid if and only if the chain is named and the creator's registered key accepts the anchor, over the v1 message below the v2 height and the v2 message from it on |
| Receipts.ChecksArePrefix | packages/go/receipts.go:412-572 | with or without a client, the passed checks are a prefix of the six if and only if there is a client, or the receipt is refused unread, or no key is passed, or the key does not accept the receipt's own fields |
| Receipts.SignatureCheckedAlone | packages/go/receipts.go:423-450 | a receipt, key and signature check for which, without a client, only the last of the six is set |
| Receipts.ValidMeansAllSix | packages/go/receipts.go:412-572 | with a client, valid means all six, and a verdict past the third check names an anchor with the receipt's root, height and signature |
| Receipts.NeverValidOffline | packages/go/receipts.go:412-572 | no run without a client is valid, whatever key is passed |
| Receipts.ValidIsRebuilt | packages/go/receipts.go:412-572 | a valid version-2 receipt equals the one rebuilt from chain state, up to the letter case of the state proof |
| Receipts.RebuiltVerifiesAgain | packages/go/receipts.go:412-572 | the rebuilt receipt of a valid one verifies again with the very same verdict if and only if the client names its chain |
| Receipts.OneReceiptPerAnchor | packages/go/receipts.go:412-572 | two valid version-2 receipts for one anchor of one batch are the same, up to that letter case |
| Receipts.BuiltVerifies | packages/go/receipts.go:283-572 | a built receipt verifies on its snapshot if and only if the chain is named and the creator's registered key accepts the anchor in the form in force at its height |
| Receipts.V2Binds | packages/go/receipts.go:356-378 | two anchors on two chains share a v2 message if and only if the chains and all signed fields are the same, up to how hexadecimal is written |
| Receipts.V1DoesNotBind | packages/go/receipts.go:356-378 | a v1 signature counts alike on every chain, with any count and any state proof |
| Receipts.ValidFromV2Height | packages/go/receipts.go:546-549 | a valid receipt for an anchor from the v2 height on has a key-accepted message that no other chain and no other signed fields share |
| ChallengeWindow.WindowMeaning | packages/go/challenge_window.go:41-66 | despite 64-bit wrap-around, open and finalizable mean what exact integers say, for every window |
| ChallengeWindow.TableIsMoves | packages/go/lifecycle.go:53-63 | a submitted batch can be finalized or challenged, a challenged one rejected or finalized, and settled ones are exactly those without a move |
| ChallengeWindow.DeadlineExact | packages/go/challenge_window.go:41-66 | the deadline is exact if and only if it is an int64, the remaining count if and only if the distance from the tip is one, and when exactly its sign tells open from closed |
| ChallengeWindow.WrongDeadlineRightRemainder | packages/go/challenge_window.go:46-52 | a batch whose deadline is reported wrong and whose remaining seconds are right |
| ChallengeWindow.BothOnlyAtDeadline | packages/go/challenge_window.go:21-24 | open and finalizable hold together only in block mode at exactly the deadline height; one of them always holds |
| ChallengeWindow.WindowMonotone | packages/go/challenge_window.go:41-66 | as the tip advances a closed window stays closed and a finalizable batch stays finalizable |
| Settlement.RunsAreGood | packages/go/transition.go:20-25 | in every run no finalized batch has an unsettled earlier one, at most 4096 batches wait, and fewer than 4096 waiting ones precede any batch |
| Settlement.FinalIsPermanent | packages/go/lifecycle.go:53-63 | in every run a settled batch never changes again |
| Settlement.AtMostTwoMoves | packages/go/lifecycle.go:53-58 | in every run no batch changes status more than twice |
| Settlement.StepFollowsTable | packages/go/lifecycle.go:53-58 | a step moves a batch along the table if and only if it is not a submitted batch behind the one whose fraud is upheld |
| Settlement.RunFollowsTable | packages/go/transition.go:20-25 | in every run a move leaves the table if and only if it is from submitted to rejected, and then an earlier batch goes from challenged to rejected at that moment |
| Settlement.CascadeLeavesTable | packages/go/transition.go:20-25 | a run whose second batch makes that move |
| Settlement.WindowsNeverReopen | packages/go/challenge_window.go:41-66 | along every run windows never reopen and finalizable never reverts |
| Settlement.WindowsAreRespected | packages/go/challenge_window.go:21-24 | in every run a batch is challenged only up to its deadline, finalized unchallenged only from it on, and finalized only when all earlier ones are final |
| Settlement.UnsettledIsRecent | packages/go/rules.go:136-139 | in every run without rejections each unsettled batch is among the last 4096 |
| HealthSearch.ListBatchesFrom | packages/go/client.go:501-516 | all pages up to the first empty or last one, at most 100000 of them, or failure if one read fails |
| HealthSearch.ListingFollowsChain | packages/go/client.go:501-516 | against any node, the listing is the pages along the chain of next indices, up to an empty or last one or the bound, and fails exactly if one cannot be read |
| HealthSearch.WindowSize | packages/go/health.go:61-66 | the search looks at the latest batch and the 4096 before it, or at everything |
| HealthSearch.HonestPages | packages/go/client.go:500-516 | a node with full pages of 100 yields every batch from the start on, in no more pages than that takes |
| HealthSearch.OldestUnsettledBefore | packages/go/health.go:58-80 | the waiting batch of least index among those listed from the window on, or none if none waits |
| HealthSearch.WaitingIsUnsettled | packages/go/health.go:72 | the search waits for exactly the earlier batches that the transition table does not call final |
| HealthSearch.OldestHoldsBack | packages/go/health.go:58-80 | the waiting batch of least index in a full listing is the first batch that is not final before the latest |
| HealthSearch.ListingDecides | packages/go/health.go:58-80 | the search is exact in every run that shows a listing if and only if the listing starts at batch 0, shows a finalized batch, or shows 4095 waiting ones before the latest; any other is also shown by a run in which batch 0 still waits |
| HealthSearch.TellingIsExact | packages/go/health.go:58-80 | in every good state with such a listing, rejections or not, the search answers what a full scan would |
| HealthSearch.RunTo | packages/go/lifecycle.go:53-58 | every list of batches without a finalized one that respects the bound at each submission is reached by a run |
| HealthSearch.SearchIsExact | packages/go/health.go:58-80 | in every run without rejections the windowed search has exactly the full scan's answer, in at most 41 pages |
| HealthSearch.SearchMissesAfterRejections | packages/go/health.go:58-80 | a reachable run in which batch 0 still waits and the search reports nothing |
| CivilDate.FormulaCountsDays | packages/rust/src/challenge_window.rs:119-126 | the formula equals counting Gregorian years and months, for every year, negative ones included |
| CivilDate.ConsecutiveDays | packages/rust/src/challenge_window.rs:119-127 | the next calendar day has the next number |
| CivilDate.StrictlyIncreasing | packages/rust/src/challenge_window.rs:119-127 | of two real dates one is earlier if and only if its number is smaller |
| CivilDate.DayByDay | packages/rust/src/challenge_window.rs:119-127 | a real date has number n if and only if it is n steps of the calendar after 1 January 1970 |
| CivilDate.ReadsTimestamp | packages/rust/src/challenge_window.rs:100-128 | every text of the node's format (section 5.6 of RFC 3339, UTC), whatever its digits, is read as day count and clock time, fraction dropped, if and only if its fields are within the guards, and refused otherwise |
| CivilDate.ShowsWhatWasRead | packages/rust/src/challenge_window.rs:100-128 | for every text read, the result shows the six numbers written if and only if the date is real, no clock field is negative and the second is below 60 |
| CivilDate.LiesInNamedDay | packages/rust/src/challenge_window.rs:100-128 | for every text read, the result lies in the named day if and only if the clock comes to a second of the day; without signs that fails for 23:59:60 only |
| CivilDate.NegativeHourAccepted | packages/rust/src/challenge_window.rs:110-127 | hours -1 to -24 of any day are accepted and lie in the day before |
| CivilDate.OverlongMonthCarries | packages/rust/src/challenge_window.rs:116-118 | a day past its month's end is accepted and read as a day of the next month |
| CivilDate.ParsesExactly | packages/rust/src/challenge_window.rs:104-115 | a number is digits with at most one sign in front, within an i64 |
| CivilDate.ExtraPiecesIgnored | packages/rust/src/challenge_window.rs:103-115 | whatever follows a third separator is ignored |
| CivilDate.NeedsMarks | packages/rust/src/challenge_window.rs:101-102 | a text without Z at the end or without T is refused |
| Denominations.QorToUqorExact | packages/go/utils.go:117-140 | the result is the canonical text of exactly the amount written, for digit strings of any length, and which error otherwise |
| Denominations.QorTextParts | packages/go/utils.go:146-169 | the display text has no superfluous zeros and stands for exactly the value |
| Denominations.DecimalPartsExact | packages/go/utils.go:121-130 | an amount has whole and fractional digits if and only if it is digits, or digits, a dot and digits |
| Denominations.TrimSpaceExact | packages/go/utils.go:121 | trimming takes white space off both ends, all of it and nothing else |
| Denominations.AsciiSpaces | packages/go/utils.go:121 | which ASCII characters are white space |
| Denominations.ExponentDefault | packages/go/utils.go:118-120 | an exponent of zero or less stands for six, in both directions |
| Denominations.BaseRoundTrip | packages/go/utils.go:117-169 | base to display to base gives the amount's canonical text |
| Denominations.DisplayRoundTrip | packages/go/utils.go:117-169 | display to base to display returns every canonical amount as written |
| Economics.BurnExact | packages/go/utils.go:175-198 | the burn is the exact floor of stake times rate, within the stake if and only if the product is below one more unit, in particular for rates up to 1 |
| Economics.RateExact | packages/go/utils.go:175-195 | a rate with parts w and f is (w 10^k + f) / 10^k for k fractional digits |
| Economics.BurnIsFloor | packages/go/utils.go:175-198 | the burn is the floor of the stake times that fraction |
| Economics.DefaultBurn | packages/go/utils.go:229-231 | without a rate one hundredth of the stake is burned |
| Economics.CostConserves | packages/go/utils.go:220-244 | burn plus remaining stake, as printed, is the stake, for every rate; the rest is negative exactly when the burn exceeds it |
| Economics.PartsAgree | packages/rust/src/utils/economics.rs:39-50 | the Rust split accepts what the Go pattern accepts, with the same parts, and besides only an empty fraction after the dot |
| Economics.BoundedCostAgrees | packages/rust/src/utils/economics.rs:81-95 | on every stake and every rate, absent or empty ones included, the u128 estimate agrees with Go's if and only if both refuse, or the rate is not empty, does not end in a dot, no value leaves 128 bits and the burn stays within the stake |
| Economics.EmptyRate | packages/rust/src/utils/economics.rs:39-50 | the empty rate is refused by the Rust form and the default in Go |
| Economics.BoundedQorToUqor | packages/rust/src/utils/denom.rs:33-61 | the padding loop gives the text of exactly the base units, for every exponent |
| Economics.BoundedUnitsAgree | packages/rust/src/utils/denom.rs:33-61 | on every text and exponent it answers like Go if and only if no dot ends the text and the exponent is at least 1, or is 0 with more than six fractional digits or with a whole amount of 0, or neither accepts |
| Economics.TrailingDot | packages/rust/src/utils/denom.rs:35-41 | "5." is 5000000 base units in Rust and refused in Go |
| Economics.BoundedDisplayAgrees | packages/rust/src/utils/denom.rs:68-86 | on every text and exponent the u128 display text agrees with Go's if and only if both refuse, or the amount fits 128 bits and the exponent is 1 to 38, or 0 for an amount of 0 |
| Economics.ExponentZeroDiffers | packages/rust/src/utils/denom.rs:33-86 | at exponent 0, 5 stays 5 in Rust in both directions and is scaled by 10^6 in Go |
| SignBytesClient.FormMonotone | packages/rust/src/tx/client.rs:372-385 | a chain's form only moves from v1 to v2 |
| SignBytesClient.Client.Resolve | packages/rust/src/tx/client.rs:350-387 | forced modes and new chains never query; an answer younger than the cache time is used; otherwise the form at an instant during the queries, cached; a failed query changes nothing |
| SignBytesClient.Client.Broadcast | packages/rust/src/tx/client.rs:474-496 | which form the first post is signed in; a second post if and only if Auto's first was refused, the refusal arrived and the form could be asked again, signed in that form; forced modes query nothing; accepted whenever the form stands still |
| SignBytesClient.FormBetween | packages/rust/src/tx/client.rs:486-495 | a second post can only miss the chain's form if the upgrade happened in between |
| SignBytesClient.CachedV2NeverStale | packages/rust/src/tx/client.rs:361-371 | a cached v2 is the chain's form at any later time |

## Left out

- SHAKE-256, SHA-256, ML-DSA-87, secp256k1 and the QoreChain SDK's hybrid builder: foreign code, here parameters.
- The SDK's `is_legacy_sign_bytes_chain` and `sign_bytes_version_for` are not part of this repository; the model takes a chain's form to be v2 when it is not a legacy chain or one of the upgrades is applied.
- Go's Unicode case tables and the TextDecoder of a revert reason: foreign code, here parameters.
- BitRegroup.ConvertBits: the accumulator is an unbounded integer behind the source's mask; for widths up to 8 it stays below 2^23, so the source's 32 bits never overflow.
- WireBytes.WireReadsBase64: the decoder does not skip line breaks as Go's does; no text of the encoder has one.
- CrossVmAbi.ReadWord: numbers are exact; JavaScript's rounding above 2^53 is not modelled, and any such offset or length is out of range either way.
- CivilDate.ShowsWhatWasRead: a text whose arithmetic leaves the i64 range is reported as such; the wrapped value of a build without overflow checks is not modelled.
- Economics.BoundedCostAgrees: overflow is an error of its own, as in a build with overflow checks; the wrapped values of an unchecked build are not modelled.
- Withdrawals.NewWithdrawalsTree: lists longer than 2^64, which no Go slice can hold, are excluded.
- SignBytesClient.Client.Broadcast: one broadcast at a time; the mutex, the account sequence and the classical path without a hybrid key are left out; how long an answer is cached is the SDK's constant, here a parameter.
- Receipts.VerifySettlementReceipt: error texts are enumerated reasons, and a client is a snapshot that does not change during a call.
- The chain's keeper is not part of the repository; the step system has only the rules this code states.
- `resolveMerkleOptions` and other defaulting of absent options: one reading settles them.
- `RollupIDError`, `DataHashError`, `WithdrawalsRootError`, `StopRollupError`, `RollupActionFrom`, `TransitionRootVersionFor`, `FraudProof` and the notes of `GetRollupHealth`: single conditions that would only add easy members.
- HTTP and JSON clients, view mappers, presets, manifests, CLIs, templates, watch loops, and the TypeScript and Rust mirrors of the Go algorithms: input and output, finite tables, or the same algorithms again.
