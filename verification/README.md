# TON client codecs, dictionaries and rate limiter: a Dafny verification

This project models the parts of a TON blockchain client library where bits meet meaning, and the limiter that paces its
requests, and proves what they promise:

* **Cells** hold at most 1023 bits and 4 references. `Builder` appends to one, `Slice` reads from one; both are classes
  whose view is a `Chunk`, a run of bits and references.
* **Snake chains** spread a byte string over cells. The recursive reader and the iterative one are the same function, and
  any way of splitting a byte string reads back.
* **Dictionaries** (`HashmapE n ^Cell`) are Patricia trees with three label forms. Building and parsing are inverse, the
  label chosen is the least of all accepted spellings, every key is found along its bits, and a tree re-encodes to itself
  exactly when it is canonical.
* **TL-B codecs** form an algebra: self-delimiting codecs compose, one tail codec may come last, and both round trips
  (value to cell to value, cell to value to cell) follow for every message built from them: addresses, `VarUInteger`, the
  jetton and NFT payloads, and the block records. The modules `Wires`, `PayloadWires` and `BlockWires` say which bits and
  references each of them is, without its codec.
* **The ABI codec** writes typed values into message bodies and onto the TVM stack. A value comes back in a normal form
  that is described exactly for each of the two targets; encoded bodies are prefix-free, fit a cell exactly when their
  summed widths do, and re-encode to the same cell exactly when they are canonical. Which values encode is said in numbers
  alone (`AbiEncodable`), and which slices and entries decode to which values as a relation on bits (`AbiWires`,
  `StackWires`).
* **The rate limiter** is a token bucket in saturating integer arithmetic, refined to unbounded arithmetic, and a step
  system of waiters that share it: a rate bound over every run, a lower bound on service, exact waiting times, and exactly
  which limits limit.
* **Text**: the ABI type grammar against its label printer and against its spellings, the schema tokenizer against a
  declarative description of tokens and against counted brackets, string escaping, and TEP-64 metadata from the content
  cell to the typed slot.

Code that the source runs step by step (builders, slices, loops, the bucket, the metadata record) is imperative here too:
each such method is proved equal to a function of its inputs, and the theorems are about those functions. Pure code is
functions and lemmas. `dafny verify dfyconfig.toml` checks everything.

## Where the code and its promises part

* An address carries two flags for its text form. Cells do not hold them, so every decoded address has the default
  flags; `NormalMsgAddress` says so, and two addresses encode alike exactly when they agree otherwise.
* `store_var_big_uint` writes a 64-bit length prefix, `load_var_uint` refuses one. `VarUint.LoadsBackIff` gives the exact
  condition.
* `NestedAbsenceCollapsesOnlyOnTheStack`: an optional inside an optional is lost on the stack, never in a body.
* The dictionary reader ignores what follows the reference in a leaf, so decoding is not injective
  (`DecodingForgetsLeafPadding`); `ReencodedDict` says exactly which cells survive.
* Above one request per nanosecond the limiter stops limiting unless the rate is a whole number of requests per
  nanosecond: `RateRuns.BoundedIffLimiting`.
* A refill caps the tokens but keeps the fraction of a token that has accrued, so a window that opens after a rest can see
  one grant more than burst plus rate (`RateWindows.OneMoreThanTheRate`). At a rate that neither divides a billion nor is
  a multiple of it, the mark is rounded down at each refill, so attempts at the deadlines outrun the rate from every
  state. `KeepsRateIff` says, for every rate and state, exactly when no window exceeds burst plus rate; `ServedInWindow`
  bounds every window, with a nanosecond for each refill.
* `ValueFlow`, the unsplit `ShardState` and `ShardStateUnsplit` are written with whatever tag their payload has. They
  decode back exactly when it is the right one (`ValueFlowDecodesBackIff`, `ShardStateDecodesBackIff`,
  `UnsplitDecodesBackIff`).
* From a key width of 1012 bits on, a dictionary can have a root label too wide for its cell: `Dictionary.AllStoredIff`,
  `Dictionary.OneKeyTooWide`.
* The codecs look at a parameter's type and never at its `optional` flag (src/abi/codec.rs:221-258).

## Model

| member | source | states |
|---|---|---|
| Bits.SignedRoundTrip | src/tvm/builder.rs:172-175 | two's complement of any width gives back every integer in range |
| Bits.LexLessIsNumeric | src/tvm/dict/hashmap.rs:12-16 | bit keys of one width compare as the numbers they spell |
| Cells.Builder.StoreBits | src/tvm/cell/cell.rs:566-600 | appends exactly the bits, or fails exactly when they do not fit and changes nothing |
| Cells.Builder.StoreUint | src/tvm/cell/cell.rs:654-687 | stores a number exactly when it is below 2^width and the width fits, most significant bit first |
| Cells.Builder.StoreInt | src/tvm/cell/cell.rs:689-718 | stores a signed number exactly when it is in two's-complement range and the width fits, width zero included |
| Cells.Builder.StoreRef | src/tvm/cell/cell.rs:726-735 | appends one reference, or fails exactly at four |
| Cells.Builder.StoreCell | src/tvm/builder.rs:203-217 | splices in all bits and references of a cell, in order, or fails exactly when they do not fit |
| Cells.Slice.LoadBits | src/tvm/slice.rs:69-90 | takes exactly the next bits and leaves the rest, or fails and stays |
| Cells.Slice.LoadInt | src/tvm/slice.rs:170-185 | reads two's complement, including the zero width |
| Cells.Slice.LoadRef | src/tvm/slice.rs:188-201 | takes the next reference and leaves the bits alone |
| Snake.StoreSnakeBytes | src/tvm/builder.rs:326-346 | fills the current cell with whole bytes and continues in a referenced cell; succeeds exactly when its first cell fits |
| Snake.ReadSnakeCellInto | src/abi/model.rs:709-745 | the recursive reader appends exactly the payload of the chain, or reports the same misalignment or reference count |
| Snake.FlattenSnakeSlice | src/metadata.rs:285-309 | the iterative reader equals the recursive function on every cell tree, from any position, and terminates |
| Snake.SnakeRoundTrip | src/abi/model.rs:689-707 | what was written reads back, however much room the first cell had |
| Snake.AnySplitReads | src/metadata.rs:285-309 | a byte-aligned chain reads back as its payload however it was split |
| Snake.ReadableIsChain | src/metadata.rs:285-309 | and only such chains are readable |
| Snake.ReencodedSnake | src/tvm/builder.rs:326-346 | a readable chain re-encodes to itself exactly when every cell but the last is full and the last is not an empty continuation |
| SortedMap.InsertAscending | src/tvm/dict/hashmap.rs:155-164 | insertion keeps the keys strictly ascending |
| SortedMap.AscendingUnique | src/tvm/dict/hashmap.rs:201-203 | iteration order is determined by the entries alone |
| Labels.ComputeLabelLenWidth | src/tvm/dict/labels.rs:443-451 | the shifting loop computes the width of a length field |
| Labels.ReadUnary | src/tvm/dict/labels.rs:418-430 | the loop reads a unary length and stops past the limit |
| Labels.LabelRoundTrip | src/tvm/dict/labels.rs:335-416 | the chosen label form reads back to the same bits, whatever follows |
| Labels.CanonicalLabelIsShortest | src/tvm/dict/labels.rs:376-387 | no accepted spelling of a label is shorter than the one written |
| Dictionary.BuildSucceeds | src/tvm/dict/hashmap.rs:761-812 | ascending keys of up to 1011 bits always build |
| Dictionary.AllStoredIff | src/tvm/dict/hashmap.rs:553-569 | every valid dictionary can be stored exactly up to a key width of 1011 bits |
| Dictionary.StoreDictAt1012Iff | src/tvm/dict/hashmap.rs:553-569 | at 1012 bits a dictionary is stored exactly when it has several keys or one whose bits are all equal |
| Dictionary.OneKeyTooWide | src/tvm/dict/hashmap.rs:553-569 | at every width above 1011 bits a dictionary of one key that cannot be stored |
| Dictionary.LeavesOfBuilt | src/tvm/dict/hashmap.rs:761-812 | the leaves of a built tree are the entries, in order |
| Dictionary.ParseLists | src/tvm/dict/labels.rs:3-53 | parsing with insertion lists the leaves in order, and never meets a duplicate key |
| Dictionary.LeavesAscend | src/tvm/dict/labels.rs:3-53 | the keys of every accepted tree are strictly ascending, of full width, under the given prefix |
| Dictionary.ReencodedEdge | src/tvm/dict/hashmap.rs:761-812 | an accepted tree rebuilds to itself exactly when labels are canonical and leaves and forks hold nothing else |
| Dictionary.DictRoundTrip | src/tvm/dict/hashmap.rs:553-569 | a stored dictionary loads back and leaves exactly what follows it |
| Dictionary.LoadedDictIsValid | src/tvm/dict/hashmap.rs:625-638 | every accepted dictionary has distinct keys of full width in ascending order |
| Dictionary.ReencodedDict | src/tvm/dict/hashmap.rs:553-638 | re-encoding gives the same bits and reference exactly when they were canonical |
| Dictionary.DecodingForgetsLeafPadding | src/tvm/dict/labels.rs:17-22 | two different cells that decode to one dictionary |
| TlbCore.CellRoundTrip | src/tlb/core.rs:95-115 | exact decoding undoes encoding, up to the normal form, for every tail codec |
| TlbCore.CellLossless | src/tlb/core.rs:95-115 | encoding undoes exact decoding on every accepted cell |
| TlbCore.CellTrailing | src/tlb/core.rs:228-237 | a self-delimiting value with anything after it is rejected with exactly the extra counts |
| TlbCore.RawCodecLaws | src/tlb/core.rs:337-370 | the raw codec reads back at the end of a cell and loses nothing |
| TlbCore.RawCodecIsNotSelfDelimiting | src/tlb/core.rs:344-357 | but it takes what follows for its own |
| TlbCore.RefCodecLaws | src/tlb/core.rs:514-526 | behind a reference even a tail codec becomes self-delimiting |
| TlbCore.MaybeCodecLaws | src/tlb/core.rs:240-260 | `Maybe` keeps all laws of its item |
| TlbCore.EitherCodecLaws | src/tlb/core.rs:263-291 | `Either` of two tail codecs is a tail codec and loses nothing |
| TlbCore.PairSelfDelimiting | src/tlb/core.rs:90-107 | self-delimiting codecs compose |
| TlbCore.PairTail | src/tlb/core.rs:90-115 | one tail codec may come last |
| TlbCore.PairLossless | src/tlb/core.rs:90-115 | a sequence of lossless codecs is lossless |
| TlbLaws.TailRoundTrips | src/tlb/core.rs:95-115 | both exact round trips, for all values and all cells, from the codec laws |
| VarUint.StoreVarUint | src/tvm/builder.rs:245-272 | writes the byte count and the shortest bytes, or fails exactly when the count or the room is too small |
| VarUint.LoadVarUint | src/tlb/core.rs:538-561 | accepts exactly the canonical encodings and leaves what follows |
| VarUint.VarUintRange | src/tvm/builder.rs:245-272 | exactly the numbers below 256^(2^n - 1) can be stored under an n-bit prefix |
| VarUint.LengthGuardNeverFires | src/tlb/core.rs:538-571 | the length check of the loader can never fail |
| VarUint.VarUintCodecLaws | src/tlb/core.rs:529-561 | stored numbers load back, and accepted encodings are what would be stored, for every prefix below 64 bits |
| VarUint.VarUintUnique | src/tlb/core.rs:538-561 | two accepted encodings of one number are the same bits |
| VarUint.LoadsBackIff | src/tlb/core.rs:563-571 | a stored number loads back exactly when the prefix is narrower than 64 bits |
| Addresses.StoreTag | src/tlb/core.rs:168-186 | the loop writes exactly the tag bits of a well-formed tag, or fails |
| Addresses.ExpectTag | src/tlb/core.rs:189-225 | the loop consumes exactly the expected tag, or fails at the first character that is no bit, at the first bit that differs, or where the bits run out, and reports which |
| AddressMethods.StoreMsgAddress | src/tlb/message/address.rs:227-234 | writes exactly the layout of any of the four address forms, or fails exactly when it has none or does not fit |
| AddressMethods.LoadMsgAddress | src/tlb/message/address.rs:236-275 | the two-bit dispatch and the reads of each form, in order |
| AddressMethods.StoreMsgAddressInt | src/tlb/message/address.rs:98-129 | the same for internal addresses alone |
| AddressMethods.LoadMsgAddressInt | src/tlb/message/address.rs:131-163 | the same for internal addresses alone |
| Addresses.MsgAddressCodecLaws | src/tlb/message/address.rs:98-275 | addresses are self-delimiting, lossless, and come back without their text flags |
| Addresses.EncodeAlikeIff | src/tlb/message/address.rs:98-275 | two addresses encode alike exactly when they differ in nothing but the text flags |
| Payloads.JettonTransferLaws | src/jetton/payload.rs:75-102 | both exact round trips hold for the whole message, and every other operation code is refused |
| Payloads.JettonTransferRoundTrip | src/jetton/payload.rs:75-102 | every message that encodes decodes to itself, addresses without their text flags |
| Payloads.JettonBurnLaws | src/jetton/payload.rs:133-154 | both exact round trips hold for the whole message, and every other operation code is refused |
| Payloads.JettonBurnRoundTrip | src/jetton/payload.rs:133-154 | every message that encodes decodes to itself, addresses without their text flags |
| Payloads.JettonInternalTransferLaws | src/jetton/payload.rs:199-228 | both exact round trips hold for the whole message, and every other operation code is refused |
| Payloads.JettonInternalTransferRoundTrip | src/jetton/payload.rs:199-228 | every message that encodes decodes to itself, addresses without their text flags |
| Payloads.NftTransferLaws | src/nft/payload.rs:68-93 | both exact round trips hold for the whole message, and every other operation code is refused |
| Payloads.NftTransferRoundTrip | src/nft/payload.rs:68-93 | every message that encodes decodes to itself, addresses without their text flags |
| Payloads.NftOwnershipAssignedLaws | src/nft/payload.rs:117-140 | both exact round trips hold for the whole message, and every other operation code is refused |
| Payloads.NftOwnershipAssignedRoundTrip | src/nft/payload.rs:117-140 | every message that encodes decodes to itself, addresses without their text flags |
| Payloads.NftReportStaticDataLaws | src/nft/payload.rs:166-189 | both exact round trips hold for the whole message, and every other operation code is refused |
| Payloads.NftReportStaticDataRoundTrip | src/nft/payload.rs:166-189 | every message that encodes decodes to itself, addresses without their text flags |
| Payloads.NftReportRoyaltyParamsLaws | src/nft/payload.rs:215-240 | both exact round trips hold for the whole message, and every other operation code is refused |
| Payloads.NftReportRoyaltyParamsRoundTrip | src/nft/payload.rs:215-240 | every message that encodes decodes to itself, addresses without their text flags |
| PayloadMethods.StoreJettonTransfer | src/jetton/payload.rs:75-87 | the writes, in order, append exactly the codec's layout, or fail exactly when it has none or does not fit |
| PayloadMethods.LoadJettonTransfer | src/jetton/payload.rs:89-102 | the reads, in order, yield exactly what the codec loads and leave what follows |
| PayloadMethods.StoreJettonBurn | src/jetton/payload.rs:133-142 | the writes, in order, append exactly the codec's layout, or fail exactly when it has none or does not fit |
| PayloadMethods.LoadJettonBurn | src/jetton/payload.rs:144-154 | the reads, in order, yield exactly what the codec loads and leave what follows |
| PayloadMethods.StoreJettonInternalTransfer | src/jetton/payload.rs:199-210 | the writes, in order, append exactly the codec's layout, or fail exactly when it has none or does not fit |
| PayloadMethods.LoadJettonInternalTransfer | src/jetton/payload.rs:212-228 | the reads, in order, yield exactly what the codec loads and leave what follows |
| PayloadMethods.StoreNftTransfer | src/nft/payload.rs:68-79 | the writes, in order, append exactly the codec's layout, or fail exactly when it has none or does not fit |
| PayloadMethods.LoadNftTransfer | src/nft/payload.rs:81-93 | the reads, in order, yield exactly what the codec loads and leave what follows |
| PayloadMethods.StoreNftOwnershipAssigned | src/nft/payload.rs:117-125 | the writes, in order, append exactly the codec's layout, or fail exactly when it has none or does not fit |
| PayloadMethods.LoadNftOwnershipAssigned | src/nft/payload.rs:127-140 | the reads, in order, yield exactly what the codec loads and leave what follows |
| PayloadMethods.StoreNftReportStaticData | src/nft/payload.rs:166-174 | the writes, in order, append exactly the codec's layout, or fail exactly when it has none or does not fit |
| PayloadMethods.LoadNftReportStaticData | src/nft/payload.rs:176-189 | the reads, in order, yield exactly what the codec loads and leave what follows |
| PayloadMethods.StoreNftReportRoyaltyParams | src/nft/payload.rs:215-224 | the writes, in order, append exactly the codec's layout, or fail exactly when it has none or does not fit |
| PayloadMethods.LoadNftReportRoyaltyParams | src/nft/payload.rs:226-240 | the reads, in order, yield exactly what the codec loads and leave what follows |
| Payloads.OtherKindIsRefused | src/jetton/payload.rs:278-287 | a message encoded under one operation code is malformed to the decoder of every other |
| Payloads.KindsSeparate | src/jetton/payload.rs:278-287 | no message of any of the seven kinds is accepted as a message of another, all pairs stated |
| PayloadSizes.JettonTransferEncodesIff | src/jetton/payload.rs:75-87 | encoding succeeds exactly when each field can be written and the summed widths and references fit, for addresses of every form |
| PayloadSizes.JettonBurnEncodesIff | src/jetton/payload.rs:133-142 | encoding succeeds exactly when each field can be written and the summed widths and references fit, for addresses of every form |
| PayloadSizes.JettonInternalTransferEncodesIff | src/jetton/payload.rs:199-210 | encoding succeeds exactly when each field can be written and the summed widths and references fit, for addresses of every form |
| PayloadSizes.NftTransferEncodesIff | src/nft/payload.rs:68-79 | encoding succeeds exactly when each field can be written and the summed widths and references fit, for addresses of every form |
| PayloadSizes.NftOwnershipAssignedEncodesIff | src/nft/payload.rs:117-125 | encoding succeeds exactly when each field can be written and the summed widths and references fit, for addresses of every form |
| PayloadSizes.NftReportStaticDataEncodesIff | src/nft/payload.rs:166-174 | encoding succeeds exactly when each field can be written and the summed widths and references fit, for addresses of every form |
| PayloadSizes.NftReportRoyaltyParamsEncodesIff | src/nft/payload.rs:215-224 | encoding succeeds exactly when each field can be written and the summed widths and references fit, for addresses of every form |
| PayloadSizes.StandardTransferEncodesIff | src/jetton/payload.rs:75-87 | between standard addresses a transfer with a referenced forward payload always encodes, one with an inline payload exactly when it fits in the room left |
| PayloadSizes.AddressMeasures | src/tlb/message/address.rs:98-234 | which addresses can be written, and the width of each form |
| PayloadMethods.StoreForwardPayload | src/tlb/core.rs:263-278 | the branch bit, then the payload inline or behind a reference |
| PayloadMethods.LoadForwardPayload | src/tlb/core.rs:281-291 | the branch bit, then the rest of the slice or an exactly consumed reference |
| PayloadMethods.LoadRest | src/tlb/core.rs:344-357 | the loop copies whatever is left of a slice into a cell of its own |
| PayloadMethods.StoreRemaining | src/tlb/block.rs:664-674 | moves all remaining bits and references to the end of a builder, or fails exactly when they do not fit |
| BlockCodecs.BlockRecordsAreFaithful | src/tlb/block.rs:31-217 | shard identifiers, block references, block identifiers, blocks, hash updates and configuration parameters are self-delimiting, lossless and come back unchanged |
| BlockCodecs.BlockRecordsRoundTrip | src/tlb/block.rs:31-479 | both exact round trips, stated for each of the six records |
| BlockCodecs.FaithfulRoundTrips | src/tlb/core.rs:95-115 | a codec that is self-delimiting, lossless and normalises nothing is its own exact inverse |
| BlockCodecs.OnlyIsFaithful | src/tlb/block.rs:31-63 | a bound checked on both sides, such as sixty prefix bits, costs no law |
| BlockCodecs.RawRemaindersAreLossless | src/tlb/block.rs:272-379 | every cell accepted as a value flow or a shard state re-encodes to itself, the re-tagged unsplit state included |
| BlockCodecs.UnsplitIsLossless | src/tlb/block.rs:319-338 | every cell accepted as an unsplit shard state type re-encodes to itself |
| BlockCodecs.UnsplitDecodesBackIff | src/tlb/block.rs:319-338 | and it decodes back exactly when its cell has the unsplit tag, split states being refused |
| BlockCodecs.RawBodyRoundTrips | src/tlb/block.rs:148-261 | block info, predecessor info and the two kinds of extra data are raw cells: both exact round trips, with no failing case |
| BlockCodecs.ValueFlowDecodesBackIff | src/tlb/block.rs:272-296 | a value flow decodes back exactly when its payload has the tag of its constructor |
| BlockCodecs.ShardStateDecodesBackIff | src/tlb/block.rs:340-379 | a split state always decodes back, an unsplit one exactly when its payload has the unsplit tag |
| BlockCodecs.LoadShardState | src/tlb/block.rs:356-379 | takes the tag off, puts it back in front of the rest, and equals the loader |
| AbiMethods.StoreBodyValue | src/abi/codec.rs:260-350 | the recursive writer leaves exactly the contents, or exactly the error, of the specification |
| AbiMethods.StoreBodyInt | src/abi/codec.rs:266-275 | width, range and room are checked in this order, with the error of each |
| AbiMethods.StoreBodyUint | src/abi/codec.rs:276-285 | the same for unsigned integers |
| AbiMethods.StoreBodyOptional | src/abi/codec.rs:319-334 | the presence bit, then the value when there is one |
| AbiMethods.StoreBodyMap | src/abi/codec.rs:336-343 | the dictionary cell behind a reference |
| AbiMethods.LoadBodyValue | src/abi/codec.rs:361-457 | the recursive reader yields exactly the value, remainder or error of the specification |
| AbiMethods.StoreEach | src/abi/codec.rs:221-239 | the loop over parameters or tuple fields stops at the first error |
| AbiMethods.LoadEach | src/abi/codec.rs:241-258 | the same for reading |
| AbiMethods.EncodeMapCell | src/abi/map.rs:7-45 | the insertion loop and the dictionary cell equal the specification, duplicate keys included |
| AbiMethods.DecodeMapCell | src/abi/map.rs:47-78 | the loop over the dictionary equals the specification |
| AbiLayout.StoreBodyIsLayout | src/abi/codec.rs:260-350 | storing succeeds exactly when the value has a layout that fits, and then appends it |
| AbiLayout.EncodeEntriesIsInsertAll | src/abi/map.rs:7-45 | inserting one by one succeeds exactly when all keys are new and distinct, and the error names a duplicate key |
| AbiLayout.EncodeMapIsLayout | src/abi/map.rs:7-45 | a map encodes exactly when its entries encode and its keys differ, to one cell |
| AbiLayout.LayoutSize | src/abi/codec.rs:260-350 | the recursively summed width and reference count are those of the layout |
| AbiLayout.CapacityIff | src/abi/codec.rs:221-239 | encoding succeeds exactly when each value encodes on its own and the sums stay within 1023 bits and 4 references |
| AbiRoundTrip.BodyReads | src/abi/codec.rs:260-457 | for every type and value: the encoded value followed by anything decodes to its normal form and leaves exactly that remainder; the normal form encodes alike |
| AbiRoundTrip.FieldsRead | src/abi/codec.rs:221-258 | the same for parameter lists and tuples |
| AbiRoundTrip.MapReads | src/abi/map.rs:7-103 | an encoded map decodes to its entries in key order with normal values |
| AbiRoundTrip.EncodeAlikeIffSameNormal | src/abi/codec.rs:260-457 | two values encode alike exactly when their normal forms are equal |
| AbiRoundTrip.NormalIsIdempotent | src/abi/codec.rs:260-457 | a second round trip changes nothing |
| AbiRoundTrip.BodiesArePrefixFree | src/abi/codec.rs:361-457 | no encoding of a type continues another into the same bits |
| AbiMaps.KeyOrder | src/abi/map.rs:129-176 | key order is numeric for unsigned keys, and non-negatives before negatives for signed ones |
| AbiMaps.DuplicateKeyIff | src/abi/map.rs:7-45 | when each entry encodes, encoding fails exactly when two keys are equal numbers, with the duplicate-key error |
| AbiMaps.MapOrderIrrelevant | src/abi/map.rs:7-45 | any order of the entries gives the same cell |
| AbiMaps.NormalEntriesAreSorted | src/abi/map.rs:47-78 | decoding yields a permutation of the entries in ascending key order |
| AbiMaps.UnchangedIffNormal | src/abi/codec.rs:260-457 | a value comes back unchanged exactly when its maps are in key order and its addresses have default flags, at every depth |
| AbiReencode.ReencodedBody | src/abi/codec.rs:260-457 | a decoded body re-encodes to the same bits and references exactly when it was canonical, and decodes to a normal form |
| AbiReencode.ReencodedMap | src/abi/map.rs:7-103 | the same for a map cell |
| AbiReencode.FixedLayoutIsCanonical | src/abi/codec.rs:361-457 | bodies of integers, booleans, addresses, cells, slices, tuples and optionals are always canonical |
| AbiReencode.RangeCheckNeverFires | src/abi/model.rs:664-687 | the range checks after a load never fail |
| AbiMessages.MessageRoundTrip | src/abi/codec.rs:58-84 | every encoded message body decodes to its values in normal form |
| AbiMessages.EventRoundTrip | src/abi/codec.rs:121-148 | every encoded event payload decodes to its values in normal form |
| AbiMessages.MessageTrailing | src/abi/codec.rs:241-258 | a body with anything appended is rejected as trailing data with exactly the appended counts |
| AbiMessages.EventTrailing | src/abi/codec.rs:241-258 | the same for events |
| AbiMessages.OpcodesSeparate | src/abi/codec.rs:207-219 | a body encoded under one opcode is rejected under every other, naming both |
| AbiMessages.EventOpcodesSeparate | src/abi/codec.rs:207-219 | the same for events |
| AbiMessages.MessageCapacityIff | src/abi/codec.rs:58-84 | a message encodes exactly when its values do and selector plus widths fit |
| AbiMessages.MessageReencodes | src/abi/codec.rs:58-84 | an accepted body always re-encodes, and to the same cell exactly when it was canonical |
| AbiMessages.FixedMessageIsLossless | src/abi/codec.rs:58-84 | for signatures of fixed-layout types decode then encode is the identity |
| AbiMethods.EncodeBody | src/abi/codec.rs:178-239 | selector, then parameters, then the built cell, with the errors of the specification |
| AbiMethods.DecodeBody | src/abi/codec.rs:178-258 | selector check, parameters, exact consumption, with the errors of the specification |
| AbiMethods.RunEncodeMessageBody | src/abi/codec.rs:58-73 | the entry point equals the specification, the function-kind checks included |
| AbiMethods.RunDecodeMessageBody | src/abi/codec.rs:75-84 | the entry point equals the specification, the function-kind checks included |
| AbiStack.StackRoundTrip | src/abi/model.rs:243-445 | every encoded stack entry decodes to the value with chains of presence ending in absence collapsed, maps in key order, list values body-normal |
| AbiStack.StackAlikeIffSameNormal | src/abi/model.rs:243-445 | two values give the same entry exactly when their stack-normal forms are equal |
| AbiStack.StackUnchangedIffNormal | src/abi/model.rs:243-445 | a value comes back unchanged exactly when it is in stack-normal form |
| AbiStack.NestedAbsenceCollapsesOnlyOnTheStack | src/abi/model.rs:243-445 | present absence becomes absence on the stack and stays itself in a body |
| AbiStack.GetMethodRoundTrip | src/abi/codec.rs:9-50 | get-method arguments decode back as results of the same types |
| AbiStack.ReencodedEntry | src/abi/model.rs:243-445 | every accepted entry re-encodes, to the same entry exactly when its byte chains and dictionaries were canonical, and decodes to a normal form |
| AbiStack.FixedEntryIsLossless | src/abi/model.rs:322-445 | entries accepted for types without maps, bytes or strings re-encode to themselves |
| RateLimit.WithBurst | src/liteclient/rate_limit.rs:20-28 | exactly the limits with positive rate and burst are accepted, and a zero rate is reported before a zero burst |
| RateLimit.TokenBucket.constructor | src/liteclient/rate_limit.rs:76-82 | a full bucket marked at the given time |
| RateLimit.TokenBucket.Refill | src/liteclient/rate_limit.rs:96-108 | no saturation and no clipping takes effect for any duration and any 32-bit limit: the result is that of unbounded arithmetic |
| RateLimit.TokenBucket.WaitDuration | src/liteclient/rate_limit.rs:110-115 | the same for the wait |
| RateLimit.TokenBucket.AcquireAt | src/liteclient/rate_limit.rs:84-94 | one attempt: refill, then a token or a wait |
| RateLimit.RefillBounds | src/liteclient/rate_limit.rs:96-108 | the mark never passes the present, and a refill loses less than a nanosecond |
| RateLimit.GrantedIff | src/liteclient/rate_limit.rs:84-115 | an attempt is granted exactly when a token is left or the deadline has come, and otherwise waits exactly for the deadline |
| RateLimit.WaitIsExact | src/liteclient/rate_limit.rs:84-115 | after a refusal every earlier attempt is refused with the same deadline, and the first at or after it is granted |
| RateRuns.RateBound | src/liteclient/rate_limit.rs:84-108 | over every sequence of attempts up to time t: burst plus rate, with one nanosecond of slack per refill, and none at exact rates |
| RateRuns.BoundedIffLimiting | src/liteclient/rate_limit.rs:96-108 | grants are bounded exactly when the rate is at most one per nanosecond or a whole number per nanosecond |
| RateRuns.StepKeepsInvariant | src/liteclient/rate_limit.rs:53-65 | every step of arriving, ticking and attempting keeps the accounting and the deadlines |
| RateRuns.ReachableInvariant | src/liteclient/rate_limit.rs:53-65 | so every reachable system satisfies them |
| RateRuns.ServedWithinRate | src/liteclient/rate_limit.rs:53-65 | however the waiters interleave, no more are served by time t than the rate allows |
| RateRuns.FirstAtDeadlineIsServed | src/liteclient/rate_limit.rs:53-65 | at the deadline every unserved waiter may attempt and the first to do so is served; before it each sleeps until exactly then |
| RateWindows.ServedInWindow | src/liteclient/rate_limit.rs:53-108 | between any two states of any run the further grants stay below burst plus one plus rate, with a nanosecond of slack per refill and none at exact rates |
| RateWindows.KeepsRateIff | src/liteclient/rate_limit.rs:84-108 | for every rate and state: no window exceeds burst plus rate exactly when the rate is exact and a refill now would not fill the bucket or would bring its mark to the present |
| RateWindows.RoundingBreaksRate | src/liteclient/rate_limit.rs:96-115 | at every inexact rate, from every state, attempts at the deadlines exceed burst plus rate |
| RateWindows.OneMoreThanTheRate | src/liteclient/rate_limit.rs:96-108 | a window that sees one grant more than burst plus rate |
| Text.TrimOf | src/abi/json.rs:321-321 | trimming takes trailing blanks off a trimmed text and nothing else |
| TypeStrings.ParseLabel | src/cli/abi.rs:346-382 | parsing a printed label gives the type back exactly when the type is valid and within the grammar; every other label is refused |
| TypeStrings.ParsedIsValid | src/abi/json.rs:320-363 | every accepted spelling stands for a valid type |
| TypeStrings.PrintThenParse | src/abi/json.rs:320-363 | printing what was parsed and parsing it again changes nothing, whatever the first spelling |
| TypeStrings.LabelsAreDistinct | src/cli/abi.rs:346-382 | no other type shares the label of a valid type of the grammar |
| SchemaTokens.SplitTopLevelWs | src/tlb/schema.rs:193-225 | the loop with its three counters equals the scan |
| SchemaTokens.InputIsWoven | src/tlb/schema.rs:193-225 | every input, balanced or not, is its tokens with only blanks around them; tokens have no blank at an end and none outside brackets |
| SchemaTokens.TokensOfWoven | src/tlb/schema.rs:193-225 | and any such tokens, however spaced, are found again, so the two together determine the result |
| SchemaTokens.TokenizeAgain | src/tlb/schema.rs:193-225 | tokens joined by single spaces are found again |
| SchemaTokens.EscapeIsPerChar | src/tlb/schema.rs:227-229 | the two passes escape each character on its own |
| SchemaTokens.UnescapeEscape | src/tlb/schema.rs:227-229 | escaping can be undone, so it is injective |
| Metadata.ReadChunks | src/metadata.rs:258-275 | the loop over the chunk dictionary equals the specification |
| Metadata.FlattenSnakeCell | src/metadata.rs:277-283 | an empty cell is nothing, any other is read as a chain |
| Metadata.ChunkedRoundTrip | src/metadata.rs:204-275 | a value of chunks, spread over cells in any way, reads back as those chunks in ascending order of index and as their bytes joined in that order |
| Metadata.ChunksAscend | src/metadata.rs:248-275 | in everything accepted the indices are 32-bit and strictly ascending |
| Metadata.MetadataFields.FieldSlot | src/jetton.rs:142-214 | a value fills its slot, or is reported once |
| Metadata.MetadataFields.ApplyField | src/jetton.rs:97-140 | one field goes to its slot, the unknown list or the diagnostics |
| Metadata.MetadataFields.FromFields | src/jetton.rs:62-95 | the loop over the fields equals the specification |
| Metadata.AllConserved | src/nft/types.rs:63-140 | for distinct keys each field ends up in exactly one place and the three counts add up |
| Metadata.ContentIsConserved | src/metadata.rs:147-202 | the same for every content cell accepted as on-chain, with no further condition |
| Metadata.BothStandardsConserve | src/nft/types.rs:63-140 | in particular for the typed fields of jettons and of NFTs |
| Metadata.SlotsIgnoreOrder | src/jetton.rs:97-140 | the order of the fields does not matter: the same slots, and permutations of the same unknown and diagnostics lists |
| SnakeRefusals.RefusedIff | src/metadata.rs:285-309 | a chain is refused exactly when a cell down the chain is misaligned or has more than one reference, with that cell's count |
| LabelForms.LabelReadsIff | src/tvm/dict/labels.rs:342-374 | a label is accepted exactly when it fits the rest of the key and is spelled as zero, unary length, zero, bits; or one, zero, length, bits; or one, one, bit, length |
| LabelForms.WrittenLabelIsLeast | src/tvm/dict/labels.rs:376-387 | the written label comes before every other accepted spelling of the same bits: shorter, or as long and lexicographically smaller |
| LabelForms.FindIsGet | src/tvm/dict/labels.rs:3-53 | below any accepted edge the entry of a key is the one its bits lead to: along the label, left for a zero, right for a one |
| LabelForms.DictFinds | src/tvm/dict/hashmap.rs:625-638 | a presence bit of zero is the empty dictionary; after a one every key has the value its bits lead to from the root |
| LabelForms.WrittenDictFinds | src/tvm/dict/hashmap.rs:553-569 | the same for a dictionary as it is written |
| LabelForms.GetOfInsert | src/tvm/dict/hashmap.rs:155-164 | insertion changes the value of its key and of no other |
| Wires.BitOf | src/tvm/cell/cell.rs:654-687 | the bit at place i of a number in w bits weighs 2^(w - 1 - i) |
| Wires.BytesInBits | src/tvm/cell/cell.rs:566-600 | the bits of a byte string are its big-endian value in binary |
| Wires.VarUintIsWritten | src/tvm/builder.rs:245-272 | a `VarUInteger` is its byte count in the prefix and the number in that many bytes, when the count fits |
| Wires.AddressIsWritten | src/tlb/message/address.rs:98-234 | each of the four address forms is written bit for bit as in block.tlb: tag, anycast, workchain before hash, or lengths before bits |
| Wires.AddressReadsIff | src/tlb/message/address.rs:131-275 | an address is read exactly from the bits that spell it |
| PayloadWires.JettonTransferCell | src/jetton/payload.rs:75-102 | the message encodes as, and decodes exactly from, the cell with these bits and references and no other: the literal operation code, the query id and each field in its place |
| PayloadWires.JettonBurnCell | src/jetton/payload.rs:133-154 | the message encodes as, and decodes exactly from, the cell with these bits and references and no other: the literal operation code, the query id and each field in its place |
| PayloadWires.JettonInternalTransferCell | src/jetton/payload.rs:199-228 | the message encodes as, and decodes exactly from, the cell with these bits and references and no other: the literal operation code, the query id and each field in its place |
| PayloadWires.NftTransferCell | src/nft/payload.rs:68-93 | the message encodes as, and decodes exactly from, the cell with these bits and references and no other: the literal operation code, the query id and each field in its place |
| PayloadWires.NftOwnershipAssignedCell | src/nft/payload.rs:117-140 | the message encodes as, and decodes exactly from, the cell with these bits and references and no other: the literal operation code, the query id and each field in its place |
| PayloadWires.NftReportStaticDataCell | src/nft/payload.rs:166-189 | the message encodes as, and decodes exactly from, the cell with these bits and references and no other: the literal operation code, the query id and each field in its place |
| PayloadWires.NftReportRoyaltyParamsCell | src/nft/payload.rs:215-240 | the message encodes as, and decodes exactly from, the cell with these bits and references and no other: the literal operation code, the query id and each field in its place |
| BlockWires.ShardIdentCell | src/tlb/block.rs:31-62 | the record encodes as, and decodes exactly from, the cell with these bits and references and no other, constructor tag and field order literal |
| BlockWires.ExtBlkRefCell | src/tlb/block.rs:78-97 | the record encodes as, and decodes exactly from, the cell with these bits and references and no other, constructor tag and field order literal |
| BlockWires.BlockIdExtCell | src/tlb/block.rs:112-131 | the record encodes as, and decodes exactly from, the cell with these bits and references and no other, constructor tag and field order literal |
| BlockWires.BlockCell | src/tlb/block.rs:194-217 | the record encodes as, and decodes exactly from, the cell with these bits and references and no other, constructor tag and field order literal |
| BlockWires.HashUpdateCell | src/tlb/block.rs:444-460 | the record encodes as, and decodes exactly from, the cell with these bits and references and no other, constructor tag and field order literal |
| BlockWires.ConfigParamsCell | src/tlb/block.rs:463-479 | the record encodes as, and decodes exactly from, the cell with these bits and references and no other, constructor tag and field order literal |
| BlockWires.ValueFlowCell | src/tlb/block.rs:272-292 | a cell is a value flow of the version its first 32 bits name, and keeps all its contents |
| BlockWires.ShardStateCell | src/tlb/block.rs:340-376 | an unsplit state is a whole cell that starts with its 32 bits; a split one is its own 32 bits and two references |
| Utf8Scalars.ValidIff | src/abi/model.rs:368-379 | bytes are accepted as text exactly when they encode Unicode scalar values one after the other |
| AbiEncodable.LayoutIffEncodable | src/abi/codec.rs:260-350 | a value has a layout exactly when widths, ranges, arities, keys and the room of each map value allow it, said in numbers alone |
| AbiEncodable.StoresIff | src/abi/codec.rs:260-350 | storing succeeds exactly for those values, as long as width and references still fit |
| AbiEncodable.FieldsStoreIff | src/abi/codec.rs:221-239 | a list of values is stored exactly when each is such a value and the sums stay within 1023 bits and 4 references |
| AbiEncodable.MapEncodesIff | src/abi/map.rs:7-176 | a map encodes exactly with integer keys of a width from 1 to 257, a stated width absent or equal, keys in range and distinct, and values that fit a cell each |
| AbiWires.LoadsIff | src/abi/codec.rs:361-457 | for every type, slice, value and remainder: the loader yields them exactly when the slice is the literal wire form of the value in front of the remainder |
| AbiWires.MapDecodesIff | src/abi/map.rs:47-103 | a cell decodes as a map exactly when it is a dictionary with the key bits and value cells of the entries, in order |
| AbiWires.WritesSpelled | src/abi/codec.rs:260-350 | what is stored for a value is a wire form of its normal form |
| StackWires.DecodesIff | src/abi/model.rs:322-445 | an entry decodes to a value exactly when it stands for it: numbers as they are, true as -1 and false as 0, absence as null, tuples and lists item by item |
| StackWires.StackEncodesIff | src/abi/model.rs:243-315 | exactly which values have an entry, in numbers alone |
| StackWires.EncodedIsShown | src/abi/model.rs:243-315 | the entry made for a value stands for its normal form |
| AbiEntryPoints.MessageEncodesIff | src/abi/codec.rs:58-165 | a message encodes exactly for internal and external functions with an opcode or no selector and encodable values that fit; otherwise the selector error |
| AbiEntryPoints.MessageDecodesIff | src/abi/codec.rs:75-165 | a cell decodes as a message exactly for those functions, when it is the 32 bits of the opcode and the values |
| AbiEntryPoints.EventEncodesIff | src/abi/codec.rs:121-194 | the same for events, with an opcode or no selector |
| AbiEntryPoints.EventDecodesIff | src/abi/codec.rs:139-194 | the same for events |
| AbiEntryPoints.InputsEncodeIff | src/abi/codec.rs:9-30 | get-method inputs encode exactly for get-methods with a number or no selector, the right count and stackable values; otherwise the errors |
| AbiEntryPoints.OutputsDecodeIff | src/abi/codec.rs:31-51 | get-method outputs decode exactly for those functions, when each entry stands for its value |
| AbiEntryPoints.OverflowIsMalformed | src/abi/codec.rs:260-359 | an encodable value fails in no other way than as a malformed body for want of room |
| AbiEntryPoints.ArityRefused | src/abi/codec.rs:221-232 | a wrong number of values is refused with both counts |
| AbiEntryPoints.BodyRefused | src/abi/codec.rs:207-258 | too short for an opcode, another opcode, or trailing data, each with its error and numbers, for every cell |
| AbiEntryPoints.MapKeyRefusals | src/abi/map.rs:105-127 | key type, key width and stated width are refused in this order, when encoding and when decoding |
| AbiEntryPoints.DuplicateIsNamed | src/abi/map.rs:7-45 | the duplicate-key error names the key bits of the first entry whose key was there before |
| AbiRefusals.StoreRefusals | src/abi/codec.rs:260-350 | arrays and unknown types are unsupported in bodies, and another shape than the type asks for is a mismatch |
| AbiRefusals.StoreNumberRefusals | src/abi/codec.rs:260-285 | a width outside 1 to 257 and a number outside its width are refused with their errors |
| AbiRefusals.StoreArityRefusal | src/abi/codec.rs:303-318 | a tuple of another arity is refused with both counts |
| AbiRefusals.StackIntRefusals | src/abi/model.rs:243-262 | the widths and ranges of signed numbers on the stack |
| AbiRefusals.StackUintRefusals | src/abi/model.rs:243-270 | the widths and ranges of unsigned numbers on the stack |
| AbiRefusals.StackArityRefusal | src/abi/model.rs:243-315 | a tuple of another arity is refused on the stack too, with both counts |
| AbiRefusals.LoadRefusals | src/abi/codec.rs:361-457 | missing bits or references, unreadable chains and bytes that are no text are refused with the error of each |
| AbiRefusals.AddressRefusals | src/abi/codec.rs:408-425 | an address that is readable but has a variable form or an anycast is refused as an address |
| AbiRefusals.StackStoreRefusals | src/abi/model.rs:243-315 | the mismatches when making a stack entry |
| AbiRefusals.StackLoadRefusals | src/abi/model.rs:322-445 | another kind of entry, another number than -1 or 0 for a boolean, a number out of range, or another count is refused with its error |
| RateService.BurstIsServed | src/liteclient/rate_limit.rs:84-108 | of n attempts at one moment at least min(n, min(burst, tokens left + due since the mark)) are granted, and exactly that many at exact rates |
| RateService.OneAttempt | src/liteclient/rate_limit.rs:84-108 | one attempt is granted exactly when a token is left or due, keeps all other tokens, and takes no more time than the due tokens are worth |
| RateService.NothingIsLost | src/liteclient/rate_limit.rs:84-108 | over every run in order of time: all that is due since the bucket was last found full, or since the start, has been granted or is still there |
| RateService.RefusedOnlyWhenSpent | src/liteclient/rate_limit.rs:84-115 | a request is refused only when the grants since then are within one of what was due |
| SchemaBrackets.OpenIsLargestExcess | src/tlb/schema.rs:201-209 | for every text and each of the three literal kinds of bracket, the counter is the largest excess of opening over closing brackets at the end of the text |
| SchemaBrackets.BracketsKeepWhole | src/tlb/schema.rs:193-225 | white space between a bracket and the one that closes it never breaks a token |
| SchemaBrackets.WordsPartIff | src/tlb/schema.rs:193-225 | white space between two words parts them exactly when the first closes all the brackets it opens |
| SchemaBrackets.EscapeOf | src/tlb/schema.rs:227-229 | a backslash is put in front of each backslash and each double quote, and nowhere else |
| Numerals.ParseU8Iff | src/jetton.rs:149-165 | a decimals text gives n exactly when n is at most 255 and the text is an optional plus, zeros and the digits of n |
| Numerals.ParseU16Iff | src/abi/json.rs:354-363 | the same for 16-bit widths |
| TypeSpellings.ParsesIff | src/abi/json.rs:320-352 | a text is parsed to a type exactly when it is a spelling of it, blanks around it and inside its brackets, plus signs and leading zeros included |
| TypeSpellings.WidthRefused | src/abi/json.rs:354-363 | a spelled width outside 1 to 257 is refused with the number |
| TypeSpellings.WithinIsTrim | src/abi/json.rs:321-321 | trimming yields exactly what is left when the blanks at both ends go |
| TypeSpellings.BlankCharacters | src/abi/json.rs:321-321 | the characters that count as blank, one by one |
| TypeSpellings.FieldLabelsSnoc | src/cli/abi.rs:356-363 | the label of a tuple names its fields in order, parted by commas |
| TypeSpellings.LabelsAreLiteral | src/cli/abi.rs:346-382 | integer and map labels, digit for digit |
| TypeSpellings.ValidIff | src/abi/model.rs:126-192 | a type is valid exactly when nothing in it at any depth has a width out of range or a blank name |
| MetadataSlots.SnakeValueIff | src/metadata.rs:204-233 | a field value is the byte 0x00 and a chain of bytes, exactly |
| MetadataSlots.ChunkedValueIff | src/metadata.rs:204-275 | a field value is the byte 0x01 and a dictionary of chunks under 32-bit indices, joined in their order, exactly |
| MetadataSlots.SlotIff | src/jetton.rs:142-214 | what a value cell puts in the slot of each key: its bytes, its text, or the number it spells, and nothing else |
| MetadataSlots.SlotsOfContent | src/jetton.rs:62-140 | from the content cell to the slot, in both directions, for the typed fields of jettons and of NFTs |
| MetadataSlots.ListsOfContent | src/nft/types.rs:63-140 | which fields go to the unknown list and which to the diagnostics, for jettons and for NFTs, in both directions |
| MetadataSlots.OtherContent | src/metadata.rs:147-183 | off-chain content is the byte 0x01 and its link; any other first byte, or none, is kept as unknown |
| MetadataSlots.OtherValue | src/metadata.rs:204-246 | a field value under another first byte, or none, keeps its bytes when they are readable |

## Left out

- Packing of bits into bytes, cell hashes, levels and exotic cells: cells are ordinary trees of bits and references.
- The contents of a builder after a failed multi-part store: the source then drops the builder, and the contracts of such
  methods say nothing about it.
- Error texts and error paths: errors are kinds, with the trailing counts, opcodes, widths and duplicate keys that matter.
- The generic impls for `Maybe`, `Either` and `CellRef` are functions from codecs to codecs; only their uses in the
  payloads are also written as builder and slice methods.
- Block records other than the shard state are modelled as codecs and not as methods: update in place is not captured.
- Dictionaries with values other than referenced cells, augmented dictionaries and removal.
- Addresses as text, currency collections, state-init and whole messages (src/tlb/message): the same algebra again.
- `transfer_notification`, `excesses` and the two query-only NFT bodies: writers without a reader in the source.
- Machine width of fields: query ids, sequence numbers and royalty parts are naturals whose layout refuses what the
  source's integer types cannot hold.
- JSON object walking, argument parsing by name, BoC hex and address text in src/cli/abi.rs and src/abi/json.rs; only the
  type-string grammar is modelled. A JSON value is an input of the omitted code.
- The rest of the schema compiler: statements, fields, tags and the summary printer.
- Metadata: the named optional fields of the two structs are one map from key to value; SHA-256 is a parameter that maps
  known keys to hashes; off-chain content goes through the same string check, and what the typed record
  then does with it has no theorem.
- Wake-up order and fairness of waiters: the step system lets any ready waiter go next, and a sleeper may wake late. The
  clock and the mutex are steps of the system, not code.
- ADNL, lite-server requests, balancing, BoC bytes, wallets and configuration: I/O or primitives outside this model.
