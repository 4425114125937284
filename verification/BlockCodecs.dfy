/** Block, shard state and configuration codecs (src/tlb/block.rs), for ordinary cells. */
module BlockCodecs {
  import opened AddressMethods
  import opened Addresses
  import opened Bits
  import opened Cells
  import opened PayloadMethods
  import opened TlbCore
  import opened TlbLaws
  import opened Wrappers

  const BLOCK_TAG: nat := 0x11ef55aa
  const VALUE_FLOW_TAG: nat := 0xb8e48dfb
  const VALUE_FLOW_V2_TAG: nat := 0x3ebf98b7
  const SHARD_STATE_TAG: nat := 0x9023afe2
  const SPLIT_STATE_TAG: nat := 0x5f327da5

  datatype ShardIdent = ShardIdent(shardPfxBits: nat, workchainId: i32, shardPrefix: nat)
  datatype ExtBlkRef = ExtBlkRef(endLt: nat, seqNo: nat, rootHash: Hash, fileHash: Hash)
  datatype BlockIdExt = BlockIdExt(shardId: ShardIdent, seqNo: nat, rootHash: Hash, fileHash: Hash)
  datatype Block = Block(globalId: i32, info: Cell, valueFlow: Cell, stateUpdate: Cell, extra: Cell)
  datatype HashUpdate = HashUpdate(oldHash: Hash, newHash: Hash)
  datatype ConfigParams = ConfigParams(configAddr: Hash, config: Cell)
  datatype ValueFlow = V1(payload: Cell) | V2(payload: Cell)
  datatype ShardState = Unsplit(payload: Cell) | Split(left: Cell, right: Cell)

  // ----- Codecs that keep the value as it is -----

  ghost predicate Faithful<T(!new)>(c: Codec<T>) {
    FieldLaws(c) && forall v :: c.normal(v) == v
  }

  lemma FaithfulPair<A(!new), B(!new)>(a: Codec<A>, b: Codec<B>) returns (p: Codec<(A, B)>)
    requires Faithful(a) && Faithful(b)
    ensures p == PairCodec(a, b) && Faithful(p)
  {
    hide FieldLaws;
    p := PairCodec(a, b);
    FieldThenField(a, b);
    forall v: (A, B) ensures p.normal(v) == v {
      assert v == (v.0, v.1);
    }
  }

  lemma FaithfulRecord<A(!new), B(!new)>(c: Codec<A>, to: A -> B, from: B -> A)
    requires Faithful(c) && Renaming(to, from) && Renaming(from, to)
    ensures Faithful(MapCodec(c, to, from))
  {
    hide FieldLaws;
    Renamed(c, to, from);
  }

  /** A self-delimiting record: exact decoding and encoding undo each other, and trailing data is refused. */
  lemma FaithfulRoundTrips<T(!new)>(c: Codec<T>)
    requires Faithful(c)
    ensures ExactRoundTrips(c)
    ensures forall v :: ToCell(c, v).Some? ==> FromCell(c, ToCell(c, v).value) == Ok(v)
  {
    hide ToCell, FromCell, FieldLaws, TailLaws;
    FieldAsTail(c);
    TailRoundTrips(c);
  }

  /** Values a codec stores and loads only when they pass a check. */
  function OnlyLoad<T>(c: Codec<T>, p: T -> bool, s: Chunk): Option<(T, Chunk)> {
    var (v, rest) :- c.load(s);
    if p(v) then Some((v, rest)) else None
  }

  function OnlyCodec<T>(c: Codec<T>, p: T -> bool): Codec<T> {
    Codec((v: T) => if p(v) then c.layout(v) else None, (s: Chunk) => OnlyLoad(c, p, s), c.normal)
  }

  lemma OnlyIsFaithful<T(!new)>(c: Codec<T>, p: T -> bool)
    requires Faithful(c)
    ensures Faithful(OnlyCodec(c, p))
  {
  }

  /** A value after a mark that carries none. */
  function Marked<T>(mark: Codec<()>, body: Codec<T>): Codec<T> {
    MapCodec(PairCodec(mark, body), (p: ((), T)) => p.1, (v: T) => ((), v))
  }

  lemma MarkedIsFaithful<T(!new)>(mark: Codec<()>, body: Codec<T>)
    requires Faithful(mark) && Faithful(body)
    ensures Faithful(Marked(mark, body))
  {
    hide Faithful;
    var both := FaithfulPair(mark, body);
    var to, from := (p: ((), T)) => p.1, (v: T) => ((), v);
    forall x: ((), T) ensures from(to(x)) == x {
      assert x.0 == ();
    }
    FaithfulRecord(both, to, from);
  }

  // ----- Fields -----

  /** `store_tag` and `expect_tag`. */
  function TagCodec(tag: seq<bool>): Codec<()> {
    Codec((v: ()) => Some(OfBits(tag)),
          (s: Chunk) => match TakeBits(s, |tag|)
            case Some((bits, rest)) => if bits == tag then Some(((), rest)) else None
            case None => None,
          (v: ()) => v)
  }

  function I32Codec(): Codec<i32> {
    Codec((v: i32) => Some(OfBits(I32Bits(v))), TakeI32, (v: i32) => v)
  }

  function HashLoad(s: Chunk): Option<(Hash, Chunk)> {
    var (bytes, rest) :- TakeBytes(s, 32);
    TakenBytes(s, 32);
    Some((bytes, rest))
  }

  function HashCodec(): Codec<Hash> {
    Codec((v: Hash) => Some(OfBits(BytesToBits(v))), HashLoad, (v: Hash) => v)
  }

  function CellCodec(): Codec<Cell> {
    Codec((v: Cell) => Some(OfRef(v)), TakeRef, (v: Cell) => v)
  }

  lemma UintIsFaithful(width: nat)
    ensures Faithful(UintCodec(width))
  {
    UintCodecLaws(width);
  }

  lemma TagIsFaithful(tag: seq<bool>)
    ensures Faithful(TagCodec(tag))
  {
    var c := TagCodec(tag);
    forall v: (), rest: Chunk ensures c.load(c.layout(v).value.Then(rest)) == Some((v, rest)) {
      TakeBitsThen(tag, rest);
      assert v == ();
    }
    forall s: Chunk | c.load(s).Some? ensures s == OfBits(tag).Then(c.load(s).value.1) {
      TakenBits(s, |tag|);
    }
  }

  lemma OpIsFaithful(op: nat)
    ensures Faithful(OpCodec(op))
  {
    OpCodecLaws(op);
  }

  lemma I32IsFaithful()
    ensures Faithful(I32Codec())
  {
    hide I32Bits, TakeI32;
    var c := I32Codec();
    forall v: i32, rest: Chunk ensures c.load(c.layout(v).value.Then(rest)) == Some((v, rest)) {
      TakeI32Then(v, rest);
    }
    forall s: Chunk | c.load(s).Some? ensures s == c.layout(c.load(s).value.0).value.Then(c.load(s).value.1) {
      TakenI32(s);
    }
  }

  lemma HashIsFaithful()
    ensures Faithful(HashCodec())
  {
    hide BytesToBits, TakeBytes;
    var c := HashCodec();
    forall v: Hash, rest: Chunk ensures c.load(c.layout(v).value.Then(rest)) == Some((v, rest)) {
      TakeBytesThen(v, rest);
    }
    forall s: Chunk | c.load(s).Some? ensures s == c.layout(c.load(s).value.0).value.Then(c.load(s).value.1) {
      TakenBytes(s, 32);
    }
  }

  lemma CellIsFaithful()
    ensures Faithful(CellCodec())
  {
    var c := CellCodec();
    forall v: Cell, rest: Chunk ensures c.load(c.layout(v).value.Then(rest)) == Some((v, rest)) {
      TakeRefThen(v, rest);
    }
    forall s: Chunk | c.load(s).Some? ensures s == c.layout(c.load(s).value.0).value.Then(c.load(s).value.1) {
      TakenRef(s);
    }
  }

  // ----- Records -----

  /** At most sixty prefix bits, whether stored or loaded. */
  function PfxBitsCodec(): Codec<nat> {
    OnlyCodec(UintCodec(6), (n: nat) => n <= 60)
  }

  const SHARD_IDENT_OF := (p: (nat, (i32, nat))) => ShardIdent(p.0, p.1.0, p.1.1)
  const SHARD_IDENT_PARTS := (v: ShardIdent) => (v.shardPfxBits, (v.workchainId, v.shardPrefix))

  function ShardIdentCodec(): Codec<ShardIdent> {
    MapCodec(Marked(TagCodec([false, false]), PairCodec(PfxBitsCodec(), PairCodec(I32Codec(), UintCodec(64)))),
             SHARD_IDENT_OF, SHARD_IDENT_PARTS)
  }

  const HASHES := PairCodec(UintCodec(32), PairCodec(HashCodec(), HashCodec()))

  const EXT_BLK_REF_OF := (p: (nat, (nat, (Hash, Hash)))) => ExtBlkRef(p.0, p.1.0, p.1.1.0, p.1.1.1)
  const EXT_BLK_REF_PARTS := (v: ExtBlkRef) => (v.endLt, (v.seqNo, (v.rootHash, v.fileHash)))

  function ExtBlkRefCodec(): Codec<ExtBlkRef> {
    MapCodec(PairCodec(UintCodec(64), HASHES), EXT_BLK_REF_OF, EXT_BLK_REF_PARTS)
  }

  const BLOCK_ID_EXT_OF := (p: (ShardIdent, (nat, (Hash, Hash)))) => BlockIdExt(p.0, p.1.0, p.1.1.0, p.1.1.1)
  const BLOCK_ID_EXT_PARTS := (v: BlockIdExt) => (v.shardId, (v.seqNo, (v.rootHash, v.fileHash)))

  function BlockIdExtCodec(): Codec<BlockIdExt> {
    MapCodec(PairCodec(ShardIdentCodec(), HASHES), BLOCK_ID_EXT_OF, BLOCK_ID_EXT_PARTS)
  }

  const BLOCK_OF := (p: (i32, (Cell, (Cell, (Cell, Cell))))) =>
    Block(p.0, p.1.0, p.1.1.0, p.1.1.1.0, p.1.1.1.1)
  const BLOCK_PARTS := (v: Block) => (v.globalId, (v.info, (v.valueFlow, (v.stateUpdate, v.extra))))

  function BlockCodec(): Codec<Block> {
    MapCodec(
      Marked(OpCodec(BLOCK_TAG), PairCodec(I32Codec(),
        PairCodec(CellCodec(), PairCodec(CellCodec(), PairCodec(CellCodec(), CellCodec()))))),
      BLOCK_OF, BLOCK_PARTS)
  }

  const HASH_UPDATE_OF := (p: (Hash, Hash)) => HashUpdate(p.0, p.1)
  const HASH_UPDATE_PARTS := (v: HashUpdate) => (v.oldHash, v.newHash)

  function HashUpdateCodec(): Codec<HashUpdate> {
    MapCodec(Marked(TagCodec(TagBits("01110010")), PairCodec(HashCodec(), HashCodec())),
             HASH_UPDATE_OF, HASH_UPDATE_PARTS)
  }

  const CONFIG_PARAMS_OF := (p: (Hash, Cell)) => ConfigParams(p.0, p.1)
  const CONFIG_PARAMS_PARTS := (v: ConfigParams) => (v.configAddr, v.config)

  function ConfigParamsCodec(): Codec<ConfigParams> {
    MapCodec(PairCodec(HashCodec(), CellCodec()), CONFIG_PARAMS_OF, CONFIG_PARAMS_PARTS)
  }

  /** Every plain record of the block layer is self-delimiting, decodes to what was encoded, and loses nothing. */
  lemma BlockRecordsAreFaithful()
    ensures Faithful(ShardIdentCodec()) && Faithful(ExtBlkRefCodec()) && Faithful(BlockIdExtCodec())
    ensures Faithful(BlockCodec()) && Faithful(HashUpdateCodec()) && Faithful(ConfigParamsCodec())
  {
    hide Faithful, PairCodec, MapCodec, Marked, OnlyCodec, TagCodec, I32Codec, UintCodec, HashCodec, CellCodec, OpCodec;
    I32IsFaithful();
    HashIsFaithful();
    CellIsFaithful();
    UintIsFaithful(64);
    UintIsFaithful(32);
    UintIsFaithful(6);
    var twoHashes := FaithfulPair(HashCodec(), HashCodec());
    var hashes := FaithfulPair(UintCodec(32), twoHashes);

    TagIsFaithful([false, false]);
    OnlyIsFaithful(UintCodec(6), (n: nat) => n <= 60);
    var shard := FaithfulPair(I32Codec(), UintCodec(64));
    var bounded := FaithfulPair(PfxBitsCodec(), shard);
    MarkedIsFaithful(TagCodec([false, false]), bounded);
    FaithfulRecord(Marked(TagCodec([false, false]), bounded), SHARD_IDENT_OF, SHARD_IDENT_PARTS);

    var extBlkRef := FaithfulPair(UintCodec(64), hashes);
    FaithfulRecord(extBlkRef, EXT_BLK_REF_OF, EXT_BLK_REF_PARTS);
    var blockIdExt := FaithfulPair(ShardIdentCodec(), hashes);
    FaithfulRecord(blockIdExt, BLOCK_ID_EXT_OF, BLOCK_ID_EXT_PARTS);

    OpIsFaithful(BLOCK_TAG);
    var cells2 := FaithfulPair(CellCodec(), CellCodec());
    var cells3 := FaithfulPair(CellCodec(), cells2);
    var cells4 := FaithfulPair(CellCodec(), cells3);
    var block := FaithfulPair(I32Codec(), cells4);
    MarkedIsFaithful(OpCodec(BLOCK_TAG), block);
    FaithfulRecord(Marked(OpCodec(BLOCK_TAG), block), BLOCK_OF, BLOCK_PARTS);

    TagIsFaithful(TagBits("01110010"));
    MarkedIsFaithful(TagCodec(TagBits("01110010")), twoHashes);
    FaithfulRecord(Marked(TagCodec(TagBits("01110010")), twoHashes), HASH_UPDATE_OF, HASH_UPDATE_PARTS);

    var configParams := FaithfulPair(HashCodec(), CellCodec());
    FaithfulRecord(configParams, CONFIG_PARAMS_OF, CONFIG_PARAMS_PARTS);
  }

  /** Exact decoding and encoding undo each other, and nothing is normalised on the way. */
  ghost predicate ExactlyInverse<T(!new)>(c: Codec<T>) {
    ExactRoundTrips(c) && forall v :: ToCell(c, v).Some? ==> FromCell(c, ToCell(c, v).value) == Ok(v)
  }

  /** Both exact round trips, for every value and every accepted cell of each plain record. */
  lemma BlockRecordsRoundTrip()
    ensures ExactlyInverse(ShardIdentCodec()) && ExactlyInverse(ExtBlkRefCodec()) && ExactlyInverse(BlockIdExtCodec())
    ensures ExactlyInverse(BlockCodec()) && ExactlyInverse(HashUpdateCodec()) && ExactlyInverse(ConfigParamsCodec())
  {
    hide ToCell, FromCell, Faithful, ExactRoundTrips, ShardIdentCodec, ExtBlkRefCodec, BlockIdExtCodec, BlockCodec,
      HashUpdateCodec, ConfigParamsCodec;
    BlockRecordsAreFaithful();
    FaithfulRoundTrips(ShardIdentCodec());
    FaithfulRoundTrips(ExtBlkRefCodec());
    FaithfulRoundTrips(BlockIdExtCodec());
    FaithfulRoundTrips(BlockCodec());
    FaithfulRoundTrips(HashUpdateCodec());
    FaithfulRoundTrips(ConfigParamsCodec());
  }

  // ----- Raw cells under a name -----

  /** `BlockInfo`, `BlockPrevInfo`, `BlockExtra` and `McBlockExtra`: the cell as it is. */
  datatype RawBody = RawBody(cell: Cell)

  function RawBodyCodec(): Codec<RawBody> {
    MapCodec(RawCodec(), (cell: Cell) => RawBody(cell), (v: RawBody) => v.cell)
  }

  /** A raw body always encodes, to its own cell, and every cell decodes to the raw body that holds it. */
  lemma RawBodyRoundTrips(v: RawBody)
    ensures ExactRoundTrips(RawBodyCodec())
    ensures ToCell(RawBodyCodec(), v) == Some(v.cell) && FromCell(RawBodyCodec(), v.cell) == Ok(v)
  {
    var to, from := (cell: Cell) => RawBody(cell), (v: RawBody) => v.cell;
    RawCodecLaws();
    Renamed(RawCodec(), to, from);
    assert RawBodyCodec() == MapCodec(RawCodec(), to, from);
    TailRoundTrips(RawBodyCodec());
    assert Contents(v.cell).ToCell() == v.cell;
  }

  // ----- Raw remainders under a tag -----

  function Tag(cell: Cell): Option<nat> {
    var (tag, _) :- TakeUint(Contents(cell), 32);
    Some(tag)
  }

  /** The payload is written as it is, tag included; the loader takes the rest of the slice and looks at its tag. */
  function ValueFlowLoad(s: Chunk): Option<(ValueFlow, Chunk)> {
    var (cell, rest) :- RawCodec().load(s);
    var tag :- Tag(cell);
    if tag == VALUE_FLOW_TAG then Some((V1(cell), rest))
    else if tag == VALUE_FLOW_V2_TAG then Some((V2(cell), rest))
    else None
  }

  function ValueFlowCodec(): Codec<ValueFlow> {
    Codec((v: ValueFlow) => Some(Contents(v.payload)), ValueFlowLoad, (v: ValueFlow) => v)
  }

  function ShardStateLayout(v: ShardState): Option<Chunk> {
    match v
    case Unsplit(payload) => Some(Contents(payload))
    case Split(left, right) => Both(UintLayout(SPLIT_STATE_TAG, 32), Some(OfRef(left).Then(OfRef(right))))
  }

  /** The tag of an unsplit state is taken off the slice and put back in front of the rest. */
  function ShardStateLoad(s: Chunk): Option<(ShardState, Chunk)> {
    var (tag, afterTag) :- TakeUint(s, 32);
    if tag == SHARD_STATE_TAG then
      var whole := OfBits(ToBits(SHARD_STATE_TAG, 32)).Then(afterTag);
      if whole.Fits() then Some((Unsplit(whole.ToCell()), EMPTY)) else None
    else if tag == SPLIT_STATE_TAG then
      var (left, afterLeft) :- TakeRef(afterTag);
      var (right, rest) :- TakeRef(afterLeft);
      Some((Split(left, right), rest))
    else None
  }

  function ShardStateCodec(): Codec<ShardState> {
    Codec(ShardStateLayout, ShardStateLoad, (v: ShardState) => v)
  }

  lemma ValueFlowIsLossless()
    ensures Lossless(ValueFlowCodec())
  {
    hide TakeUint;
    var c := ValueFlowCodec();
    forall s: Chunk | c.load(s).Some?
      ensures s == c.layout(c.load(s).value.0).value.Then(c.load(s).value.1)
    {
      ThenEmpty(s);
      assert Contents(s.ToCell()) == s;
    }
  }

  lemma ShardStateIsLossless()
    ensures Lossless(ShardStateCodec())
  {
    hide TakeUint, ToBits, UnsignedFits;
    var c := ShardStateCodec();
    forall s: Chunk | c.load(s).Some?
      ensures var (v, rest) := c.load(s).value;
        c.layout(v).Some? && s == c.layout(v).value.Then(rest)
    {
      TakenUint(s, 32);
      var (tag, afterTag) := TakeUint(s, 32).value;
      if tag == SHARD_STATE_TAG {
        ThenEmpty(s);
        assert Contents(s.ToCell()) == s;
      } else {
        TakenRef(afterTag);
        var (left, afterLeft) := TakeRef(afterTag).value;
        TakenRef(afterLeft);
        var (right, rest) := TakeRef(afterLeft).value;
        ThenAssociates(OfRef(left), OfRef(right), rest);
        ThenAssociates(OfBits(ToBits(tag, 32)), OfRef(left).Then(OfRef(right)), rest);
      }
    }
  }

  /** Every cell accepted as a value flow or a shard state re-encodes to itself. */
  lemma RawRemaindersAreLossless(cell: Cell)
    ensures FromCell(ValueFlowCodec(), cell).Ok? ==>
      ToCell(ValueFlowCodec(), FromCell(ValueFlowCodec(), cell).value) == Some(cell)
    ensures FromCell(ShardStateCodec(), cell).Ok? ==>
      ToCell(ShardStateCodec(), FromCell(ShardStateCodec(), cell).value) == Some(cell)
  {
    hide FromCell, ToCell, Lossless;
    ValueFlowIsLossless();
    ShardStateIsLossless();
    if FromCell(ValueFlowCodec(), cell).Ok? {
      CellLossless(ValueFlowCodec(), cell);
    }
    if FromCell(ShardStateCodec(), cell).Ok? {
      CellLossless(ShardStateCodec(), cell);
    }
  }

  /**
   * A value flow decodes back exactly when its payload carries the tag of its constructor: the encoder writes any
   * payload under either constructor.
   */
  lemma ValueFlowDecodesBackIff(v: ValueFlow)
    ensures ToCell(ValueFlowCodec(), v) == Some(v.payload)
    ensures FromCell(ValueFlowCodec(), v.payload) == Ok(v) <==>
      Tag(v.payload) == Some(if v.V1? then VALUE_FLOW_TAG else VALUE_FLOW_V2_TAG)
  {
    hide TakeUint;
    assert Contents(v.payload).ToCell() == v.payload;
  }

  /** A split state always decodes back, an unsplit one exactly when its payload carries the unsplit tag. */
  lemma ShardStateDecodesBackIff(v: ShardState)
    ensures ToCell(ShardStateCodec(), v).Some?
    ensures FromCell(ShardStateCodec(), ToCell(ShardStateCodec(), v).value) == Ok(v) <==>
      (v.Unsplit? ==> Tag(v.payload) == Some(SHARD_STATE_TAG))
  {
    hide ToBits, TakeUint;
    match v
    case Unsplit(payload) =>
      var s := Contents(payload);
      assert s.ToCell() == payload;
      if TakeUint(s, 32).Some? {
        TakenUint(s, 32);
      }
    case Split(left, right) =>
      TagsFit();
      var refs := OfRef(left).Then(OfRef(right));
      TakeUintThen(SPLIT_STATE_TAG, 32, refs);
      TakeRefThen(left, OfRef(right));
      ThenEmpty(OfRef(right));
      TakeRefThen(right, EMPTY);
  }

  lemma TagsFit()
    ensures UnsignedFits(SHARD_STATE_TAG, 32) && UnsignedFits(SPLIT_STATE_TAG, 32)
  {
    hide Pow2;
    Pow2ThirtyTwo();
  }

  /** `ShardStateUnsplit`: reads a shard state and refuses a split one. */
  function UnsplitLoad(s: Chunk): Option<(RawBody, Chunk)> {
    var (state, rest) :- ShardStateLoad(s);
    if state.Unsplit? then Some((RawBody(state.payload), rest)) else None
  }

  function UnsplitCodec(): Codec<RawBody> {
    Codec((v: RawBody) => Some(Contents(v.cell)), UnsplitLoad, (v: RawBody) => v)
  }

  lemma UnsplitIsLossless(cell: Cell)
    ensures Lossless(UnsplitCodec())
    ensures FromCell(UnsplitCodec(), cell).Ok? ==>
      ToCell(UnsplitCodec(), FromCell(UnsplitCodec(), cell).value) == Some(cell)
  {
    hide ShardStateLoad, ToCell, FromCell;
    ShardStateIsLossless();
    var c := UnsplitCodec();
    forall s: Chunk | c.load(s).Some?
      ensures s == c.layout(c.load(s).value.0).value.Then(c.load(s).value.1)
    {
      assert ShardStateCodec().load(s).Some?;
    }
    if FromCell(c, cell).Ok? {
      CellLossless(c, cell);
    }
  }

  /** An unsplit state type decodes back exactly when its cell carries the unsplit tag. */
  lemma UnsplitDecodesBackIff(v: RawBody)
    ensures ToCell(UnsplitCodec(), v) == Some(v.cell)
    ensures FromCell(UnsplitCodec(), v.cell) == Ok(v) <==> Tag(v.cell) == Some(SHARD_STATE_TAG)
  {
    hide ShardStateLoad;
    ShardStateDecodesBackIff(Unsplit(v.cell));
    assert Contents(v.cell).ToCell() == v.cell;
    assert ToCell(ShardStateCodec(), Unsplit(v.cell)) == Some(v.cell);
  }

  // ----- The shard state as the source reads it -----

  method LoadShardState(s: Slice) returns (r: Option<ShardState>)
    requires s.Valid()
    modifies s
    ensures s.Valid() && Read(ShardStateLoad(old(s.View())), r, s.View())
  {
    hide ToBits, FromBits, Pow2;
    ghost var before := s.View();
    var tag :- s.LoadUint(32);
    if tag == SHARD_STATE_TAG {
      var inner := new Builder();
      TagsFit();
      TakenUint(before, 32);
      ThenEmpty(OfBits(ToBits(tag, 32)));
      var ok := inner.StoreUint(SHARD_STATE_TAG, 32);
      assert ok;
      ok := StoreRemaining(s, inner);
      assert ok;
      var payload := inner.Build();
      return Some(Unsplit(payload));
    } else if tag == SPLIT_STATE_TAG {
      var left :- s.LoadRef();
      var right :- s.LoadRef();
      return Some(Split(left, right));
    } else {
      return None;
    }
  }
}
