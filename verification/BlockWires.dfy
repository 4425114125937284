/** The cells of the block layer records, bit for bit in the order of block.tlb, independently of their codecs. */
module BlockWires {
  import opened Addresses
  import opened Bits
  import opened BlockCodecs
  import opened Cells
  import opened PayloadWires
  import opened TlbCore
  import opened TlbLaws
  import opened Wires
  import opened Wrappers

  // ----- Records -----

  function Int32Wire(n: i32): seq<bool> {
    ToBits(if n < 0 then 0x1_0000_0000 + n else n, 32)
  }

  predicate Uint32(n: nat) {
    n < 0x1_0000_0000
  }

  predicate ShardOk(v: ShardIdent) {
    v.shardPfxBits <= 60 && Uint64(v.shardPrefix)
  }

  /** `shard_ident$00 shard_pfx_bits:(#<= 60) workchain_id:int32 shard_prefix:uint64`. */
  function ShardWire(v: ShardIdent): seq<bool> {
    [false, false] + ToBits(v.shardPfxBits, 6) + Int32Wire(v.workchainId) + ToBits(v.shardPrefix, 64)
  }

  predicate IsShardIdent(cell: Cell, v: ShardIdent) {
    ShardOk(v) && cell.bits == ShardWire(v) && cell.refs == []
  }

  predicate IsExtBlkRef(cell: Cell, v: ExtBlkRef) {
    && Uint64(v.endLt) && Uint32(v.seqNo)
    && cell.bits == ToBits(v.endLt, 64) + ToBits(v.seqNo, 32) + BytesToBits(v.rootHash) + BytesToBits(v.fileHash)
    && cell.refs == []
  }

  predicate IsBlockIdExt(cell: Cell, v: BlockIdExt) {
    && ShardOk(v.shardId) && Uint32(v.seqNo)
    && cell.bits == ShardWire(v.shardId) + ToBits(v.seqNo, 32) + BytesToBits(v.rootHash) + BytesToBits(v.fileHash)
    && cell.refs == []
  }

  predicate IsBlock(cell: Cell, v: Block) {
    && cell.bits == ToBits(0x11ef_55aa, 32) + Int32Wire(v.globalId)
    && cell.refs == [v.info, v.valueFlow, v.stateUpdate, v.extra]
  }

  predicate IsHashUpdate(cell: Cell, v: HashUpdate) {
    && cell.bits == [false, true, true, true, false, false, true, false]
                    + BytesToBits(v.oldHash) + BytesToBits(v.newHash)
    && cell.refs == []
  }

  predicate IsConfigParams(cell: Cell, v: ConfigParams) {
    cell.bits == BytesToBits(v.configAddr) && cell.refs == [v.config]
  }

  lemma RecordIs<T(!new)>(c: Codec<T>, v: T, cell: Cell, ok: bool, bits: seq<bool>, refs: seq<Cell>)
    requires Faithful(c) && IsLaid(c.layout(v), ok, bits, refs)
    ensures ToCell(c, v) == Some(cell) <==> ok && cell.bits == bits && cell.refs == refs
    ensures FromCell(c, cell) == Ok(v) <==> ok && cell.bits == bits && cell.refs == refs
  {
    hide Faithful, FromCell;
    FaithfulRoundTrips(c);
    if FromCell(c, cell) == Ok(v) {
      assert ToCell(c, FromCell(c, cell).value) == Some(cell);
    }
  }

  lemma PartsAreLaid()
    ensures forall n: i32 :: IsLaid(I32Codec().layout(n), true, Int32Wire(n), [])
    ensures forall h: Hash :: IsLaid(HashCodec().layout(h), true, BytesToBits(h), [])
    ensures forall c: Cell :: IsLaid(CellCodec().layout(c), true, [], [c])
    ensures forall tag: seq<bool>, u: () :: IsLaid(TagCodec(tag).layout(u), true, tag, [])
    ensures forall n: nat :: IsLaid(UintCodec(64).layout(n), Uint64(n), ToBits(n, 64), [])
    ensures forall n: nat :: IsLaid(UintCodec(32).layout(n), Uint32(n), ToBits(n, 32), [])
    ensures forall n: nat :: IsLaid(PfxBitsCodec().layout(n), n <= 60, ToBits(n, 6), [])
    ensures forall u: () :: IsLaid(OpCodec(BLOCK_TAG).layout(u), true, ToBits(0x11ef_55aa, 32), [])
  {
    hide I32Bits, ToBits, Pow2;
    forall n: i32 ensures IsLaid(I32Codec().layout(n), true, Int32Wire(n), []) {
      I32InBits(n);
    }
    Pow2ThirtyTwo();
    Pow2SixtyFour();
    assert Pow2(6) == 64 by {
      SixBits();
    }
  }

  lemma SixBits()
    ensures Pow2(6) == 64
  {
  }

  lemma MarkedLayout<T>(mark: Codec<()>, body: Codec<T>, v: T)
    ensures Marked(mark, body).layout(v) == Both(mark.layout(()), body.layout(v))
  {
  }

  lemma ShardIsLaid(v: ShardIdent)
    ensures IsLaid(ShardIdentCodec().layout(v), ShardOk(v), ShardWire(v), [])
  {
    hide Both, IsLaid, TagCodec, PfxBitsCodec, I32Codec, UintCodec, ToBits, Int32Wire, Marked, Uint64;
    PartsAreLaid();
    BothAreLaid();
    var pfx, workchain, prefix := ToBits(v.shardPfxBits, 6), Int32Wire(v.workchainId), ToBits(v.shardPrefix, 64);
    var body := PairCodec(PfxBitsCodec(), PairCodec(I32Codec(), UintCodec(64)));
    MarkedLayout(TagCodec([false, false]), body, SHARD_IDENT_PARTS(v));
    FlatFour([false, false], pfx, workchain, prefix);
    assert IsLaid(ShardIdentCodec().layout(v), true && (v.shardPfxBits <= 60 && (true && Uint64(v.shardPrefix))),
                  [false, false] + (pfx + (workchain + prefix)), [] + ([] + ([] + [])));
  }

  lemma HashesAreLaid(seqNo: nat, root: Hash, file: Hash)
    ensures IsLaid(HASHES.layout((seqNo, (root, file))), Uint32(seqNo),
                   ToBits(seqNo, 32) + (BytesToBits(root) + BytesToBits(file)), [])
  {
    hide Both, IsLaid, HashCodec, UintCodec, ToBits, BytesToBits, Uint32;
    PartsAreLaid();
    BothAreLaid();
    var none: seq<Cell> := [] + ([] + []);
    assert none == [];
    assert HASHES.layout((seqNo, (root, file)))
        == Both(UintCodec(32).layout(seqNo), Both(HashCodec().layout(root), HashCodec().layout(file)));
    assert IsLaid(HASHES.layout((seqNo, (root, file))), Uint32(seqNo) && (true && true),
                  ToBits(seqNo, 32) + (BytesToBits(root) + BytesToBits(file)), [] + ([] + []));
  }

  lemma ShardIdentCell(v: ShardIdent, cell: Cell)
    ensures ToCell(ShardIdentCodec(), v) == Some(cell) <==> IsShardIdent(cell, v)
    ensures FromCell(ShardIdentCodec(), cell) == Ok(v) <==> IsShardIdent(cell, v)
  {
    hide ToCell, FromCell, IsLaid, ShardIdentCodec, ShardOk, ShardWire, Faithful;
    BlockRecordsAreFaithful();
    ShardIsLaid(v);
    RecordIs(ShardIdentCodec(), v, cell, ShardOk(v), ShardWire(v), []);
  }

  /** Something, and then a number and two hashes. */
  lemma HashesAfter(x: Option<Chunk>, ok: bool, bits: seq<bool>, seqNo: nat, root: Hash, file: Hash)
    requires IsLaid(x, ok, bits, [])
    ensures IsLaid(Both(x, HASHES.layout((seqNo, (root, file)))), ok && Uint32(seqNo),
                   bits + ToBits(seqNo, 32) + BytesToBits(root) + BytesToBits(file), [])
  {
    hide Both, IsLaid, HASHES, ToBits, BytesToBits, Uint32;
    BothAreLaid();
    HashesAreLaid(seqNo, root, file);
    FlatFour(bits, ToBits(seqNo, 32), BytesToBits(root), BytesToBits(file));
    var none: seq<Cell> := [] + [];
    assert none == [];
  }

  lemma ExtBlkRefCell(v: ExtBlkRef, cell: Cell)
    ensures ToCell(ExtBlkRefCodec(), v) == Some(cell) <==> IsExtBlkRef(cell, v)
    ensures FromCell(ExtBlkRefCodec(), cell) == Ok(v) <==> IsExtBlkRef(cell, v)
  {
    hide ToCell, FromCell, Both, IsLaid, Faithful, HASHES, UintCodec, ToBits, BytesToBits, Uint64, Uint32;
    BlockRecordsAreFaithful();
    PartsAreLaid();
    HashesAfter(UintCodec(64).layout(v.endLt), Uint64(v.endLt), ToBits(v.endLt, 64), v.seqNo, v.rootHash, v.fileHash);
    RecordIs(ExtBlkRefCodec(), v, cell, Uint64(v.endLt) && Uint32(v.seqNo),
             ToBits(v.endLt, 64) + ToBits(v.seqNo, 32) + BytesToBits(v.rootHash) + BytesToBits(v.fileHash), []);
  }

  lemma BlockIdExtCell(v: BlockIdExt, cell: Cell)
    ensures ToCell(BlockIdExtCodec(), v) == Some(cell) <==> IsBlockIdExt(cell, v)
    ensures FromCell(BlockIdExtCodec(), cell) == Ok(v) <==> IsBlockIdExt(cell, v)
  {
    hide ToCell, FromCell, Both, IsLaid, Faithful, HASHES, ShardIdentCodec, ToBits, BytesToBits, ShardOk, Uint32,
      ShardWire;
    BlockRecordsAreFaithful();
    ShardIsLaid(v.shardId);
    HashesAfter(ShardIdentCodec().layout(v.shardId), ShardOk(v.shardId), ShardWire(v.shardId),
                v.seqNo, v.rootHash, v.fileHash);
    RecordIs(BlockIdExtCodec(), v, cell, ShardOk(v.shardId) && Uint32(v.seqNo),
             ShardWire(v.shardId) + ToBits(v.seqNo, 32) + BytesToBits(v.rootHash) + BytesToBits(v.fileHash), []);
  }

  lemma CellsAreLaid(a: Cell, b: Cell, c: Cell, d: Cell)
    ensures IsLaid(PairCodec(CellCodec(), PairCodec(CellCodec(), PairCodec(CellCodec(), CellCodec())))
                   .layout((a, (b, (c, d)))), true, [], [a, b, c, d])
  {
    assert OfRef(a).Then(OfRef(b).Then(OfRef(c).Then(OfRef(d)))) == Chunk([], [a, b, c, d]);
  }

  lemma BlockCell(v: Block, cell: Cell)
    ensures ToCell(BlockCodec(), v) == Some(cell) <==> IsBlock(cell, v)
    ensures FromCell(BlockCodec(), cell) == Ok(v) <==> IsBlock(cell, v)
  {
    hide ToCell, FromCell, Both, IsLaid, Faithful, Marked, OpCodec, I32Codec, CellCodec, ToBits, Int32Wire;
    BlockRecordsAreFaithful();
    PartsAreLaid();
    BothAreLaid();
    CellsAreLaid(v.info, v.valueFlow, v.stateUpdate, v.extra);
    var cells := PairCodec(CellCodec(), PairCodec(CellCodec(), PairCodec(CellCodec(), CellCodec())));
    MarkedLayout(OpCodec(BLOCK_TAG), PairCodec(I32Codec(), cells), BLOCK_PARTS(v));
    assert BlockCodec().layout(v)
        == Both(OpCodec(BLOCK_TAG).layout(()), Both(I32Codec().layout(v.globalId), cells.layout(BLOCK_PARTS(v).1)));
    hide BlockCodec, PairCodec, MapCodec;
    var op, id := ToBits(0x11ef_55aa, 32), Int32Wire(v.globalId);
    var refs := [v.info, v.valueFlow, v.stateUpdate, v.extra];
    assert [] + ([] + refs) == refs && op + (id + []) == op + id;
    RecordIs(BlockCodec(), v, cell, true && (true && true), op + (id + []), [] + ([] + refs));
  }

  lemma HashUpdateCell(v: HashUpdate, cell: Cell)
    ensures ToCell(HashUpdateCodec(), v) == Some(cell) <==> IsHashUpdate(cell, v)
    ensures FromCell(HashUpdateCodec(), cell) == Ok(v) <==> IsHashUpdate(cell, v)
  {
    hide ToCell, FromCell, Both, IsLaid, Faithful, Marked, TagCodec, HashCodec, BytesToBits;
    BlockRecordsAreFaithful();
    PartsAreLaid();
    BothAreLaid();
    var tag := TagBits("01110010");
    assert tag == [false, true, true, true, false, false, true, false];
    MarkedLayout(TagCodec(tag), PairCodec(HashCodec(), HashCodec()), HASH_UPDATE_PARTS(v));
    var old_, new_ := BytesToBits(v.oldHash), BytesToBits(v.newHash);
    FlatThree(tag, old_, new_);
    RecordIs(HashUpdateCodec(), v, cell, true && (true && true), tag + (old_ + new_), [] + ([] + []));
  }

  lemma ConfigParamsCell(v: ConfigParams, cell: Cell)
    ensures ToCell(ConfigParamsCodec(), v) == Some(cell) <==> IsConfigParams(cell, v)
    ensures FromCell(ConfigParamsCodec(), cell) == Ok(v) <==> IsConfigParams(cell, v)
  {
    hide ToCell, FromCell, Both, IsLaid, Faithful, HashCodec, CellCodec, BytesToBits;
    BlockRecordsAreFaithful();
    PartsAreLaid();
    BothAreLaid();
    RecordIs(ConfigParamsCodec(), v, cell, true && true, BytesToBits(v.configAddr) + [], [] + [v.config]);
  }

  // ----- Cells under a constructor tag -----

  predicate StartsWith(cell: Cell, tag: nat) {
    |cell.bits| >= 32 && cell.bits[..32] == ToBits(tag, 32)
  }

  /** A cell is a value flow of the version its first 32 bits name. */
  lemma ValueFlowCell(v: ValueFlow, cell: Cell)
    ensures FromCell(ValueFlowCodec(), cell) == Ok(v)
       <==> v.payload == cell && StartsWith(cell, if v.V1? then 0xb8e4_8dfb else 0x3ebf_98b7)
  {
    hide ToBits, FromBits;
    TagIs(cell, 0xb8e4_8dfb);
    TagIs(cell, 0x3ebf_98b7);
    assert Contents(cell).ToCell() == cell;
  }

  lemma TagIs(cell: Cell, tag: nat)
    requires Uint32(tag)
    ensures Tag(cell) == Some(tag) <==> StartsWith(cell, tag)
  {
    hide Pow2, ToBits, FromBits;
    Pow2ThirtyTwo();
    FromToBits(tag, 32);
    if |cell.bits| >= 32 {
      ToFromBits(cell.bits[..32]);
    }
  }

  /** An unsplit state is the whole cell, known by its first 32 bits; a split one is 32 bits and two references. */
  lemma ShardStateCell(v: ShardState, cell: Cell)
    ensures FromCell(ShardStateCodec(), cell) == Ok(v) <==>
      match v
      case Unsplit(payload) => payload == cell && StartsWith(cell, 0x9023_afe2)
      case Split(left, right) => cell.bits == ToBits(0x5f32_7da5, 32) && cell.refs == [left, right]
    ensures v.Split? ==> (ToCell(ShardStateCodec(), v) == Some(cell) <==> FromCell(ShardStateCodec(), cell) == Ok(v))
  {
    hide ToBits, FromBits, Pow2, ToCell, FromCell, ShardStateLoad;
    SplitLayout(v, cell);
    ShardStateDecodesBackIff(v);
    RawRemaindersAreLossless(cell);
    if v.Unsplit? {
      TagIs(cell, 0x9023_afe2);
      assert ToCell(ShardStateCodec(), v) == Some(v.payload) by {
        UnsplitLayout(v);
      }
    }
  }

  lemma SplitLayout(v: ShardState, cell: Cell)
    ensures v.Split? ==>
      (ToCell(ShardStateCodec(), v) == Some(cell)
       <==> cell.bits == ToBits(0x5f32_7da5, 32) && cell.refs == [v.left, v.right])
  {
    hide ToBits;
    TagsFit();
    if v.Split? {
      assert OfBits(ToBits(0x5f32_7da5, 32)).Then(OfRef(v.left).Then(OfRef(v.right)))
          == Chunk(ToBits(0x5f32_7da5, 32), [v.left, v.right]);
    }
  }

  lemma UnsplitLayout(v: ShardState)
    requires v.Unsplit?
    ensures ToCell(ShardStateCodec(), v) == Some(v.payload)
  {
    assert Contents(v.payload).ToCell() == v.payload;
  }
}
