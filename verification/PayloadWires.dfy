/**
 * The cells of the seven jetton and NFT message bodies, bit for bit in the order of their TL-B schemes (TEP-62, TEP-66
 * and TEP-74): which cell a message is, independently of the codecs that write and read it.
 */
module PayloadWires {
  import opened Addresses
  import opened Bits
  import opened Cells
  import opened Payloads
  import opened PayloadSizes
  import opened TlbCore
  import opened TlbLaws
  import opened VarUint
  import opened Wires
  import opened Wrappers

  // ----- The fields -----

  predicate Uint64(n: nat) {
    n < 0x1_0000_0000_0000_0000
  }

  predicate AmountOk(n: nat) {
    ByteLength(n) <= 15
  }

  /** `Maybe ^Cell`: the presence bit, and the cell as a reference. */
  function CustomCells(payload: Option<Cell>): seq<Cell> {
    if payload.Some? then [payload.value] else []
  }

  /** `Either Cell ^Cell`: a zero and the contents of the cell, or a one and the cell as a reference. */
  function ForwardWire(payload: ForwardPayload): seq<bool> {
    match payload
    case Left(cell) => [false] + cell.bits
    case Right(_) => [true]
  }

  function ForwardCells(payload: ForwardPayload): seq<Cell> {
    match payload
    case Left(cell) => cell.refs
    case Right(cell) => [cell]
  }

  /** Without the flags that only the text form of an address has. */
  predicate Flagless(a: MsgAddress) {
    a.Internal? && a.int_.Std? ==> a.int_.address.bounceable && !a.int_.address.testOnly
  }

  // ----- The messages -----

  predicate IsJettonTransfer(cell: Cell, m: JettonTransfer) {
    && Uint64(m.queryId) && AmountOk(m.amount) && AddressOk(m.destination)
    && AddressOk(m.responseDestination) && AmountOk(m.forwardTonAmount)
    && cell.bits == ToBits(0x0f8a_7ea5, 32) + ToBits(m.queryId, 64) + AmountWire(m.amount)
                    + AddressWire(m.destination) + AddressWire(m.responseDestination)
                    + [m.customPayload.Some?] + AmountWire(m.forwardTonAmount) + ForwardWire(m.forwardPayload)
    && cell.refs == CustomCells(m.customPayload) + ForwardCells(m.forwardPayload)
  }

  predicate IsJettonBurn(cell: Cell, m: JettonBurn) {
    && Uint64(m.queryId) && AmountOk(m.amount) && AddressOk(m.responseDestination)
    && cell.bits == ToBits(0x595f_07bc, 32) + ToBits(m.queryId, 64) + AmountWire(m.amount)
                    + AddressWire(m.responseDestination) + [m.customPayload.Some?]
    && cell.refs == CustomCells(m.customPayload)
  }

  predicate IsJettonInternalTransfer(cell: Cell, m: JettonInternalTransfer) {
    && Uint64(m.queryId) && AmountOk(m.amount) && AddressOk(m.from) && AddressOk(m.responseAddress)
    && AmountOk(m.forwardTonAmount)
    && cell.bits == ToBits(0x178d_4519, 32) + ToBits(m.queryId, 64) + AmountWire(m.amount)
                    + AddressWire(m.from) + AddressWire(m.responseAddress)
                    + AmountWire(m.forwardTonAmount) + ForwardWire(m.forwardPayload)
    && cell.refs == ForwardCells(m.forwardPayload)
  }

  predicate IsNftTransfer(cell: Cell, m: NftTransfer) {
    && Uint64(m.queryId) && AddressOk(m.newOwner) && AddressOk(m.responseDestination) && AmountOk(m.forwardAmount)
    && cell.bits == ToBits(0x5fcc_3d14, 32) + ToBits(m.queryId, 64)
                    + AddressWire(m.newOwner) + AddressWire(m.responseDestination)
                    + [m.customPayload.Some?] + AmountWire(m.forwardAmount) + ForwardWire(m.forwardPayload)
    && cell.refs == CustomCells(m.customPayload) + ForwardCells(m.forwardPayload)
  }

  predicate IsNftOwnershipAssigned(cell: Cell, m: NftOwnershipAssigned) {
    && Uint64(m.queryId) && AddressOk(m.prevOwner)
    && cell.bits == ToBits(0x0513_8d91, 32) + ToBits(m.queryId, 64) + AddressWire(m.prevOwner)
                    + ForwardWire(m.forwardPayload)
    && cell.refs == ForwardCells(m.forwardPayload)
  }

  predicate IsNftReportStaticData(cell: Cell, m: NftReportStaticData) {
    && Uint64(m.queryId) && m.index < Pow2(256) && AddressOk(m.collection)
    && cell.bits == ToBits(0x8b77_1735, 32) + ToBits(m.queryId, 64) + ToBits(m.index, 256) + AddressWire(m.collection)
    && cell.refs == []
  }

  predicate IsNftReportRoyaltyParams(cell: Cell, m: NftReportRoyaltyParams) {
    && Uint64(m.queryId) && m.numerator < 0x1_0000 && m.denominator < 0x1_0000 && AddressOk(m.destination)
    && cell.bits == ToBits(0xa8cb_00ad, 32) + ToBits(m.queryId, 64)
                    + ToBits(m.numerator, 16) + ToBits(m.denominator, 16) + AddressWire(m.destination)
    && cell.refs == []
  }

  // ----- The layouts of the fields -----

  /** The layout exists exactly when `ok`, and then is these bits and references. */
  predicate IsLaid(layout: Option<Chunk>, ok: bool, bits: seq<bool>, refs: seq<Cell>) {
    layout == if ok then Some(Chunk(bits, refs)) else None
  }

  lemma QueryIsLaid(op: nat, queryId: nat)
    requires op < 0x1_0000_0000
    ensures IsLaid(QueryCodec(op).layout(queryId), Uint64(queryId), ToBits(op, 32) + ToBits(queryId, 64), [])
  {
    hide ToBits, Pow2;
    Pow2ThirtyTwo();
    Pow2SixtyFour();
    RunsOfBits();
  }

  lemma Pow2SixtyFour()
    ensures Pow2(64) == 0x1_0000_0000_0000_0000 && Pow2(16) == 0x1_0000
  {
    hide Pow2;
    Pow2Eight();
    Pow2Add(8, 8);
    Pow2ThirtyTwo();
    Pow2Add(32, 32);
  }

  lemma FieldsAreLaid(op: nat)
    requires op < 0x1_0000_0000
    ensures forall q :: IsLaid(QueryCodec(op).layout(q), Uint64(q), ToBits(op, 32) + ToBits(q, 64), [])
    ensures forall n :: IsLaid(GramsCodec().layout(n), AmountOk(n), AmountWire(n), [])
    ensures forall a :: IsLaid(MsgAddressCodec().layout(a), AddressOk(a), AddressWire(a), [])
    ensures forall c :: IsLaid(CustomPayloadCodec().layout(c), true, [c.Some?], CustomCells(c))
    ensures forall p :: IsLaid(ForwardPayloadCodec().layout(p), true, ForwardWire(p), ForwardCells(p))
  {
    hide *;
    forall q ensures IsLaid(QueryCodec(op).layout(q), Uint64(q), ToBits(op, 32) + ToBits(q, 64), []) {
      QueryIsLaid(op, q);
    }
    forall n ensures IsLaid(GramsCodec().layout(n), AmountOk(n), AmountWire(n), []) {
      AmountIsLaid(n);
    }
    forall a ensures IsLaid(MsgAddressCodec().layout(a), AddressOk(a), AddressWire(a), []) {
      AddressIsLaid(a);
    }
    forall c ensures IsLaid(CustomPayloadCodec().layout(c), true, [c.Some?], CustomCells(c)) {
      CustomIsLaid(c);
    }
    forall p ensures IsLaid(ForwardPayloadCodec().layout(p), true, ForwardWire(p), ForwardCells(p)) {
      ForwardIsLaid(p);
    }
  }

  lemma AmountIsLaid(n: nat)
    ensures IsLaid(GramsCodec().layout(n), AmountOk(n), AmountWire(n), [])
  {
    hide GramsCodec, AmountWire, ByteLength;
    AmountIsWritten(n);
  }

  lemma AddressIsLaid(a: MsgAddress)
    ensures IsLaid(MsgAddressCodec().layout(a), AddressOk(a), AddressWire(a), [])
  {
    hide MsgAddressCodec, AddressWire, AddressOk;
    AddressIsWritten(a);
  }

  lemma CustomIsLaid(c: Option<Cell>)
    ensures IsLaid(CustomPayloadCodec().layout(c), true, [c.Some?], CustomCells(c))
  {
    if c.Some? {
      assert Contents(c.value).Fits() && Contents(c.value).ToCell() == c.value;
      assert OfBits([true]).Then(OfRef(c.value)) == Chunk([true], [c.value]);
    }
  }

  lemma ForwardIsLaid(p: ForwardPayload)
    ensures IsLaid(ForwardPayloadCodec().layout(p), true, ForwardWire(p), ForwardCells(p))
  {
    match p
    case Left(cell) => assert OfBits([false]).Then(Contents(cell)) == Chunk([false] + cell.bits, cell.refs);
    case Right(cell) => assert OfBits([true]).Then(OfRef(cell)) == Chunk([true], [cell]);
  }

  lemma UintIsLaid(n: nat, width: nat)
    ensures IsLaid(UintCodec(width).layout(n), n < Pow2(width), ToBits(n, width), [])
    ensures UintCodec(width).normal(n) == n
  {
    hide ToBits, Pow2;
  }

  lemma BothAreLaid()
    ensures forall x, y, okX, okY, a, b, refsA, refsB
      {:trigger Both(x, y), IsLaid(x, okX, a, refsA), IsLaid(y, okY, b, refsB)} ::
      IsLaid(x, okX, a, refsA) && IsLaid(y, okY, b, refsB) ==> IsLaid(Both(x, y), okX && okY, a + b, refsA + refsB)
  {
  }

  // ----- Seven runs of bits in a row -----

  lemma FlatThree<T>(a: seq<T>, b: seq<T>, c: seq<T>)
    ensures a + (b + c) == a + b + c
  {
  }

  lemma FlatFour<T>(a: seq<T>, b: seq<T>, c: seq<T>, d: seq<T>)
    ensures a + (b + (c + d)) == a + b + c + d
  {
    FlatThree(a, b, c + d);
    FlatThree(a + b, c, d);
  }

  lemma FlatFive<T>(a: seq<T>, b: seq<T>, c: seq<T>, d: seq<T>, e: seq<T>)
    ensures a + (b + (c + (d + e))) == a + b + c + d + e
  {
    FlatThree(a, b, c + (d + e));
    FlatFour(a + b, c, d, e);
  }

  lemma FlatSix<T>(a: seq<T>, b: seq<T>, c: seq<T>, d: seq<T>, e: seq<T>, f: seq<T>)
    ensures a + (b + (c + (d + (e + f)))) == a + b + c + d + e + f
  {
    FlatThree(a, b, c + (d + (e + f)));
    FlatFive(a + b, c, d, e, f);
  }

  lemma FlatSeven<T>(a: seq<T>, b: seq<T>, c: seq<T>, d: seq<T>, e: seq<T>, f: seq<T>, g: seq<T>)
    ensures a + (b + (c + (d + (e + (f + g))))) == a + b + c + d + e + f + g
  {
    FlatThree(a, b, c + (d + (e + (f + g))));
    FlatSix(a + b, c, d, e, f, g);
  }

  /** Encoded as a cell, and decoded exactly from it. */
  lemma CellIs<T(!new)>(c: Codec<T>, op: nat, m: T, cell: Cell, ok: bool, bits: seq<bool>, refs: seq<Cell>)
    requires MessageLaws(c, op) && IsLaid(c.layout(m), ok, bits, refs)
    ensures ToCell(c, m) == Some(cell) <==> ok && cell.bits == bits && cell.refs == refs
    ensures FromCell(c, cell) == Ok(m) <==> ToCell(c, m) == Some(cell) && c.normal(m) == m
  {
    hide TailLaws, Tagged, FromCell;
    if FromCell(c, cell) == Ok(m) {
      assert ToCell(c, FromCell(c, cell).value) == Some(cell);
      assert FromCell(c, ToCell(c, m).value) == Ok(c.normal(m));
    }
  }

  // ----- Which cell each message is -----

  /** A transfer is encoded as, and decoded from, exactly this cell; so are the other six messages below. */
  lemma JettonTransferCell(m: JettonTransfer, cell: Cell)
    ensures ToCell(JettonTransferCodec(), m) == Some(cell) <==> IsJettonTransfer(cell, m)
    ensures FromCell(JettonTransferCodec(), cell) == Ok(m) <==>
      IsJettonTransfer(cell, m) && Flagless(m.destination) && Flagless(m.responseDestination)
  {
    hide Both, IsLaid, ToCell, FromCell, MessageLaws, QueryCodec, GramsCodec, MsgAddressCodec, CustomPayloadCodec,
      ForwardPayloadCodec, Uint64, AmountOk, AddressOk, AmountWire, AddressWire, ForwardWire, CustomCells, ForwardCells,
      ToBits;
    BothAreLaid();
    FieldsAreLaid(0x0f8a_7ea5);
    JettonTransferLaws();
    FieldsStay(JETTON_TRANSFER_OP);
    var op, amount := ToBits(0x0f8a_7ea5, 32) + ToBits(m.queryId, 64), AmountWire(m.amount);
    var destination, response := AddressWire(m.destination), AddressWire(m.responseDestination);
    var custom, forwarded := [m.customPayload.Some?], AmountWire(m.forwardTonAmount);
    var bits := op + (amount + (destination + (response + (custom + (forwarded + ForwardWire(m.forwardPayload))))));
    var refs := CustomCells(m.customPayload) + ([] + ForwardCells(m.forwardPayload));
    FlatSeven(op, amount, destination, response, custom, forwarded, ForwardWire(m.forwardPayload));
    var ok := Uint64(m.queryId) && (AmountOk(m.amount) && (AddressOk(m.destination)
      && (AddressOk(m.responseDestination) && (true && (AmountOk(m.forwardTonAmount) && true)))));
    assert IsLaid(JettonTransferCodec().layout(m), ok, bits, [] + ([] + ([] + ([] + refs))));
    CellIs(JettonTransferCodec(), JETTON_TRANSFER_OP, m, cell, ok, bits, [] + ([] + ([] + ([] + refs))));
  }

  lemma JettonBurnCell(m: JettonBurn, cell: Cell)
    ensures ToCell(JettonBurnCodec(), m) == Some(cell) <==> IsJettonBurn(cell, m)
    ensures FromCell(JettonBurnCodec(), cell) == Ok(m) <==> IsJettonBurn(cell, m) && Flagless(m.responseDestination)
  {
    hide Both, IsLaid, ToCell, FromCell, MessageLaws, QueryCodec, GramsCodec, MsgAddressCodec, CustomPayloadCodec,
      ForwardPayloadCodec, Uint64, AmountOk, AddressOk, AmountWire, AddressWire, ForwardWire, CustomCells, ForwardCells,
      ToBits;
    BothAreLaid();
    FieldsAreLaid(0x595f_07bc);
    JettonBurnLaws();
    FieldsStay(JETTON_BURN_OP);
    var op, amount := ToBits(0x595f_07bc, 32) + ToBits(m.queryId, 64), AmountWire(m.amount);
    var response, custom := AddressWire(m.responseDestination), [m.customPayload.Some?];
    var bits := op + (amount + (response + custom));
    FlatFour(op, amount, response, custom);
    var ok := Uint64(m.queryId) && (AmountOk(m.amount) && (AddressOk(m.responseDestination) && true));
    CellIs(JettonBurnCodec(), JETTON_BURN_OP, m, cell, ok, bits, [] + ([] + ([] + CustomCells(m.customPayload))));
  }

  lemma JettonInternalTransferCell(m: JettonInternalTransfer, cell: Cell)
    ensures ToCell(JettonInternalTransferCodec(), m) == Some(cell) <==> IsJettonInternalTransfer(cell, m)
    ensures FromCell(JettonInternalTransferCodec(), cell) == Ok(m) <==>
      IsJettonInternalTransfer(cell, m) && Flagless(m.from) && Flagless(m.responseAddress)
  {
    hide Both, IsLaid, ToCell, FromCell, MessageLaws, QueryCodec, GramsCodec, MsgAddressCodec, CustomPayloadCodec,
      ForwardPayloadCodec, Uint64, AmountOk, AddressOk, AmountWire, AddressWire, ForwardWire, CustomCells, ForwardCells,
      ToBits;
    BothAreLaid();
    FieldsAreLaid(0x178d_4519);
    JettonInternalTransferLaws();
    FieldsStay(JETTON_INTERNAL_TRANSFER_OP);
    var op, amount := ToBits(0x178d_4519, 32) + ToBits(m.queryId, 64), AmountWire(m.amount);
    var from_, response := AddressWire(m.from), AddressWire(m.responseAddress);
    var forwarded, payload := AmountWire(m.forwardTonAmount), ForwardWire(m.forwardPayload);
    var bits := op + (amount + (from_ + (response + (forwarded + payload))));
    FlatSix(op, amount, from_, response, forwarded, payload);
    var ok := Uint64(m.queryId) && (AmountOk(m.amount) && (AddressOk(m.from)
      && (AddressOk(m.responseAddress) && (AmountOk(m.forwardTonAmount) && true))));
    var refs := [] + ([] + ([] + ([] + ([] + ForwardCells(m.forwardPayload)))));
    CellIs(JettonInternalTransferCodec(), JETTON_INTERNAL_TRANSFER_OP, m, cell, ok, bits, refs);
  }

  lemma NftTransferCell(m: NftTransfer, cell: Cell)
    ensures ToCell(NftTransferCodec(), m) == Some(cell) <==> IsNftTransfer(cell, m)
    ensures FromCell(NftTransferCodec(), cell) == Ok(m) <==>
      IsNftTransfer(cell, m) && Flagless(m.newOwner) && Flagless(m.responseDestination)
  {
    hide Both, IsLaid, ToCell, FromCell, MessageLaws, QueryCodec, GramsCodec, MsgAddressCodec, CustomPayloadCodec,
      ForwardPayloadCodec, Uint64, AmountOk, AddressOk, AmountWire, AddressWire, ForwardWire, CustomCells, ForwardCells,
      ToBits;
    BothAreLaid();
    FieldsAreLaid(0x5fcc_3d14);
    NftTransferLaws();
    FieldsStay(NFT_TRANSFER_OP);
    var op := ToBits(0x5fcc_3d14, 32) + ToBits(m.queryId, 64);
    var owner, response := AddressWire(m.newOwner), AddressWire(m.responseDestination);
    var custom, forwarded := [m.customPayload.Some?], AmountWire(m.forwardAmount);
    var payload := ForwardWire(m.forwardPayload);
    var refs := CustomCells(m.customPayload) + ([] + ForwardCells(m.forwardPayload));
    var bits := op + (owner + (response + (custom + (forwarded + payload))));
    FlatSix(op, owner, response, custom, forwarded, payload);
    var ok := Uint64(m.queryId) && (AddressOk(m.newOwner) && (AddressOk(m.responseDestination)
      && (true && (AmountOk(m.forwardAmount) && true))));
    CellIs(NftTransferCodec(), NFT_TRANSFER_OP, m, cell, ok, bits, [] + ([] + ([] + refs)));
  }

  lemma NftOwnershipAssignedCell(m: NftOwnershipAssigned, cell: Cell)
    ensures ToCell(NftOwnershipAssignedCodec(), m) == Some(cell) <==> IsNftOwnershipAssigned(cell, m)
    ensures FromCell(NftOwnershipAssignedCodec(), cell) == Ok(m) <==>
      IsNftOwnershipAssigned(cell, m) && Flagless(m.prevOwner)
  {
    hide Both, IsLaid, ToCell, FromCell, MessageLaws, QueryCodec, GramsCodec, MsgAddressCodec, CustomPayloadCodec,
      ForwardPayloadCodec, Uint64, AmountOk, AddressOk, AmountWire, AddressWire, ForwardWire, CustomCells, ForwardCells,
      ToBits;
    BothAreLaid();
    FieldsAreLaid(0x0513_8d91);
    NftOwnershipAssignedLaws();
    FieldsStay(NFT_OWNERSHIP_ASSIGNED_OP);
    var op := ToBits(0x0513_8d91, 32) + ToBits(m.queryId, 64);
    var owner, payload := AddressWire(m.prevOwner), ForwardWire(m.forwardPayload);
    var bits := op + (owner + payload);
    FlatThree(op, owner, payload);
    var ok := Uint64(m.queryId) && (AddressOk(m.prevOwner) && true);
    var refs := [] + ([] + ForwardCells(m.forwardPayload));
    CellIs(NftOwnershipAssignedCodec(), NFT_OWNERSHIP_ASSIGNED_OP, m, cell, ok, bits, refs);
  }

  lemma NftReportStaticDataCell(m: NftReportStaticData, cell: Cell)
    ensures ToCell(NftReportStaticDataCodec(), m) == Some(cell) <==> IsNftReportStaticData(cell, m)
    ensures FromCell(NftReportStaticDataCodec(), cell) == Ok(m) <==>
      IsNftReportStaticData(cell, m) && Flagless(m.collection)
  {
    hide Both, IsLaid, ToCell, FromCell, MessageLaws, QueryCodec, GramsCodec, MsgAddressCodec, CustomPayloadCodec,
      ForwardPayloadCodec, Uint64, AmountOk, AddressOk, AmountWire, AddressWire, ForwardWire, CustomCells, ForwardCells,
      ToBits, UintCodec, Pow2;
    BothAreLaid();
    FieldsAreLaid(0x8b77_1735);
    UintIsLaid(m.index, 256);
    NftReportStaticDataLaws();
    FieldsStay(NFT_REPORT_STATIC_DATA_OP);
    var op := ToBits(0x8b77_1735, 32) + ToBits(m.queryId, 64);
    var index, collection := ToBits(m.index, 256), AddressWire(m.collection);
    var bits := op + (index + collection);
    FlatThree(op, index, collection);
    var ok := Uint64(m.queryId) && (m.index < Pow2(256) && AddressOk(m.collection));
    CellIs(NftReportStaticDataCodec(), NFT_REPORT_STATIC_DATA_OP, m, cell, ok, bits, [] + ([] + []));
  }

  lemma NftReportRoyaltyParamsCell(m: NftReportRoyaltyParams, cell: Cell)
    ensures ToCell(NftReportRoyaltyParamsCodec(), m) == Some(cell) <==> IsNftReportRoyaltyParams(cell, m)
    ensures FromCell(NftReportRoyaltyParamsCodec(), cell) == Ok(m) <==>
      IsNftReportRoyaltyParams(cell, m) && Flagless(m.destination)
  {
    hide Both, IsLaid, ToCell, FromCell, MessageLaws, QueryCodec, GramsCodec, MsgAddressCodec, CustomPayloadCodec,
      ForwardPayloadCodec, Uint64, AmountOk, AddressOk, AmountWire, AddressWire, ForwardWire, CustomCells, ForwardCells,
      ToBits, UintCodec, Pow2;
    BothAreLaid();
    FieldsAreLaid(0xa8cb_00ad);
    UintIsLaid(m.numerator, 16);
    UintIsLaid(m.denominator, 16);
    Pow2SixtyFour();
    NftReportRoyaltyParamsLaws();
    FieldsStay(NFT_REPORT_ROYALTY_PARAMS_OP);
    var op := ToBits(0xa8cb_00ad, 32) + ToBits(m.queryId, 64);
    var numerator, denominator := ToBits(m.numerator, 16), ToBits(m.denominator, 16);
    var destination := AddressWire(m.destination);
    var bits := op + (numerator + (denominator + destination));
    FlatFour(op, numerator, denominator, destination);
    var ok := Uint64(m.queryId) && (m.numerator < 0x1_0000 && (m.denominator < 0x1_0000 && AddressOk(m.destination)));
    CellIs(NftReportRoyaltyParamsCodec(), NFT_REPORT_ROYALTY_PARAMS_OP, m, cell, ok, bits, [] + ([] + ([] + [])));
  }

  lemma FieldsStay(op: nat)
    ensures forall q :: QueryCodec(op).normal(q) == q
    ensures forall n :: GramsCodec().normal(n) == n
    ensures forall a :: MsgAddressCodec().normal(a) == a <==> Flagless(a)
    ensures forall c :: CustomPayloadCodec().normal(c) == c
    ensures forall f :: ForwardPayloadCodec().normal(f) == f
  {
    FieldNormals(op);
  }
}
