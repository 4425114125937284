/** When a jetton or NFT message body fits a cell: which fields can be written, and the room they take. */
module PayloadSizes {
  import opened Addresses
  import opened Bits
  import opened Cells
  import opened Payloads
  import opened TlbCore
  import opened VarUint
  import opened Wrappers

  // ----- Sizes of layouts -----

  function BitLen(layout: Option<Chunk>): nat {
    if layout.Some? then |layout.value.bits| else 0
  }

  function RefLen(layout: Option<Chunk>): nat {
    if layout.Some? then |layout.value.refs| else 0
  }

  /** The layout exists exactly when `ok`, and then has this size. */
  predicate Measures(layout: Option<Chunk>, ok: bool, bits: nat, refs: nat) {
    (layout.Some? <==> ok) && (ok ==> BitLen(layout) == bits && RefLen(layout) == refs)
  }

  lemma BothMeasure()
    ensures forall x, y {:trigger Both(x, y)} ::
      Measures(Both(x, y), x.Some? && y.Some?, BitLen(x) + BitLen(y), RefLen(x) + RefLen(y))
  {
  }

  lemma ToCellIff<T>(c: Codec<T>, v: T)
    ensures ToCell(c, v).Some? <==>
      c.layout(v).Some? && BitLen(c.layout(v)) <= MAX_CELL_BITS && RefLen(c.layout(v)) <= MAX_CELL_REFS
  {
  }

  // ----- Fields -----

  predicate AnycastOk(a: Option<Anycast>) {
    a.Some? ==> |a.value.rewritePfx| == a.value.depth && 1 <= a.value.depth <= 30
  }

  function AnycastBits(a: Option<Anycast>): nat {
    if a.Some? then 6 + |a.value.rewritePfx| else 1
  }

  /** The addresses that can be written. */
  predicate AddressOk(a: MsgAddress) {
    match a
    case Internal(Std(anycast, _)) => AnycastOk(anycast)
    case Internal(Var(anycast, _, bits, bitLen)) => AnycastOk(anycast) && |bits| == bitLen <= 511
    case External(Absent) => true
    case External(Extern(bits, bitLen)) => |bits| == bitLen <= 511
  }

  function AddressBits(a: MsgAddress): nat {
    match a
    case Internal(Std(anycast, _)) => 2 + AnycastBits(anycast) + 8 + 256
    case Internal(Var(anycast, _, bits, _)) => 2 + AnycastBits(anycast) + 9 + 32 + |bits|
    case External(Absent) => 2
    case External(Extern(bits, _)) => 2 + 9 + |bits|
  }

  lemma AddressMeasures(a: MsgAddress)
    ensures Measures(MsgAddressCodec().layout(a), AddressOk(a), AddressBits(a), 0)
  {
    hide BytesToBits, I8Bits, I32Bits, ToBits;
  }

  /** Fifteen bytes at most. */
  predicate GramsOk(value: nat) {
    value < Pow2(120)
  }

  function GramsBits(value: nat): nat {
    4 + 8 * |MagnitudeBytes(value)|
  }

  lemma GramsMeasures(value: nat)
    ensures Measures(GramsCodec().layout(value), GramsOk(value), GramsBits(value), 0)
    ensures GramsOk(value) ==> GramsBits(value) <= 124
  {
    hide BytesToBits, ToBits, MagnitudeBytes;
    FourBits();
    hide Pow2;
    MagnitudeLength(value, 15);
  }

  lemma FourBits()
    ensures Pow2(4) == 16
  {
  }

  function CustomRefs(payload: Option<Cell>): nat {
    if payload.Some? then 1 else 0
  }

  function ForwardBits(payload: ForwardPayload): nat {
    if payload.Left? then 1 + |payload.left.bits| else 1
  }

  function ForwardRefs(payload: ForwardPayload): nat {
    if payload.Left? then |payload.left.refs| else 1
  }

  lemma CustomMeasures(custom: Option<Cell>)
    ensures Measures(CustomPayloadCodec().layout(custom), true, 1, CustomRefs(custom))
  {
  }

  lemma ForwardMeasures(forward: ForwardPayload)
    ensures Measures(ForwardPayloadCodec().layout(forward), true, ForwardBits(forward), ForwardRefs(forward))
  {
  }

  lemma UintMeasures(value: nat, width: nat)
    ensures Measures(UintCodec(width).layout(value), UnsignedFits(value, width), width, 0)
  {
    hide ToBits, UnsignedFits;
  }

  lemma QueryMeasures(op: nat, queryId: nat)
    requires UnsignedFits(op, 32)
    ensures Measures(QueryCodec(op).layout(queryId), UnsignedFits(queryId, 64), 96, 0)
  {
    hide ToBits, UnsignedFits;
  }

  lemma OpsFit()
    ensures UnsignedFits(JETTON_TRANSFER_OP, 32) && UnsignedFits(JETTON_BURN_OP, 32)
    ensures UnsignedFits(JETTON_INTERNAL_TRANSFER_OP, 32) && UnsignedFits(NFT_TRANSFER_OP, 32)
    ensures UnsignedFits(NFT_OWNERSHIP_ASSIGNED_OP, 32) && UnsignedFits(NFT_REPORT_STATIC_DATA_OP, 32)
    ensures UnsignedFits(NFT_REPORT_ROYALTY_PARAMS_OP, 32)
  {
    hide Pow2;
    Pow2ThirtyTwo();
  }

  lemma FieldsMeasure(op: nat)
    requires UnsignedFits(op, 32)
    ensures forall q :: Measures(QueryCodec(op).layout(q), UnsignedFits(q, 64), 96, 0)
    ensures forall n :: Measures(GramsCodec().layout(n), GramsOk(n), GramsBits(n), 0)
    ensures forall a :: Measures(MsgAddressCodec().layout(a), AddressOk(a), AddressBits(a), 0)
    ensures forall c :: Measures(CustomPayloadCodec().layout(c), true, 1, CustomRefs(c))
    ensures forall p :: Measures(ForwardPayloadCodec().layout(p), true, ForwardBits(p), ForwardRefs(p))
  {
    hide *;
    forall q ensures Measures(QueryCodec(op).layout(q), UnsignedFits(q, 64), 96, 0) {
      QueryMeasures(op, q);
    }
    forall n ensures Measures(GramsCodec().layout(n), GramsOk(n), GramsBits(n), 0) {
      GramsMeasures(n);
    }
    forall a ensures Measures(MsgAddressCodec().layout(a), AddressOk(a), AddressBits(a), 0) {
      AddressMeasures(a);
    }
    forall c ensures Measures(CustomPayloadCodec().layout(c), true, 1, CustomRefs(c)) {
      CustomMeasures(c);
    }
    forall p ensures Measures(ForwardPayloadCodec().layout(p), true, ForwardBits(p), ForwardRefs(p)) {
      ForwardMeasures(p);
    }
  }

  // ----- Messages: exactly when they encode -----

  lemma JettonTransferEncodesIff(m: JettonTransfer)
    ensures ToCell(JettonTransferCodec(), m).Some? <==>
      && UnsignedFits(m.queryId, 64) && GramsOk(m.amount) && AddressOk(m.destination)
      && AddressOk(m.responseDestination) && GramsOk(m.forwardTonAmount)
      && 96 + GramsBits(m.amount) + AddressBits(m.destination) + AddressBits(m.responseDestination)
         + 1 + GramsBits(m.forwardTonAmount) + ForwardBits(m.forwardPayload) <= MAX_CELL_BITS
      && CustomRefs(m.customPayload) + ForwardRefs(m.forwardPayload) <= MAX_CELL_REFS
  {
    hide Both, BitLen, RefLen, ToCell, QueryCodec, GramsCodec, MsgAddressCodec, CustomPayloadCodec, ForwardPayloadCodec,
      UintLayout, UnsignedFits, GramsOk, GramsBits, AddressOk, AddressBits, CustomRefs, ForwardBits, ForwardRefs;
    OpsFit();
    BothMeasure();
    FieldsMeasure(JETTON_TRANSFER_OP);
    ToCellIff(JettonTransferCodec(), m);
    var afterForwardTonAmount := ForwardPayloadCodec().layout(m.forwardPayload);
    var afterCustomPayload := Both(GramsCodec().layout(m.forwardTonAmount), afterForwardTonAmount);
    var afterResponseDestination := Both(CustomPayloadCodec().layout(m.customPayload), afterCustomPayload);
    var afterDestination := Both(MsgAddressCodec().layout(m.responseDestination), afterResponseDestination);
    var afterAmount := Both(MsgAddressCodec().layout(m.destination), afterDestination);
    var body := Both(GramsCodec().layout(m.amount), afterAmount);
    assert JettonTransferCodec().layout(m) == Both(QueryCodec(JETTON_TRANSFER_OP).layout(m.queryId), body);
  }

  lemma JettonBurnEncodesIff(m: JettonBurn)
    ensures ToCell(JettonBurnCodec(), m).Some? <==>
      && UnsignedFits(m.queryId, 64) && GramsOk(m.amount) && AddressOk(m.responseDestination)
      && 96 + GramsBits(m.amount) + AddressBits(m.responseDestination) + 1 <= MAX_CELL_BITS
      && CustomRefs(m.customPayload) <= MAX_CELL_REFS
  {
    hide Both, BitLen, RefLen, ToCell, QueryCodec, GramsCodec, MsgAddressCodec, CustomPayloadCodec, ForwardPayloadCodec,
      UintLayout, UnsignedFits, GramsOk, GramsBits, AddressOk, AddressBits, CustomRefs, ForwardBits, ForwardRefs;
    OpsFit();
    BothMeasure();
    FieldsMeasure(JETTON_BURN_OP);
    ToCellIff(JettonBurnCodec(), m);
    var afterResponseDestination := CustomPayloadCodec().layout(m.customPayload);
    var afterAmount := Both(MsgAddressCodec().layout(m.responseDestination), afterResponseDestination);
    var body := Both(GramsCodec().layout(m.amount), afterAmount);
    assert JettonBurnCodec().layout(m) == Both(QueryCodec(JETTON_BURN_OP).layout(m.queryId), body);
  }

  lemma JettonInternalTransferEncodesIff(m: JettonInternalTransfer)
    ensures ToCell(JettonInternalTransferCodec(), m).Some? <==>
      && UnsignedFits(m.queryId, 64) && GramsOk(m.amount) && AddressOk(m.from)
      && AddressOk(m.responseAddress) && GramsOk(m.forwardTonAmount)
      && 96 + GramsBits(m.amount) + AddressBits(m.from) + AddressBits(m.responseAddress)
         + GramsBits(m.forwardTonAmount) + ForwardBits(m.forwardPayload) <= MAX_CELL_BITS
      && ForwardRefs(m.forwardPayload) <= MAX_CELL_REFS
  {
    hide Both, BitLen, RefLen, ToCell, QueryCodec, GramsCodec, MsgAddressCodec, CustomPayloadCodec, ForwardPayloadCodec,
      UintLayout, UnsignedFits, GramsOk, GramsBits, AddressOk, AddressBits, CustomRefs, ForwardBits, ForwardRefs;
    OpsFit();
    BothMeasure();
    FieldsMeasure(JETTON_INTERNAL_TRANSFER_OP);
    ToCellIff(JettonInternalTransferCodec(), m);
    var afterForwardTonAmount := ForwardPayloadCodec().layout(m.forwardPayload);
    var afterResponseAddress := Both(GramsCodec().layout(m.forwardTonAmount), afterForwardTonAmount);
    var afterFrom := Both(MsgAddressCodec().layout(m.responseAddress), afterResponseAddress);
    var afterAmount := Both(MsgAddressCodec().layout(m.from), afterFrom);
    var body := Both(GramsCodec().layout(m.amount), afterAmount);
    assert JettonInternalTransferCodec().layout(m)
        == Both(QueryCodec(JETTON_INTERNAL_TRANSFER_OP).layout(m.queryId), body);
  }

  lemma NftTransferEncodesIff(m: NftTransfer)
    ensures ToCell(NftTransferCodec(), m).Some? <==>
      && UnsignedFits(m.queryId, 64) && AddressOk(m.newOwner) && AddressOk(m.responseDestination)
      && GramsOk(m.forwardAmount)
      && 96 + AddressBits(m.newOwner) + AddressBits(m.responseDestination) + 1
         + GramsBits(m.forwardAmount) + ForwardBits(m.forwardPayload) <= MAX_CELL_BITS
      && CustomRefs(m.customPayload) + ForwardRefs(m.forwardPayload) <= MAX_CELL_REFS
  {
    hide Both, BitLen, RefLen, ToCell, QueryCodec, GramsCodec, MsgAddressCodec, CustomPayloadCodec, ForwardPayloadCodec,
      UintLayout, UnsignedFits, GramsOk, GramsBits, AddressOk, AddressBits, CustomRefs, ForwardBits, ForwardRefs;
    OpsFit();
    BothMeasure();
    FieldsMeasure(NFT_TRANSFER_OP);
    ToCellIff(NftTransferCodec(), m);
    var afterForwardAmount := ForwardPayloadCodec().layout(m.forwardPayload);
    var afterCustomPayload := Both(GramsCodec().layout(m.forwardAmount), afterForwardAmount);
    var afterResponseDestination := Both(CustomPayloadCodec().layout(m.customPayload), afterCustomPayload);
    var afterNewOwner := Both(MsgAddressCodec().layout(m.responseDestination), afterResponseDestination);
    var body := Both(MsgAddressCodec().layout(m.newOwner), afterNewOwner);
    assert NftTransferCodec().layout(m) == Both(QueryCodec(NFT_TRANSFER_OP).layout(m.queryId), body);
  }

  lemma NftOwnershipAssignedEncodesIff(m: NftOwnershipAssigned)
    ensures ToCell(NftOwnershipAssignedCodec(), m).Some? <==>
      && UnsignedFits(m.queryId, 64) && AddressOk(m.prevOwner)
      && 96 + AddressBits(m.prevOwner) + ForwardBits(m.forwardPayload) <= MAX_CELL_BITS
      && ForwardRefs(m.forwardPayload) <= MAX_CELL_REFS
  {
    hide Both, BitLen, RefLen, ToCell, QueryCodec, GramsCodec, MsgAddressCodec, CustomPayloadCodec, ForwardPayloadCodec,
      UintLayout, UnsignedFits, GramsOk, GramsBits, AddressOk, AddressBits, CustomRefs, ForwardBits, ForwardRefs;
    OpsFit();
    BothMeasure();
    FieldsMeasure(NFT_OWNERSHIP_ASSIGNED_OP);
    ToCellIff(NftOwnershipAssignedCodec(), m);
    var afterPrevOwner := ForwardPayloadCodec().layout(m.forwardPayload);
    var body := Both(MsgAddressCodec().layout(m.prevOwner), afterPrevOwner);
    assert NftOwnershipAssignedCodec().layout(m) == Both(QueryCodec(NFT_OWNERSHIP_ASSIGNED_OP).layout(m.queryId), body);
  }

  lemma NftReportStaticDataEncodesIff(m: NftReportStaticData)
    ensures ToCell(NftReportStaticDataCodec(), m).Some? <==>
      && UnsignedFits(m.queryId, 64) && UnsignedFits(m.index, 256) && AddressOk(m.collection)
      && 96 + 256 + AddressBits(m.collection) <= MAX_CELL_BITS
  {
    hide Both, BitLen, RefLen, ToCell, QueryCodec, GramsCodec, MsgAddressCodec, CustomPayloadCodec, ForwardPayloadCodec,
      UintLayout, UnsignedFits, GramsOk, GramsBits, AddressOk, AddressBits, CustomRefs, ForwardBits, ForwardRefs;
    OpsFit();
    BothMeasure();
    FieldsMeasure(NFT_REPORT_STATIC_DATA_OP);
    UintMeasures(m.index, 256);
    ToCellIff(NftReportStaticDataCodec(), m);
    var afterIndex := MsgAddressCodec().layout(m.collection);
    var body := Both(UintCodec(256).layout(m.index), afterIndex);
    assert NftReportStaticDataCodec().layout(m) == Both(QueryCodec(NFT_REPORT_STATIC_DATA_OP).layout(m.queryId), body);
  }

  lemma NftReportRoyaltyParamsEncodesIff(m: NftReportRoyaltyParams)
    ensures ToCell(NftReportRoyaltyParamsCodec(), m).Some? <==>
      && UnsignedFits(m.queryId, 64) && UnsignedFits(m.numerator, 16) && UnsignedFits(m.denominator, 16)
      && AddressOk(m.destination)
      && 96 + 16 + 16 + AddressBits(m.destination) <= MAX_CELL_BITS
  {
    hide Both, BitLen, RefLen, ToCell, QueryCodec, GramsCodec, MsgAddressCodec, CustomPayloadCodec, ForwardPayloadCodec,
      UintLayout, UnsignedFits, GramsOk, GramsBits, AddressOk, AddressBits, CustomRefs, ForwardBits, ForwardRefs;
    OpsFit();
    BothMeasure();
    FieldsMeasure(NFT_REPORT_ROYALTY_PARAMS_OP);
    UintMeasures(m.numerator, 16);
    UintMeasures(m.denominator, 16);
    ToCellIff(NftReportRoyaltyParamsCodec(), m);
    var afterDenominator := MsgAddressCodec().layout(m.destination);
    var afterNumerator := Both(UintCodec(16).layout(m.denominator), afterDenominator);
    var body := Both(UintCodec(16).layout(m.numerator), afterNumerator);
    assert NftReportRoyaltyParamsCodec().layout(m)
        == Both(QueryCodec(NFT_REPORT_ROYALTY_PARAMS_OP).layout(m.queryId), body);
  }

  // ----- A common case -----

  /** An address of the standard form without anycast, the kind the constructor of a transfer makes. */
  predicate Standard(a: MsgAddress) {
    a.Internal? && a.int_.Std? && a.int_.anycast == None
  }

  /**
   * A transfer between standard addresses, of amounts that fit their fields, always encodes with a referenced forward
   * payload, and encodes with an inline one exactly when that fits in the room left by the other fields.
   */
  lemma StandardTransferEncodesIff(m: JettonTransfer)
    requires Standard(m.destination) && Standard(m.responseDestination) && UnsignedFits(m.queryId, 64)
    requires GramsOk(m.amount) && GramsOk(m.forwardTonAmount)
    ensures ToCell(JettonTransferCodec(), m).Some? <==>
      match m.forwardPayload
      case Right(_) => true
      case Left(payload) =>
        && 640 + 8 * (|MagnitudeBytes(m.amount)| + |MagnitudeBytes(m.forwardTonAmount)|) + |payload.bits|
           <= MAX_CELL_BITS
        && CustomRefs(m.customPayload) + |payload.refs| <= MAX_CELL_REFS
  {
    hide ToCell, JettonTransferCodec, GramsOk, UnsignedFits, MagnitudeBytes;
    GramsMeasures(m.amount);
    GramsMeasures(m.forwardTonAmount);
    JettonTransferEncodesIff(m);
  }
}
