/**
 * Jetton and NFT message bodies (src/jetton/payload.rs, src/nft/payload.rs), each a sequence of self-delimiting fields
 * that may end with one tail field, the forward payload.
 */
module Payloads {
  import opened Addresses
  import opened Bits
  import opened Cells
  import opened TlbCore
  import opened TlbLaws
  import opened VarUint
  import opened Wrappers

  const JETTON_TRANSFER_OP: nat := 0x0f8a_7ea5
  const JETTON_BURN_OP: nat := 0x595f_07bc
  const JETTON_INTERNAL_TRANSFER_OP: nat := 0x178d_4519
  const NFT_TRANSFER_OP: nat := 0x5fcc_3d14
  const NFT_OWNERSHIP_ASSIGNED_OP: nat := 0x0513_8d91
  const NFT_REPORT_STATIC_DATA_OP: nat := 0x8b77_1735
  const NFT_REPORT_ROYALTY_PARAMS_OP: nat := 0xa8cb_00ad

  /** Inline in the rest of the body, or behind a reference. */
  type ForwardPayload = Either<Cell, Cell>

  datatype JettonTransfer = JettonTransfer(
    queryId: nat, amount: nat, destination: MsgAddress, responseDestination: MsgAddress,
    customPayload: Option<Cell>, forwardTonAmount: nat, forwardPayload: ForwardPayload)

  datatype JettonBurn = JettonBurn(
    queryId: nat, amount: nat, responseDestination: MsgAddress, customPayload: Option<Cell>)

  datatype JettonInternalTransfer = JettonInternalTransfer(
    queryId: nat, amount: nat, from: MsgAddress, responseAddress: MsgAddress,
    forwardTonAmount: nat, forwardPayload: ForwardPayload)

  datatype NftTransfer = NftTransfer(
    queryId: nat, newOwner: MsgAddress, responseDestination: MsgAddress,
    customPayload: Option<Cell>, forwardAmount: nat, forwardPayload: ForwardPayload)

  datatype NftOwnershipAssigned = NftOwnershipAssigned(
    queryId: nat, prevOwner: MsgAddress, forwardPayload: ForwardPayload)

  datatype NftReportStaticData = NftReportStaticData(queryId: nat, index: nat, collection: MsgAddress)

  datatype NftReportRoyaltyParams = NftReportRoyaltyParams(
    queryId: nat, numerator: nat, denominator: nat, destination: MsgAddress)

  // ----- The fields -----

  /** `expect_op`, then the 64-bit query id. */
  function QueryCodec(op: nat): Codec<nat> {
    MapCodec(PairCodec(OpCodec(op), UintCodec(64)), (v: ((), nat)) => v.1, (q: nat) => ((), q))
  }

  function CustomPayloadCodec(): Codec<Option<Cell>> {
    MaybeCodec(RefCodec(RawCodec()))
  }

  function ForwardPayloadCodec(): Codec<ForwardPayload> {
    EitherCodec(RawCodec(), RefCodec(RawCodec()))
  }

  lemma QueryCodecLaws(op: nat)
    ensures FieldLaws(QueryCodec(op))
  {
    OpCodecLaws(op);
    UintCodecLaws(64);
    FieldThenField(OpCodec(op), UintCodec(64));
    var to, from := (v: ((), nat)) => v.1, (q: nat) => ((), q);
    assert Renaming(to, from) by {
      forall x: ((), nat) ensures from(to(x)) == x {
        assert x.0 == ();
      }
    }
    Renamed(PairCodec(OpCodec(op), UintCodec(64)), to, from);
    assert QueryCodec(op) == MapCodec(PairCodec(OpCodec(op), UintCodec(64)), to, from);
  }

  lemma FieldsObeyLaws()
    ensures FieldLaws(GramsCodec()) && FieldLaws(MsgAddressCodec())
    ensures FieldLaws(CustomPayloadCodec()) && TailLaws(ForwardPayloadCodec())
  {
    VarUintCodecLaws(4);
    MsgAddressCodecLaws();
    RawCodecLaws();
    RefCodecLaws(RawCodec());
    MaybeCodecLaws(RefCodec(RawCodec()));
    FieldAsTail(RefCodec(RawCodec()));
    EitherCodecLaws(RawCodec(), RefCodec(RawCodec()));
  }

  /** A field is left as it is, except that an address forgets its text flags. */
  lemma FieldNormals(op: nat)
    ensures forall q :: QueryCodec(op).normal(q) == q
    ensures forall n :: GramsCodec().normal(n) == n
    ensures forall a :: MsgAddressCodec().normal(a) == NormalMsgAddress(a)
    ensures forall c :: CustomPayloadCodec().normal(c) == c
    ensures forall f :: ForwardPayloadCodec().normal(f) == f
  {
  }

  // ----- The operation code in front -----

  /** Refuses every slice that does not start with the operation code. */
  ghost predicate Tagged<T(!new)>(c: Codec<T>, op: nat) {
    forall s: Chunk :: c.load(s).Some? ==> TakeUint(s, 32).Some? && TakeUint(s, 32).value.0 == op
  }

  lemma QueryIsTagged(op: nat)
    ensures Tagged(QueryCodec(op), op)
  {
    hide FromBits;
  }

  lemma StillTagged<A(!new), B(!new)>(a: Codec<A>, b: Codec<B>, op: nat)
    requires Tagged(a, op)
    ensures Tagged(PairCodec(a, b), op)
  {
    hide TakeUint;
  }

  lemma RenamedIsTagged<A(!new), B(!new)>(c: Codec<A>, to: A -> B, from: B -> A, op: nat)
    requires Tagged(c, op)
    ensures Tagged(MapCodec(c, to, from), op)
  {
    hide TakeUint;
  }

  /** What every message codec promises. */
  ghost predicate MessageLaws<T(!new)>(c: Codec<T>, op: nat) {
    TailLaws(c) && Tagged(c, op) && ExactRoundTrips(c)
  }

  /** The operation code, the query id and the rest of the body, as a record. */
  function MessageCodec<B, M>(op: nat, body: Codec<B>, to: ((nat, B)) -> M, from: M -> (nat, B)): Codec<M> {
    MapCodec(PairCodec(QueryCodec(op), body), to, from)
  }

  lemma MessageObeysLaws<B(!new), M(!new)>(op: nat, body: Codec<B>, to: ((nat, B)) -> M, from: M -> (nat, B))
    requires TailLaws(body) && Renaming(to, from)
    ensures MessageLaws(MessageCodec(op, body, to, from), op)
  {
    hide TailLaws, FieldLaws, Tagged, ExactRoundTrips, MapCodec, PairCodec, QueryCodec, Renaming;
    var c := PairCodec(QueryCodec(op), body);
    QueryCodecLaws(op);
    QueryIsTagged(op);
    var _ := Prepend(QueryCodec(op), body);
    StillTagged(QueryCodec(op), body, op);
    Renamed(c, to, from);
    RenamedIsTagged(c, to, from, op);
    TailRoundTrips(MapCodec(c, to, from));
  }

  /** A message of one kind is malformed to the decoder of every other kind. */
  lemma OtherKindIsRefused<A(!new), B(!new)>(a: Codec<A>, opA: nat, b: Codec<B>, opB: nat, v: A)
    requires MessageLaws(a, opA) && MessageLaws(b, opB) && opA != opB
    requires ToCell(a, v).Some?
    ensures FromCell(b, ToCell(a, v).value) == Err(Malformed)
  {
    hide TakeUint;
    var chunk := a.layout(v).value;
    assert Contents(chunk.ToCell()) == chunk;
    assert a.load(chunk).Some?;
    if b.load(chunk).Some? {
      assert false;
    }
  }

  // ----- The messages -----

  type JettonTransferBody = (nat, (MsgAddress, (MsgAddress, (Option<Cell>, (nat, ForwardPayload)))))

  const JETTON_TRANSFER_OF := (p: (nat, JettonTransferBody)) =>
    JettonTransfer(p.0, p.1.0, p.1.1.0, p.1.1.1.0, p.1.1.1.1.0, p.1.1.1.1.1.0, p.1.1.1.1.1.1)
  const JETTON_TRANSFER_PARTS := (m: JettonTransfer) =>
    (m.queryId, (m.amount, (m.destination, (m.responseDestination,
     (m.customPayload, (m.forwardTonAmount, m.forwardPayload))))))

  function JettonTransferBodyCodec(): Codec<JettonTransferBody> {
    PairCodec(GramsCodec(), PairCodec(MsgAddressCodec(),
      PairCodec(MsgAddressCodec(), PairCodec(CustomPayloadCodec(), PairCodec(GramsCodec(), ForwardPayloadCodec())))))
  }

  function JettonTransferCodec(): Codec<JettonTransfer> {
    MessageCodec(JETTON_TRANSFER_OP, JettonTransferBodyCodec(), JETTON_TRANSFER_OF, JETTON_TRANSFER_PARTS)
  }

  lemma JettonTransferLaws()
    ensures MessageLaws(JettonTransferCodec(), JETTON_TRANSFER_OP)
  {
    hide FieldLaws, TailLaws, MessageLaws, MessageCodec, PairCodec, GramsCodec, MsgAddressCodec, CustomPayloadCodec,
      ForwardPayloadCodec;
    FieldsObeyLaws();
    var afterCustomPayload := Prepend(GramsCodec(), ForwardPayloadCodec());
    var afterResponseDestination := Prepend(CustomPayloadCodec(), afterCustomPayload);
    var afterDestination := Prepend(MsgAddressCodec(), afterResponseDestination);
    var afterAmount := Prepend(MsgAddressCodec(), afterDestination);
    var body := Prepend(GramsCodec(), afterAmount);
    assert Renaming(JETTON_TRANSFER_OF, JETTON_TRANSFER_PARTS);
    MessageObeysLaws(JETTON_TRANSFER_OP, body, JETTON_TRANSFER_OF, JETTON_TRANSFER_PARTS);
  }

  lemma JettonTransferRoundTrip(m: JettonTransfer)
    requires ToCell(JettonTransferCodec(), m).Some?
    ensures FromCell(JettonTransferCodec(), ToCell(JettonTransferCodec(), m).value) ==
      Ok(m.(destination := NormalMsgAddress(m.destination),
        responseDestination := NormalMsgAddress(m.responseDestination)))
  {
    hide ToCell, FromCell, TailLaws, Tagged, QueryCodec, GramsCodec, MsgAddressCodec, CustomPayloadCodec,
      ForwardPayloadCodec;
    FieldNormals(JETTON_TRANSFER_OP);
    JettonTransferLaws();
  }

  type JettonBurnBody = (nat, (MsgAddress, Option<Cell>))

  const JETTON_BURN_OF := (p: (nat, JettonBurnBody)) =>
    JettonBurn(p.0, p.1.0, p.1.1.0, p.1.1.1)
  const JETTON_BURN_PARTS := (m: JettonBurn) =>
    (m.queryId, (m.amount, (m.responseDestination, m.customPayload)))

  function JettonBurnBodyCodec(): Codec<JettonBurnBody> {
    PairCodec(GramsCodec(), PairCodec(MsgAddressCodec(), CustomPayloadCodec()))
  }

  function JettonBurnCodec(): Codec<JettonBurn> {
    MessageCodec(JETTON_BURN_OP, JettonBurnBodyCodec(), JETTON_BURN_OF, JETTON_BURN_PARTS)
  }

  lemma JettonBurnLaws()
    ensures MessageLaws(JettonBurnCodec(), JETTON_BURN_OP)
  {
    hide FieldLaws, TailLaws, MessageLaws, MessageCodec, PairCodec, GramsCodec, MsgAddressCodec, CustomPayloadCodec,
      ForwardPayloadCodec;
    FieldsObeyLaws();
    FieldAsTail(CustomPayloadCodec());
    var afterAmount := Prepend(MsgAddressCodec(), CustomPayloadCodec());
    var body := Prepend(GramsCodec(), afterAmount);
    assert Renaming(JETTON_BURN_OF, JETTON_BURN_PARTS);
    MessageObeysLaws(JETTON_BURN_OP, body, JETTON_BURN_OF, JETTON_BURN_PARTS);
  }

  lemma JettonBurnRoundTrip(m: JettonBurn)
    requires ToCell(JettonBurnCodec(), m).Some?
    ensures FromCell(JettonBurnCodec(), ToCell(JettonBurnCodec(), m).value) ==
      Ok(m.(responseDestination := NormalMsgAddress(m.responseDestination)))
  {
    hide ToCell, FromCell, TailLaws, Tagged, QueryCodec, GramsCodec, MsgAddressCodec, CustomPayloadCodec,
      ForwardPayloadCodec;
    FieldNormals(JETTON_BURN_OP);
    JettonBurnLaws();
  }

  type JettonInternalTransferBody = (nat, (MsgAddress, (MsgAddress, (nat, ForwardPayload))))

  const JETTON_INTERNAL_TRANSFER_OF := (p: (nat, JettonInternalTransferBody)) =>
    JettonInternalTransfer(p.0, p.1.0, p.1.1.0, p.1.1.1.0, p.1.1.1.1.0, p.1.1.1.1.1)
  const JETTON_INTERNAL_TRANSFER_PARTS := (m: JettonInternalTransfer) =>
    (m.queryId, (m.amount, (m.from, (m.responseAddress, (m.forwardTonAmount, m.forwardPayload)))))

  function JettonInternalTransferBodyCodec(): Codec<JettonInternalTransferBody> {
    PairCodec(GramsCodec(), PairCodec(MsgAddressCodec(),
      PairCodec(MsgAddressCodec(), PairCodec(GramsCodec(), ForwardPayloadCodec()))))
  }

  function JettonInternalTransferCodec(): Codec<JettonInternalTransfer> {
    MessageCodec(JETTON_INTERNAL_TRANSFER_OP, JettonInternalTransferBodyCodec(),
                 JETTON_INTERNAL_TRANSFER_OF, JETTON_INTERNAL_TRANSFER_PARTS)
  }

  lemma JettonInternalTransferLaws()
    ensures MessageLaws(JettonInternalTransferCodec(), JETTON_INTERNAL_TRANSFER_OP)
  {
    hide FieldLaws, TailLaws, MessageLaws, MessageCodec, PairCodec, GramsCodec, MsgAddressCodec, CustomPayloadCodec,
      ForwardPayloadCodec;
    FieldsObeyLaws();
    var afterResponseAddress := Prepend(GramsCodec(), ForwardPayloadCodec());
    var afterFrom := Prepend(MsgAddressCodec(), afterResponseAddress);
    var afterAmount := Prepend(MsgAddressCodec(), afterFrom);
    var body := Prepend(GramsCodec(), afterAmount);
    assert Renaming(JETTON_INTERNAL_TRANSFER_OF, JETTON_INTERNAL_TRANSFER_PARTS);
    MessageObeysLaws(JETTON_INTERNAL_TRANSFER_OP, body, JETTON_INTERNAL_TRANSFER_OF, JETTON_INTERNAL_TRANSFER_PARTS);
  }

  lemma JettonInternalTransferRoundTrip(m: JettonInternalTransfer)
    requires ToCell(JettonInternalTransferCodec(), m).Some?
    ensures FromCell(JettonInternalTransferCodec(), ToCell(JettonInternalTransferCodec(), m).value) ==
      Ok(m.(from := NormalMsgAddress(m.from),
        responseAddress := NormalMsgAddress(m.responseAddress)))
  {
    hide ToCell, FromCell, TailLaws, Tagged, QueryCodec, GramsCodec, MsgAddressCodec, CustomPayloadCodec,
      ForwardPayloadCodec;
    FieldNormals(JETTON_INTERNAL_TRANSFER_OP);
    JettonInternalTransferLaws();
  }

  type NftTransferBody = (MsgAddress, (MsgAddress, (Option<Cell>, (nat, ForwardPayload))))

  const NFT_TRANSFER_OF := (p: (nat, NftTransferBody)) =>
    NftTransfer(p.0, p.1.0, p.1.1.0, p.1.1.1.0, p.1.1.1.1.0, p.1.1.1.1.1)
  const NFT_TRANSFER_PARTS := (m: NftTransfer) =>
    (m.queryId, (m.newOwner, (m.responseDestination, (m.customPayload, (m.forwardAmount, m.forwardPayload)))))

  function NftTransferBodyCodec(): Codec<NftTransferBody> {
    PairCodec(MsgAddressCodec(),
      PairCodec(MsgAddressCodec(), PairCodec(CustomPayloadCodec(), PairCodec(GramsCodec(), ForwardPayloadCodec()))))
  }

  function NftTransferCodec(): Codec<NftTransfer> {
    MessageCodec(NFT_TRANSFER_OP, NftTransferBodyCodec(), NFT_TRANSFER_OF, NFT_TRANSFER_PARTS)
  }

  lemma NftTransferLaws()
    ensures MessageLaws(NftTransferCodec(), NFT_TRANSFER_OP)
  {
    hide FieldLaws, TailLaws, MessageLaws, MessageCodec, PairCodec, GramsCodec, MsgAddressCodec, CustomPayloadCodec,
      ForwardPayloadCodec;
    FieldsObeyLaws();
    var afterCustomPayload := Prepend(GramsCodec(), ForwardPayloadCodec());
    var afterResponseDestination := Prepend(CustomPayloadCodec(), afterCustomPayload);
    var afterNewOwner := Prepend(MsgAddressCodec(), afterResponseDestination);
    var body := Prepend(MsgAddressCodec(), afterNewOwner);
    assert Renaming(NFT_TRANSFER_OF, NFT_TRANSFER_PARTS);
    MessageObeysLaws(NFT_TRANSFER_OP, body, NFT_TRANSFER_OF, NFT_TRANSFER_PARTS);
  }

  lemma NftTransferRoundTrip(m: NftTransfer)
    requires ToCell(NftTransferCodec(), m).Some?
    ensures FromCell(NftTransferCodec(), ToCell(NftTransferCodec(), m).value) ==
      Ok(m.(newOwner := NormalMsgAddress(m.newOwner),
        responseDestination := NormalMsgAddress(m.responseDestination)))
  {
    hide ToCell, FromCell, TailLaws, Tagged, QueryCodec, GramsCodec, MsgAddressCodec, CustomPayloadCodec,
      ForwardPayloadCodec;
    FieldNormals(NFT_TRANSFER_OP);
    NftTransferLaws();
  }

  type NftOwnershipAssignedBody = (MsgAddress, ForwardPayload)

  const NFT_OWNERSHIP_ASSIGNED_OF := (p: (nat, NftOwnershipAssignedBody)) =>
    NftOwnershipAssigned(p.0, p.1.0, p.1.1)
  const NFT_OWNERSHIP_ASSIGNED_PARTS := (m: NftOwnershipAssigned) =>
    (m.queryId, (m.prevOwner, m.forwardPayload))

  function NftOwnershipAssignedBodyCodec(): Codec<NftOwnershipAssignedBody> {
    PairCodec(MsgAddressCodec(), ForwardPayloadCodec())
  }

  function NftOwnershipAssignedCodec(): Codec<NftOwnershipAssigned> {
    MessageCodec(NFT_OWNERSHIP_ASSIGNED_OP, NftOwnershipAssignedBodyCodec(),
                 NFT_OWNERSHIP_ASSIGNED_OF, NFT_OWNERSHIP_ASSIGNED_PARTS)
  }

  lemma NftOwnershipAssignedLaws()
    ensures MessageLaws(NftOwnershipAssignedCodec(), NFT_OWNERSHIP_ASSIGNED_OP)
  {
    hide FieldLaws, TailLaws, MessageLaws, MessageCodec, PairCodec, GramsCodec, MsgAddressCodec, CustomPayloadCodec,
      ForwardPayloadCodec;
    FieldsObeyLaws();
    var body := Prepend(MsgAddressCodec(), ForwardPayloadCodec());
    assert Renaming(NFT_OWNERSHIP_ASSIGNED_OF, NFT_OWNERSHIP_ASSIGNED_PARTS);
    MessageObeysLaws(NFT_OWNERSHIP_ASSIGNED_OP, body, NFT_OWNERSHIP_ASSIGNED_OF, NFT_OWNERSHIP_ASSIGNED_PARTS);
  }

  lemma NftOwnershipAssignedRoundTrip(m: NftOwnershipAssigned)
    requires ToCell(NftOwnershipAssignedCodec(), m).Some?
    ensures FromCell(NftOwnershipAssignedCodec(), ToCell(NftOwnershipAssignedCodec(), m).value) ==
      Ok(m.(prevOwner := NormalMsgAddress(m.prevOwner)))
  {
    hide ToCell, FromCell, TailLaws, Tagged, QueryCodec, GramsCodec, MsgAddressCodec, CustomPayloadCodec,
      ForwardPayloadCodec;
    FieldNormals(NFT_OWNERSHIP_ASSIGNED_OP);
    NftOwnershipAssignedLaws();
  }

  type NftReportStaticDataBody = (nat, MsgAddress)

  const NFT_REPORT_STATIC_DATA_OF := (p: (nat, NftReportStaticDataBody)) =>
    NftReportStaticData(p.0, p.1.0, p.1.1)
  const NFT_REPORT_STATIC_DATA_PARTS := (m: NftReportStaticData) =>
    (m.queryId, (m.index, m.collection))

  function NftReportStaticDataBodyCodec(): Codec<NftReportStaticDataBody> {
    PairCodec(UintCodec(256), MsgAddressCodec())
  }

  function NftReportStaticDataCodec(): Codec<NftReportStaticData> {
    MessageCodec(NFT_REPORT_STATIC_DATA_OP, NftReportStaticDataBodyCodec(),
                 NFT_REPORT_STATIC_DATA_OF, NFT_REPORT_STATIC_DATA_PARTS)
  }

  lemma NftReportStaticDataLaws()
    ensures MessageLaws(NftReportStaticDataCodec(), NFT_REPORT_STATIC_DATA_OP)
  {
    hide FieldLaws, TailLaws, MessageLaws, MessageCodec, PairCodec, GramsCodec, MsgAddressCodec, CustomPayloadCodec,
      ForwardPayloadCodec;
    FieldsObeyLaws();
    FieldAsTail(MsgAddressCodec());
    FieldLawsOfUint(256);
    var body := Prepend(UintCodec(256), MsgAddressCodec());
    assert Renaming(NFT_REPORT_STATIC_DATA_OF, NFT_REPORT_STATIC_DATA_PARTS);
    MessageObeysLaws(NFT_REPORT_STATIC_DATA_OP, body, NFT_REPORT_STATIC_DATA_OF, NFT_REPORT_STATIC_DATA_PARTS);
  }

  lemma NftReportStaticDataRoundTrip(m: NftReportStaticData)
    requires ToCell(NftReportStaticDataCodec(), m).Some?
    ensures FromCell(NftReportStaticDataCodec(), ToCell(NftReportStaticDataCodec(), m).value) ==
      Ok(m.(collection := NormalMsgAddress(m.collection)))
  {
    hide ToCell, FromCell, TailLaws, Tagged, QueryCodec, GramsCodec, MsgAddressCodec, CustomPayloadCodec,
      ForwardPayloadCodec;
    FieldNormals(NFT_REPORT_STATIC_DATA_OP);
    NftReportStaticDataLaws();
  }

  type NftReportRoyaltyParamsBody = (nat, (nat, MsgAddress))

  const NFT_REPORT_ROYALTY_PARAMS_OF := (p: (nat, NftReportRoyaltyParamsBody)) =>
    NftReportRoyaltyParams(p.0, p.1.0, p.1.1.0, p.1.1.1)
  const NFT_REPORT_ROYALTY_PARAMS_PARTS := (m: NftReportRoyaltyParams) =>
    (m.queryId, (m.numerator, (m.denominator, m.destination)))

  function NftReportRoyaltyParamsBodyCodec(): Codec<NftReportRoyaltyParamsBody> {
    PairCodec(UintCodec(16), PairCodec(UintCodec(16), MsgAddressCodec()))
  }

  function NftReportRoyaltyParamsCodec(): Codec<NftReportRoyaltyParams> {
    MessageCodec(NFT_REPORT_ROYALTY_PARAMS_OP, NftReportRoyaltyParamsBodyCodec(),
                 NFT_REPORT_ROYALTY_PARAMS_OF, NFT_REPORT_ROYALTY_PARAMS_PARTS)
  }

  lemma NftReportRoyaltyParamsLaws()
    ensures MessageLaws(NftReportRoyaltyParamsCodec(), NFT_REPORT_ROYALTY_PARAMS_OP)
  {
    hide FieldLaws, TailLaws, MessageLaws, MessageCodec, PairCodec, GramsCodec, MsgAddressCodec, CustomPayloadCodec,
      ForwardPayloadCodec;
    FieldsObeyLaws();
    FieldAsTail(MsgAddressCodec());
    FieldLawsOfUint(16);
    var afterNumerator := Prepend(UintCodec(16), MsgAddressCodec());
    var body := Prepend(UintCodec(16), afterNumerator);
    assert Renaming(NFT_REPORT_ROYALTY_PARAMS_OF, NFT_REPORT_ROYALTY_PARAMS_PARTS);
    MessageObeysLaws(NFT_REPORT_ROYALTY_PARAMS_OP, body, NFT_REPORT_ROYALTY_PARAMS_OF, NFT_REPORT_ROYALTY_PARAMS_PARTS);
  }

  lemma NftReportRoyaltyParamsRoundTrip(m: NftReportRoyaltyParams)
    requires ToCell(NftReportRoyaltyParamsCodec(), m).Some?
    ensures FromCell(NftReportRoyaltyParamsCodec(), ToCell(NftReportRoyaltyParamsCodec(), m).value) ==
      Ok(m.(destination := NormalMsgAddress(m.destination)))
  {
    hide ToCell, FromCell, TailLaws, Tagged, QueryCodec, GramsCodec, MsgAddressCodec, CustomPayloadCodec,
      ForwardPayloadCodec;
    FieldNormals(NFT_REPORT_ROYALTY_PARAMS_OP);
    NftReportRoyaltyParamsLaws();
  }

  // ----- Every kind against every other -----

  /** What is encoded under an operation code is malformed to the decoders of all other codes. */
  ghost predicate OnlyUnder<T(!new)>(c: Codec<T>, op: nat) {
    forall v: T :: ToCell(c, v).Some? ==> RefusedElsewhere(ToCell(c, v).value, op)
  }

  predicate RefusedElsewhere(cell: Cell, op: nat) {
    && (op != JETTON_TRANSFER_OP ==> FromCell(JettonTransferCodec(), cell) == Err(Malformed))
    && (op != JETTON_BURN_OP ==> FromCell(JettonBurnCodec(), cell) == Err(Malformed))
    && (op != JETTON_INTERNAL_TRANSFER_OP ==> FromCell(JettonInternalTransferCodec(), cell) == Err(Malformed))
    && (op != NFT_TRANSFER_OP ==> FromCell(NftTransferCodec(), cell) == Err(Malformed))
    && (op != NFT_OWNERSHIP_ASSIGNED_OP ==> FromCell(NftOwnershipAssignedCodec(), cell) == Err(Malformed))
    && (op != NFT_REPORT_STATIC_DATA_OP ==> FromCell(NftReportStaticDataCodec(), cell) == Err(Malformed))
    && (op != NFT_REPORT_ROYALTY_PARAMS_OP ==> FromCell(NftReportRoyaltyParamsCodec(), cell) == Err(Malformed))
  }

  lemma AllObeyLaws()
    ensures MessageLaws(JettonTransferCodec(), JETTON_TRANSFER_OP) && MessageLaws(JettonBurnCodec(), JETTON_BURN_OP)
    ensures MessageLaws(JettonInternalTransferCodec(), JETTON_INTERNAL_TRANSFER_OP)
    ensures MessageLaws(NftTransferCodec(), NFT_TRANSFER_OP)
    ensures MessageLaws(NftOwnershipAssignedCodec(), NFT_OWNERSHIP_ASSIGNED_OP)
    ensures MessageLaws(NftReportStaticDataCodec(), NFT_REPORT_STATIC_DATA_OP)
    ensures MessageLaws(NftReportRoyaltyParamsCodec(), NFT_REPORT_ROYALTY_PARAMS_OP)
  {
    hide *;
    JettonTransferLaws();
    JettonBurnLaws();
    JettonInternalTransferLaws();
    NftTransferLaws();
    NftOwnershipAssignedLaws();
    NftReportStaticDataLaws();
    NftReportRoyaltyParamsLaws();
  }

  lemma RefusedByOthers<T(!new)>(c: Codec<T>, op: nat, v: T)
    requires MessageLaws(c, op) && ToCell(c, v).Some?
    ensures RefusedElsewhere(ToCell(c, v).value, op)
  {
    hide ToCell, FromCell, MessageLaws, JettonTransferCodec, JettonBurnCodec, JettonInternalTransferCodec,
      NftTransferCodec, NftOwnershipAssignedCodec, NftReportStaticDataCodec, NftReportRoyaltyParamsCodec;
    AllObeyLaws();
    if op != JETTON_TRANSFER_OP { OtherKindIsRefused(c, op, JettonTransferCodec(), JETTON_TRANSFER_OP, v); }
    if op != JETTON_BURN_OP { OtherKindIsRefused(c, op, JettonBurnCodec(), JETTON_BURN_OP, v); }
    if op != JETTON_INTERNAL_TRANSFER_OP {
      OtherKindIsRefused(c, op, JettonInternalTransferCodec(), JETTON_INTERNAL_TRANSFER_OP, v);
    }
    if op != NFT_TRANSFER_OP { OtherKindIsRefused(c, op, NftTransferCodec(), NFT_TRANSFER_OP, v); }
    if op != NFT_OWNERSHIP_ASSIGNED_OP {
      OtherKindIsRefused(c, op, NftOwnershipAssignedCodec(), NFT_OWNERSHIP_ASSIGNED_OP, v);
    }
    if op != NFT_REPORT_STATIC_DATA_OP {
      OtherKindIsRefused(c, op, NftReportStaticDataCodec(), NFT_REPORT_STATIC_DATA_OP, v);
    }
    if op != NFT_REPORT_ROYALTY_PARAMS_OP {
      OtherKindIsRefused(c, op, NftReportRoyaltyParamsCodec(), NFT_REPORT_ROYALTY_PARAMS_OP, v);
    }
  }

  lemma OthersRefuse<T(!new)>(c: Codec<T>, op: nat)
    requires MessageLaws(c, op)
    ensures OnlyUnder(c, op)
  {
    hide ToCell, MessageLaws, RefusedElsewhere;
    forall v: T | ToCell(c, v).Some? ensures RefusedElsewhere(ToCell(c, v).value, op) {
      RefusedByOthers(c, op, v);
    }
  }

  /** No message of any of the seven kinds is accepted as a message of another. */
  lemma KindsSeparate()
    ensures OnlyUnder(JettonTransferCodec(), JETTON_TRANSFER_OP) && OnlyUnder(JettonBurnCodec(), JETTON_BURN_OP)
    ensures OnlyUnder(JettonInternalTransferCodec(), JETTON_INTERNAL_TRANSFER_OP)
    ensures OnlyUnder(NftTransferCodec(), NFT_TRANSFER_OP)
    ensures OnlyUnder(NftOwnershipAssignedCodec(), NFT_OWNERSHIP_ASSIGNED_OP)
    ensures OnlyUnder(NftReportStaticDataCodec(), NFT_REPORT_STATIC_DATA_OP)
    ensures OnlyUnder(NftReportRoyaltyParamsCodec(), NFT_REPORT_ROYALTY_PARAMS_OP)
  {
    hide *;
    AllObeyLaws();
    OthersRefuse(JettonTransferCodec(), JETTON_TRANSFER_OP);
    OthersRefuse(JettonBurnCodec(), JETTON_BURN_OP);
    OthersRefuse(JettonInternalTransferCodec(), JETTON_INTERNAL_TRANSFER_OP);
    OthersRefuse(NftTransferCodec(), NFT_TRANSFER_OP);
    OthersRefuse(NftOwnershipAssignedCodec(), NFT_OWNERSHIP_ASSIGNED_OP);
    OthersRefuse(NftReportStaticDataCodec(), NFT_REPORT_STATIC_DATA_OP);
    OthersRefuse(NftReportRoyaltyParamsCodec(), NFT_REPORT_ROYALTY_PARAMS_OP);
  }
}
