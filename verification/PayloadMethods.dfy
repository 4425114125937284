/**
 * Jetton and NFT message bodies as the source runs them: a sequence of builder writes, and a sequence of slice reads
 * (src/jetton/payload.rs, src/nft/payload.rs, src/tlb/core.rs). Each method is proved against its codec.
 */
module PayloadMethods {
  import opened AddressMethods
  import opened Addresses
  import opened Bits
  import opened Cells
  import opened Payloads
  import opened TlbCore
  import opened VarUint
  import opened Wrappers

  /** Whether a store went through; a failure ends the whole sequence of writes. */
  datatype Status = Stored | Failed {
    predicate IsFailure() {
      Failed?
    }

    function PropagateFailure(): Status
      requires Failed?
    {
      Failed
    }
  }

  function StatusOf(ok: bool): Status {
    if ok then Status.Stored else Failed
  }

  /** The contents after a layout is appended, if there is a layout and it fits. */
  function Append(contents: Option<Chunk>, layout: Option<Chunk>): Option<Chunk> {
    var before :- contents;
    var added :- layout;
    if before.Then(added).Fits() then Some(before.Then(added)) else None
  }

  /** What a store promises: it fails exactly when the layout cannot be appended, and appends it otherwise. */
  ghost predicate Appends(before: Chunk, layout: Option<Chunk>, status: Status, after: Chunk) {
    Append(Some(before), layout) == if status.Stored? then Some(after) else None
  }

  lemma AppendBoth(contents: Option<Chunk>, x: Option<Chunk>, y: Option<Chunk>)
    ensures Append(contents, Both(x, y)) == Append(Append(contents, x), y)
  {
    if contents.Some? && x.Some? && y.Some? {
      ThenAssociates(contents.value, x.value, y.value);
    }
  }

  /** Appending a sequence of fields is appending them one by one. */
  lemma AppendInTurn()
    ensures forall contents, x, y {:trigger Append(contents, Both(x, y))} ::
      Append(contents, Both(x, y)) == Append(Append(contents, x), y)
    ensures forall x :: Append(None, x) == None
  {
    forall contents, x, y ensures Append(contents, Both(x, y)) == Append(Append(contents, x), y) {
      AppendBoth(contents, x, y);
    }
  }

  // ----- Storing fields -----

  method StoreFixed(b: Builder, value: nat, width: nat) returns (r: Status)
    requires b.Valid()
    modifies b
    ensures b.Valid() && Appends(old(b.View()), UintLayout(value, width), r, b.View())
  {
    var ok := b.StoreUint(value, width);
    return StatusOf(ok);
  }

  method StoreFlag(b: Builder, flag: bool) returns (r: Status)
    requires b.Valid()
    modifies b
    ensures b.Valid() && Appends(old(b.View()), Some(OfBits([flag])), r, b.View())
  {
    var ok := b.StoreBit(flag);
    return StatusOf(ok);
  }

  method StoreQuery(b: Builder, op: nat, queryId: nat) returns (r: Status)
    requires b.Valid()
    modifies b
    ensures b.Valid() && Appends(old(b.View()), QueryCodec(op).layout(queryId), r, b.View())
  {
    hide Append, UintLayout, Both;
    AppendInTurn();
    :- StoreFixed(b, op, 32);
    r := StoreFixed(b, queryId, 64);
  }

  method StoreGrams(b: Builder, value: nat) returns (r: Status)
    requires b.Valid()
    modifies b
    ensures b.Valid() && Appends(old(b.View()), GramsCodec().layout(value), r, b.View())
  {
    hide VarUintLayout;
    var ok := StoreVarUint(b, value, 4);
    return StatusOf(ok);
  }

  method StoreAddress(b: Builder, a: MsgAddress) returns (r: Status)
    requires b.Valid()
    modifies b
    ensures b.Valid() && Appends(old(b.View()), MsgAddressCodec().layout(a), r, b.View())
  {
    hide MsgAddressLayout;
    var ok := StoreMsgAddress(b, a);
    return StatusOf(ok);
  }

  /** `RawCell`: the contents of the cell, spliced in. */
  method StoreInline(b: Builder, payload: Cell) returns (r: Status)
    requires b.Valid()
    modifies b
    ensures b.Valid() && Appends(old(b.View()), RawCodec().layout(payload), r, b.View())
  {
    var ok := b.StoreCell(payload);
    return StatusOf(ok);
  }

  /** `store_ref_tlb`: the value is built into a cell of its own, which is then referenced. */
  method StoreCellRef(b: Builder, payload: Cell) returns (r: Status)
    requires b.Valid()
    modifies b
    ensures b.Valid() && Appends(old(b.View()), RefCodec(RawCodec()).layout(payload), r, b.View())
  {
    assert Contents(payload).ToCell() == payload;
    ThenEmpty(Contents(payload));
    var inner := new Builder();
    var ok := inner.StoreCell(payload);
    assert ok;
    var cell := inner.Build();
    ok := b.StoreRef(cell);
    return StatusOf(ok);
  }

  method StoreCustomPayload(b: Builder, payload: Option<Cell>) returns (r: Status)
    requires b.Valid()
    modifies b
    ensures b.Valid() && Appends(old(b.View()), CustomPayloadCodec().layout(payload), r, b.View())
  {
    hide Append, RefCodec;
    AppendInTurn();
    match payload {
      case None =>
        r := StoreFlag(b, false);
      case Some(cell) =>
        assert CustomPayloadCodec().layout(payload) == Both(Some(OfBits([true])), RefCodec(RawCodec()).layout(cell));
        :- StoreFlag(b, true);
        r := StoreCellRef(b, cell);
    }
  }

  method StoreForwardPayload(b: Builder, payload: ForwardPayload) returns (r: Status)
    requires b.Valid()
    modifies b
    ensures b.Valid() && Appends(old(b.View()), ForwardPayloadCodec().layout(payload), r, b.View())
  {
    hide Append, RefCodec;
    AppendInTurn();
    match payload {
      case Left(cell) =>
        assert ForwardPayloadCodec().layout(payload) == Both(Some(OfBits([false])), RawCodec().layout(cell));
        :- StoreFlag(b, false);
        r := StoreInline(b, cell);
      case Right(cell) =>
        assert ForwardPayloadCodec().layout(payload) == Both(Some(OfBits([true])), RefCodec(RawCodec()).layout(cell));
        :- StoreFlag(b, true);
        r := StoreCellRef(b, cell);
    }
  }

  // ----- Loading fields -----

  method LoadQuery(s: Slice, op: nat) returns (r: Option<nat>)
    requires s.Valid()
    modifies s
    ensures s.Valid() && Read(QueryCodec(op).load(old(s.View())), r, s.View())
  {
    hide FromBits;
    var actual := s.LoadUint(32);
    if actual == None || actual.value != op {
      return None;
    }
    r := s.LoadUint(64);
  }

  method LoadGrams(s: Slice) returns (r: Option<nat>)
    requires s.Valid()
    modifies s
    ensures s.Valid() && Read(GramsCodec().load(old(s.View())), r, s.View())
  {
    hide VarUintLoad;
    r := LoadVarUint(s, 4);
  }

  method LoadAddress(s: Slice) returns (r: Option<MsgAddress>)
    requires s.Valid()
    modifies s
    ensures s.Valid() && Read(MsgAddressCodec().load(old(s.View())), r, s.View())
  {
    hide MsgAddressLoad;
    r := LoadMsgAddress(s);
  }

  method LoadRemainingBits(s: Slice) returns (bits: seq<bool>)
    requires s.Valid()
    modifies s
    ensures s.Valid() && bits == old(s.View()).bits && s.View() == Chunk([], old(s.View()).refs)
  {
    var remaining := |s.cell.bits| - s.bitPos;
    ghost var before := s.View();
    assert before.bits[..remaining] == before.bits && before.bits[remaining..] == [];
    var loaded := s.LoadBits(remaining);
    return loaded.value;
  }

  method LoadRemainingRefs(s: Slice) returns (refs: seq<Cell>)
    requires s.Valid()
    modifies s
    ensures s.Valid() && refs == old(s.View()).refs && s.View() == Chunk(old(s.View()).bits, [])
  {
    refs := [];
    ghost var all := s.View();
    assert [] + all.refs == all.refs;
    while s.refPos < |s.cell.refs|
      invariant s.Valid() && s.View().bits == all.bits && refs + s.View().refs == all.refs
      decreases |s.View().refs|
    {
      ghost var left := s.View().refs;
      NextRef(refs, left);
      var reference := s.LoadRef();
      refs := refs + [reference.value];
    }
  }

  lemma NextRef(done: seq<Cell>, left: seq<Cell>)
    requires left != []
    ensures (done + [left[0]]) + left[1..] == done + left
  {
  }

  /** Moves whatever is left of a slice to the end of a builder. */
  method StoreRemaining(s: Slice, b: Builder) returns (ok: bool)
    requires s.Valid() && b.Valid()
    modifies s, b
    ensures s.Valid() && b.Valid()
    ensures ok <==> old(b.View()).Then(old(s.View())).Fits()
    ensures ok ==> b.View() == old(b.View()).Then(old(s.View())) && s.View() == EMPTY
  {
    ghost var start, left := b.View(), s.View();
    var bits := LoadRemainingBits(s);
    ok := b.StoreBits(bits);
    if !ok {
      return;
    }
    var refs := LoadRemainingRefs(s);
    assert start.refs + [] == start.refs;
    for i := 0 to |refs|
      invariant s.Valid() && s.View() == EMPTY && b.Valid() && ok
      invariant b.bits == start.bits + left.bits && b.refs == start.refs + refs[..i]
    {
      NextPrefix(start.refs, refs, i);
      ok := b.StoreRef(refs[i]);
      if !ok {
        return;
      }
    }
    assert refs[..|refs|] == refs;
  }

  lemma NextPrefix(start: seq<Cell>, refs: seq<Cell>, i: nat)
    requires i < |refs|
    ensures (start + refs[..i]) + [refs[i]] == start + refs[..i + 1]
  {
  }

  /** `RawCell`: whatever is left, copied into a cell of its own. */
  method LoadRest(s: Slice) returns (r: Option<Cell>)
    requires s.Valid()
    modifies s
    ensures s.Valid() && Read(RawCodec().load(old(s.View())), r, s.View())
  {
    ThenEmpty(s.View());
    var inner := new Builder();
    var ok := StoreRemaining(s, inner);
    assert ok;
    var cell := inner.Build();
    return Some(cell);
  }

  /** `load_ref_tlb`: the referenced cell must be consumed exactly. */
  method LoadCellRef(s: Slice) returns (r: Option<Cell>)
    requires s.Valid()
    modifies s
    ensures s.Valid() && Read(RefCodec(RawCodec()).load(old(s.View())), r, s.View())
  {
    var reference := s.LoadRef();
    if reference == None {
      return None;
    }
    var inner := new Slice(reference.value);
    r := LoadRest(inner);
    if |inner.cell.bits| != inner.bitPos || |inner.cell.refs| != inner.refPos {
      return None;
    }
  }

  method LoadCustomPayload(s: Slice) returns (r: Option<Option<Cell>>)
    requires s.Valid()
    modifies s
    ensures s.Valid() && Read(CustomPayloadCodec().load(old(s.View())), r, s.View())
  {
    hide RefCodec;
    var present := s.LoadBit();
    if present == None {
      return None;
    }
    if !present.value {
      return Some(None);
    }
    var cell := LoadCellRef(s);
    return if cell == None then None else Some(cell);
  }

  method LoadForwardPayload(s: Slice) returns (r: Option<ForwardPayload>)
    requires s.Valid()
    modifies s
    ensures s.Valid() && Read(ForwardPayloadCodec().load(old(s.View())), r, s.View())
  {
    hide RefCodec, RawCodec;
    var referenced := s.LoadBit();
    if referenced == None {
      return None;
    }
    if referenced.value {
      var cell := LoadCellRef(s);
      return if cell == None then None else Some(Right(cell.value));
    }
    var cell := LoadRest(s);
    return if cell == None then None else Some(Left(cell.value));
  }

  // ----- Messages -----

  method StoreJettonTransfer(b: Builder, m: JettonTransfer) returns (r: Status)
    requires b.Valid()
    modifies b
    ensures b.Valid() && Appends(old(b.View()), JettonTransferCodec().layout(m), r, b.View())
  {
    hide Append, Both, QueryCodec, GramsCodec, MsgAddressCodec, CustomPayloadCodec, ForwardPayloadCodec, UintLayout;
    AppendInTurn();
    :- StoreQuery(b, JETTON_TRANSFER_OP, m.queryId);
    :- StoreGrams(b, m.amount);
    :- StoreAddress(b, m.destination);
    :- StoreAddress(b, m.responseDestination);
    :- StoreCustomPayload(b, m.customPayload);
    :- StoreGrams(b, m.forwardTonAmount);
    r := StoreForwardPayload(b, m.forwardPayload);
  }

  method LoadJettonTransfer(s: Slice) returns (r: Option<JettonTransfer>)
    requires s.Valid()
    modifies s
    ensures s.Valid() && Read(JettonTransferCodec().load(old(s.View())), r, s.View())
  {
    hide QueryCodec, GramsCodec, MsgAddressCodec, CustomPayloadCodec, ForwardPayloadCodec, TakeUint;
    var queryId :- LoadQuery(s, JETTON_TRANSFER_OP);
    var amount :- LoadGrams(s);
    var destination :- LoadAddress(s);
    var responseDestination :- LoadAddress(s);
    var customPayload :- LoadCustomPayload(s);
    var forwardTonAmount :- LoadGrams(s);
    var forwardPayload :- LoadForwardPayload(s);
    return Some(JettonTransfer(queryId, amount, destination, responseDestination, customPayload,
                               forwardTonAmount, forwardPayload));
  }

  method StoreJettonBurn(b: Builder, m: JettonBurn) returns (r: Status)
    requires b.Valid()
    modifies b
    ensures b.Valid() && Appends(old(b.View()), JettonBurnCodec().layout(m), r, b.View())
  {
    hide Append, Both, QueryCodec, GramsCodec, MsgAddressCodec, CustomPayloadCodec, ForwardPayloadCodec, UintLayout;
    AppendInTurn();
    :- StoreQuery(b, JETTON_BURN_OP, m.queryId);
    :- StoreGrams(b, m.amount);
    :- StoreAddress(b, m.responseDestination);
    r := StoreCustomPayload(b, m.customPayload);
  }

  method LoadJettonBurn(s: Slice) returns (r: Option<JettonBurn>)
    requires s.Valid()
    modifies s
    ensures s.Valid() && Read(JettonBurnCodec().load(old(s.View())), r, s.View())
  {
    hide QueryCodec, GramsCodec, MsgAddressCodec, CustomPayloadCodec, ForwardPayloadCodec, TakeUint;
    var queryId :- LoadQuery(s, JETTON_BURN_OP);
    var amount :- LoadGrams(s);
    var responseDestination :- LoadAddress(s);
    var customPayload :- LoadCustomPayload(s);
    return Some(JettonBurn(queryId, amount, responseDestination, customPayload));
  }

  method StoreJettonInternalTransfer(b: Builder, m: JettonInternalTransfer) returns (r: Status)
    requires b.Valid()
    modifies b
    ensures b.Valid() && Appends(old(b.View()), JettonInternalTransferCodec().layout(m), r, b.View())
  {
    hide Append, Both, QueryCodec, GramsCodec, MsgAddressCodec, CustomPayloadCodec, ForwardPayloadCodec, UintLayout;
    AppendInTurn();
    :- StoreQuery(b, JETTON_INTERNAL_TRANSFER_OP, m.queryId);
    :- StoreGrams(b, m.amount);
    :- StoreAddress(b, m.from);
    :- StoreAddress(b, m.responseAddress);
    :- StoreGrams(b, m.forwardTonAmount);
    r := StoreForwardPayload(b, m.forwardPayload);
  }

  method LoadJettonInternalTransfer(s: Slice) returns (r: Option<JettonInternalTransfer>)
    requires s.Valid()
    modifies s
    ensures s.Valid() && Read(JettonInternalTransferCodec().load(old(s.View())), r, s.View())
  {
    hide QueryCodec, GramsCodec, MsgAddressCodec, CustomPayloadCodec, ForwardPayloadCodec, TakeUint;
    var queryId :- LoadQuery(s, JETTON_INTERNAL_TRANSFER_OP);
    var amount :- LoadGrams(s);
    var from :- LoadAddress(s);
    var responseAddress :- LoadAddress(s);
    var forwardTonAmount :- LoadGrams(s);
    var forwardPayload :- LoadForwardPayload(s);
    return Some(JettonInternalTransfer(queryId, amount, from, responseAddress, forwardTonAmount, forwardPayload));
  }

  method StoreNftTransfer(b: Builder, m: NftTransfer) returns (r: Status)
    requires b.Valid()
    modifies b
    ensures b.Valid() && Appends(old(b.View()), NftTransferCodec().layout(m), r, b.View())
  {
    hide Append, Both, QueryCodec, GramsCodec, MsgAddressCodec, CustomPayloadCodec, ForwardPayloadCodec, UintLayout;
    AppendInTurn();
    :- StoreQuery(b, NFT_TRANSFER_OP, m.queryId);
    :- StoreAddress(b, m.newOwner);
    :- StoreAddress(b, m.responseDestination);
    :- StoreCustomPayload(b, m.customPayload);
    :- StoreGrams(b, m.forwardAmount);
    r := StoreForwardPayload(b, m.forwardPayload);
  }

  method LoadNftTransfer(s: Slice) returns (r: Option<NftTransfer>)
    requires s.Valid()
    modifies s
    ensures s.Valid() && Read(NftTransferCodec().load(old(s.View())), r, s.View())
  {
    hide QueryCodec, GramsCodec, MsgAddressCodec, CustomPayloadCodec, ForwardPayloadCodec, TakeUint;
    var queryId :- LoadQuery(s, NFT_TRANSFER_OP);
    var newOwner :- LoadAddress(s);
    var responseDestination :- LoadAddress(s);
    var customPayload :- LoadCustomPayload(s);
    var forwardAmount :- LoadGrams(s);
    var forwardPayload :- LoadForwardPayload(s);
    return Some(NftTransfer(queryId, newOwner, responseDestination, customPayload, forwardAmount, forwardPayload));
  }

  method StoreNftOwnershipAssigned(b: Builder, m: NftOwnershipAssigned) returns (r: Status)
    requires b.Valid()
    modifies b
    ensures b.Valid() && Appends(old(b.View()), NftOwnershipAssignedCodec().layout(m), r, b.View())
  {
    hide Append, Both, QueryCodec, GramsCodec, MsgAddressCodec, CustomPayloadCodec, ForwardPayloadCodec, UintLayout;
    AppendInTurn();
    :- StoreQuery(b, NFT_OWNERSHIP_ASSIGNED_OP, m.queryId);
    :- StoreAddress(b, m.prevOwner);
    r := StoreForwardPayload(b, m.forwardPayload);
  }

  method LoadNftOwnershipAssigned(s: Slice) returns (r: Option<NftOwnershipAssigned>)
    requires s.Valid()
    modifies s
    ensures s.Valid() && Read(NftOwnershipAssignedCodec().load(old(s.View())), r, s.View())
  {
    hide QueryCodec, GramsCodec, MsgAddressCodec, CustomPayloadCodec, ForwardPayloadCodec, TakeUint;
    var queryId :- LoadQuery(s, NFT_OWNERSHIP_ASSIGNED_OP);
    var prevOwner :- LoadAddress(s);
    var forwardPayload :- LoadForwardPayload(s);
    return Some(NftOwnershipAssigned(queryId, prevOwner, forwardPayload));
  }

  method StoreNftReportStaticData(b: Builder, m: NftReportStaticData) returns (r: Status)
    requires b.Valid()
    modifies b
    ensures b.Valid() && Appends(old(b.View()), NftReportStaticDataCodec().layout(m), r, b.View())
  {
    hide Append, Both, QueryCodec, GramsCodec, MsgAddressCodec, CustomPayloadCodec, ForwardPayloadCodec, UintLayout;
    AppendInTurn();
    :- StoreQuery(b, NFT_REPORT_STATIC_DATA_OP, m.queryId);
    :- StoreFixed(b, m.index, 256);
    r := StoreAddress(b, m.collection);
  }

  method LoadNftReportStaticData(s: Slice) returns (r: Option<NftReportStaticData>)
    requires s.Valid()
    modifies s
    ensures s.Valid() && Read(NftReportStaticDataCodec().load(old(s.View())), r, s.View())
  {
    hide QueryCodec, GramsCodec, MsgAddressCodec, CustomPayloadCodec, ForwardPayloadCodec, TakeUint;
    var queryId :- LoadQuery(s, NFT_REPORT_STATIC_DATA_OP);
    var index :- s.LoadUint(256);
    var collection :- LoadAddress(s);
    return Some(NftReportStaticData(queryId, index, collection));
  }

  method StoreNftReportRoyaltyParams(b: Builder, m: NftReportRoyaltyParams) returns (r: Status)
    requires b.Valid()
    modifies b
    ensures b.Valid() && Appends(old(b.View()), NftReportRoyaltyParamsCodec().layout(m), r, b.View())
  {
    hide Append, Both, QueryCodec, GramsCodec, MsgAddressCodec, CustomPayloadCodec, ForwardPayloadCodec, UintLayout;
    AppendInTurn();
    :- StoreQuery(b, NFT_REPORT_ROYALTY_PARAMS_OP, m.queryId);
    :- StoreFixed(b, m.numerator, 16);
    :- StoreFixed(b, m.denominator, 16);
    r := StoreAddress(b, m.destination);
  }

  method LoadNftReportRoyaltyParams(s: Slice) returns (r: Option<NftReportRoyaltyParams>)
    requires s.Valid()
    modifies s
    ensures s.Valid() && Read(NftReportRoyaltyParamsCodec().load(old(s.View())), r, s.View())
  {
    hide QueryCodec, GramsCodec, MsgAddressCodec, CustomPayloadCodec, ForwardPayloadCodec, TakeUint;
    var queryId :- LoadQuery(s, NFT_REPORT_ROYALTY_PARAMS_OP);
    var numerator :- s.LoadUint(16);
    var denominator :- s.LoadUint(16);
    var destination :- LoadAddress(s);
    return Some(NftReportRoyaltyParams(queryId, numerator, denominator, destination));
  }
}
