/** Message bodies, event payloads and bare components: a selector, then the values, then nothing (src/abi/codec.rs). */
module AbiMessages {
  import opened AbiCodec
  import opened AbiLayout
  import opened AbiModel
  import opened AbiReencode
  import opened AbiRoundTrip
  import opened Bits
  import opened Cells
  import opened Wrappers

  datatype AbiFunctionKind = GetMethod | InternalMessage | ExternalMessage

  datatype AbiSelector = NoSelector | MethodId(id: u64) | Opcode(opcode: u32)

  datatype AbiFunction = AbiFunction(
    name: string, kind: AbiFunctionKind, selector: AbiSelector, inputs: seq<AbiParameter>, outputs: seq<AbiParameter>)

  datatype AbiEvent = AbiEvent(name: string, selector: AbiSelector, fields: seq<AbiParameter>)

  // ----- Encoding and decoding -----

  function EnsureMessageFunction(f: AbiFunction): Outcome<()> {
    if !f.kind.GetMethod? && !f.selector.MethodId? then Ok(()) else Err(InvalidMessageSelector)
  }

  function EnsureEventSelector(selector: AbiSelector): Outcome<()> {
    if selector.MethodId? then Err(InvalidEventSelector) else Ok(())
  }

  function StoreSelector(st: Chunk, selector: AbiSelector): Outcome<Chunk> {
    if selector.Opcode? then Put(st, OfBits(ToBits(selector.opcode, 32))) else Ok(st)
  }

  function LoadSelector(c: Chunk, selector: AbiSelector): Outcome<Chunk> {
    if selector.Opcode? then
      var (actual, rest) :- OrMalformed(TakeUint(c, 32));
      TakenUint(c, 32);
      Pow2ThirtyTwo();
      if actual != selector.opcode then Err(OpcodeMismatch(selector.opcode, actual)) else Ok(rest)
    else Ok(c)
  }

  function StoreComponents(st: Chunk, fields: seq<AbiParameter>, values: seq<AbiValue>): Outcome<Chunk> {
    if |fields| != |values| then Err(ArityMismatch(|fields|, |values|)) else StoreFields(st, fields, values)
  }

  function LoadComponentsExact(c: Chunk, fields: seq<AbiParameter>): Outcome<seq<AbiValue>> {
    var (values, rest) :- LoadFields(c, fields);
    if rest == EMPTY then Ok(values) else Err(TrailingBodyData(|rest.bits|, |rest.refs|))
  }

  function EncodeWith(selector: AbiSelector, fields: seq<AbiParameter>, values: seq<AbiValue>): Outcome<Cell> {
    var afterSelector :- StoreSelector(EMPTY, selector);
    var body :- StoreComponents(afterSelector, fields, values);
    if body.Fits() then Ok(body.ToCell()) else Err(MalformedBody)
  }

  function DecodeWith(selector: AbiSelector, fields: seq<AbiParameter>, body: Cell): Outcome<seq<AbiValue>> {
    var afterSelector :- LoadSelector(Contents(body), selector);
    LoadComponentsExact(afterSelector, fields)
  }

  function EncodeMessageBody(f: AbiFunction, values: seq<AbiValue>): Outcome<Cell> {
    var _ :- EnsureMessageFunction(f);
    EncodeWith(f.selector, f.inputs, values)
  }

  function DecodeMessageBody(f: AbiFunction, body: Cell): Outcome<seq<AbiValue>> {
    var _ :- EnsureMessageFunction(f);
    DecodeWith(f.selector, f.inputs, body)
  }

  function EncodeEventPayload(e: AbiEvent, values: seq<AbiValue>): Outcome<Cell> {
    var _ :- EnsureEventSelector(e.selector);
    EncodeWith(e.selector, e.fields, values)
  }

  function DecodeEventPayload(e: AbiEvent, payload: Cell): Outcome<seq<AbiValue>> {
    var _ :- EnsureEventSelector(e.selector);
    DecodeWith(e.selector, e.fields, payload)
  }

  // ----- A body is the selector's bits, then the layout of the components -----

  function SelectorChunk(selector: AbiSelector): Chunk {
    if selector.Opcode? then OfBits(ToBits(selector.opcode, 32)) else EMPTY
  }

  /** The body when it exists, without regard to the size of a cell. */
  function BodyLayout(selector: AbiSelector, fields: seq<AbiParameter>, values: seq<AbiValue>): Option<Chunk> {
    if |fields| != |values| then None
    else
      var components :- FieldsLayout(fields, values);
      Some(SelectorChunk(selector).Then(components))
  }

  lemma EncodeWithIsLayout(selector: AbiSelector, fields: seq<AbiParameter>, values: seq<AbiValue>)
    ensures var layout := BodyLayout(selector, fields, values);
      var r := EncodeWith(selector, fields, values);
      && (r.Ok? <==> layout.Some? && layout.value.Fits())
      && (r.Ok? ==> Contents(r.value) == layout.value)
  {
    hide FieldsLayout, StoreFields, ToBits;
    ThenEmpty(SelectorChunk(selector));
    if |fields| == |values| {
      StoreFieldsIsLayout(SelectorChunk(selector), fields, values);
    }
  }

  lemma SelectorReads(selector: AbiSelector, rest: Chunk)
    ensures LoadSelector(SelectorChunk(selector).Then(rest), selector) == Ok(rest)
  {
    hide ToBits, Pow2;
    if selector.Opcode? {
      Pow2ThirtyTwo();
      TakeUintThen(selector.opcode, 32, rest);
    } else {
      ThenEmpty(rest);
    }
  }

  /** Loading a body from the front of a slice that may hold more. */
  lemma BodyThenReads(selector: AbiSelector, fields: seq<AbiParameter>, values: seq<AbiValue>, extra: Chunk)
    requires BodyLayout(selector, fields, values).Some?
    ensures var c := BodyLayout(selector, fields, values).value.Then(extra);
      && LoadSelector(c, selector).Ok?
      && LoadFields(LoadSelector(c, selector).value, fields) == Ok((NormalFields(fields, values), extra))
  {
    hide FieldsLayout, LoadFields, NormalFields, SelectorChunk, LoadSelector;
    var components := FieldsLayout(fields, values).value;
    ThenAssociates(SelectorChunk(selector), components, extra);
    SelectorReads(selector, components.Then(extra));
    FieldsRead(fields, values, extra);
  }

  // ----- Round trip, exactness, prefix-freedom -----

  lemma MessageRoundTrip(f: AbiFunction, values: seq<AbiValue>)
    requires EncodeMessageBody(f, values).Ok?
    ensures DecodeMessageBody(f, EncodeMessageBody(f, values).value) == Ok(NormalFields(f.inputs, values))
  {
    hide LoadSelector, LoadFields, NormalFields, BodyLayout, EncodeWith;
    EncodeWithIsLayout(f.selector, f.inputs, values);
    ThenEmpty(BodyLayout(f.selector, f.inputs, values).value);
    BodyThenReads(f.selector, f.inputs, values, EMPTY);
  }

  lemma EventRoundTrip(e: AbiEvent, values: seq<AbiValue>)
    requires EncodeEventPayload(e, values).Ok?
    ensures DecodeEventPayload(e, EncodeEventPayload(e, values).value) == Ok(NormalFields(e.fields, values))
  {
    hide LoadSelector, LoadFields, NormalFields, BodyLayout, EncodeWith;
    EncodeWithIsLayout(e.selector, e.fields, values);
    ThenEmpty(BodyLayout(e.selector, e.fields, values).value);
    BodyThenReads(e.selector, e.fields, values, EMPTY);
  }

  /** An encoded body with anything appended is rejected, and the error counts what was appended. */
  lemma MessageTrailing(f: AbiFunction, values: seq<AbiValue>, extra: Chunk)
    requires EncodeMessageBody(f, values).Ok? && extra != EMPTY
    requires Contents(EncodeMessageBody(f, values).value).Then(extra).Fits()
    ensures DecodeMessageBody(f, Contents(EncodeMessageBody(f, values).value).Then(extra).ToCell())
         == Err(TrailingBodyData(|extra.bits|, |extra.refs|))
  {
    hide LoadSelector, LoadFields, NormalFields, BodyLayout, EncodeWith;
    EncodeWithIsLayout(f.selector, f.inputs, values);
    BodyThenReads(f.selector, f.inputs, values, extra);
    var longer := Contents(EncodeMessageBody(f, values).value).Then(extra);
    assert Contents(longer.ToCell()) == longer;
  }

  lemma EventTrailing(e: AbiEvent, values: seq<AbiValue>, extra: Chunk)
    requires EncodeEventPayload(e, values).Ok? && extra != EMPTY
    requires Contents(EncodeEventPayload(e, values).value).Then(extra).Fits()
    ensures DecodeEventPayload(e, Contents(EncodeEventPayload(e, values).value).Then(extra).ToCell())
         == Err(TrailingBodyData(|extra.bits|, |extra.refs|))
  {
    hide LoadSelector, LoadFields, NormalFields, BodyLayout, EncodeWith;
    EncodeWithIsLayout(e.selector, e.fields, values);
    BodyThenReads(e.selector, e.fields, values, extra);
    var longer := Contents(EncodeEventPayload(e, values).value).Then(extra);
    assert Contents(longer.ToCell()) == longer;
  }

  /** A body encoded under one opcode is rejected under any other, whatever the two signatures are. */
  lemma OpcodesSeparate(f: AbiFunction, g: AbiFunction, values: seq<AbiValue>)
    requires EncodeMessageBody(f, values).Ok? && EnsureMessageFunction(g).Ok?
    requires f.selector.Opcode? && g.selector.Opcode? && f.selector.opcode != g.selector.opcode
    ensures DecodeMessageBody(g, EncodeMessageBody(f, values).value)
         == Err(OpcodeMismatch(g.selector.opcode, f.selector.opcode))
  {
    hide LoadFields, FieldsLayout, ToBits, EncodeWith, Pow2;
    EncodeWithIsLayout(f.selector, f.inputs, values);
    Pow2ThirtyTwo();
    TakeUintThen(f.selector.opcode, 32, FieldsLayout(f.inputs, values).value);
  }

  /** The same for events. */
  lemma EventOpcodesSeparate(e: AbiEvent, g: AbiEvent, values: seq<AbiValue>)
    requires EncodeEventPayload(e, values).Ok?
    requires e.selector.Opcode? && g.selector.Opcode? && e.selector.opcode != g.selector.opcode
    ensures DecodeEventPayload(g, EncodeEventPayload(e, values).value)
         == Err(OpcodeMismatch(g.selector.opcode, e.selector.opcode))
  {
    hide LoadFields, FieldsLayout, ToBits, EncodeWith, Pow2;
    EncodeWithIsLayout(e.selector, e.fields, values);
    Pow2ThirtyTwo();
    TakeUintThen(e.selector.opcode, 32, FieldsLayout(e.fields, values).value);
  }

  // ----- When encoding succeeds -----

  /** A message encodes exactly when every value does and the sums of the sizes stay within one cell. */
  lemma MessageCapacityIff(f: AbiFunction, values: seq<AbiValue>)
    requires EnsureMessageFunction(f).Ok?
    ensures EncodeMessageBody(f, values).Ok? <==>
      && |f.inputs| == |values|
      && EachEncodes(f.inputs, values)
      && (if f.selector.Opcode? then 32 else 0) + FieldsWidth(f.inputs, values) <= MAX_CELL_BITS
      && FieldsRefCount(f.inputs, values) <= MAX_CELL_REFS
  {
    hide FieldsLayout, EachEncodes, FieldsWidth, FieldsRefCount, ToBits, EncodeWith;
    EncodeWithIsLayout(f.selector, f.inputs, values);
    if |f.inputs| == |values| {
      FieldsLayoutIff(f.inputs, values);
      if FieldsLayout(f.inputs, values).Some? {
        FieldsLayoutSize(f.inputs, values);
      }
    }
  }

  // ----- Encoding a decoded message -----

  lemma SelectorTaken(c: Chunk, selector: AbiSelector)
    requires LoadSelector(c, selector).Ok?
    ensures c == SelectorChunk(selector).Then(LoadSelector(c, selector).value)
  {
    hide ToBits, FromBits, Pow2;
    ThenEmpty(c);
    if selector.Opcode? {
      TakenUint(c, 32);
    }
  }

  /**
   * Every accepted message re-encodes, and to the same cell exactly when its byte chains and dictionaries were
   * canonical.
   */
  lemma MessageReencodes(f: AbiFunction, body: Cell)
    requires DecodeMessageBody(f, body).Ok?
    ensures var values := DecodeMessageBody(f, body).value;
      var components := LoadSelector(Contents(body), f.selector).value;
      && EncodeMessageBody(f, values).Ok?
      && NormalFields(f.inputs, values) == values
      && (EncodeMessageBody(f, values).value == body <==> CanonicalFields(components, f.inputs))
  {
    hide LoadFields, FieldsLayout, NormalFields, CanonicalFields, SelectorChunk, LoadSelector, EncodeWith;
    var values := DecodeMessageBody(f, body).value;
    var components := LoadSelector(Contents(body), f.selector).value;
    SelectorTaken(Contents(body), f.selector);
    ReencodedFields(components, f.inputs);
    EncodeWithIsLayout(f.selector, f.inputs, values);
    var again := FieldsLayout(f.inputs, values).value;
    ThenEmpty(again);
    SamePrefix(SelectorChunk(f.selector), again, components);
    assert Contents(body).ToCell() == body;
  }

  lemma SamePrefix(prefix: Chunk, a: Chunk, b: Chunk)
    ensures prefix.Then(a) == prefix.Then(b) <==> a == b
  {
    var x, y := prefix.Then(a), prefix.Then(b);
    assert x.bits[|prefix.bits|..] == a.bits && x.refs[|prefix.refs|..] == a.refs;
    assert y.bits[|prefix.bits|..] == b.bits && y.refs[|prefix.refs|..] == b.refs;
  }

  /** For signatures without byte chains and maps, decoding then encoding is the identity on accepted messages. */
  lemma FixedMessageIsLossless(f: AbiFunction, body: Cell)
    requires DecodeMessageBody(f, body).Ok? && FieldsFixedLayout(f.inputs)
    ensures EncodeMessageBody(f, DecodeMessageBody(f, body).value) == Ok(body)
  {
    hide CanonicalFields, EncodeMessageBody, LoadFields, FieldsFixedLayout, LoadSelector;
    MessageReencodes(f, body);
    FixedFieldsAreCanonical(LoadSelector(Contents(body), f.selector).value, f.inputs);
  }
}
