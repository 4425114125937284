/**
 * TEP-64 content cells (src/metadata.rs) and the typed metadata built from them (src/jetton.rs, src/nft/types.rs).
 */
module Metadata {
  import opened AbiModel
  import opened Addresses
  import opened Bits
  import opened Cells
  import opened Dictionary
  import opened Snake
  import opened SortedMap
  import opened Wrappers

  const ON_CHAIN_TAG := 0x00
  const OFF_CHAIN_TAG := 0x01
  const DICT_KEY_BITS := 256
  const CHUNK_KEY_BITS := 32

  datatype KnownKey =
    | Uri | Name | Description | Image | ImageData | Symbol | Decimals | AmountStyle | RenderType | ContentUrl | Video

  datatype TextChunk = TextChunk(index: nat, bytes: seq<byte>)

  datatype FieldValue =
    | SnakeValue(bytes: seq<byte>)
    | ChunkedValue(chunks: seq<TextChunk>, bytes: seq<byte>)
    | Unsupported(tag: Option<nat>, raw: Option<seq<byte>>)
    | Malformed

  datatype Field = Field(keyHash: seq<bool>, knownKey: Option<KnownKey>, value: FieldValue, cell: Cell)

  datatype Content =
    | OffChain(uri: seq<byte>)
    | OnChain(fields: seq<Field>)
    | UnknownContent(tag: Option<nat>)

  // ----- Reading field values -----

  function FlattenSlice(c: Chunk): Option<seq<byte>> {
    match ReadSnake(c.bits, c.refs)
    case Ok(bytes) => Some(bytes)
    case Err(_) => None
  }

  /** Nothing for an entirely empty cell. */
  function FlattenCell(cell: Cell): Option<Option<seq<byte>>> {
    if cell.bits == [] && cell.refs == [] then Some(None)
    else
      var bytes :- FlattenSlice(Contents(cell));
      Some(Some(bytes))
  }

  function ChunkList(d: Dict): Option<seq<TextChunk>> {
    if d == [] then Some([])
    else
      var flat :- FlattenCell(d[0].value);
      var bytes :- flat;
      var rest :- ChunkList(d[1..]);
      Some([TextChunk(FromBits(d[0].key), bytes)] + rest)
  }

  function Joined(chunks: seq<TextChunk>): seq<byte> {
    if chunks == [] then [] else chunks[0].bytes + Joined(chunks[1..])
  }

  /** A dictionary of chunks under 32-bit indices, and nothing after it. */
  function DecodeChunked(c: Chunk): Option<seq<TextChunk>> {
    var (d, rest) :- LoadDict(c, CHUNK_KEY_BITS);
    if rest == EMPTY then ChunkList(d) else None
  }

  function RawValue(tag: Option<nat>, cell: Cell): FieldValue {
    match FlattenCell(cell)
    case Some(bytes) => Unsupported(tag, bytes)
    case None => Malformed
  }

  function DecodeFieldValue(cell: Cell): FieldValue {
    match TakeUint(Contents(cell), 8)
    case None => RawValue(None, cell)
    case Some((tag, rest)) =>
      if tag == ON_CHAIN_TAG then
        match FlattenSlice(rest)
        case Some(bytes) => SnakeValue(bytes)
        case None => Malformed
      else if tag == OFF_CHAIN_TAG then
        match DecodeChunked(rest)
        case Some(chunks) => ChunkedValue(chunks, Joined(chunks))
        case None => Malformed
      else RawValue(Some(tag), cell)
  }

  // ----- Reading content -----

  const KNOWN_KEYS: seq<KnownKey> :=
    [Uri, Name, Description, Image, ImageData, Symbol, Decimals, AmountStyle, RenderType, ContentUrl, Video]

  /** The first key of the list with that hash; the hash function is a parameter. */
  function FindKey(hashOf: KnownKey -> seq<bool>, keys: seq<KnownKey>, hash: seq<bool>): (r: Option<KnownKey>)
    ensures r.Some? ==> hashOf(r.value) == hash
  {
    if keys == [] then None
    else if hashOf(keys[0]) == hash then Some(keys[0])
    else FindKey(hashOf, keys[1..], hash)
  }

  function DecodeFields(hashOf: KnownKey -> seq<bool>, d: Dict): (fields: seq<Field>)
    ensures |fields| == |d|
    ensures forall i :: 0 <= i < |d| ==>
      fields[i] == Field(d[i].key, FindKey(hashOf, KNOWN_KEYS, d[i].key), DecodeFieldValue(d[i].value), d[i].value)
  {
    seq(|d|, i requires 0 <= i < |d| =>
      Field(d[i].key, FindKey(hashOf, KNOWN_KEYS, d[i].key), DecodeFieldValue(d[i].value), d[i].value))
  }

  function ParseContent(hashOf: KnownKey -> seq<bool>, cell: Cell): Option<Content> {
    match TakeUint(Contents(cell), 8)
    case None => Some(UnknownContent(None))
    case Some((tag, rest)) =>
      if tag == OFF_CHAIN_TAG then
        var uri :- FlattenSlice(rest);
        Some(OffChain(uri))
      else if tag == ON_CHAIN_TAG then
        var (d, after) :- LoadDict(rest, DICT_KEY_BITS);
        if after == EMPTY then Some(OnChain(DecodeFields(hashOf, d))) else None
      else Some(UnknownContent(Some(tag)))
  }

  // ----- The loops of the readers -----

  method FlattenSnakeCell(cell: Cell) returns (r: Option<Option<seq<byte>>>)
    ensures r == FlattenCell(cell)
  {
    var s := new Slice(cell);
    if |cell.bits| == 0 && |cell.refs| == 0 {
      return Some(None);
    }
    var bytes := FlattenSnakeSlice(s);
    return if bytes.Ok? then Some(Some(bytes.value)) else None;
  }

  method ReadChunks(d: Dict) returns (r: Option<(seq<TextChunk>, seq<byte>)>)
    ensures match ChunkList(d)
      case None => r == None
      case Some(chunks) => r == Some((chunks, Joined(chunks)))
  {
    hide FlattenCell, FromBits;
    var chunks: seq<TextChunk>, bytes: seq<byte> := [], [];
    assert forall rest: seq<TextChunk> :: [] + rest == rest;
    for i := 0 to |d|
      invariant bytes == Joined(chunks)
      invariant ChunkList(d) == match ChunkList(d[i..])
        case None => None
        case Some(rest) => Some(chunks + rest)
    {
      ghost var before := chunks;
      assert d[i..][1..] == d[i + 1..];
      var flat := FlattenSnakeCell(d[i].value);
      if flat == None || flat.value == None {
        return None;
      }
      var chunk := TextChunk(FromBits(d[i].key), flat.value.value);
      JoinedSnoc(chunks, chunk);
      bytes := bytes + chunk.bytes;
      chunks := chunks + [chunk];
      assert forall rest: seq<TextChunk> :: before + ([chunk] + rest) == chunks + rest;
    }
    assert chunks + [] == chunks;
    return Some((chunks, bytes));
  }

  lemma {:induction false} JoinedSnoc(chunks: seq<TextChunk>, last: TextChunk)
    ensures Joined(chunks + [last]) == Joined(chunks) + last.bytes
  {
    if chunks == [] {
      assert [] + [last] == [last] && [last][1..] == [];
      assert Joined([last]) == last.bytes + [];
    } else {
      assert (chunks + [last])[1..] == chunks[1..] + [last];
      JoinedSnoc(chunks[1..], last);
    }
  }

  // ----- Chunked data -----

  /** The dictionary that holds the chunks, each spread over a chain of cells of its own. */
  ghost predicate HoldsChunks(d: Dict, chunks: seq<TextChunk>) {
    && |d| == |chunks|
    && forall i :: 0 <= i < |d| ==>
         FromBits(d[i].key) == chunks[i].index && FlattenCell(d[i].value) == Some(Some(chunks[i].bytes))
  }

  lemma {:induction false} ChunkListIs(d: Dict, chunks: seq<TextChunk>)
    ensures ChunkList(d) == Some(chunks) <==> HoldsChunks(d, chunks)
  {
    hide FlattenCell, FromBits;
    if d != [] {
      if chunks != [] {
        ChunkListIs(d[1..], chunks[1..]);
        assert chunks == [chunks[0]] + chunks[1..];
        assert HoldsChunks(d, chunks) ==> HoldsChunks(d[1..], chunks[1..]);
        assert HoldsChunks(d[1..], chunks[1..]) ==> forall i :: 0 < i < |d| ==> d[i] == d[1..][i - 1];
      }
    }
  }

  /** The value cell of chunked data: its tag, then the dictionary. */
  function ChunkedCell(d: Dict): Option<Cell>
    requires KeysOfLength(d, CHUNK_KEY_BITS)
  {
    var dict :- StoreDict(d, CHUNK_KEY_BITS);
    var chunk := OfBits(ToBits(OFF_CHAIN_TAG, 8)).Then(dict);
    if chunk.Fits() then Some(chunk.ToCell()) else None
  }

  lemma StoredDictIsSmall(d: Dict)
    requires KeysOfLength(d, CHUNK_KEY_BITS) && StoreDict(d, CHUNK_KEY_BITS).Some?
    ensures |StoreDict(d, CHUNK_KEY_BITS).value.bits| == 1 && |StoreDict(d, CHUNK_KEY_BITS).value.refs| <= 1
  {
    hide BuildEdge;
  }

  /**
   * However the chunks are spread over cells, the field value reads back as those chunks in the ascending order of
   * their indices, and as their bytes joined in that order.
   */
  lemma ChunkedRoundTrip(d: Dict, chunks: seq<TextChunk>)
    requires ValidDict(d, CHUNK_KEY_BITS) && HoldsChunks(d, chunks)
    ensures StoreDict(d, CHUNK_KEY_BITS).Some? && DecodeChunked(StoreDict(d, CHUNK_KEY_BITS).value) == Some(chunks)
    ensures ChunkedCell(d).Some? && DecodeFieldValue(ChunkedCell(d).value) == ChunkedValue(chunks, Joined(chunks))
    ensures forall i, j :: 0 <= i < j < |chunks| ==> chunks[i].index < chunks[j].index
  {
    hide LoadDict, StoreDict, HoldsChunks, ChunkList, ToBits, FromBits, Pow2, LexLess, Joined;
    StoreDictSucceeds(d, CHUNK_KEY_BITS);
    var dict := StoreDict(d, CHUNK_KEY_BITS).value;
    DictRoundTrip(d, CHUNK_KEY_BITS, EMPTY);
    ThenEmpty(dict);
    ChunkListIs(d, chunks);
    StoredDictIsSmall(d);
    TagOneFits();
    TakeUintThen(OFF_CHAIN_TAG, 8, dict);
    var value := OfBits(ToBits(OFF_CHAIN_TAG, 8)).Then(dict);
    assert Contents(value.ToCell()) == value;
    ChunksAscend(dict);
  }

  lemma TagOneFits()
    ensures UnsignedFits(OFF_CHAIN_TAG, 8)
  {
    Pow2Eight();
  }

  /** In everything accepted the indices are 32-bit numbers in strictly ascending order. */
  lemma ChunksAscend(c: Chunk)
    requires DecodeChunked(c).Some?
    ensures var chunks := DecodeChunked(c).value;
      && (forall i :: 0 <= i < |chunks| ==> chunks[i].index < Pow2(CHUNK_KEY_BITS))
      && (forall i, j :: 0 <= i < j < |chunks| ==> chunks[i].index < chunks[j].index)
  {
    hide LoadDict, ChunkList, FlattenCell;
    var d, chunks := LoadDict(c, CHUNK_KEY_BITS).value.0, DecodeChunked(c).value;
    LoadedDictIsValid(c, CHUNK_KEY_BITS);
    ChunkListIs(d, chunks);
    forall i | 0 <= i < |chunks| ensures chunks[i].index < Pow2(CHUNK_KEY_BITS) {
      FromBitsBound(d[i].key);
    }
    forall i, j | 0 <= i < j < |chunks| ensures chunks[i].index < chunks[j].index {
      LexLessIsNumeric(d[i].key, d[j].key);
    }
  }

  // ----- Typed metadata -----

  datatype Slot = Text(utf8: Utf8) | Data(bytes: seq<byte>) | Number(n: nat)

  function U8Value(digits: seq<byte>): Option<nat> {
    if digits == [] then Some(0)
    else
      var init :- U8Value(digits[..|digits| - 1]);
      var last := digits[|digits| - 1];
      if 0x30 <= last <= 0x39 && 10 * init + last - 0x30 <= 255 then Some(10 * init + last - 0x30) else None
  }

  /** `str::parse::<u8>`: an optional plus sign, then at least one digit. */
  function ParseU8(text: seq<byte>): Option<nat> {
    var digits := if text != [] && text[0] == 0x2B then text[1..] else text;
    if digits == [] then None else U8Value(digits)
  }

  function ValueBytes(value: FieldValue): Option<seq<byte>> {
    match value
    case SnakeValue(bytes) => Some(bytes)
    case ChunkedValue(_, bytes) => Some(bytes)
    case _ => None
  }

  /** What a typed field holds, or nothing when the value is reported instead. */
  function SlotOf(key: KnownKey, value: FieldValue): Option<Slot> {
    var bytes :- ValueBytes(value);
    if key == ImageData then Some(Data(bytes))
    else if !ValidUtf8(bytes) then None
    else if key == Decimals then
      var n :- ParseU8(bytes);
      Some(Number(n))
    else Some(Text(bytes))
  }

  const JETTON_KEYS: set<KnownKey> := {Uri, Name, Description, Image, ImageData, Symbol, Decimals, AmountStyle}
  const NFT_KEYS: set<KnownKey> := {Uri, Name, Description, Image, ImageData, RenderType, ContentUrl, Video}

  datatype Typed = Typed(slots: map<KnownKey, Slot>, unknown: seq<Field>, diagnostics: seq<Field>)

  const BLANK := Typed(map[], [], [])

  predicate Handled(keys: set<KnownKey>, f: Field) {
    f.knownKey.Some? && f.knownKey.value in keys
  }

  function Apply(keys: set<KnownKey>, m: Typed, f: Field): Typed {
    if !Handled(keys, f) then m.(unknown := m.unknown + [f])
    else match SlotOf(f.knownKey.value, f.value)
      case Some(slot) => m.(slots := m.slots[f.knownKey.value := slot])
      case None => m.(slots := m.slots - {f.knownKey.value}, diagnostics := m.diagnostics + [f])
  }

  function ApplyAll(keys: set<KnownKey>, fields: seq<Field>): Typed {
    if fields == [] then BLANK
    else Apply(keys, ApplyAll(keys, fields[..|fields| - 1]), fields[|fields| - 1])
  }

  /** Metadata under construction; the optional fields of the source's struct are one map from key to value. */
  class MetadataFields {
    const keys: set<KnownKey>
    var slots: map<KnownKey, Slot>
    var unknown: seq<Field>
    var diagnostics: seq<Field>

    constructor (keys: set<KnownKey>)
      ensures this.keys == keys && View() == BLANK
    {
      this.keys, slots, unknown, diagnostics := keys, map[], [], [];
    }

    function View(): Typed
      reads this
    {
      Typed(slots, unknown, diagnostics)
    }

    /** `field_string`, `field_decimals` and `field_bytes`: the value, or a diagnostic. */
    method FieldSlot(key: KnownKey, f: Field) returns (slot: Option<Slot>)
      modifies this`diagnostics
      ensures slot == SlotOf(key, f.value)
      ensures diagnostics == old(diagnostics) + if slot == None then [f] else []
    {
      var bytes := ValueBytes(f.value);
      assert diagnostics + [] == diagnostics;
      if bytes == None {
        diagnostics := diagnostics + [f];
        return None;
      }
      if key == ImageData {
        return Some(Data(bytes.value));
      }
      if !ValidUtf8(bytes.value) {
        diagnostics := diagnostics + [f];
        return None;
      }
      if key != Decimals {
        return Some(Text(bytes.value));
      }
      var n := ParseU8(bytes.value);
      if n == None {
        diagnostics := diagnostics + [f];
        return None;
      }
      return Some(Number(n.value));
    }

    method ApplyField(f: Field)
      modifies this
      ensures View() == Apply(keys, old(View()), f)
    {
      if f.knownKey == None || f.knownKey.value !in keys {
        unknown := unknown + [f];
        return;
      }
      var slot := FieldSlot(f.knownKey.value, f);
      assert old(diagnostics) + [] == old(diagnostics);
      slots := if slot == None then slots - {f.knownKey.value} else slots[f.knownKey.value := slot.value];
    }

    method FromFields(fields: seq<Field>)
      requires View() == BLANK
      modifies this
      ensures View() == ApplyAll(keys, fields)
    {
      for i := 0 to |fields|
        invariant View() == ApplyAll(keys, fields[..i])
      {
        assert fields[..i + 1][..i] == fields[..i];
        ApplyField(fields[i]);
      }
      assert fields[..|fields|] == fields;
    }
  }

  // ----- Nothing is lost, nothing is counted twice -----

  ghost predicate DistinctKeys(fields: seq<Field>) {
    forall i, j :: 0 <= i < j < |fields| && fields[i].knownKey.Some? ==> fields[i].knownKey != fields[j].knownKey
  }

  datatype Fate = Preserved | Reported | Filled

  function FateOf(keys: set<KnownKey>, f: Field): Fate {
    if !Handled(keys, f) then Preserved
    else if SlotOf(f.knownKey.value, f.value) == None then Reported
    else Filled
  }

  function WithFate(keys: set<KnownKey>, fields: seq<Field>, fate: Fate): seq<Field> {
    if fields == [] then []
    else
      var last := fields[|fields| - 1];
      WithFate(keys, fields[..|fields| - 1], fate) + if FateOf(keys, last) == fate then [last] else []
  }

  ghost predicate Fills(keys: set<KnownKey>, f: Field, k: KnownKey, slot: Slot) {
    f.knownKey == Some(k) && k in keys && SlotOf(k, f.value) == Some(slot)
  }

  ghost predicate SomeFills(keys: set<KnownKey>, fields: seq<Field>, k: KnownKey, slot: Slot) {
    exists i :: 0 <= i < |fields| && Fills(keys, fields[i], k, slot)
  }

  /** Each slot holds the value of the field with that key, and each such field has its slot. */
  ghost predicate SlotsAre(keys: set<KnownKey>, fields: seq<Field>, slots: map<KnownKey, Slot>) {
    forall k, slot :: SomeFills(keys, fields, k, slot) <==> k in slots && slots[k] == slot
  }

  /** Each field ends up in exactly one place. */
  ghost predicate Conserved(keys: set<KnownKey>, fields: seq<Field>, m: Typed) {
    && m.unknown == WithFate(keys, fields, Preserved)
    && m.diagnostics == WithFate(keys, fields, Reported)
    && SlotsAre(keys, fields, m.slots)
    && |m.slots| + |m.unknown| + |m.diagnostics| == |fields|
  }

  lemma SomeFillsSnoc(keys: set<KnownKey>, init: seq<Field>, last: Field, k: KnownKey, slot: Slot)
    ensures SomeFills(keys, init + [last], k, slot) <==> SomeFills(keys, init, k, slot) || Fills(keys, last, k, slot)
  {
    hide Fills;
    var fields := init + [last];
    assert fields[|init|] == last;
    if SomeFills(keys, init, k, slot) {
      var i :| 0 <= i < |init| && Fills(keys, init[i], k, slot);
      assert fields[i] == init[i];
    }
  }

  lemma StepSlots(keys: set<KnownKey>, init: seq<Field>, last: Field, m: Typed)
    requires SlotsAre(keys, init, m.slots) && DistinctKeys(init + [last])
    ensures SlotsAre(keys, init + [last], Apply(keys, m, last).slots)
    ensures Handled(keys, last) ==> last.knownKey.value !in m.slots
  {
    hide SlotOf, SomeFills;
    var after := Apply(keys, m, last).slots;
    if Handled(keys, last) {
      FreshKey(keys, init, last, m);
    }
    forall k, slot ensures SomeFills(keys, init + [last], k, slot) <==> k in after && after[k] == slot {
      SomeFillsSnoc(keys, init, last, k, slot);
    }
  }

  lemma FilledBy(keys: set<KnownKey>, fields: seq<Field>, slots: map<KnownKey, Slot>, k: KnownKey) returns (i: nat)
    requires SlotsAre(keys, fields, slots) && k in slots
    ensures i < |fields| && fields[i].knownKey == Some(k)
  {
    assert SomeFills(keys, fields, k, slots[k]);
    i :| 0 <= i < |fields| && Fills(keys, fields[i], k, slots[k]);
  }

  lemma FreshKey(keys: set<KnownKey>, init: seq<Field>, last: Field, m: Typed)
    requires SlotsAre(keys, init, m.slots) && DistinctKeys(init + [last]) && Handled(keys, last)
    ensures last.knownKey.value !in m.slots
  {
    var k, fields := last.knownKey.value, init + [last];
    forall i | 0 <= i < |init| ensures init[i].knownKey != last.knownKey {
      assert fields[i] == init[i] && fields[|init|] == last;
    }
    if k in m.slots {
      var _ := FilledBy(keys, init, m.slots, k);
      assert false;
    }
  }

  lemma {:induction false} AllConserved(keys: set<KnownKey>, fields: seq<Field>)
    requires DistinctKeys(fields)
    ensures Conserved(keys, fields, ApplyAll(keys, fields))
  {
    hide SlotOf, SlotsAre, Handled;
    if fields == [] {
      NothingFills(keys);
    } else {
      var init, last := fields[..|fields| - 1], fields[|fields| - 1];
      AllConserved(keys, init);
      assert fields == init + [last];
      StepSlots(keys, init, last, ApplyAll(keys, init));
    }
  }

  lemma NothingFills(keys: set<KnownKey>)
    ensures SlotsAre(keys, [], map[])
  {
  }

  /** Fields of one dictionary have different hashes, so different known keys. */
  lemma DictFieldsAreDistinct(hashOf: KnownKey -> seq<bool>, d: Dict)
    requires Ascending(d)
    ensures DistinctKeys(DecodeFields(hashOf, d))
  {
    hide DecodeFieldValue, LexLess;
    forall i, j | 0 <= i < j < |d| ensures d[i].key != d[j].key {
      LexLessTotal(d[i].key, d[j].key);
    }
  }

  /**
   * For every content cell accepted as on-chain, under either set of typed fields: each dictionary entry fills exactly
   * one slot, is preserved as unknown, or is reported, so the three counts add up to the number of entries.
   */
  lemma ContentIsConserved(hashOf: KnownKey -> seq<bool>, cell: Cell, keys: set<KnownKey>)
    requires ParseContent(hashOf, cell).Some? && ParseContent(hashOf, cell).value.OnChain?
    ensures var fields := ParseContent(hashOf, cell).value.fields;
      Conserved(keys, fields, ApplyAll(keys, fields))
  {
    hide LoadDict, DecodeFields, ApplyAll, Conserved, DistinctKeys;
    var rest := TakeUint(Contents(cell), 8).value.1;
    LoadedDictIsValid(rest, DICT_KEY_BITS);
    var d := LoadDict(rest, DICT_KEY_BITS).value.0;
    DictFieldsAreDistinct(hashOf, d);
    AllConserved(keys, DecodeFields(hashOf, d));
  }

  /** In particular for the typed fields of jettons and of NFTs. */
  lemma BothStandardsConserve(hashOf: KnownKey -> seq<bool>, cell: Cell)
    requires ParseContent(hashOf, cell).Some? && ParseContent(hashOf, cell).value.OnChain?
    ensures var fields := ParseContent(hashOf, cell).value.fields;
      && Conserved(JETTON_KEYS, fields, ApplyAll(JETTON_KEYS, fields))
      && Conserved(NFT_KEYS, fields, ApplyAll(NFT_KEYS, fields))
  {
    hide ParseContent, ApplyAll, Conserved;
    ContentIsConserved(hashOf, cell, JETTON_KEYS);
    ContentIsConserved(hashOf, cell, NFT_KEYS);
  }

  lemma {:induction false} FateCount(keys: set<KnownKey>, fields: seq<Field>, fate: Fate, f: Field)
    ensures multiset(WithFate(keys, fields, fate))[f] == if FateOf(keys, f) == fate then multiset(fields)[f] else 0
  {
    hide FateOf;
    if fields != [] {
      var init, last := fields[..|fields| - 1], fields[|fields| - 1];
      FateCount(keys, init, fate, f);
      assert fields == init + [last];
    }
  }

  lemma FatesIgnoreOrder(keys: set<KnownKey>, a: seq<Field>, b: seq<Field>, fate: Fate)
    requires multiset(a) == multiset(b)
    ensures multiset(WithFate(keys, a, fate)) == multiset(WithFate(keys, b, fate))
  {
    hide FateOf, WithFate;
    forall f ensures multiset(WithFate(keys, a, fate))[f] == multiset(WithFate(keys, b, fate))[f] {
      FateCount(keys, a, fate, f);
      FateCount(keys, b, fate, f);
    }
  }

  /** The order of the fields does not matter: the same slots, and permutations of the same two lists. */
  lemma SlotsIgnoreOrder(keys: set<KnownKey>, a: seq<Field>, b: seq<Field>)
    requires DistinctKeys(a) && DistinctKeys(b) && multiset(a) == multiset(b)
    ensures ApplyAll(keys, a).slots == ApplyAll(keys, b).slots
    ensures multiset(ApplyAll(keys, a).unknown) == multiset(ApplyAll(keys, b).unknown)
    ensures multiset(ApplyAll(keys, a).diagnostics) == multiset(ApplyAll(keys, b).diagnostics)
  {
    hide ApplyAll, DistinctKeys, SlotsAre, WithFate;
    AllConserved(keys, a);
    AllConserved(keys, b);
    FatesIgnoreOrder(keys, a, b, Preserved);
    FatesIgnoreOrder(keys, a, b, Reported);
    SameSlots(keys, a, b, ApplyAll(keys, a).slots, ApplyAll(keys, b).slots);
  }

  lemma SameSlots(keys: set<KnownKey>, a: seq<Field>, b: seq<Field>, x: map<KnownKey, Slot>, y: map<KnownKey, Slot>)
    requires multiset(a) == multiset(b) && SlotsAre(keys, a, x) && SlotsAre(keys, b, y)
    ensures x == y
  {
    hide SomeFills;
    forall k, slot ensures SomeFills(keys, a, k, slot) <==> SomeFills(keys, b, k, slot) {
      if SomeFills(keys, a, k, slot) { FillsInEither(keys, a, b, k, slot); }
      if SomeFills(keys, b, k, slot) { FillsInEither(keys, b, a, k, slot); }
    }
    forall k ensures k in x <==> k in y {
      if k in x { assert SomeFills(keys, a, k, x[k]); }
      if k in y { assert SomeFills(keys, b, k, y[k]); }
    }
    forall k | k in x ensures x[k] == y[k] {
      assert SomeFills(keys, a, k, x[k]);
    }
  }

  lemma FillsInEither(keys: set<KnownKey>, a: seq<Field>, b: seq<Field>, k: KnownKey, slot: Slot)
    requires multiset(a) == multiset(b) && SomeFills(keys, a, k, slot)
    ensures SomeFills(keys, b, k, slot)
  {
    var i :| 0 <= i < |a| && Fills(keys, a[i], k, slot);
    assert a[i] in multiset(b);
  }
}
