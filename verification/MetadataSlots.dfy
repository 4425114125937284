/**
 * What each piece of TEP-64 metadata ends up as (src/metadata.rs, src/jetton.rs, src/nft/types.rs): from the bits of
 * the content cell to the slot of a key, with no reader in between.
 */
module MetadataSlots {
  import opened AbiCodec
  import opened AbiModel
  import opened AbiWires
  import opened Bits
  import opened Cells
  import opened Dictionary
  import opened LabelForms
  import opened Metadata
  import opened Numerals
  import opened Snake
  import opened SortedMap
  import opened Wrappers

  // ----- Field values -----

  /** A leading byte and these bytes, in a chain of cells. */
  ghost predicate TaggedBytes(cell: Cell, tag: byte, bytes: seq<byte>) {
    |cell.bits| >= 8 && HoldsBytes(cell, [tag] + bytes)
  }

  /** A chunk of a value: its 32-bit index is the key, its bytes are in a chain that is not an empty cell. */
  ghost predicate IsChunk(x: Entry, chunk: TextChunk) {
    && chunk.index < 0x1_0000_0000 && x.key == ToBits(chunk.index, 32)
    && x.value != CellTree([], []) && HoldsBytes(x.value, chunk.bytes)
  }

  /** The byte 0x01, then a dictionary of the chunks and nothing else. */
  ghost predicate HoldsChunked(cell: Cell, chunks: seq<TextChunk>) {
    && |cell.bits| >= 8 && cell.bits[..8] == ToBits(0x01, 8)
    && exists d: Dict ::
         && IsDict(CellTree(cell.bits[8..], cell.refs), 32, d)
         && |d| == |chunks| && forall i :: 0 <= i < |d| ==> IsChunk(d[i], chunks[i])
  }

  function BytesOf(chunks: seq<TextChunk>): seq<byte> {
    Flatten(seq(|chunks|, i requires 0 <= i < |chunks| => chunks[i].bytes))
  }

  /** The first byte off the bits of a byte string. */
  lemma FirstByte(bits: seq<bool>)
    requires |bits| % 8 == 0 && |bits| >= 8
    ensures FromBits(bits[..8]) < 256
    ensures BitsToBytes(bits) == [FromBits(bits[..8])] + BitsToBytes(bits[8..])
  {
    hide BitsToBytes, BytesToBits, ToBits, FromBits, Pow2;
    FromBitsBound(bits[..8]);
    Pow2Eight();
    var first, more := FromBits(bits[..8]), BitsToBytes(bits[8..]);
    BitsRoundTrip(bits[8..]);
    BytesToBitsConcat([first], more);
    OneByte(first);
    ToFromBits(bits[..8]);
    assert bits == bits[..8] + bits[8..];
    BytesRoundTrip([first] + more);
  }

  lemma OneByte(b: byte)
    ensures BytesToBits([b]) == ToBits(b, 8)
  {
    hide ToBits;
    BytesToBitsSnoc([], b);
    assert BytesToBits([]) == [];
    assert [] + [b] == [b];
  }

  /** A chain that begins after a byte is the chain of the whole cell without that byte. */
  lemma AfterTag(cell: Cell, tag: byte, bytes: seq<byte>)
    requires |cell.bits| >= 8
    ensures FromBits(cell.bits[..8]) == tag && FlattenSlice(Chunk(cell.bits[8..], cell.refs)) == Some(bytes)
       <==> TaggedBytes(cell, tag, bytes)
  {
    hide HoldsBytes, FromBits, BitsToBytes;
    HoldsIff(cell, [tag] + bytes);
    if |cell.bits| % 8 == 0 {
      FirstByte(cell.bits);
      var first, more := FromBits(cell.bits[..8]), BitsToBytes(cell.bits[8..]);
      if |cell.refs| == 1 {
        var rest: Cell := cell.refs[0];
        var next := ReadSnake(rest.bits, rest.refs);
        if next.Ok? {
          assert [first] + more + next.value == [first] + (more + next.value);
          SameFront(first, more + next.value, tag, bytes);
        }
      } else {
        SameFront(first, more, tag, bytes);
      }
    }
  }

  lemma SameFront(a: byte, x: seq<byte>, b: byte, y: seq<byte>)
    ensures [a] + x == [b] + y <==> a == b && x == y
  {
    assert ([a] + x)[0] == a && ([a] + x)[1..] == x;
    assert ([b] + y)[0] == b && ([b] + y)[1..] == y;
  }

  lemma TagTaken(cell: Cell)
    ensures |cell.bits| < 8 ==> TakeUint(Contents(cell), 8) == None
    ensures |cell.bits| >= 8 ==>
      && FromBits(cell.bits[..8]) < 256
      && TakeUint(Contents(cell), 8) == Some((FromBits(cell.bits[..8]), Chunk(cell.bits[8..], cell.refs)))
  {
    hide FromBits, Pow2;
    if |cell.bits| >= 8 {
      FromBitsBound(cell.bits[..8]);
      Pow2Eight();
    }
  }

  lemma SnakeValueIff(cell: Cell, bytes: seq<byte>)
    ensures DecodeFieldValue(cell) == SnakeValue(bytes) <==> TaggedBytes(cell, 0x00, bytes)
  {
    hide FromBits, FlattenSlice, TakeUint, DecodeChunked, RawValue, HoldsBytes;
    TagTaken(cell);
    if |cell.bits| >= 8 {
      AfterTag(cell, 0x00, bytes);
    }
    RawIsRaw(cell);
  }

  lemma RawIsRaw(cell: Cell)
    ensures forall tag :: RawValue(tag, cell).Unsupported? || RawValue(tag, cell).Malformed?
  {
  }

  lemma {:induction false} JoinedIsBytesOf(chunks: seq<TextChunk>)
    ensures Joined(chunks) == BytesOf(chunks)
  {
    if chunks != [] {
      JoinedIsBytesOf(chunks[1..]);
      var parts := seq(|chunks|, i requires 0 <= i < |chunks| => chunks[i].bytes);
      var tail := chunks[1..];
      assert parts[1..] == seq(|tail|, i requires 0 <= i < |tail| => tail[i].bytes);
    }
  }

  lemma ChunkIff(x: Entry, chunk: TextChunk)
    requires |x.key| == 32
    ensures FromBits(x.key) == chunk.index && FlattenCell(x.value) == Some(Some(chunk.bytes)) <==> IsChunk(x, chunk)
  {
    hide FromBits, ToBits, Pow2, ReadSnake, HoldsBytes;
    FromBitsBound(x.key);
    ToFromBits(x.key);
    Pow2ThirtyTwo();
    if chunk.index < 0x1_0000_0000 {
      FromToBits(chunk.index, 32);
    }
    HoldsIff(x.value, chunk.bytes);
  }

  lemma ChunksIff(d: Dict, chunks: seq<TextChunk>)
    requires KeysOfLength(d, 32)
    ensures ChunkList(d) == Some(chunks) <==>
      |d| == |chunks| && forall i :: 0 <= i < |d| ==> IsChunk(d[i], chunks[i])
  {
    hide FromBits, FlattenCell, IsChunk, ChunkList;
    ChunkListIs(d, chunks);
    if |d| == |chunks| {
      forall i | 0 <= i < |d|
        ensures FromBits(d[i].key) == chunks[i].index && FlattenCell(d[i].value) == Some(Some(chunks[i].bytes))
           <==> IsChunk(d[i], chunks[i])
      {
        ChunkIff(d[i], chunks[i]);
      }
    }
  }

  lemma DictAfterTag(cell: Cell, keyBits: nat, d: Dict)
    requires |cell.bits| >= 8
    ensures LoadDict(Chunk(cell.bits[8..], cell.refs), keyBits) == Some((d, EMPTY))
       <==> IsDict(CellTree(cell.bits[8..], cell.refs), keyBits, d)
    ensures IsDict(CellTree(cell.bits[8..], cell.refs), keyBits, d) ==> KeysOfLength(d, keyBits)
  {
    hide LoadDict, IsDict;
    var c: Cell := CellTree(cell.bits[8..], cell.refs);
    IsDictIff(c, keyBits, d);
    assert Contents(c) == Chunk(cell.bits[8..], cell.refs);
    var loaded := LoadDict(Contents(c), keyBits);
    if loaded.Some? {
      assert loaded.value == (loaded.value.0, loaded.value.1);
    }
  }

  lemma ChunkedIff(cell: Cell, chunks: seq<TextChunk>)
    requires |cell.bits| >= 8
    ensures cell.bits[..8] == ToBits(0x01, 8) && DecodeChunked(Chunk(cell.bits[8..], cell.refs)) == Some(chunks)
       <==> HoldsChunked(cell, chunks)
  {
    hide LoadDict, IsDict, ChunkList, IsChunk, ToBits;
    var c := Chunk(cell.bits[8..], cell.refs);
    var loaded := LoadDict(c, 32);
    if loaded.Some? && loaded.value.1 == EMPTY {
      var d := loaded.value.0;
      assert loaded.value == (d, EMPTY);
      DictAfterTag(cell, 32, d);
      ChunksIff(d, chunks);
    }
    if HoldsChunked(cell, chunks) {
      var d: Dict :|
        && IsDict(CellTree(cell.bits[8..], cell.refs), 32, d)
        && |d| == |chunks| && forall i :: 0 <= i < |d| ==> IsChunk(d[i], chunks[i]);
      DictAfterTag(cell, 32, d);
      ChunksIff(d, chunks);
    }
  }

  lemma ChunkedValueIff(cell: Cell, chunks: seq<TextChunk>, bytes: seq<byte>)
    ensures DecodeFieldValue(cell) == ChunkedValue(chunks, bytes)
       <==> HoldsChunked(cell, chunks) && bytes == BytesOf(chunks)
  {
    hide FromBits, ToBits, FlattenSlice, TakeUint, DecodeChunked, RawValue, HoldsChunked, Joined, BytesOf;
    TagTaken(cell);
    RawIsRaw(cell);
    JoinedIsBytesOf(chunks);
    if |cell.bits| >= 8 {
      ChunkedIff(cell, chunks);
      TagIsOne(cell.bits[..8]);
    } else if HoldsChunked(cell, chunks) {
      LongEnough(cell, chunks);
      assert false;
    }
  }

  lemma LongEnough(cell: Cell, chunks: seq<TextChunk>)
    requires HoldsChunked(cell, chunks)
    ensures |cell.bits| >= 8 && cell.bits[..8] == ToBits(0x01, 8)
  {
  }

  lemma TagIsOne(bits: seq<bool>)
    requires |bits| == 8
    ensures FromBits(bits) == 0x01 <==> bits == ToBits(0x01, 8)
  {
    hide FromBits, ToBits;
    Pow2Eight();
    FromToBits(0x01, 8);
    ToFromBits(bits);
  }

  // ----- Slots -----

  /** The bytes of a field value, in either form. */
  ghost predicate Carries(cell: Cell, bytes: seq<byte>) {
    TaggedBytes(cell, 0x00, bytes) || exists chunks :: HoldsChunked(cell, chunks) && bytes == BytesOf(chunks)
  }

  /** Image data keeps its bytes, decimals the number they spell, everything else its text. */
  ghost predicate Holds(key: KnownKey, cell: Cell, slot: Slot) {
    match slot
    case Data(bytes) => key == ImageData && Carries(cell, bytes)
    case Number(n) => key == Decimals && n <= 255 && exists bytes :: Carries(cell, bytes) && SpellsInAscii(bytes, n)
    case Text(utf8) => key != ImageData && key != Decimals && Carries(cell, utf8)
  }

  lemma CarriesIff(cell: Cell, bytes: seq<byte>)
    ensures ValueBytes(DecodeFieldValue(cell)) == Some(bytes) <==> Carries(cell, bytes)
  {
    hide DecodeFieldValue, TaggedBytes, HoldsChunked, BytesOf;
    var value := DecodeFieldValue(cell);
    SnakeValueIff(cell, bytes);
    if value.ChunkedValue? {
      ChunkedValueIff(cell, value.chunks, value.bytes);
    }
    if chunks :| HoldsChunked(cell, chunks) && bytes == BytesOf(chunks) {
      ChunkedValueIff(cell, chunks, bytes);
    }
  }

  lemma SlotIff(key: KnownKey, cell: Cell, slot: Slot)
    ensures SlotOf(key, DecodeFieldValue(cell)) == Some(slot) <==> Holds(key, cell, slot)
  {
    hide DecodeFieldValue, Carries, ValidUtf8, ParseU8, SpellsInAscii;
    var bytes := ValueBytes(DecodeFieldValue(cell));
    forall b ensures bytes == Some(b) <==> Carries(cell, b) {
      CarriesIff(cell, b);
    }
    if slot.Number? {
      forall b ensures ParseU8(b) == Some(slot.n) <==> slot.n <= 255 && SpellsInAscii(b, slot.n) {
        ParseU8Iff(b, slot.n);
      }
      forall b | SpellsInAscii(b, slot.n) ensures ValidUtf8(b) {
        SpelledIsUtf8(b, slot.n);
      }
    }
  }

  // ----- The whole content cell -----

  /** The value cell under a key of an on-chain content cell: the byte 0x00, a presence bit, and the path of the key. */
  ghost predicate EntryIs(content: Cell, hash: seq<bool>, value: Cell) {
    && content.bits == ToBits(0x00, 8) + [true] && |content.refs| == 1
    && Find(content.refs[0], 256, hash) == Some(value)
  }

  /** The hashes of the key names are 256 bits and all different. */
  ghost predicate HashesApart(hashOf: KnownKey -> seq<bool>) {
    && (forall k :: |hashOf(k)| == 256)
    && (forall j, k :: hashOf(j) == hashOf(k) ==> j == k)
  }

  lemma {:induction false} KeyIsFound(hashOf: KnownKey -> seq<bool>, keys: seq<KnownKey>, hash: seq<bool>, k: KnownKey)
    requires HashesApart(hashOf) && k in keys
    ensures FindKey(hashOf, keys, hash) == Some(k) <==> hash == hashOf(k)
  {
    if hash == hashOf(k) && keys[0] != k {
      KeyIsFound(hashOf, keys[1..], hash, k);
    }
  }

  lemma {:induction false} GetAt(d: Dict, key: seq<bool>, value: Cell)
    requires Ascending(d)
    ensures Get(d, key) == Some(value) <==> exists i :: 0 <= i < |d| && d[i].key == key && d[i].value == value
  {
    if d != [] {
      var later := d[1..];
      assert forall i :: 0 <= i < |later| ==> later[i] == d[i + 1];
      assert forall i :: 0 < i < |d| ==> d[i] == later[i - 1];
      GetAt(later, key, value);
      forall i | 0 < i < |d| ensures d[i].key != d[0].key {
        LexLessTotal(d[0].key, d[i].key);
      }
    }
  }

  lemma AllKeysAreKnown(k: KnownKey)
    ensures k in KNOWN_KEYS
  {
    assert KNOWN_KEYS[0] == Uri && KNOWN_KEYS[1] == Name && KNOWN_KEYS[2] == Description && KNOWN_KEYS[3] == Image;
    assert KNOWN_KEYS[4] == ImageData && KNOWN_KEYS[5] == Symbol && KNOWN_KEYS[6] == Decimals;
    assert KNOWN_KEYS[7] == AmountStyle && KNOWN_KEYS[8] == RenderType && KNOWN_KEYS[9] == ContentUrl;
    assert KNOWN_KEYS[10] == Video;
  }

  /** A field that fills a slot is a dictionary entry under the hash of its key. */
  lemma FieldFillsIff(hashOf: KnownKey -> seq<bool>, keys: set<KnownKey>, d: Dict, k: KnownKey, slot: Slot)
    requires HashesApart(hashOf) && Ascending(d)
    ensures SomeFills(keys, DecodeFields(hashOf, d), k, slot) <==>
      k in keys && Get(d, hashOf(k)).Some? && Holds(k, Get(d, hashOf(k)).value, slot)
  {
    hide FindKey, DecodeFieldValue, SlotOf, Holds, Get, Ascending;
    AllKeysAreKnown(k);
    var fields := DecodeFields(hashOf, d);
    forall i | 0 <= i < |d| ensures fields[i].knownKey == Some(k) <==> d[i].key == hashOf(k) {
      KeyIsFound(hashOf, KNOWN_KEYS, d[i].key, k);
    }
    if SomeFills(keys, fields, k, slot) {
      var i :| 0 <= i < |fields| && Fills(keys, fields[i], k, slot);
      GetAt(d, hashOf(k), d[i].value);
      SlotIff(k, d[i].value, slot);
    }
    if k in keys && Get(d, hashOf(k)).Some? && Holds(k, Get(d, hashOf(k)).value, slot) {
      var v := Get(d, hashOf(k)).value;
      GetAt(d, hashOf(k), v);
      var i :| 0 <= i < |d| && d[i].key == hashOf(k) && d[i].value == v;
      SlotIff(k, v, slot);
      assert Fills(keys, fields[i], k, slot);
    }
  }

  lemma ContentDict(hashOf: KnownKey -> seq<bool>, content: Cell) returns (d: Dict)
    requires ParseContent(hashOf, content).Some? && ParseContent(hashOf, content).value.OnChain?
    ensures ParseContent(hashOf, content).value.fields == DecodeFields(hashOf, d) && ValidDict(d, 256)
    ensures forall hash: seq<bool>, v: Cell :: |hash| == 256 ==>
      (EntryIs(content, hash, v) <==> Get(d, hash) == Some(v))
  {
    hide FromBits, ToBits, TakeUint, LoadDict, DecodeFields, Find, Get, FlattenSlice;
    TagTaken(content);
    var c := Chunk(content.bits[8..], content.refs);
    d := LoadDict(c, 256).value.0;
    LoadedDictIsValid(c, 256);
    TagIsZero(content.bits[..8]);
    assert content.bits == content.bits[..8] + content.bits[8..];
    forall hash: seq<bool>, v: Cell | |hash| == 256
      ensures EntryIs(content, hash, v) <==> Get(d, hash) == Some(v)
    {
      DictFinds(c, 256, hash);
      EntryOfDict(content, d, hash, v);
    }
  }

  lemma EntryOfDict(content: Cell, d: Dict, hash: seq<bool>, v: Cell)
    requires |content.bits| >= 8 && content.bits[..8] == ToBits(0x00, 8)
    requires |content.bits| == 9
    requires if content.bits[8] then |content.refs| == 1 && Get(d, hash) == Find(content.refs[0], 256, hash)
      else d == []
    ensures EntryIs(content, hash, v) <==> Get(d, hash) == Some(v)
  {
    hide Find, ToBits;
    assert content.bits == content.bits[..8] + [content.bits[8]];
    assert Get([], hash) == None;
    if content.bits == ToBits(0x00, 8) + [true] {
      assert content.bits[8];
    }
  }

  lemma TagIsZero(bits: seq<bool>)
    requires |bits| == 8
    ensures FromBits(bits) == 0x00 <==> bits == ToBits(0x00, 8)
  {
    hide FromBits, ToBits;
    Pow2Eight();
    FromToBits(0x00, 8);
    ToFromBits(bits);
  }

  /** A value cell under the hash of the key carries what the slot holds. */
  ghost predicate HeldBy(hashOf: KnownKey -> seq<bool>, content: Cell, k: KnownKey, slot: Slot) {
    exists value: Cell :: EntryIs(content, hashOf(k), value) && Holds(k, value, slot)
  }

  lemma HeldIff(hashOf: KnownKey -> seq<bool>, content: Cell, d: Dict, k: KnownKey, slot: Slot)
    requires |hashOf(k)| == 256
    requires forall hash: seq<bool>, v: Cell :: |hash| == 256 ==>
      (EntryIs(content, hash, v) <==> Get(d, hash) == Some(v))
    ensures HeldBy(hashOf, content, k, slot) <==>
      Get(d, hashOf(k)).Some? && Holds(k, Get(d, hashOf(k)).value, slot)
  {
    hide EntryIs, Holds, Get;
    var found := Get(d, hashOf(k));
    if found.Some? {
      assert EntryIs(content, hashOf(k), found.value);
    }
  }

  lemma SlotOfKeys(hashOf: KnownKey -> seq<bool>, content: Cell, keys: set<KnownKey>, k: KnownKey, slot: Slot)
    requires HashesApart(hashOf)
    requires ParseContent(hashOf, content).Some? && ParseContent(hashOf, content).value.OnChain?
    ensures var slots := ApplyAll(keys, ParseContent(hashOf, content).value.fields).slots;
      k in slots && slots[k] == slot <==> k in keys && HeldBy(hashOf, content, k, slot)
  {
    hide ParseContent, DecodeFields, EntryIs, Holds, HeldBy, Get, ApplyAll, SomeFills, HashesApart, Ascending, WithFate,
      Metadata.DistinctKeys;
    var d := ContentDict(hashOf, content);
    HashWidth(hashOf, k);
    HeldIff(hashOf, content, d, k, slot);
    var fields := DecodeFields(hashOf, d);
    DictFieldsAreDistinct(hashOf, d);
    AllConserved(keys, fields);
    FieldFillsIff(hashOf, keys, d, k, slot);
  }

  /**
   * From the cell to the slot: in the typed metadata of a jetton the slot of a key holds exactly what the value cell
   * under the hash of its name carries, and no slot is filled in any other way. The same for an NFT, with its keys.
   */
  lemma SlotsOfContent(hashOf: KnownKey -> seq<bool>, content: Cell, k: KnownKey, slot: Slot)
    requires HashesApart(hashOf)
    requires ParseContent(hashOf, content).Some? && ParseContent(hashOf, content).value.OnChain?
    ensures var fields := ParseContent(hashOf, content).value.fields;
      var jetton, nft := ApplyAll(JETTON_KEYS, fields).slots, ApplyAll(NFT_KEYS, fields).slots;
      && (k in jetton && jetton[k] == slot <==>
            && HeldBy(hashOf, content, k, slot)
            && k in {Uri, Name, Description, Image, ImageData, Symbol, Decimals, AmountStyle})
      && (k in nft && nft[k] == slot <==>
            && HeldBy(hashOf, content, k, slot)
            && k in {Uri, Name, Description, Image, ImageData, RenderType, ContentUrl, Video})
  {
    hide ParseContent, HeldBy, ApplyAll, HashesApart;
    SlotOfKeys(hashOf, content, JETTON_KEYS, k, slot);
    SlotOfKeys(hashOf, content, NFT_KEYS, k, slot);
  }

  lemma HashWidth(hashOf: KnownKey -> seq<bool>, k: KnownKey)
    requires HashesApart(hashOf)
    ensures |hashOf(k)| == 256
  {
  }

  // ----- The two lists -----

  lemma InList(keys: set<KnownKey>, fields: seq<Field>, f: Field)
    requires Metadata.DistinctKeys(fields)
    ensures var m := ApplyAll(keys, fields);
      && (f in m.unknown <==> f in fields && FateOf(keys, f) == Preserved)
      && (f in m.diagnostics <==> f in fields && FateOf(keys, f) == Reported)
  {
    hide ApplyAll, FateOf, SlotsAre, WithFate, Metadata.DistinctKeys;
    AllConserved(keys, fields);
    FateCount(keys, fields, Preserved, f);
    FateCount(keys, fields, Reported, f);
    assert f in fields <==> multiset(fields)[f] > 0;
    var m := ApplyAll(keys, fields);
    assert f in m.unknown <==> multiset(m.unknown)[f] > 0;
    assert f in m.diagnostics <==> multiset(m.diagnostics)[f] > 0;
  }

  /** A field is reported when its value fills no slot of its key. */
  lemma ReportedIff(keys: set<KnownKey>, f: Field)
    requires f.knownKey.Some? && f.knownKey.value in keys && f.value == DecodeFieldValue(f.cell)
    ensures FateOf(keys, f) == Reported <==> forall slot :: !Holds(f.knownKey.value, f.cell, slot)
  {
    hide SlotOf, DecodeFieldValue, Holds;
    var found := SlotOf(f.knownKey.value, f.value);
    if found.Some? {
      SlotIff(f.knownKey.value, f.cell, found.value);
    }
    forall slot | Holds(f.knownKey.value, f.cell, slot) ensures found == Some(slot) {
      SlotIff(f.knownKey.value, f.cell, slot);
    }
  }

  /**
   * In the typed metadata of a jetton the unknown list holds exactly the fields without a key or with one of the three
   * NFT keys, and the diagnostics exactly the fields of its own keys whose values hold nothing for their slots. The
   * same for an NFT, with the three jetton keys.
   */
  lemma ListsOfContent(hashOf: KnownKey -> seq<bool>, content: Cell, f: Field)
    requires ParseContent(hashOf, content).Some? && ParseContent(hashOf, content).value.OnChain?
    ensures var fields := ParseContent(hashOf, content).value.fields;
      var jetton, nft := ApplyAll(JETTON_KEYS, fields), ApplyAll(NFT_KEYS, fields);
      && (f in jetton.unknown <==> f in fields && (f.knownKey == None || IsNftKey(f.knownKey.value)))
      && (f in nft.unknown <==> f in fields && (f.knownKey == None || IsJettonKey(f.knownKey.value)))
      && (f in jetton.diagnostics <==>
            f in fields && f.knownKey.Some? && !IsNftKey(f.knownKey.value) && HoldsNothing(f))
      && (f in nft.diagnostics <==>
            f in fields && f.knownKey.Some? && !IsJettonKey(f.knownKey.value) && HoldsNothing(f))
  {
    hide ParseContent, ApplyAll, HoldsNothing, DecodeFieldValue, FindKey, Ascending, SlotOf;
    var d := ContentDict(hashOf, content);
    var fields := DecodeFields(hashOf, d);
    DictFieldsAreDistinct(hashOf, d);
    InList(JETTON_KEYS, fields, f);
    InList(NFT_KEYS, fields, f);
    if f in fields && f.knownKey.Some? {
      FieldValueIs(hashOf, d, f);
      if f.knownKey.value in JETTON_KEYS {
        NothingHeldIff(JETTON_KEYS, f);
      }
      if f.knownKey.value in NFT_KEYS {
        NothingHeldIff(NFT_KEYS, f);
      }
    }
  }

  predicate IsNftKey(k: KnownKey) {
    k == RenderType || k == ContentUrl || k == Video
  }

  predicate IsJettonKey(k: KnownKey) {
    k == Symbol || k == Decimals || k == AmountStyle
  }

  ghost predicate HoldsNothing(f: Field)
    requires f.knownKey.Some?
  {
    forall slot :: !Holds(f.knownKey.value, f.cell, slot)
  }

  lemma NothingHeldIff(keys: set<KnownKey>, f: Field)
    requires f.knownKey.Some? && f.knownKey.value in keys && f.value == DecodeFieldValue(f.cell)
    ensures FateOf(keys, f) == Reported <==> HoldsNothing(f)
  {
    hide FateOf, DecodeFieldValue, Holds;
    ReportedIff(keys, f);
  }

  lemma FieldValueIs(hashOf: KnownKey -> seq<bool>, d: Dict, f: Field)
    requires f in DecodeFields(hashOf, d)
    ensures f.value == DecodeFieldValue(f.cell)
  {
    hide DecodeFieldValue, FindKey;
  }

  // ----- Everything else -----

  /** A link is the byte 0x01 and its text; a cell under any other first byte, or under none, is kept as unknown. */
  lemma OtherContent(hashOf: KnownKey -> seq<bool>, content: Cell, uri: seq<byte>)
    ensures ParseContent(hashOf, content) == Some(OffChain(uri)) <==> TaggedBytes(content, 0x01, uri)
    ensures |content.bits| < 8 ==> ParseContent(hashOf, content) == Some(UnknownContent(None))
    ensures |content.bits| >= 8 && FromBits(content.bits[..8]) > 1 ==>
      ParseContent(hashOf, content) == Some(UnknownContent(Some(FromBits(content.bits[..8]))))
  {
    hide FromBits, FlattenSlice, TakeUint, LoadDict, HoldsBytes, DecodeFields;
    TagTaken(content);
    if |content.bits| >= 8 {
      AfterTag(content, 0x01, uri);
    }
  }

  /** A field value under any other first byte, or under none, keeps its bytes when they can be read. */
  lemma OtherValue(cell: Cell, bytes: seq<byte>)
    requires |cell.bits| >= 8 ==> FromBits(cell.bits[..8]) > 1
    ensures var tag := if |cell.bits| >= 8 then Some(FromBits(cell.bits[..8])) else None;
      && (DecodeFieldValue(cell) == Unsupported(tag, Some(bytes)) <==>
            cell != CellTree([], []) && HoldsBytes(cell, bytes))
      && (DecodeFieldValue(cell) == Unsupported(tag, None) <==> cell == CellTree([], []))
      && (DecodeFieldValue(cell).Unsupported? || DecodeFieldValue(cell) == Malformed)
  {
    hide FromBits, ReadSnake, TakeUint, HoldsBytes, DecodeChunked;
    TagTaken(cell);
    HoldsIff(cell, bytes);
  }
}
