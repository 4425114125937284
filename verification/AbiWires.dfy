/**
 * The wire form of ABI values, as a relation between a body and what stands in front of it: type by type in bits and
 * references, without the loader (src/abi/codec.rs, src/abi/map.rs).
 */
module AbiWires {
  import opened AbiCodec
  import opened AbiEncodable
  import opened AbiLayout
  import opened AbiModel
  import opened AbiRoundTrip
  import opened Addresses
  import opened Bits
  import opened Cells
  import opened Dictionary
  import opened Snake
  import opened Wires
  import opened Wrappers

  // ----- The relation -----

  /** `c` is these bits and references in front of `rest`. */
  predicate Starts(c: Chunk, bits: seq<bool>, refs: seq<Cell>, rest: Chunk) {
    c.bits == bits + rest.bits && c.refs == refs + rest.refs
  }

  /** Two's complement. */
  function IntWire(n: int, bits: u16): seq<bool>
    requires IsInt(n, bits)
  {
    ToBits(if n < 0 then Pow2(bits) + n else n, bits)
  }

  /** `addr_std$10` without anycast: workchain, then hash. */
  function StdWire(a: Address): seq<bool> {
    [true, false, false] + ToBits(if a.workchain < 0 then 0x100 + a.workchain else a.workchain, 8) + BytesToBits(a.hash)
  }

  /** A byte-aligned chain of cells with these bytes in it, however they are spread. */
  ghost predicate HoldsBytes(cell: Cell, bytes: seq<byte>) {
    exists parts :: ValidSplit(parts) && Chain(parts) == cell && Flatten(parts) == bytes
  }

  /** `c` is a value of this type in front of `rest`. */
  ghost predicate Spelled(ty: AbiType, c: Chunk, value: AbiValue, rest: Chunk)
    decreases ty, 0
  {
    match (ty, value)
    case (TInt(bits), VInt(n)) => IsInt(n, bits) && Starts(c, IntWire(n, bits), [], rest)
    case (TUint(bits), VUint(n)) => IsUint(n, bits) && Starts(c, ToBits(n, bits), [], rest)
    case (TBool, VBool(b)) => Starts(c, [b], [], rest)
    case (TBytes, VBytes(bytes)) => Leads(c, rest) && HoldsBytes(c.refs[0], bytes)
    case (TString, VString(utf8)) => Leads(c, rest) && HoldsBytes(c.refs[0], utf8)
    case (TAddress, VAddress(a)) => a.bounceable && !a.testOnly && Starts(c, StdWire(a), [], rest)
    case (TCell, VCell(cell)) => Starts(c, [], [cell], rest)
    case (TSlice, VSlice(cell)) => Starts(c, [], [cell], rest)
    case (TTuple(fields), VTuple(values)) => FieldsSpelled(fields, c, values, rest)
    case (TOptional(_), VOptional(None)) => Starts(c, [false], [], rest)
    case (TOptional(item), VOptional(Some(v))) =>
      c.bits != [] && c.bits[0] && Spelled(item, Chunk(c.bits[1..], c.refs), v, rest)
    case (TMap(key, valueTy, keyBits), VMap(entries)) =>
      Leads(c, rest) && MapSpelled(key, valueTy, keyBits, c.refs[0], entries)
    case _ => false
  }

  /** One reference and nothing else stands in front. */
  predicate Leads(c: Chunk, rest: Chunk) {
    c.refs != [] && Starts(c, [], [c.refs[0]], rest)
  }

  /** One after the other. */
  ghost predicate FieldsSpelled(fields: seq<AbiParameter>, c: Chunk, values: seq<AbiValue>, rest: Chunk)
    decreases fields, 0
  {
    && |fields| == |values|
    && (if fields == [] then c == rest
        else exists middle ::
          Spelled(fields[0].ty, c, values[0], middle) && FieldsSpelled(fields[1..], middle, values[1..], rest))
  }

  /** A dictionary and nothing else: an empty one, or the leaves of the tree behind the only reference. */
  ghost predicate IsDict(cell: Cell, keyBits: nat, d: Dict) {
    if d == [] then cell == CellTree([false], [])
    else cell.bits == [true] && |cell.refs| == 1 && Leaves(cell.refs[0], keyBits, []) == Some(d)
  }

  predicate KeySpelled(key: AbiType, bits: seq<bool>, value: AbiValue) {
    match (key, value)
    case (TInt(width), VInt(n)) => IsInt(n, width) && bits == IntWire(n, width)
    case (TUint(width), VUint(n)) => IsUint(n, width) && bits == ToBits(n, width)
    case _ => false
  }

  /** The entries in the order of their key bits, each value alone in the cell of its leaf. */
  ghost predicate MapSpelled(
    key: AbiType, valueTy: AbiType, keyBits: Option<u16>, cell: Cell, entries: seq<MapEntry>)
    decreases valueTy, 3
  {
    && (key.TInt? || key.TUint?) && 1 <= key.bits <= 257 && (keyBits.Some? ==> keyBits.value == key.bits)
    && exists d: Dict :: IsDict(cell, key.bits, d) && EntriesSpelled(key, valueTy, d, entries)
  }

  ghost predicate EntriesSpelled(key: AbiType, valueTy: AbiType, d: Dict, entries: seq<MapEntry>)
    decreases valueTy, 2, |d|
  {
    && |d| == |entries|
    && (d != [] ==>
          EntrySpelled(key, valueTy, d[0], entries[0]) && EntriesSpelled(key, valueTy, d[1..], entries[1..]))
  }

  ghost predicate EntrySpelled(key: AbiType, valueTy: AbiType, x: Entry, e: MapEntry)
    decreases valueTy, 1
  {
    KeySpelled(key, x.key, e.key) && Spelled(valueTy, Contents(x.value), e.value, EMPTY)
  }

  // ----- The loader accepts exactly what is spelled -----

  lemma {:induction false} LoadsIff(ty: AbiType, c: Chunk, value: AbiValue, rest: Chunk)
    ensures LoadBody(c, ty) == Ok((value, rest)) <==> Spelled(ty, c, value, rest)
    decreases ty, 0
  {
    match ty
    case TInt(bits) => IntLoadsIff(bits, c, value, rest);
    case TUint(bits) => UintLoadsIff(bits, c, value, rest);
    case TBool => BoolLoadsIff(c, value, rest);
    case TBytes => BytesLoadIff(c, value, rest);
    case TString => StringLoadsIff(c, value, rest);
    case TAddress => AddressLoadsIff(c, value, rest);
    case TCell => CellLoadsIff(c, value, rest);
    case TSlice => CellLoadsIff(c, value, rest);
    case TTuple(fields) =>
      if value.VTuple? {
        FieldsLoadIff(fields, c, value.values, rest);
      }
    case TOptional(item) => OptionalLoadsIff(item, c, value, rest);
    case TMap(key, valueTy, keyBits) => MapLoadsIff(key, valueTy, keyBits, c, value, rest);
    case TArray(_) =>
    case TUnknown(_) =>
  }

  lemma FrontIs(c: Chunk, bits: seq<bool>, refs: seq<Cell>, rest: Chunk)
    ensures Starts(c, bits, refs, rest) <==> c == Chunk(bits, refs).Then(rest)
  {
  }

  lemma FrontBits(c: Chunk, bits: seq<bool>, rest: Chunk)
    ensures Starts(c, bits, [], rest) <==> TakeBits(c, |bits|) == Some((bits, rest))
  {
    FrontIs(c, bits, [], rest);
    TakeBitsThen(bits, rest);
    if TakeBits(c, |bits|).Some? {
      TakenBits(c, |bits|);
    }
  }

  lemma IntLoadsIff(bits: u16, c: Chunk, value: AbiValue, rest: Chunk)
    ensures LoadBody(c, TInt(bits)) == Ok((value, rest)) <==> Spelled(TInt(bits), c, value, rest)
  {
    hide ToBits, FromBits, Pow2, SignedValue, TakeBits;
    if value.VInt? && IsInt(value.int_, bits) {
      FrontBits(c, IntWire(value.int_, bits), rest);
      SignedRoundTrip(value.int_, bits);
    }
    if LoadBody(c, TInt(bits)) == Ok((value, rest)) {
      TakenInt(c, bits);
      RunOf(c, bits);
    }
  }

  lemma RunOf(c: Chunk, n: nat)
    requires TakeBits(c, n).Some?
    ensures var (bits, rest) := TakeBits(c, n).value;
      |bits| == n && Starts(c, bits, [], rest)
  {
    TakenBits(c, n);
  }

  lemma UintLoadsIff(bits: u16, c: Chunk, value: AbiValue, rest: Chunk)
    ensures LoadBody(c, TUint(bits)) == Ok((value, rest)) <==> Spelled(TUint(bits), c, value, rest)
  {
    hide ToBits, FromBits, Pow2, TakeBits;
    if value.VUint? && IsUint(value.uint, bits) {
      FrontBits(c, ToBits(value.uint, bits), rest);
      FromToBits(value.uint, bits);
    }
    if LoadBody(c, TUint(bits)) == Ok((value, rest)) {
      TakenUint(c, bits);
      RunOf(c, bits);
    }
  }

  lemma FrontBit(c: Chunk, bit: bool, rest: Chunk)
    ensures Starts(c, [bit], [], rest) <==> TakeBit(c) == Some((bit, rest))
  {
    FrontIs(c, [bit], [], rest);
    TakeBitThen(bit, rest);
    if TakeBit(c).Some? {
      TakenBit(c);
    }
  }

  lemma BoolLoadsIff(c: Chunk, value: AbiValue, rest: Chunk)
    ensures LoadBody(c, TBool) == Ok((value, rest)) <==> Spelled(TBool, c, value, rest)
  {
    hide TakeBit, Starts;
    var taken := TakeBit(c);
    if taken.Some? {
      assert taken.value == (taken.value.0, taken.value.1);
    }
    if value.VBool? {
      FrontBit(c, value.bool_, rest);
    }
  }

  lemma FrontRef(c: Chunk, rest: Chunk)
    requires c.refs != []
    ensures TakeRef(c) == Some((c.refs[0], rest)) <==> Leads(c, rest)
  {
    FrontIs(c, [], [c.refs[0]], rest);
    TakeRefThen(c.refs[0], rest);
    TakenRef(c);
  }

  lemma HoldsIff(cell: Cell, bytes: seq<byte>)
    ensures ReadSnake(cell.bits, cell.refs) == Ok(bytes) <==> HoldsBytes(cell, bytes)
  {
    hide ReadSnake, Chain;
    if ReadSnake(cell.bits, cell.refs) == Ok(bytes) {
      var parts := ReadableIsChain(cell);
      AnySplitReads(parts);
    }
    if HoldsBytes(cell, bytes) {
      var parts :| ValidSplit(parts) && Chain(parts) == cell && Flatten(parts) == bytes;
      AnySplitReads(parts);
    }
  }

  lemma BytesLoadIff(c: Chunk, value: AbiValue, rest: Chunk)
    ensures LoadBody(c, TBytes) == Ok((value, rest)) <==> Spelled(TBytes, c, value, rest)
  {
    hide ReadSnake, HoldsBytes;
    if c.refs != [] {
      FrontRef(c, rest);
      if value.VBytes? {
        HoldsIff(c.refs[0], value.bytes);
      }
    }
  }

  lemma StringLoadsIff(c: Chunk, value: AbiValue, rest: Chunk)
    ensures LoadBody(c, TString) == Ok((value, rest)) <==> Spelled(TString, c, value, rest)
  {
    hide ReadSnake, HoldsBytes, ValidUtf8;
    if c.refs != [] {
      FrontRef(c, rest);
      if value.VString? {
        HoldsIff(c.refs[0], value.utf8);
      }
    }
  }

  lemma FrontAddress(c: Chunk, a: Address, rest: Chunk)
    ensures IntLoad(c) == Some((Std(None, a), rest))
       <==> a.bounceable && !a.testOnly && Starts(c, StdWire(a), [], rest)
  {
    hide ToBits, BytesToBits, IntLoad, IntLayout, StdWire, AddressWire;
    StdIsWritten(None, a);
    StdSpelled(a);
    FrontIs(c, StdWire(a), [], rest);
    if IntLoad(c) == Some((Std(None, a), rest)) {
      IntIsLossless(c);
    } else if a.bounceable && !a.testOnly {
      IntReads(Std(None, a), rest);
    }
  }

  lemma AddressLoadsIff(c: Chunk, value: AbiValue, rest: Chunk)
    ensures LoadBody(c, TAddress) == Ok((value, rest)) <==> Spelled(TAddress, c, value, rest)
  {
    hide IntLoad, StdWire, Starts, LoadFields, DecodeMap, FieldsSpelled, MapSpelled, HoldsBytes;
    var taken := IntLoad(c);
    if taken.Some? {
      assert taken.value == (taken.value.0, taken.value.1);
    }
    if value.VAddress? {
      FrontAddress(c, value.address, rest);
    }
  }

  lemma StdSpelled(a: Address)
    ensures AddressWire(Internal(Std(None, a))) == StdWire(a)
  {
    hide ToBits, BytesToBits;
    assert [true, false] + [false] == [true, false, false];
  }

  lemma CellLoadsIff(c: Chunk, value: AbiValue, rest: Chunk)
    ensures LoadBody(c, TCell) == Ok((value, rest)) <==> Spelled(TCell, c, value, rest)
    ensures LoadBody(c, TSlice) == Ok((value, rest)) <==> Spelled(TSlice, c, value, rest)
  {
    hide LoadFields, DecodeMap, FieldsSpelled, MapSpelled, HoldsBytes, Pow2, ToBits, BytesToBits, FromBits;
    if c.refs != [] {
      FrontRef(c, rest);
    }
  }

  lemma {:induction false} OptionalLoadsIff(item: AbiType, c: Chunk, value: AbiValue, rest: Chunk)
    ensures LoadBody(c, TOptional(item)) == Ok((value, rest)) <==> Spelled(TOptional(item), c, value, rest)
    decreases item, 1
  {
    hide LoadFields, DecodeMap, FieldsSpelled, MapSpelled, HoldsBytes, Pow2, ToBits, BytesToBits, FromBits;
    FrontBit(c, false, rest);
    if c.bits != [] && value.VOptional? && value.value.Some? {
      LoadsIff(item, Chunk(c.bits[1..], c.refs), value.value.value, rest);
    }
  }

  lemma {:induction false} FieldsLoadIff(
    fields: seq<AbiParameter>, c: Chunk, values: seq<AbiValue>, rest: Chunk)
    ensures LoadFields(c, fields) == Ok((values, rest)) <==> FieldsSpelled(fields, c, values, rest)
    decreases fields, 0
  {
    hide LoadBody, Spelled;
    if fields != [] && values != [] {
      var first := LoadBody(c, fields[0].ty);
      if first.Ok? && first.value.0 == values[0] {
        var middle := first.value.1;
        LoadsIff(fields[0].ty, c, values[0], middle);
        FieldsLoadIff(fields[1..], middle, values[1..], rest);
      }
      if FieldsSpelled(fields, c, values, rest) {
        var middle := Middle(fields, c, values, rest);
        LoadsIff(fields[0].ty, c, values[0], middle);
        FieldsLoadIff(fields[1..], middle, values[1..], rest);
        assert [values[0]] + values[1..] == values;
      }
      if LoadFields(c, fields) == Ok((values, rest)) {
        assert values[1..] == LoadFields(first.value.1, fields[1..]).value.0;
      }
    }
  }

  lemma Middle(fields: seq<AbiParameter>, c: Chunk, values: seq<AbiValue>, rest: Chunk) returns (middle: Chunk)
    requires fields != [] && FieldsSpelled(fields, c, values, rest)
    ensures values != []
    ensures Spelled(fields[0].ty, c, values[0], middle) && FieldsSpelled(fields[1..], middle, values[1..], rest)
  {
    hide Spelled;
    middle :| Spelled(fields[0].ty, c, values[0], middle) && FieldsSpelled(fields[1..], middle, values[1..], rest);
  }

  // ----- Maps -----

  lemma IsDictIff(cell: Cell, keyBits: nat, d: Dict)
    ensures CellDict(cell, keyBits) == Ok(d) <==> IsDict(cell, keyBits, d)
    ensures IsDict(cell, keyBits, d) ==> KeysOfLength(d, keyBits)
  {
    hide ParseEdge, Leaves;
    if cell.bits != [] && cell.bits[0] && cell.refs != [] {
      var root: Cell := cell.refs[0];
      ParseLists(root, keyBits, [], []);
      if Leaves(root, keyBits, []).Some? {
        LeavesAscend(root, keyBits, []);
        var leaves := Leaves(root, keyBits, []).value;
        assert [] + leaves == leaves;
      }
      assert cell.refs == [root] + cell.refs[1..];
      assert cell.bits == [true] + cell.bits[1..];
    } else if cell.bits != [] {
      assert cell.bits == [cell.bits[0]] + cell.bits[1..];
    }
  }

  lemma KeyReadsIff(key: AbiType, bits: seq<bool>, value: AbiValue)
    requires (key.TInt? || key.TUint?) && 1 <= key.bits <= 257 && |bits| == key.bits
    ensures BitsToKey(key, bits) == Ok(value) <==> KeySpelled(key, bits, value)
  {
    hide ToBits, FromBits, Pow2;
    assert bits[..|bits|] == bits;
    assert TakeBits(OfBits(bits), key.bits).value.0 == bits;
    match key
    case TInt(width) =>
      SignedValueFits(bits);
      if value.VInt? && IsInt(value.int_, width) {
        SignedRoundTrip(value.int_, width);
      }
    case TUint(width) =>
      ToFromBits(bits);
      FromBitsBound(bits);
      if value.VUint? && IsUint(value.uint, width) {
        FromToBits(value.uint, width);
      }
  }

  lemma {:induction false} EntriesLoadIff(key: AbiType, valueTy: AbiType, d: Dict, entries: seq<MapEntry>)
    requires (key.TInt? || key.TUint?) && 1 <= key.bits <= 257 && KeysOfLength(d, key.bits)
    ensures DecodeEntries(key, valueTy, d) == Ok(entries) <==> EntriesSpelled(key, valueTy, d, entries)
    decreases valueTy, 2, |d|
  {
    hide BitsToKey, DecodeValueCell, KeySpelled, Spelled;
    if d != [] && entries != [] {
      var e, rest := entries[0], entries[1..];
      assert entries == [e] + rest;
      KeyReadsIff(key, d[0].key, e.key);
      ValueLoadsIff(valueTy, d[0].value, e.value);
      EntriesLoadIff(key, valueTy, d[1..], rest);
    }
  }

  lemma ValueLoadsIff(valueTy: AbiType, cell: Cell, value: AbiValue)
    ensures DecodeValueCell(valueTy, cell) == Ok(value) <==> Spelled(valueTy, Contents(cell), value, EMPTY)
    decreases valueTy, 1
  {
    hide LoadBody, Spelled;
    LoadsIff(valueTy, Contents(cell), value, EMPTY);
    var loaded := LoadBody(Contents(cell), valueTy);
    if loaded.Ok? {
      assert loaded.value == (loaded.value.0, loaded.value.1);
    }
  }

  lemma {:induction false} MapDecodesIff(
    key: AbiType, valueTy: AbiType, keyBits: Option<u16>, cell: Cell, entries: seq<MapEntry>)
    ensures DecodeMap(key, valueTy, keyBits, cell) == Ok(entries) <==> MapSpelled(key, valueTy, keyBits, cell, entries)
    decreases valueTy, 3
  {
    hide CellDict, DecodeEntries, EntriesSpelled, IsDict;
    MapKeyBitsIff(key, keyBits);
    if MapKeyBits(key, keyBits).Ok? {
      var d := CellDict(cell, key.bits);
      if d.Ok? {
        IsDictIff(cell, key.bits, d.value);
        EntriesLoadIff(key, valueTy, d.value, entries);
      }
      if MapSpelled(key, valueTy, keyBits, cell, entries) {
        var leaves: Dict :| IsDict(cell, key.bits, leaves) && EntriesSpelled(key, valueTy, leaves, entries);
        IsDictIff(cell, key.bits, leaves);
      }
    }
  }

  lemma {:induction false} MapLoadsIff(
    key: AbiType, valueTy: AbiType, keyBits: Option<u16>, c: Chunk, value: AbiValue, rest: Chunk)
    ensures LoadBody(c, TMap(key, valueTy, keyBits)) == Ok((value, rest))
       <==> Spelled(TMap(key, valueTy, keyBits), c, value, rest)
    decreases valueTy, 4
  {
    hide DecodeMap, MapSpelled;
    if c.refs != [] {
      FrontRef(c, rest);
      if value.VMap? {
        MapDecodesIff(key, valueTy, keyBits, c.refs[0], value.entries);
      }
    }
  }

  // ----- The encoder writes what is spelled -----

  /** What is written for a value spells its normal form. */
  lemma WritesSpelled(ty: AbiType, value: AbiValue, rest: Chunk)
    requires Layout(ty, value).Some?
    ensures Spelled(ty, Layout(ty, value).value.Then(rest), Normal(ty, value), rest)
  {
    hide Layout, LoadBody, Spelled;
    BodyReads(ty, value, rest);
    LoadsIff(ty, Layout(ty, value).value.Then(rest), Normal(ty, value), rest);
  }
}
