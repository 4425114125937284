/** Canonical maps and canonical values: key order, duplicates, and which values survive a round trip unchanged. */
module AbiMaps {
  import opened AbiCodec
  import opened AbiLayout
  import opened AbiModel
  import opened AbiRoundTrip
  import opened Addresses
  import opened Bits
  import opened Cells
  import opened Dictionary
  import opened SortedMap
  import opened Wrappers

  // ----- The order of encoded keys, as numbers -----

  /** Unsigned keys ascend; signed keys put the non-negative ones before the negative ones. */
  predicate KeyBelow(a: AbiValue, b: AbiValue) {
    match (a, b)
    case (VUint(x), VUint(y)) => x < y
    case (VInt(x), VInt(y)) => if (x < 0) == (y < 0) then x < y else y < 0
    case _ => false
  }

  predicate IntegerType(ty: AbiType) {
    ty.TInt? || ty.TUint?
  }

  lemma KeyOrder(keyTy: AbiType, a: AbiValue, b: AbiValue, keyBits: u16)
    requires IntegerType(keyTy) && keyBits == keyTy.bits
    requires KeyToBits(keyTy, a, keyBits).Ok? && KeyToBits(keyTy, b, keyBits).Ok?
    ensures LexLess(KeyToBits(keyTy, a, keyBits).value, KeyToBits(keyTy, b, keyBits).value) <==> KeyBelow(a, b)
  {
    hide LexLess, ToBits, FromBits;
    var x, y := KeyToBits(keyTy, a, keyBits).value, KeyToBits(keyTy, b, keyBits).value;
    LexLessIsNumeric(x, y);
    if keyTy.TUint? {
      FromToBits(a.uint, keyBits);
      FromToBits(b.uint, keyBits);
    } else {
      SignedNumber(a.int_, keyBits);
      SignedNumber(b.int_, keyBits);
    }
  }

  lemma SignedNumber(v: int, width: nat)
    requires SignedFits(v, width)
    ensures FromBits(SignedBits(v, width)) == if v < 0 then Pow2(width) + v else v
  {
    FromToBits(if v < 0 then Pow2(width) + v else v, width);
  }

  lemma KeysDiffer(keyTy: AbiType, a: AbiValue, b: AbiValue, keyBits: u16)
    requires IntegerType(keyTy) && keyBits == keyTy.bits
    requires KeyToBits(keyTy, a, keyBits).Ok? && KeyToBits(keyTy, b, keyBits).Ok?
    ensures KeyToBits(keyTy, a, keyBits) == KeyToBits(keyTy, b, keyBits) <==> a == b
  {
    hide KeyToBits;
    KeyReads(keyTy, a, keyBits);
    KeyReads(keyTy, b, keyBits);
  }

  // ----- Entry by entry -----

  lemma {:induction false} ItemsAt(keyTy: AbiType, valueTy: AbiType, keyBits: u16, entries: seq<MapEntry>)
    requires Items(keyTy, valueTy, keyBits, entries).Some?
    ensures var items := Items(keyTy, valueTy, keyBits, entries).value;
      |items| == |entries| && forall i :: 0 <= i < |entries| ==>
        && KeyToBits(keyTy, entries[i].key, keyBits) == Ok(items[i].key)
        && ValueLayout(valueTy, entries[i].value) == Some(items[i].value)
  {
    hide KeyToBits, ValueLayout;
    if entries != [] {
      ItemsAt(keyTy, valueTy, keyBits, entries[1..]);
      var items := Items(keyTy, valueTy, keyBits, entries).value;
      forall i | 0 <= i < |entries|
        ensures KeyToBits(keyTy, entries[i].key, keyBits) == Ok(items[i].key)
        ensures ValueLayout(valueTy, entries[i].value) == Some(items[i].value)
      {
        assert i > 0 ==> entries[i] == entries[1..][i - 1] && items[i] == items[1..][i - 1];
      }
    }
  }

  lemma {:induction false} NormalItemsAt(keyTy: AbiType, valueTy: AbiType, entries: seq<MapEntry>)
    ensures var n := NormalItems(keyTy, valueTy, entries);
      forall i :: 0 <= i < |entries| ==>
        n[i] == Item(KeyBitsOf(keyTy, entries[i].key), MapEntry(entries[i].key, Normal(valueTy, entries[i].value)))
  {
    hide KeyBitsOf, Normal;
    if entries != [] {
      NormalItemsAt(keyTy, valueTy, entries[1..]);
      var n := NormalItems(keyTy, valueTy, entries);
      forall i | 0 <= i < |entries|
        ensures n[i] ==
          Item(KeyBitsOf(keyTy, entries[i].key), MapEntry(entries[i].key, Normal(valueTy, entries[i].value)))
      {
        assert i > 0 ==> entries[i] == entries[1..][i - 1] && n[i] == n[1..][i - 1];
      }
    }
  }

  // ----- Duplicates -----

  ghost predicate RepeatsKey(entries: seq<MapEntry>) {
    exists i, j :: 0 <= i < j < |entries| && entries[i].key == entries[j].key
  }

  /** When every entry encodes on its own, encoding fails exactly when two keys are the same integer. */
  lemma DuplicateKeyIff(keyTy: AbiType, valueTy: AbiType, explicitBits: Option<u16>, entries: seq<MapEntry>)
    requires MapKeyBits(keyTy, explicitBits).Ok?
    requires Items(keyTy, valueTy, MapKeyBits(keyTy, explicitBits).value, entries).Some?
    ensures var r := EncodeMap(keyTy, valueTy, explicitBits, entries);
      && (r.Err? <==> RepeatsKey(entries))
      && (r.Err? ==> r.error.DuplicateMapKey?)
  {
    hide KeyToBits, ValueLayout, Items, EncodeEntries, DictCell, InsertAll, Ascending, KeysOfLength;
    var keyBits := MapKeyBits(keyTy, explicitBits).value;
    var items := Items(keyTy, valueTy, keyBits, entries).value;
    EncodeEntriesIsInsertAll(keyTy, valueTy, keyBits, entries, []);
    DistinctIffNoRepeat(keyTy, valueTy, keyBits, entries);
    ItemLengths(keyTy, valueTy, keyBits, entries);
    NothingOfLength(keyBits);
    InsertAllValid([], items, keyBits);
    DictCellSucceeds(InsertAll([], items), keyBits);
  }

  lemma NothingOfLength(keyBits: nat)
    ensures ValidDict([], keyBits)
  {
  }

  lemma DistinctIffNoRepeat(keyTy: AbiType, valueTy: AbiType, keyBits: u16, entries: seq<MapEntry>)
    requires IntegerType(keyTy) && keyBits == keyTy.bits
    requires Items(keyTy, valueTy, keyBits, entries).Some?
    ensures DistinctKeys(Items(keyTy, valueTy, keyBits, entries).value) <==> !RepeatsKey(entries)
  {
    hide KeyToBits, ValueLayout, Items;
    var items := Items(keyTy, valueTy, keyBits, entries).value;
    ItemsAt(keyTy, valueTy, keyBits, entries);
    forall i, j | 0 <= i < j < |entries| ensures items[i].key == items[j].key <==> entries[i].key == entries[j].key {
      KeysDiffer(keyTy, entries[i].key, entries[j].key, keyBits);
    }
  }

  // ----- A map is a set of entries -----

  function AppendItems(x: Option<Dict>, y: Option<Dict>): Option<Dict> {
    if x.Some? && y.Some? then Some(x.value + y.value) else None
  }

  function OneItem(keyTy: AbiType, valueTy: AbiType, keyBits: u16, e: MapEntry): Option<Dict> {
    var key := KeyToBits(keyTy, e.key, keyBits);
    var cell :- ValueLayout(valueTy, e.value);
    if key.Ok? then Some([Item(key.value, cell)]) else None
  }

  lemma ItemsCons(keyTy: AbiType, valueTy: AbiType, keyBits: u16, e: MapEntry, rest: seq<MapEntry>)
    ensures Items(keyTy, valueTy, keyBits, [e] + rest)
         == AppendItems(OneItem(keyTy, valueTy, keyBits, e), Items(keyTy, valueTy, keyBits, rest))
  {
    hide KeyToBits, ValueLayout;
    assert ([e] + rest)[1..] == rest;
  }

  lemma {:induction false} ItemsAppend(
    keyTy: AbiType, valueTy: AbiType, keyBits: u16, a: seq<MapEntry>, b: seq<MapEntry>)
    ensures Items(keyTy, valueTy, keyBits, a + b)
         == AppendItems(Items(keyTy, valueTy, keyBits, a), Items(keyTy, valueTy, keyBits, b))
    decreases |a|
  {
    hide OneItem;
    var y := Items(keyTy, valueTy, keyBits, b);
    if a == [] {
      assert a + b == b;
      assert y.Some? ==> [] + y.value == y.value;
    } else {
      hide Items;
      assert a == [a[0]] + a[1..] && a + b == [a[0]] + (a[1..] + b);
      ItemsAppend(keyTy, valueTy, keyBits, a[1..], b);
      ItemsCons(keyTy, valueTy, keyBits, a[0], a[1..]);
      ItemsCons(keyTy, valueTy, keyBits, a[0], a[1..] + b);
      AppendAssociates(OneItem(keyTy, valueTy, keyBits, a[0]), Items(keyTy, valueTy, keyBits, a[1..]), y);
    }
  }

  lemma AppendAssociates(x: Option<Dict>, y: Option<Dict>, z: Option<Dict>)
    ensures AppendItems(AppendItems(x, y), z) == AppendItems(x, AppendItems(y, z))
  {
    if x.Some? && y.Some? && z.Some? {
      assert (x.value + y.value) + z.value == x.value + (y.value + z.value);
    }
  }

  /** Moving one entry to the front moves its item to the front. */
  lemma ItemsToFront(
    keyTy: AbiType, valueTy: AbiType, keyBits: u16, front: seq<MapEntry>, e: MapEntry, back: seq<MapEntry>)
    ensures var moved := Items(keyTy, valueTy, keyBits, [e] + (front + back));
      var kept := Items(keyTy, valueTy, keyBits, front + ([e] + back));
      && (moved.Some? <==> kept.Some?)
      && (moved.Some? ==> multiset(moved.value) == multiset(kept.value))
  {
    hide Items, OneItem;
    ItemsAppend(keyTy, valueTy, keyBits, front, back);
    ItemsCons(keyTy, valueTy, keyBits, e, front + back);
    ItemsCons(keyTy, valueTy, keyBits, e, back);
    ItemsAppend(keyTy, valueTy, keyBits, front, [e] + back);
  }

  lemma {:induction false} ItemsPermute(
    keyTy: AbiType, valueTy: AbiType, keyBits: u16, a: seq<MapEntry>, b: seq<MapEntry>)
    requires multiset(a) == multiset(b)
    requires Items(keyTy, valueTy, keyBits, a).Some?
    ensures Items(keyTy, valueTy, keyBits, b).Some?
    ensures multiset(Items(keyTy, valueTy, keyBits, a).value) == multiset(Items(keyTy, valueTy, keyBits, b).value)
    decreases |a|
  {
    hide Items, OneItem;
    assert |a| == |multiset(a)| == |multiset(b)| == |b|;
    if a != [] {
      var i := IndexIn(a[0], b);
      var front, back := b[..i], b[i + 1..];
      assert a == [a[0]] + a[1..] && b == front + ([a[0]] + back);
      RemoveFirst(a[0], a[1..], front, back);
      ItemsCons(keyTy, valueTy, keyBits, a[0], a[1..]);
      ItemsPermute(keyTy, valueTy, keyBits, a[1..], front + back);
      ItemsCons(keyTy, valueTy, keyBits, a[0], front + back);
      ItemsToFront(keyTy, valueTy, keyBits, front, a[0], back);
    }
  }

  lemma IndexIn(e: MapEntry, b: seq<MapEntry>) returns (i: nat)
    requires e in multiset(b)
    ensures i < |b| && b[i] == e
  {
    i :| 0 <= i < |b| && b[i] == e;
  }

  lemma RemoveFirst(e: MapEntry, tail: seq<MapEntry>, front: seq<MapEntry>, back: seq<MapEntry>)
    requires multiset([e] + tail) == multiset(front + ([e] + back))
    ensures multiset(tail) == multiset(front + back)
  {
    assert multiset(tail) == multiset([e] + tail) - multiset{e};
    assert multiset(front + back) == multiset(front + ([e] + back)) - multiset{e};
  }

  lemma {:induction false} InsertAllMultiset<V>(d: seq<Item<V>>, items: seq<Item<V>>)
    requires DistinctKeys(items) && Disjoint(d, items)
    ensures multiset(InsertAll(d, items)) == multiset(d) + multiset(items)
    decreases |items|
  {
    hide Insert, Contains;
    if items != [] {
      var d' := Insert(d, items[0].key, items[0].value);
      assert items == [items[0]] + items[1..];
      InsertKeys(d, items[0].key, items[0].value);
      InsertFresh(d, items[0].key, items[0].value);
      ConsDistinct(d, d', items[0], items[1..]);
      InsertAllMultiset(d', items[1..]);
    }
  }

  lemma SortedPermutes<V>(items: seq<Item<V>>)
    requires DistinctKeys(items)
    ensures multiset(Sorted(items)) == multiset(items)
  {
    InsertAllMultiset([], items);
  }

  /** The cell of a map does not depend on the order of its entries. */
  lemma MapOrderIrrelevant(
    keyTy: AbiType, valueTy: AbiType, explicitBits: Option<u16>, a: seq<MapEntry>, b: seq<MapEntry>)
    requires multiset(a) == multiset(b)
    requires MapLayout(keyTy, valueTy, explicitBits, a).Some?
    ensures MapLayout(keyTy, valueTy, explicitBits, b) == MapLayout(keyTy, valueTy, explicitBits, a)
  {
    hide Items, DictCell, Sorted, KeysOfLength;
    var keyBits := MapKeyBits(keyTy, explicitBits).value;
    var x := Items(keyTy, valueTy, keyBits, a).value;
    ItemsPermute(keyTy, valueTy, keyBits, a, b);
    var y := Items(keyTy, valueTy, keyBits, b).value;
    DistinctPermutes(x, y);
    SortedPermutes(x);
    SortedPermutes(y);
    SortedCorrespond(keyTy, valueTy, keyBits, a);
    SortedCorrespond(keyTy, valueTy, keyBits, b);
    AscendingUnique(Sorted(x), Sorted(y));
  }

  lemma {:induction false} CountOnce<V>(a: seq<Item<V>>, x: Item<V>)
    requires DistinctKeys(a)
    ensures multiset(a)[x] <= 1
  {
    if a != [] {
      assert a == [a[0]] + a[1..];
      CountOnce(a[1..], x);
      assert forall i :: 0 <= i < |a[1..]| ==> a[1..][i] == a[i + 1];
      assert a[0] !in a[1..];
    }
  }

  lemma CountTwice<V>(b: seq<Item<V>>, i: nat, j: nat)
    requires i < j < |b| && b[i] == b[j]
    ensures multiset(b)[b[i]] >= 2
  {
    assert b == b[..j] + [b[j]] + b[j + 1..];
    assert b[..j][i] in multiset(b[..j]);
  }

  lemma SameItem<V>(a: seq<Item<V>>, x: Item<V>, y: Item<V>)
    requires DistinctKeys(a) && x in multiset(a) && y in multiset(a) && x.key == y.key
    ensures x == y
  {
    var p :| 0 <= p < |a| && a[p] == x;
    var q :| 0 <= q < |a| && a[q] == y;
  }

  lemma DistinctPermutes<V>(a: seq<Item<V>>, b: seq<Item<V>>)
    requires multiset(a) == multiset(b) && DistinctKeys(a)
    ensures DistinctKeys(b)
  {
    forall i, j | 0 <= i < j < |b| ensures b[i].key != b[j].key {
      assert b[i] in multiset(b) && b[j] in multiset(b);
      if b[i].key == b[j].key {
        SameItem(a, b[i], b[j]);
        CountTwice(b, i, j);
        CountOnce(a, b[i]);
        assert false;
      }
    }
  }

  /** The entries that come back are those that went in, their values normal, in ascending order of encoded keys. */
  lemma NormalEntriesAreSorted(keyTy: AbiType, valueTy: AbiType, explicitBits: Option<u16>, entries: seq<MapEntry>)
    requires MapLayout(keyTy, valueTy, explicitBits, entries).Some?
    ensures var items := NormalItems(keyTy, valueTy, entries);
      && NormalEntries(keyTy, valueTy, entries) == EntryValues(Sorted(items))
      && multiset(Sorted(items)) == multiset(items)
    ensures KeysAscend(NormalEntries(keyTy, valueTy, entries))
  {
    var keyBits := MapKeyBits(keyTy, explicitBits).value;
    var items := Items(keyTy, valueTy, keyBits, entries).value;
    var normal := NormalItems(keyTy, valueTy, entries);
    hide Items, NormalItems, Sorted, AllCorrespond, KeyToBits, BitsToKey, DecodeValueCell, ValueLayout, DistinctKeys,
         Ascending, KeysAscend, StoreDict, EntryValues;
    ItemsCorrespond(keyTy, valueTy, keyBits, entries);
    SortedCorrespond(keyTy, valueTy, keyBits, entries);
    NormalKeysDiffer(keyTy, valueTy, keyBits, items, normal);
    SortedPermutes(normal);
    CorrespondingAscend(keyTy, valueTy, keyBits, Sorted(items), Sorted(normal));
  }

  lemma NormalKeysDiffer(keyTy: AbiType, valueTy: AbiType, keyBits: u16, d: Dict, n: seq<Item<MapEntry>>)
    requires AllCorrespond(keyTy, valueTy, keyBits, d, n) && DistinctKeys(d)
    ensures DistinctKeys(n)
  {
    hide Corresponds;
    forall i, j | 0 <= i < j < |n| ensures n[i].key != n[j].key {
      SameKey(keyTy, valueTy, keyBits, d[i], n[i]);
      SameKey(keyTy, valueTy, keyBits, d[j], n[j]);
    }
  }

  predicate KeysAscend(entries: seq<MapEntry>) {
    forall i, j :: 0 <= i < j < |entries| ==> KeyBelow(entries[i].key, entries[j].key)
  }

  lemma KeyCorresponds(keyTy: AbiType, valueTy: AbiType, keyBits: u16, x: Item<Cell>, n: Item<MapEntry>)
    requires Corresponds(keyTy, valueTy, keyBits, x, n)
    ensures KeyToBits(keyTy, n.value.key, keyBits) == Ok(x.key)
  {
  }

  lemma CorrespondingAscend(keyTy: AbiType, valueTy: AbiType, keyBits: u16, d: Dict, n: seq<Item<MapEntry>>)
    requires IntegerType(keyTy) && keyBits == keyTy.bits
    requires AllCorrespond(keyTy, valueTy, keyBits, d, n) && Ascending(d)
    ensures KeysAscend(EntryValues(n))
  {
    hide Corresponds, KeyToBits, KeyBelow, LexLess;
    var entries := EntryValues(n);
    forall i, j | 0 <= i < j < |entries| ensures KeyBelow(entries[i].key, entries[j].key) {
      KeyCorresponds(keyTy, valueTy, keyBits, d[i], n[i]);
      KeyCorresponds(keyTy, valueTy, keyBits, d[j], n[j]);
      KeyOrder(keyTy, n[i].value.key, n[j].value.key, keyBits);
    }
  }

  // ----- Which values come back unchanged -----

  /** Default address flags and ascending map keys, at every depth. */
  predicate IsNormal(ty: AbiType, value: AbiValue)
    decreases ty, 0
  {
    match (ty, value)
    case (TAddress, VAddress(a)) => a.bounceable && !a.testOnly
    case (TTuple(fields), VTuple(values)) => |fields| == |values| && FieldsAreNormal(fields, values)
    case (TOptional(item), VOptional(Some(v))) => IsNormal(item, v)
    case (TMap(_, valueTy, _), VMap(entries)) => KeysAscend(entries) && ValuesAreNormal(valueTy, entries)
    case _ => true
  }

  predicate FieldsAreNormal(fields: seq<AbiParameter>, values: seq<AbiValue>)
    requires |fields| == |values|
    decreases fields, 0
  {
    fields == [] || (IsNormal(fields[0].ty, values[0]) && FieldsAreNormal(fields[1..], values[1..]))
  }

  predicate ValuesAreNormal(valueTy: AbiType, entries: seq<MapEntry>)
    decreases valueTy, 1
  {
    forall i :: 0 <= i < |entries| ==> IsNormal(valueTy, entries[i].value)
  }

  /** An encodable value comes back unchanged exactly when it is in normal form. */
  lemma {:induction false} UnchangedIffNormal(ty: AbiType, value: AbiValue)
    requires Layout(ty, value).Some?
    ensures Normal(ty, value) == value <==> IsNormal(ty, value)
    decreases ty, 0
  {
    hide StdLayout, MapLayout, NormalEntries, KeysAscend, ValuesAreNormal, FieldsAreNormal, NormalFields;
    match (ty, value)
    case (TTuple(fields), VTuple(values)) => FieldsUnchanged(fields, values);
    case (TOptional(item), VOptional(Some(v))) => UnchangedIffNormal(item, v);
    case (TMap(key, valueTy, keyBits), VMap(entries)) => MapUnchanged(key, valueTy, keyBits, entries);
    case _ =>
  }

  lemma {:induction false} FieldsUnchanged(fields: seq<AbiParameter>, values: seq<AbiValue>)
    requires |fields| == |values| && FieldsLayout(fields, values).Some?
    ensures NormalFields(fields, values) == values <==> FieldsAreNormal(fields, values)
    decreases fields, 0
  {
    hide Layout, Normal, IsNormal;
    if fields != [] {
      UnchangedIffNormal(fields[0].ty, values[0]);
      FieldsUnchanged(fields[1..], values[1..]);
      var n := NormalFields(fields, values);
      assert n[0] == Normal(fields[0].ty, values[0]) && n[1..] == NormalFields(fields[1..], values[1..]);
      assert values == [values[0]] + values[1..];
    }
  }

  lemma ValueUnchanged(valueTy: AbiType, value: AbiValue)
    requires ValueLayout(valueTy, value).Some?
    ensures Normal(valueTy, value) == value <==> IsNormal(valueTy, value)
    decreases valueTy, 1
  {
    hide Layout, Normal, IsNormal;
    UnchangedIffNormal(valueTy, value);
  }

  lemma MapUnchanged(keyTy: AbiType, valueTy: AbiType, explicitBits: Option<u16>, entries: seq<MapEntry>)
    requires MapLayout(keyTy, valueTy, explicitBits, entries).Some?
    ensures NormalEntries(keyTy, valueTy, entries) == entries
       <==> KeysAscend(entries) && ValuesAreNormal(valueTy, entries)
    decreases valueTy, 3
  {
    hide Items, NormalItems, Sorted, KeysAscend, NormalEntries, Normal, IsNormal, KeyToBits, ValueLayout;
    var keyBits := MapKeyBits(keyTy, explicitBits).value;
    ItemsAt(keyTy, valueTy, keyBits, entries);
    if NormalEntries(keyTy, valueTy, entries) == entries {
      NormalEntriesAreSorted(keyTy, valueTy, explicitBits, entries);
      forall i | 0 <= i < |entries| ensures IsNormal(valueTy, entries[i].value) {
        ComesBackNormal(keyTy, valueTy, keyBits, entries, i);
        ValueUnchanged(valueTy, entries[i].value);
      }
    }
    if KeysAscend(entries) && ValuesAreNormal(valueTy, entries) {
      forall i | 0 <= i < |entries| ensures Normal(valueTy, entries[i].value) == entries[i].value {
        ValueUnchanged(valueTy, entries[i].value);
      }
      AlreadySorted(keyTy, valueTy, keyBits, entries);
    }
  }

  /** The values of a decoded map are normal: they are what their own cells decode to. */
  lemma ComesBackNormal(keyTy: AbiType, valueTy: AbiType, keyBits: u16, entries: seq<MapEntry>, i: nat)
    requires IntegerType(keyTy) && keyBits == keyTy.bits && i < |entries|
    requires Items(keyTy, valueTy, keyBits, entries).Some?
    requires NormalEntries(keyTy, valueTy, entries) == entries
    ensures ValueLayout(valueTy, entries[i].value).Some?
    ensures Normal(valueTy, entries[i].value) == entries[i].value
  {
    hide Items, NormalItems, Sorted, Normal, ValueLayout, KeyToBits, BitsToKey, DecodeValueCell;
    var d, n := Sorted(Items(keyTy, valueTy, keyBits, entries).value), Sorted(NormalItems(keyTy, valueTy, entries));
    SortedCorrespond(keyTy, valueTy, keyBits, entries);
    assert entries == EntryValues(n);
    assert Corresponds(keyTy, valueTy, keyBits, d[i], n[i]);
    ValueReads(valueTy, entries[i].value);
  }

  lemma AlreadySorted(keyTy: AbiType, valueTy: AbiType, keyBits: u16, entries: seq<MapEntry>)
    requires IntegerType(keyTy) && keyBits == keyTy.bits
    requires forall i :: 0 <= i < |entries| ==> KeyToBits(keyTy, entries[i].key, keyBits).Ok?
    requires KeysAscend(entries)
    requires forall i :: 0 <= i < |entries| ==> Normal(valueTy, entries[i].value) == entries[i].value
    ensures NormalEntries(keyTy, valueTy, entries) == entries
  {
    hide NormalItems, Sorted, Normal, KeyToBits, KeyBelow, LexLess;
    var n := NormalItems(keyTy, valueTy, entries);
    NormalItemsAt(keyTy, valueTy, entries);
    forall i, j | 0 <= i < j < |n| ensures LexLess(n[i].key, n[j].key) {
      KeyReads(keyTy, entries[i].key, keyBits);
      KeyReads(keyTy, entries[j].key, keyBits);
      KeyOrder(keyTy, entries[i].key, entries[j].key, keyBits);
    }
    AscendingIsSorted(n);
    assert EntryValues(n) == entries;
  }
}
