/** The ordered map behind a dictionary: bit keys in ascending order, as a `BTreeMap<BitKey, V>` iterates them. */
module SortedMap {
  import opened Bits

  datatype Item<+V> = Item(key: seq<bool>, value: V)

  ghost predicate Ascending<V>(d: seq<Item<V>>) {
    forall i, j :: 0 <= i < j < |d| ==> LexLess(d[i].key, d[j].key)
  }

  predicate Contains<V>(d: seq<Item<V>>, key: seq<bool>) {
    exists i :: 0 <= i < |d| && d[i].key == key
  }

  /** Puts a value under a key, replacing the one already there. */
  function Insert<V>(d: seq<Item<V>>, key: seq<bool>, value: V): (r: seq<Item<V>>) {
    if d == [] || LexLess(key, d[0].key) then [Item(key, value)] + d
    else if key == d[0].key then [Item(key, value)] + d[1..]
    else [d[0]] + Insert(d[1..], key, value)
  }

  lemma {:induction false} InsertKeys<V>(d: seq<Item<V>>, key: seq<bool>, value: V)
    ensures forall k :: Contains(Insert(d, key, value), k) <==> k == key || Contains(d, k)
  {
    var r := Insert(d, key, value);
    if d != [] {
      LexLessTotal(key, d[0].key);
    }
    if d == [] || LexLess(key, d[0].key) || key == d[0].key {
      forall k ensures Contains(r, k) <==> k == key || Contains(d, k) {
        if Contains(d, k) && k != key {
          var i :| 0 <= i < |d| && d[i].key == k;
          assert k == r[if key == d[0].key then i else i + 1].key;
        }
        assert r[0].key == key;
      }
    } else {
      var tail := Insert(d[1..], key, value);
      InsertKeys(d[1..], key, value);
      forall k ensures Contains(r, k) <==> k == key || Contains(d, k) {
        assert Contains(r, k) <==> r[0].key == k || Contains(tail, k) by {
          assert forall i :: 0 <= i < |tail| ==> tail[i] == r[i + 1];
        }
        assert Contains(d, k) <==> d[0].key == k || Contains(d[1..], k) by {
          assert forall i :: 0 <= i < |d[1..]| ==> d[1..][i] == d[i + 1];
        }
      }
    }
  }

  /** Insertion keeps the keys ascending, whatever was there before. */
  lemma {:induction false} InsertAscending<V>(d: seq<Item<V>>, key: seq<bool>, value: V)
    requires Ascending(d)
    ensures Ascending(Insert(d, key, value))
  {
    hide LexLess;
    if d == [] {
    } else if LexLess(key, d[0].key) {
      forall j | 0 < j < |d| ensures LexLess(key, d[j].key) {
        LexLessTransitive(key, d[0].key, d[j].key);
      }
    } else if key != d[0].key {
      var tail := Insert(d[1..], key, value);
      InsertAscending(d[1..], key, value);
      InsertKeys(d[1..], key, value);
      LexLessTotal(key, d[0].key);
      forall j | 0 <= j < |tail| ensures LexLess(d[0].key, tail[j].key) {
        assert Contains(tail, tail[j].key);
        if tail[j].key != key {
          var i :| 0 <= i < |d[1..]| && d[1..][i].key == tail[j].key;
          assert d[1..][i] == d[i + 1];
        }
      }
    }
  }

  /** A fresh key adds its item and disturbs no other. */
  lemma {:induction false} InsertFresh<V>(d: seq<Item<V>>, key: seq<bool>, value: V)
    requires !Contains(d, key)
    ensures multiset(Insert(d, key, value)) == multiset(d) + multiset{Item(key, value)}
    ensures |Insert(d, key, value)| == |d| + 1
  {
    if d != [] && !LexLess(key, d[0].key) {
      assert forall i :: 0 <= i < |d[1..]| ==> d[1..][i] == d[i + 1];
      InsertFresh(d[1..], key, value);
      assert d == [d[0]] + d[1..];
    }
  }

  ghost predicate AllLess<V>(d: seq<Item<V>>, key: seq<bool>) {
    forall i :: 0 <= i < |d| ==> LexLess(d[i].key, key)
  }

  /** A key above all others goes to the end. */
  lemma {:induction false} InsertLast<V>(d: seq<Item<V>>, key: seq<bool>, value: V)
    requires AllLess(d, key)
    ensures Insert(d, key, value) == d + [Item(key, value)]
    ensures !Contains(d, key)
  {
    LexLessTotal(key, key);
    if d != [] {
      LexLessTotal(d[0].key, key);
      assert forall i :: 0 <= i < |d[1..]| ==> d[1..][i] == d[i + 1];
      InsertLast(d[1..], key, value);
      assert d == [d[0]] + d[1..];
    }
  }

  lemma SameHead<V>(a: seq<Item<V>>, b: seq<Item<V>>)
    requires Ascending(a) && Ascending(b)
    requires multiset(a) == multiset(b) && a != [] && b != []
    ensures a[0] == b[0]
  {
    assert a[0] in multiset(b);
    assert b[0] in multiset(a);
    var i :| 0 <= i < |b| && b[i] == a[0];
    var j :| 0 <= j < |a| && a[j] == b[0];
    LexLessTotal(a[0].key, b[0].key);
  }

  /** An ascending sequence is determined by its items. */
  lemma {:induction false} AscendingUnique<V>(a: seq<Item<V>>, b: seq<Item<V>>)
    requires Ascending(a) && Ascending(b)
    requires multiset(a) == multiset(b)
    ensures a == b
  {
    assert |a| == |multiset(a)| == |multiset(b)| == |b|;
    if a != [] {
      SameHead(a, b);
      assert a == [a[0]] + a[1..] && b == [b[0]] + b[1..];
      assert multiset(a[1..]) == multiset(a) - multiset{a[0]};
      assert multiset(b[1..]) == multiset(b) - multiset{b[0]};
      AscendingUnique(a[1..], b[1..]);
    }
  }
}
