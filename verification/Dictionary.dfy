/**
 * `HashmapE n ^Cell`: a Patricia tree over fixed-width bit keys (src/tvm/dict).
 * Keys arrive in the ascending order of the map that holds them; every value is a referenced cell.
 */
module Dictionary {
  import opened Bits
  import opened Cells
  import opened Labels
  import opened SortedMap
  import opened Wrappers

  type Entry = Item<Cell>
  type Dict = seq<Entry>

  predicate KeysOfLength(d: Dict, n: nat) {
    forall i :: 0 <= i < |d| ==> |d[i].key| == n
  }

  ghost predicate SharePrefix(d: Dict, prefix: seq<bool>) {
    forall i :: 0 <= i < |d| ==> prefix <= d[i].key
  }

  // ----- Building -----

  predicate AgreeAt(d: Dict, pos: nat)
    requires d != [] && forall i :: 0 <= i < |d| ==> pos < |d[i].key|
  {
    forall i :: 0 <= i < |d| ==> d[i].key[pos] == d[0].key[pos]
  }

  /** How far, at most `maxLen`, all keys agree from bit `depth` on. */
  function CommonPrefixLen(d: Dict, depth: nat, maxLen: nat): (len: nat)
    requires d != [] && KeysOfLength(d, depth + maxLen)
    ensures len <= maxLen
    decreases maxLen
  {
    if maxLen == 0 || !AgreeAt(d, depth) then 0 else 1 + CommonPrefixLen(d, depth + 1, maxLen - 1)
  }

  /** The index of the first key with a one at `pos`, or the number of keys. */
  function SplitPoint(d: Dict, pos: nat): (split: nat)
    requires forall i :: 0 <= i < |d| ==> pos < |d[i].key|
    ensures split <= |d|
  {
    if d == [] || d[0].key[pos] then 0 else 1 + SplitPoint(d[1..], pos)
  }

  function BuildEdge(d: Dict, depth: nat, remaining: nat): Option<Cell>
    requires KeysOfLength(d, depth + remaining)
    decreases remaining
  {
    if d == [] then None
    else
      var labelLen := CommonPrefixLen(d, depth, remaining);
      var tag := CanonicalLabel(d[0].key[depth..depth + labelLen], remaining);
      if |tag| > MAX_CELL_BITS then None
      else if labelLen == remaining then
        if |d| != 1 then None else Some(Chunk(tag, [d[0].value]).ToCell())
      else
        var splitDepth := depth + labelLen;
        var split := SplitPoint(d, splitDepth);
        if split == 0 || split == |d| then None
        else
          var left :- BuildEdge(d[..split], splitDepth + 1, remaining - labelLen - 1);
          var right :- BuildEdge(d[split..], splitDepth + 1, remaining - labelLen - 1);
          Some(Chunk(tag, [left, right]).ToCell())
  }

  // ----- Parsing -----

  /** Adds the entries of an edge to `d`; a key seen before is an error, data after a leaf's reference is not. */
  function ParseEdge(cell: Cell, remaining: nat, prefix: seq<bool>, d: Dict): Option<Dict>
    decreases cell
  {
    var (tag, rest) :- LoadLabel(Contents(cell), remaining);
    var here := prefix + tag;
    if |tag| == remaining then
      var (value, _) :- TakeRef(rest);
      if Contains(d, here) then None else Some(Insert(d, here, value))
    else if |rest.refs| < 2 then None
    else
      var withLeft :- ParseEdge(rest.refs[0], remaining - |tag| - 1, here + [false], d);
      ParseEdge(rest.refs[1], remaining - |tag| - 1, here + [true], withLeft)
  }

  /** The entries below an edge from left to right, with no map in between. */
  function Leaves(cell: Cell, remaining: nat, prefix: seq<bool>): Option<Dict>
    decreases cell
  {
    var (tag, rest) :- LoadLabel(Contents(cell), remaining);
    var here := prefix + tag;
    if |tag| == remaining then
      var (value, _) :- TakeRef(rest);
      Some([Item(here, value)])
    else if |rest.refs| < 2 then None
    else
      var left :- Leaves(rest.refs[0], remaining - |tag| - 1, here + [false]);
      var right :- Leaves(rest.refs[1], remaining - |tag| - 1, here + [true]);
      Some(left + right)
  }

  // ----- HashmapE -----

  function StoreDict(d: Dict, keyBits: nat): Option<Chunk>
    requires KeysOfLength(d, keyBits)
  {
    if d == [] then Some(OfBits([false]))
    else
      var root :- BuildEdge(d, 0, keyBits);
      Some(Chunk([true], [root]))
  }

  function LoadDict(c: Chunk, keyBits: nat): Option<(Dict, Chunk)> {
    var (present, afterBit) :- TakeBit(c);
    if !present then Some(([], afterBit))
    else
      var (root, rest) :- TakeRef(afterBit);
      var d :- ParseEdge(root, keyBits, [], []);
      Some((d, rest))
  }

  // ----- The order of keys around a prefix -----

  /** `key` leaves `prefix` by a zero where `prefix` has a one. */
  ghost predicate Below(key: seq<bool>, prefix: seq<bool>) {
    if key == [] || prefix == [] then false
    else if key[0] == prefix[0] then Below(key[1..], prefix[1..])
    else prefix[0]
  }

  ghost predicate AllBelow(d: Dict, prefix: seq<bool>) {
    forall i :: 0 <= i < |d| ==> Below(d[i].key, prefix)
  }

  lemma {:induction false} BelowExtends(key: seq<bool>, prefix: seq<bool>, more: seq<bool>)
    requires Below(key, prefix)
    ensures Below(key, prefix + more) && LexLess(key, prefix + more)
  {
    assert (prefix + more)[1..] == prefix[1..] + more;
    if key[0] == prefix[0] {
      BelowExtends(key[1..], prefix[1..], more);
    }
  }

  lemma {:induction false} BelowSibling(prefix: seq<bool>, more: seq<bool>)
    ensures Below(prefix + [false] + more, prefix + [true])
  {
    var key := prefix + [false] + more;
    if prefix != [] {
      assert key[1..] == prefix[1..] + [false] + more;
      assert (prefix + [true])[1..] == prefix[1..] + [true];
      BelowSibling(prefix[1..], more);
    }
  }

  /** Keys that agree up to `pos` and differ there compare by that bit. */
  lemma {:induction false} LexAt(a: seq<bool>, b: seq<bool>, pos: nat)
    requires pos < |a| && pos < |b| && a[..pos] == b[..pos] && LexLess(a, b)
    ensures a[pos] ==> b[pos]
  {
    if pos > 0 {
      assert a[0] == a[..pos][0] == b[..pos][0] == b[0];
      assert a[1..][..pos - 1] == a[..pos][1..] == b[..pos][1..] == b[1..][..pos - 1];
      LexAt(a[1..], b[1..], pos - 1);
    }
  }

  // ----- One edge of an ascending dictionary -----

  /** What a valid dictionary with a shared prefix gives to `BuildEdge`. */
  ghost predicate EdgeInput(d: Dict, prefix: seq<bool>, remaining: nat) {
    d != [] && Ascending(d) && KeysOfLength(d, |prefix| + remaining) && SharePrefix(d, prefix)
  }

  lemma {:induction false} CommonPrefixIsLongest(d: Dict, depth: nat, maxLen: nat)
    requires d != [] && KeysOfLength(d, depth + maxLen)
    ensures var len := CommonPrefixLen(d, depth, maxLen);
      && (forall pos :: depth <= pos < depth + len ==> AgreeAt(d, pos))
      && (len < maxLen ==> !AgreeAt(d, depth + len))
    decreases maxLen
  {
    if maxLen > 0 && AgreeAt(d, depth) {
      CommonPrefixIsLongest(d, depth + 1, maxLen - 1);
    }
  }

  lemma {:induction false} SplitPointIsFirst(d: Dict, pos: nat)
    requires forall i :: 0 <= i < |d| ==> pos < |d[i].key|
    ensures var split := SplitPoint(d, pos);
      && (forall i :: 0 <= i < split ==> !d[i].key[pos])
      && (split < |d| ==> d[split].key[pos])
  {
    if d != [] && !d[0].key[pos] {
      SplitPointIsFirst(d[1..], pos);
      forall i | 0 <= i < SplitPoint(d, pos) ensures !d[i].key[pos] {
        if i > 0 {
          assert d[i] == d[1..][i - 1];
        }
      }
    }
  }

  lemma {:induction false} CommonPrefixIs(d: Dict, depth: nat, maxLen: nat, len: nat)
    requires d != [] && KeysOfLength(d, depth + maxLen) && len <= maxLen
    requires forall pos :: depth <= pos < depth + len ==> AgreeAt(d, pos)
    requires len < maxLen ==> !AgreeAt(d, depth + len)
    ensures CommonPrefixLen(d, depth, maxLen) == len
    decreases maxLen
  {
    if len > 0 {
      assert AgreeAt(d, depth);
      CommonPrefixIs(d, depth + 1, maxLen - 1, len - 1);
    }
  }

  lemma LongerPrefix(key: seq<bool>, prefix: seq<bool>, tag: seq<bool>)
    requires prefix <= key && |prefix| + |tag| <= |key|
    requires forall pos :: |prefix| <= pos < |prefix| + |tag| ==> key[pos] == tag[pos - |prefix|]
    ensures prefix + tag <= key
  {
    assert key[..|prefix| + |tag|] == prefix + tag;
  }

  lemma AgreedPrefix(d: Dict, prefix: seq<bool>, remaining: nat)
    requires EdgeInput(d, prefix, remaining)
    ensures var len := CommonPrefixLen(d, |prefix|, remaining);
      && SharePrefix(d, prefix + d[0].key[|prefix|..|prefix| + len])
      && (len < remaining ==> !AgreeAt(d, |prefix| + len))
  {
    hide CommonPrefixLen, Ascending;
    CommonPrefixIsLongest(d, |prefix|, remaining);
    var len := CommonPrefixLen(d, |prefix|, remaining);
    var tag := d[0].key[|prefix|..|prefix| + len];
    forall i | 0 <= i < |d| ensures prefix + tag <= d[i].key {
      forall pos | |prefix| <= pos < |prefix| + len ensures d[i].key[pos] == tag[pos - |prefix|] {
        assert AgreeAt(d, pos);
      }
      LongerPrefix(d[i].key, prefix, tag);
    }
  }

  /** All keys equal means one key. */
  lemma LeafIsSingle(d: Dict, here: seq<bool>)
    requires EdgeInput(d, here, 0)
    ensures |d| == 1 && d[0].key == here
  {
    assert d[0].key == here;
    if |d| > 1 {
      assert d[1].key == here;
      LexLessTotal(here, here);
    }
  }

  /** Keys that differ at their common prefix come as a run of zeros there and a run of ones. */
  lemma SplitSeparates(d: Dict, here: seq<bool>, remaining: nat)
    requires remaining > 0 && EdgeInput(d, here, remaining)
    requires !AgreeAt(d, |here|)
    ensures var split := SplitPoint(d, |here|);
      0 < split < |d| && forall i :: 0 <= i < |d| ==> d[i].key[|here|] == (i >= split)
  {
    hide LexLess, SplitPoint;
    var pos := |here|;
    SplitPointIsFirst(d, pos);
    forall i, j | 0 <= i < j < |d| ensures d[i].key[pos] ==> d[j].key[pos] {
      assert d[i].key[..pos] == here == d[j].key[..pos];
      LexAt(d[i].key, d[j].key, pos);
    }
  }

  lemma ForkSides(d: Dict, here: seq<bool>, remaining: nat, split: nat)
    requires remaining > 0 && EdgeInput(d, here, remaining)
    requires 0 < split < |d| && forall i :: 0 <= i < |d| ==> d[i].key[|here|] == (i >= split)
    ensures EdgeInput(d[..split], here + [false], remaining - 1)
    ensures EdgeInput(d[split..], here + [true], remaining - 1)
  {
    forall i | 0 <= i < |d| ensures here + [i >= split] <= d[i].key {
      assert d[i].key[..|here|] == here;
      assert d[i].key[..|here| + 1] == here + [i >= split];
    }
    assert SharePrefix(d[..split], here + [false]);
    assert SharePrefix(d[split..], here + [true]);
  }

  /** How `BuildEdge` divides a valid dictionary: one leaf, or a fork with two valid sides. */
  lemma EdgeShape(d: Dict, prefix: seq<bool>, remaining: nat) returns (tag: seq<bool>, split: nat)
    requires EdgeInput(d, prefix, remaining)
    ensures |tag| == CommonPrefixLen(d, |prefix|, remaining)
    ensures tag == d[0].key[|prefix|..|prefix| + |tag|]
    ensures |tag| == remaining ==> |d| == 1 && d[0].key == prefix + tag
    ensures |tag| < remaining ==>
      && split == SplitPoint(d, |prefix| + |tag|)
      && 0 < split < |d|
      && EdgeInput(d[..split], prefix + tag + [false], remaining - |tag| - 1)
      && EdgeInput(d[split..], prefix + tag + [true], remaining - |tag| - 1)
  {
    tag := d[0].key[|prefix|..|prefix| + CommonPrefixLen(d, |prefix|, remaining)];
    AgreedPrefix(d, prefix, remaining);
    assert EdgeInput(d, prefix + tag, remaining - |tag|);
    split := 0;
    if |tag| == remaining {
      LeafIsSingle(d, prefix + tag);
    } else {
      assert |prefix + tag| == |prefix| + |tag|;
      split := SplitPoint(d, |prefix| + |tag|);
      SplitSeparates(d, prefix + tag, remaining - |tag|);
      ForkSides(d, prefix + tag, remaining - |tag|, split);
    }
  }

  // ----- One step of building and of listing -----

  lemma EdgeInputLengths(d: Dict, prefix: seq<bool>, remaining: nat)
    requires EdgeInput(d, prefix, remaining)
    ensures d != [] && KeysOfLength(d, |prefix| + remaining)
  {
  }

  lemma BuildStep(d: Dict, depth: nat, remaining: nat, len: nat, split: nat)
    requires d != [] && KeysOfLength(d, depth + remaining)
    requires len == CommonPrefixLen(d, depth, remaining)
    requires len == remaining ==> |d| == 1
    requires len < remaining ==> split == SplitPoint(d, depth + len) && 0 < split < |d|
    ensures BuildEdge(d, depth, remaining) == (
      var bits := CanonicalLabel(d[0].key[depth..depth + len], remaining);
      if |bits| > MAX_CELL_BITS then None
      else if len == remaining then Some(Chunk(bits, [d[0].value]).ToCell())
      else
        var left :- BuildEdge(d[..split], depth + len + 1, remaining - len - 1);
        var right :- BuildEdge(d[split..], depth + len + 1, remaining - len - 1);
        Some(Chunk(bits, [left, right]).ToCell()))
  {
    hide CanonicalLabel, CommonPrefixLen, SplitPoint, AgreeAt;
  }

  lemma LabelIsRead(cell: Cell, remaining: nat, tag: seq<bool>)
    requires |tag| <= remaining && cell.bits == CanonicalLabel(tag, remaining)
    ensures LoadLabel(Contents(cell), remaining) == Some((tag, Chunk([], cell.refs)))
  {
    hide CanonicalLabel, LoadLabel;
    assert Contents(cell) == OfBits(CanonicalLabel(tag, remaining)).Then(Chunk([], cell.refs)) by {
      assert CanonicalLabel(tag, remaining) + [] == cell.bits;
      assert [] + cell.refs == cell.refs;
    }
    LabelRoundTrip(tag, remaining, Chunk([], cell.refs));
  }

  lemma LeavesStep(cell: Cell, remaining: nat, prefix: seq<bool>, tag: seq<bool>)
    requires |tag| <= remaining && cell.bits == CanonicalLabel(tag, remaining)
    ensures Leaves(cell, remaining, prefix) == (
      if |tag| == remaining then
        if cell.refs == [] then None else Some([Item(prefix + tag, cell.refs[0])])
      else if |cell.refs| < 2 then None
      else
        var left :- Leaves(cell.refs[0], remaining - |tag| - 1, prefix + tag + [false]);
        var right :- Leaves(cell.refs[1], remaining - |tag| - 1, prefix + tag + [true]);
        Some(left + right))
  {
    hide CanonicalLabel, LoadLabel;
    LabelIsRead(cell, remaining, tag);
  }

  // ----- Building succeeds, and listing undoes it -----

  lemma {:induction false} BuildSucceeds(d: Dict, prefix: seq<bool>, remaining: nat)
    requires EdgeInput(d, prefix, remaining) && remaining <= 1011
    ensures BuildEdge(d, |prefix|, remaining).Some?
    decreases remaining
  {
    hide CanonicalLabel, CommonPrefixLen, SplitPoint, AgreeAt, EdgeInput, BuildEdge;
    var tag, split := EdgeShape(d, prefix, remaining);
    EdgeInputLengths(d, prefix, remaining);
    BuildStep(d, |prefix|, remaining, |tag|, split);
    CanonicalLabelFits(tag, remaining);
    if |tag| < remaining {
      BuildSucceeds(d[..split], prefix + tag + [false], remaining - |tag| - 1);
      BuildSucceeds(d[split..], prefix + tag + [true], remaining - |tag| - 1);
    }
  }

  lemma {:induction false} LeavesOfBuilt(d: Dict, prefix: seq<bool>, remaining: nat)
    requires EdgeInput(d, prefix, remaining)
    requires BuildEdge(d, |prefix|, remaining).Some?
    ensures Leaves(BuildEdge(d, |prefix|, remaining).value, remaining, prefix) == Some(d)
    decreases remaining
  {
    hide CanonicalLabel, CommonPrefixLen, SplitPoint, AgreeAt, EdgeInput, BuildEdge, Leaves;
    EdgeInputLengths(d, prefix, remaining);
    var cell := BuildEdge(d, |prefix|, remaining).value;
    var tag, split := EdgeShape(d, prefix, remaining);
    BuildStep(d, |prefix|, remaining, |tag|, split);
    LeavesStep(cell, remaining, prefix, tag);
    if |tag| == remaining {
      assert d == [Item(prefix + tag, d[0].value)];
    } else {
      LeavesOfBuilt(d[..split], prefix + tag + [false], remaining - |tag| - 1);
      LeavesOfBuilt(d[split..], prefix + tag + [true], remaining - |tag| - 1);
      assert d[..split] + d[split..] == d;
    }
  }

  // ----- Whatever is listed is an ascending dictionary, and parsing lists it -----

  lemma AllBelowExtends(d: Dict, prefix: seq<bool>, more: seq<bool>)
    requires AllBelow(d, prefix)
    ensures AllBelow(d, prefix + more) && AllLess(d, prefix + more)
  {
    forall i | 0 <= i < |d| ensures Below(d[i].key, prefix + more) && LexLess(d[i].key, prefix + more) {
      BelowExtends(d[i].key, prefix, more);
    }
  }

  lemma LeftBelowRight(left: Dict, here: seq<bool>)
    requires SharePrefix(left, here + [false])
    ensures AllBelow(left, here + [true])
  {
    forall i | 0 <= i < |left| ensures Below(left[i].key, here + [true]) {
      var key := left[i].key;
      BelowSibling(here, key[|here| + 1..]);
      assert key == here + [false] + key[|here| + 1..];
    }
  }

  lemma SidesAscend(left: Dict, right: Dict, prefix: seq<bool>, tag: seq<bool>, remaining: nat)
    requires |tag| < remaining
    requires EdgeInput(left, prefix + tag + [false], remaining - |tag| - 1)
    requires EdgeInput(right, prefix + tag + [true], remaining - |tag| - 1)
    ensures EdgeInput(left + right, prefix, remaining)
  {
    var here := prefix + tag;
    LeftBelowRight(left, here);
    forall i, j | 0 <= i < |left| && 0 <= j < |right| ensures LexLess(left[i].key, right[j].key) {
      var key := right[j].key;
      BelowExtends(left[i].key, here + [true], key[|here| + 1..]);
      assert key == here + [true] + key[|here| + 1..];
    }
    forall i | 0 <= i < |left + right| ensures prefix <= (left + right)[i].key {
      var full := if i < |left| then here + [false] else here + [true];
      assert full <= (left + right)[i].key && prefix <= full;
    }
  }

  lemma {:induction false} LeavesAscend(cell: Cell, remaining: nat, prefix: seq<bool>)
    requires Leaves(cell, remaining, prefix).Some?
    ensures EdgeInput(Leaves(cell, remaining, prefix).value, prefix, remaining)
    decreases cell
  {
    hide LoadLabel;
    var (tag, rest) := LoadLabel(Contents(cell), remaining).value;
    if |tag| < remaining {
      hide EdgeInput;
      var l: Cell, r: Cell := rest.refs[0], rest.refs[1];
      var left := Leaves(l, remaining - |tag| - 1, prefix + tag + [false]).value;
      var right := Leaves(r, remaining - |tag| - 1, prefix + tag + [true]).value;
      LeavesAscend(l, remaining - |tag| - 1, prefix + tag + [false]);
      LeavesAscend(r, remaining - |tag| - 1, prefix + tag + [true]);
      SidesAscend(left, right, prefix, tag, remaining);
    }
  }

  /** Parsing appends the listed entries: each new key is above all before it, so the duplicate check never fires. */
  lemma {:induction false} ParseLists(cell: Cell, remaining: nat, prefix: seq<bool>, before: Dict)
    requires AllBelow(before, prefix)
    ensures ParseEdge(cell, remaining, prefix, before) == match Leaves(cell, remaining, prefix)
      case None => None
      case Some(d) => Some(before + d)
    decreases cell
  {
    hide LoadLabel, AllBelow, EdgeInput, Insert, Contains, AllLess;
    var found := LoadLabel(Contents(cell), remaining);
    if found.Some? {
      var (tag, rest) := found.value;
      var here := prefix + tag;
      if |tag| == remaining {
        if rest.refs != [] {
          AllBelowExtends(before, prefix, tag);
          InsertLast(before, here, rest.refs[0]);
        }
      } else if |rest.refs| >= 2 {
        var l: Cell, r: Cell := rest.refs[0], rest.refs[1];
        var below := remaining - |tag| - 1;
        AllBelowExtends(before, prefix, tag + [false]);
        assert prefix + (tag + [false]) == here + [false] && prefix + (tag + [true]) == here + [true];
        ParseLists(l, below, here + [false], before);
        var left := Leaves(l, below, here + [false]);
        if left.Some? {
          LeavesAscend(l, below, here + [false]);
          SidesBelow(before, left.value, prefix, tag, below);
          ParseLists(r, below, here + [true], before + left.value);
          var right := Leaves(r, below, here + [true]);
          if right.Some? {
            assert (before + left.value) + right.value == before + (left.value + right.value);
          }
        }
      }
    }
  }

  lemma SidesBelow(before: Dict, left: Dict, prefix: seq<bool>, tag: seq<bool>, remaining: nat)
    requires AllBelow(before, prefix) && EdgeInput(left, prefix + tag + [false], remaining)
    ensures AllBelow(before + left, prefix + tag + [true])
  {
    AllBelowExtends(before, prefix, tag + [true]);
    assert prefix + (tag + [true]) == prefix + tag + [true];
    LeftBelowRight(left, prefix + tag);
  }

  // ----- Which cells re-encode to themselves -----

  /** A tree with canonical labels, forks with two canonical children, and nothing else in its cells. */
  predicate CanonicalEdge(cell: Cell, remaining: nat)
    decreases cell
  {
    match LoadLabel(Contents(cell), remaining)
    case None => false
    case Some((tag, rest)) =>
      && cell.bits == CanonicalLabel(tag, remaining)
      && if |tag| == remaining then |cell.refs| == 1
         else
           && |cell.refs| == 2
           && CanonicalEdge(cell.refs[0], remaining - |tag| - 1)
           && CanonicalEdge(cell.refs[1], remaining - |tag| - 1)
  }

  lemma ForkKeys(left: Dict, right: Dict, here: seq<bool>)
    requires SharePrefix(left, here + [false]) && SharePrefix(right, here + [true])
    ensures var d := left + right;
      forall i :: 0 <= i < |d| ==> here <= d[i].key && |here| < |d[i].key| && d[i].key[|here|] == (i >= |left|)
  {
    var d := left + right;
    forall i | 0 <= i < |d|
      ensures here <= d[i].key && |here| < |d[i].key| && d[i].key[|here|] == (i >= |left|)
    {
      var full := here + [i >= |left|];
      assert full <= d[i].key;
      assert here <= full && full[|here|] == (i >= |left|);
    }
  }

  lemma {:induction false} SplitIs(d: Dict, pos: nat, split: nat)
    requires forall i :: 0 <= i < |d| ==> pos < |d[i].key| && d[i].key[pos] == (i >= split)
    requires split <= |d|
    ensures SplitPoint(d, pos) == split
  {
    if split > 0 {
      SplitIs(d[1..], pos, split - 1);
    }
  }

  /** The common prefix of two non-empty sides ends where the fork was. */
  lemma ForkIsFound(d: Dict, prefix: seq<bool>, tag: seq<bool>, remaining: nat, split: nat)
    requires |tag| < remaining && 0 < split < |d| && KeysOfLength(d, |prefix| + remaining)
    requires forall i :: 0 <= i < |d| ==>
      prefix + tag <= d[i].key && |prefix| + |tag| < |d[i].key| && d[i].key[|prefix| + |tag|] == (i >= split)
    ensures CommonPrefixLen(d, |prefix|, remaining) == |tag|
    ensures SplitPoint(d, |prefix| + |tag|) == split
    ensures d[0].key[|prefix|..|prefix| + |tag|] == tag
  {
    hide CommonPrefixLen, SplitPoint;
    forall pos | |prefix| <= pos < |prefix| + |tag| ensures AgreeAt(d, pos) {
      forall i | 0 <= i < |d| ensures d[i].key[pos] == d[0].key[pos] {
        assert d[i].key[pos] == (prefix + tag)[pos] == d[0].key[pos];
      }
    }
    assert !AgreeAt(d, |prefix| + |tag|) by {
      assert d[split].key[|prefix| + |tag|] != d[0].key[|prefix| + |tag|];
    }
    CommonPrefixIs(d, |prefix|, remaining, |tag|);
    SplitIs(d, |prefix| + |tag|, split);
    assert d[0].key[|prefix|..|prefix| + |tag|] == (prefix + tag)[|prefix|..];
  }

  /** The two sides of a fork, put together, divide again as they were. */
  lemma ForkDivides(left: Dict, right: Dict, prefix: seq<bool>, tag: seq<bool>, remaining: nat)
    requires |tag| < remaining
    requires EdgeInput(left, prefix + tag + [false], remaining - |tag| - 1)
    requires EdgeInput(right, prefix + tag + [true], remaining - |tag| - 1)
    ensures left + right != [] && KeysOfLength(left + right, |prefix| + remaining)
    ensures CommonPrefixLen(left + right, |prefix|, remaining) == |tag|
    ensures SplitPoint(left + right, |prefix| + |tag|) == |left| && 0 < |left| < |left + right|
    ensures (left + right)[0].key[|prefix|..|prefix| + |tag|] == tag
  {
    hide CommonPrefixLen, SplitPoint;
    assert |prefix + tag| == |prefix| + |tag|;
    ForkKeys(left, right, prefix + tag);
    ForkIsFound(left + right, prefix, tag, remaining, |left|);
  }

  lemma SingleAgrees(d: Dict, depth: nat, maxLen: nat)
    requires |d| == 1 && KeysOfLength(d, depth + maxLen)
    ensures CommonPrefixLen(d, depth, maxLen) == maxLen
  {
    CommonPrefixIs(d, depth, maxLen, maxLen);
  }

  lemma ReencodedLeaf(cell: Cell, remaining: nat, prefix: seq<bool>)
    requires Leaves(cell, remaining, prefix).Some?
    requires |LoadLabel(Contents(cell), remaining).value.0| == remaining
    ensures KeysOfLength(Leaves(cell, remaining, prefix).value, |prefix| + remaining)
    ensures BuildEdge(Leaves(cell, remaining, prefix).value, |prefix|, remaining) == Some(cell)
       <==> CanonicalEdge(cell, remaining)
  {
    hide LoadLabel, CanonicalLabel, CommonPrefixLen, SplitPoint, AgreeAt, BuildEdge;
    var (tag, rest) := LoadLabel(Contents(cell), remaining).value;
    var d := Leaves(cell, remaining, prefix).value;
    var value: Cell := rest.refs[0];
    assert d == [Item(prefix + tag, value)];
    assert d[0].key[|prefix|..|prefix| + |tag|] == tag;
    SingleAgrees(d, |prefix|, remaining);
    BuildStep(d, |prefix|, remaining, |tag|, 0);
    if |cell.refs| == 1 {
      assert cell.refs == [value];
    }
  }

  lemma LeavesOfFork(cell: Cell, remaining: nat, prefix: seq<bool>)
    requires Leaves(cell, remaining, prefix).Some?
    requires |LoadLabel(Contents(cell), remaining).value.0| < remaining
    ensures LoadLabel(Contents(cell), remaining).Some?
    ensures var (tag, rest) := LoadLabel(Contents(cell), remaining).value;
      var here, below := prefix + tag, remaining - |tag| - 1;
      && |rest.refs| >= 2 && rest.refs == cell.refs
      && Leaves(rest.refs[0], below, here + [false]).Some? && Leaves(rest.refs[1], below, here + [true]).Some?
      && Leaves(cell, remaining, prefix).value
         == Leaves(rest.refs[0], below, here + [false]).value + Leaves(rest.refs[1], below, here + [true]).value
  {
    hide LoadLabel;
  }

  lemma ReencodedFork(cell: Cell, remaining: nat, prefix: seq<bool>)
    requires Leaves(cell, remaining, prefix).Some?
    requires var (tag, rest) := LoadLabel(Contents(cell), remaining).value;
      && |tag| < remaining && |rest.refs| >= 2
      && SideReencodes(rest.refs[0], remaining - |tag| - 1, prefix + tag + [false])
      && SideReencodes(rest.refs[1], remaining - |tag| - 1, prefix + tag + [true])
    ensures SideReencodes(cell, remaining, prefix)
  {
    hide LoadLabel, CanonicalLabel, CommonPrefixLen, SplitPoint, AgreeAt, BuildEdge, EdgeInput, Leaves;
    LeavesOfFork(cell, remaining, prefix);
    var (tag, rest) := LoadLabel(Contents(cell), remaining).value;
    var here := prefix + tag;
    var d := Leaves(cell, remaining, prefix).value;
    LeavesAscend(cell, remaining, prefix);
    EdgeInputLengths(d, prefix, remaining);
    var l: Cell, r: Cell := rest.refs[0], rest.refs[1];
    var below := remaining - |tag| - 1;
    var left := Leaves(l, below, here + [false]).value;
    var right := Leaves(r, below, here + [true]).value;
    LeavesAscend(l, below, here + [false]);
    LeavesAscend(r, below, here + [true]);
    ForkDivides(left, right, prefix, tag, remaining);
    BuildStep(d, |prefix|, remaining, |tag|, |left|);
    assert d[..|left|] == left && d[|left|..] == right;
    if |cell.refs| == 2 {
      assert cell.refs == [l, r];
    }
  }

  /** The law, for one accepted edge. */
  ghost predicate SideReencodes(cell: Cell, remaining: nat, prefix: seq<bool>) {
    && Leaves(cell, remaining, prefix).Some?
    && KeysOfLength(Leaves(cell, remaining, prefix).value, |prefix| + remaining)
    && (BuildEdge(Leaves(cell, remaining, prefix).value, |prefix|, remaining) == Some(cell)
        <==> CanonicalEdge(cell, remaining))
  }

  /** Re-encoding an accepted tree gives the same cell exactly when the tree is canonical. */
  lemma {:induction false} ReencodedEdge(cell: Cell, remaining: nat, prefix: seq<bool>)
    requires Leaves(cell, remaining, prefix).Some?
    ensures KeysOfLength(Leaves(cell, remaining, prefix).value, |prefix| + remaining)
    ensures BuildEdge(Leaves(cell, remaining, prefix).value, |prefix|, remaining) == Some(cell)
       <==> CanonicalEdge(cell, remaining)
    decreases cell
  {
    hide LoadLabel, BuildEdge, CanonicalEdge;
    var (tag, rest) := LoadLabel(Contents(cell), remaining).value;
    if |tag| == remaining {
      ReencodedLeaf(cell, remaining, prefix);
    } else {
      ReencodedEdge(rest.refs[0], remaining - |tag| - 1, prefix + tag + [false]);
      ReencodedEdge(rest.refs[1], remaining - |tag| - 1, prefix + tag + [true]);
      ReencodedFork(cell, remaining, prefix);
    }
  }

  // ----- The whole dictionary -----

  ghost predicate ValidDict(d: Dict, keyBits: nat) {
    Ascending(d) && KeysOfLength(d, keyBits)
  }

  lemma RootEdge(d: Dict, keyBits: nat)
    requires ValidDict(d, keyBits) && d != []
    ensures EdgeInput(d, [], keyBits)
  {
  }

  lemma DictRoundTrip(d: Dict, keyBits: nat, rest: Chunk)
    requires ValidDict(d, keyBits) && StoreDict(d, keyBits).Some?
    ensures LoadDict(StoreDict(d, keyBits).value.Then(rest), keyBits) == Some((d, rest))
  {
    hide BuildEdge, ParseEdge, Leaves, EdgeInput;
    if d == [] {
      TakeBitThen(false, rest);
    } else {
      var root := BuildEdge(d, 0, keyBits).value;
      RootEdge(d, keyBits);
      LeavesOfBuilt(d, [], keyBits);
      ParseLists(root, keyBits, [], []);
      assert [] + d == d;
      var tail := OfRef(root).Then(rest);
      assert Chunk([true], [root]).Then(rest) == OfBits([true]).Then(tail);
      TakeBitThen(true, tail);
      TakeRefThen(root, rest);
    }
  }

  lemma StoreDictSucceeds(d: Dict, keyBits: nat)
    requires ValidDict(d, keyBits) && keyBits <= 1011
    ensures StoreDict(d, keyBits).Some? && StoreDict(d, keyBits).value.Fits()
  {
    hide BuildEdge;
    if d != [] {
      RootEdge(d, keyBits);
      BuildSucceeds(d, [], keyBits);
    }
  }

  /**
   * Just above the bound: at 1012 bits a dictionary builds exactly when it has several keys or the bits of its only key
   * are all equal, because the label of a lone key takes 1012 bits and twelve more otherwise.
   */
  lemma StoreDictAt1012Iff(d: Dict)
    requires ValidDict(d, 1012) && d != []
    ensures StoreDict(d, 1012).Some? <==> |d| > 1 || AllAre(d[0].key, false) || AllAre(d[0].key, true)
  {
    hide CanonicalLabel, CommonPrefixLen, SplitPoint, AgreeAt, EdgeInput, BuildEdge, AllAre;
    RootEdge(d, 1012);
    var tag, split := EdgeShape(d, [], 1012);
    BuildStep(d, 0, 1012, |tag|, split);
    CanonicalLabelAt1012(tag);
    if |tag| < 1012 {
      BuildSucceeds(d[..split], [] + tag + [false], 1012 - |tag| - 1);
      BuildSucceeds(d[split..], [] + tag + [true], 1012 - |tag| - 1);
    } else {
      assert [] + tag == tag;
    }
  }

  /** One key whose first bit differs from all others. */
  function LoneKey(keyBits: nat): Dict
    requires keyBits > 0
  {
    [Item([true] + Repeat(false, keyBits - 1), CellTree([], []))]
  }

  /** At every width above 1011 bits there is a dictionary that cannot be stored. */
  lemma OneKeyTooWide(keyBits: nat)
    requires keyBits > 1011
    ensures ValidDict(LoneKey(keyBits), keyBits) && StoreDict(LoneKey(keyBits), keyBits) == None
  {
    hide CanonicalLabel, CommonPrefixLen, SplitPoint, AgreeAt, EdgeInput, BuildEdge, AllAre;
    var d := LoneKey(keyBits);
    var key := d[0].key;
    assert key[0] && !key[1];
    RootEdge(d, keyBits);
    SingleAgrees(d, 0, keyBits);
    BuildStep(d, 0, keyBits, keyBits, 0);
    assert key[0..keyBits] == key;
    MixedLabelTooWide(key);
  }

  ghost predicate AllStored(keyBits: nat) {
    forall d :: ValidDict(d, keyBits) ==> StoreDict(d, keyBits).Some?
  }

  /** Every valid dictionary can be stored exactly up to a key width of 1011 bits. */
  lemma AllStoredIff(keyBits: nat)
    ensures AllStored(keyBits) <==> keyBits <= 1011
  {
    hide StoreDict, Ascending;
    if keyBits <= 1011 {
      forall d | ValidDict(d, keyBits) ensures StoreDict(d, keyBits).Some? {
        StoreDictSucceeds(d, keyBits);
      }
    } else {
      OneKeyTooWide(keyBits);
    }
  }

  /** Every accepted cell holds each key once, at full width and in ascending order. */
  lemma LoadedDictIsValid(c: Chunk, keyBits: nat)
    requires LoadDict(c, keyBits).Some?
    ensures ValidDict(LoadDict(c, keyBits).value.0, keyBits)
  {
    hide ParseEdge, Leaves;
    if c.bits[0] {
      ParseLists(c.refs[0], keyBits, [], []);
      LeavesAscend(c.refs[0], keyBits, []);
      var d := Leaves(c.refs[0], keyBits, []).value;
      assert [] + d == d;
    }
  }

  /** The part of a `HashmapE` that survives decoding: the empty one, or a canonical tree behind the reference. */
  predicate CanonicalDict(c: Chunk, keyBits: nat) {
    c.bits != [] && (c.bits[0] ==> c.refs != [] && CanonicalEdge(c.refs[0], keyBits))
  }

  /** Re-encoding a decoded dictionary gives back the same bits and reference exactly when they were canonical. */
  lemma ReencodedDict(c: Chunk, keyBits: nat)
    requires LoadDict(c, keyBits).Some?
    ensures var (d, rest) := LoadDict(c, keyBits).value;
      && KeysOfLength(d, keyBits)
      && ((StoreDict(d, keyBits).Some? && StoreDict(d, keyBits).value.Then(rest) == c) <==> CanonicalDict(c, keyBits))
  {
    hide ParseEdge, Leaves, BuildEdge, CanonicalEdge;
    LoadedDictIsValid(c, keyBits);
    var (d, rest) := LoadDict(c, keyBits).value;
    TakenBit(c);
    if c.bits[0] {
      var root: Cell := c.refs[0];
      ParseLists(root, keyBits, [], []);
      LeavesAscend(root, keyBits, []);
      var leaves := Leaves(root, keyBits, []).value;
      assert [] + leaves == leaves == d;
      ReencodedEdge(root, keyBits, []);
      assert c == Chunk([true], [root]).Then(rest);
      assert d != [];
      var built := BuildEdge(d, 0, keyBits);
      assert StoreDict(d, keyBits) == if built.Some? then Some(Chunk([true], [built.value])) else None;
      if built.Some? && built.value != root {
        assert Chunk([true], [built.value]).Then(rest).refs[0] != c.refs[0];
      }
      assert built == Some(root) <==> CanonicalEdge(root, keyBits);
    } else {
      assert d == [];
    }
  }

  /** Reading ignores data after a leaf's reference, so two cells can hold one dictionary. */
  lemma DecodingForgetsLeafPadding()
    ensures var value: Cell := CellTree([], []);
      var plain: Cell := CellTree(ShortLabel([true]), [value]);
      var padded: Cell := CellTree(ShortLabel([true]) + [false], [value]);
      && plain != padded
      && LoadDict(Chunk([true], [plain]), 1) == Some(([Item([true], value)], EMPTY))
      && LoadDict(Chunk([true], [padded]), 1) == Some(([Item([true], value)], EMPTY))
  {
    hide LoadLabel;
    var value: Cell := CellTree([], []);
    var bits := ShortLabel([true]);
    assert |bits| == 4 by {
      ShortLabelSize([true]);
    }
    var plain: Cell := CellTree(bits, [value]);
    var padded: Cell := CellTree(bits + [false], [value]);
    ShortLabelReads([true], 1, OfRef(value));
    ShortLabelReads([true], 1, Chunk([false], [value]));
    assert bits + [] == bits && [] + [value] == [value];
    assert Contents(plain) == OfBits(bits).Then(OfRef(value));
    assert Contents(padded) == OfBits(bits).Then(Chunk([false], [value]));
    assert [] + [Item([true], value)] == [Item([true], value)];
    assert [] + [true] == [true] && [true][1..] == [];
    assert [plain][1..] == [] && [padded][1..] == [];
    assert Leaves(plain, 1, []) == Some([Item([true], value)]);
    assert Leaves(padded, 1, []) == Some([Item([true], value)]);
    ParseLists(plain, 1, [], []);
    ParseLists(padded, 1, [], []);
  }

  lemma ShortLabelSize(bits: seq<bool>)
    ensures |ShortLabel(bits)| == 2 + 2 * |bits|
  {
  }
}
