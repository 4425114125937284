/**
 * Edge labels and dictionary trees bit by bit (src/tvm/dict/labels.rs, block.tlb `HmLabel` and `HashmapE`): which bits
 * spell a label, which spelling is written, and which path a key takes.
 */
module LabelForms {
  import opened Bits
  import opened Cells
  import opened Labels
  import opened Dictionary
  import opened SortedMap
  import opened Wrappers

  // ----- The three spellings -----

  /** `hml_short$0`: the length in unary, then the bits. */
  ghost predicate SpelledShort(used: seq<bool>, bits: seq<bool>) {
    exists ones: seq<bool> ::
      && |ones| == |bits| && (forall i :: 0 <= i < |ones| ==> ones[i])
      && used == [false] + ones + [false] + bits
  }

  /** `hml_long$10`: the length as a number of `width` bits, then the bits. */
  ghost predicate SpelledLong(used: seq<bool>, bits: seq<bool>, width: nat) {
    used == [true, false] + ToBits(|bits|, width) + bits
  }

  /** `hml_same$11`: the repeated bit, then the length as a number of `width` bits. */
  ghost predicate SpelledSame(used: seq<bool>, bits: seq<bool>, width: nat) {
    exists bit: bool ::
      (forall i :: 0 <= i < |bits| ==> bits[i] == bit) && used == [true, true, bit] + ToBits(|bits|, width)
  }

  ghost predicate Spells(used: seq<bool>, bits: seq<bool>, width: nat) {
    SpelledShort(used, bits) || SpelledLong(used, bits, width) || SpelledSame(used, bits, width)
  }

  lemma {:induction false} UnaryIsRead(c: Chunk, len: nat, maxLen: nat)
    requires LoadUnary(c, len, maxLen).Some?
    ensures var (n, rest) := LoadUnary(c, len, maxLen).value;
      len <= n && c == OfBits(Repeat(true, n - len) + [false]).Then(rest)
    decreases |c.bits|
  {
    var (bit, next) := TakeBit(c).value;
    TakenBit(c);
    if bit {
      UnaryIsRead(next, len + 1, maxLen);
      var (n, rest) := LoadUnary(c, len, maxLen).value;
      assert Repeat(true, n - len) + [false] == [true] + (Repeat(true, n - len - 1) + [false]);
      assert c.bits == [true] + (Repeat(true, n - len - 1) + [false] + rest.bits);
    } else {
      assert Repeat(true, 0) + [false] == [false];
    }
  }

  lemma ShortIsRead(c: Chunk, maxLen: nat)
    requires LoadLabel(c, maxLen).Some? && !c.bits[0]
    ensures var (bits, rest) := LoadLabel(c, maxLen).value;
      c == OfBits(ShortLabel(bits)).Then(rest)
  {
    hide LoadUnary, LabelLenWidth, FromBits, Pow2, Repeat;
    var (bits, rest) := LoadLabel(c, maxLen).value;
    var (_, afterFirst) := TakeBit(c).value;
    TakenBit(c);
    UnaryIsRead(afterFirst, 0, maxLen);
    var (len, payload) := LoadUnary(afterFirst, 0, maxLen).value;
    TakenBits(payload, len);
    hide LoadLabel;
    Assembled3([false], Repeat(true, len) + [false], bits, rest);
    assert [false] + (Repeat(true, len) + [false]) + bits == ShortLabel(bits);
  }

  lemma LongIsRead(c: Chunk, maxLen: nat)
    requires LoadLabel(c, maxLen).Some? && c.bits[0] && !c.bits[1]
    ensures var (bits, rest) := LoadLabel(c, maxLen).value;
      c == OfBits(LongLabel(bits, maxLen)).Then(rest)
  {
    hide FromBits, ToBits, LabelLenWidth, Pow2, LoadUnary, Repeat, Chunk.Then;
    var (bits, rest) := LoadLabel(c, maxLen).value;
    var width := LabelLenWidth(maxLen);
    var second := TwoBits(c);
    TakenUint(second, width);
    var (len, payload) := TakeUint(second, width).value;
    hide TakeUint;
    TakenBits(payload, len);
    hide LoadLabel, TakeBits;
    Assembled([true, false], ToBits(|bits|, width), bits, rest);
  }

  lemma TwoBits(c: Chunk) returns (rest: Chunk)
    requires |c.bits| >= 2
    ensures c == OfBits([c.bits[0]]).Then(OfBits([c.bits[1]]).Then(rest))
    ensures TakeBit(c).Some? && TakeBit(TakeBit(c).value.1) == Some((c.bits[1], rest))
  {
    rest := Chunk(c.bits[2..], c.refs);
    assert c.bits[1..][1..] == c.bits[2..];
    TakenBit(c);
    TakenBit(TakeBit(c).value.1);
  }

  lemma ThirdBit(c: Chunk, rest: Chunk)
    requires |c.bits| >= 2 && rest.bits != [] && c == OfBits([c.bits[0]]).Then(OfBits([c.bits[1]]).Then(rest))
    ensures |c.bits| > 2 && c.bits[2] == rest.bits[0]
  {
  }

  /** Three runs, one after the other. */
  lemma Assembled3(a: seq<bool>, b: seq<bool>, c: seq<bool>, rest: Chunk)
    ensures OfBits(a).Then(OfBits(b).Then(OfBits(c).Then(rest))) == OfBits(a + b + c).Then(rest)
  {
  }

  /** Two bits and two runs, one after the other. */
  lemma Assembled(two: seq<bool>, a: seq<bool>, b: seq<bool>, rest: Chunk)
    requires |two| == 2
    ensures OfBits([two[0]]).Then(OfBits([two[1]]).Then(OfBits(a).Then(OfBits(b).Then(rest))))
         == OfBits(two + a + b).Then(rest)
  {
    assert two == [two[0], two[1]];
  }

  lemma SameIsRead(c: Chunk, maxLen: nat)
    requires LoadLabel(c, maxLen).Some? && c.bits[0] && c.bits[1]
    ensures var (bits, rest) := LoadLabel(c, maxLen).value;
      && bits == Repeat(c.bits[2], |bits|)
      && c == OfBits([true, true, c.bits[2]] + ToBits(|bits|, LabelLenWidth(maxLen))).Then(rest)
  {
    hide FromBits, ToBits, LabelLenWidth, Pow2, LoadUnary, Chunk.Then;
    var (bits, rest) := LoadLabel(c, maxLen).value;
    var second := TwoBits(c);
    var (bit, afterBit) := TakeBit(second).value;
    TakenBit(second);
    TakenUint(afterBit, LabelLenWidth(maxLen));
    hide TakeUint, LoadLabel;
    Assembled([true, true], [bit], ToBits(|bits|, LabelLenWidth(maxLen)), rest);
    assert [true, true] + [bit] == [true, true, bit];
    assert c.bits[2] == bit by {
      ThirdBit(c, second);
    }
  }

  /** The width of the length field: the fewest bits that hold `maxLen`. */
  ghost predicate FieldWidth(width: nat, maxLen: nat) {
    maxLen < Pow2(width) && forall w :: 0 <= w < width ==> Pow2(w) <= maxLen
  }

  lemma FieldWidthIs(maxLen: nat, width: nat)
    requires FieldWidth(width, maxLen)
    ensures width == LabelLenWidth(maxLen)
  {
    LabelLenWidthBound(maxLen, width);
    assert LabelLenWidth(maxLen) < width ==> Pow2(LabelLenWidth(maxLen)) <= maxLen;
  }

  /** A label is accepted exactly when it is no longer than what is left of the key and spelled in one of three ways. */
  lemma LabelReadsIff(used: seq<bool>, rest: Chunk, bits: seq<bool>, maxLen: nat, width: nat)
    requires FieldWidth(width, maxLen)
    ensures LoadLabel(OfBits(used).Then(rest), maxLen) == Some((bits, rest))
       <==> |bits| <= maxLen && Spells(used, bits, width)
  {
    hide LoadLabel, LoadUnary, ToBits, LabelLenWidth, Pow2, FieldWidth, Spells;
    FieldWidthIs(maxLen, width);
    var c := OfBits(used).Then(rest);
    if LoadLabel(c, maxLen) == Some((bits, rest)) {
      SpellingRead(c, maxLen);
      assert c.bits == used + rest.bits;
      assert c.bits[..|c.bits| - |rest.bits|] == used;
    } else if |bits| <= maxLen && Spells(used, bits, width) {
      SpellingReads(used, rest, bits, maxLen);
      assert false;
    }
  }

  /** What was read had one of the three spellings in front of the rest. */
  lemma SpellingRead(c: Chunk, maxLen: nat)
    requires LoadLabel(c, maxLen).Some?
    ensures var (bits, rest) := LoadLabel(c, maxLen).value;
      && |rest.bits| <= |c.bits| && c == OfBits(c.bits[..|c.bits| - |rest.bits|]).Then(rest)
      && Spells(c.bits[..|c.bits| - |rest.bits|], bits, LabelLenWidth(maxLen))
  {
    var (bits, rest) := LoadLabel(c, maxLen).value;
    SomeBits(c, maxLen);
    hide LoadLabel, ToBits, LabelLenWidth;
    if !c.bits[0] {
      ShortIsRead(c, maxLen);
      assert c.bits[..|c.bits| - |rest.bits|] == ShortLabel(bits);
      assert SpelledShort(ShortLabel(bits), bits) by {
        var ones := Repeat(true, |bits|);
        assert ShortLabel(bits) == [false] + ones + [false] + bits;
      }
    } else if !c.bits[1] {
      LongIsRead(c, maxLen);
      assert c.bits[..|c.bits| - |rest.bits|] == LongLabel(bits, maxLen);
    } else {
      SameIsRead(c, maxLen);
      var bit := c.bits[2];
      var used := [true, true, bit] + ToBits(|bits|, LabelLenWidth(maxLen));
      assert c.bits[..|c.bits| - |rest.bits|] == used;
      assert forall i :: 0 <= i < |bits| ==> bits[i] == bit;
    }
  }

  lemma SomeBits(c: Chunk, maxLen: nat)
    requires LoadLabel(c, maxLen).Some?
    ensures c.bits != [] && (c.bits[0] ==> |c.bits| > 1) && (c.bits[0] && c.bits[1] ==> |c.bits| > 2)
  {
    hide LoadUnary, FromBits, LabelLenWidth;
  }

  lemma SpellingReads(used: seq<bool>, rest: Chunk, bits: seq<bool>, maxLen: nat)
    requires |bits| <= maxLen && Spells(used, bits, LabelLenWidth(maxLen))
    ensures LoadLabel(OfBits(used).Then(rest), maxLen) == Some((bits, rest))
  {
    hide LoadLabel, ToBits, LabelLenWidth;
    if SpelledShort(used, bits) {
      var ones: seq<bool> :|
        && |ones| == |bits| && (forall i :: 0 <= i < |ones| ==> ones[i])
        && used == [false] + ones + [false] + bits;
      assert ones == Repeat(true, |bits|);
      ShortLabelReads(bits, maxLen, rest);
    } else if SpelledLong(used, bits, LabelLenWidth(maxLen)) {
      LongLabelReads(bits, maxLen, rest);
    } else {
      var bit: bool :|
        (forall i :: 0 <= i < |bits| ==> bits[i] == bit)
        && used == [true, true, bit] + ToBits(|bits|, LabelLenWidth(maxLen));
      SameReads(bit, bits, maxLen, rest);
    }
  }

  lemma SameReads(bit: bool, bits: seq<bool>, maxLen: nat, rest: Chunk)
    requires |bits| <= maxLen && forall i :: 0 <= i < |bits| ==> bits[i] == bit
    ensures LoadLabel(OfBits([true, true, bit] + ToBits(|bits|, LabelLenWidth(maxLen))).Then(rest), maxLen)
         == Some((bits, rest))
  {
    hide ToBits, FromBits, Pow2, LoadUnary, LabelLenWidth;
    var width := LabelLenWidth(maxLen);
    var length := OfBits(ToBits(|bits|, width)).Then(rest);
    var third := OfBits([bit]).Then(length);
    var second := OfBits([true]).Then(third);
    Assembled([true, true], [bit], ToBits(|bits|, width), rest);
    assert [true, true] + [bit] == [true, true, bit];
    assert OfBits([true, true, bit] + ToBits(|bits|, width)).Then(rest) == OfBits([true]).Then(second);
    TakeBitThen(true, second);
    TakeBitThen(true, third);
    TakeBitThen(bit, length);
    assert maxLen < Pow2(width);
    TakeUintThen(|bits|, width, rest);
    assert Repeat(bit, |bits|) == bits;
  }

  // ----- The spelling that is written -----

  /** `a` comes before `b` when it is shorter, or as long and lexicographically smaller. */
  predicate Precedes(a: seq<bool>, b: seq<bool>) {
    |a| < |b| || (|a| == |b| && LexLess(a, b))
  }

  /** The written label is accepted, and comes before every other accepted spelling of the same bits. */
  lemma WrittenLabelIsLeast(bits: seq<bool>, maxLen: nat, rest: Chunk, used: seq<bool>)
    requires |bits| <= maxLen && LoadLabel(OfBits(used).Then(rest), maxLen) == Some((bits, rest))
    ensures LoadLabel(OfBits(CanonicalLabel(bits, maxLen)).Then(rest), maxLen) == Some((bits, rest))
    ensures used == CanonicalLabel(bits, maxLen) || Precedes(CanonicalLabel(bits, maxLen), used)
  {
    hide LoadLabel, LexLess, ToBits, LabelLenWidth;
    LabelRoundTrip(bits, maxLen, rest);
    var c := OfBits(used).Then(rest);
    SpellingRead(c, maxLen);
    assert c.bits[..|c.bits| - |rest.bits|] == used;
    var short, long, same := ShortLabel(bits), LongLabel(bits, maxLen), SameLabel(bits, maxLen);
    LexLessTotal(short, long);
    LexLessTotal(short, same);
    LexLessTotal(long, same);
    if SpelledShort(used, bits) {
      assert used == short;
    } else if SpelledLong(used, bits, LabelLenWidth(maxLen)) {
      assert used == long;
    } else if bits != [] {
      assert used == same;
    } else {
      assert |short| == 2 < |used|;
    }
    LeastOfThree(short, long, same);
  }

  lemma LeastOfThree(a: seq<bool>, b: seq<bool>, c: seq<bool>)
    ensures var two, three := Better(a, b), Better(Better(a, b), c);
      && (two == a || Precedes(two, a)) && (two == b || Precedes(two, b))
      && (three == a || Precedes(three, a)) && (three == b || Precedes(three, b)) && (three == c || Precedes(three, c))
  {
    hide LexLess;
    LexLessTotal(a, b);
    LexLessTotal(Better(a, b), c);
    if LexLess(c, a) && LexLess(a, b) {
      LexLessTransitive(c, a, b);
    }
    if LexLess(c, b) && LexLess(b, a) {
      LexLessTransitive(c, b, a);
    }
  }

  // ----- The path of a key -----

  /** Follows a key from an edge: past the label, then to the left for a zero and to the right for a one. */
  function Find(cell: Cell, remaining: nat, key: seq<bool>): Option<Cell>
    decreases cell
  {
    var (tag, rest) :- LoadLabel(Contents(cell), remaining);
    if !(tag <= key) then None
    else if |tag| == remaining then (if rest.refs == [] then None else Some(rest.refs[0]))
    else if |key| <= |tag| || |rest.refs| < 2 then None
    else Find(rest.refs[if key[|tag|] then 1 else 0], remaining - |tag| - 1, key[|tag| + 1..])
  }

  /** The value an ordered map has for a key. */
  function Get(d: Dict, key: seq<bool>): Option<Cell> {
    if d == [] then None else if d[0].key == key then Some(d[0].value) else Get(d[1..], key)
  }

  lemma {:induction false} GetConcat(a: Dict, b: Dict, key: seq<bool>)
    ensures Get(a + b, key) == if Get(a, key).Some? then Get(a, key) else Get(b, key)
  {
    if a == [] {
      assert a + b == b;
    } else {
      assert (a + b)[1..] == a[1..] + b;
      GetConcat(a[1..], b, key);
    }
  }

  /** Putting a value under a key changes the value of that key and of no other. */
  lemma {:induction false} GetOfInsert(d: Dict, key: seq<bool>, value: Cell, other: seq<bool>)
    ensures Get(Insert(d, key, value), other) == if other == key then Some(value) else Get(d, other)
  {
    if d == [] || LexLess(key, d[0].key) || key == d[0].key {
      var r := Insert(d, key, value);
      assert r[0] == Item(key, value);
      assert r[1..] == if d != [] && key == d[0].key && !LexLess(key, d[0].key) then d[1..] else d;
    } else {
      GetOfInsert(d[1..], key, value, other);
      assert Insert(d, key, value)[1..] == Insert(d[1..], key, value);
    }
  }

  lemma {:induction false} GetNone(d: Dict, prefix: seq<bool>, key: seq<bool>)
    requires SharePrefix(d, prefix) && !(prefix <= key)
    ensures Get(d, key) == None
  {
    if d != [] {
      assert forall i :: 0 <= i < |d[1..]| ==> d[1..][i] == d[i + 1];
      GetNone(d[1..], prefix, key);
    }
  }

  /** The entry of a key among the leaves below an edge is the one its bits lead to. */
  lemma {:induction false} FindIsGet(cell: Cell, remaining: nat, prefix: seq<bool>, key: seq<bool>)
    requires Leaves(cell, remaining, prefix).Some? && |key| == remaining
    ensures Find(cell, remaining, key) == Get(Leaves(cell, remaining, prefix).value, prefix + key)
    decreases cell
  {
    hide LoadLabel;
    var (tag, rest) := LoadLabel(Contents(cell), remaining).value;
    var here := prefix + tag;
    if |tag| == remaining {
      LeafFound(cell, remaining, prefix, key);
    } else {
      var below := remaining - |tag| - 1;
      LeavesOfFork(cell, remaining, prefix);
      FindStep(cell, remaining, key);
      hide Leaves, Find, Get, EdgeInput;
      var left := Leaves(rest.refs[0], below, here + [false]).value;
      var right := Leaves(rest.refs[1], below, here + [true]).value;
      LeavesShare(rest.refs[0], below, here + [false]);
      LeavesShare(rest.refs[1], below, here + [true]);
      GetOfSides(left, right, here, prefix + key);
      if tag <= key {
        OnTheLabel(prefix, tag, key);
        FindIsGet(rest.refs[if key[|tag|] then 1 else 0], below, here + [key[|tag|]], key[|tag| + 1..]);
      } else {
        OffTheLabel(prefix, tag, key);
      }
    }
  }

  lemma OnTheLabel(prefix: seq<bool>, tag: seq<bool>, key: seq<bool>)
    requires tag <= key && |tag| < |key|
    ensures prefix + key == prefix + tag + [key[|tag|]] + key[|tag| + 1..]
    ensures prefix + tag <= prefix + key && (prefix + key)[|prefix + tag|] == key[|tag|]
  {
  }

  lemma GetOfSides(left: Dict, right: Dict, here: seq<bool>, key: seq<bool>)
    requires SharePrefix(left, here + [false]) && SharePrefix(right, here + [true]) && |here| < |key|
    ensures Get(left + right, key) ==
      if !(here <= key) then None else if key[|here|] then Get(right, key) else Get(left, key)
  {
    hide Get, SharePrefix;
    GetConcat(left, right, key);
    Sides(left, right, here, key);
  }

  lemma LeavesShare(cell: Cell, remaining: nat, prefix: seq<bool>)
    requires Leaves(cell, remaining, prefix).Some?
    ensures SharePrefix(Leaves(cell, remaining, prefix).value, prefix)
  {
    hide Leaves;
    LeavesAscend(cell, remaining, prefix);
  }

  /** One step down from a fork. */
  lemma FindStep(cell: Cell, remaining: nat, key: seq<bool>)
    requires LoadLabel(Contents(cell), remaining).Some? && |key| == remaining
    requires var (tag, rest) := LoadLabel(Contents(cell), remaining).value;
      |tag| < remaining && |rest.refs| >= 2 && rest.refs == cell.refs
    ensures var (tag, rest) := LoadLabel(Contents(cell), remaining).value;
      Find(cell, remaining, key) ==
        if !(tag <= key) then None
        else Find(rest.refs[if key[|tag|] then 1 else 0], remaining - |tag| - 1, key[|tag| + 1..])
  {
    hide LoadLabel;
  }

  lemma OffTheLabel(prefix: seq<bool>, tag: seq<bool>, key: seq<bool>)
    requires |tag| <= |key| && !(tag <= key)
    ensures !(prefix + tag <= prefix + key)
  {
    var i :| 0 <= i < |tag| && tag[i] != key[i];
    assert (prefix + tag)[|prefix| + i] != (prefix + key)[|prefix| + i];
  }

  lemma LeafFound(cell: Cell, remaining: nat, prefix: seq<bool>, key: seq<bool>)
    requires Leaves(cell, remaining, prefix).Some? && |key| == remaining
    requires |LoadLabel(Contents(cell), remaining).value.0| == remaining
    ensures Find(cell, remaining, key) == Get(Leaves(cell, remaining, prefix).value, prefix + key)
  {
    hide LoadLabel;
    var (tag, rest) := LoadLabel(Contents(cell), remaining).value;
    if tag <= key {
      assert tag == key;
    } else {
      OffTheLabel(prefix, tag, key);
    }
    assert Get([], prefix + key) == None;
  }

  lemma Sides(left: Dict, right: Dict, here: seq<bool>, key: seq<bool>)
    requires SharePrefix(left, here + [false]) && SharePrefix(right, here + [true]) && |here| < |key|
    ensures !(here <= key) ==> Get(left, key) == None && Get(right, key) == None
    ensures here <= key && key[|here|] ==> Get(left, key) == None
    ensures here <= key && !key[|here|] ==> Get(right, key) == None
  {
    if !(here + [false] <= key) {
      GetNone(left, here + [false], key);
    }
    if !(here + [true] <= key) {
      GetNone(right, here + [true], key);
    }
    if here + [false] <= key {
      assert key[|here|] == (here + [false])[|here|];
    }
    if here + [true] <= key {
      assert key[|here|] == (here + [true])[|here|];
    }
  }

  /**
   * A presence bit of zero is the empty dictionary; after a one, the entry of every key is the value its bits lead to
   * from the referenced root.
   */
  lemma DictFinds(c: Chunk, keyBits: nat, key: seq<bool>)
    requires LoadDict(c, keyBits).Some? && |key| == keyBits
    ensures var (d, rest) := LoadDict(c, keyBits).value;
      && c.bits == [c.bits[0]] + rest.bits
      && (if c.bits[0] then c.refs == [c.refs[0]] + rest.refs && Get(d, key) == Find(c.refs[0], keyBits, key)
          else d == [] && c.refs == rest.refs)
  {
    hide ParseEdge, Leaves, Find, Get;
    if c.bits[0] {
      var root: Cell := c.refs[0];
      ParseLists(root, keyBits, [], []);
      var leaves := Leaves(root, keyBits, []).value;
      assert [] + leaves == leaves;
      FindIsGet(root, keyBits, [], key);
      assert [] + key == key;
    }
  }

  /** The same for a dictionary as it is written. */
  lemma WrittenDictFinds(d: Dict, keyBits: nat, key: seq<bool>)
    requires ValidDict(d, keyBits) && StoreDict(d, keyBits).Some? && |key| == keyBits
    ensures var c := StoreDict(d, keyBits).value;
      if d == [] then c == Chunk([false], [])
      else c.bits == [true] && |c.refs| == 1 && Find(c.refs[0], keyBits, key) == Get(d, key)
  {
    hide BuildEdge, LoadDict, Find, Get;
    DictRoundTrip(d, keyBits, EMPTY);
    var c := StoreDict(d, keyBits).value;
    ThenEmpty(c);
    DictFinds(c, keyBits, key);
  }
}
