/** Edge labels of a dictionary tree, in their three spellings (src/tvm/dict/labels.rs). */
module Labels {
  import opened Bits
  import opened Cells
  import opened Wrappers

  function LabelLenWidth(maxLen: nat): (width: nat)
    ensures maxLen < Pow2(width)
    ensures width > 0 ==> Pow2(width - 1) <= maxLen
  {
    if maxLen == 0 then 0 else LabelLenWidth(maxLen / 2) + 1
  }

  predicate AllAre(bits: seq<bool>, bit: bool) {
    forall i :: 0 <= i < |bits| ==> bits[i] == bit
  }

  function Repeat(bit: bool, n: nat): (bits: seq<bool>)
    ensures |bits| == n && AllAre(bits, bit)
  {
    seq(n, i => bit)
  }

  function ShortLabel(bits: seq<bool>): seq<bool> {
    [false] + Repeat(true, |bits|) + [false] + bits
  }

  function LongLabel(bits: seq<bool>, maxLen: nat): seq<bool> {
    [true, false] + ToBits(|bits|, LabelLenWidth(maxLen)) + bits
  }

  function SameLabel(bits: seq<bool>, maxLen: nat): seq<bool> {
    [true, true, bits != [] && bits[0]] + ToBits(|bits|, LabelLenWidth(maxLen))
  }

  /** Shorter first, then lexicographic. */
  function Better(a: seq<bool>, b: seq<bool>): seq<bool> {
    if |b| < |a| || (|b| == |a| && LexLess(b, a)) then b else a
  }

  function CanonicalLabel(bits: seq<bool>, maxLen: nat): seq<bool> {
    var best := Better(ShortLabel(bits), LongLabel(bits, maxLen));
    if AllAre(bits, false) || AllAre(bits, true) then Better(best, SameLabel(bits, maxLen)) else best
  }

  /** Counts one bits up to the first zero bit, giving up above `maxLen`. */
  function LoadUnary(c: Chunk, len: nat, maxLen: nat): (r: Option<(nat, Chunk)>)
    ensures r.Some? ==> r.value.1.refs == c.refs && (len <= maxLen ==> r.value.0 <= maxLen)
    ensures r.Some? ==> len <= r.value.0 && |c.bits| == |r.value.1.bits| + r.value.0 - len + 1
    decreases |c.bits|
  {
    var (bit, rest) :- TakeBit(c);
    if !bit then Some((len, rest))
    else if len + 1 > maxLen then None
    else LoadUnary(rest, len + 1, maxLen)
  }

  function LoadLabel(c: Chunk, maxLen: nat): (r: Option<(seq<bool>, Chunk)>)
    ensures r.Some? ==> |r.value.0| <= maxLen && r.value.1.refs == c.refs
  {
    var (first, afterFirst) :- TakeBit(c);
    if !first then
      var (len, rest) :- LoadUnary(afterFirst, 0, maxLen);
      TakeBits(rest, len)
    else
      var (second, afterSecond) :- TakeBit(afterFirst);
      var width := LabelLenWidth(maxLen);
      if !second then
        var (len, rest) :- TakeUint(afterSecond, width);
        if len > maxLen then None else TakeBits(rest, len)
      else
        var (value, afterValue) :- TakeBit(afterSecond);
        var (len, rest) :- TakeUint(afterValue, width);
        if len > maxLen then None else Some((Repeat(value, len), rest))
  }

  // ----- The length field's width, computed by the loop of the source -----

  method ComputeLabelLenWidth(maxLen: nat) returns (width: nat)
    ensures width == LabelLenWidth(maxLen)
  {
    width := 0;
    var value := maxLen;
    while value > 0
      invariant width + LabelLenWidth(value) == LabelLenWidth(maxLen)
    {
      width := width + 1;
      value := value / 2;
    }
  }

  /** The unary loop, on a slice. */
  method ReadUnary(s: Slice, maxLen: nat) returns (r: Option<nat>)
    requires s.Valid()
    modifies s
    ensures s.Valid()
    ensures match LoadUnary(old(s.View()), 0, maxLen)
      case None => r == None
      case Some((len, rest)) => r == Some(len) && s.View() == rest
  {
    var len := 0;
    while true
      invariant s.Valid()
      invariant LoadUnary(s.View(), len, maxLen) == LoadUnary(old(s.View()), 0, maxLen)
      decreases |s.View().bits|
    {
      var bit := s.LoadBit();
      if bit == None {
        return None;
      }
      if !bit.value {
        return Some(len);
      }
      len := len + 1;
      if len > maxLen {
        return None;
      }
    }
  }

  // ----- Reading back -----

  lemma {:induction false} UnaryThen(n: nat, len: nat, maxLen: nat, rest: Chunk)
    requires len + n <= maxLen
    ensures LoadUnary(OfBits(Repeat(true, n) + [false]).Then(rest), len, maxLen) == Some((len + n, rest))
    decreases n
  {
    if n == 0 {
      assert Repeat(true, 0) + [false] == [false];
      TakeBitThen(false, rest);
    } else {
      var tail := OfBits(Repeat(true, n - 1) + [false]).Then(rest);
      assert OfBits(Repeat(true, n) + [false]).Then(rest) == OfBits([true]).Then(tail) by {
        assert Repeat(true, n) + [false] == [true] + (Repeat(true, n - 1) + [false]);
      }
      TakeBitThen(true, tail);
      UnaryThen(n - 1, len + 1, maxLen, rest);
    }
  }

  lemma ShortLabelReads(bits: seq<bool>, maxLen: nat, rest: Chunk)
    requires |bits| <= maxLen
    ensures LoadLabel(OfBits(ShortLabel(bits)).Then(rest), maxLen) == Some((bits, rest))
  {
    var payload := OfBits(bits).Then(rest);
    var unary := OfBits(Repeat(true, |bits|) + [false]).Then(payload);
    assert OfBits(ShortLabel(bits)).Then(rest) == OfBits([false]).Then(unary);
    TakeBitThen(false, unary);
    UnaryThen(|bits|, 0, maxLen, payload);
    TakeBitsThen(bits, rest);
  }

  lemma LongLabelReads(bits: seq<bool>, maxLen: nat, rest: Chunk)
    requires |bits| <= maxLen
    ensures LoadLabel(OfBits(LongLabel(bits, maxLen)).Then(rest), maxLen) == Some((bits, rest))
  {
    var width := LabelLenWidth(maxLen);
    var payload := OfBits(bits).Then(rest);
    var length := OfBits(ToBits(|bits|, width)).Then(payload);
    var second := OfBits([false]).Then(length);
    assert OfBits(LongLabel(bits, maxLen)).Then(rest) == OfBits([true]).Then(second);
    TakeBitThen(true, second);
    TakeBitThen(false, length);
    TakeUintThen(|bits|, width, payload);
    TakeBitsThen(bits, rest);
  }

  lemma RepeatIs(bits: seq<bool>)
    requires AllAre(bits, false) || AllAre(bits, true)
    ensures Repeat(bits != [] && bits[0], |bits|) == bits
  {
  }

  lemma SameLabelIs(bits: seq<bool>, maxLen: nat, rest: Chunk)
    ensures OfBits(SameLabel(bits, maxLen)).Then(rest) ==
      OfBits([true]).Then(OfBits([true]).Then(OfBits([bits != [] && bits[0]]).Then(
        OfBits(ToBits(|bits|, LabelLenWidth(maxLen))).Then(rest))))
  {
    hide ToBits, LabelLenWidth;
  }

  lemma SameLabelReads(bits: seq<bool>, maxLen: nat, rest: Chunk)
    requires |bits| <= maxLen
    requires AllAre(bits, false) || AllAre(bits, true)
    ensures LoadLabel(OfBits(SameLabel(bits, maxLen)).Then(rest), maxLen) == Some((bits, rest))
  {
    hide ToBits, FromBits, Pow2, SameLabel, AllAre, Repeat;
    var width := LabelLenWidth(maxLen);
    var value := bits != [] && bits[0];
    var length := OfBits(ToBits(|bits|, width)).Then(rest);
    var third := OfBits([value]).Then(length);
    var second := OfBits([true]).Then(third);
    SameLabelIs(bits, maxLen, rest);
    TakeBitThen(true, second);
    TakeBitThen(true, third);
    TakeBitThen(value, length);
    TakeUintThen(|bits|, width, rest);
    RepeatIs(bits);
  }

  lemma LabelRoundTrip(bits: seq<bool>, maxLen: nat, rest: Chunk)
    requires |bits| <= maxLen
    ensures LoadLabel(OfBits(CanonicalLabel(bits, maxLen)).Then(rest), maxLen) == Some((bits, rest))
  {
    ShortLabelReads(bits, maxLen, rest);
    LongLabelReads(bits, maxLen, rest);
    if AllAre(bits, false) || AllAre(bits, true) {
      SameLabelReads(bits, maxLen, rest);
    }
  }

  /** No accepted spelling of a label is shorter than the canonical one. */
  lemma CanonicalLabelIsShortest(c: Chunk, maxLen: nat)
    requires LoadLabel(c, maxLen).Some?
    ensures var (bits, rest) := LoadLabel(c, maxLen).value;
      |CanonicalLabel(bits, maxLen)| <= |c.bits| - |rest.bits|
  {
    hide FromBits, ToBits, Pow2, LexLess, LoadUnary, LabelLenWidth;
    var (bits, rest) := LoadLabel(c, maxLen).value;
    if !c.bits[0] {
      assert |c.bits| - |rest.bits| == |ShortLabel(bits)|;
    } else if !c.bits[1] {
      assert |c.bits| - |rest.bits| == |LongLabel(bits, maxLen)|;
    } else {
      assert |c.bits| - |rest.bits| == |SameLabel(bits, maxLen)|;
    }
  }

  lemma {:induction false} LabelLenWidthBound(maxLen: nat, width: nat)
    requires maxLen < Pow2(width)
    ensures LabelLenWidth(maxLen) <= width
  {
    if maxLen > 0 {
      LabelLenWidthBound(maxLen / 2, width - 1);
    }
  }

  /** For keys of at most 1011 bits every label leaves the cell within its 1023 bits. */
  lemma CanonicalLabelFits(bits: seq<bool>, maxLen: nat)
    requires |bits| <= maxLen <= 1011
    ensures |CanonicalLabel(bits, maxLen)| <= MAX_CELL_BITS
  {
    assert Pow2(10) == 1024;
    LabelLenWidthBound(maxLen, 10);
    assert |LongLabel(bits, maxLen)| == 2 + LabelLenWidth(maxLen) + |bits|;
  }

  /** At 1012 bits exactly the labels fit that are shorter or of a single bit value. */
  lemma CanonicalLabelAt1012(bits: seq<bool>)
    requires |bits| <= 1012
    ensures |CanonicalLabel(bits, 1012)| <= MAX_CELL_BITS <==>
      |bits| < 1012 || AllAre(bits, false) || AllAre(bits, true)
  {
    hide LexLess, ToBits, AllAre, LabelLenWidth, Pow2;
    WidthAt1012();
    assert |ShortLabel(bits)| == 2 + 2 * |bits|;
    assert |LongLabel(bits, 1012)| == 12 + |bits|;
    assert |SameLabel(bits, 1012)| == 13;
  }

  lemma WidthAt1012()
    ensures LabelLenWidth(1012) == 10
  {
    hide LabelLenWidth;
    assert Pow2(10) == 1024;
    LabelLenWidthBound(1012, 10);
    WidthFrom1012(1012);
  }

  /** A label over the whole of a key of more than 1011 bits with both bit values in it fits no cell. */
  lemma MixedLabelTooWide(bits: seq<bool>)
    requires |bits| > 1011 && bits[0] && !bits[1]
    ensures |CanonicalLabel(bits, |bits|)| > MAX_CELL_BITS
  {
    hide LexLess, ToBits, LabelLenWidth, Pow2;
    WidthFrom1012(|bits|);
    assert |ShortLabel(bits)| == 2 + 2 * |bits|;
    assert |LongLabel(bits, |bits|)| == 2 + LabelLenWidth(|bits|) + |bits|;
  }

  lemma WidthFrom1012(maxLen: nat)
    requires maxLen >= 1012
    ensures LabelLenWidth(maxLen) >= 10
  {
    hide LabelLenWidth;
    assert Pow2(9) == 512;
    if LabelLenWidth(maxLen) < 10 {
      Pow2Monotone(LabelLenWidth(maxLen), 9);
      assert false;
    }
  }
}
