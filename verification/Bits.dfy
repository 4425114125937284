/** Bit strings (most significant bit first), the integers they denote, and byte strings. */
module Bits {

  type byte = x: int | 0 <= x < 256

  function Pow2(n: nat): (r: nat)
    ensures r >= 1
  {
    if n == 0 then 1 else 2 * Pow2(n - 1)
  }

  lemma DoubleProduct(a: nat, b: nat)
    ensures (2 * a) * b == 2 * (a * b) && b * (2 * a) == 2 * (b * a)
  {
  }

  lemma {:induction false} Pow2Add(m: nat, n: nat)
    ensures Pow2(m + n) == Pow2(m) * Pow2(n)
  {
    if m > 0 {
      var a, b := Pow2(m - 1), Pow2(n);
      Pow2Add(m - 1, n);
      assert Pow2(m) == 2 * a && Pow2(m + n) == 2 * Pow2(m - 1 + n);
      DoubleProduct(a, b);
    }
  }

  lemma {:induction false} Pow2Monotone(m: nat, n: nat)
    requires m <= n
    ensures Pow2(m) <= Pow2(n)
  {
    if m < n {
      Pow2Monotone(m, n - 1);
    }
  }

  /** The bits of `value`, padded to `width`; the high bits are cut off when it does not fit. */
  function ToBits(value: nat, width: nat): (bs: seq<bool>)
    ensures |bs| == width
  {
    if width == 0 then [] else ToBits(value / 2, width - 1) + [value % 2 == 1]
  }

  function FromBits(bs: seq<bool>): nat {
    if bs == [] then 0
    else 2 * FromBits(bs[..|bs| - 1]) + if bs[|bs| - 1] then 1 else 0
  }

  lemma {:induction false} FromBitsBound(bs: seq<bool>)
    ensures FromBits(bs) < Pow2(|bs|)
  {
    if bs != [] {
      FromBitsBound(bs[..|bs| - 1]);
    }
  }

  lemma {:induction false} FromToBits(value: nat, width: nat)
    requires value < Pow2(width)
    ensures FromBits(ToBits(value, width)) == value
  {
    if width > 0 {
      FromToBits(value / 2, width - 1);
      var bs := ToBits(value, width);
      assert bs[..|bs| - 1] == ToBits(value / 2, width - 1);
    }
  }

  lemma {:induction false} ToFromBits(bs: seq<bool>)
    ensures ToBits(FromBits(bs), |bs|) == bs
  {
    if bs != [] {
      var init := bs[..|bs| - 1];
      ToFromBits(init);
      assert FromBits(bs) / 2 == FromBits(init);
      assert bs == init + [bs[|bs| - 1]];
    }
  }

  lemma FromBitsSnoc(init: seq<bool>, last: bool)
    ensures FromBits(init + [last]) == 2 * FromBits(init) + if last then 1 else 0
  {
    assert (init + [last])[..|init|] == init;
  }

  lemma {:induction false} FromBitsConcat(a: seq<bool>, b: seq<bool>)
    ensures FromBits(a + b) == FromBits(a) * Pow2(|b|) + FromBits(b)
  {
    if b == [] {
      assert a + b == a;
    } else {
      var init := b[..|b| - 1];
      FromBitsConcat(a, init);
      FromBitsSnoc(a + init, b[|b| - 1]);
      FromBitsSnoc(init, b[|b| - 1]);
      assert a + b == (a + init) + [b[|b| - 1]] && b == init + [b[|b| - 1]];
      assert Pow2(|b|) == 2 * Pow2(|init|);
      hide FromBits, Pow2;
      DoubleProduct(Pow2(|init|), FromBits(a));
    }
  }

  // ----- Two's complement -----

  /** The range of a signed integer of `width` bits; only zero fits in none. */
  predicate SignedFits(value: int, width: nat) {
    if width == 0 then value == 0 else -(Pow2(width - 1) as int) <= value < Pow2(width - 1)
  }

  predicate UnsignedFits(value: nat, width: nat) {
    value < Pow2(width)
  }

  function SignedBits(value: int, width: nat): (bs: seq<bool>)
    requires SignedFits(value, width)
    ensures |bs| == width
  {
    ToBits(if value < 0 then Pow2(width) + value else value, width)
  }

  function SignedValue(bs: seq<bool>): int {
    if bs != [] && FromBits(bs) >= Pow2(|bs| - 1) then FromBits(bs) - Pow2(|bs|) else FromBits(bs)
  }

  lemma SignedRoundTrip(value: int, width: nat)
    requires SignedFits(value, width)
    ensures SignedValue(SignedBits(value, width)) == value
  {
    FromToBits(if value < 0 then Pow2(width) + value else value, width);
  }

  lemma SignedValueFits(bs: seq<bool>)
    ensures SignedFits(SignedValue(bs), |bs|)
    ensures SignedBits(SignedValue(bs), |bs|) == bs
  {
    FromBitsBound(bs);
    ToFromBits(bs);
  }

  // ----- The order of equal-length bit strings -----

  /** Lexicographic order, false before true. */
  predicate LexLess(a: seq<bool>, b: seq<bool>) {
    if b == [] then false
    else if a == [] then true
    else if a[0] == b[0] then LexLess(a[1..], b[1..])
    else !a[0]
  }

  lemma {:induction false} FromBitsHead(bs: seq<bool>)
    requires bs != []
    ensures FromBits(bs) == (if bs[0] then Pow2(|bs| - 1) else 0) + FromBits(bs[1..])
  {
    FromBitsConcat(bs[..1], bs[1..]);
    assert bs[..1] + bs[1..] == bs;
    assert bs[..1][..0] == [];
    assert FromBits(bs[..1]) == if bs[0] then 1 else 0;
  }

  /** Dictionary key order is the order of the unsigned integers the keys denote. */
  lemma {:induction false} LexLessIsNumeric(a: seq<bool>, b: seq<bool>)
    requires |a| == |b|
    ensures LexLess(a, b) <==> FromBits(a) < FromBits(b)
  {
    if a != [] {
      FromBitsHead(a);
      FromBitsHead(b);
      FromBitsBound(a[1..]);
      FromBitsBound(b[1..]);
      LexLessIsNumeric(a[1..], b[1..]);
    }
  }

  lemma {:induction false} LexLessTotal(a: seq<bool>, b: seq<bool>)
    ensures LexLess(a, b) || LexLess(b, a) || a == b
    ensures !(LexLess(a, b) && LexLess(b, a))
    ensures !LexLess(a, a)
  {
    if a != [] && b != [] {
      LexLessTotal(a[1..], b[1..]);
      assert a == [a[0]] + a[1..] && b == [b[0]] + b[1..];
    } else if a != [] {
      LexLessTotal(a[1..], []);
    }
    if a != [] {
      LexLessTotal(a[1..], a[1..]);
    }
  }

  lemma {:induction false} LexLessTransitive(a: seq<bool>, b: seq<bool>, c: seq<bool>)
    requires LexLess(a, b) && LexLess(b, c)
    ensures LexLess(a, c)
  {
    if a != [] && b != [] && c != [] && a[0] == b[0] && b[0] == c[0] {
      LexLessTransitive(a[1..], b[1..], c[1..]);
    }
  }

  // ----- Bytes -----

  function BytesToBits(bytes: seq<byte>): (bs: seq<bool>)
    ensures |bs| == 8 * |bytes|
  {
    if bytes == [] then [] else BytesToBits(bytes[..|bytes| - 1]) + ToBits(bytes[|bytes| - 1], 8)
  }

  function BitsToBytes(bs: seq<bool>): (bytes: seq<byte>)
    requires |bs| % 8 == 0
    ensures |bytes| == |bs| / 8
    decreases |bs|
  {
    if bs == [] then []
    else
      FromBitsBound(bs[|bs| - 8..]);
      assert Pow2(8) == 256;
      BitsToBytes(bs[..|bs| - 8]) + [FromBits(bs[|bs| - 8..])]
  }

  lemma Pow2Eight()
    ensures Pow2(8) == 256
  {
  }

  lemma Pow2ThirtyTwo()
    ensures Pow2(32) == 0x1_0000_0000
  {
    hide Pow2;
    Pow2Eight();
    Pow2Add(8, 8);
    Pow2Add(16, 16);
  }

  lemma BytesToBitsSnoc(bytes: seq<byte>, last: byte)
    ensures BytesToBits(bytes + [last]) == BytesToBits(bytes) + ToBits(last, 8)
  {
    hide ToBits;
    assert (bytes + [last])[..|bytes|] == bytes;
  }

  lemma BitsToBytesSnoc(init: seq<bool>, last: byte)
    requires |init| % 8 == 0
    ensures BitsToBytes(init + ToBits(last, 8)) == BitsToBytes(init) + [last]
  {
    var bs := init + ToBits(last, 8);
    Pow2Eight();
    FromToBits(last, 8);
    hide FromBits, ToBits, Pow2;
    assert bs[..|bs| - 8] == init && bs[|bs| - 8..] == ToBits(last, 8);
  }

  lemma NoBitsNoBytes()
    ensures BitsToBytes([]) == []
  {
  }

  lemma {:induction false} BytesRoundTrip(bytes: seq<byte>)
    ensures BitsToBytes(BytesToBits(bytes)) == bytes
  {
    hide BitsToBytes, ToBits, FromBits, Pow2;
    if bytes == [] {
      NoBitsNoBytes();
    } else {
      var init, last := bytes[..|bytes| - 1], bytes[|bytes| - 1];
      BytesRoundTrip(init);
      BitsToBytesSnoc(BytesToBits(init), last);
      assert bytes == init + [last];
    }
  }

  lemma {:induction false} BitsRoundTrip(bs: seq<bool>)
    requires |bs| % 8 == 0
    ensures BytesToBits(BitsToBytes(bs)) == bs
    decreases |bs|
  {
    hide FromBits, ToBits, Pow2;
    if bs != [] {
      var init := bs[..|bs| - 8];
      var last := bs[|bs| - 8..];
      BitsRoundTrip(init);
      ToFromBits(last);
      var bytes, lastByte := BitsToBytes(init), FromBits(last);
      FromBitsBound(last);
      Pow2Eight();
      BytesToBitsSnoc(bytes, lastByte);
      assert BitsToBytes(bs) == bytes + [lastByte];
      assert bs == init + last;
    }
  }

  lemma {:induction false} BytesToBitsConcat(a: seq<byte>, b: seq<byte>)
    ensures BytesToBits(a + b) == BytesToBits(a) + BytesToBits(b)
  {
    if b == [] {
      assert a + b == a;
    } else {
      var init := b[..|b| - 1];
      assert (a + b)[..|a + b| - 1] == a + init;
      BytesToBitsConcat(a, init);
    }
  }

  // ----- Big-endian magnitudes -----

  /** The shortest big-endian byte string of a number; zero is the empty string. */
  function MagnitudeBytes(n: nat): (bytes: seq<byte>) {
    if n == 0 then [] else MagnitudeBytes(n / 256) + [n % 256]
  }

  function BytesValue(bytes: seq<byte>): nat {
    if bytes == [] then 0 else 256 * BytesValue(bytes[..|bytes| - 1]) + bytes[|bytes| - 1]
  }

  lemma {:induction false} MagnitudeRoundTrip(n: nat)
    ensures BytesValue(MagnitudeBytes(n)) == n
    ensures n > 0 ==> MagnitudeBytes(n) != [] && MagnitudeBytes(n)[0] != 0
  {
    if n > 0 {
      MagnitudeRoundTrip(n / 256);
      var m := MagnitudeBytes(n);
      assert m[..|m| - 1] == MagnitudeBytes(n / 256);
    }
  }

  /** A byte string without a leading zero is the shortest spelling of its value. */
  lemma {:induction false} CanonicalMagnitude(bytes: seq<byte>)
    requires bytes != [] ==> bytes[0] != 0
    ensures MagnitudeBytes(BytesValue(bytes)) == bytes
    ensures bytes != [] ==> BytesValue(bytes) > 0
  {
    if bytes != [] {
      var init := bytes[..|bytes| - 1];
      CanonicalMagnitude(init);
      assert bytes == init + [bytes[|bytes| - 1]];
      assert BytesValue(bytes) / 256 == BytesValue(init);
    }
  }

  lemma {:induction false} MagnitudeLength(n: nat, k: nat)
    ensures |MagnitudeBytes(n)| <= k <==> n < Pow2(8 * k)
  {
    if k == 0 {
      assert n > 0 ==> |MagnitudeBytes(n)| > 0;
    } else if n > 0 {
      MagnitudeLength(n / 256, k - 1);
      Pow2Add(8, 8 * (k - 1));
      assert Pow2(8) == 256;
      assert Pow2(8 * k) == 256 * Pow2(8 * (k - 1));
      assert n / 256 < Pow2(8 * (k - 1)) <==> n < 256 * Pow2(8 * (k - 1));
    }
  }
}
