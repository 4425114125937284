/**
 * The bits of amounts and addresses as block.tlb lays them out (`VarUInteger 16`, `MsgAddress`), spelled out on their
 * own, and the codecs of src/tlb measured against them.
 */
module Wires {
  import opened Addresses
  import opened Bits
  import opened Cells
  import opened PayloadSizes
  import opened TlbCore
  import opened VarUint
  import opened Wrappers

  // ----- Numbers and bytes -----

  /** Bit `i` from the left weighs 2^(width - 1 - i). */
  lemma {:induction false} BitOf(value: nat, width: nat, i: nat)
    requires i < width
    ensures ToBits(value, width)[i] <==> value / Pow2(width - 1 - i) % 2 == 1
  {
    if i < width - 1 {
      BitOf(value / 2, width - 1, i);
      HalfThenDivide(value, Pow2(width - 2 - i));
    }
  }

  lemma HalfThenDivide(value: nat, p: nat)
    requires p > 0
    ensures value / 2 / p == value / (2 * p)
  {
    var q, r := value / (2 * p), value % (2 * p);
    assert value == 2 * (p * q) + r by {
      assert (2 * p) * q == 2 * (p * q);
    }
    assert value / 2 == p * q + r / 2 && r / 2 < p;
    QuotientOf(p * q + r / 2, p, q, r / 2);
  }

  lemma QuotientOf(n: nat, p: nat, q: nat, r: nat)
    requires n == p * q + r && r < p
    ensures n / p == q
  {
    var t := n / p;
    assert n == t * p + n % p;
    if t < q {
      Monotone(t + 1, q, p);
    } else if t > q {
      Monotone(q + 1, t, p);
    }
  }

  lemma Monotone(a: nat, b: nat, p: nat)
    requires a <= b
    ensures a * p <= b * p
  {
  }

  /** The bytes of a number without leading zeros. */
  function ByteLength(n: nat): nat {
    if n == 0 then 0 else 1 + ByteLength(n / 256)
  }

  /** The bits of a byte string are its big-endian value in binary. */
  lemma {:induction false} BytesInBits(bytes: seq<byte>)
    ensures FromBits(BytesToBits(bytes)) == BytesValue(bytes)
    ensures BytesToBits(bytes) == ToBits(BytesValue(bytes), 8 * |bytes|)
  {
    hide ToBits, FromBits, Pow2;
    if bytes != [] {
      var init, last := bytes[..|bytes| - 1], bytes[|bytes| - 1];
      BytesInBits(init);
      FromBitsConcat(BytesToBits(init), ToBits(last, 8));
      Pow2Eight();
      FromToBits(last, 8);
    } else {
      assert FromBits([]) == 0 by {
        NoBits();
      }
    }
    ToFromBits(BytesToBits(bytes));
  }

  lemma NoBits()
    ensures FromBits([]) == 0
  {
  }

  lemma {:induction false} MagnitudeLengthIs(n: nat)
    ensures |MagnitudeBytes(n)| == ByteLength(n)
  {
    if n > 0 {
      MagnitudeLengthIs(n / 256);
    }
  }

  // ----- Amounts -----

  /** A four-bit byte count, then the number in that many bytes. */
  function AmountWire(n: nat): seq<bool> {
    ToBits(ByteLength(n), 4) + ToBits(n, 8 * ByteLength(n))
  }

  /** For any prefix up to 64 bits: the byte count in so many bits, then the number in that many bytes, if it fits. */
  lemma VarUintIsWritten(n: nat, lenBits: nat)
    requires lenBits <= 64
    ensures VarUintLayout(n, lenBits) ==
      if ByteLength(n) < Pow2(lenBits) then Some(OfBits(ToBits(ByteLength(n), lenBits) + ToBits(n, 8 * ByteLength(n))))
      else None
  {
    hide ToBits, BytesToBits, MagnitudeBytes, FromBits, Pow2;
    MagnitudeLengthIs(n);
    MagnitudeRoundTrip(n);
    BytesInBits(MagnitudeBytes(n));
  }

  lemma AmountIsWritten(n: nat)
    ensures GramsCodec().layout(n) == if ByteLength(n) <= 15 then Some(OfBits(AmountWire(n))) else None
  {
    hide ToBits, VarUintLayout;
    VarUintIsWritten(n, 4);
    FourBits();
    assert GramsCodec().layout(n) == VarUintLayout(n, 4);
  }

  // ----- Addresses -----

  /** `nothing$0` or `just$1 depth:(#<= 30) rewrite_pfx:(bits depth)`. */
  function AnycastWire(a: Option<Anycast>): seq<bool> {
    if a == None then [false] else [true] + ToBits(a.value.depth, 5) + a.value.rewritePfx
  }

  /**
   * `addr_none$00`, `addr_extern$01 len:(## 9)`, `addr_std$10 anycast workchain_id:int8 address:bits256` and
   * `addr_var$11 anycast addr_len:(## 9) workchain_id:int32 address:(bits addr_len)`.
   */
  function AddressWire(a: MsgAddress): seq<bool> {
    match a
    case External(Absent) => [false, false]
    case External(Extern(bits, bitLen)) => [false, true] + ToBits(bitLen, 9) + bits
    case Internal(Std(anycast, address)) =>
      [true, false] + AnycastWire(anycast)
      + ToBits(if address.workchain < 0 then 0x100 + address.workchain else address.workchain, 8)
      + BytesToBits(address.hash)
    case Internal(Var(anycast, workchainId, bits, bitLen)) =>
      [true, true] + AnycastWire(anycast) + ToBits(bitLen, 9)
      + ToBits(if workchainId < 0 then 0x1_0000_0000 + workchainId else workchainId, 32) + bits
  }

  lemma RunsOfBits()
    ensures forall a, b :: OfBits(a).Then(OfBits(b)) == OfBits(a + b)
  {
    forall a, b ensures OfBits(a).Then(OfBits(b)) == OfBits(a + b) {
      assert OfBits(a).Then(OfBits(b)).refs == [];
    }
  }

  lemma AnycastIsWritten(a: Option<Anycast>)
    ensures MaybeAnycastLayout(a) == if AnycastOk(a) then Some(OfBits(AnycastWire(a))) else None
  {
    hide ToBits;
    if AnycastOk(a) && a.Some? {
      RunsOfBits();
      var depth, pfx := ToBits(a.value.depth, 5), a.value.rewritePfx;
      assert [true] + (depth + pfx) == [true] + depth + pfx;
    }
  }

  lemma StdIsWritten(anycast: Option<Anycast>, address: Address)
    requires AnycastOk(anycast)
    ensures IntLayout(Std(anycast, address)) == Some(OfBits(AddressWire(Internal(Std(anycast, address)))))
  {
    hide ToBits, BytesToBits, I8Bits, AnycastOk, AnycastWire, MaybeAnycastLayout;
    RunsOfBits();
    AnycastIsWritten(anycast);
    I8InBits(address.workchain);
  }

  lemma VarIsWritten(anycast: Option<Anycast>, workchainId: i32, bits: seq<bool>)
    requires AnycastOk(anycast) && |bits| <= 511
    ensures IntLayout(Var(anycast, workchainId, bits, |bits|))
         == Some(OfBits(AddressWire(Internal(Var(anycast, workchainId, bits, |bits|)))))
  {
    hide ToBits, I32Bits, AnycastOk, AnycastWire, MaybeAnycastLayout;
    RunsOfBits();
    AnycastIsWritten(anycast);
    I32InBits(workchainId);
  }

  /** Each of the four forms is written bit for bit, whenever it is written at all. */
  lemma AddressIsWritten(a: MsgAddress)
    ensures MsgAddressCodec().layout(a) == if AddressOk(a) then Some(OfBits(AddressWire(a))) else None
  {
    hide ToBits, AddressWire, I8Bits, I32Bits, AnycastOk, MaybeAnycastLayout;
    match a
    case Internal(Std(anycast, address)) =>
      AnycastIsWritten(anycast);
      if AnycastOk(anycast) {
        hide IntLayout;
        StdIsWritten(anycast, address);
      }
    case Internal(Var(anycast, workchainId, bits, bitLen)) =>
      AnycastIsWritten(anycast);
      if AnycastOk(anycast) && |bits| == bitLen <= 511 {
        hide IntLayout;
        VarIsWritten(anycast, workchainId, bits);
      }
    case External(e) => ExtIsWritten(e);
  }

  lemma ExtIsWritten(e: MsgAddressExt)
    ensures ExtLayout(e) == if AddressOk(External(e)) then Some(OfBits(AddressWire(External(e)))) else None
  {
    hide ToBits;
    RunsOfBits();
  }

  lemma I8InBits(v: i8)
    ensures I8Bits(v) == ToBits(if v < 0 then 0x100 + v else v, 8)
  {
    Pow2Eight();
  }

  lemma I32InBits(v: i32)
    ensures I32Bits(v) == ToBits(if v < 0 then 0x1_0000_0000 + v else v, 32)
  {
    hide Pow2, ToBits;
    Pow2ThirtyTwo();
  }

  /** An address is read exactly from the bits that spell it, and never with text flags of its own. */
  lemma AddressReadsIff(used: seq<bool>, rest: Chunk, a: MsgAddress)
    ensures MsgAddressLoad(OfBits(used).Then(rest)) == Some((a, rest))
       <==> AddressOk(a) && NormalMsgAddress(a) == a && used == AddressWire(a)
  {
    hide MsgAddressLoad, AddressWire, AddressOk, MsgAddressLayout, NormalMsgAddress;
    AddressIsWritten(a);
    MsgAddressCodecLaws();
    var c := MsgAddressCodec();
    var s := OfBits(used).Then(rest);
    if c.load(s) == Some((a, rest)) {
      assert s.bits == used + rest.bits == AddressWire(a) + rest.bits;
      assert used == s.bits[..|s.bits| - |rest.bits|] == AddressWire(a);
    } else if c.layout(a).Some? {
      assert c.load(c.layout(a).value.Then(rest)) == Some((c.normal(a), rest));
    }
  }
}
