/** Address codecs as builder writes and slice reads, proved against their layouts (src/tlb/message/address.rs). */
module AddressMethods {
  import opened Addresses
  import opened Bits
  import opened Cells
  import opened TlbCore
  import opened Wrappers

  // ----- Sequences of writes -----

  /** What a store from `before` to `after` promises: success exactly when the layout exists and fits. */
  ghost predicate Stored(before: Chunk, layout: Option<Chunk>, ok: bool, after: Chunk) {
    && (ok <==> layout.Some? && before.Then(layout.value).Fits())
    && (ok ==> after == before.Then(layout.value))
  }

  lemma StoredBoth(before: Chunk, x: Option<Chunk>, middle: Chunk, y: Option<Chunk>, ok: bool, after: Chunk)
    requires Stored(before, x, true, middle) && Stored(middle, y, ok, after)
    ensures Stored(before, Both(x, y), ok, after)
  {
    if y.Some? {
      ThenAssociates(before, x.value, y.value);
    }
  }

  // ----- Storing -----

  method StoreMaybeAnycast(b: Builder, a: Option<Anycast>) returns (ok: bool)
    requires b.Valid()
    modifies b
    ensures b.Valid() && Stored(old(b.View()), MaybeAnycastLayout(a), ok, b.View())
  {
    hide ToBits, Pow2;
    ghost var before := b.View();
    match a {
      case None =>
        ok := b.StoreBit(false);
      case Some(anycast) =>
        ok := b.StoreBit(true);
        if !ok {
          return;
        }
        if |anycast.rewritePfx| != anycast.depth || !(1 <= anycast.depth <= 30) {
          return false;
        }
        Pow2Nine();
        ThenAssociates(before, OfBits([true]), AnycastLayout(anycast).value);
        ThenAssociates(b.View(), OfBits(ToBits(anycast.depth, 5)), OfBits(anycast.rewritePfx));
        ok := b.StoreUint(anycast.depth, 5);
        if !ok {
          return;
        }
        ok := b.StoreBits(anycast.rewritePfx);
    }
  }

  method StoreMsgAddressInt(b: Builder, a: MsgAddressInt) returns (ok: bool)
    requires b.Valid()
    modifies b
    ensures b.Valid() && Stored(old(b.View()), IntLayout(a), ok, b.View())
  {
    hide ToBits, I8Bits, I32Bits, BytesToBits, MaybeAnycastLayout, SignedBits, Pow2;
    ghost var before := b.View();
    match a {
      case Std(anycast, address) =>
        ghost var l1 := Some(OfBits([true, false]));
        ghost var l2 := Both(l1, MaybeAnycastLayout(anycast));
        ghost var l3 := Both(l2, Some(OfBits(I8Bits(address.workchain))));
        assert IntLayout(a) == Both(l3, Some(OfBits(BytesToBits(address.hash))));
        assert TagBits("10") == [true, false] && ValidTag("10");
        ok := StoreTag(b, "10");
        if !ok {
          return;
        }
        ghost var m1 := b.View();
        ok := StoreMaybeAnycast(b, anycast);
        StoredBoth(before, l1, m1, MaybeAnycastLayout(anycast), ok, b.View());
        if !ok {
          return;
        }
        ghost var m2 := b.View();
        Pow2Seven();
        I8BitsAre(address.workchain);
        ok := b.StoreInt(address.workchain, 8);
        StoredBoth(before, l2, m2, Some(OfBits(I8Bits(address.workchain))), ok, b.View());
        if !ok {
          return;
        }
        ghost var m3 := b.View();
        ok := b.StoreBytes(address.hash);
        StoredBoth(before, l3, m3, Some(OfBits(BytesToBits(address.hash))), ok, b.View());
      case Var(anycast, workchainId, bits, bitLen) =>
        if |bits| != bitLen || bitLen > 511 {
          return false;
        }
        ghost var l1 := Some(OfBits([true, true]));
        ghost var l2 := Both(l1, MaybeAnycastLayout(anycast));
        ghost var l3 := Both(l2, Some(OfBits(ToBits(bitLen, 9))));
        ghost var l4 := Both(l3, Some(OfBits(I32Bits(workchainId))));
        assert IntLayout(a) == Both(l4, Some(OfBits(bits)));
        assert TagBits("11") == [true, true] && ValidTag("11");
        ok := StoreTag(b, "11");
        if !ok {
          return;
        }
        ghost var m1 := b.View();
        ok := StoreMaybeAnycast(b, anycast);
        StoredBoth(before, l1, m1, MaybeAnycastLayout(anycast), ok, b.View());
        if !ok {
          return;
        }
        ghost var m2 := b.View();
        Pow2Nine();
        ok := b.StoreUint(bitLen, 9);
        StoredBoth(before, l2, m2, Some(OfBits(ToBits(bitLen, 9))), ok, b.View());
        if !ok {
          return;
        }
        ghost var m3 := b.View();
        Pow2ThirtyOne();
        I32BitsAre(workchainId);
        ok := b.StoreInt(workchainId, 32);
        StoredBoth(before, l3, m3, Some(OfBits(I32Bits(workchainId))), ok, b.View());
        if !ok {
          return;
        }
        ghost var m4 := b.View();
        ok := b.StoreBits(bits);
        StoredBoth(before, l4, m4, Some(OfBits(bits)), ok, b.View());
    }
  }

  lemma I8BitsAre(v: i8)
    ensures SignedFits(v, 8) && I8Bits(v) == SignedBits(v, 8)
  {
    Pow2Seven();
  }

  lemma I32BitsAre(v: i32)
    ensures SignedFits(v, 32) && I32Bits(v) == SignedBits(v, 32)
  {
    Pow2ThirtyOne();
  }

  method StoreMsgAddressExt(b: Builder, a: MsgAddressExt) returns (ok: bool)
    requires b.Valid()
    modifies b
    ensures b.Valid() && Stored(old(b.View()), ExtLayout(a), ok, b.View())
  {
    hide ToBits, Pow2;
    ghost var before := b.View();
    match a {
      case Absent =>
        assert TagBits("00") == [false, false] && ValidTag("00");
        ok := StoreTag(b, "00");
      case Extern(bits, bitLen) =>
        if |bits| != bitLen || bitLen > 511 {
          return false;
        }
        ghost var l1 := Some(OfBits([false, true]));
        ghost var l2 := Both(l1, Some(OfBits(ToBits(bitLen, 9))));
        assert ExtLayout(a) == Both(l2, Some(OfBits(bits)));
        assert TagBits("01") == [false, true] && ValidTag("01");
        ok := StoreTag(b, "01");
        if !ok {
          return;
        }
        ghost var m1 := b.View();
        Pow2Nine();
        ok := b.StoreUint(bitLen, 9);
        StoredBoth(before, l1, m1, Some(OfBits(ToBits(bitLen, 9))), ok, b.View());
        if !ok {
          return;
        }
        ghost var m2 := b.View();
        ok := b.StoreBits(bits);
        StoredBoth(before, l2, m2, Some(OfBits(bits)), ok, b.View());
    }
  }

  method StoreMsgAddress(b: Builder, a: MsgAddress) returns (ok: bool)
    requires b.Valid()
    modifies b
    ensures b.Valid() && Stored(old(b.View()), MsgAddressLayout(a), ok, b.View())
  {
    match a {
      case Internal(i) => ok := StoreMsgAddressInt(b, i);
      case External(e) => ok := StoreMsgAddressExt(b, e);
    }
  }

  // ----- Loading -----

  /** What a load from `before` to `after` promises: the loader's value and remainder, or its failure. */
  ghost predicate Read<T>(expected: Option<(T, Chunk)>, r: Option<T>, after: Chunk) {
    match expected
    case None => r == None
    case Some((v, rest)) => r == Some(v) && after == rest
  }

  method LoadMaybeAnycast(s: Slice) returns (r: Option<Option<Anycast>>)
    requires s.Valid()
    modifies s
    ensures s.Valid() && Read(MaybeAnycastLoad(old(s.View())), r, s.View())
  {
    hide FromBits;
    var present := s.LoadBit();
    if present == None {
      return None;
    }
    if !present.value {
      return Some(None);
    }
    var depth := s.LoadUint(5);
    if depth == None || !(1 <= depth.value <= 30) {
      return None;
    }
    var pfx := s.LoadBits(depth.value);
    if pfx == None {
      return None;
    }
    return Some(Some(Anycast(depth.value, pfx.value)));
  }

  method LoadStd(s: Slice) returns (r: Option<MsgAddressInt>)
    requires s.Valid()
    modifies s
    ensures s.Valid() && Read(StdLoad(old(s.View())), r, s.View())
  {
    hide MaybeAnycastLoad, SignedValue, BitsToBytes, Pow2;
    var anycast := LoadMaybeAnycast(s);
    if anycast == None {
      return None;
    }
    ghost var here := s.View();
    var workchain := s.LoadInt(8);
    if workchain == None {
      return None;
    }
    TakenInt(here, 8);
    Pow2Seven();
    var hash := s.LoadBytes(32);
    if hash == None {
      return None;
    }
    return Some(Std(anycast.value, Address(workchain.value, hash.value, true, false)));
  }

  method LoadVar(s: Slice) returns (r: Option<MsgAddressInt>)
    requires s.Valid()
    modifies s
    ensures s.Valid() && Read(VarLoad(old(s.View())), r, s.View())
  {
    hide MaybeAnycastLoad, SignedValue, FromBits, Pow2;
    var anycast := LoadMaybeAnycast(s);
    if anycast == None {
      return None;
    }
    var bitLen := s.LoadUint(9);
    if bitLen == None {
      return None;
    }
    ghost var here := s.View();
    var workchainId := s.LoadInt(32);
    if workchainId == None {
      return None;
    }
    TakenInt(here, 32);
    Pow2ThirtyOne();
    var bits := s.LoadBits(bitLen.value);
    if bits == None {
      return None;
    }
    return Some(Var(anycast.value, workchainId.value, bits.value, bitLen.value));
  }

  method LoadExtern(s: Slice) returns (r: Option<MsgAddressExt>)
    requires s.Valid()
    modifies s
    ensures s.Valid() && Read(ExternLoad(old(s.View())), r, s.View())
  {
    hide FromBits;
    var bitLen := s.LoadUint(9);
    if bitLen == None {
      return None;
    }
    var bits := s.LoadBits(bitLen.value);
    if bits == None {
      return None;
    }
    return Some(Extern(bits.value, bitLen.value));
  }

  /** The two tag bits, read one at a time. */
  method LoadTwoBitTag(s: Slice) returns (r: Option<seq<bool>>)
    requires s.Valid()
    modifies s
    ensures s.Valid() && Read(TakeBits(old(s.View()), 2), r, s.View())
  {
    var first := s.LoadBit();
    if first == None {
      return None;
    }
    var second := s.LoadBit();
    if second == None {
      return None;
    }
    ghost var c := old(s.View());
    assert c.bits[..2] == [c.bits[0], c.bits[1]] && c.bits[1..][1..] == c.bits[2..];
    return Some([first.value, second.value]);
  }

  method LoadMsgAddressInt(s: Slice) returns (r: Option<MsgAddressInt>)
    requires s.Valid()
    modifies s
    ensures s.Valid() && Read(IntLoad(old(s.View())), r, s.View())
  {
    hide StdLoad, VarLoad;
    var tag := LoadTwoBitTag(s);
    if tag == None {
      return None;
    }
    if tag.value == [true, false] {
      r := LoadStd(s);
    } else if tag.value == [true, true] {
      r := LoadVar(s);
    } else {
      return None;
    }
  }

  method LoadMsgAddress(s: Slice) returns (r: Option<MsgAddress>)
    requires s.Valid()
    modifies s
    ensures s.Valid() && Read(MsgAddressLoad(old(s.View())), r, s.View())
  {
    hide StdLoad, VarLoad, ExternLoad;
    var tag := LoadTwoBitTag(s);
    if tag == None {
      return None;
    }
    if tag.value == [false, false] {
      return Some(External(Absent));
    } else if tag.value == [false, true] {
      var ext := LoadExtern(s);
      return if ext == None then None else Some(External(ext.value));
    } else if tag.value == [true, false] {
      var std := LoadStd(s);
      return if std == None then None else Some(Internal(std.value));
    } else {
      var var_ := LoadVar(s);
      return if var_ == None then None else Some(Internal(var_.value));
    }
  }
}
