/** Message addresses (src/tlb/message/address.rs) and the constructor tags they start with (src/tlb/core.rs). */
module Addresses {
  import opened Bits
  import opened Cells
  import opened TlbCore
  import opened Wrappers

  type i8 = x: int | -128 <= x < 128
  type i32 = x: int | -0x8000_0000 <= x < 0x8000_0000
  type Hash = h: seq<byte> | |h| == 32 witness seq(32, i => 0)

  /** A standard address; the two flags belong to its text form and are not part of its cell form. */
  datatype Address = Address(workchain: i8, hash: Hash, bounceable: bool, testOnly: bool)

  datatype Anycast = Anycast(depth: nat, rewritePfx: seq<bool>)

  datatype MsgAddressInt =
    | Std(anycast: Option<Anycast>, address: Address)
    | Var(anycast: Option<Anycast>, workchainId: i32, bits: seq<bool>, bitLen: nat)

  datatype MsgAddressExt =
    | Absent
    | Extern(bits: seq<bool>, bitLen: nat)

  datatype MsgAddress =
    | Internal(int_: MsgAddressInt)
    | External(ext: MsgAddressExt)

  function NormalAddress(a: Address): Address {
    Address(a.workchain, a.hash, true, false)
  }

  function NormalInt(a: MsgAddressInt): MsgAddressInt {
    match a
    case Std(anycast, address) => Std(anycast, NormalAddress(address))
    case Var(_, _, _, _) => a
  }

  function NormalMsgAddress(a: MsgAddress): MsgAddress {
    match a
    case Internal(i) => Internal(NormalInt(i))
    case External(_) => a
  }

  // ----- Fixed-width signed fields -----

  lemma Pow2Seven()
    ensures Pow2(7) == 128
  {
  }

  lemma Pow2Nine()
    ensures Pow2(5) == 32 && Pow2(9) == 512
  {
  }

  lemma Pow2ThirtyOne()
    ensures Pow2(31) == 0x8000_0000
  {
    hide Pow2;
    Pow2Seven();
    Pow2Eight();
    Pow2Add(8, 8);
    Pow2Add(8, 7);
    Pow2Add(16, 15);
  }

  function I8Bits(v: i8): (bits: seq<bool>)
    ensures |bits| == 8
  {
    Pow2Seven();
    SignedBits(v, 8)
  }

  function I32Bits(v: i32): (bits: seq<bool>)
    ensures |bits| == 32
  {
    Pow2ThirtyOne();
    SignedBits(v, 32)
  }

  function TakeI8(c: Chunk): Option<(i8, Chunk)> {
    var (v, rest) :- TakeInt(c, 8);
    TakenInt(c, 8);
    Pow2Seven();
    Some((v, rest))
  }

  function TakeI32(c: Chunk): Option<(i32, Chunk)> {
    var (v, rest) :- TakeInt(c, 32);
    TakenInt(c, 32);
    Pow2ThirtyOne();
    Some((v, rest))
  }

  lemma TakeI8Then(v: i8, rest: Chunk)
    ensures TakeI8(OfBits(I8Bits(v)).Then(rest)) == Some((v, rest))
  {
    Pow2Seven();
    TakeIntThen(v, 8, rest);
  }

  lemma TakeI32Then(v: i32, rest: Chunk)
    ensures TakeI32(OfBits(I32Bits(v)).Then(rest)) == Some((v, rest))
  {
    Pow2ThirtyOne();
    TakeIntThen(v, 32, rest);
  }

  lemma TakenI8(c: Chunk)
    requires TakeI8(c).Some?
    ensures c == OfBits(I8Bits(TakeI8(c).value.0)).Then(TakeI8(c).value.1)
  {
    TakenInt(c, 8);
  }

  lemma TakenI32(c: Chunk)
    requires TakeI32(c).Some?
    ensures c == OfBits(I32Bits(TakeI32(c).value.0)).Then(TakeI32(c).value.1)
  {
    TakenInt(c, 32);
  }

  // ----- Constructor tags -----

  predicate ValidTag(tag: string) {
    forall i :: 0 <= i < |tag| ==> tag[i] == '0' || tag[i] == '1'
  }

  function TagBits(tag: string): seq<bool> {
    seq(|tag|, i requires 0 <= i < |tag| => tag[i] == '1')
  }

  method StoreTag(b: Builder, tag: string) returns (ok: bool)
    requires b.Valid()
    modifies b
    ensures b.Valid()
    ensures ok == (ValidTag(tag) && old(b.View()).Then(OfBits(TagBits(tag))).Fits())
    ensures ok ==> b.View() == old(b.View()).Then(OfBits(TagBits(tag)))
  {
    ghost var before := b.View();
    ThenEmpty(before);
    for i := 0 to |tag|
      invariant b.Valid()
      invariant ValidTag(tag[..i])
      invariant b.View() == before.Then(OfBits(TagBits(tag[..i])))
    {
      if tag[i] != '0' && tag[i] != '1' {
        return false;
      }
      ThenAssociates(before, OfBits(TagBits(tag[..i])), OfBits([tag[i] == '1']));
      assert OfBits(TagBits(tag[..i])).Then(OfBits([tag[i] == '1'])) == OfBits(TagBits(tag[..i + 1]));
      ok := b.StoreBit(tag[i] == '1');
      if !ok {
        return false;
      }
      assert tag[..i + 1] == tag[..i] + [tag[i]];
    }
    assert tag[..|tag|] == tag;
    return true;
  }

  /** A tag that is not made of zeros and ones, or the bits read up to the first difference or the end. */
  datatype TagError = InvalidTag(ch: char) | TagMismatch(actual: seq<bool>)

  /** The first `i` bits match, and the tag goes wrong at character `i`. */
  ghost predicate InvalidAt(bits: seq<bool>, expected: string, i: nat, ch: char) {
    && i < |expected| && ValidTag(expected[..i]) && TagBits(expected[..i]) <= bits
    && expected[i] == ch && ch != '0' && ch != '1'
  }

  /** The bits read match the tag, and there are no more. */
  predicate RunsOut(bits: seq<bool>, expected: string, actual: seq<bool>) {
    && |actual| < |expected| && ValidTag(expected[..|actual| + 1])
    && actual == bits && actual == TagBits(expected[..|actual|])
  }

  /** All bits read match the tag but the last. */
  predicate DiffersAtLast(bits: seq<bool>, expected: string, actual: seq<bool>) {
    && 0 < |actual| <= |expected| && ValidTag(expected[..|actual|]) && actual <= bits
    && var last := |actual| - 1;
       actual[..last] == TagBits(expected[..last]) && actual[last] != (expected[last] == '1')
  }

  ghost predicate TagFailure(bits: seq<bool>, expected: string, error: TagError) {
    match error
    case InvalidTag(ch) => exists i :: InvalidAt(bits, expected, i, ch)
    case TagMismatch(actual) => RunsOut(bits, expected, actual) || DiffersAtLast(bits, expected, actual)
  }

  /** Checks a tag bit by bit: each character first, then the bit read for it. */
  method ExpectTag(s: Slice, expected: string) returns (r: Result<(), TagError>)
    requires s.Valid()
    modifies s
    ensures s.Valid()
    ensures r.Ok? <==> ValidTag(expected) && TagBits(expected) <= old(s.View()).bits
    ensures r.Ok? ==> old(s.View()) == OfBits(TagBits(expected)).Then(s.View())
    ensures r.Err? ==> TagFailure(old(s.View()).bits, expected, r.error)
  {
    hide ValidTag, TagBits, RunsOut, DiffersAtLast, InvalidAt;
    ghost var before := s.View();
    var actual: seq<bool> := [];
    StartOfTag(before, expected);
    for i := 0 to |expected|
      invariant s.Valid() && TagProgress(before, expected, i, actual, s.View())
    {
      ghost var here := s.View();
      InvalidEnd(before, expected, i, actual, here);
      if expected[i] != '0' && expected[i] != '1' {
        return Err(InvalidTag(expected[i]));
      }
      var bit := s.LoadBit();
      if bit == None {
        return Err(TagMismatch(actual));
      }
      BitEnd(before, expected, i, actual, here);
      actual := actual + [bit.value];
      if bit.value != (expected[i] == '1') {
        return Err(TagMismatch(actual));
      }
    }
    WholeTag(before, expected, actual, s.View());
    return Ok(());
  }

  /** The first `i` characters are fine and their bits were read. */
  ghost predicate TagProgress(before: Chunk, expected: string, i: nat, actual: seq<bool>, here: Chunk) {
    && i <= |expected| && ValidTag(expected[..i]) && actual == TagBits(expected[..i])
    && before == OfBits(actual).Then(here)
  }

  lemma StartOfTag(before: Chunk, expected: string)
    ensures TagProgress(before, expected, 0, [], before)
  {
    ThenEmpty(before);
  }

  lemma WholeTag(before: Chunk, expected: string, actual: seq<bool>, here: Chunk)
    requires TagProgress(before, expected, |expected|, actual, here)
    ensures ValidTag(expected) && before == OfBits(TagBits(expected)).Then(here)
    ensures TagBits(expected) <= before.bits
  {
    assert expected[..|expected|] == expected;
  }

  /** A bad character, or no bit left, is a failure of the tag. */
  lemma InvalidEnd(before: Chunk, expected: string, i: nat, actual: seq<bool>, here: Chunk)
    requires i < |expected| && TagProgress(before, expected, i, actual, here)
    ensures expected[i] != '0' && expected[i] != '1' ==>
      TagFailure(before.bits, expected, InvalidTag(expected[i])) && !ValidTag(expected)
    ensures (expected[i] == '0' || expected[i] == '1') && TakeBit(here) == None ==>
      TagFailure(before.bits, expected, TagMismatch(actual)) && |before.bits| < |TagBits(expected)|
  {
    NextTagBit(expected, i);
    if expected[i] != '0' && expected[i] != '1' {
      assert InvalidAt(before.bits, expected, i, expected[i]);
    } else if TakeBit(here) == None {
      assert before.bits == actual;
      assert RunsOut(before.bits, expected, actual);
    }
  }

  /** One more bit either continues the tag or is where it differs. */
  lemma BitEnd(before: Chunk, expected: string, i: nat, actual: seq<bool>, here: Chunk)
    requires i < |expected| && TagProgress(before, expected, i, actual, here)
    requires (expected[i] == '0' || expected[i] == '1') && TakeBit(here).Some?
    ensures var (bit, rest) := TakeBit(here).value;
      if bit == (expected[i] == '1') then TagProgress(before, expected, i + 1, actual + [bit], rest)
      else TagFailure(before.bits, expected, TagMismatch(actual + [bit])) && !(TagBits(expected) <= before.bits)
  {
    var (bit, rest) := TakeBit(here).value;
    NextTagBit(expected, i);
    TakenBit(here);
    ThenAssociates(OfBits(actual), OfBits([bit]), rest);
    assert OfBits(actual).Then(OfBits([bit])) == OfBits(actual + [bit]);
    assert before.bits[i] == bit;
    if bit != (expected[i] == '1') {
      assert (actual + [bit])[..i] == actual;
      assert DiffersAtLast(before.bits, expected, actual + [bit]);
      assert TagBits(expected)[i] != bit;
    }
  }

  lemma NextTagBit(expected: string, i: nat)
    requires i < |expected|
    ensures TagBits(expected[..i + 1]) == TagBits(expected[..i]) + [expected[i] == '1']
    ensures ValidTag(expected[..i + 1]) <==> ValidTag(expected[..i]) && (expected[i] == '0' || expected[i] == '1')
    ensures ValidTag(expected) ==> ValidTag(expected[..i + 1])
  {
    var init, longer := expected[..i], expected[..i + 1];
    assert longer == init + [expected[i]];
    if ValidTag(longer) {
      assert longer[i] == expected[i];
      forall k | 0 <= k < i ensures init[k] == '0' || init[k] == '1' {
        assert init[k] == longer[k];
      }
    }
  }

  // ----- Layouts -----

  function AnycastLayout(a: Anycast): Option<Chunk> {
    if |a.rewritePfx| != a.depth || !(1 <= a.depth <= 30) then None
    else Some(OfBits(ToBits(a.depth, 5)).Then(OfBits(a.rewritePfx)))
  }

  function MaybeAnycastLayout(a: Option<Anycast>): Option<Chunk> {
    match a
    case None => Some(OfBits([false]))
    case Some(anycast) =>
      var chunk :- AnycastLayout(anycast);
      Some(OfBits([true]).Then(chunk))
  }

  function IntLayout(a: MsgAddressInt): Option<Chunk> {
    match a
    case Std(anycast, address) =>
      var pfx :- MaybeAnycastLayout(anycast);
      Some(OfBits([true, false]).Then(pfx).Then(OfBits(I8Bits(address.workchain)))
           .Then(OfBits(BytesToBits(address.hash))))
    case Var(anycast, workchainId, bits, bitLen) =>
      if |bits| != bitLen || bitLen > 511 then None
      else
        var pfx :- MaybeAnycastLayout(anycast);
        Some(OfBits([true, true]).Then(pfx).Then(OfBits(ToBits(bitLen, 9)))
             .Then(OfBits(I32Bits(workchainId))).Then(OfBits(bits)))
  }

  function ExtLayout(a: MsgAddressExt): Option<Chunk> {
    match a
    case Absent => Some(OfBits([false, false]))
    case Extern(bits, bitLen) =>
      if |bits| != bitLen || bitLen > 511 then None
      else Some(OfBits([false, true]).Then(OfBits(ToBits(bitLen, 9))).Then(OfBits(bits)))
  }

  function MsgAddressLayout(a: MsgAddress): Option<Chunk> {
    match a
    case Internal(i) => IntLayout(i)
    case External(e) => ExtLayout(e)
  }

  // ----- Loaders -----

  function AnycastLoad(c: Chunk): Option<(Anycast, Chunk)> {
    var (depth, afterDepth) :- TakeUint(c, 5);
    if !(1 <= depth <= 30) then None
    else
      var (pfx, rest) :- TakeBits(afterDepth, depth);
      Some((Anycast(depth, pfx), rest))
  }

  function MaybeAnycastLoad(c: Chunk): Option<(Option<Anycast>, Chunk)> {
    var (present, afterBit) :- TakeBit(c);
    if present then
      var (anycast, rest) :- AnycastLoad(afterBit);
      Some((Some(anycast), rest))
    else Some((None, afterBit))
  }

  function StdLoad(c: Chunk): Option<(MsgAddressInt, Chunk)> {
    var (anycast, c1) :- MaybeAnycastLoad(c);
    var (workchain, c2) :- TakeI8(c1);
    var (hash, rest) :- TakeBytes(c2, 32);
    Some((Std(anycast, Address(workchain, hash, true, false)), rest))
  }

  function VarLoad(c: Chunk): Option<(MsgAddressInt, Chunk)> {
    var (anycast, c1) :- MaybeAnycastLoad(c);
    var (bitLen, c2) :- TakeUint(c1, 9);
    var (workchainId, c3) :- TakeI32(c2);
    var (bits, rest) :- TakeBits(c3, bitLen);
    Some((Var(anycast, workchainId, bits, bitLen), rest))
  }

  function ExternLoad(c: Chunk): Option<(MsgAddressExt, Chunk)> {
    var (bitLen, c1) :- TakeUint(c, 9);
    var (bits, rest) :- TakeBits(c1, bitLen);
    Some((Extern(bits, bitLen), rest))
  }

  /** `MsgAddressInt::load_tlb`: only the tags 10 and 11. */
  function IntLoad(c: Chunk): Option<(MsgAddressInt, Chunk)> {
    var (tag, rest) :- TakeBits(c, 2);
    if tag == [true, false] then StdLoad(rest)
    else if tag == [true, true] then VarLoad(rest)
    else None
  }

  function MsgAddressLoad(c: Chunk): Option<(MsgAddress, Chunk)> {
    var (tag, afterTag) :- TakeBits(c, 2);
    if tag == [false, false] then Some((External(Absent), afterTag))
    else if tag == [false, true] then
      var (ext, rest) :- ExternLoad(afterTag);
      Some((External(ext), rest))
    else if tag == [true, false] then
      var (std, rest) :- StdLoad(afterTag);
      Some((Internal(std), rest))
    else
      var (var_, rest) :- VarLoad(afterTag);
      Some((Internal(var_), rest))
  }

  function MsgAddressCodec(): Codec<MsgAddress> {
    Codec(MsgAddressLayout, MsgAddressLoad, NormalMsgAddress)
  }

  // ----- Laws -----

  lemma MaybeAnycastReads(a: Option<Anycast>, rest: Chunk)
    requires MaybeAnycastLayout(a).Some?
    ensures MaybeAnycastLoad(MaybeAnycastLayout(a).value.Then(rest)) == Some((a, rest))
  {
    hide ToBits, Pow2;
    match a
    case None => TakeBitThen(false, rest);
    case Some(anycast) =>
      var depth, pfx := OfBits(ToBits(anycast.depth, 5)), OfBits(anycast.rewritePfx);
      ThenAssociates(OfBits([true]), depth.Then(pfx), rest);
      ThenAssociates(depth, pfx, rest);
      TakeBitThen(true, depth.Then(pfx).Then(rest));
      Pow2Nine();
      TakeUintThen(anycast.depth, 5, pfx.Then(rest));
      TakeBitsThen(anycast.rewritePfx, rest);
  }

  lemma MaybeAnycastIsLossless(c: Chunk)
    requires MaybeAnycastLoad(c).Some?
    ensures var (a, rest) := MaybeAnycastLoad(c).value;
      MaybeAnycastLayout(a).Some? && c == MaybeAnycastLayout(a).value.Then(rest)
  {
    hide ToBits, Pow2;
    TakenBit(c);
    var (present, afterBit) := TakeBit(c).value;
    if present {
      TakenUint(afterBit, 5);
      var (depth, afterDepth) := TakeUint(afterBit, 5).value;
      TakenBits(afterDepth, depth);
      var (pfx, rest) := TakeBits(afterDepth, depth).value;
      ThenAssociates(OfBits(ToBits(depth, 5)), OfBits(pfx), rest);
      ThenAssociates(OfBits([true]), OfBits(ToBits(depth, 5)).Then(OfBits(pfx)), rest);
    }
  }

  lemma StdReads(anycast: Option<Anycast>, address: Address, rest: Chunk)
    requires MaybeAnycastLayout(anycast).Some?
    ensures StdLoad(MaybeAnycastLayout(anycast).value.Then(
              OfBits(I8Bits(address.workchain)).Then(OfBits(BytesToBits(address.hash)).Then(rest))))
         == Some((Std(anycast, NormalAddress(address)), rest))
  {
    hide I8Bits, TakeI8, BytesToBits, BitsToBytes, MaybeAnycastLayout, MaybeAnycastLoad;
    var hash := OfBits(BytesToBits(address.hash)).Then(rest);
    MaybeAnycastReads(anycast, OfBits(I8Bits(address.workchain)).Then(hash));
    TakeI8Then(address.workchain, hash);
    TakeBytesThen(address.hash, rest);
  }

  lemma VarReads(anycast: Option<Anycast>, workchainId: i32, bits: seq<bool>, rest: Chunk)
    requires MaybeAnycastLayout(anycast).Some? && |bits| <= 511
    ensures VarLoad(MaybeAnycastLayout(anycast).value.Then(
              OfBits(ToBits(|bits|, 9)).Then(OfBits(I32Bits(workchainId)).Then(OfBits(bits).Then(rest)))))
         == Some((Var(anycast, workchainId, bits, |bits|), rest))
  {
    hide ToBits, I32Bits, TakeI32, Pow2, MaybeAnycastLayout, MaybeAnycastLoad;
    var tail := OfBits(bits).Then(rest);
    MaybeAnycastReads(anycast, OfBits(ToBits(|bits|, 9)).Then(OfBits(I32Bits(workchainId)).Then(tail)));
    Pow2Nine();
    TakeUintThen(|bits|, 9, OfBits(I32Bits(workchainId)).Then(tail));
    TakeI32Then(workchainId, tail);
    TakeBitsThen(bits, rest);
  }

  lemma ExternReads(bits: seq<bool>, rest: Chunk)
    requires |bits| <= 511
    ensures ExternLoad(OfBits(ToBits(|bits|, 9)).Then(OfBits(bits).Then(rest))) == Some((Extern(bits, |bits|), rest))
  {
    hide ToBits, Pow2;
    Pow2Nine();
    TakeUintThen(|bits|, 9, OfBits(bits).Then(rest));
    TakeBitsThen(bits, rest);
  }

  /** An internal address reads back under both loaders that accept it. */
  lemma IntReads(a: MsgAddressInt, rest: Chunk)
    requires IntLayout(a).Some?
    ensures IntLoad(IntLayout(a).value.Then(rest)) == Some((NormalInt(a), rest))
    ensures MsgAddressLoad(IntLayout(a).value.Then(rest)) == Some((Internal(NormalInt(a)), rest))
  {
    hide ToBits, I8Bits, I32Bits, BytesToBits, MaybeAnycastLayout, StdLoad, VarLoad;
    var pfx := MaybeAnycastLayout(a.anycast).value;
    match a
    case Std(anycast, address) =>
      var workchain, hash := OfBits(I8Bits(address.workchain)), OfBits(BytesToBits(address.hash));
      var body := pfx.Then(workchain.Then(hash.Then(rest)));
      assert IntLayout(a).value.Then(rest) == OfBits([true, false]).Then(body) by {
        ThenAssociates(OfBits([true, false]), pfx, workchain);
        ThenAssociates(OfBits([true, false]), pfx.Then(workchain), hash);
        ThenAssociates(OfBits([true, false]), pfx.Then(workchain).Then(hash), rest);
        ThenAssociates(pfx.Then(workchain), hash, rest);
        ThenAssociates(pfx, workchain, hash.Then(rest));
      }
      TakeBitsThen([true, false], body);
      StdReads(anycast, address, rest);
    case Var(anycast, workchainId, bits, bitLen) =>
      var len, workchain := OfBits(ToBits(bitLen, 9)), OfBits(I32Bits(workchainId));
      var body := pfx.Then(len.Then(workchain.Then(OfBits(bits).Then(rest))));
      assert IntLayout(a).value.Then(rest) == OfBits([true, true]).Then(body) by {
        ThenAssociates(OfBits([true, true]), pfx, len);
        ThenAssociates(OfBits([true, true]), pfx.Then(len), workchain);
        ThenAssociates(OfBits([true, true]), pfx.Then(len).Then(workchain), OfBits(bits));
        ThenAssociates(OfBits([true, true]), pfx.Then(len).Then(workchain).Then(OfBits(bits)), rest);
        ThenAssociates(pfx.Then(len).Then(workchain), OfBits(bits), rest);
        ThenAssociates(pfx.Then(len), workchain, OfBits(bits).Then(rest));
        ThenAssociates(pfx, len, workchain.Then(OfBits(bits).Then(rest)));
      }
      TakeBitsThen([true, true], body);
      VarReads(anycast, workchainId, bits, rest);
  }

  lemma ExtReads(a: MsgAddressExt, rest: Chunk)
    requires ExtLayout(a).Some?
    ensures MsgAddressLoad(ExtLayout(a).value.Then(rest)) == Some((External(a), rest))
  {
    hide ToBits, ExternLoad;
    match a
    case Absent => TakeBitsThen([false, false], rest);
    case Extern(bits, bitLen) =>
      var len := OfBits(ToBits(bitLen, 9));
      var body := len.Then(OfBits(bits).Then(rest));
      assert ExtLayout(a).value.Then(rest) == OfBits([false, true]).Then(body) by {
        ThenAssociates(OfBits([false, true]), len, OfBits(bits));
        ThenAssociates(OfBits([false, true]), len.Then(OfBits(bits)), rest);
        ThenAssociates(len, OfBits(bits), rest);
      }
      TakeBitsThen([false, true], body);
      ExternReads(bits, rest);
  }

  lemma StdIsLossless(c: Chunk)
    requires StdLoad(c).Some?
    ensures var (a, rest) := StdLoad(c).value;
      && a.Std? && NormalInt(a) == a && IntLayout(a).Some?
      && OfBits([true, false]).Then(c) == IntLayout(a).value.Then(rest)
  {
    hide I8Bits, TakeI8, BytesToBits, BitsToBytes, MaybeAnycastLayout, MaybeAnycastLoad;
    MaybeAnycastIsLossless(c);
    var (anycast, c1) := MaybeAnycastLoad(c).value;
    TakenI8(c1);
    var (w, c2) := TakeI8(c1).value;
    TakenBytes(c2, 32);
    var (h, rest) := TakeBytes(c2, 32).value;
    var pfx, workchain, hash := MaybeAnycastLayout(anycast).value, OfBits(I8Bits(w)), OfBits(BytesToBits(h));
    ThenAssociates(OfBits([true, false]), pfx, c1);
    ThenAssociates(OfBits([true, false]).Then(pfx), workchain, c2);
    ThenAssociates(OfBits([true, false]).Then(pfx).Then(workchain), hash, rest);
  }

  lemma VarIsLossless(c: Chunk)
    requires VarLoad(c).Some?
    ensures var (a, rest) := VarLoad(c).value;
      && a.Var? && IntLayout(a).Some?
      && OfBits([true, true]).Then(c) == IntLayout(a).value.Then(rest)
  {
    hide ToBits, I32Bits, TakeI32, Pow2, MaybeAnycastLayout, MaybeAnycastLoad;
    MaybeAnycastIsLossless(c);
    var (anycast, c1) := MaybeAnycastLoad(c).value;
    TakenUint(c1, 9);
    Pow2Nine();
    var (n, c2) := TakeUint(c1, 9).value;
    TakenI32(c2);
    var (w, c3) := TakeI32(c2).value;
    TakenBits(c3, n);
    var (bits, rest) := TakeBits(c3, n).value;
    var pfx, len, workchain := MaybeAnycastLayout(anycast).value, OfBits(ToBits(n, 9)), OfBits(I32Bits(w));
    ThenAssociates(OfBits([true, true]), pfx, c1);
    ThenAssociates(OfBits([true, true]).Then(pfx), len, c2);
    ThenAssociates(OfBits([true, true]).Then(pfx).Then(len), workchain, c3);
    ThenAssociates(OfBits([true, true]).Then(pfx).Then(len).Then(workchain), OfBits(bits), rest);
  }

  lemma IntIsLossless(c: Chunk)
    requires IntLoad(c).Some?
    ensures var (a, rest) := IntLoad(c).value;
      NormalInt(a) == a && IntLayout(a).Some? && c == IntLayout(a).value.Then(rest)
  {
    hide StdLoad, VarLoad, IntLayout;
    TakenBits(c, 2);
    var (tag, afterTag) := TakeBits(c, 2).value;
    if tag == [true, false] {
      StdIsLossless(afterTag);
    } else {
      VarIsLossless(afterTag);
    }
  }

  lemma MsgAddressIsLossless(c: Chunk)
    requires MsgAddressLoad(c).Some?
    ensures var (a, rest) := MsgAddressLoad(c).value;
      NormalMsgAddress(a) == a && MsgAddressLayout(a).Some? && c == MsgAddressLayout(a).value.Then(rest)
  {
    hide StdLoad, VarLoad, ToBits, Pow2, IntLayout;
    TakenBits(c, 2);
    var (tag, afterTag) := TakeBits(c, 2).value;
    assert forall a, b :: tag[0] == a && tag[1] == b ==> tag == [a, b];
    if tag == [true, false] {
      StdIsLossless(afterTag);
    } else if tag == [false, true] {
      TakenUint(afterTag, 9);
      Pow2Nine();
      var (n, c1) := TakeUint(afterTag, 9).value;
      TakenBits(c1, n);
      var (bits, rest) := TakeBits(c1, n).value;
      ThenAssociates(OfBits(tag), OfBits(ToBits(n, 9)), c1);
      ThenAssociates(OfBits(tag).Then(OfBits(ToBits(n, 9))), OfBits(bits), rest);
    } else if tag == [false, false] {
      assert MsgAddressLoad(c) == Some((External(Absent), afterTag));
    } else {
      assert tag == [tag[0], tag[1]];
      assert tag[0] && tag[1];
      VarIsLossless(afterTag);
    }
  }

  lemma MsgAddressCodecLaws()
    ensures SelfDelimiting(MsgAddressCodec())
    ensures Lossless(MsgAddressCodec()) && Normalizing(MsgAddressCodec())
  {
    hide MsgAddressLoad, IntLayout, ExtLayout;
    var c := MsgAddressCodec();
    forall v: MsgAddress, rest: Chunk | c.layout(v).Some?
      ensures c.load(c.layout(v).value.Then(rest)) == Some((c.normal(v), rest))
    {
      match v
      case Internal(i) => IntReads(i, rest);
      case External(e) => ExtReads(e, rest);
    }
    forall s: Chunk | c.load(s).Some?
      ensures var (v, rest) := c.load(s).value;
        c.layout(v).Some? && s == c.layout(v).value.Then(rest) && c.normal(v) == v
    {
      MsgAddressIsLossless(s);
    }
    forall v: MsgAddress
      ensures c.layout(c.normal(v)) == c.layout(v)
    {
      NormalLayout(v);
    }
  }

  lemma NormalLayout(a: MsgAddress)
    ensures MsgAddressLayout(NormalMsgAddress(a)) == MsgAddressLayout(a)
  {
  }

  /** Two addresses encode alike exactly when they differ in nothing but the text flags. */
  lemma EncodeAlikeIff(a: MsgAddress, b: MsgAddress)
    requires MsgAddressLayout(a).Some?
    ensures MsgAddressLayout(a) == MsgAddressLayout(b) <==> NormalMsgAddress(a) == NormalMsgAddress(b)
  {
    hide MsgAddressLayout;
    MsgAddressCodecLaws();
    var c := MsgAddressCodec();
    NormalLayout(a);
    NormalLayout(b);
    assert c.layout(a) == MsgAddressLayout(a) && c.layout(b) == MsgAddressLayout(b);
    if MsgAddressLayout(a) == MsgAddressLayout(b) {
      assert c.load(c.layout(a).value.Then(EMPTY)) == Some((c.normal(a), EMPTY));
      assert c.load(c.layout(b).value.Then(EMPTY)) == Some((c.normal(b), EMPTY));
    }
  }
}
