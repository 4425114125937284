/** Canonical `VarUInteger`: a byte count of `lenBits` bits, then the shortest big-endian bytes (src/tlb/core.rs). */
module VarUint {
  import opened Bits
  import opened Cells
  import opened TlbCore
  import opened Wrappers

  const U64_BITS := 64
  const USIZE_BITS := 64

  function VarUintLayout(value: nat, lenBits: nat): Option<Chunk> {
    var bytes := MagnitudeBytes(value);
    if lenBits > MAX_CELL_BITS || |bytes| >= Pow2(lenBits) || lenBits > U64_BITS then None
    else Some(OfBits(ToBits(|bytes|, lenBits) + BytesToBits(bytes)))
  }

  function MaxVarUintBytes(lenBits: nat): Option<nat> {
    if lenBits >= USIZE_BITS then None else Some(Pow2(lenBits) - 1)
  }

  function VarUintLoad(c: Chunk, lenBits: nat): Option<(nat, Chunk)> {
    if lenBits > U64_BITS then None
    else
      var (byteLen, afterLen) :- TakeUint(c, lenBits);
      var maxLen :- MaxVarUintBytes(lenBits);
      if byteLen > maxLen then None
      else if byteLen == 0 then Some((0, afterLen))
      else
        var (bytes, rest) :- TakeBytes(afterLen, byteLen);
        if bytes[0] == 0 then None else Some((BytesValue(bytes), rest))
  }

  function VarUintCodec(lenBits: nat): Codec<nat> {
    Codec((v: nat) => VarUintLayout(v, lenBits), (c: Chunk) => VarUintLoad(c, lenBits), (v: nat) => v)
  }

  /** `Grams` is `VarUInteger 16`: a four-bit byte count. */
  function GramsCodec(): Codec<nat> {
    VarUintCodec(4)
  }

  // ----- The builder and slice operations -----

  method StoreVarUint(b: Builder, value: nat, lenBits: nat) returns (ok: bool)
    requires b.Valid()
    modifies b
    ensures b.Valid()
    ensures ok == (VarUintLayout(value, lenBits).Some?
                   && old(b.View()).Then(VarUintLayout(value, lenBits).value).Fits())
    ensures ok ==> b.View() == old(b.View()).Then(VarUintLayout(value, lenBits).value)
  {
    hide BytesToBits, ToBits, MagnitudeBytes, Pow2;
    if lenBits > MAX_CELL_BITS {
      return false;
    }
    var bytes := MagnitudeBytes(value);
    if |bytes| >= Pow2(lenBits) || lenBits > U64_BITS {
      return false;
    }
    ghost var before := b.View();
    ThenAssociates(before, OfBits(ToBits(|bytes|, lenBits)), OfBits(BytesToBits(bytes)));
    assert OfBits(ToBits(|bytes|, lenBits)).Then(OfBits(BytesToBits(bytes))) == VarUintLayout(value, lenBits).value;
    ok := b.StoreUint(|bytes|, lenBits);
    if ok && |bytes| > 0 {
      ok := b.StoreBytes(bytes);
    } else if ok {
      NoBytes();
      ThenEmpty(b.View());
    }
  }

  lemma NoBytes()
    ensures BytesToBits([]) == []
  {
  }

  method LoadVarUint(s: Slice, lenBits: nat) returns (r: Option<nat>)
    requires s.Valid()
    modifies s
    ensures s.Valid()
    ensures match VarUintLoad(old(s.View()), lenBits)
      case None => r == None
      case Some((value, rest)) => r == Some(value) && s.View() == rest
  {
    hide BitsToBytes, Pow2, BytesValue;
    if lenBits > U64_BITS {
      return None;
    }
    var byteLen := s.LoadUint(lenBits);
    if byteLen == None || lenBits >= USIZE_BITS {
      return None;
    }
    if byteLen.value > Pow2(lenBits) - 1 {
      return None;
    }
    if byteLen.value == 0 {
      return Some(0);
    }
    var bytes := s.LoadBytes(byteLen.value);
    if bytes == None || bytes.value[0] == 0 {
      return None;
    }
    return Some(BytesValue(bytes.value));
  }

  // ----- Properties -----

  /** The values that can be stored are those below 256^(2^lenBits - 1). */
  lemma VarUintRange(value: nat, lenBits: nat)
    requires lenBits <= U64_BITS
    ensures VarUintLayout(value, lenBits).Some? <==> value < Pow2(8 * (Pow2(lenBits) - 1))
  {
    MagnitudeLength(value, Pow2(lenBits) - 1);
  }

  /** The length guard of the loader never fires: a field of that width cannot exceed its maximum. */
  lemma LengthGuardNeverFires(c: Chunk, lenBits: nat)
    requires TakeUint(c, lenBits).Some? && MaxVarUintBytes(lenBits).Some?
    ensures TakeUint(c, lenBits).value.0 <= MaxVarUintBytes(lenBits).value
  {
    TakenUint(c, lenBits);
  }

  lemma VarUintReads(value: nat, lenBits: nat, rest: Chunk)
    requires lenBits < USIZE_BITS && VarUintLayout(value, lenBits).Some?
    ensures VarUintLoad(VarUintLayout(value, lenBits).value.Then(rest), lenBits) == Some((value, rest))
  {
    hide ToBits, BytesToBits, BitsToBytes, Pow2, BytesValue, MagnitudeBytes;
    var bytes := MagnitudeBytes(value);
    var payload := OfBits(BytesToBits(bytes)).Then(rest);
    assert VarUintLayout(value, lenBits).value.Then(rest) == OfBits(ToBits(|bytes|, lenBits)).Then(payload);
    TakeUintThen(|bytes|, lenBits, payload);
    TakeBytesThen(bytes, rest);
    MagnitudeRoundTrip(value);
    if |bytes| == 0 {
      NoBytes();
      ThenEmpty(rest);
      assert value == 0 by {
        EmptyIsZero(value);
      }
    } else {
      assert bytes[0] != 0 by {
        EmptyIsZero(value);
      }
    }
  }

  lemma EmptyIsZero(value: nat)
    ensures MagnitudeBytes(value) == [] <==> value == 0
  {
  }

  lemma VarUintIsLossless(c: Chunk, lenBits: nat)
    requires VarUintLoad(c, lenBits).Some?
    ensures var (value, rest) := VarUintLoad(c, lenBits).value;
      VarUintLayout(value, lenBits).Some? && c == VarUintLayout(value, lenBits).value.Then(rest)
  {
    hide ToBits, BytesToBits, BitsToBytes, Pow2, BytesValue, MagnitudeBytes;
    var (value, rest) := VarUintLoad(c, lenBits).value;
    var (byteLen, afterLen) := TakeUint(c, lenBits).value;
    TakenUint(c, lenBits);
    EmptyIsZero(value);
    if byteLen == 0 {
      NoBytes();
      assert ToBits(0, lenBits) + [] == ToBits(0, lenBits);
    } else {
      var (bytes, _) := TakeBytes(afterLen, byteLen).value;
      TakenBytes(afterLen, byteLen);
      CanonicalMagnitude(bytes);
      ThenAssociates(OfBits(ToBits(byteLen, lenBits)), OfBits(BytesToBits(bytes)), rest);
      assert OfBits(ToBits(byteLen, lenBits)).Then(OfBits(BytesToBits(bytes)))
          == OfBits(ToBits(byteLen, lenBits) + BytesToBits(bytes));
    }
  }

  /** Accepted encodings and numbers in range correspond one to one, for every prefix the loader supports. */
  lemma VarUintCodecLaws(lenBits: nat)
    requires lenBits < USIZE_BITS
    ensures SelfDelimiting(VarUintCodec(lenBits))
    ensures Lossless(VarUintCodec(lenBits)) && Normalizing(VarUintCodec(lenBits))
  {
    hide VarUintLayout, VarUintLoad;
    var c := VarUintCodec(lenBits);
    forall v: nat, rest: Chunk | c.layout(v).Some?
      ensures c.load(c.layout(v).value.Then(rest)) == Some((c.normal(v), rest))
    {
      VarUintReads(v, lenBits, rest);
    }
    forall s: Chunk | c.load(s).Some?
      ensures var (v, rest) := c.load(s).value;
        c.layout(v).Some? && s == c.layout(v).value.Then(rest)
    {
      VarUintIsLossless(s, lenBits);
    }
  }

  /** Two accepted encodings of one number are the same bits. */
  lemma VarUintUnique(a: Chunk, b: Chunk, lenBits: nat)
    requires VarUintLoad(a, lenBits).Some? && VarUintLoad(a, lenBits) == VarUintLoad(b, lenBits)
    ensures a == b
  {
    hide VarUintLayout, VarUintLoad;
    VarUintIsLossless(a, lenBits);
    VarUintIsLossless(b, lenBits);
  }

  /**
   * A stored number loads back exactly when the prefix is narrower than a machine word:
   * a 64-bit prefix can be written but is never read.
   */
  lemma LoadsBackIff(value: nat, lenBits: nat)
    requires VarUintLayout(value, lenBits).Some?
    ensures VarUintLoad(VarUintLayout(value, lenBits).value, lenBits) == Some((value, EMPTY)) <==> lenBits < USIZE_BITS
  {
    hide VarUintLayout;
    if lenBits < USIZE_BITS {
      hide VarUintLoad;
      VarUintReads(value, lenBits, EMPTY);
      ThenEmpty(VarUintLayout(value, lenBits).value);
    }
  }
}
