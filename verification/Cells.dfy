/** Ordinary cells, and the builder and slice that write and read them (src/tvm). */
module Cells {
  import opened Bits
  import opened Wrappers

  const MAX_CELL_BITS := 1023
  const MAX_CELL_REFS := 4

  datatype CellTree = CellTree(bits: seq<bool>, refs: seq<CellTree>) {
    predicate Ordinary() {
      |bits| <= MAX_CELL_BITS && |refs| <= MAX_CELL_REFS
      && forall i :: 0 <= i < |refs| ==> refs[i].Ordinary()
    }
  }

  type Cell = c: CellTree | c.Ordinary() witness CellTree([], [])

  /** A run of bits and references: what a value occupies inside a cell. */
  datatype Chunk = Chunk(bits: seq<bool>, refs: seq<Cell>) {
    predicate Fits() {
      |bits| <= MAX_CELL_BITS && |refs| <= MAX_CELL_REFS
    }

    function Then(next: Chunk): Chunk {
      Chunk(bits + next.bits, refs + next.refs)
    }

    function ToCell(): Cell
      requires Fits()
    {
      CellTree(bits, refs)
    }
  }

  const EMPTY := Chunk([], [])

  function OfBits(bits: seq<bool>): Chunk {
    Chunk(bits, [])
  }

  function OfRef(cell: Cell): Chunk {
    Chunk([], [cell])
  }

  function Contents(cell: Cell): (c: Chunk)
    ensures c.Fits() && c.ToCell() == cell
  {
    Chunk(cell.bits, cell.refs)
  }

  lemma ThenAssociates(a: Chunk, b: Chunk, c: Chunk)
    ensures a.Then(b).Then(c) == a.Then(b.Then(c))
  {
    assert (a.bits + b.bits) + c.bits == a.bits + (b.bits + c.bits);
    assert (a.refs + b.refs) + c.refs == a.refs + (b.refs + c.refs);
  }

  lemma ThenEmpty(a: Chunk)
    ensures EMPTY.Then(a) == a && a.Then(EMPTY) == a
  {
    assert [] + a.bits == a.bits && [] + a.refs == a.refs;
    assert a.bits + [] == a.bits && a.refs + [] == a.refs;
  }

  // ----- Reading from the front of a chunk -----

  function TakeBits(c: Chunk, n: nat): Option<(seq<bool>, Chunk)> {
    if n <= |c.bits| then Some((c.bits[..n], Chunk(c.bits[n..], c.refs))) else None
  }

  function TakeBit(c: Chunk): Option<(bool, Chunk)> {
    if c.bits != [] then Some((c.bits[0], Chunk(c.bits[1..], c.refs))) else None
  }

  function TakeUint(c: Chunk, width: nat): Option<(nat, Chunk)> {
    var (bits, rest) :- TakeBits(c, width);
    Some((FromBits(bits), rest))
  }

  function TakeInt(c: Chunk, width: nat): Option<(int, Chunk)> {
    var (bits, rest) :- TakeBits(c, width);
    Some((SignedValue(bits), rest))
  }

  function TakeBytes(c: Chunk, n: nat): Option<(seq<byte>, Chunk)> {
    var (bits, rest) :- TakeBits(c, 8 * n);
    Some((BitsToBytes(bits), rest))
  }

  function TakeRef(c: Chunk): Option<(Cell, Chunk)> {
    if c.refs != [] then Some((c.refs[0], Chunk(c.bits, c.refs[1..]))) else None
  }

  // ----- What was written is what is read -----

  lemma TakeBitsThen(bits: seq<bool>, rest: Chunk)
    ensures TakeBits(OfBits(bits).Then(rest), |bits|) == Some((bits, rest))
  {
    var c := OfBits(bits).Then(rest);
    assert c.bits[..|bits|] == bits && c.bits[|bits|..] == rest.bits;
    assert c.refs == rest.refs;
  }

  lemma TakeBitThen(bit: bool, rest: Chunk)
    ensures TakeBit(OfBits([bit]).Then(rest)) == Some((bit, rest))
  {
    var c := OfBits([bit]).Then(rest);
    assert c.bits[1..] == rest.bits && c.refs == rest.refs;
  }

  lemma TakeUintThen(value: nat, width: nat, rest: Chunk)
    requires UnsignedFits(value, width)
    ensures TakeUint(OfBits(ToBits(value, width)).Then(rest), width) == Some((value, rest))
  {
    TakeBitsThen(ToBits(value, width), rest);
    FromToBits(value, width);
  }

  lemma TakeIntThen(value: int, width: nat, rest: Chunk)
    requires SignedFits(value, width)
    ensures TakeInt(OfBits(SignedBits(value, width)).Then(rest), width) == Some((value, rest))
  {
    TakeBitsThen(SignedBits(value, width), rest);
    SignedRoundTrip(value, width);
  }

  lemma TakeBytesThen(bytes: seq<byte>, rest: Chunk)
    ensures TakeBytes(OfBits(BytesToBits(bytes)).Then(rest), |bytes|) == Some((bytes, rest))
  {
    TakeBitsThen(BytesToBits(bytes), rest);
    BytesRoundTrip(bytes);
  }

  lemma TakeRefThen(cell: Cell, rest: Chunk)
    ensures TakeRef(OfRef(cell).Then(rest)) == Some((cell, rest))
  {
    var c := OfRef(cell).Then(rest);
    assert c.refs[1..] == rest.refs && c.bits == rest.bits;
  }

  // ----- What was read is what was there -----

  lemma TakenBits(c: Chunk, n: nat)
    requires TakeBits(c, n).Some?
    ensures var (bits, rest) := TakeBits(c, n).value;
      |bits| == n && c == OfBits(bits).Then(rest)
  {
    assert c.bits == c.bits[..n] + c.bits[n..];
    assert [] + c.refs == c.refs;
  }

  lemma TakenBit(c: Chunk)
    requires TakeBit(c).Some?
    ensures var (bit, rest) := TakeBit(c).value;
      c == OfBits([bit]).Then(rest)
  {
    assert c.bits == [c.bits[0]] + c.bits[1..];
    assert [] + c.refs == c.refs;
  }

  lemma TakenUint(c: Chunk, width: nat)
    requires TakeUint(c, width).Some?
    ensures var (value, rest) := TakeUint(c, width).value;
      UnsignedFits(value, width) && c == OfBits(ToBits(value, width)).Then(rest)
  {
    TakenBits(c, width);
    FromBitsBound(c.bits[..width]);
    ToFromBits(c.bits[..width]);
  }

  lemma TakenInt(c: Chunk, width: nat)
    requires TakeInt(c, width).Some?
    ensures var (value, rest) := TakeInt(c, width).value;
      SignedFits(value, width) && c == OfBits(SignedBits(value, width)).Then(rest)
  {
    TakenBits(c, width);
    SignedValueFits(c.bits[..width]);
  }

  lemma TakenBytes(c: Chunk, n: nat)
    requires TakeBytes(c, n).Some?
    ensures var (bytes, rest) := TakeBytes(c, n).value;
      |bytes| == n && c == OfBits(BytesToBits(bytes)).Then(rest)
  {
    TakenBits(c, 8 * n);
    BitsRoundTrip(c.bits[..8 * n]);
  }

  lemma TakenRef(c: Chunk)
    requires TakeRef(c).Some?
    ensures var (cell, rest) := TakeRef(c).value;
      c == OfRef(cell).Then(rest)
  {
    assert c.refs == [c.refs[0]] + c.refs[1..];
    assert [] + c.bits == c.bits;
  }

  // ----- The builder -----

  /** An append-only cell buffer. A failed store of one item leaves the buffer as it was. */
  class Builder {
    var bits: seq<bool>
    var refs: seq<Cell>

    constructor ()
      ensures Valid() && View() == EMPTY
    {
      bits, refs := [], [];
    }

    predicate Valid()
      reads this
    {
      View().Fits()
    }

    function View(): Chunk
      reads this
    {
      Chunk(bits, refs)
    }

    method StoreBits(bs: seq<bool>) returns (ok: bool)
      requires Valid()
      modifies this
      ensures Valid()
      ensures ok == old(View()).Then(OfBits(bs)).Fits()
      ensures View() == if ok then old(View()).Then(OfBits(bs)) else old(View())
    {
      assert refs + [] == refs;
      if |bits| + |bs| > MAX_CELL_BITS {
        return false;
      }
      bits := bits + bs;
      return true;
    }

    method StoreBit(bit: bool) returns (ok: bool)
      requires Valid()
      modifies this
      ensures Valid()
      ensures ok == old(View()).Then(OfBits([bit])).Fits()
      ensures View() == if ok then old(View()).Then(OfBits([bit])) else old(View())
    {
      ok := StoreBits([bit]);
    }

    /** An unsigned integer of any size, in exactly `width` bits. */
    method StoreUint(value: nat, width: nat) returns (ok: bool)
      requires Valid()
      modifies this
      ensures Valid()
      ensures ok == (UnsignedFits(value, width) && old(View()).Then(OfBits(ToBits(value, width))).Fits())
      ensures View() == if ok then old(View()).Then(OfBits(ToBits(value, width))) else old(View())
    {
      assert bits + [] == bits && refs + [] == refs;
      if width > MAX_CELL_BITS || width > MAX_CELL_BITS - |bits| {
        return false;
      }
      if width == 0 {
        return value == 0;
      }
      if value >= Pow2(width) {
        return false;
      }
      ok := StoreBits(ToBits(value, width));
    }

    /** A signed integer of any size, in exactly `width` bits of two's complement. */
    method StoreInt(value: int, width: nat) returns (ok: bool)
      requires Valid()
      modifies this
      ensures Valid()
      ensures ok == (SignedFits(value, width) && old(View()).Then(OfBits(SignedBits(value, width))).Fits())
      ensures View() == if ok then old(View()).Then(OfBits(SignedBits(value, width))) else old(View())
    {
      if width > MAX_CELL_BITS {
        return false;
      }
      if width == 0 {
        assert bits + [] == bits && refs + [] == refs;
        return value == 0;
      }
      var magnitude: int := Pow2(width - 1);
      if value < -magnitude || value > magnitude - 1 {
        return false;
      }
      var unsigned := if value < 0 then Pow2(width) + value else value;
      ok := StoreUint(unsigned, width);
    }

    method StoreBytes(bytes: seq<byte>) returns (ok: bool)
      requires Valid()
      modifies this
      ensures Valid()
      ensures ok == old(View()).Then(OfBits(BytesToBits(bytes))).Fits()
      ensures View() == if ok then old(View()).Then(OfBits(BytesToBits(bytes))) else old(View())
    {
      ok := StoreBits(BytesToBits(bytes));
    }

    method StoreRef(cell: Cell) returns (ok: bool)
      requires Valid()
      modifies this
      ensures Valid()
      ensures ok == old(View()).Then(OfRef(cell)).Fits()
      ensures View() == if ok then old(View()).Then(OfRef(cell)) else old(View())
    {
      assert bits + [] == bits;
      if |refs| >= MAX_CELL_REFS {
        return false;
      }
      refs := refs + [cell];
      return true;
    }

    /** Splices in the contents of a cell: its bits, then its references one by one. */
    method StoreCell(cell: Cell) returns (ok: bool)
      requires Valid()
      modifies this
      ensures Valid()
      ensures ok == old(View()).Then(Contents(cell)).Fits()
      ensures View() == if ok then old(View()).Then(Contents(cell)) else old(View())
    {
      if |refs| + |cell.refs| > MAX_CELL_REFS {
        return false;
      }
      ok := StoreBits(cell.bits);
      if !ok {
        return;
      }
      for i := 0 to |cell.refs|
        invariant Valid() && ok
        invariant bits == old(bits) + cell.bits
        invariant refs == old(refs) + cell.refs[..i]
      {
        ok := StoreRef(cell.refs[i]);
      }
    }

    method Build() returns (cell: Cell)
      requires Valid()
      ensures cell == View().ToCell()
    {
      cell := CellTree(bits, refs);
    }
  }

  // ----- The slice -----

  /** A read cursor over a cell. A failed load of one item does not move it. */
  class Slice {
    var cell: Cell
    var bitPos: nat
    var refPos: nat

    constructor (cell: Cell)
      ensures Valid() && View() == Contents(cell)
    {
      this.cell, bitPos, refPos := cell, 0, 0;
    }

    predicate Valid()
      reads this
    {
      bitPos <= |cell.bits| && refPos <= |cell.refs|
    }

    /** What is still to be read. */
    function View(): (c: Chunk)
      requires Valid()
      reads this
      ensures c.Fits()
    {
      Chunk(cell.bits[bitPos..], cell.refs[refPos..])
    }

    method LoadBits(n: nat) returns (r: Option<seq<bool>>)
      requires Valid()
      modifies this
      ensures Valid()
      ensures match TakeBits(old(View()), n)
        case None => r == None && View() == old(View())
        case Some((bits, rest)) => r == Some(bits) && View() == rest
    {
      if n > |cell.bits| - bitPos {
        return None;
      }
      assert cell.bits[bitPos..][..n] == cell.bits[bitPos..bitPos + n];
      assert cell.bits[bitPos..][n..] == cell.bits[bitPos + n..];
      r := Some(cell.bits[bitPos..bitPos + n]);
      bitPos := bitPos + n;
    }

    method LoadBit() returns (r: Option<bool>)
      requires Valid()
      modifies this
      ensures Valid()
      ensures match TakeBit(old(View()))
        case None => r == None && View() == old(View())
        case Some((bit, rest)) => r == Some(bit) && View() == rest
    {
      if bitPos == |cell.bits| {
        return None;
      }
      r := Some(cell.bits[bitPos]);
      bitPos := bitPos + 1;
    }

    method LoadUint(width: nat) returns (r: Option<nat>)
      requires Valid()
      modifies this
      ensures Valid()
      ensures match TakeUint(old(View()), width)
        case None => r == None && View() == old(View())
        case Some((value, rest)) => r == Some(value) && View() == rest
    {
      if width > MAX_CELL_BITS {
        return None;
      }
      var bits := LoadBits(width);
      r := if bits.Some? then Some(FromBits(bits.value)) else None;
    }

    /** Reads two's complement by subtracting 2^width when the sign bit is set. */
    method LoadInt(width: nat) returns (r: Option<int>)
      requires Valid()
      modifies this
      ensures Valid()
      ensures match TakeInt(old(View()), width)
        case None => r == None && View() == old(View())
        case Some((value, rest)) => r == Some(value) && View() == rest
    {
      if width == 0 {
        assert TakeBits(View(), 0).value == ([], View());
        return Some(0);
      }
      ghost var bits := TakeBits(View(), width);
      var unsigned := LoadUint(width);
      if unsigned == None {
        return None;
      }
      if unsigned.value >= Pow2(width - 1) {
        return Some(unsigned.value - Pow2(width));
      }
      return Some(unsigned.value);
    }

    method LoadBytes(n: nat) returns (r: Option<seq<byte>>)
      requires Valid()
      modifies this
      ensures Valid()
      ensures match TakeBytes(old(View()), n)
        case None => r == None && View() == old(View())
        case Some((bytes, rest)) => r == Some(bytes) && View() == rest
    {
      var bits := LoadBits(8 * n);
      r := if bits.Some? then Some(BitsToBytes(bits.value)) else None;
    }

    method LoadRef() returns (r: Option<Cell>)
      requires Valid()
      modifies this
      ensures Valid()
      ensures match TakeRef(old(View()))
        case None => r == None && View() == old(View())
        case Some((cell, rest)) => r == Some(cell) && View() == rest
    {
      if refPos == |cell.refs| {
        return None;
      }
      r := Some(cell.refs[refPos]);
      refPos := refPos + 1;
    }
  }
}
