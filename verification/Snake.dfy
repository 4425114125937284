/**
 * Snake byte chains: a byte string spread over a chain of cells.
 * The writer is in src/tvm/builder.rs; src/abi/model.rs reads a chain by recursion, src/metadata.rs by a loop.
 */
module Snake {
  import opened Bits
  import opened Cells
  import opened Wrappers

  const SNAKE_CELL_BYTES := MAX_CELL_BITS / 8

  datatype SnakeError = NonByteAligned(bits: nat) | TooManyRefs(refs: nat)

  // ----- Specification -----

  /** The chunk that holds `bytes` when `available` whole bytes are free in the current cell. */
  function SnakeChunk(available: nat, bytes: seq<byte>): (c: Chunk)
    requires available <= SNAKE_CELL_BYTES
    ensures c.Fits()
    decreases |bytes|, SNAKE_CELL_BYTES - available
  {
    if |bytes| <= available then OfBits(BytesToBits(bytes))
    else Chunk(BytesToBits(bytes[..available]), [SnakeChunk(SNAKE_CELL_BYTES, bytes[available..]).ToCell()])
  }

  function SnakeCell(bytes: seq<byte>): Cell {
    SnakeChunk(SNAKE_CELL_BYTES, bytes).ToCell()
  }

  function ReadSnake(bits: seq<bool>, refs: seq<Cell>): Result<seq<byte>, SnakeError>
    decreases refs
  {
    if |bits| % 8 != 0 then Err(NonByteAligned(|bits|))
    else if |refs| == 0 then Ok(BitsToBytes(bits))
    else if |refs| == 1 then
      var rest :- ReadSnake(refs[0].bits, refs[0].refs);
      Ok(BitsToBytes(bits) + rest)
    else Err(TooManyRefs(|refs|))
  }

  // ----- The writer and the two readers -----

  method StoreSnakeBytes(b: Builder, bytes: seq<byte>) returns (ok: bool)
    requires b.Valid()
    modifies b
    ensures b.Valid()
    ensures var chunk := SnakeChunk((MAX_CELL_BITS - |old(b.bits)|) / 8, bytes);
      && ok == old(b.View()).Then(chunk).Fits()
      && (ok ==> b.View() == old(b.View()).Then(chunk))
    decreases |bytes|, |b.bits|
  {
    if |bytes| == 0 {
      assert BytesToBits(bytes) == [];
      ThenEmpty(b.View());
      return true;
    }
    var available := (MAX_CELL_BITS - |b.bits|) / 8;
    if |bytes| <= available {
      ok := b.StoreBytes(bytes);
      return;
    }
    var before := b.View();
    ok := b.StoreBytes(bytes[..available]);
    var next := new Builder();
    assert |bytes[available..]| < |bytes| || |next.bits| < |before.bits|;
    var fits := StoreSnakeBytes(next, bytes[available..]);
    ThenEmpty(SnakeChunk(SNAKE_CELL_BYTES, bytes[available..]));
    var cell := next.Build();
    ok := b.StoreRef(cell);
    assert before.Then(OfBits(BytesToBits(bytes[..available]))).Then(OfRef(cell))
        == before.Then(SnakeChunk(available, bytes)) by {
      ThenAssociates(before, OfBits(BytesToBits(bytes[..available])), OfRef(cell));
      assert OfBits(BytesToBits(bytes[..available])).Then(OfRef(cell)) == SnakeChunk(available, bytes) by {
        assert BytesToBits(bytes[..available]) + [] == BytesToBits(bytes[..available]);
        assert [] + [cell] == [cell];
      }
    }
  }

  method NewSnakeCell(bytes: seq<byte>) returns (cell: Cell)
    ensures cell == SnakeCell(bytes)
  {
    var b := new Builder();
    var ok := StoreSnakeBytes(b, bytes);
    ThenEmpty(SnakeChunk(SNAKE_CELL_BYTES, bytes));
    cell := b.Build();
  }

  /** The recursive reader: appends the payload of the chain to the bytes gathered so far. */
  method ReadSnakeCellInto(cell: Cell, gathered: seq<byte>) returns (r: Result<seq<byte>, SnakeError>)
    ensures match ReadSnake(cell.bits, cell.refs)
      case Ok(payload) => r == Ok(gathered + payload)
      case Err(e) => r == Err(e)
    decreases cell
  {
    hide BytesToBits, BitsToBytes;
    var s := new Slice(cell);
    if (|s.cell.bits| - s.bitPos) % 8 != 0 {
      return Err(NonByteAligned(|s.cell.bits| - s.bitPos));
    }
    var here := s.LoadBytes(|cell.bits| / 8);
    assert cell.bits[..|cell.bits|] == cell.bits;
    var bytes := gathered + here.value;
    if |cell.refs| == 0 {
      return Ok(bytes);
    } else if |cell.refs| == 1 {
      var next := s.LoadRef();
      r := ReadSnakeCellInto(next.value, bytes);
      if r.Ok? {
        var rest := ReadSnake(next.value.bits, next.value.refs).value;
        assert (gathered + here.value) + rest == gathered + (here.value + rest);
      }
    } else {
      return Err(TooManyRefs(|cell.refs|));
    }
  }

  /** The iterative reader, starting anywhere inside a cell and re-aiming the slice along the chain. */
  method FlattenSnakeSlice(s: Slice) returns (r: Result<seq<byte>, SnakeError>)
    requires s.Valid()
    modifies s
    ensures s.Valid()
    ensures r == ReadSnake(old(s.View()).bits, old(s.View()).refs)
  {
    hide BytesToBits, BitsToBytes;
    var bytes: seq<byte> := [];
    ghost var start := s.View();
    assert forall payload: seq<byte> :: [] + payload == payload;
    while true
      invariant s.Valid()
      invariant ReadSnake(start.bits, start.refs) == match ReadSnake(s.View().bits, s.View().refs)
        case Ok(payload) => Ok(bytes + payload)
        case Err(e) => Err(e)
      decreases s.cell
    {
      ghost var here := s.View();
      var bits := |s.cell.bits| - s.bitPos;
      if bits % 8 != 0 {
        return Err(NonByteAligned(bits));
      }
      var loaded := s.LoadBytes(bits / 8);
      assert here.bits[..|here.bits|] == here.bits;
      ghost var before := bytes;
      bytes := bytes + loaded.value;
      var refs := |s.cell.refs| - s.refPos;
      if refs == 0 {
        return Ok(bytes);
      } else if refs == 1 {
        var next := s.LoadRef();
        s.cell, s.bitPos, s.refPos := next.value, 0, 0;
        assert s.View() == Contents(next.value);
        assert forall payload: seq<byte> ::
            before + (loaded.value + payload) == (before + loaded.value) + payload;
      } else {
        return Err(TooManyRefs(refs));
      }
    }
  }

  // ----- Properties -----

  /** Whatever room the first cell had left, the chain reads back as the bytes written. */
  lemma {:induction false} SnakeRoundTrip(available: nat, bytes: seq<byte>)
    requires available <= SNAKE_CELL_BYTES
    ensures ReadSnake(SnakeChunk(available, bytes).bits, SnakeChunk(available, bytes).refs) == Ok(bytes)
    decreases |bytes|, SNAKE_CELL_BYTES - available
  {
    if |bytes| <= available {
      BytesRoundTrip(bytes);
    } else {
      SnakeRoundTrip(SNAKE_CELL_BYTES, bytes[available..]);
      BytesRoundTrip(bytes[..available]);
      assert bytes == bytes[..available] + bytes[available..];
    }
  }

  predicate ValidSplit(parts: seq<seq<byte>>) {
    parts != [] && forall i :: 0 <= i < |parts| ==> |parts[i]| <= SNAKE_CELL_BYTES
  }

  /** The chain that keeps each part in a cell of its own. */
  function Chain(parts: seq<seq<byte>>): Cell
    requires ValidSplit(parts)
  {
    var refs: seq<Cell> := if |parts| == 1 then [] else [Chain(parts[1..])];
    Chunk(BytesToBits(parts[0]), refs).ToCell()
  }

  function Flatten(parts: seq<seq<byte>>): seq<byte> {
    if parts == [] then [] else parts[0] + Flatten(parts[1..])
  }

  /** A byte-aligned chain reads back as its payload however it was split, and only chains are readable. */
  lemma {:induction false} AnySplitReads(parts: seq<seq<byte>>)
    requires ValidSplit(parts)
    ensures ReadSnake(Chain(parts).bits, Chain(parts).refs) == Ok(Flatten(parts))
  {
    hide BytesToBits, BitsToBytes;
    var bits := BytesToBits(parts[0]);
    BytesRoundTrip(parts[0]);
    if |parts| == 1 {
      assert ReadSnake(bits, []) == Ok(parts[0]);
      assert parts[0] + [] == parts[0];
    } else {
      var tail := Chain(parts[1..]);
      AnySplitReads(parts[1..]);
      assert ReadSnake(bits, [tail]) == Ok(parts[0] + Flatten(parts[1..]));
    }
  }

  lemma {:induction false} ReadableIsChain(cell: Cell) returns (parts: seq<seq<byte>>)
    requires ReadSnake(cell.bits, cell.refs).Ok?
    ensures ValidSplit(parts) && Chain(parts) == cell
    decreases cell
  {
    hide BytesToBits, BitsToBytes;
    var head := BitsToBytes(cell.bits);
    BitsRoundTrip(cell.bits);
    if |cell.refs| == 0 {
      parts := [head];
      assert Chain(parts) == CellTree(cell.bits, []);
    } else {
      var next: Cell := cell.refs[0];
      var tail := ReadableIsChain(next);
      parts := [head] + tail;
      assert parts[1..] == tail;
      assert Chain(parts) == CellTree(cell.bits, [next]);
      assert cell.refs == [next];
    }
  }

  /** Every cell but the last is full, and the last one is not an empty continuation. */
  predicate CanonicalSnake(cell: Cell)
    decreases cell
  {
    if |cell.refs| == 0 then |cell.bits| % 8 == 0
    else
      && |cell.refs| == 1
      && |cell.bits| == 8 * SNAKE_CELL_BYTES
      && (cell.refs[0].bits != [] || cell.refs[0].refs != [])
      && CanonicalSnake(cell.refs[0])
  }

  /** Re-encoding a readable chain gives the same cell exactly when the chain was packed canonically. */
  lemma {:induction false} ReencodedSnake(cell: Cell)
    requires ReadSnake(cell.bits, cell.refs).Ok?
    ensures SnakeCell(ReadSnake(cell.bits, cell.refs).value) == cell <==> CanonicalSnake(cell)
    decreases cell
  {
    hide BytesToBits, BitsToBytes;
    var head := BitsToBytes(cell.bits);
    BitsRoundTrip(cell.bits);
    if |cell.refs| == 1 {
      var next: Cell := cell.refs[0];
      var tail := ReadSnake(next.bits, next.refs).value;
      var payload := head + tail;
      ReencodedSnake(next);
      SnakeRoundTrip(SNAKE_CELL_BYTES, tail);
      if |head| == SNAKE_CELL_BYTES && tail != [] {
        assert payload[..SNAKE_CELL_BYTES] == head && payload[SNAKE_CELL_BYTES..] == tail;
        assert cell.refs == [next];
        assert SnakeCell(payload) == CellTree(cell.bits, [SnakeCell(tail)]);
      } else if |head| < SNAKE_CELL_BYTES && |payload| > SNAKE_CELL_BYTES {
        assert |SnakeCell(payload).bits| == 8 * SNAKE_CELL_BYTES;
      }
    } else {
      assert |head| <= SNAKE_CELL_BYTES;
    }
  }
}
