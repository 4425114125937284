/** Which byte chains are refused, and for what (src/metadata.rs, src/abi/model.rs). */
module SnakeRefusals {
  import opened Bits
  import opened Cells
  import opened Snake
  import opened Wrappers

  predicate Aligned(cell: Cell) {
    |cell.bits| % 8 == 0
  }

  predicate GoesOn(cell: Cell) {
    Aligned(cell) && |cell.refs| == 1
  }

  function Next(cell: Cell): Cell
    requires GoesOn(cell)
  {
    cell.refs[0]
  }

  /** The cell `k` links down a chain whose cells before it are byte-aligned and have one reference each. */
  function Link(cell: Cell, k: nat): Option<Cell> {
    if k == 0 then Some(cell) else if GoesOn(cell) then Link(Next(cell), k - 1) else None
  }

  predicate Breaks(cell: Cell, error: SnakeError) {
    match error
    case NonByteAligned(bits) => bits == |cell.bits| && !Aligned(cell)
    case TooManyRefs(refs) => Aligned(cell) && refs == |cell.refs| > 1
  }

  predicate BreaksAt(cell: Cell, k: nat, error: SnakeError) {
    Link(cell, k).Some? && Breaks(Link(cell, k).value, error)
  }

  lemma BreaksHere(cell: Cell, error: SnakeError)
    ensures BreaksAt(cell, 0, error) <==> Breaks(cell, error)
    ensures GoesOn(cell) ==> !Breaks(cell, error)
    ensures !GoesOn(cell) ==> (ReadSnake(cell.bits, cell.refs) == Err(error) <==> Breaks(cell, error))
  {
    hide BitsToBytes;
  }

  lemma BreaksLater(cell: Cell, k: nat, error: SnakeError)
    requires k > 0
    ensures BreaksAt(cell, k, error) <==> GoesOn(cell) && BreaksAt(Next(cell), k - 1, error)
  {
    hide Breaks;
  }

  lemma RefusedLater(cell: Cell, error: SnakeError)
    requires GoesOn(cell)
    ensures ReadSnake(cell.bits, cell.refs) == Err(error) <==> ReadSnake(Next(cell).bits, Next(cell).refs) == Err(error)
  {
    hide BitsToBytes;
  }

  /** A chain is refused exactly when a cell down the chain is misaligned, or aligned with too many references. */
  lemma {:induction false} RefusedIff(cell: Cell, error: SnakeError)
    ensures ReadSnake(cell.bits, cell.refs) == Err(error) <==> exists k: nat :: BreaksAt(cell, k, error)
    decreases cell
  {
    hide ReadSnake, BreaksAt, Breaks;
    BreaksHere(cell, error);
    if k: nat :| BreaksAt(cell, k, error) {
      if k > 0 {
        BreaksLater(cell, k, error);
        RefusedLater(cell, error);
        RefusedIff(Next(cell), error);
      }
    }
    if ReadSnake(cell.bits, cell.refs) == Err(error) && GoesOn(cell) {
      RefusedLater(cell, error);
      RefusedIff(Next(cell), error);
      var k: nat :| BreaksAt(Next(cell), k, error);
      BreaksLater(cell, k + 1, error);
    }
  }
}
