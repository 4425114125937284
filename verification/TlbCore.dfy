/**
 * TL-B codec combinators (src/tlb/core.rs).
 *
 * A codec is a layout (what a value occupies), a loader (what a slice yields), and the normal form a value is left in
 * by a round trip. The generic impls of the source (`Option<T>`, `Either<L, R>`, `CellRef<T>`) are functions from
 * codecs to codecs.
 */
module TlbCore {
  import opened Bits
  import opened Cells
  import opened Wrappers

  datatype Codec<!T> = Codec(layout: T -> Option<Chunk>, load: Chunk -> Option<(T, Chunk)>, normal: T -> T)

  /** Reads back what was written whatever follows, and leaves exactly what follows. */
  ghost predicate SelfDelimiting<T(!new)>(c: Codec<T>) {
    forall v: T, rest: Chunk ::
      c.layout(v).Some? ==> c.load(c.layout(v).value.Then(rest)) == Some((c.normal(v), rest))
  }

  /** Reads back what was written when nothing follows; a tail codec eats the rest of the slice. */
  ghost predicate Tail<T(!new)>(c: Codec<T>) {
    forall v: T ::
      c.layout(v).Some? && c.layout(v).value.Fits() ==> c.load(c.layout(v).value) == Some((c.normal(v), EMPTY))
  }

  /** Whatever is accepted is the encoding of what it decodes to, which is in normal form. */
  ghost predicate Lossless<T(!new)>(c: Codec<T>) {
    forall s: Chunk :: c.load(s).Some? ==>
      var (v, rest) := c.load(s).value;
      c.layout(v).Some? && s == c.layout(v).value.Then(rest) && c.normal(v) == v
  }

  /** A normal form encodes like the value it stands for. */
  ghost predicate Normalizing<T(!new)>(c: Codec<T>) {
    forall v: T :: c.layout(c.normal(v)) == c.layout(v)
  }

  lemma SelfDelimitingIsTail<T(!new)>(c: Codec<T>)
    requires SelfDelimiting(c)
    ensures Tail(c)
  {
    forall v | c.layout(v).Some? && c.layout(v).value.Fits()
      ensures c.load(c.layout(v).value) == Some((c.normal(v), EMPTY))
    {
      ThenEmpty(c.layout(v).value);
      assert c.load(c.layout(v).value.Then(EMPTY)) == Some((c.normal(v), EMPTY));
    }
  }

  // ----- Standalone cells: to_cell and from_cell -----

  function ToCell<T>(c: Codec<T>, v: T): Option<Cell> {
    var chunk :- c.layout(v);
    if chunk.Fits() then Some(chunk.ToCell()) else None
  }

  datatype ExactError = Malformed | TrailingData(bits: nat, refs: nat)

  function FromCell<T>(c: Codec<T>, cell: Cell): Result<T, ExactError> {
    match c.load(Contents(cell))
    case None => Err(Malformed)
    case Some((v, rest)) => if rest == EMPTY then Ok(v) else Err(TrailingData(|rest.bits|, |rest.refs|))
  }

  /** Exact decoding undoes encoding, up to the normal form. */
  lemma CellRoundTrip<T(!new)>(c: Codec<T>, v: T)
    requires Tail(c) && ToCell(c, v).Some?
    ensures FromCell(c, ToCell(c, v).value) == Ok(c.normal(v))
  {
    var chunk := c.layout(v).value;
    assert Contents(chunk.ToCell()) == chunk;
  }

  /** Encoding undoes exact decoding, for every accepted cell. */
  lemma CellLossless<T(!new)>(c: Codec<T>, cell: Cell)
    requires Lossless(c) && FromCell(c, cell).Ok?
    ensures ToCell(c, FromCell(c, cell).value) == Some(cell)
  {
    var v := FromCell(c, cell).value;
    ThenEmpty(c.layout(v).value);
  }

  /** A self-delimiting encoding with anything appended is rejected, with the appended counts. */
  lemma CellTrailing<T(!new)>(c: Codec<T>, v: T, extra: Chunk)
    requires SelfDelimiting(c) && c.layout(v).Some?
    requires extra != EMPTY && c.layout(v).value.Then(extra).Fits()
    ensures FromCell(c, c.layout(v).value.Then(extra).ToCell()) == Err(TrailingData(|extra.bits|, |extra.refs|))
  {
    var chunk := c.layout(v).value.Then(extra);
    assert Contents(chunk.ToCell()) == chunk;
  }

  // ----- Primitive codecs -----

  function UintLayout(value: nat, width: nat): Option<Chunk> {
    if UnsignedFits(value, width) then Some(OfBits(ToBits(value, width))) else None
  }

  function UintCodec(width: nat): Codec<nat> {
    Codec((v: nat) => UintLayout(v, width), (c: Chunk) => TakeUint(c, width), (v: nat) => v)
  }

  lemma UintCodecLaws(width: nat)
    ensures SelfDelimiting(UintCodec(width)) && Lossless(UintCodec(width)) && Normalizing(UintCodec(width))
  {
    var c := UintCodec(width);
    forall v: nat, rest: Chunk | c.layout(v).Some?
      ensures c.load(c.layout(v).value.Then(rest)) == Some((c.normal(v), rest))
    {
      TakeUintThen(v, width, rest);
    }
    forall s: Chunk | c.load(s).Some?
      ensures var (v, rest) := c.load(s).value;
        c.layout(v).Some? && s == c.layout(v).value.Then(rest)
    {
      TakenUint(s, width);
    }
  }

  /** A fixed operation code: stored as 32 bits, and any other code is refused. */
  function OpCodec(op: nat): Codec<()> {
    Codec((v: ()) => UintLayout(op, 32),
          (c: Chunk) => match TakeUint(c, 32)
            case Some((actual, rest)) => if actual == op then Some(((), rest)) else None
            case None => None,
          (v: ()) => v)
  }

  lemma OpCodecLaws(op: nat)
    ensures SelfDelimiting(OpCodec(op)) && Lossless(OpCodec(op)) && Normalizing(OpCodec(op))
  {
    var c := OpCodec(op);
    forall v: (), rest: Chunk | c.layout(v).Some?
      ensures c.load(c.layout(v).value.Then(rest)) == Some((c.normal(v), rest))
    {
      TakeUintThen(op, 32, rest);
      assert v == ();
    }
    forall s: Chunk | c.load(s).Some?
      ensures var (v, rest) := c.load(s).value;
        c.layout(v).Some? && s == c.layout(v).value.Then(rest) && c.normal(v) == v
    {
      TakenUint(s, 32);
    }
  }

  // ----- Raw cells and references -----

  /** `Arc<Cell>` and `RawCell`: splices the contents in, and takes whatever is left. */
  function RawCodec(): Codec<Cell> {
    Codec((v: Cell) => Some(Contents(v)),
          (c: Chunk) => if c.Fits() then Some((c.ToCell(), EMPTY)) else None,
          (v: Cell) => v)
  }

  lemma RawCodecLaws()
    ensures Tail(RawCodec()) && Lossless(RawCodec()) && Normalizing(RawCodec())
  {
    var c := RawCodec();
    forall s: Chunk | c.load(s).Some?
      ensures var (v, rest) := c.load(s).value;
        c.layout(v).Some? && s == c.layout(v).value.Then(rest)
    {
      ThenEmpty(s);
      assert Contents(s.ToCell()) == s;
    }
    forall v: Cell
      ensures c.load(c.layout(v).value) == Some((c.normal(v), EMPTY))
    {
      assert Contents(v).ToCell() == v;
    }
  }

  /** The raw codec is not self-delimiting: it takes the bit that follows an empty cell for its own. */
  lemma RawCodecIsNotSelfDelimiting()
    ensures !SelfDelimiting(RawCodec())
  {
    var c := RawCodec();
    var v: Cell := CellTree([], []);
    var rest := OfBits([true]);
    ThenEmpty(rest);
    assert c.layout(v) == Some(EMPTY);
    assert c.load(c.layout(v).value.Then(rest)) == Some((rest.ToCell(), EMPTY));
  }

  /** `CellRef<T>`: the value in a child cell of its own, which must be consumed exactly. */
  function RefLayout<T>(c: Codec<T>, v: T): Option<Chunk> {
    var cell :- ToCell(c, v);
    Some(OfRef(cell))
  }

  function RefLoad<T>(c: Codec<T>, s: Chunk): Option<(T, Chunk)> {
    var (cell, rest) :- TakeRef(s);
    match FromCell(c, cell)
    case Ok(v) => Some((v, rest))
    case Err(_) => None
  }

  function RefCodec<T>(c: Codec<T>): Codec<T> {
    Codec((v: T) => RefLayout(c, v), (s: Chunk) => RefLoad(c, s), c.normal)
  }

  /** Behind a reference even a tail codec becomes self-delimiting. */
  lemma RefCodecLaws<T(!new)>(c: Codec<T>)
    requires Tail(c) && Lossless(c) && Normalizing(c)
    ensures SelfDelimiting(RefCodec(c)) && Lossless(RefCodec(c)) && Normalizing(RefCodec(c))
  {
    var r := RefCodec(c);
    forall v: T, rest: Chunk | r.layout(v).Some?
      ensures r.load(r.layout(v).value.Then(rest)) == Some((r.normal(v), rest))
    {
      var cell := ToCell(c, v).value;
      TakeRefThen(cell, rest);
      CellRoundTrip(c, v);
    }
    forall s: Chunk | r.load(s).Some?
      ensures var (v, rest) := r.load(s).value;
        r.layout(v).Some? && s == r.layout(v).value.Then(rest) && r.normal(v) == v
    {
      TakenRef(s);
      var (cell, rest) := TakeRef(s).value;
      CellLossless(c, cell);
      assert c.load(Contents(cell)).Some?;
    }
  }

  // ----- Maybe, Either, sequence, renaming -----

  function MaybeLayout<T>(c: Codec<T>, v: Option<T>): Option<Chunk> {
    match v
    case None => Some(OfBits([false]))
    case Some(x) =>
      var chunk :- c.layout(x);
      Some(OfBits([true]).Then(chunk))
  }

  function MaybeLoad<T>(c: Codec<T>, s: Chunk): Option<(Option<T>, Chunk)> {
    var (present, afterBit) :- TakeBit(s);
    if present then
      var (x, rest) :- c.load(afterBit);
      Some((Some(x), rest))
    else Some((None, afterBit))
  }

  function MaybeCodec<T>(c: Codec<T>): Codec<Option<T>> {
    Codec((v: Option<T>) => MaybeLayout(c, v), (s: Chunk) => MaybeLoad(c, s),
          (v: Option<T>) => if v.Some? then Some(c.normal(v.value)) else None)
  }

  lemma MaybeCodecLaws<T(!new)>(c: Codec<T>)
    requires SelfDelimiting(c) && Lossless(c) && Normalizing(c)
    ensures SelfDelimiting(MaybeCodec(c)) && Lossless(MaybeCodec(c)) && Normalizing(MaybeCodec(c))
  {
    var m := MaybeCodec(c);
    forall v: Option<T>, rest: Chunk | m.layout(v).Some?
      ensures m.load(m.layout(v).value.Then(rest)) == Some((m.normal(v), rest))
    {
      if v.Some? {
        var chunk := c.layout(v.value).value;
        ThenAssociates(OfBits([true]), chunk, rest);
        TakeBitThen(true, chunk.Then(rest));
      } else {
        TakeBitThen(false, rest);
      }
    }
    forall s: Chunk | m.load(s).Some?
      ensures var (v, rest) := m.load(s).value;
        m.layout(v).Some? && s == m.layout(v).value.Then(rest) && m.normal(v) == v
    {
      TakenBit(s);
      var (present, afterBit) := TakeBit(s).value;
      if present {
        var (x, rest) := c.load(afterBit).value;
        ThenAssociates(OfBits([true]), c.layout(x).value, rest);
      }
    }
  }

  datatype Either<+L, +R> = Left(left: L) | Right(right: R)

  function EitherLayout<L, R>(l: Codec<L>, r: Codec<R>, v: Either<L, R>): Option<Chunk> {
    match v
    case Left(x) =>
      var chunk :- l.layout(x);
      Some(OfBits([false]).Then(chunk))
    case Right(x) =>
      var chunk :- r.layout(x);
      Some(OfBits([true]).Then(chunk))
  }

  function EitherLoad<L, R>(l: Codec<L>, r: Codec<R>, s: Chunk): Option<(Either<L, R>, Chunk)> {
    var (isRight, afterBit) :- TakeBit(s);
    if isRight then
      var (x, rest) :- r.load(afterBit);
      Some((Right(x), rest))
    else
      var (x, rest) :- l.load(afterBit);
      Some((Left(x), rest))
  }

  function EitherCodec<L, R>(l: Codec<L>, r: Codec<R>): Codec<Either<L, R>> {
    Codec((v: Either<L, R>) => EitherLayout(l, r, v), (s: Chunk) => EitherLoad(l, r, s),
          (v: Either<L, R>) => match v case Left(x) => Left(l.normal(x)) case Right(x) => Right(r.normal(x)))
  }

  /** Either branch may be a tail; the choice is then a tail. */
  lemma EitherCodecLaws<L(!new), R(!new)>(l: Codec<L>, r: Codec<R>)
    requires Tail(l) && Lossless(l) && Normalizing(l)
    requires Tail(r) && Lossless(r) && Normalizing(r)
    ensures Tail(EitherCodec(l, r)) && Lossless(EitherCodec(l, r)) && Normalizing(EitherCodec(l, r))
  {
    var e := EitherCodec(l, r);
    forall v: Either<L, R> | e.layout(v).Some? && e.layout(v).value.Fits()
      ensures e.load(e.layout(v).value) == Some((e.normal(v), EMPTY))
    {
      match v
      case Left(x) => TakeBitThen(false, l.layout(x).value);
      case Right(x) => TakeBitThen(true, r.layout(x).value);
    }
    forall s: Chunk | e.load(s).Some?
      ensures var (v, rest) := e.load(s).value;
        e.layout(v).Some? && s == e.layout(v).value.Then(rest) && e.normal(v) == v
    {
      TakenBit(s);
      var (isRight, afterBit) := TakeBit(s).value;
      if isRight {
        var (x, rest) := r.load(afterBit).value;
        ThenAssociates(OfBits([true]), r.layout(x).value, rest);
      } else {
        var (x, rest) := l.load(afterBit).value;
        ThenAssociates(OfBits([false]), l.layout(x).value, rest);
      }
    }
  }

  /** One layout after another. */
  function Both(a: Option<Chunk>, b: Option<Chunk>): Option<Chunk> {
    var x :- a;
    var y :- b;
    Some(x.Then(y))
  }

  function PairLoad<A, B>(a: Codec<A>, b: Codec<B>, s: Chunk): Option<((A, B), Chunk)> {
    var (x, middle) :- a.load(s);
    var (y, rest) :- b.load(middle);
    Some(((x, y), rest))
  }

  function PairCodec<A, B>(a: Codec<A>, b: Codec<B>): Codec<(A, B)> {
    Codec((v: (A, B)) => Both(a.layout(v.0), b.layout(v.1)), (s: Chunk) => PairLoad(a, b, s),
          (v: (A, B)) => (a.normal(v.0), b.normal(v.1)))
  }

  /** Self-delimiting codecs compose. */
  lemma PairSelfDelimiting<A(!new), B(!new)>(a: Codec<A>, b: Codec<B>)
    requires SelfDelimiting(a) && SelfDelimiting(b)
    ensures SelfDelimiting(PairCodec(a, b))
  {
    var p := PairCodec(a, b);
    forall v: (A, B), rest: Chunk | p.layout(v).Some?
      ensures p.load(p.layout(v).value.Then(rest)) == Some((p.normal(v), rest))
    {
      var x, y := a.layout(v.0).value, b.layout(v.1).value;
      ThenAssociates(x, y, rest);
      assert a.load(x.Then(y.Then(rest))) == Some((a.normal(v.0), y.Then(rest)));
      assert b.load(y.Then(rest)) == Some((b.normal(v.1), rest));
    }
  }

  /** One tail codec may come last. */
  lemma PairTail<A(!new), B(!new)>(a: Codec<A>, b: Codec<B>)
    requires SelfDelimiting(a) && Tail(b)
    ensures Tail(PairCodec(a, b))
  {
    var p := PairCodec(a, b);
    forall v: (A, B) | p.layout(v).Some? && p.layout(v).value.Fits()
      ensures p.load(p.layout(v).value) == Some((p.normal(v), EMPTY))
    {
      var x, y := a.layout(v.0).value, b.layout(v.1).value;
      assert a.load(x.Then(y)) == Some((a.normal(v.0), y));
      assert b.load(y) == Some((b.normal(v.1), EMPTY));
    }
  }

  lemma PairLossless<A(!new), B(!new)>(a: Codec<A>, b: Codec<B>)
    requires Lossless(a) && Lossless(b) && Normalizing(a) && Normalizing(b)
    ensures Lossless(PairCodec(a, b)) && Normalizing(PairCodec(a, b))
  {
    var p := PairCodec(a, b);
    forall s: Chunk | p.load(s).Some?
      ensures var (v, rest) := p.load(s).value;
        p.layout(v).Some? && s == p.layout(v).value.Then(rest) && p.normal(v) == v
    {
      var (x, middle) := a.load(s).value;
      var (y, rest) := b.load(middle).value;
      ThenAssociates(a.layout(x).value, b.layout(y).value, rest);
    }
    forall v: (A, B)
      ensures p.layout(p.normal(v)) == p.layout(v)
    {
      assert a.layout(a.normal(v.0)) == a.layout(v.0);
      assert b.layout(b.normal(v.1)) == b.layout(v.1);
    }
  }

  function MapLoad<A, B>(c: Codec<A>, to: A -> B, s: Chunk): Option<(B, Chunk)> {
    var (x, rest) :- c.load(s);
    Some((to(x), rest))
  }

  /** The same codec under another name for its values: a struct for its tuple of fields. */
  function MapCodec<A, B>(c: Codec<A>, to: A -> B, from: B -> A): Codec<B> {
    Codec((v: B) => c.layout(from(v)), (s: Chunk) => MapLoad(c, to, s), (v: B) => to(c.normal(from(v))))
  }

  ghost predicate Renaming<A(!new), B(!new)>(to: A -> B, from: B -> A) {
    forall x: A :: from(to(x)) == x
  }

  lemma MapCodecLaws<A(!new), B(!new)>(c: Codec<A>, to: A -> B, from: B -> A)
    requires Renaming(to, from)
    ensures SelfDelimiting(c) ==> SelfDelimiting(MapCodec(c, to, from))
    ensures Tail(c) ==> Tail(MapCodec(c, to, from))
    ensures Lossless(c) && Normalizing(c) ==> Lossless(MapCodec(c, to, from)) && Normalizing(MapCodec(c, to, from))
  {
    var m := MapCodec(c, to, from);
    if SelfDelimiting(c) {
      forall v: B, rest: Chunk | m.layout(v).Some?
        ensures m.load(m.layout(v).value.Then(rest)) == Some((m.normal(v), rest))
      {
        assert c.layout(from(v)).Some?;
      }
    }
    if Lossless(c) && Normalizing(c) {
      forall s: Chunk | m.load(s).Some?
        ensures var (v, rest) := m.load(s).value;
          m.layout(v).Some? && s == m.layout(v).value.Then(rest) && m.normal(v) == v
      {
        var (x, rest) := c.load(s).value;
        assert from(to(x)) == x;
      }
    }
  }
}
