/** The laws a TL-B codec obeys, in the two strengths that occur, and how they carry over to sequences of codecs. */
module TlbLaws {
  import opened Cells
  import opened TlbCore
  import opened Wrappers

  ghost predicate FieldLaws<T(!new)>(c: Codec<T>) {
    SelfDelimiting(c) && Lossless(c) && Normalizing(c)
  }

  ghost predicate TailLaws<T(!new)>(c: Codec<T>) {
    Tail(c) && Lossless(c) && Normalizing(c)
  }

  lemma FieldAsTail<T(!new)>(c: Codec<T>)
    requires FieldLaws(c)
    ensures TailLaws(c)
  {
    SelfDelimitingIsTail(c);
  }

  lemma FieldThenField<A(!new), B(!new)>(a: Codec<A>, b: Codec<B>)
    requires FieldLaws(a) && FieldLaws(b)
    ensures FieldLaws(PairCodec(a, b))
  {
    hide SelfDelimiting, Lossless, Normalizing, PairCodec;
    PairSelfDelimiting(a, b);
    PairLossless(a, b);
  }

  /** A field in front of a tail. */
  lemma Prepend<A(!new), B(!new)>(a: Codec<A>, b: Codec<B>) returns (p: Codec<(A, B)>)
    requires FieldLaws(a) && TailLaws(b)
    ensures p == PairCodec(a, b) && TailLaws(p)
  {
    p := PairCodec(a, b);
    hide SelfDelimiting, Tail, Lossless, Normalizing, PairCodec;
    PairTail(a, b);
    PairLossless(a, b);
  }

  lemma Renamed<A(!new), B(!new)>(c: Codec<A>, to: A -> B, from: B -> A)
    requires Renaming(to, from)
    ensures FieldLaws(c) ==> FieldLaws(MapCodec(c, to, from))
    ensures TailLaws(c) ==> TailLaws(MapCodec(c, to, from))
  {
    hide SelfDelimiting, Tail, Lossless, Normalizing, MapCodec, Renaming;
    MapCodecLaws(c, to, from);
  }

  /** Exact decoding and encoding undo each other, on every value that encodes and on every cell that decodes. */
  ghost predicate ExactRoundTrips<T(!new)>(c: Codec<T>) {
    && (forall v: T :: ToCell(c, v).Some? ==> FromCell(c, ToCell(c, v).value) == Ok(c.normal(v)))
    && (forall cell: Cell :: FromCell(c, cell).Ok? ==> ToCell(c, FromCell(c, cell).value) == Some(cell))
  }

  lemma TailRoundTrips<T(!new)>(c: Codec<T>)
    requires TailLaws(c)
    ensures ExactRoundTrips(c)
  {
    hide Tail, Lossless, Normalizing, ToCell, FromCell;
    forall v: T | ToCell(c, v).Some? ensures FromCell(c, ToCell(c, v).value) == Ok(c.normal(v)) {
      CellRoundTrip(c, v);
    }
    forall cell: Cell | FromCell(c, cell).Ok? ensures ToCell(c, FromCell(c, cell).value) == Some(cell) {
      CellLossless(c, cell);
    }
  }

  lemma FieldLawsOfUint(width: nat)
    ensures FieldLaws(UintCodec(width))
  {
    UintCodecLaws(width);
  }
}
