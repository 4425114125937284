/**
 * Every spelling of a type string and what it means (src/abi/json.rs): blanks, plus signs and leading zeros included,
 * and nothing else accepted.
 */
module TypeSpellings {
  import opened AbiModel
  import opened Numerals
  import opened SchemaTokens
  import opened Text
  import opened TypeStrings
  import opened Wrappers

  // ----- Blanks -----

  /** The white space of the Unicode character database, one by one. */
  lemma BlankCharacters(c: char)
    ensures IsWhitespace(c) <==> c in {
      '\t', '\n', '\U{0B}', '\U{0C}', '\r', ' ', '\U{85}', '\U{A0}', '\U{1680}', '\U{2000}', '\U{2001}', '\U{2002}',
      '\U{2003}', '\U{2004}', '\U{2005}', '\U{2006}', '\U{2007}', '\U{2008}', '\U{2009}', '\U{200A}', '\U{2028}',
      '\U{2029}', '\U{202F}', '\U{205F}', '\U{3000}'}
  {
    var code := c as int;
    assert 0x2000 <= code <= 0x200A ==> code - 0x2000 in {0, 1, 2, 3, 4, 5, 6, 7, 8, 9, 10};
  }

  /** A text between blanks, with none at its ends. */
  predicate Within(text: string, core: string, from: nat) {
    && from + |core| <= |text| && text[from..from + |core|] == core
    && Blank(text[..from]) && Blank(text[from + |core|..])
    && (core != [] ==> !IsWhitespace(core[0]) && !IsWhitespace(core[|core| - 1]))
  }

  lemma {:induction false} TrimStartSplits(s: string) returns (blank: string)
    ensures s == blank + TrimStart(s) && Blank(blank)
    ensures TrimStart(s) != [] ==> !IsWhitespace(TrimStart(s)[0])
  {
    hide IsWhitespace;
    if s != [] && IsWhitespace(s[0]) {
      var shorter := TrimStartSplits(s[1..]);
      blank := [s[0]] + shorter;
    } else {
      blank := [];
    }
  }

  /** Trimming takes off the blanks at both ends, and nothing more. */
  lemma TrimIsWithin(s: string) returns (from: nat)
    ensures Within(s, Trim(s), from)
  {
    hide IsWhitespace;
    var before := TrimStartSplits(s);
    var middle := TrimStart(s);
    var after := TrimEndSplits(middle);
    from := |before|;
    assert s == before + Trim(s) + after;
    assert s[..from] == before && s[from + |Trim(s)|..] == after;
    assert Trim(s) != [] ==> Trim(s)[0] == middle[0];
  }

  lemma {:induction false} TrimStartOf(blank: string, s: string)
    requires Blank(blank) && (s != [] ==> !IsWhitespace(s[0]))
    ensures TrimStart(blank + s) == s
  {
    if blank != [] {
      assert (blank + s)[1..] == blank[1..] + s;
      TrimStartOf(blank[1..], s);
    } else {
      assert blank + s == s;
    }
  }

  lemma WithinIsTrim(s: string, core: string, from: nat)
    requires Within(s, core, from)
    ensures Trim(s) == core
  {
    hide IsWhitespace;
    var before, after := s[..from], s[from + |core|..];
    assert s == before + (core + after);
    if core == [] {
      assert Blank(before + after);
      assert s == (before + after) + [];
      TrimStartOf(before + after, []);
    } else {
      TrimStartOf(before, core + after);
      TrimEndOf(core, after);
    }
  }

  // ----- Meanings -----

  /** What a text without blanks at its ends means; the inside of brackets may have blanks of its own. */
  ghost predicate Means(core: string, ty: AbiType)
    decreases |core|, 0
  {
    match ty
    case TOptional(item) =>
      exists inner :: core == "optional<" + inner + ">" && |inner| < |core| && Accepted(inner, item)
    case TArray(item) =>
      exists inner :: core == "array<" + inner + ">" && |inner| < |core| && Accepted(inner, item)
    case TUint(bits) => 1 <= bits <= 257 && exists digits :: core == "uint" + digits && Spells(digits, bits)
    case TInt(bits) => 1 <= bits <= 257 && exists digits :: core == "int" + digits && Spells(digits, bits)
    case TBool => core == "bool"
    case TBytes => core == "bytes"
    case TString => core == "string"
    case TAddress => core == "address"
    case TCell => core == "cell"
    case TSlice => core == "slice"
    case TTuple(_) => false
    case TMap(_, _, _) => false
    case TUnknown(_) => false
  }

  /** A text means what it means between its blanks. */
  ghost predicate Accepted(text: string, ty: AbiType)
    decreases |text|, 1
  {
    exists core, from :: Within(text, core, from) && Means(core, ty)
  }

  lemma AcceptedIsTrimmed(text: string, ty: AbiType)
    ensures Accepted(text, ty) <==> Means(Trim(text), ty)
  {
    hide Means, Within;
    if Accepted(text, ty) {
      var core, from :| Within(text, core, from) && Means(core, ty);
      WithinIsTrim(text, core, from);
    }
    if Means(Trim(text), ty) {
      var from := TrimIsWithin(text);
    }
  }

  lemma BracketedIff(s: string, opening: string, inner: string)
    ensures Bracketed(s, opening) == Some(inner) <==> s == opening + inner + ">"
  {
    hide Bracketed;
    if s == opening + inner + ">" {
      BracketedOf(opening, inner);
    }
  }

  lemma BitsIff(digits: string, bits: u16)
    ensures ParseBits(digits) == Ok(bits) <==> 1 <= bits <= 257 && Spells(digits, bits)
  {
    hide ParseU16, Spells;
    ParseU16Iff(digits, bits);
  }

  // ----- One step of the parser -----

  lemma Unopened(s: string)
    requires s != [] && s[0] != 'o' && (s[0] == 'a' ==> |s| > 1 && s[1] != 'r')
    ensures Bracketed(s, "optional<") == None && Bracketed(s, "array<") == None
  {
    hide Bracketed;
    OtherOpening(s, "optional<");
    if s[0] == 'a' {
      NotBracketed(s, "array<", 1);
    } else {
      OtherOpening(s, "array<");
    }
  }

  lemma ArrayIsNotOptional(s: string)
    requires Bracketed(s, "array<").Some?
    ensures Bracketed(s, "optional<") == None
  {
    hide Bracketed;
    BracketedIff(s, "array<", Bracketed(s, "array<").value);
    assert s[0] == 'a';
    OtherOpening(s, "optional<");
  }

  /** Inside the brackets when there are any, and then the result is what the inside gives. */
  lemma BracketStep(text: string)
    ensures var s := Trim(text);
      var optional, list := Bracketed(s, "optional<"), Bracketed(s, "array<");
      && (if optional.Some? then ParseType(text) == Wrapped(ParseType(optional.value), ty => TOptional(ty))
          else !(ParseType(text).Ok? && ParseType(text).value.TOptional?))
      && (if list.Some? then ParseType(text) == Wrapped(ParseType(list.value), ty => TArray(ty))
          else !(ParseType(text).Ok? && ParseType(text).value.TArray?))
  {
    hide Bracketed, Trim, ParseBits, ParseName;
    var s := Trim(text);
    if Bracketed(s, "array<").Some? {
      ArrayIsNotOptional(s);
    }
    NamesAreNamed(s);
  }

  function Wrapped(r: Parsed<AbiType>, wrap: AbiType -> AbiType): Parsed<AbiType> {
    match r
    case Ok(ty) => Ok(wrap(ty))
    case Err(e) => Err(e)
  }

  lemma NamesAreNamed(s: string)
    ensures ParseName(s).Ok? ==> Named(ParseName(s).value)
  {
  }

  /** A width after its word, and no other way to an integer type. */
  lemma WidthStep(text: string, bits: u16)
    ensures var s := Trim(text);
      && (ParseType(text) == Ok(TUint(bits)) <==> "uint" <= s && ParseBits(s[4..]) == Ok(bits))
      && (ParseType(text) == Ok(TInt(bits)) <==> "int" <= s && ParseBits(s[3..]) == Ok(bits))
  {
    hide Bracketed, Trim, ParseBits, ParseName;
    var s := Trim(text);
    NamesAreNamed(s);
    if "uint" <= s {
      assert s[0] == "uint"[0];
      Unopened(s);
      OtherOpening(s, "int");
    } else if "int" <= s {
      assert s[0] == "int"[0];
      Unopened(s);
    }
  }

  // ----- Meanings, constructor by constructor -----

  lemma MeansOptional(s: string, item: AbiType)
    ensures var inner := Bracketed(s, "optional<");
      Means(s, TOptional(item)) <==> inner.Some? && Accepted(inner.value, item)
  {
    hide Bracketed, Accepted;
    forall inner ensures Bracketed(s, "optional<") == Some(inner) <==> s == "optional<" + inner + ">" {
      BracketedIff(s, "optional<", inner);
    }
  }

  lemma MeansArray(s: string, item: AbiType)
    ensures var inner := Bracketed(s, "array<");
      Means(s, TArray(item)) <==> inner.Some? && Accepted(inner.value, item)
  {
    hide Bracketed, Accepted;
    forall inner ensures Bracketed(s, "array<") == Some(inner) <==> s == "array<" + inner + ">" {
      BracketedIff(s, "array<", inner);
    }
  }

  lemma MeansUint(s: string, bits: u16)
    ensures Means(s, TUint(bits)) <==> "uint" <= s && ParseBits(s[4..]) == Ok(bits)
  {
    hide ParseBits, Spells;
    forall digits ensures s == "uint" + digits <==> "uint" <= s && digits == s[4..] {
    }
    if "uint" <= s {
      BitsIff(s[4..], bits);
    }
  }

  lemma MeansInt(s: string, bits: u16)
    ensures Means(s, TInt(bits)) <==> "int" <= s && ParseBits(s[3..]) == Ok(bits)
  {
    hide ParseBits, Spells;
    forall digits ensures s == "int" + digits <==> "int" <= s && digits == s[3..] {
    }
    if "int" <= s {
      BitsIff(s[3..], bits);
    }
  }

  /** The six types known by a name alone. */
  predicate Named(ty: AbiType) {
    ty.TBool? || ty.TBytes? || ty.TString? || ty.TAddress? || ty.TCell? || ty.TSlice?
  }

  lemma NameIff(text: string, ty: AbiType)
    requires Named(ty)
    ensures ParseType(text) == Ok(ty) <==> Means(Trim(text), ty)
  {
    hide Bracketed, Trim, ParseBits, ParseName;
    var s := Trim(text);
    NameMeans(s, ty);
    if Means(s, ty) {
      Unopened(s);
      OtherOpening(s, "uint");
      OtherOpening(s, "int");
    }
  }

  lemma NameMeans(s: string, ty: AbiType)
    requires Named(ty)
    ensures ParseName(s) == Ok(ty) <==> Means(s, ty)
    ensures Means(s, ty) ==> |s| > 1 && s[0] in {'b', 's', 'a', 'c'} && s[1] != 'r'
  {
  }

  lemma NoOther(text: string, ty: AbiType)
    requires ty.TTuple? || ty.TMap? || ty.TUnknown?
    ensures ParseType(text) != Ok(ty)
  {
    hide Bracketed, Trim, ParseBits;
  }

  /** A text is parsed exactly when it is a spelling of a type, and then to that type. */
  lemma {:induction false} ParsesIff(text: string, ty: AbiType)
    ensures ParseType(text) == Ok(ty) <==> Accepted(text, ty)
    decreases |text|, ty
  {
    hide ParseType, Means, Accepted, Trim, Bracketed, ParseBits;
    AcceptedIsTrimmed(text, ty);
    match ty
    case TOptional(item) =>
      BracketStep(text);
      MeansOptional(Trim(text), item);
      var inner := Bracketed(Trim(text), "optional<");
      if inner.Some? {
        ParsesIff(inner.value, item);
      }
    case TArray(item) =>
      BracketStep(text);
      MeansArray(Trim(text), item);
      var inner := Bracketed(Trim(text), "array<");
      if inner.Some? {
        ParsesIff(inner.value, item);
      }
    case TUint(bits) =>
      WidthStep(text, bits);
      MeansUint(Trim(text), bits);
    case TInt(bits) =>
      WidthStep(text, bits);
      MeansInt(Trim(text), bits);
    case TTuple(_) =>
      NoOther(text, ty);
      MeansNoOther(Trim(text), ty);
    case TMap(_, _, _) =>
      NoOther(text, ty);
      MeansNoOther(Trim(text), ty);
    case TUnknown(_) =>
      NoOther(text, ty);
      MeansNoOther(Trim(text), ty);
    case _ => NameIff(text, ty);
  }

  lemma MeansNoOther(s: string, ty: AbiType)
    requires ty.TTuple? || ty.TMap? || ty.TUnknown?
    ensures !Means(s, ty)
  {
  }

  /** A width that is a 16-bit number but not between 1 and 257 is refused as such, with the number. */
  lemma WidthRefused(text: string, digits: string, bits: u16)
    requires (Trim(text) == "uint" + digits || Trim(text) == "int" + digits) && Spells(digits, bits)
    requires !(1 <= bits <= 257)
    ensures ParseType(text) == Err(InvalidWidth(bits))
  {
    hide Bracketed, Trim, Spells, ParseU16;
    var s := Trim(text);
    ParseU16Iff(digits, bits);
    Unopened(s);
    if s == "uint" + digits {
      assert "uint" <= s && s[4..] == digits;
    } else {
      assert s[0] == "int"[0];
      OtherOpening(s, "uint");
      assert "int" <= s && s[3..] == digits;
    }
  }

  // ----- Labels -----

  lemma {:induction false} DecimalIsDigits(n: nat)
    ensures Decimal(n) == DigitChars(n)
  {
    if n >= 10 {
      DecimalIsDigits(n / 10);
    }
  }

  /** The fields of a tuple in their order, each with its name, parted by commas. */
  lemma {:induction false} FieldLabelsSnoc(fields: seq<AbiParameter>, last: AbiParameter)
    ensures FieldLabels([]) == ""
    ensures FieldLabels(fields + [last]) ==
      FieldLabels(fields) + (if fields == [] then "" else ",") + last.name + ":" + Label(last.ty)
  {
    hide Label;
    if fields == [] {
      assert [] + [last] == [last];
      assert "" + "" + last.name + ":" + Label(last.ty) == last.name + ":" + Label(last.ty);
    } else {
      assert (fields + [last])[1..] == fields[1..] + [last];
      FieldLabelsSnoc(fields[1..], last);
      var first, more := fields[0].name + ":" + Label(fields[0].ty), FieldLabels(fields[1..]);
      var end := last.name + ":" + Label(last.ty);
      if |fields| == 1 {
        assert fields[1..] == [];
        assert first + "," + ("" + "" + last.name + ":" + Label(last.ty))
            == first + "," + last.name + ":" + Label(last.ty);
      } else {
        Regroup(first + ",", more, last.name, Label(last.ty));
      }
    }
  }

  lemma Regroup(a: string, b: string, name: string, label_: string)
    ensures a + (b + "," + name + ":" + label_) == a + b + "," + name + ":" + label_
  {
  }

  /** Numbers in labels are in plain digits; a map names its key width when it has one. */
  lemma LabelsAreLiteral(key: AbiType, value: AbiType, bits: u16)
    ensures Label(TUint(bits)) == "uint" + DigitChars(bits) && Label(TInt(bits)) == "int" + DigitChars(bits)
    ensures Label(TMap(key, value, None)) == "map<" + Label(key) + "," + Label(value) + ">"
    ensures Label(TMap(key, value, Some(bits))) ==
      "map<" + Label(key) + "," + Label(value) + ",key_bits=" + DigitChars(bits) + ">"
  {
    DecimalIsDigits(bits);
    assert Label(TMap(key, value, None)) == "map<" + Label(key) + "," + Label(value) + "" + ">";
  }

  // ----- Validation -----

  /** `x` is `ty` itself or one of the types it is made of. */
  predicate PartOf(x: AbiType, ty: AbiType) {
    || x == ty
    || (match ty
        case TTuple(fields) => exists i :: 0 <= i < |fields| && PartOf(x, fields[i].ty)
        case TArray(item) => PartOf(x, item)
        case TOptional(item) => PartOf(x, item)
        case TMap(key, value, _) => PartOf(x, key) || PartOf(x, value)
        case _ => false)
  }

  /** A width out of range, a field without a name, or an unknown type without one. */
  predicate Faulty(x: AbiType) {
    match x
    case TInt(bits) => !(1 <= bits <= 257)
    case TUint(bits) => !(1 <= bits <= 257)
    case TTuple(fields) => exists i :: 0 <= i < |fields| && Blank(fields[i].name)
    case TUnknown(name) => Blank(name)
    case _ => false
  }

  lemma BlankIff(s: string)
    ensures Trim(s) == [] <==> Blank(s)
  {
    hide IsWhitespace;
    var from := TrimIsWithin(s);
    if Trim(s) == [] {
      assert s == s[..from] + s[from..];
    } else {
      assert s[from] == Trim(s)[0];
    }
  }

  /** A type is valid exactly when nothing in it, at any depth, is faulty. */
  lemma {:induction false} ValidIff(ty: AbiType)
    ensures Valid(ty) <==> forall x :: PartOf(x, ty) ==> !Faulty(x)
  {
    assert PartOf(ty, ty);
    match ty
    case TTuple(fields) => TupleValidIff(fields);
    case TArray(item) => ValidIff(item);
    case TOptional(item) => ValidIff(item);
    case TMap(key, value, _) =>
      ValidIff(key);
      ValidIff(value);
    case TUnknown(name) => BlankIff(name);
    case _ =>
  }

  lemma {:induction false} TupleValidIff(fields: seq<AbiParameter>)
    ensures Valid(TTuple(fields)) <==> forall x :: PartOf(x, TTuple(fields)) ==> !Faulty(x)
  {
    hide Trim, Blank;
    forall i | 0 <= i < |fields|
      ensures Trim(fields[i].name) != [] <==> !Blank(fields[i].name)
      ensures Valid(fields[i].ty) <==> forall x :: PartOf(x, fields[i].ty) ==> !Faulty(x)
    {
      BlankIff(fields[i].name);
      ValidIff(fields[i].ty);
    }
    assert PartOf(TTuple(fields), TTuple(fields));
    forall i, x | 0 <= i < |fields| && PartOf(x, fields[i].ty) ensures PartOf(x, TTuple(fields)) {
    }
  }
}
