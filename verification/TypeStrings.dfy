/** The type grammar of the JSON schema (src/abi/json.rs) and the printer of type labels (src/cli/abi.rs). */
module TypeStrings {
  import opened AbiModel
  import opened Text
  import opened Wrappers

  datatype TypeError = UnsupportedValue | InvalidWidth(bits: u16)

  type Parsed<T> = Result<T, TypeError>

  // ----- Decimal numbers -----

  function Digit(n: nat): char
    requires n < 10
  {
    "0123456789"[n]
  }

  function Decimal(n: nat): string {
    if n < 10 then [Digit(n)] else Decimal(n / 10) + [Digit(n % 10)]
  }

  /** Digits only, accumulated with the overflow checks of a 16-bit number. */
  function DigitsValue(s: string): Option<u16> {
    if s == [] then Some(0)
    else
      var init :- DigitsValue(s[..|s| - 1]);
      var last := s[|s| - 1];
      if '0' <= last <= '9' && 10 * init + (last - '0') as int < 0x1_0000 then
        Some(10 * init + (last - '0') as int)
      else None
  }

  /** `str::parse::<u16>`: an optional plus sign, then at least one digit. */
  function ParseU16(s: string): Option<u16> {
    var digits := if s != [] && s[0] == '+' then s[1..] else s;
    if digits == [] then None else DigitsValue(digits)
  }

  lemma {:induction false} DecimalReads(n: u16)
    ensures Decimal(n) != [] && DigitsValue(Decimal(n)) == Some(n) && '0' <= Decimal(n)[0] <= '9'
    ensures '0' <= Decimal(n)[|Decimal(n)| - 1] <= '9'
  {
    var s := Decimal(n);
    DigitIs(n % 10);
    if n < 10 {
      assert s[..0] == [];
      assert DigitsValue(s[..0]) == Some(0);
    } else {
      DecimalReads(n / 10);
      assert s[..|s| - 1] == Decimal(n / 10);
    }
  }

  lemma DigitIs(n: nat)
    requires n < 10
    ensures '0' <= Digit(n) <= '9' && (Digit(n) - '0') as int == n
  {
  }

  // ----- Parser, printer, validator -----

  function ParseBits(s: string): Parsed<u16> {
    match ParseU16(s)
    case None => Err(UnsupportedValue)
    case Some(bits) => if 1 <= bits <= ABI_INTEGER_MAX_BITS then Ok(bits) else Err(InvalidWidth(bits))
  }

  /** What is between an opening such as `array<` and a closing `>`. */
  function Bracketed(s: string, opening: string): (r: Option<string>)
    ensures r.Some? ==> |r.value| < |s| && s == opening + r.value + ">"
  {
    var afterOpening :- StripPrefix(s, opening);
    StripSuffix(afterOpening, ">")
  }

  function ParseName(s: string): Parsed<AbiType> {
    match s
    case "bool" => Ok(TBool)
    case "bytes" => Ok(TBytes)
    case "string" => Ok(TString)
    case "address" => Ok(TAddress)
    case "cell" => Ok(TCell)
    case "slice" => Ok(TSlice)
    case _ => Err(UnsupportedValue)
  }

  function ParseType(text: string): Parsed<AbiType>
    decreases |text|
  {
    var s := Trim(text);
    var optional, list := Bracketed(s, "optional<"), Bracketed(s, "array<");
    if optional.Some? then
      var item :- ParseType(optional.value);
      Ok(TOptional(item))
    else if list.Some? then
      var item :- ParseType(list.value);
      Ok(TArray(item))
    else if "uint" <= s then
      var bits :- ParseBits(s[4..]);
      Ok(TUint(bits))
    else if "int" <= s then
      var bits :- ParseBits(s[3..]);
      Ok(TInt(bits))
    else ParseName(s)
  }

  function FieldLabels(fields: seq<AbiParameter>): string {
    if fields == [] then ""
    else
      var first := fields[0].name + ":" + Label(fields[0].ty);
      if |fields| == 1 then first else first + "," + FieldLabels(fields[1..])
  }

  function Label(ty: AbiType): string {
    match ty
    case TInt(bits) => "int" + Decimal(bits)
    case TUint(bits) => "uint" + Decimal(bits)
    case TBool => "bool"
    case TBytes => "bytes"
    case TString => "string"
    case TAddress => "address"
    case TCell => "cell"
    case TSlice => "slice"
    case TTuple(fields) => "tuple(" + FieldLabels(fields) + ")"
    case TArray(item) => "array<" + Label(item) + ">"
    case TMap(key, value, keyBits) =>
      "map<" + Label(key) + "," + Label(value)
      + (if keyBits.Some? then ",key_bits=" + Decimal(keyBits.value) else "") + ">"
    case TOptional(item) => "optional<" + Label(item) + ">"
    case TUnknown(name) => "unknown<" + name + ">"
  }

  predicate ValidFields(fields: seq<AbiParameter>) {
    forall i :: 0 <= i < |fields| ==> Trim(fields[i].name) != [] && Valid(fields[i].ty)
  }

  /** `AbiType::validate`. */
  predicate Valid(ty: AbiType) {
    match ty
    case TInt(bits) => 1 <= bits <= ABI_INTEGER_MAX_BITS
    case TUint(bits) => 1 <= bits <= ABI_INTEGER_MAX_BITS
    case TTuple(fields) => ValidFields(fields)
    case TArray(item) => Valid(item)
    case TOptional(item) => Valid(item)
    case TMap(key, value, _) => Valid(key) && Valid(value)
    case TUnknown(name) => Trim(name) != []
    case _ => true
  }

  /** The types the string grammar covers: arrays and optionals of integers and named types. */
  predicate Spellable(ty: AbiType) {
    match ty
    case TArray(item) => Spellable(item)
    case TOptional(item) => Spellable(item)
    case TTuple(_) => false
    case TMap(_, _, _) => false
    case TUnknown(_) => false
    case _ => true
  }

  // ----- The printer and the parser undo each other -----

  lemma LabelIsTrimmed(ty: AbiType)
    ensures Trimmed(Label(ty))
  {
    hide IsWhitespace, Trimmed, Label, FieldLabels, Decimal;
    LabelEnds(ty);
    EndsAreTrimmed(Label(ty));
  }

  /** A lower-case letter in front; a letter, a digit or a closing bracket at the end. */
  predicate PlainEnds(s: string) {
    s != [] && 'a' <= s[0] <= 'z' && PlainEnd(s[|s| - 1])
  }

  predicate PlainEnd(c: char) {
    'a' <= c <= 'z' || '0' <= c <= '9' || c == '>' || c == ')'
  }

  lemma EndsAreTrimmed(s: string)
    requires PlainEnds(s)
    ensures Trimmed(s)
  {
  }

  lemma ConcatEnds(a: string, b: string, c: string)
    requires a != [] && c != [] && 'a' <= a[0] <= 'z' && PlainEnd(c[|c| - 1])
    ensures PlainEnds(a + b + c)
  {
    var s := a + b + c;
    assert s[0] == a[0] && s[|s| - 1] == c[|c| - 1];
  }

  lemma LabelEnds(ty: AbiType)
    ensures PlainEnds(Label(ty))
  {
    hide FieldLabels, Decimal, PlainEnds;
    match ty
    case TInt(bits) =>
      DecimalReads(bits);
      ConcatEnds("int", "", Decimal(bits));
      assert "int" + "" + Decimal(bits) == Label(ty);
    case TUint(bits) =>
      DecimalReads(bits);
      ConcatEnds("uint", "", Decimal(bits));
      assert "uint" + "" + Decimal(bits) == Label(ty);
    case TTuple(fields) => ConcatEnds("tuple(", FieldLabels(fields), ")");
    case TArray(item) => ConcatEnds("array<", Label(item), ">");
    case TOptional(item) => ConcatEnds("optional<", Label(item), ">");
    case TUnknown(name) => ConcatEnds("unknown<", name, ">");
    case TMap(key, value, keyBits) =>
      ConcatEnds("map<" + Label(key) + "," + Label(value),
                 if keyBits.Some? then ",key_bits=" + Decimal(keyBits.value) else "", ">");
    case _ => NameEnds(ty);
  }

  lemma NameEnds(ty: AbiType)
    requires ty.TBool? || ty.TBytes? || ty.TString? || ty.TAddress? || ty.TCell? || ty.TSlice?
    ensures PlainEnds(Label(ty))
  {
  }

  lemma BracketedOf(opening: string, inner: string)
    ensures Bracketed(opening + inner + ">", opening) == Some(inner)
  {
    var s := opening + inner + ">";
    assert opening <= s && s[|opening|..] == inner + ">";
  }

  lemma WidthReads(bits: u16)
    ensures ParseBits(Decimal(bits)) == if 1 <= bits <= ABI_INTEGER_MAX_BITS then Ok(bits) else Err(InvalidWidth(bits))
  {
    DecimalReads(bits);
  }

  lemma OtherOpening(s: string, opening: string)
    requires s != [] && opening != [] && s[0] != opening[0]
    ensures Bracketed(s, opening) == None && !(opening <= s)
  {
  }

  lemma ParseWidthLabels(bits: u16)
    ensures ParseType(Label(TInt(bits))) ==
      if 1 <= bits <= ABI_INTEGER_MAX_BITS then Ok(TInt(bits)) else Err(InvalidWidth(bits))
    ensures ParseType(Label(TUint(bits))) ==
      if 1 <= bits <= ABI_INTEGER_MAX_BITS then Ok(TUint(bits)) else Err(InvalidWidth(bits))
  {
    hide Bracketed, Trim, Trimmed, Decimal, ParseBits, IsWhitespace;
    var signed, unsigned := Label(TInt(bits)), Label(TUint(bits));
    WidthReads(bits);
    LabelIsTrimmed(TInt(bits));
    LabelIsTrimmed(TUint(bits));
    TrimOf(signed, []);
    TrimOf(unsigned, []);
    assert signed[3..] == Decimal(bits) && unsigned[4..] == Decimal(bits);
    OtherOpening(signed, "optional<");
    OtherOpening(signed, "array<");
    OtherOpening(signed, "uint");
    OtherOpening(unsigned, "optional<");
    OtherOpening(unsigned, "array<");
  }

  lemma ParseNestedLabels(item: AbiType)
    ensures ParseType(Label(TOptional(item))) ==
      match ParseType(Label(item)) case Ok(ty) => Ok(TOptional(ty)) case Err(e) => Err(e)
    ensures ParseType(Label(TArray(item))) ==
      match ParseType(Label(item)) case Ok(ty) => Ok(TArray(ty)) case Err(e) => Err(e)
  {
    hide Bracketed, Trim, Trimmed, ParseBits, IsWhitespace;
    var optional, list := Label(TOptional(item)), Label(TArray(item));
    LabelIsTrimmed(TOptional(item));
    LabelIsTrimmed(TArray(item));
    TrimOf(optional, []);
    TrimOf(list, []);
    BracketedOf("optional<", Label(item));
    BracketedOf("array<", Label(item));
    OtherOpening(list, "optional<");
  }

  /** A text that starts like no accepted form is refused. */
  lemma ParseRefuses(s: string)
    requires Trimmed(s) && (s[0] == 't' || s[0] == 'm' || (|s| > 1 && s[0] == 'u' && s[1] == 'n'))
    ensures ParseType(s) == Err(UnsupportedValue)
  {
    hide Bracketed, Trim, ParseBits, IsWhitespace, ParseName;
    TrimOf(s, []);
    OtherOpening(s, "optional<");
    OtherOpening(s, "array<");
    OtherOpening(s, "int");
    NotUint(s);
    NoName(s);
  }

  lemma NotUint(s: string)
    requires s != [] && (s[0] != 'u' || (|s| > 1 && s[1] == 'n'))
    ensures !("uint" <= s)
  {
    assert "uint"[0] == 'u' && "uint"[1] == 'i';
  }

  lemma NoName(s: string)
    requires s != [] && (s[0] == 't' || s[0] == 'm' || s[0] == 'u')
    ensures ParseName(s) == Err(UnsupportedValue)
  {
  }

  lemma ParseNameLabels(ty: AbiType)
    requires ty.TBool? || ty.TBytes? || ty.TString? || ty.TAddress? || ty.TCell? || ty.TSlice?
    ensures ParseType(Label(ty)) == Ok(ty)
  {
    hide Bracketed, Trim, Trimmed, ParseBits, IsWhitespace;
    var s := Label(ty);
    LabelIsTrimmed(ty);
    TrimOf(s, []);
    OtherOpening(s, "optional<");
    OtherOpening(s, "uint");
    OtherOpening(s, "int");
    if ty.TAddress? {
      assert s[1] != "array<"[1];
      NotBracketed(s, "array<", 1);
    } else {
      OtherOpening(s, "array<");
    }
  }

  lemma NotBracketed(s: string, opening: string, i: nat)
    requires i < |s| && i < |opening| && s[i] != opening[i]
    ensures Bracketed(s, opening) == None
  {
  }

  /**
   * Parsing a printed label gives the type back exactly when the type is valid and within the grammar; every other
   * label is refused.
   */
  lemma {:induction false} ParseLabel(ty: AbiType)
    ensures if Spellable(ty) && Valid(ty) then ParseType(Label(ty)) == Ok(ty) else ParseType(Label(ty)).Err?
  {
    hide ParseType, Trimmed;
    LabelIsTrimmed(ty);
    match ty
    case TInt(bits) => ParseWidthLabels(bits);
    case TUint(bits) => ParseWidthLabels(bits);
    case TOptional(item) =>
      ParseNestedLabels(item);
      ParseLabel(item);
    case TArray(item) =>
      ParseNestedLabels(item);
      ParseLabel(item);
    case TTuple(_) => ParseRefuses(Label(ty));
    case TMap(_, _, _) => ParseRefuses(Label(ty));
    case TUnknown(_) => ParseRefuses(Label(ty));
    case _ => ParseNameLabels(ty);
  }

  /** Whatever spelling is accepted stands for a valid type within the grammar. */
  lemma {:induction false} ParsedIsValid(text: string)
    requires ParseType(text).Ok?
    ensures Spellable(ParseType(text).value) && Valid(ParseType(text).value)
    decreases |text|
  {
    var s := Trim(text);
    var optional, list := Bracketed(s, "optional<"), Bracketed(s, "array<");
    if optional.Some? {
      ParsedIsValid(optional.value);
    } else if list.Some? {
      ParsedIsValid(list.value);
    }
  }

  /** Printing what was parsed and parsing it again changes nothing, whatever the first spelling was. */
  lemma PrintThenParse(text: string)
    requires ParseType(text).Ok?
    ensures ParseType(Label(ParseType(text).value)) == ParseType(text)
  {
    ParsedIsValid(text);
    ParseLabel(ParseType(text).value);
  }

  /** Within the grammar no two valid types share a label. */
  lemma LabelsAreDistinct(a: AbiType, b: AbiType)
    requires Spellable(a) && Valid(a) && Label(a) == Label(b)
    ensures a == b
  {
    ParseLabel(a);
    ParseLabel(b);
  }
}
