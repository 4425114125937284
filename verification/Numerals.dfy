/**
 * Decimal numbers in text: the number each accepted text spells, with leading zeros and an optional plus sign, as
 * `str::parse` reads a `u8` (src/jetton.rs) and a `u16` (src/abi/json.rs).
 */
module Numerals {
  import opened AbiModel
  import opened Bits
  import opened Metadata
  import opened TypeStrings
  import opened Wrappers

  // ----- Bytes -----

  /** The ASCII digits of a number, without leading zeros. */
  function AsciiDigits(n: nat): seq<byte> {
    if n < 10 then [0x30 + n] else AsciiDigits(n / 10) + [0x30 + n % 10]
  }

  function AsciiZeros(k: nat): seq<byte> {
    seq(k, i => 0x30)
  }

  /** An optional plus sign, any number of zeros, and the digits of the number. */
  ghost predicate SpellsInAscii(text: seq<byte>, n: nat) {
    exists k: nat {:trigger AsciiZeros(k)} ::
      text == AsciiZeros(k) + AsciiDigits(n) || text == [0x2B] + AsciiZeros(k) + AsciiDigits(n)
  }

  lemma {:induction false} DigitsAreAscii(n: nat, k: nat)
    ensures var digits := AsciiZeros(k) + AsciiDigits(n);
      digits != [] && forall i :: 0 <= i < |digits| ==> 0x30 <= digits[i] <= 0x39
  {
    if n >= 10 {
      DigitsAreAscii(n / 10, k);
      assert AsciiZeros(k) + AsciiDigits(n) == AsciiZeros(k) + AsciiDigits(n / 10) + [0x30 + n % 10];
    }
  }

  lemma {:induction false} ZerosAreZero(k: nat)
    ensures U8Value(AsciiZeros(k)) == Some(0)
  {
    if k > 0 {
      ZerosAreZero(k - 1);
      assert AsciiZeros(k)[..k - 1] == AsciiZeros(k - 1);
    }
  }

  lemma {:induction false} DigitsGiveU8(n: nat, k: nat)
    requires n <= 255
    ensures U8Value(AsciiZeros(k) + AsciiDigits(n)) == Some(n)
  {
    var digits := AsciiZeros(k) + AsciiDigits(n);
    if n < 10 {
      ZerosAreZero(k);
      assert digits[..|digits| - 1] == AsciiZeros(k);
    } else {
      DigitsGiveU8(n / 10, k);
      assert digits[..|digits| - 1] == AsciiZeros(k) + AsciiDigits(n / 10);
    }
  }

  lemma {:induction false} U8GivesDigits(digits: seq<byte>) returns (k: nat)
    requires digits != [] && U8Value(digits).Some?
    ensures U8Value(digits).value <= 255 && digits == AsciiZeros(k) + AsciiDigits(U8Value(digits).value)
  {
    var init, last := digits[..|digits| - 1], digits[|digits| - 1];
    var n := U8Value(digits).value;
    assert digits == init + [last];
    if init == [] {
      k := 0;
      assert AsciiZeros(0) + [last] == digits;
    } else {
      var m := U8Value(init).value;
      k := U8GivesDigits(init);
      if m == 0 {
        assert init == AsciiZeros(k + 1);
        k := k + 1;
      } else {
        assert n / 10 == m;
      }
    }
  }

  lemma SpelledU8Parses(text: seq<byte>, n: nat)
    requires n <= 255 && SpellsInAscii(text, n)
    ensures ParseU8(text) == Some(n)
  {
    hide U8Value, AsciiDigits, AsciiZeros;
    var k: nat :| text == AsciiZeros(k) + AsciiDigits(n) || text == [0x2B] + AsciiZeros(k) + AsciiDigits(n);
    var digits := AsciiZeros(k) + AsciiDigits(n);
    DigitsAreAscii(n, k);
    DigitsGiveU8(n, k);
    assert text != digits ==> text == [0x2B] + digits && text[1..] == digits;
  }

  /** A decimals text is accepted exactly when it spells a number up to 255, and gives that number. */
  lemma ParseU8Iff(text: seq<byte>, n: nat)
    ensures ParseU8(text) == Some(n) <==> n <= 255 && SpellsInAscii(text, n)
  {
    hide U8Value, AsciiDigits, AsciiZeros;
    if ParseU8(text) == Some(n) {
      if text[0] == 0x2B {
        var k := U8GivesDigits(text[1..]);
        assert text == [0x2B] + text[1..];
        assert text == [0x2B] + AsciiZeros(k) + AsciiDigits(n);
      } else {
        var k := U8GivesDigits(text);
      }
    }
    if n <= 255 && SpellsInAscii(text, n) {
      SpelledU8Parses(text, n);
    }
  }

  lemma {:induction false} AsciiIsUtf8(text: seq<byte>)
    requires forall i :: 0 <= i < |text| ==> text[i] <= 0x7F
    ensures ValidUtf8(text)
  {
    if text != [] {
      AsciiIsUtf8(text[1..]);
    }
  }

  lemma SpelledIsUtf8(text: seq<byte>, n: nat)
    requires SpellsInAscii(text, n)
    ensures ValidUtf8(text)
  {
    hide AsciiDigits, AsciiZeros, ValidUtf8;
    var k: nat :| text == AsciiZeros(k) + AsciiDigits(n) || text == [0x2B] + AsciiZeros(k) + AsciiDigits(n);
    var digits := AsciiZeros(k) + AsciiDigits(n);
    DigitsAreAscii(n, k);
    assert text != digits ==> text == [0x2B] + digits;
    AsciiIsUtf8(text);
  }

  // ----- Characters -----

  function DigitChars(n: nat): string {
    if n < 10 then [['0', '1', '2', '3', '4', '5', '6', '7', '8', '9'][n]]
    else DigitChars(n / 10) + DigitChars(n % 10)
  }

  function ZeroChars(k: nat): string {
    seq(k, i => '0')
  }

  ghost predicate Spells(text: string, n: nat) {
    exists k: nat {:trigger ZeroChars(k)} ::
      text == ZeroChars(k) + DigitChars(n) || text == "+" + ZeroChars(k) + DigitChars(n)
  }

  lemma {:induction false} ZeroCharsAreZero(k: nat)
    ensures DigitsValue(ZeroChars(k)) == Some(0)
  {
    if k > 0 {
      ZeroCharsAreZero(k - 1);
      assert ZeroChars(k)[..k - 1] == ZeroChars(k - 1);
    }
  }

  lemma LastDigit(d: nat)
    requires d < 10
    ensures |DigitChars(d)| == 1 && '0' <= DigitChars(d)[0] <= '9' && (DigitChars(d)[0] - '0') as int == d
  {
  }

  /** One more digit. */
  lemma DigitAppended(init: string, m: nat, d: nat)
    requires DigitsValue(init) == Some(m) && d < 10 && 10 * m + d < 0x1_0000
    ensures DigitsValue(init + DigitChars(d)) == Some(10 * m + d)
  {
    LastDigit(d);
    var c := DigitChars(d)[0];
    hide DigitChars;
    assert DigitChars(d) == [c];
    assert (init + [c])[..|init|] == init;
  }

  lemma {:induction false} DigitsGiveU16(n: nat, k: nat)
    requires n < 0x1_0000
    ensures DigitsValue(ZeroChars(k) + DigitChars(n)) == Some(n)
  {
    hide DigitsValue, ZeroChars;
    if n < 10 {
      ZeroCharsAreZero(k);
      DigitAppended(ZeroChars(k), 0, n);
    } else {
      DigitsGiveU16(n / 10, k);
      var init := ZeroChars(k) + DigitChars(n / 10);
      DigitAppended(init, n / 10, n % 10);
      assert ZeroChars(k) + DigitChars(n) == init + DigitChars(n % 10);
    }
  }

  lemma {:induction false} DigitsInFront(n: nat, k: nat)
    ensures var digits := ZeroChars(k) + DigitChars(n);
      digits != [] && digits[0] != '+'
  {
    if n < 10 {
      LastDigit(n);
    } else {
      DigitsInFront(n / 10, k);
      assert ZeroChars(k) + DigitChars(n) == ZeroChars(k) + DigitChars(n / 10) + DigitChars(n % 10);
    }
  }

  lemma {:induction false} U16GivesDigits(digits: string) returns (k: nat)
    requires digits != [] && DigitsValue(digits).Some?
    ensures digits == ZeroChars(k) + DigitChars(DigitsValue(digits).value)
  {
    var init, last := digits[..|digits| - 1], digits[|digits| - 1];
    var n := DigitsValue(digits).value;
    assert digits == init + [last];
    LastDigit(n % 10);
    assert DigitChars(n % 10) == [last];
    if init == [] {
      k := 0;
      assert ZeroChars(0) + [last] == digits;
    } else {
      var m := DigitsValue(init).value;
      k := U16GivesDigits(init);
      if m == 0 {
        assert init == ZeroChars(k + 1);
        k := k + 1;
      } else {
        assert n / 10 == m;
      }
    }
  }

  lemma SpelledU16Parses(text: string, n: u16)
    requires Spells(text, n)
    ensures ParseU16(text) == Some(n)
  {
    hide DigitsValue, DigitChars, ZeroChars;
    var k: nat :| text == ZeroChars(k) + DigitChars(n) || text == "+" + ZeroChars(k) + DigitChars(n);
    var digits := ZeroChars(k) + DigitChars(n);
    DigitsGiveU16(n, k);
    DigitsInFront(n, k);
    assert text != digits ==> text == "+" + digits && text[1..] == digits;
  }

  /** A width text is accepted exactly when it spells a 16-bit number, and gives that number. */
  lemma ParseU16Iff(text: string, n: u16)
    ensures ParseU16(text) == Some(n) <==> Spells(text, n)
  {
    hide DigitsValue, DigitChars, ZeroChars;
    if ParseU16(text) == Some(n) {
      if text[0] == '+' {
        var k := U16GivesDigits(text[1..]);
        assert text == "+" + text[1..];
        assert text == "+" + ZeroChars(k) + DigitChars(n);
      } else {
        var k := U16GivesDigits(text);
      }
    }
    if Spells(text, n) {
      SpelledU16Parses(text, n);
    }
  }
}
