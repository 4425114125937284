/**
 * Brackets in the TL-B schema tokenizer, by counting characters (src/tlb/schema.rs): what is kept whole and what is
 * split.
 */
module SchemaBrackets {
  import opened SchemaTokens
  import opened Text

  /** Opening brackets of a kind less closing ones. */
  function Excess(s: string, open: char, close: char): int {
    if s == [] then 0
    else
      var last := s[|s| - 1];
      Excess(s[..|s| - 1], open, close) + (if last == open then 1 else if last == close then -1 else 0)
  }

  /** The three kinds. */
  predicate Brackets(open: char, close: char) {
    || (open == '(' && close == ')')
    || (open == '{' && close == '}')
    || (open == '[' && close == ']')
  }

  function OpenOf(d: Depth, open: char): nat {
    if open == '(' then d.paren else if open == '{' then d.brace else d.bracket
  }

  lemma PassedOne(d: Depth, ch: char, open: char, close: char)
    requires Brackets(open, close)
    ensures OpenOf(Passed(d, ch), open) ==
      if ch == open then OpenOf(d, open) + 1
      else if ch == close && OpenOf(d, open) > 0 then OpenOf(d, open) - 1
      else OpenOf(d, open)
  {
  }

  /** The open brackets of a kind are its largest excess over any end of the text: closing one too many is forgotten. */
  lemma {:induction false} OpenIsLargestExcess(s: string, open: char, close: char) returns (from: nat)
    requires Brackets(open, close)
    ensures from <= |s| && Excess(s[from..], open, close) == OpenOf(DepthAfter(s), open)
    ensures forall j :: 0 <= j <= |s| ==> Excess(s[j..], open, close) <= OpenOf(DepthAfter(s), open)
  {
    hide Passed, Brackets, OpenOf;
    NoExcess(s, open, close);
    if s == [] {
      from := 0;
      NothingOpen(open);
    } else {
      var n := |s| - 1;
      var init, ch := s[..n], s[n];
      from := OpenIsLargestExcess(init, open, close);
      PassedOne(DepthAfter(init), ch, open, close);
      forall j | 0 <= j <= n
        ensures Excess(s[j..], open, close) == Excess(init[j..], open, close) + Weight(ch, open, close)
      {
        ExcessSnoc(init[j..], ch, open, close);
        assert s[j..] == init[j..] + [ch];
      }
      DistinctBrackets(open, close);
      if ch == close && OpenOf(DepthAfter(init), open) == 0 {
        from := |s|;
      }
    }
  }

  lemma DistinctBrackets(open: char, close: char)
    requires Brackets(open, close)
    ensures open != close && !IsWhitespace(open) && !IsWhitespace(close)
  {
  }

  lemma NothingOpen(open: char)
    ensures OpenOf(DepthAfter([]), open) == 0
  {
  }

  lemma NoExcess(s: string, open: char, close: char)
    ensures Excess(s[|s|..], open, close) == 0
  {
  }

  function Weight(ch: char, open: char, close: char): int {
    if ch == open then 1 else if ch == close then -1 else 0
  }

  lemma ExcessSnoc(s: string, ch: char, open: char, close: char)
    ensures Excess(s + [ch], open, close) == Excess(s, open, close) + Weight(ch, open, close)
  {
    assert (s + [ch])[..|s|] == s;
  }

  lemma {:induction false} ExcessConcat(a: string, b: string, open: char, close: char)
    ensures Excess(a + b, open, close) == Excess(a, open, close) + Excess(b, open, close)
  {
    if b == [] {
      assert a + b == a;
    } else {
      var last := |b| - 1;
      ExcessConcat(a, b[..last], open, close);
      assert (a + b)[..|a| + last] == a + b[..last];
    }
  }

  // ----- Kept whole -----

  predicate NoBlank(s: string) {
    forall i :: 0 <= i < |s| ==> !IsWhitespace(s[i])
  }

  /** Never closes more brackets of the kind than it opened before. */
  predicate StaysInside(s: string, open: char, close: char) {
    forall k :: 0 <= k <= |s| ==> Excess(s[..k], open, close) >= 0
  }

  /** White space between a bracket and the one that closes it does not break a token. */
  lemma BracketsKeepWhole(before: string, open: char, inner: string, close: char, after: string)
    requires Brackets(open, close) && NoBlank(before) && NoBlank(after) && StaysInside(inner, open, close)
    ensures var text := before + [open] + inner + [close] + after;
      Tokens(text) == [text]
  {
    hide Brackets, Unbroken, Excess;
    var text := before + [open] + inner + [close] + after;
    DistinctBrackets(open, close);
    forall i | 0 <= i < |text| && IsWhitespace(text[i]) ensures DepthAfter(text[..i + 1]) != TOP {
      WithinBrackets(before, open, inner, close, after, i);
    }
    assert Unbroken(text) by {
      UnbrokenIs(text);
    }
    OneToken(text);
  }

  lemma UnbrokenIs(s: string)
    requires forall i :: 0 <= i < |s| && IsWhitespace(s[i]) ==> DepthAfter(s[..i + 1]) != TOP
    ensures Unbroken(s)
  {
    hide IsWhitespace;
  }

  lemma WithinBrackets(before: string, open: char, inner: string, close: char, after: string, i: nat)
    requires Brackets(open, close) && NoBlank(before) && NoBlank(after) && StaysInside(inner, open, close)
    requires var text := before + [open] + inner + [close] + after;
      i < |text| && IsWhitespace(text[i])
    ensures DepthAfter((before + [open] + inner + [close] + after)[..i + 1]) != TOP
  {
    hide Brackets, IsWhitespace, DepthAfter, Excess, OpenOf, NoBlank;
    if i <= |before| || i > |before| + |inner| {
      OutsideIsNoBlank(before, open, inner, close, after, i);
      assert false;
    }
    var k := i - |before| - 1;
    var prefix := (before + [open] + inner + [close] + after)[..i + 1];
    PrefixIs(before, open, inner, close, after, k);
    assert prefix[|before|..] == [open] + inner[..k + 1];
    ExcessConcat([open], inner[..k + 1], open, close);
    ExcessOfOne(open, close);
    var _ := OpenIsLargestExcess(prefix, open, close);
    TopIsClosed(open);
  }

  lemma OutsideIsNoBlank(before: string, open: char, inner: string, close: char, after: string, i: nat)
    requires Brackets(open, close) && NoBlank(before) && NoBlank(after)
    requires i < |before| + |inner| + |after| + 2 && (i <= |before| || i > |before| + |inner|)
    ensures !IsWhitespace((before + [open] + inner + [close] + after)[i])
  {
    hide Brackets, IsWhitespace;
    DistinctBrackets(open, close);
    var text := before + [open] + inner + [close] + after;
    if i < |before| {
      assert text[i] == before[i];
    } else if i > |before| + |inner| + 1 {
      assert text[i] == after[i - |before| - |inner| - 2];
    }
  }

  lemma PrefixIs(before: string, open: char, inner: string, close: char, after: string, k: nat)
    requires k < |inner|
    ensures (before + [open] + inner + [close] + after)[..|before| + k + 2] == before + ([open] + inner[..k + 1])
  {
    assert inner == inner[..k + 1] + inner[k + 1..];
  }

  lemma ExcessOfOne(open: char, close: char)
    ensures Excess([open], open, close) == 1
  {
    assert [open][..0] == "";
  }

  lemma TopIsClosed(open: char)
    ensures OpenOf(TOP, open) == 0
  {
  }

  lemma OneToken(text: string)
    requires text != [] && Unbroken(text) && !IsWhitespace(text[0]) && !IsWhitespace(text[|text| - 1])
    ensures Tokens(text) == [text]
  {
    hide Unbroken, IsWhitespace;
    ScannedUnbroken([], text);
    TrimOf(text, []);
  }

  // ----- Split -----

  /** Everything opened is closed. */
  predicate Closed(s: string) {
    forall j :: 0 <= j <= |s| ==>
      Excess(s[j..], '(', ')') <= 0 && Excess(s[j..], '{', '}') <= 0 && Excess(s[j..], '[', ']') <= 0
  }

  lemma ClosedIsTop(s: string)
    ensures Closed(s) <==> DepthAfter(s) == TOP
  {
    hide Excess, DepthAfter;
    var paren := OpenIsLargestExcess(s, '(', ')');
    var brace := OpenIsLargestExcess(s, '{', '}');
    var bracket := OpenIsLargestExcess(s, '[', ']');
  }

  lemma ClosedWordsPart(a: string, gap: string, b: string)
    requires IsToken(a) && IsToken(b) && gap != [] && Blank(gap) && DepthAfter(a) == TOP
    ensures Tokens(a + gap + b) == [a, b]
  {
    hide IsToken, Blank, Tokens;
    var gaps, tokens := ["", gap], [a, b];
    NothingIsBlank();
    assert gaps[..1] == [""] && tokens[..1] == [a] && tokens[..1][..0] == [];
    assert Woven([""], [a]) == a;
    assert Woven(gaps, tokens) == a + gap + b;
    TokensOfWoven(gaps, tokens, "");
    assert a + gap + b + "" == a + gap + b;
  }

  lemma OpenWordsStay(a: string, gap: string, b: string)
    requires Unbroken(a) && NoBlank(b) && Blank(gap) && DepthAfter(a) != TOP
    requires a != [] && b != [] && !IsWhitespace(a[0])
    ensures Tokens(a + gap + b) == [a + gap + b]
  {
    hide IsWhitespace, Unbroken, DepthAfter;
    var text := a + gap + b;
    ScannedConcat(START, a + gap, b);
    ScannedConcat(START, a, gap);
    ScannedUnbroken([], a);
    ScannedInside(Scan([], a, DepthAfter(a)), gap);
    ScannedWord(Scan([], a + gap, DepthAfter(a)), b);
    TrimOf(text, []);
  }

  /** White space between two words parts them exactly when the first closes all it opens. */
  lemma WordsPartIff(a: string, gap: string, b: string)
    requires a != [] && b != [] && NoBlank(a) && NoBlank(b) && gap != [] && Blank(gap)
    ensures Tokens(a + gap + b) == if Closed(a) then [a, b] else [a + gap + b]
  {
    hide IsWhitespace, Closed, Unbroken, Tokens, DepthAfter;
    ClosedIsTop(a);
    WordIsUnbroken(a);
    WordIsUnbroken(b);
    if Closed(a) {
      ClosedWordsPart(a, gap, b);
    } else {
      OpenWordsStay(a, gap, b);
    }
  }

  lemma WordIsUnbroken(s: string)
    requires s != [] && NoBlank(s)
    ensures IsToken(s) && Unbroken(s)
  {
    hide IsWhitespace;
  }

  /** Characters that are not white space are always collected. */
  lemma {:induction false} ScannedWord(st: Scan, s: string)
    requires NoBlank(s)
    ensures Scanned(st, s).tokens == st.tokens && Scanned(st, s).current == st.current + s
  {
    hide IsWhitespace, Passed;
    if s == [] {
      assert st.current + s == st.current;
    } else {
      var last := |s| - 1;
      ScannedWord(st, s[..last]);
      assert st.current + s[..last] + [s[last]] == st.current + s;
    }
  }

  // ----- Escapes -----

  /** A backslash in front of each backslash and each double quote, and nothing else. */
  lemma EscapeOf(ch: char, s: string)
    ensures Escape("") == ""
    ensures Escape([ch] + s) == (if ch == '\\' || ch == '"' then ['\\', ch] else [ch]) + Escape(s)
  {
    EscapeIsPerChar([ch] + s);
    assert ([ch] + s)[1..] == s;
  }
}
