/** The tokenizer and the string escaping of the TL-B schema compiler (src/tlb/schema.rs). */
module SchemaTokens {
  import opened Text

  // ----- Bracket depth -----

  /** How many brackets of each kind are open; a closing bracket with none open is ignored. */
  datatype Depth = Depth(paren: nat, brace: nat, bracket: nat)

  const TOP := Depth(0, 0, 0)

  function SaturatingDec(n: nat): nat {
    if n == 0 then 0 else n - 1
  }

  function Passed(d: Depth, ch: char): Depth {
    match ch
    case '(' => d.(paren := d.paren + 1)
    case ')' => d.(paren := SaturatingDec(d.paren))
    case '{' => d.(brace := d.brace + 1)
    case '}' => d.(brace := SaturatingDec(d.brace))
    case '[' => d.(bracket := d.bracket + 1)
    case ']' => d.(bracket := SaturatingDec(d.bracket))
    case _ => d
  }

  function DepthAfter(s: string): Depth {
    if s == [] then TOP else Passed(DepthAfter(s[..|s| - 1]), s[|s| - 1])
  }

  // ----- The scan -----

  datatype Scan = Scan(tokens: seq<string>, current: string, depth: Depth)

  const START := Scan([], [], TOP)

  function Step(st: Scan, ch: char): Scan {
    var depth := Passed(st.depth, ch);
    if IsWhitespace(ch) && depth == TOP then
      if Trim(st.current) != [] then Scan(st.tokens + [Trim(st.current)], [], depth) else st.(depth := depth)
    else Scan(st.tokens, st.current + [ch], depth)
  }

  function Scanned(st: Scan, s: string): Scan {
    if s == [] then st else Step(Scanned(st, s[..|s| - 1]), s[|s| - 1])
  }

  function Tokens(input: string): seq<string> {
    var st := Scanned(START, input);
    if Trim(st.current) != [] then st.tokens + [Trim(st.current)] else st.tokens
  }

  method SplitTopLevelWs(input: string) returns (tokens: seq<string>)
    ensures tokens == Tokens(input)
  {
    tokens := [];
    var current: string := [];
    var paren, brace, bracket := 0, 0, 0;
    for i := 0 to |input|
      invariant paren >= 0 && brace >= 0 && bracket >= 0
      invariant Scan(tokens, current, Depth(paren, brace, bracket)) == Scanned(START, input[..i])
    {
      var ch := input[i];
      assert input[..i + 1][..i] == input[..i];
      match ch {
        case '(' => paren := paren + 1;
        case ')' => paren := SaturatingDec(paren);
        case '{' => brace := brace + 1;
        case '}' => brace := SaturatingDec(brace);
        case '[' => bracket := bracket + 1;
        case ']' => bracket := SaturatingDec(bracket);
        case _ =>
      }
      if IsWhitespace(ch) && paren == 0 && brace == 0 && bracket == 0 {
        if Trim(current) != [] {
          tokens := tokens + [Trim(current)];
          current := [];
        }
      } else {
        current := current + [ch];
      }
    }
    assert input[..|input|] == input;
    if Trim(current) != [] {
      tokens := tokens + [Trim(current)];
    }
  }

  // ----- What a token is -----

  /** No white space outside brackets. */
  predicate Unbroken(s: string) {
    forall i :: 0 <= i < |s| && IsWhitespace(s[i]) ==> DepthAfter(s[..i + 1]) != TOP
  }

  predicate IsToken(s: string) {
    Trimmed(s) && Unbroken(s)
  }

  /** Tokens, all but the last of which close what they open. */
  predicate AreTokens(tokens: seq<string>) {
    && (forall i :: 0 <= i < |tokens| ==> IsToken(tokens[i]))
    && (forall i :: 0 <= i < |tokens| - 1 ==> DepthAfter(tokens[i]) == TOP)
  }

  /** Blanks to put in front of the tokens: some between any two. */
  predicate AreGaps(gaps: seq<string>) {
    forall i :: 0 <= i < |gaps| ==> Blank(gaps[i]) && (i > 0 ==> gaps[i] != [])
  }

  /** Each token after its gap. */
  function Woven(gaps: seq<string>, tokens: seq<string>): string
    requires |gaps| == |tokens|
  {
    if tokens == [] then []
    else
      var last := |tokens| - 1;
      Woven(gaps[..last], tokens[..last]) + gaps[last] + tokens[last]
  }

  // ----- Any tokens, however spaced, are found again -----

  lemma {:induction false} ScannedConcat(st: Scan, a: string, b: string)
    ensures Scanned(st, a + b) == Scanned(Scanned(st, a), b)
  {
    if b == [] {
      assert a + b == a;
    } else {
      var last := |b| - 1;
      ScannedConcat(st, a, b[..last]);
      assert (a + b)[..|a| + last] == a + b[..last];
    }
  }

  lemma BlankKeepsDepth(d: Depth, ch: char)
    requires IsWhitespace(ch)
    ensures Passed(d, ch) == d
  {
  }

  /** Blanks between tokens are skipped. */
  lemma {:induction false} ScannedGap(tokens: seq<string>, gap: string)
    requires Blank(gap)
    ensures Scanned(Scan(tokens, [], TOP), gap) == Scan(tokens, [], TOP)
  {
    if gap != [] {
      ScannedGap(tokens, gap[..|gap| - 1]);
      BlankKeepsDepth(TOP, gap[|gap| - 1]);
    }
  }

  lemma UnbrokenInit(s: string)
    requires Unbroken(s) && s != []
    ensures Unbroken(s[..|s| - 1])
  {
    var init := s[..|s| - 1];
    forall i | 0 <= i < |init| && IsWhitespace(init[i]) ensures DepthAfter(init[..i + 1]) != TOP {
      assert init[..i + 1] == s[..i + 1];
    }
  }

  lemma UnbrokenEnd(s: string)
    requires Unbroken(s) && s != []
    ensures IsWhitespace(s[|s| - 1]) ==> DepthAfter(s) != TOP
  {
    assert s[..|s| - 1 + 1] == s;
  }

  lemma StepCollects(st: Scan, ch: char)
    requires IsWhitespace(ch) ==> Passed(st.depth, ch) != TOP
    ensures Step(st, ch) == Scan(st.tokens, st.current + [ch], Passed(st.depth, ch))
  {
  }

  /** An unbroken text is collected whole. */
  lemma {:induction false} ScannedUnbroken(tokens: seq<string>, s: string)
    requires Unbroken(s)
    ensures Scanned(Scan(tokens, [], TOP), s) == Scan(tokens, s, DepthAfter(s))
  {
    hide Passed, Unbroken, IsWhitespace, Step;
    if s != [] {
      var init, ch := s[..|s| - 1], s[|s| - 1];
      UnbrokenInit(s);
      UnbrokenEnd(s);
      ScannedUnbroken(tokens, init);
      StepCollects(Scan(tokens, init, DepthAfter(init)), ch);
      assert init + [ch] == s;
    }
  }

  /** A gap after a token that closes what it opens ends the token. */
  lemma {:induction false} ScannedEnd(tokens: seq<string>, token: string, gap: string)
    requires IsToken(token) && Blank(gap) && gap != []
    ensures Scanned(Scan(tokens, token, TOP), gap) == Scan(tokens + [token], [], TOP)
  {
    var last := |gap| - 1;
    BlankKeepsDepth(TOP, gap[last]);
    if last == 0 {
      TrimOf(token, []);
      assert gap[..last] == [];
    } else {
      ScannedEnd(tokens, token, gap[..last]);
    }
  }

  /** Blanks inside brackets are collected. */
  lemma {:induction false} ScannedInside(st: Scan, gap: string)
    requires st.depth != TOP && Blank(gap)
    ensures Scanned(st, gap) == st.(current := st.current + gap)
  {
    if gap == [] {
      assert st.current + gap == st.current;
    } else {
      var last := |gap| - 1;
      ScannedInside(st, gap[..last]);
      BlankKeepsDepth(st.depth, gap[last]);
      assert st.current + gap[..last] + [gap[last]] == st.current + gap;
    }
  }

  lemma {:induction false} ScannedWoven(gaps: seq<string>, tokens: seq<string>)
    requires |gaps| == |tokens| > 0 && AreGaps(gaps) && AreTokens(tokens)
    ensures var last := |tokens| - 1;
      Scanned(START, Woven(gaps, tokens)) == Scan(tokens[..last], tokens[last], DepthAfter(tokens[last]))
  {
    hide IsToken, Unbroken, Blank, Trimmed, Step;
    var last := |tokens| - 1;
    var before := Woven(gaps[..last], tokens[..last]);
    ScannedConcat(START, before + gaps[last], tokens[last]);
    ScannedConcat(START, before, gaps[last]);
    if last == 0 {
      assert tokens[..last] == [];
      ScannedGap([], gaps[last]);
    } else {
      ScannedWoven(gaps[..last], tokens[..last]);
      var previous := tokens[..last][last - 1];
      assert previous == tokens[last - 1] && DepthAfter(previous) == TOP;
      ScannedEnd(tokens[..last][..last - 1], previous, gaps[last]);
      assert tokens[..last][..last - 1] + [previous] == tokens[..last];
    }
    TokenIsUnbroken(tokens[last]);
    ScannedUnbroken(tokens[..last], tokens[last]);
  }

  lemma TokenIsUnbroken(s: string)
    requires IsToken(s)
    ensures Unbroken(s)
  {
  }

  /** Whatever the blanks around them, exactly these tokens are found; a last token may leave brackets open. */
  lemma TokensOfWoven(gaps: seq<string>, tokens: seq<string>, end: string)
    requires |gaps| == |tokens| && AreGaps(gaps) && AreTokens(tokens) && Blank(end)
    ensures Tokens(Woven(gaps, tokens) + end) == tokens
  {
    hide Unbroken, Step;
    var text := Woven(gaps, tokens);
    ScannedConcat(START, text, end);
    if tokens == [] {
      ScannedGap([], end);
    } else {
      var last := |tokens| - 1;
      ScannedWoven(gaps, tokens);
      assert tokens[..last] + [tokens[last]] == tokens;
      TrimOf(tokens[last], end);
      if DepthAfter(tokens[last]) == TOP {
        if end != [] {
          ScannedEnd(tokens[..last], tokens[last], end);
        }
      } else {
        ScannedInside(Scan(tokens[..last], tokens[last], DepthAfter(tokens[last])), end);
      }
    }
  }

  /** Tokens joined by single spaces are found again. */
  function Joined(tokens: seq<string>): string {
    if |tokens| <= 1 then (if tokens == [] then [] else tokens[0])
    else Joined(tokens[..|tokens| - 1]) + " " + tokens[|tokens| - 1]
  }

  function SingleSpaces(n: nat): (gaps: seq<string>)
    ensures |gaps| == n && AreGaps(gaps)
  {
    seq(n, i => if i == 0 then [] else " ")
  }

  lemma {:induction false} JoinedIsWoven(tokens: seq<string>)
    ensures Joined(tokens) == Woven(SingleSpaces(|tokens|), tokens)
  {
    if tokens != [] {
      var last := |tokens| - 1;
      JoinedIsWoven(tokens[..last]);
      assert SingleSpaces(|tokens|)[..last] == SingleSpaces(last);
      if last == 0 {
        assert [] + [] + tokens[0] == tokens[0];
      }
    }
  }

  // ----- Every input is woven from its tokens -----

  /** A scan of `s` in progress: the tokens so far after their gaps, one more gap, and an unfinished token. */
  ghost predicate Progress(s: string, st: Scan, gaps: seq<string>) {
    && |gaps| == |st.tokens| + 1 && AreGaps(gaps)
    && s == Woven(gaps[..|st.tokens|], st.tokens) + gaps[|st.tokens|] + st.current
    && (forall i :: 0 <= i < |st.tokens| ==> IsToken(st.tokens[i]) && DepthAfter(st.tokens[i]) == TOP)
    && Unbroken(st.current) && st.depth == DepthAfter(st.current)
    && (st.current != [] ==> !IsWhitespace(st.current[0]))
    && (st.current != [] && st.depth == TOP ==> !IsWhitespace(st.current[|st.current| - 1]))
  }

  lemma EmptyIsUnbroken()
    ensures Unbroken([])
  {
  }

  lemma FlushProgress(s: string, st: Scan, gaps: seq<string>, ch: char) returns (after: seq<string>)
    requires Progress(s, st, gaps) && IsWhitespace(ch) && st.depth == TOP && st.current != []
    ensures Progress(s + [ch], Scan(st.tokens + [st.current], [], TOP), after)
  {
    hide Unbroken, IsWhitespace;
    var k := |st.tokens|;
    after := gaps + [[ch]];
    var tokens := st.tokens + [st.current];
    assert after[..k + 1] == gaps && tokens[..k] == st.tokens;
    EmptyIsUnbroken();
    CurrentIsToken(s, st, gaps);
  }

  lemma SkipProgress(s: string, st: Scan, gaps: seq<string>, ch: char) returns (after: seq<string>)
    requires Progress(s, st, gaps) && IsWhitespace(ch) && st.depth == TOP && st.current == []
    ensures Progress(s + [ch], st, after)
  {
    hide Unbroken, IsWhitespace;
    var k := |st.tokens|;
    after := gaps[k := gaps[k] + [ch]];
    assert after[..k] == gaps[..k];
    assert s + [ch] == Woven(gaps[..k], st.tokens) + (gaps[k] + [ch]);
  }

  lemma UnbrokenSnoc(s: string, ch: char)
    requires Unbroken(s) && (IsWhitespace(ch) ==> Passed(DepthAfter(s), ch) != TOP)
    ensures Unbroken(s + [ch]) && DepthAfter(s + [ch]) == Passed(DepthAfter(s), ch)
  {
    hide Passed, IsWhitespace;
    var t := s + [ch];
    assert t[..|s|] == s;
    forall i | 0 <= i < |t| && IsWhitespace(t[i]) ensures DepthAfter(t[..i + 1]) != TOP {
      if i < |s| {
        assert t[..i + 1] == s[..i + 1];
      } else {
        assert t[..i + 1] == t;
      }
    }
  }

  lemma PushProgress(s: string, st: Scan, gaps: seq<string>, ch: char)
    requires Progress(s, st, gaps) && (IsWhitespace(ch) ==> st.depth != TOP)
    ensures Progress(s + [ch], Scan(st.tokens, st.current + [ch], Passed(st.depth, ch)), gaps)
  {
    hide Unbroken, IsWhitespace, Passed;
    if IsWhitespace(ch) {
      BlankKeepsDepth(st.depth, ch);
    }
    UnbrokenSnoc(st.current, ch);
    assert s + [ch] == Woven(gaps[..|st.tokens|], st.tokens) + gaps[|st.tokens|] + (st.current + [ch]);
  }

  lemma StepProgress(s: string, st: Scan, gaps: seq<string>, ch: char) returns (after: seq<string>)
    requires Progress(s, st, gaps)
    ensures Progress(s + [ch], Step(st, ch), after)
  {
    hide Unbroken, IsWhitespace, Passed, Trim, Progress;
    if IsWhitespace(ch) {
      BlankKeepsDepth(st.depth, ch);
    }
    if IsWhitespace(ch) && st.depth == TOP {
      if st.current != [] {
        CurrentIsToken(s, st, gaps);
        TrimOf(st.current, []);
        after := FlushProgress(s, st, gaps, ch);
      } else {
        TrimNothing();
        after := SkipProgress(s, st, gaps, ch);
      }
    } else {
      PushProgress(s, st, gaps, ch);
      after := gaps;
    }
  }

  lemma CurrentIsToken(s: string, st: Scan, gaps: seq<string>)
    requires Progress(s, st, gaps) && st.depth == TOP && st.current != []
    ensures IsToken(st.current)
  {
  }

  lemma TrimNothing()
    ensures Trim([]) == []
  {
  }

  lemma {:induction false} ScannedProgress(s: string) returns (gaps: seq<string>)
    ensures Progress(s, Scanned(START, s), gaps)
  {
    hide Step;
    if s == [] {
      gaps := [[]];
    } else {
      hide Progress;
      var last := |s| - 1;
      var before := ScannedProgress(s[..last]);
      gaps := StepProgress(s[..last], Scanned(START, s[..last]), before, s[last]);
      assert s[..last] + [s[last]] == s;
    }
  }

  /** What trimming takes off the end is blank. */
  lemma {:induction false} TrimEndSplits(s: string) returns (blank: string)
    ensures s == TrimEnd(s) + blank && Blank(blank)
    ensures TrimEnd(s) != [] ==> !IsWhitespace(TrimEnd(s)[|TrimEnd(s)| - 1])
  {
    hide IsWhitespace;
    if s != [] && IsWhitespace(s[|s| - 1]) {
      var shorter := TrimEndSplits(s[..|s| - 1]);
      blank := shorter + [s[|s| - 1]];
    } else {
      blank := [];
    }
  }

  lemma UnbrokenPrefix(s: string, t: string)
    requires Unbroken(s + t)
    ensures Unbroken(s)
  {
    hide IsWhitespace;
    forall i | 0 <= i < |s| && IsWhitespace(s[i]) ensures DepthAfter(s[..i + 1]) != TOP {
      assert (s + t)[i] == s[i] && (s + t)[..i + 1] == s[..i + 1];
    }
  }

  /** The unfinished token at the end of the input, trimmed, is a token. */
  lemma LastToken(s: string) returns (blank: string)
    requires s != [] && !IsWhitespace(s[0]) && Unbroken(s)
    ensures IsToken(Trim(s)) && s == Trim(s) + blank && Blank(blank)
  {
    hide IsWhitespace, Unbroken;
    blank := TrimEndSplits(s);
    UnbrokenPrefix(Trim(s), blank);
    assert Trim(s) == [] ==> s == blank;
    assert s[0] == (Trim(s) + blank)[0];
  }

  /** Every input is its tokens after gaps of blanks, and a last blank: nothing else is dropped, nothing reordered. */
  lemma InputIsWoven(input: string) returns (gaps: seq<string>, end: string)
    ensures var tokens := Tokens(input);
      && AreTokens(tokens) && |gaps| == |tokens| && AreGaps(gaps) && Blank(end)
      && input == Woven(gaps, tokens) + end
  {
    hide IsWhitespace, Unbroken, Trim, Step;
    var st := Scanned(START, input);
    var k := |st.tokens|;
    gaps := ScannedProgress(input);
    if st.current == [] {
      TrimNothing();
      gaps, end := gaps[..k], gaps[k];
      assert input == Woven(gaps, st.tokens) + end;
    } else {
      end := LastToken(st.current);
      var tokens := st.tokens + [Trim(st.current)];
      assert tokens == Tokens(input);
      assert tokens[..k] == st.tokens;
      assert Woven(gaps, tokens) == Woven(gaps[..k], st.tokens) + gaps[k] + Trim(st.current);
    }
  }

  /** For every input, balanced or not, the tokens joined by single spaces are found again. */
  lemma TokenizeAgain(input: string)
    ensures Tokens(Joined(Tokens(input))) == Tokens(input)
  {
    hide AreTokens, AreGaps, Blank;
    var tokens := Tokens(input);
    var _, _ := InputIsWoven(input);
    JoinedIsWoven(tokens);
    assert Blank([]) by {
      NothingIsBlank();
    }
    TokensOfWoven(SingleSpaces(|tokens|), tokens, []);
    assert Joined(tokens) + [] == Joined(tokens);
  }

  lemma NothingIsBlank()
    ensures Blank([])
  {
  }

  // ----- Escaping -----

  /** `str::replace` of one character. */
  function Replaced(s: string, from: char, to: string): string {
    if s == [] then [] else (if s[0] == from then to else [s[0]]) + Replaced(s[1..], from, to)
  }

  /** Backslashes first, then quotes. */
  function Escape(s: string): string {
    Replaced(Replaced(s, '\\', "\\\\"), '"', "\\\"")
  }

  function EscapedChar(ch: char): string {
    if ch == '\\' then "\\\\" else if ch == '"' then "\\\"" else [ch]
  }

  lemma {:induction false} ReplacedConcat(a: string, b: string, from: char, to: string)
    ensures Replaced(a + b, from, to) == Replaced(a, from, to) + Replaced(b, from, to)
  {
    if a == [] {
      assert a + b == b;
    } else {
      assert (a + b)[1..] == a[1..] + b;
      ReplacedConcat(a[1..], b, from, to);
    }
  }

  /** The two passes do not interfere: each character is escaped on its own. */
  lemma EscapeIsPerChar(s: string)
    requires s != []
    ensures Escape(s) == EscapedChar(s[0]) + Escape(s[1..])
  {
    var first := if s[0] == '\\' then "\\\\" else [s[0]];
    ReplacedConcat(first, Replaced(s[1..], '\\', "\\\\"), '"', "\\\"");
    assert Replaced(first, '"', "\\\"") == EscapedChar(s[0]) by {
      if s[0] == '\\' {
        assert first[1..] == "\\" && first[1..][1..] == "";
      } else {
        assert first[1..] == "";
      }
    }
  }

  /** Reads an escaped text back: a backslash stands for the character after it. */
  function Unescape(s: string): string {
    if s == [] then []
    else if s[0] == '\\' && |s| > 1 then [s[1]] + Unescape(s[2..])
    else [s[0]] + Unescape(s[1..])
  }

  /** Nothing is lost by escaping, so different texts stay different. */
  lemma {:induction false} UnescapeEscape(s: string)
    ensures Unescape(Escape(s)) == s
  {
    if s != [] {
      EscapeIsPerChar(s);
      UnescapeEscape(s[1..]);
      var tail := Escape(s[1..]);
      if |EscapedChar(s[0])| == 2 {
        assert Escape(s)[2..] == tail;
      } else {
        assert Escape(s)[1..] == tail;
      }
    }
  }
}
