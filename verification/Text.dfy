/** Strings of Unicode scalar values: white space, trimming, prefixes and suffixes. */
module Text {
  import opened Wrappers

  /** The code points with the Unicode `White_Space` property. */
  predicate IsWhitespace(c: char) {
    var code := c as int;
    || 0x09 <= code <= 0x0D
    || code == 0x20 || code == 0x85 || code == 0xA0 || code == 0x1680
    || 0x2000 <= code <= 0x200A
    || code == 0x2028 || code == 0x2029 || code == 0x202F || code == 0x205F || code == 0x3000
  }

  predicate Blank(s: string) {
    forall i :: 0 <= i < |s| ==> IsWhitespace(s[i])
  }

  /** Not empty, and no white space at either end. */
  predicate Trimmed(s: string) {
    s != [] && !IsWhitespace(s[0]) && !IsWhitespace(s[|s| - 1])
  }

  function TrimStart(s: string): (r: string)
    ensures |r| <= |s|
  {
    if s != [] && IsWhitespace(s[0]) then TrimStart(s[1..]) else s
  }

  function TrimEnd(s: string): (r: string)
    ensures |r| <= |s|
  {
    if s != [] && IsWhitespace(s[|s| - 1]) then TrimEnd(s[..|s| - 1]) else s
  }

  function Trim(s: string): (r: string)
    ensures |r| <= |s|
  {
    TrimEnd(TrimStart(s))
  }

  lemma {:induction false} TrimEndOf(s: string, blank: string)
    requires Blank(blank) && (s == [] || !IsWhitespace(s[|s| - 1]))
    ensures TrimEnd(s + blank) == s
  {
    if blank != [] {
      var last := |blank| - 1;
      assert (s + blank)[..|s| + last] == s + blank[..last];
      TrimEndOf(s, blank[..last]);
    } else {
      assert s + blank == s;
    }
  }

  /** Trimming takes the blanks off and leaves a trimmed text as it is. */
  lemma TrimOf(s: string, blank: string)
    requires Trimmed(s) && Blank(blank)
    ensures Trim(s + blank) == s && Trim(s) == s
  {
    TrimEndOf(s, blank);
  }

  function StripPrefix(s: string, pfx: string): Option<string> {
    if pfx <= s then Some(s[|pfx|..]) else None
  }

  function StripSuffix(s: string, suffix: string): Option<string> {
    if |suffix| <= |s| && s[|s| - |suffix|..] == suffix then Some(s[..|s| - |suffix|]) else None
  }
}
