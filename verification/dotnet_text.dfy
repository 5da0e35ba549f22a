/** The few .NET string operations the colour service relies on:
    `char.IsWhiteSpace`, `string.IsNullOrWhiteSpace`, `Trim()`,
    `TrimStart(char)`, and case mapping of the ASCII letters. */
module DotNetText {

  /** `char.IsWhiteSpace`: the Unicode separators (categories Zs, Zl, Zp)
      and the control characters U+0009..U+000D and U+0085. */
  predicate IsWhiteSpace(ch: char)
  {
    || ('\U{0009}' <= ch <= '\U{000D}')
    || ch == '\U{0020}' || ch == '\U{0085}' || ch == '\U{00A0}' || ch == '\U{1680}'
    || ('\U{2000}' <= ch <= '\U{200A}')
    || ch == '\U{2028}' || ch == '\U{2029}' || ch == '\U{202F}' || ch == '\U{205F}'
    || ch == '\U{3000}'
  }

  /** `string.IsNullOrWhiteSpace` on a non-null string (the empty string included). */
  predicate IsWhiteSpaceOnly(s: string)
  {
    forall i | 0 <= i < |s| :: IsWhiteSpace(s[i])
  }

  /** `string.TrimStart()`: leading white space removed. */
  function TrimStart(s: string): string
  {
    if s != [] && IsWhiteSpace(s[0]) then TrimStart(s[1..]) else s
  }

  /** `string.TrimEnd()`: trailing white space removed. */
  function TrimEnd(s: string): string
  {
    if s != [] && IsWhiteSpace(s[|s| - 1]) then TrimEnd(s[..|s| - 1]) else s
  }

  /** `string.Trim()`. */
  function Trim(s: string): string
  {
    TrimEnd(TrimStart(s))
  }

  /** `string.TrimStart(c)`: every leading occurrence of `c` removed. */
  function TrimStartChar(s: string, c: char): string
  {
    if s != [] && s[0] == c then TrimStartChar(s[1..], c) else s
  }

  /** TrimStart() removes exactly the leading white space: what it keeps is
      a suffix that does not start with white space, and all it drops is
      white space. */
  lemma {:induction false} TrimStartSpec(s: string)
    ensures var r := TrimStart(s);
      && |r| <= |s| && r == s[|s| - |r|..]
      && (forall i | 0 <= i < |s| - |r| :: IsWhiteSpace(s[i]))
      && (r == [] || !IsWhiteSpace(r[0]))
    decreases |s|
  {
    if s != [] && IsWhiteSpace(s[0]) {
      TrimStartSpec(s[1..]);
      var r := TrimStart(s[1..]);
      assert s[1..][|s| - 1 - |r|..] == s[|s| - |r|..];
      forall i | 1 <= i < |s| - |r| ensures IsWhiteSpace(s[i]) {
        assert s[i] == s[1..][i - 1];
      }
    }
  }

  /** TrimEnd() removes exactly the trailing white space. */
  lemma {:induction false} TrimEndSpec(s: string)
    ensures var r := TrimEnd(s);
      && |r| <= |s| && r == s[..|r|]
      && (forall i | |r| <= i < |s| :: IsWhiteSpace(s[i]))
      && (r == [] || !IsWhiteSpace(r[|r| - 1]))
    decreases |s|
  {
    if s != [] && IsWhiteSpace(s[|s| - 1]) {
      TrimEndSpec(s[..|s| - 1]);
      var r := TrimEnd(s[..|s| - 1]);
      assert s[..|s| - 1][..|r|] == s[..|r|];
      forall i | |r| <= i < |s| - 1 ensures IsWhiteSpace(s[i]) {
        assert s[i] == s[..|s| - 1][i];
      }
    }
  }

  /** TrimStart(c) removes exactly the leading occurrences of `c`. */
  lemma {:induction false} TrimStartCharSpec(s: string, c: char)
    ensures |TrimStartChar(s, c)| <= |s|
    ensures TrimStartChar(s, c) == s[|s| - |TrimStartChar(s, c)|..]
    ensures forall i | 0 <= i < |s| - |TrimStartChar(s, c)| :: s[i] == c
    ensures TrimStartChar(s, c) == [] || TrimStartChar(s, c)[0] != c
    decreases |s|
  {
    if s != [] && s[0] == c {
      var t := s[1..];
      TrimStartCharSpec(t, c);
      var r := TrimStartChar(t, c);
      assert TrimStartChar(s, c) == r;
      assert t[|t| - |r|..] == s[|s| - |r|..];
      forall i | 0 <= i < |s| - |r| ensures s[i] == c {
        if i > 0 {
          assert s[i] == t[i - 1];
        }
      }
    }
  }

  /** Trim() gives the substring of its input that starts where TrimStart()
      stops, with no white space at either end. */
  lemma TrimSpec(s: string)
    ensures var t, k := Trim(s), |s| - |TrimStart(s)|;
      && (t == [] || (!IsWhiteSpace(t[0]) && !IsWhiteSpace(t[|t| - 1])))
      && 0 <= k <= k + |t| <= |s| && t == s[k..k + |t|]
  {
    var u := TrimStart(s);
    TrimStartSpec(s);
    TrimEndSpec(u);
  }

  /** Trim() empties a string exactly when it holds nothing but white space. */
  lemma TrimEmptyIffWhiteSpace(s: string)
    ensures Trim(s) == [] <==> IsWhiteSpaceOnly(s)
  {
    var u := TrimStart(s);
    TrimStartSpec(s);
    TrimEndSpec(u);
    if u != [] {
      assert u[0] == s[|s| - |u|];
    }
  }

  /** Trim() leaves alone a string with no white space at either end. */
  lemma TrimNoPadding(s: string)
    requires s != [] && !IsWhiteSpace(s[0]) && !IsWhiteSpace(s[|s| - 1])
    ensures Trim(s) == s
  {
  }

  /** Trim() is idempotent. */
  lemma TrimIdempotent(s: string)
    ensures Trim(Trim(s)) == Trim(s)
  {
    var t := Trim(s);
    TrimSpec(s);
    if t != [] {
      TrimNoPadding(t);
    }
  }

  /** ASCII upper-case letters mapped to lower case; everything else kept. */
  function LowerChar(ch: char): char
  {
    if 'A' <= ch <= 'Z' then (ch as int + 32) as char else ch
  }

  /** ASCII lower-case letters mapped to upper case; everything else kept. */
  function UpperChar(ch: char): char
  {
    if 'a' <= ch <= 'z' then (ch as int - 32) as char else ch
  }

  /** `string.ToLower()`, restricted to the ASCII letters. */
  function ToLower(s: string): (r: string)
    ensures |r| == |s|
    ensures forall i | 0 <= i < |s| :: r[i] == LowerChar(s[i])
  {
    if s == [] then [] else [LowerChar(s[0])] + ToLower(s[1..])
  }

  /** `string.ToUpper()`, restricted to the ASCII letters. */
  function ToUpper(s: string): (r: string)
    ensures |r| == |s|
    ensures forall i | 0 <= i < |s| :: r[i] == UpperChar(s[i])
  {
    if s == [] then [] else [UpperChar(s[0])] + ToUpper(s[1..])
  }

  /** Lower-casing never turns white space into something else or back. */
  lemma LowerCharKeepsWhiteSpace(ch: char)
    ensures IsWhiteSpace(LowerChar(ch)) <==> IsWhiteSpace(ch)
  {
  }

  lemma {:induction false} TrimStartLower(s: string)
    ensures TrimStart(ToLower(s)) == ToLower(TrimStart(s))
    decreases |s|
  {
    if s != [] {
      LowerCharKeepsWhiteSpace(s[0]);
      assert ToLower(s)[1..] == ToLower(s[1..]);
      if IsWhiteSpace(s[0]) {
        TrimStartLower(s[1..]);
      }
    }
  }

  lemma {:induction false} TrimEndLower(s: string)
    ensures TrimEnd(ToLower(s)) == ToLower(TrimEnd(s))
    decreases |s|
  {
    if s != [] {
      LowerCharKeepsWhiteSpace(s[|s| - 1]);
      assert ToLower(s)[..|s| - 1] == ToLower(s[..|s| - 1]);
      if IsWhiteSpace(s[|s| - 1]) {
        TrimEndLower(s[..|s| - 1]);
      }
    }
  }

  /** Trim() and ToLower() commute. */
  lemma TrimLower(s: string)
    ensures Trim(ToLower(s)) == ToLower(Trim(s))
  {
    TrimStartLower(s);
    TrimEndLower(TrimStart(s));
  }

  /** TrimStart(c) and ToLower() commute when `c` is not an ASCII letter. */
  lemma {:induction false} TrimStartCharLower(s: string, c: char)
    requires !('A' <= c <= 'Z') && !('a' <= c <= 'z')
    ensures TrimStartChar(ToLower(s), c) == ToLower(TrimStartChar(s, c))
    decreases |s|
  {
    if s != [] {
      assert ToLower(s)[1..] == ToLower(s[1..]);
      if s[0] == c {
        TrimStartCharLower(s[1..], c);
      }
    }
  }
}
