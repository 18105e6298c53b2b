/** JavaScript's `String.prototype.trim`, which the profile update applies to
    every text field before deciding whether to keep it. */
module Text {

  /** The code points ECMAScript counts as WhiteSpace or LineTerminator:
      tab, line feed, vertical tab, form feed, carriage return, the space
      separators of Unicode category Zs, the line and paragraph separators
      and the byte order mark. */
  predicate IsJsWhitespace(c: char)
  {
    c == '\t' || c == '\n' || c == '\U{000B}' || c == '\U{000C}' || c == '\r'
    || c == ' ' || c == '\U{00A0}' || c == '\U{1680}'
    || ('\U{2000}' <= c <= '\U{200A}')
    || c == '\U{2028}' || c == '\U{2029}' || c == '\U{202F}' || c == '\U{205F}'
    || c == '\U{3000}' || c == '\U{FEFF}'
  }

  /** Every character of `s` is whitespace (true of the empty string). */
  predicate Blank(s: string)
  {
    forall i :: 0 <= i < |s| ==> IsJsWhitespace(s[i])
  }

  /** `s` with its leading whitespace removed. */
  function TrimStart(s: string): (r: string)
    ensures |r| <= |s| && r == s[|s| - |r|..]
    ensures r != [] ==> !IsJsWhitespace(r[0])
    ensures forall i :: 0 <= i < |s| - |r| ==> IsJsWhitespace(s[i])
  {
    if s != [] && IsJsWhitespace(s[0]) then TrimStart(s[1..]) else s
  }

  /** `s` with its trailing whitespace removed. */
  function TrimEnd(s: string): (r: string)
    ensures |r| <= |s| && r == s[..|r|]
    ensures r != [] ==> !IsJsWhitespace(r[|r| - 1])
    ensures forall i :: |r| <= i < |s| ==> IsJsWhitespace(s[i])
  {
    if s != [] && IsJsWhitespace(s[|s| - 1]) then TrimEnd(s[..|s| - 1]) else s
  }

  /** `s.trim()`: whitespace removed from both ends. */
  function Trim(s: string): (r: string)
    ensures |r| <= |s|
    ensures r != [] ==> !IsJsWhitespace(r[|r| - 1])
  {
    TrimEnd(TrimStart(s))
  }

  /** The trimmed string is the infix of `s` that starts after the leading
      whitespace, and everything cut away is whitespace. */
  lemma TrimIsInfix(s: string)
    ensures var a := |s| - |TrimStart(s)|;
      && a + |Trim(s)| <= |s|
      && (forall i :: 0 <= i < |Trim(s)| ==> Trim(s)[i] == s[a + i])
      && (forall i :: 0 <= i < a ==> IsJsWhitespace(s[i]))
      && (forall i :: a + |Trim(s)| <= i < |s| ==> IsJsWhitespace(s[i]))
  {
    var t := TrimStart(s);
    var a := |s| - |t|;
    forall i | a + |Trim(s)| <= i < |s| ensures IsJsWhitespace(s[i]) {
      assert s[i] == t[i - a];
    }
  }

  /** A non-empty trimmed string starts and ends with a non-whitespace character. */
  lemma TrimEndsNonBlank(s: string)
    ensures Trim(s) != [] ==> !IsJsWhitespace(Trim(s)[0]) && !IsJsWhitespace(Trim(s)[|Trim(s)| - 1])
  {
    var t := TrimStart(s);
    if Trim(s) != [] {
      assert Trim(s)[0] == t[0];
    }
  }

  /** Trimming yields the empty string exactly when the input is blank. */
  lemma TrimEmptyIffBlank(s: string)
    ensures Trim(s) == [] <==> Blank(s)
  {
    var t := TrimStart(s);
    if Trim(s) == [] {
      // The whole of `t` is trailing whitespace, yet `t` cannot start with
      // whitespace: so nothing was left after the leading whitespace.
      assert t == [];
    } else {
      assert Trim(s)[0] == s[|s| - |t|];
    }
  }

  /** Trimming twice is the same as trimming once. */
  lemma TrimIdempotent(s: string)
    ensures Trim(Trim(s)) == Trim(s)
  {
    var r := Trim(s);
    TrimEndsNonBlank(s);
    if r != [] {
      assert TrimStart(r) == r;
      assert TrimEnd(r) == r;
    }
  }
}
