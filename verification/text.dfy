/** The string operations the components apply to user input:
    `String.prototype.trim` and `String.prototype.toUpperCase`. */
module Text {

  /** JavaScript's WhiteSpace and LineTerminator code points, the set `trim` strips. */
  predicate IsSpace(c: char) {
    || c == '\t' || c == '\n' || c == '\U{000B}' || c == '\U{000C}' || c == '\r'
    || c == ' ' || c == '\U{00A0}' || c == '\U{1680}'
    || ('\U{2000}' <= c <= '\U{200A}')
    || c == '\U{2028}' || c == '\U{2029}' || c == '\U{202F}' || c == '\U{205F}'
    || c == '\U{3000}' || c == '\U{FEFF}'
  }

  /** True when every character of `s` is white space (so `s.trim()` is falsy). */
  predicate IsBlank(s: string) {
    forall k :: 0 <= k < |s| ==> IsSpace(s[k])
  }

  function TrimStart(s: string): (r: string)
    ensures |r| <= |s| && r == s[|s| - |r|..]
    ensures IsBlank(s[..|s| - |r|])
    ensures |r| > 0 ==> !IsSpace(r[0])
  {
    if |s| > 0 && IsSpace(s[0]) then TrimStart(s[1..]) else s
  }

  function TrimEnd(s: string): (r: string)
    ensures |r| <= |s| && r == s[..|r|]
    ensures IsBlank(s[|r|..])
    ensures |r| > 0 ==> !IsSpace(r[|r| - 1])
  {
    if |s| > 0 && IsSpace(s[|s| - 1]) then TrimEnd(s[..|s| - 1]) else s
  }

  /** `s` is `r` with only white space before it (the first `i` characters) and after it. */
  predicate Surrounds(s: string, i: int, r: string) {
    0 <= i <= |s| - |r| && r == s[i..i + |r|] && IsBlank(s[..i]) && IsBlank(s[i + |r|..])
  }

  /** What the two trims leave is a stretch of `s` with only white space around it. */
  lemma TrimLeavesMiddle(s: string)
    ensures Surrounds(s, |s| - |TrimStart(s)|, TrimEnd(TrimStart(s)))
  {
    SurroundsOfParts(s, TrimStart(s), TrimEnd(TrimStart(s)));
  }

  /** A blank-prefixed suffix `t` of `s`, cut down to a prefix `r` followed by blanks. */
  lemma SurroundsOfParts(s: string, t: string, r: string)
    requires |t| <= |s| && t == s[|s| - |t|..] && IsBlank(s[..|s| - |t|])
    requires |r| <= |t| && r == t[..|r|] && IsBlank(t[|r|..])
    ensures Surrounds(s, |s| - |t|, r)
  {
    var i := |s| - |t|;
    assert s[i..i + |r|] == t[..|r|];
    assert s[i + |r|..] == t[|r|..];
  }

  /** `s.trim()`: `s` without its leading and trailing white space. */
  function Trim(s: string): (r: string)
    ensures |r| <= |s|
    ensures |r| > 0 ==> !IsSpace(r[0]) && !IsSpace(r[|r| - 1])
    ensures r == [] <==> IsBlank(s)
    ensures exists i :: Surrounds(s, i, r)
  {
    var t := TrimStart(s);
    var r := TrimEnd(t);
    TrimLeavesMiddle(s);
    assert |r| > 0 ==> r[0] == t[0];
    assert r == [] ==> IsBlank(s) by {
      if r == [] {
        assert IsBlank(t) by { assert t == t[|r|..]; }
        assert s == s[..|s| - |t|] + t;
      }
    }
    assert IsBlank(s) ==> |t| == 0;
    r
  }

  /** Trimming a trimmed string changes nothing. */
  lemma TrimIdempotent(s: string)
    ensures Trim(Trim(s)) == Trim(s)
  {
    var r := Trim(s);
    assert TrimStart(r) == r;
    assert TrimEnd(r) == r;
  }

  /** Upper-casing of one character: the Latin letters a-z become A-Z. */
  function UpperChar(c: char): (u: char)
    ensures 'a' <= c <= 'z' ==> 'A' <= u <= 'Z' && u as int == c as int - 32
    ensures !('a' <= c <= 'z') ==> u == c
  {
    if 'a' <= c <= 'z' then (c as int - 32) as char else c
  }

  /** `s.toUpperCase()`, restricted to the Latin alphabet (see README). */
  function Upper(s: string): (r: string)
    ensures |r| == |s|
    ensures forall k :: 0 <= k < |s| ==> r[k] == UpperChar(s[k])
  {
    seq(|s|, k requires 0 <= k < |s| => UpperChar(s[k]))
  }

  /** Upper-casing twice is upper-casing once. */
  lemma UpperIdempotent(s: string)
    ensures Upper(Upper(s)) == Upper(s)
  {
  }

  /** Upper-casing never turns a non-space into a space nor back, so it commutes with blankness. */
  lemma UpperKeepsBlank(s: string)
    ensures IsBlank(Upper(s)) <==> IsBlank(s)
  {
  }

  /** Upper-casing and trimming commute, because upper-casing maps white space to itself and
      nothing else to white space. */
  lemma TrimUpperCommute(s: string)
    ensures Trim(Upper(s)) == Upper(Trim(s))
  {
    TrimStartUpper(s);
    TrimEndUpper(TrimStart(s));
  }

  lemma {:induction false} TrimStartUpper(s: string)
    ensures TrimStart(Upper(s)) == Upper(TrimStart(s))
    decreases |s|
  {
    if |s| > 0 {
      UpperFront(s);
      if IsSpace(s[0]) {
        TrimStartUpper(s[1..]);
      }
    }
  }

  /** Upper-casing seen from the front: the first character and the rest are upper-cased apart. */
  lemma UpperFront(s: string)
    requires |s| > 0
    ensures IsSpace(Upper(s)[0]) <==> IsSpace(s[0])
    ensures Upper(s)[1..] == Upper(s[1..])
  {
    UpperCharSpace(s[0]);
  }

  lemma {:induction false} TrimEndUpper(s: string)
    ensures TrimEnd(Upper(s)) == Upper(TrimEnd(s))
    decreases |s|
  {
    if |s| > 0 {
      var u := Upper(s);
      UpperCharSpace(s[|s| - 1]);
      assert u[|s| - 1] == UpperChar(s[|s| - 1]);
      if IsSpace(s[|s| - 1]) {
        assert u[..|s| - 1] == Upper(s[..|s| - 1]);
        TrimEndUpper(s[..|s| - 1]);
        assert TrimEnd(u) == TrimEnd(u[..|s| - 1]);
      } else {
        assert TrimEnd(u) == u;
      }
    }
  }

  lemma UpperCharSpace(c: char)
    ensures IsSpace(UpperChar(c)) <==> IsSpace(c)
  {
  }
}
