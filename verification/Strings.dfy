// String.prototype.trim with the white space and the line terminators of ECMA-262. Case mapping,
// which depends on Unicode tables, is not needed here: where the services use it, it is an
// uninterpreted function of the model. Nor is there any regular expression: the two patterns that
// matter are the predicates IsDateKey and TimezoneAware.
module Strings {
  /** ECMA-262 white space and line terminators. */
  predicate IsWhite(c: char) {
    || '\t' <= c <= '\r'
    || c == ' ' || c == '\U{00A0}' || c == '\U{1680}'
    || '\U{2000}' <= c <= '\U{200A}'
    || c == '\U{2028}' || c == '\U{2029}' || c == '\U{202F}' || c == '\U{205F}'
    || c == '\U{3000}' || c == '\U{FEFF}'
  }

  function TrimStart(s: string): (r: string)
    ensures r != "" ==> !IsWhite(r[0])
    ensures |r| <= |s| && (s != "" && !IsWhite(s[0]) ==> r == s)
    ensures s != "" && !IsWhite(s[|s| - 1]) ==> r != "" && r[|r| - 1] == s[|s| - 1]
  {
    if s != "" && IsWhite(s[0]) then TrimStart(s[1..]) else s
  }

  function TrimEnd(s: string): (r: string)
    ensures r != "" ==> !IsWhite(r[|r| - 1])
    ensures |r| <= |s| && (s != "" && !IsWhite(s[|s| - 1]) ==> r == s)
  {
    if s != "" && IsWhite(s[|s| - 1]) then TrimEnd(s[..|s| - 1]) else s
  }

  function Trim(s: string): string {
    TrimStart(TrimEnd(s))
  }

  predicate Blank(s: string) {
    Trim(s) == ""
  }

  /** The 25 code points that ECMA-262 lists as white space or line terminators. */
  lemma WhiteIs(c: char)
    ensures IsWhite(c) <==> c as int in {
      0x09, 0x0A, 0x0B, 0x0C, 0x0D, 0x20, 0xA0, 0x1680, 0x2000, 0x2001, 0x2002, 0x2003, 0x2004, 0x2005, 0x2006,
      0x2007, 0x2008, 0x2009, 0x200A, 0x2028, 0x2029, 0x202F, 0x205F, 0x3000, 0xFEFF}
  {
  }

  ghost predicate AllWhite(s: string) {
    forall i :: 0 <= i < |s| ==> IsWhite(s[i])
  }

  /** `r` is `s` without the white space at its two ends. */
  ghost predicate IsTrimmed(s: string, r: string) {
    && (exists a, b :: s == a + r + b && AllWhite(a) && AllWhite(b))
    && (r != "" ==> !IsWhite(r[0]) && !IsWhite(r[|r| - 1]))
  }

  lemma {:induction false} TrimStartCuts(s: string) returns (a: string)
    ensures s == a + TrimStart(s) && AllWhite(a)
  {
    a := "";
    if s != "" && IsWhite(s[0]) {
      var rest := TrimStartCuts(s[1..]);
      a := [s[0]] + rest;
    }
  }

  lemma {:induction false} TrimEndCuts(s: string) returns (b: string)
    ensures s == TrimEnd(s) + b && AllWhite(b)
  {
    b := "";
    if s != "" && IsWhite(s[|s| - 1]) {
      var rest := TrimEndCuts(s[..|s| - 1]);
      b := rest + [s[|s| - 1]];
    }
  }

  /** Trimming cuts white space off both ends, all of it and nothing else. */
  lemma TrimMeans(s: string)
    ensures IsTrimmed(s, Trim(s))
  {
    var b := TrimEndCuts(s);
    var a := TrimStartCuts(TrimEnd(s));
    assert s == a + Trim(s) + b;
  }

  lemma LongestWhite(s: string, a: string, x: string, c: string, t: string, d: string)
    requires s == a + x && s == c + t + d && AllWhite(a)
    requires t != "" && !IsWhite(t[0])
    ensures |a| <= |c|
  {
    assert s[|c|] == t[0];
  }

  /** A string has one form without the white space at its ends. */
  lemma TrimmedIsUnique(s: string, r: string, t: string)
    requires IsTrimmed(s, r) && IsTrimmed(s, t)
    ensures r == t
  {
    var a, b :| s == a + r + b && AllWhite(a) && AllWhite(b);
    var c, d :| s == c + t + d && AllWhite(c) && AllWhite(d);
    if r == "" {
      OnlyWhite(s, a, b, c, t, d);
    } else if t == "" {
      OnlyWhite(s, c, d, a, r, b);
    } else {
      SameMiddle(s, a, r, b, c, t, d);
    }
  }

  lemma SameMiddle(s: string, a: string, r: string, b: string, c: string, t: string, d: string)
    requires s == a + r + b && s == c + t + d && AllWhite(a) && AllWhite(b) && AllWhite(c) && AllWhite(d)
    requires r != "" && !IsWhite(r[0]) && !IsWhite(r[|r| - 1])
    requires t != "" && !IsWhite(t[0]) && !IsWhite(t[|t| - 1])
    ensures r == t
  {
    assert s == a + (r + b) && s == c + (t + d);
    LongestWhite(s, a, r + b, c, t, d);
    LongestWhite(s, c, t + d, a, r, b);
    var e := s[|a|..];
    assert e == r + b && e == t + d;
    SameEnd(e, r, b, t, d);
    SameEnd(e, t, d, r, b);
    assert e[..|r|] == r && e[..|t|] == t;
  }

  lemma SameEnd(s: string, r: string, b: string, t: string, d: string)
    requires s == r + b && s == t + d && AllWhite(b)
    requires t != "" && !IsWhite(t[|t| - 1])
    ensures |t| <= |r|
  {
    assert s[|t| - 1] == t[|t| - 1];
  }

  lemma OnlyWhite(s: string, a: string, b: string, c: string, t: string, d: string)
    requires s == a + b && s == c + t + d && AllWhite(a) && AllWhite(b) && (t != "" ==> !IsWhite(t[0]))
    ensures t == ""
  {
    if t != "" { FirstIsSeen(s, c, t, d); }
  }

  lemma FirstIsSeen(s: string, c: string, t: string, d: string)
    requires s == c + t + d && t != ""
    ensures |c| < |s| && s[|c|] == t[0]
  {
  }
}
