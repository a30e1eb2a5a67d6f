/**
 * The `trim()` sanitizer that the signup route applies to the username.
 * express-validator delegates it to validator.js, whose default pattern strips
 * the JavaScript regular-expression class `\s` from both ends of the value.
 */
module JsString {

  /** JavaScript's `\s`: the WhiteSpace and LineTerminator code points of
      ECMA-262 (sections 12.2 "White Space" and 12.3 "Line Terminators"). */
  predicate IsWhitespace(c: char) {
    c == '\t' || c == '\n' || c == '\U{000B}' || c == '\U{000C}' || c == '\r' || c == ' '
    || c == '\U{00A0}' || c == '\U{1680}' || ('\U{2000}' <= c <= '\U{200A}')
    || c == '\U{2028}' || c == '\U{2029}' || c == '\U{202F}' || c == '\U{205F}'
    || c == '\U{3000}' || c == '\U{FEFF}'
  }

  /** Every character of `s` is whitespace (the empty string included). */
  predicate IsBlank(s: string) {
    forall i :: 0 <= i < |s| ==> IsWhitespace(s[i])
  }

  /** Strips leading whitespace: the result is the suffix of `s` that starts
      at its first non-whitespace character. */
  function TrimStart(s: string): (r: string)
    ensures |r| <= |s| && r == s[|s| - |r|..]
    ensures IsBlank(s[..|s| - |r|])
    ensures r == [] || !IsWhitespace(r[0])
  {
    if s != [] && IsWhitespace(s[0]) then TrimStart(s[1..]) else s
  }

  /** Strips trailing whitespace: the result is the prefix of `s` that ends
      at its last non-whitespace character. */
  function TrimEnd(s: string): (r: string)
    ensures |r| <= |s| && r == s[..|r|]
    ensures IsBlank(s[|r|..])
    ensures r == [] || !IsWhitespace(r[|r| - 1])
  {
    if s != [] && IsWhitespace(s[|s| - 1]) then TrimEnd(s[..|s| - 1]) else s
  }

  /** validator.js `trim(str)`: `rtrim(ltrim(str))`. */
  function Trim(s: string): (r: string)
    ensures |r| <= |s|
    ensures r == [] <==> IsBlank(s)
    ensures r == [] || (!IsWhitespace(r[0]) && !IsWhitespace(r[|r| - 1]))
  {
    TrimStartEmptyIffBlank(s);
    TrimEndKeepsHead(TrimStart(s));
    TrimEnd(TrimStart(s))
  }

  /** `r` sits in `s` at offset `i`, with only whitespace before and after it. */
  ghost predicate MiddleAt(s: string, r: string, i: nat) {
    i + |r| <= |s| && r == s[i..i + |r|] && IsBlank(s[..i]) && IsBlank(s[i + |r|..])
  }

  /** `trim()` keeps the middle of its input: the result is a slice of `s`,
      and what lies before and after that slice is whitespace. */
  lemma TrimKeepsMiddle(s: string)
    ensures exists i :: MiddleAt(s, Trim(s), i)
  {
    var x := TrimStart(s);
    var r := TrimEnd(x);
    var i := |s| - |x|;
    assert Trim(s) == r;
    assert x == s[i..] && IsBlank(s[..i]);
    assert r == x[..|r|] && IsBlank(x[|r|..]);
    SliceOfSuffix(s, i, |r|);
    assert MiddleAt(s, r, i);
  }

  /** Slicing a suffix is slicing the whole. */
  lemma SliceOfSuffix(s: string, i: nat, k: nat)
    requires i + k <= |s|
    ensures s[i..][..k] == s[i..i + k] && s[i..][k..] == s[i + k..]
  {
  }

  /** A string with no whitespace at either end is left as it is. */
  lemma TrimKeepsUnpadded(s: string)
    requires s != [] && !IsWhitespace(s[0]) && !IsWhitespace(s[|s| - 1])
    ensures Trim(s) == s
  {
  }

  /** Only an all-whitespace input loses every character to `TrimStart`. */
  lemma TrimStartEmptyIffBlank(s: string)
    ensures TrimStart(s) == [] <==> IsBlank(s)
  {
    var r := TrimStart(s);
    assert r == [] ==> s[..|s| - |r|] == s;
    assert r != [] ==> s[|s| - |r|] == r[0];
  }

  /** `TrimEnd` of a string that starts with a non-whitespace character keeps
      that first character. */
  lemma TrimEndKeepsHead(x: string)
    requires x == [] || !IsWhitespace(x[0])
    ensures TrimEnd(x) == [] <==> x == []
    ensures TrimEnd(x) != [] ==> TrimEnd(x)[0] == x[0]
  {
    var r := TrimEnd(x);
    assert r == [] ==> x[|r|..] == x;
  }

  /** Leading whitespace never survives a `TrimStart`. */
  lemma {:induction false} TrimStartSkipsBlankPrefix(w: string, x: string)
    requires IsBlank(w)
    ensures TrimStart(w + x) == TrimStart(x)
  {
    if w == [] {
      assert w + x == x;
    } else {
      assert (w + x)[0] == w[0];
      assert (w + x)[1..] == w[1..] + x;
      TrimStartSkipsBlankPrefix(w[1..], x);
    }
  }

  /** Trailing whitespace never survives a `TrimEnd`. */
  lemma {:induction false} TrimEndSkipsBlankSuffix(x: string, w: string)
    requires IsBlank(w)
    ensures TrimEnd(x + w) == TrimEnd(x)
  {
    if w == [] {
      assert x + w == x;
    } else {
      assert (x + w)[|x + w| - 1] == w[|w| - 1];
      assert (x + w)[..|x + w| - 1] == x + w[..|w| - 1];
      TrimEndSkipsBlankSuffix(x, w[..|w| - 1]);
    }
  }

  /** Once a non-whitespace character has been reached, `TrimStart` keeps
      everything after it. */
  lemma {:induction false} TrimStartKeepsTail(x: string, y: string)
    requires !IsBlank(x)
    ensures TrimStart(x + y) == TrimStart(x) + y
  {
    assert (x + y)[0] == x[0];
    if IsWhitespace(x[0]) {
      assert !IsBlank(x[1..]) by {
        var i :| 0 <= i < |x| && !IsWhitespace(x[i]);
        assert x[1..][i - 1] == x[i];
      }
      assert (x + y)[1..] == x[1..] + y;
      TrimStartKeepsTail(x[1..], y);
    }
  }

  /** Whitespace around a value never changes what `trim()` produces, so it
      can never count towards a length rule applied afterwards. */
  lemma TrimIgnoresPadding(w1: string, u: string, w2: string)
    requires IsBlank(w1) && IsBlank(w2)
    ensures Trim(w1 + u + w2) == Trim(u)
  {
    assert w1 + u + w2 == w1 + (u + w2);
    TrimStartSkipsBlankPrefix(w1, u + w2);
    if IsBlank(u) {
      assert IsBlank(u + w2) by {
        forall i | 0 <= i < |u + w2| ensures IsWhitespace((u + w2)[i]) {
          if i < |u| { assert (u + w2)[i] == u[i]; } else { assert (u + w2)[i] == w2[i - |u|]; }
        }
      }
    } else {
      TrimStartKeepsTail(u, w2);
      TrimEndSkipsBlankSuffix(TrimStart(u), w2);
    }
  }
}
