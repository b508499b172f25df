/**
 * The string primitives the project search relies on, in the sense of
 * JavaScript's String.prototype: toLowerCase (restricted to ASCII letters),
 * trim (the full WhiteSpace and LineTerminator code-point sets of
 * ECMAScript section 22.1.3.32) and includes (substring search).
 */
module Text {

  /** ASCII upper-case letter. */
  predicate IsUpper(c: char) {
    'A' <= c <= 'Z'
  }

  /** toLowerCase on one character: ASCII letters fold, every other character is kept. */
  function LowerChar(c: char): (r: char)
    ensures !IsUpper(r)
    ensures IsUpper(c) ==> r as int == c as int + 32
    ensures !IsUpper(c) ==> r == c
  {
    if IsUpper(c) then (c as int + 32) as char else c
  }

  /** toUpperCase on one character, ASCII only; used to state case-insensitivity. */
  function UpperChar(c: char): (r: char)
    ensures !('a' <= r <= 'z')
    ensures LowerChar(r) == LowerChar(c)
  {
    if 'a' <= c <= 'z' then (c as int - 32) as char else c
  }

  /** String.prototype.toLowerCase, character by character. */
  function Lower(s: string): (r: string)
    ensures |r| == |s|
    ensures forall i :: 0 <= i < |s| ==> r[i] == LowerChar(s[i])
  {
    seq(|s|, i requires 0 <= i < |s| => LowerChar(s[i]))
  }

  /** String.prototype.toUpperCase, ASCII only. */
  function Upper(s: string): (r: string)
    ensures |r| == |s|
    ensures forall i :: 0 <= i < |s| ==> r[i] == UpperChar(s[i])
  {
    seq(|s|, i requires 0 <= i < |s| => UpperChar(s[i]))
  }

  /** Lower-casing twice is lower-casing once. */
  lemma LowerIdempotent(s: string)
    ensures Lower(Lower(s)) == Lower(s)
  {
    assert forall i :: 0 <= i < |s| ==> Lower(Lower(s))[i] == Lower(s)[i];
  }

  /** Lower-casing forgets the case of the input. */
  lemma LowerOfUpper(s: string)
    ensures Lower(Upper(s)) == Lower(s)
  {
    assert forall i :: 0 <= i < |s| ==> Lower(Upper(s))[i] == Lower(s)[i];
  }

  /**
   * The characters String.prototype.trim removes: ECMAScript WhiteSpace
   * (TAB, VT, FF, SP, NBSP, ZWNBSP and the Zs category) and LineTerminator
   * (LF, CR, LS, PS).
   */
  predicate IsWhitespace(c: char) {
    || c == '\t' || c == '\n' || c == '\U{000B}' || c == '\U{000C}' || c == '\r' || c == ' '
    || c == '\U{00A0}' || c == '\U{1680}' || ('\U{2000}' <= c <= '\U{200A}')
    || c == '\U{2028}' || c == '\U{2029}' || c == '\U{202F}' || c == '\U{205F}'
    || c == '\U{3000}' || c == '\U{FEFF}'
  }

  predicate AllWhitespace(s: string) {
    forall i :: 0 <= i < |s| ==> IsWhitespace(s[i])
  }

  /** Removes leading whitespace: the result is the suffix that starts at the first other character. */
  function TrimStart(s: string): (r: string)
    ensures |r| <= |s| && r == s[|s| - |r|..]
    ensures AllWhitespace(s[..|s| - |r|])
    ensures r == [] || !IsWhitespace(r[0])
  {
    if s != [] && IsWhitespace(s[0]) then
      var t := s[1..];
      var r := TrimStart(t);
      var n := |s| - |r|;
      assert |t| - |r| == n - 1 && r == t[n - 1..];
      WhitespaceCons(s, n);
      r
    else s
  }

  /** A whitespace character in front of a whitespace run extends the run. */
  lemma WhitespaceCons(s: string, n: nat)
    requires 1 <= n <= |s| && IsWhitespace(s[0]) && AllWhitespace(s[1..][..n - 1])
    ensures AllWhitespace(s[..n]) && s[1..][n - 1..] == s[n..]
  {
    forall k | 0 <= k < n ensures IsWhitespace(s[..n][k]) {
      if k > 0 { assert s[..n][k] == s[1..][..n - 1][k - 1]; }
    }
  }

  /** Removes trailing whitespace: the result is the prefix that ends at the last other character. */
  function TrimEnd(s: string): (r: string)
    ensures |r| <= |s| && r == s[..|r|]
    ensures AllWhitespace(s[|r|..])
    ensures r == [] || !IsWhitespace(r[|r| - 1])
  {
    if s != [] && IsWhitespace(s[|s| - 1]) then
      var r := TrimEnd(s[..|s| - 1]);
      WhitespaceSnoc(s, |r|);
      r
    else s
  }

  /** A whitespace character after a whitespace run extends the run. */
  lemma WhitespaceSnoc(s: string, n: nat)
    requires n < |s| && IsWhitespace(s[|s| - 1]) && AllWhitespace(s[..|s| - 1][n..])
    ensures AllWhitespace(s[n..]) && s[..|s| - 1][..n] == s[..n]
  {
    forall k | 0 <= k < |s| - n ensures IsWhitespace(s[n..][k]) {
      if k < |s| - 1 - n { assert s[n..][k] == s[..|s| - 1][n..][k]; }
    }
  }

  /** String.prototype.trim. */
  function Trim(s: string): (r: string)
    ensures exists i :: IsTrimmedAt(s, r, i)
    ensures r == [] || (!IsWhitespace(r[0]) && !IsWhitespace(r[|r| - 1]))
    ensures r == [] <==> AllWhitespace(s)
  {
    var t := TrimStart(s);
    var r := TrimEnd(t);
    TrimSplit(s, t, r);
    r
  }

  /** `r` is the slice of `s` at index `i`, and everything before and after it is whitespace. */
  ghost predicate IsTrimmedAt(s: string, r: string, i: int) {
    && 0 <= i <= |s| - |r|
    && s[i..i + |r|] == r
    && AllWhitespace(s[..i])
    && AllWhitespace(s[i + |r|..])
  }

  /** Composes the facts about TrimStart and TrimEnd into the facts about Trim. */
  lemma TrimSplit(s: string, t: string, r: string)
    requires |t| <= |s| && t == s[|s| - |t|..] && AllWhitespace(s[..|s| - |t|])
    requires t == [] || !IsWhitespace(t[0])
    requires |r| <= |t| && r == t[..|r|] && AllWhitespace(t[|r|..])
    requires r == [] || !IsWhitespace(r[|r| - 1])
    ensures IsTrimmedAt(s, r, |s| - |t|)
    ensures r == [] <==> AllWhitespace(s)
    ensures r == [] || (!IsWhitespace(r[0]) && !IsWhitespace(r[|r| - 1]))
  {
    var i := |s| - |t|;
    assert s[i..i + |r|] == t[..|r|];
    assert s[i + |r|..] == t[|r|..];
    if r == [] {
      forall k | 0 <= k < |s| ensures IsWhitespace(s[k]) {
        assert s[..i][k] == s[k];
      }
    }
    if t != [] {
      assert !IsWhitespace(s[i]);
    }
  }

  /** Two non-blank slices of `s` that are both surrounded only by whitespace are the same slice. */
  lemma TrimmedSlicesAgree(s: string, r: string, i: int, r': string, j: int)
    requires IsTrimmedAt(s, r, i) && IsTrimmedAt(s, r', j)
    requires r != [] && !IsWhitespace(r[0]) && !IsWhitespace(r[|r| - 1])
    requires r' != [] && !IsWhitespace(r'[0]) && !IsWhitespace(r'[|r'| - 1])
    ensures r == r'
  {
    assert s[i] == r[0] && s[j] == r'[0];
    assert i == j;
    var e, e' := i + |r|, j + |r'|;
    assert s[e - 1] == r[|r| - 1] && s[e' - 1] == r'[|r'| - 1];
    assert e == e';
  }

  /**
   * The contract of Trim determines its result: any non-blank slice of `s`
   * surrounded only by whitespace and not itself starting or ending with
   * whitespace is Trim(s).
   */
  lemma TrimUnique(s: string, r: string, i: int)
    requires IsTrimmedAt(s, r, i)
    requires r != [] && !IsWhitespace(r[0]) && !IsWhitespace(r[|r| - 1])
    ensures Trim(s) == r
  {
    var r' := Trim(s);
    var j :| IsTrimmedAt(s, r', j);
    if r' != [] {
      TrimmedSlicesAgree(s, r, i, r', j);
    }
  }

  /** Whitespace added around `s` only widens the whitespace around its trimmed slice. */
  lemma PaddedSlice(a: string, s: string, b: string, r: string, j: int)
    requires AllWhitespace(a) && AllWhitespace(b) && IsTrimmedAt(s, r, j)
    ensures IsTrimmedAt(a + s + b, r, |a| + j)
  {
    var x := a + s + b;
    var i := |a| + j;
    assert x[i..i + |r|] == s[j..j + |r|];
    forall m | 0 <= m < i ensures IsWhitespace(x[m]) {
      if m >= |a| { assert x[m] == s[..j][m - |a|]; }
    }
    forall m | i + |r| <= m < |x| ensures IsWhitespace(x[m]) {
      if m < |a| + |s| { assert x[m] == s[j + |r|..][m - i - |r|]; }
    }
    assert forall m :: 0 <= m < i ==> x[..i][m] == x[m];
    var tail := x[i + |r|..];
    assert forall m :: 0 <= m < |tail| ==> tail[m] == x[i + |r| + m];
  }

  lemma WhitespaceConcat(a: string, s: string, b: string)
    requires AllWhitespace(a) && AllWhitespace(s) && AllWhitespace(b)
    ensures AllWhitespace(a + s + b)
  {
    var x := a + s + b;
    forall k | 0 <= k < |x| ensures IsWhitespace(x[k]) {
      if k < |a| { assert x[k] == a[k]; }
      else if k < |a| + |s| { assert x[k] == s[k - |a|]; }
      else { assert x[k] == b[k - |a| - |s|]; }
    }
  }

  /** Trimming ignores any amount of leading and trailing whitespace. */
  lemma TrimIgnoresPadding(a: string, s: string, b: string)
    requires AllWhitespace(a) && AllWhitespace(b)
    ensures Trim(a + s + b) == Trim(s)
  {
    if AllWhitespace(s) {
      WhitespaceConcat(a, s, b);
    } else {
      var r := Trim(s);
      var j :| IsTrimmedAt(s, r, j);
      TrimOfPaddedSlice(a, s, b, r, j);
    }
  }

  lemma TrimOfPaddedSlice(a: string, s: string, b: string, r: string, j: int)
    requires AllWhitespace(a) && AllWhitespace(b) && IsTrimmedAt(s, r, j)
    requires r != [] && !IsWhitespace(r[0]) && !IsWhitespace(r[|r| - 1])
    ensures Trim(a + s + b) == r
  {
    PaddedSlice(a, s, b, r, j);
    TrimUnique(a + s + b, r, |a| + j);
  }

  /** Lower-casing never turns whitespace into non-whitespace or back. */
  lemma LowerKeepsWhitespace(c: char)
    ensures IsWhitespace(LowerChar(c)) == IsWhitespace(c)
  {
  }

  /** Lower-casing `s` lower-cases its trimmed slice and keeps the whitespace around it. */
  lemma LowerTrimmedSlice(s: string, r: string, j: int)
    requires IsTrimmedAt(s, r, j)
    ensures IsTrimmedAt(Lower(s), Lower(r), j)
  {
    var ls := Lower(s);
    var e := j + |r|;
    LowerSlice(s, j, e);
    LowerPrefix(s, j);
    LowerSuffix(s, e);
    LowerOfWhitespace(s[..j]);
    LowerOfWhitespace(s[e..]);
    assert ls[j..e] == Lower(r);
    assert ls[..j] == Lower(s[..j]) && AllWhitespace(ls[..j]);
    assert ls[e..] == Lower(s[e..]) && AllWhitespace(ls[e..]);
  }

  /** Lower-casing a slice is slicing the lower-cased string. */
  lemma LowerSlice(s: string, i: int, j: int)
    requires 0 <= i <= j <= |s|
    ensures Lower(s)[i..j] == Lower(s[i..j])
  {
    var a, b := Lower(s)[i..j], Lower(s[i..j]);
    assert forall k :: 0 <= k < |a| ==> a[k] == b[k];
  }

  lemma LowerPrefix(s: string, j: int)
    requires 0 <= j <= |s|
    ensures Lower(s)[..j] == Lower(s[..j])
  {
    var a, b := Lower(s)[..j], Lower(s[..j]);
    assert forall k :: 0 <= k < |a| ==> a[k] == b[k];
  }

  lemma LowerSuffix(s: string, i: int)
    requires 0 <= i <= |s|
    ensures Lower(s)[i..] == Lower(s[i..])
  {
    var a, b := Lower(s)[i..], Lower(s[i..]);
    assert forall k :: 0 <= k < |a| ==> a[k] == b[k];
  }

  lemma LowerOfWhitespace(s: string)
    ensures AllWhitespace(Lower(s)) == AllWhitespace(s)
  {
    forall k | 0 <= k < |s| ensures IsWhitespace(Lower(s)[k]) == IsWhitespace(s[k]) {
      LowerKeepsWhitespace(s[k]);
    }
  }

  /** Trimming and lower-casing commute, so the order the search applies them in does not matter. */
  lemma TrimLowerCommute(s: string)
    ensures Trim(Lower(s)) == Lower(Trim(s))
  {
    LowerOfWhitespace(s);
    if !AllWhitespace(s) {
      var r := Trim(s);
      var j :| IsTrimmedAt(s, r, j);
      LowerTrimmedSlice(s, r, j);
      LowerKeepsWhitespace(r[0]);
      LowerKeepsWhitespace(r[|r| - 1]);
      TrimUnique(Lower(s), Lower(r), j);
    }
  }

  /** `q` occurs in `text` starting at index `i`. */
  ghost predicate OccursAt(text: string, q: string, i: int) {
    0 <= i && i + |q| <= |text| && text[i..i + |q|] == q
  }

  predicate StartsWith(text: string, q: string) {
    |q| <= |text| && text[..|q|] == q
  }

  /** String.prototype.includes: `q` occurs somewhere in `text` (the empty string occurs everywhere). */
  predicate Includes(text: string, q: string): (r: bool)
    ensures r <==> exists i :: OccursAt(text, q, i)
    decreases |text|
  {
    if StartsWith(text, q) then
      assert OccursAt(text, q, 0);
      true
    else if text == [] then
      assert forall i :: OccursAt(text, q, i) ==> i == 0;
      false
    else
      var r := Includes(text[1..], q);
      assert forall i :: OccursAt(text[1..], q, i) <==> OccursAt(text, q, i + 1) by {
        forall i | OccursAt(text[1..], q, i) ensures OccursAt(text, q, i + 1) {
          assert text[1..][i..i + |q|] == text[i + 1..i + 1 + |q|];
        }
        forall i | OccursAt(text, q, i + 1) ensures OccursAt(text[1..], q, i) {
          assert text[1..][i..i + |q|] == text[i + 1..i + 1 + |q|];
        }
      }
      assert forall i :: OccursAt(text, q, i) ==> i == 0 || OccursAt(text[1..], q, i - 1);
      r
  }
}
