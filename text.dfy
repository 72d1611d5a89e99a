/**
 * The handful of Python `str` operations the downloader's text handling uses,
 * with Python's semantics: `split` on one character, `[-1]`, `startswith`,
 * `in`, `strip()` and decimal formatting of a non-negative `int`.
 */
module Text {

  /** `s.split(sep)` for a one-character separator: "" gives [""], a separator at either end gives an empty piece. */
  function Split(s: string, sep: char): (pieces: seq<string>)
    ensures |pieces| >= 1
    ensures forall k :: 0 <= k < |pieces| ==> sep !in pieces[k]
    ensures Join(pieces, sep) == s
    decreases |s|
  {
    if s == [] then [""]
    else
      var rest := Split(s[1..], sep);
      if s[0] == sep then
        assert ([""] + rest)[1..] == rest;
        [""] + rest
      else
        var first := [s[0]] + rest[0];
        assert ([first] + rest[1..])[1..] == rest[1..];
        [first] + rest[1..]
  }

  /** `sep.join(pieces)`, the inverse of `Split`. */
  function Join(pieces: seq<string>, sep: char): string
    requires |pieces| >= 1
  {
    if |pieces| == 1 then pieces[0] else pieces[0] + [sep] + Join(pieces[1..], sep)
  }

  /** `s.split(sep)[-1]`: the text after the last separator, or all of `s` when there is none. */
  function LastPiece(s: string, sep: char): string {
    var pieces := Split(s, sep);
    pieces[|pieces| - 1]
  }

  /** `LastPiece` is the separator-free suffix of `s` that starts right after a separator or at the start. */
  lemma {:induction false} LastPieceIsSuffix(s: string, sep: char)
    ensures var r := LastPiece(s, sep);
      sep !in r && |r| <= |s| && r == s[|s| - |r|..] && (|r| < |s| ==> s[|s| - |r| - 1] == sep)
    decreases |s|
  {
    if s != [] {
      LastPieceIsSuffix(s[1..], sep);
      var rest := Split(s[1..], sep);
      if s[0] != sep && |rest| == 1 {
        assert LastPiece(s, sep) == [s[0]] + rest[0];
        assert rest[0] == s[1..];
      } else {
        assert LastPiece(s, sep) == LastPiece(s[1..], sep);
      }
    }
  }

  /** `s.startswith(prefix)`. */
  predicate StartsWith(s: string, prefix: string) {
    |prefix| <= |s| && s[..|prefix|] == prefix
  }

  /** `sub in s`, scanning left to right. */
  predicate Contains(s: string, sub: string)
    decreases |s|
  {
    StartsWith(s, sub) || (s != [] && Contains(s[1..], sub))
  }

  /** `Contains` holds exactly when `sub` occurs at some position of `s`. */
  lemma {:induction false} ContainsIffOccurs(s: string, sub: string)
    ensures Contains(s, sub) <==> exists i :: 0 <= i <= |s| - |sub| && StartsWith(s[i..], sub)
    decreases |s|
  {
    if s != [] {
      ContainsIffOccurs(s[1..], sub);
      if Contains(s[1..], sub) {
        var i :| 0 <= i <= |s[1..]| - |sub| && StartsWith(s[1..][i..], sub);
        assert s[i + 1..] == s[1..][i..];
      }
      if exists i :: 0 <= i <= |s| - |sub| && StartsWith(s[i..], sub) {
        var i :| 0 <= i <= |s| - |sub| && StartsWith(s[i..], sub);
        if i > 0 {
          assert s[1..][i - 1..] == s[i..];
        }
      }
    } else if sub == [] {
      assert StartsWith(s[0..], sub);
    }
  }

  /** `str.isspace()` of one character: the characters Python's `strip()` removes. */
  predicate IsSpace(c: char) {
    c == ' ' || c == '\t' || c == '\n' || c == '\r' || c == '\U{B}' || c == '\U{C}'
    || ('\U{1C}' <= c <= '\U{1F}') || c == '\U{85}' || c == '\U{A0}' || c == '\U{1680}'
    || ('\U{2000}' <= c <= '\U{200A}') || c == '\U{2028}' || c == '\U{2029}'
    || c == '\U{202F}' || c == '\U{205F}' || c == '\U{3000}'
  }

  /** `s.lstrip()`: the suffix of `s` after its leading white space. */
  function StripStart(s: string): (r: string)
    ensures |r| <= |s| && r == s[|s| - |r|..]
    ensures r == [] || !IsSpace(r[0])
    ensures forall k :: 0 <= k < |s| - |r| ==> IsSpace(s[k])
  {
    if s != [] && IsSpace(s[0]) then StripStart(s[1..]) else s
  }

  /** `s.rstrip()`: the prefix of `s` before its trailing white space. */
  function StripEnd(s: string): (r: string)
    ensures |r| <= |s| && r == s[..|r|]
    ensures r == [] || !IsSpace(r[|r| - 1])
    ensures forall k :: |r| <= k < |s| ==> IsSpace(s[k])
  {
    if s != [] && IsSpace(s[|s| - 1]) then StripEnd(s[..|s| - 1]) else s
  }

  /**
   * `s.strip()`: the piece of `s` left once the white space at both ends is
   * dropped; no white space remains at either end of it.
   */
  function Strip(s: string): (r: string)
    ensures |r| <= |s|
    ensures r == [] || (!IsSpace(r[0]) && !IsSpace(r[|r| - 1]))
    ensures exists i :: 0 <= i <= |s| - |r| && r == s[i..i + |r|] && TrimmedAt(s, i, |r|)
  {
    var a := StripStart(s);
    var r := StripEnd(a);
    TrimBothEnds(s, a, r);
    r
  }

  /**
   * Dropping white space from the front of `s` and then from the back of what
   * is left gives a slice of `s` with only white space around it.
   */
  lemma TrimBothEnds(s: string, a: string, r: string)
    requires |a| <= |s| && a == s[|s| - |a|..] && (a == [] || !IsSpace(a[0]))
    requires forall k :: 0 <= k < |s| - |a| ==> IsSpace(s[k])
    requires |r| <= |a| && r == a[..|r|] && (r == [] || !IsSpace(r[|r| - 1]))
    requires forall k :: |r| <= k < |a| ==> IsSpace(a[k])
    ensures |r| <= |s|
    ensures r == [] || (!IsSpace(r[0]) && !IsSpace(r[|r| - 1]))
    ensures exists i :: 0 <= i <= |s| - |r| && r == s[i..i + |r|] && TrimmedAt(s, i, |r|)
  {
    var i := |s| - |a|;
    if r != [] {
      assert r[0] == a[0];
    }
    forall k | i + |r| <= k < |s| ensures IsSpace(s[k]) {
      assert s[k] == a[k - i];
    }
    assert r == s[i..i + |r|] && TrimmedAt(s, i, |r|);
  }

  /** Everything of `s` outside `s[i..i + n]` is white space. */
  predicate TrimmedAt(s: string, i: nat, n: nat)
    requires i + n <= |s|
  {
    (forall k :: 0 <= k < i ==> IsSpace(s[k])) && (forall k :: i + n <= k < |s| ==> IsSpace(s[k]))
  }

  /** `not s.strip()`: `s` is empty or white space only. */
  predicate IsBlank(s: string) {
    Strip(s) == []
  }

  /** `strip()` leaves the piece `s[i..i + |r|]` of `s` with no white space at either end, and is idempotent. */
  lemma StripIsTrimmedSlice(s: string) returns (i: nat)
    ensures var r := Strip(s);
      i + |r| <= |s| && r == s[i..i + |r|] && TrimmedAt(s, i, |r|)
      && (r == [] || (!IsSpace(r[0]) && !IsSpace(r[|r| - 1])))
      && Strip(r) == r
  {
    var a := StripStart(s);
    var r := StripEnd(a);
    i := |s| - |a|;
    if r != [] {
      assert r[0] == a[0];
    }
  }

  /** A string is blank exactly when every character is white space. */
  lemma BlankIffAllSpace(s: string)
    ensures IsBlank(s) <==> forall k :: 0 <= k < |s| ==> IsSpace(s[k])
  {
  }

  predicate IsDigit(c: char) {
    '0' <= c <= '9'
  }

  predicate AllDigits(s: string) {
    forall k :: 0 <= k < |s| ==> IsDigit(s[k])
  }

  /** `str(n)` for `n >= 0`: the shortest decimal numeral of `n`. */
  function Decimal(n: nat): (r: string)
    ensures |r| >= 1 && AllDigits(r)
    ensures r[0] == '0' ==> n == 0
  {
    if n < 10 then [(48 + n) as char] else Decimal(n / 10) + [(48 + n % 10) as char]
  }

  /** The number a string of decimal digits denotes (`int(s)` on such a string). */
  function DigitsValue(s: string): nat
    requires AllDigits(s)
  {
    if s == [] then 0 else DigitsValue(s[..|s| - 1]) * 10 + (s[|s| - 1] as int - 48)
  }

  /** Reading back a formatted number gives the number. */
  lemma {:induction false} DecimalRoundTrip(n: nat)
    ensures DigitsValue(Decimal(n)) == n
  {
    if n >= 10 {
      var d := Decimal(n);
      assert d[..|d| - 1] == Decimal(n / 10);
      DecimalRoundTrip(n / 10);
    }
  }
}
