/**
 The string operations the word-ladder core borrows from Python 2's `str`
 type: `strip()`, `lower()` and the ordering `<` used when the priority queue
 compares `(distance, word)` tuples. Python 2 strings are byte strings, so
 whitespace and case are the ASCII ones (C `isspace` and `tolower` in the
 default locale).
 */
module Text {
  import opened Wrappers

  /** The bytes `str.strip()` removes: tab, newline, vertical tab, form feed, carriage return, space. */
  predicate IsSpace(c: char) {
    c == ' ' || '\t' <= c <= '\r'
  }

  predicate IsUpper(c: char) {
    'A' <= c <= 'Z'
  }

  /** Drops leading whitespace: the result is the longest suffix that does not start with whitespace. */
  function TrimLeft(s: string): (r: string)
    ensures |r| <= |s| && r == s[|s| - |r|..]
    ensures forall k :: 0 <= k < |s| - |r| ==> IsSpace(s[k])
    ensures r == [] || !IsSpace(r[0])
  {
    if s != [] && IsSpace(s[0]) then TrimLeft(s[1..]) else s
  }

  /** Drops trailing whitespace: the result is the longest prefix that does not end with whitespace. */
  function TrimRight(s: string): (r: string)
    ensures |r| <= |s| && r == s[..|r|]
    ensures forall k :: |r| <= k < |s| ==> IsSpace(s[k])
    ensures r == [] || !IsSpace(r[|r| - 1])
  {
    if s != [] && IsSpace(s[|s| - 1]) then TrimRight(s[..|s| - 1]) else s
  }

  /** `str.strip()`: the slice of `s` left after cutting whitespace from both ends. */
  function Strip(s: string): (r: string)
    ensures |r| <= |s|
    ensures exists i, j :: 0 <= i <= j <= |s| && r == s[i..j] && forall k :: 0 <= k < i || j <= k < |s| ==> IsSpace(s[k])
    ensures r == [] <==> forall k :: 0 <= k < |s| ==> IsSpace(s[k])
    ensures r != [] ==> !IsSpace(r[0]) && !IsSpace(r[|r| - 1])
  {
    var t := TrimLeft(s);
    var r := TrimRight(t);
    assert r == s[|s| - |t|..|s| - |t| + |r|];
    r
  }

  function LowerChar(c: char): char {
    if IsUpper(c) then (c as int + 32) as char else c
  }

  /** `str.lower()` on a byte string: each capital becomes its small letter, every other byte stays. */
  function Lower(s: string): (r: string)
    ensures |r| == |s|
    ensures forall k :: 0 <= k < |s| ==> (IsSpace(r[k]) <==> IsSpace(s[k]))
    ensures forall k :: 0 <= k < |s| ==> !IsUpper(r[k])
    ensures forall k :: 0 <= k < |s| && !IsUpper(s[k]) ==> r[k] == s[k]
    ensures forall k :: 0 <= k < |s| && IsUpper(s[k]) ==> r[k] as int == s[k] as int + 32
  {
    seq(|s|, k requires 0 <= k < |s| => LowerChar(s[k]))
  }

  /** No whitespace at either end and no capital anywhere. */
  predicate InNormalForm(t: string) {
    (t != [] ==> !IsSpace(t[0]) && !IsSpace(t[|t| - 1])) && forall k :: 0 <= k < |t| ==> !IsUpper(t[k])
  }

  /**
   The normalisation `Graph.add` applies, `word.strip().lower() if word else word`:
   `None` stays `None`; a string is stripped, then lowered. It becomes empty
   exactly when it was all whitespace, and otherwise has no surrounding
   whitespace and no capital.
   */
  function Normalize(word: Option<string>): (r: Option<string>)
    ensures r.None? <==> word.None?
    ensures word.Some? ==> r.value == Lower(Strip(word.value))
    ensures word.Some? ==> (r.value == [] <==> forall k :: 0 <= k < |word.value| ==> IsSpace(word.value[k]))
    ensures r.Some? ==> InNormalForm(r.value)
  {
    if word.None? || word.value == [] then word else Some(Lower(Strip(word.value)))
  }

  /** Normalising twice is normalising once, so re-adding a stored word stores the same word. */
  lemma NormalizeIdempotent(word: Option<string>)
    ensures Normalize(Normalize(word)) == Normalize(word)
  {
    var n := Normalize(word);
    if n.Some? && n.value != [] {
      StripLowerFixed(n.value);
    }
  }

  /** A string with no surrounding whitespace and no capital is left as it is by `strip()` and by `lower()`. */
  lemma StripLowerFixed(t: string)
    requires InNormalForm(t)
    ensures Strip(t) == t && Lower(t) == t
  {
    assert TrimLeft(t) == t;
    assert TrimRight(t) == t;
  }

  /** A word with no whitespace and no capital is its own normal form. */
  lemma NormalizeFixes(w: string)
    requires w != [] && forall k :: 0 <= k < |w| ==> !IsSpace(w[k]) && !IsUpper(w[k])
    ensures Normalize(Some(w)) == Some(w)
  {
    assert TrimLeft(w) == w;
    assert TrimRight(w) == w;
    assert Lower(w) == w;
  }

  /** `a` and `b` agree before position `k`, where `a` has the smaller byte. */
  ghost predicate SmallerAt(a: string, b: string, k: int) {
    0 <= k < |a| && k < |b| && a[..k] == b[..k] && a[k] < b[k]
  }

  /**
   Lexicographic order stated directly: `a` is a prefix of `b`, or at the
   first position where they differ `a` has the smaller byte.
   */
  ghost predicate Lexicographic(a: string, b: string) {
    a <= b || exists k :: SmallerAt(a, b, k)
  }

  /** Strings with the same first byte compare as their rests do. */
  lemma LexicographicTail(a: string, b: string)
    requires a != [] && b != [] && a[0] == b[0]
    ensures Lexicographic(a, b) <==> Lexicographic(a[1..], b[1..])
  {
    assert a == [a[0]] + a[1..] && b == [b[0]] + b[1..];
    assert a <= b <==> a[1..] <= b[1..];
    if exists k :: SmallerAt(a[1..], b[1..], k) {
      var k :| SmallerAt(a[1..], b[1..], k);
      assert a[..k + 1] == [a[0]] + a[1..][..k] && b[..k + 1] == [b[0]] + b[1..][..k];
      assert SmallerAt(a, b, k + 1);
    }
    if exists k :: SmallerAt(a, b, k) {
      var k :| SmallerAt(a, b, k);
      assert k != 0;
      assert a[1..][..k - 1] == a[..k][1..] && b[1..][..k - 1] == b[..k][1..];
      assert SmallerAt(a[1..], b[1..], k - 1);
    }
  }

  /** Strings that first differ past position 0 agree at position 0. */
  lemma SmallerAtAgrees(a: string, b: string)
    ensures forall k | SmallerAt(a, b, k) :: k == 0 || a[0] == b[0]
  {
    forall k | SmallerAt(a, b, k) && k > 0
      ensures a[0] == b[0]
    {
      assert a[..k][0] == b[..k][0];
    }
  }

  /** Strings whose first bytes differ compare as those bytes do. */
  lemma LexicographicHead(a: string, b: string)
    requires a != [] && b != [] && a[0] != b[0]
    ensures Lexicographic(a, b) <==> a[0] < b[0]
  {
    if a[0] < b[0] {
      assert SmallerAt(a, b, 0);
    } else {
      assert !(a <= b);
      SmallerAtAgrees(a, b);
    }
  }

  /** Python 2's `<=` on strings: lexicographic by byte, a proper prefix first. */
  predicate StrLe(a: string, b: string): (r: bool)
    ensures r <==> Lexicographic(a, b)
  {
    if a == [] then true
    else if b == [] then false
    else if a[0] == b[0] then LexicographicTail(a, b); StrLe(a[1..], b[1..])
    else LexicographicHead(a, b); a[0] < b[0]
  }

  lemma {:induction false} StrLeReflexive(a: string)
    ensures StrLe(a, a)
  {
    if a != [] {
      StrLeReflexive(a[1..]);
    }
  }

  lemma {:induction false} StrLeTotal(a: string, b: string)
    ensures StrLe(a, b) || StrLe(b, a)
  {
    if a != [] && b != [] && a[0] == b[0] {
      StrLeTotal(a[1..], b[1..]);
    }
  }

  lemma {:induction false} StrLeAntisymmetric(a: string, b: string)
    requires StrLe(a, b) && StrLe(b, a)
    ensures a == b
  {
    if a != [] && b != [] {
      StrLeAntisymmetric(a[1..], b[1..]);
      assert a == [a[0]] + a[1..] && b == [b[0]] + b[1..];
    }
  }

  lemma {:induction false} StrLeTransitive(a: string, b: string, c: string)
    requires StrLe(a, b) && StrLe(b, c)
    ensures StrLe(a, c)
  {
    if a != [] && b != [] && c != [] && a[0] == b[0] == c[0] {
      StrLeTransitive(a[1..], b[1..], c[1..]);
    }
  }
}
