/**
 * The parts of java.lang.String that the matching engine relies on:
 * UTF-16 code units, lastIndexOf, whitespace tokenising, replace-by-empty
 * and the lexicographic order of compareTo (the order of a TreeMap<String, _>).
 */
module JavaStrings {

  /** A Java `char`: one unsigned 16-bit UTF-16 code unit. */
  newtype Char16 = c: int | 0 <= c < 0x1_0000

  /** A Java `String`. */
  type JString = seq<Char16>

  const Tab: Char16 := 0x09
  const Newline: Char16 := 0x0A
  const Dot: Char16 := 0x2E
  const Slash: Char16 := 0x2F

  /** The characters of the regular-expression class `\s`: space, \t, \n, \x0B, \f, \r. */
  predicate IsWhitespace(c: Char16)
  {
    c == 0x20 || 0x09 <= c <= 0x0D
  }

  predicate Distinct<T(==)>(s: seq<T>)
  {
    forall i, j :: 0 <= i < j < |s| ==> s[i] != s[j]
  }

  lemma DistinctCons<T>(a: T, t: seq<T>)
    requires Distinct(t) && a !in t
    ensures Distinct([a] + t)
  {
    var s := [a] + t;
    forall i, j | 0 <= i < j < |s|
      ensures s[i] != s[j]
    {
      assert s[j] == t[j - 1];
      if i > 0 {
        assert s[i] == t[i - 1];
      }
    }
  }

  /** String.lastIndexOf(char): the index of the last occurrence of `c`, or -1. */
  function LastIndexOf(s: JString, c: Char16): (r: int)
    ensures -1 <= r < |s|
    ensures r >= 0 ==> s[r] == c
    ensures forall k :: r < k < |s| ==> s[k] != c
  {
    if s == [] then -1
    else if s[|s| - 1] == c then |s| - 1
    else LastIndexOf(s[..|s| - 1], c)
  }

  /**
   * `s.substring(s.lastIndexOf(c) + 1)`: the longest suffix of `s` that does
   * not contain `c`.
   */
  function SuffixAfterLast(s: JString, c: Char16): (r: JString)
    ensures |r| <= |s| && r == s[|s| - |r|..]
    ensures c !in r
    ensures |r| == |s| || s[|s| - |r| - 1] == c
  {
    var i := LastIndexOf(s, c);
    NoneAfter(s, c, i);
    s[i + 1..]
  }

  /** No `c` follows its last occurrence. */
  lemma NoneAfter(s: JString, c: Char16, i: int)
    requires -1 <= i < |s| && forall k :: i < k < |s| ==> s[k] != c
    ensures c !in s[i + 1..]
  {
    var r := s[i + 1..];
    forall j | 0 <= j < |r|
      ensures r[j] != c
    {
      assert r[j] == s[i + 1 + j];
    }
  }

  /**
   * The tokens of `s`: its maximal runs of non-whitespace characters
   * (a simplification of `split("\\s+")`, see README).
   */
  function Tokens(s: JString): (r: seq<JString>)
    ensures forall k :: 0 <= k < |r| ==> r[k] != []
  {
    TokensFrom(s, [])
  }

  /** Tokenises `s` when the characters in `current` already start a token. */
  function TokensFrom(s: JString, current: JString): (r: seq<JString>)
    ensures forall k :: 0 <= k < |r| ==> r[k] != []
    decreases |s|
  {
    var pending := if current == [] then [] else [current];
    if s == [] then pending
    else if IsWhitespace(s[0]) then pending + TokensFrom(s[1..], [])
    else TokensFrom(s[1..], current + [s[0]])
  }

  /**
   * `s.replace(t, "")`: deletes the occurrences of `t` found scanning left to
   * right, without rescanning what precedes a deletion; an empty `t` leaves
   * `s` as it is.
   */
  function RemoveAll(s: JString, t: JString): (r: JString)
    ensures |r| <= |s|
    decreases |s|
  {
    if t == [] || |s| < |t| then s
    else if s[..|t|] == t then RemoveAll(s[|t|..], t)
    else [s[0]] + RemoveAll(s[1..], t)
  }

  /** `key.replace(t, "")` applied for each `t` of `ts` in turn. */
  function RemoveEach(s: JString, ts: seq<JString>): (r: JString)
    ensures |r| <= |s|
  {
    if ts == [] then s else RemoveAll(RemoveEach(s, ts[..|ts| - 1]), ts[|ts| - 1])
  }

  /** `a.compareTo(b) < 0`: code-unit lexicographic order, a proper prefix first. */
  predicate LexLess(a: JString, b: JString)
    decreases |a|
  {
    if a == [] then b != []
    else if b == [] then false
    else if a[0] != b[0] then a[0] < b[0]
    else LexLess(a[1..], b[1..])
  }

  lemma {:induction false} LexLessIrreflexive(a: JString)
    ensures !LexLess(a, a)
    decreases |a|
  {
    if a != [] {
      LexLessIrreflexive(a[1..]);
    }
  }

  lemma {:induction false} LexLessTransitive(a: JString, b: JString, c: JString)
    requires LexLess(a, b) && LexLess(b, c)
    ensures LexLess(a, c)
    decreases |a|
  {
    assert b != [] && c != [];
    if a != [] {
      assert a[0] <= b[0] <= c[0];
      if a[0] == b[0] && b[0] == c[0] {
        assert LexLess(a[1..], b[1..]) && LexLess(b[1..], c[1..]);
        LexLessTransitive(a[1..], b[1..], c[1..]);
      } else {
        assert a[0] < c[0];
      }
    }
  }

  lemma {:induction false} LexLessTotal(a: JString, b: JString)
    requires a != b
    ensures LexLess(a, b) || LexLess(b, a)
    decreases |a|
  {
    if a != [] && b != [] && a[0] == b[0] {
      assert a == [a[0]] + a[1..] && b == [b[0]] + b[1..];
      assert a[1..] != b[1..];
      LexLessTotal(a[1..], b[1..]);
      assert LexLess(a, b) == LexLess(a[1..], b[1..]);
      assert LexLess(b, a) == LexLess(b[1..], a[1..]);
    }
  }

  /** The keys of a TreeMap<String, _> in iteration order: strictly increasing. */
  predicate StrictlySorted(s: seq<JString>)
  {
    forall i, j :: 0 <= i < j < |s| ==> LexLess(s[i], s[j])
  }

  lemma SortedIsDistinct(s: seq<JString>)
    requires StrictlySorted(s)
    ensures Distinct(s)
  {
    forall i, j | 0 <= i < j < |s|
      ensures s[i] != s[j]
    {
      if s[i] == s[j] {
        LexLessIrreflexive(s[i]);
      }
    }
  }

  /** Inserts a new key at its place in a strictly increasing key sequence. */
  function InsertSorted(s: seq<JString>, x: JString): (r: seq<JString>)
    requires StrictlySorted(s) && x !in s
    ensures StrictlySorted(r)
    ensures |r| == |s| + 1
    ensures forall y :: y in r <==> y in s || y == x
  {
    if s == [] then [x]
    else if LexLess(x, s[0]) then
      assert forall j :: 0 < j < |s| ==> LexLess(x, s[j]) by {
        forall j | 0 < j < |s|
          ensures LexLess(x, s[j])
        {
          LexLessTransitive(x, s[0], s[j]);
        }
      }
      [x] + s
    else
      LexLessTotal(x, s[0]);
      var rest := InsertSorted(s[1..], x);
      assert forall y :: y in rest ==> LexLess(s[0], y);
      [s[0]] + rest
  }
}
