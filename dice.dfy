/**
 * The bigram Dice coefficient (class Dice): both strings are cut into
 * adjacent-character pairs, each pair packed into one Java `int`, the two
 * arrays are sorted, and a merge counts the pairs they share.
 */
module Dice {
  import opened Wrappers
  import opened JavaStrings
  import StringCompare

  /** Java `int` arithmetic: `v` reduced to the 32-bit two's-complement range. */
  function Wrap32(v: int): (r: int)
    ensures -0x8000_0000 <= r < 0x8000_0000
  {
    (v + 0x8000_0000) % 0x1_0000_0000 - 0x8000_0000
  }

  /** `x << 16` on a Java `int`: the bits shifted past bit 31 are lost. */
  function Shl16(x: int): int
  {
    Wrap32(x * 0x1_0000)
  }

  /**
   * `x | c` for a Java `int` whose low 16 bits are zero and a zero-extended
   * `char`: the two bit patterns do not overlap, so the result is their sum.
   * Every call site ors into a value just shifted left by 16, whose low bits
   * `Shl16LowBitsZero` shows to be zero; for other operands `|` and `+`
   * differ, and this function does not model them.
   */
  function OrChar(x: int, c: Char16): int
    requires x % 0x1_0000 == 0
  {
    x + c as int
  }

  /** Shifting left by 16 clears the low 16 bits. */
  lemma Shl16LowBitsZero(x: int)
    ensures Shl16(x) % 0x1_0000 == 0
  {
    var v := x * 0x1_0000 + 0x8000_0000;
    var q := v / 0x1_0000_0000;
    assert v == 0x1_0000_0000 * q + v % 0x1_0000_0000;
    assert Shl16(x) == 0x1_0000 * (x - 0x1_0000 * q);
  }

  /** The Java `int` value of `(a << 16) | b`, the packed bigram "ab". */
  function Bigram(a: Char16, b: Char16): int
  {
    Shl16LowBitsZero(a as int);
    OrChar(Shl16(a as int), b)
  }

  /** Shifting by a multiple of 2^32 does not change a Java `int`. */
  lemma Wrap32Periodic(v: int, k: int)
    ensures Wrap32(v + 0x1_0000_0000 * k) == Wrap32(v)
  {
  }

  /**
   * The truncation the construction loop relies on:
   * `((a << 16) | b) << 16 == b << 16` in 32-bit arithmetic.
   */
  lemma {:induction false} ShiftDropsFirstChar(a: Char16, b: Char16)
    ensures Shl16(Bigram(a, b)) == Shl16(b as int)
  {
    var w := Shl16(a as int);
    var v := a as int * 0x1_0000 + 0x8000_0000;
    var q := v / 0x1_0000_0000;
    assert v == 0x1_0000_0000 * q + v % 0x1_0000_0000;
    assert w == 0x1_0000 * (a as int - 0x1_0000 * q);
    var k := a as int - 0x1_0000 * q;
    assert (w + b as int) * 0x1_0000 == b as int * 0x1_0000 + 0x1_0000_0000 * k;
    Wrap32Periodic(b as int * 0x1_0000, k);
  }

  /** The packed bigrams of `s`, in the order the construction loop writes them. */
  function Bigrams(s: JString): (r: seq<int>)
    ensures |r| == if |s| < 2 then 0 else |s| - 1
  {
    if |s| < 2 then [] else seq(|s| - 1, k requires 0 <= k < |s| - 1 => Bigram(s[k], s[k + 1]))
  }

  predicate Sorted(s: seq<int>)
  {
    forall p, q :: 0 <= p < q < |s| ==> s[p] <= s[q]
  }

  /**
   * The coefficient on string contents: twice the number of shared bigrams
   * (counted with multiplicity) over the total number of bigrams.
   */
  function Coefficient(s: JString, t: JString): (r: real)
    ensures r == 0.0 <==> |s| < 2 || |t| < 2 || multiset(Bigrams(s)) * multiset(Bigrams(t)) == multiset{}
  {
    if |s| < 2 || |t| < 2 then 0.0
    else
      var shared := |multiset(Bigrams(s)) * multiset(Bigrams(t))|;
      var total := (|s| - 1 + |t| - 1) as real;
      RatioZeroIff((2 * shared) as real, total);
      (2 * shared) as real / total
  }

  /** Fills `pairs` as the first loop of Dice.compare does. */
  method MakeBigrams(s: JString) returns (pairs: array<int>)
    requires |s| >= 2
    ensures fresh(pairs)
    ensures pairs[..] == Bigrams(s)
  {
    var n := |s| - 1;
    pairs := new int[n];
    var i := 0;
    while i <= n
      invariant 0 <= i <= n + 1
      invariant forall k :: 0 <= k < i - 1 ==> pairs[k] == Bigram(s[k], s[k + 1])
      invariant 0 < i <= n ==> pairs[i - 1] == Shl16(s[i - 1] as int)
    {
      if i == 0 {
        pairs[i] := Shl16(s[i] as int);
      } else if i == n {
        Shl16LowBitsZero(s[i - 1] as int);
        pairs[i - 1] := OrChar(pairs[i - 1], s[i]);
      } else {
        Shl16LowBitsZero(s[i - 1] as int);
        pairs[i - 1] := OrChar(pairs[i - 1], s[i]);
        ShiftDropsFirstChar(s[i - 1], s[i]);
        pairs[i] := Shl16(pairs[i - 1]);
      }
      i := i + 1;
    }
  }

  /** Arrays.sort(int[]): sorts in place (here by insertion). */
  method SortInPlace(a: array<int>)
    modifies a
    ensures Sorted(a[..])
    ensures multiset(a[..]) == multiset(old(a[..]))
  {
    var i := 0;
    while i < a.Length
      invariant 0 <= i <= a.Length
      invariant Sorted(a[..i])
      invariant multiset(a[..]) == multiset(old(a[..]))
    {
      Insert(a, i);
      i := i + 1;
    }
    assert a[..a.Length] == a[..];
  }

  /** Moves `a[i]` down into the sorted prefix `a[..i]`. */
  method Insert(a: array<int>, i: nat)
    requires i < a.Length && Sorted(a[..i])
    modifies a
    ensures Sorted(a[..i + 1])
    ensures multiset(a[..]) == multiset(old(a[..]))
  {
    var j := i;
    while j > 0 && a[j - 1] > a[j]
      invariant 0 <= j <= i
      invariant forall p, q :: 0 <= p < q <= i && p != j && q != j ==> a[p] <= a[q]
      invariant forall q :: j < q <= i ==> a[j] < a[q]
      invariant multiset(a[..]) == multiset(old(a[..]))
    {
      SwapDown(a, j);
      j := j - 1;
    }
  }

  /** Exchanges `a[j - 1]` and `a[j]`. */
  method SwapDown(a: array<int>, j: nat)
    requires 0 < j < a.Length
    modifies a
    ensures a[j - 1] == old(a[j]) && a[j] == old(a[j - 1])
    ensures forall k :: 0 <= k < a.Length && k != j - 1 && k != j ==> a[k] == old(a[k])
    ensures multiset(a[..]) == multiset(old(a[..]))
  {
    a[j - 1], a[j] := a[j], a[j - 1];
  }

  lemma MatchedHeads(s: seq<int>, t: seq<int>, i: nat, j: nat)
    requires i < |s| && j < |t| && s[i] == t[j]
    ensures |multiset(s[i..]) * multiset(t[j..])| == 1 + |multiset(s[i + 1..]) * multiset(t[j + 1..])|
  {
    assert s[i..] == [s[i]] + s[i + 1..];
    assert t[j..] == [t[j]] + t[j + 1..];
    var a, b := multiset(s[i + 1..]), multiset(t[j + 1..]);
    assert multiset(s[i..]) * multiset(t[j..]) == (a * b) + multiset{s[i]};
  }

  lemma SkipSmallerHead(s: seq<int>, t: seq<int>, i: nat, j: nat)
    requires i < |s| && j < |t| && s[i] < t[j] && Sorted(t)
    ensures multiset(s[i..]) * multiset(t[j..]) == multiset(s[i + 1..]) * multiset(t[j..])
  {
    assert s[i..] == [s[i]] + s[i + 1..];
    assert s[i] !in multiset(t[j..]);
  }

  lemma SkipSmallerRight(s: seq<int>, t: seq<int>, i: nat, j: nat)
    requires i < |s| && j < |t| && t[j] < s[i] && Sorted(s)
    ensures multiset(s[i..]) * multiset(t[j..]) == multiset(s[i..]) * multiset(t[j + 1..])
  {
    SkipSmallerHead(t, s, j, i);
    assert multiset(t[j..]) * multiset(s[i..]) == multiset(s[i..]) * multiset(t[j..]);
    assert multiset(t[j + 1..]) * multiset(s[i..]) == multiset(s[i..]) * multiset(t[j + 1..]);
  }

  /** The merge loop of Dice.compare on two sorted bigram arrays. */
  method CountMatches(sp: array<int>, tp: array<int>) returns (matches: int)
    requires Sorted(sp[..]) && Sorted(tp[..])
    ensures matches == 2 * |multiset(sp[..]) * multiset(tp[..])|
  {
    var n, m := sp.Length, tp.Length;
    ghost var s, t := sp[..], tp[..];
    matches := 0;
    var i, j := 0, 0;
    while i < n && j < m
      invariant 0 <= i <= n && 0 <= j <= m && s == sp[..] && t == tp[..]
      invariant matches + 2 * |multiset(s[i..]) * multiset(t[j..])| == 2 * |multiset(s) * multiset(t)|
      decreases n + m - i - j
    {
      if sp[i] == tp[j] {
        MatchedHeads(s, t, i, j);
        matches := matches + 2;
        i := i + 1;
        j := j + 1;
      } else if sp[i] < tp[j] {
        SkipSmallerHead(s, t, i, j);
        i := i + 1;
      } else {
        SkipSmallerRight(s, t, i, j);
        j := j + 1;
      }
    }
    assert s[i..] == [] || t[j..] == [];
    assert s[0..] == s && t[0..] == t;
  }

  /**
   * Dice.compare. `str1`/`str2` are None for a Java `null`; `sameObject` says
   * whether the two arguments are the same String object (`str1 == str2`).
   */
  method Compare(str1: Option<JString>, str2: Option<JString>, sameObject: bool) returns (r: real)
    requires sameObject ==> str1 == str2
    ensures str1.None? || str2.None? ==> r == 0.0
    ensures str1.Some? && str2.Some? && sameObject ==> r == 1.0
    ensures str1.Some? && str2.Some? && !sameObject ==> r == Coefficient(str1.value, str2.value)
  {
    if str1.None? || str2.None? {
      return 0.0;
    }
    if sameObject {
      return 1.0;
    }
    var s, t := str1.value, str2.value;
    if |s| < 2 || |t| < 2 {
      return 0.0;
    }
    var n, m := |s| - 1, |t| - 1;
    var sPairs := SortedBigrams(s);
    var tPairs := SortedBigrams(t);
    var matches := CountMatches(sPairs, tPairs);
    r := matches as real / (n + m) as real;
  }

  /** The bigram array of `s`, built and then sorted as Dice.compare does. */
  method SortedBigrams(s: JString) returns (pairs: array<int>)
    requires |s| >= 2
    ensures fresh(pairs)
    ensures Sorted(pairs[..]) && multiset(pairs[..]) == multiset(Bigrams(s))
  {
    pairs := MakeBigrams(s);
    SortInPlace(pairs);
  }

  /** A multiset intersection is no larger than either side. */
  lemma IntersectionBound<T>(a: multiset<T>, b: multiset<T>)
    ensures |a * b| <= |a| && |a * b| <= |b|
  {
    assert a == (a * b) + (a - b);
    assert b == (a * b) + (b - a);
  }

  lemma RatioInUnit(x: real, y: real)
    requires 0.0 <= x <= y && y > 0.0
    ensures 0.0 <= x / y <= 1.0
  {
    assert x / y * y == x;
  }

  lemma RatioZeroIff(x: real, y: real)
    requires x >= 0.0 && y > 0.0
    ensures x / y == 0.0 <==> x == 0.0
  {
    assert x / y * y == x;
  }

  lemma CoefficientInRange(s: JString, t: JString)
    ensures 0.0 <= Coefficient(s, t) <= 1.0
  {
    if |s| >= 2 && |t| >= 2 {
      var a, b := multiset(Bigrams(s)), multiset(Bigrams(t));
      IntersectionBound(a, b);
      RatioInUnit((2 * |a * b|) as real, (|s| - 1 + |t| - 1) as real);
    }
  }

  lemma CoefficientSymmetric(s: JString, t: JString)
    ensures Coefficient(s, t) == Coefficient(t, s)
  {
    var a, b := multiset(Bigrams(s)), multiset(Bigrams(t));
    assert a * b == b * a;
  }

  /** A string of two or more characters is fully similar to an equal string. */
  lemma CoefficientOfEqualStrings(s: JString)
    requires |s| >= 2
    ensures Coefficient(s, s) == 1.0
  {
    var a := multiset(Bigrams(s));
    assert a * a == a;
    assert |a| == |s| - 1;
    SelfRatio((2 * |a * a|) as real);
  }

  lemma SelfRatio(x: real)
    requires x > 0.0
    ensures x / x == 1.0
  {
  }

  /** Dice honours the StringCompare contract. */
  lemma DiceIsSimilarityMetric()
    ensures StringCompare.IsSimilarityMetric(Coefficient)
  {
    forall a, b
      ensures 0.0 <= Coefficient(a, b) <= 1.0
    {
      CoefficientInRange(a, b);
    }
  }
}
