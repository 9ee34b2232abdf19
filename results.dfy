/**
 * The score table of one local predicate (class Results): remote predicates
 * with their scores, a running minimum and maximum, in-place normalisation
 * and a view sorted by score that is rendered as a tab-separated table.
 */
module ResultTables {
  import opened Wrappers
  import opened JavaStrings
  import opened Predicates
  import opened ValueComparators

  /** An entry of the sorted view: a remote predicate and its score. */
  datatype Scored = Scored(remote: Predicate, value: real)

  /** `(v - lo) / (hi - lo)`, the map normalize() applies to every score. */
  function Affine(v: real, lo: real, hi: real): real
    requires hi != lo
  {
    (v - lo) / (hi - lo)
  }

  /** A score between the bounds normalises into [0, 1]. */
  lemma NormalizedInUnit(v: real, lo: real, hi: real)
    requires lo <= v <= hi && lo < hi
    ensures 0.0 <= Affine(v, lo, hi) <= 1.0
  {
    var d := hi - lo;
    assert Affine(v, lo, hi) == (v - lo) / d;
    assert (v - lo) / d <= d / d == 1.0;
    assert 0.0 == 0.0 / d <= (v - lo) / d;
  }

  /**
   * normalize() does not move the bounds, so a second call applies the same
   * map again; that is harmless exactly when the bounds are 0 and 1.
   */
  lemma NormalizeIdempotentIff(lo: real, hi: real)
    requires hi != lo
    ensures (forall v :: Affine(Affine(v, lo, hi), lo, hi) == Affine(v, lo, hi)) <==> lo == 0.0 && hi == 1.0
  {
    if forall v :: Affine(Affine(v, lo, hi), lo, hi) == Affine(v, lo, hi) {
      var d := hi - lo;
      assert Affine(lo, lo, hi) == 0.0;
      assert Affine(0.0, lo, hi) == 0.0;
      assert -lo == Affine(0.0, lo, hi) * d;
      assert lo == 0.0;
      assert Affine(hi, lo, hi) == d / d == 1.0;
      assert Affine(1.0, lo, hi) == 1.0;
      assert 1.0 - lo == Affine(1.0, lo, hi) * d;
    }
  }

  /** Each entry's score is the one the table holds for its predicate. */
  predicate Holds(base: map<Predicate, real>, s: seq<Scored>)
  {
    forall i :: 0 <= i < |s| ==> s[i].remote in base && s[i].value == base[s[i].remote]
  }

  /** Scores never decrease along the view. */
  predicate SortedByValue(s: seq<Scored>)
  {
    forall i, j :: 0 <= i < j < |s| ==> s[i].value <= s[j].value
  }

  /**
   * TreeMap.put with a ValueComparator over `base`: the new entry moves
   * right past every entry the comparator ranks below it (compare is 1) and
   * stops before the first one it does not (compare is -1), so it lands
   * before every entry with an equal score.
   */
  function Place(base: map<Predicate, real>, s: seq<Scored>, x: Scored): (r: seq<Scored>)
    requires Holds(base, s) && x.remote in base
    ensures |r| == |s| + 1
    ensures multiset(r) == multiset(s) + multiset{x}
  {
    if s == [] then [x]
    else if Compare(base, x.remote, s[0].remote) == -1 then [x] + s
    else
      assert s == [s[0]] + s[1..];
      [s[0]] + Place(base, s[1..], x)
  }

  /** Placing an entry that carries its table score keeps every score consistent. */
  lemma {:induction false} PlaceHolds(base: map<Predicate, real>, s: seq<Scored>, x: Scored)
    requires Holds(base, s) && x.remote in base && x.value == base[x.remote]
    ensures Holds(base, Place(base, s, x))
  {
    if s != [] && Compare(base, x.remote, s[0].remote) != -1 {
      PlaceHolds(base, s[1..], x);
    }
  }

  /** Placing a new entry keeps the entries distinct. */
  lemma {:induction false} PlaceDistinct(base: map<Predicate, real>, s: seq<Scored>, x: Scored)
    requires Holds(base, s) && x.remote in base
    requires Distinct(s) && x !in s
    ensures Distinct(Place(base, s, x))
  {
    if s == [] {
    } else if Compare(base, x.remote, s[0].remote) == -1 {
      DistinctCons(x, s);
    } else {
      var rest := Place(base, s[1..], x);
      assert s == [s[0]] + s[1..];
      PlaceDistinct(base, s[1..], x);
      assert s[0] !in multiset(rest);
      DistinctCons(s[0], rest);
    }
  }

  /** Every score in `s` is at least `v`. */
  predicate AtLeast(v: real, s: seq<Scored>)
  {
    forall k :: 0 <= k < |s| ==> v <= s[k].value
  }

  lemma SortedCons(a: Scored, t: seq<Scored>)
    requires SortedByValue(t) && AtLeast(a.value, t)
    ensures SortedByValue([a] + t)
  {
    var r := [a] + t;
    forall i, j | 0 <= i < j < |r|
      ensures r[i].value <= r[j].value
    {
      assert r[j] == t[j - 1];
      if i > 0 {
        assert r[i] == t[i - 1];
      }
    }
  }

  lemma {:induction false} PlaceAtLeast(base: map<Predicate, real>, s: seq<Scored>, x: Scored, v: real)
    requires Holds(base, s) && x.remote in base
    requires AtLeast(v, s) && v <= x.value
    ensures AtLeast(v, Place(base, s, x))
  {
    if s != [] && Compare(base, x.remote, s[0].remote) != -1 {
      PlaceAtLeast(base, s[1..], x, v);
      var rest := Place(base, s[1..], x);
      assert Place(base, s, x) == [s[0]] + rest;
    }
  }

  /** Placing keeps the view sorted by score. */
  lemma {:induction false} PlaceSorted(base: map<Predicate, real>, s: seq<Scored>, x: Scored)
    requires Holds(base, s) && x.remote in base && x.value == base[x.remote]
    requires SortedByValue(s)
    ensures SortedByValue(Place(base, s, x))
  {
    if s == [] {
    } else if Compare(base, x.remote, s[0].remote) == -1 {
      SortedCons(x, s);
    } else {
      PlaceSorted(base, s[1..], x);
      PlaceAtLeast(base, s[1..], x, s[0].value);
      SortedCons(s[0], Place(base, s[1..], x));
    }
  }

  /** Placing an entry that carries its table score into a valid view gives a valid view. */
  lemma PlaceKeeps(base: map<Predicate, real>, s: seq<Scored>, x: Scored)
    requires Holds(base, s) && x.remote in base && x.value == base[x.remote]
    requires SortedByValue(s) && Distinct(s) && x !in multiset(s)
    ensures SortedByValue(Place(base, s, x)) && Holds(base, Place(base, s, x)) && Distinct(Place(base, s, x))
  {
    PlaceHolds(base, s, x);
    PlaceDistinct(base, s, x);
    PlaceSorted(base, s, x);
  }

  /**
   * An empty TreeMap ordered by a ValueComparator over `base`, filled with
   * one put per entry of `base`, taken in hash order.
   */
  method SortedView(base: map<Predicate, real>) returns (view: seq<Scored>)
    ensures SortedByValue(view) && Holds(base, view)
    ensures Distinct(view)
    ensures forall p :: p in base ==> Scored(p, base[p]) in view
  {
    view := [];
    var rest := base.Keys;
    while rest != {}
      invariant rest <= base.Keys
      invariant SortedByValue(view) && Holds(base, view) && Distinct(view)
      invariant forall e :: e in multiset(view) ==> e.remote !in rest
      invariant forall p :: p in base && p !in rest ==> Scored(p, base[p]) in multiset(view)
      decreases |rest|
    {
      var p :| p in rest;
      var x := Scored(p, base[p]);
      assert x !in multiset(view);
      PlaceKeeps(base, view, x);
      view := Place(base, view, x);
      rest := rest - {p};
    }
    forall p | p in base
      ensures Scored(p, base[p]) in view
    {
      assert Scored(p, base[p]) in multiset(view);
    }
  }

  class Results {
    var localPredicate: Predicate
    var useShortName: bool
    var displayHeader: bool
    var minValue: real
    var maxValue: real
    var remotePredicates: map<Predicate, real>
    var sortedRemotePredicates: seq<Scored>

    /** Every stored score lies between the running bounds, which start at 1 and 0. */
    ghost predicate Bounded()
      reads this
    {
      && minValue <= 1.0
      && maxValue >= 0.0
      && forall p :: p in remotePredicates ==> minValue <= remotePredicates[p] <= maxValue
    }

    constructor(localPredicate: Predicate)
      ensures this.localPredicate == localPredicate
      ensures !useShortName && displayHeader
      ensures minValue == 1.0 && maxValue == 0.0
      ensures remotePredicates == map[] && sortedRemotePredicates == []
      ensures Bounded()
    {
      this.localPredicate := localPredicate;
      useShortName := false;
      displayHeader := true;
      minValue := 1.0;
      maxValue := 0.0;
      remotePredicates := map[];
      sortedRemotePredicates := [];
    }

    /** Stores (or overwrites) the score of `remotePredicate` and widens the bounds. */
    method Add(remotePredicate: Predicate, value: real)
      modifies this`remotePredicates, this`minValue, this`maxValue
      ensures remotePredicates == old(remotePredicates)[remotePredicate := value]
      ensures minValue == Min(old(minValue), value) && maxValue == Max(old(maxValue), value)
      ensures |remotePredicates| == if remotePredicate in old(remotePredicates) then old(|remotePredicates|) else old(|remotePredicates|) + 1
      ensures minValue <= value <= maxValue
      ensures old(Bounded()) ==> Bounded()
    {
      remotePredicates := remotePredicates[remotePredicate := value];
      minValue := Min(minValue, value);
      maxValue := Max(maxValue, value);
    }

    /** Empties the table; the bounds keep their values. */
    method Clear()
      modifies this`remotePredicates
      ensures remotePredicates == map[]
    {
      remotePredicates := map[];
    }

    function Size(): (r: nat)
      reads this
      ensures r == 0 <==> remotePredicates == map[]
    {
      |remotePredicates|
    }

    /** The short or the full name of `p`, as `useShortName` says. */
    function GetPredicateName(p: Predicate): (r: JString)
      reads this, p
      ensures !useShortName ==> r == p.name
      ensures useShortName ==> Dot !in r && |r| <= |p.name| && r == p.name[|p.name| - |r|..]
    {
      if useShortName then p.GetShortName() else p.ToString()
    }

    /** Rewrites every stored score with the min-max map, in place. */
    method Normalize()
      requires remotePredicates != map[] ==> maxValue != minValue
      modifies this`remotePredicates
      ensures remotePredicates.Keys == old(remotePredicates.Keys)
      ensures forall p :: p in remotePredicates ==> remotePredicates[p] == Affine(old(remotePredicates[p]), minValue, maxValue)
      ensures old(Bounded()) && minValue < maxValue ==> forall p :: p in remotePredicates ==> 0.0 <= remotePredicates[p] <= 1.0
    {
      ghost var before := remotePredicates;
      var rest := remotePredicates.Keys;
      while rest != {}
        invariant rest <= before.Keys && remotePredicates.Keys == before.Keys
        invariant forall p :: p in rest ==> remotePredicates[p] == before[p]
        invariant forall p :: p in before && p !in rest ==> remotePredicates[p] == Affine(before[p], minValue, maxValue)
        decreases |rest|
      {
        var p :| p in rest;
        remotePredicates := remotePredicates[p := Affine(remotePredicates[p], minValue, maxValue)];
        rest := rest - {p};
      }
      if old(Bounded()) && minValue < maxValue {
        forall p | p in remotePredicates
          ensures 0.0 <= remotePredicates[p] <= 1.0
        {
          NormalizedInUnit(before[p], minValue, maxValue);
        }
      }
    }

    /** sort(): refills the sorted view from the table. */
    method Sort()
      modifies this`sortedRemotePredicates
      ensures SortedByValue(sortedRemotePredicates)
      ensures Holds(remotePredicates, sortedRemotePredicates)
      ensures Distinct(sortedRemotePredicates)
      ensures forall p :: p in remotePredicates ==> Scored(p, remotePredicates[p]) in sortedRemotePredicates
    {
      sortedRemotePredicates := SortedView(remotePredicates);
    }

    /** The header line's text, when the header is shown. */
    function Header(): Option<JString>
      reads this, localPredicate
    {
      if displayHeader then Some(GetPredicateName(localPredicate)) else None
    }

    /** The rows of the sorted view: each predicate's display name and its score. */
    function NamedRows(s: seq<Scored>): (r: seq<(JString, real)>)
      reads this, set e | e in s :: e.remote
      ensures |r| == |s|
      ensures forall i :: 0 <= i < |s| ==> r[i] == (GetPredicateName(s[i].remote), s[i].value)
    {
      if s == [] then [] else NamedRows(s[..|s| - 1]) + [(GetPredicateName(s[|s| - 1].remote), s[|s| - 1].value)]
    }

    /**
     * getTabularRepresentation(): an optional header line with the local
     * predicate's name, one "name TAB score" line per entry of the sorted
     * view, and a closing empty line; `fmt` renders a score as text.
     */
    method GetTabularRepresentation(fmt: real -> JString) returns (results: JString)
      ensures results == Table(Header(), NamedRows(sortedRemotePredicates), fmt)
    {
      var head := HeaderLine(Header());
      var body := Rows(sortedRemotePredicates, NamedRows(sortedRemotePredicates), fmt);
      results := head + body + [Newline];
    }

    /** The loop of getTabularRepresentation: one line per entry of the sorted view. */
    method Rows(s: seq<Scored>, ghost rows: seq<(JString, real)>, fmt: real -> JString) returns (body: JString)
      requires rows == NamedRows(s)
      ensures body == Body(rows, fmt)
    {
      var i := 0;
      body := [];
      while i < |s|
        invariant 0 <= i <= |s|
        invariant body == Body(rows[..i], fmt)
      {
        var e := s[i];
        var line := Line(GetPredicateName(e.remote), e.value, fmt);
        assert rows[i] == (GetPredicateName(e.remote), e.value);
        BodyStep(rows, i, fmt);
        body := body + line;
        i := i + 1;
      }
      assert rows[..i] == rows;
    }

    /** toString(): sorts, then renders the table. */
    method ToString(fmt: real -> JString) returns (results: JString)
      modifies this`sortedRemotePredicates
      ensures SortedByValue(sortedRemotePredicates) && Holds(remotePredicates, sortedRemotePredicates)
      ensures Distinct(sortedRemotePredicates)
      ensures results == Table(Header(), NamedRows(sortedRemotePredicates), fmt)
    {
      Sort();
      results := GetTabularRepresentation(fmt);
    }
  }

  function Min(a: real, b: real): real
  {
    if a <= b then a else b
  }

  function Max(a: real, b: real): real
  {
    if a >= b then a else b
  }

  /** One "name TAB score" line. */
  function Line(name: JString, value: real, fmt: real -> JString): JString
  {
    name + [Tab] + fmt(value) + [Newline]
  }

  /** The lines of all rows, in order. */
  function Body(rows: seq<(JString, real)>, fmt: real -> JString): JString
  {
    if rows == [] then [] else Body(rows[..|rows| - 1], fmt) + Line(rows[|rows| - 1].0, rows[|rows| - 1].1, fmt)
  }

  lemma BodyStep(rows: seq<(JString, real)>, i: nat, fmt: real -> JString)
    requires i < |rows|
    ensures Body(rows[..i + 1], fmt) == Body(rows[..i], fmt) + Line(rows[i].0, rows[i].1, fmt)
  {
    assert rows[..i + 1][..i] == rows[..i];
  }

  /** The header text followed by a line break, or nothing. */
  function HeaderLine(header: Option<JString>): JString
  {
    if header.Some? then header.value + [Newline] else []
  }

  /** The whole tabular text: optional header line, the rows, an empty line. */
  function Table(header: Option<JString>, rows: seq<(JString, real)>, fmt: real -> JString): JString
  {
    HeaderLine(header) + Body(rows, fmt) + [Newline]
  }

  /** The number of times `c` occurs in `s`. */
  function Occurrences(s: JString, c: Char16): nat
  {
    if s == [] then 0 else Occurrences(s[..|s| - 1], c) + (if s[|s| - 1] == c then 1 else 0)
  }

  lemma {:induction false} OccurrencesAppend(a: JString, b: JString, c: Char16)
    ensures Occurrences(a + b, c) == Occurrences(a, c) + Occurrences(b, c)
  {
    if b != [] {
      var n := |b| - 1;
      assert (a + b)[..|a + b| - 1] == a + b[..n];
      OccurrencesAppend(a, b[..n], c);
    } else {
      assert a + b == a;
    }
  }

  /** Text without line breaks. */
  predicate OneLine(s: JString)
  {
    Newline !in s
  }

  lemma {:induction false} NoOccurrences(s: JString, c: Char16)
    requires c !in s
    ensures Occurrences(s, c) == 0
  {
    if s != [] {
      NoOccurrences(s[..|s| - 1], c);
    }
  }

  lemma LineBreaks(name: JString, value: real, fmt: real -> JString)
    requires OneLine(name) && OneLine(fmt(value))
    ensures Occurrences(Line(name, value, fmt), Newline) == 1
  {
    NoOccurrences(name, Newline);
    NoOccurrences(fmt(value), Newline);
    OccurrencesAppend(name, [Tab], Newline);
    OccurrencesAppend(name + [Tab], fmt(value), Newline);
    OccurrencesAppend(name + [Tab] + fmt(value), [Newline], Newline);
    assert Occurrences([Tab], Newline) == Occurrences([], Newline) + 0;
  }

  lemma {:induction false} BodyBreaks(rows: seq<(JString, real)>, fmt: real -> JString)
    requires forall i :: 0 <= i < |rows| ==> OneLine(rows[i].0) && OneLine(fmt(rows[i].1))
    ensures Occurrences(Body(rows, fmt), Newline) == |rows|
  {
    if rows != [] {
      var n := |rows| - 1;
      BodyBreaks(rows[..n], fmt);
      LineBreaks(rows[n].0, rows[n].1, fmt);
      OccurrencesAppend(Body(rows[..n], fmt), Line(rows[n].0, rows[n].1, fmt), Newline);
    }
  }

  /**
   * When no name or rendered score contains a line break, the table has the
   * header line (if shown), exactly one line per row and the closing empty line.
   */
  lemma TableLineCount(header: Option<JString>, rows: seq<(JString, real)>, fmt: real -> JString)
    requires header.Some? ==> OneLine(header.value)
    requires forall i :: 0 <= i < |rows| ==> OneLine(rows[i].0) && OneLine(fmt(rows[i].1))
    ensures Occurrences(Table(header, rows, fmt), Newline) == (if header.Some? then 1 else 0) + |rows| + 1
  {
    var h := if header.Some? then header.value + [Newline] else [];
    if header.Some? {
      NoOccurrences(header.value, Newline);
      OccurrencesAppend(header.value, [Newline], Newline);
    }
    BodyBreaks(rows, fmt);
    OccurrencesAppend(h, Body(rows, fmt), Newline);
    OccurrencesAppend(h + Body(rows, fmt), [Newline], Newline);
  }
}
