/**
 * A predicate (schema attribute): the table counting how often each line of
 * its source file occurs, the cursor the matching engine walks that table
 * with, and the constant-stripping pass (class Predicate).
 */
module Predicates {
  import opened Wrappers
  import opened JavaStrings

  /** A Map.Entry<String, Integer>: a word and its count. */
  datatype Entry = Entry(key: JString, value: int)

  /** `m.containsKey(k) ? m.get(k) : 0`. */
  function CountOf(m: map<JString, int>, k: JString): int
  {
    if k in m then m[k] else 0
  }

  /** A non-negative count over a positive size. */
  lemma QuotientFacts(a: real, b: real)
    requires a >= 0.0 && b > 0.0
    ensures a / b >= 0.0 && (a / b == 0.0 <==> a == 0.0) && (a / b) * b == a
  {
  }

  /**
   * A Map<String, Integer> of word counts together with the order in which
   * its entry set iterates.
   */
  datatype WordMap = WordMap(counts: map<JString, int>, order: seq<JString>) {

    /** The order lists every key exactly once and every count is positive. */
    ghost predicate Valid()
    {
      && Distinct(order)
      && (forall k :: k in counts <==> k in order)
      && (forall k :: k in counts ==> counts[k] >= 1)
    }

    function Count(key: JString): int
    {
      CountOf(counts, key)
    }

    /** The number of distinct words. */
    function Size(): nat
    {
      |counts|
    }

    function Probability(key: JString): real
      requires Size() > 0
    {
      Count(key) as real / Size() as real
    }

    /** The entries in iteration order. */
    function Entries(): (es: seq<Entry>)
      requires Valid()
      ensures |es| == |order|
      ensures forall i :: 0 <= i < |es| ==> es[i] == Entry(order[i], counts[order[i]])
    {
      seq(|order|, i requires 0 <= i < |order| => Entry(order[i], counts[order[i]]))
    }
  }

  const Empty: WordMap := WordMap(map[], [])

  /** The name ".NULL" of the predicate that stands for "no match". */
  const NullName: JString := [0x2E, 0x4E, 0x55, 0x4C, 0x4C]

  /** The sum of the counts of the words in `order`. */
  function Total(counts: map<JString, int>, order: seq<JString>): int
  {
    if order == [] then 0
    else Total(counts, order[..|order| - 1]) + CountOf(counts, order[|order| - 1])
  }

  /** The sum of the probabilities of the words in `order`. */
  function TotalProbability(w: WordMap, order: seq<JString>): real
    requires w.Size() > 0
  {
    if order == [] then 0.0
    else TotalProbability(w, order[..|order| - 1]) + w.Probability(order[|order| - 1])
  }

  /**
   * getProbability divides by the number of distinct words, so the
   * probabilities of a table add up to (number of lines) / (distinct words),
   * which is 1 only when no word repeats.
   */
  lemma {:induction false} ProbabilitySum(w: WordMap, order: seq<JString>)
    requires w.Size() > 0
    ensures TotalProbability(w, order) == Total(w.counts, order) as real / w.Size() as real
  {
    if order != [] {
      var init := order[..|order| - 1];
      ProbabilitySum(w, init);
      var n := w.Size() as real;
      var a, b := Total(w.counts, init) as real, w.Count(order[|order| - 1]) as real;
      assert a / n + b / n == (a + b) / n;
    }
  }

  /** A word seen twice in a table of one distinct word has "probability" 2. */
  lemma RepeatedWordOutOfRange()
    ensures WordMap(map[[0x61] := 2], [[0x61]]).Probability([0x61]) == 2.0
  {
  }

  /** A multiset loses exactly the copies of x when x's multiplicity is set to zero. */
  lemma {:induction false} CardinalityWithout<T>(m: multiset<T>, x: T)
    ensures |m| == |m[x := 0]| + m[x]
    decreases m[x]
  {
    if m[x] > 0 {
      var m' := m - multiset{x};
      assert m == m' + multiset{x};
      assert m'[x := 0] == m[x := 0];
      CardinalityWithout(m', x);
    } else {
      assert m[x := 0] == m;
    }
  }

  /** Summing the multiplicities of the distinct elements gives the cardinality. */
  lemma {:induction false} MultiplicitiesSum(counts: map<JString, int>, order: seq<JString>, m: multiset<JString>)
    requires Distinct(order)
    requires forall k :: k in m <==> k in order
    requires forall k :: k in order ==> CountOf(counts, k) == m[k]
    ensures Total(counts, order) == |m|
  {
    if order == [] {
      assert m == multiset{};
    } else {
      var x := order[|order| - 1];
      var init := order[..|order| - 1];
      var m' := m[x := 0];
      assert x !in init;
      forall k
        ensures k in m' <==> k in init
      {
        if k in init {
          assert k != x;
        }
      }
      MultiplicitiesSum(counts, init, m');
      CardinalityWithout(m, x);
    }
  }

  /** After read(), the counts add up to the number of lines read. */
  lemma CountsSumToLines(w: WordMap, lines: seq<JString>)
    requires w.Valid()
    requires forall k :: w.Count(k) == multiset(lines)[k]
    ensures Total(w.counts, w.order) == |lines|
  {
    MultiplicitiesSum(w.counts, w.order, multiset(lines));
  }

  /** The keys of a TreeMap made from a map with keys `keys`, in iteration order. */
  method SortedKeys(keys: set<JString>) returns (order: seq<JString>)
    ensures StrictlySorted(order)
    ensures forall k :: k in keys <==> k in order
  {
    order := [];
    var rest := keys;
    while rest != {}
      invariant rest <= keys
      invariant StrictlySorted(order)
      invariant forall k :: k in order <==> k in keys && k !in rest
      decreases |rest|
    {
      var k :| k in rest;
      order := InsertSorted(order, k);
      rest := rest - {k};
    }
  }

  /** The keys of a HashMap in iteration order: some order, each key once. */
  method HashOrder(keys: set<JString>) returns (order: seq<JString>)
    ensures Distinct(order)
    ensures forall k :: k in keys <==> k in order
  {
    order := [];
    var rest := keys;
    while rest != {}
      invariant rest <= keys
      invariant Distinct(order)
      invariant forall k :: k in order <==> k in keys && k !in rest
      decreases |rest|
    {
      var k :| k in rest;
      order := order + [k];
      rest := rest - {k};
    }
  }

  // ---------------------------------------------------------------------
  // stripConstants, as functions of the table it starts from
  // ---------------------------------------------------------------------

  /**
   * The state of the first loop of stripConstants: `toRemove` (None while it
   * is still null), `toRemoveCount` and `count`.
   */
  datatype ConstantScan = ConstantScan(toRemove: Option<seq<JString>>, toRemoveCount: seq<int>, count: nat)

  /** Lines stripConstants looks at: those that split into more than one token. */
  predicate MultiToken(key: JString)
  {
    |Tokens(key)| > 1
  }

  /** The number of multi-token keys in `keys`. */
  function MultiTokenCount(keys: seq<JString>): nat
  {
    if keys == [] then 0
    else MultiTokenCount(keys[..|keys| - 1]) + (if MultiToken(keys[|keys| - 1]) then 1 else 0)
  }

  /** The counters after a later multi-token line with tokens `tokens`. */
  function Recount(toRemove: seq<JString>, counts: seq<int>, tokens: seq<JString>): (r: seq<int>)
    requires |counts| == |toRemove|
    ensures |r| == |toRemove|
  {
    seq(|toRemove|, i requires 0 <= i < |toRemove| => if toRemove[i] in tokens then counts[i] + 1 else counts[i])
  }

  /**
   * The first loop of stripConstants over `keys`: removal candidates are the
   * tokens of the first multi-token key, and every multi-token key counts.
   */
  function Scan(keys: seq<JString>): (r: ConstantScan)
    ensures r.count == MultiTokenCount(keys)
    ensures r.toRemove.None? <==> forall k :: 0 <= k < |keys| ==> !MultiToken(keys[k])
    ensures r.toRemove.None? ==> r.toRemoveCount == []
    ensures r.toRemove.Some? ==> |r.toRemoveCount| == |r.toRemove.value|
    ensures forall i :: 0 <= i < |r.toRemoveCount| ==> 1 <= r.toRemoveCount[i] <= r.count
  {
    if keys == [] then ConstantScan(None, [], 0)
    else
      var init := keys[..|keys| - 1];
      var prev := Scan(init);
      var tokens := Tokens(keys[|keys| - 1]);
      assert forall k :: 0 <= k < |init| ==> init[k] == keys[k];
      if |tokens| <= 1 then prev
      else if prev.toRemove.None? then ConstantScan(Some(tokens), seq(|tokens|, _ => 1), prev.count + 1)
      else ConstantScan(prev.toRemove, Recount(prev.toRemove.value, prev.toRemoveCount, tokens), prev.count + 1)
  }

  /** The removal candidates are the tokens of the first multi-token key. */
  lemma {:induction false} ScanCandidates(keys: seq<JString>, k: nat)
    requires k < |keys| && MultiToken(keys[k])
    requires forall j :: 0 <= j < k ==> !MultiToken(keys[j])
    ensures Scan(keys).toRemove == Some(Tokens(keys[k]))
  {
    var n := |keys| - 1;
    if k < n {
      var init := keys[..n];
      assert forall j :: 0 <= j < |init| ==> init[j] == keys[j];
      ScanCandidates(init, k);
    } else {
      var init := keys[..n];
      forall j | 0 <= j < |init|
        ensures !MultiToken(init[j])
      {
        assert init[j] == keys[j];
      }
    }
  }

  /** The candidates of `toRemove` whose counter exceeds `limit`, in order. */
  function Frequent(toRemove: seq<JString>, counts: seq<int>, limit: real): (r: seq<JString>)
    requires |counts| == |toRemove|
    ensures forall x :: x in r ==> x in toRemove
  {
    if toRemove == [] then []
    else
      var n := |toRemove| - 1;
      Frequent(toRemove[..n], counts[..n], limit) + (if counts[n] as real > limit then [toRemove[n]] else [])
  }

  /** No counter exceeds `limit`: nothing is chosen. */
  lemma {:induction false} NothingFrequent(toRemove: seq<JString>, counts: seq<int>, limit: real)
    requires |counts| == |toRemove|
    requires forall i :: 0 <= i < |counts| ==> counts[i] as real <= limit
    ensures Frequent(toRemove, counts, limit) == []
  {
    if toRemove != [] {
      var n := |toRemove| - 1;
      NothingFrequent(toRemove[..n], counts[..n], limit);
    }
  }

  /** The tokens stripConstants deletes from every key. */
  function Removed(scan: ConstantScan, constantValue: real): seq<JString>
    requires scan.toRemove.Some? ==> |scan.toRemoveCount| == |scan.toRemove.value|
  {
    if scan.toRemove.None? then []
    else Frequent(scan.toRemove.value, scan.toRemoveCount, Limit(scan.count, constantValue))
  }

  /** `count * constantValue`, the bar a candidate's counter must exceed. */
  function Limit(count: nat, constantValue: real): real
  {
    count as real * constantValue
  }

  lemma ScaledUp(c: real, v: real)
    requires c >= 0.0 && v >= 1.0
    ensures c <= c * v
  {
    assert c * v - c == c * (v - 1.0);
  }

  /** A scan whose counters are bounded by its count removes nothing at constantValue >= 1. */
  lemma NothingRemovedFrom(scan: ConstantScan, constantValue: real)
    requires constantValue >= 1.0
    requires scan.toRemove.Some? ==> |scan.toRemoveCount| == |scan.toRemove.value|
    requires forall i :: 0 <= i < |scan.toRemoveCount| ==> scan.toRemoveCount[i] <= scan.count
    ensures Removed(scan, constantValue) == []
  {
    if scan.toRemove.Some? {
      var limit := Limit(scan.count, constantValue);
      ScaledUp(scan.count as real, constantValue);
      NothingFrequent(scan.toRemove.value, scan.toRemoveCount, limit);
    }
  }

  /**
   * No candidate's counter can exceed the number of multi-token lines, so
   * with constantValue >= 1 (the default is 1.0) no token is ever removed.
   */
  lemma NoTokenRemoved(keys: seq<JString>, constantValue: real)
    requires constantValue >= 1.0
    ensures Removed(Scan(keys), constantValue) == []
  {
    NothingRemovedFrom(Scan(keys), constantValue);
  }

  /**
   * The rebuild loop: each key of `keys`, with the removed tokens deleted,
   * is put into a fresh map with its old count; a later key overwrites an
   * earlier one it collides with.
   */
  function Rebuild(counts: map<JString, int>, keys: seq<JString>, removed: seq<JString>): (r: map<JString, int>)
    requires forall k :: k in keys ==> k in counts
    ensures forall k :: k in r <==> exists j :: 0 <= j < |keys| && RemoveEach(keys[j], removed) == k
  {
    if keys == [] then map[]
    else
      var init := keys[..|keys| - 1];
      var last := keys[|keys| - 1];
      var prev := Rebuild(counts, init, removed);
      assert forall j :: 0 <= j < |init| ==> init[j] == keys[j];
      prev[RemoveEach(last, removed) := counts[last]]
  }

  /** The rebuild has at most one entry per key it copies, and copies only positive counts. */
  lemma {:induction false} RebuildBounds(counts: map<JString, int>, keys: seq<JString>, removed: seq<JString>)
    requires forall k :: k in keys ==> k in counts
    ensures |Rebuild(counts, keys, removed)| <= |keys|
    ensures (forall k :: k in counts ==> counts[k] >= 1) ==>
              forall k :: k in Rebuild(counts, keys, removed) ==> Rebuild(counts, keys, removed)[k] >= 1
  {
    if keys != [] {
      RebuildBounds(counts, keys[..|keys| - 1], removed);
    }
  }

  /** A rewritten key holds the count of the LAST key rewritten to it. */
  lemma {:induction false} RebuildLastWriterWins(counts: map<JString, int>, keys: seq<JString>, removed: seq<JString>, j: nat)
    requires forall k :: k in keys ==> k in counts
    requires j < |keys|
    requires forall i :: j < i < |keys| ==> RemoveEach(keys[i], removed) != RemoveEach(keys[j], removed)
    ensures RemoveEach(keys[j], removed) in Rebuild(counts, keys, removed)
    ensures Rebuild(counts, keys, removed)[RemoveEach(keys[j], removed)] == counts[keys[j]]
  {
    var n := |keys| - 1;
    var init := keys[..n];
    var key := RemoveEach(keys[j], removed);
    var last := RemoveEach(keys[n], removed);
    assert Rebuild(counts, keys, removed) == Rebuild(counts, init, removed)[last := counts[keys[n]]];
    if j < n {
      assert init[j] == keys[j];
      forall i | j < i < |init|
        ensures RemoveEach(init[i], removed) != key
      {
        assert init[i] == keys[i];
      }
      RebuildLastWriterWins(counts, init, removed, j);
      assert last != key;
    }
  }

  /** With nothing removed the rebuild copies exactly the entries of `keys`. */
  lemma {:induction false} RebuildCopies(counts: map<JString, int>, keys: seq<JString>)
    requires forall k :: k in keys ==> k in counts
    ensures Rebuild(counts, keys, []) == map k | k in counts && k in keys :: counts[k]
  {
    if keys != [] {
      var n := |keys| - 1;
      var init := keys[..n];
      RebuildCopies(counts, init);
      assert forall k :: k in keys <==> k in init || k == keys[n];
    }
  }

  /** What stripConstants leaves in `words`, as a function of the table it starts from. */
  function StripResult(w: WordMap, constantValue: real): (r: map<JString, int>)
    requires w.Valid()
    ensures |r| <= |w.counts|
    ensures Scan(w.order).toRemove.Some? ==> |r| < |w.counts|
    ensures forall k :: k in r ==> r[k] >= 1
  {
    var scan := Scan(w.order);
    if scan.toRemove.None? then w.counts
    else
      var keys := w.order[..|w.order| - 1];
      DistinctCardinality(w);
      RebuildBounds(w.counts, keys, Removed(scan, constantValue));
      Rebuild(w.counts, keys, Removed(scan, constantValue))
  }

  /**
   * The rebuild loop fetches an entry before testing hasNext, so the last
   * entry in iteration order is never copied: with the default constant
   * value, a table with a multi-token key loses exactly its last entry.
   */
  lemma StripDropsLastEntry(w: WordMap, constantValue: real)
    requires w.Valid() && constantValue >= 1.0
    requires exists k :: k in w.counts && MultiToken(k)
    ensures w.order != []
    ensures StripResult(w, constantValue) == w.counts - {w.order[|w.order| - 1]}
  {
    var k :| k in w.counts && MultiToken(k);
    var i :| 0 <= i < |w.order| && w.order[i] == k;
    assert Scan(w.order).toRemove.Some?;
    NoTokenRemoved(w.order, constantValue);
    CopyAllButLast(w);
  }

  /** Copying every entry but the last in iteration order drops just that entry. */
  lemma CopyAllButLast(w: WordMap)
    requires w.Valid() && w.order != []
    ensures Rebuild(w.counts, w.order[..|w.order| - 1], []) == w.counts - {w.order[|w.order| - 1]}
  {
    var n := |w.order| - 1;
    var init := w.order[..n];
    RebuildCopies(w.counts, init);
    forall x
      ensures x in init <==> x in w.counts && x != w.order[n]
    {
      if x in init {
        var j :| 0 <= j < n && init[j] == x;
        assert w.order[j] == x;
      }
      if x in w.counts && x != w.order[n] {
        var j :| 0 <= j < |w.order| && w.order[j] == x;
        assert j < n && init[j] == x;
      }
    }
  }

  /** Without a multi-token key, stripConstants leaves the table as it is. */
  lemma StripWithoutMultiTokenKeys(w: WordMap, constantValue: real)
    requires w.Valid()
    requires forall k :: k in w.counts ==> !MultiToken(k)
    ensures StripResult(w, constantValue) == w.counts
  {
    assert forall k :: 0 <= k < |w.order| ==> w.order[k] in w.counts;
  }

  class Predicate {
    var filename: Option<JString>
    var name: JString
    var confidence: real
    var words: WordMap
    /** The entries the iterator `it` walks over (the entry set it was created from). */
    var cursor: seq<Entry>
    /** How many of them `it` has returned. */
    var pos: nat
    /** Whether `it` is non-null. */
    var hasCursor: bool
    var constantValue: real

    ghost predicate Valid()
      reads this
    {
      words.Valid() && pos <= |cursor|
    }

    /** The blank predicate that stands for "no match". */
    constructor Null()
      ensures Valid()
      ensures filename == None && name == NullName && confidence == -1.0
      ensures words == Empty && !hasCursor && constantValue == 1.0
    {
      filename := None;
      name := NullName;
      confidence := -1.0;
      words := Empty;
      cursor := [];
      pos := 0;
      hasCursor := false;
      constantValue := 1.0;
    }

    /**
     * A predicate tied to a file; `lines` is the file's text line by line,
     * or None when the file cannot be read.
     */
    constructor FromFile(filename: JString, lines: Option<seq<JString>>)
      ensures Valid()
      ensures this.filename == Some(filename) && confidence == -1.0 && constantValue == 1.0
      ensures name == SuffixAfterLast(filename, Slash)
      ensures lines.None? ==> words == Empty && !hasCursor
      ensures lines.Some? ==> forall k :: words.Count(k) == multiset(lines.value)[k]
      ensures lines.Some? ==> StrictlySorted(words.order) && hasCursor && cursor == words.Entries() && pos == 0
    {
      this.filename := Some(filename);
      name := [];
      confidence := -1.0;
      words := Empty;
      cursor := [];
      pos := 0;
      hasCursor := false;
      constantValue := 1.0;
      new;
      Read(lines);
    }

    /**
     * read(filename): names the predicate after the file and adds one to the
     * count of each line read, then turns the table into a TreeMap.
     */
    method Read(lines: Option<seq<JString>>)
      requires Valid() && filename.Some?
      modifies this
      ensures Valid()
      ensures filename == old(filename) && confidence == old(confidence) && constantValue == old(constantValue)
      ensures name == SuffixAfterLast(filename.value, Slash)
      ensures lines.None? ==> words == old(words) && cursor == old(cursor) && pos == old(pos) && hasCursor == old(hasCursor)
      ensures lines.Some? ==> forall k :: words.Count(k) == old(words.Count(k)) + multiset(lines.value)[k]
      ensures lines.Some? ==> StrictlySorted(words.order) && hasCursor && cursor == words.Entries() && pos == 0
    {
      name := SuffixAfterLast(filename.value, Slash);
      if lines.None? {
        return;
      }
      var counts := CountLines(words.counts, lines.value);
      var order := SortedKeys(counts.Keys);
      SortedIsDistinct(order);
      words := WordMap(counts, order);
      cursor := words.Entries();
      pos := 0;
      hasCursor := true;
    }

    /** The counting loop of read: one more for each line, a new line starting at 1. */
    static method CountLines(counts0: map<JString, int>, ls: seq<JString>) returns (counts: map<JString, int>)
      requires forall k :: k in counts0 ==> counts0[k] >= 1
      ensures forall k :: CountOf(counts, k) == CountOf(counts0, k) + multiset(ls)[k]
      ensures forall k :: k in counts ==> counts[k] >= 1
    {
      counts := counts0;
      var i := 0;
      while i < |ls|
        invariant 0 <= i <= |ls|
        invariant forall k :: CountOf(counts, k) == CountOf(counts0, k) + multiset(ls[..i])[k]
        invariant forall k :: k in counts ==> counts[k] >= 1
      {
        var str := ls[i];
        if str in counts {
          counts := counts[str := counts[str] + 1];
        } else {
          counts := counts[str := 1];
        }
        assert ls[..i + 1] == ls[..i] + [str];
        i := i + 1;
      }
      assert ls[..i] == ls;
    }

    /** Restarts the iteration and returns the first entry, or None if there is none. */
    method GetStart() returns (e: Option<Entry>)
      requires Valid()
      modifies this`cursor, this`pos, this`hasCursor
      ensures Valid() && hasCursor && cursor == words.Entries()
      ensures e == if cursor == [] then None else Some(cursor[0])
      ensures pos == if cursor == [] then 0 else 1
    {
      cursor := words.Entries();
      pos := 0;
      hasCursor := true;
      e := GetNext();
    }

    /** Returns the next entry of the iteration, or None once it is exhausted. */
    method GetNext() returns (e: Option<Entry>)
      requires Valid() && hasCursor
      modifies this`pos
      ensures Valid()
      ensures e == if old(pos) < |cursor| then Some(cursor[old(pos)]) else None
      ensures pos == if old(pos) < |cursor| then old(pos) + 1 else old(pos)
    {
      if pos < |cursor| {
        e := Some(cursor[pos]);
        pos := pos + 1;
      } else {
        e := None;
      }
    }

    function ToString(): JString
      reads this
    {
      name
    }

    /** The part of the name after its last '.', or the whole name when it has none. */
    function GetShortName(): (r: JString)
      reads this
      ensures |r| <= |name| && r == name[|name| - |r|..]
      ensures Dot !in r
      ensures r == name || name[|name| - |r| - 1] == Dot
    {
      SuffixAfterLast(name, Dot)
    }

    /** The number of times `key` was seen, 0 for an unknown word. */
    function GetCount(key: JString): (r: int)
      requires Valid()
      reads this
      ensures r >= 0
      ensures r == 0 <==> key !in words.counts
    {
      words.Count(key)
    }

    /** The number of distinct words. */
    function Size(): (r: nat)
      requires Valid()
      reads this
      ensures r == |words.order|
    {
      DistinctCardinality(words);
      words.Size()
    }

    /** getCount(key) / size(): divides by the number of DISTINCT words. */
    function GetProbability(key: JString): (r: real)
      requires Valid() && Size() > 0
      reads this
      ensures r >= 0.0
      ensures r == 0.0 <==> key !in words.counts
      ensures r * Size() as real == GetCount(key) as real
    {
      var count, size := GetCount(key), Size();
      QuotientFacts(count as real, size as real);
      words.Probability(key)
    }

    method SetConfidence(confidence: real)
      modifies this`confidence
      ensures this.confidence == confidence
    {
      this.confidence := confidence;
    }

    method SetConstantValue(constantValue: real)
      modifies this`constantValue
      ensures this.constantValue == constantValue
    {
      this.constantValue := constantValue;
    }

    /** free(): empties the word table. */
    method Free()
      requires Valid()
      modifies this`words
      ensures Valid() && words == Empty
      ensures Size() == 0 && forall k :: GetCount(k) == 0
    {
      words := Empty;
    }

    /**
     * stripConstants(): counts how many multi-token lines share each token of
     * the first multi-token line, deletes the tokens shared often enough, and
     * rebuilds the table as a HashMap.
     */
    method StripConstants()
      requires Valid()
      modifies this`words
      ensures Valid()
      ensures words.counts == StripResult(old(words), constantValue)
      ensures Scan(old(words).order).toRemove.None? ==> words == old(words)
    {
      var order := words.order;
      var toRemove, toRemoveCount, count := ScanConstants(order);
      if toRemove.None? {
        return;
      }
      assert order != [];
      var removed := FrequentTokens(toRemove.value, toRemoveCount, Limit(count, constantValue));
      assert removed == Removed(Scan(order), constantValue);
      var keys := order[..|order| - 1];
      assert forall x :: x in keys ==> x in words.counts;
      var newWords := RebuildTable(words.counts, keys, removed);
      assert newWords == StripResult(words, constantValue);
      var newOrder := HashOrder(newWords.Keys);
      words := WordMap(newWords, newOrder);
    }
  }

  /** The third loop of stripConstants: re-inserts each key of `keys` with the tokens removed. */
  method RebuildTable(counts: map<JString, int>, keys: seq<JString>, removed: seq<JString>) returns (newWords: map<JString, int>)
    requires forall x :: x in keys ==> x in counts
    ensures newWords == Rebuild(counts, keys, removed)
    ensures (forall x :: x in counts ==> counts[x] >= 1) ==> forall x :: x in newWords ==> newWords[x] >= 1
  {
    newWords := map[];
    var k := 0;
    while k < |keys|
      invariant 0 <= k <= |keys|
      invariant newWords == Rebuild(counts, keys[..k], removed)
      invariant (forall x :: x in counts ==> counts[x] >= 1) ==> forall x :: x in newWords ==> newWords[x] >= 1
    {
      var key := StripTokens(keys[k], removed);
      assert keys[..k + 1][..k] == keys[..k];
      newWords := newWords[key := counts[keys[k]]];
      k := k + 1;
    }
    assert keys[..k] == keys;
  }

  /** The first loop of stripConstants. */
  method ScanConstants(order: seq<JString>) returns (toRemove: Option<seq<JString>>, toRemoveCount: seq<int>, count: nat)
    ensures ConstantScan(toRemove, toRemoveCount, count) == Scan(order)
  {
    toRemove := None;
    toRemoveCount := [];
    count := 0;
    var e := 0;
    while e < |order|
      invariant 0 <= e <= |order|
      invariant ConstantScan(toRemove, toRemoveCount, count) == Scan(order[..e])
    {
      var tokens := Tokens(order[e]);
      assert order[..e + 1][..e] == order[..e];
      if |tokens| > 1 {
        if toRemove.None? {
          toRemove := Some(tokens);
          toRemoveCount := seq(|tokens|, _ => 1);
        } else {
          toRemoveCount := CountShared(toRemove.value, toRemoveCount, tokens);
        }
        count := count + 1;
      }
      e := e + 1;
    }
    assert order[..e] == order;
  }

  /** One more multi-token line: each candidate it contains gains one. */
  method CountShared(toRemove: seq<JString>, counts: seq<int>, tokens: seq<JString>) returns (r: seq<int>)
    requires |counts| == |toRemove|
    ensures r == Recount(toRemove, counts, tokens)
  {
    r := counts;
    var i := 0;
    while i < |toRemove|
      invariant 0 <= i <= |toRemove| && |r| == |counts|
      invariant forall k :: 0 <= k < i ==> r[k] == Recount(toRemove, counts, tokens)[k]
      invariant forall k :: i <= k < |counts| ==> r[k] == counts[k]
    {
      if toRemove[i] in tokens {
        r := r[i := r[i] + 1];
      }
      i := i + 1;
    }
  }

  /** The second loop of stripConstants: the candidates whose counter exceeds `limit`. */
  method FrequentTokens(candidates: seq<JString>, counts: seq<int>, limit: real) returns (newRemove: seq<JString>)
    requires |counts| == |candidates|
    ensures newRemove == Frequent(candidates, counts, limit)
  {
    newRemove := [];
    var i := 0;
    while i < |candidates|
      invariant 0 <= i <= |candidates|
      invariant newRemove == Frequent(candidates[..i], counts[..i], limit)
    {
      assert candidates[..i + 1][..i] == candidates[..i];
      assert counts[..i + 1][..i] == counts[..i];
      if counts[i] as real > limit {
        newRemove := newRemove + [candidates[i]];
      }
      i := i + 1;
    }
    assert candidates[..i] == candidates && counts[..i] == counts;
  }

  /** Deletes every occurrence of each removed token from `key`, token by token. */
  method StripTokens(key: JString, removed: seq<JString>) returns (r: JString)
    ensures r == RemoveEach(key, removed)
  {
    r := key;
    var j := 0;
    while j < |removed|
      invariant 0 <= j <= |removed|
      invariant r == RemoveEach(key, removed[..j])
    {
      assert removed[..j + 1][..j] == removed[..j];
      r := RemoveAll(r, removed[j]);
      j := j + 1;
    }
    assert removed[..j] == removed;
  }

  /** A valid table has as many distinct words as its order has entries. */
  lemma DistinctCardinality(w: WordMap)
    requires w.Valid()
    ensures w.Size() == |w.order|
  {
    DistinctSeqCardinality(w.order);
    assert w.counts.Keys == set k | k in w.order;
  }

  lemma {:induction false} DistinctSeqCardinality(s: seq<JString>)
    requires Distinct(s)
    ensures |set k | k in s| == |s|
  {
    if s != [] {
      var n := |s| - 1;
      DistinctSeqCardinality(s[..n]);
      assert (set k | k in s) == (set k | k in s[..n]) + {s[n]};
      assert s[n] !in s[..n];
    }
  }
}
