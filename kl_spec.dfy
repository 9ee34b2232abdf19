/**
 * The matching engine (class KLDivergence) as functions of the word tables
 * it reads: the best-match scan of findSimilar, the divergence sum of
 * compare, one pass of select over the remote predicates, the
 * adaptive-threshold retry loop, and the outlier test that sets confidence.
 */
module KLDivergenceSpec {
  import opened Wrappers
  import opened JavaStrings
  import opened Predicates

  /** A double that compare can return: a real sum, or the Double.MAX_VALUE sentinel. */
  datatype Score = Value(v: real) | MaxValue

  /** `a < b` on such doubles; every real sum is below the sentinel. */
  predicate Below(a: Score, b: Score)
  {
    a.Value? && (b.MaxValue? || a.v < b.v)
  }

  /** A double that may be NaN: the found / inspected ratio and the running maximum of it. */
  datatype Ratio = NaN | Num(value: real)

  /** `(double) n / d`, which is NaN for 0 / 0. */
  function Quotient(n: nat, d: nat): Ratio
  {
    if d == 0 then NaN else Num(n as real / d as real)
  }

  /** Math.max: NaN if either argument is NaN. */
  function MaxRatio(a: Ratio, b: Ratio): Ratio
  {
    if a.NaN? || b.NaN? then NaN
    else if a.value >= b.value then a else b
  }

  /** `r > x`, false when r is NaN. */
  predicate Exceeds(r: Ratio, x: real)
  {
    r.Num? && r.value > x
  }

  /** The smoothing term that replaces a zero probability (a private constant). */
  const Smooth: real := 0.0001

  /** The engine's configuration and the functions it calls. */
  datatype Settings = Settings(
    limit: int,
    validPercent: real,
    validRequired: int,
    thresholdMin: real,
    metric: (JString, JString) -> real,
    log: real -> real)

  // ---------------------------------------------------------------------
  // findSimilar
  // ---------------------------------------------------------------------

  /** The scan state of findSimilar: the best score so far and the index of the best match. */
  datatype Best = Best(value: real, index: Option<nat>)

  /** The metric's score for a pair of words. */
  function SimilarityOf(metric: (JString, JString) -> real, a: JString, b: JString): real
  {
    metric(a, b)
  }

  /** The score of `key` against the k-th entry. */
  function Similarity(es: seq<Entry>, key: JString, metric: (JString, JString) -> real, k: nat): real
    requires k < |es|
  {
    SimilarityOf(metric, key, es[k].key)
  }

  /**
   * findSimilar's loop over the first `n` entries of `es`: it starts from
   * score 0 and no match, and a match is replaced only by a strictly higher
   * score.
   */
  function ScanBest(es: seq<Entry>, n: nat, key: JString, metric: (JString, JString) -> real): (b: Best)
    requires n <= |es|
    ensures b.value >= 0.0
    ensures b.index.Some? ==> b.index.value < n
  {
    if n == 0 then Best(0.0, None)
    else
      var prev := ScanBest(es, n - 1, key, metric);
      var v := SimilarityOf(metric, key, es[n - 1].key);
      if v > prev.value then Best(v, Some(n - 1)) else prev
  }

  /**
   * The scan ends on the first entry of maximal score, and with no match
   * exactly when no score is positive.
   */
  lemma {:induction false} ScanFindsFirstMax(es: seq<Entry>, n: nat, key: JString, metric: (JString, JString) -> real)
    requires n <= |es|
    ensures var b := ScanBest(es, n, key, metric);
            (b.index.None? <==> forall k :: 0 <= k < n ==> Similarity(es, key, metric, k) <= 0.0)
            && (b.index.None? ==> b.value == 0.0)
            && (b.index.Some? ==> Similarity(es, key, metric, b.index.value) == b.value)
            && (b.index.Some? ==> forall k :: 0 <= k < b.index.value ==> Similarity(es, key, metric, k) < b.value)
            && (forall k :: 0 <= k < n ==> Similarity(es, key, metric, k) <= b.value)
  {
    if n > 0 {
      ScanFindsFirstMax(es, n - 1, key, metric);
      assert Similarity(es, key, metric, n - 1) == SimilarityOf(metric, key, es[n - 1].key);
    }
  }

  /** findSimilar: the best match, kept only when its score exceeds the threshold. */
  function FindSimilar(es: seq<Entry>, key: JString, metric: (JString, JString) -> real, threshold: real): (r: Option<Entry>)
    ensures r.Some? ==> r.value in es
  {
    var b := ScanBest(es, |es|, key, metric);
    if b.value > threshold then
      if b.index.Some? then Some(es[b.index.value]) else None
    else None
  }

  /** No match comes back exactly when no entry scores above both 0 and the threshold. */
  lemma NoSimilarIff(es: seq<Entry>, key: JString, metric: (JString, JString) -> real, threshold: real)
    ensures FindSimilar(es, key, metric, threshold).None? <==>
            forall k :: 0 <= k < |es| ==> Similarity(es, key, metric, k) <= Max(threshold, 0.0)
  {
    ScanFindsFirstMax(es, |es|, key, metric);
    var b := ScanBest(es, |es|, key, metric);
    if b.index.Some? && b.value > threshold {
      assert Similarity(es, key, metric, b.index.value) > Max(threshold, 0.0);
    }
  }

  /** A returned match is the first entry of maximal score, and that score exceeds the threshold. */
  lemma SimilarIsFirstBest(es: seq<Entry>, key: JString, metric: (JString, JString) -> real, threshold: real)
    requires FindSimilar(es, key, metric, threshold).Some?
    ensures exists k :: 0 <= k < |es| && FindSimilar(es, key, metric, threshold).value == es[k]
              && Similarity(es, key, metric, k) > threshold
              && (forall j :: 0 <= j < k ==> Similarity(es, key, metric, j) < Similarity(es, key, metric, k))
              && (forall j :: 0 <= j < |es| ==> Similarity(es, key, metric, j) <= Similarity(es, key, metric, k))
  {
    ScanFindsFirstMax(es, |es|, key, metric);
    var k := ScanBest(es, |es|, key, metric).index.value;
    assert FindSimilar(es, key, metric, threshold).value == es[k];
  }

  function Max(a: real, b: real): real
  {
    if a >= b then a else b
  }

  // ---------------------------------------------------------------------
  // compare
  // ---------------------------------------------------------------------

  /** One summand of the divergence. */
  function KLTerm(prob1: real, prob2: real, log: real -> real): real
    requires prob2 != 0.0
  {
    prob1 * log(prob1 / prob2)
  }

  /** The summand for a word pair, with a zero prob2 replaced by the smoothing term. */
  function Term(w1: WordMap, w2: WordMap, key1: JString, key2: JString, log: real -> real): real
    requires w1.Size() > 0 && w2.Size() > 0
  {
    var prob1 := w1.Probability(key1);
    var prob2 := w2.Probability(key2);
    KLTerm(prob1, if prob2 == 0.0 then Smooth else prob2, log)
  }

  /** compare's running state: the number of matched words and the divergence sum. */
  datatype Tally = Tally(found: nat, divergence: real)

  /** Whether compare finds a match in `w2` for the word `key`. */
  predicate Matched(w2: WordMap, key: JString, s: Settings, threshold: real)
    requires w2.Valid()
  {
    key != [] && FindSimilar(w2.Entries(), key, s.metric, threshold).Some?
  }

  /**
   * What the k-th local word adds to compare's sum: nothing when it is
   * empty or has no similar word in `w2`, otherwise its term against the
   * match.
   */
  function Contribution(w1: WordMap, w2: WordMap, k: nat, s: Settings, threshold: real): (r: Option<real>)
    requires w1.Valid() && w2.Valid() && k < |w1.order|
    ensures r.Some? <==> Matched(w2, w1.Entries()[k].key, s, threshold)
  {
    var key := w1.Entries()[k].key;
    assert key in w1.counts;
    if key == [] then None
    else
      match FindSimilar(w2.Entries(), key, s.metric, threshold)
      case None => None
      case Some(m) =>
        assert m.key in w2.counts;
        Some(Term(w1, w2, key, m.key, s.log))
  }

  /** The contributions of the first `n` local words, in iteration order. */
  function Contributions(w1: WordMap, w2: WordMap, n: nat, s: Settings, threshold: real): (cs: seq<Option<real>>)
    requires w1.Valid() && w2.Valid() && n <= |w1.order|
    ensures |cs| == n
  {
    seq(n, k requires 0 <= k < n => Contribution(w1, w2, k, s, threshold))
  }

  /** The key of an entry of a valid table is in the table, which is then non-empty. */
  lemma KeyInTable(w: WordMap, e: Entry)
    requires w.Valid() && e in w.Entries()
    ensures e.key in w.counts && w.Size() > 0
  {
    var j :| 0 <= j < |w.Entries()| && w.Entries()[j] == e;
    assert w.order[j] in w.counts;
  }

  lemma KeyOfEntry(w: WordMap, i: nat)
    requires w.Valid() && i < |w.order|
    ensures w.Entries()[i].key in w.counts && w.Size() > 0
  {
    assert w.order[i] in w.counts;
  }

  /** The count of matched words and the sum of their terms. */
  function Tallied(cs: seq<Option<real>>): (t: Tally)
    ensures t.found <= |cs|
  {
    if cs == [] then Tally(0, 0.0)
    else
      var prev := Tallied(cs[..|cs| - 1]);
      match cs[|cs| - 1]
      case None => prev
      case Some(term) => Tally(prev.found + 1, prev.divergence + term)
  }

  /** Tallying one more word: an unmatched one changes nothing, a matched one adds one and its term. */
  lemma TalliedStep(cs: seq<Option<real>>, i: nat)
    requires i < |cs|
    ensures cs[i].None? ==> Tallied(cs[..i + 1]) == Tallied(cs[..i])
    ensures cs[i].Some? ==> Tallied(cs[..i + 1]) == Tally(Tallied(cs[..i]).found + 1, Tallied(cs[..i]).divergence + cs[i].value)
  {
    assert cs[..i + 1][..i] == cs[..i];
  }

  /** Tallying one more local word adds that word's contribution, if any. */
  lemma TallyOnward(w1: WordMap, w2: WordMap, s: Settings, threshold: real, i: nat)
    requires w1.Valid() && w2.Valid() && i < |w1.order|
    ensures var all := Contributions(w1, w2, |w1.order|, s, threshold);
            var c := Contribution(w1, w2, i, s, threshold);
            Tallied(all[..i + 1]) == if c.None? then Tallied(all[..i])
                                     else Tally(Tallied(all[..i]).found + 1, Tallied(all[..i]).divergence + c.value)
  {
    var all := Contributions(w1, w2, |w1.order|, s, threshold);
    TalliedStep(all, i);
  }

  /** Nothing is found exactly when no word contributes. */
  lemma {:induction false} NoneFoundIff(cs: seq<Option<real>>)
    ensures Tallied(cs).found == 0 <==> forall k :: 0 <= k < |cs| ==> cs[k].None?
  {
    if cs != [] {
      var n := |cs| - 1;
      NoneFoundIff(cs[..n]);
      assert forall k :: 0 <= k < n ==> cs[..n][k] == cs[k];
    }
  }

  /** The index of the first entry with a non-empty word, or |es| when there is none. */
  function FirstNonEmpty(es: seq<Entry>): (r: nat)
    ensures r <= |es|
    ensures forall k :: 0 <= k < r ==> es[k].key == []
    ensures r < |es| ==> es[r].key != []
  {
    if es == [] then 0
    else if es[0].key != [] then 0
    else 1 + FirstNonEmpty(es[1..])
  }

  /**
   * How many words the cursor visits when no limit applies. When p1 and p2
   * are the same object, findSimilar exhausts the shared cursor at the
   * first non-empty word, which ends compare's loop right after it.
   */
  function Reach(es: seq<Entry>, aliased: bool): (r: nat)
    ensures r <= |es|
  {
    var f := FirstNonEmpty(es);
    if aliased && f < |es| then f + 1 else |es|
  }

  /** With aliasing, the first non-empty word is the last one the cursor visits. */
  lemma ReachEndsAtFirstWord(es: seq<Entry>, i: nat)
    requires i < Reach(es, true) && es[i].key != []
    ensures Reach(es, true) == i + 1
  {
    assert FirstNonEmpty(es) == i;
  }

  /** Before the first non-empty word, the cursor goes on to the next entry whenever there is one. */
  lemma ReachGoesOn(es: seq<Entry>, aliased: bool, i: nat)
    requires i < Reach(es, aliased)
    requires aliased ==> es[i].key == []
    ensures i + 1 < |es| ==> i + 1 < Reach(es, aliased)
    ensures i + 1 == |es| ==> Reach(es, aliased) == |es|
  {
  }

  /** How many local words compare inspects: with a positive limit, at most limit + 1. */
  function InspectCount(es: seq<Entry>, limit: int, aliased: bool): (r: nat)
    ensures r <= |es|
    ensures limit > 0 ==> r <= limit + 1
    ensures aliased ==> r <= FirstNonEmpty(es) + 1
  {
    var n := Reach(es, aliased);
    if limit > 0 && n > limit + 1 then limit + 1 else n
  }

  /** compare's loop stops either where the cursor ends or right after the limit. */
  lemma InspectCountIs(es: seq<Entry>, limit: int, aliased: bool, i: nat)
    requires i <= Reach(es, aliased)
    requires i == Reach(es, aliased) || (limit > 0 && i == limit + 1)
    requires limit > 0 ==> i <= limit + 1
    ensures i == InspectCount(es, limit, aliased)
  {
  }

  /** What one call of compare computes: its result and the counts behind percentFound. */
  datatype Comparison = Comparison(divergence: Score, found: nat, inspected: nat)

  /**
   * compare(p1, p2) from the word tables `w1` and `w2`; `aliased` says the
   * two are the same object.
   */
  function CompareSpec(s: Settings, w1: WordMap, w2: WordMap, aliased: bool, threshold: real): (c: Comparison)
    requires w1.Valid() && w2.Valid()
    ensures c.found <= c.inspected <= |w1.order|
    ensures s.limit > 0 ==> c.inspected <= s.limit + 1
    ensures c.divergence.MaxValue? <==> c.found == 0
  {
    var es := w1.Entries();
    var n := InspectCount(es, s.limit, aliased);
    var t := Tallied(Contributions(w1, w2, |w1.order|, s, threshold)[..n]);
    Comparison(if t.found == 0 then MaxValue else Value(t.divergence), t.found, n)
  }

  /**
   * compare gives the sentinel exactly when no inspected local word is
   * non-empty and matched, and otherwise the sum over the matched words.
   */
  lemma SentinelIffNothingMatched(s: Settings, w1: WordMap, w2: WordMap, aliased: bool, threshold: real)
    requires w1.Valid() && w2.Valid()
    ensures var c := CompareSpec(s, w1, w2, aliased, threshold);
            var es := w1.Entries();
            c.divergence.MaxValue? <==> forall k :: 0 <= k < c.inspected ==> !Matched(w2, es[k].key, s, threshold)
  {
    var n := InspectCount(w1.Entries(), s.limit, aliased);
    var cs := Contributions(w1, w2, |w1.order|, s, threshold);
    NoneFoundIff(cs[..n]);
    assert forall k :: 0 <= k < n ==> (cs[..n][k].None? <==> !Matched(w2, w1.Entries()[k].key, s, threshold)) by {
      forall k | 0 <= k < n
        ensures cs[..n][k].None? <==> !Matched(w2, w1.Entries()[k].key, s, threshold)
      {
        assert cs[..n][k] == Contribution(w1, w2, k, s, threshold);
      }
    }
  }

  /** The percent found that compare records: the ratio of matched to inspected words. */
  function PercentFound(c: Comparison): Ratio
  {
    Quotient(c.found, c.inspected)
  }

  /** A comparison that inspected no word records NaN, which never counts as valid. */
  lemma NothingInspectedIsNaN(c: Comparison, previous: Ratio, validPercent: real)
    requires c.inspected == 0
    ensures !Exceeds(MaxRatio(previous, PercentFound(c)), validPercent)
  {
  }

  // ---------------------------------------------------------------------
  // select: one pass over the remote predicates
  // ---------------------------------------------------------------------

  /** A remote predicate as a pass sees it: its table and whether it is the local predicate itself. */
  datatype Remote = Remote(words: WordMap, aliased: bool)

  ghost predicate AllValid(remotes: seq<Remote>)
  {
    forall k :: 0 <= k < |remotes| ==> remotes[k].words.Valid()
  }

  /** What compare computes against each remote, in list order. */
  function Comparisons(s: Settings, w1: WordMap, remotes: seq<Remote>, threshold: real): (cs: seq<Comparison>)
    requires w1.Valid() && AllValid(remotes)
    ensures |cs| == |remotes|
  {
    seq(|remotes|, k requires 0 <= k < |remotes| => CompareSpec(s, w1, remotes[k].words, remotes[k].aliased, threshold))
  }

  /** Comparing against one more remote appends one comparison. */
  lemma ComparisonsStep(s: Settings, w1: WordMap, remotes: seq<Remote>, k: nat, threshold: real)
    requires w1.Valid() && AllValid(remotes) && k < |remotes|
    ensures AllValid(remotes[..k]) && AllValid(remotes[..k + 1])
    ensures Comparisons(s, w1, remotes[..k + 1], threshold) ==
            Comparisons(s, w1, remotes[..k], threshold) + [CompareSpec(s, w1, remotes[k].words, remotes[k].aliased, threshold)]
  {
    var a := remotes[..k + 1];
    assert AllValid(remotes[..k]) && AllValid(a);
    var lhs := Comparisons(s, w1, a, threshold);
    var rhs := Comparisons(s, w1, remotes[..k], threshold) + [CompareSpec(s, w1, remotes[k].words, remotes[k].aliased, threshold)];
    forall i | 0 <= i < |lhs|
      ensures lhs[i] == rhs[i]
    {
      assert a[i] == remotes[i];
      if i < k {
        assert remotes[..k][i] == remotes[i];
      }
    }
  }

  /** Whether a comparison leaves percentFound (reset to 0 before it) above validPercent. */
  predicate Counts(c: Comparison, validPercent: real)
  {
    Exceeds(MaxRatio(Num(0.0), PercentFound(c)), validPercent)
  }

  /** The state a pass ends with; `best` indexes the remote list. */
  datatype PassState = PassState(validFound: nat, divergences: seq<real>, minDivergence: Score, best: Option<nat>)

  /**
   * One pass of select's inner loop over the comparisons `cs`, starting
   * with the counters reset and the best match `best0` of the previous pass.
   */
  function Pass(cs: seq<Comparison>, validPercent: real, best0: Option<nat>): (p: PassState)
    ensures p.validFound <= |cs| && |p.divergences| <= |cs|
    ensures p.minDivergence.MaxValue? ==> p.best == best0
    ensures p.minDivergence.Value? ==> p.best.Some? && p.best.value < |cs|
  {
    if cs == [] then PassState(0, [], MaxValue, best0)
    else
      var n := |cs| - 1;
      Absorb(Pass(cs[..n], validPercent, best0), cs[n], n, validPercent)
  }

  /**
   * The body of the inner loop for the n-th remote: count it if valid, keep
   * a non-sentinel divergence, and take it as best if strictly lower.
   */
  function Absorb(p: PassState, c: Comparison, n: nat, validPercent: real): (r: PassState)
    ensures p.validFound <= r.validFound <= p.validFound + 1
    ensures r.validFound == p.validFound + 1 <==> Counts(c, validPercent)
    ensures !Below(c.divergence, r.minDivergence) && !Below(p.minDivergence, r.minDivergence)
    ensures r.best == Some(n) || r.best == p.best
    ensures r.minDivergence != p.minDivergence ==> r.best == Some(n) && r.minDivergence == c.divergence
  {
    var better := Below(c.divergence, p.minDivergence);
    PassState(
      p.validFound + (if Counts(c, validPercent) then 1 else 0),
      p.divergences + (if c.divergence.Value? then [c.divergence.v] else []),
      if better then c.divergence else p.minDivergence,
      if better then Some(n) else p.best)
  }

  /** A pass over one more comparison absorbs it into the state so far. */
  lemma PassStep(cs: seq<Comparison>, c: Comparison, validPercent: real, best0: Option<nat>)
    ensures Pass(cs + [c], validPercent, best0) == Absorb(Pass(cs, validPercent, best0), c, |cs|, validPercent)
  {
    assert (cs + [c])[..|cs|] == cs;
  }

  /** The pass over the first k + 1 remotes absorbs compare against the k-th. */
  lemma PassOverRemotes(s: Settings, w1: WordMap, remotes: seq<Remote>, k: nat, threshold: real, best0: Option<nat>)
    requires w1.Valid() && AllValid(remotes) && k < |remotes|
    ensures AllValid(remotes[..k]) && AllValid(remotes[..k + 1])
    ensures Pass(Comparisons(s, w1, remotes[..k + 1], threshold), s.validPercent, best0) ==
            Absorb(Pass(Comparisons(s, w1, remotes[..k], threshold), s.validPercent, best0),
                   CompareSpec(s, w1, remotes[k].words, remotes[k].aliased, threshold), k, s.validPercent)
  {
    ComparisonsStep(s, w1, remotes, k, threshold);
    PassStep(Comparisons(s, w1, remotes[..k], threshold), CompareSpec(s, w1, remotes[k].words, remotes[k].aliased, threshold),
             s.validPercent, best0);
  }

  /** A pass ends with the sentinel exactly when every divergence is the sentinel. */
  lemma {:induction false} PassSentinelIff(cs: seq<Comparison>, validPercent: real, best0: Option<nat>)
    ensures Pass(cs, validPercent, best0).minDivergence.MaxValue? <==>
            forall k :: 0 <= k < |cs| ==> cs[k].divergence.MaxValue?
  {
    if cs != [] {
      var n := |cs| - 1;
      PassSentinelIff(cs[..n], validPercent, best0);
      assert forall k :: 0 <= k < n ==> cs[..n][k] == cs[k];
    }
  }

  /** No divergence in a pass is below the pass's minimum. */
  lemma {:induction false} PassMinIsLowest(cs: seq<Comparison>, validPercent: real, best0: Option<nat>)
    ensures var m := Pass(cs, validPercent, best0).minDivergence;
            forall k :: 0 <= k < |cs| ==> !Below(cs[k].divergence, m)
  {
    if cs != [] {
      var n := |cs| - 1;
      PassMinIsLowest(cs[..n], validPercent, best0);
      assert forall k :: 0 <= k < n ==> cs[..n][k] == cs[k];
    }
  }

  /**
   * Within a pass the best match becomes the first remote whose divergence
   * is strictly the smallest (the Pass contract keeps the previous pass's
   * best when every divergence is the sentinel).
   */
  lemma {:induction false} PassBest(cs: seq<Comparison>, validPercent: real, best0: Option<nat>)
    ensures var p := Pass(cs, validPercent, best0);
            p.minDivergence.Value? ==>
              var b := p.best.value;
              cs[b].divergence == p.minDivergence
              && forall k :: 0 <= k < b ==> Below(p.minDivergence, cs[k].divergence)
  {
    if cs != [] {
      var n := |cs| - 1;
      PassBest(cs[..n], validPercent, best0);
      PassMinIsLowest(cs[..n], validPercent, best0);
      assert forall k :: 0 <= k < n ==> cs[..n][k] == cs[k];
    }
  }

  /** The non-sentinel divergences, in list order. */
  function Finite(cs: seq<Comparison>): seq<real>
  {
    if cs == [] then []
    else
      var d := cs[|cs| - 1].divergence;
      Finite(cs[..|cs| - 1]) + (if d.Value? then [d.v] else [])
  }

  /** The number of comparisons that count as valid. */
  function ValidCount(cs: seq<Comparison>, validPercent: real): nat
  {
    if cs == [] then 0
    else ValidCount(cs[..|cs| - 1], validPercent) + (if Counts(cs[|cs| - 1], validPercent) then 1 else 0)
  }

  /**
   * What a pass counts and collects does not depend on the best match it
   * starts from: the valid comparisons and the non-sentinel divergences.
   */
  lemma {:induction false} PassCollects(cs: seq<Comparison>, validPercent: real, best0: Option<nat>)
    ensures Pass(cs, validPercent, best0).validFound == ValidCount(cs, validPercent)
    ensures Pass(cs, validPercent, best0).divergences == Finite(cs)
  {
    if cs != [] {
      PassCollects(cs[..|cs| - 1], validPercent, best0);
    }
  }

  // ---------------------------------------------------------------------
  // select: the retry loop
  // ---------------------------------------------------------------------

  /** The variables of select's outer loop. */
  datatype Search = Search(threshold: real, step: real, validFound: int, divergences: seq<real>, minDivergence: Score, best: Option<nat>)

  /** select's set-up: counters at zero, no best, the step and threshold from the configuration. */
  function Start(thresholdStart: real, thresholdStep: real): (r: Search)
    ensures forall s: Settings :: Continues(s, r) <==> s.validRequired > 0 && thresholdStart > s.thresholdMin
    ensures r.best.None? && r.divergences == []
  {
    Search(thresholdStart, thresholdStep, 0, [], MaxValue, None)
  }

  /** The loop condition: too few valid candidates and the threshold still above the minimum. */
  predicate Continues(s: Settings, st: Search)
  {
    st.validFound < s.validRequired && st.threshold > s.thresholdMin
  }

  /** One pass, then `threshold -= step` and `step += 0.01 * ((validRequired - validFound) - 2)`. */
  function Next(s: Settings, w1: WordMap, remotes: seq<Remote>, st: Search): (r: Search)
    requires w1.Valid() && AllValid(remotes)
    ensures r.threshold == st.threshold - st.step
  {
    var p := Pass(Comparisons(s, w1, remotes, st.threshold), s.validPercent, st.best);
    Search(st.threshold - st.step,
           st.step + 0.01 * (((s.validRequired - p.validFound) - 2) as real),
           p.validFound, p.divergences, p.minDivergence, p.best)
  }

  /** The step shrinks exactly when the pass found at least validRequired - 1 valid candidates. */
  lemma StepShrinksIff(s: Settings, w1: WordMap, remotes: seq<Remote>, st: Search)
    requires w1.Valid() && AllValid(remotes)
    ensures Next(s, w1, remotes, st).step < st.step <==> Next(s, w1, remotes, st).validFound >= s.validRequired - 1
  {
  }

  /**
   * select's outer loop with at most `fuel` passes; None when the fuel runs
   * out while the loop condition still holds.
   */
  function Run(s: Settings, w1: WordMap, remotes: seq<Remote>, st: Search, fuel: nat): (r: Option<Search>)
    requires w1.Valid() && AllValid(remotes)
    ensures r.Some? ==> !Continues(s, r.value)
    ensures !Continues(s, st) ==> r == Some(st)
    decreases fuel
  {
    if !Continues(s, st) then Some(st)
    else if fuel == 0 then None
    else Run(s, w1, remotes, Next(s, w1, remotes, st), fuel - 1)
  }

  /**
   * A start threshold at or below the minimum skips the loop: no best is
   * found, so select answers with the blank predicate.
   */
  lemma StartBelowMinimum(s: Settings, w1: WordMap, remotes: seq<Remote>, thresholdStart: real, thresholdStep: real, fuel: nat)
    requires w1.Valid() && AllValid(remotes)
    requires thresholdStart <= s.thresholdMin
    ensures Run(s, w1, remotes, Start(thresholdStart, thresholdStep), fuel) == Some(Start(thresholdStart, thresholdStep))
    ensures Start(thresholdStart, thresholdStep).best.None?
  {
  }

  /**
   * The loop need not end: once the step is 0 and a pass finds exactly
   * validRequired - 2 valid candidates, the step stays 0, the threshold
   * stays put and every later pass repeats, so no amount of fuel suffices.
   */
  lemma {:induction false} StallNeverEnds(s: Settings, w1: WordMap, remotes: seq<Remote>, st: Search, fuel: nat)
    requires w1.Valid() && AllValid(remotes)
    requires Continues(s, st) && st.step == 0.0
    requires ValidCount(Comparisons(s, w1, remotes, st.threshold), s.validPercent) == s.validRequired - 2
    ensures Run(s, w1, remotes, st, fuel).None?
    decreases fuel
  {
    if fuel > 0 {
      var cs := Comparisons(s, w1, remotes, st.threshold);
      PassCollects(cs, s.validPercent, st.best);
      var p := Pass(cs, s.validPercent, st.best);
      assert p.validFound == s.validRequired - 2;
      var nx := Next(s, w1, remotes, st);
      assert nx.step == st.step + 0.01 * (((s.validRequired - p.validFound) - 2) as real);
      assert nx.threshold == st.threshold && nx.step == 0.0 && nx.validFound == p.validFound;
      assert Run(s, w1, remotes, st, fuel) == Run(s, w1, remotes, nx, fuel - 1);
      StallNeverEnds(s, w1, remotes, nx, fuel - 1);
    }
  }

  // ---------------------------------------------------------------------
  // isLeftOutlier
  // ---------------------------------------------------------------------

  function Sum(d: seq<real>): real
  {
    if d == [] then 0.0 else Sum(d[..|d| - 1]) + d[|d| - 1]
  }

  function MinOf(d: seq<real>): (m: real)
    requires d != []
    ensures m in d && forall k :: 0 <= k < |d| ==> m <= d[k]
  {
    if |d| == 1 then d[0]
    else
      var m := MinOf(d[..|d| - 1]);
      assert forall k :: 0 <= k < |d| - 1 ==> d[..|d| - 1][k] == d[k];
      if d[|d| - 1] < m then d[|d| - 1] else m
  }

  function Mean(d: seq<real>): real
    requires d != []
  {
    Sum(d) / |d| as real
  }

  function Square(x: real): real
  {
    x * x
  }

  /** Each value replaced by its squared deviation from the mean. */
  function SquaredDeviations(d: seq<real>): (r: seq<real>)
    requires d != []
    ensures |r| == |d|
  {
    seq(|d|, k requires 0 <= k < |d| => Square(d[k] - Mean(d)))
  }

  /** The population variance. */
  function Variance(d: seq<real>): real
    requires d != []
  {
    Sum(SquaredDeviations(d)) / |d| as real
  }

  /**
   * isLeftOutlier: the minimum lies more than one population standard
   * deviation below the mean. An empty list gives NaN averages, and every
   * comparison with NaN is false.
   */
  predicate LeftOutlier(d: seq<real>, sqrt: real -> real): (b: bool)
    ensures b ==> exists k :: 0 <= k < |d| && d[k] < Mean(d) - sqrt(Variance(d))
  {
    d != [] && MinOf(d) < Mean(d) - sqrt(Variance(d))
  }

  /** What Math.sqrt promises on non-negative arguments. */
  ghost predicate IsSquareRoot(sqrt: real -> real)
  {
    forall x :: x >= 0.0 ==> sqrt(x) >= 0.0 && sqrt(x) * sqrt(x) == x
  }

  lemma {:induction false} SumOfConstant(d: seq<real>, c: real)
    requires forall k :: 0 <= k < |d| ==> d[k] == c
    ensures Sum(d) == |d| as real * c
  {
    if d != [] {
      SumOfConstant(d[..|d| - 1], c);
    }
  }

  lemma SumOfFour(a: real, b: real, c: real, e: real)
    ensures Sum([a, b, c, e]) == a + b + c + e
  {
    var d := [a, b, c, e];
    assert [a][..0] == [];
    assert Sum([a]) == a;
    assert [a, b][..1] == [a];
    assert Sum([a, b]) == a + b;
    assert [a, b, c][..2] == [a, b];
    assert Sum([a, b, c]) == a + b + c;
    assert d[..3] == [a, b, c];
  }

  /** A one-element or all-equal list is never flagged. */
  lemma AllEqualIsNotOutlier(d: seq<real>, sqrt: real -> real)
    requires IsSquareRoot(sqrt)
    requires d != [] && forall k :: 0 <= k < |d| ==> d[k] == d[0]
    ensures !LeftOutlier(d, sqrt)
  {
    var c := d[0];
    SumOfConstant(d, c);
    var n := |d| as real;
    assert Mean(d) == c by {
      assert Sum(d) / n == (n * c) / n;
    }
    var sq := SquaredDeviations(d);
    SumOfConstant(sq, 0.0);
    assert Variance(d) == 0.0;
    var r := sqrt(0.0);
    assert r >= 0.0 && r * r == 0.0;
    if r > 0.0 {
      assert r * r > 0.0 * r;
    }
  }

  /** A clear low outlier is flagged. */
  lemma ClearOutlierFlagged(sqrt: real -> real)
    requires IsSquareRoot(sqrt)
    ensures LeftOutlier([0.9, 0.95, 1.0, 0.05], sqrt)
  {
    var d := [0.9, 0.95, 1.0, 0.05];
    SumOfFour(0.9, 0.95, 1.0, 0.05);
    assert Mean(d) == 0.725;
    var sq := SquaredDeviations(d);
    assert sq == [0.030625, 0.050625, 0.075625, 0.455625];
    SumOfFour(0.030625, 0.050625, 0.075625, 0.455625);
    assert Variance(d) == 0.153125;
    var r := sqrt(0.153125);
    assert r * r == 0.153125 && r >= 0.0;
    if r >= 0.675 {
      assert false;
    }
    assert MinOf(d) == 0.05;
  }

  /**
   * The rule also flags a nearly uniform list: the minimum 0.49 is below
   * 0.505 - 0.0112, so it gets confidence 1.0 although nothing stands out.
   */
  lemma NearlyUniformFlagged(sqrt: real -> real)
    requires IsSquareRoot(sqrt)
    ensures LeftOutlier([0.5, 0.52, 0.49, 0.51], sqrt)
  {
    var d := [0.5, 0.52, 0.49, 0.51];
    SumOfFour(0.5, 0.52, 0.49, 0.51);
    assert Mean(d) == 0.505;
    var sq := SquaredDeviations(d);
    assert sq == [0.000025, 0.000225, 0.000225, 0.000025];
    SumOfFour(0.000025, 0.000225, 0.000225, 0.000025);
    assert Variance(d) == 0.000125;
    var r := sqrt(0.000125);
    assert r * r == 0.000125 && r >= 0.0;
    if r >= 0.015 {
      assert false;
    }
    assert MinOf(d) == 0.49;
  }
}
