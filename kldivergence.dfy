/**
 * The matching engine: class KLDivergence with its configuration, the
 * cursor-driven compare and findSimilar, select with its adaptive
 * threshold, the in-place outlier test, and the batch select over a list of
 * local predicates. Each method is proved against the functions of
 * KLDivergenceSpec.
 */
module KLDivergenceEngine {
  import opened Wrappers
  import opened JavaStrings
  import opened Predicates
  import opened KLDivergenceSpec

  /** The remote predicates as a pass sees them, `aliased` marking the local predicate itself. */
  ghost function RemoteView(p1: Predicate, remotes: seq<Predicate>): (v: seq<Remote>)
    reads set r | r in remotes
    ensures |v| == |remotes|
    ensures forall k :: 0 <= k < |remotes| ==> v[k] == Remote(remotes[k].words, remotes[k] == p1)
    ensures (forall r :: r in remotes ==> r.Valid()) ==> AllValid(v)
    decreases |remotes|
  {
    if remotes == [] then []
    else
      var n := |remotes| - 1;
      RemoteView(p1, remotes[..n]) + [Remote(remotes[n].words, remotes[n] == p1)]
  }

  class KLDivergence {
    /** The maximum number of local words compare looks at (0 or less: all). */
    var limit: int
    var thresholdStart: real
    var validPercent: real
    var validRequired: int
    var thresholdStep: real
    var thresholdMin: real
    var currentThreshold: real
    /** The largest found / inspected ratio since select last reset it. */
    var percentFound: Ratio
    /** The string-similarity metric. */
    const metric: (JString, JString) -> real
    /** Math.log and Math.sqrt. */
    const log: real -> real
    const sqrt: real -> real

    ghost function Config(): Settings
      reads this`limit, this`validPercent, this`validRequired, this`thresholdMin
    {
      Settings(limit, validPercent, validRequired, thresholdMin, metric, log)
    }

    /** A new engine with the default configuration. */
    constructor(metric: (JString, JString) -> real, log: real -> real, sqrt: real -> real)
      ensures this.metric == metric && this.log == log && this.sqrt == sqrt
      ensures limit == 500 && thresholdStart == 0.9 && validPercent == 0.005 && validRequired == 5
      ensures thresholdStep == 0.02 && thresholdMin == 0.85
      ensures currentThreshold == 0.0 && percentFound == Num(0.0)
    {
      this.metric := metric;
      this.log := log;
      this.sqrt := sqrt;
      limit := 500;
      thresholdStart := 0.9;
      validPercent := 0.005;
      validRequired := 5;
      thresholdStep := 0.02;
      thresholdMin := 0.85;
      currentThreshold := 0.0;
      percentFound := Num(0.0);
    }

    method SetLimit(limit: int)
      modifies this`limit
      ensures this.limit == limit
    {
      this.limit := limit;
    }

    method SetStartingThreshold(thresholdStart: real)
      modifies this`thresholdStart
      ensures this.thresholdStart == thresholdStart
    {
      this.thresholdStart := thresholdStart;
    }

    /**
     * findSimilar(p, word): walks p's cursor from the start to the end and
     * returns the first entry of highest similarity to `word`, if that
     * similarity exceeds the current threshold.
     */
    method FindSimilar(p: Predicate, word: Entry) returns (m: Option<Entry>)
      requires p.Valid()
      modifies p`cursor, p`pos, p`hasCursor
      ensures p.Valid() && p.hasCursor && p.cursor == p.words.Entries() && p.pos == |p.cursor|
      ensures m == KLDivergenceSpec.FindSimilar(p.words.Entries(), word.key, metric, currentThreshold)
    {
      var key := word.key;
      ghost var es := p.words.Entries();
      var bestMatch: Option<Entry> := None;
      var bestValue := 0.0;
      ghost var bestIndex: Option<nat> := None;
      ghost var k := 0;
      var pair2 := p.GetStart();
      while pair2.Some?
        invariant p.Valid() && p.hasCursor && p.cursor == es
        invariant k <= |es|
        invariant pair2.Some? ==> k < |es| && pair2.value == es[k] && p.pos == k + 1
        invariant pair2.None? ==> k == |es| && p.pos == |es|
        invariant Best(bestValue, bestIndex) == ScanBest(es, k, key, metric)
        invariant bestIndex.None? ==> bestMatch.None?
        invariant bestIndex.Some? ==> bestIndex.value < k && bestMatch == Some(es[bestIndex.value])
        decreases |es| - k
      {
        bestValue, bestMatch, bestIndex := Weigh(es, key, pair2.value, k, bestValue, bestMatch, bestIndex);
        pair2 := p.GetNext();
        k := k + 1;
      }
      if bestValue > currentThreshold {
        m := bestMatch;
      } else {
        m := None;
      }
    }

    /** The body of findSimilar's loop: es[k] becomes the best match if it scores strictly higher. */
    method Weigh(ghost es: seq<Entry>, key: JString, entry: Entry, ghost k: nat,
                 bestValue: real, bestMatch: Option<Entry>, ghost bestIndex: Option<nat>)
      returns (bestValue': real, bestMatch': Option<Entry>, ghost bestIndex': Option<nat>)
      requires k < |es| && entry == es[k]
      requires Best(bestValue, bestIndex) == ScanBest(es, k, key, metric)
      requires bestIndex.None? ==> bestMatch.None?
      requires bestIndex.Some? ==> bestIndex.value < k && bestMatch == Some(es[bestIndex.value])
      ensures Best(bestValue', bestIndex') == ScanBest(es, k + 1, key, metric)
      ensures bestIndex'.None? ==> bestMatch'.None?
      ensures bestIndex'.Some? ==> bestIndex'.value < k + 1 && bestMatch' == Some(es[bestIndex'.value])
    {
      bestValue', bestMatch', bestIndex' := bestValue, bestMatch, bestIndex;
      var value := SimilarityOf(metric, key, entry.key);
      if value > bestValue {
        bestValue', bestMatch', bestIndex' := value, Some(entry), Some(k);
      }
    }

    /**
     * compare(p1, p2): the divergence of p1's word distribution from p2's,
     * summed over the local words that find a similar remote word; also
     * raises percentFound to the share of inspected words that matched.
     */
    method Compare(p1: Predicate, p2: Predicate) returns (divergence: Score)
      requires p1.Valid() && p2.Valid()
      modifies p1`cursor, p1`pos, p1`hasCursor, p2`cursor, p2`pos, p2`hasCursor, this`percentFound
      ensures p1.Valid() && p2.Valid()
      ensures Config() == old(Config()) && currentThreshold == old(currentThreshold)
      ensures p1.words == old(p1.words) && p2.words == old(p2.words)
      ensures var c := CompareSpec(Config(), p1.words, p2.words, p1 == p2, currentThreshold);
              divergence == c.divergence && percentFound == MaxRatio(old(percentFound), PercentFound(c))
    {
      var found, sum, i := Walk(p1, p2, p1.words, p2.words, Config(), currentThreshold);
      InspectCountIs(p1.words.Entries(), limit, p1 == p2, i);
      if found == 0 {
        divergence := MaxValue;
      } else {
        divergence := Value(sum);
      }
      ghost var c := CompareSpec(Config(), p1.words, p2.words, p1 == p2, currentThreshold);
      assert c == Comparison(divergence, found, i);
      percentFound := MaxRatio(percentFound, Quotient(found, i));
    }

    /**
     * compare's loop: walks p1's cursor, stopping after limit + 1 words when
     * the limit is positive, and tallies the matched words.
     */
    method Walk(p1: Predicate, p2: Predicate, ghost w1: WordMap, ghost w2: WordMap, ghost s: Settings, ghost threshold: real)
      returns (found: nat, sum: real, i: nat)
      requires p1.Valid() && p2.Valid() && w1 == p1.words && w2 == p2.words && s == Config() && threshold == currentThreshold
      modifies p1`cursor, p1`pos, p1`hasCursor, p2`cursor, p2`pos, p2`hasCursor
      ensures p1.Valid() && p2.Valid() && w1.Valid() && w2.Valid()
      ensures i <= Reach(w1.Entries(), p1 == p2)
      ensures i == Reach(w1.Entries(), p1 == p2) || (s.limit > 0 && i == s.limit + 1)
      ensures s.limit > 0 ==> i <= s.limit + 1
      ensures Tally(found, sum) == Tallied(Contributions(w1, w2, |w1.order|, s, threshold)[..i])
    {
      ghost var es := w1.Entries();
      ghost var aliased := p1 == p2;
      ghost var reach := Reach(es, aliased);
      ghost var all := Contributions(w1, w2, |w1.order|, s, threshold);
      found, sum, i := 0, 0.0, 0;
      var p1Word := p1.GetStart();
      while p1Word.Some?
        invariant p1.words == w1 && p2.words == w2
        invariant p1.Valid() && p2.Valid() && p1.hasCursor && p1.cursor == es
        invariant i <= reach
        invariant p1Word.Some? ==> i < reach && p1Word.value == es[i] && p1.pos == i + 1
        invariant p1Word.None? ==> i == reach
        invariant s.limit > 0 ==> i <= s.limit + 1
        invariant Tally(found, sum) == Tallied(all[..i])
        decreases reach - i + (if p1Word.Some? then 1 else 0)
      {
        if limit > 0 && i > limit {
          break;
        }
        found, sum, p1Word := Round(p1, p2, p1Word.value, w1, w2, s, threshold, aliased, es, all, i, found, sum);
        i := i + 1;
      }
    }

    /** One round of compare's loop: Visit, then the getNext() of Advance. */
    method Round(p1: Predicate, p2: Predicate, p1Word: Entry, ghost w1: WordMap, ghost w2: WordMap, ghost s: Settings,
                 ghost threshold: real, ghost aliased: bool, ghost es: seq<Entry>, ghost all: seq<Option<real>>, ghost i: nat,
                 found: nat, sum: real)
      returns (found': nat, sum': real, next: Option<Entry>)
      requires p1.Valid() && p2.Valid() && w1.Valid() && w2.Valid() && p1.hasCursor
      requires w1 == p1.words && w2 == p2.words && s == Config() && threshold == currentThreshold
      requires es == p1.cursor == w1.Entries() && aliased == (p1 == p2) && i < Reach(es, aliased)
      requires p1Word == es[i] && p1.pos == i + 1
      requires all == Contributions(w1, w2, |w1.order|, s, threshold)
      requires Tally(found, sum) == Tallied(all[..i])
      modifies p1`pos, p2`cursor, p2`pos, p2`hasCursor
      ensures p1.Valid() && p2.Valid() && p1.hasCursor && p1.cursor == es
      ensures Tally(found', sum') == Tallied(all[..i + 1])
      ensures next.Some? ==> i + 1 < Reach(es, aliased) && next.value == es[i + 1] && p1.pos == i + 2
      ensures next.None? ==> i + 1 == Reach(es, aliased)
    {
      var c := Visit(p1, p2, p1Word, w1, w2, s, threshold, i);
      found', sum' := Accumulate(w1, w2, s, threshold, all, i, c, found, sum);
      next := Advance(p1, aliased, es, i);
    }

    /** The bookkeeping of compare's loop: a matched word counts and adds its term. */
    static method Accumulate(ghost w1: WordMap, ghost w2: WordMap, ghost s: Settings, ghost threshold: real,
                             ghost all: seq<Option<real>>, ghost i: nat, c: Option<real>, found: nat, sum: real)
      returns (found': nat, sum': real)
      requires w1.Valid() && w2.Valid() && i < |w1.order|
      requires all == Contributions(w1, w2, |w1.order|, s, threshold) && c == Contribution(w1, w2, i, s, threshold)
      requires Tally(found, sum) == Tallied(all[..i])
      ensures Tally(found', sum') == Tallied(all[..i + 1])
    {
      TallyOnward(w1, w2, s, threshold, i);
      if c.Some? {
        found', sum' := found + 1, sum + c.value;
      } else {
        found', sum' := found, sum;
      }
    }

    /**
     * The body of compare's loop for the local word w1's i-th entry: an
     * empty word is skipped; otherwise findSimilar looks for it in p2 and a
     * match contributes its term to the sum.
     */
    method Visit(p1: Predicate, p2: Predicate, p1Word: Entry, ghost w1: WordMap, ghost w2: WordMap,
                 ghost s: Settings, ghost threshold: real, ghost i: nat)
      returns (c: Option<real>)
      requires p1.Valid() && p2.Valid() && w1.Valid() && w2.Valid() && p1.hasCursor && p1.cursor == w1.Entries()
      requires w1 == p1.words && w2 == p2.words && s == Config() && threshold == currentThreshold
      requires i < |w1.order| && p1Word == w1.Entries()[i] && p1.pos == i + 1
      modifies p2`cursor, p2`pos, p2`hasCursor
      ensures p1.Valid() && p2.Valid() && p1.hasCursor && p1.cursor == w1.Entries()
      ensures c == Contribution(w1, w2, i, s, threshold)
      ensures p1Word.key != [] && p1 == p2 ==> p1.pos == |w1.order|
      ensures p1Word.key == [] || p1 != p2 ==> p1.pos == i + 1
    {
      var key := p1Word.key;
      if key == [] {
        return None;
      }
      var p2Word := FindSimilar(p2, p1Word);
      if p2Word.None? {
        return None;
      }
      KeyOfEntry(w1, i);
      KeyInTable(w2, p2Word.value);
      var term := TermOf(p1, p2, key, p2Word.value.key);
      c := Some(term);
    }

    /** The term of a matched pair: prob1 * log(prob1 / prob2), a zero prob2 smoothed. */
    method TermOf(p1: Predicate, p2: Predicate, key1: JString, key2: JString) returns (term: real)
      requires p1.Valid() && p2.Valid() && p1.words.Size() > 0 && p2.words.Size() > 0
      ensures term == Term(p1.words, p2.words, key1, key2, log)
    {
      DistinctCardinality(p1.words);
      DistinctCardinality(p2.words);
      var prob1 := p1.GetProbability(key1);
      var prob2 := p2.GetProbability(key2);
      if prob2 == 0.0 {
        prob2 := Smooth;
      }
      term := KLTerm(prob1, prob2, log);
    }

    /**
     * The getNext() that ends each round of compare's loop. When p1 and p2
     * are one object and the word was non-empty, findSimilar has already run
     * the shared cursor to its end, so this returns None.
     */
    method Advance(p1: Predicate, ghost aliased: bool, ghost es: seq<Entry>, ghost i: nat) returns (next: Option<Entry>)
      requires p1.Valid() && p1.hasCursor && es == p1.cursor == p1.words.Entries()
      requires i < Reach(es, aliased)
      requires es[i].key != [] && aliased ==> p1.pos == |es|
      requires es[i].key == [] || !aliased ==> p1.pos == i + 1
      modifies p1`pos
      ensures p1.Valid() && p1.hasCursor && p1.cursor == es
      ensures next.Some? ==> i + 1 < Reach(es, aliased) && next.value == es[i + 1] && p1.pos == i + 2
      ensures next.None? ==> i + 1 == Reach(es, aliased)
    {
      if es[i].key != [] && aliased {
        ReachEndsAtFirstWord(es, i);
      } else {
        ReachGoesOn(es, aliased, i);
      }
      next := p1.GetNext();
    }

    /**
     * select(locals, remotes): matches each local predicate in turn, frees
     * its words once matched, and maps it to its match (a later duplicate
     * of a local replaces the earlier mapping). None when some select runs
     * out of fuel.
     */
    method SelectAll(locals: seq<Predicate>, remotes: seq<Predicate>, fuel: nat) returns (r: Option<map<Predicate, Predicate>>)
      requires forall k :: 0 <= k < |locals| ==> locals[k].Valid()
      requires forall k :: 0 <= k < |remotes| ==> remotes[k].Valid()
      modifies this`currentThreshold, this`percentFound
      modifies (set p | p in locals)`cursor, (set p | p in locals)`pos, (set p | p in locals)`hasCursor
      modifies (set p | p in locals)`words
      modifies (set p | p in remotes)`cursor, (set p | p in remotes)`pos, (set p | p in remotes)`hasCursor
      modifies (set p | p in remotes)`confidence
      ensures r.Some? ==> forall p :: p in r.value <==> p in locals
      ensures r.Some? ==> forall p :: p in locals ==> p.words == Empty
      ensures r.Some? ==> forall p :: p in r.value ==> r.value[p] in remotes || (fresh(r.value[p]) && r.value[p].name == NullName)
    {
      var matches: map<Predicate, Predicate> := map[];
      for k := 0 to |locals|
        invariant forall j :: 0 <= j < |locals| ==> locals[j].Valid()
        invariant forall j :: 0 <= j < |remotes| ==> remotes[j].Valid()
        invariant forall p :: p in matches <==> p in locals[..k]
        invariant forall p :: p in locals[..k] ==> p.words == Empty
        invariant forall p :: p in matches ==> matches[p] in remotes || (fresh(matches[p]) && matches[p].name == NullName)
      {
        var m := Match(locals[k], locals, remotes, fuel, locals[..k]);
        if m.None? {
          return None;
        }
        assert locals[..k + 1] == locals[..k] + [locals[k]];
        matches := matches[locals[k] := m.value];
      }
      assert locals[..|locals|] == locals;
      r := Some(matches);
    }

    /** One round of the batch select: select for one local predicate, then free its words. */
    method Match(local: Predicate, ghost locals: seq<Predicate>, remotes: seq<Predicate>, fuel: nat, ghost freed: seq<Predicate>)
      returns (m: Option<Predicate>)
      requires local in locals
      requires forall k :: 0 <= k < |locals| ==> locals[k].Valid()
      requires forall k :: 0 <= k < |remotes| ==> remotes[k].Valid()
      requires forall p :: p in freed ==> p.words == Empty
      modifies this`currentThreshold, this`percentFound, local`cursor, local`pos, local`hasCursor, local`words
      modifies (set p | p in remotes)`cursor, (set p | p in remotes)`pos, (set p | p in remotes)`hasCursor
      modifies (set p | p in remotes)`confidence
      ensures forall k :: 0 <= k < |locals| ==> locals[k].Valid()
      ensures forall k :: 0 <= k < |remotes| ==> remotes[k].Valid()
      ensures m.Some? ==> forall p :: p in freed ==> p.words == Empty
      ensures m.Some? ==> local.words == Empty
      ensures m.Some? ==> m.value in remotes || (fresh(m.value) && m.value.name == NullName)
      ensures forall k :: 0 <= k < |remotes| && (m.None? || m.value != remotes[k]) ==>
                remotes[k].confidence == old(remotes[k].confidence)
    {
      m := Select(local, remotes, fuel);
      if m.Some? {
        local.Free();
      }
    }

    /** What select(p1, remotes) computes, `fuel` bounding the number of passes. */
    ghost function SelectSpec(p1: Predicate, remotes: seq<Predicate>, fuel: nat): Option<Search>
      requires p1.Valid() && forall r :: r in remotes ==> r.Valid()
      reads this, p1, set r | r in remotes
    {
      Run(Config(), p1.words, RemoteView(p1, remotes), Start(thresholdStart, thresholdStep), fuel)
    }

    /**
     * select(p1, remotes): lowers the similarity threshold pass after pass
     * until enough remotes count as valid or the threshold reaches its
     * minimum, then answers the best match of the last pass that found one,
     * its confidence set to 1.0 when its divergence is a left outlier and to
     * 0.0 otherwise, or a blank predicate when no pass found a match. None
     * when the passes would go on beyond `fuel`.
     */
    method Select(p1: Predicate, remotes: seq<Predicate>, fuel: nat) returns (r: Option<Predicate>)
      requires p1.Valid() && forall k :: 0 <= k < |remotes| ==> remotes[k].Valid()
      modifies this`currentThreshold, this`percentFound, p1`cursor, p1`pos, p1`hasCursor
      modifies (set r | r in remotes)`cursor, (set r | r in remotes)`pos, (set r | r in remotes)`hasCursor
      modifies (set r | r in remotes)`confidence
      ensures p1.Valid() && forall k :: 0 <= k < |remotes| ==> remotes[k].Valid()
      ensures var run := old(SelectSpec(p1, remotes, fuel));
              && (r.None? <==> run.None?)
              && (r.Some? ==> currentThreshold == run.value.threshold)
              && (r.Some? && run.value.best.None? ==>
                    fresh(r.value) && r.value.name == NullName && r.value.confidence == -1.0 && r.value.words == Empty)
              && (r.Some? && run.value.best.Some? ==>
                    run.value.best.value < |remotes| && r.value == remotes[run.value.best.value]
                    && r.value.confidence == if LeftOutlier(run.value.divergences, sqrt) then 1.0 else 0.0)
              && (forall k :: 0 <= k < |remotes| && !(r.Some? && run.value.best.Some? && remotes[k] == r.value) ==>
                    remotes[k].confidence == old(remotes[k].confidence))
    {
      var found, divergences, best := Passes(p1, remotes, RemoteView(p1, remotes), Config(), p1.words, fuel,
                                             SelectSpec(p1, remotes, fuel));
      if !found {
        return None;
      }
      var chosen := Conclude(remotes, divergences, best);
      r := Some(chosen);
    }

    /**
     * select's outer loop: passes at a falling threshold until enough
     * remotes count as valid or the threshold reaches its minimum; `found`
     * is false when that takes more than `fuel` passes. No confidence is
     * touched.
     */
    method Passes(p1: Predicate, remotes: seq<Predicate>, ghost rv: seq<Remote>, ghost s: Settings, ghost w1: WordMap,
                  fuel: nat, ghost goal: Option<Search>)
      returns (found: bool, divergences: seq<real>, best: Option<nat>)
      requires s == Config() && w1 == p1.words
      requires p1.Valid() && forall k :: 0 <= k < |remotes| ==> remotes[k].Valid()
      requires |rv| == |remotes| && forall k :: 0 <= k < |remotes| ==> rv[k] == Remote(remotes[k].words, remotes[k] == p1)
      requires AllValid(rv) && goal == Run(s, w1, rv, Start(thresholdStart, thresholdStep), fuel)
      modifies this`currentThreshold, this`percentFound, p1`cursor, p1`pos, p1`hasCursor
      modifies (set r | r in remotes)`cursor, (set r | r in remotes)`pos, (set r | r in remotes)`hasCursor
      ensures p1.Valid() && forall k :: 0 <= k < |remotes| ==> remotes[k].Valid()
      ensures best.None? || best.value < |remotes|
      ensures found <==> goal.Some?
      ensures found ==> currentThreshold == goal.value.threshold && divergences == goal.value.divergences
                        && best == goal.value.best
    {
      currentThreshold := thresholdStart;
      var step := thresholdStep;
      var validFound: int, divs: seq<real>, minDivergence: Score, chosen: Option<nat> := 0, [], MaxValue, None;
      var left := fuel;
      while validFound < validRequired && currentThreshold > thresholdMin
        invariant Config() == s && p1.words == w1
        invariant p1.Valid() && forall k :: 0 <= k < |remotes| ==> remotes[k].Valid()
        invariant forall k :: 0 <= k < |remotes| ==> rv[k] == Remote(remotes[k].words, remotes[k] == p1)
        invariant chosen.None? || chosen.value < |remotes|
        invariant Run(s, w1, rv, Search(currentThreshold, step, validFound, divs, minDivergence, chosen), left) == goal
        decreases left
      {
        if left == 0 {
          return false, divs, chosen;
        }
        ghost var st := Search(currentThreshold, step, validFound, divs, minDivergence, chosen);
        step, validFound, divs, minDivergence, chosen := Retry(p1, remotes, rv, s, w1, st, step, chosen);
        left := left - 1;
      }
      assert goal == Some(Search(currentThreshold, step, validFound, divs, minDivergence, chosen));
      found, divergences, best := true, divs, chosen;
    }

    /**
     * One round of select's outer loop: a pass at the current threshold,
     * then the threshold lowered by the step and the step adjusted.
     */
    method Retry(p1: Predicate, remotes: seq<Predicate>, ghost rv: seq<Remote>, ghost s: Settings, ghost w1: WordMap,
                 ghost st: Search, step: real, best: Option<nat>)
      returns (step': real, validFound: int, divergences: seq<real>, minDivergence: Score, best': Option<nat>)
      requires s == Config() && w1 == p1.words && st.threshold == currentThreshold && st.step == step && st.best == best
      requires p1.Valid() && forall k :: 0 <= k < |remotes| ==> remotes[k].Valid()
      requires |rv| == |remotes| && forall k :: 0 <= k < |remotes| ==> rv[k] == Remote(remotes[k].words, remotes[k] == p1)
      requires best.None? || best.value < |remotes|
      modifies this`currentThreshold, this`percentFound, p1`cursor, p1`pos, p1`hasCursor
      modifies (set r | r in remotes)`cursor, (set r | r in remotes)`pos, (set r | r in remotes)`hasCursor
      ensures Config() == s && p1.words == w1 && AllValid(rv) && w1.Valid()
      ensures p1.Valid() && forall k :: 0 <= k < |remotes| ==> remotes[k].Valid()
      ensures forall k :: 0 <= k < |remotes| ==> rv[k] == Remote(remotes[k].words, remotes[k] == p1)
      ensures best'.None? || best'.value < |remotes|
      ensures Search(currentThreshold, step', validFound, divergences, minDivergence, best') == Next(s, w1, rv, st)
    {
      var found;
      found, divergences, minDivergence, best' := RunPass(p1, remotes, rv, s, currentThreshold, best);
      currentThreshold := currentThreshold - step;
      step' := step + 0.01 * (((validRequired - found) - 2) as real);
      validFound := found;
    }

    /**
     * The end of select: a blank predicate when no best was found, otherwise
     * the best remote with confidence 1.0 if its divergence is a left outlier
     * among the last pass's divergences and 0.0 if not.
     */
    method Conclude(remotes: seq<Predicate>, divergences: seq<real>, best: Option<nat>) returns (r: Predicate)
      requires forall k :: 0 <= k < |remotes| ==> remotes[k].Valid()
      requires best.None? || best.value < |remotes|
      modifies (set r | r in remotes)`confidence
      ensures forall k :: 0 <= k < |remotes| ==> remotes[k].Valid()
      ensures best.None? ==> fresh(r) && r.name == NullName && r.confidence == -1.0 && r.words == Empty
      ensures best.Some? ==> r == remotes[best.value] && r.confidence == if LeftOutlier(divergences, sqrt) then 1.0 else 0.0
      ensures forall k :: 0 <= k < |remotes| && (best.None? || remotes[k] != r) ==>
                remotes[k].confidence == old(remotes[k].confidence)
    {
      if best.None? {
        r := new Predicate.Null();
        return;
      }
      var a := new real[|divergences|](k requires 0 <= k < |divergences| => divergences[k]);
      assert a[..] == divergences;
      var outlier := IsLeftOutlier(a);
      r := remotes[best.value];
      if outlier {
        r.SetConfidence(1.0);
      } else {
        r.SetConfidence(0.0);
      }
    }

    /**
     * One pass of select's inner loop: compares p1 with every remote
     * predicate in turn (percentFound reset to 0 before each), counting the
     * valid ones, collecting the non-sentinel divergences and moving the
     * best match to the first strictly lowest divergence.
     */
    method RunPass(p1: Predicate, remotes: seq<Predicate>, ghost rv: seq<Remote>, ghost s: Settings, ghost threshold: real,
                   best0: Option<nat>)
      returns (validFound: nat, divergences: seq<real>, minDivergence: Score, best: Option<nat>)
      requires s == Config() && threshold == currentThreshold
      requires p1.Valid() && forall k :: 0 <= k < |remotes| ==> remotes[k].Valid()
      requires |rv| == |remotes| && forall k :: 0 <= k < |remotes| ==> rv[k] == Remote(remotes[k].words, remotes[k] == p1)
      modifies p1`cursor, p1`pos, p1`hasCursor, this`percentFound
      modifies (set r | r in remotes)`cursor, (set r | r in remotes)`pos, (set r | r in remotes)`hasCursor
      ensures p1.Valid() && forall k :: 0 <= k < |remotes| ==> remotes[k].Valid()
      ensures Config() == s && currentThreshold == threshold && p1.words == old(p1.words)
      ensures forall k :: 0 <= k < |remotes| ==> remotes[k].words == rv[k].words
      ensures AllValid(rv) && old(p1.words).Valid()
      ensures PassState(validFound, divergences, minDivergence, best) ==
              Pass(Comparisons(s, old(p1.words), rv, threshold), s.validPercent, best0)
    {
      ghost var w1 := p1.words;
      validFound, divergences, minDivergence, best := 0, [], MaxValue, best0;
      for k := 0 to |remotes|
        invariant p1.Valid() && forall j :: 0 <= j < |remotes| ==> remotes[j].Valid()
        invariant AllValid(rv)
        invariant PassState(validFound, divergences, minDivergence, best) ==
                  Pass(Comparisons(s, w1, rv[..k], threshold), s.validPercent, best0)
      {
        validFound, divergences, minDivergence, best :=
          Consider(p1, remotes[k], s, threshold, rv, k, best0, validFound, divergences, minDivergence, best);
      }
      assert rv[..|remotes|] == rv;
    }

    /** One round of the inner loop: compare with the k-th remote and absorb the result. */
    method Consider(p1: Predicate, remote: Predicate, ghost s: Settings, ghost threshold: real, ghost rv: seq<Remote>,
                    k: nat, ghost best0: Option<nat>,
                    validFound: nat, divergences: seq<real>, minDivergence: Score, best: Option<nat>)
      returns (validFound': nat, divergences': seq<real>, minDivergence': Score, best': Option<nat>)
      requires s == Config() && threshold == currentThreshold
      requires p1.Valid() && remote.Valid() && AllValid(rv)
      requires k < |rv| && rv[k] == Remote(remote.words, remote == p1)
      requires PassState(validFound, divergences, minDivergence, best) ==
               Pass(Comparisons(s, p1.words, rv[..k], threshold), s.validPercent, best0)
      modifies p1`cursor, p1`pos, p1`hasCursor, remote`cursor, remote`pos, remote`hasCursor, this`percentFound
      ensures p1.Valid() && remote.Valid()
      ensures PassState(validFound', divergences', minDivergence', best') ==
              Pass(Comparisons(s, p1.words, rv[..k + 1], threshold), s.validPercent, best0)
    {
      ghost var w1 := p1.words;
      PassOverRemotes(s, w1, rv, k, threshold, best0);
      ghost var c := CompareSpec(s, w1, rv[k].words, rv[k].aliased, threshold);
      percentFound := Num(0.0);
      var divergence := Compare(p1, remote);
      assert Config() == s && p1.words == w1 && remote.words == rv[k].words && currentThreshold == threshold;
      validFound', divergences', minDivergence', best' := Absorbing(c, divergence, percentFound, k, validFound, divergences, minDivergence, best);
    }

    /** The bookkeeping after compare: count a valid remote, keep a finite divergence, move the best. */
    method Absorbing(ghost c: Comparison, divergence: Score, percentFound: Ratio, k: nat,
                     validFound: nat, divergences: seq<real>, minDivergence: Score, best: Option<nat>)
      returns (validFound': nat, divergences': seq<real>, minDivergence': Score, best': Option<nat>)
      requires divergence == c.divergence && percentFound == MaxRatio(Num(0.0), PercentFound(c))
      ensures PassState(validFound', divergences', minDivergence', best') ==
              Absorb(PassState(validFound, divergences, minDivergence, best), c, k, validPercent)
    {
      validFound', divergences', minDivergence', best' := validFound, divergences, minDivergence, best;
      if percentFound.Num? && percentFound.value > validPercent {
        validFound' := validFound + 1;
      }
      if Below(divergence, MaxValue) {
        divergences' := divergences + [divergence.v];
      }
      if Below(divergence, minDivergence) {
        minDivergence' := divergence;
        best' := Some(k);
      }
    }

    /**
     * isLeftOutlier(divergences): whether the smallest value lies more than
     * one standard deviation below the mean. Like the Java list, the array
     * is overwritten with the squared deviations on the way.
     */
    method IsLeftOutlier(a: array<real>) returns (r: bool)
      modifies a
      ensures r == LeftOutlier(old(a[..]), sqrt)
      ensures a.Length > 0 ==> a[..] == SquaredDeviations(old(a[..]))
      ensures a.Length == 0 ==> a[..] == old(a[..])
    {
      ghost var d := a[..];
      var totalDivergence, minDivergence := Totals(a);
      if a.Length == 0 {
        // the average is 0.0 / 0, NaN, and every comparison with NaN is false
        return false;
      }
      var n := a.Length as real;
      var averageDivergence := totalDivergence / n;
      Deviate(a, averageDivergence);
      SquareEach(a);
      assert a[..] == SquaredDeviations(d);
      var squaredAverage := AddUp(a);
      squaredAverage := squaredAverage / n;
      var stddev := sqrt(squaredAverage);
      r := minDivergence.v < averageDivergence - stddev;
    }

    /** isLeftOutlier's first loop: the total and Math.min from Double.MAX_VALUE down. */
    static method Totals(a: array<real>) returns (total: real, min: Score)
      ensures total == Sum(a[..])
      ensures a.Length == 0 ==> min == MaxValue
      ensures a.Length > 0 ==> min == Value(MinOf(a[..]))
    {
      total, min := 0.0, MaxValue;
      for i := 0 to a.Length
        invariant total == Sum(a[..i])
        invariant i == 0 ==> min == MaxValue
        invariant i > 0 ==> min == Value(MinOf(a[..i]))
      {
        assert a[..i + 1][..i] == a[..i];
        total := total + a[i];
        if min.MaxValue? || a[i] < min.v {
          min := Value(a[i]);
        }
      }
      assert a[..a.Length] == a[..];
    }

    /** The "difference from mean" loop. */
    static method Deviate(a: array<real>, mean: real)
      modifies a
      ensures forall k :: 0 <= k < a.Length ==> a[k] == old(a[k]) - mean
    {
      for i := 0 to a.Length
        invariant forall k :: 0 <= k < i ==> a[k] == old(a[k]) - mean
        invariant forall k :: i <= k < a.Length ==> a[k] == old(a[k])
      {
        a[i] := a[i] - mean;
      }
    }

    /** The "square each" loop, Math.pow(x, 2) being x * x. */
    static method SquareEach(a: array<real>)
      modifies a
      ensures forall k :: 0 <= k < a.Length ==> a[k] == Square(old(a[k]))
    {
      for i := 0 to a.Length
        invariant forall k :: 0 <= k < i ==> a[k] == Square(old(a[k]))
        invariant forall k :: i <= k < a.Length ==> a[k] == old(a[k])
      {
        a[i] := Square(a[i]);
      }
    }

    /** The loop that adds up the squared deviations. */
    static method AddUp(a: array<real>) returns (total: real)
      ensures total == Sum(a[..])
    {
      total := 0.0;
      for i := 0 to a.Length
        invariant total == Sum(a[..i])
      {
        assert a[..i + 1][..i] == a[..i];
        total := total + a[i];
      }
      assert a[..a.Length] == a[..];
    }
  }
}
