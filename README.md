# PredicateMapping in Dafny

PredicateMapping matches the predicates (attributes) of a local database to
those of a remote database. It does this by comparing the text of their
values. A predicate is the table of how often each line of its file occurs.
The engine (class `KLDivergence`) works on a local predicate as follows:

- For each local word, `findSimilar` looks for the most similar remote word
  under a string-similarity metric (the project uses bigram Dice). `compare` then sums a
  Kullback-Leibler style term `prob1 * log(prob1 / prob2)` over the words that
  found a match.
- `select` compares the local predicate with every remote one, pass after
  pass. With each pass it lowers a similarity threshold by an adaptive step,
  until enough remotes share a sufficient percentage of words.
- The remote with the lowest divergence wins. It gets confidence 1.0 when its
  divergence is a left outlier among the pass's divergences, and 0.0
  otherwise.
- A blank `.NULL` predicate is returned when nothing ever matched.

`Results` is a score table with running bounds, min-max normalisation and a
sorted tab-separated rendering. `ValueComparator` orders that table by score.

The project has one module per source class, plus two supporting modules:

- `JavaStrings`: the parts of `java.lang.String` the code relies on, over
  16-bit code units.
- `KLDivergenceSpec`: the engine's computations as functions of the word
  tables.

The stateful parts are imperative Dafny, each method proved against a
specification function:

- `Predicates.Predicate`: word table, iteration cursor, the counting loop and
  `stripConstants`.
- `KLDivergenceEngine.KLDivergence`: the cursor-driven `compare` and
  `findSimilar`, `select`'s two nested loops, and the in-place
  `isLeftOutlier`.
- `ResultTables.Results`.
- The array kernel of `Dice.Compare`.

Lemmas state what the source promises, and also where it falls short of
that.

Modelling choices:

- **String similarity.** `StringCompare` is a function value
  `(JString, JString) -> real`. The doc-comment range contract is the
  predicate `StringCompare.IsSimilarityMetric`, and `Dice.DiceIsSimilarityMetric`
  proves that Dice's content function meets it.
- **Math functions.** `Math.log` and `Math.sqrt` are function values given
  to the engine's constructor. `Math.sqrt` is constrained by
  `IsSquareRoot` only where a lemma needs it.
- **Double sentinels.**
  - `Double.MAX_VALUE` as compare's "nothing matched" result is the
    constructor `Score.MaxValue`, ranked above every real.
  - The NaN that `found / i` gives when no word was inspected is
    `Ratio.NaN`. On it, `Math.max` yields NaN and every `>` is false.
- **Object identity.**
  - Identity is Dafny reference equality. `compare(p, p)` shares one cursor
    (the `aliased` flag of the specification).
  - Results keys are `Predicate` references.
  - Dice's `str1 == str2` shortcut is an explicit `sameObject` argument of
    `Dice.Compare`. The engine's metric sees only string contents.
- **Java `int`.** Dice packs bigrams in 32-bit two's-complement arithmetic,
  written out with `Wrap32`. `ShiftDropsFirstChar` proves the truncation
  `((a << 16) | b) << 16 == b << 16` that the construction loop relies on.
- **Iteration orders.**
  - The order of a `TreeMap<String, _>` is `LexLess` (code-unit
    `compareTo`).
  - A `HashMap`'s order is some order with each key once, chosen
    nondeterministically (`HashOrder`, `SortedView`).
- **Unbounded retry loop.** `select`'s retry loop has no termination
  argument (`StallNeverEnds`). `Select` and `SelectAll` therefore take a
  `fuel` bound and return `None` when the Java loop would still be running.

## Model

| member | source | states |
|---|---|---|
| JavaStrings.LastIndexOf | src/driver/Predicate.java:107 | the result is -1 or an index holding the character, and no later index holds it |
| JavaStrings.SuffixAfterLast | src/driver/Predicate.java:107 | `substring(lastIndexOf(c) + 1)` is a suffix of the string that contains no `c` and is either the whole string or preceded by `c` |
| JavaStrings.Tokens | src/driver/Predicate.java:172 | whitespace tokenising yields only non-empty tokens |
| JavaStrings.RemoveAll | src/driver/Predicate.java:221 | `replace(t, "")` never lengthens the key |
| JavaStrings.InsertSorted | src/driver/Predicate.java:70 | inserting a new key into a TreeMap key sequence keeps it strictly increasing and adds exactly that key |
| Predicates.ProbabilitySum | src/driver/Predicate.java:124-139 | the probabilities of a table add up to (lines read) / (distinct words), not to 1 |
| Predicates.RepeatedWordOutOfRange | src/driver/Predicate.java:128-131 | a word read twice into a one-word table has probability 2.0, outside the documented [0, 1] |
| Predicates.CountsSumToLines | src/driver/Predicate.java:61-67 | after counting, the counts sum to the number of lines read |
| Predicates.SortedKeys | src/driver/Predicate.java:70 | the TreeMap copy iterates its keys in strictly increasing order, each key once |
| Predicates.HashOrder | src/driver/Predicate.java:214-227 | the rebuilt HashMap iterates each of its keys exactly once, in no particular order |
| Predicates.Scan | src/driver/Predicate.java:163-196 | the first loop counts the multi-token lines, leaves `toRemove` null exactly when there is none, and gives each candidate a count between 1 and that number |
| Predicates.ScanCandidates | src/driver/Predicate.java:176-184 | the removal candidates are the tokens of the first multi-token key |
| Predicates.Frequent | src/driver/Predicate.java:203-209 | the tokens kept for removal are all candidates |
| Predicates.NothingFrequent | src/driver/Predicate.java:203-209 | when no counter exceeds `count * constantValue`, nothing is removed |
| Predicates.NoTokenRemoved | src/driver/Predicate.java:31-205 | since no counter exceeds the number of multi-token lines, a constant value of at least 1 (the default 1.0) removes no token at all |
| Predicates.Rebuild | src/driver/Predicate.java:214-224 | the rebuilt table has exactly the copied keys with the removed tokens deleted |
| Predicates.RebuildLastWriterWins | src/driver/Predicate.java:216-224 | keys that collide after deletion keep the count of the last one copied, so counts are overwritten, not added |
| Predicates.RebuildCopies | src/driver/Predicate.java:214-224 | with nothing removed, the rebuild copies exactly the entries of the keys it visits |
| Predicates.CopyAllButLast | src/driver/Predicate.java:216-224 | copying all but the last key in iteration order gives the table without that entry |
| Predicates.StripResult | src/driver/Predicate.java:160-229 | stripConstants never grows the table, always shrinks it when some key has several tokens, and keeps every count positive |
| Predicates.StripDropsLastEntry | src/driver/Predicate.java:216 | the rebuild loop fetches an entry before testing `hasNext`, so with the default constant value a table with a multi-token key loses exactly its last entry |
| Predicates.StripWithoutMultiTokenKeys | src/driver/Predicate.java:172-200 | when no key splits into more than one token, stripConstants leaves the table as it is |
| Predicates.Predicate.Null | src/driver/Predicate.java:34-36 | the blank predicate is named ".NULL", has confidence -1.0, an empty table and no cursor |
| Predicates.Predicate.FromFile | src/driver/Predicate.java:39-48 | names the predicate after the file; an unreadable file leaves the table empty, and otherwise each line's count is its number of occurrences and the cursor is at the sorted start |
| Predicates.Predicate.Read | src/driver/Predicate.java:52-72 | adds each line's occurrences to its count, turns the table into a sorted one and restarts the iterator over its entries |
| Predicates.Predicate.CountLines | src/driver/Predicate.java:61-67 | every line read adds one to its count, a new line starting at 1, and all counts stay at least 1 |
| Predicates.Predicate.GetStart | src/driver/Predicate.java:75-78 | restarts the iterator over the current entries and returns the first, or none for an empty table |
| Predicates.Predicate.GetNext | src/driver/Predicate.java:81-86 | returns the next entry and advances, or returns none once every entry has been returned |
| Predicates.Predicate.GetShortName | src/driver/Predicate.java:106-108 | the short name is a suffix of the name without '.', the whole name when it has no '.' |
| Predicates.Predicate.GetCount | src/driver/Predicate.java:117-122 | the count is non-negative and zero exactly for words not in the table |
| Predicates.Predicate.Size | src/driver/Predicate.java:137-139 | the size is the number of distinct words, one per entry the iterator visits |
| Predicates.Predicate.GetProbability | src/driver/Predicate.java:130-132 | the probability is non-negative, zero exactly for absent words, and times the number of distinct words gives the count |
| Predicates.Predicate.SetConfidence | src/driver/Predicate.java:142-144 | stores the confidence and changes nothing else |
| Predicates.Predicate.SetConstantValue | src/driver/Predicate.java:231-233 | stores the constant value and changes nothing else |
| Predicates.Predicate.Free | src/driver/Predicate.java:152-154 | afterwards the size is 0 and every count is 0 |
| Predicates.Predicate.StripConstants | src/driver/Predicate.java:160-229 | the new table is the rebuild of the old one, and it is unchanged when no key has several tokens |
| Predicates.ScanConstants | src/driver/Predicate.java:163-196 | the first loop computes `toRemove`, `toRemoveCount` and `count` as the scan specifies |
| Predicates.CountShared | src/driver/Predicate.java:187-192 | each candidate contained in a later multi-token line gains one |
| Predicates.FrequentTokens | src/driver/Predicate.java:203-209 | keeps, in order, the candidates whose counter exceeds `count * constantValue` |
| Predicates.StripTokens | src/driver/Predicate.java:220-222 | deletes the removed tokens from a key one after the other |
| Predicates.RebuildTable | src/driver/Predicate.java:214-224 | the third loop builds the rebuilt table, and with positive counts all new counts stay positive |
| ResultTables.NormalizedInUnit | src/kldivergence/Results.java:42-46 | a score between distinct bounds normalises into [0, 1] |
| ResultTables.NormalizeIdempotentIff | src/kldivergence/Results.java:42-46 | since normalize leaves the bounds alone, applying it twice equals applying it once exactly when the bounds are 0 and 1 |
| ResultTables.Place | src/kldivergence/Results.java:91 | a TreeMap put under the value comparator adds exactly the new entry and merges nothing |
| ResultTables.PlaceHolds | src/kldivergence/Results.java:91 | after a put, every entry still carries its table score |
| ResultTables.PlaceDistinct | src/kldivergence/Results.java:91 | a put of a new entry keeps the entries distinct |
| ResultTables.PlaceSorted | src/kldivergence/Results.java:91 | a put keeps the view in non-decreasing score order |
| ResultTables.PlaceKeeps | src/kldivergence/Results.java:91 | a put keeps the sorted view consistent, ordered and duplicate-free |
| ResultTables.SortedView | src/kldivergence/Results.java:89-92 | the refilled TreeMap holds every table entry once, with its score, in non-decreasing score order |
| ResultTables.Results.constructor | src/kldivergence/Results.java:11-23 | empty table, default flags, and the bounds start at 1.0 and 0.0 |
| ResultTables.Results.Size | src/kldivergence/Results.java:94-96 | the size is zero exactly when the table is empty |
| ResultTables.Results.Add | src/kldivergence/Results.java:25-29 | stores or overwrites the score, widens the bounds to include it, grows the size only for a new predicate and keeps every score within the bounds |
| ResultTables.Results.Clear | src/kldivergence/Results.java:31-33 | empties the table and leaves the bounds untouched |
| ResultTables.Results.GetPredicateName | src/kldivergence/Results.java:35-40 | the full name, or a '.'-free suffix of it with the short-name flag |
| ResultTables.Results.Normalize | src/kldivergence/Results.java:42-46 | keeps the keys and the bounds, rewrites each score with the min-max map, and lands every score in [0, 1] when the bounds held and are distinct |
| ResultTables.Results.Sort | src/kldivergence/Results.java:89-92 | the sorted view holds every table entry once, with its score, in non-decreasing order |
| ResultTables.Results.NamedRows | src/kldivergence/Results.java:56-59 | one row per view entry: its display name and its score |
| ResultTables.Results.Rows | src/kldivergence/Results.java:56-60 | the loop appends one "name TAB score" line per entry in view order |
| ResultTables.Results.GetTabularRepresentation | src/kldivergence/Results.java:52-63 | the optional header line, the row lines in view order, then an empty line |
| ResultTables.Results.ToString | src/kldivergence/Results.java:80-83 | sorts the view, then renders it as the table |
| ResultTables.LineBreaks | src/kldivergence/Results.java:59 | a row line has exactly one line break when neither name nor score text has one |
| ResultTables.BodyBreaks | src/kldivergence/Results.java:56-60 | the rows give exactly one line each |
| ResultTables.TableLineCount | src/kldivergence/Results.java:52-62 | the text has exactly (header shown ? 1 : 0) + rows + 1 line breaks |
| ValueComparators.Compare | src/kldivergence/ValueComparator.java:17-23 | the result is -1 or 1 and never 0, and -1 exactly when the first score is at most the second |
| ValueComparators.SelfIsSmaller | src/kldivergence/ValueComparator.java:16-19 | a key compares as smaller than itself (inconsistent with equals) |
| ValueComparators.AntisymmetricOnDistinctScores | src/kldivergence/ValueComparator.java:18-22 | with different scores the two orders give opposite results |
| ValueComparators.TiesCompareSmallerBothWays | src/kldivergence/ValueComparator.java:18-22 | with equal scores each key compares as smaller than the other |
| Dice.Wrap32 | src/text/Dice.java:30 | Java `int` results lie in the 32-bit two's-complement range |
| Dice.Shl16LowBitsZero | src/text/Dice.java:30 | `x << 16` has its low 16 bits clear, so or-ing a char is addition |
| Dice.ShiftDropsFirstChar | src/text/Dice.java:34 | shifting the packed pair `(a << 16) + b` left by 16 again gives `b << 16` in 32-bit arithmetic |
| Dice.Bigrams | src/text/Dice.java:26-27 | a string of length at least 2 has length - 1 bigrams, a shorter one none |
| Dice.MakeBigrams | src/text/Dice.java:26-34 | the construction loop fills a fresh array of length - 1 entries whose k-th entry is the packed pair (s[k], s[k+1]) |
| Dice.SortInPlace | src/text/Dice.java:48-49 | the array ends sorted and is a permutation of what it held |
| Dice.Insert | src/text/Dice.java:48 | extends the sorted prefix by one element, permuting the array |
| Dice.SwapDown | src/text/Dice.java:48 | swaps two neighbours and leaves every other element alone |
| Dice.SortedBigrams | src/text/Dice.java:26-49 | the array is sorted and holds exactly the bigrams of the string |
| Dice.MatchedHeads | src/text/Dice.java:55-60 | equal heads add one to the shared multiset and both pointers advance |
| Dice.SkipSmallerHead | src/text/Dice.java:61-64 | a head smaller than every remaining element of the other sorted array is in no shared pair |
| Dice.CountMatches | src/text/Dice.java:52-65 | the merge loop counts twice the size of the multiset intersection of the two sorted arrays |
| Dice.Compare | src/text/Dice.java:14-67 | 0 for a null argument, 1 for the same object, 0 when a string is shorter than 2, otherwise twice the shared bigrams over the total number of bigrams |
| Dice.IntersectionBound | src/text/Dice.java:66 | the shared bigrams are no more than either string's bigrams |
| Dice.Coefficient | src/text/Dice.java:21-66 | the coefficient is zero exactly when a string is shorter than two characters or the two share no bigram |
| Dice.CoefficientInRange | src/text/Dice.java:66 | the coefficient lies in [0, 1] |
| Dice.CoefficientSymmetric | src/text/Dice.java:52-66 | the coefficient is symmetric in its arguments |
| Dice.CoefficientOfEqualStrings | src/text/Dice.java:52-66 | two equal strings of length at least 2 have coefficient 1 |
| Dice.DiceIsSimilarityMetric | src/text/StringCompare.java:6-13 | Dice satisfies the similarity-metric contract: every score lies in [0, 1] |
| KLDivergenceSpec.ScanBest | src/kldivergence/KLDivergence.java:262-273 | the scan's best score is non-negative and its best index is one already scanned |
| KLDivergenceSpec.ScanFindsFirstMax | src/kldivergence/KLDivergence.java:262-273 | the scan ends on the first entry of maximal score, with no match exactly when no score is positive |
| KLDivergenceSpec.FindSimilar | src/kldivergence/KLDivergence.java:257-279 | a returned match is an entry of the remote table |
| KLDivergenceSpec.NoSimilarIff | src/kldivergence/KLDivergence.java:260-278 | no match is returned exactly when no score exceeds both 0 and the threshold |
| KLDivergenceSpec.SimilarIsFirstBest | src/kldivergence/KLDivergence.java:260-278 | a returned match is the first entry of greatest score, and that score exceeds the threshold |
| KLDivergenceSpec.Contribution | src/kldivergence/KLDivergence.java:210-234 | a local word contributes a term exactly when it is non-empty and has a similar remote word |
| KLDivergenceSpec.Tallied | src/kldivergence/KLDivergence.java:221-234 | no more words are found than inspected |
| KLDivergenceSpec.TalliedStep | src/kldivergence/KLDivergence.java:221-234 | an unmatched word changes nothing, and a matched one adds one and its term |
| KLDivergenceSpec.TallyOnward | src/kldivergence/KLDivergence.java:221-234 | tallying one more local word adds its contribution, if any |
| KLDivergenceSpec.NoneFoundIff | src/kldivergence/KLDivergence.java:237-239 | nothing is found exactly when no word contributes |
| KLDivergenceSpec.FirstNonEmpty | src/kldivergence/KLDivergence.java:211-215 | the first entry with a non-empty word, every earlier one being empty |
| KLDivergenceSpec.Reach | src/kldivergence/KLDivergence.java:204-215 | the cursor visits no more than all entries |
| KLDivergenceSpec.ReachEndsAtFirstWord | src/kldivergence/KLDivergence.java:204-215 | when p1 and p2 are the same object, the first non-empty word is the last one visited |
| KLDivergenceSpec.ReachGoesOn | src/kldivergence/KLDivergence.java:204-212 | before that word, the loop goes on to the next entry whenever there is one |
| KLDivergenceSpec.InspectCount | src/kldivergence/KLDivergence.java:204-208 | compare inspects at most all words, at most limit + 1 with a positive limit, and with aliasing at most up to the first non-empty word |
| KLDivergenceSpec.InspectCountIs | src/kldivergence/KLDivergence.java:204-208 | the loop stops where the cursor ends or right after the limit, which is the inspect count |
| KLDivergenceSpec.CompareSpec | src/kldivergence/KLDivergence.java:195-246 | found ≤ inspected ≤ words, inspected ≤ limit + 1 with a positive limit, and the result is the sentinel exactly when nothing was found |
| KLDivergenceSpec.SentinelIffNothingMatched | src/kldivergence/KLDivergence.java:211-239 | compare returns the sentinel exactly when no inspected non-empty word matched |
| KLDivergenceSpec.NothingInspectedIsNaN | src/kldivergence/KLDivergence.java:242-243 | with no word inspected, percentFound becomes NaN and never counts as valid |
| KLDivergenceSpec.Comparisons | src/kldivergence/KLDivergence.java:104-108 | one comparison per remote predicate |
| KLDivergenceSpec.ComparisonsStep | src/kldivergence/KLDivergence.java:104-108 | comparing with one more remote appends its comparison |
| KLDivergenceSpec.Pass | src/kldivergence/KLDivergence.java:95-126 | a pass counts and keeps at most one per remote; with only sentinels it keeps the previous best, and otherwise the best is a remote of this pass |
| KLDivergenceSpec.PassStep | src/kldivergence/KLDivergence.java:104-126 | one more remote is absorbed into the pass state |
| KLDivergenceSpec.PassOverRemotes | src/kldivergence/KLDivergence.java:104-126 | the pass over k + 1 remotes absorbs the comparison with the k-th |
| KLDivergenceSpec.PassSentinelIff | src/kldivergence/KLDivergence.java:117-125 | the pass minimum stays the sentinel exactly when every divergence is the sentinel |
| KLDivergenceSpec.PassMinIsLowest | src/kldivergence/KLDivergence.java:121-125 | no divergence of the pass is below its minimum |
| KLDivergenceSpec.PassBest | src/kldivergence/KLDivergence.java:95-125 | within a pass, best becomes the first remote with the strictly smallest divergence |
| KLDivergenceSpec.PassCollects | src/kldivergence/KLDivergence.java:95-119 | validFound and divergences are reset each pass: they hold the last pass's valid count and non-sentinel divergences, whatever the earlier best |
| KLDivergenceSpec.Absorb | src/kldivergence/KLDivergence.java:109-125 | one remote raises validFound by one exactly when it counts as valid; the minimum never rises and ends at or below this divergence; the best changes only to this remote, and it changes whenever the minimum does |
| KLDivergenceSpec.Start | src/kldivergence/KLDivergence.java:78-92 | the set-up state has no best and no divergences, and the loop condition `Continues` holds on it exactly when validRequired is positive and the start threshold is above the minimum |
| KLDivergenceSpec.Next | src/kldivergence/KLDivergence.java:129-131 | after a pass the threshold falls by the step |
| KLDivergenceSpec.StepShrinksIff | src/kldivergence/KLDivergence.java:129-131 | the step shrinks exactly when the pass found at least validRequired - 1 valid remotes |
| KLDivergenceSpec.Run | src/kldivergence/KLDivergence.java:92-132 | the loop exits only when enough remotes are valid or the threshold is at or below the minimum |
| KLDivergenceSpec.StartBelowMinimum | src/kldivergence/KLDivergence.java:81-92 | a start threshold at or below the minimum skips the loop with no best, so the blank predicate is returned |
| KLDivergenceSpec.StallNeverEnds | src/kldivergence/KLDivergence.java:92-131 | with a zero step and exactly validRequired - 2 valid remotes, the loop repeats forever |
| KLDivergenceSpec.LeftOutlier | src/kldivergence/KLDivergence.java:152-183 | a list is a left outlier only if some element lies below the mean minus the square root of the variance |
| KLDivergenceSpec.MinOf | src/kldivergence/KLDivergence.java:156-160 | the minimum is a member of the list and at most every element |
| KLDivergenceSpec.SquaredDeviations | src/kldivergence/KLDivergence.java:165-169 | one squared deviation per element |
| KLDivergenceSpec.AllEqualIsNotOutlier | src/kldivergence/KLDivergence.java:152-183 | a one-element or all-equal list is not flagged |
| KLDivergenceSpec.ClearOutlierFlagged | src/kldivergence/KLDivergence.java:152-183 | a clear low outlier is flagged |
| KLDivergenceSpec.NearlyUniformFlagged | src/kldivergence/KLDivergence.java:150-183 | the rule also flags a nearly uniform list, so confidence 1.0 need not mean a clear winner |
| KLDivergenceEngine.RemoteView | src/kldivergence/KLDivergence.java:104 | each remote is seen with its table and whether it is the local predicate itself |
| KLDivergenceEngine.KLDivergence.constructor | src/kldivergence/KLDivergence.java:13-41 | the defaults: limit 500, start threshold 0.9, valid percent 0.005, 5 required, step 0.02, minimum 0.85 |
| KLDivergenceEngine.KLDivergence.SetLimit | src/kldivergence/KLDivergence.java:291-293 | stores the limit and changes nothing else |
| KLDivergenceEngine.KLDivergence.SetStartingThreshold | src/kldivergence/KLDivergence.java:298-300 | stores the start threshold and changes nothing else |
| KLDivergenceEngine.KLDivergence.FindSimilar | src/kldivergence/KLDivergence.java:257-279 | walks the remote cursor to its end and returns the specified best match |
| KLDivergenceEngine.KLDivergence.Weigh | src/kldivergence/KLDivergence.java:267-272 | an entry replaces the best match only with a strictly higher score |
| KLDivergenceEngine.KLDivergence.Compare | src/kldivergence/KLDivergence.java:195-246 | returns the specified divergence, raises percentFound to the max with found / inspected, and changes no table, setting or threshold |
| KLDivergenceEngine.KLDivergence.Walk | src/kldivergence/KLDivergence.java:204-235 | the loop stops where the cursor ends or right after the limit, having tallied exactly the inspected words |
| KLDivergenceEngine.KLDivergence.Round | src/kldivergence/KLDivergence.java:204-235 | one round adds the word's contribution and moves the cursor on |
| KLDivergenceEngine.KLDivergence.Accumulate | src/kldivergence/KLDivergence.java:221-234 | a matched word adds one to found and its term to the sum |
| KLDivergenceEngine.KLDivergence.Visit | src/kldivergence/KLDivergence.java:210-234 | an empty or unmatched word contributes nothing; and if p1 is p2, findSimilar runs the shared cursor to its end |
| KLDivergenceEngine.KLDivergence.TermOf | src/kldivergence/KLDivergence.java:225-233 | the term is prob1 * log(prob1 / prob2), with a zero prob2 smoothed |
| KLDivergenceEngine.KLDivergence.Advance | src/kldivergence/KLDivergence.java:204 | getNext gives the next entry in reach, or none where compare's loop ends |
| KLDivergenceEngine.KLDivergence.SelectAll | src/kldivergence/KLDivergence.java:51-66 | the map has exactly the local predicates as keys, every local is freed, and each value is a remote or a fresh blank predicate |
| KLDivergenceEngine.KLDivergence.Match | src/kldivergence/KLDivergence.java:56-58 | selects for one local predicate, then frees its words; no remote other than the returned one changes confidence |
| KLDivergenceEngine.KLDivergence.Select | src/kldivergence/KLDivergence.java:75-148 | follows the specified retry run: the fresh blank predicate when no pass found a best, otherwise the best remote with confidence 1.0 if its divergence is a left outlier and 0.0 if not; no other remote's confidence changes |
| KLDivergenceEngine.KLDivergence.Passes | src/kldivergence/KLDivergence.java:78-132 | the outer loop ends in the specified run's final threshold, divergences and best, or reports that it needs more than `fuel` passes; it changes no confidence |
| KLDivergenceEngine.KLDivergence.Retry | src/kldivergence/KLDivergence.java:92-131 | one outer round is the specified next search state |
| KLDivergenceEngine.KLDivergence.Conclude | src/kldivergence/KLDivergence.java:135-147 | a fresh blank predicate when there is no best, otherwise the best remote with its confidence set by the outlier test; no other remote's confidence changes |
| KLDivergenceEngine.KLDivergence.RunPass | src/kldivergence/KLDivergence.java:104-126 | the inner loop computes the specified pass and changes no table, setting or threshold |
| KLDivergenceEngine.KLDivergence.Consider | src/kldivergence/KLDivergence.java:106-125 | percentFound is reset, compared and absorbed for one remote |
| KLDivergenceEngine.KLDivergence.Absorbing | src/kldivergence/KLDivergence.java:109-125 | counts a valid remote, keeps a finite divergence, and moves the best on a strictly smaller one |
| KLDivergenceEngine.KLDivergence.IsLeftOutlier | src/kldivergence/KLDivergence.java:152-184 | true exactly when min < mean - population stddev, with the array left holding the squared deviations (false for an empty list) |
| KLDivergenceEngine.KLDivergence.Totals | src/kldivergence/KLDivergence.java:155-160 | the first loop computes the sum and the minimum |
| KLDivergenceEngine.KLDivergence.Deviate | src/kldivergence/KLDivergence.java:165-166 | subtracts the mean from every element in place |
| KLDivergenceEngine.KLDivergence.SquareEach | src/kldivergence/KLDivergence.java:168-169 | squares every element in place |
| KLDivergenceEngine.KLDivergence.AddUp | src/kldivergence/KLDivergence.java:172-173 | sums the array |

## Left out

- File reading (`populate`, `BufferedReader`, the `IOException` message) is left out. `Predicate.FromFile` and `Read` take the file's lines as a parameter, `None` standing for an unreadable file. The file name's directory part is cut at '/'.
- All console output is left out: `printWords`, the `echo` flag with `setEcho`, and the printing in `select` and `stripConstants`. None of it affects a result.
- IEEE-754 doubles are modelled as reals. `Math.log` and `Math.sqrt` are uninterpreted constructor parameters. `Math.pow(x, 2)` is `x * x`. Rounding is not modelled.
- `Double.toString` rendering of scores is a parameter `fmt` of the rendering methods.
- Predicates.Predicate.GetProbability requires a non-empty table, because the Java division 0/0 gives NaN. NaN appears elsewhere in the model (`Ratio`), but not as a table probability.
- ResultTables.Results.Normalize requires distinct bounds when the table is non-empty, because the Java division by zero gives NaN or infinities, which reals do not have.
- Java regex semantics of `split("\\s+")` are simplified. `Tokens` returns the maximal runs of non-whitespace characters, so the empty first token Java produces for a line with leading whitespace is not modelled.
- `String.replace` is modelled for removal by the empty string only, the one use in the source.
- `getLast` is not a separate member: it always returns null, so the cursor loops end when `GetNext` returns `None`.
- `Arrays.sort` is modelled as an in-place insertion sort. Only its contract (sorted permutation) matters.
- `HashMap` iteration order is unspecified. The model picks an arbitrary order with each key once, and states every result for all such orders.
- `getEntries`, `getName`, `getConfidence`, `toString` of Predicate, `getPlainRepresentation` and `getTripleRepresentation` are left out as dead code or trivial field reads. `Predicate.ToString` is kept for `GetPredicateName`.
- `Driver` and `JW` are not part of this model. They hold experiment wiring and a wrapper over an external library.
- KLDivergenceEngine.KLDivergence.Select and SelectAll take a `fuel` bound on the number of retry passes, because the Java loop need not terminate (`StallNeverEnds`). With too little fuel they return `None`, which the Java code never does.
- KLDivergenceEngine.KLDivergence.Select keeps the best remote as an index into the remote list rather than as an object reference. Both identify the same element of the unchanged list.
- KLDivergenceEngine.KLDivergence.Conclude copies the divergence list into a new array before the in-place outlier test, because the Java list is not used again after that test.
- SelectAll: its contract states the keys of the map, the freed locals and where each value comes from. It does not tie each value to the `Select` result for that local predicate, because a later duplicate local predicate runs `Select` on a freed table.
- KLDivergenceEngine.KLDivergence.FindSimilar: the metric is a function of two strings and takes no identity argument. In `compare(p, p)` Java hands Dice the same String object for a word and its own key, and Dice answers 1.0 through `str1 == str2`. The model scores that pair on contents. For keys of two or more characters this is the same 1.0 (`CoefficientOfEqualStrings`). For a one-character key the model gives 0.0 where Java gives 1.0.
- Dice.Compare: the `sameObject` argument stands for Java's reference comparison `str1 == str2`. It requires equal contents whenever it is true.
