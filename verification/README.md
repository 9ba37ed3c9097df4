# A verified model of the publication checks

The repository drives benchmarks of vector and text search engines. Before a number may be
published, library code decides whether the engines really did the same work: the filter an engine
was sent means what was asked, a fused ranking is the reciprocal rank fusion it claims to be, two
result pages are the same ranking, a comparison is complete. This project models those decisions in
Dafny and proves what each of them guarantees, for every input and every run.

`dafny verify dfyconfig.toml` checks the whole project.

| modules | source | subject |
|---|---|---|
| `FilterTree`, `Predicates`, `Conditions`, `ConditionsMeaning` | `src/hybrid.rs`, `src/msmarco/derived.rs` | Boolean trees, the compiled predicate, its row oracle and its meaning, what JSON `conditions` can express and what they say about a row |
| `RedisFilterSyntax`, `RedisFilterGrammar`, `RedisFilterRoundTrip`, `RedisFilterParser` | `src/hybrid.rs` | the RediSearch filter grammar as functions and as a relation, its round trip, and the cursor parser that refines it |
| `RedisFilterCheck`, `RedisFilterComplete` | `src/hybrid.rs` | the filter validator: soundness, and exactly which predicates it can accept |
| `RedisParamNames`, `RedisFilterBuilder`, `RedisFilterRefusal` | `src/bin/vector_db_benchmark/engine/redis.rs` | the engine's own filter builder: its parameter names, its text, and exactly when the validator accepts it |
| `RrfFusion`, `RrfScore`, `RrfLattice`, `RrfSeparation`, `RrfMerge` | `src/hybrid_rrf.rs` | fusion, the tie-aware score, the score lattice, and exactly when the tie band is exact |
| `RankedPages`, `WithoutCountProbe`, `QueryTerms`, `IndexProfile` | `src/fulltext.rs` | ranked pages, the uncounted-search probe, query terms, the index contract |
| `Compound`, `CompoundRedis` | `src/compound_text.rs` | one Boolean expression compiled to two query languages |
| `Comparison`, `RankCorrelation`, `Metrics` | `src/compare_results.rs`, `src/metrics.rs` | pairing, verdict, Kendall tau, NDCG and the three denominators |
| `ForceMerge`, `OutageWindow` | `src/opensearch_maintenance.rs`, `src/indexing_wait.rs` | the force-merge protocol and the retry window over whole runs |
| `Outcomes`, `Text`, `Json`, `Sorting`, `Lists`, `Ratios`, `Decimals` | | shared vocabulary |

Conventions: `f64` is `real` and every claim is about exact arithmetic; a `HashMap` or `HashSet` is a
`map` or `set` whose iteration order is unspecified; a server reply is a value; an engine's text
search is an arbitrary relation between a stored text and a term. A filter expression is a string of
characters where the source walks its bytes; every delimiter is ASCII, so both see the same tokens.

## Results worth reading first

* **Translation validation.** `ValidatorSound`: whatever text and parameters an engine rendered, if
  the validator accepts them for a predicate that fits its schema, the text selects exactly the rows
  of the predicate. `AcceptableIff` gives the other half: the predicates for which *some* text is
  accepted are exactly those whose flattened form has no multi-value integer match directly inside an
  `or` (and no `:` in a field name), while a text that selects exactly the rows always exists
  (`FaithfulTextMayBeRefused`). `AcceptedMatchIsExactIffUnmixed` shows that the schema check is
  needed: an accepted value list is expressed exactly if and only if it is not mixed.
* **Parser.** `ParsesIff`: a text is accepted, as a given tree, if and only if a relation on whole texts puts
  it together from clauses, blanks, bars and parentheses, so nothing is left over. `ParserImage`: a tree is the result of parsing some text if and only if it is printable,
  which includes that every group has at least two children; `PrintThenParse` is the round trip, and
  the cursor methods of `RParser` compute the grammar functions on every input.
* **Tie-aware score.** `TieAwareOptimality`: the hits counted with the cap on the cutoff tie group are
  the maximum of the strict hit count over every way of filling the group's slots.
* **The builder meets the validator.** `ConditionsAcceptedIff`: for every `conditions` value that
  compiles and fits its schema over plain field names, the text and parameters the Redis engine renders
  are accepted if and only if no integer list is spliced into an `or` and no listed keyword is empty;
  and without empty keywords they always select exactly the rows asked for.
* **Separation.** `TiesExactIff`: the 1e-12 band around the cutoff holds exact ties only, in every
  reference a spec allows, if and only if no four of its ranks merge, an integer condition on `k` and
  `W`. It holds up to `k+W = 7937` (`SmallSpecsAreExact`) and fails for every spec that reaches the
  ranks of some `m >= 63` (`ReachingSpecsMerge`).
* **Lattice.** `CheckRrfScore` recovers the second rank by rounding, and is proved to accept exactly
  the scores within tolerance of the lattice on the whole range of valid specs.
* **Pages.** `GenuinePagesAccepted` and `AcceptanceIff` say what acceptance of two pages means in both
  directions; `ProbeSucceedsIff` lifts this to the probe.
* **Query compilation.** `CompileMeans` and `CompileExprMeans`: exactly which JSON compiles, and that what it
  compiles to selects, on every row, what the JSON says, read directly off the JSON. `EnginesAgreeWithOracle`: both renderings of a compiled expression select
  exactly the rows the oracle counts; `DecimalQueriesAgreeWithOracle` for numbers written in decimal.

## Findings

Where the code does not do what its own text says, with an input and the exact condition.

* **A tie that is none.** The published definition of `mean_recall` says that the tolerance joins
  "exact lattice ties only" (src/hybrid_rrf.rs:585-592). It does not for every spec the parser lets
  through: `RrfMerge.LowerDocumentCounts` gives, for every spec with `k < 2m^2+m-2` and
  `2m^2+3m-1 <= k+W` for some `m >= 63` (the first is `k+a = 7999`, `k+b = 8126` against `8061`, `8063`),
  a BM25 list and a KNN list whose reference counts a document strictly below the cutoff as a hit: a
  page of that one document has precision 1 and a positive recall, with strict recall 0.
  `RrfMerge.TiesExactIff` is the exact condition.
* **A faithful filter that is refused.** `RedisFilterRefusal.FaithfulTextIsRefused`: the conditions
  `{"or":[{"f":{"match":{"any":[1,2]}}},{"g":{"match":{"value":3}}}]}` over two integer fields compile
  and fit their schema, the builder's text `((@f:[$f_0 $f_0] | @f:[$f_1 $f_1]) | @g:[$g_2 $g_2])` selects
  exactly their rows, and the validator refuses it, as it refuses every other text. The exact condition
  is `RedisFilterComplete.AcceptableIff`.
* **An empty keyword in a list.** `match.any` drops empty strings (src/bin/vector_db_benchmark/engine/redis.rs:1651-1661),
  so a list that holds one is refused by the validator: `RedisFilterBuilder.ConditionsAcceptedIff`.

## Model

| member | source | states |
|---|---|---|
| `FilterTree.FlattenPreservesMeaning` | src/hybrid.rs:582-632 | flattening a tree of any shape, filter or predicate, changes no truth value for any leaf valuation |
| `FilterTree.FlattenNormalizes` | src/hybrid.rs:582-632 | on a tree without empty groups the result has no one-child group and no group directly in a group of its kind |
| `FilterTree.FlattenFixesNormal` | src/hybrid.rs:582-632 | a tree in that normal form is left as it is |
| `FilterTree.FlattenIdempotent` | src/hybrid.rs:582-632 | flattening twice is flattening once, on trees without empty groups |
| `FilterTree.EmptyGroupBreaksIdempotence` | src/hybrid.rs:582-632 | why nonempty groups are needed: a concrete tree with an empty group takes two passes |
| `FilterTree.FlattenKeepsLeaves` | src/hybrid.rs:358-369 | flattening keeps the leaves in order, none dropped, none duplicated |
| `Predicates.CompiledIsWellFormed` | src/msmarco/derived.rs:340-457 | a compiled predicate has no empty group, no empty value list, at most one lower and one upper bound per range, and valid text terms |
| `Predicates.MatchesIsMeaning` | src/msmarco/derived.rs:459-540 | wherever the short-circuiting row oracle answers, its answer is the declarative meaning of the predicate, for every engine its classifier is right about |
| `Predicates.MatchesAnswers` | src/msmarco/derived.rs:459-540 | on a row of the schema's types a schema-valid predicate is always answered, unless the classifier is unsure of a text |
| `Predicates.GroupDecides` | src/msmarco/derived.rs:459-477 | a group answers with its first child that errs or settles it, and otherwise with `and` true, `or` false |
| `Predicates.LeafAnswersIff` | src/msmarco/derived.rs:478-540 | a leaf is answered if and only if the value suits its test and the classifier is sure of a text |
| `Predicates.SchemaAcceptsIff` | src/hybrid.rs:381-405 | validation succeeds if and only if there is a schema, it is an object, and every leaf names a field whose type suits its test |
| `ConditionsMeaning.CompileMeans` | src/msmarco/derived.rs:325-457 | `conditions` compile if and only if they are a well-formed group, and on every row the compiled predicate selects what the JSON says: integer and decimal bounds as numbers, `value` as equality, `any` as membership, `text` as the engine decides, `and` and `or` as all and some |
| `ConditionsMeaning.NodeMeans` | src/msmarco/derived.rs:340-457 | the same for a node at any depth |
| `Conditions.PredicateReads` | src/msmarco/derived.rs:325-457 | writing a predicate as JSON and compiling it gives back exactly that predicate |
| `Conditions.CompileImage` | src/msmarco/derived.rs:340-457 | a predicate is what some `conditions` compile to if and only if it is a group, its groups are nonempty, its terms valid, its ranges bounded at most once a side and at least once, and its numbers within 2^53 |
| `RedisFilterSyntax.ReadAlternatives` | src/hybrid.rs:459-476 | whatever the grammar reads is printable (groups of at least two), and it consumes input |
| `RedisFilterSyntax.ReadSequence` | src/hybrid.rs:477-492 | the same for a juxtaposition, from any prefix of printable units |
| `RedisFilterSyntax.ReadUnit` | src/hybrid.rs:493-567 | the same for one parenthesised group or field clause |
| `RedisFilterParser.RParser.Ws` | src/hybrid.rs:443-447 | the cursor moves past exactly the blanks |
| `RedisFilterParser.RParser.Alternatives` | src/hybrid.rs:459-476 | terminates on every input; node, error and cursor are those of the grammar |
| `RedisFilterParser.RParser.Sequence` | src/hybrid.rs:477-492 | likewise, and success moves the cursor |
| `RedisFilterParser.RParser.Unit` | src/hybrid.rs:493-567 | likewise for groups and clauses, with every error branch |
| `RedisFilterParser.RParser.Value` | src/hybrid.rs:505-567 | likewise for the value of a clause: interval, tag list or term |
| `RedisFilterParser.ParseRedisFilter` | src/hybrid.rs:569-580 | the cursor parser computes the grammar's parse of the whole string, trailing input refused |
| `RedisFilterGrammar.ParsesIff` | src/hybrid.rs:437-580 | a text parses to a tree if and only if the grammar, as a relation on whole texts, relates them: leaves with their brackets and padded parameters, blanks around units, `|` between sequences, parentheses, and nothing left over |
| `RedisFilterGrammar.BodyIff` | src/hybrid.rs:523-567 | a bracketed body is read as a leaf if and only if it is two blank-separated sides, `|`-separated padded parameters or one, of the kind its bracket tells |
| `RedisFilterGrammar.Unambiguous` | src/hybrid.rs:437-580 | no text is related to two trees |
| `RedisFilterRoundTrip.UnitReads` | src/hybrid.rs:493-567 | a printed tree, one-child groups `(a)` allowed, followed by any text reads back as that tree without its one-child groups, leaving that text |
| `RedisFilterRoundTrip.LoosePrintParses` | src/hybrid.rs:437-580 | the same for a whole expression |
| `RedisFilterRoundTrip.PrintThenParse` | src/hybrid.rs:437-580 | printing any printable tree and parsing it gives back exactly that tree |
| `RedisFilterRoundTrip.ParserImage` | src/hybrid.rs:437-580 | a tree is some text's parse if and only if it is printable: the parser never builds an empty or one-child group, and misses no other |
| `RedisFilterRoundTrip.ParseThenPrint` | src/hybrid.rs:437-580 | re-printing what was parsed parses to the same tree |
| `RedisFilterCheck.SchemaMakesTranslatable` | src/hybrid.rs:381-405 | a compiled predicate that fits its schema has no mixed keyword/integer value list |
| `RedisFilterCheck.WordsExpressedIff` | src/hybrid.rs:714-728 | a keyword list is expressed by exactly the tag clauses whose values are an arrangement of it |
| `RedisFilterCheck.IntsExpressedIff` | src/hybrid.rs:729-749 | an integer list is expressed by exactly the point intervals whose values are an arrangement of it |
| `RedisFilterCheck.WalkSound` | src/hybrid.rs:666-757 | trees the walk accepts select the same rows, on every row, for every engine relation |
| `RedisFilterCheck.AcceptanceIsSound` | src/hybrid.rs:634-757 | acceptance of an expression means the expression as sent, not its flattened form, selects exactly the predicate's rows |
| `RedisFilterCheck.ValidatorSound` | src/hybrid.rs:381-757 | end to end: compile, schema check and acceptance imply equal row sets and agreement with the row oracle |
| `RedisFilterCheck.AcceptedMatchIsExactIffUnmixed` | src/hybrid.rs:692-750 | an accepted value list is expressed exactly on all rows if and only if it is not mixed |
| `RedisFilterComplete.WalkedIsAcceptable` | src/hybrid.rs:666-757 | a predicate the walk accepts against a flattened tree has no spliced integer list |
| `RedisFilterComplete.FlattenRender` | src/hybrid.rs:582-632 | flattening a rendering of a predicate is rendering the flattened predicate, when no integer list is spliced |
| `RedisFilterComplete.RenderWalks` | src/hybrid.rs:666-757 | a rendering whose leaves are expressed where they stand is accepted by the walk |
| `RedisFilterComplete.RenderingIsFaithful` | src/hybrid.rs:634-757 | a text that parses to such a rendering selects exactly the predicate's rows, and is accepted unless a list is spliced |
| `RedisFilterComplete.AcceptableIff` | src/hybrid.rs:634-757 | some expression and parameters are accepted for a predicate if and only if its flattened form has no multi-value integer match directly under an `or` and no `:` in a field |
| `RedisFilterComplete.FaithfulTextMayBeRefused` | src/hybrid.rs:634-757 | every predicate over fields without `:` has a text that selects exactly its rows, and one of them is accepted if and only if no integer list is spliced |
| `RedisParamNames.CounterIsUnique` | src/bin/vector_db_benchmark/engine/redis.rs:1628-1797 | the counter can be read off a parameter name, whatever the field and whether or not a bound follows it |
| `RedisParamNames.ParamsInTurn` | src/bin/vector_db_benchmark/engine/redis.rs:1859-1893 | merging the parameters of all leaves overwrites none: every leaf finds its own values |
| `RedisFilterBuilder.TextParses` | src/bin/vector_db_benchmark/engine/redis.rs:1543-1797 | the rendered text parses to the rendering of the values the builder kept |
| `RedisFilterBuilder.FailingTextIsUnreadable` | src/bin/vector_db_benchmark/engine/redis.rs:1663-1675 | a text with a clause that matches nothing, at any depth, is refused by the parser |
| `RedisFilterBuilder.WalkWeighs` | src/hybrid.rs:666-757 | an accepted tree holds exactly as many values as the predicate |
| `RedisFilterBuilder.DroppedIsRefused` | src/bin/vector_db_benchmark/engine/redis.rs:1651-1661 | a text from which the builder dropped a value is refused |
| `RedisFilterBuilder.BuilderAcceptedIff` | src/bin/vector_db_benchmark/engine/redis.rs:1507-1797 | the builder's text and parameters are accepted if and only if no integer list is spliced and no listed keyword is empty; without empty keywords they select exactly the rows |
| `RedisFilterBuilder.ConditionsAcceptedIff` | src/bin/vector_db_benchmark/engine/redis.rs:2422-2442 | the same for every JSON `conditions` that compile and fit their schema, over fields without blank or delimiter |
| `RedisFilterRefusal.BuilderTextIs` | src/bin/vector_db_benchmark/engine/redis.rs:1635-1648 | the exact text rendered for one set of conditions |
| `RedisFilterRefusal.FaithfulTextIsRefused` | src/hybrid.rs:634-757 | for those conditions the rendered text selects exactly their rows and is refused, as is every text |
| `RrfFusion.AddList` | src/hybrid_rrf.rs:509-520 | one list adds `1/(k+rank)` for its first occurrences, ranked from 1, to the accumulated map |
| `RrfFusion.ContributionAt` | src/hybrid_rrf.rs:509-520 | the first occurrence of an id in a list adds 1 over `k` plus one more than the number of distinct ids before it |
| `RrfFusion.RrfFuse` | src/hybrid_rrf.rs:505-526 | the result holds every id of the union once with its fused score, score descending then id ascending |
| `RrfFusion.FusionIsUnique` | src/hybrid_rrf.rs:505-526 | only one list satisfies that contract, so the map's iteration order cannot show |
| `RrfFusion.DominancePrecedes` | src/hybrid_rrf.rs:505-526 | a document ranked above another in every list that holds the other precedes it in the result |
| `RrfFusion.DominatesScores` | src/hybrid_rrf.rs:505-526 | and has a strictly larger fused score |
| `RrfFusion.BuildReference` | src/hybrid_rrf.rs:540-560 | accepted exactly for at most `window` distinct BM25 candidates; the reference is the fusion with the cut KNN list, with its overlap counted |
| `RrfScore.ScoreQuery` | src/hybrid_rrf.rs:600-649 | the counters compute tie-aware recall, strict recall and precision over the first `top` distinct ids returned: hits above the cutoff band plus capped hits inside it, over their denominators, the empty cases included |
| `RrfScore.CountHits` | src/hybrid_rrf.rs:617-633 | the loop counts the page's ids above the band and inside it |
| `RrfScore.CutoffSplit` | src/hybrid_rrf.rs:609-633 | the ids above the band are a prefix shorter than the expected list, so the saturating subtraction never clips, and the slots start with tied ids |
| `RrfScore.TieAwareOptimality` | src/hybrid_rrf.rs:600-649 | the counted hits are the maximum, attained, of the strict hit count over every filling of the tie group's slots |
| `RrfScore.StrictIsAFilling` | src/hybrid_rrf.rs:600-649 | the id-broken list is one filling, so strict hits <= hits <= expected and hits <= page length |
| `RrfScore.ScoresInRange` | src/hybrid_rrf.rs:600-649 | 0 <= strict recall <= recall <= 1 and 0 <= precision <= 1, also on empty references and pages |
| `RrfLattice.RankRecovered` | src/hybrid_rrf.rs:665-698 | for every pair of ranks the rounding step recovers a rank that passes the closeness test |
| `RrfLattice.CheckRrfScore` | src/hybrid_rrf.rs:665-698 | accepts if and only if the score is within tolerance of `1/(k+a)` or `1/(k+a)+1/(k+b)` with ranks in `1..=W` |
| `RrfLattice.CheckPageScores` | src/hybrid_rrf.rs:721-733 | accepts if and only if every score is on the lattice and none rises by more than the tolerance |
| `RrfLattice.ToleranceIs` | src/hybrid_rrf.rs:651-653 | two scores are close exactly when they differ by at most one part in 100 000 of the expected one |
| `RrfLattice.ScorePage` | src/hybrid_rrf.rs:737-758 | a page is scored if and only if it has at most `top` entries, no id twice and RRF scores that do not rise; each of the three errors is reported exactly in its case; the score is the hit ratios of the page's ids, with their values for an empty reference or page |
| `RrfLattice.FusedScoreOnLattice` | src/hybrid_rrf.rs:505-526 | every score of a fusion of two lists of at most `W` ids passes the score check |
| `RrfLattice.OwnPageIsPerfect` | src/hybrid_rrf.rs:737-767 | a reference's own top page is accepted and scores 1, 1, 1 |
| `RrfSeparation.SeparableUpTo` | src/hybrid_rrf.rs:573-581 | the separation condition holds for every `k + W <= 7937` |
| `RrfSeparation.FractionsSeparate` | src/hybrid_rrf.rs:573-581 | two different fractions of that size differ by more than the relative tolerance |
| `RrfSeparation.ScoresSeparate` | src/hybrid_rrf.rs:573-581 | two documents of one reference lie in each other's band if and only if their exact scores are equal |
| `RrfSeparation.TieGroupIsExact` | src/hybrid_rrf.rs:617-633 | a document is in the cutoff band exactly when its score equals the cutoff's, above it exactly when it is larger |
| `RrfMerge.MergesIff` | src/hybrid_rrf.rs:617-633 | two different sums of two reciprocals share a band if and only if their ranks satisfy an integer inequality |
| `RrfMerge.TiesExactIff` | src/hybrid_rrf.rs:573-649 | for every valid spec: the tie group is exact in every reference it allows if and only if no four of its ranks merge |
| `RrfMerge.SmallSpecsAreExact` | src/hybrid_rrf.rs:573-581 | which is so for every spec with `k + W <= 7937` |
| `RrfMerge.FamilyMerges` | src/hybrid_rrf.rs:573-581 | for every `m >= 63` four ranks that merge, their cross difference exactly 1 |
| `RrfMerge.ReachingSpecsMerge` | src/hybrid_rrf.rs:573-649 | no spec that reaches those ranks is exact |
| `RrfMerge.LowerDocumentCounts` | src/hybrid_rrf.rs:540-649 | for each of them two candidate lists whose reference makes `score_query` count a strictly lower document as a hit |
| `RankedPages.RankCheck.Push` | src/fulltext.rs:1831-1849 | a score is accepted exactly when finite and not above its predecessor; the predecessor moves only on acceptance |
| `RankedPages.ReadPage` | src/fulltext.rs:1879-1948 | a reply is read if and only if it is complete, duplicate-free and ranked; the page is then the only one it can hold, and an uncounted total is not published |
| `RankedPages.SameRankedPage` | src/fulltext.rs:2031-2063 | the walk over tie groups decides equal scores and equal id sets run by run |
| `RankedPages.AcceptanceIff` | src/fulltext.rs:2031-2063 | on a ranked page acceptance holds if and only if both pages show the same documents at every score, except the last score of a truncated page |
| `RankedPages.SameDocuments` | src/fulltext.rs:2031-2063 | accepted pages that are not truncated show the same documents overall |
| `RankedPages.NoHigherScore` | src/fulltext.rs:2031-2063 | two genuine top-k pages show the same score at every rank |
| `RankedPages.GenuinePagesAccepted` | src/fulltext.rs:2031-2063 | any two top-k pages of one scored corpus are accepted, however ties were broken |
| `WithoutCountProbe.ProbeWithoutCount` | src/fulltext.rs:1974-2029 | the loop computes the probe's outcome over any server answers, its early stop and error order included |
| `WithoutCountProbe.ProbeSucceedsIff` | src/fulltext.rs:1950-2029 | against a server that keeps the ranking the probe succeeds exactly when some query has more matches than the page |
| `WithoutCountProbe.ProbeReports` | src/fulltext.rs:1950-2029 | against any server, on success every query with matches that was reached agreed, `compared` counts those, `overLimit` those over the limit, at least 1 and at most 8, and the probe stopped at the eighth or at the end |
| `WithoutCountProbe.FailureIs` | src/fulltext.rs:1974-2029 | a failed probe reports the fault of the first query that has one, or that none reached exceeded the limit |
| `QueryTerms.StripPossessives` | src/fulltext.rs:1023-1044 | the index loop computes the recursive stripping |
| `QueryTerms.StripKeepsTheRest` | src/fulltext.rs:1023-1044 | every character outside a possessive is kept, in order, and nothing else |
| `QueryTerms.StripLeavesNone` | src/fulltext.rs:1023-1044 | no possessive is left, also none created by joining what surrounded a removed one |
| `QueryTerms.CleanIff` | src/fulltext.rs:1023-1044 | the recursive notion of "no possessive" is the position-by-position test of the source |
| `QueryTerms.StripIsIdempotent` | src/fulltext.rs:1023-1044 | stripping twice is stripping once |
| `QueryTerms.PiecesKeepAll` | src/fulltext.rs:1045-1048 | splitting cuts at every separator and loses no other character |
| `QueryTerms.TermsIff` | src/fulltext.rs:1045-1054 | a word is a term if and only if it is the lowercased text between two neighbouring cuts of what stands outside the possessives, holds a word character and is no stopword |
| `QueryTerms.TermsAreFirsts` | src/fulltext.rs:1045-1054 | the terms are the distinct kept words in order of first occurrence |
| `QueryTerms.TermsAreSettled` | src/fulltext.rs:1045-1054 | terms are distinct, lowercase, free of separators, stopwords and possessives, and hold a word character |
| `QueryTerms.TermsAreAFixedPoint` | src/fulltext.rs:1012-1054 | tokenising the space-joined terms returns the same list |
| `QueryTerms.AsciiIsLawful` | src/fulltext.rs:1012-1054 | the facts the results need of an alphabet hold of ASCII with U+2019 |
| `QueryTerms.AsciiLowers` | src/fulltext.rs:1045-1054 | in ASCII only capitals change, each into its small letter |
| `IndexProfile.ResolveProfile` | src/fulltext.rs:456-528 | the fold returns a profile if and only if that profile serves every config, and nothing exactly when no config searches text; an error is a fact about the configs |
| `IndexProfile.ReorderingResolvesAlike` | src/fulltext.rs:456-528 | reordering the configs changes neither the profile nor whether there is one |
| `IndexProfile.MarkerRecords` | src/fulltext.rs:405-418 | the marker says "parity" with normalization or "english" without, lists the fields, and names reduced scalar indexing only when it is |
| `IndexProfile.MarkerAcceptedIff` | src/fulltext.rs:405-445 | an index marked by q is accepted by p if and only if p = q; an unmarked one only in english mode |
| `Compound.CompileIsCompiled` | src/compound_text.rs:45-121 | a compiled expression has nonempty groups, plain field names, valid tests and plain tags |
| `ConditionsMeaning.CompileExprMeans` | src/compound_text.rs:42-121 | JSON compiles under a schema if and only if it is a well-formed, well-typed expression at most 32 deep, and on every row the compiled expression selects what the JSON says |
| `ConditionsMeaning.ExprMeans` | src/compound_text.rs:45-121 | the same for an expression at any depth |
| `Conditions.ExprReads` | src/compound_text.rs:45-121 | writing an expression as JSON and compiling it at its depth gives back exactly that expression |
| `Conditions.CompileExprImage` | src/compound_text.rs:42-121 | an expression is what some JSON compiles to under a schema if and only if its groups are nonempty, its leaves fit the schema with plain fields and tags, and it nests at most 32 deep |
| `Compound.OracleIsMeaning` | src/compound_text.rs:148-169 | wherever the early-returning oracle answers, it answers the declarative meaning |
| `Compound.ExprGroupDecides` | src/compound_text.rs:148-169 | a group answers with its first child that errs or settles it |
| `Conditions.OracleAnswers` | src/compound_text.rs:148-169 | on a row of the schema's types every compiled expression is answered, unless the classifier is unsure of a text |
| `Compound.OpenSearchPreservesMeaning` | src/compound_text.rs:219-245 | the bool query selects exactly the expression's rows under `must`, `filter`, `must_not`, `should` and `minimum_should_match` |
| `CompoundRedis.TagReads` | src/compound_text.rs:171-181 | an escaped tag value reads back as that one value and nothing it holds can end or split its clause |
| `CompoundRedis.ExprReads` | src/compound_text.rs:170-217 | the rendered text of an expression, followed by anything, reads back as the expression and leaves the rest |
| `CompoundRedis.RedisPreservesMeaning` | src/compound_text.rs:170-217 | the text read back selects exactly the expression's rows |
| `CompoundRedis.EnginesAgreeWithOracle` | src/compound_text.rs:45-245 | from the JSON conditions on: both engines' queries select a row exactly when the oracle counts it |
| `Decimals.DecimalReads` | src/compound_text.rs:182-206 | every finite decimal, written with the fewest places, reads back as itself |
| `CompoundRedis.DecimalQueriesAgreeWithOracle` | src/compound_text.rs:45-245 | the same with numbers in decimal, and no hypothesis on integers |
| `RankCorrelation.RankCorrelation` | src/compare_results.rs:140-191 | the double loop computes Kendall tau over the first `k` distinct ids of either list, undefined below two shared ones |
| `RankCorrelation.TauCountsPairs` | src/compare_results.rs:171-191 | tau times the number of pairs of shared ids is the number of pairs both lists order alike less the number they order differently |
| `RankCorrelation.SharedIs` | src/compare_results.rs:171-180 | the shared ids are those of both lists, once each, in the order of the reference |
| `RankCorrelation.TauSymmetric` | src/compare_results.rs:171-191 | tau does not change when reference and candidate are swapped |
| `RankCorrelation.TauMeaning` | src/compare_results.rs:171-191 | tau lies in [-1, 1]; it is 1 exactly when the shared ids keep their order and -1 exactly when it is reversed |
| `Comparison.FirstAnswersAre` | src/results_dump.rs:514-530 | a query has a first answer exactly when some record of it succeeded |
| `Comparison.FirstAnswerIsEarliest` | src/results_dump.rs:511-530 | the answer a query is compared on is the earliest of its answered records, and of several at the same time the first listed |
| `Comparison.PairAcceptedIff` | src/compare_results.rs:239-330 | two dumps are compared if and only if they ask the same question of the same corpus and carry one ground truth for every query both answered |
| `Comparison.PairErrorIs` | src/compare_results.rs:239-330 | a refused pair reports the first header field that differs, or the ground-truth fault of the least query that has one |
| `Comparison.SplitQueries` | src/compare_results.rs:279-302 | the loop pushes every query to the list it belongs to |
| `Comparison.ComparePair` | src/compare_results.rs:239-330 | the header checks, the query partition and the ground-truth check in the order of the source |
| `Comparison.PairSplits` | src/compare_results.rs:208-302 | a pair report splits the attempted queries into both, one-sided and neither without repetition, and counts the failed attempts |
| `Comparison.SideIs` | src/compare_results.rs:208-229 | a side counts the queries it attempted and answered and the attempts it failed |
| `Comparison.ReportIs` | src/compare_results.rs:279-330 | a pair report names both sides and lists its queries in ascending order |
| `Comparison.Index` | src/compare_results.rs:480-496 | succeeds if and only if no two dumps share a key, and then maps every key to its dump |
| `Comparison.SameKeyIff` | src/compare_results.rs:462-478 | two dumps share a key if and only if dataset, workload, parallel, top and id-space name agree, and under a compound identity the search id |
| `Comparison.PairByKey` | src/compare_results.rs:529-541 | succeeds if and only if no side repeats a key and no two dumps of one key are refused; every two dumps of equal key are then paired once and all others left over, in key order; otherwise a repeated key or the refusal of least key is reported |
| `Comparison.Compare` | src/compare_results.rs:501-556 | the reference is the first side if every dump of it has the engine as its engine or config, otherwise the second and only if every dump of that has; a report is made if and only if both sides are nonempty and those sides can be compared; it describes a matching of them in that order and totals its pairs; each error in its case |
| `Comparison.TotalsAddUp` | src/compare_results.rs:544-548 | the totals of a report add up over its pairs |
| `Comparison.MatchingIsUnique` | src/compare_results.rs:523-541 | there is one matching in key order, so the report is determined by the dumps |
| `Comparison.EveryReferenceOnce` | src/compare_results.rs:523-541 | every reference dump is in exactly one pair or is left over |
| `Comparison.EveryCandidateOnce` | src/compare_results.rs:523-541 | and so is every candidate dump |
| `Comparison.CleanIff` | src/compare_results.rs:123-138 | a pair is clean if and only if no attempt failed and both sides answered the same queries; nothing is then unanswered by both |
| `Comparison.PassedIff` | src/compare_results.rs:123-138 | a report passes if and only if every dump is paired and every pair fully answered |
| `Metrics.ComputeMetrics` | src/metrics.rs:73-174 | the five measures with their three denominators over the first `k` distinct results, in order of first occurrence, and the ids that are non-negative and have fewer than `k` non-negative entries of the ground truth before them; 1 throughout without truth or with `k = 0` |
| `Metrics.TruthSet` | src/metrics.rs:89-94 | an id is in the truth set if and only if it is non-negative and stands behind fewer than `k` non-negative entries |
| `Lists.FirstDistinct` | src/metrics.rs:112-120 | the first `k` distinct ids: each at its first position, positions ascending, an id left out only when `k` distinct ones stand before it |
| `Metrics.Scan` | src/metrics.rs:110-174 | one pass counts the hits, sums the discounts of relevant ranks and finds the first relevant rank |
| `Metrics.GainOfOne` | src/metrics.rs:140-174 | one relevant id gains the discount of its rank, or nothing |
| `Metrics.GainAddsUp` | src/metrics.rs:140-174 | the gain of disjoint sets of relevant ids is the sum of their gains |
| `Metrics.IdealGain` | src/metrics.rs:140-174 | the ideal gain is that of a page that holds only relevant ids |
| `Metrics.DcgBound` | src/metrics.rs:140-174 | a ranking with c hits gains at most the first c discounts, with equality exactly when its hits are a prefix |
| `Metrics.IdealIff` | src/metrics.rs:140-174 | the gain reaches the ideal exactly when the first `truth_count` results are all relevant |
| `Metrics.NdcgIsNormalized` | src/metrics.rs:140-174 | NDCG lies in [0, 1] for every positive strictly decreasing discount, 1 exactly in the ideal case |
| `Metrics.MeasuresInRange` | src/metrics.rs:73-174 | all five lie in [0, 1], and `recall_at_top` is at most recall and at most precision |
| `ForceMerge.TaskComplete` | src/opensearch_maintenance.rs:189-214 | completion is reported exactly for a reply with successful = total > 0, failed = 0 and no error |
| `ForceMerge.MergeTask` | src/opensearch_maintenance.rs:57-168 | the two loops compute the final state and every wait of the run over any sequence of server outcomes; what a run is, exchange by exchange, is stated in the rows below |
| `ForceMerge.RunStartsAndEnds` | src/opensearch_maintenance.rs:57-168 | a run starts submitting with no retry used, and nothing changes it once it has ended |
| `ForceMerge.AfterTransient` | src/opensearch_maintenance.rs:57-187 | a lost or unreadable reply or a status 429, 502, 503 or 504 uses one retry and waits, or ends a run with none left |
| `ForceMerge.AfterSubmission` | src/opensearch_maintenance.rs:68-110 | a submission answered otherwise starts polling, counter at zero, if and only if a 2xx reply carries a nonempty string `task`; everything else fails |
| `ForceMerge.AfterPoll` | src/opensearch_maintenance.rs:115-168 | a poll answered otherwise succeeds if and only if a 2xx reply is fully merged, goes on with the counter at zero after one poll interval if and only if it says `completed: false` without an error, and fails in every other case |
| `ForceMerge.RetriesCountTheOutage` | src/opensearch_maintenance.rs:57-187 | on a live run the counter is the length of the current outage: healthy polls consume no retry |
| `ForceMerge.OutagesAreBounded` | src/opensearch_maintenance.rs:57-187 | no live run has seen more than `max_retries` consecutive transient failures |
| `ForceMerge.GivesUpIff` | src/opensearch_maintenance.rs:170-187 | one more transient failure ends the run exactly when the outage has used up the retries |
| `ForceMerge.SuccessMeansMerged` | src/opensearch_maintenance.rs:57-214 | success needs a task id, obtained after transient failures only, and a later reply that reports that task fully merged |
| `ForceMerge.DelayIsCappedAndMonotone` | src/opensearch_maintenance.rs:170-187 | a delay is at most 30 s and grows with the retry count |
| `ForceMerge.DelayDoubles` | src/opensearch_maintenance.rs:170-187 | each retry of an outage doubles the delay until the cap |
| `ForceMerge.OutageDelays` | src/opensearch_maintenance.rs:57-187 | within one outage of a run the delays never decrease and stay at most the cap |
| `OutageWindow.TransientRetry.constructor` | src/indexing_wait.rs:101-106 | a new wait has an empty history and no outage |
| `OutageWindow.TransientRetry.OnSuccess` | src/indexing_wait.rs:109-112 | a success ends the outage |
| `OutageWindow.TransientRetry.OnTransient` | src/indexing_wait.rs:115-140 | the field and the answer are those of the whole history of events |
| `OutageWindow.OutageStartIsFirstFailure` | src/indexing_wait.rs:89-140 | the outage starts at the first failure after the last success |
| `OutageWindow.RetryIff` | src/indexing_wait.rs:89-140 | over every history with a non-decreasing clock a retry is granted exactly when that outage is at most 120 s and the wait is inside its budget, and reports exactly its length |
| `OutageWindow.SomeFirstFailure` | src/indexing_wait.rs:89-140 | every history that ends in a transient error has a first failure after its last success, so the statement above covers every retry |

## Left out

- Network calls, file reading, hashing, environment variables and printing: I/O around the decisions modelled here.
- IEEE-754 rounding, infinities and NaN: numbers are exact reals (a non-finite score in a ranked reply is modelled as its own case). Integer operands are taken to fit in 2^53.
- Error message texts and the byte positions in parser errors; errors are told apart by kind.
- `check_opensearch_filter`: it inspects only some keys of a filter, and the Redis validator is the harder of the two.
- Engine text search (stemming, tokenizers, BM25) is an arbitrary relation on stored text and term.
- QueryTerms.TermsAreAFixedPoint: lowercasing is character by character, into one or several characters; the one context-dependent rule of Unicode, the final sigma, is not modelled. Which characters are alphanumeric is a parameter, with the facts the proof needs listed in `Lawful`.
- RrfMerge.TiesExactIff: whether four ranks merge is worked out for `k + W <= 7937` and for the family of `FamilyMerges`; for other specs, such as `k + W` in `7938..8125`, the condition is left as it stands.
- CompoundRedis.DecimalQueriesAgreeWithOracle: range bounds are finite decimals, as every `f64` is; that the source prints the shortest decimal that rounds to the same `f64` is not modelled.
- RedisFilterBuilder.ConditionsAcceptedIff: field names hold no blank and no delimiter of the filter syntax; what the builder renders for other names is not characterised. `geo` and `range` bounds given as strings do not compile and are not modelled.
- Comparison.PairByKey: the order of keys is any total order; that the derived tuple order is one is not proved.
- Shape reports, overlap, Jaccard, count agreement, warnings and the markdown rendering of a comparison: folds without interaction.
- The wall-clock timeouts around a merge, the formula of the wait budget and the one comparison of `verdict`.
- Parsing of the `rrf` and `fulltext` configuration blocks: their parsed values, in the bounds the parser enforces, are the inputs here.
- `lattice_coverage`, request bodies and live-index validation: straight-line code.
- `msmarco_queries`, ingestion, capability tables and result metadata: long lists of single checks.
