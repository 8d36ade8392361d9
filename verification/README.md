# Verified model of the compatibility registry

The registry decides whether hardware and software components may be combined. A publisher
submits a document of rules; the registry validates it statically, commits it as a numbered
generation, and answers queries about component pairs and sets from it. This project models
those parts in Dafny and proves what they promise. `dafny verify dfyconfig.toml` checks all of it.

- **Versions and ranges** (`Order`, `SemVer`, `OrderMeaning`, `Intervals`, `VersionRange`,
  `VersionText`, `VersionGrammar`, `RangeText`, `RangeParser`, `RangeRoundTrip`, `RangeBounds`,
  `RangeMeaning`, `PrereleaseMeaning`, `TextMeaning`, `RangeGrammar`): the interval algebra is
  built over any total preorder and instantiated with precedence (section 11 of Semantic
  Versioning 2.0.0). The texts accepted as versions are exactly those of a grammar, range texts
  are cut as stated and round-trip, and comparators, hyphen ranges, groups and alternatives have
  an exact meaning, on prereleases as well for a single comparator.
- **Rules and decisions** (`Rules`, `RuleMeaning`, `Engine`, `Outcomes`, `Knowledge`,
  `Negotiation`, `NegotiationMeaning`): thirteen constraint kinds, three-valued evaluation, ranked
  rules, set aggregation, version negotiation. Evaluation gives the certain answers of incomplete
  knowledge, every outcome has its exact condition, and negotiation agrees with the engine.
- **Static analysis** (`Coverage`, `Gaps`, `Validation`, `Regions`, `Reachability`, `Verdicts`,
  `Rising`, `Permuted`, `Cycles`, `Compile`): what the analyser reports about a rule set is tied to
  what the engine decides for every pair and set, and when it reports is stated exactly.
- **Normal form** (`ConstraintKeys`, `Canonical`, `NormalOrder`, `Rearranging`): order of input
  affects neither the normal form nor any pair or set decision.
- **Store and authority** (`Runs`, `Store`, `RegistryStore`, `Authority`, `StoreMode`): the
  directory, the crash steps and the racing publishers, in memory and over a store, are state
  machines; the classes beside them perform their methods as runs of those machines. Document
  codec and digest are given functions there.
- **Codecs** (`Bytes`, `Crc`, `Frames`, `GenerationFile`, `Sha256`, `KnownAnswers`, `Layouts`,
  `Calendar`, `Decimal`, `Timestamp`, `Identity`, `Json`, `JsonText`, `JsonRoundTrip`,
  `JsonLength`, `JsonParser`, `JsonGrammar`, `JsonAccepted`): round trips, detection of changed
  bytes, fixed layouts, published hash and checksum values, and a JSON parser that accepts exactly
  a grammar stated apart from it.

Pure code of the source is modelled by functions, loops and objects by methods and classes.
Where the source runs a loop, a function says what it computes, the method is proved equal to
it, and lemmas state what that function means.

Where the code and its documentation disagree, the model follows the code, and a lemma gives
an input on which they part; where a second lemma is named, it gives the exact condition:

- README.md:339-341 says a rule reported unreachable can never decide. The analysis tests open
  cells by their bounds only, so the report is wrong in two ways: at interval bounds
  (`Reachability.PinnedIsReportedDead`, `PinnedStillDecides`), and for prereleases that lie within
  a higher rule's bounds but that its range does not admit, whether they tie with a bound
  (`PinnedPrereleaseIsReportedDead`, `PinnedPrereleaseStillDecides`) or not
  (`UnversionedIsReportedDead`, `UnversionedStillDecides`). A dead report is right for all
  components, of any version, exactly when a computable condition on the ranges holds:
  `DeadIsRightIffGapsCovered`.
- tests/test_version.cpp:234-256 has it that a union admits what either part admits, and tries
  releases only. A prerelease is lost when an interval from before runs over the start that admits it, and so is one of an
  alternative in range text: `VersionRange.UnionCanLosePrerelease`, `TextMeaning.AlternativeIsLost`,
  with `UnionContainsIff` and `AlternativesMeaning`.
- include/fcr/rule.hpp:172 says two constraints are equal exactly when their keys are. Literals
  of different types can share a text: `ConstraintKeys.KeysCollide`, with `SameKeyIff`.
- include/fcr/version.hpp:20-22 says the comparison operators of versions break ties by build
  metadata. They compare by precedence alone, and so do the version constraints:
  `SemVer.OperatorsMissBuild`, with `OperatorsFollowTotalOrderIff`.
- A published document can be too large to read back, since reading counts the header against
  the file limit and parses with an 8 MiB limit: `RegistryStore.PublishedHeadsDoNotLoad`, with
  `HeadLoadsIff`.
- The overflow check of a generation number misses four values: `Identity.SlippedIdIsAccepted`,
  with `RightIffNotSlipped`.
- The least 64-bit integer prints but does not parse: `JsonRoundTrip.MinIntDoesNotParse`, with
  `RoundTrip`. Timestamps in the lowest partial second overflow: `Timestamp.LowestDoesNotRead`,
  with `RoundTrip`.
- Timestamps with dates that do not exist, such as February 30, are accepted, against section 5.7
  of RFC 3339: `Timestamp.FebruaryThirtyIsAccepted`, with `AcceptedTextIsCanonicalIff`.
- Comparators that raise the number 4294967295 wrap: `RangeMeaning.AboveWraps`, `AtMostWraps`,
  with `CaretMeaning`, `TildeMeaning`, `AboveMeaning` and `AtMostMeaning`.
- README.md:403-405 says the incarnation advances on every open. It advances when a directory is
  opened for writing, together with the epoch, and on no other open: `Store.CountersTellOpenings`.

Hypotheses that recur: the canonical form of a range (every constructor of the source yields
it, see `RangeRoundTrip.ParsedIsCanonical` and `Intervals.FromIntervalsExact`), and idempotence
of normalization in `Authority` (which `Canonical.NormalizeIsIdempotent` proves of the real one).

## Model

| member | source | states |
|---|---|---|
| SemVer.ComparePrereleaseLoop | src/version.cpp:93-117 | the identifier loop computes the lexicographic comparison of section 11.4 of Semantic Versioning 2.0.0 |
| SemVer.ComparePrereleaseIsTotal | src/version.cpp:93-117 | prerelease comparison is a total order that tells all prereleases apart: transitive across numeric, alphanumeric, prefix and empty cases |
| SemVer.PrecedenceIsTotal | src/version.cpp:426-431 | precedence is a total preorder; two versions tie exactly when they agree on everything but build metadata |
| SemVer.TotalOrderRefinesPrecedence | src/version.cpp:433-439 | TotalOrder is total, tells all versions apart, and agrees with precedence wherever precedence decides |
| SemVer.OperatorsFollowTotalOrderIff | include/fcr/version.hpp:57-64 | the comparison operators decide as TotalOrder does exactly when the two versions do not differ in build metadata alone |
| SemVer.OperatorsMissBuild | include/fcr/version.hpp:20-22 | they are not the total order the header describes: 1.0.0+a and 1.0.0+b are equal for the operators and ordered by TotalOrder |
| SemVer.PrereleaseRanksBelowRelease | src/version.cpp:93-117 | a prerelease ranks below its release, and no release lies between them |
| SemVer.NumericIdentifiersCompareByValue | src/version.cpp:93-117 | without leading zeros, length-then-text comparison is comparison of the numbers, at any length |
| OrderMeaning.TextOrderMeaning | src/version.cpp:93-117 | text comparison is decided at the first difference, by character code, a proper prefix first |
| OrderMeaning.IdentifierMeaning | src/version.cpp:93-117 | numeric identifiers come first and by value, the rest by text |
| OrderMeaning.PrecedenceMeaning | src/version.cpp:426-431 | precedence is decided by the numbers, then a prerelease lies below its release, then by the first differing identifier |
| OrderMeaning.PublishedChainRises | src/version.cpp:93-117 | the example chain of section 11 of Semantic Versioning 2.0.0, from 1.0.0-alpha to 2.1.1, rises pairwise |
| Intervals.ComputeFromIntervals | src/version.cpp:543-605 | the filter, sort and merge loop computes the function the next two rows are about |
| Intervals.FromIntervalsExact | src/version.cpp:543-605 | over any total preorder: the result is sorted, non-empty, pairwise non-touching, and admits exactly what the input admits |
| Intervals.FromIntervalsKeepsCanonical | src/version.cpp:543-605 | a canonical union is left as it is, so FromIntervals is idempotent |
| Intervals.FromIntervalsStarts | src/version.cpp:543-605 | every merged interval starts where a non-empty input does that no other input runs up to |
| Intervals.FromIntervalsStaysClear | src/version.cpp:543-605 | and no merged interval runs over a start that no input runs up to |
| Intervals.ComputeIntersect | src/version.cpp:689-766 | the two-cursor loop with its growing output computes the recursive sweep followed by FromIntervals |
| Intervals.SweepMeets | src/version.cpp:689-766 | every interval the sweep emits is the non-empty meet of one interval from each side |
| Intervals.IntersectIsSweep | src/version.cpp:689-766 | on canonical input the sweep output is canonical already: the final FromIntervals changes nothing |
| Intervals.IntersectExact | src/version.cpp:689-766 | Intersect is canonical and admits exactly the common members |
| Intervals.UnionExact | src/version.cpp:768-773 | Union is canonical and admits exactly the members of either |
| Intervals.NoOverlapMeansDisjoint | src/version.cpp:775-777 | Overlaps false: no value at all is in both |
| VersionRange.ComputeContains | src/version.cpp:682-687 | the membership loop decides whether some interval contains the version, prerelease admission included |
| VersionRange.IntersectContains | src/version.cpp:479-488 | exactly which versions an intersection admits: in both bounds and admitted by at least one side; plain intersection on releases |
| VersionRange.MergeContains | src/version.cpp:479-605 | exactly which versions a merged list admits: what the list does, except prereleases none of whose admitting starts is clear, that is, not run over by an interval from before |
| VersionRange.UnionContainsIff | src/version.cpp:768-773 | exactly which versions a union admits, prereleases included: it never gains one, and loses one exactly when no admitting start is clear |
| VersionRange.UnionContains | src/version.cpp:768-773 | on release versions that is plain union |
| VersionRange.UnionCanLosePrerelease | src/version.cpp:479-488 | a concrete union that drops a prerelease of one part |
| VersionRange.DisjointRanges | src/version.cpp:775-777 | no version, prerelease or not, is in two ranges that do not overlap |
| VersionText.ScanIdentifiers | src/version.cpp:61-91 | the scan from dot to dot accepts exactly the identifier lists of the grammar, at most 32 |
| VersionText.ScanComponents | src/version.cpp:170-208 | the three-slot scan of numbers and wildcards computes the specified reading |
| VersionText.ScanPartial | src/version.cpp:149-219 | the partial-version parser as it runs |
| VersionText.VersionRoundTrip | src/version.cpp:385-424 | the text of a version (within 512 characters) parses to that version, build metadata included |
| VersionText.AcceptedTextIsCanonical | src/version.cpp:385-424 | for every accepted text t, ToString(Parse(t)) is t, character for character, and the parsed value is well formed |
| VersionText.PartialOfVersion | src/version.cpp:149-219 | a printed version reads as its three numbers and its prerelease |
| VersionGrammar.VersionAcceptedExactlyWhen | src/version.cpp:149-219 | a text is accepted as a version exactly when it is at most 512 characters and spells that version: three numbers, then at most 32 identifiers of letters, digits and hyphens after a dash, without leading zeros in numbers, then build metadata after a plus |
| Layouts.VersionTextOf | src/version.cpp:385-424 | for one, 1.20.3-rc.1+b.7 is the text of that version |
| VersionGrammar.PartialAcceptedExactlyWhen | src/version.cpp:149-219 | a text is accepted as a partial version exactly when it spells one: up to three numbers, a wildcard at most at the end, a prerelease only of three numbers |
| RangeText.BandIsOneWord | src/version.cpp:258-271 | why the mutual recursion of comparator and range parsing ends: the rewritten tilde text is one trimmed word in one group |
| RangeParser.Tokenize | src/version.cpp:221-236 | the character loop cuts a group into exactly its words |
| RangeParser.SplitGroups | src/version.cpp:625-641 | the index loop cuts at single and double bars |
| RangeParser.FoldOperators | src/version.cpp:648-659 | a bare operator is joined to the word after it, unless that word is a dash |
| RangeParser.EvaluateGroup | src/version.cpp:355-381 | comparators are intersected from left to right, hyphen ranges three words at a time |
| RangeParser.EvaluateGroups | src/version.cpp:645-668 | an empty group means any, 65 comparators are refused, the first failing group decides |
| RangeParser.Trim | src/version.cpp:611-616 | the two ends move inward over blanks |
| RangeParser.Run | src/version.cpp:607-669 | the whole parser as it runs equals the recursive definition that the round trip is about |
| RangeGrammar.TextCases | src/version.cpp:607-644 | blanks around it aside, a range text of at most 4096 characters is one of five words for everything, the word for nothing, or at most 64 alternatives |
| RangeGrammar.CutMeaning | src/version.cpp:625-641 | the alternatives are exactly the pieces between single or double bars |
| RangeGrammar.WordsMeaning | src/version.cpp:221-236 | the words of an alternative are exactly what stands between blanks, line ends and commas |
| RangeGrammar.FoldMeaning | src/version.cpp:648-659 | which words are read together with the next |
| RangeGrammar.GroupsOutcome | src/version.cpp:645-668 | alternatives are read in order up to the first empty one, which makes the range everything, or the first bad one, which decides the refusal; otherwise the text is accepted |
| RangeGrammar.GroupAccepted | src/version.cpp:355-381 | an alternative is accepted exactly when each of its comparators and hyphen ranges is |
| RangeGrammar.HyphenAccepted | src/version.cpp:355-381 | and a hyphen range exactly when both of its ends read |
| RangeRoundTrip.IntervalReads | src/version.cpp:513-529 | the comparators printed for an interval parse to that interval |
| RangeRoundTrip.RoundTrip | src/version.cpp:793-802 | for every canonical range whose text and groups are within the limits, parsing the text succeeds and gives the range back (equal in the source's sense: build metadata aside) |
| RangeRoundTrip.ParsedIsCanonical | src/version.cpp:607-669 | whatever the text, an accepted range is canonical |
| RangeBounds.ParsedIsBare | src/version.cpp:607-669 | whatever the text, every bound of an accepted range is a well-formed version without build metadata |
| RangeMeaning.FullIsItself | src/version.cpp:149-219 | a partial version with all three numbers stands for exactly the version it spells |
| RangeMeaning.CaretMeaning | src/version.cpp:275-296 | which releases a caret admits: from the start on, with the leftmost non-zero number unchanged, and none at all if that number is the largest 32-bit value |
| RangeMeaning.TildeMeaning | src/version.cpp:297-312 | which releases a tilde admits, with the same exact exception |
| RangeMeaning.AboveMeaning | src/version.cpp:320-328 | > admits what lies past the version or past the whole band a partial one names, if the raised number does not wrap |
| RangeMeaning.AboveWraps | src/version.cpp:320-328 | where it wraps, > admits a version of the band itself |
| RangeMeaning.AtMostMeaning | src/version.cpp:339-348 | <= admits everything up to the end of the band, if the raised number does not wrap |
| RangeMeaning.AtMostWraps | src/version.cpp:339-348 | where it wraps, <= leaves out a version of the band |
| RangeMeaning.BelowMeaning | src/version.cpp:331-338 | < admits exactly the releases before the filled-up version |
| RangeMeaning.AtLeastMeaning | src/version.cpp:329-330 | >= admits exactly the releases from the filled-up version on |
| RangeMeaning.BandMeaning | src/version.cpp:258-271 | a bare or = partial version, rewritten through text, admits exactly the releases that agree on the numbers given |
| PrereleaseMeaning.CaretOfPrereleases | src/version.cpp:275-296 | a caret admits a prerelease exactly when its band fits, it is spelled with a prerelease of the same three numbers, and the version is not below that |
| PrereleaseMeaning.TildeOfPrereleases | src/version.cpp:297-312 | so does a tilde |
| PrereleaseMeaning.AtLeastOfPrereleases | src/version.cpp:329-330 | >= admits the prereleases of the spelled version from it on |
| PrereleaseMeaning.AboveOfPrereleases | src/version.cpp:320-328 | > admits the same but the spelled one |
| PrereleaseMeaning.BelowOfPrereleases | src/version.cpp:331-348 | < and <= alone admit no prerelease |
| PrereleaseMeaning.HyphenOfPrereleases | src/version.cpp:355-381 | a hyphen range admits the prereleases its left end continues into, up to its right end |
| PrereleaseMeaning.BandOfPrereleases | src/version.cpp:258-271 | a bare partial version admits no prerelease |
| PrereleaseMeaning.BandsAdmitTheirStart | src/version.cpp:275-312 | ^t and ~t admit the version that t spells exactly when nothing wraps |
| PrereleaseMeaning.SymbolMeaning | src/version.cpp:313-353 | which symbol in front of a partial version names which of these ranges |
| PrereleaseMeaning.Symbols | src/version.cpp:238-254 | and what each symbol is, on the text after it |
| TextMeaning.ExactMeaning | src/version.cpp:258-271 | a full version alone or after = admits exactly the versions of its precedence, prereleases included |
| TextMeaning.HyphenMeaning | src/version.cpp:360-374 | a - b admits the releases from a on up to b, where a partial b is filled up with zeros and not with its band |
| TextMeaning.GroupMeaning | src/version.cpp:355-381 | a group admits the releases that every comparator and hyphen range in it admits |
| TextMeaning.AlternativesMeaning | src/version.cpp:645-668 | alternatives admit what one of them does, prereleases only where their start is clear in the merged list |
| TextMeaning.AlternativeIsLost | src/version.cpp:607-669 | >=1.0.0-a <2.0.0 admits 1.0.0-b; with the alternative >=0.5.0 <1.5.0 beside it the text does not |
| Rules.CommonComponentOverlaps | src/component.cpp:53-90 | two selectors that accept one component are never taken to be disjoint |
| Regions.SelectorsOverlapIff | src/component.cpp:78-90 | two selectors share a component exactly when they overlap and their ranges share a version |
| Regions.OverlapsIff | src/version.cpp:775-777 | ranges that overlap have two intervals that meet in one its bounds do not rule out, and ranges with a common version overlap |
| Rules.ComputeRuleMatches | src/rule.cpp:849-863 | the match and its mirrored flag, by symmetry |
| Rules.ComputeSpecificity | src/rule.cpp:507-527 | the running score is the sum of the selector scores and the capped counts |
| Rules.PrecedenceHigherIsStrictTotal | src/rule.cpp:545-549 | the ranking is a strict weak order that leaves only equal id and revision unordered |
| RuleMeaning.RankingMeaning | src/rule.cpp:529-549 | the documented key: higher priority, then higher specificity, then local override over operator over vendor over standard, then id and revision ascending |
| RuleMeaning.DocumentOrderMeaning | src/document.cpp:12-30 | the document order: by the text of the id, then by revision |
| RuleMeaning.SelectorScoreMeaning | src/rule.cpp:507-527 | naming a dimension weighs 8, a range 12, one version 24, a range of everything nothing |
| RuleMeaning.SpecificityMeaning | src/rule.cpp:507-527 | each further constraint weighs 2 and each implication 1, up to sixteen; right selectors weigh in pair rules alone |
| RuleMeaning.SelectorMeaning | src/component.cpp:53-66 | a wildcard takes anything, and naming one dimension keeps exactly the components that have the value |
| RuleMeaning.SymmetryMeaning | src/rule.cpp:849-863 | a directed rule is its mirror image with the sides swapped, and a symmetric rule is both directed ones at once |
| Engine.ComputeConstraintStatus | src/registry.cpp:190-262 | over all targets one violation violates, otherwise one open question leaves it open; the loop stops at the first violation |
| Engine.ApplyRule | src/registry.cpp:190-283 | verdict, per-constraint evidence and unmet list: all that is not satisfied, in order |
| Engine.EvaluateRanked | src/registry.cpp:700-746 | the first rank that resolves decides; evidence is bounded by 256, each entry a true record, the decider never cut off |
| Engine.MatchedRules | src/registry.cpp:656-668 | matched rules are exactly the active pair rules that match, best rank first |
| Engine.MatchedSetRules | src/registry.cpp:797-830 | matched set rules are exactly the active set rules whose left selector accepts some member, best rank first |
| Engine.ComputeMatchPairRules | src/registry.cpp:656-668 | the filter loop and the sort |
| Engine.EvaluatePairInternal | src/registry.cpp:670-768 | refusals, ranking and decision of a pair query; the evidence is a true record of each rank up to 256, with the decider always in it, and is marked truncated exactly beyond that |
| Engine.EvaluateSet | src/registry.cpp:887-947 | member limits, set-level decision, the verdicts of all pairs i < j row by row, and their aggregate |
| Engine.PairRowsAt | src/registry.cpp:887-947 | the verdict of each pair i < j stands at one computed place of that list, and there is no other entry |
| Engine.ComputeAggregate | src/registry.cpp:911-928 | the loop over pair verdicts, stopping at the first incompatible one |
| Engine.AggregateMeaning | src/registry.cpp:911-928 | compatible needs the set level and every pair; one incompatible anywhere settles it |
| Engine.CompatibleVerdict | src/registry.cpp:190-283 | no policy turns an unmet or open requirement into Compatible: a rule resolves to Compatible exactly when it declares so and every constraint is satisfied |
| Engine.CompatibleExactlyWhen | src/registry.cpp:670-757 | a pair is compatible exactly when the query is well formed and some matched rule, every rule above it declining, declares Compatible with all constraints satisfied |
| Engine.VersionConstraintsSplitTheOrder | src/registry.cpp:169-178 | of version-at-least and version-at-most one always holds, both exactly at a precedence tie, and at-least is inherited downwards |
| Outcomes.VerdictMeaning | src/registry.cpp:190-283 | what a rule resolves to in each case: its own outcome with everything satisfied, its policy on the violated or the open, or nothing when that policy is to skip |
| Outcomes.StatusMeaning | src/registry.cpp:190-283 | and the status the evidence reports |
| Outcomes.RankedDecision | src/registry.cpp:700-757 | the decision is the first rule that does not decline, with its outcome and policy; if all decline it is Unknown with the reason that tells no match from all skipped |
| Outcomes.IncompatibleExactlyWhen | src/registry.cpp:670-757 | a pair is incompatible exactly when the query is well formed and some matched rule says so, every rule above it declining |
| Outcomes.UndecidedPair | src/registry.cpp:670-757 | without a deciding rule the outcome is Unknown; the reason is the refusal, that nothing matched, or that all matched rules were skipped |
| Outcomes.RefusalMeaning | src/registry.cpp:670-698 | which of four complaints keeps a pair query from the rules |
| Outcomes.SetIncompatibleExactlyWhen | src/registry.cpp:776-871 | the same for the set level |
| Outcomes.SetCompatibleExactlyWhen | src/registry.cpp:776-871 | and when the set level is compatible |
| Outcomes.UndecidedSet | src/registry.cpp:776-871 | and that it is Unknown without a deciding rule |
| Outcomes.SetRefusalMeaning | src/registry.cpp:776-796 | the first ill-formed member, or the lack of active set rules, refuses a set query |
| RuleMeaning.ComparisonMeaning | src/taxonomy.cpp:172-200 | capability values compare only within a type, integers by value, text by code, versions by precedence, flags for equality alone |
| RuleMeaning.CertainAnswers | src/registry.cpp:49-180 | the certain answers of incomplete knowledge, hardware class included: satisfied exactly when what the constraint asserts holds in every fully known component that agrees with the facts, violated when it holds in none (and only then, if it can hold at all) |
| RuleMeaning.SetSidesMeaning | src/registry.cpp:190-262 | in a set the left side is the members the rule selects, the right side is empty and stays open, and all members are all |
| RuleMeaning.PairSidesMeaning | src/registry.cpp:190-262 | in a pair a constraint looks at the side it names, or at both |
| Knowledge.ConstraintIsMonotone | src/registry.cpp:49-180 | filling in open facts can change only an indeterminate status |
| Knowledge.StatusIsExact | src/registry.cpp:49-180 | the three values are exact: satisfied when no completion violates, violated when none satisfies, indeterminate precisely when the open facts can tip it either way |
| Knowledge.OpenGoesBothWays | src/registry.cpp:49-180 | from an indeterminate status, listing the fact and closing knowledge without it give opposite answers |
| Knowledge.ConstraintStatusIsMonotone | src/registry.cpp:190-262 | the same over all targets of a constraint |
| Knowledge.SettledDecisionIsStable | src/registry.cpp:670-757 | a decision that rests on no open evidence is the same decision under every completion |
| Knowledge.UnsettledHasOpenRule | src/registry.cpp:670-757 | any other decision passed or ended at a first rule that rests on open evidence |
| Knowledge.OpenEvidenceCanTip | src/registry.cpp:670-757 | and if that rule treats open and unmet requirements differently and has an open constraint other than on hardware, some completion changes the decision |
| Knowledge.DecisionIsStable | src/registry.cpp:670-757 | with no active pair rule that skips open questions, a decision whose decider is not indeterminate keeps outcome, decider and reason under every completion |
| Knowledge.CompatibleIsNeverWithdrawn | src/registry.cpp:670-757 | in particular COMPATIBLE is never withdrawn |
| Knowledge.OpenSkipCanWithdrawCompatible | src/registry.cpp:240-262 | the restriction is needed: with a skipping rule, closing a question turns COMPATIBLE into INCOMPATIBLE |
| Knowledge.CompatibleSetIsNeverWithdrawn | src/registry.cpp:777-947 | a set found COMPATIBLE stays so under every completion of its members |
| Validation.ValidationReport.Add | src/validation.cpp:297-304 | counters and list grow together |
| Validation.ValidationReport.Publishable | src/validation.cpp:297-304 | publishable exactly when no finding is an error |
| Validation.MatchesByOrientation | src/validation.cpp:21-38 | a pair rule matches exactly when one of its oriented boxes holds the pair |
| Validation.ConflictPass | src/validation.cpp:721-744 | the pass is silent exactly when no two rules of a tier overlap and disagree |
| Validation.GroupByKey | src/validation.cpp:722-726 | the tier map holds each tier with exactly its positions, in order |
| Validation.TierAgreement | src/validation.cpp:362-375 | without conflicts, rules of one tier that match the same pair declare one outcome, for every pair the engine evaluates |
| Regions.RegionsOverlapIff | src/validation.cpp:362-375 | two pair rules take a common pair exactly when oriented boxes of theirs overlap and share versions, so no real overlap is missed and every inhabited one is real |
| Regions.ConflictIsDisagreement | src/validation.cpp:721-745 | where the overlap is inhabited, a conflict is reported exactly for different outcomes on a common pair at equal priority, specificity and origin |
| Validation.OutcomeIgnoresRuleIds | src/registry.cpp:656-757 | then, when all matched rules are satisfied, the outcome survives every injective renaming of rule ids |
| Validation.AlwaysAppliesResolves | src/validation.cpp:212-230 | a rule the analysis calls always applying reaches a verdict on every query |
| Validation.CollectShadowers | src/validation.cpp:756-776 | the scan finds the shadowers or exceeds its budget, exactly when there are more |
| Validation.CoverRegion | src/validation.cpp:786-812 | box by box until one is not covered |
| Validation.AnalyzeRule | src/validation.cpp:756-822 | the verdict on one rule: not shadowed, over budget, open or dead |
| Verdicts.ShadowersMembersIff | src/validation.cpp:756-776 | a rule is compared with exactly the rules that can shadow it, before it and after it |
| Regions.ShadowsIff | src/validation.cpp:756-776 | a rule may shadow another exactly when it is active, of the same arity, can decline under no evidence, comes first whatever the ids, and takes all that each orientation of the other takes, versions aside |
| Regions.SubsumesIff | src/validation.cpp:49-58 | one selector contains another, versions aside, exactly when it takes every component the other takes |
| Verdicts.NotShadowedIff | src/validation.cpp:756-776 | when a rule is passed over as not shadowed |
| Verdicts.OverBudgetIff | src/validation.cpp:756-776 | and when it is given up |
| Verdicts.DeadIff | src/validation.cpp:777-822 | a rule is reported dead exactly when it is analysed within budget and each of its oriented boxes is covered by outranking rules around the whole region |
| Verdicts.OpenMeans | src/validation.cpp:777-822 | a rule that is analysed in full and not dead has a box with an open cell of versions that no outranking rule covers |
| Verdicts.OpenRuleIsFree | src/validation.cpp:777-822 | and such a cell that holds versions gives a pair that the rule takes and no outranking rule covering the region does |
| Verdicts.FindingsMeaning | src/validation.cpp:777-822 | one error under its number for each dead rule, a note for each one given up, and nothing else |
| Permuted.CoverageForgetsOrder | src/validation.cpp:160-205 | whether a plane is covered, and at what cost, does not depend on the order of the covering boxes |
| Permuted.VerdictForgetsOrder | src/validation.cpp:756-822 | the verdict on a rule is the same for every rearrangement of the rules |
| Validation.ReachabilityPass | src/validation.cpp:746-823 | one finding per dead or skipped rule, and whether the analysis was exhaustive |
| Coverage.ComputeRangeCoversCell | src/validation.cpp:127-158 | the cell test over optional bounds |
| Coverage.ComputeVersionPlaneCovered | src/validation.cpp:160-208 | the walk over the coordinate-compressed grid gives up at the first uncovered cell |
| Coverage.SingleVersionTargetsAlwaysCovered | src/validation.cpp:184-187 | a target that names single versions is always called covered, whatever the candidates |
| Gaps.TakesIsMembership | src/version.cpp:479-488 | a range accepts all versions of a class (releases at a piece, prereleases of a known line at a piece, all other prereleases) or none of them, and its bounds tell which |
| Gaps.VersionInhabits | src/version.cpp:93-117 | a class with a version in it passes the computed test for being inhabited |
| Gaps.InhabitedHasVersion | src/version.cpp:93-117 | and a class that passes has a version: the least release or prerelease past a bound is computed, ...-0 being the next prerelease |
| Gaps.AcceptanceByClasses | src/validation.cpp:160-208 | every version pair the target accepts, prereleases included, is accepted by some candidate exactly when every pair of inhabited classes is |
| Gaps.UntiedReleasesAreAccepted | src/validation.cpp:160-208 | a positive answer of the walk is right for every pair of release versions that ties with no bound |
| Gaps.CoveredIsRightIffGapsCovered | src/validation.cpp:184-187 | a positive answer of the walk is right for all version pairs, prereleases included, exactly when the classes it leaves out (bounds and prereleases) are covered, which can be computed from the ranges |
| Reachability.DeadRuleIsShadowed | src/validation.cpp:756-822 | for every pair of release versions that ties with no bound, a pair or set rule reported dead is outranked by a rule that always resolves and holds the same components |
| Reachability.DeadRuleIsShadowedEverywhere | src/validation.cpp:756-822 | with the gaps covered, that holds for all components, whatever their versions |
| Reachability.DeadIsRightIffGapsCovered | src/validation.cpp:756-822 | and not otherwise: a rule reported dead is outranked on all components it holds, prereleases included, exactly when the gaps the walk leaves are covered |
| Reachability.DeadRuleNeverDecides | src/registry.cpp:670-757 | with the gaps covered, a pair rule reported dead decides no pair at all; without, none of untied releases |
| Reachability.DeadSetRuleNeverDecides | src/registry.cpp:777-885 | the same of a set rule and the set level |
| Reachability.PinnedIsReportedDead | src/validation.cpp:127-158 | =1.0.0 under one higher rule >=2.0.0 is reported dead |
| Reachability.PinnedStillDecides | src/registry.cpp:670-757 | yet it decides its own version: the report is false at a bound |
| Reachability.UnversionedIsReportedDead | src/validation.cpp:127-158 | a rule for every version under one higher rule for * is reported dead |
| Reachability.UnversionedStillDecides | src/registry.cpp:670-757 | yet it decides 2.0.0-rc, which ties with no bound: the report is false for prereleases that no candidate admits |
| Reachability.PinnedPrereleaseIsReportedDead | src/validation.cpp:127-158 | =1.0.0-rc under >=0.5.0 is reported dead |
| Reachability.PinnedPrereleaseStillDecides | src/registry.cpp:670-757 | yet it decides 1.0.0-rc, which lies within the bounds of the higher rule |
| Cycles.BuildAdjacency | src/validation.cpp:826-834 | the graph has exactly the edges that active rules declare |
| Cycles.OrderedIsAcyclic | src/validation.cpp:835-876 | an order in which edges go back only leaves no cycle |
| Cycles.Search.Visit | src/validation.cpp:839-871 | the depth-first visit keeps the colour invariant, finishes what it starts, and ends because unseen nodes shrink |
| Cycles.Search.ClosedPath | src/validation.cpp:847-861 | the reported path is a cycle of the graph |
| Cycles.Search.Run | src/validation.cpp:872-876 | a reported cycle exists; an exhaustive search reports nothing only if there is none |
| Cycles.CyclePass | src/validation.cpp:825-884 | with at most 257 nodes and a positive report limit, a cycle is reported exactly when the active implications have one; reports are always true |
| Compile.DuplicatePass | src/validation.cpp:427-441 | one finding for every rule whose id occurred before |
| Compile.DuplicatesAreReported | src/validation.cpp:427-441 | no finding exactly when all ids are distinct |
| Compile.ValidateRegistryDocument | src/validation.cpp:397-900 | no error means: few enough rules, distinct ids, no tier conflict, no rule found dead; and conversely, given no implication cycle |
| Compile.CompileDocument | src/registry.cpp:620-654 | a compiled generation is the normal form with exact active lists; ids distinct, tiers agree, no rule found dead; accepted exactly then where the cycle search is complete |
| Compile.ListActive | src/registry.cpp:644-652 | the index lists name exactly the active pair and set rules, in order |
| Compile.NoConflictsMeansAgreement | src/validation.cpp:721-744 | an accepted rule set agrees within every tier on every component pair |
| ConstraintKeys.VersionTextInjective | src/version.cpp:404-424 | two versions with one text are one version, at any length |
| ConstraintKeys.AcceptedIsBare | src/version.cpp:607-669 | every range the parser accepts is canonical with bounds free of build metadata, which is what the key lemmas ask of ranges |
| ConstraintKeys.RangeTextInjective | src/version.cpp:793-802 | two ranges of that kind with one text are one range, whatever the length |
| ConstraintKeys.SameKeyIff | src/rule.cpp:441-488 | two constraints share a sort key exactly when they agree on all but the type of a literal with the same text |
| ConstraintKeys.KeyInjective | src/rule.cpp:441-488 | where literals have the types their capabilities declare, the key is injective |
| ConstraintKeys.KeysCollide | src/rule.cpp:441-488 | without that it is not: a flag and a text literal collide |
| Canonical.NormalizeRuleForgetsOrder | src/rule.cpp:561-564 | a rule's normal form does not depend on the order of its constraints and implications |
| Canonical.NormalizeDocument | src/document.cpp:15-21 | every rule in place, then the sort by id and revision |
| Canonical.NormalFormForgetsOrder | src/document.cpp:15-21 | with distinct ids and typed literals, any permutation of rules, constraints and implications has the same normal form |
| Canonical.NormalizeIsIdempotent | src/document.cpp:15-21 | normalizing twice is normalizing once |
| NormalOrder.NormalFormRises | src/document.cpp:12-30 | in the normal form rules, and constraints and implications within each, stand in their orders |
| NormalOrder.ConstraintOrder | src/rule.cpp:441-482 | constraints are ordered by kind, then by side, then by the text of what they say |
| NormalOrder.ImplicationOrder | src/rule.cpp:497-501 | implications by side, then by the two capabilities |
| Canonical.DocumentBuilder.AddRule | src/document.cpp:239-249 | a second rule with the same id is refused and changes nothing; otherwise the rule is appended in normal form |
| Canonical.DocumentBuilder.HasRule | src/document.cpp:251-256 | looks the id up |
| Canonical.DocumentBuilder.Build | src/document.cpp:258-262 | the built document is normal, holds exactly the added rules, and has distinct ids |
| Rearranging.MatchedRulesForgetOrder | src/registry.cpp:656-668 | permuted rules with distinct ids are matched in the same sequence |
| Rearranging.RuleOrderDoesNotMatter | src/registry.cpp:670-757 | so every pair decision is identical |
| Rearranging.RearrangingKeepsDecisions | src/registry.cpp:670-757 | reordering rules, constraints and implications, typed or not, keeps outcome, reason, decider reference and negotiation policy of every pair |
| Rearranging.RearrangingKeepsSetDecisions | src/registry.cpp:777-947 | the same of every set query: set level, each pair and the outcome |
| Rearranging.NormalizingKeepsDecisions | src/document.cpp:15-21 | the normal form decides every pair as the document given would |
| Rearranging.NormalizingKeepsSetDecisions | src/document.cpp:15-21 | and every set |
| Negotiation.SetSupport | src/taxonomy.cpp:249-269 | sort and unique leave, per precedence, the least version in the total order, rising strictly |
| Negotiation.ComputeDedupe | src/taxonomy.cpp:249-269 | the in-place unique pass |
| Negotiation.DedupeIsExact | src/taxonomy.cpp:249-269 | it keeps the first of every run and loses no precedence class |
| Negotiation.IntersectVersionLists | src/registry.cpp:285-300 | the versions of the first list that the second offers too, in total order |
| Negotiation.SelectNegotiated | src/registry.cpp:302-315 | the maximum of the window, or the minimum under lowest_common |
| Negotiation.NegotiateOne | src/registry.cpp:317-355 | Agreed exactly when every member lists the subject and the common set is non-empty (a single class under exact_required); the choice is the precedence extremum of the common versions |
| NegotiationMeaning.AgreedIsSupported | src/registry.cpp:317-355 | an agreed version satisfies, on every member, every requirement whose range admits it: negotiation and the decision engine agree on what is supported |
| NegotiationMeaning.OwnerLacksSupport | src/registry.cpp:326-337 | the member named as owner is one on which such a requirement is violated, for not_supported, or open, for indeterminate |
| NegotiationMeaning.OverlapMeansWindow | src/registry.cpp:338-350 | no_overlap leaves an empty window, or under exact_required one with two versions apart in precedence |
| Negotiation.MemberOrderDoesNotMatter | src/registry.cpp:317-355 | member order affects neither agreement nor the precedence of the choice |
| Negotiation.NegotiateSubjects | src/registry.cpp:375-383 | one answer per known id, in the order given, cut at 64 |
| Negotiation.Negotiate | src/registry.cpp:357-395 | of fewer than two components nothing; else the least 64 known ids declared by any member, each once and in text order, each with its negotiated answer, for protocols and for schemas |
| Runs.RunKeeps | src/store.cpp:446-798 | an inductive invariant holds at the end of every run of a machine |
| Runs.RankTellsMoves | src/store.cpp:446-798 | a rank that some actions raise is unchanged by a run exactly when none of them occurred |
| Store.EveryRunIsSound | src/store.cpp:446-798 | in every run of open, publish, prune, crash and damage steps: history is a digest chain, total_publications equals the head, files at or below the head are as committed, the file bound holds |
| Store.RunNeverGoesBack | src/store.cpp:446-522 | head, epoch, incarnation and history never go back |
| Store.CountersTellOpenings | src/store.cpp:501-521 | in every run the incarnation alone, and the epoch alone, is unchanged exactly when the directory was not opened for writing |
| Store.ChainAt | src/store.cpp:721-728 | each committed number is its position and each parent digest its predecessor's |
| Store.ReaderSeesCommitted | src/store.cpp:624-670 | a reader that takes the head, then opens a file after any further steps, gets what was committed under that number or nothing |
| Store.FenceIsNeverReused | src/store.cpp:569-577 | a captured fence is current later exactly when no commit and no open for writing came between (no ABA) |
| Store.HeadMovesOnlyByCommit | src/store.cpp:435-444 | the metadata rename is the only step that moves the head |
| RegistryStore.RegistryStore.Open | src/store.cpp:446-522 | opening for writing succeeds exactly when the lock is free, the metadata reads and both counters can be raised and written; it ends with both strictly higher; a failed open says why and leaves the lock free; opening for reading changes nothing |
| RegistryStore.RegistryStore.TakeOver | src/store.cpp:501-521 | on success both counters are one higher than before; overflow is found before the write, and a failure lets the lock go |
| RegistryStore.RegistryStore.Admit | src/store.cpp:672-742 | the checks before the commit: fence, limits, cancellation, validation |
| RegistryStore.RegistryStore.WriteDocument | src/store.cpp:744-751 | clears what an interrupted publication left under the number, then writes the file |
| RegistryStore.RegistryStore.SwitchHead | src/store.cpp:753-774 | the metadata rename commits; a late cancellation takes the file away again |
| RegistryStore.RegistryStore.Publish | src/store.cpp:672-774 | succeeds exactly when everything holds; then the head is the prepared document, otherwise head and history are as before; the directory is left as the protocol steps leave it |
| RegistryStore.RegistryStore.LoadGeneration | src/store.cpp:602-622 | an accepted file at or below the head holds the document committed under its number |
| RegistryStore.RegistryStore.Recover | src/store.cpp:650-669 | the largest verifiable number at or below the head, and exactly the numbers passed over |
| RegistryStore.RegistryStore.LoadLatest | src/store.cpp:624-670 | what loads is a committed document, the newest that can be verified |
| RegistryStore.HeadLoadsIff | src/store.cpp:301-313 | an undamaged head can be read back exactly when it fits the read limit with its header and the 8 MiB document limit, which publishing does not check |
| RegistryStore.PublishedHeadsDoNotLoad | src/store.cpp:301-313 | a 50-byte document published under a limit of 100 bytes, and a 9 MiB document under 16 MiB, are the undamaged head and do not load |
| RegistryStore.RegistryStore.DiscardUncommitted | src/store.cpp:633-648 | removes files above the head only |
| RegistryStore.RegistryStore.Prune | src/store.cpp:776-798 | removes the oldest beyond keep, stops at an existing head, reports what it removed |
| RegistryStore.OldestAreRemoved | src/store.cpp:776-798 | the removed numbers are the least ones, at most as many as exceed keep, and never the head |
| RegistryStore.Directory.WriteMeta | src/store.cpp:365-405 | an atomic write changes the file whole or not at all |
| RegistryStore.Directory.List | src/store.cpp:579-600 | the generation numbers on disk, ascending |
| Authority.EveryInterleavingIsConsistent | src/authority.cpp:196-297 | over every interleaving of head reads, preparations, commits and readers: contiguous digest chain, current agrees with meta, everything handed out is committed and validated |
| Authority.OneSuccessPerHead | src/authority.cpp:196-246 | no two publications succeed on the same expected generation |
| Authority.SnapshotsAreCommitted | src/authority.cpp:84-104 | every snapshot handed out, or retained by number, is a whole committed generation |
| Authority.ChainIsContiguous | src/authority.cpp:223-233 | generation numbers are consecutive and each parent digest is the predecessor's |
| Authority.SwapInstallsTheCandidate | src/authority.cpp:196-246 | a commit succeeds exactly when the head is still the expected one and the document compiles; then it installs the candidate validated outside the lock |
| Authority.LonePublisherSucceeds | src/authority.cpp:196-246 | a publisher whom nobody interrupts commits the document it prepared, whatever the state, if it passes validation |
| Authority.ReaderGetsTheHead | src/authority.cpp:84-91 | after any interleaving a reader gets the generation committed last |
| Authority.RegistryAuthority.OpenInMemory | src/authority.cpp:45-62 | serves the seed in normal form; a non-zero seed starts a healthy authority |
| Authority.RegistryAuthority.Open | src/authority.cpp:18-43 | serves what it could load; it agrees with the head, and starts as the store-mode theorem assumes, exactly when the head itself could be read; a failed opening leaves the lock as it was |
| Authority.RegistryAuthority.Snapshot | src/authority.cpp:84-90 | the current generation, if any |
| Authority.RegistryAuthority.SnapshotAt | src/authority.cpp:92-104 | from memory if retained, else a committed document from disk |
| Authority.RegistryAuthority.CommitToStore | src/authority.cpp:205-222 | publishes and reads back: state and directory move exactly as the step of the store-mode machine; if only the reading fails, the head on disk is ahead and no later commit succeeds |
| Authority.RegistryAuthority.Commit | src/authority.cpp:196-246 | the exclusive section installs the next generation or changes nothing readers see |
| Authority.RegistryAuthority.Publish | src/authority.cpp:248-297 | all sections in a row, with cancellation at three places |
| Authority.RegistryAuthority.CurrentStamp | src/authority.cpp:362-368 | incarnation and served generation |
| Authority.RegistryAuthority.CheckStamp | src/authority.cpp:370-381 | a stamp holds for one incarnation and one head |
| Authority.RegistryAuthority.Prune | src/authority.cpp:383-396 | what is pruned on disk is forgotten in memory; the served snapshot stays |
| StoreMode.PublishedByRun | src/store.cpp:672-774 | an attempt to publish, successful or not, is a run of the directory protocol |
| StoreMode.EveryInterleavingServes | src/authority.cpp:196-297 | over a store, for every interleaving of publishers, readers, failing file operations, pruning and damage: the in-memory guarantees and the directory invariant hold together, and what the authority committed is the end of the directory history but for at most one document that could not be read back |
| StoreMode.SnapshotsAreOnDisk | src/authority.cpp:84-104 | every snapshot handed out is a committed document of the directory, and its file, while undamaged, is that document |
| Crc.EightShifts | src/digest.cpp:38-44 | eight bitwise steps at once: the low byte decides what is added |
| Crc.TableEntry | src/digest.cpp:38-44 | the entry loop is eight steps of the reflected division |
| Crc.BuildTable | src/digest.cpp:46-53 | all 256 entries |
| Crc.Crc32cAccumulator.Update | src/digest.cpp:194-201 | looking up whole bytes is dividing bit by bit (section 12.1 of RFC 3720), across any sequence of updates |
| Crc.Crc32c | src/digest.cpp:203-207 | the table computes the checksum by definition |
| Crc.OneChangedByteIsDetected | src/digest.cpp:194-207 | two messages of one length that differ in exactly one byte have different checksums, at any length |
| KnownAnswers.ChecksumOfDigits | src/digest.cpp:38-53 | the check value of the polynomial: the checksum of the digits 1 to 9 is E3069283 |
| Bytes.LittleEndianOfNumber | src/transport.cpp:27-61 | little-endian loads invert stores |
| Bytes.NumberOfLittleEndian | src/transport.cpp:27-61 | and stores invert loads, within the width |
| Bytes.LittleEndianAt | src/transport.cpp:27-40 | the i-th stored byte has the weight 256 to the i |
| Layouts.WordLayout | src/transport.cpp:32-34 | checksum words are stored least significant byte first |
| Frames.EncodeFrame | src/transport.cpp:99-122 | the frame written by offset into one buffer is header, checksums and payload |
| Frames.Socket.RecvAll | src/transport.cpp:296-318 | however the stream is chunked, exactly the first size bytes arrive, or the end is told apart at byte zero and later |
| Frames.ReadFrame | src/transport.cpp:207-246 | what is read depends on the bytes alone |
| Layouts.FrameErrors | src/transport.cpp:207-256 | what is wrong with a refused frame, in the order of the checks |
| Frames.RoundTrip | src/transport.cpp:99-122 | what was written is read back and the stream goes on after it |
| Frames.OnlyEncodingsAreRead | src/transport.cpp:207-246 | an accepted frame was its own encoding |
| Frames.OneChangedByteIsRefused | src/transport.cpp:207-246 | a frame with exactly one changed byte is refused, whatever follows it |
| Layouts.FrameLayout | src/transport.cpp:99-122 | every field of a frame at its offset: FCRF, version 1, kind, length, correlation, the two checksums and what they cover |
| GenerationFile.EncodeGeneration | src/store.cpp:222-255 | header fields by offset, then the payload |
| GenerationFile.DecodeGeneration | src/store.cpp:257-319 | the checks in their order |
| Layouts.GenerationErrors | src/store.cpp:257-300 | and with a refused generation file |
| GenerationFile.RoundTrip | src/store.cpp:222-319 | a file decodes to what was encoded, given the payload is a document of that number |
| GenerationFile.OneChangedHeaderByte | src/store.cpp:257-285 | one changed header byte is refused exactly in bytes 0 to 75; in the reserved tail it goes unnoticed |
| GenerationFile.ChangedPayload | src/store.cpp:286-301 | a changed payload passes only with an unchanged digest |
| Layouts.GenerationLayout | src/store.cpp:222-255 | every field of a generation file at its offset: FCRG, version 1, header size 96, numbers, digest, checksum, zeros |
| Sha256.Hasher.Update | src/digest.cpp:112-135 | the state is the compression of all whole blocks so far and the buffer exactly the unfinished tail |
| Sha256.Hasher.Compress | src/digest.cpp:69-110 | schedule and rounds of section 6.2 of FIPS 180-4 |
| Sha256.Hasher.Final | src/digest.cpp:141-180 | the digest is the hash of the padded message |
| Sha256.PaddingFillsBlocks | src/digest.cpp:141-165 | the padding of section 5.1.1 of FIPS 180-4 ends on a block boundary |
| Sha256.HashParts | src/digest.cpp:182-192 | any split of a message below 2^61 bytes into updates gives the one-shot hash |
| KnownAnswers.HashOfAbc | src/digest.cpp:69-160 | the published digest of the message abc (appendix B.1 of FIPS 180-2), so the round constants and the initial state are the standard ones |
| Calendar.DaysRoundTrip | src/identity.cpp:16-33 | days-from-civil inverts civil-from-days, in every era |
| Calendar.CivilFollowsCalendar | src/identity.cpp:20-33 | day 0 is 1970-01-01 and the next day number is the next date, leap years included |
| Calendar.DaysAreDates | src/identity.cpp:20-33 | every day number has a real date |
| Calendar.DateRoundTripIff | src/identity.cpp:16-33 | a date comes back from its day number exactly when it is a real date |
| Calendar.MissingDateIsLater | src/identity.cpp:16-33 | a day its month does not have stands for the corresponding day of the next month |
| Timestamp.ParseIso8601 | src/identity.cpp:106-170 | the field checks and the arithmetic, with its 64-bit overflow |
| Timestamp.RoundTrip | src/identity.cpp:106-196 | a printed timestamp reads back as itself with no overflow exactly from -9223372036 seconds on |
| Timestamp.LowestDoesNotRead | src/identity.cpp:106-196 | the least timestamp prints, and reading it back overflows |
| Timestamp.AcceptedTextIsCanonicalIff | src/identity.cpp:106-170 | an accepted text prints back to itself exactly when it is written to nanoseconds, its date exists and its second is at most 59 |
| Timestamp.FractionPads | src/identity.cpp:135-157 | a fraction of fewer than nine digits stands for the same as with a zero more |
| Timestamp.FractionMeaning | src/identity.cpp:135-157 | nine digits are nanoseconds, and what is no fraction is refused |
| Timestamp.FieldRanges | src/identity.cpp:131-133 | which fields are out of range: a leap second and a 31st of any month are not |
| Timestamp.EndsOfRange | src/identity.cpp:158-170 | the highest timestamp reads back, one nanosecond more overflows, and so does the lowest second |
| Timestamp.MissingDatePrintsLater | src/identity.cpp:106-170 | a text with such a day is accepted and prints with the later date, all else unchanged |
| Timestamp.FebruaryThirtyIsAccepted | src/identity.cpp:106-170 | 2023-02-30T00:00:00.000000000Z is accepted and prints as 2023-03-02T00:00:00.000000000Z |
| Identity.ParseHex | src/identity.cpp:71-85 | the pairwise loop reads a digest or refuses |
| Identity.DigestRoundTrip | src/identity.cpp:71-97 | a digest's text reads back to the digest |
| Identity.HexOfRead | src/identity.cpp:71-97 | reading and printing again only lowers the case |
| Layouts.HexText | src/identity.cpp:87-96 | two digits a byte, high half first, in lower case |
| Identity.Parse | src/identity.cpp:37-63 | the generation-identifier parser as it runs |
| Identity.RoundTrip | src/identity.cpp:37-63 | every generation identifier's text reads back to it |
| Identity.AcceptedIdIff | src/identity.cpp:39-63 | a text is accepted as an identifier exactly when it is the prefix, at least one digit, a colon and 64 hex digits, with the number read as the next rows say |
| Identity.RightIffNotSlipped | src/identity.cpp:46-56 | of any number of digits, a generation number is read or refused rightly exactly when no prefix is one of the four values from 2^64 to 2^64 + 3 with the rest staying in range or slipping again |
| Identity.ShortRightIffNotSlipped | src/identity.cpp:46-56 | up to twenty digits: exactly when the number is not one of the four |
| Identity.TooLargeNeedsSlip | src/identity.cpp:50-53 | at any length, a number too large is accepted only past a prefix that is one of those four |
| Identity.SlippedIdIsAccepted | src/identity.cpp:50-53 | those four are accepted, as generations 0 to 3 |
| JsonParser.OthersStay | src/json.cpp:526-542 | every member under another key keeps its value, in its place or moved one on |
| JsonParser.SetKeepsOrder | src/json.cpp:526-542 | inserting keeps the keys sorted and distinct; they are the old ones and the new one |
| JsonParser.MemberList.Find | src/json.cpp:544-550 | binary search finds exactly the member under the key |
| JsonParser.MemberList.Set | src/json.cpp:526-542 | keys stay sorted and unique and the contents are a map update |
| JsonParser.SetIsUpdate | src/json.cpp:526-542 | inserting into the parallel vectors is a map update |
| JsonParser.DumpString | src/json.cpp:29-53 | the escape loop appends exactly the escaped text |
| JsonParser.DumpTo | src/json.cpp:564-613 | the appending printer writes the compact text |
| JsonParser.Parser.ParseString | src/json.cpp:135-203 | the string scan computes the specified reading; what its escapes stand for is in JsonText |
| JsonText.Utf8Decodes | src/json.cpp:11-27 | a decoder that goes by the lead byte gives every code point back, from an encoding of the length its range demands with later bytes in 80..BF |
| JsonText.UnitMeaning | src/json.cpp:168-190 | four hex digits of either case name their code point unless it is a surrogate |
| JsonText.HexDigitMeaning | src/json.cpp:114-133 | the hexadecimal digits of both cases and their values |
| JsonText.NotFourDigits | src/json.cpp:114-133 | fewer than four are refused |
| JsonText.PairMeaning | src/json.cpp:168-190 | two surrogates name the code point beyond sixteen bits that they stand for |
| JsonText.PairsReachAll | src/json.cpp:168-190 | and every such code point has its pair |
| JsonText.LoneSurrogate | src/json.cpp:168-190 | a surrogate without its partner is refused |
| JsonText.EscapeMeaning | src/json.cpp:150-200 | the eight short escapes and their codes; nothing else but u may follow a backslash |
| JsonText.PieceMeaning | src/json.cpp:135-150 | control characters are refused, every other character stands for itself |
| JsonParser.Parser.ParseNumber | src/json.cpp:204-280 | integers by sign and range; a fraction or exponent is told apart |
| JsonParser.Parser.ParseValue | src/json.cpp:281-319 | one value at the cursor, within the depth limit |
| JsonParser.Parser.ParseItems | src/json.cpp:321-352 | the element loop of arrays |
| JsonParser.Parser.ParseMembers | src/json.cpp:353-397 | the member loop of objects; a repeated key is refused |
| JsonParser.ParseJson | src/json.cpp:621-627 | the whole text is one value, or an error |
| JsonAccepted.AcceptedExactlyWhen | src/json.cpp:615-627 | the parser accepts exactly the texts of a grammar given apart from it, with the value the grammar gives them, when text and value are within the limits and the least integer is not in it: blanks, commas, literals, numbers without leading zeros, strings, distinct keys in any order |
| JsonAccepted.IntegersAccepted | src/json.cpp:204-280 | which integers: below 2^64 without a sign, and below 2^63 in magnitude with one |
| JsonAccepted.LimitsOnlyRefuse | src/json.cpp:281-395 | under narrower limits the answer is the same, or that a limit is exceeded |
| JsonParser.ParsedIsGood | src/json.cpp:281-395 | whatever is accepted is well formed, within the limits and free of the least integer |
| JsonLength.DumpIsNotLonger | src/json.cpp:29-53 | the compact text of a parsed value is never longer than the text it was parsed from |
| JsonParser.AcceptedTextsNormalize | src/json.cpp:615-627 | every accepted text has a canonical form, no longer than it, that is accepted in turn under the same limits and stands for the same value |
| JsonRoundTrip.ValueReads | src/json.cpp:281-395 | wherever its text stands, a value within the limits is read back, unless it holds the least 64-bit integer |
| JsonRoundTrip.RoundTrip | src/json.cpp:564-627 | parsing the compact text succeeds exactly when the value does not hold the least 64-bit integer; then the value comes back, up to non-negative Ints, with the same text |
| JsonRoundTrip.MinIntDoesNotParse | src/json.cpp:241-249 | -9223372036854775808 prints but is refused |

## Left out

- Sockets, accept loops, threads, shutdown wake-ups and the Win32 file calls: the frame code works on an arbitrary chunked stream, and atomic write, remove and list are steps on a map.
- Floating-point JSON numbers: a literal with a fraction or exponent is an error of its own kind in the model and the printer has no such value; canonical documents hold none.
- JsonParser.ParseJson: error kinds and offsets of refused texts are not told apart beyond limit, syntax and floating point; which of these a text beyond the grammar gets is stated for limits only.
- Characters are compared as code units and texts are sequences of bytes in the range of `char`; whether raw string bytes are valid UTF-8 is not checked, as in the source.
- RangeText.ComparatorToRange: the source reads an absent major number for `<*` and `<=*`; the model marks that outcome `Undefined` and no lemma says anything about it.
- RangeRoundTrip.RoundTrip: the range comes back up to build metadata, because the parser drops it and the source's equality of ranges ignores it.
- RangeMeaning.CaretMeaning: states which releases are admitted; which prereleases are is in `PrereleaseMeaning`.
- Error messages, error codes of version and range parsing (one refusal), diagnostic texts and paths, `RenderDecision`, decision ids, provenance, diffs and replay.
- Compile.ValidateRegistryDocument: the taxonomy and per-rule structural checks enter as a list of findings; only whether they contain an error matters. The cut of the list to `max_diagnostics`, made after the counters are final, is not modelled.
- Intervals.ComputeFromIntervals: `std::sort` is a stable insertion sort here and elsewhere, so the order of ties, which the library leaves open, is the input order. The inclusivity flag of an absent bound, which the source stores but never reads, is not represented.
- `VersionRange::Subsumes` and `RuleRegionSubsumes` test inclusivity the wrong way round at equal bounds; conflict and reachability analysis do not use them and no claim is made.
- Tier agreement and `Regions.RegionsOverlapIff` are about pair rules only: set rules match existentially, while the conflict check compares left selectors.
- Constraint sides are not swapped on a mirrored match; no claim is made that symmetric rules give symmetric decisions.
- Knowledge.StatusIsExact: assumes a listed fact could meet the constraint at all (a literal of the declared type that the operator can satisfy, a range with a member) and a known hardware class for hardware constraints, since completions keep it; `RuleMeaning.CertainAnswers` has it open.
- Metadata other than generation, digest, parent, epoch, incarnation and publication count (timestamps, publisher, name, labels) is opaque.
- Store.EveryRunIsSound: digest and codec are arbitrary functions of the document, so nothing follows from equal digests; damage to files is a step, damage to the metadata file is not.
- StoreMode.EveryInterleavingServes: starts from an authority that could read the head when it opened; one that fell back to an older generation serves it, and no commit succeeds.
- Reachability.DeadRuleIsShadowed: release versions that tie with no bound only, since for others the report can be wrong; the condition for all versions is in `DeadIsRightIffGapsCovered`.
- Reachability.DeadIsRightIffGapsCovered: about the components a rule holds, of which there are more than an engine can be asked about (identifiers of any length, components of unregistered kinds); for the engine it gives the direction of `DeadRuleNeverDecides`.
- Gaps.InhabitedHasVersion: versions may have any number of identifiers; past a bound with 32 of them the version named has 33, one more than the parser reads.
- Knowledge.OpenEvidenceCanTip: one direction, by violating an open constraint; whether a decision with equal policies can change depends on meeting several constraints at once.
- TextMeaning.GroupMeaning: releases; for the prereleases of more than one comparator `VersionRange.IntersectContains` describes each step.
- Engine.EvaluatePairInternal: the decision carries the negotiation policy; negotiation itself is `Negotiation.Negotiate`, decision ids and override notes are left out.
- JsonParser.Parser.ParseNumber: tells floating-point literals apart and reads no value for them.
- Compile.CompileDocument: as for `ValidateRegistryDocument`, structural findings enter as a list.
- `SimulatePublish`, `Generations`, `Diff`, `Provenance` and direct loads above the head.
- Sha256.Hasher.Final: a hasher is not used again afterwards; the source allows it and the result is then not the hash of any message.
- Sha256.HashParts: messages below 2^61 bytes, where the 64-bit length counter does not wrap.
- Field-by-field JSON readers and writers of specs, taxonomy, rules and requests, protocol dispatch, enum names, command line and daemon.
- Requests over the wire and their limits (`src/protocol.cpp`, `src/server.cpp`, `src/client.cpp`) are not part of this model.
