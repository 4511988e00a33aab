# ast-grep core decisions in Dafny

This project models three small pieces of ast-grep, the structural
search-and-rewrite tool, and proves properties of each.

- **Match strictness** (`Strictness`). A pattern can be matched against code
  at five strictness levels: `cst`, `smart`, `ast`, `relaxed`/lenient and
  `signature`. The model covers the decision taken at one terminal node:
  matched, skip the goal node, skip the candidate node, skip both, or no
  match. It also covers the two per-node filters, "skip while matching" and
  "keep in pattern".
- **Utility-rule dependency order** (`RuleDeps`, `CycleCheck`,
  `UtilRegistration`). Utility rules refer to each other through `matches`,
  including inside `all` and `any` lists. Local utilities are registered in
  an order found by a depth-first walk, so that every rule is built after the
  rules it refers to. Global utilities are built in list order. Each
  registration is a fold that stops at the first failure.
- **Per-file pre-filter of the CLI** (`Text`, `FileFilter`, `Prompt`). This
  covers:
  - the size cutoff (3,000,000 bytes and 200,000 lines);
  - skipping empty or unreadable files;
  - dropping a layer whose combined rule scan hit nothing;
  - rejecting a pattern early when its fixed string is absent from the file;
  - assembling the per-layer results for a file and its injected documents;
  - the decision step of the interactive `prompt`.

Foreign operations enter the model as function-valued parameters. These are:
reading files, mapping a path to a language, the languages injectable into a
language, finding injected documents, the combined scan, pattern search and
a pattern's fixed string, deserializing a rule, building a global matcher,
and inserting into a registry. Parsing is not a parameter. A parsed document
is the value `Tree(lang, content)`, built directly from the language and the
text it was parsed from. The acyclicity measure `rank` of the dependency
walk is a ghost parameter. It exists only to prove termination, and the walk
never reads it.

Rust's `HashMap` iteration order is unspecified. The model therefore passes
the order in which `utils.keys()` yields ids as an explicit `keys` sequence.
Every theorem about the order holds for every such sequence.

The `seen` set of the topological sort does not stop recursion on a
reference cycle, because `visit` inserts into it only after visiting the
dependencies (crates/config/src/deserialize_env.rs:54-66). The model follows
the code and records this under Findings.

## Model

| member | source | states |
|---|---|---|
| Strictness.MatchTerminal | crates/core/src/match_tree/strictness.rs:21-57 | The result is MatchedBoth exactly when kind id and text both agree, or when the strictness is signature and only the kind ids agree. Skipping the goal happens only for an unnamed goal under ast or looser. Skipping the candidate happens only when `should_skip_matching_node` holds for it. |
| Strictness.OutcomeOf | crates/core/src/match_tree/strictness.rs:51-56 | Mapping a pair of skip flags to an outcome never produces MatchedBoth. |
| Strictness.SkipsOf | crates/core/src/match_tree/strictness.rs:51-56 | Every outcome other than MatchedBoth comes from exactly the skip pair this returns. |
| Strictness.SkipPair | crates/core/src/match_tree/strictness.rs:33-50 | The candidate half of the pair is exactly `should_skip_matching_node`. The goal half is set exactly for an unnamed goal under ast or looser. |
| Strictness.OutcomeOfInjective | crates/core/src/match_tree/strictness.rs:51-56 | Different skip pairs give different outcomes, so the four-way match loses no information. |
| Strictness.MatchTerminalBySkipFilters | crates/core/src/match_tree/strictness.rs:21-67 | When neither shortcut applies, the outcome is the skip-goal flag paired with the `should_skip_matching_node` predicate. The two functions agree on which candidates are skipped. |
| Strictness.CstIsExact | crates/core/src/match_tree/strictness.rs:30-34 | Under cst a terminal either matches exactly or gives NoMatch. Nothing is skipped. |
| Strictness.SignatureIgnoresText | crates/core/src/match_tree/strictness.rs:37-44 | With equal kind ids and different texts, signature matches but lenient does not. |
| Strictness.SmartNeverSkipsGoal | crates/core/src/match_tree/strictness.rs:35 | Smart never skips the goal node. It skips the candidate exactly when the candidate is unnamed and the exact comparison fails. |
| Strictness.LenientSignatureDiffer | crates/core/src/match_tree/strictness.rs:37-49 | Lenient and signature give different outcomes exactly when the kind ids agree and the texts differ. |
| Strictness.MatchedBothOnlyFromShortcuts | crates/core/src/match_tree/strictness.rs:30-44 | MatchedBoth comes only from the exact comparison or from the signature kind-only comparison. |
| Strictness.MatchTerminalMonotone | crates/core/src/match_tree/strictness.rs:4-57 | A looser strictness keeps every MatchedBoth of a stricter one. A NoMatch under the looser strictness is also NoMatch under the stricter one. |
| Strictness.SkipMonotone | crates/core/src/match_tree/strictness.rs:58-67 | A node skipped at one strictness is skipped at every looser one. Cst skips nothing. Smart and ast skip the same nodes, and so do lenient and signature. |
| Strictness.KeepIsNotSkip | crates/core/src/match_tree/strictness.rs:58-77 | From ast upward, a node is kept in the pattern exactly when it is not skipped while matching. Cst and smart keep every node. |
| Strictness.ShouldSkipMatchingNode | crates/core/src/match_tree/strictness.rs:58-67 | Only unnamed or comment-like nodes are skipped. Every level except cst skips unnamed nodes, and cst skips nothing. Lenient and signature also skip comment-like nodes, while ast and stricter levels never skip a named node. |
| Strictness.ShouldKeepInPattern | crates/core/src/match_tree/strictness.rs:68-77 | A named node that is not comment-like is kept at every level. Cst and smart keep every node. From ast upward an unnamed node is dropped. Lenient and signature also drop comment-like nodes, while ast and stricter levels keep every named node. |
| Strictness.CommentsSeparateAstFromLenient | crates/core/src/match_tree/strictness.rs:4-77 | A named comment-like node is compared and kept under ast, but skipped and dropped under lenient and signature. A named goal against such a candidate that is not an exact match gives NoMatch under ast and SkipCandidate under lenient. |
| RuleDeps.Visit | crates/config/src/deserialize_env.rs:54-66 | The order only grows at its end and the seen set only grows. A known id ends up seen. Every newly seen id is a utility of rank at most the visited id's rank, so visiting an id that is not a utility sees nothing new. |
| RuleDeps.VisitDependentRuleIds | crates/config/src/deserialize_env.rs:69-90 | After the call every known id a rule refers to through `matches`, `all` or `any` is seen. Only ids of lower rank than the owner become seen. |
| RuleDeps.VisitSubRules | crates/config/src/deserialize_env.rs:77-86 | After the call every known id referred to by a list of sub-rules is seen, and the order only grows at its end. |
| RuleDeps.VisitKeys | crates/config/src/deserialize_env.rs:38-44 | After the loop every key that is a utility is seen, and nothing but utilities became seen. |
| RuleDeps.GetOrder | crates/config/src/deserialize_env.rs:38-44 | Lists only utilities, and lists every key that is a utility. |
| RuleDeps.PushKeepsWellFormed | crates/config/src/deserialize_env.rs:63-65 | Pushing an unseen utility whose dependencies are all seen keeps the order duplicate-free, keeps dependencies first, and keeps the order equal to the seen set. |
| RuleDeps.VisitWellFormed | crates/config/src/deserialize_env.rs:54-66 | Visiting an id keeps the order duplicate-free, dependencies-first and equal to the seen set. |
| RuleDeps.VisitDependentRuleIdsWellFormed | crates/config/src/deserialize_env.rs:69-90 | Visiting a rule's references keeps the sorter well formed. |
| RuleDeps.VisitSubRulesWellFormed | crates/config/src/deserialize_env.rs:77-86 | Visiting a list of sub-rules keeps the sorter well formed. |
| RuleDeps.VisitKeysWellFormed | crates/config/src/deserialize_env.rs:40-42 | The key loop keeps the sorter well formed. |
| RuleDeps.GetOrderNoDuplicates | crates/config/src/deserialize_env.rs:38-44 | `get_order` lists no id twice. |
| RuleDeps.GetOrderIsKeySet | crates/config/src/deserialize_env.rs:38-44 | When the keys cover the utilities, `get_order` lists exactly the utilities. |
| RuleDeps.GetOrderDependenciesFirst | crates/config/src/deserialize_env.rs:38-66 | Whenever one listed utility refers to another, the one referred to comes strictly earlier in the order. |
| RuleDeps.ClearNot | crates/config/src/deserialize_env.rs:87-89 | Dropping a rule's `not` leaves its dependency set unchanged. |
| RuleDeps.ClearNotSub | crates/config/src/deserialize_env.rs:77-86 | Dropping `not` inside a sub-rule list keeps whether the list is present, and keeps its dependency set. |
| RuleDeps.ClearNotList | crates/config/src/deserialize_env.rs:77-86 | Dropping `not` throughout a list keeps its length and its dependency set. |
| RuleDeps.ClearNotMap | crates/config/src/deserialize_env.rs:87-89 | Dropping `not` from every utility keeps the key set, and maps each rule to its cleared form. |
| RuleDeps.ClearNotMapRanked | crates/config/src/deserialize_env.rs:87-89 | Dropping `not` keeps utilities acyclic under the same ranks. |
| RuleDeps.VisitIgnoresNot | crates/config/src/deserialize_env.rs:87-89 | A `not` sub-rule has no influence on the walk from an id. |
| RuleDeps.VisitDependentRuleIdsIgnoresNot | crates/config/src/deserialize_env.rs:87-89 | A `not` sub-rule has no influence on the walk over a rule's references. |
| RuleDeps.VisitSubRulesIgnoresNot | crates/config/src/deserialize_env.rs:87-89 | A `not` sub-rule has no influence on the walk over a sub-rule list. |
| RuleDeps.VisitKeysIgnoresNot | crates/config/src/deserialize_env.rs:87-89 | A `not` sub-rule has no influence on the key loop. |
| RuleDeps.GetOrderIgnoresNot | crates/config/src/deserialize_env.rs:87-89 | `get_order` gives the same order whether or not the `not` sub-rules are present. |
| RuleDeps.DependentUtilsOrder | crates/config/src/deserialize_env.rs:144-180 | With `accessor-name` matching `member-name`, both key orders register `member-name` first. Hash order therefore cannot change the result. |
| RuleDeps.NotReferenceImposesNoOrder | crates/config/src/deserialize_env.rs:87-89 | A reference made only under `not` does not move the referred rule earlier. |
| CycleCheck.VisitWithinAgrees | crates/config/src/deserialize_env.rs:54-66 | The depth-bounded replica of `visit` as written agrees with the acyclic walk once the depth exceeds the visited id's height. |
| CycleCheck.VisitDependentRuleIdsWithinAgrees | crates/config/src/deserialize_env.rs:69-90 | The depth-bounded walk over a rule's references agrees with the acyclic walk. |
| CycleCheck.VisitSubRulesWithinAgrees | crates/config/src/deserialize_env.rs:77-86 | The depth-bounded walk over a sub-rule list agrees with the acyclic walk. |
| CycleCheck.SelfCycleExhaustsEveryDepth | crates/config/src/deserialize_env.rs:54-66 | A utility whose `matches` names itself exhausts every depth bound. The code as written recurses forever on it. |
| CycleCheck.SelfCycleUnranked | crates/config/src/deserialize_env.rs:54-66 | The self-referring utility has no acyclicity ranking. |
| CycleCheck.VisitChecked | crates/config/src/deserialize_env.rs:54-66 | With an explicit stack of ids being visited: on success the sorter only grows and a known id is seen. On failure the reported id is a utility. |
| CycleCheck.VisitDependentRuleIdsChecked | crates/config/src/deserialize_env.rs:69-90 | On success every known reference of the rule is seen. On failure the reported id is a utility. |
| CycleCheck.VisitSubRulesChecked | crates/config/src/deserialize_env.rs:77-86 | On success every known reference of the list is seen. On failure the reported id is a utility. |
| CycleCheck.VisitKeysChecked | crates/config/src/deserialize_env.rs:38-44 | On success every key that is a utility is seen. On failure the reported id is a utility. |
| CycleCheck.VisitCheckedAgrees | crates/config/src/deserialize_env.rs:54-66 | When the utilities are acyclic and the stack holds only higher-ranked ids, the checked walk succeeds with exactly the walk as written. |
| CycleCheck.VisitDependentRuleIdsCheckedAgrees | crates/config/src/deserialize_env.rs:69-90 | The checked walk over a rule's references agrees with the walk as written on acyclic utilities. |
| CycleCheck.VisitSubRulesCheckedAgrees | crates/config/src/deserialize_env.rs:77-86 | The checked walk over a sub-rule list agrees with the walk as written on acyclic utilities. |
| CycleCheck.VisitKeysCheckedAgrees | crates/config/src/deserialize_env.rs:38-44 | The checked key loop agrees with the key loop as written on acyclic utilities. |
| CycleCheck.GetOrderCheckedAgrees | crates/config/src/deserialize_env.rs:38-44 | On acyclic utilities the checked order is a success carrying exactly `get_order`'s order. |
| CycleCheck.GetOrderCheckedFailsOnlyOnCycles | crates/config/src/deserialize_env.rs:38-66 | The checked order fails only on utilities that admit no acyclicity ranking. |
| CycleCheck.SelfCycleRejected | crates/config/src/deserialize_env.rs:54-66 | The self-referring utility is reported as a cycle at its own id. |
| CycleCheck.VisitWithin | crates/config/src/deserialize_env.rs:54-66 | A budgeted walk that finishes only extends the sorter and leaves a known id seen. A zero budget never finishes. |
| CycleCheck.VisitDependentRuleIdsWithin | crates/config/src/deserialize_env.rs:69-90 | A budgeted walk over a rule's references that finishes only extends the sorter and leaves every known reference seen. |
| CycleCheck.VisitSubRulesWithin | crates/config/src/deserialize_env.rs:77-86 | A budgeted walk over a sub-rule list that finishes only extends the sorter and leaves every known reference seen. |
| CycleCheck.GetOrderChecked | crates/config/src/deserialize_env.rs:38-44 | A checked order lists only utilities, and lists every key that is a utility. A reported cycle names a utility. |
| CycleCheck.VisitCheckedWellFormed | crates/config/src/deserialize_env.rs:54-66 | A successful checked walk from an id keeps the order duplicate-free, dependencies-first and equal to the seen set. |
| CycleCheck.VisitDependentRuleIdsCheckedWellFormed | crates/config/src/deserialize_env.rs:69-90 | A successful checked walk over a rule's references keeps the sorter well formed. |
| CycleCheck.VisitSubRulesCheckedWellFormed | crates/config/src/deserialize_env.rs:77-86 | A successful checked walk over a sub-rule list keeps the sorter well formed. |
| CycleCheck.VisitKeysCheckedWellFormed | crates/config/src/deserialize_env.rs:40-42 | A successful checked key loop keeps the sorter well formed. |
| CycleCheck.GetOrderCheckedWellFormed | crates/config/src/deserialize_env.rs:38-44 | A successful checked order has no duplicates, puts every dependency before its dependant, and lists every utility key. |
| CycleCheck.Position | crates/config/src/deserialize_env.rs:38-44 | Returns the first index at which an id occurs in the order. |
| CycleCheck.RankFromOrder | crates/config/src/deserialize_env.rs:38-66 | An order that lists every utility after its dependencies yields an acyclicity ranking: each id's position. |
| CycleCheck.DependencyBefore | crates/config/src/deserialize_env.rs:38-66 | An id listed before position j of an order is first found before j; with the dependencies-first invariant this places each dependency before its dependant. |
| CycleCheck.GetOrderCheckedRejectsCycles | crates/config/src/deserialize_env.rs:38-66 | When the keys cover the map, the checked order fails exactly when the utilities admit no acyclicity ranking, that is, exactly on reference cycles. |
| CycleCheck.MutualCycleUnranked | crates/config/src/deserialize_env.rs:54-66 | Two utilities that refer to each other through `matches` have no acyclicity ranking. |
| CycleCheck.MutualCycleRejected | crates/config/src/deserialize_env.rs:38-66 | The checked order rejects the two mutually referring utilities in either key order. |
| UtilRegistration.Fold | crates/config/src/deserialize_env.rs:107-113 | The items processed form a prefix of the input. The fold succeeds exactly when every item was processed. An empty input succeeds at once with the starting environment. |
| UtilRegistration.FoldFailsAtFirstFailure | crates/config/src/deserialize_env.rs:107-113 | On failure, the items before the failing one were all processed successfully. The step on the next item produced exactly the reported error. |
| UtilRegistration.FoldIgnoresRestAfterFailure | crates/config/src/deserialize_env.rs:107-113 | Items after the failing one are never looked at. |
| UtilRegistration.FoldSnoc | crates/config/src/deserialize_env.rs:107-113 | Folding a list with one more item is folding the list and then, unless it failed, running the step on that item from the environment built so far. A failing step keeps the items done. A succeeding step adds the item. |
| UtilRegistration.FoldPrefixSucceeds | crates/config/src/deserialize_env.rs:107-113 | Folding any prefix no longer than the items processed succeeds. |
| UtilRegistration.FoldStepAt | crates/config/src/deserialize_env.rs:107-113 | Each processed item was stepped from the environment built over the items before it, and that step produced the environment of the next prefix. |
| UtilRegistration.LocalStep | crates/config/src/deserialize_env.rs:109-111 | A deserialization failure becomes `Deserialize` with its cause. Otherwise an insertion failure becomes `MatchesReference` with its reason. Otherwise the result is the registry after insertion. |
| UtilRegistration.Entries | crates/config/src/deserialize_env.rs:108-109 | Pairs every id of the order with its rule from the map, which is the `expect("must exist")` lookup. |
| UtilRegistration.RegisterInOrder | crates/config/src/deserialize_env.rs:108-113 | The registered ids form a prefix of the order, each with its own rule. Registration succeeds exactly when the whole order was registered. An empty order registers nothing. |
| UtilRegistration.RegisterInOrderSnoc | crates/config/src/deserialize_env.rs:108-113 | Registering one more id runs `LocalStep` on it against the registry built so far, unless registration had already failed. A failing step keeps what was registered. A succeeding step adds the id. |
| UtilRegistration.RegisterInOrderStepAt | crates/config/src/deserialize_env.rs:108-113 | Each registered rule was deserialized and inserted against the registry built from exactly the ids before it in the order, and that gave the registry of the next prefix. |
| UtilRegistration.RegisterLocalUtils | crates/config/src/deserialize_env.rs:103-114 | Every registered entry is a utility with its own rule. A cycle fails before anything is registered. Otherwise the result is exactly the step-by-step registration `RegisterInOrder` over the checked order, whose ids are all utilities. |
| UtilRegistration.RegisterLocalUtilsInDependencyOrder | crates/config/src/deserialize_env.rs:103-114 | On acyclic utilities whose keys cover the map, registration is `RegisterInOrder` over `get_order`. Each registered rule's utility dependencies were registered before it. Registration succeeds exactly when every utility was registered. |
| UtilRegistration.DependenciesFirstPrefix | crates/config/src/deserialize_env.rs:38-66 | A prefix of a dependencies-first order is dependencies-first. |
| UtilRegistration.RegisteredAfterDependencies | crates/config/src/deserialize_env.rs:103-114 | When the registered ids are dependencies-first, each registered rule's utility dependencies come earlier among them. |
| UtilRegistration.GlobalStep | crates/config/src/deserialize_env.rs:121-124 | A matcher failure becomes `Matcher` with its cause. Otherwise an insertion failure becomes `InsertRefused` with its reason. Otherwise the result is the registry after insertion. |
| UtilRegistration.ParseGlobalUtils | crates/config/src/deserialize_env.rs:116-127 | The cores processed form a prefix of the list, in list order. Success means every core was inserted. An empty list gives the empty registry. |
| UtilRegistration.ParseGlobalUtilsSnoc | crates/config/src/deserialize_env.rs:120-125 | Parsing one more core runs `GlobalStep` on it against the registry built so far, unless parsing had already failed. A failing step keeps the cores done. A succeeding step adds the core. |
| UtilRegistration.ParseGlobalUtilsFirstFailure | crates/config/src/deserialize_env.rs:120-125 | On failure, every core before the failing one was built and inserted. The matcher or insertion of that core produced exactly the reported error. |
| Text.AsciiByteLength | crates/cli/src/utils/mod.rs:302-304 | For ASCII text, `len()` is the number of characters. |
| Text.ByteLength | crates/cli/src/utils/mod.rs:302-304 | The UTF-8 length `len()` of a string lies between its number of characters and four times that. |
| Text.FirstNewline | crates/cli/src/utils/mod.rs:302-304 | Returns the position of the first line feed, or the length when there is none. |
| Text.LineCount | crates/cli/src/utils/mod.rs:302-304 | A text has no more lines than characters, and no lines exactly when it is empty. |
| Text.CountNewlinesAtMostLength | crates/cli/src/utils/mod.rs:302-304 | A text has no more line feeds than characters. |
| Text.CountNewlinesBelowLength | crates/cli/src/utils/mod.rs:302-304 | A text not ending in a line feed has fewer line feeds than characters. |
| Text.LastNewlineCounted | crates/cli/src/utils/mod.rs:302-304 | A text ending in a line feed counts at least one. |
| Text.Lines | crates/cli/src/utils/mod.rs:302-304 | No line holds a line feed, and there are no more lines than characters. |
| Text.CountNewlinesAtFirst | crates/cli/src/utils/mod.rs:302-304 | Splitting at the first line feed counts that line feed plus those of the rest. |
| Text.CountNewlinesAppend | crates/cli/src/utils/mod.rs:302-304 | Line feeds of a concatenation add up. |
| Text.NoNewlineCount | crates/cli/src/utils/mod.rs:302-304 | Text without line feeds counts none. |
| Text.LineCountIsNumberOfLines | crates/cli/src/utils/mod.rs:302-304 | The closed-form line count equals the number of lines `str::lines` yields. |
| Text.SingleLine | crates/cli/src/utils/mod.rs:302-304 | Non-empty text without a line feed is one line. |
| Text.OnlyNewlines | crates/cli/src/utils/mod.rs:302-304 | Text made only of line feeds has as many lines as characters. |
| Text.OnlyNewlinesCount | crates/cli/src/utils/mod.rs:302-304 | Text made only of line feeds counts one line feed per character. |
| Text.Contains | crates/cli/src/utils/mod.rs:267 | A found needle fits in the text. The empty needle is always found. A needle at the end of the text is found. |
| Text.ContainsIffOccurs | crates/cli/src/utils/mod.rs:267 | The substring scan finds the needle exactly when it occurs at some position. |
| FileFilter.FileTooLargeByLines | crates/cli/src/utils/mod.rs:299-304 | A file is too large exactly when it has more than 3,000,000 bytes AND more than 200,000 lines as `str::lines` counts them. |
| FileFilter.LongSingleLineKept | crates/cli/src/utils/mod.rs:299-304 | A single line over the byte bound is not too large. |
| FileFilter.ManyShortLinesKept | crates/cli/src/utils/mod.rs:299-304 | Over 200,000 empty lines within the byte bound are not too large. |
| FileFilter.OverBothBoundsSkipped | crates/cli/src/utils/mod.rs:299-304 | A file over both bounds is too large. |
| FileFilter.FileTooLarge | crates/cli/src/utils/mod.rs:299-304 | A too-large file has more than 750,000 characters, so shorter files are never skipped for size. |
| FileFilter.ReadFile | crates/cli/src/utils/mod.rs:203-215 | Yields the file content exactly when the read succeeds, the content is non-empty, and the content is within at least one of the two bounds. Otherwise the file is skipped. |
| FileFilter.Filter | crates/cli/src/utils/mod.rs:217-231 | Yields the scan result exactly when its hit set is non-empty. |
| FileFilter.FindDoc | crates/cli/src/utils/mod.rs:247 | Finds the first document in the given language, and None exactly when no document has that language. |
| FileFilter.UnitLangs | crates/cli/src/utils/mod.rs:244-253 | Lists the language of each unit, position by position. |
| FileFilter.InjectedUnit | crates/cli/src/utils/mod.rs:246-251 | Yields a unit exactly when the language has an injected document and the scan of its first one hits something. The unit is that document with its scan result. |
| FileFilter.LayerOrderCons | crates/cli/src/utils/mod.rs:244-253 | Putting one more language's optional unit in front keeps the unit languages a subsequence of the languages. |
| FileFilter.SoundForCons | crates/cli/src/utils/mod.rs:244-295 | Putting one more item's result, if any, in front of the results of the later items keeps every result the one its own key yields, for a key that is listed. This serves both the injected-language loop and the injected-matcher loop. |
| FileFilter.CompleteForCons | crates/cli/src/utils/mod.rs:244-295 | Putting one more item's result, if any, in front of the results of the later items keeps the result of every listed item present. |
| FileFilter.FilterMapNil | crates/cli/src/utils/mod.rs:244-295 | An empty item list filter-maps to the empty list. |
| FileFilter.FilterMapCons | crates/cli/src/utils/mod.rs:244-295 | One more item in front, with its result (if any) in front of the others' results, keeps a filter-map: the index witness gains position 0 for a hit and shifts the rest up. |
| FileFilter.FilterMapUncons | crates/cli/src/utils/mod.rs:244-295 | A filter-map of a non-empty list starts with the first item's result exactly when it has one, and its remainder filter-maps the remaining items. |
| FileFilter.FilterMapUnique | crates/cli/src/utils/mod.rs:244-295 | Two lists that both filter-map the same items through the same step are equal, so the filter-map fixes order and multiplicity. |
| FileFilter.InjectedLayersCons | crates/cli/src/utils/mod.rs:244-253 | One more language in front: its kept unit, if any, in front of the others' units gives exactly the filter-map of the longer list, in order. |
| FileFilter.InjectedLayersAreUnits | crates/cli/src/utils/mod.rs:244-253 | Kept injected units are about this file, hit something, and come from the injected documents. |
| FileFilter.InjectedUnits | crates/cli/src/utils/mod.rs:244-253 | The units are the filter-map of the listed languages through `InjectedUnit`: one unit for each listed language whose first injected document has a non-empty hit set, in list order, once per listing. Each unit is the `InjectedUnit` of its own language, which is listed. |
| FileFilter.InjectedLayersExact | crates/cli/src/utils/mod.rs:244-253 | Any list meeting the injected-layer description equals `InjectedUnits`. |
| FileFilter.RepeatedLanguageTwice | crates/cli/src/utils/mod.rs:244-253 | A language listed twice whose unit is kept contributes that unit twice. |
| FileFilter.RootUnits | crates/cli/src/utils/mod.rs:241-243 | The root layer contributes its unit exactly when its scan hit something. |
| FileFilter.InjectedPart | crates/cli/src/utils/mod.rs:244-253 | Empty when the language declares no injectable languages. Otherwise the units are the filter-map of the declared list through `InjectedUnit`, in its order. Every unit is about this file and hit something. |
| FileFilter.UnitsForAppend | crates/cli/src/utils/mod.rs:241-253 | Concatenating the root and injected parts keeps every unit about this file with a non-empty hit set. |
| FileFilter.FilterFileInteractive | crates/cli/src/utils/mod.rs:233-255 | None exactly when the language is unknown or the read skips the file. Otherwise the root's unit comes first exactly when the root scan hit something. The units after it are the filter-map of the declared injectable languages, in order. There are none when the language declares no injectable languages. |
| FileFilter.DoMatch | crates/cli/src/utils/mod.rs:265-281 | Yields the match unit with its language exactly when the fixed-string check passes and the pattern is found in the layer. |
| FileFilter.RejectionSkipsSearch | crates/cli/src/utils/mod.rs:266-269 | When a non-empty fixed string does not occur in the file, the result is None whatever the structural search would say. |
| FileFilter.EmptyFixedStringNeverRejects | crates/cli/src/utils/mod.rs:266-270 | With an empty fixed string the result depends only on the structural search. |
| FileFilter.PresentFixedStringNeverRejects | crates/cli/src/utils/mod.rs:266-270 | When the fixed string occurs in the file, the result depends only on the structural search. |
| FileFilter.OptionToSeq | crates/cli/src/utils/mod.rs:284 | Converts an optional unit into the zero or one units `Vec::extend` adds. |
| FileFilter.PairLangs | crates/cli/src/utils/mod.rs:287-295 | Lists the language paired with each unit, position by position. |
| FileFilter.InjectionMatch | crates/cli/src/utils/mod.rs:288-294 | Yields a unit exactly when the matcher's language has an injected document and `do_match` accepts the matcher on the first one. The unit is that document with the matcher, paired with the language. |
| FileFilter.MatchOrderCons | crates/cli/src/utils/mod.rs:286-295 | Putting one more matcher's optional unit in front keeps the unit languages a subsequence of the matcher languages. |
| FileFilter.MatchLayersCons | crates/cli/src/utils/mod.rs:286-295 | One more matcher in front: its match, if any, in front of the others' matches gives exactly the filter-map of the longer matcher list. |
| FileFilter.MatchInjections | crates/cli/src/utils/mod.rs:286-295 | The units are the filter-map of the matchers through `InjectionMatch`: one unit for each matcher that matches the first injected document of its language, in matcher order, once per matcher, including several matchers of one language. |
| FileFilter.MatchLayersExact | crates/cli/src/utils/mod.rs:286-295 | Any list meeting the injected-match description equals `MatchInjections`. |
| FileFilter.SameLanguageMatchersInOrder | crates/cli/src/utils/mod.rs:286-295 | Two matchers of one language that both match yield both units, in matcher order. |
| FileFilter.MatchLayersAreUnits | crates/cli/src/utils/mod.rs:286-295 | Injected matches are about this file, on an injected document in the language they are paired with. |
| FileFilter.RootMatch | crates/cli/src/utils/mod.rs:283-285 | Yields a unit exactly when a root matcher is given and `do_match` accepts it on the root document. |
| FileFilter.PatternUnits | crates/cli/src/utils/mod.rs:282-296 | The root match, when there is one, comes first. The rest are the filter-map of the injected matchers, in matcher order. Every unit is about this file. Without a root match every unit is on an injected document. |
| FileFilter.RootThenInjected | crates/cli/src/utils/mod.rs:282-296 | The optional root unit followed by the injected units: the root first when present, the injected units unchanged after it, every unit about this file, and without a root every unit on an injected document. |
| FileFilter.FilterFilePattern | crates/cli/src/utils/mod.rs:257-297 | None exactly when the read skips the file. Otherwise, when a root matcher is given and `do_match` accepts it on the root document, its unit comes first. The units after it are the filter-map of the injected matchers, in matcher order. Every unit is about this file. |
| FileFilter.InjectedUnitsOnePerLang | crates/cli/src/utils/mod.rs:244-253 | With distinct injectable languages, the injected units are in distinct languages drawn from that list. |
| Prompt.Decide | crates/cli/src/utils/mod.rs:68-77 | Enter answers with the default when there is one. Otherwise a key answers exactly when it is one of the letters. Every other key is retried. |
| Prompt.Prompt | crates/cli/src/utils/mod.rs:66-79 | An answer is one of the letters or the default. There is no answer exactly when every key press was retried. An answer comes from the first key press that was not retried. |
| Prompt.EnterWithoutDefault | crates/cli/src/utils/mod.rs:69-76 | Without a default, Enter answers only when a line feed is one of the letters. |
| Prompt.DefaultNeedNotBeListed | crates/cli/src/utils/mod.rs:69-73 | The default answers Enter even when it is not among the letters. |
| Prompt.LaterKeysIgnored | crates/cli/src/utils/mod.rs:66-79 | Key presses after the answering one are never read. |

## Left out

- Terminal I/O is left out because it is input and output: `read_char`, `prompt_reply_stdout`, `clear`, `run_in_alternate_screen`, and the "Unrecognized command" message. Key presses arrive as a sequence, with Enter as a line feed. Running out of key presses stands in for a failing terminal read.
- The work-item plumbing is left out because it is concurrency: `Worker`, `PathWorker`, `StdInWorker`, `run_worker`, `Items`, and the mpsc channel.
- `filter_result` is left out because it depends on directory-walk entries and file-system metadata.
- The following are parameters, because their code is not part of this model: parsing (`ast_grep`), `get_injections`, `CombinedScan::find`, `Pattern::find`/`fixed_string`, `deserialize_rule`, `get_matcher`, and the registry insertions (`insert_local`, `GlobalRules::insert`). A parsed document is identified by its language and source text.
- `read_file` prints "Cannot read file" with the error to standard error when reading fails (crates/cli/src/utils/mod.rs:204-206). The model keeps only the skip (None), because the message is output.
- The internals of `RuleRegistration` and `GlobalRules` are not part of this model. The registry is a type parameter threaded through the fold.
- `DeserializeEnv::new` and `with_globals` are left out because they only construct the environment.
- The `DepedentRule` impl for `SerializableRuleCore` is left out because `parse_global_utils` does not sort. It builds matchers in list order.
- Rule fields other than `matches`, `all`, `any` and `not` are left out because the walk never looks at them. This covers atomic rules, relational rules, and the `not` sub-rule itself. A reference made only inside `inside`, `has`, `precedes`, `follows` or `not` therefore imposes no order, exactly as in the code.
- HashMap iteration order is left out because it is unspecified. It becomes the `keys` parameter, and the order theorems hold for every key sequence.
- Line splitting counts `\r\n` endings as `str::lines` does. It only affects line contents, which the size check never reads.
- UtilRegistration.RegisterLocalUtils: walks with the cycle-checked order rather than the order as written. The two agree on every acyclic input (CycleCheck.GetOrderCheckedAgrees). The cycle error `CyclicRule` has no counterpart in the code, which does not terminate on such input (see Findings).
- UtilRegistration.Fold: records the items processed so far (`done`) as a modelling device. The code keeps only the environment.
- RuleDeps.Visit: requires an acyclicity ranking (`Ranked`) so that the walk as written is a terminating function. Cyclic inputs are covered by CycleCheck instead.

## Findings

| source | as written | input that shows it | evidently intended | confidence | as-written member | corrected member |
|---|---|---|---|---|---|---|
| crates/config/src/deserialize_env.rs:54-66 | `visit` checks `seen` first, but inserts the id into `seen` only after visiting the id's dependencies. A utility reachable from itself through `matches` (directly or through `all`/`any`) is revisited without end, and registration never returns. | the local utilities `{a: {matches: a}}` | Registration rejects cyclic utility references with an error, and on acyclic input keeps the order it computes today. | not executed | CycleCheck.SelfCycleExhaustsEveryDepth | CycleCheck.GetOrderCheckedRejectsCycles |
