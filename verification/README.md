# Soong core logic in Dafny

A model of the parts of Soong, Android's build system, whose correctness is not visible from one
function at a time, with proofs of what they promise for every input, every run or every graph.

- **Dependency sets** (`DepSets.dfy`, `Lists.dfy`). A DAG of immutable nodes is flattened by a walk
  that enters each node once. The result equals what listing the unfolded tree and dropping
  repetitions would give, in all three orders; for TOPOLOGICAL it is said exactly when one element
  comes before another.
- **The once-per-key cache** (`OncePer.dfy`, `OnceDeadlocks.dfy`). Any number of concurrent `Once` and
  `Get` calls as a transition system over their atomic steps, constructors that call `Once` and `Get`
  themselves included; safety over every interleaving, and exactly when a deadlock is possible.
- **Namespaces** (`Namespaces.dfy`). The upward search with a cache, over every run of searches,
  declarations and sorting; the cheap test in `addNamespace` is shown to refuse exactly what it must.
- **Walking dependencies** (`DepWalk.dfy`). The path that `WalkDeps` rebuilds from a stream of
  visits is the dependency path it promises.
- **APEX mutators** (`ApexInfos.dfy`, `ApexDeps.dfy`, `ApexUnique.dfy`, `MergedNames.dfy`,
  `ApexMerge.dfy`). Which APEXes a module ends up in, which modules need unique variations, and how
  variations are merged and aliased: closed forms over the dependency graph, for any visit order of
  the parallel walks, through all three mutators.
- **Visibility** (`Visibility.dfy`, `VisibilityLists.dfy`, `EffectiveVisibility.dfy`). Checking,
  parsing, overriding and printing visibility rules, and the round trip through the printed form,
  from lists that pass `checkRules` to what the enforcer admits.
- **Command lines and expansion** (`Ninja.dfy`, `Expand.dfy`, `RuleCommands.dfy`,
  `RuleBuilders.dfy`). Expansion is characterised by a language of tokens and its errors; what ninja
  makes of escaped text is the unescaped text; sandboxed command lines name the paths they were made of.
- **Paths** (`CleanPaths.dfy`, `RelativePaths.dfy`, `DirectoryPaths.dfy`). Validated joins never leave
  their base; relative paths lead back to their target; two binary searches find the entries below a
  directory. What a path means is defined by following it from a directory, apart from how it is cleaned
  (`PathMeanings.dfy`).

`Orders.dfy` holds string order and sorting, `Wrappers.dfy` the option and result types.

Objects that the source updates in place are classes, loops over slices are loops over arrays or
sequences, and each such method is tied to a function about which the theorems are proved.

Where the code does not do what its documentation says, or what one would expect, the code is
modelled as it is, a concrete counterexample is given and the exact condition is proved:

- `UpdateApexDependency` overwrites the flag of each listed APEX with the flag of the variation, so
  that a recorded direct dependency can be lost (`UpdateEntryCanLose`, `UpdateEntryLosesNothing`).
  Its one caller, `apexDepsMutator`, passes records that list themselves alone, and for those nothing
  is lost (`OwnNameLosesNothing`).
- `mergedName` glues SDK names and versions with underscores, so that different SDKs can share a
  name (`UnderscoresCollide`, `MergedNameTellsSdks`, `SuffixTellsSdks`).
- `PathForOutput(".")` stores the last character of the build directory as the path
  (`PathForOutputDot`, `PathForOutputStoresPath`).
- `PathsInDirectory` finds nothing in `.` and `/`, and passes over an entry that is the prefix itself
  (`CurrentDirectoryFindsNothing`, `PrefixMeansBelow`, `SelectsAllPrefixed`).
- The printed form of a rule with two private entries is read back as private everywhere; two
  accepted lists make such a rule (`TwoPrivateArise`, `ManyPrivateExplicit`, `PrintedRulesRoundTrip`).
  For a module without any effective rule nothing is printed, which as a list would match nobody
  (`NothingPrintedAdmitsNobody`); the callers in `sdk/update.go` write no list then.
- A rule like `:__pkg__`, accepted in one package and read in a package named `visibility`, becomes
  a nil rule (`StrayEntryMakesNil`, `NilRuleExactly`).
- Duplicate direct elements can break the TOPOLOGICAL order, as its documentation says
  (`DuplicatedParent`, `TopologicalExactly`).
- An output outside the sbox directory is written as the sbox directory itself (`OutputOutsideSbox`,
  `OutputTextDenotes`). The source does this on purpose: it has no place to report the error there, and
  `Build` reports it for every output of the rule.
- Constructors can deadlock on each other's keys, or on their own (`OwnKeyDeadlocks`, `CycleDeadlocks`,
  `DeadlockFreeExactly`).
- A ninja variable without braces, left unescaped in an expansion, goes on with a letter that follows it
  (`BareVariableFails`, `NinjaSeesExactly`).

## Model

| member | source | states |
|---|---|---|
| Lists.FirstUniqueInPlace | android/paths.go:475-488 | the kept prefix of the array is each element of the old contents once, at the place of its first copy |
| Lists.FirstUniqueElements | android/util.go:193-208 | keep-first loses no element and leaves no duplicate |
| Lists.LastUniqueInPlace | android/paths.go:501-515 | the kept suffix of the array is keep-last of the old contents, although survivors are shifted over slots that are still to be read |
| Lists.DropEarlierCopies | android/paths.go:504-511 | the inner loop removes exactly the copies of a[i] from the unfinished part, keeps the order of the rest, and leaves everything from i on alone |
| Lists.LastUniqueElements | android/util.go:210-226 | keep-last loses no element and leaves no duplicate |
| Lists.LastUniqueKeepsLastOrder | android/util.go:210-226 | kept elements stand in the order of their last copies |
| Lists.LastUniqueDetermined | android/util.go:210-226 | no other list has these elements once each in the order of their last copies |
| Lists.LastUniqueMirrorsFirstUnique | android/paths.go:499-515 | keep-last is keep-first of the reversed list, reversed |
| Lists.LastUniqueFollows | android/paths.go:499-515 | keep-last puts x before y if and only if every copy of x has a y after it |
| Lists.ReverseInPlace | android/depset.go:178-182 | swapping inward from both ends reverses the slice and touches nothing beyond it |
| Lists.ReversedCopy | android/depset.go:184-190 | the copy holds the elements in reverse order |
| DepSets.DepSet.constructor | android/depset.go:72-101 | a node keeps its order and, read back through the stored reversal, its contents and dependencies; everything below it shares its order and is older |
| DepSets.NewDepSet | android/depset.go:72-101 | panics exactly when a dependency has another order; otherwise the node has the given contents and dependencies |
| DepSets.DepSetBuilder.Direct | android/depset.go:108-113 | direct elements collect to the right |
| DepSets.DepSetBuilder.Transitive | android/depset.go:115-120 | dependencies collect to the right |
| DepSets.DepSetBuilder.Build | android/depset.go:103-126 | builds the node of everything collected so far, and panics exactly as NewDepSet does |
| DepSets.Walker.Descend | android/depset.go:134-148 | the recursive closure with its shared visited map and list is the functional depth-first walk |
| DepSets.Walker.Walk | android/depset.go:130-151 | every reachable node is visited exactly once, nothing else is, and up to repetitions the collected list is the unfolded tree |
| DepSets.WalkVisitsReachable | android/depset.go:130-151 | the nodes emitted are the reachable ones, without duplicates |
| DepSets.DfsMatches | android/depset.go:130-151 | entering a node in the middle of a walk appends, up to repetitions, its whole unfolding, although shared nodes are skipped |
| DepSets.WalkMatchesUnfolding | android/depset.go:130-151 | keep-first of the walk equals keep-first of the naive unfolding, for every DAG |
| DepSets.UnfoldIsListing | android/depset.go:72-101 | unfolding the stored lists gives the preorder or postorder of the given ones, and for TOPOLOGICAL the reverse of the preorder |
| DepSets.DepSet.ToList | android/depset.go:153-169 | PREORDER and POSTORDER give keep-first of the naive listing, TOPOLOGICAL gives keep-last of the naive left-to-right preorder |
| DepSets.TopologicalExactly | android/depset.go:26-31 | TOPOLOGICAL lists x before y if and only if each place of x in the graph has a y further on in its node, below it, or to the right of the path to it |
| DepSets.TopologicalGuarantee | android/depset.go:26-31 | a child's element is listed after the parent's if every node with the parent's element has the child's below it |
| DepSets.ChildrenAfterParents | android/depset.go:26-31 | elements of every node below u come after u's element if no other node has that element; the child's element may be duplicated |
| DepSets.DuplicatedParentListedLast | android/depset.go:28-31 | in any graph of this form a duplicated parent element is listed after its child |
| DepSets.DuplicatedParent | android/depset.go:28-31 | such a graph, built with NewDepSet and flattened with ToList |
| OncePer.InvPreserved | android/onceper.go:28-80 | every atomic step of every call keeps the invariant that ties map entries, waiters and the positions of all calls |
| OncePer.RunInvariant | android/onceper.go:28-80 | the invariant holds in every state of every interleaving |
| OncePer.RunGrows | android/onceper.go:45-69 | no step ever removes a key, changes a constructed value, reopens a channel or changes a finished call |
| OncePer.ConstructorRunsOnce | android/onceper.go:42-69 | in a run at most one step starts the constructor of a key |
| OncePer.CallsAgree | android/onceper.go:42-69 | all calls on a key that return, whenever they return, return the same value |
| OncePer.CallsReturnConstructed | android/onceper.go:42-69 | that value is what the one constructor returned |
| OncePer.CallsReturnNilAfterPanic | android/onceper.go:42-69 | all other calls on the key return nil if the constructor panicked |
| OncePer.PanicPropagates | android/onceper.go:45-69 | a finished call has panicked with its constructor if and only if an action of the run was that panic; a call whose constructor returned v returns v |
| OncePer.ReturnedWasConstructed | android/onceper.go:42-80 | whatever a call returns was made by a constructor of its key that ended before, nil by one that panicked |
| OncePer.GetPanicsExactly | android/onceper.go:71-80 | Get panics if and only if no step before its load has started the key's constructor |
| OncePer.OnlyGetPanics | android/onceper.go:71-80 | a call that looks for a value, or panics for want of one, was begun as Get on its key |
| OncePer.OnlyOnceConstructs | android/onceper.go:42-69 | a call that runs a constructor, or panics with it, was begun as Once on its key |
| OncePer.NoInternalPanic | android/onceper.go:28-40 | the "still not valid" panic and a second close of a channel are unreachable |
| OncePer.GetAfterOnce | android/onceper.go:71-80 | after some call on the key has returned, Get does not panic |
| OncePer.WaiterIsOwedAClose | android/onceper.go:28-69 | a blocked call waits for a channel that is closed, or that a running call on the same key still has to close; that call has a step to take unless its constructor waits for a call of its own |
| OncePer.ActionsUseFuel | android/onceper.go:28-80 | every step of a begun call uses up a bounded number of remaining steps, so without new calls, nested ones included, no run goes on forever |
| OnceDeadlocks.DeadlockFreeExactly | android/onceper.go:28-80 | no run in which constructors use these keys ends with calls blocked for good if and only if the keys are not used in a circle: no key, by way of the constructors of distinct keys, uses itself |
| OnceDeadlocks.DeadlockHasCycle | android/onceper.go:28-69 | the calls that are blocked for good give such a circle of keys |
| OnceDeadlocks.CycleDeadlocks | android/onceper.go:45-69 | for every circle of keys, of any length, there is a run that uses it and ends in a deadlock |
| OnceDeadlocks.OwnKeyDeadlocks | android/onceper.go:45-69 | a constructor that calls Once on its own key can wait for itself for good |
| OnceDeadlocks.RanksExcludeDeadlock | android/onceper.go:45-69 | keys with ranks that fall from each key to the keys it uses cannot deadlock |
| Namespaces.NameResolver.constructor | android/namespace.go:90-100 | starts with the root namespace alone |
| Namespaces.NameResolver.AddNamespace | android/namespace.go:124-139 | outcome and new state are those of the transition function, and the cache invariant is kept |
| Namespaces.NameResolver.SortedItems | android/namespace.go:49-60 | a permutation of the declared namespaces in the order of their path strings; later declarations panic |
| Namespaces.NameResolver.FindNamespace | android/namespace.go:151-163 | the answer, never nil, is the namespace of the longest declared prefix of the directory's components, and every directory passed is cached |
| Namespaces.FindIsNearest | android/namespace.go:150-163 | in every state with the invariant the cached search equals the uncached one and gives the namespace of the longest declared prefix |
| Namespaces.NearestExactly | android/namespace.go:150-163 | the upward search finds nothing if and only if no declared directory is a prefix; otherwise it finds the longest one's namespace, and no other |
| Namespaces.PathStrings | android/namespace.go:49-60 | the strings by which namespaces are sorted: "." for the root, otherwise the components with slashes between them |
| Namespaces.FindKeepsInv | android/namespace.go:150-163 | a search keeps every cache entry equal to the nearest declared namespace, and declares nothing |
| Namespaces.AddChangesNoCachedAnswer | android/namespace.go:124-139 | a declaration outside the cache changes the nearest namespace of no cached directory |
| Namespaces.AddKeepsInv | android/namespace.go:124-139 | a declaration, accepted or refused, keeps the cache invariant |
| Namespaces.RunInvariant | android/namespace.go:124-163 | the cache invariant holds after every run of declarations, searches and sorting |
| Namespaces.AnswersNeverChange | android/namespace.go:124-163 | an answer given for a directory is the right answer, and the one given, at every later time of the run |
| Namespaces.CachedWasPassed | android/namespace.go:150-163 | every cached directory that is not declared was passed by a search for an answer already given |
| Namespaces.AddAcceptsExactly | android/namespace.go:124-139 | in every state of every run: "already exists" exactly if the directory has a namespace, otherwise "not first in file" exactly if an answer already given would change, otherwise a panic exactly if the list was sorted before, and otherwise accepted |
| DepWalk.WalkContext.Visit | android/module.go:1713-1727 | the pop loop and the two appends compute the tracked path |
| DepWalk.PopRemovesLeftovers | android/module.go:1717-1721 | popping stops at the right place: in an acyclic graph the parent is not among the leftovers of earlier visits |
| DepWalk.WalkFromIsGood | android/module.go:1710-1729 | walking a module's dependencies keeps the path to the module at the bottom, and every visit sees a promised path |
| DepWalk.WalkDepsTracksPath | android/module.go:127-136 | for every acyclic graph, visiting function and visit the path is never emptied, leads from the start module to the child, and tag i belongs to the edge from module i to module i + 1 |
| DepWalk.WalkDeps | android/module.go:1710-1729 | what the visiting function sees at each visit of a whole walk is such a path |
| DepWalk.WalkVisitsReached | android/module.go:1710-1729 | a walk visits exactly the edges whose parent is reached from the start by admitted visits |
| ApexInfos.ApexModuleBase.BuildForApex | android/apex.go:243-252 | the first record of a name stays, later ones are dropped, and names stay distinct |
| ApexInfos.UpdateEntryReads | android/apex.go:425-437 | after an update the variation and every APEX it lists read as the variation's old flag or the new one; nothing else changes |
| ApexInfos.UpdateEntryKeys | android/apex.go:425-437 | an update adds the variation and the APEXes it lists to the entry and removes none |
| ApexInfos.UpdateEntryLosesNothing | android/apex.go:425-437 | recorded direct dependencies survive an update if and only if each listed APEX that has one is covered by the variation's own flag or by this call |
| ApexInfos.OwnNameLosesNothing | apex/apex.go:801-820 | for a record that lists itself alone, which is all the mutator passes, no recorded direct dependency is lost |
| ApexInfos.UpdateEntryCanLose | android/apex.go:433-436 | an update after which a recorded direct dependency is gone |
| ApexInfos.ApexNames.UpdateApexDependency | android/apex.go:425-437 | the global map changes in the entry of this module name alone, as UpdateEntry says |
| ApexInfos.ApexNames.DirectlyInApex | android/apex.go:447-456 | true exactly if the module name has an entry for the APEX name and that entry is true |
| ApexDeps.Marker.Visit | apex/apex.go:808-823 | a visit is admitted exactly for a child that can have APEX variants and stays in the APEX; then both records are updated, otherwise nothing |
| ApexDeps.MarkedNames | apex/apex.go:793-824 | after any sequence of marks a module's record names are distinct and are those of the APEXes that marked it |
| ApexDeps.RegisteredExactly | apex/apex.go:791-824 | whatever the order of all visits, a module is registered under exactly the names of the bundles that contain it: enabled, not VNDK, and with a path of one or more dependency edges to the module, between android modules, each to a child that can have APEX variants and is in the same APEX |
| ApexDeps.InfosExactly | apex/apex.go:793-824 | if bundles of one name that contain the module agree, its records are exactly those that say what such a bundle says, field by field |
| ApexDeps.OrderIsIrrelevantExactly | android/apex.go:243-252 | the set of a module's records is the same for every interleaving of the bundles' walks, each in its own order, if and only if bundles of one name that contain the module agree |
| ApexDeps.InTurnInterleaves | apex/apex.go:793-824 | the walks one after the other are such an interleaving |
| ApexDeps.InterleavingIsAllEvents | apex/apex.go:793-824 | an interleaving makes exactly the admitted visits of the walking bundles, so that what holds for any order of them holds for it |
| ApexDeps.MarkedAreRegistered | apex/apex.go:801-807 | what the mutators leave behind has distinct names and lists itself, as the merge expects |
| ApexDeps.DirectExactly | android/apex.go:447-456 | DirectlyInApex holds exactly if an enabled, non-VNDK bundle of that name has such an edge of its own to a module of that name |
| ApexDeps.ListedExactly | android/apex.go:408-415 | the map has an entry at all for a module name and an APEX name exactly if a bundle of the one name contains a module of the other |
| ApexUnique.CollectApexes | android/apex.go:212-218 | the lists of all records, concatenated |
| ApexUnique.InSorted | android/apex.go:224-226 | binary search and comparison decide membership in a sorted list |
| ApexUnique.AnyInSameApex | android/apex.go:211-230 | sorting one side and searching for the other decides whether a record of each lists the same APEX |
| ApexUnique.UniquePass.UpdateUniqueApexVariationsForDeps | android/apex.go:232-240 | the flag is set exactly if some dependency in a common APEX is unique or flagged; other flags stay |
| ApexUnique.UniquePass.Run | apex/apex.go:826-835 | one bottom-up pass flags exactly the modules of the recursive definition |
| ApexUnique.UniqueExactly | android/apex.go:206-241 | a module is flagged if and only if a chain of one or more dependencies, each pair in a common APEX and all but the last enabled, leads to a module with unique variations |
| ApexUnique.ShareExactly | android/apex.go:211-230 | after apex_deps two modules share an APEX if and only if bundles of one name contain them |
| ApexUnique.UniqueFromGraph | apex/apex.go:793-835 | after apex_deps and apex_unique the flag is a property of the dependency graph alone: such a chain, with bundles of one name containing each pair |
| ApexUnique.UniqueIgnoresVisitOrder | apex/apex.go:793-835 | the flags do not depend on the order of the visits, even where the records do |
| MergedNames.ItoaInjective | android/apex.go:43 | different numbers are written differently |
| MergedNames.ItoaIsDecimal | android/apex.go:43 | a number is written in decimal digits that denote it, without leading zeros, and with a minus sign if it is negative |
| MergedNames.BuildMergedName | android/apex.go:42-48 | the loop that appends each SDK's name and version gives the merged name |
| MergedNames.SameMergedName | android/apex.go:42-48 | equal merged names mean equal minimum SDK versions and equal SDK suffixes, and conversely |
| MergedNames.SdkSuffixInjective | android/apex.go:44-46 | names and versions without underscores can be read back from the suffix |
| MergedNames.SuffixTellsSdks | android/apex.go:44-46 | the suffix tells a list of SDKs from all others of its length if and only if no name or version has an underscore |
| MergedNames.MergedNameTellsSdks | android/apex.go:42-48 | an APEX shares its merged name only with APEXes of the same required SDKs if and only if it requires none, or one without underscores |
| MergedNames.UnderscoresCollide | android/apex.go:44-46 | two different SDKs with one merged name |
| ApexMerge.MergeApexVariations | android/apex.go:340-361 | one entry for each merged name in order of first occurrence, listing its group, updatable if one of them is; an alias for each record |
| ApexMerge.CreateApexVariations | android/apex.go:363-403 | nothing without registrations; otherwise the empty variation first, then the sorted merged or unmerged ones, and aliases only if merged |
| ApexMerge.CreatedIgnoresOrder | android/apex.go:343-380 | lists of distinct names with the same records give the same variations, records and aliases |
| ApexMerge.VariantsIgnoreVisitOrder | apex/apex.go:902-907 | two orders of the parallel visits, each followed by its own apex_unique pass over its own records, lead to the same variations, or to none in both; disabled modules get none |
| ApexMerge.VariantsExactly | apex/apex.go:793-907 | after all three mutators a module has APEX variations exactly if it is enabled, can have them and a bundle contains it; together they list the names of exactly the bundles that contain it |
| ApexMerge.MergedExactly | android/apex.go:363-398 | the variations are merged and have aliases exactly if neither the module nor a chain of dependencies in common APEXes asks for unique ones |
| ApexMerge.ListedExactly | android/apex.go:340-403 | merged or not, the created variations together list exactly the registered APEXes |
| ApexMerge.AliasLeadsToOneVariation | android/apex.go:343-398 | each registered APEX has one alias target, which was created, lists the APEX and has its minimum SDK version; no other variation lists it |
| ApexMerge.VariationIsItsGroup | android/apex.go:343-361 | a variation lists exactly the registered APEXes of its merged name, once each, and is updatable if and only if one of them is |
| Ninja.DescapeUndoesEscape | android/makevars.go:340 | the replacer undoes escaping |
| Ninja.EvalEscaped | android/rule_builder.go:799-816 | ninja evaluates escaped text to the text, whatever follows it |
| Ninja.BracedIsDelimited | android/expand.go:25-28 | a variable in braces evaluates to its value, whatever follows it |
| Ninja.BareIsNotDelimited | android/expand.go:25-28 | a bare variable does not: the next character can join its name |
| Ninja.ClosedExactly | android/expand.go:25-28 | a text evaluates the same before any continuation and under all values if and only if it evaluates and does not end in a bare variable |
| Expand.GetMapping | android/expand.go:69-91 | after a dollar sign, (name) has the width of its text and the value of the trimmed name, a second dollar sign stands for itself, and each of the other texts gives its error, with the part before the first space in the suggestion |
| Expand.TrimsSpaceAround | android/expand.go:75 | the name looked up is the text between the parentheses without the space around it, and nothing else is removed |
| Expand.DoExpand | android/expand.go:44-67 | the two-index loop gives what reading from the left gives, value or error |
| Expand.ReferenceExpands | android/expand.go:53-63 | a reference is replaced by the value of its trimmed name and consumed exactly once, whatever follows |
| Expand.TokensExpand | android/expand.go:44-67 | texts, doubled dollar signs and references written one after the other expand to their meanings in order, or fail with the first error |
| Expand.ExpandsExactly | android/expand.go:44-91 | a text expands to v exactly if it is such a sequence with the meaning v, and fails with an error exactly if tokens that have meanings are followed by a text broken in the way of that error |
| Expand.ExpandVariables | android/expand.go:34-42 | the result is the one that this relation allows, without escaping |
| Expand.ExpandVariablesEscaped | android/expand.go:25-32 | the result is the one that this relation allows, with values escaped unless they are ninja variables |
| Expand.EscapedExpansion | android/expand.go:30-42 | without ninja variables the escaped expansion fails exactly when the plain one does, with the same error, and otherwise the replacer gives the plain one back |
| Expand.ExpandUndoesEscape | android/expand.go:34-42 | text with every dollar sign doubled expands to the text |
| Expand.NinjaSeesExpansion | android/expand.go:25-32 | ninja evaluates the escaped expansion to the plain expansion with the variables' values put in, if the variables that can be looked up are delimited under these values |
| Expand.NinjaSeesExactly | android/expand.go:25-32 | it does so for every text and all values if and only if no variable that a text can look up is malformed or ends in a bare one |
| Expand.BareVariableFails | android/expand.go:25-32 | with "$in" for "in", "$(in)x" becomes "$inx", which ninja reads as another variable |
| RuleCommands.NinjaEscapeExceptForSpans | android/rule_builder.go:799-816 | the loop escapes everything outside the spans and copies the spans |
| RuleCommands.EvalEscapedAround | android/rule_builder.go:799-816 | ninja evaluates the result to the raw text with $out expanded inside the spans alone |
| RuleCommands.RuleBuilderCommand.constructor | android/rule_builder.go:134-141 | an empty command with the given sbox flag and directory |
| RuleCommands.RuleBuilderCommand.Text | android/rule_builder.go:530-538 | one space between texts; recorded spans still read "$out.rsp" |
| RuleCommands.RuleBuilderCommand.Tool | android/rule_builder.go:594-599 | the tool is recorded and its path appended; spans stay right |
| RelativePaths.MaybeRelExactly | android/paths.go:1479-1491 | there is a relative path if and only if the target is at or below the base, and it is the clean path that, joined to the base, gives the target without leaving the base |
| RuleCommands.RecordedExactly | android/rule_builder.go:497-515 | exactly the paths that are not inside the sbox directory are recorded |
| RuleCommands.InputTextDenotes | android/rule_builder.go:497-505 | with the placeholder read as the sbox directory, a rewritten input names the path it was made of; any other is left as it is |
| RuleCommands.OutputTextDenotes | android/rule_builder.go:521-528 | in a sandbox the text of an output names the output if and only if that is inside the sbox directory; otherwise it is the placeholder and a slash |
| RuleCommands.OutputOutsideSbox | android/rule_builder.go:521-528 | the output "a" with sbox directory "out" is written as that directory |
| RuleCommands.RuleBuilderCommand.AddInput | android/rule_builder.go:497-505 | a path inside the sbox directory is not recorded and its text leads back to it; any other is recorded and written as it is |
| RuleCommands.RuleBuilderCommand.Input | android/rule_builder.go:619-623 | records the path exactly if it is outside the sbox directory and appends its text; spans stay right |
| RuleCommands.RuleBuilderCommand.Inputs | android/rule_builder.go:625-632 | exactly the paths outside the sbox directory are recorded, in order; the texts of all are appended, each naming its path |
| RuleCommands.RuleBuilderCommand.Implicit | android/rule_builder.go:634-639 | records exactly the paths outside the sbox directory and leaves the line alone |
| RuleCommands.RuleBuilderCommand.Output | android/rule_builder.go:671-676 | the output is recorded and a text appended that names it, if it is inside the sbox directory or there is no sandbox; spans stay right |
| RuleCommands.RuleBuilderCommand.DepFile | android/rule_builder.go:696-702 | the depfile is recorded and a text appended that names it, if it is inside the sbox directory or there is no sandbox; spans stay right |
| RuleCommands.RuleBuilderCommand.FlagWithRspFileInputList | android/rule_builder.go:768-787 | panics exactly on a second call and then changes nothing; otherwise the recorded span covers the "$out.rsp" just written |
| RuleCommands.RuleBuilderCommand.NinjaEscapedString | android/rule_builder.go:794-797 | after any calls, ninja evaluates the string to the raw line with $out expanded in the recorded spans alone |
| RuleBuilders.RuleBuilder.constructor | android/rule_builder.go:43-47 | an empty rule, neither sandboxed nor restat |
| RuleBuilders.RuleBuilder.Restat | android/rule_builder.go:84-90 | panics exactly after Sbox; sbox and restat are never both set |
| RuleBuilders.RuleBuilder.Sbox | android/rule_builder.go:105-123 | each of the three panics exactly in its case, in that order of precedence, and then nothing changes; otherwise the directory is set, so that all commands share it |
| RuleBuilders.RuleBuilder.Command | android/rule_builder.go:131-141 | a fresh empty command at the end, with the builder's sbox flag and directory |
| RuleBuilders.RuleBuilder.Temporary | android/rule_builder.go:143-147 | adds the path to the temporaries and changes nothing else |
| RuleBuilders.RuleBuilder.Inputs | android/rule_builder.go:165-195 | strictly sorted; exactly the paths that are an input or implicit of some command and an output or depfile of none |
| RuleBuilders.RuleBuilder.Outputs | android/rule_builder.go:229-247 | strictly sorted; exactly the outputs of some command that are not temporary |
| RuleBuilders.RuleBuilder.DepFiles | android/rule_builder.go:259-271 | the depfiles of all commands in order, with repetitions |
| RuleBuilders.DepFilesInTurn | android/rule_builder.go:259-271 | the list of a sequence of commands is the lists of its parts one after the other, and of one command its own |
| RuleBuilders.ReaderOfDepFiles | android/rule_builder.go:169-195 | a command that writes nothing and reads only depfiles changes neither inputs, outputs nor depfiles of the rule |
| RuleBuilders.RuleBuilder.DepFileMergerCmd | android/rule_builder.go:350-354 | a fresh command that runs the tool on the depfiles, writes nothing, and reads exactly those outside the sbox directory |
| RuleBuilders.RuleBuilder.MergeDepFiles | android/rule_builder.go:374-390 | the first depfile is the rule's; a merger is added exactly if there are several, and Inputs, Outputs and depfiles of the rule stay the same |
| Visibility.SplitPackage | android/visibility.go:391-417 | a printed package rule splits into its package and "__pkg__" |
| Visibility.SplitNamed | android/visibility.go:391-417 | a rule with package and name splits into them, from whatever package it is read |
| Visibility.SplitExactly | android/visibility.go:391-417 | an entry splits into a package and a name exactly if it is //package:name, //package with the name "__pkg__", or :name with the current package |
| Visibility.PackagesAreWords | android/visibility.go:51-58 | a package is one or more non-empty words without slashes and colons, with slashes between them |
| Visibility.AncestorIsComponentPrefix | android/visibility.go:156-158 | the string test means that one path's components are a prefix of the other's |
| Visibility.CompositeMatches | android/visibility.go:111-119 | panics exactly if a nil rule comes before every rule that covers the module; otherwise tells whether some rule is public, is for the module's package, or is for packages whose components are a prefix of its package's |
| Visibility.MatchesExactly | android/visibility.go:133-184 | what a single rule matches, by components |
| Visibility.RuleForExactly | android/visibility.go:327-363 | each kind of rule, and an override, is made of exactly the entries that say so, in any of the three forms |
| Visibility.CombinedExactly | android/visibility.go:365-377 | a combined rule matches a module exactly if no rule is private and one of them covers the module |
| Visibility.AfterOverrideExactly | android/visibility.go:337-344 | what counts is the part of the list after its last override, or all of it |
| Visibility.ParseRules | android/visibility.go:316-378 | the loop with its three flags gives what the entries after the last override come to, and nil exactly for an override with no rule after it |
| Visibility.ParsedExactly | android/visibility.go:316-378 | the parsed rule matches a module exactly if no entry after the last override is private and one of them covers the module |
| VisibilityLists.CheckRules | android/visibility.go:238-288 | reports no error if and only if the list is not empty, each entry is well formed, override is first, keywords are alone, and outside //vendor no entry names a part of it; each kind of error is reported exactly when some entry calls for it |
| VisibilityLists.AllowedExactly | android/visibility.go:380-386 | an entry is allowed outside vendor exactly if its package's first component is not vendor, or it stands for all of vendor |
| VisibilityLists.NilRuleExactly | android/visibility.go:327-363 | reading a concatenation of accepted lists makes a nil rule if and only if it is read in the package "visibility" and an entry after the last override is a non-keyword without package |
| VisibilityLists.AcceptedListsParseShaped | android/visibility.go:316-378 | otherwise it gives only private rules, exactly one public rule, or only package and subpackage rules; said exactly |
| VisibilityLists.StrayEntryMakesNil | android/visibility.go:327-363 | an accepted entry that becomes a nil rule |
| VisibilityLists.OverrideDiscards | android/visibility.go:337-344 | what stands before an override does not matter, well formed or not |
| EffectiveVisibility.PackageDefaultVisibility | android/visibility.go:469-484 | the loop finds the default of the nearest containing package, or nil |
| EffectiveVisibility.NoDefaultAbove | android/visibility.go:469-484 | nil if and only if no package at or above has a default |
| EffectiveVisibility.DefaultIsNearest | android/module.go:286-311 | a default found belongs to a package at or above, and every other such package lies above that one |
| EffectiveVisibility.AdmitsExactly | android/visibility.go:419-460 | who may depend on a module: its own package; whom its own rules cover, if it has any; otherwise whom the default of the nearest package covers, and everybody if there is none |
| EffectiveVisibility.MayDepend | android/visibility.go:419-448 | the enforcer's test of one dependency decides that, or meets a nil rule in the effective rules and panics |
| EffectiveVisibility.GatheredHasNoNil | android/visibility.go:290-314 | what is gathered from checked lists has no nil rule to meet |
| EffectiveVisibility.EffectiveVisibilityRules | android/visibility.go:492-518 | prints the effective rule with the own package made explicit, and nothing for a module without any |
| EffectiveVisibility.PrintedRuleIsRead | android/visibility.go:133-184 | a single rule is read back from its printed form if and only if its package is well formed and not "visibility" |
| EffectiveVisibility.PrintedRulesParse | android/visibility.go:125-131 | printed rules are read back, in whatever package they are read, up to the combination rule |
| EffectiveVisibility.TwoPrivateArise | android/visibility.go:316-378 | two accepted lists with one private entry each, one after the other, parse to two private rules |
| EffectiveVisibility.ManyPrivateExplicit | android/visibility.go:502-515 | a rule with two or more private entries, printed and read back, loses the module's own package |
| EffectiveVisibility.PrintedRulesRoundTrip | android/visibility.go:492-518 | the printed effective rule, read back from any package, matches exactly the own package and what the rule matches, if and only if it is not two or more private entries |
| EffectiveVisibility.GatheredIsReadable | android/visibility.go:290-314 | what the gatherer makes of checked lists in a well-formed package has one of the three shapes, and each of its rules is read back from its printed form |
| EffectiveVisibility.NothingPrintedAdmitsNobody | android/visibility.go:492-518 | without an effective rule everybody may depend on a module, and what is printed, read as a list, matches nobody |
| EffectiveVisibility.PrintedRulesAdmitTheSame | android/visibility.go:419-448 | for a rule map gathered from checked lists, the printed rules of a module, read back anywhere, match exactly the modules that the enforcer admits, if and only if it has an effective rule and that is not two or more private entries |
| PathMeanings.ValidateSafePath | android/paths.go:1368-1381 | an error exactly if some component leads outside the directory where it is followed; otherwise the join, which stays inside and leads, from anywhere, where the components followed one after the other lead |
| CleanPaths.EscapesMeansGoesUp | android/paths.go:1371-1376 | the three string tests on the cleaned component mean: rooted, or going up first |
| CleanPaths.SafeJoinIsSafe | android/paths.go:1370-1381 | the join of accepted components is accepted again, and its elements are the components' elements one after the other |
| CleanPaths.WithRelAppends | android/paths.go:676-680 | joining an accepted path appends its elements and takes none back |
| CleanPaths.ChainStaysBelowBase | android/paths.go:958-966 | any chain of Join calls, with any components, keeps the base's elements as a prefix and appends the elements of the components of exactly the calls without dollar signs, rooted components and ones that go up first |
| PathMeanings.CleanExactly | android/paths.go:1371 | a cleaned path is the one path in written form that leads, from every directory, where the original leads |
| PathMeanings.JoinMeans | android/paths.go:1380 | following a join is following its parts one after the other, from the root if the first that is not empty is rooted |
| PathMeanings.EscapesExactly | android/paths.go:1371-1376 | the three string tests reject exactly the components that lead outside some directory where they are followed |
| PathMeanings.UpCancels | android/paths.go:1371 | an element and ".." after it cancel |
| CleanPaths.PathForOutputStoresPath | android/paths.go:930-941 | cutting the path off the end of the full path is in range, and gives the path back if and only if it is not "." or the full path happens to end in a dot |
| CleanPaths.PathForOutputDot | android/paths.go:930-941 | the path stored for "." below "out" is "t" |
| Orders.Search | android/paths.go:609-617 | sort.Search on a monotone test returns the first index at which it holds, or the length |
| Orders.LessExactly | android/paths.go:597-603 | one string is below another exactly if it is a proper prefix of it, or has the smaller character where they first differ |
| DirectoryPaths.PathsInDirectory | android/paths.go:605-622 | the two searches on a sorted list return, in order, exactly the entries that start with the cleaned directory and a slash and are longer than that |
| DirectoryPaths.PrefixedComeFirst | android/paths.go:592-595 | strings with a prefix are contiguous in string order |
| DirectoryPaths.SelectsAllPrefixed | android/paths.go:605-622 | the selection is all entries with the prefix if and only if none of them is the prefix itself |
| DirectoryPaths.SortedSelection | android/paths.go:597-603 | sorting first changes a selection only in its order |
| DirectoryPaths.PrefixMeansBelow | android/paths.go:592-595 | a cleaned path is selected if and only if the directory has elements and they are a proper prefix of the path's |
| DirectoryPaths.CurrentDirectoryFindsNothing | android/paths.go:607-611 | "a" is below "." but not selected |

## Left out

- NinjaSeesExpansion: gives a sufficient condition for one assignment of values; the exact one, for all of them, is NinjaSeesExactly.
- TopologicalGuarantee: gives a condition that is easy to meet and sufficient; the exact one is TopologicalExactly.
- ChildrenAfterParents: the special case of an element that one node owns; the exact condition is TopologicalExactly.
- SdkSuffixInjective: one direction only; the exact conditions are SuffixTellsSdks and MergedNameTellsSdks.
- OncePer: a constructor that never ends of its own is not modelled, and a constructor makes one nested call at a time, in its own goroutine. The typed wrappers are casts.
- RanksExcludeDeadlock: gives a condition that is easy to meet and sufficient; the exact one is DeadlockFreeExactly.
- Blueprint: its modules, variants and mutator scheduling are not modelled. Its edge walk is, with a flag for whether a module reached twice is walked twice; dependency graphs are acyclic because it rejects cycles.
- DepSet: nil dependencies and ToSortedList are left out; the error texts of panics are not modelled here or elsewhere.
- Namespaces: absolute directories, name resolution, imports, export filters and ninja ids are left out. That each operation of the resolver is one atomic step is an assumption: its map makes single loads and stores atomic, and a declaration between the loads of a search and its stores would be overwritten.
- In-place sorting: sort.Sort and sort.Slice are functions from lists to sorted permutations; that CreateApexVariations reorders the stored list is not captured.
- Slices: sharing of backing arrays between slices is not captured, except where an algorithm works in place on one array.
- CreateApexVariations: skipping the installation of platform variants and the test of apex_available are left out.
- apex/apex.go: everything but the three mutators named above, and the rest of the apex package.
- Paths: a path object is represented by its string. filepath.Clean, Join and Rel are written over the elements between slashes; symbolic links and other operating systems are not modelled.
- PathForOutput: reporting the error of a rejected component is left out; the path that is then used is modelled.
- RuleBuilder: Build is modelled only in its treatment of depfiles; sbox wrapping, pools, remote execution, installs, order-only inputs, missing dependencies and the text methods that only forward to Text are left out.
- Ninja: escaping doubles dollar signs; evaluation knows the escaped dollar sign and variables with and without braces, and no other escape.
- Expand: strings are sequences of characters, not of UTF-8 bytes.
- Events: the two locked updates of one visit, to a module's records and to the global map of names, are one event; they touch different maps, and every result is about one of them.
- Visibility: the regular expression is written as a predicate on components; the visibility property of packages, exclusion tags and the gathering of properties are left out, and so is a lookup that starts at the root package itself, which panics.
- android/arch.go, android/variable.go, android/neverallow.go, android/override_module.go: tables, reflection and per-branch checks that would add only easy members.
- cc, java and the other languages' module types, the Make interface, bpfix, androidmk, the finder and the build driver are not part of this model.
