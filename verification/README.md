# Repository tooling, verified

The repository keeps itself in order with a set of scripts: they schedule its
gates, check its generated catalogs and documentation, order its packages,
guard its compiler faces, rewrite vendored text and publish its packages. This
project models the logic of these scripts in Dafny and proves what each is
for, over every input, every run and every interleaving.

Values are datatypes; the scripts' objects (`CycleFinder` for the closure of
`findDependencyCycle`, `RegistryPublication`, the registry behind npm, the
working tree) are classes; their loops are methods, each proved against a
specification whose properties the lemmas establish.

| file | models |
|---|---|
| Digraph | walks, cycles, reachability; a finite set that no edge leaves contains a cycle |
| GateGraph, GateScheduler, GateOutcome, GateRunner, GateMakespan | `scripts/run-gates.ts`: the cycle finder, the scheduler as a transition system over its log, its outcome, the loop itself, and its timing |
| TypeWorld, TypeExports, TypeLookup, TypeLookupSound, TypeLookupExact, TypeLookupMisread, TypeLookupBacked, TypeLookupReturns, KeyPath | `scripts/gen-config-catalog.ts`: name resolution, what files export, the three-valued path lookup, key paths |
| PasteClosure | `scripts/gen-config-catalog.ts`: the paste queue |
| Publication, PublicationProgram, ShellQuoting | `scripts/publish-npm-baseline.ts`: the publish protocol, its program, the command printer |
| Substrings, ExactEdits | `scripts/rescope-vendor.ts`: exact edits |
| PackageGraph | `scripts/package-graph.ts`: the layered order |
| ProjectFaces | `scripts/project-reference-faces.ts`: the face traversal |
| Destinations, DocSplice | `scripts/project-doc-site.ts`: destination ranges and the splicing pass |
| CommentMask, CommentSource | `scripts/markdown.ts`: comment ranges and prose lines; what the ranges have to do with the comments of the source |
| Calendar | `scripts/archived-agent-notes.ts`: the date check |
| Derivatives | `scripts/paired-markdown-derivatives.ts`: the partition |
| Text, Whitespace, Sequences, Sorting, Arithmetic, Options | splitting at one character; white space; facts about sequences; a stable sort; repeated addition; missing values |

What the environment decides is a parameter: the status and the duration of
each gate and the winner of each race, the registry and the command after
which a publication is cut off, the files of a workspace, the offsets a
Markdown parser assigns, the collation of names, and how invisible types
behave.

## Model

| member | source | states |
|---|---|---|
| GateGraph.ValidateGateGraph | scripts/run-gates.ts:660-678 | accepts exactly the nonempty lists with unique ids, known needs and an acyclic needs graph, and names the first defect in the order of the checks |
| GateGraph.FindDuplicate | scripts/run-gates.ts:663-667 | names the first id that an earlier gate has taken, or none iff ids are unique |
| GateGraph.FindUnknownNeed | scripts/run-gates.ts:668-674 | names the first gate with a need that no gate provides, or none iff all needs are known |
| GateGraph.FindDependencyCycle | scripts/run-gates.ts:680-710 | returns nothing iff the needs graph is acyclic; a returned list starts and ends at the same gate and each consecutive pair is a needs edge; terminates on every graph |
| GateGraph.CycleFinder.Visit | scripts/run-gates.ts:686-703 | one depth-first visit: either the stack is as before and the gate is finished after everything it needs, or the result is a cycle |
| GateScheduler.ReachableInvariant | scripts/run-gates.ts:726-781 | in every reachable state, whoever wins the races: at most `maxActive` gates run, each once; exactly the settled gates have results; started gates had all needs passed; skipped ones have a failed or skipped need |
| GateScheduler.FirstInListOrder | scripts/run-gates.ts:737-748 | whatever is started is at that moment the first ready gate of the list, and whatever is skipped the first blocked one |
| GateScheduler.EmptyPoolIsNotStuck | scripts/run-gates.ts:745-752 | on a validated graph with nothing running and nothing ready, a pending gate has a failed or skipped need: the "stalled" throw is unreachable |
| GateScheduler.Progress | scripts/run-gates.ts:734-781 | a run that has not ended can take a next step |
| GateScheduler.RunsEnd | scripts/run-gates.ts:734-781 | every legal log has at most two events per gate, so every run ends |
| GateOutcome.OutcomeIsUnique | scripts/run-gates.ts:734-792 | "executed iff all needs pass, else skipped" has one solution on an acyclic graph |
| GateOutcome.OutcomeMeaning | scripts/run-gates.ts:734-792 | a gate passes iff it and all its transitive needs succeed; it is executed iff its transitive needs do, and skipped otherwise |
| GateOutcome.CompleteIsConsistent | scripts/run-gates.ts:734-781 | every complete run ends with that solution |
| GateOutcome.ResultsFollowOutcome | scripts/run-gates.ts:745-771 | the results of a complete run, including the blockers named in skip errors, are a function of the gates and their execution outcomes |
| GateOutcome.ResultsReport | scripts/run-gates.ts:745-781 | after every log each result reports what the log shows: an executed gate its own status and no blockers; a skipped gate exactly those needs, in order and at least one, that had failed or been skipped when it was |
| GateOutcome.BlockersFailed | scripts/run-gates.ts:753-764 | whoever is named as a blocker has itself a result that is failed or skipped |
| GateOutcome.ScheduleIndependence | scripts/run-gates.ts:720-788 | any two complete runs, whatever pool sizes and race winners, end in the same state: the same gate states and the same results |
| GateOutcome.EachGateOnce | scripts/run-gates.ts:736-781 | a complete run observes each gate exactly once and starts exactly the gates whose transitive needs succeed, each once |
| GateOutcome.StartsAfterNeeds | scripts/run-gates.ts:737-739 | in every log a gate starts only after each of its needs has settled as passed |
| GateRunner.RunGates | scripts/run-gates.ts:720-788 | runs iff graph and bound are valid; the log is a complete legal run; the results are the final ones in list order, and each reports what the log shows, the blockers of skipped gates included |
| GateRunner.Refill | scripts/run-gates.ts:736-743 | refilling starts ready gates in list order until the pool is full or none is ready |
| GateRunner.SkipRest | scripts/run-gates.ts:745-771 | the final loop skips blocked gates until nothing is pending, by legal steps only |
| GateRunner.EveryGateReported | scripts/run-gates.ts:783-787 | after a complete run every gate has a result: the "missing result" throw is unreachable |
| GateRunner.ExitCodeMeaning | scripts/run-gates.ts:94-96 | the exit code is 0 if every gate without `allowFailure` succeeds together with all its transitive needs, and 1 otherwise |
| GateRunner.ResultMeaning | scripts/run-gates.ts:783-787 | each gate's reported status, told from the graph and the execution outcomes alone: that of its execution if all its transitive needs succeed, and skipped otherwise |
| GateMakespan.WorkIsConserved | scripts/run-gates.ts:734-781 | at every moment of a timed run, time spent plus time still needed is the total duration of the started gates |
| GateMakespan.RunIsBounded | scripts/run-gates.ts:734-781 | at every moment, for each running and each ready gate there is a dependency chain that accounts for all time in which a worker idled |
| GateMakespan.GreedyBound | scripts/run-gates.ts:734-781 | m·T ≤ W + (m−1)·L for the finish time T, the executed work W and the length L of some chain of executed gates |
| GateMakespan.ChainFits | scripts/run-gates.ts:737-739 | no schedule finishes before a chain of executed gates can |
| GateMakespan.WorkFits | scripts/run-gates.ts:736-744 | no schedule finishes before m workers can do the executed work |
| GateMakespan.SameGatesExecuted | scripts/run-gates.ts:734-781 | two complete runs execute the same gates and hence the same work |
| GateMakespan.SchedulesWithinFactorTwo | scripts/run-gates.ts:734-781 | with one pool size, whatever order ties and races impose, m·T ≤ (2m−1)·T' for any two runs |
| GateMakespan.TimedProgress | scripts/run-gates.ts:774-780 | a timed run that has not ended can go on in time order |
| GateMakespan.TimedRunCompletes | scripts/run-gates.ts:734-781 | every timed run of a valid graph, the empty one included, can be continued to a complete one, whatever the durations and outcomes |
| TypeWorld.SearchResult | scripts/gen-config-catalog.ts:256-281 | the re-export search, which enters no search twice and hence terminates on circular re-exports, ends with a declaration that its start reaches, or has entered everything its start leads to and found it to declare nothing |
| TypeWorld.ExportedDeclCorrect | scripts/gen-config-catalog.ts:256-281 | the search finds some declaration that the re-export chains reach, whether it is exported or not, and finds none only if they reach none |
| TypeWorld.ResolvedIsDeclared | scripts/gen-config-catalog.ts:283-305 | a resolved name leads to a declaration that exists |
| TypeExports.UnresolvedIff | scripts/gen-config-catalog.ts:283-305 | a name the file does not declare resolves to none iff its import, if any, leads to no file in sight, or the re-export chains from there reach no declaration; what it resolves to is reached by them |
| TypeExports.SearchAgreesIff | scripts/gen-config-catalog.ts:256-281 | what the search finds is what the file exports under the name, unambiguously, iff the language takes every step of the search's path, the last file exports its declaration under the name, and nothing else is exported where the language leaves the path (an explicit clause goes before stars, a star passes no default on, private declarations do not count) |
| TypeExports.NameRightIff | scripts/gen-config-catalog.ts:283-305 | a name that resolves does so to the declaration it means, iff that is the file's own or such a search agrees |
| TypeExports.PrivateIsTaken | scripts/gen-config-catalog.ts:133-139 | of two starred files the search takes the first one's private declaration, though only the second one exports the name |
| TypeExports.StarIsTaken | scripts/gen-config-catalog.ts:263-279 | it takes what a star exports, though a later clause exports another declaration under the name |
| TypeLookupSound.LookupHonest | scripts/gen-config-catalog.ts:317-403 | for a walk that reads everything right, each answer holds at every depth under each interpretation of what is not looked at, with names meaning what the modules export, through heritage, intersections, unions, arrays, indexed access and any state of the shared guard |
| TypeLookupSound.LookupSound | scripts/gen-config-catalog.ts:309-316 | for such a walk 'found' implies that every interpretation gives the type the path, 'missing' that none does; only what this walk meets has to be read right, the names it resolves included |
| TypeLookup.WrappersAre | scripts/gen-config-catalog.ts:307-395 | the four utility types that are passed through and the two array types, each with an argument |
| TypeLookupExact.LookupExact | scripts/gen-config-catalog.ts:317-325 | when such a walk meets no guarded key twice and fails to find no name whose declaration is in sight, 'found' iff every interpretation gives the path and 'missing' iff none does |
| TypeLookupExact.RepeatedKeyIsNotExact | scripts/gen-config-catalog.ts:322-324 | a path that `A & A` certainly lacks is answered 'unknown', because the second visit of A meets the shared guard |
| TypeLookupMisread.MissingIsSoundIff | scripts/gen-config-catalog.ts:335-361 | a walk that finds no misnamed signature, takes no name for another declaration than it means, and meets no wrapper name bound by its file answers 'missing' soundly iff it passes over no method, accessor, index signature or quoted name that answers for the step, no operator other than `readonly` and no qualified wrapper or array |
| TypeLookupMisread.HiddenMemberIsMissed | scripts/gen-config-catalog.ts:335-361 | a declaration without bases that certainly has the step, but not as a property signature written like it, is answered 'missing' |
| TypeLookupMisread.QuotedMethodAndIndexAreMissed | scripts/gen-config-catalog.ts:335-361 | so it is for `'my-key': string`, `handle(x: string): void` and `[key: string]: number` |
| TypeLookupMisread.MisnamedIsSoundIff | scripts/gen-config-catalog.ts:335-343 | for a property signature that is written like the step but declares another name: exactly which answers are sound |
| TypeLookupMisread.WronglyThroughIsSoundIff | scripts/gen-config-catalog.ts:380-401 | at an operator other than `readonly`, a qualified name that starts like a wrapper or an array, or a type parameter, the answer is that of the operand, the argument or a declaration with the parameter's name, and it is sound iff it is 'unknown' |
| TypeLookupMisread.NameIsSoundIff | scripts/gen-config-catalog.ts:388-401 | where the file itself binds the name of a wrapper or an array, and where the search finds another declaration than the name means, the answer is sound iff it is 'unknown' or what the meant declaration would have given |
| TypeLookupMisread.PrivateFirstIsMissed | scripts/gen-config-catalog.ts:256-281 | with a private empty `Y` in the first of two starred files, `foo` of an imported `Y` is answered 'missing', though the exported `Y` has it |
| TypeLookupMisread.StarFirstIsMissed | scripts/gen-config-catalog.ts:256-281 | so it is with `export * from './a.ts'` before `export { Z as Y } from './b.ts'` |
| TypeLookupBacked.FoundIsSoundIff | scripts/gen-config-catalog.ts:317-403 | for a walk that meets no key twice, with all names and signatures read right, 'found' is sound iff the walk comes to the path without going through an operator, a qualified wrapper or a parameter, in some part of an intersection or some base and in all parts of a union, or passes over a member that has the last step |
| TypeLookupReturns.LookupReturns | scripts/gen-config-catalog.ts:317-403 | the walk returns from every declaration that leads to no cycle of declarations which gains steps, counting one per indexed access and minus one per member or element |
| TypeLookupReturns.PaidIndexReturns | scripts/gen-config-catalog.ts:381-387 | so it does for `interface A { foo: string; bar: A['foo'] }` and every path |
| TypeLookupReturns.EndlessAlias | scripts/gen-config-catalog.ts:381-387 | for `type A = A['x']` it never does: the prepended step makes every key new |
| KeyPath.ParsePath | scripts/gen-config-catalog.ts:232-246 | the two loops yield the specified steps |
| KeyPath.ParseThenRender | scripts/gen-config-catalog.ts:231-246 | every key path parses into spellable steps that write back to it |
| KeyPath.RenderThenParse | scripts/gen-config-catalog.ts:231-246 | every list of spellable steps is what its written path parses into |
| PasteClosure.EndlessNeverReturns | scripts/gen-config-catalog.ts:146-172 | an import chain longer than there are files never resolves, whatever number of hops is allowed |
| PasteClosure.ResolutionMeaning | scripts/gen-config-catalog.ts:146-171 | a name resolves to a result iff some chain of package-local imports of that name ends with it: at a declaration, at an import from another package, at no import, or at one without extension or under another name |
| PasteClosure.LeadsToIff | scripts/gen-config-catalog.ts:707-714 | a pasted declaration leads to the names it mentions that are not global, seen from its own file |
| PasteClosure.NoGlobalIsReported | scripts/gen-config-catalog.ts:712 | no violation is about a global name, unless the config type itself has it |
| PasteClosure.ClosePastes | scripts/gen-config-catalog.ts:663-717 | no violation iff every reachable name has one meaning wherever it is referred to; then the pastes are exactly the reachable package-local declarations, each once, and the references exactly the reachable imports; it fails to return only over a reachable import chain that runs in a circle, and for any such chain if nothing else is wrong; terminates on cyclic references; every violation names what is so: a reachable name that does not resolve, one imported without extension or renamed, an imported config type, or two different meanings of one name |
| Publication.IntegritiesAreKept | scripts/publish-npm-baseline.ts:630-652 | over any series of runs, each cut off after any command, no stored integrity is replaced |
| Publication.PublishOnTrack | scripts/publish-npm-baseline.ts:625-654 | wherever it is cut off, a run changes the registry only by what the bundle adds, fails only over a conflict or a missing entry package, and has released the bundle if it gets past the last tag |
| Publication.VerifiedIffReleased | scripts/publish-npm-baseline.ts:656-703 | verification only reads, and succeeds iff the bundle is released |
| Publication.FailureMeaning | scripts/publish-npm-baseline.ts:625-703 | whatever command a publication or verification fails at, the registry is as its error says: no integrity, a different one, a missing package, an unknown package or version, or a tag that points elsewhere |
| Publication.CompletesIff | scripts/publish-npm-baseline.ts:625-654 | a run that is not cut off completes iff the registry holds no conflicting integrity and the entry package is at hand |
| Publication.ReleasedIsUnique | scripts/publish-npm-baseline.ts:625-654 | two registries that grew from one by the bundle and both released it are equal |
| Publication.ResumeReachesRelease | scripts/publish-npm-baseline.ts:625-684 | however often a publication is cut off, running it again to the end gives the registry of an undisturbed run, and `verify` succeeds on it |
| Publication.LatestMovesLast | scripts/publish-npm-baseline.ts:630-654 | at whatever command a run is cut off, the entry's `latest` is where it was or the whole bundle is stored with its integrities and dist-tag |
| Publication.LatestMovesLastIff | scripts/publish-npm-baseline.ts:630-654 | that holds in every run iff the bundle's own dist-tag is not `latest` or the entry package, if listed, comes last |
| Publication.SessionsMoveLatestLastIff | scripts/publish-npm-baseline.ts:630-654 | and so it is for every series of runs, each cut off at any command |
| PublicationProgram.RegistryPublication.EnsureTag | scripts/publish-npm-baseline.ts:755-764 | does to the registry exactly what the command sequence specifies, cut-offs included |
| PublicationProgram.RegistryPublication.Publish | scripts/publish-npm-baseline.ts:625-654 | the program's effect on the registry and its end equal the specified run |
| PublicationProgram.RegistryPublication.Verify | scripts/publish-npm-baseline.ts:656-703 | likewise for verification |
| PublicationProgram.CreateBundle | scripts/publish-npm-baseline.ts:304-356 | makes a bundle iff the tarballs are the expected packages, each once, of the right version, public, free of `workspace:` at any depth of the manifest, with internal dependencies pinned, and (the harness's own) without sources; the bundle is a valid one: exactly these packages, by name, each with the integrity of its bytes |
| PublicationProgram.TarballOkIff | scripts/publish-npm-baseline.ts:322-335 | what is checked of a tarball, with the four dependency sections by name |
| PublicationProgram.HoldsWorkspaceIff | scripts/publish-npm-baseline.ts:820-824 | the protocol is found iff a text at some path of items and fields starts with it |
| ShellQuoting.ShellRoundTrip | scripts/publish-npm-baseline.ts:994-1003 | splitting the printed line by the quoting rules of section 2.2 of the POSIX.1-2017 Shell Command Language gives back exactly the command and its arguments, empty and quoted ones included, for words without NUL |
| ShellQuoting.ReadQuoted | scripts/publish-npm-baseline.ts:1000-1002 | inside single quotes the escaped text reads back as the text |
| ShellQuoting.BareIff | scripts/publish-npm-baseline.ts:999 | exactly the nonempty words of letters, digits and `_./:@=+-` are printed bare |
| ExactEdits.SwappedForms | scripts/rescope-vendor.ts:613-626 | for distinct forms and a count of at least 1, swapping the forms swaps 'pending' and 'applied' |
| ExactEdits.StateMeaning | scripts/rescope-vendor.ts:613-626 | applied: the target form as often as wanted and, unless it holds the source form, no source form left; pending: otherwise, the source form as often as wanted and, unless it holds the target form, no target form |
| ExactEdits.SplitThenJoin | scripts/rescope-vendor.ts:671 | cutting at a form and joining with it gives the text back |
| ExactEdits.JoinThenSplit | scripts/rescope-vendor.ts:671 | pieces joined with a form are cut apart into the same pieces iff their gaps are clean: the first occurrence of the form after each gap is the one that was put there |
| ExactEdits.UndoneIff | scripts/rescope-vendor.ts:671 | for any text and nonempty forms, the swapped rewriting takes the rewritten text back iff the gaps between the occurrences of the source form are clean for the target form |
| ExactEdits.FreeJoinsIff | scripts/rescope-vendor.ts:671 | any form occurs in the joined text iff it does at some gap between its neighbours, or crosses some joint: what stands before the joint ends with the form's text before one of its joining forms, and the gaps behind begin with the rest |
| ExactEdits.LandsAndReturnsIff | scripts/rescope-vendor.ts:613-671 | a pending edit, under any of the three rules, lands as 'applied' and is undone by the swapped edit iff the gaps are clean and, unless the target form holds the source form, the source form occurs at no gap and crosses no joint |
| ExactEdits.DeletionReturnsIff | scripts/rescope-vendor.ts:620-623 | for a deletion whose target form does not overlap itself that is: no gap holds the target form, and at no joint does the source form cross with its first target form |
| ExactEdits.PlainDeletionReturnsIff | scripts/rescope-vendor.ts:620-623 | where the source form is x, the target form and y, and y holds no target form: iff no gap holds the target form, and nowhere does a gap, with the joint before it, end with x and the next gap, with the joint behind it, begin with y |
| ExactEdits.RemovedFormReappears | scripts/rescope-vendor.ts:620-623 | an example: `ab` to `a` in `abb` is pending again after it is written |
| ExactEdits.CleanFormsAreReversible | scripts/rescope-vendor.ts:613-671 | forms that do not overlap, under the insertion or the unrelated rule, satisfy that in every pending text |
| ExactEdits.SelfOverlapCannotBeUndone | scripts/rescope-vendor.ts:671 | an example of a gap that is not clean: `x` to `aa` in `ax` lands, but undoing it gives another text |
| ExactEdits.PartialOverlapIsInvalid | scripts/rescope-vendor.ts:613-626 | an example of a join that is not free: `ab` to `bc` in `aab` leaves a text that is classified invalid |
| ExactEdits.EditsCommute | scripts/rescope-vendor.ts:667-672 | edits of one text, each form of the one apart from both forms of the other, give the same text in either order, whether or not a form overlaps itself |
| ExactEdits.StateIsKept | scripts/rescope-vendor.ts:667-672 | applying one of them leaves the state of the other unchanged |
| ExactEdits.WorkingTree.Classify | scripts/rescope-vendor.ts:644-666 | with `--check` done iff every edit, oriented for the direction, is applied, otherwise iff none is invalid; the rejected edits are exactly the others, in order; the first unreadable file stops it |
| ExactEdits.PlannedSelects | scripts/rescope-vendor.ts:659 | the plan is exactly the pending edits, in their order |
| ExactEdits.WorkingTree.Run | scripts/rescope-vendor.ts:643-673 | decides so, and writes nothing unless all is well and `--apply` is given; then each planned edit rewrites what the earlier ones left |
| ExactEdits.PlanAppliesAndUndoes | scripts/rescope-vendor.ts:643-673 | a plan of pending edits of different files, or of forms that do not meet in one file, each reversible in its text, lands entirely, and the reverse run, in the same order, restores every file |
| PackageGraph.CompareIsOrder | scripts/package-graph.ts:77-83 | the comparison is antisymmetric and transitive for every collation that is |
| PackageGraph.CompareMeaning | scripts/package-graph.ts:77-83 | the package of the group listed earlier comes first; within a group, and between unlisted ones, group and then name are collated |
| PackageGraph.EntriesAreLast | scripts/package-graph.ts:60 | the map holds each name once, with its last package |
| PackageGraph.EntriesByFirstPlace | scripts/package-graph.ts:60 | in the order in which the names first occur |
| PackageGraph.RoundIsLongestChain | scripts/package-graph.ts:63-73 | a package is placed in round k iff its longest dependency chain has k edges and no chain leaves the packages |
| PackageGraph.StuckMeansBlocked | scripts/package-graph.ts:67 | when nothing is ready, the packages left are exactly those that transitively depend on a cycle or a missing name |
| PackageGraph.TopoSort | scripts/package-graph.ts:59-75 | succeeds iff no package is so blocked; the order then lists each package once, by round and within a round by comparison; otherwise it names exactly the blocked packages, in map order |
| PackageGraph.ReadySelect | scripts/package-graph.ts:64-65 | the packages of a round are chosen in map order |
| Sorting.SortIsStable | scripts/package-graph.ts:66 | and the sort keeps the order of those that compare equal |
| PackageGraph.BlockedNamesSelect | scripts/package-graph.ts:67 | the names of a failure are those of the blocked entries, in map order |
| PackageGraph.DependenciesFirst | scripts/package-graph.ts:59-75 | every dependency of a listed package stands before it |
| PackageGraph.InputOrderDoesNotMatter | scripts/package-graph.ts:59-75 | for unique names and a collation that tells names apart, success, the order on success and the set of names on failure are the same for every input order |
| ProjectFaces.ContainingIsInnermost | scripts/project-reference-faces.ts:124-129 | the split root found is the innermost one, whatever order the manifests are listed in |
| ProjectFaces.ResolveGoes | scripts/project-reference-faces.ts:114-120 | a text is resolved segment by segment: nothing and `.` stay, `..` goes up, a name goes down, a leading slash starts at the root |
| ProjectFaces.SiblingReference | scripts/project-reference-faces.ts:119-122 | a reference to `../name` leads to that file if it ends in `.json`, else to the `tsconfig.json` of that directory |
| ProjectFaces.ExtendedFile | scripts/project-reference-faces.ts:113-117 | `extends` leads to a file beside or above the config, the extension added if it is missing |
| ProjectFaces.OwnFaceIff | scripts/project-reference-faces.ts:102-105 | which configs have which face of their own, by name and place, and that no others have one |
| ProjectFaces.FaceIsExact | scripts/project-reference-faces.ts:96-111 | the face is that of the first config along the `extends` chain with one of its own; the guard against circular `extends` never hides one |
| ProjectFaces.JudgeIsRule | scripts/project-reference-faces.ts:40-66 | a reference is followed iff it obeys the Host/Client rule |
| ProjectFaces.Examine | scripts/project-reference-faces.ts:39-67 | the inner loop follows exactly the obedient references of a config and lists exactly its violations, unless it cannot read or judge one |
| ProjectFaces.CollectViolations | scripts/project-reference-faces.ts:31-71 | visits each config reached by obedient references once and reports exactly their violations; throws iff one of them cannot be read or judged; terminates on cyclic references |
| ProjectFaces.ReportMeaning | scripts/project-reference-faces.ts:39-66 | a config that is reached reports a reference iff it names it and the reason is the case: it enters a split project without a face, names another leaf than its own, or goes from Host to Client |
| ProjectFaces.ClientBaseIsReported | scripts/project-reference-faces.ts:59-64 | a project that extends the Client base is reported when the Host aggregate refers to it |
| ProjectFaces.EmptyReportMeansRule | scripts/project-reference-faces.ts:31-71 | the report is empty iff every reference of every config reachable by any references obeys the rule |
| Destinations.LabelEnd | scripts/project-doc-site.ts:71-87 | the first position at which the unescaped brackets since the first one balance, or -1 if there is none |
| Destinations.BareEnd | scripts/project-doc-site.ts:116-131 | the first closing parenthesis or space before which the unescaped parentheses balance, or the end |
| Destinations.AngleEnd | scripts/project-doc-site.ts:108-114 | the first unescaped closing angle bracket |
| Destinations.DestinationRange | scripts/project-doc-site.ts:89-132 | label, separator, white space and end as specified, and the four errors |
| Destinations.RangeIsInside | scripts/project-doc-site.ts:89-132 | the range lies inside the node behind its label; a destination without angle brackets that stops before the end of the node has balanced parentheses and is followed by a closing one or a space |
| Destinations.InlineDestinationIsFound | scripts/project-doc-site.ts:89-132 | for a balanced label and a balanced destination without spaces, as section 6.3 of CommonMark 0.30 allows them, the range is exactly the destination |
| Destinations.TitleIsNotPart | scripts/project-doc-site.ts:127 | a title behind a blank does not belong to the destination |
| Destinations.AngleDestinationIsFound | scripts/project-doc-site.ts:108-114 | a destination in angle brackets is found, blanks and parentheses included |
| Destinations.DefinitionIsFound | scripts/project-doc-site.ts:96-101 | the destination of a definition follows the colon and blanks behind its label |
| Destinations.ClosingBracketInCode | scripts/project-doc-site.ts:71-87 | a label that shows a code span with a single closing bracket, legal by the same section, is taken to end there, and the link is rejected as not inline |
| Destinations.OpeningBracketInCode | scripts/project-doc-site.ts:71-87 | one with a single opening bracket is rejected for want of a label end, unless a closing bracket follows the label |
| DocSplice.PassIsMerge | scripts/project-doc-site.ts:272-276 | for disjoint ranges with distinct starts, applying from the highest offset down equals one left-to-right merge of gaps and new values |
| DocSplice.CollectionOrderDoesNotMatter | scripts/project-doc-site.ts:272-276 | the result is the same in whatever order the replacements were collected |
| DocSplice.Visit | scripts/project-doc-site.ts:231-270 | collects one replacement per node to rewrite, parents first, iff no node to rewrite lacks a range, and otherwise reports the problem of one that does |
| Destinations.CorrectIsUnique | scripts/project-doc-site.ts:89-132 | a node's text has one destination range or one problem |
| DocSplice.RewriteMarkdown | scripts/project-doc-site.ts:225-277 | the document is rejected iff some node to rewrite lacks a range; otherwise the projected text is the source with the collected replacements applied from the highest offset down |
| DocSplice.LinkIsReplaced | scripts/project-doc-site.ts:250-261 | for a node whose text is a link, what is collected covers exactly the destination and holds the new one |
| DocSplice.OneLinkIsSpliced | scripts/project-doc-site.ts:272-275 | applied alone, it puts the new destination for the old one and changes nothing else |
| DocSplice.NestedIsDisjoint | scripts/project-doc-site.ts:255-270 | in a well-nested document all collected ranges are disjoint and start apart |
| DocSplice.RewriteIsMerge | scripts/project-doc-site.ts:255-276 | hence the projected text is the left-to-right merge |
| CommentMask.CommentsAreScan | scripts/markdown.ts:112-120 | the comments of a node's value follow one another, nothing between or behind them opens one, and each ends with its first closing mark or with the value |
| CommentMask.HtmlComments | scripts/markdown.ts:109-121 | the loops over nodes and comments yield these ranges, placed at the nodes' offsets |
| CommentMask.LinesAddressSource | scripts/markdown.ts:123-137 | column k of line i is the source character at the line's offset plus k |
| CommentMask.RangesByLine | scripts/markdown.ts:123-139 | the loops over lines and comments yield the specified columns by line number |
| CommentMask.RangesIffTouched | scripts/markdown.ts:129-131 | a line has ranges iff a comment covers one of its characters, or its line end if it is empty |
| CommentMask.VisibleText | scripts/markdown.ts:145-151 | sorting and skipping leave exactly the characters outside all ranges, in order, overlapping ranges included |
| CommentMask.MaskIsExact | scripts/markdown.ts:108-153 | masking a line by its columns leaves exactly its characters at the offsets outside all ranges |
| CommentSource.AllRangesAreComments | scripts/markdown.ts:109-121 | when each node's value is the source at its offset, each range is a comment of the source: an opening mark at its start, and the first closing mark or the end of the node at its end |
| CommentSource.RangesAgreeIff | scripts/markdown.ts:109-121 | when parsing drops blanks and quotation marks at line starts, the ranges begin and end no later than the comments of the source, and are these comments iff nothing is dropped before the end of the last one |
| CommentSource.CommentInItemIsKept | scripts/markdown.ts:160-176 | for the list item `- x`, an empty line, and an indented comment over two lines, whose parsed value lacks two blanks before the comment's end, the last line is all comment but is kept as prose |
| CommentMask.ProseLines | scripts/markdown.ts:160-176 | keeps exactly the specified lines |
| CommentMask.KeptExactly | scripts/markdown.ts:160-176 | a line is kept iff it is no code and not masked: touched by a comment with only white space left |
| CommentMask.CodeIsDropped | scripts/markdown.ts:164-170 | every line of a code block is dropped, its first and last included |
| CommentMask.VisibleTextIsKept | scripts/markdown.ts:145-152 | outside code blocks every line with a visible character outside all comments is kept |
| CommentMask.BlanksAreMasked | scripts/markdown.ts:145-152 | a line that is a comment among blanks and tabs is masked |
| CommentMask.KeptInOrder | scripts/markdown.ts:168-175 | kept lines stay in order |
| Calendar.YearLength | scripts/archived-agent-notes.ts:76 | the day number of years advances by 366 in leap years and 365 in others |
| Calendar.MonthLengths | scripts/archived-agent-notes.ts:76-77 | the lengths of the twelve months |
| Calendar.MonthsCarry | scripts/archived-agent-notes.ts:76 | the thirteenth month is the first of the next year |
| Calendar.FieldsExist | scripts/archived-agent-notes.ts:77 | the fields read from any day are a date that exists, and making a day from them gives it back |
| Calendar.SameFieldsIffExists | scripts/archived-agent-notes.ts:76-77 | normalisation gives the same fields back iff the date exists |
| Calendar.EarlyYearIsMoved | scripts/archived-agent-notes.ts:76 | years below 100 never survive `Date.UTC` |
| Calendar.ValidDateIsReal | scripts/archived-agent-notes.ts:70-78 | exactly the written forms of the Gregorian dates of the years 0100 to 9999 are accepted |
| Calendar.PrefixIsLess | scripts/archived-agent-notes.ts:106 | a text is less than every longer one that starts with it |
| Calendar.TextOrderIsFieldOrder | scripts/archived-agent-notes.ts:106 | comparing two texts in the format, existing dates or not, compares their years, months and days in turn |
| Calendar.TextOrderIsTimeOrder | scripts/archived-agent-notes.ts:106 | comparing two valid dates as text compares them in time |
| Derivatives.GroupByDoc | scripts/paired-markdown-derivatives.ts:35-41 | groups the blocks by document, in order |
| Derivatives.GroupSelects | scripts/paired-markdown-derivatives.ts:35-41 | a group is the blocks of its document, in the order of the input |
| Derivatives.SiblingIff | scripts/paired-markdown-derivatives.ts:17-19 | the sibling of `x.zh.md` is `x.md`, and other documents have none |
| Derivatives.DerivedDocs | scripts/paired-markdown-derivatives.ts:43-56 | exactly the documents whose fingerprints equal those of the unsuffixed sibling, position by position, whatever the order of iteration |
| Derivatives.Partition | scripts/paired-markdown-derivatives.ts:30-63 | primaries and derivatives are the blocks of the other and of these documents, in input order |
| Derivatives.SplitIsComplete | scripts/paired-markdown-derivatives.ts:58-62 | interleaving the two parts gives the input back: nothing lost, doubled or reordered |
| Derivatives.AncestorIsPrimary | scripts/paired-markdown-derivatives.ts:44-55 | stripping suffixes while a document is derived ends at a primary document with the same fingerprints, through chains such as `x.zh.zh.md` |
| Derivatives.PrimaryCounterpart | scripts/paired-markdown-derivatives.ts:44-62 | every block has a primary block with its fingerprint at its position in that ancestor |
| Derivatives.CheckingPrimariesSuffices | scripts/paired-markdown-derivatives.ts:1-6 | a check of fingerprints that all primaries pass is passed by all blocks |

Where the code and its documentation differ, the model follows the code:

- `lookupPath` is documented to answer 'unknown' for whatever it cannot see
  through. It passes over methods, accessors, index signatures and quoted names,
  so it answers 'missing' for members that are there
  (`QuotedMethodAndIndexAreMissed`), and rightly so exactly in the cases of
  `MissingIsSoundIff`. It also goes through any operator, through a reference by
  the leftmost name alone, so that a namespace called `Partial`, or a local type
  of that name, is taken for the global wrapper, and from a type parameter to a
  declaration of that name (`WronglyThroughIsSoundIff`, `NameIsSoundIff`).
  'found' is right exactly in the cases of `FoundIsSoundIff`.
- `findExportedTypeDecl` is documented to find an exported declaration. It takes
  private ones too (`PrivateIsTaken`), and goes through the re-exports in the
  order of the statements, so that a star may win over a clause that names the
  name (`StarIsTaken`). Both can make `lookupPath` answer 'missing' wrongly
  (`PrivateFirstIsMissed`, `StarFirstIsMissed`). It finds what the file exports
  exactly in the cases of `SearchAgreesIff`.
- The guard of `lookupPath` does not stop an alias that refers to itself through
  an indexed access (`EndlessAlias`); it stops every walk that cannot gain steps
  for ever (`LookupReturns`).
- The entry's `latest` is meant to move last. With `latest` as the bundle's own
  dist-tag it moves as soon as the entry package is stored
  (`LatestMovesLastIff`). The commands that make a bundle always give it a
  `dev-` tag (`scripts/publish-npm-baseline.ts:523`), so this takes a release
  manifest that was edited by hand: loading one does not check its tag (line 380).
- The exact edits are meant to be reversible. They are exactly in the texts
  whose gaps allow it (`LandsAndReturnsIff`, and for deletions
  `DeletionReturnsIff`); three examples show texts that do not.
- The end of a link label is the bracket that balances the first one, wherever
  brackets stand. Code spans are not seen (`ClosingBracketInCode`,
  `OpeningBracketInCode`).
- Comment ranges are meant to be those of the source. They are computed from a
  value that has lost the indentation of its later lines, so that a comment in a
  list item or a quotation may be masked too early (`CommentInItemIsKept`); they
  agree exactly under the condition of `RangesAgreeIff`.

## Left out

- TypeLookupSound.LookupSound: for walks that read everything right (`Reads`); TypeLookupMisread and TypeLookupBacked say what the answers are worth at whatever they do not read right. A type parameter has one meaning throughout an interpretation, whatever arguments its declaration is given.
- TypeExports.SearchAgreesIff: types that are neither interfaces, aliases nor enums count as out of sight; a star from a file out of sight is taken to export nothing.
- TypeLookupReturns.LookupReturns: a sufficient condition only, since whether a cycle that gains steps is ever walked depends on the steps; `fuel` bounds the recursion depth of the lookup, and without a return the model has no answer.
- ExactEdits.LandsAndReturnsIff: empty forms, which the edit list does not contain.
- ExactEdits.WorkingTree.Run: the regular-expression rewriting of lines that follows the exact edits, the counts and the printed report.
- GateMakespan.GreedyBound: time is counted in integers, and starting, refilling and observing take none.
- PublicationProgram.RegistryPublication.Publish: `ping`, `whoami` and the confirmation count as commands or not at all and have no effect; an npm command that fails for a transient reason is a cut-off; a registry that gives a first version `latest` of its own accord is not modelled; one publisher at a time.
- PublicationProgram.CreateBundle: which archive members are sources or source maps is one flag per tarball; inspecting tarballs, the digests and the two files that are written; loading a bundle repeats the checks on its own manifest.
- ShellQuoting.ShellRoundTrip: assignment words, reserved words and aliases, which a shell recognises after splitting.
- PackageGraph.InputOrderDoesNotMatter: `localeCompare` is a parameter; names it does not tell apart keep their input order.
- ProjectFaces.CollectViolations: the text and the order of the messages; paths are POSIX paths.
- DocSplice.RewriteMarkdown: Markdown parsing and the choice of the new URL; the tree comes with its offsets and new values.
- CommentMask.ProseLines: Markdown parsing; HTML nodes come with their offsets and values, code nodes with their lines. Tabs that a parser splits into columns are dropped or kept as whole characters.
- PasteClosure.ClosePastes: which names a declaration mentions is part of the world; documentation checks of pasted members and the text of the pastes.
- Gate labels, output, durations in reports, fractional bounds, a rejecting executor, process spawning and the gate lists themselves: I/O or data. A bound that is no positive safe integer is rejected; the model's bounds are integers.
- The heritage of merged declarations, and what lies behind members that the lookup does not find: each is left to the interpretation or not modelled.
- Strings are sequences of characters, not of UTF-16 code units.
- `extendArchiveManifest`, `validateArchiveManifestExtension` and `parseArchiveManifest`: map bookkeeping that would only add easy members.
- The header and triplet checks of archived notes, the schema walk of the config catalog, catalog rendering, packing, worktrees and the installed smoke of a release: text, I/O or plumbing.
