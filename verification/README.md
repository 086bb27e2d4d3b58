# Verified models of TypeGraph's static analysers

TypeGraph keeps two static analysers beside its library, and this project models both.

* **The API-surface compatibility checker** reads API reports, flattens every exported type into
  member paths marked required or optional, decides by a variance analysis which declarations a
  consumer has to write, compares the inventories of a base and a head report, and applies a
  ledger of agreed exceptions.
* **The Drizzle reachability scanner** walks the module graph breadth-first from a published
  entrypoint, with process-wide caches, and reports a shortest import chain to a Drizzle package.

Two smaller algorithms are modelled as well: the transitive ontology walk `relatesVia`, and the two
xorshift32 generators of the benchmarks.

Code that loops and assigns in the source is imperative here: methods with loops, and classes for
the variance walk, the scanner with its caches, and the generators. Each such method is proved
against a specification function or relation, and the laws are proved about that specification.

| module | contents |
|---|---|
| `Syntax` | the syntax tree the checker looks at; `peelWrappers` |
| `MemberMaps`, `MemberResolution` | the three merges; member maps of types, interfaces and classes |
| `ValueSemantics` | which values inhabit a type; soundness of the member maps where no `Partial` is lost |
| `AlwaysPresent` | the paths that every value of a type has, read off the syntax for all types |
| `Exactness` | when the recorded required paths are those: exact conditions and failing inputs |
| `Occurrences` | variance as a least fixpoint, without a traversal |
| `ContravariantWalk` | the memoised depth-first walk, which computes that fixpoint |
| `VarianceLaws` | parity of chains, pruning, monotonicity, order, conservative extension |
| `Inventory` | callables, inline literal entries, the inventory of a report |
| `InlineAgreement` | inline parameter literals against named parameter types |
| `Comparison`, `Ledger`, `CompatRun` | the three predicates, the exceptions ledger, a whole run |
| `Wrappers` | what wrappers and names mean for records and values, spelled out |
| `Mentions` | what types, declarations and functions mention, position by position; the hard names as a least set |
| `Callables`, `Reports` | inline entries, class records and findings, read off the declarations of the reports |
| `OldValues`, `Arguments` | what a clean comparison means for values written for the base version, and for arguments of inline literals |
| `SmallReports`, `RunComposition` | reports small enough to be read off; runs over three releases |
| `TypeArguments` | the polarity that type arguments inherit, against instantiation |
| `Replay` | the chains of a walk and what severance takes, spelled out on edges and resolution tables |
| `ModuleGraph`, `BreadthFirst` | chains in the module graph; the search as a function; correctness |
| `ReachabilityScanner`, `ReachabilityLaws` | the scanner with caches; modes and severance |
| `Ontology` | `relatesVia` |
| `Xorshift` | the generators, on integers and on bits |

## Where the code and its documentation part

The model follows the code. Each of these is a theorem.

* `peelWrappers` lets the innermost of `Partial` and `Required` win, and drops the mode in front of
  a union or an intersection; TypeScript lets the outermost win. `Holds` follows a path through a
  type with wrappers read outermost, through some side of an intersection and all constituents of a
  union, whatever is optional on the way. A path is in every value exactly if it is held at every
  step, for all types (`AlwaysIff`, `AlwaysIffHeldAllAlong`), so marks are sound exactly if each is
  held (`SoundIffHeld`, `SoundIffSoundlyMarked`). Without intersections the two sides follow one rule
  and differ only by the reading of wrappers (`OnlyWrappersDiffer`). Failing inputs:
  `PartialOverRequired`, the same below any required member (`BrokenBelow`),
  `PartialOverIntersection` and `PartialOverUnion`.
* `{a: {b: X}} & {a?: {c: Y}}` reports `a.c` as optional although every value has it
  (`IntersectionIsIncomplete`). A mark is missing exactly if a member is held below a path that is
  required, while the longer path is not marked: a side that holds it makes something optional on the
  way that another side requires, or a wrapper is read differently (`LosslessIff`). `{a} & {b}` has no
  such member (`FlatIntersectionLossless`).
* So a clean comparison can hide a demand: from `{a: {}}` to `{a: {}} & {a?: {c: Y}}` no mark changes,
  yet all new values have `a.c` (`DemandHidden`, `DemandHiddenInReports`). With sound base marks, old
  values have every path the head marks (`OldValuesStillFit`), and every path that all head values have
  exactly if no demand is hidden from the marks (`OldValuesFitIff`).
* `collectClassMembers` records static members as if they were members of the instances
  (`protected static readonly errorCategory` of packages/typegraph/etc/typegraph-graph-merge.api.md:2719
  is one). A class is recorded as the literal of its visible instance members exactly if each path on
  which a static member has the last word belongs to an instance member with the same optionality
  (`ClassAsInstanceIff`, failing input `StaticMemberBreaks`); the guarantees about values carry that
  guard.
* The module documentation says that the inline path and the named path share one gate. The inline
  path ignores the optionality of the method itself, so they agree exactly when a literal that callers
  pass to an existing callable is also demanded by a signature without a question mark
  (`NamedAgreesWithInline`, failing input `OptionalMethodDisagrees`).
* The documentation says that what only new callables reach is reported, not failed. A function type
  in a property or return position is not gated by newness, so adding such a declaration can make an
  old name hard (`NewCallbackPropertyHardens`). `ExtensionConservativeIff` says exactly when an
  addition is harmless, members gained by existing declarations included.
* Two passing comparisons need not compose: a demand may enter while nobody has to write the
  declaration, which becomes hard one step later (`PassesDoesNotCompose`). `PassesComposeIff` says
  exactly when they do, and `RunsComposeIff` says it for runs, where every step has its own gate.
  Failing runs: `LateWithMid` and `LateWithReturn`.
* Overloads with different literals are recorded as one entry, so a clean comparison can hide that an
  old argument fits no overload any more (`OverloadsHideDemand`; `OverloadFitsIff` says when all fit).
* The documentation says that letting type arguments inherit the polarity of their reference errs in the
  safe direction. It does exactly if the generic type does not consume its parameter
  (`InheritedCoversIff`); with `type Handler<T> = (x: T) => void` and `function on(): Handler<Options>`
  callers write `Options`, which is not hard (`HandlerHidesArgument`).
* `relatesVia` answers no for equal kinds of a transitive meta-edge, even on a cycle (`RelatesVia`,
  `CycleReachesItself`).

## Model

| member | source | states |
|---|---|---|
| `Syntax.PeelWrappers` | packages/typegraph/scripts/api-surface-compat.ts:250-285 | the loop that strips wrappers ends at the node and forced mode of the recursive reading, in which the innermost `Partial`/`Required` wins |
| `Wrappers.ReadonlyChangesNothing` | packages/typegraph/scripts/api-surface-compat.ts:262-270 | `Readonly` and parentheses change neither the record of a type nor its values |
| `Wrappers.FirstArgumentCounts` | packages/typegraph/scripts/api-surface-compat.ts:266-279 | of several type arguments a wrapper takes the first |
| `Wrappers.OtherReferenceIsLeaf` | packages/typegraph/scripts/api-surface-compat.ts:265-283 | any other reference, and any without arguments, has no members and is left to the leaves |
| `Wrappers.RecordReadsInnermost` | packages/typegraph/scripts/api-surface-compat.ts:271-279 | for the record the innermost of nested `Partial`/`Required` counts |
| `Wrappers.ValuesReadOutermost` | packages/typegraph/scripts/api-surface-compat.ts:244-249 | for the values, as in TypeScript, the outermost counts |
| `Wrappers.PartialOfLiteral` | packages/typegraph/scripts/api-surface-compat.ts:271-274 | `Partial` of a literal has its paths, requires none of them, and has the value without fields |
| `Wrappers.RequiredOfLiteral` | packages/typegraph/scripts/api-surface-compat.ts:276-279 | `Required` of a literal requires each named member, and no value leaves one out |
| `MemberMaps.MergeUnionMaps` | packages/typegraph/scripts/api-surface-compat.ts:287-299 | the two loops keep every key and mark it optional iff it is absent from, or optional in, some constituent |
| `MemberMaps.MergeIntersectionMaps` | packages/typegraph/scripts/api-surface-compat.ts:301-313 | folding constituents in place marks a key optional iff every constituent that has it does |
| `MemberMaps.MergeOverloadAggregate` | packages/typegraph/scripts/api-surface-compat.ts:315-331 | only overloads that have a key vote on it |
| `MemberMaps.RequiredSets` | packages/typegraph/scripts/api-surface-compat.ts:287-331 | the required set of an intersection is the union of the required sets, of a union their intersection with absence voting against, of overloads the intersection among those that have the key |
| `MemberMaps.PermutationInvariant` | packages/typegraph/scripts/api-surface-compat.ts:287-331 | no merge depends on the order of its operands |
| `MemberMaps.FlatteningInvariant` | packages/typegraph/scripts/api-surface-compat.ts:287-331 | merging nested groups equals merging the flat list, for unions if no group is empty |
| `MemberMaps.EmptyGroupWeakensUnion` | packages/typegraph/scripts/api-surface-compat.ts:287-299 | an empty group turns a key that all real constituents require into an optional one |
| `Wrappers.RecordedNames` | packages/typegraph/scripts/api-surface-compat.ts:220-232 | a member is recorded under its name, a computed one in brackets, a private one not at all, and index signatures and mapped types as optional `[index]` |
| `MemberResolution.CollectTypeElementMembers` | packages/typegraph/scripts/api-surface-compat.ts:333-363 | filling one map element by element gives the left-to-right override of what each element declares, forced mode and nested paths included |
| `MemberResolution.ResolveLocalMembers` | packages/typegraph/scripts/api-surface-compat.ts:410-428 | the dispatch on the peeled node computes the member map that the value semantics is compared with |
| `MemberResolution.CollectClassMembers` | packages/typegraph/scripts/api-surface-compat.ts:365-401 | the same for classes: constructors and private members contribute nothing, accessors are required |
| `Callables.ClassRecordIff` | packages/typegraph/scripts/api-surface-compat.ts:365-401 | a class has the paths that its visible fields, accessors and methods record, private ones and constructors excluded, and the last to record a path says whether it is optional |
| `MemberResolution.RecordedIffDeclared` | packages/typegraph/scripts/api-surface-compat.ts:333-428 | required or optional, the paths recorded for a type are exactly those that some member it is made of declares, at any depth; no merge and no wrapper loses one |
| `MemberResolution.LastElementDecides` | packages/typegraph/scripts/api-surface-compat.ts:333-363 | of several elements that record a path the last one says whether it is optional |
| `MemberResolution.ClassAsInstanceIff` | packages/typegraph/scripts/api-surface-compat.ts:365-401 | a class is recorded as the literal of its visible instance members iff its static members, which the code records too, have the last word on no path that an instance member does not record alike |
| `MemberResolution.RecordedAsDeclared` | packages/typegraph/scripts/api-surface-compat.ts:1003-1015 | aliases and interfaces are recorded as the type they declare, and classes are iff that guard holds |
| `ValueSemantics.RequiredIsPresent` | packages/typegraph/scripts/api-surface-compat.ts:250-428 | soundness: each path marked required is present in every value of the type, unions, intersections and nesting included, unless the code drops a `Partial` that TypeScript honours |
| `AlwaysPresent.AlwaysIff` | packages/typegraph/scripts/api-surface-compat.ts:244-428 | for every stack of wrappers, nesting, unions, intersections, index signatures and repeated members, a path is read off as always there iff every value of the type has it; leaves admit everything, or are bare and nothing is constrained from two sides |
| `AlwaysPresent.AlwaysForEveryLeaf` | packages/typegraph/scripts/api-surface-compat.ts:403-428 | the same however the types that the code does not expand are understood |
| `AlwaysPresent.Avoidable` | packages/typegraph/scripts/api-surface-compat.ts:333-428 | the witness: for each path not always there some value of the type lacks it |
| `Exactness.RequiredIffMarked` | packages/typegraph/scripts/api-surface-compat.ts:250-428 | what the code marks, without its maps and merges: mandatory all the way in every constituent of a union and in one and the same of an intersection, wrappers read innermost |
| `Exactness.OnlyWrappersDiffer` | packages/typegraph/scripts/api-surface-compat.ts:250-285 | without intersections that same rule gives the paths of every value once the wrappers are read outermost |
| `Exactness.RequiredIffAlwaysPresent` | packages/typegraph/scripts/api-surface-compat.ts:250-428 | so where the two readings of wrappers agree, a path is marked required iff every value has it |
| `Exactness.SoundIffHeld` | packages/typegraph/scripts/api-surface-compat.ts:250-428 | the marks are sound iff each marked path ends in a member that the type, wrappers read outermost, holds: in some side of an intersection and every constituent of a union; members may share a name only as agreeing overloads |
| `Exactness.SoundIffSoundlyMarked` | packages/typegraph/scripts/api-surface-compat.ts:250-428 | for repeated names as well, the marks are sound iff each is held at every step |
| `Exactness.KeptPartialIsSound` | packages/typegraph/scripts/api-surface-compat.ts:244-285 | a type in which no `Partial` that TypeScript honours is lost is soundly marked |
| `Exactness.AlwaysIffHeldAllAlong` | packages/typegraph/scripts/api-surface-compat.ts:287-313 | a path is always there iff each of its steps is held, not necessarily by one and the same constituent |
| `Exactness.LosslessIff` | packages/typegraph/scripts/api-surface-compat.ts:287-313 | no mark is missing iff below no required member something is held without the longer path being marked; unions and intersections of any depth included |
| `Exactness.PartialOverRequired` | packages/typegraph/scripts/api-surface-compat.ts:260-281 | `Partial<Required<{a?}>>` is marked to require `a` because the inner wrapper wins, and has a value without it |
| `Exactness.BrokenBelow` | packages/typegraph/scripts/api-surface-compat.ts:333-363 | a mark broken in some type stays broken below any required member of that type |
| `Exactness.PartialOverIntersection` | packages/typegraph/scripts/api-surface-compat.ts:413-421 | `Partial` around an intersection of literals is unsound for whatever a side requires, because the mode is dropped |
| `Exactness.PartialOverUnion` | packages/typegraph/scripts/api-surface-compat.ts:422-426 | `Partial` around a union of literals is unsound for whatever all constituents require |
| `Exactness.FlatIntersectionLossless` | packages/typegraph/scripts/api-surface-compat.ts:301-313 | no mark is missing in an intersection of literals whose members are not expanded further |
| `Exactness.IntersectionIsIncomplete` | packages/typegraph/scripts/api-surface-compat.ts:301-313 | `a.c` of `{a: {b: X}} & {a?: {c: Y}}` is in every value and yet not marked required |
| `Exactness.StaticMemberBreaks` | packages/typegraph/scripts/api-surface-compat.ts:365-401 | the path of a static field is marked required and no instance has to have it |
| `Occurrences.LeastFixpoint` | packages/typegraph/scripts/api-surface-compat.ts:445-463 | the derivable states are contained in every set that has the seeds and is closed under steps |
| `Occurrences.ReachClosed` | packages/typegraph/scripts/api-surface-compat.ts:445-463 | and they are such a set themselves |
| `ContravariantWalk.Walk.MarkReachable` | packages/typegraph/scripts/api-surface-compat.ts:472-488 | memoised visit: the state is visited, every state added is finished, the contravariant set is the hard part of the visited set, and it terminates on cycles |
| `ContravariantWalk.Walk.WalkTypeNode` | packages/typegraph/scripts/api-surface-compat.ts:490-540 | every occurrence below the node has been visited at its composed polarity and flag |
| `ContravariantWalk.Walk.WalkTypeElements` | packages/typegraph/scripts/api-surface-compat.ts:580-624 | the same for all elements, with member optionality and the gate on the method's owner |
| `ContravariantWalk.Walk.WalkClassMembers` | packages/typegraph/scripts/api-surface-compat.ts:626-680 | the same for the visible members of a class, constructors gated |
| `ContravariantWalk.Walk.WalkSurface` | packages/typegraph/scripts/api-surface-compat.ts:682-697 | from the seeds the walk visits exactly the derivable states |
| `ContravariantWalk.ComputeContravariantNames` | packages/typegraph/scripts/api-surface-compat.ts:464-700 | a name is in the result iff a finite derivation leads to it at `-` with everything mandatory, on any mutually recursive declarations |
| `Mentions.InIffMentioned` | packages/typegraph/scripts/api-surface-compat.ts:490-540 | what occurs in a type is what its syntax mentions at that polarity and flag: references and their arguments, function parameters and results, members, index signatures, array elements, tuple slots, mapped templates, each written out |
| `Mentions.DeclarationIffMentioned` | packages/typegraph/scripts/api-surface-compat.ts:580-680 | the same for aliases, interfaces and classes, with the gate on methods and constructors, accessors, and private members left out |
| `Mentions.FunctionsIffMentioned` | packages/typegraph/scripts/api-surface-compat.ts:682-697 | the same for top-level functions and their gate |
| `Mentions.HardIsLeastDemanding` | packages/typegraph/scripts/api-surface-compat.ts:445-463 | the names that the walk computes are the least set that has what functions and declarations mention below an odd number of parameters and what its own names mention below an even number, nothing on the way being optional or new |
| `Mentions.CallbackResultIsHard` | packages/typegraph/scripts/api-surface-compat.ts:506-517 | what a mandatory callback of a hard record returns is hard |
| `ContravariantWalk.CoversUnfold` | packages/typegraph/scripts/api-surface-compat.ts:490-540 | covering a node is covering its own reference and its constituents at their turned polarity, which ties the traversal to the occurrences |
| `VarianceLaws.HardIffOddChain` | packages/typegraph/scripts/api-surface-compat.ts:445-463 | a name is hard iff some chain of mandatory occurrences passes an odd number of parameter positions |
| `VarianceLaws.MandatoryNeverRegained` | packages/typegraph/scripts/api-surface-compat.ts:548-558 | a flag lost on a derivation stays lost |
| `VarianceLaws.PrunedWalkSuffices` | packages/typegraph/scripts/api-surface-compat.ts:472-680 | a walk that never enters a non-mandatory state finds the same names |
| `VarianceLaws.HardMonotoneInGate` | packages/typegraph/scripts/api-surface-compat.ts:560-578 | more existing callables only add hard names, and leaving the gate out gives the most |
| `VarianceLaws.OrderIrrelevant` | packages/typegraph/scripts/api-surface-compat.ts:682-697 | permuting declarations, members or functions changes no hard status |
| `VarianceLaws.ExtensionConservativeIff` | packages/typegraph/scripts/api-surface-compat.ts:79-110 | new functions, new declarations and members gained by existing ones leave every hard status alone iff each mandatory occurrence gained below an odd number of parameters, or by a hard declaration, is of a name that was hard already |
| `VarianceLaws.ConservativeExtension` | packages/typegraph/scripts/api-surface-compat.ts:79-110 | new functions, declarations and members whose callables are new, without function types outside callable parameters, are such additions, provided that what a hard declaration gains mentions hard names only |
| `VarianceLaws.NewMethodIsConservative` | packages/typegraph/scripts/api-surface-compat.ts:93-97 | a new method without a declared result on an existing interface makes no name hard, whatever its parameters |
| `VarianceLaws.QuietGainIsQuiet` | packages/typegraph/scripts/api-surface-compat.ts:580-680 | the syntactic condition for gained members of interfaces and classes, constructors included and private members exempt |
| `VarianceLaws.NewCallbackPropertyHardens` | packages/typegraph/scripts/api-surface-compat.ts:507-517 | a declared name that is not hard becomes hard when an interface with a callback property over it is added, although no callable existed |
| `TypeArguments.RenamedOccurs` | packages/typegraph/scripts/api-surface-compat.ts:44-49 | instantiating a type parameter with a reference keeps every occurrence, renamed, at its polarity and flag |
| `TypeArguments.OccurrenceOrigin` | packages/typegraph/scripts/api-surface-compat.ts:44-49 | and adds none |
| `TypeArguments.InheritedCoversIff` | packages/typegraph/scripts/api-surface-compat.ts:44-49 | the polarity that an argument inherits covers its mandatory occurrences in the instance iff no mandatory occurrence of the parameter lies below an odd number of parameter positions |
| `TypeArguments.HandlerHidesArgument` | packages/typegraph/scripts/api-surface-compat.ts:494-500 | for `Handler<Options>` as a result `Options` is not hard, and for its instance it is |
| `Inventory.CollectCallables` | packages/typegraph/scripts/api-surface-compat.ts:809-874 | grouping by `name` and `Owner.member` puts exactly the callable's overloads, in order, under its key |
| `Callables.SignatureIffDeclared` | packages/typegraph/scripts/api-surface-compat.ts:809-874 | a signature is collected iff a function, interface method, visible class method or visible constructor of that key is declared with these parameters and this result |
| `Callables.CallableIffDeclared` | packages/typegraph/scripts/api-surface-compat.ts:933-966 | a key is collected as existing iff something of that key is declared |
| `Inventory.CollectExistingCallableKeys` | packages/typegraph/scripts/api-surface-compat.ts:933-966 | a key is collected iff the report has a signature for it |
| `Inventory.CollectUses` | packages/typegraph/scripts/api-surface-compat.ts:757-780 | the overload loop gathers, per parameter key and in order, the literals with their mandatory flags, and the return literals |
| `Inventory.CollectInlineLiteralEntries` | packages/typegraph/scripts/api-surface-compat.ts:742-807 | every key holds exactly the aggregated entry of its callable, and no other key is set |
| `Inventory.BuildSurfaceInventory` | packages/typegraph/scripts/api-surface-compat.ts:981-1038 | each declaration is recorded with its kind, its hard status and its member map, each inline literal with its entry, and nothing else; refuses iff there is nothing |
| `Callables.RecordOfDeclaration` | packages/typegraph/scripts/api-surface-compat.ts:1003-1017 | the record of a declaration, field by field |
| `InlineAgreement.InlineEntryIff` | packages/typegraph/scripts/api-surface-compat.ts:719-791 | an inline entry exists iff some overload has the literal, and is hard iff the callable existed and some such parameter carries no `?` |
| `InlineAgreement.InlineEntryRequiredIff` | packages/typegraph/scripts/api-surface-compat.ts:782-791 | the entry has the paths of all overload literals under its key, and a path is required iff every literal that has it requires it |
| `InlineAgreement.ResultEntryIff` | packages/typegraph/scripts/api-surface-compat.ts:776-804 | a return entry exists iff some overload returns an inline literal, and is never hard |
| `InlineAgreement.ResultEntryRequiredIff` | packages/typegraph/scripts/api-surface-compat.ts:792-804 | it has the paths of all returned literals, and a path is required iff every literal that has it requires it |
| `Callables.ReturnEntryIffDeclared` | packages/typegraph/scripts/api-surface-compat.ts:776-804 | from the declarations: a return entry exists iff some declaration of the callable returns a type with members |
| `Callables.ReturnEntryPaths` | packages/typegraph/scripts/api-surface-compat.ts:792-804 | it is never hard, has the paths that any of these types declares, and requires one iff each that declares it requires it |
| `Callables.ParameterEntryIffDeclared` | packages/typegraph/scripts/api-surface-compat.ts:762-791 | from the declarations: a parameter entry exists iff some declaration takes a type with members under that key, and is hard iff the callable is no new one and some such parameter carries no `?` |
| `Callables.ParameterEntryPaths` | packages/typegraph/scripts/api-surface-compat.ts:782-791 | it has the paths that any of these types declares, and requires one iff each that declares it requires it |
| `Callables.ParameterKeyRead` | packages/typegraph/scripts/api-surface-compat.ts:702-707 | a parameter goes by its name, a destructured one by `arg` and its position in decimal |
| `InlineAgreement.NamedHardIff` | packages/typegraph/scripts/api-surface-compat.ts:580-697 | after naming the literal, the alias is hard iff an existing callable has a non-optional signature with a non-optional parameter of it |
| `InlineAgreement.NamedAgreesWithInline` | packages/typegraph/scripts/api-surface-compat.ts:97-103 | naming a shared literal keeps the members for any number of overloads, and keeps the hard status iff a literal passed to an existing callable without `?` is demanded in that sense |
| `InlineAgreement.OptionalMethodDisagrees` | packages/typegraph/scripts/api-surface-compat.ts:97-103 | for an optional method with such a parameter the inline entry is hard and the alias record is not |
| `InlineAgreement.NamedEqualsInline` | packages/typegraph/scripts/api-surface-compat.ts:742-790 | for functions, constructors and methods without `?` the two records are equal up to their kind |
| `Comparison.CompareSurfaceInventories` | packages/typegraph/scripts/api-surface-compat.ts:1096-1182 | a finding is reported iff its predicate holds with the severity stated for it, at most one per declaration and member |
| `Comparison.FindingIff` | packages/typegraph/scripts/api-surface-compat.ts:1104-1179 | each kind of finding and its severity, written out on the two records |
| `Comparison.PassesIff` | packages/typegraph/scripts/api-surface-compat.ts:1089-1095 | no failing finding iff everywhere members are kept, nothing optional became required, and hard declarations demand nothing new |
| `Comparison.PassesReflexive` | packages/typegraph/scripts/api-surface-compat.ts:1096-1182 | every inventory is compatible with itself |
| `Comparison.PassesComposeIff` | packages/typegraph/scripts/api-surface-compat.ts:1096-1182 | two passing steps compose iff no demand entered while its declaration was not yet hard |
| `Comparison.PassesDoesNotCompose` | packages/typegraph/scripts/api-surface-compat.ts:1096-1182 | two passing steps whose composition fails |
| `Comparison.PassesTransitive` | packages/typegraph/scripts/api-surface-compat.ts:1096-1182 | so they do when no declaration becomes hard on the second step |
| `Comparison.SilentBothWaysIff` | packages/typegraph/scripts/api-surface-compat.ts:1096-1182 | no finding in either direction iff the inventories agree on every declaration with members |
| `Comparison.PassesIffAdequacyKept` | packages/typegraph/scripts/api-surface-compat.ts:1089-1182 | no failing finding iff no member is lost and every path set that was enough to supply at base still is, where members new to a declaration that is not hard are not demanded |
| `Ledger.ParseExceptionsLedger` | packages/typegraph/scripts/api-surface-compat.ts:1243-1337 | accepted, unchanged, iff no tuple occurs twice |
| `Ledger.ValidateExceptionsLedger` | packages/typegraph/scripts/api-surface-compat.ts:1345-1367 | an entry is stale iff no failing finding has its entrypoint, declaration, member and kind |
| `Ledger.LedgerBijection` | packages/typegraph/scripts/api-surface-compat.ts:1596-1628 | without stale entries the exempted tuples are the ledger, one for one, and failures at first are ledger plus failures left |
| `Ledger.FailuresSplit` | packages/typegraph/scripts/api-surface-compat.ts:1611-1628 | for any ledger each failure is either exempted or left |
| `Ledger.ExemptedIff` | packages/typegraph/scripts/api-surface-compat.ts:1611-1628 | findings keep their fields and places; a failing one is exempted iff some entry has its entrypoint, declaration, member and kind, and all others keep their severity |
| `Ledger.OtherKindIsNoExemption` | packages/typegraph/scripts/api-surface-compat.ts:1611-1620 | an entry of another kind neither exempts a failure nor is in use because of it |
| `Ledger.FailedIff` | packages/typegraph/scripts/api-surface-compat.ts:1643-1646 | the run fails iff some failing finding has no entry with its four fields |
| `CompatRun.ComparedUnique` | packages/typegraph/scripts/api-surface-compat.ts:1543-1582 | the two inventories compared, the head one gated by the base callables, are determined by the two reports |
| `CompatRun.CompareReport` | packages/typegraph/scripts/api-surface-compat.ts:1543-1588 | the findings of one report are those between its inventories, none for a new entrypoint; refuses iff a side has nothing to inventory |
| `Reports.ReportFindingIff` | packages/typegraph/scripts/api-surface-compat.ts:1550-1587 | the findings about a declaration, in terms of its members in the two reports; an added required member fails iff the declaration is hard at the head for the callables that the base report declares |
| `CompatRun.RunApiSurfaceCompat` | packages/typegraph/scripts/api-surface-compat.ts:1499-1648 | each refusal names its reason in the source's order; a verdict has the findings of all reports with the ledger exempted one for one, and fails iff a failing tuple is not in the ledger |
| `OldValues.OldValuesStillFit` | packages/typegraph/scripts/api-surface-compat.ts:981-1182 | after a passing comparison of two reports, a value of the base version of a hard alias, interface or class has every path the head version marks required, provided the base marks are sound and static members add nothing to a class |
| `OldValues.OldValuesFitIff` | packages/typegraph/scripts/api-surface-compat.ts:981-1182 | under the same conditions it has every path that all values of the head version have iff every path that head holds all along without marking it is held all along at base |
| `OldValues.DemandHidden` | packages/typegraph/scripts/api-surface-compat.ts:301-313 | two versions with the same marks such that all new values have a path that an old one lacks |
| `OldValues.DemandHiddenInReports` | packages/typegraph/scripts/api-surface-compat.ts:1096-1182 | two reports with these versions of a hard alias compare without a failing finding |
| `OldValues.CleanRunKeepsValues` | packages/typegraph/scripts/api-surface-compat.ts:1499-1648 | after a run without failures, values of the base version of a hard declaration have every path the head version marks required, provided the base marks are sound and static members add nothing to a class |
| `RunComposition.RunsComposeIff` | packages/typegraph/scripts/api-surface-compat.ts:1543-1588 | two passing runs over three reports, each gated by its own base, amount to a passing run over both steps iff no demand came with the middle release while its declaration was not hard, or later on a declaration whose callables the middle release lacked |
| `RunComposition.RunsCompose` | packages/typegraph/scripts/api-surface-compat.ts:1543-1588 | so they do when the middle release kept the callables of the base and nothing becomes hard on the second step |
| `RunComposition.LateWithMid` | packages/typegraph/scripts/api-surface-compat.ts:1543-1588 | three reports whose two runs pass and whose run over both steps fails: `T.a` comes with the middle release while `f` takes `U`, then `f` takes `T` |
| `RunComposition.LateWithReturn` | packages/typegraph/scripts/api-surface-compat.ts:1543-1588 | and three where the middle release drops `f` and the head brings it back with `T.a` |
| `RunComposition.GateKeepsMembers` | packages/typegraph/scripts/api-surface-compat.ts:981-1038 | the gate decides what is hard and nothing else about a record |
| `Arguments.OverloadFitsIff` | packages/typegraph/scripts/api-surface-compat.ts:742-807 | after a passing comparison of a hard inline entry, all arguments of a soundly marked base literal have what a head literal marks required iff the base literal holds those of its paths that some head overload relaxes or that it does not declare |
| `Arguments.OldArgumentsStillFit` | packages/typegraph/scripts/api-surface-compat.ts:742-807 | with one literal type on either side and sound base marks every old argument has every path the head literal marks required |
| `Arguments.OverloadsHideDemand` | packages/typegraph/scripts/api-surface-compat.ts:315-331 | two reports of overloads that compare without any finding, and an old argument that lacks what each head overload requires |
| `ModuleGraph.LoadChainIff` | packages/typegraph/scripts/drizzle-reachability-scan.ts:607-612 | a chain serves `load` iff it serves `deferred` and all its hops are static |
| `ModuleGraph.SeveringMoreKeepsChain` | packages/typegraph/scripts/drizzle-reachability-scan.ts:508-530 | a chain that survives more severance was there under less |
| `BreadthFirst.SeveranceFilter` | packages/typegraph/scripts/drizzle-reachability-scan.ts:508-530 | the filter keeps exactly the edges that are neither Drizzle specifiers nor links into the Drizzle backend |
| `Replay.DrizzleNames` | packages/typegraph/scripts/drizzle-reachability-scan.ts:94-100 | the pattern accepts exactly what starts with `drizzle-` or `@drizzle-team/` |
| `Replay.ReplaysIff` | packages/typegraph/scripts/drizzle-reachability-scan.ts:508-530 | a chain is followed iff it replays on the edge lists and resolution tables: mode, the two severance tests with their prefixes, and relative links written out |
| `Replay.SeveredChainIff` | packages/typegraph/scripts/drizzle-reachability-scan.ts:508-530 | at source grain severing takes exactly the chains with a hop from a severed file to a Drizzle package or into `src/backend/drizzle/` |
| `Replay.CleanUnderSeveranceIff` | packages/typegraph/scripts/drizzle-reachability-scan.ts:508-530 | so a source walk is clean iff every chain there is without severance has such a hop |
| `Replay.OtherLinksStay` | packages/typegraph/scripts/drizzle-reachability-scan.ts:508-530 | every other relative link of a severed file is still followed |
| `Replay.SeveredRootIsClean` | packages/typegraph/scripts/drizzle-reachability-scan.ts:522-526 | a severed root whose relative links all lead into the backend or nowhere is clean |
| `BreadthFirst.ScanConsistent` | packages/typegraph/scripts/drizzle-reachability-scan.ts:608-630 | scanning one file keeps the queue in level order and the parents one level up along followed links, and ends in a followed Drizzle specifier or with every edge settled |
| `BreadthFirst.NoShorterChain` | packages/typegraph/scripts/drizzle-reachability-scan.ts:542-549 | while everything nearer than a level is settled, every chain has more hops than that level |
| `BreadthFirst.BuiltChain` | packages/typegraph/scripts/drizzle-reachability-scan.ts:582-602 | the rebuilt chain starts at the root and is replayable hop by hop, so the missing-parent exit is never taken |
| `BreadthFirst.BuiltLength` | packages/typegraph/scripts/drizzle-reachability-scan.ts:582-602 | it has one hop per level and ends in the offending specifier |
| `BreadthFirst.WalkIsCorrect` | packages/typegraph/scripts/drizzle-reachability-scan.ts:567-634 | dirty iff a chain of followed edges reaches Drizzle, and then by a shortest such chain |
| `Replay.WalkReplays` | packages/typegraph/scripts/drizzle-reachability-scan.ts:567-634 | the verdict, its shortest chain and the reported specifier, on chains that replay |
| `ReachabilityScanner.Scanner.RawEdgesFor` | packages/typegraph/scripts/drizzle-reachability-scan.ts:550-565 | the cached edges are the file's edges, before severance, and the cache stays truthful |
| `ReachabilityScanner.Scanner.ResolveRelative` | packages/typegraph/scripts/drizzle-reachability-scan.ts:442-460 | a cached resolution, failed ones included, is what the tree resolves to |
| `ReachabilityScanner.Scanner.Sever` | packages/typegraph/scripts/drizzle-reachability-scan.ts:514-530 | severance through the source cache keeps what the pure filter keeps, in order |
| `ReachabilityScanner.Scanner.ScanFile` | packages/typegraph/scripts/drizzle-reachability-scan.ts:608-630 | the loop over the edges of a file makes the scan's step on queue, visited set and parents |
| `ReachabilityScanner.Scanner.ChainTo` | packages/typegraph/scripts/drizzle-reachability-scan.ts:582-602 | the parent loop builds the specified chain and terminates by depth |
| `ReachabilityScanner.Scanner.Walk` | packages/typegraph/scripts/drizzle-reachability-scan.ts:567-634 | whatever earlier walks left in the caches, the finding is that of a cold walk |
| `ReachabilityScanner.Scanner.WalkAll` | packages/typegraph/scripts/drizzle-reachability-scan.ts:643-667 | so it is for every walk of any sequence of roots, grains, modes and severed sets |
| `ReachabilityScanner.ScanRoot` | packages/typegraph/scripts/drizzle-reachability-scan.ts:567-634 | the imperative walk itself is correct and reports a shortest chain |
| `ReachabilityLaws.LoadImpliesDeferred` | packages/typegraph/scripts/drizzle-reachability-scan.ts:540-549 | `load` dirty implies `deferred` dirty by a chain no longer, and a `load` chain is all static |
| `ReachabilityLaws.DynamicOnlyIff` | packages/typegraph/scripts/drizzle-reachability-scan.ts:102-120 | clean at `load` and dirty when `deferred` iff Drizzle is reachable and every chain has a dynamic hop |
| `ReachabilityLaws.SeveranceMonotone` | packages/typegraph/scripts/drizzle-reachability-scan.ts:508-530 | severing more never turns clean into dirty and never shortens the reported chain |
| `ReachabilityLaws.StageModules` | packages/typegraph/scripts/drizzle-reachability-scan.ts:146-165 | the modules that each stage severs |
| `ReachabilityLaws.StagesShrink` | packages/typegraph/scripts/drizzle-reachability-scan.ts:140-165 | so the dirty set shrinks along the three staged severances |
| `ReachabilityLaws.SeveringAllIsClean` | packages/typegraph/scripts/drizzle-reachability-scan.ts:508-530 | with every file severed a source walk finds nothing |
| `ReachabilityLaws.DistIgnoresSeverance` | packages/typegraph/scripts/drizzle-reachability-scan.ts:575-580 | at dist grain severance changes neither the verdict nor the length of the chain |
| `Ontology.RelatesVia` | packages/typegraph/examples/08-custom-ontology.ts:279-309 | for a transitive meta-edge yes iff the kinds differ and a path of one or more relations leads from one to the other, cycles included; otherwise yes iff related directly |
| `Ontology.ReachesIffTrail` | packages/typegraph/examples/08-custom-ontology.ts:285-307 | a path of kinds is a trail of relations of that meta-edge name, each starting where the one before ends, in the declared direction |
| `Ontology.NeverLeaves` | packages/typegraph/examples/08-custom-ontology.ts:296-307 | a path that starts in a set closed under the relation stays in it |
| `Ontology.CycleReachesItself` | packages/typegraph/examples/08-custom-ontology.ts:296-308 | on a cycle a kind does reach itself, which the walk for equal kinds denies |
| `Xorshift.IntegerStep` | packages/benchmarks/src/seed.ts:13-16 | the three assignments on a JavaScript integer, `>>>` and signed results included, act on its 32 bits as the bit-level step |
| `Xorshift.OperatorsBitByBit` | packages/benchmarks/src/seed.ts:14-16 | the operators bit by bit: shifts move bits and fill with zeros, exclusive or differs, and `>>>` is unsigned |
| `Xorshift.UnsignedReading` | packages/benchmarks/src/seed.ts:17 | the unsigned reading of an integer's bits is its remainder modulo 2 to the 32 |
| `Xorshift.StepIsPermutation` | packages/benchmarks/src/seed.ts:14-16 | the step has a two-sided inverse and only zero leads to zero |
| `Xorshift.BitsOfReading` | packages/benchmarks/src/seed.ts:17 | the signed and the unsigned reading of 32 bits both have exactly these bits |
| `Xorshift.NeverZero` | packages/benchmarks/src/seed.ts:11-19 | from a non-zero word no run reaches zero and every output lies in (0, 1] |
| `Xorshift.SignedRng.Next` | packages/benchmarks/src/seed.ts:13-18 | the signed-state generator makes one bit-level step and returns the output for it |
| `Xorshift.UnsignedRng.Next` | packages/benchmarks/src/vector-bench.ts:95-101 | so does the unsigned-state one, whose state stays an unsigned 32-bit integer |
| `Xorshift.UnsignedRng.constructor` | packages/benchmarks/src/vector-bench.ts:93-94 | its initial state is the seed modulo 2 to the 32, or one if that is zero |
| `Xorshift.DrawSigned` | packages/benchmarks/src/seed.ts:11-19 | any number of draws is the stream of the seed's bits |
| `Xorshift.DrawUnsigned` | packages/benchmarks/src/vector-bench.ts:93-102 | any number of draws is the stream of the repaired seed |
| `Xorshift.SameStreamIff` | packages/benchmarks/src/vector-bench.ts:93-102 | the two generators give the same infinite stream iff the seed's 32 bits are not all zero |

## Left out

- Git, file system, process and command line code of both scripts: reports, edge lists and the ledger are inputs.
- Parsing TypeScript and extracting the fenced body of a report: the model starts from the syntax tree. A later declaration statement replaces an earlier one of the same name in the source; the model starts from the resulting map.
- Dotted member paths, `Owner.member` keys, `callable(param)` keys and NUL-joined keys: modelled as sequences, tuples and datatypes, to which the source's strings correspond one to one only if the parts contain no dot, parenthesis or NUL.
- The iteration order of JavaScript maps and sets: loops over them take elements in an arbitrary order, so the order of findings within a report is not captured. The order of overloads, elements, edges and ledger entries is.
- Finding messages, report lines, the merge-base report, and the reason, issue and refusal fields of the ledger.
- Ledger.ParseExceptionsLedger: only the uniqueness of tuples is modelled; JSON shape, field patterns and the ban on `*` are not.
- The error for a run in which no base snapshot could be read: it cannot occur once every base report has a head report, so the run has no such result.
- CompatRun.RunApiSurfaceCompat: head reports are assumed to have distinct file names, which a directory listing guarantees.
- Exactness.SoundIffHeld: a union without constituents, which TypeScript's syntax does not have, is excluded; `LosslessIff` likewise.
- TypeArguments.InheritedCoversIff: for arguments that are plain references; instantiating with a literal can also change the mode of a wrapper around the parameter.
- Exactness.RequiredIffMarked: two members of a literal may share a name only as overloads of a method that agree on `?`.
- ValueSemantics.RequiredIsPresent: references, mapped types and keywords denote arbitrary sets of values; the value type of an index signature constrains only fields that no named member declares.
- OldValues.CleanRunKeepsValues: inherited members are not part of the type of an interface or class, as in the source; accessor types are not looked into.
- Path normalisation and the probing of file extensions: a specifier resolves by a fixed partial function per grain, and resolved paths are assumed to be readable modules.
- Loops over entrypoints, their classification, exemptions and the formatting of findings.
- Seeds that are not integers, and floating-point rounding of the quotient: outputs are exact reals.
- The query compiler, stores, backends and other examples: their code is not part of this model.
