# faucet: planning and graph algorithms, verified

A Dafny model of the parts of the faucet CLI and its release tooling whose mistakes would lose
or duplicate data without an error: what a run fans out over, how a config is composed, which
rows share a destination, how a range is cut into resumable units, and how CI and releases are
planned. `dafny verify dfyconfig.toml` checks everything.

| area | modules |
|---|---|
| JSON values, their text and key order | `Json`, `JsonStrings`, `Decimal`, `Text`, `Lines`, `Sorting`, `Sequences`, `Outcomes` |
| discovery matrix (`cli/src/discovery_matrix.rs`) | `DedupKey`, `SignedZeros`, `Projection`, `ProjectionMeaning`, `RequestMatrix`, `CollectedDims` |
| config composition (`cli/src/compose.rs`, `cli/src/merge.rs`) | `Merge`, `MergeEquality`, `ComposeSpec`, `ComposeGraph`, `Compose`, `ComposeTheorems`, `ComposeMeaning` |
| shared destinations (`cli/src/destination.rs`) | `Destination`, `TuningKeys`, `IdentityResolution`, `SharedDestinations`, `ExecutionLevels`, `OverwriteChecks` |
| chunking (`cli/src/chunking.rs`) | `TimeWindows`, `RangeChunks` |
| CI shards (`scripts/coverage_shards.py`) | `LongestFirst`, `CoverageShards` |
| releases (`scripts/release-cli-bump.py`, `scripts/release-notes.py`) | `Versions`, `ReleasePlan`, `BuildClosure`, `BuildMeaning`, `Changelog`, `ChangelogMeaning` |

Code that updates state in place is a class or a loop (`ProjectionAcc`, `Slot`, `Tuple`,
`Composer`, `LevelSolver`, the planners, the worklist); each such method is tied to a
specification function or predicate, and the lemmas are about that specification. The modules
named `...Meaning`, and `SharedDestinations`, say what those specifications come to in terms of the
inputs alone: the records, the files, the manifests, the rows and their reports, the lines.

## Conventions

- One JSON type serves every file. Objects are ordered with unique keys, as the CLI builds
  serde_json with `preserve_order` (`cli/Cargo.toml:668-670`), so removing a key moves the last
  field into its place. The comment at `cli/src/compose.rs:219-221`, that the map is a sorted
  `BTreeMap`, disagrees with that feature; the model follows the feature.
- A finite float is held as its shortest round-trip text, which determines it; integers are
  `u64`/`i64` values. `WellFormed` says only what every parsed value satisfies.
- The file system is a map from canonical path to parsed document. Resolving a relative path and
  converting between YAML and JSON are arbitrary functions (`ComposeSpec.World`). Sinks are asked
  through arbitrary deterministic functions (`Destination.Sinks`), a time zone is an arbitrary
  `Calendar`, and JSONPath extraction is an arbitrary function from records to values.
- `i64`, `u64` and `usize` are modelled with their limits wherever a cast, a checked product or
  an overflow is involved.

## Where the code and its documentation part ways

Each is a proved fact about the code as written, with the exact condition under which the
documented statement does hold.

- `product_size` is documented to return 0 when a dimension is empty; it returns `usize::MAX`
  when a prefix overflows first (`RequestMatrix.EmptyDimensionHidden`). With an empty dimension it
  is 0 exactly when no prefix overflows (`EmptyIsZero`).
- Rows whose sink configs differ only in tuning keys are documented to have one identity. Each
  removal moves the last field, so the identity also depends on the order in which the other keys
  are left, which the key names alone decide: two identities are equal exactly when kinds, other
  fields and that order are (`TuningKeys.IdentityByLayout`). Configs with the same key sequence,
  such as two that differ in the value of `write_mode`, therefore agree exactly when their other
  fields do (`SameKeysSameIdentity`); with one tuning key in each, exactly when as many other fields
  follow it in both or at most one does (`OneTuningKeyEach`); with any number of them, whenever at
  most one other field follows the first (`LateTuningIgnored`). `TuningKeyMovesFields` is a pair
  that differs in one tuning key and gets two identities.
- Values that compare equal are documented to have one dedup key; that is so of a value exactly
  when it holds no float zero, whose two signs compare equal but print apart
  (`SignedZeros.SameKeyWhenEqual`, `ZerosHaveTwoKeys`).
- A respelled version (leading zeros) is called a patch bump (`Versions.RespellingIsAPatch`); that is
  the only exception to the bump law (`BumpIffNext`).
- The changelog rewriter is idempotent exactly when the repository name holds no `)`
  (`Changelog.UpdateIdempotent`).
- Deep merge is not associative (`MergeEquality.GroupingMatters`). `Merge.MergeAssociative` says
  exactly when the two groupings are identical, key order included; `AssociativeUpToOrder` when they
  are equal up to key order, which the program ignores when it compares values (`OnlyOrderDiffers` tells the
  two apart).

## Model

| member | source | states |
|---|---|---|
| `LongestFirst.LoadsAddUp` | scripts/coverage_shards.py:49-52 | No package is lost or counted twice: the shard loads add up to the work. |
| `LongestFirst.LastJobBound` | scripts/coverage_shards.py:49-52 | Greedy in any order: m · heaviest ≤ total + (m−1) · (last package placed on it). |
| `LongestFirst.RoomForLargeJob` | scripts/coverage_shards.py:48-52 | When some placement of the jobs so far stays under three times the next job's size, any placement of the earlier jobs leaves a machine with room for it. |
| `LongestFirst.LargeLastOptimal` | scripts/coverage_shards.py:48-52 | A shard whose last package exceeds a third of the best makespan does not exceed that makespan. |
| `LongestFirst.ApproximationBound` | scripts/coverage_shards.py:44-53 | 3m · heaviest ≤ (4m−1) · (heaviest of any other m-way placement). |
| `CoverageShards.LightestShard` | scripts/coverage_shards.py:50 | The chosen shard has the least load, and the lowest index among those. |
| `CoverageShards.PlaceAll` | scripts/coverage_shards.py:46-52 | The placement is greedy, the counted loads are the work in the shards, and the shards together hold the given packages. |
| `CoverageShards.PlanLibs` | scripts/coverage_shards.py:44-53 | Every non-CLI package lands in exactly one of the sorted shards; the heaviest shard is within (4m−1)/(3m) of every assignment of packages to m shards; and the plan is the one of taking packages by size and name, each to the first of the lightest shards. |
| `Sorting.StringLeExact` | scripts/coverage_shards.py:48 | Names stand in order exactly when the first is a prefix of the second, or has the smaller character where they first differ. |
| `CoverageShards.PlanCliCovers` | scripts/coverage_shards.py:56-60 | The parts concatenate to the test targets: each in exactly one part, in order. |
| `CoverageShards.PlanCliEven` | scripts/coverage_shards.py:56-60 | No part exceeds an even share rounded up. |
| `Json.QuoteInjective` | cli/src/discovery_matrix.rs:245 | A quoted string (section 7 of RFC 8259) followed by any text determines both the string and the text. |
| `JsonStrings.QuotedRead` | cli/src/discovery_matrix.rs:245 | A reader of section 7 of RFC 8259 gets the string back, and what follows it. |
| `JsonStrings.PlainQuoted` | cli/src/discovery_matrix.rs:245 | A string without quotes, backslashes and control characters is quoted as it is. |
| `Json.PrintInjective` | cli/src/discovery_matrix.rs:238-255 | The compact text of a value, followed by text that cannot continue a number, determines the value and what follows. |
| `Json.SameText` | cli/src/discovery_matrix.rs:55-63 | Two values have one text exactly when they are identical. |
| `DedupKey.KeyIsCanonicalText` | cli/src/discovery_matrix.rs:238-255 | The key is the compact text of the value with object keys sorted at every depth. |
| `DedupKey.PrintedAs` | cli/src/discovery_matrix.rs:253 | The compact text: literals, items and fields between brackets with commas, keys quoted before a colon. |
| `DedupKey.KeyCanonical` | cli/src/discovery_matrix.rs:238-255 | Two values get one key if and only if they are equal with key order ignored, at all depths. |
| `DedupKey.KeySelfDelimiting` | cli/src/discovery_matrix.rs:238-255 | A key followed by text that cannot continue a number is read back unambiguously. |
| `SignedZeros.SameKeyWhenEqual` | cli/src/discovery_matrix.rs:236-255 | Every value comparing equal to `a` has `a`'s key exactly when `a` holds no float zero. |
| `SignedZeros.SameKeyCompares` | cli/src/discovery_matrix.rs:236-255 | Values with one key always compare equal. |
| `SignedZeros.ZerosHaveTwoKeys` | cli/src/discovery_matrix.rs:236-255 | 0.0 and -0.0 compare equal and have different keys. |
| `Projection.ProjectionAcc.constructor` | cli/src/discovery_matrix.rs:118-126 | A new accumulator has been fed nothing. |
| `Projection.ProjectionAcc.PushMatches` | cli/src/discovery_matrix.rs:136-145 | The values kept are the first-seen non-null matches, and `any` says whether there was one. |
| `Projection.ProjectionAcc.PushRecord` | cli/src/discovery_matrix.rs:131-149 | One more record: the fields are the one-shot projection of the longer history. |
| `Projection.ProjectionAcc.Push` | cli/src/discovery_matrix.rs:129-150 | A page extends the history by its records. |
| `Projection.ProjectionAcc.Finish` | cli/src/discovery_matrix.rs:157-162 | The result is the one-shot projection of everything fed. |
| `Projection.Drain` | cli/src/executor.rs:2267-2286 | For every split into pages the result is the one-shot projection of the concatenated records. |
| `Projection.ProjectionComplete` | cli/src/discovery_matrix.rs:100-150 | No two kept values are equal up to key order, and every non-null match is represented. |
| `ProjectionMeaning.KeptIsFirst` | cli/src/discovery_matrix.rs:129-150 | Every kept value is the first match equal to it, of some record; so none is null and none is invented. |
| `ProjectionMeaning.KeptInOrder` | cli/src/discovery_matrix.rs:129-150 | The kept values stand in the order of those first matches. |
| `ProjectionMeaning.MatchRepresented` | cli/src/discovery_matrix.rs:129-150 | Every non-null match of every record equals a kept value, key order ignored. |
| `ProjectionMeaning.SkippedAre` | cli/src/discovery_matrix.rs:136-148 | `skipped` is the number of records all of whose matches are null. |
| `RequestMatrix.ProductSizeExact` | cli/src/discovery_matrix.rs:260-268 | The size is the product, or `usize::MAX` exactly when some prefix product overflows. |
| `RequestMatrix.EmptyDimensionHidden` | cli/src/discovery_matrix.rs:257-268 | Eight dimensions of 256 values and an empty one: the product is 0, the reported size `usize::MAX`. |
| `RequestMatrix.EmptyIsZero` | cli/src/discovery_matrix.rs:257-268 | With an empty dimension the size is 0 if and only if no prefix product overflows. |
| `RequestMatrix.Extend` | cli/src/discovery_matrix.rs:281-291 | One round turns the enumeration of k dimensions into that of k+1, last dimension fastest. |
| `RequestMatrix.Cartesian` | cli/src/discovery_matrix.rs:275-294 | The result is the mixed-radix enumeration of all tuples; none when a dimension is empty. |
| `RequestMatrix.EveryTuple` | cli/src/discovery_matrix.rs:275-294 | Every choice of one value per dimension is enumerated, at its own position. |
| `RequestMatrix.OnlyTuples` | cli/src/discovery_matrix.rs:275-294 | Every position is some choice of one value per dimension. |
| `RequestMatrix.TuplesDistinct` | cli/src/discovery_matrix.rs:275-294 | With distinct dimension ids and values no tuple repeats. |
| `RequestMatrix.ChosenHolds` | cli/src/discovery_matrix.rs:283-288 | Each dimension's value is exposed under the dimension's id and alias. |
| `RequestMatrix.SizeBelowMaxIsExact` | cli/src/discovery_matrix.rs:257-268 | Any size below `usize::MAX` is the number of tuples `cartesian` yields. |
| `CollectedDims.TupleKeyExact` | cli/src/discovery_matrix.rs:50-63 | Two contexts get one key exactly when they agree on every listed dimension, absent counting as null. |
| `CollectedDims.NestedKeyOrderMatters` | cli/src/discovery_matrix.rs:55-63 | Agreement is identity: values equal up to key order get different keys. |
| `CollectedDims.Tuple.InjectCollected` | cli/src/discovery_matrix.rs:70-78 | Each collected dimension contributes the list stored for the tuple as it came in, nothing else changes, when the dimensions are independent; in all cases the step-by-step result. |
| `CollectedDims.InjectAllEnriches` | cli/src/discovery_matrix.rs:65-78 | Injecting one after the other reads the incoming tuple throughout when no dimension lists another's id. |
| `CollectedDims.OrderIrrelevant` | cli/src/discovery_matrix.rs:65-78 | Any order of independent collected dimensions gives the same context. |
| `CollectedDims.EnrichedUnique` | cli/src/discovery_matrix.rs:65-78 | The enriched context is determined by the tuple and the set of collected dimensions. |
| `CollectedDims.IndependentReorder` | cli/src/discovery_matrix.rs:65-78 | Independence does not depend on the order. |
| `CollectedDims.ReadsOwnList` | cli/src/executor.rs:2308-2322 | A consumer reads the list last published for a tuple it agrees with, never another tuple's. |
| `CollectedDims.ExposedUnderAlias` | cli/src/discovery_matrix.rs:71-77 | And exposed under the dimension's alias. |
| `Merge.MergeValue` | cli/src/merge.rs:12-26 | The in-place loop computes the recursive merge. |
| `Merge.GetMerged` | cli/src/merge.rs:12-26 | Under a key: the overlay's value, the base's, or their merge. |
| `Merge.MergeAtDivergence` | cli/src/merge.rs:12-26 | Below the point where the sides stop being two objects, the overlay survives whole if it has one, else the base. |
| `Merge.MergeAtShared` | cli/src/merge.rs:12-26 | Where both hold objects the merge holds their merged fields. |
| `Merge.PathCases` | cli/src/merge.rs:12-26 | The two descriptions cover every path. |
| `Merge.MergedAbsorbed` | cli/src/merge.rs:12-26 | Merging `a` under `c` gives back `c` exactly when `c` covers `a`. |
| `Merge.MergeIdempotent` | cli/src/merge.rs:12-26 | Applying an overlay twice is applying it once. |
| `Merge.MergeAssociative` | cli/src/merge.rs:12-26 | The two groupings are identical, key order included, if and only if no path holds object, non-object, object with the third not starting with what the first holds. |
| `Merge.AssociativeWithoutSandwich` | cli/src/merge.rs:12-26 | Associative whenever no path holds object, non-object, object in that order. |
| `MergeEquality.AbsorbedUpToOrder` | cli/src/merge.rs:12-26 | Merging `a` under `c` gives a value equal to `c`, key order ignored, exactly when `c` has every key of `a` at every shared depth. |
| `MergeEquality.AssociativeUpToOrder` | cli/src/merge.rs:12-26 | Key order ignored, associative if and only if no path holds object, non-object, object with the third lacking a key of the first. |
| `MergeEquality.GroupingMatters` | cli/src/merge.rs:12-26 | Three concrete values on which the groupings differ. |
| `MergeEquality.OnlyOrderDiffers` | cli/src/merge.rs:12-26 | Three concrete values on which the groupings differ in key order only. |
| `Merge.MergedWellFormed` | cli/src/merge.rs:12-26 | Merging keeps keys unique at every depth. |
| `Compose.Composer.ResolveIncludes` | cli/src/compose.rs:235-283 | Succeeds exactly when the tree's includes denote something and no walk through them repeats a file; the result is that denotation, the stack is restored, every error is explained by a real walk. |
| `Compose.Composer.ResolveItems` | cli/src/compose.rs:275-279 | The same for a sequence's items. |
| `Compose.Composer.ResolveEntries` | cli/src/compose.rs:270-274 | The same for a mapping's values, keys left alone. |
| `Compose.Composer.ResolveEntry` | cli/src/compose.rs:271-273 | The same for one mapping value. |
| `Compose.Composer.IncludeTag` | cli/src/compose.rs:243-269 | The same for one tag: bad payload, foreign tag and missing file are refused. |
| `Compose.Composer.ReadFragment` | cli/src/compose.rs:309-328 | Reads the fragment's tree, converting JSON; each failure is one the file explains. |
| `Compose.Composer.LoadFragment` | cli/src/compose.rs:291-332 | A fragment loads exactly when it denotes within the depth left and no walk from it meets the stack or itself; the stack is restored. |
| `Compose.Composer.LoadValue` | cli/src/compose.rs:135-155 | A document's value is its tree with includes substituted, converted to JSON. |
| `Compose.Composer.ComposeBases` | cli/src/compose.rs:104-125 | Bases folded left to right, the child over them. |
| `Compose.Composer.ComposeDocument` | cli/src/compose.rs:88-129 | A document composes exactly when it denotes within the depth left and no walk from it meets the stack or itself; `visited` is restored on success, so diamonds are no cycle; a reported cycle is a real walk whose last file already occurs on it. |
| `Compose.ApplyProfile` | cli/src/compose.rs:196-215 | The selected profile is merged over the document, or refused with the known names. |
| `Compose.Compose` | cli/src/compose.rs:65-83 | Terminates on every file graph with the denotation or a real error, and succeeds exactly when the entry denotes and is free of repeated files. |
| `ComposeGraph.FragmentClear` | cli/src/compose.rs:291-332 | No walk from a fragment repeats a file exactly when none from its includes does, one file deeper. |
| `ComposeGraph.DocumentClear` | cli/src/compose.rs:88-129 | The same for a document's includes and bases, which share one stack. |
| `ComposeTheorems.DenotesIffBounded` | cli/src/compose.rs:88-129 | A file denotes something within n files exactly when every walk from it is that short and stays on sound files. |
| `ComposeTheorems.ComposeExactly` | cli/src/compose.rs:65-129 | With or without a profile, composition succeeds exactly when every walk from the entry visits at most 33 files, none twice, all sound, and the document knows the selected profile. |
| `ComposeTheorems.NoDirectivesLeft` | cli/src/compose.rs:76-81 | No top-level `extends` or `profiles` is left. |
| `ComposeTheorems.FastPathAgrees` | cli/src/compose.rs:70-83 | On a document without directives and no profile the merge path returns that document. |
| `ComposeMeaning.BasesAre` | cli/src/compose.rs:169-193 | The documents named by `extends`: none without it, one for a string, those of a list of strings in order; anything else is refused. |
| `ComposeMeaning.ExtendsOne` | cli/src/compose.rs:104-125 | A string `extends`: that document over an empty object, then the document's own keys. |
| `ComposeMeaning.ExtendsList` | cli/src/compose.rs:104-125 | A list: its documents folded in list order, then the document's own keys. |
| `ComposeMeaning.ExtendsNothing` | cli/src/compose.rs:104-106 | No `extends`: the document as loaded. |
| `ComposeMeaning.ComposedExactly` | cli/src/compose.rs:88-129 | A loaded document is composed exactly when `extends` is absent, a string or a list of strings, and every document so named is composed. |
| `ComposeMeaning.LastBaseWins` | cli/src/compose.rs:108-122 | Of the bases holding a key the last decides, unless objects merge. |
| `ComposeMeaning.BaseAndChild` | cli/src/compose.rs:65-129 | Under every key but the directives the composed value holds the base's value with the entry's over it: a key only the base has is in the result. |
| `ComposeMeaning.ProfileOver` | cli/src/compose.rs:196-209 | A selected profile is merged over the document, key by key. |
| `ComposeMeaning.NoProfile` | cli/src/compose.rs:74-83 | Without a profile only the directives go. |
| `ComposeMeaning.ProfilesKnown` | cli/src/compose.rs:200-213 | A profile is known exactly when the `profiles` object lists it; the names in a refusal are that object's keys. |
| `ComposeMeaning.NoProfiles` | cli/src/compose.rs:200-213 | Without a `profiles` object none is known. |
| `ComposeMeaning.IncludedAt` | cli/src/compose.rs:235-283 | At every place of the tree: an `!include` becomes the fragment its path resolves to, and every other node stays as it is. |
| `ComposeMeaning.BadTagAt` | cli/src/compose.rs:243-268 | A tree refused for its tags has a place with a foreign tag or an `!include` without a text. |
| `ComposeMeaning.TagAtIsBad` | cli/src/compose.rs:243-268 | And every such place makes it refused. |
| `ComposeMeaning.TargetAt` | cli/src/compose.rs:243-259 | Every file a tree includes is one an `!include` place resolves to. |
| `ComposeMeaning.PlainFragment` | cli/src/compose.rs:309-331 | A fragment without tags is its own tree, YAML or converted from JSON. |
| `Destination.ReportedTagged` | cli/src/destination.rs:186-190 | Equal reported identities force equal kinds. |
| `Destination.IdentityExact` | cli/src/destination.rs:194-205 | Two config identities are equal exactly when kind and remaining config are. |
| `TuningKeys.StrippedMember` | cli/src/destination.rs:194-205 | Exactly the other fields survive, whatever the layout and however many tuning keys there are. |
| `TuningKeys.LayoutStripped` | cli/src/destination.rs:194-205 | The order they are left in is a function of the key names alone. |
| `TuningKeys.IdentityByLayout` | cli/src/destination.rs:194-205 | For any two object configs: identities are equal if and only if the kinds, the fields other than tuning keys and the order those are left in are. |
| `TuningKeys.SameKeysSameIdentity` | cli/src/destination.rs:17-37 | Configs with one key sequence have one identity if and only if they agree at every key that is no tuning key. |
| `TuningKeys.OneTuningKeyEach` | cli/src/destination.rs:17-37 | One tuning key in each of two configs, among the same other fields: one identity if and only if as many of those follow it in both, or at most one does in each. |
| `TuningKeys.LateTuningIgnored` | cli/src/destination.rs:17-37 | Two configs with the same other fields, at most one of them after the first tuning key of each, have one identity. |
| `TuningKeys.StripLate` | cli/src/destination.rs:194-205 | With at most one other field after the first tuning key, what remains is the other fields in their order. |
| `TuningKeys.StripOne` | cli/src/destination.rs:194-205 | Removing the only tuning key keeps the order of the others exactly when at most one follows it. |
| `TuningKeys.TuningKeyIgnored` | cli/src/destination.rs:17-37 | One tuning key more or less, beside any others, leaves the identity alone if and only if the other names are left in one order; with no other tuning key, if and only if at most one field follows it. |
| `TuningKeys.TuningKeyMovesFields` | cli/src/destination.rs:17-37 | Two configs that differ only in `batch_size` with different identities. |
| `TuningKeys.TrailingKey` | cli/src/destination.rs:20-37 | A field written last is left out of the identity exactly when its key is one of the sixteen tuning keys. |
| `IdentityResolution.SameConfigKey` | cli/src/destination.rs:127-139 | Rows with one cache key report the same. |
| `IdentityResolution.AskCached` | cli/src/destination.rs:127-139 | The cached answer is what the sink would report, and the cache stays sound. |
| `IdentityResolution.Resolve` | cli/src/destination.rs:103-145 | The result holds exactly what the asked rows report: token-free rows of a relevant kind with at least two of them. |
| `IdentityResolution.PruningLosesNothing` | cli/src/destination.rs:76-146 | For a relevant row and any other, `same` answers as if every token-free sink had been asked. |
| `IdentityResolution.ResolvedExists` | cli/src/destination.rs:121-145 | The identities with every token-free sink asked exist, as those of any set of asked rows do. |
| `SharedDestinations.FullOverwriteIs` | cli/src/destination.rs:40-53 | A whole-destination overwrite: `write_mode` is `overwrite` and no `scope` but null is set. |
| `SharedDestinations.TokenInside` | cli/src/destination.rs:55-63 | A config depends on the invocation exactly when some string at some depth in it carries a token. |
| `SharedDestinations.ReportedNames` | cli/src/destination.rs:168-190 | A built sink reports its URI without surrounding whitespace, credentials and trailing slashes, under its kind; nothing when that is empty or `<name>://unknown`. |
| `SharedDestinations.SameNamesReport` | cli/src/destination.rs:186-190 | Sinks of one kind naming one destination report the same, however it is spelled. |
| `SharedDestinations.SameIsOneDestination` | cli/src/destination.rs:91-146 | For a relevant row and any other, `same` after resolution holds exactly when both are token-free and they agree in kind and config apart from tuning keys, or report the same destination. |
| `ExecutionLevels.LevelSolver.Level` | cli/src/destination.rs:299-327 | Memoised level: on an acyclic graph the longest prerequisite chain; terminates and restores `visiting` on any graph. |
| `ExecutionLevels.LevelSolver.MaxOverPrereqs` | cli/src/destination.rs:314-323 | One more than the deepest in-set prerequisite. |
| `ExecutionLevels.Levels` | cli/src/destination.rs:297-334 | An entry for every row, cyclic sets included; on an acyclic set each is the longest in-set chain. |
| `ExecutionLevels.Prereqs` | cli/src/destination.rs:314-317 | A row waits for exactly the rows it depends on and its parent. |
| `ExecutionLevels.ByIdIs` | cli/src/destination.rs:298 | Of rows with one id the last is kept. |
| `ExecutionLevels.LongestGrows` | cli/src/destination.rs:295-334 | A row that waits for another, directly or not, is at a strictly higher level. |
| `OverwriteChecks.PeersWith` | cli/src/destination.rs:230-238 | Exactly the other rows that write the same destination. |
| `OverwriteChecks.CheckSelection` | cli/src/destination.rs:261-286 | Passes exactly when every selected full-overwrite row has all its peers selected; a refusal names such a row and the peers left out. |
| `OverwriteChecks.SelectionReachesAll` | cli/src/destination.rs:261-286 | A passing check: every row reachable by shared-destination steps through full-overwrite rows is selected. |
| `OverwriteChecks.FullSelection` | cli/src/destination.rs:253-255 | A sub-list as long as the list passes, so the length shortcut is sound. |
| `OverwriteChecks.SelectionSameWithFull` | cli/src/destination.rs:248-258 | The pruned identities give the verdict the full ones would. |
| `OverwriteChecks.CheckSelectionResolved` | cli/src/destination.rs:248-258 | Refuses exactly when a selected full-overwrite row and a row left out write one destination, by config or by report; a refusal names the row and exactly those left out; the verdict is that of the full check with every token-free sink asked. |
| `OverwriteChecks.CheckOverwritePlan` | cli/src/executor.rs:1507-1528 | Refuses an overwrite in a sharded run; else, on an acyclic set, exactly when rows writing one destination have prerequisite chains of different length, and names such a pair. |
| `OverwriteChecks.PeerAtOtherLevel` | cli/src/destination.rs:347-358 | Finds a row sharing the destination at another level, exactly when there is one. |
| `OverwriteChecks.CheckLevels` | cli/src/destination.rs:344-362 | On an acyclic set passes exactly when rows sharing a full-overwrite destination have longest prerequisite chains of one length, and then none of them is an ancestor of another; a refusal names a conflicting pair. |
| `OverwriteChecks.PassingLevels` | cli/src/destination.rs:336-362 | On an acyclic set a passing check means no full-overwrite row is an ancestor or descendant of a row sharing its destination. |
| `TimeWindows.ParseYieldsParsed` | cli/src/chunking.rs:116-150 | A parsed window is positive and fits a duration. |
| `TimeWindows.DisplayRoundTrip` | cli/src/chunking.rs:71-150 | Parsing the text of a parsed step returns that step. |
| `TimeWindows.UnitsRead` | cli/src/chunking.rs:116-150 | Seconds, minutes of 60, hours of 3600, days and weeks, each refused when a duration cannot hold it. |
| `TimeWindows.OthersRefused` | cli/src/chunking.rs:128-148 | No other unit is read, and no zero. |
| `TimeWindows.NumberRead` | cli/src/chunking.rs:128 | A number is read exactly from an optional sign and digits, when an i64 holds it. |
| `TimeWindows.CalendarWindow` | cli/src/chunking.rs:161-173 | A day or week window ends when the wall clock shows n·86 400 or n·604 800 seconds more, or the first of one, two, three hours later that exists, if that is ahead. |
| `TimeWindows.NominalWindow` | cli/src/chunking.rs:227-243 | Otherwise it lasts the step's length; a boundary outside the representable dates ends the range. |
| `TimeWindows.WindowAt` | cli/src/chunking.rs:220-250 | Each window ends where the step from its start does and is named by its start, to the second. |
| `TimeWindows.WholeRange` | cli/src/chunking.rs:219 | Without a window the whole range is one unit. |
| `TimeWindows.WindowEnd` | cli/src/chunking.rs:227-243 | For any zone behaviour the next boundary is strictly ahead and not past the end. |
| `TimeWindows.PlanWindows` | cli/src/chunking.rs:205-252 | Fails exactly on an empty range or when more than 10 000 windows are needed; otherwise returns the windows of the step, or the whole range without one. |
| `TimeWindows.WindowsTile` | cli/src/chunking.rs:200-252 | The windows are contiguous, non-empty and span the range. |
| `TimeWindows.InOneWindow` | cli/src/chunking.rs:200-252 | Every instant of the range is in exactly one window. |
| `TimeWindows.AbsoluteIdsDistinct` | cli/src/chunking.rs:43-45 | With an absolute step of at least a second all ids differ. |
| `TimeWindows.GrowingRange` | cli/src/chunking.rs:205-252 | Moving the end later leaves every window but the old last one as it was. |
| `RangeChunks.PlanIntChunks` | cli/src/chunking.rs:292-347 | Succeeds exactly on a positive size, a range with a value in it and at most 10 000 chunks' worth of values, with the error of the first of these that fails; chunk i has its exact bounds, id and last flag. |
| `RangeChunks.CastsExact` | cli/src/chunking.rs:327-345 | Up to the extremes of i64 both casts are exact and the cursor stays inside i128. |
| `RangeChunks.CoversOnce` | cli/src/chunking.rs:287-347 | Every value of the range is in exactly one chunk, under either bounds. |
| `RangeChunks.CoversOnlyRange` | cli/src/chunking.rs:287-347 | No chunk covers a value outside the range. |
| `RangeChunks.ChunkHolds` | cli/src/chunking.rs:327-345 | Every chunk covers a value and at most the chunk size of them; its id reads as its position; exactly the one ending at `to` is marked last. |
| `RangeChunks.GrowingRange` | cli/src/chunking.rs:271-347 | Growing `to` leaves id, start and end of every chunk but the old last one alone. |
| `RangeChunks.PlanOffsetChunks` | cli/src/chunking.rs:364-387 | Succeeds exactly on a positive size and at most 10 000 chunks; all arithmetic fits u64. |
| `RangeChunks.OffsetAt` | cli/src/chunking.rs:380-386 | Chunk i is non-empty, starts at i · size and ends at the next start or the total. |
| `RangeChunks.OffsetsCover` | cli/src/chunking.rs:364-387 | Chunks are contiguous from 0 and their limits add up to the total. |
| `RangeChunks.OffsetIdsStable` | cli/src/chunking.rs:380-386 | A chunk's id is the decimal text of its position; a growing total leaves ids and offsets alone. |
| `Versions.ParseShown` | scripts/release-cli-bump.py:46-50 | A formatted version is read back. |
| `Versions.ParseExtends` | scripts/release-cli-bump.py:42-50 | A version text is read whole whatever non-digit text follows. |
| `Versions.ParseExact` | scripts/release-cli-bump.py:42-50 | A text is a version exactly when it is three numerals with dots between them, and is read as those numbers. |
| `Versions.BumpIffNext` | scripts/release-cli-bump.py:53-74 | For v at least base: bump ≥ level iff v ≥ next(base, level), except exactly when v respells the base and the level is patch. |
| `Versions.BumpIffNextShown` | scripts/release-cli-bump.py:53-74 | On canonically written versions the law has no exception. |
| `Versions.RespellingIsAPatch` | scripts/release-cli-bump.py:53-65 | The exception exists: 1.2.3 to 01.2.3. |
| `ReleasePlan.CrateIs` | scripts/release-cli-bump.py:144 | The crates considered are exactly the bumped ones in the closure, the CLI excluded. |
| `ReleasePlan.PlanIsLeast` | scripts/release-cli-bump.py:142-157 | The bump from the base to the chosen version is at least the largest in the closure, and every version text not below the PR's with such a bump reads at least as high, respellings of the base aside. |
| `ReleasePlan.LeastAmongVersions` | scripts/release-cli-bump.py:142-157 | With a canonically written base nothing is set aside. |
| `ReleasePlan.PlanExceedsBase` | scripts/release-cli-bump.py:152-157 | It exceeds the base. |
| `ReleasePlan.PlanIdempotent` | scripts/release-cli-bump.py:142-157 | Planning again from the result changes nothing. |
| `ReleasePlan.StopsOnMajor` | scripts/release-cli-bump.py:145-151 | With readable versions in the closure, planning stops exactly on a major bump there that the PR's version does not already match. |
| `ReleasePlan.AnswersEveryCrate` | scripts/release-cli-bump.py:53-74 | By the version numbers: the chosen version answers a new crate or a minor bump with a higher minor, a major with a higher major, anything else with a higher version. |
| `ReleasePlan.NothingBumped` | scripts/release-cli-bump.py:152-153 | Nothing bumped in the closure: the PR's version stays. |
| `ReleasePlan.UnreadableVersions` | scripts/release-cli-bump.py:146-156 | Which unreadable version is reported. |
| `ReleasePlan.CratesByName` | scripts/release-cli-bump.py:144 | The crates are listed by name. |
| `BuildClosure.KeptDeps` | scripts/release-cli-bump.py:82-86 | The keys are exactly those, by rename or name, of the normal and build dependencies on workspace packages. |
| `BuildClosure.KeptDepIs` | scripts/release-cli-bump.py:83-84 | Each key holds the last such dependency under it. |
| `BuildClosure.ReadWorkspace` | scripts/release-cli-bump.py:79-86 | Every package holds the features and kept dependencies of the last entry with its name, and every kept dependency is a workspace package. |
| `BuildClosure.QueuePackage` | scripts/release-cli-bump.py:102-105 | A newly built package queues exactly its non-optional dependencies and its deferred features. |
| `BuildClosure.QueueItems` | scripts/release-cli-bump.py:117-132 | A feature's items queue exactly what they turn on, and defer exactly the weak ones whose package is off. |
| `BuildClosure.QueueFeature` | scripts/release-cli-bump.py:111-132 | The same for a feature, including one that names an optional dependency. |
| `BuildClosure.Closure` | scripts/release-cli-bump.py:77-134 | Terminates on every package graph; contains the least set where a weak item adds only its feature, lies inside the least set where it re-applies the dependency, and is exactly the least set when no item is weak on an optional dependency. |
| `BuildClosure.CompleteIsClosed` | scripts/release-cli-bump.py:96-134 | With an empty queue the processed entries are closed under everything they entail. |
| `BuildClosure.Sandwich` | scripts/release-cli-bump.py:96-134 | Any state with the invariant and an empty queue lies between the two least sets, whatever the order. |
| `BuildClosure.ExactWithoutWeak` | scripts/release-cli-bump.py:122-130 | Without weak items on optional dependencies the two least sets are one. |
| `BuildClosure.ReapplyingMatters` | scripts/release-cli-bump.py:127-130 | A workspace where they differ, so the two bounds are not one. |
| `BuildMeaning.DependencyIs` | scripts/release-cli-bump.py:82-86 | A package's dependency under a key is the last normal or build one on a workspace package with that rename, or that name. |
| `BuildMeaning.DependencyListed` | scripts/release-cli-bump.py:82-86 | And every key is one of those. |
| `BuildMeaning.ActivateIs` | scripts/release-cli-bump.py:90-94 | Turning a dependency on queues its package, the features it asks for, the extra ones, its default features when it uses them, and nothing else. |
| `BuildMeaning.ReadsDep` | scripts/release-cli-bump.py:118-119 | `dep:` items name the dependency that follows. |
| `BuildMeaning.ReadsMention` | scripts/release-cli-bump.py:122-127 | An item with a slash names a dependency, a feature, and is weak exactly when question marks stand before the slash. |
| `BuildMeaning.ReadsFeature` | scripts/release-cli-bump.py:131-132 | Any other item is a feature of the same package. |
| `BuildMeaning.ClosedMeans` | scripts/release-cli-bump.py:96-132 | The closed sets of the worklist are exactly the sets the manifests describe: by dependency fields, item texts, root and chosen features. |
| `BuildMeaning.BuildSet` | scripts/release-cli-bump.py:77-134 | From the raw manifests: everything entailed when a weak mention adds only its feature is built, nothing that is not entailed when it re-applies the dependency. |
| `Changelog.TitleReads` | scripts/release-cli-bump.py:174 | A written heading is recognised and yields its version. |
| `Changelog.KeepEntries` | scripts/release-cli-bump.py:178-188 | The loop keeps exactly the lines whose nearest Dependencies heading or `#` line, at or before them, is no Dependencies heading, without trailing empty ones. |
| `Changelog.WithoutDepsIs` | scripts/release-notes.py:76-82 | The filter shared by both scripts keeps exactly those lines, by position. |
| `Changelog.UpdateChangelog` | scripts/release-cli-bump.py:165-190 | The rewrite is the specified text, for every changelog. |
| `Changelog.ChangelogSection` | scripts/release-notes.py:64-83 | The reader's one pass gives the section found by searching. |
| `Changelog.PlannedVersionIsAbove` | scripts/release-cli-bump.py:142-157 | The version `plan` chooses meets the rewriter's premise. |
| `Changelog.UpdateIdempotent` | scripts/release-cli-bump.py:165-190 | Rewriting again on any later date changes nothing, if and only if the repository name holds no `)`. |
| `Changelog.ReadsBack` | scripts/release-notes.py:64-83 | After the rewrite the reader finds under the new version what it found under the section taken over, and nothing in a new section. |
| `Changelog.OthersUntouched` | scripts/release-notes.py:64-83 | Every other version's section reads as before. |
| `Lines.SplitUnsplit` | scripts/release-cli-bump.py:169 | Splitting joined lines gives the lines back. |
| `Lines.UnsplitSplit` | scripts/release-cli-bump.py:169 | Joining split lines gives the text back. |
| `Lines.LatinSpace` | scripts/release-notes.py:76-83 | The whitespace `strip()` removes, in the Latin-1 block. |
| `ChangelogMeaning.HeadingReads` | scripts/release-cli-bump.py:43 | A line `## [version]`, with an optional link, is read as that version and what follows. |
| `ChangelogMeaning.HeadingIs` | scripts/release-cli-bump.py:43 | Only such lines are headings. |
| `ChangelogMeaning.LineOfOne` | scripts/release-cli-bump.py:160-162 | The Dependencies line for one crate, spelled out. |
| `ChangelogMeaning.LineOfMore` | scripts/release-cli-bump.py:160-162 | Each further crate follows a comma, in order. |
| `ChangelogMeaning.RewrittenLines` | scripts/release-cli-bump.py:165-190 | The rewritten changelog line by line: what precedes, the heading with its compare link, the entries kept, the Dependencies block, what follows; and where these come from in the original. |
| `ChangelogMeaning.EmptyEndDropped` | scripts/release-cli-bump.py:187-188 | Trailing empty lines go, and nothing else. |
| `ChangelogMeaning.SectionFound` | scripts/release-notes.py:64-83 | The reader finds the lines under the first heading of that version, up to the next `## ` line, outside Dependencies blocks. |
| `ChangelogMeaning.NotFound` | scripts/release-notes.py:64-83 | Nothing without such a heading. |
| `ChangelogMeaning.ReadText` | scripts/release-notes.py:83 | The reader's text is those lines joined, without the whitespace around them. |

## Left out

- File reading, YAML and JSON parsing, path canonicalisation and re-serialisation in `compose.rs`: the model starts from parsed trees and canonical paths.
- `Compose.Compose`: models the merge path; the raw-text marker scan that chooses the fast path is not modelled, and `FastPathAgrees` compares the two at document level.
- `Compose.Composer.ResolveIncludes`: the tree edited in place is modelled by returning the new tree; only the stack is updated in place. On an error the stack is not described, as the program discards it.
- `IdentityResolution.Resolve`: building a sink and the file-writing kinds' own destination are one deterministic function of kind and config; kinds are taken to hold no NUL.
- `TuningKeys.StripLate`: sufficient only; with several tuning keys before several other fields the outcome depends on the order of removal, for which `IdentityByLayout` is the exact law.
- `CoverageShards.PlanLibs`: a shard count of zero, which the command line refuses, is excluded; the division by zero of `plan_cli` likewise.
- `Projection.Drain`: cancellation and page errors are not modelled; the counters are unbounded.
- `TimeWindows.PlanWindows`: an id is the start floored to a second, without `strftime`; real zone tables and `parse_boundary` are not modelled.
- `ReleasePlan.PlanIdempotent`: the second plan is over the same bumped crates of the closure; reading manifests and lock files is not modelled.
- `Versions.ParseShown`: digits are ASCII, and the newline Python's `$` tolerates at the end of a text is not modelled.
- `BuildClosure.Closure`: the order in which a dictionary is walked is arbitrary; where a weak item meets an optional dependency the result depends on processing order and only the two bounds are stated.
- `select_path`, `extract_records`, `state_key_component` and `tuple_state_key_suffix`: rest on code outside these files.
- Error message texts, `describe`, `check_verify_scope` and `check_owns_destination`: easy uses of the predicates proved here.
- `test_targets`, `cargo_args`, `set_manifest_version`, `set_lock_version`, the `main` functions and the remaining scripts: subprocess and text plumbing.
- The connectors, the execution engine, scheduling and delivery: not part of this model.
