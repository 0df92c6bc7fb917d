# Verified model of the analyzer's core

The repository is a dead-code analyzer for Python projects. This project models
the parts of it that are protocols or algorithms in their own right, and proves
what they promise.

| module | models |
|---|---|
| `Parallel` | work sharing: workers claim indices from one cursor and fold into private state, under every interleaving |
| `CacheKey` | FNV-1a over 64-bit words, the length-prefixed key streams, the newline-joined parse entry text |
| `KeyReader` | published digests, a decoder of key streams, readers of the printed numbers |
| `Fingerprint` | the "racily clean" stat fingerprint over a file system with coarse stamps, settable mtimes and reusable inodes, which may change while a fingerprint is taken |
| `ScanStore` | the on-disk scan store: concurrent writers that rename, list and sweep; readers; files that vanish or rot |
| `ParseBundle` | the bundle of parse results kept under 64-bit entry ids |
| `ModuleIndex` | the recursive module resolver and the tail index meant to answer the same |
| `ModuleNames` | which files a dotted name stands for, segment by segment |
| `FixPlan`, `FixOrder` | planning manifest edits from issues; the bottom-up order of removals |
| `Manifest`, `FixRuns` | what an edit does to a manifest's lists, and what a run of edits does to one list |
| `FixApply` | applying a plan and reporting it in plan order |
| `Removals`, `Traps` | removals of one list, by address and by name, run one after the other; what they take when they go wrong |
| `FixExact`, `FixByName` | exactly which runs and plans drop what they name and nothing else; removals from a `setup.py` |
| `EntryMerge`, `LibraryScan` | merging entry candidates in a batch or one at a time; the library package scan |
| `Workspace` | path normalisation, unique member ids, the memoised search for nested projects |
| `TomlArray` | printing string lists as TOML, and a TOML v1.0.0 reader of such arrays |
| `Sampler`, `FindingDiff` | the round-robin label sampler and the finding diff of the metrics scripts |
| `Text`, `Lists`, `Common` | ordered string sets with prefix scans; lists without repeats; optional values and lists of them |

`dafny verify dfyconfig.toml` checks everything.

## What turned out

* The index does not answer what the resolver answers on every layout.
  `IndexRefinesSearchExactlyWhen` gives the exact condition on the layout, and it
  is a computable check. Two families that fail it are proved to, with their
  hypotheses: a project whose own package root is empty and which has a named extra
  package root (the resolver tries the project's directory first, `push_bases` puts
  it last), and a member with the extra root `""` beside a named one (to the
  resolver `""` is the member's directory, `push_bases` records `member/`, below
  which no file lies, so the index reaches that directory only after the named
  one). In both the directories must not be settled by earlier ones. The extra root
  `""` alone is harmless (`NamedRootsAgree`).
* The fingerprint is sound for every stamp granularity when judged against the
  file system's own clock. Against an exact clock it is sound exactly up to the
  two-second window. On platforms without a change time that moves on a write it
  is not sound (`SoundExactlyWhen`). A file that changes, or a path that comes to name
  another, between the `stat`, the `open`, the handle's metadata and the read does no
  harm: equal fingerprints still stand for equal bytes seen.
* What the modified-time guard is for: where writes stamp modified times with the file
  system's clock, nobody sets them and the path keeps its file (or is given a newer
  one), the same condition on clock and granularity decides on every platform
  (`SoundWhenHonestExactlyWhen`). An older file of the same stamps moved into the path
  goes unseen where no inode is recorded (`MovedFileGoesUnseen`).
* "Each scan unit keeps only its latest record" (comment at src/cache.rs:195) does
  not survive concurrent writers: both can rename, both list, and each delete the
  other's record (`ConcurrentWritersCanEraseBoth`). Every complete schedule keeps a
  unit's last record if and only if all the unit's writers write one file
  (`EveryScheduleKeepsTheLatestExactlyWhen`). In a given run the last rename
  decides: the record stays if and only if at that moment nobody has it marked and
  no other record's writer is yet to list (`LatestRecordSurvivesExactlyWhen`).
* Removals go by address, or by name where an entry has no line. A plan, whatever it
  does to other files, takes from a list exactly the entries it addresses and those of
  the names it removes, whatever the list holds, if and only if its run is steady: when
  a removal by address runs, nothing before it has moved its target, so no removal by
  name and no address as low came before (`PlanFiltersExactlyWhen`); otherwise a
  neighbour goes. In arrays and in most requirements files that is so exactly when no
  two removals share an address (`AddressedPlanFiltersExactlyWhen`).
* It is otherwise in a requirements file with a name like `base[1]`, which
  `-r base[1]` reaches (src/manifest/requirements.rs:285): its entries are labelled
  with the file's name (line 186 there), and `removal_position` reads that as an index
  which wins over the line. All removals of the file then tie and run in plan order,
  so removals with lines of their own see shifted ones (`BracketedFileShiftsLines`, for
  any two lines, the upper one planned first). There a plan filters if and only if it
  already lists its removals from the bottom up (`BracketedPlanFiltersExactlyWhen`).
* Declarations of a `setup.py` have a label but no line (src/manifest/setup_py.rs:337),
  and `perform` passes only the line on, so their removals go by name. In any order they
  leave exactly the entries of other names (`NamedRemovalsSpare`). So only the planned
  entries go if and only if no other entry has a planned name
  (`OnlyPlannedGoExactlyWhen`). One that has goes too: of the two lines `rich>=13` and
  `rich >= 13` of one requirements string CHK009 plans the second,
  `install_requires[1]`, and both go (`BothSpellingsGo`).

## Modelling choices

* `ModuleIndex`: layouts are trees; the known files are an ascending sequence of
  root-relative paths (no leading slash, no empty segment).
* `Fingerprint`: the clock never runs back and a stamp is its value rounded down;
  every write and every time setting stamps the change time, the modified time is
  arbitrary. The clock reading, the `stat`, the `open`, the handle's metadata and the
  read are moments of a run with anything in between; one read is one step, and an
  open file is not reclaimed. Bytes that collide under FNV-1a are allowed for in
  `SameSeen`, of equal length where a look read the length it states.
* `ScanStore`: a rename, a directory listing and a deletion are one step each, and
  a deletion takes effect. At the start anything may be on disk; only the theorems
  about reads ask that it is no current-schema record.
* `Manifest`, `FixRuns`, `FixApply`: `Env` carries what is decided elsewhere: path
  containment and the reading of distribution names. An entry has the number of addresses it
  covers (physical lines in a requirements file, one otherwise). Distinct array
  labels name distinct lists. `Grows` marks `project.dependencies`, the one list edits
  append to, and there `AllInside` asks that planned indices existed when the file
  was read. `GoByAddress` says of one file that its requirements entries carry their
  line and are labelled with the file, as src/manifest/requirements.rs writes them;
  the general results do without it. `OrderedByAddress` tells the files
  whose labels or lines order their removals from the requirements files named like
  `base[1]`, whose labels make them tie.
* Ordered maps and sets of the original are ascending sequences, library sorts are
  insertion sorts or "any ordered permutation", file facts are functions.

## Model

| member | source | states |
|---|---|---|
| Parallel.WorkerCountFollowsTheWork | src/parallel.rs:10-19 | at least one thread, at most the CPUs, never fewer for more items; each thread past the first has a full batch |
| Parallel.HeavyWorkersFollowTheFiles | src/parallel.rs:49-60 | few heavy items get the threads their files are worth, at least one, never more than items or CPUs, and one for a small project |
| Parallel.StepKeepsInv | src/parallel.rs:113-122 | every claim and every run of an item keeps each claimed index held exactly once, each worker's indices ascending, and lowers the remaining steps by exactly one |
| Parallel.RunKeepsInv | src/parallel.rs:99-133 | the invariant holds after every run, and steps taken plus steps remaining is constant |
| Parallel.RunsEnd | src/parallel.rs:99-133 | a run has at most 2n + k steps, is finished exactly when it has that many, leaves the cursor at n + k, and can step exactly when unfinished |
| Parallel.EachIndexRunsOnce | src/parallel.rs:82-133 | when a run is over the workers have run each index exactly once and each worker its own in increasing order |
| Parallel.NoIndexIsSharedMidRun | src/parallel.rs:111-122 | at no moment do two workers, or one twice, hold the same index |
| Parallel.SortRestoresOrder | src/parallel.rs:77-79 | sorting the tagged results of all indices gives the results in input order |
| Parallel.MapIsSequentialMap | src/parallel.rs:32-80 | for every interleaving, worker count and per-worker state kept within an invariant under which work returns f(item), the result is the sequential map of f |
| CacheKey.PrimeHasInverse | src/cache.rs:874-890 | multiplying by the FNV prime modulo 2^64 is undone by multiplying by its inverse |
| CacheKey.XorDiffersBitwise | src/cache.rs:886-888 | bit i of the exclusive or is 1 exactly where bits i of the two differ |
| KeyReader.PublishedDigests | src/cache.rs:827-833 | nothing hashes to cbf29ce484222325, as the repository fixes it (line 951), and "a" to the published FNV-1a digest af63dc4c8601ec8c |
| CacheKey.StepIsBijective | src/cache.rs:886-892 | hashing one byte is a bijection on 64-bit states, with its inverse given |
| CacheKey.StepSeparatesBytes | src/cache.rs:886-892 | from one state, different bytes lead to different states |
| CacheKey.AbsorbConcat | src/cache.rs:885-892 | writing a then b equals writing their concatenation |
| CacheKey.AbsorbIsInjective | src/cache.rs:885-892 | hashing a fixed input from different states ends in different states |
| CacheKey.AbsorbIsOnto | src/cache.rs:885-892 | every state is reached from some state by a fixed input |
| CacheKey.Hex16IsInjective | src/cache.rs:922-926 | the sixteen-digit rendering is sixteen bytes long and tells states apart |
| KeyReader.HexReadsBack | src/cache.rs:922-926 | the rendering is in lower-case digits that read back as the state |
| CacheKey.OneByteApartNeverCollides | src/cache.rs:827-833 | two inputs of equal length differing in exactly one byte never share `stable_hex_hash` |
| CacheKey.FieldSplits | src/cache.rs:894-899 | a length-prefixed field followed by anything is read back in only one way |
| CacheKey.OptU128Splits | src/cache.rs:911-920 | a tagged option followed by anything is read back in only one way |
| CacheKey.ContextSplits | src/cache.rs:333-341 | so are the five context fields |
| CacheKey.FingerprintSplits | src/cache.rs:411-419 | so is a fingerprint |
| CacheKey.FingerprintsSplit | src/cache.rs:669-675 | so is a counted list of fingerprints |
| CacheKey.KeyStreamIsUniquelyDecodable | src/cache.rs:646-675 | equal streams with any continuations come from equal keys and equal continuations: the key encoding is injective and prefix-free |
| KeyReader.KeyReadsBack | src/cache.rs:646-675 | a decoder of tags, little-endian numbers, length-prefixed fields and labelled lists returns every key, whatever follows its stream |
| KeyReader.WordsAre | src/cache.rs:653-654 | the list labels are "config" and "manifest", the file suffix ".json" |
| CacheKey.ListStreamIsInjective | src/cache.rs:835-851 | the stream of an ordered list of strings determines the list |
| CacheKey.CacheKeyHasher.constructor | src/cache.rs:877-883 | a new hasher holds the FNV offset |
| CacheKey.CacheKeyHasher.Write | src/cache.rs:885-892 | the state after a write is the old state with the bytes absorbed |
| CacheKey.CacheKeyHasher.Field | src/cache.rs:894-904 | absorbs exactly the length-prefixed field |
| CacheKey.CacheKeyHasher.FieldU64 | src/cache.rs:906-909 | absorbs exactly the eight little-endian bytes |
| CacheKey.CacheKeyHasher.FieldOptU128 | src/cache.rs:911-920 | absorbs exactly the tagged option |
| CacheKey.CacheKeyHasher.Fingerprint | src/cache.rs:411-419 | the six calls absorb exactly the fingerprint's encoding |
| CacheKey.CacheKeyHasher.HashFingerprints | src/cache.rs:669-675 | the loop absorbs exactly the counted list's encoding |
| CacheKey.CacheKeyHasher.HashContext | src/cache.rs:335-341 | absorbs exactly the context's encoding |
| CacheKey.ComputeFileName | src/cache.rs:649-655 | streaming the parts names the file after the hash of the whole key stream |
| CacheKey.SharedFileNameIsAHashCollision | src/cache.rs:646-667 | two keys share a file name exactly when equal or when their streams, neither a prefix of the other, collide under FNV-1a |
| CacheKey.LastLineSplits | src/cache.rs:736-753 | a text whose last part has no newline splits at the last newline in one way |
| CacheKey.EntryTextIsInjective | src/cache.rs:736-753 | the newline-joined entry text determines the fingerprint even when the path holds newlines, given content hashes without |
| KeyReader.EntryTextIsSixLines | src/cache.rs:736-753 | the text is path, size, modified time, file id, change stamp and content hash on six lines, absent values empty |
| KeyReader.DecimalReadsBack | src/cache.rs:736-753 | its numbers are decimal digits without leading zero that read back |
| Fingerprint.StatSufficesExactlyWhen | src/cache.rs:440-470 | no byte is read exactly when the modified time is known and two seconds old, and on Unix the change time too |
| Fingerprint.StatOnlyRecords | src/cache.rs:461-525 | what `stat` alone records: path, size, modified time, and by platform inode and change time, creation time, or neither |
| Fingerprint.HashedRecords | src/cache.rs:388-408 | a hashed fingerprint has the handle's size and time, the hash of the bytes read and no stamps |
| Fingerprint.KindsNeverMeet | src/cache.rs:388-484 | a stat-only, a hashed and an absent fingerprint are never equal, whatever changed while they were taken |
| Fingerprint.OldStampFreezesBytes | src/cache.rs:440-470 | an inode whose change time is before the current stamp keeps its bytes for as long as it keeps that change time, through id reuse |
| Fingerprint.UnixIsSound | src/cache.rs:388-470 | over every run, equal fingerprints of one path mean equal bytes seen (or a hash collision), for the probe clock or a granularity of at most two seconds, even if the file or the path changes between `stat`, `open`, metadata and read |
| Fingerprint.RewriteGoesUnseen | src/cache.rs:504-544 | where the change stamp need not move on a rewrite, a run exists whose two looks are equal over different bytes |
| Fingerprint.SoundExactlyWhen | src/cache.rs:374-470 | the scheme is sound if and only if on Unix and (judged by the file system's clock or the granularity is at most the window) |
| Fingerprint.OldTimeFreezesBytes | src/cache.rs:374-380 | with honest modified times a file whose time is before the current stamp keeps its bytes while it keeps the time, and a file made since has a later one |
| Fingerprint.SoundWhenHonestExactlyWhen | src/cache.rs:374-470 | with honest modified times and a path that keeps its file, on every platform: sound if and only if judged by the file system's clock or the granularity is at most the window |
| Fingerprint.MovedFileGoesUnseen | src/cache.rs:504-525 | without an inode an older file moved into the path can give an equal fingerprint over other bytes, modified times being honest |
| ScanStore.ReadIsTheLastWrite | src/cache.rs:144-205 | at every reachable state a read at a path returns exactly what the events say was last written there under that key, or nothing |
| ScanStore.HitIsTheLatestWrite | src/cache.rs:144-165 | a hit for a key is the payload of the latest write under exactly that key, even when file names collide, files vanish or rot |
| ScanStore.NamesArePlaced | src/cache.rs:657-666 | a key's record is a `*.json` file in its own unit's directory |
| ScanStore.AtMostOneRecordRemains | src/cache.rs:172-205 | from any disk: as soon as the last renamer into a unit has swept, the unit holds at most that writer's record, however other writers stand; once any writer is done the flat directory holds none |
| ScanStore.UnitsAreIsolated | src/cache.rs:657-666 | what a run does to a unit is what its own writers' steps and outside interference with its names do alone |
| ScanStore.OtherUnitsUntouched | src/cache.rs:277-306 | writers of other units, and all sweeps of files that are not `*.json`, never touch a file, whether or not its own unit has writers |
| ScanStore.FilesInFlightAreLeftAlone | src/cache.rs:283-306 | over every run from idle writers a file whose name does not end in ".json" after something else is changed by no writer's step, its own unit's included, but a rename onto it |
| ScanStore.ListingMarksTheRest | src/cache.rs:285-306 | listing a directory marks exactly the files that do end so, a unit's own record aside |
| ScanStore.LatestRecordSurvivesExactlyWhen | src/cache.rs:194-202 | after the last rename into a unit its record is there at the end if and only if at that rename no writer had it marked and no writer of another record was yet to list |
| ScanStore.EveryScheduleKeepsTheLatestExactlyWhen | src/cache.rs:194-202 | every complete schedule keeps a unit's last record if and only if all the unit's writers write one file |
| ScanStore.ConcurrentWritersCanEraseBoth | src/cache.rs:195-199 | two writers of one unit can erase each other's record: the documented promise fails |
| ParseBundle.ParseCacheBundle.Insert | src/cache.rs:769-772 | stores the module under the key's entry id and changes nothing else |
| ParseBundle.ParseCacheBundle.Take | src/cache.rs:774-784 | moves out the entry of the key's id if its path is the key's path; another path's entry stays put and reads as a miss |
| ParseBundle.ReplayIsTheStandingInsert | src/cache.rs:768-785 | after any history an id holds exactly the insertion that no later insert replaced and no later take by its path removed |
| ParseBundle.InsertThenTake | src/cache.rs:768-785 | what was put in comes out, once |
| ParseBundle.WrongHitIsAHashCollision | src/cache.rs:731-785 | a hit never crosses files, and is the module of another fingerprint only if two different entry texts of that file collide |
| ModuleIndex.SearchIsFirstHit | src/entry/module.rs:150-176 | the recursive search is the first hit along the flattened list of directories it visits |
| ModuleIndex.TailIsJoin | src/path_util.rs:127-135 | the tails of a root-relative path correspond one to one with its `join_rel` decompositions |
| ModuleIndex.HitsAreJoins | src/entry/module.rs:96-113 | the index's hits are exactly the known files that join a base, at its first rank, with the package or module tail |
| ModuleIndex.IndexIsFirstHit | src/entry/module.rs:96-113 | the best-ranked hit is the first hit along the bases |
| ModuleIndex.AgreeingOrdersFindTheSame | src/entry/module.rs:116-176 | where the check passes, both orders find the same file for every name and file set |
| ModuleIndex.DisagreeingOrdersPart | src/entry/module.rs:116-176 | where it fails, two files exist that the two orders rank differently |
| ModuleIndex.IndexRefinesSearchExactlyWhen | src/entry/module.rs:22-128 | the index answers what the resolver answers for all files and names if and only if the layout passes the check |
| ModuleNames.DottedNamesResolve | src/entry/module.rs:11-24 | `a.b` resolves to the first known of `dir/a/b/__init__.py` and `dir/a/b.py` along the directories searched, to nothing if none is; a name ending in `AppConfig` as its first segment does |
| ModuleNames.IndexedNamesResolve | src/entry/module.rs:96-113 | so does the index, along its bases |
| ModuleNames.OwnDirectoryFirst | src/entry/module.rs:178-184 | the layout's own directory is searched first, `src` where the layout is unknown |
| ModuleIndex.NamedRootsAgree | src/entry/module.rs:116-128 | a layout tree passes it when on every level no extra root is named or all roots are |
| ModuleIndex.EmptyRootWithNamedExtraDisagrees | src/entry/module.rs:116-163 | every project with an empty package root and a live named extra root, `""` not among them, fails it |
| ModuleIndex.MemberWithEmptyAndNamedExtraDisagrees | src/entry/module.rs:116-163 | every project whose first member has the extra root `""` beside a named one, neither directory settled before, fails it |
| ModuleIndex.FlatLayoutWithExtraRootDisagrees | src/entry/module.rs:116-163 | a flat layout with an extra root fails it; both orders given |
| ModuleIndex.MemberWithPackageBesideItDisagrees | src/entry/module.rs:116-163 | a project with one member that has the extra roots `""` and `lib` fails it; both orders given |
| ModuleIndex.Index.constructor | src/entry/module.rs:36-56 | the built index maps each tail to the known files with it, in order, and each base to its first rank |
| ModuleIndex.Index.AddTails | src/entry/module.rs:38-43 | adding a path extends exactly the lists of its tails |
| ModuleIndex.Index.PushBases | src/entry/module.rs:115-128 | the recursive pushes append the flattened bases of the tree in order |
| ModuleIndex.Index.RankBases | src/entry/module.rs:46-49 | the first occurrence of a base keeps its rank |
| ModuleIndex.Index.ResolveIsIndexResolve | src/entry/module.rs:96-113 | a lookup in the built index is the index answer the equivalence is about |
| ModuleIndex.ProbeFindsFirstDirWithFiles | src/entry/module.rs:66-75 | the namespace probe names the first base's directory that holds any file, and nothing exactly when none does |
| ModuleIndex.PackageDirIsInitOrNamespace | src/entry/module.rs:58-76 | a name is a package in a directory exactly when the index answers with that directory's init, or has no file for the name and it is the first directory of that name holding any |
| ModuleIndex.ModulesNearIsPlainFilter | src/entry/module.rs:78-94 | the scan returns exactly the near modules among all files, in their order |
| ModuleNames.NearFiles | src/entry/module.rs:80-94 | near are the `.py` files other than inits of the directory and of its direct subdirectories, and none deeper |
| Text.LessAtFirstDifference | src/entry/module.rs:80-84 | strings are ordered by the first character that differs, or the end |
| Text.ScanIsFilter | src/entry/module.rs:80-84 | a range scan from a prefix while it matches is the plain filter by prefix |
| Text.ProbeIsExists | src/entry/module.rs:70-73 | the first element at or after a prefix has it exactly when any element does |
| FixPlan.PlanFixes | src/fix/plan.rs:105-140 | actions are distinct and in first-occurrence order with non-empty, strictly increasing lists of exactly the issues that ask for them; skips are kept once each in first-occurrence order |
| FixPlan.PlansIsCanonical | src/fix/plan.rs:105-140 | those properties determine the plan |
| FixPlan.IssueListsAreDisjoint | src/fix/plan.rs:93-103 | no issue belongs to two actions |
| FixPlan.IssueListsCoverTheActions | src/fix/plan.rs:119-137 | together the lists hold exactly the issues that yield an action |
| FixOrder.BottomUpIsInOrder | src/fix/apply.rs:85-91 | edits run by file, list and descending position, unpositioned ones first, ties in plan order |
| FixOrder.BottomUpSpelledOut | src/fix/apply.rs:87-116 | actions without position come first, then by file and list, within a list the higher index first, ties as planned |
| FixOrder.PrintedLabelReadsBack | src/fix/apply.rs:107-110 | a label printing a list's name and an index in base ten reads back as these up to 64 bits, beyond which it is no index |
| FixOrder.SignedLabelReadsBack | src/fix/apply.rs:107-110 | a plus sign before the index is accepted and changes nothing |
| FixOrder.LabelIsThePosition | src/fix/apply.rs:93-121 | a labelled removal is sorted by the index printed, whatever its line |
| FixApply.AimHasPosition | src/fix/apply.rs:93-121 | the position an action is sorted by is the list and address its edit removes at, or depends on the file alone |
| Manifest.EditOnList | src/fix/apply.rs:163-208 | an edit takes from each list exactly the entry it addresses there if that names the target (by name where a requirement has no line), fails as a whole when it cannot, and appends only to the runtime list, only what is not declared |
| Manifest.RemoveAtDropsItsTarget | src/fix/pyproject.rs:388-409 | a removal drops the one entry it addresses and names, and fails exactly when there is none |
| Manifest.LabelDropsItsEntry | src/fix/pyproject.rs:388-409 | a removal labelled `list[n]` drops entry n of that list if it names the target and does nothing else |
| Manifest.LineDropsItsEntry | src/fix/requirements.rs:36-53 | a requirement goes with all its physical lines, by the number of the first, counted from one |
| Manifest.KindFollowsTheExtension | src/fix/apply.rs:171-178 | a file is edited as TOML, as setup.cfg or by lines according to its extension in any case |
| Manifest.PushAppendsTheUndeclared | src/fix/pyproject.rs:109-127 | a runtime dependency is appended unless one of its normalised name is declared |
| Manifest.WithoutNameIsFilter | src/fix/requirements.rs:13-71 | without a line exactly the entries of that name go, and something goes exactly when one has it |
| Manifest.NextRemovalHitsItsTarget | src/fix/pyproject.rs:386-409 | below everything already removed an address still means the original entry: success and result are those on the original list |
| FixRuns.RunOnList | src/fix/apply.rs:47-54 | over a run whose removals from the file go by descending addresses no edit of the file sees a shifted one, whatever the run does to other files |
| FixApply.EditsHitTheirTargets | src/fix/apply.rs:47-121 | for every plan with distinct positions each list of a file edited by address ends as the original less exactly the entries addressed and named by the plan, plus exactly the additions that succeeded and were not declared by then; each removal succeeds exactly when it would have on the original |
| FixRuns.RunOnParts | src/fix/apply.rs:47-54 | in any order a run's removals, by address and by name, act one after the other on the list as first read; the rest of the final list was appended |
| FixExact.TakesSpareExactlyWhen | src/fix/apply.rs:47-54 | removals by address and by name, run one after the other, take exactly what they stand for from every list if and only if nothing before a removal by address (whose name does not go anyway) can move its target |
| FixExact.HighestFirstFiltersExactlyWhen | src/fix/apply.rs:85-91 | removals run highest first filter every list if and only if no two share an address of it |
| FixExact.RemovalsFilterExactlyWhen | src/fix/apply.rs:47-54 | removals by address filter every list if and only if each one within it is below all before it |
| FixExact.PlanFiltersExactlyWhen | src/fix/apply.rs:47-121 | for every plan that does not delete the file and every kind of manifest: the bottom-up run takes from a list, on every disk, exactly what the plan addresses and names if and only if the run is steady there |
| FixExact.SteadyPlanFilters | src/fix/apply.rs:47-121 | a steady run does so on every disk, however many lines an entry takes |
| FixExact.AddressesFilterExactlyWhen | src/fix/apply.rs:47-121 | where nothing goes by name the condition is that each removal is below all before it |
| FixExact.DeletedFileIsGone | src/fix/apply.rs:199-205 | a plan that deletes the file leaves none, whatever else it does to it |
| FixExact.KeysDropExactlyThePlanned | src/fix/pyproject.rs:377-387 | the table keys left after any run are those no planned removal names |
| FixExact.AddressedPlanFiltersExactlyWhen | src/fix/apply.rs:93-121 | where labels or lines order the removals, a plan filters if and only if no two of its removals share an address of the list |
| FixExact.BracketedPlanFiltersExactlyWhen | src/fix/apply.rs:107-116 | in a requirements file whose name reads as an index, a plan filters if and only if it lists its removals from the bottom up |
| FixExact.BracketedFileShiftsLines | src/fix/apply.rs:85-116 | there two removals of different lines, the upper one planned first, fail on some disk: the promised order does not hold |
| FixExact.BaseOneIsBracketed | src/fix/apply.rs:107-110 | `base[1]` is such a file name |
| FixExact.TopDownMissesItsTarget | src/fix/apply.rs:85-86 | in top-down order the second edit finds its target moved |
| FixExact.SharedPositionTakesANeighbour | src/fix/pyproject.rs:386-409 | two removals of one position take a second declaration of the same name |
| FixByName.NamedRemovalsSpare | src/fix/requirements.rs:37-53 | removals without a line, in any order and among any other actions, leave of the file exactly the entries of other names |
| FixByName.NamedRemovalSucceedsExactlyWhen | src/fix/requirements.rs:46-60 | such a removal succeeds if and only if the file as first read has the name and no action before it removed it |
| FixByName.OnlyPlannedGoExactlyWhen | src/fix/requirements.rs:37-53 | only the planned entries go if and only if no other entry has a planned name |
| FixByName.BothSpellingsGo | src/fix/apply.rs:163-180 | with two spellings of one requirement of which the second is planned, both go although positions are distinct |
| FixByName.SetupPyGoesByName | src/manifest/setup_py.rs:337-345 | a `setup.py` removal has a position from its label but is performed by name |
| FixApply.SortPutsOutcomesInPlanOrder | src/fix/apply.rs:55-56 | sorting the outcomes by plan index puts each at its own plan |
| FixApply.ApplyAll | src/fix/apply.rs:47-54 | the outcomes and the disk are those of running the actions in order |
| FixApply.ApplyFixes | src/fix/apply.rs:35-76 | the disk is that of the bottom-up run and the report that of the outcomes put back in plan order |
| FixApply.ResolvedIssuesAreExact | src/fix/apply.rs:57-65 | resolved issues are exactly those of the actions that succeeded, each once, and none on a dry run |
| FixApply.AppliedIsInPlanOrder | src/fix/apply.rs:55-66 | applied lists exactly the successes, in plan order |
| FixApply.SkippedIsThePlannersAndTheFailed | src/fix/apply.rs:66-76 | skipped lists the planner's skips and then each failed action in plan order, as unsupported under its own rule and subject |
| FixApply.DryRunTouchesNothing | src/fix/apply.rs:141-153 | a dry run changes no file and promises exactly the actions whose file is contained |
| Lists.DedupAppend | src/entry/merge.rs:60-62 | first occurrences of a list fed in two parts are those of the whole |
| EntryMerge.MergeEntryCandidates | src/entry/merge.rs:11-27 | the batch yields one root per path, strictly ascending, with every symbol, each origin once in first-seen order, and a runtime context if any candidate is |
| EntryMerge.NextCandidate | src/entry/merge.rs:56-72 | folding a candidate into a root gives the root of the longer list |
| EntryMerge.EntryPlan.PushCandidate | src/entry/merge.rs:29-43 | the first root of the path absorbs the candidate or a new root goes last; the roots again cover all candidates |
| EntryMerge.MergeIsUnique | src/entry/merge.rs:11-27 | a merge is determined by its candidates |
| EntryMerge.IncrementalMergeIsBatchMerge | src/entry/merge.rs:14-43 | pushing ys onto the merge of xs and sorting by path gives the merge of xs + ys |
| EntryMerge.MergeKeepsEverything | src/entry/merge.rs:56-72 | no symbol or origin is lost or invented, no origin repeated, and a root is runtime if and only if some candidate for it is |
| EntryMerge.ProductionRootsHaveARuntimeCandidate | src/entry/build.rs:98-126 | under `--production` the retained roots ascend and are exactly those of known files with a runtime candidate before the filter or any candidate collected after it; a root is runtime if and only if one of its candidates is |
| LibraryScan.IsSubmodule | src/path_util.rs:71-84 | the walk up finds an accepted init exactly when one lies in some directory above the module |
| LibraryScan.CollectLibraryPackageEntries | src/entry/build.rs:417-454 | the scan yields, package by package, exactly the runtime inits a plain filter over all paths yields, each with its rule |
| LibraryScan.ScannedEntries | src/entry/build.rs:425-432 | scanning only the package's range loses no entry |
| LibraryScan.PackageEntriesMembers | src/entry/build.rs:417-454 | an entry is made exactly for each runtime init below the package directory |
| LibraryScan.RuleSpelledOut | src/entry/build.rs:433-446 | an init is a subpackage exactly when the package holds a runtime init in a directory above its own |
| LibraryScan.InitAboveIsADirectoryAbove | src/path_util.rs:71-84 | above means a directory above the module's file, or above the directory whose init it is |
| LibraryScan.PackageInitStandsAlone | src/entry/build.rs:412-441 | a package's own init is never classed as a subpackage |
| LibraryScan.InitsBelowAreSubpackages | src/entry/build.rs:412-441 | when that init is runtime code, every other one below it is |
| Workspace.SplitIsAtSeparators | src/config/workspace.rs:385-386 | a path is cut at every slash and backslash and nowhere else |
| Workspace.KeptAreTheNamed | src/config/workspace.rs:387-388 | every named segment is kept as often as it occurs, `""` and `"."` never |
| Workspace.NormalizeKeepsTheSegments | src/config/workspace.rs:384-391 | a normalised path has exactly the path's named segments in order, and normalising is idempotent |
| Workspace.NormalizeIdentifiesSpellings | src/config/workspace.rs:384-391 | two spellings normalise alike exactly when they name the same segments |
| Workspace.BasenameIsTheLastSegment | src/config/workspace.rs:148-148 | a basename has no slash and the path is it or ends in a slash and it |
| Workspace.MembersWithUniqueIds | src/config/workspace.rs:143-167 | each path appears once, in order, named by its basename if no other path shares it and by its path otherwise, and ids are pairwise different |
| Workspace.IdsDiffer | src/config/workspace.rs:143-146 | in particular a unique basename never equals another member's path |
| Workspace.NestedProjects | src/config/workspace.rs:240-286 | the result is exactly the directories above some file that are projects, not skipped, with nothing skipped and no project above them |
| Workspace.ProjectsStandApart | src/config/workspace.rs:254-279 | a project builds something, has no init, is no path source and no member, and no member lies in it |
| Workspace.SkippedByLastSegment | src/config/workspace.rs:224-240 | skipping looks at the last segment alone: a leading dot or one of the listed names |
| Workspace.SearchAbove | src/config/workspace.rs:264-284 | a walk with any correct memo finds exactly the file's shallowest visible project and keeps the memo correct |
| Workspace.ReportedAreApart | src/config/workspace.rs:240-247 | no reported project lies inside another |
| Workspace.FileOrderDoesNotMatter | src/config/workspace.rs:248-286 | file order and repeats do not matter |
| Workspace.VisibleProjectsAreCovered | src/config/workspace.rs:240-286 | every project above a file that nothing skipped hides is reported or lies in a reported one |
| TomlArray.EscapeTomlString | src/init.rs:181-197 | the loop computes the character-wise escape |
| TomlArray.EscapedAreExactly | src/init.rs:184-193 | exactly quotes, backslashes and the control characters up to U+001F and from U+007F to U+009F are escaped |
| TomlArray.ControlReadsBack | src/init.rs:189-192 | a control character prints as a six-character, four-digit escape that reads as itself |
| TomlArray.BodyReadsBack | src/init.rs:181-197 | an escaped body followed by a quote reads back as the string, so every inner quote is escaped |
| TomlArray.PrintedArrayReadsBack | src/init.rs:172-179 | a TOML v1.0.0 reader of basic-string arrays returns the same list, whatever follows |
| TomlArray.RenderIsInjective | src/init.rs:172-179 | no two lists print alike |
| TomlArray.EscapedHasNoControl | src/init.rs:181-192 | no control character, so no line break, is printed raw |
| Sampler.AvailableIsTheMost | scripts/sample-precision-labels.py:152-160 | a project can give n picks exactly when n are queued and the quota allows n more |
| Sampler.SampleFindings | scripts/sample-precision-labels.py:146-166 | the loop ends; the picks are the closed form's, and the final count is the labelled count if it meets the total, else the smaller of the total and labelled plus what every project can give |
| Sampler.TakeTurn | scripts/sample-precision-labels.py:155-164 | a project gives a pick in a round exactly when more than that many are available within its quota |
| Sampler.RunRound | scripts/sample-precision-labels.py:153-166 | one round stops at the total and makes no progress only when nobody has a pick left |
| Sampler.PicksAddUp | scripts/sample-precision-labels.py:152-164 | there are as many picks as the per-project levels add up to |
| Sampler.SamplesAreFairPrefixes | scripts/sample-precision-labels.py:146-166 | each project's picks are a prefix of its hash order within what it may give, and two projects that could give more differ by at most one pick |
| FindingDiff.KeyRows | scripts/oss-metrics.py:620-626 | the rows pair the sorted lost and won levels, surplus as GONE or NEW |
| FindingDiff.RowsExplain | scripts/oss-metrics.py:620-626 | the before-levels are base minus head, the after-levels head minus base; never both GONE and NEW; as many rows as the larger difference; CHANGED levels differ |
| FindingDiff.RowsConserveFindings | scripts/oss-metrics.py:611-626 | base less the before-levels plus the after-levels is exactly the head |
| FindingDiff.NoRowsExactlyWhenEqual | scripts/oss-metrics.py:611-626 | a key has no rows if and only if its levels did not move |
| FindingDiff.ProjectRows | scripts/oss-metrics.py:619-627 | a project's rows are the blocks of the keys of either report, by ascending key, each pairing that key's sorted lost and won levels |
| FindingDiff.EveryKeyIsExplained | scripts/oss-metrics.py:619-627 | so for every key its rows account for exactly what moved |
| FindingDiff.KeyRowsExplainTheReports | scripts/oss-metrics.py:619-627 | the rows of a key explain what the two reports hold of it, an absent key counting as no findings |
| FindingDiff.RowsInOrder | scripts/oss-metrics.py:619-627 | rows come by rule code and then fingerprint, with "-" for the side that is missing |
| FindingDiff.FindingDiff | scripts/oss-metrics.py:608-628 | rows come project by project; projects without a report on either side are skipped and have none |

## Left out

- The per-rule planners behind `plan_issue_fix` (src/fix/plan.rs:142): planning an issue is any of action, nothing or skip, which covers every outcome they have.
- Layout, comments and line endings of edited manifests, and the parsing behind labels: a manifest is its lists of entries.
- TOML table keys that end in `[n]`: `RemoveTagged` treats such a label as an array entry.
- Building, sorting and deduplicating the lists of fingerprinted inputs (src/cache.rs:546-635).
- Wording of descriptions and error details in the fix report, and lockfile reminders.
- Real file access, symbolic links, directory creation, temp files and the JSON and TOML libraries.
- Platform `Windows` creation times reused by the file system, clocks before the epoch and a clock probe that cannot be written.
- The order of a directory listing, failed deletions, and a listing that overlaps other steps.
- The parse bundle's own file name (newline-joined context, src/cache.rs:807-817) and its write to disk.
- Panics, `join` and `drop_in_background` in src/parallel.rs; the cursor does not wrap around.
- Entry collectors, mode resolution and the warnings of dropped roots in src/entry/build.rs.
- The Git-ignore walk, globs, uv members and reading of `pyproject.toml` and `setup.py` in src/config/workspace.rs: file facts are functions of the directory.
- Multi-line and literal TOML strings and values other than basic strings: the reader rejects them.
- `prune`, the hash `rank` and the reading of labels in scripts/sample-precision-labels.py: a queue comes in hash order.
- `tsv_field` and the reading of reports in scripts/oss-metrics.py: a fingerprint is printed as it is.
- Config layering, baselines, CLI, reporters and the corpus scripts.
