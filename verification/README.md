# Verified model of the setup-soldr cache logic

This Dafny project models the parts of the action that decide which caches are restored, saved and
evicted, and proves what those decisions guarantee. It has one module per file.

- **Ancestor selection.** `AncestorDag` is the breadth-first search over a listed part of a Git
  history; `GitHistory` is what a truncated or a covering listing says about the whole history, and
  the local reader that fetches at most once; `RevList` is the order in which that listing comes;
  `ExactDistance` is exactly when distances read off it are true; `SkewedHistory` is a listing where
  they are not; `GithubDistance` is the lookup that falls back to the compare API under its request
  budget; `AncestorKey` is the structured key; `AncestorSelect` is the choice of the nearest clean
  entry, with any lookup liable to be refused; `NearestAncestor` says the same of the fields of the
  entries, without the comparator. `StableSort` stands for the library sort.
- **Eviction.** `Eviction` is the filter, the ranking and the size-first slice; `EvictionOrder` is
  when equal sizes go oldest first; `DeletePool` is the pool of ten delete workers as interleaved
  atomic steps.
- **Canonical JSON.** `CanonicalJson` has both printers and a parser of RFC 8259 texts (sections 3
  to 7) that inverts them. `JsonNumber` is the text of any finite number, given by the decimal that
  ECMA-262 assigns to it; `DoubleText`, `ShortestDigits` and `IntegerText` prove for integral
  doubles that this decimal is the shortest that reads back. `PythonParity` is exactly when Python
  prints the same, with its default separators and with the compact ones. Equality of values ignores
  key order and identifies `null`, `undefined` and non-finite numbers, and the two zeros, as the
  printers do.
- **Tar reader.** `TarReader` has the block loop, its fields and path test, and the loop turn by
  turn where it steps back; `TarFields` and `TarFiles` say what a field of any bytes reads as and
  what one header does to the disk; `TarOrigin` says where a file comes from, whatever the archive;
  `TarWriter` is a reference writer of the ustar Interchange Format (IEEE Std 1003.1, pax utility)
  with GNU long names, pax headers and links, and the round trip.
- **Payload planning and seeding.** `CachePayload` is the filtered walk with its mutable
  collections; `PayloadCensus` says what the manifest holds and that the census adds up;
  `PayloadClasses` says which paths pass the filters, component by component, and under which reason
  the others are skipped; `PayloadTops` is the lists of the largest; `SeedIsolated` is the second
  filter, and where the two agree and differ.
- **Layered cook cache.** `CookLayers` is base and delta archives in one immutable store with a
  scope per ref, with concurrent runs, evictions and yank deletions; `CookKeys` is the text of
  their keys; `CookSaves` is when a save adds an entry; `CookSafety` is when a ready delta is over
  its run's base; `CookNecessity` is that these conditions are the exact ones.
- **Source mtimes.** `GlobRegex` compiles globs to regex text and gives both sides a meaning;
  `SourceSelection` is the file selection built on it; `SourceMtime` is the snapshot and its replay,
  with names that reach one file through symlinks.
- **Processes and jobs.** `RunPipe` is the event machine of a two-process pipe, with the bytes in
  it; `PostSave` is the post step's audit join, gates, save and clean-save marker over any sequence
  of jobs.

Code that updates state is a class or a method with a loop, proved against a function; the functions
carry the laws. Backends, the network, clocks and child processes are parameters: an answer that may
be anything is an argument, and one that must be consistent is a fixed function.

## Where the code does not do what was hoped

Each of these is a lemma: a concrete input, or the exact condition under which the hope holds.

- A local distance can be too large when the rev-list reached its 200 commits
  (`SkewedHistory.SkewedListingOverestimates`, with one skewed date;
  `SkewedHistory.LevelDatesAllowIt`, with equal ones). It is the true one, in every history that
  prints the listing, exactly when the listing leaves no room for a shorter way over a parent that
  is not listed (`ExactDistance.ReadDistanceIsExactIff`); that can be told from the listing and its
  distances.
- A ready delta can be over another base when a ref restores from two uploading refs, and exactly
  then (`CookNecessity.SoundIffOneSource`). `save-cache: auto` on GitHub leaves one uploading ref
  when the run knows its ref and the default branch; every other setting that uploads at all lets
  any ref upload (`CookNecessity.PolicyIsSoundIff`, `CookNecessity.PullRequestScopeIsUnsound`).
- Deleting a yanked base archive leaves deltas behind that a later run takes for its own base's. It
  is harmless exactly when no delta of the base is stored and no unfinished run can still save or
  load one (`CookNecessity.DeletionIsSoundIff`, `CookNecessity.YankedBaseLeavesStaleDelta`).
- The fragments of a cook key may hold dashes, and two sets of parts then share a key
  (`CookKeys.DashesCollide`); without dashes the text tells the parts
  (`CookKeys.BaseTextIdentifies`).
- A size field of -512 keeps the tar loop at a nameless header for good
  (`TarWriter.SignedSizeDoesNotAdvance`); below that the loop steps back, and then may end, throw or
  repeat. In every case only the output directory changes (`TarReader.EveryTurnStaysBelow`).
- The age floor is antitone only for a baseline of at least half an hour
  (`Eviction.FloorAntitoneIff`); the built-in policies have one
  (`Eviction.BuiltInFloorsAreAntitone`).
- Equal sizes are not always evicted oldest first: it fails, for some order of the listing, exactly
  when an entry whose date does not parse shares its size with two dated entries of different age
  (`EvictionOrder.OldestFirstIff`).
- The glob meant for `Cargo.toml` also takes `fooCargo.toml` (`SourceSelection.IncludedExactly`).
- The comment on the build-cache file classes (src/lib/cache-compress.ts:141-146) promises to keep
  everything in an artifacts directory; the code still drops transient basenames and `logs` there
  (`PayloadCensus.ArtifactsKeepDiagnostics`).
- The seed filter follows the save filter only for a store directory spelled `zccache`
  (`SeedIsolated.AgreementNeedsZccacheRoot`). Its comment (src/lib/seed-isolated-cache.ts:9-11)
  promises exactly the file classes that are saved; it also copies the cargo mutex names, archive
  suffixes and `.socket`, and what lies below a directory at which the save walk stops
  (`SeedIsolated.SeedKeptIsSaveRefusedIff`, `SeedIsolated.SeedKeptIsNotArchivedIff`).
- The comment of src/lib/python-json.ts:4-6 claims byte parity with Python's `json.dumps`. It holds
  exactly for strings below DEL (or with unpaired surrogate halves) and integers that are their own
  shortest numeral (`PythonParity.ValueParityIff`), so not for `é`, and not for 2 to the 60th.
- Replaying mtimes depends on the order of the entries exactly when two applied names of one file
  set different mtimes (`SourceMtime.OrderIsImmaterialIff`), and a second snapshot equals the first
  exactly when the clock keeps the milliseconds (`SourceMtime.SnapshotSurvivesReplay`).
- A save can go unaudited: after a main step that stops between restore and audit
  (`PostSave.UnfinishedMainSavesUnaudited`), after an archive that fails part way through unpacking
  (`PostSave.PartialUnpackSavesUnaudited`, `PostSave.BrokenCookSavesUnaudited`), and after a cook
  base found by prefix, whose key is reported and never audited
  (`PostSave.PrefixBaseSavesUnaudited`). `PostSave.NeverSavesUnauditedIff` is the exact condition,
  `PostSave.AuditedKeyIff` what it means layer by layer, and
  `PostSave.WiredStatusLeavesPartialRestores` what is left when the job status is passed.

## Model

| member | source | states |
|---|---|---|
| AncestorDag.DagDistances | src/lib/ancestor-cache.ts:112-126 | the queue loop ends and its map holds exactly `head` and the listed nodes reachable from it over listed parent edges, each with its shortest distance; it throws exactly above 200 nodes |
| AncestorDag.VisitParents | src/lib/ancestor-cache.ts:119-123 | one turn of the inner loop: every listed parent of the node at the queue position is recorded, the queue stays in distance order and lists each key once |
| AncestorDag.VisitNew | src/lib/ancestor-cache.ts:120-122 | recording a new parent keeps the whole queue invariant |
| AncestorDag.VisitNext | src/lib/ancestor-cache.ts:117-124 | moving on keeps the invariant, and moving past the last queue entry means the map is exactly the shortest distances |
| AncestorDag.RelaxedIsShortest | src/lib/ancestor-cache.ts:117-125 | a queue whose nodes are all relaxed records exactly the reachable nodes with their shortest distances |
| AncestorDag.RelaxedBoundsWalks | src/lib/ancestor-cache.ts:117-124 | no walk from `head` is shorter than a relaxed record of where it ends |
| AncestorDag.ParentMapLists | src/lib/ancestor-cache.ts:114 | the parent map lists exactly the given shas, each with one of its given parent lists |
| AncestorDag.DistanceExists | src/lib/ancestor-cache.ts:110-126 | a reachable node has a least number of parent edges, so shortest distance is well defined |
| GitHistory.ListedWalkIsTrue | src/lib/ancestor-cache-git.ts:30-35 | every walk in a truncated listing is a walk of the whole history |
| GitHistory.CoveredWalk | src/lib/ancestor-cache-github.ts:122-129 | on an acyclic history, a walk towards the candidate never leaves a listing of what only `head` reaches |
| GitHistory.CoveringDistanceIsExact | src/lib/ancestor-cache-github.ts:122-135 | distances to the candidate in the compare listing and in the whole history are the same, walk for walk |
| GitHistory.HonestHasTrueEdges | src/lib/ancestor-cache-git.ts:5-13 | a rev-list of real commits, even cut at a shallow boundary, yields only true parent edges |
| GitHistory.BoundedGitHistory.constructor | src/lib/ancestor-cache-git.ts:25-28 | nothing is loaded or fetched at first |
| GitHistory.BoundedGitHistory.Load | src/lib/ancestor-cache-git.ts:30-35 | the map becomes exactly the distances over the listing just read; a failed load leaves map and shallow flag as they were |
| GitHistory.BoundedGitHistory.Distance | src/lib/ancestor-cache-git.ts:37-50 | the fetch is made exactly when a shallow history, not yet deepened, does not reach the candidate; what it brings in is then read, and a candidate reached there is answered with its shortest distance; else the earlier map stands. An answer is the length of a real parent chain, never below the shortest, and the failures are told |
| RevList.ListingHasTrueEdges | src/lib/ancestor-cache-git.ts:30-35 | what `rev-list` prints of a graph has only that graph's edges |
| RevList.ShortListingIsComplete | src/lib/ancestor-cache-git.ts:32 | a listing of fewer than 200 commits has every walk from the head |
| RevList.NewestListingHasWalks | src/lib/ancestor-cache-git.ts:32 | when parents are strictly older than their children, every walk to a printed commit is in the listing, cut or not |
| RevList.CutKeepsShortestWalks | src/lib/ancestor-cache-git.ts:39-45 | a history cut at a depth keeps the shortest walks to all its commits |
| RevList.ReadDistanceIsExact | src/lib/ancestor-cache-git.ts:30-49 | in a full or depth-cut repository a distance read off the listing is the true one in particular when fewer than 200 commits were listed, or every parent is strictly older than its child |
| ExactDistance.ReadDistanceIsExactIff | src/lib/ancestor-cache-git.ts:30-49 | it is the true one in every acyclic history that prints the listing, from a full or depth-cut repository, exactly when the listing leaves no room: no unlisted parent of a listed commit, not seen below the candidate, could be two steps short of the answer |
| ExactDistance.NoRoomNoShorterWalk | src/lib/ancestor-cache-git.ts:30-35 | a walk that leaves the listing does so over a cut parent that does not lie below the candidate, so without room none is shorter |
| ExactDistance.RoomIsUsed | src/lib/ancestor-cache-git.ts:32 | where there is room, a history that prints the same 200 commits has a shorter walk |
| SkewedHistory.SkewedListingOverestimates | src/lib/ancestor-cache-git.ts:32-33 | 201 commits with one skewed date: the 200 that are printed give 3 where the history has 2 |
| SkewedHistory.LevelDatesAllowIt | src/lib/ancestor-cache-git.ts:32 | with all dates equal the same listing is in order, so parents that are not newer are not enough |
| GithubDistance.AdmitRequest | src/lib/ancestor-cache-telemetry.ts:35-38 | a request is admitted exactly below 24 requests and within 45 s, and adds one to the count |
| GithubDistance.CompareListingCovers | src/lib/ancestor-cache-github.ts:122-131 | candidate with emptied parents plus the compared commits is a covering listing with only true edges |
| GithubDistance.AncestorLookup.CompareDistance | src/lib/ancestor-cache-github.ts:115-135 | over an honest compare API the answer is the true shortest distance, `null` exactly for a non-ancestor; it fails exactly on a refused or failed request or a range of 200 and more, and counts one request per page asked for |
| GithubDistance.AncestorLookup.Distance | src/lib/ancestor-cache-github.ts:109-136 | out of time it fails without a lookup; a local answer or failure stands without a request; only then does the comparison decide, with its requests and failures: never below the true distance, exact when a request was made, known exactly for ancestors |
| AncestorKey.ValueOfNumeral | src/lib/ancestor-cache.ts:61-69 | the value of a printed number is the number |
| AncestorKey.NumeralOfValue | src/lib/ancestor-cache.ts:65-71 | a numeral without leading zero is the print of its value |
| AncestorKey.ExecDecidesPattern | src/lib/ancestor-cache.ts:65 | the left-to-right scan finds groups exactly when the text splits into them and the pattern's literals, so the groups are unique |
| AncestorKey.MadeKeyMatches | src/lib/ancestor-cache.ts:53-66 | a printed key matches the pattern with the groups of its fields |
| AncestorKey.ParseInvertsMake | src/lib/ancestor-cache.ts:53-72 | a string parses to `k` exactly when `k` prints as it: round trip in both directions |
| AncestorKey.ParsesExactlySafeMatches | src/lib/ancestor-cache.ts:64-72 | a string parses exactly when it matches the pattern with all its numbers safe integers |
| AncestorKey.IdentityPrefixIsExact | src/lib/ancestor-cache.ts:37-40 | a made key starts with the prefix of `id` exactly when its identity is `id` |
| AncestorKey.FamilyPrefixIsExact | src/lib/ancestor-cache.ts:48-51 | a made key starts with the prefix of family `f` exactly when `f` begins its identity |
| AncestorKey.AncestorFamilyPrefix | src/lib/ancestor-cache.ts:48-51 | a family is exactly 16 lower-case hex digits, so a whole identity beyond that is none |
| AncestorSelect.Scan | src/lib/ancestor-cache.ts:85-96 | the listing loop ranks exactly the candidates in range and fails exactly on too many entries, too many candidates, a distance error or a refused lookup; it has inspected all candidates, or those up to the first entry it fails at |
| AncestorSelect.SelectAncestorCache | src/lib/ancestor-cache.ts:77-108 | a lookup turned down by the backend, at whatever point, can only lose the answer: an entry chosen is the choice without the budget, and the selection fails exactly when that choice does or one of the lookups it needs is refused; the inspected count is exact in every case |
| AncestorSelect.FindClean | src/lib/ancestor-cache.ts:99-103 | the proof loop finds the first clean one, and fails exactly when a lookup up to there fails or is refused |
| AncestorSelect.RankedMembers | src/lib/ancestor-cache.ts:85-95 | an entry is ranked exactly when listed, of this identity and ref and pull request, and at a known distance up to 200 |
| NearestAncestor.PullRequestIff | src/lib/ancestor-cache.ts:88 | a ref is of pull request `n` exactly when it is `refs/pull/n/merge`, with `n` printed without leading zeros |
| NearestAncestor.CandidateIff | src/lib/ancestor-cache.ts:86-90 | an entry is a candidate for the key it was made from: of this identity, on a listed ref, with a positive id, and for that ref's pull request or none |
| NearestAncestor.RankedIff | src/lib/ancestor-cache.ts:91-95 | ranked are exactly the listed candidates whose distance is known and at most 200 |
| NearestAncestor.ScanFailsIff | src/lib/ancestor-cache.ts:83-94 | the scan fails exactly above 600 entries, above 200 candidates or on a candidate's failing distance |
| AncestorSelect.PrecedesIsStrictOrder | src/lib/ancestor-cache.ts:97-98 | nearer, then newer, then higher id is a strict weak order, total on distinct ids |
| AncestorSelect.ChooseIsNearestClean | src/lib/ancestor-cache.ts:77-108 | the chosen entry is the clean ranked one with fewer than 20 ahead of it, all of those unclean, said without a sort; failure is exactly a scan failure or a tried proof lookup that fails |
| NearestAncestor.ChosenIsNearest | src/lib/ancestor-cache.ts:97-103 | no ranked entry at a smaller distance than the chosen one is clean, none as near and newer, and none as near and new with a higher id |
| NearestAncestor.ChosenHasLeastDistance | src/lib/ancestor-cache.ts:97-104 | with at most 20 ranked and every lookup answered the chosen distance is the least of the clean entries, and none is chosen exactly when none is clean |
| AncestorSelect.ChoiceIgnoresListingOrder | src/lib/ancestor-cache.ts:82-103 | listing the same entries in another order changes neither entry nor distance |
| StableSort.SortOrders | src/lib/ancestor-cache.ts:97-98 | the library sort puts any strict weak order in order |
| StableSort.StrictlyIsUnique | src/lib/ancestor-cache.ts:97-98 | members strictly ordered have one arrangement |
| StableSort.PlaceIsBounded | src/lib/ancestor-cache.ts:97-99 | in a sorted list each element stands at a position no less than the number of elements before it and below the number of those not after it |
| Eviction.FloorAntitoneIff | src/lib/cache-eviction.ts:96-106 | more usage never protects younger entries exactly when the baseline is at least half an hour |
| Eviction.BuiltInFloorsAreAntitone | src/lib/cache-eviction.ts:108-130 | both built-in policies have such a baseline |
| Eviction.AggressiveTakesMore | src/lib/cache-eviction.ts:108-130 | the protecting policy leaves half a GB below the cap and frees half a GB; whenever it acts the aggressive one does, which aims lower and may delete whatever the other may |
| Eviction.FilterMembers | src/lib/cache-eviction.ts:379-392 | kept are exactly the listed entries with a key, no foundation prefix and not younger than the floor, none twice |
| Eviction.EvictableIff | src/lib/cache-eviction.ts:96-106 | a pass may delete an entry exactly when it has a key without a protected prefix and its date does not parse or is at least the floor in hours ago: the baseline, at most two hours of it beyond 1 GB over the trigger, half an hour beyond 3 GB |
| Eviction.RankingIsLargestFirst | src/lib/cache-eviction.ts:403-407 | the comparator puts sizes in non-increasing order, also where dates do not parse |
| EvictionOrder.OldestFirstIff | src/lib/cache-eviction.ts:403-407 | equal sizes with dates that parse come oldest first, in whatever order the entries are listed, exactly when no undated entry shares a size with two dated ones of different age |
| EvictionOrder.RankingIsOldestFirst | src/lib/cache-eviction.ts:403-407 | without such an entry they do |
| EvictionOrder.UndatedEntryHidesOrder | src/lib/cache-eviction.ts:403-407 | with one, some order of the listing puts the younger entry first |
| Eviction.SliceToTarget | src/lib/cache-eviction.ts:429-435 | the loop takes the shortest prefix that brings the prediction to the target, or everything |
| Eviction.FirstAreLargest | src/lib/cache-eviction.ts:393-407 | no choice of k entries outweighs the k ranked first |
| Eviction.SliceIsOptimal | src/lib/cache-eviction.ts:379-435 | no smaller choice of evictable entries reaches the target |
| Eviction.SliceLands | src/lib/cache-eviction.ts:420-435 | if every delete succeeds, usage ends at or below the target and above the target minus the last entry's size, or every evictable entry was chosen |
| Eviction.PlanEviction | src/lib/cache-eviction.ts:268-435 | each of the five outcomes of the pass has its exact condition, and a fired pass deletes the slice of the ranked, filtered listing |
| Eviction.ChosenAreEvictable | src/lib/cache-eviction.ts:379-435 | nothing chosen is foundation-prefixed or too young |
| DeletePool.RunKeepsInv | src/lib/cache-eviction.ts:437-479 | over every interleaving: claims in order, each index in flight or answered once, counters and bytes account for every claim |
| DeletePool.ResumeKeepsInv | src/lib/cache-eviction.ts:446-478 | one settled delete keeps that |
| DeletePool.FinishedPoolAttemptedAll | src/lib/cache-eviction.ts:446-480 | a pool that finishes unaborted attempted every chosen entry once, and its byte count is the total minus the failures |
| DeletePool.AbortedRunDrains | src/lib/cache-eviction.ts:448-471 | after the abort flag no delete starts |
| DeletePool.AtMostNineAfterAbort | src/lib/cache-eviction.ts:463-471 | after a permission error at most nine more deletes complete |
| DeletePool.EveryScheduleEnds | src/lib/cache-eviction.ts:446-480 | in every schedule at most one delete settles per chosen entry, some worker can always go on until all have finished, and after that many they have |
| DeletePool.CountersTellOutcomes | src/lib/cache-eviction.ts:452-478 | a delete counts exactly when it succeeded, one not found or failed otherwise as neither, and the pool stops exactly when permission was denied |
| DeletePool.OnlyEvictableAttempted | src/lib/cache-eviction.ts:379-479 | in every interleaving each call names a distinct, listed, evictable entry |
| DeletePool.CleanRunReachesTarget | src/lib/cache-eviction.ts:429-481 | with every delete successful the reported usage lands on the target as the slice promises |
| DeletePool.WorkerPool.constructor | src/lib/cache-eviction.ts:437-479 | starting the pool claims one entry per worker |
| DeletePool.WorkerPool.Next | src/lib/cache-eviction.ts:447-451 | the top of the worker's loop is the specified claim |
| DeletePool.WorkerPool.OnSettled | src/lib/cache-eviction.ts:452-478 | handling one settled delete is the specified step and keeps the invariant |
| CanonicalJson.BodyReads | src/lib/cache-keys.ts:79-81 | parsing an escaped string body gives the string back, for every sequence of UTF-16 units (RFC 8259, section 7) |
| JsonNumber.NumberReads | src/lib/cache-keys.ts:82-88 | every finite number, printed as digits, with a point, as a small fraction or with an exponent, reads back and leaves the rest; a negative zero reads as zero (RFC 8259, section 6; ECMA-262, section 6.1.6.1.20) |
| JsonNumber.ExponentIff | src/lib/cache-keys.ts:87 | an exponent is printed exactly for numbers of 1e21 and more or below 1e-6, a point exactly where there is a fraction or more than one digit, and a sign exactly for negative ones |
| JsonNumber.ExponentEndsText | src/lib/cache-keys.ts:87 | an exponent carries its sign, a plus included, and ends the text |
| IntegerText.IntegerPrints | src/lib/cache-keys.ts:87 | an integral double below 1e21 prints its sign and plain digits, those that round back to it |
| ShortestDigits.PrintsShortest | src/lib/cache-keys.ts:87 | no numeral with more zeros at its end rounds to the double, and none with as many that does is nearer |
| ShortestDigits.RoundIsMonotone | src/lib/cache-keys.ts:87 | rounding to a double keeps the order |
| DoubleText.ShortestRoundsBack | src/lib/cache-keys.ts:87 | the digits printed for an integral double round back to it |
| CanonicalJson.StringifyRenders | src/lib/cache-keys.ts:75-104 | both printers write the canonical tree, keys sorted |
| CanonicalJson.ValueReads | src/lib/cache-keys.ts:75-104 | the parser reads any rendered value back and leaves the rest, whatever the gap |
| CanonicalJson.CanonKeepsValue | src/lib/cache-keys.ts:96-101 | sorting keys and collapsing nullish values does not change the value |
| CanonicalJson.SameValueSameCanon | src/lib/cache-keys.ts:96-101 | equal values have equal canonical trees |
| CanonicalJson.ParseInvertsStringify | src/lib/cache-keys.ts:71-104 | one parser inverts the printer up to the canonical form |
| CanonicalJson.StringifyIdentifiesSame | src/lib/cache-keys.ts:71-104 | two values print alike exactly when they are equal up to key order |
| CanonicalJson.PrintersIdentifySamePairs | src/lib/python-json.ts:12-36 | `pythonDefaultJson` and `canonicalJsonStringify` identify exactly the same pairs |
| PythonParity.PythonParityIff | src/lib/python-json.ts:1-6 | a string prints as Python's `json.dumps` prints it exactly when every unit is below DEL or an unpaired surrogate half |
| PythonParity.ValueParityIff | src/lib/python-json.ts:1-16 | a value of any shape, its integers doubles below 1e21, prints as `json.dumps(value, sort_keys=True)` prints it exactly when all its strings and keys have that parity and each of its integers is its own shortest numeral |
| PythonParity.CompactParityIff | src/lib/cache-keys.ts:63-104 | and the canonical text is that of `json.dumps(value, sort_keys=True, separators=(',', ':'))` under the same condition |
| PythonParity.EscapesAgree | src/lib/cache-keys.ts:80 | both languages escape a unit below DEL alike, Python alone escapes from there on |
| PythonParity.PlainValuesPrintAlike | src/lib/python-json.ts:1-16 | so with both separators all values of ASCII text below DEL and integers below 2 to the 53rd print alike |
| TarReader.AdvanceIsForwardIff | src/lib/ensure-soldr.ts:594-607 | the offset moves by a multiple of 512, and forward exactly when the size is above -512 |
| TarReader.UnsignedFieldIsNatural | src/lib/ensure-soldr.ts:554-562 | an octal field without minus sign never reads as negative |
| TarFields.OctalFieldIff | src/lib/ensure-soldr.ts:547-562 | whatever bytes a field holds, it reads as `n` exactly when it is blank and `n` is zero, or white space, a sign or none and octal digits of `n` begin it; else it throws |
| TarReader.PrefixTestIsComponentwise | src/lib/ensure-soldr.ts:582-586 | the text prefix test is the component test, except at `/`, where only `/` passes |
| TarReader.DestinationIsBelowRoot | src/lib/ensure-soldr.ts:577-588 | an accepted destination is at or below the root, and every such relative name is accepted |
| TarReader.PlainNamesResolve | src/lib/ensure-soldr.ts:577-583 | plain names lead below the directory, in order |
| TarReader.SpecialNamesResolve | src/lib/ensure-soldr.ts:577-583 | empty and `.` components lead nowhere and `..` undoes the component before it |
| TarReader.ReadEntry | src/lib/ensure-soldr.ts:595-635 | one turn of the loop at any offset, negative ones included: the errors, skips and writes of one header, and the next offset |
| TarFiles.MakeDirectoriesIff | src/lib/ensure-soldr.ts:622 | directories are made all the way down, exactly when no file is at or above the path; else nothing changes |
| TarFiles.PutDirectoryIff | src/lib/ensure-soldr.ts:621-624 | a directory entry does just that |
| TarFiles.PutFileIff | src/lib/ensure-soldr.ts:630-635 | a file entry writes its content and makes the directories above, exactly when no file stands above it and no directory at it; its mode is set when the field is positive, and a field that does not read throws after the write |
| TarFiles.PendingAfter | src/lib/ensure-soldr.ts:609-618 | a long-name block leaves its name pending, a pax header what was, any other header nothing |
| TarFiles.HeaderThrowsIff | src/lib/ensure-soldr.ts:582-635 | a header throws exactly when it is none of those, has a name, and that leads out of the directory, or to a directory or file that cannot be made, or its mode does not read |
| TarReader.ExtractTarBuffer | src/lib/ensure-soldr.ts:590-637 | the offset loop does what reading the remaining archive block by block specifies, with the files written before an error; up to a header whose size field makes the offset stay or go back, which is still applied |
| TarFields.SliceIs | src/lib/ensure-soldr.ts:597-607 | a slice is cut to the archive, and a negative bound counts from its end, as `subarray` takes it |
| TarReader.ExtractAt | src/lib/ensure-soldr.ts:594-607 | a turn at any offset agrees with reading the rest |
| TarReader.ExtractStaysBelow | src/lib/ensure-soldr.ts:590-637 | whatever the archive holds and however extraction ends, an error included, nothing outside the output directory changes or goes away, and no path inside it goes away; only directories above it may be new |
| TarReader.EveryTurnStaysBelow | src/lib/ensure-soldr.ts:590-637 | the same after any number of turns of the loop, also where it steps back and may never end |
| TarReader.LoopArrives | src/lib/ensure-soldr.ts:594-607 | the loop, turn by turn, gets to the outcome the specification names |
| TarOrigin.FilesComeFromHeaders | src/lib/ensure-soldr.ts:601-635 | of any archive, however its extraction ends: each file was there as it is, or a header flagged `0` or NUL names its path, itself or through a long-name block, and carries its content |
| TarOrigin.LoopIsExplained | src/lib/ensure-soldr.ts:594-635 | the same after any number of turns |
| TarWriter.HeaderReads | src/lib/ensure-soldr.ts:547-575 | the header fields of a reference ustar header read back (IEEE Std 1003.1, pax utility, ustar Interchange Format) |
| TarWriter.BlockReads | src/lib/ensure-soldr.ts:594-607 | one header and its padded data are consumed exactly |
| TarWriter.PaxReads | src/lib/ensure-soldr.ts:613-616 | a pax header, of one file or of all, changes no file and leaves a pending long name pending |
| TarWriter.EntryReads | src/lib/ensure-soldr.ts:609-635 | one written entry (plain name, split prefix or GNU long name, with any pax headers before it; flag `0` or NUL, directory, or any other flag) does what the entry means and leaves the rest |
| TarWriter.ExtractInvertsWrite | src/lib/ensure-soldr.ts:590-637 | extracting a written archive applies exactly its file and directory entries in order; links, devices, fifos and the like only have to be at a safe path, and use up a pending name |
| TarWriter.ExtractWrittenArchive | src/lib/ensure-soldr.ts:590-637 | the same for the whole extractor, from creating the directory on |
| TarWriter.LastWriteWins | src/lib/ensure-soldr.ts:630-635 | a destination ends with the content and the mode of its last file entry |
| TarWriter.OnlyEntriesAppear | src/lib/ensure-soldr.ts:630-635 | every file afterwards was there before or is some entry's destination |
| TarWriter.SignedSizeDoesNotAdvance | src/lib/ensure-soldr.ts:554-607 | at a nameless header whose size field is `-1000` every turn comes back to the state it began in |
| CachePayload.TarPlanner.Plan | src/lib/cache-compress.ts:366-470 | inputs are trimmed, deduplicated and vetted; the recorded events, totals and inputs are the specified ones |
| CachePayload.TarPlanner.Walk | src/lib/cache-compress.ts:389-452 | walking a tree records exactly the specified events in order and returns their totals |
| CachePayload.TarPlanner.WalkChildren | src/lib/cache-compress.ts:440-448 | the child loop records the children's events in order and adds their totals |
| CachePayload.TarPlanner.RecordLeaf | src/lib/cache-compress.ts:413-432 | files, symlinks, special and unreachable nodes each leave one record |
| CachePayload.TotalsAdd | src/lib/cache-compress.ts:440-448 | totals of concatenated records add up |
| PayloadCensus.VisitsExactly | src/lib/cache-compress.ts:389-452 | a walk's records are exactly the own records of the nodes it reaches |
| PayloadCensus.ExplainsIff | src/lib/cache-compress.ts:389-448 | a node is reached exactly when it is there and every proper prefix passes the filters |
| PayloadCensus.PlanExactly | src/lib/cache-compress.ts:389-470 | a plan records one thing per reached node and per refused input, and nothing else |
| PayloadCensus.PlanIsDistinct | src/lib/cache-compress.ts:389-470 | no path is recorded twice, so every visited node is counted once |
| PayloadCensus.ManifestExactly | src/lib/cache-compress.ts:389-485 | the manifest holds a path exactly when it names a regular file or symlink and every prefix passes the name, basename and path filters |
| PayloadCensus.ManifestHasNoDuplicates | src/lib/cache-compress.ts:454-470 | the manifest has no duplicates, for any disk and any list of basenames |
| PayloadCensus.TextReadsBack | src/lib/cache-compress.ts:190-192 | splitting a path's text gives its components, so different paths have different texts |
| PayloadCensus.CensusIsConserved | src/lib/cache-compress.ts:381-506 | bytes and files are the sums over file entries and over subtree groups; manifest length is files plus symlinks; records are files, symlinks, directories and skips |
| PayloadCensus.DirectoriesHoldTheirFiles | src/lib/cache-compress.ts:435-450 | each directory's bytes are those of the archived files below it |
| PayloadCensus.SubtreesCountTheirFiles | src/lib/cache-compress.ts:381-387 | each subtree entry counts exactly the files whose group it is |
| PayloadCensus.ArtifactsKeepDiagnostics | src/lib/cache-compress.ts:206-236 | in an artifacts directory, in any letter case, only unsafe names, transient basenames and log directories are turned away, never a diagnostic suffix |
| PayloadCensus.LogsAreNeverArchived | src/lib/cache-compress.ts:206-216 | under a `zccache` root nothing below a `logs` component is archived, at any depth |
| PayloadClasses.PassesIff | src/lib/cache-compress.ts:194-236 | a path passes exactly when no component breaks a line, its name is not transient, its second component is not `logs`, and in the build-cache profile below `zccache` no component is and a diagnostic name is below an artifacts directory |
| PayloadClasses.ClassIff | src/lib/cache-compress.ts:194-204 | the class of a transient name, whatever the order of the tests: a pid mutex is a mutex and no pid file, a half-written archive an archive and no temporary file |
| PayloadClasses.RefusalIff | src/lib/cache-compress.ts:389-406 | the reason for which a path is turned away, read off its components |
| PayloadClasses.SkipIff | src/lib/cache-compress.ts:389-438 | a reached node is skipped under a reason exactly when its path is turned away for it, or passed and could not be looked at or is a special file of that kind |
| PayloadClasses.ArtifactIff | src/lib/cache-compress.ts:172-178 | a path is in an artifacts directory exactly below `zccache/artifacts` or `zccache/private/<session>/artifacts`, in any letter case |
| PayloadClasses.DiagnosticsStayBehind | src/lib/cache-compress.ts:225-232 | a diagnostic file of the store itself is refused, the same name below artifacts is not |
| PayloadClasses.ArchivedStaysInside | src/lib/cache-compress.ts:460-478 | what is archived lies below an input that is a single name other than `.` and `..` |
| PayloadClasses.DistinctIff | src/lib/cache-compress.ts:462-465 | the inputs are the trimmed names that are not blank |
| PayloadClasses.TrimCuts | src/lib/cache-compress.ts:463 | trimming cuts all white space at both ends and nothing else |
| PayloadCensus.SubtreeIsFront | src/lib/cache-compress.ts:238-253 | a group is the front of its files' paths: three components in a private zccache session, else two, and one for paths of at most two |
| PayloadCensus.SkipsCountByReason | src/lib/cache-compress.ts:280-298 | each reason's count is the number of nodes skipped for it, its samples the first eight of them in order |
| PayloadTops.PlanTarPayload | src/lib/cache-compress.ts:366-506 | the whole plan: totals, inputs, manifest, skips, and the first of the files, directories and groups by size |
| PayloadTops.TopsAreExact | src/lib/cache-compress.ts:454-506 | each list is in order and exact: what is in it has fewer than `topN` entries ahead, and what has no more than `topN` level or ahead is in it |
| PayloadTops.TopIff | src/lib/cache-compress.ts:185-188 | where no two entries are level, an entry is listed exactly when fewer than `topN` are ahead of it |
| PayloadTops.TopEntriesAreLargest | src/lib/cache-compress.ts:185-188 | the lists of files and directories are in descending order of bytes, then by collation, and nothing left out is larger than anything listed |
| PayloadTops.TopSubtreesAreLargest | src/lib/cache-compress.ts:489-493 | and the list of subtrees, with more files first among equal bytes |
| PayloadTops.NormalizeTopN | src/lib/cache-compress.ts:180-183 | a list length is at most 50, rounded down, never negative |
| SeedIsolated.SaveKeptIsSeedKept | src/lib/seed-isolated-cache.ts:50-64 | under a `zccache` root, whatever the save filters keep, the seed filter keeps |
| SeedIsolated.SeedKeptIsSaveRefusedIff | src/lib/seed-isolated-cache.ts:50-64 | the converse fails exactly for the cargo mutex names, archive suffixes and `.socket`: such a seed-kept path is refused by the save filters, and no other |
| SeedIsolated.SeedKeptIsNotArchivedIff | src/lib/seed-isolated-cache.ts:9-11 | a seed-kept file is left out of the archive exactly when the save walk stops at it or at a directory above: at a transient name, or a diagnostic one outside artifacts |
| SeedIsolated.SeededPathsAreClean | src/lib/seed-isolated-cache.ts:50-64 | no copied path has a `logs` component or a transient seed suffix |
| SeedIsolated.AgreementNeedsZccacheRoot | src/lib/seed-isolated-cache.ts:154-164 | for all paths of a root that agreement holds exactly when the root is spelled `zccache` or saves nothing |
| SeedIsolated.SeedsExactly | src/lib/seed-isolated-cache.ts:66-126 | copied are exactly the regular files that the filter keeps and whose copy does not fail |
| SeedIsolated.EverySavedFileIsSeeded | src/lib/seed-isolated-cache.ts:66-126 | for every tree, each regular file the build-cache profile archives is copied |
| SeedIsolated.TreeCopier.CopyTreeFiltered | src/lib/seed-isolated-cache.ts:71-125 | the recursive copy makes exactly the specified copies and its counters are their number and bytes |
| CookLayers.BaseKeysAreFoundations | src/lib/cache-eviction.ts:46 | policy eviction never deletes a base layer |
| CookLayers.MayUploadIff | src/lib/save-policy.ts:64-93 | a ref may upload unless the policy lets nothing upload, or scopes uploads to the default branch and the ref is another |
| CookLayers.AllowsUploadIff | src/lib/save-policy.ts:64-93 | on GitHub without a remote setting `auto` refuses exactly pull requests and refs known to be off the default branch; the other settings do not look at event and ref |
| CookKeys.BaseTextIdentifies | src/lib/cook-cache.ts:297-314 | base keys of dash-free fragments have one text exactly when their parts are the same |
| CookKeys.ShapePrefixIsExact | src/lib/cook-cache.ts:320-338 | a delta key starts with a shape's restore prefix exactly when it has those parts and that shape |
| CookKeys.DashesCollide | src/lib/cook-cache.ts:286-314 | fragments may hold dashes, and then two different sets of parts can have one key |
| CookSaves.LayersReadyIff | src/lib/cook-cache.ts:525-778 | from the lookups on: the base is ready exactly when its exact key matched a non-empty archive that loaded; the delta when besides its layer is on and any delta of the shape did |
| CookSaves.LookupsIff | src/lib/cook-cache.ts:525-616 | a match counts only with an archive that is not empty, a delta's only beside a base that counts and with its layer on; a hit is the exact key |
| CookSaves.SaveAddsIff | src/lib/cook-cache.ts:173-185 | a save adds an entry exactly when the cook exited 0 without a ready delta, policy and ref allow the upload, the target is there, a due delta is enabled and has its manifest, the slot is free and the archive was made: a base unless the exact base was loaded, else a delta over it |
| CookSaves.EntriesAreOfCookedRuns | src/lib/cook-cache.ts:999-1071 | over every interleaving of runs, evictions and deletions each stored entry was saved under its key in its scope by a run whose cook had exited 0 |
| CookSafety.RestoreBaseKeepsSafe | src/lib/cook-cache.ts:525-555 | a base lookup leaves a run with what its scope's store holds |
| CookSafety.RestoreDeltaKeepsSafe | src/lib/cook-cache.ts:525-585 | so does a delta lookup by exact, parent or shape prefix key |
| CookSafety.JoinKeepsSafe | src/lib/cook-cache.ts:587-616 | joining the two answers keeps that, a delta without a base discarded |
| CookSafety.LoadKeepsSafe | src/lib/cook-cache.ts:727-778 | loading, base first and the delta only over a loaded base, makes no false delta ready |
| CookSafety.SaveKeepsStore | src/lib/cook-cache.ts:999-1071 | a save adds nothing, or one entry under a free key of the run's own scope; every delta is then over the base stored in its scope, and base entries stay |
| CookSafety.NextKeepsSafe | src/lib/cook-cache.ts:557-1071 | any event keeps the system safe, unless it deletes a base something still builds on |
| CookSafety.EventsKeepSafe | src/lib/cook-cache.ts:557-1071 | so does every interleaving of runs, policy evictions and such deletions |
| CookSafety.StoredDeltasAreOverStoredBases | src/lib/cook-cache.ts:999-1071 | with one uploading ref in sight, every stored delta was built against the archive still stored under its base key in its scope |
| CookSafety.ReadyDeltaIsOverLoadedBase | src/lib/cook-cache.ts:150-164 | then a run with a ready delta loaded a delta over the very base it loaded |
| CookNecessity.SoundIffOneSource | src/lib/save-policy.ts:4-7 | while no base is deleted, every ready delta in every interleaving is over its run's base exactly when no ref can restore from two uploading refs |
| CookNecessity.OneUploaderIsSound | src/lib/save-policy.ts:86-93 | one uploading ref meets that condition |
| CookNecessity.PolicyIsSoundIff | src/lib/save-policy.ts:64-93 | with the uploading refs those that the save policy lets upload, every ready delta is true exactly when nothing uploads, or uploads are scoped to a known default branch, or no ref restores from two refs of the repository |
| CookNecessity.PullRequestScopeIsUnsound | src/lib/save-policy.ts:82 | with uploads from everywhere a pull request that saved its own base meets the default branch's delta |
| CookNecessity.DeletionIsSoundIff | src/post.ts:1501-1512 | deleting a base can lead to no false ready delta, whatever follows, exactly when no delta of it is stored and no unfinished run can still save or load one |
| CookNecessity.YankedBaseLeavesStaleDelta | src/post.ts:1501-1512 | runs from an empty store, then a base deletion, after which a run can report a ready delta over another base |
| GlobRegex.FnmatchToRegex | src/lib/normalize-source-mtime.ts:35-74 | the loop emits the specified text for every pattern, character classes included |
| GlobRegex.NextChunk | src/lib/normalize-source-mtime.ts:40-71 | one turn emits the specified text and takes the specified width |
| GlobRegex.TranslationParses | src/lib/normalize-source-mtime.ts:35-74 | read as a regex, the emitted text is one atom per glob element: nothing runs together and nothing is left special |
| GlobRegex.StarSpans | src/lib/normalize-source-mtime.ts:43-50 | a starred atom matches exactly a span of accepted characters, then the rest |
| GlobRegex.TranslationAcceptsDenoted | src/lib/normalize-source-mtime.ts:35-74 | for every class-free glob the regex accepts exactly the strings the glob denotes, a `**` span stopping at a line terminator |
| GlobRegex.TranslationMeansGlob | src/lib/normalize-source-mtime.ts:35-74 | over paths without line terminators, exactly what the glob denotes |
| SourceSelection.InnerComponentIsSubstring | src/lib/normalize-source-mtime.ts:82-84 | `/name/` occurs in `/path` exactly when some component before the last is `name` |
| SourceSelection.IsExcluded | src/lib/normalize-source-mtime.ts:76-87 | a path is excluded exactly when it is, or a component before its last is, an excluded name |
| SourceSelection.MatchesInclude | src/lib/normalize-source-mtime.ts:89-95 | true exactly when some include glob denotes the path or its basename |
| SourceSelection.IncludedExactly | src/lib/normalize-source-mtime.ts:16-27 | the globs select exactly: paths ending in `.rs`; basenames ending in, not only equal to, `Cargo.toml` or `Cargo.lock`; the two toolchain names |
| SourceSelection.ToPosix | src/lib/normalize-source-mtime.ts:97-106 | backslashes become slashes and everything else stays in place |
| SourceSelection.SelectCandidateFiles | src/lib/normalize-source-mtime.ts:97-106 | the loop returns the specified list |
| SourceSelection.CandidatesExactly | src/lib/normalize-source-mtime.ts:97-106 | a path is selected exactly when it is the POSIX form of a tracked path, not excluded and included |
| RunPipe.PipeRun.OnEvent | src/lib/run-pipe.ts:33-65 | each listener does the specified step |
| RunPipe.PipeRun.Drive | src/lib/run-pipe.ts:20-66 | handling a trace is the fold of the steps |
| RunPipe.SettlesAtMostOnce | src/lib/run-pipe.ts:21-26 | once settled, no later event changes the outcome |
| RunPipe.UnsettledIff | src/lib/run-pipe.ts:46-54 | unsettled exactly while no error other than a broken pipe came and some process is open |
| RunPipe.SettledOnceBothClosed | src/lib/run-pipe.ts:46-65 | settled whenever both processes have closed |
| RunPipe.ResolvesIff | src/lib/run-pipe.ts:48-54 | resolves exactly when both first exits were 0 by a point that no error other than EPIPE came before |
| RunPipe.ExitsDecide | src/lib/run-pipe.ts:46-65 | with only broken pipes as errors the two exits decide, the producer's first |
| RunPipe.OrderOfClosesIsImmaterial | src/lib/run-pipe.ts:46-65 | then the order of closes and everything between them is immaterial |
| RunPipe.ErrorFirstRejects | src/lib/run-pipe.ts:22-40 | an error before both have closed is the outcome |
| RunPipe.TransfersAreBounded | src/lib/run-pipe.ts:40-41 | however events and transfers interleave, there are finitely many transfers and the pipe holds at most its capacity |
| RunPipe.ProducerFinishesIff | src/lib/run-pipe.ts:33-41 | after the consumer has closed, in every interleaving of events and transfers, a running producer gets to write everything exactly when the broken pipe is reported or the rest fits in the pipe |
| RunPipe.ReadProducerFinishes | src/lib/run-pipe.ts:40-41 | while the pipe is read, by the consumer or by the drain, the producer writes everything |
| RunPipe.TransfersDoNotDecide | src/lib/run-pipe.ts:20-66 | bytes moving between the events do not change what the events decide |
| RunPipe.EarlyConsumerResolves | src/lib/run-pipe.ts:8-14 | a consumer that exits 0 without reading everything: the producer writes it all, exits 0 and the promise resolves |
| SourceMtime.SnapshotSourceMtimes | src/lib/source-mtime-snapshot.ts:103-126 | the loop records exactly the readable candidate files; hashed and skipped sum to the candidates |
| SourceMtime.Workspace.ReplayEntry | src/lib/source-mtime-snapshot.ts:158-194 | one entry: size, then hash, then the mtime, with the outcome counted |
| SourceMtime.OutcomeIff | src/lib/source-mtime-snapshot.ts:158-187 | missing without a regular file, size mismatch on another size, modified on other content or a file that cannot be read or set, else applied |
| SourceMtime.Workspace.ReplaySourceMtimes | src/lib/source-mtime-snapshot.ts:147-204 | the loop over the entries in their order leaves the specified world and counters, names of one file included; the counters sum to the total |
| SourceMtime.ReplaySetsLast | src/lib/source-mtime-snapshot.ts:158-187 | a file ends with the mtime of the last applied entry whose name reaches it |
| SourceMtime.OrderIsImmaterialIff | src/lib/source-mtime-snapshot.ts:147-204 | the order of the entries is immaterial exactly when no two applied names of one file set different mtimes |
| SourceMtime.CountersSumToTotal | src/lib/source-mtime-snapshot.ts:152-203 | the four outcomes partition the snapshot |
| SourceMtime.ReplayChangesOnlyMatchingMtimes | src/lib/source-mtime-snapshot.ts:158-187 | only an mtime ever changes, and only to what was recorded under a name of the file with the size and hash it has |
| SourceMtime.ReplayIsIdempotent | src/lib/source-mtime-snapshot.ts:147-204 | replaying twice in one order is replaying once |
| SourceMtime.ReplayRestores | src/lib/source-mtime-snapshot.ts:82-204 | on unchanged content, when names of one file were recorded alike, every file is set to its recorded whole milliseconds, in whatever order |
| SourceMtime.SnapshotSurvivesReplay | src/lib/source-mtime-snapshot.ts:82-204 | a snapshot taken after the replay is the first one exactly when setting each recorded mtime, as a double number of seconds, and reading it again keeps the millisecond |
| PostSave.CleanNeedsCleanSource | src/lib/yank-audit.ts:266-294 | the audit join is never undecided and is clean only on a source that is clean and names no crate |
| PostSave.FirstSpeakerDecides | src/lib/yank-audit.ts:266-294 | the first consulted source that is decided or names a crate decides: clean exactly when it says clean and names none |
| PostSave.RecheckDecides | src/lib/yank-audit.ts:266-294 | if none says anything the recheck does |
| PostSave.CacheService.SaveBuildCache | src/post.ts:442-562 | the save's own gates, and the entry an upload adds |
| PostSave.CacheService.PrintMarker | src/post.ts:1628-1641 | the marker is printed exactly under its four conditions |
| PostSave.CacheService.RunPost | src/post.ts:1390-1641 | one post step is the specified transition of the cache service |
| PostSave.RunKeepsInv | src/post.ts:1458-1641 | a job keeps: every entry is gated, every marker is of its key and, while its entry is stored, names the writer that saved it |
| PostSave.JobsKeepInv | src/post.ts:1458-1641 | so does every sequence of jobs and evictions: an entry comes from a job not reported failed (unless `save-on-failure`) that restored no file or had a clean audit, wherever main launches one |
| PostSave.StoresIff | src/post.ts:442-605 | a job adds its entry exactly when its save is due: usable state, clean audit if one was started, failed-job gate, layer on, enough compiled, policy, directory, a key other than the restored one, packing and upload |
| PostSave.EntriesWereDue | src/post.ts:442-605 | over every sequence of jobs and evictions each entry is of a job whose save was due |
| PostSave.SavedEntryIsProved | src/post.ts:1628-1641 | a due save under a key of the job's own writer prints the marker that proves it, and it stays whatever follows |
| PostSave.NeverSavesUnauditedIff | src/post.ts:1458-1605 | a job never saves unaudited, whatever else happens, exactly when no restore left files, or main finished with some layer's key handed to the audit, or the failed-job gate is shut |
| PostSave.AuditedKeyIff | src/main.ts:1751-1897 | the audit is handed a key exactly when the target, build, registry or plain cook archive was unpacked whole, or the exact layered base was loaded; a delta adds none of its own |
| PostSave.UnfinishedMainSavesUnaudited | src/main.ts:1893-1970 | a main step that stops between restore and audit lets an unaudited save through when no `job-status` is passed |
| PostSave.PartialUnpackSavesUnaudited | src/main.ts:799-822 | an archive that fails part way through unpacking counts as a miss, so no audit starts and the store is saved, `job-status` passed and all |
| PostSave.PrefixBaseSavesUnaudited | src/main.ts:1744-1756 | a cook base found by prefix is loaded and its key reported, yet handed to no audit, and the build cache is saved |
| PostSave.BrokenCookSavesUnaudited | src/lib/cook-cache.ts:507-512 | so is it after a plain cook archive that failed while unpacking and kept its key |
| PostSave.WiredStatusLeavesPartialRestores | src/lib/failed-job-save.ts:34-45 | with a stopped main reported as a failure and `save-on-failure` off, a job never saves unaudited exactly when nothing was left on disk, or some layer was restored whole, or the job failed |
| PostSave.HasCleanSaveProof | src/lib/ancestor-cache-github.ts:17-32 | the loop over the log finds a proof exactly when the writer is authorised and some line carries it |
| PostSave.ProvedDonorIsGated | src/lib/ancestor-cache-github.ts:17-32 | an entry proved by a printed marker has that key, was written by that very run and passed the gates |

## Left out

- AncestorSelect.SelectAncestorCache: an answered lookup answers as a fixed function of its arguments; which lookups are refused for time or requests is arbitrary. Timestamps compare through an integer rank in place of `localeCompare`.
- AncestorSelect.ChoiceIgnoresListingOrder: entries have distinct ids, as the cache service gives them.
- GitHistory.BoundedGitHistory.Distance: the text of `rev-list` is already split into commits; lines that are not object names count as a failed load.
- GithubDistance.AncestorLookup.CompareDistance: what the compare API answers is assumed to follow its documentation for an acyclic history.
- ExactDistance.ReadDistanceIsExactIff: commit dates are any integers and each distinct parent counts once; grafts, replace refs and the commit-graph file are not modelled.
- AncestorKey.ParseInvertsMake: numbers are exact integers; a run number beyond the safe integers, which `parseAncestorKey` rounds, is refused by the same range test.
- EvictionOrder.UndatedEntryHidesOrder: it holds for the insertion sort modelled here. Where undated entries make the comparator inconsistent, the order that `Array.prototype.sort` gives is up to the engine, and `Eviction.RankingIsLargestFirst` and what builds on it are then of this sort too.
- CanonicalJson.StringifyIdentifiesSame: a number is given by its decimal; that a double and its decimal determine each other is proved for integral doubles below 1e21 (`IntegerText.IntegerPrints`, `ShortestDigits.PrintsShortest`) and for others taken from ECMA-262. Values with `toJSON` are not modelled.
- PythonParity.ValueParityIff: Python values hold `None`, booleans, integers, strings, lists and dictionaries with string keys; Python floats, which print as their own kind, are not modelled.
- TarReader.ExtractTarBuffer: POSIX paths and raw bytes; UTF-8 decoding, Windows paths and symlinks already on disk are not modelled. The method stops where the loop first fails to move forward; what `extractTarBuffer` does from there is `TarReader.Loop`, turn by turn.
- PayloadCensus.ManifestExactly: directory entries come in the order the walk visits them, so `localeCompare` is not modelled; lower-casing is ASCII.
- PayloadTops.PlanTarPayload: `localeCompare` is any integer rank of texts; the order of the skip summaries by reason, the message texts and the archive step that consumes the manifest are not modelled.
- CookSafety.ReadyDeltaIsOverLoadedBase: keys are records of their cleaned fields, which `CookKeys` relates to their text; the hashing that fills them, the two-phase cache reservation and eviction of base entries by GitHub itself are not modelled. A lookup takes the nearest scope that answers at all, which stands for the service's own order of scopes.
- GlobRegex.TranslationAcceptsDenoted: character classes are passed through as text and given no meaning; strings are sequences of characters without surrogate halves.
- SourceMtime.ReplayRestores: what an mtime reads back as, after the division by 1000 to a double, the system call and the file system's rounding, is one arbitrary function of the milliseconds set. The hash is any function, so equal hashes stand for equal content only as far as it does.
- SourceMtime.Workspace.ReplaySourceMtimes: symlinks do not change while a replay runs.
- RunPipe.ResolvesIff: each process closes as its first close event says; a second error event of one process, which Node raises as unhandled, is not modelled.
- RunPipe.ProducerFinishesIff: the pipe is one bounded buffer, and the consumer takes whatever it holds until it closes.
- PostSave.JobsKeepInv: of the target, registry and cook layers only the restores are modelled, and the toolchain and Dylint caches, which hand no key to the audit, not at all; the verdict ledger, the deletion that follows a yank and the sources of the audit are not modelled.
- PostSave.ProvedDonorIsGated: the log of an authorised writer is assumed to hold only markers that the post step printed; the run, job and timestamp checks around the log (src/lib/ancestor-cache-github.ts:137-170) are not modelled.
- `deleteCacheEntriesByKeys`, the REST calls and the encryption of archives are foreign calls.
- Input parsing, version comparison, shims and linker detection would only add easy members.
- Log and summary rendering are presentation.
