# UniMPI: a verified model of its array adapters, its lifecycle and its version gate

UniMPI is a C facade that binds one MPI library at run time. Most of it is tables of bound
symbols; three parts carry real invariants, and this project models those three and proves them.

**Array adapters** (`HandleWords`, `HandleAdapters`, `TypeArrayPairs`, `TypeContents`,
`StatusAdapters`, `CartesianGrid`, `NeighborDegree`). The facade's handles are 8 bytes, those of
the MPICH family 4. The wrappers squeeze a handle array into 4-byte words inside the caller's own
buffer, make the native call, and widen the answers in place; status records are spread from 20 to
24 bytes in place. Memory is one array of 32-bit words (or bytes) of any length, handle arrays are
base slots and lengths in it, so two arrays may be disjoint, overlap, or be the same. One model
covers the MPICH, Intel MPI and MS-MPI copies. A 64-bit little-endian target is assumed, as the
source's comments do. The record copy at line 70 has overlapping operands for records 1 to 4; it is
given `memmove` semantics, and `AscendingCopyCorrectIff` shows why that is needed.

**Lifecycle** (`Loader`, `LifecycleSpec`, `Lifecycle`, `LifecycleTheorems`, `LifecycleRuns`,
`LifecycleHistory`, `LibraryChoice`, `LifecycleExamples`). MPI and MPI-T share one loaded library, a reference count, a seven-state
machine and two dispatch tables. `Lifecycle.UniMpi` is a class with the source's globals as fields;
each method is proved to take exactly the step `LifecycleSpec` gives it, and the theorems speak
about every sequence of steps, for every host, library and native result. A library is a generation
number; every bound slot carries the generation it came from. A call through a null slot, or a slot
of a library that was unloaded, ends the process (`Crashed`). The fields `open`, `nextLib`,
`doubleClose`, `toolDepth` and `crashed` are the model's own, for stating properties.

**Version gate** (`Preprocessor`, `FieldScanner`, `VersionGate`, `VersionGateTheorems`,
`RegistryTheorems`, `GateFailures`). The gate checks `#if` guards with a clamped counter and a nearest-line search.
A file is a sequence of line tags, and the reference is the preprocessor's stack of conditionals.

## What the proofs found

- Passing one datatype array as both arguments of `alltoallw`, as `examples/collective.c` does, is
  seen right by the native call only if the types happen to repeat, and afterwards every second
  entry of the caller's array holds 0 or -1 (`SameArrayRestore`, `EqualTypesPassedTwice`). The exact
  condition on where two arrays may lie is `FaithfulIffSafePlacement`.
- On a border or a 1-wide dimension of a Cartesian grid the computed degree is below the two types
  per dimension of section 7.6 of MPI-3.1; a native call that reads that many misreads some contents
  there, and only there (`TwoTypesPerDimensionRightIff`).
- The nonblocking wrappers restore the type arrays as soon as the call returns. A backend that reads
  them only then finds every second word to be a sign, and the right types only if they repeat in that
  pattern (`LaterReadWord`, `LaterReadRightIff`).
- `type_get_contents` widens the caller's whole capacity, so slots past the returned handles are
  overwritten (`UnreturnedSlotKeptIff`).
- `docs/design.md` says a failed initialization can be retried. That holds (`InitRetriesAnyNumber`)
  unless MPI-T holds the library: the failure clears the main table while the library stays loaded,
  and the retry calls through a null slot (`MpiCallCrashesIff`, `RetryUnderToolsCrashes`).
- An MPI-T init that reports failure keeps its reference unless loading is what failed
  (`FailedToolInitKeepsReferenceIff`, `FailedToolInitKeepsLibrary`), so finalizing once for every
  success closes the library iff no native init failed (`LibraryClosedIffNoToolInitFailed`).
- `unimpi_init_with` while a library is loaded leaks it (`InitWithLeaksLibrary`), and an unmatched
  MPI-T finalize unloads the library under an active MPI (`UnmatchedToolFinalizeUnloadsActiveMpi`).
- A load that fails for want of Open MPI's handles leaves the main table naming the library just
  closed; no slot is live, and the next load binds it again (`FailedLoadTables`).
- The platform check is handed a backend name instead of a path, so its ABI test never fires
  (`BindGuarantee`).
- The gate accepts a cluster that follows an already closed guard (`StaleGuardIsAccepted`), or stands
  in the `#else` branch of its own (`ElseBranchIsAccepted`). Its span is guarded exactly when an `#if`
  for the version, at or above the nearest one, is open to the end of the span (`SpanGuardedIff`).
- The gate takes any guarded line that mentions a member for the member (`GuardedMentionSuffices`).
  For a member declared by name, comments mislead it exactly when some comment may name a cluster of
  the member's name, the row's own included (`AgreementIffNotAClusterName`). `comm_idup` is such a
  member; where its one text line is in the span, as at lines 717-720 of `include/unimpi_vtable.h`,
  acceptance does speak of the field (`ScannersAgree`).
- The scanner strips and lowercases the names of `extern` values (lines 68-79 and 174 of that header),
  so their lines declare fields they do not spell. Such a declaration of a member is the only thing
  that can still mislead the gate when the member's one text line is in the span (`MemberPresentIff`),
  and it does (`UnmentionedFieldMisleads`); declarations of other fields do no harm.
- `docs/API.md` (line 609) says every `MPI_T_*` wrapper ensures the library is loaded; only the init
  does. An MPI-T finalize while no library is loaded ends the process (`CallCrashesIff`).

## Model

| member | source | states |
|---|---|---|
| HandleAdapters.CompressInPlace | src/backends/mpich_wrappers.c:50-56 | the forward scan never reads a word it has overwritten: word i of the array ends as the original low word of slot i, and no other word changes |
| HandleAdapters.ExpandInPlace | src/backends/mpich_wrappers.c:60-66 | the in-place backward scan is the fold of sign-extending stores from the last entry down |
| HandleAdapters.ExpandedWords | src/backends/mpich_wrappers.c:60-66 | that fold gives every slot the sign extension of the word originally packed for it, although the slots overlap the packed words |
| HandleAdapters.NativeSeesLowWords | src/backends/mpich_wrappers.c:44-56 | after compressing, the native call's view is exactly the sequence of low words, for arbitrary high words |
| HandleAdapters.WrapHandles | src/backends/mpich_wrappers.c:95-101 | for every native call, the result and the final memory are those of the simple form: call on the low words, then store each answer sign-extended in its own slot |
| HandleAdapters.WithHandlesMeaning | src/backends/mpich_wrappers.c:148-153 | in the simple form slot i holds answer i for every i below the count, and every word outside the array is unchanged |
| HandleAdapters.RoundTripProjects | src/backends/mpich_wrappers.c:157-170 | compress then restore maps each handle to the sign extension of its low 32 bits and touches nothing else |
| HandleAdapters.RoundTripIdempotent | src/backends/mpich_wrappers.c:157-170 | a second round trip changes nothing |
| HandleAdapters.RoundTripIdentityIff | src/backends/mpich_wrappers.c:157-170 | the round trip is the identity exactly on arrays whose handles all fit in a signed 32-bit int |
| HandleAdapters.LaterReadWord | src/backends/mpich_wrappers.c:190-206 | a read of word i after the restore gives the low word of handle i/2 when i is even, and its sign when i is odd |
| HandleAdapters.LaterReadRightIff | src/backends/mpich_wrappers.c:387-419 | a nonblocking call that reads the types only after the restore sees them right exactly when they repeat in that pattern |
| TypeArrayPairs.WrapTypePair | src/backends/mpich_wrappers.c:174-188 | what the native call is given and what memory becomes, for two arrays placed anywhere in one memory |
| TypeArrayPairs.DisjointViews | src/backends/mpich_wrappers.c:179-184 | if the arrays do not overlap, the native call sees exactly the low words of both |
| TypeArrayPairs.DisjointRestore | src/backends/mpich_wrappers.c:185-186 | if the arrays do not overlap, the interleaved scans amount to an independent round trip of each |
| TypeArrayPairs.LaterReadsOfPair | src/backends/mpich_wrappers.c:190-206 | after the wrapper returned, each of two disjoint arrays reads as after its own round trip |
| TypeArrayPairs.DisjointIsFaithful | src/backends/mpich_wrappers.c:174-188 | disjoint arrays of canonical handles are seen right and end unchanged |
| TypeArrayPairs.SameArrayView | src/backends/mpich_wrappers.c:180-184 | with one array passed twice, entry i of the view is the low word of handle 2i while 2i < n, and of handle i afterwards |
| TypeArrayPairs.SameArraySeenRightIff | src/backends/mpich_wrappers.c:180-184 | that view is right iff handle 2i and handle i have the same low word throughout the first half |
| TypeArrayPairs.SameArrayRestore | src/backends/mpich_wrappers.c:185-186 | with one array passed twice, even entries come back and every odd entry becomes 0 or -1, the sign of its left neighbour |
| TypeArrayPairs.SameArrayUnchangedIff | src/backends/mpich_wrappers.c:185-186 | a canonical array passed twice is unchanged iff each odd entry already was the sign of its left neighbour |
| TypeArrayPairs.EqualTypesPassedTwice | examples/collective.c:194-197 | an array of equal types passed twice is seen right but loses every second entry |
| TypeArrayPairs.ReceiveInsideSendLosesHandle | src/backends/mpich_wrappers.c:185-186 | if the receive array starts inside the send array, its second handle ends 0 or -1 whatever memory held |
| TypeArrayPairs.UnsafePlacementFails | src/backends/mpich_wrappers.c:174-188 | for every placement outside the safe ones there is a canonical content that is misread or lost |
| TypeArrayPairs.FaithfulIffSafePlacement | src/backends/mpich_wrappers.c:174-188 | the exact placements of two arrays, of any lengths, for which every canonical content is seen right and left unchanged |
| TypeContents.WrapTypeGetContents | src/backends/mpich_wrappers.c:226-241 | final memory for every native reply: widened over the declared capacity on success, left packed on failure |
| TypeContents.ReturnedHandles | src/backends/mpich_wrappers.c:232-239 | on success the caller's first slots are exactly the handles returned |
| TypeContents.OutsideCapacityKept | src/backends/mpich_wrappers.c:236-240 | success or not, no word outside the declared capacity changes |
| TypeContents.FailedCallRestoresNothing | src/backends/mpich_wrappers.c:234-240 | on failure only the words the native call wrote differ |
| TypeContents.UnreturnedSlotKeptIff | src/backends/mpich_wrappers.c:237-239 | a slot past the returned handles becomes the sign extension of the word at its packed position; it is kept iff its handle fits and already had that low word |
| StatusAdapters.SpreadInPlace | src/backends/mpich_wrappers.c:68-74 | the backward scan is the fold of record moves from the last record down |
| StatusAdapters.SpreadMeaning | src/backends/mpich_wrappers.c:68-74 | slot j holds native record j for every j below the count; padding bytes and bytes past the slots are unchanged; a count of zero or less changes nothing |
| StatusAdapters.StatusLayout | include/unimpi_vtable.h:95-101 | source, tag and error are read back from the bytes in which the legacy layout stores them, for all values |
| StatusAdapters.SpreadStatuses | src/backends/mpich.c:15-26 | source, tag and error read from facade slot j are those of native record j |
| StatusAdapters.AscendingCopyCorrectIff | src/backends/mpich_wrappers.c:70-72 | an ascending byte copy would move record i correctly for every content exactly when i is 0 or at least 5 |
| StatusAdapters.WrapCompletion | src/backends/mpich_wrappers.c:84-93 | waitall and testall (and, with `some`, testsome and waitsome at lines 103-114 and 135-146): results, handles and statuses for every native call, with absent and ignored status arrays untouched |
| StatusAdapters.StatusesAfterMeaning | src/backends/mpich_wrappers.c:135-146 | each spread status is the native one; an `outcount` of zero or less leaves the native bytes as written; bytes past the records and slots are kept |
| CartesianGrid.CountCartNeighbors | src/backends/mpich_wrappers.c:300-308 | the accumulated degree is the sum of the per-dimension counts |
| CartesianGrid.DegreeCountsHalfEdges | src/backends/mpich_wrappers.c:272-308 | the computed degree is the number of (dimension, direction) pairs that lead to a neighbour in the grid graph |
| CartesianGrid.HalfEdgePairs | src/backends/mpich_wrappers.c:273-275 | each counted step leads to a different grid point whose opposite step is counted and leads back |
| CartesianGrid.ArrivalsLeadHere | src/backends/mpich_wrappers.c:273-275 | the arrivals of a point are exactly the counted steps of grid points that end there |
| CartesianGrid.InEqualsOut | src/backends/mpich_wrappers.c:309-310 | as many counted steps arrive at a grid point as leave it, so one degree serves as indegree and outdegree |
| CartesianGrid.DegreeBounds | src/backends/mpich_wrappers.c:299-308 | the degree is at most 2*ndims, with equality iff every dimension is wider than 1 and periodic or interior |
| CartesianGrid.HandshakeTheorem | src/backends/mpich_wrappers.c:272-311 | summed over all grid points the degree is the sum over dimensions of the product of the others times the half-edges of one line |
| NeighborDegree.NeighborDegree | src/backends/mpich_wrappers.c:263-351 | code and degrees for every combination of null slots, error codes, allocation failure and answers |
| NeighborDegree.DegreesCountNeighbors | src/backends/mpich_wrappers.c:263-351 | for every kind of topology, a query that succeeds answers with exactly the number of neighbours the process receives from and sends to: arrivals and departures on the grid, the index step of a graph, the sources and destinations of a dist graph |
| NeighborDegree.QueryCodeIsFirstRefusal | src/backends/mpich_wrappers.c:263-351 | the code is that of the first missing slot, failed call or allocation failure, and both degrees are then zero |
| NeighborDegree.NeighborTypesSeen | src/backends/mpich_wrappers.c:353-368 | with disjoint arrays the native neighbour call sees one type for every neighbour sent to and one for every neighbour received from, and canonical arrays end unchanged |
| NeighborDegree.GraphDegreesTelescope | src/backends/mpich_wrappers.c:316-336 | the graph degrees of the first k nodes add up to the index entry k-1 |
| NeighborDegree.GraphDegreesNonNegativeIff | src/backends/mpich_wrappers.c:334-334 | no graph degree is negative iff the index starts at or above zero and never decreases |
| NeighborDegree.WrapNeighborTypes | src/backends/mpich_wrappers.c:353-368 | a refused degree query returns its code and touches no memory; otherwise the arrays are adapted with the queried lengths |
| NeighborDegree.AllTypesRightIff | src/backends/mpich_wrappers.c:360-364 | for a native call that reads `wanted` types, every canonical content is seen right iff at least that many were compressed or it reads at most one |
| NeighborDegree.TwoTypesPerDimensionRightIff | src/backends/mpich_wrappers.c:272-311 | with two types per dimension, all are seen right iff the process is interior or periodic in every dimension |
| Loader.BackendNamesAreNotAbi | src/loader.c:50-67 | no backend name of the table is taken for a standard-ABI library |
| Loader.NamesStandardAbiIff | src/loader.c:50-67 | a path is rejected as standard ABI iff one of the two marks occurs in its first 255 characters, in any case |
| Loader.IdentifyIff | src/loader.c:173-219 | which symbols decide for each backend, and which earlier ones rule it out |
| Loader.BindableBackends | src/loader.c:14-33 | the pairs of platform and backend for which binding can succeed at all |
| Loader.BindGuarantee | src/vtable.c:93-143 | binding succeeds iff the four core symbols are exported and the identified backend belongs to the platform (and Open MPI yields its handles); the default branch and the ABI error are never reached; which check each failure code stands for |
| Lifecycle.UniMpi.FindFallback | src/loader.c:140-156 | the table search finds the fallback name of a library that cannot be opened, if it has one |
| Lifecycle.UniMpi.LoaderLoad | src/loader.c:119-167 | one library is opened behind the handle, or none and the handle is cleared, with the code of the first failing check |
| Lifecycle.UniMpi.VtableInit | src/vtable.c:93-143 | which tables are cleared, filled or left for each outcome of the checks |
| Lifecycle.UniMpi.VtableCleanup | src/vtable.c:146-153 | the main table is cleared and the tool table is not |
| Lifecycle.UniMpi.EnsureLoaded | src/core.c:138-170 | exactly the loading step of the specification, whatever the host offers |
| Lifecycle.UniMpi.InitializeBackend | src/core.c:173-222 | load, reference, native call, and release of the reference on failure |
| Lifecycle.UniMpi.Init | src/core.c:224-236 | exactly the specified step and observation |
| Lifecycle.UniMpi.InitThread | src/core.c:238-262 | exactly the specified step, argument errors first |
| Lifecycle.UniMpi.InitWith | src/core.c:264-331 | exactly the specified step, which loads without asking whether a library is loaded |
| Lifecycle.UniMpi.Finalize | src/core.c:333-376 | exactly the specified step; the reference is released whatever the native finalize returns |
| Lifecycle.UniMpi.Release | src/core.c:454-462 | the reference is given up, and the last one closes the library |
| Lifecycle.UniMpi.ToolInit | src/mpit.c:18-24 | exactly the specified step; the reference is taken before the native call |
| Lifecycle.UniMpi.ToolFinalize | src/mpit.c:26-31 | exactly the specified step |
| LifecycleTheorems.LoadFails | src/core.c:152-164 | a failed load leaves the same libraries open and no handle, and touches neither references nor identity |
| LifecycleTheorems.EnsureLoadedAllOrNothing | src/core.c:138-170 | from an unloaded state, failure leaves open libraries, handle and flag as they were; success opens one library with the core symbols, of a backend of this platform |
| LibraryChoice.LoadingCallRefusedIff | src/core.c:138-170 | a call that loads is refused with the code of the first failing check, without a native call and with no library left behind, or it goes on to its native call; only an MPI-T init can still meet a null slot |
| LibraryChoice.LoadingCallRecords | src/core.c:279-301 | a successful call has in use the library it asked for: the table entry of the backend name, or the name as a path; for the other inits UNIMPI_LIBRARY, then UNIMPI_BACKEND, then the platform default; every slot is bound iff the library has the symbol |
| LibraryChoice.FailedLoadTables | src/vtable.c:93-143 | what each failed load leaves in the two tables |
| LibraryChoice.LibraryInUseIsOnRecord | src/core.c:65-106 | in every well-used run, while the main table is bound, path, name, kind and every slot are those of the library some earlier call asked for and opened |
| LifecycleTheorems.MpiReleaseShares | src/core.c:353-366 | giving back MPI's reference keeps one library shared, or closes it when tools hold none |
| LifecycleTheorems.CallKeepsInvIff | src/core.c:138-376 | a call keeps the shared-library invariant exactly when it is well used: `init_with` only while nothing is loaded, MPI-T finalizes only after inits |
| LifecycleRuns.RunKeepsInvIff | src/core.c:35-52 | in every run, refcount = (1 if active) + MPI-T depth, loaded iff handle iff refcount > 0, only the handle's library is open and none was closed twice, throughout iff every call so far was well used |
| LifecycleRuns.LastClientCloses | src/core.c:356-364 | the open library is let go exactly when the last reference is, and stays the same while references remain |
| LifecycleRuns.ToolsSurviveMpi | src/core.c:35-40 | while an MPI-T init is unmatched, no interleaving of MPI calls closes the library or changes a slot of the tool table |
| LifecycleRuns.CallCrashesIff | src/mpit.c:14-31 | which calls, well used or not, run into a null or unloaded slot: an MPI-T finalize does whenever no library is loaded, an MPI-T init only if the library lacks the symbol, an MPI call only as a retry on a cleared table |
| LifecycleRuns.CallPoisonsIff | src/core.c:202-213 | the main table is cleared under a loaded library, with init still allowed, exactly after a native init failed under tools |
| LifecycleRuns.MpiCallCrashesIff | src/core.c:192-213 | after every well-used run, an MPI call crashes iff it is an accepted init and an earlier native init failed under tools with the library loaded ever since |
| LifecycleRuns.MpiCallsAreLive | src/core.c:192-200 | if no native init fails under tools, every MPI call goes through non-null slots of the open library |
| LifecycleRuns.InitAndFinalizeOnce | src/core.c:108-129 | in every run at most one init of any kind returns OK, at most one native finalize happens, and after it |
| LifecycleRuns.FlagsNeverGoBack | src/core.c:378-396 | the initialized and finalized flags never return to false, and finalized implies initialized |
| LifecycleHistory.StateIsHistory | src/core.c:108-129 | in every run the state is a function of which inits were attempted, which returned OK and what the native finalize returned |
| LifecycleHistory.FlagsAreHistory | src/core.c:378-396 | the initialized flag is set iff some init returned OK, the finalized flag iff some native finalize returned 0 |
| LifecycleHistory.NativeResultReachesCaller | src/core.c:369-375 | the caller gets exactly the result of native finalize and of the MPI-T functions, and OK or one error code from init |
| LifecycleHistory.InitRefusals | src/core.c:108-129 | each refusal code of an init call, by its arguments and by what happened before it; a refused call changes nothing |
| LifecycleHistory.FinalizeRefusals | src/core.c:333-349 | each refusal code of finalize, by what happened before it; otherwise the native finalize is called |
| LifecycleHistory.LevelIsGranted | src/core.c:192-220 | while MPI is active the thread level is what its init was granted, the provided level only through a library with MPI_Init_thread; otherwise it is single |
| LifecycleHistory.InitFunctionIff | src/core.c:192-200 | an init goes through MPI_Init_thread exactly when the caller asked for a level and the library has that function |
| LifecycleHistory.ToolFlagIsHistory | src/core.c:441-447 | the MPI-T flag is set iff some MPI-T init reached its native call with no MPI-T finalize after it |
| LifecycleHistory.NativeCallClears | src/core.c:202-213 | a native finalize, and a failed native init, leave the main table cleared and the backend unnamed |
| LifecycleRuns.DepthCounts | src/mpit.c:18-31 | the MPI-T depth is the inits that reached the native call minus the finalizes |
| LifecycleRuns.FailedToolInitKeepsReferenceIff | src/mpit.c:18-24 | an MPI-T init that reports failure leaves refcount and depth as they were if the library could not be loaded, and one higher if it could |
| LifecycleRuns.LibraryClosedIffNoToolInitFailed | src/mpit.c:18-31 | with one finalize per successful MPI-T init and MPI not active, the library is closed iff no MPI-T init reported failure |
| LifecycleExamples.InitRetriesAnyNumber | src/core.c:116-118 | after any number of failed inits one more may succeed |
| LifecycleExamples.FailureUnderToolsPoisons | src/core.c:202-213 | from any state in which tools hold the library, a failed native init makes the next init crash |
| LifecycleExamples.RetryUnderToolsCrashes | src/core.c:202-213 | a concrete well-used run that ends in that crash |
| LifecycleExamples.InitWithLeaksLibrary | src/core.c:294-330 | a run after which every client has left and a library is still open |
| LifecycleExamples.FailedToolInitKeepsLibrary | src/mpit.c:18-24 | a one-call run in which an MPI-T init reports failure and the library stays open with one reference |
| LifecycleExamples.UnmatchedToolFinalizeUnloadsActiveMpi | src/mpit.c:26-31 | a run in which an unmatched MPI-T finalize closes the library of an active MPI |
| Preprocessor.NestingIsHeight | tools/mpi_version_gate.py:345-352 | in any file whatever, a clamped counter over all conditionals is the height of the conditional stack |
| Preprocessor.GuardedIffOpen | tools/mpi_version_gate.py:229-284 | a line is guarded iff some `#if` for the version above it is still open, where open is said by that counter and not by the stack |
| FieldScanner.ExtractAlwaysPresentFields | tools/mpi_version_gate.py:329-365 | the loop returns the fields declared at counter zero |
| FieldScanner.UnguardedFieldsAreFound | tools/mpi_version_gate.py:329-365 | in any file whatever, no field outside all version guards is missed |
| FieldScanner.CounterRightIff | tools/mpi_version_gate.py:345-354 | on a well-nested file the clamped counter equals the number of enclosing version guards at every line iff version guards contain only version guards |
| FieldScanner.AlwaysPresentIffInEverySurface | tools/mpi_version_gate.py:330-334 | then, without `#else` and with every guard above the oldest version that can be built, the scanner returns exactly the fields of the oldest surface, which are the fields of every surface from it on |
| FieldScanner.ForeignInsideGuardMisleads | tools/mpi_version_gate.py:350-352 | for every field and version, another conditional inside a guard makes the scanner return a field that older targets lack |
| VersionGate.Gate.CheckClusterVersions | tools/mpi_version_gate.py:181-199 | exactly the failures of rule (a), in order, for every table |
| VersionGate.Gate.CheckCoverage | tools/mpi_version_gate.py:202-210 | exactly the failures of rule (b), in order |
| VersionGate.Gate.CheckGuard | tools/mpi_version_gate.py:243-284 | exactly the failures of one row, and the exception for a cluster missing from the registry |
| VersionGate.Gate.CheckGuards | tools/mpi_version_gate.py:229-284 | exactly the failures of rule (c) over all rows |
| VersionGate.Gate.RunCheck | tools/mpi_version_gate.py:505-519 | all failures accumulated, and how the command ends |
| VersionGateTheorems.IsSpanIff | tools/mpi_version_gate.py:243-261 | the three searches find the first comment, the nearest guard above and the nearest `#endif` below, and nothing else |
| VersionGateTheorems.AcceptedIff | tools/mpi_version_gate.py:243-284 | a row is accepted iff such a span exists and every member is mentioned strictly inside it |
| VersionGateTheorems.SpanGuardedIff | tools/mpi_version_gate.py:250-261 | for every span found, all of it is guarded by the declared version iff an `#if` for that version, at or above the chosen one, is open and not in its `#else` at the last line of the span |
| VersionGateTheorems.NoEndifKeepsGuardOpen | tools/mpi_version_gate.py:250-261 | which is so when no `#endif` lies between the chosen `#if` and the comment, and no `#else` of that `#if` in the span |
| VersionGateTheorems.AcceptedMembersAreGuarded | tools/mpi_version_gate.py:274-284 | then every member of an accepted cluster has an occurrence whose conditional stack contains the matching guard |
| VersionGateTheorems.MemberPresentIff | tools/mpi_version_gate.py:354-364 | in a file whose guards hold only guards, a member that one text line mentions, inside a faithful span, is called always present iff an unguarded line declares it without spelling its name |
| VersionGateTheorems.ScannersAgree | tools/mpi_version_gate.py:329-365 | then no member is among the fields the scanner calls always present, if it is declared by name, one text line mentions it, and either that line is in the span or no comment of the span has its name; other fields may be declared anyhow |
| VersionGateTheorems.AgreementIffNotAClusterName | tools/mpi_version_gate.py:219-284 | over all files and registries, a soundly accepted member, declared by name and mentioned by one text line, is never called always present exactly when it has the name of no cluster that comments may name, the row's own included |
| VersionGateTheorems.UnmentionedFieldMisleads | tools/mpi_version_gate.py:359-364 | for every row, version and member not named like its cluster, a soundly accepted file whose comments name only the row's cluster calls the member always present, because its declaration does not spell its name |
| VersionGateTheorems.CheckRowsPassIff | tools/mpi_version_gate.py:229-284 | the guard rule passes iff every row names an existing file that accepts it |
| VersionGateTheorems.PassingGateAgreesWithScanner | tools/mpi_version_gate.py:229-365 | the agreement for every row of a passing check |
| VersionGateTheorems.StaleGuardIsAccepted | tools/mpi_version_gate.py:250-255 | for all names and versions, a file is accepted whose cluster follows a closed guard and is unguarded |
| VersionGateTheorems.ElseBranchIsAccepted | tools/mpi_version_gate.py:250-261 | for all names and versions, a file is accepted whose field is compiled exactly for targets older than the declared version |
| VersionGateTheorems.GuardedMentionSuffices | tools/mpi_version_gate.py:219-226 | for all names and versions, any guarded line that mentions a member, a comment included, makes a file with an unguarded field of that name accepted |
| RegistryTheorems.MaxVersionIff | tools/mpi_version_gate.py:187-195 | the running maximum is the one lexicographically greatest among 0.0 and the member versions |
| RegistryTheorems.NoOwnerFailuresIff | tools/mpi_version_gate.py:204-210 | no ownership failure iff exactly one cluster lists the entity |
| RegistryTheorems.CheckPassesIff | tools/mpi_version_gate.py:181-210 | with every cluster listed, the data check passes iff the clusters partition the entities and every row declares the greatest version of its members |
| GateFailures.VersionFailureIff | tools/mpi_version_gate.py:181-199 | rule (a) reports exactly the unknown clusters, members without entry and wrong versions of the rows, each with its right contents |
| GateFailures.CoverageFailureIff | tools/mpi_version_gate.py:202-210 | rule (b) reports exactly the entities with no owner, and those with several together with all their owners |
| GateFailures.RowFailureIff | tools/mpi_version_gate.py:243-284 | checking a row reports exactly its defects: no comment, no guard above, no `#endif` below, a member nowhere or only outside the span with the line of its first mention; it raises iff a span is found for an unknown cluster |
| GateFailures.GuardFailureIff | tools/mpi_version_gate.py:229-284 | rule (c) reports exactly the defects of the rows up to the first that raises |
| GateFailures.ReportsGrow | tools/mpi_version_gate.py:181-284 | each rule reports in the order of its table |
| RegistryTheorems.CheckMpi3Iff | tools/mpi_version_gate.py:419-451 | for all tables: the roster check passes iff the roster is not empty, all of it are fields and every member of a cluster is in it; a failure carries exactly the missing and the stray names |
| RegistryTheorems.RosterAfterCheck | tools/mpi_version_gate.py:405-451 | on such tables with versions 3.0 and 3.1 the gated members are the roster, and the roster check passes iff it is not empty and every entity is a field |

## Left out

- Symbol assignment lists and constants of the four backends: straight-line tables; a slot is modelled by presence and generation, and only for the functions core.c and mpit.c call.
- `dlopen`, `dlsym`, environment variables and native results: parameters of each call.
- Message output, diagnostics, allocated identity strings, `unimpi_std_macros.h`, error tables, version strings.
- Threads: the lifecycle functions are single-threaded by their own comment (src/core.c:134-137).
- What a native MPI function does inside the backend: an arbitrary function of the words or bytes it is given; for the type-array wrappers it only reads, during the call (what a later read finds is `LaterReadWord`), for the completion wrappers it stays inside the arrays and completes at most as many requests as it was given.
- Intercommunicators and MPI_IN_PLACE in the alltoallw wrappers: real arrays are assumed, and the lengths that `comm_size` or the degree query answers.
- The C `int` product `i * 24` in the status scan: it overflows for counts above 89478485; the model's integers do not.
- `MPI_ERR_TOPOLOGY` and `MPI_ERR_NO_MEM` are variables that each backend fills (include/unimpi_errors.h:21 and 49); the model fixes them at 10 and 34 and relies only on neither being `MPI_SUCCESS`.
- A dist-graph query that fails is taken to leave the degrees as the callers initialised them; the callers only use the code then.
- Regular expressions, file reading and CSV parsing of the Python tool: the model starts from tagged lines and parsed rows; a `#` separated from `if` or `endif` by spaces is not distinguished, and a directive line mentions nothing, although the tool also finds a name in the comment after an `#endif`. The `end <= start` branch of `check_guards` is unreachable (`GuardSearchBounds`) and has no counterpart.
- The base-list comparison and the printed statistics of the tool: set intersections and output.
- `aint_add`, `aint_diff`, benchmarks, examples and the surface counter.
