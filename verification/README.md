# WinTraceX core, modelled in Dafny

WinTraceX is a Windows API tracer. A viewer application injects an agent DLL
into a target process. The agent hooks DirectDraw COM methods and reports
calls and DLL loads as events. The viewer filters, sorts and aggregates those
events. This project models the logic of both halves that does not depend on
the operating system, and proves properties of it.

**Injector** (`Injector`, `PeExport`, `PeSample`)
- Choosing the target's machine type from the `IsWow64Process2` and
  `IsWow64Process` answers.
- The order in which agent-DLL locations are tried.
- The bounded, retrying module search over Toolhelp snapshots.
- Resolving `LoadLibraryW` in a remote `kernel32.dll`: module base plus an
  export RVA.
- The export-table parser: bounds-checked readers, header checks, RVA to file
  offset mapping, and the name scan.
- A synthetic one-export PE image on which the parser is run symbolically.
- The remote-load sequence, including the rule that the remote buffer is freed
  on every exit after it was allocated.

**Agent** (`HookRegistry`, `HookEngine`, `MemoryGuards`, `UsageStub`, `AgentEvents`)
- The write-once two-slot hook registry: a primary slot and an alternate slot
  per COM operation, plus the single QueryInterface slot.
- The object, surface and interface-probe passes that feed the registry.
- The source-label classifiers of those passes.
- The pointer-validation guards, evaluated against an abstract address space.
- The 47-byte x86 usage stub.
- De-duplication of DLL-load events.
- The HRESULT success test.

**Viewer** (`Filters`, `Ascii`, `LoadedDllTable`, `TimeFormat`, `EventView`, `App`, `LeftPanel`, `ProcessLaunch`)
- Event filters and sort toggling.
- Case-insensitive ASCII search.
- The DLL table built from `DllLoad` events.
- Timestamp formatting.
- The visible, sorted index list of the Events tab.
- The attach-retry policy and the attach and launch flows.
- Process-list refresh and selection upkeep.
- PID validation and the left panel's actions.
- EXE-path validation, launch and resume.

**Shared modules**
- `Wrappers`: `Option` and `Result`.
- `Ints`: fixed-width integers, little-endian encoding and saturating addition.
- `Text`: Rust `str` operations on `seq<char>`.
- `Decimal`: decimal rendering and `parse::<u32>`.
- `Events`: the `Event` record.

**How the model stands in for the operating system.** Whatever the system
answers becomes a parameter or an oracle function. This covers:
- `VirtualQuery` and memory loads;
- `IsWow64Process*`;
- file existence and file reading;
- Toolhelp snapshots;
- the remote-thread calls;
- `CreateProcessW` and `ResumeThread`;
- `enumerate_processes`;
- `inject_agent_dll` as the viewer sees it;
- whether the detour library can build and enable a hook.

Error messages are modelled as texts where the code or a property depends on
their content. Elsewhere they are tags (the injector's `InjectError`, the PE
parser's `PeError`).

**Where the model follows the code over the documentation:**
- The DLL table keys a failed or pathless load by the event's summary, as the
  code does. The requested module name is not used.
- `should_retry_attach_after_resume` looks for the text `ERROR_BAD_LENGTH`. The
  injector's module-search error for error 24 reads `last error=24`, so that
  error is not retried after resume. The model keeps the code's behaviour:
  `App.BadLengthSearchNotRetried` states it.
- The viewer's DLL table keys on `(failed)` and on empty results only. The
  agent's `(path unavailable)` result is therefore used as a path, and every
  pathless load shares one row. `LoadedDllTable.UnavailablePathsShareOneRow`
  states this.

## Model

| member | source | states |
|---|---|---|
| Ints.SaturatingAdd32 | src/model/dll.rs:48 | `u32::saturating_add`: the exact sum when it fits in 32 bits, else `u32::MAX`; never below either operand |
| Ints.LeU32Encodes | src/hook/injector.rs:533-538 | the four little-endian bytes of a `u32` decode back to it |
| Text.Trim | src/model/filters.rs:46 | the trimmed text is no longer than the input and neither starts nor ends with whitespace |
| Text.TrimIsStrippedSlice | src/model/filters.rs:46 | the trimmed text is a slice `s[i..j]` of the input where only whitespace lies before `i` and after `j`, and the kept text starts and ends with a non-whitespace character |
| Text.TrimUnique | src/model/filters.rs:46 | any slice cut that way is the trimmed text, so `Trim` is the only result the stripping rule allows |
| Text.TrimEmptyIffBlank | src/model/filters.rs:46-47 | trimming gives the empty string exactly when the input is all whitespace |
| Text.AsciiLower | src/model/filters.rs:51-53 | ASCII lower-casing keeps the length and maps each character on its own |
| Text.TrimCommutesWithLower | src/model/filters.rs:46-51 | trimming and ASCII lower-casing commute, so lower-casing the trimmed query is trimming the lower-cased one |
| Text.AsciiLowerIdempotent | src/model/filters.rs:51-53 | lower-casing twice is lower-casing once |
| Decimal.ToDecimal | src/app/widgets/left_panel.rs:79 | `u32::to_string` is a non-empty run of decimal digits |
| Decimal.ValueOfToDecimal | src/app/widgets/left_panel.rs:79 | the decimal rendering of `n` has value `n` |
| Decimal.FixedDigits | src/util/time_format.rs:9 | zero-padded rendering: exactly `width` digits whose value is `n` |
| Decimal.ParseU32 | src/app/widgets/left_panel.rs:94 | `parse::<u32>` succeeds exactly on an optional `+` followed by one or more digits whose value fits in 32 bits, and returns that value |
| Decimal.ParseU32OfToDecimal | src/app/widgets/left_panel.rs:94 | parsing the rendering of a `u32` gives it back |
| TimeFormat.ClockOf | src/util/time_format.rs:2-7 | milliseconds below 1000, seconds and minutes below 60, hours below 24, each taken from the quotient of the unit below |
| TimeFormat.FormatTimestampMs | src/util/time_format.rs:9 | the text is always 12 characters `HH:MM:SS.mmm`: digits in each group and the separators at 2, 5 and 8 |
| TimeFormat.ClockIsTimeOfDay | src/util/time_format.rs:2-7 | `((h*60+m)*60+s)*1000+ms` is the timestamp modulo 86 400 000 |
| TimeFormat.ParseFormatted | src/util/time_format.rs:9 | reading the four digit groups back out of the text gives the clock fields, so the text determines the time of day |
| TimeFormat.FormatIsDaily | src/util/time_format.rs:2-9 | timestamps a whole day apart format identically |
| TimeFormat.FormatInjectiveWithinDay | src/util/time_format.rs:1-10 | two timestamps with the same text have the same time of day |
| TimeFormat.MillisOfDayInjective | src/util/time_format.rs:2-7 | distinct clocks have distinct millisecond-of-day values |
| TimeFormat.ClockDeterminedByTimeOfDay | src/util/time_format.rs:2-7 | timestamps with the same time of day have the same clock |
| Ascii.LowerByte | src/util/ascii.rs:15 | `u8::to_ascii_lowercase`: `A`..`Z` move up by 32, every other byte is unchanged |
| Ascii.WindowMatchesIffOccurs | src/util/ascii.rs:13-19 | the byte-by-byte case-insensitive window test equals plain equality of the lower-cased window and needle |
| Ascii.ContainsIgnoreAsciiCase | src/util/ascii.rs:1-26 | true exactly when the lower-cased needle occurs in the lower-cased haystack; this covers the empty needle and the needle longer than the haystack |
| Ascii.ContainsItself | src/util/ascii.rs:12-25 | every byte string contains itself, ignoring case |
| Ascii.CaseOfArgumentsIrrelevant | src/util/ascii.rs:15 | lower-casing either argument first does not change the answer |
| Filters.ScopeRestricts | src/model/filters.rs:41-44 | with the window/display scope on, an event whose api is not one of the five listed names never matches |
| Filters.BlankQueryMatchesScope | src/model/filters.rs:46-49 | a query that is blank after trimming matches exactly the events in scope |
| Filters.QueryMatchesIffOccurs | src/model/filters.rs:51-55 | a non-blank query matches an in-scope event exactly when the lower-cased trimmed query occurs in its lower-cased api or summary |
| Filters.QueryCaseIrrelevant | src/model/filters.rs:51-55 | the letter case of the query does not change which events match |
| Filters.ApiNameFindsEvent | src/model/filters.rs:51-55 | searching for an event's own api name finds it when it is in scope |
| Filters.ToggleSort | src/model/filters.rs:58-65 | clicking the current column flips the direction and keeps the column; clicking another column selects it ascending; the query and scope are kept |
| Filters.ToggleTwiceIsIdentity | src/model/filters.rs:59-60 | two clicks on the current column restore the filters |
| Filters.ToggleOtherTwiceDescends | src/model/filters.rs:61-64 | two clicks on a different column select it in descending order |
| Filters.ToggleKeepsMatches | src/model/filters.rs:41-65 | toggling the sort never changes which events match |
| LoadedDllTable.Basename | src/model/dll.rs:64-66 | the text after the last `\` or `/`: a separator-free suffix of the path, preceded by a separator when it is shorter than the path |
| LoadedDllTable.SightingOf | src/model/dll.rs:21-36 | only `DllLoad` events are seen; the key is the trimmed result, or the summary when that is empty or `(failed)`; the name is the basename or `<unknown>` |
| LoadedDllTable.Record | src/model/dll.rs:38-52 | the key's row gets the new last-seen time and summary and a saturating count increment; first-seen and name are kept or set; the path changes only to a non-empty one; other rows are unchanged |
| LoadedDllTable.ObserveEvent | src/model/dll.rs:20-53 | non-`DllLoad` events leave the table unchanged; a `DllLoad` event records its sighting |
| LoadedDllTable.RecordLen | src/model/dll.rs:59-61 | an observation adds at most one row, and none for a known key |
| LoadedDllTable.ObservePreservesConsistent | src/model/dll.rs:20-53 | every row keeps a positive count and a name that is `<unknown>` or the basename of its key |
| LoadedDllTable.ObserveAllRecordsSightings | src/model/dll.rs:20-53 | observing a run of events is recording the sightings of its `DllLoad` events in order |
| LoadedDllTable.RecordAllPresence | src/model/dll.rs:38-45 | after a run, a key has a row exactly when it had one before or was sighted |
| LoadedDllTable.RecordAllCount | src/model/dll.rs:48 | a row's count is its old count plus its sightings, saturated at `u32::MAX` |
| LoadedDllTable.RecordAllUntouched | src/model/dll.rs:38-52 | rows for keys not sighted in a run are unchanged |
| LoadedDllTable.RowsOfRun | src/model/dll.rs:38-48 | from an empty table, a key has a row exactly when it was sighted, with count equal to its sightings saturated at `u32::MAX` |
| LoadedDllTable.FirstSeen | src/model/dll.rs:41 | a row's first-seen time is the timestamp of the key's first sighting |
| LoadedDllTable.LastSeen | src/model/dll.rs:47-49 | a row's last-seen time and summary are those of the key's last sighting |
| LoadedDllTable.LoadedModuleRowName | src/model/dll.rs:32-36 | a load with a real path gets a row keyed by the path and named by its basename |
| LoadedDllTable.FailedLoadRow | src/model/dll.rs:26-33 | a failed load is keyed by its summary and named `<unknown>` |
| LoadedDllTable.UnavailablePathsShareOneRow | src/model/dll.rs:25-30 | every `(path unavailable)` result is keyed by that text, so all such loads share one row |
| EventView.StrCmpFlip | src/app/mod.rs:230-237 | string comparison is antisymmetric |
| EventView.StrCmpEqualIff | src/app/mod.rs:230-237 | string comparison says Equal exactly for equal strings |
| EventView.StrCmpTrans | src/app/mod.rs:230-237 | string comparison is transitive |
| EventView.CompareFlip | src/app/mod.rs:224-245 | swapping the operands of the sort comparator reverses its answer, in both directions and for every column |
| EventView.CompareSelf | src/app/mod.rs:224-245 | an event compares Equal with itself |
| EventView.CompareTrans | src/app/mod.rs:224-245 | the comparator is transitive, so it is a total preorder as `sort_by` requires |
| EventView.PrecedesTotal | src/app/mod.rs:224 | under the stable-sort order, of two distinct indices exactly one precedes the other |
| EventView.PrecedesIrreflexive | src/app/mod.rs:224 | no index precedes itself |
| EventView.PrecedesTrans | src/app/mod.rs:224 | the stable-sort order is transitive |
| EventView.InsertKeepsSorted | src/app/mod.rs:224-245 | inserting an index into a sorted list keeps it sorted |
| EventView.SortIndices | src/app/mod.rs:224-245 | sorting keeps the length and exactly the members of the list |
| EventView.SortIndicesSorted | src/app/mod.rs:224-245 | a list of distinct indices comes out sorted by the comparator, ties in index order |
| EventView.SortedUnique | src/app/mod.rs:224-245 | two sorted lists with the same members are equal, so the stable sort's result is fully determined |
| EventView.IndicesWhere | src/app/mod.rs:214-222 | the indices whose flag is set, each once and in increasing order |
| EventView.VisibleEventIndices | src/app/mod.rs:213-248 | an index is listed exactly when its event is not `DllLoad` and matches the filters, and the list is sorted by the chosen column and direction |
| EventView.DescendingReversesWithoutTies | src/app/mod.rs:240-244 | without ties, the descending list is the ascending list reversed |
| App.MarkerAnywhereRetries | src/app/mod.rs:75-80 | an error text containing any of the four markers, anywhere, is retried |
| App.NoMarkerNoRetry | src/app/mod.rs:75-80 | an error text mentioning neither `299` nor `ERROR_` is never retried |
| App.PartialCopySearchRetried | src/app/mod.rs:75-80 | the injector's "partial copy" module-search text (src/hook/injector.rs:367-370) contains `GetLastError=299`, so it is retried after resume, whatever the PID |
| App.BadLengthSearchNotRetried | src/app/mod.rs:75-80 | the injector's module-search text for error 24 (src/hook/injector.rs:373-376) reads `last error=24` and is never retried after resume, whatever the PID |
| App.RetryAttachAfterResume | src/app/mod.rs:82-101 | at most `attempts` calls; success with `(k, path)` for the first successful attempt `k`, after `k` calls; otherwise the last error, or the empty text for zero attempts |
| App.RefreshProcessList | src/app/mod.rs:103-118 | a successful enumeration replaces the list, keeps a selection still in range and clears the rest; a failure only sets the status text |
| App.RefreshKeepsSelectionValid | src/app/mod.rs:107-112 | a valid selection stays valid after any refresh |
| App.ClearHiddenSelection | src/app/mod.rs:292-298 | the selected event afterwards is visible or cleared, and a visible selection is kept |
| App.HandleAttachRequest | src/app/mod.rs:120-145 | the viewer's own PID gets local hooks, any other PID is injected; the process list is refreshed exactly after a successful injection; the status texts for a refused local install, "Attached. Local hooks active in PID …", a failed injection and "Injected agent into PID …" |
| App.AttachTakesOnePath | src/app/mod.rs:120-145 | a request for the viewer's own PID does not depend on the injector, and any other request does not depend on local hook installation |
| App.HandleLaunchAndAttach | src/app/mod.rs:147-204 | launch failure, resume failure, attach before resume, plain failure, and the retry path taken exactly for a failed suspended attach whose error is retryable; the attempt counts; the process list is refreshed exactly when the launch succeeded and the resume did not fail |
| App.ApplyLaunch | src/app/mod.rs:103-118 | a launched PID is written to the PID text box (mod.rs:151); without a refresh the list and selection stay and the status is the outcome's; with a refresh (mod.rs:197-198) a listing replaces the list, keeps an in-range selection and clears the rest, and a failed listing overwrites the status with the refresh error |
| App.ObserveAllAppend | src/app/mod.rs:206-211 | observing two runs in turn is observing their concatenation |
| App.DrainInBatches | src/app/mod.rs:206-211 | how received events are split across frames does not change the DLL table or the event list |
| LeftPanel.ValidatePid | src/app/widgets/left_panel.rs:88-99 | blank input, a zero PID and unparsable input each give their own message; success exactly for a positive `u32` literal, returning its value |
| LeftPanel.ValidatePidOfDecimal | src/app/widgets/left_panel.rs:88-99 | the decimal text of a PID validates back to it, except PID 0 which is refused as not positive |
| LeftPanel.Show | src/app/widgets/left_panel.rs:19-85 | Refresh overrides Launch, which overrides Attach; Attach only for a validating PID and with that PID; a row click selects the row and fills in its PID |
| LeftPanel.RowClickArmsAttach | src/app/widgets/left_panel.rs:74-80 | after clicking a process row, Attach in the next frame attaches to that process, unless its PID is 0 |
| ProcessLaunch.FileName | src/util/process_launch.rs:98-101 | `Path::file_name`: a non-empty last component without separators, never `.` or `..` |
| ProcessLaunch.Extension | src/util/process_launch.rs:98-101 | `Path::extension`: the dot-free text after the last dot, which has text before it |
| ProcessLaunch.ExtensionExeIff | src/util/process_launch.rs:98-104 | a file name passes the `.exe` test exactly when it ends in `.exe`, in any letter case, after a non-empty stem |
| ProcessLaunch.ExeInDirectory | src/util/process_launch.rs:98-104 | a path whose last component ends in `.exe` passes the test, whatever the directory |
| ProcessLaunch.ValidateExePath | src/util/process_launch.rs:83-107 | blank, missing, not-a-file and not-`.exe` each give their own error, in that order of checking; success exactly otherwise, returning the trimmed path |
| ProcessLaunch.LaunchTargetExeSuspended | src/util/process_launch.rs:41-81 | a validation error is returned unchanged; `CreateProcessW` runs only on the validated path; its failure names the error code |
| ProcessLaunch.Resume | src/util/process_launch.rs:16-25 | resuming fails exactly when `ResumeThread` returns `u32::MAX`, naming the error code |
| AgentEvents.SucceededIffSeverityClear | src/agent_dll.rs:2558-2560 | an HRESULT succeeds exactly when bit 31 of its `u32` bits is clear |
| AgentEvents.PointerTextInjective | src/agent_dll.rs:2264-2269 | distinct module handles give distinct `{:p}` texts, so summaries tell modules apart |
| AgentEvents.DllLoadResult | src/agent_dll.rs:2271-2277 | `(failed)` for a null module, `(path unavailable)` for an empty path, else the path |
| AgentEvents.DllLoadKey | src/agent_dll.rs:2281-2287 | the key is a usable result, else the requested name, else the summary |
| AgentEvents.KeyOfLoad | src/agent_dll.rs:2263-2287 | a loaded module with a path is keyed by its path; failed and pathless loads by the requested name when there is one |
| AgentEvents.EmitDllLoad | src/agent_dll.rs:2263-2296 | the key joins the reported set, and an event is sent exactly when the key is new |
| AgentEvents.EmitAllIsDedup | src/agent_dll.rs:2289-2294 | reporting a run of loads is de-duplicating their keys |
| AgentEvents.DedupSeen | src/agent_dll.rs:2289-2294 | after a run, the key set holds the old keys and every run key; reported keys were new |
| AgentEvents.DedupDistinct | src/agent_dll.rs:2289-2294 | no key is reported twice |
| AgentEvents.EmitAllOncePerKey | src/agent_dll.rs:2263-2296 | over any run, each key is reported at most once and only if new, and every load's key is remembered |
| AgentEvents.RepeatedLoadReportedOnce | src/agent_dll.rs:2289-2294 | loading the same module twice reports it once |
| MemoryGuards.SaturatingAdd | src/agent_dll.rs:2646-2648 | `usize::saturating_add` on the pointer width |
| MemoryGuards.ExecutableIffExactProtection | src/agent_dll.rs:2652-2675 | a pointer is executable exactly when it is non-null, committed, and its protection is one of the four `PAGE_EXECUTE*` values with no modifier bit |
| MemoryGuards.GuardPageNotExecutable | src/agent_dll.rs:2674 | a guard page is never executable |
| MemoryGuards.ReadableMeansInsideRegion | src/agent_dll.rs:2620-2650 | a readable range that does not saturate lies inside the queried region |
| MemoryGuards.InsideRegionMeansReadable | src/agent_dll.rs:2620-2650 | a range inside a committed region without no-access or guard protection is readable |
| MemoryGuards.ReadableShrinks | src/agent_dll.rs:2645-2649 | a readable range stays readable when shortened |
| MemoryGuards.VtableMethodPtr | src/agent_dll.rs:2677-2699 | a method pointer is returned only when the instance and vtable are readable, and it is the executable entry at the index |
| MemoryGuards.VtableMethodPtrSomeIff | src/agent_dll.rs:2677-2699 | the lookup succeeds exactly when all three checks pass |
| MemoryGuards.VtableSlotInsideRegion | src/agent_dll.rs:2685-2693 | the slot read lies inside the region that was checked |
| UsageStub.Layout | src/agent_dll.rs:2768-2809 | the stub is 47 bytes |
| UsageStub.Decode | src/agent_dll.rs:2768-2809 | reading fields back succeeds only on bytes that are exactly a layout |
| UsageStub.LayoutBytes | src/agent_dll.rs:2768-2809 | the flag is at bytes 2..6 and 35..39 and the target at 12..16 and 41..45; index, kind and call displacement are in their places; the stub ends `B8 target FF E0` |
| UsageStub.SignedRoundTrip | src/agent_dll.rs:2833 | `i32::to_le_bytes` read back as signed gives the value |
| UsageStub.DecodeLayout | src/agent_dll.rs:2768-2834 | decoding a laid-out stub gives back its fields |
| UsageStub.AllocUsageStub | src/agent_dll.rs:2752-2841 | no stub exactly when the allocation fails or the call displacement leaves the `i32` range; a stub is 47 bytes at the allocated address |
| UsageStub.AllocatedStubBehaviour | src/agent_dll.rs:2811-2834 | `jne` lands on the tail jump, `call` lands on the logger, the pushes carry target, index and kind, both flag accesses address the flag, and the tail jumps to the target |
| HookRegistry.TryBind | src/agent_dll.rs:3517-3603 | a bound address is a no-op; otherwise the primary slot with its own handler, else the alternate with the `_alt_` handler; both full means skipped; a failed detour changes nothing |
| HookRegistry.TryBindPreservesWellFormed | src/agent_dll.rs:3524-3533 | every attempt keeps each slot's handler right and the two targets distinct |
| HookRegistry.StylesAgree | src/agent_dll.rs:3008-3018 | the up-front check and the failed-set detection leave the same slots behind |
| HookRegistry.TryBindIdempotent | src/agent_dll.rs:3524-3533 | repeating an attempt changes nothing further |
| HookRegistry.BindAllInvariant | src/agent_dll.rs:3555-3578 | over any run, filled slots never change and every hooked address was offered with a working detour |
| HookRegistry.BoundStaysBound | src/agent_dll.rs:3568-3578 | once hooked, an address stays hooked |
| HookRegistry.ThirdAddressSkipped | src/agent_dll.rs:3536-3542 | with both slots taken by two other addresses, a third is skipped and nothing changes |
| HookRegistry.TryBindQueryInterface | src/agent_dll.rs:4621-4665 | the single QueryInterface slot is filled by the first attempt whose detour builds, with no address comparison |
| HookRegistry.QiInstalledOnce | src/agent_dll.rs:4621-4624 | after any run the slot holds the first attempt whose detour built |
| HookEngine.Step | src/agent_dll.rs:3517-3533 | a null instance or a failed vtable lookup changes nothing; otherwise one bind of the method address |
| HookEngine.StepIdempotent | src/agent_dll.rs:3524-3533 | running an installer twice on the same instance is running it once |
| HookEngine.StepSound | src/agent_dll.rs:3521-3523 | every address an installer records is executable |
| HookEngine.InstallAllPointwise | src/agent_dll.rs:2923-2938 | a pass changes exactly the operations it runs, each as one installer call would |
| HookEngine.InstallQueryInterface | src/agent_dll.rs:4621-4665 | the QueryInterface slot is set at most once, and only to an executable method at vtable slot 0 |
| HookEngine.AsWrittenProbeOverlap | src/agent_dll.rs:2578-2589 | as written, a source containing `DirectDrawCreateEx` and ending `->IDirectDraw` is both legacy and extended |
| HookEngine.ExtendedFactoryProbeOverlaps | src/agent_dll.rs:4599-4619 | the probe of a `DirectDrawCreateEx` object produces exactly such a source |
| HookEngine.ClassifiersExclusive | src/agent_dll.rs:2578-2589 | the corrected classifiers never both hold, and agree with the written one on non-legacy sources |
| HookEngine.ProbeSourceClassified | src/agent_dll.rs:4605-4616 | corrected, the `IDirectDraw` probe is legacy only and the three newer probes are extended only |
| HookEngine.ObjectOpsFor | src/agent_dll.rs:2923-2938 | the object pass runs only object operations, always CreateSurface and SetCooperativeLevel, SetDisplayMode exactly when legacy and SetDisplayModeEx exactly when extended |
| HookEngine.SurfaceOpsAreTheRest | src/agent_dll.rs:2940-2957 | the surface pass runs exactly the operations the object pass never runs |
| HookEngine.InstallAllSound | src/agent_dll.rs:2923-2957 | any pass keeps the registry invariant |
| HookEngine.InstallQueryInterfaceSound | src/agent_dll.rs:4621-4665 | the QueryInterface installer keeps the invariant |
| HookEngine.ObjectPassSound | src/agent_dll.rs:2923-2938 | the object pass keeps the invariant: only executable method addresses reach the registry |
| HookEngine.SurfacePassSound | src/agent_dll.rs:2940-2957 | the surface pass keeps the invariant |
| HookEngine.ProbeSound | src/agent_dll.rs:4599-4619 | the interface probe keeps the invariant |
| HookEngine.OnDirectDrawObjectSound | src/agent_dll.rs:994-995 | a factory's object pass plus probe keeps the invariant |
| HookEngine.SurfacePassIdempotent | src/agent_dll.rs:2940-2957 | a surface seen twice is hooked as if seen once |
| HookEngine.ObjectPassLeavesSurfaceSlots | src/agent_dll.rs:2923-2938 | an object pass leaves every surface operation's slots alone |
| HookEngine.AsWrittenHooksSlot21Twice | src/agent_dll.rs:2928-2933 | as written, the probed `IDirectDraw` of a `DirectDrawCreateEx` object gets both SetDisplayMode flavours hooked on the same vtable slot 21 |
| HookEngine.ObjectPassHooksOneDisplayModeFlavour | src/agent_dll.rs:2928-2933 | corrected, no object pass hooks both SetDisplayMode flavours |
| Injector.DetectProcessMachine | src/hook/injector.rs:379-431 | an error exactly when both queries fail; the process machine unless unknown, then the native machine; without `IsWow64Process2`, WOW64 means I386, and a non-WOW64 process is AMD64 on an x86-64 tracer, ARM64 on an ARM64 tracer and I386 on an x86 tracer |
| Injector.DetectionPathsAgree | src/hook/injector.rs:379-431 | for a 64-bit tracer on its own kind of OS, both detection paths give the same machine |
| Injector.ResolveAgentDllPath | src/hook/injector.rs:139-200 | a returned path exists; without `current_exe` the result is an error |
| Injector.ResolveAgentDllPathIsFirstExisting | src/hook/injector.rs:139-200 | the result is the first existing candidate, and the error when none exists |
| Injector.AgentBesideTracerWins | src/hook/injector.rs:139-200 | an agent beside the tracer is always the one chosen |
| Injector.SnapshotFlags | src/hook/injector.rs:311-315 | two flag sets: first the 32-bit module flag for I386 targets and the plain module flag for any other, then both flags |
| Injector.FindEntry | src/hook/injector.rs:341-349 | the first listed module whose name equals the wanted one ignoring ASCII case, and none exactly when no name does |
| Injector.SnapshotRound | src/hook/injector.rs:320-358 | a found module has the wanted name; the round misses exactly when no walk of the round lists the wanted module |
| Injector.SnapshotRoundFirstFinding | src/hook/injector.rs:320-356 | the round returns the wanted module of the first walk that lists it |
| Injector.AtMostTenRounds | src/hook/injector.rs:317-365 | the search makes at most ten rounds: two OS oracles that agree on rounds 0 to 9 give the same result |
| Injector.ModuleSearchErrorText | src/hook/injector.rs:367-376 | for error 299 the text starts with the `CreateToolhelp32Snapshot(module) failed for PID` line, contains `GetLastError=` followed by the code and ends with the protection advice; otherwise it starts `Failed to locate module <name> in PID <pid>` and ends ` (last error=<code>).` |
| Injector.RoundEndsSearchUnlessRetryable | src/hook/injector.rs:356-376 | a round that finds ends the search with the module; a miss whose last error is neither 299 nor 24 ends it with the search error for that code; only a 299 or 24 miss goes on to the next round, and later rounds' answers are read only then |
| Injector.SnapshotRounds | src/hook/injector.rs:319-365 | a found module has the wanted name |
| Injector.FindRemoteModule | src/hook/injector.rs:306-377 | a found module has the wanted name |
| Injector.RoundOfFailuresMisses | src/hook/injector.rs:320-335 | a round in which every snapshot fails misses, carrying that error |
| Injector.NonRetryableFailureStopsAfterOneRound | src/hook/injector.rs:361-367 | a non-retryable failure ends the search after one round with the not-found error |
| Injector.PersistentPartialCopyExhaustsRounds | src/hook/injector.rs:319-371 | a loader that keeps reporting error 299 exhausts all 10 rounds and yields the protected-or-initialising error |
| Injector.FirstWalkFindsModule | src/hook/injector.rs:341-349 | a module listed in the first walk is found at once |
| Injector.ResolveRemoteLoadLibraryW | src/hook/injector.rs:295-299 | the address is the remote `kernel32.dll` base plus the export RVA read from its file |
| Injector.RunRemoteLoad | src/hook/injector.rs:56-135 | the buffer is freed exactly once after it was allocated; success exactly when every call succeeds, returning the displayed path |
| Injector.InjectAgentDll | src/hook/injector.rs:30-137 | the target buffer is allocated exactly when every local step succeeded (the process opened, its machine is known, an agent image exists, the x86 runtime is ready for an I386 target, `LoadLibraryW` was located) and `VirtualAllocEx` succeeded; any local failure is an error with no buffer; an allocated buffer is freed exactly once; success returns the resolved path |
| Injector.MissingAgentMakesNoRemoteCalls | src/hook/injector.rs:30-52 | with no agent image for the target's machine, the injection fails with the path error and allocates nothing in the target |
| PeExport.ReadU16 | src/hook/injector.rs:526-531 | an error exactly when `off + 2` exceeds the length; otherwise the little-endian value |
| PeExport.ReadU32 | src/hook/injector.rs:533-538 | an error exactly when `off + 4` exceeds the length; otherwise the little-endian value |
| PeExport.ReadU16RoundTrip | src/hook/injector.rs:526-531 | a `u16` written little-endian reads back |
| PeExport.ReadU32RoundTrip | src/hook/injector.rs:533-538 | a `u32` written little-endian reads back |
| PeExport.AsciiIsValidUtf8 | src/hook/injector.rs:549-550 | bytes below 0x80 are well-formed UTF-8 |
| PeExport.ReadCString | src/hook/injector.rs:540-551 | an error past the end or without a NUL; otherwise the bytes up to the first NUL, which must be well-formed UTF-8 |
| PeExport.ReadCStringOkIff | src/hook/injector.rs:540-551 | success exactly when a NUL follows and the bytes before it are well-formed UTF-8 |
| PeExport.ReadCStringRoundTrip | src/hook/injector.rs:540-551 | a NUL-terminated, NUL-free, well-formed name reads back as itself |
| PeExport.ParseHeaders | src/hook/injector.rs:438-467 | success only with the MZ magic, the PE signature at `e_lfanew`, magic 0x10B or 0x20B with the export directory at +96 or +112, and a non-zero export RVA |
| PeExport.RvaToOffset | src/hook/injector.rs:471-495 | a mapped offset lies inside the file |
| PeExport.RvaMapsThroughFirstCoveringSection | src/hook/injector.rs:471-495 | an RVA maps through the first covering section, with saturating arithmetic, and fails if that offset is outside the file, with no later section tried |
| PeExport.RvaUnmappedWhenNoSectionCovers | src/hook/injector.rs:471-495 | an RVA no section covers fails to map |
| PeExport.ScanNamesSound | src/hook/injector.rs:507-523 | a successful scan returns what some equal name designates |
| PeExport.ScanNamesFindsFirstMatch | src/hook/injector.rs:507-516 | the lookup returns `functions[ordinals[k]]` for the smallest `k` whose name equals the wanted one |
| PeExport.ScanNamesSkipsMismatch | src/hook/injector.rs:507-517 | a readable name that differs is passed over |
| PeExport.ScanNamesNotFound | src/hook/injector.rs:507-523 | with every name readable and none equal, the lookup fails as not found |
| PeExport.ScanNamesStopsAtUnreadableName | src/hook/injector.rs:508-510 | the scan stops with an error at the first unreadable name, even if a later name matches |
| PeExport.FindExportRvaIsScan | src/hook/injector.rs:497-523 | once headers and tables are read, the lookup is the name scan |
| PeExport.ShortFileRejected | src/hook/injector.rs:438-442 | a file too short for `e_lfanew` is rejected whatever its contents |
| PeExport.FindExportRvaInFile | src/hook/injector.rs:434-437 | an unreadable file fails before any parsing |
| PeSample.SampleHeaders | src/hook/injector.rs:438-469 | the synthetic image passes the header checks with the expected offsets |
| PeSample.SampleMapsRva | src/hook/injector.rs:471-495 | every offset of the sample's section maps back from its RVA |
| PeSample.SampleFirstName | src/hook/injector.rs:508-510 | the sample's first name reads back as the exported name |
| PeSample.FindExportRvaOfSample | src/hook/injector.rs:434-524 | resolving the exported name in the sample yields the RVA it was exported at |
| PeSample.FindOtherExportOfSample | src/hook/injector.rs:507-523 | resolving any other name in the sample fails as not found |
| PeExport.FindExportRvaOnPrefix | src/hook/injector.rs:434-524 | every read is bounds-checked, so an RVA found in a prefix of a file is the RVA found in the whole file |
| PeExport.PrefixMissesOnlyName | src/hook/injector.rs:497-551 | a prefix of a one-name export table that ends before the name's last byte cannot find that name |
| PeSample.TruncatedSampleFails | src/hook/injector.rs:434-551 | the sample image cut short at any length fails to resolve its exported name |

## Left out

- The detour library and live memory writes are not modelled: `GenericDetour`, the `*_detour` handlers, copying a stub into executable memory, and the vtable swap in `try_patch_com_vtable_for_usage`. Whether a detour can be built or enabled is an oracle answer.
- `is_ptr_in_directdraw_runtime` and `describe_dd_surface_desc` only feed event texts.
- Event texts, `send_event`, the UDP transport and JSON serialisation are I/O.
- Concurrency (`OnceLock`, `Mutex`, the `AtomicU8` usage flag) is modelled sequentially, as write-once slots.
- `ensure_x86_runtime_dependencies` and the `find_i686_libunwind*` search walk the file system and start processes.
- UI rendering is not modelled: the event table, the DLL table, the details panel, the `update` loop's layout, and `main.rs`.
- Sleeps and `elapsed_ms` are clock-dependent. The retry loops model their attempt counts only.
- `enumerate_processes`, `inject_agent_dll` as called by the viewer, `CreateProcessW`, `ResumeThread` and `GetCurrentProcessId` are oracle answers.
- The local `hook_manager.install` path and `trigger_smoke_test_call` are out of scope: only their outcome is an input.
- `src/hook/mod.rs` duplicates the agent's detour wrappers. `src/hook/udp_listener.rs` is network I/O.
- ProcessLaunch.FileName: `.` components inside a path and drive prefixes such as `C:name` are not normalised as `std::path` does. The file name is the text after the last separator, once trailing separators are ignored.
- Injector.Parent: a path is a sequence of components, so `Path::parent` edge cases of the text form (roots, prefixes) are not modelled.
- Injector.InjectAgentDll: error messages are tags, not texts. Only the module-search error is also rendered as text, by `Injector.ModuleSearchErrorText`. The OpenProcess, VirtualAllocEx, WriteProcessMemory and CreateRemoteThread errors also carry `GetLastError=<code>` in the source, so with code 299 they too trigger the viewer's retry after resume; their texts are not modelled.
- Injector.ResolveRemoteLoadLibraryW: base plus RVA is an unbounded sum. The source's `usize` addition, which panics in debug builds and wraps in release builds on overflow, is not modelled.
- HookEngine.ObjectPass: uses the corrected classifier `Extended`, not the source's `source_is_directdraw_extended_interface` as written. `HookEngine.ObjectPassAsWritten` and `HookEngine.AsWrittenHooksSlot21Twice` model the code as written (see Findings).
- HookEngine.Probe: each probed interface gets `HookEngine.ObjectPass`, so the probe also uses the corrected classifier.
- HookEngine.OnDirectDrawObject: the factory's object pass and probe both use the corrected classifier.
- App.HandleLaunchAndAttach: the status texts of the intermediate steps, which a later status always overwrites, are not modelled. `App.LaunchStatus` gives the status the attach leaves, and `App.ApplyLaunch` applies the trailing process-list refresh, whose failure replaces it. The 120 ms sleep before the refresh is not modelled.
- LeftPanel.Show: the Browse dialog and the text boxes' editing are not modelled. A frame's clicks are an input.

## Findings

| source | as written | input that shows it | evidently intended | confidence | as-written member | corrected member |
|---|---|---|---|---|---|---|
| src/agent_dll.rs:2578-2589 | `source_is_directdraw_extended_interface` accepts any source containing `DirectDrawCreateEx`, including the probe label `DirectDrawCreateEx->IDirectDraw`, which `source_is_directdraw_legacy_interface` also accepts | the probe of a `DirectDrawCreateEx` object (src/agent_dll.rs:994-995, 4599-4619) labels its `IDirectDraw` interface `DirectDrawCreateEx->IDirectDraw`; the object pass then hooks both SetDisplayMode (3 arguments) and SetDisplayModeEx (5 arguments) on vtable slot 21 of that v1 interface | a source is extended only if it is not legacy, so each interface gets the SetDisplayMode flavour its vtable has | not executed | HookEngine.AsWrittenHooksSlot21Twice | HookEngine.ObjectPassHooksOneDisplayModeFlavour |
