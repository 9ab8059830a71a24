/** The injector's decision logic: which machine the target process runs as,
    which agent DLL to load, how `kernel32.dll` is found in the target's
    module list (with retries while the loader is still starting), where
    `LoadLibraryW` lives in the target, and the remote-call sequence that
    loads the agent. Every Win32 call is an input: its outcome is a
    parameter, so the model covers all outcomes the OS could report. */
module Injector {
  import opened Ints
  import opened Wrappers
  import opened Text
  import opened PeExport
  import Decimal

  const IMAGE_FILE_MACHINE_UNKNOWN: uint16 := 0
  const IMAGE_FILE_MACHINE_I386: uint16 := 0x014C
  const IMAGE_FILE_MACHINE_AMD64: uint16 := 0x8664
  const IMAGE_FILE_MACHINE_ARM64: uint16 := 0xAA64

  const TH32CS_SNAPMODULE: uint32 := 0x0000_0008
  const TH32CS_SNAPMODULE32: uint32 := 0x0000_0010
  const ERROR_BAD_LENGTH: uint32 := 24
  const ERROR_PARTIAL_COPY: uint32 := 299

  /** Snapshot rounds before the module search gives up. */
  const SNAPSHOT_ROUNDS: nat := 10

  const AGENT_DLL: string := "win_api_trace_agent.dll"
  const X86_AGENT_DLL: string := "win_api_trace_agent_x86.dll"
  const KERNEL32: string := "kernel32.dll"

  /** The architecture the tracer itself was compiled for. */
  datatype HostArch = X86_64 | X86 | Aarch64

  datatype InjectError =
    | OpenProcessFailed(pid: uint32)
    | MachineQueryFailed
    | CurrentExeFailed
    | NoExecutableDirectory
    | NoTargetDirectory
    | X86AgentNotFound(checked: seq<Path>)
    | AgentNotFound(expected: Path)
    | AgentNotFoundForMachine(machine: uint16, expected: Path)
    | X86RuntimeMissing
    | SnapshotBlocked(pid: uint32, lastError: uint32)
    | ModuleNotFound(moduleName: string, pid: uint32, lastError: uint32)
    | ExportLookupFailed(cause: PeError)
    | AllocFailed
    | WriteFailed
    | CreateThreadFailed
    | WaitFailed(code: uint32)
    | ExitCodeFailed
    | LoadLibraryReturnedNull(dll: Path)

  // ---------------------------------------------------------------------
  // Target machine (`detect_process_machine`)

  /** What `IsWow64Process2` reports when it succeeds. */
  datatype Wow64Report = Wow64Report(processMachine: uint16, nativeMachine: uint16)

  /** `IsWow64Process2` is tried first; a process that is not running under
      WOW64 reports an unknown process machine, so the native machine is
      used. Without it, `IsWow64Process` decides between x86 and the
      tracer's own architecture (a 32-bit tracer always assumes x86). */
  function DetectProcessMachine(wow64Process2: Option<Wow64Report>, wow64Process: Option<bool>, host: HostArch)
    : (r: Result<uint16, InjectError>)
    ensures r.Err? <==> wow64Process2.None? && wow64Process.None?
    ensures r.Err? ==> r.error == MachineQueryFailed
    ensures wow64Process2.Some? && wow64Process2.value.processMachine != IMAGE_FILE_MACHINE_UNKNOWN
            ==> r == Ok(wow64Process2.value.processMachine)
    ensures wow64Process2.Some? && wow64Process2.value.processMachine == IMAGE_FILE_MACHINE_UNKNOWN
            ==> r == Ok(wow64Process2.value.nativeMachine)
    ensures wow64Process2.None? && wow64Process == Some(true) ==> r == Ok(IMAGE_FILE_MACHINE_I386)
    ensures wow64Process2.None? && wow64Process.Some? && host == X86 ==> r == Ok(IMAGE_FILE_MACHINE_I386)
    ensures wow64Process2.None? && wow64Process == Some(false) && host == X86_64 ==> r == Ok(IMAGE_FILE_MACHINE_AMD64)
    ensures wow64Process2.None? && wow64Process == Some(false) && host == Aarch64 ==> r == Ok(IMAGE_FILE_MACHINE_ARM64)
  {
    match wow64Process2
    case Some(report) =>
      Ok(if report.processMachine == IMAGE_FILE_MACHINE_UNKNOWN then report.nativeMachine
         else report.processMachine)
    case None =>
      match wow64Process
      case None => Err(MachineQueryFailed)
      case Some(isWow64) =>
        match host
        case X86_64 => Ok(if isWow64 then IMAGE_FILE_MACHINE_I386 else IMAGE_FILE_MACHINE_AMD64)
        case X86 => Ok(IMAGE_FILE_MACHINE_I386)
        case Aarch64 => Ok(if isWow64 then IMAGE_FILE_MACHINE_I386 else IMAGE_FILE_MACHINE_ARM64)
  }

  /** A target on a 64-bit Windows: the OS's native machine, and whether the
      target is a 32-bit x86 process under WOW64. */
  datatype Target = Target(nativeMachine: uint16, underWow64: bool)

  function MachineOf(t: Target): uint16 {
    if t.underWow64 then IMAGE_FILE_MACHINE_I386 else t.nativeMachine
  }

  /** How the OS answers the two queries for that target. */
  function Wow64Process2Answer(t: Target): Wow64Report {
    Wow64Report(if t.underWow64 then IMAGE_FILE_MACHINE_I386 else IMAGE_FILE_MACHINE_UNKNOWN, t.nativeMachine)
  }

  /** For a 64-bit tracer on its own kind of OS, both detection paths give
      the target's true machine. */
  lemma DetectionPathsAgree(t: Target, host: HostArch)
    requires (host == X86_64 && t.nativeMachine == IMAGE_FILE_MACHINE_AMD64)
             || (host == Aarch64 && t.nativeMachine == IMAGE_FILE_MACHINE_ARM64)
    ensures DetectProcessMachine(Some(Wow64Process2Answer(t)), None, host) == Ok(MachineOf(t))
    ensures DetectProcessMachine(None, Some(t.underWow64), host) == Ok(MachineOf(t))
  {
  }

  // ---------------------------------------------------------------------
  // Agent DLL path (`resolve_agent_dll_path`)

  /** A filesystem path as its sequence of components. */
  type Path = seq<string>

  /** `Path::parent`: `None` only for the empty path. */
  function Parent(p: Path): (r: Option<Path>)
    ensures r.Some? <==> |p| > 0
    ensures r.Some? ==> r.value + [p[|p| - 1]] == p
  {
    if |p| == 0 then None else Some(p[..|p| - 1])
  }

  /** Where the agent DLL may be, in the order the injector checks. */
  function AgentCandidates(machine: uint16, exeDir: Path, targetDir: Path): (c: seq<Path>)
    ensures |c| > 0
  {
    if machine == IMAGE_FILE_MACHINE_I386 then
      [exeDir + [X86_AGENT_DLL],
       targetDir + ["i686-pc-windows-gnullvm", "debug", AGENT_DLL],
       targetDir + ["i686-pc-windows-gnu", "debug", AGENT_DLL]]
    else
      [exeDir + [AGENT_DLL]]
  }

  /** The first path of `c` that exists. */
  function FirstExisting(c: seq<Path>, pathExists: Path -> bool): (r: Option<Path>)
    ensures r.Some? ==> r.value in c && pathExists(r.value)
    ensures r.None? <==> forall i :: 0 <= i < |c| ==> !pathExists(c[i])
  {
    if |c| == 0 then None
    else if pathExists(c[0]) then Some(c[0])
    else FirstExisting(c[1..], pathExists)
  }

  /** `resolve_agent_dll_path`, with `current_exe` and `Path::exists` as
      inputs. An x86 target tries the `_x86` DLL beside the tracer, then the
      two i686 build outputs; every other machine looks only beside the
      tracer. Both the executable's directory and the directory above it
      must exist. */
  function ResolveAgentDllPath(machine: uint16, currentExe: Option<Path>, pathExists: Path -> bool)
    : (r: Result<Path, InjectError>)
    ensures r.Ok? ==> pathExists(r.value)
    ensures currentExe.None? ==> r == Err(CurrentExeFailed)
  {
    var exe :- (if currentExe.Some? then Ok(currentExe.value) else Err(CurrentExeFailed));
    var exeDir :- (if |exe| > 0 then Ok(exe[..|exe| - 1]) else Err(NoExecutableDirectory));
    var targetDir :- (if |exeDir| > 0 then Ok(exeDir[..|exeDir| - 1]) else Err(NoTargetDirectory));
    if machine == IMAGE_FILE_MACHINE_I386 then
      var preferred := exeDir + [X86_AGENT_DLL];
      var gnullvm := targetDir + ["i686-pc-windows-gnullvm", "debug", AGENT_DLL];
      var gnu := targetDir + ["i686-pc-windows-gnu", "debug", AGENT_DLL];
      if pathExists(preferred) then Ok(preferred)
      else if pathExists(gnullvm) then Ok(gnullvm)
      else if pathExists(gnu) then Ok(gnu)
      else Err(X86AgentNotFound([preferred, gnullvm, gnu]))
    else
      var candidate := exeDir + [AGENT_DLL];
      if pathExists(candidate) then Ok(candidate)
      else if machine == IMAGE_FILE_MACHINE_AMD64 || machine == IMAGE_FILE_MACHINE_ARM64
              || machine == IMAGE_FILE_MACHINE_UNKNOWN then
        Err(AgentNotFound(candidate))
      else Err(AgentNotFoundForMachine(machine, candidate))
  }

  /** The resolved path is the first existing candidate; when none pathExists,
      the error names every candidate checked. */
  lemma ResolveAgentDllPathIsFirstExisting(machine: uint16, exe: Path, pathExists: Path -> bool)
    requires |exe| >= 2
    ensures var exeDir := Parent(exe).value;
            var c := AgentCandidates(machine, exeDir, Parent(exeDir).value);
            var r := ResolveAgentDllPath(machine, Some(exe), pathExists);
            && (FirstExisting(c, pathExists).Some? ==> r == Ok(FirstExisting(c, pathExists).value))
            && (FirstExisting(c, pathExists).None? ==> r.Err?)
            && (FirstExisting(c, pathExists).None? && machine == IMAGE_FILE_MACHINE_I386 ==>
                  r == Err(X86AgentNotFound(c)))
  {
    var exeDir := Parent(exe).value;
    var c := AgentCandidates(machine, exeDir, Parent(exeDir).value);
    if machine == IMAGE_FILE_MACHINE_I386 {
      assert c[1..][1..] == [c[2]];
      assert FirstExisting([c[2]], pathExists) == if pathExists(c[2]) then Some(c[2]) else None;
      assert FirstExisting(c[1..], pathExists) == if pathExists(c[1]) then Some(c[1]) else FirstExisting([c[2]], pathExists);
    } else {
      assert FirstExisting(c, pathExists) == if pathExists(c[0]) then Some(c[0]) else None;
    }
  }

  /** The tracer's own directory is never skipped: when the `_x86` (or, for
      other machines, the plain) DLL sits beside the tracer, it is chosen. */
  lemma AgentBesideTracerWins(machine: uint16, exe: Path, pathExists: Path -> bool)
    requires |exe| >= 2
    requires pathExists(exe[..|exe| - 1] + [if machine == IMAGE_FILE_MACHINE_I386 then X86_AGENT_DLL else AGENT_DLL])
    ensures ResolveAgentDllPath(machine, Some(exe), pathExists)
            == Ok(exe[..|exe| - 1] + [if machine == IMAGE_FILE_MACHINE_I386 then X86_AGENT_DLL else AGENT_DLL])
  {
  }

  // ---------------------------------------------------------------------
  // Remote module lookup (`find_remote_module`)

  datatype ModuleEntry = ModuleEntry(name: string, path: Path, baseAddress: nat)

  /** One `CreateToolhelp32Snapshot` + `Module32FirstW`/`Module32NextW`
      walk: the snapshot can fail, the first-entry call can fail (both set
      the last error), or the walk lists at least one module. */
  datatype SnapshotOutcome =
    | SnapshotFailed(error: uint32)
    | FirstEntryFailed(error: uint32)
    | Listed(first: ModuleEntry, rest: seq<ModuleEntry>)

  /** The OS's answer for round `round` with snapshot flags `flags`. */
  type SnapshotOracle = (nat, uint32) -> SnapshotOutcome

  /** WOW64 targets are walked with the 32-bit module flag first. */
  function SnapshotFlags(machine: uint16): (f: seq<uint32>)
    ensures |f| == 2 && f[1] == TH32CS_SNAPMODULE + TH32CS_SNAPMODULE32
    ensures f[0] == if machine == IMAGE_FILE_MACHINE_I386 then TH32CS_SNAPMODULE32 else TH32CS_SNAPMODULE
  {
    if machine == IMAGE_FILE_MACHINE_I386 then [TH32CS_SNAPMODULE32, 0x18]
    else [TH32CS_SNAPMODULE, 0x18]
  }

  /** The first listed module whose name equals `wanted` ignoring ASCII case. */
  function FindEntry(entries: seq<ModuleEntry>, wanted: string): (r: Option<ModuleEntry>)
    ensures r.Some? ==> r.value in entries && EqIgnoreAsciiCase(r.value.name, wanted)
    ensures r.None? <==> forall i :: 0 <= i < |entries| ==> !EqIgnoreAsciiCase(entries[i].name, wanted)
  {
    if |entries| == 0 then None
    else if EqIgnoreAsciiCase(entries[0].name, wanted) then Some(entries[0])
    else FindEntry(entries[1..], wanted)
  }

  datatype RoundOutcome = Found(entry: ModuleEntry) | Missed(lastError: uint32)

  /** The modules a walk lists, in order. */
  function Entries(o: SnapshotOutcome): seq<ModuleEntry>
    requires o.Listed?
  {
    [o.first] + o.rest
  }

  /** The walk listed a module named `wanted`. */
  predicate WalkFinds(o: SnapshotOutcome, wanted: string) {
    o.Listed? && FindEntry(Entries(o), wanted).Some?
  }

  /** One round: each flag set in turn; only a failed snapshot or a failed
      first entry changes the last error, a full walk that misses leaves it
      as it was. */
  function SnapshotRound(snapshot: SnapshotOracle, round: nat, flags: seq<uint32>, wanted: string, lastError: uint32)
    : (r: RoundOutcome)
    ensures r.Found? ==> EqIgnoreAsciiCase(r.entry.name, wanted)
    ensures r.Missed? <==> forall i :: 0 <= i < |flags| ==> !WalkFinds(snapshot(round, flags[i]), wanted)
    decreases |flags|
  {
    if |flags| == 0 then Missed(lastError)
    else
      match snapshot(round, flags[0])
      case SnapshotFailed(e) => SnapshotRound(snapshot, round, flags[1..], wanted, e)
      case FirstEntryFailed(e) => SnapshotRound(snapshot, round, flags[1..], wanted, e)
      case Listed(first, rest) =>
        match FindEntry([first] + rest, wanted)
        case Some(m) => Found(m)
        case None => SnapshotRound(snapshot, round, flags[1..], wanted, lastError)
  }

  /** A loader still starting up reports one of these; they earn a retry. */
  predicate Retryable(e: uint32) {
    e == ERROR_PARTIAL_COPY || e == ERROR_BAD_LENGTH
  }

  function ModuleSearchError(pid: uint32, wanted: string, lastError: uint32): InjectError {
    if lastError == ERROR_PARTIAL_COPY then SnapshotBlocked(pid, lastError)
    else ModuleNotFound(wanted, pid, lastError)
  }

  /** Rounds `round..SNAPSHOT_ROUNDS`, carrying the last error across rounds. */
  function SnapshotRounds(pid: uint32, wanted: string, flags: seq<uint32>, snapshot: SnapshotOracle,
                          round: nat, lastError: uint32)
    : (r: Result<ModuleEntry, InjectError>)
    ensures r.Ok? ==> EqIgnoreAsciiCase(r.value.name, wanted)
    decreases SNAPSHOT_ROUNDS - round
  {
    if round >= SNAPSHOT_ROUNDS then Err(ModuleSearchError(pid, wanted, lastError))
    else
      match SnapshotRound(snapshot, round, flags, wanted, lastError)
      case Found(m) => Ok(m)
      case Missed(e) =>
        if Retryable(e) then SnapshotRounds(pid, wanted, flags, snapshot, round + 1, e)
        else Err(ModuleSearchError(pid, wanted, e))
  }

  /** `find_remote_module`. */
  function FindRemoteModule(pid: uint32, wanted: string, machine: uint16, snapshot: SnapshotOracle)
    : (r: Result<ModuleEntry, InjectError>)
    ensures r.Ok? ==> EqIgnoreAsciiCase(r.value.name, wanted)
  {
    SnapshotRounds(pid, wanted, SnapshotFlags(machine), snapshot, 0, 0)
  }

  /** The text of the module-search error, as `find_remote_module` formats
      it: `GetLastError=` for the "partial copy" failure, `last error=`
      otherwise. */
  function ModuleSearchErrorText(pid: uint32, wanted: string, lastError: uint32): (r: string)
    ensures lastError == ERROR_PARTIAL_COPY ==>
              && StartsWith(r, "CreateToolhelp32Snapshot(module) failed for PID " + Decimal.ToDecimal(pid) + " (")
              && Contains(r, "GetLastError=" + Decimal.ToDecimal(lastError))
              && EndsWith(r, PARTIAL_COPY_ADVICE)
    ensures lastError != ERROR_PARTIAL_COPY ==>
              && StartsWith(r, "Failed to locate module " + wanted + " in PID " + Decimal.ToDecimal(pid))
              && EndsWith(r, " (last error=" + Decimal.ToDecimal(lastError) + ").")
  {
    var d := Decimal.ToDecimal(pid);
    var e := Decimal.ToDecimal(lastError);
    if lastError == ERROR_PARTIAL_COPY then
      var head := "CreateToolhelp32Snapshot(module) failed for PID " + d + " (";
      FramedText(head, "GetLastError=", e, PARTIAL_COPY_ADVICE);
      head + "GetLastError=" + e + PARTIAL_COPY_ADVICE
    else
      var head := "Failed to locate module " + wanted + " in PID " + d;
      FramedText(head, " (last error=", e, ").");
      head + " (last error=" + e + ")."
  }

  const PARTIAL_COPY_ADVICE: string :=
    "). The target may be protected or not fully initialized yet. Try again after the process is fully up,"
    + " or run tracer/target with matching privileges."

  /** A round returns the module of the FIRST walk that lists it. */
  lemma {:induction false} SnapshotRoundFirstFinding(
    snapshot: SnapshotOracle, round: nat, flags: seq<uint32>, wanted: string, lastError: uint32, k: nat)
    requires k < |flags| && WalkFinds(snapshot(round, flags[k]), wanted)
    requires forall j :: 0 <= j < k ==> !WalkFinds(snapshot(round, flags[j]), wanted)
    ensures SnapshotRound(snapshot, round, flags, wanted, lastError)
            == Found(FindEntry(Entries(snapshot(round, flags[k])), wanted).value)
    decreases k
  {
    if k > 0 {
      assert !WalkFinds(snapshot(round, flags[0]), wanted);
      var e := match snapshot(round, flags[0])
               case SnapshotFailed(e) => e
               case FirstEntryFailed(e) => e
               case Listed(_, _) => lastError;
      assert SnapshotRound(snapshot, round, flags, wanted, lastError)
             == SnapshotRound(snapshot, round, flags[1..], wanted, e);
      forall j | 0 <= j < k - 1
        ensures !WalkFinds(snapshot(round, flags[1..][j]), wanted)
      {
        assert flags[1..][j] == flags[j + 1];
      }
      SnapshotRoundFirstFinding(snapshot, round, flags[1..], wanted, e, k - 1);
    }
  }

  /** A round reads only that round's answers. */
  lemma {:induction false} RoundReadsOnlyItsAnswers(
    s1: SnapshotOracle, s2: SnapshotOracle, round: nat, flags: seq<uint32>, wanted: string, lastError: uint32)
    requires forall f :: s1(round, f) == s2(round, f)
    ensures SnapshotRound(s1, round, flags, wanted, lastError) == SnapshotRound(s2, round, flags, wanted, lastError)
    decreases |flags|
  {
    if |flags| > 0 {
      assert s1(round, flags[0]) == s2(round, flags[0]);
      match s1(round, flags[0])
      case SnapshotFailed(e) => RoundReadsOnlyItsAnswers(s1, s2, round, flags[1..], wanted, e);
      case FirstEntryFailed(e) => RoundReadsOnlyItsAnswers(s1, s2, round, flags[1..], wanted, e);
      case Listed(_, _) => RoundReadsOnlyItsAnswers(s1, s2, round, flags[1..], wanted, lastError);
    }
  }

  /** The search makes at most ten rounds: answers the OS would give in
      later rounds never matter. */
  lemma {:induction false} AtMostTenRounds(
    pid: uint32, wanted: string, flags: seq<uint32>, s1: SnapshotOracle, s2: SnapshotOracle,
    round: nat, lastError: uint32)
    requires forall r: nat, f :: r < SNAPSHOT_ROUNDS ==> s1(r, f) == s2(r, f)
    ensures SnapshotRounds(pid, wanted, flags, s1, round, lastError)
            == SnapshotRounds(pid, wanted, flags, s2, round, lastError)
    decreases SNAPSHOT_ROUNDS - round
  {
    if round < SNAPSHOT_ROUNDS {
      RoundReadsOnlyItsAnswers(s1, s2, round, flags, wanted, lastError);
      match SnapshotRound(s1, round, flags, wanted, lastError)
      case Found(_) =>
      case Missed(e) => AtMostTenRounds(pid, wanted, flags, s1, s2, round + 1, e);
    }
  }

  /** Only errors 299 and 24 earn another round: a round that finds the
      module, or misses with any other last error, ends the search, and the
      answers of later rounds are never read. */
  lemma RoundEndsSearchUnlessRetryable(
    pid: uint32, wanted: string, flags: seq<uint32>, s1: SnapshotOracle, s2: SnapshotOracle,
    round: nat, lastError: uint32)
    requires round < SNAPSHOT_ROUNDS
    requires forall f :: s1(round, f) == s2(round, f)
    ensures var o := SnapshotRound(s1, round, flags, wanted, lastError);
            && (o.Found? ==> SnapshotRounds(pid, wanted, flags, s2, round, lastError) == Ok(o.entry))
            && (o.Missed? && !Retryable(o.lastError) ==>
                  SnapshotRounds(pid, wanted, flags, s2, round, lastError)
                  == Err(ModuleSearchError(pid, wanted, o.lastError)))
            && (o.Missed? && Retryable(o.lastError) ==>
                  SnapshotRounds(pid, wanted, flags, s2, round, lastError)
                  == SnapshotRounds(pid, wanted, flags, s2, round + 1, o.lastError))
  {
    RoundReadsOnlyItsAnswers(s1, s2, round, flags, wanted, lastError);
  }

  /** An OS that answers every snapshot with the same failure. */
  ghost predicate AlwaysFails(snapshot: SnapshotOracle, flags: seq<uint32>, e: uint32) {
    forall round: nat, i :: 0 <= i < |flags| ==> snapshot(round, flags[i]) == SnapshotFailed(e)
  }

  lemma {:induction false} RoundOfFailuresMisses(
    snapshot: SnapshotOracle, round: nat, flags: seq<uint32>, wanted: string, lastError: uint32, e: uint32)
    requires |flags| > 0
    requires forall i :: 0 <= i < |flags| ==> snapshot(round, flags[i]) == SnapshotFailed(e)
    ensures SnapshotRound(snapshot, round, flags, wanted, lastError) == Missed(e)
    decreases |flags|
  {
    assert snapshot(round, flags[0]) == SnapshotFailed(e);
    if |flags| > 1 {
      forall i | 0 <= i < |flags[1..]|
        ensures snapshot(round, flags[1..][i]) == SnapshotFailed(e)
      {
        assert flags[1..][i] == flags[i + 1];
      }
      RoundOfFailuresMisses(snapshot, round, flags[1..], wanted, e, e);
    }
  }

  /** A failure that is not retryable ends the search after one round. */
  lemma NonRetryableFailureStopsAfterOneRound(
    pid: uint32, wanted: string, flags: seq<uint32>, snapshot: SnapshotOracle, e: uint32)
    requires |flags| > 0 && !Retryable(e)
    requires forall i :: 0 <= i < |flags| ==> snapshot(0, flags[i]) == SnapshotFailed(e)
    ensures SnapshotRounds(pid, wanted, flags, snapshot, 0, 0) == Err(ModuleNotFound(wanted, pid, e))
  {
    RoundOfFailuresMisses(snapshot, 0, flags, wanted, 0, e);
  }

  /** A loader that keeps answering "partial copy" exhausts every round and
      yields the dedicated error. */
  lemma {:induction false} PersistentPartialCopyExhaustsRounds(
    pid: uint32, wanted: string, flags: seq<uint32>, snapshot: SnapshotOracle, round: nat, lastError: uint32)
    requires |flags| > 0 && round <= SNAPSHOT_ROUNDS
    requires round < SNAPSHOT_ROUNDS || lastError == ERROR_PARTIAL_COPY
    requires AlwaysFails(snapshot, flags, ERROR_PARTIAL_COPY)
    ensures SnapshotRounds(pid, wanted, flags, snapshot, round, lastError)
            == Err(SnapshotBlocked(pid, ERROR_PARTIAL_COPY))
    decreases SNAPSHOT_ROUNDS - round
  {
    if round < SNAPSHOT_ROUNDS {
      RoundOfFailuresMisses(snapshot, round, flags, wanted, lastError, ERROR_PARTIAL_COPY);
      PersistentPartialCopyExhaustsRounds(pid, wanted, flags, snapshot, round + 1, ERROR_PARTIAL_COPY);
    }
  }

  /** When the first walk of the first round lists the wanted module, the
      search returns the first matching entry of that walk. */
  lemma FirstWalkFindsModule(pid: uint32, wanted: string, machine: uint16, snapshot: SnapshotOracle,
                             first: ModuleEntry, rest: seq<ModuleEntry>)
    requires snapshot(0, SnapshotFlags(machine)[0]) == Listed(first, rest)
    requires FindEntry([first] + rest, wanted).Some?
    ensures FindRemoteModule(pid, wanted, machine, snapshot) == Ok(FindEntry([first] + rest, wanted).value)
  {
  }

  // ---------------------------------------------------------------------
  // `LoadLibraryW` in the target (`resolve_remote_loadlibraryw`)

  /** The ASCII bytes of "LoadLibraryW". */
  const LOAD_LIBRARY_W: seq<uint8> :=
    [0x4C, 0x6F, 0x61, 0x64, 0x4C, 0x69, 0x62, 0x72, 0x61, 0x72, 0x79, 0x57]

  /** The remote `kernel32.dll` base plus the export's RVA, read from the
      module's file on disk (`readFile` is `std::fs::read`). */
  function ResolveRemoteLoadLibraryW(pid: uint32, machine: uint16, snapshot: SnapshotOracle,
                                     readFile: Path -> Option<seq<uint8>>)
    : (r: Result<nat, InjectError>)
    ensures r.Ok? ==>
              && FindRemoteModule(pid, KERNEL32, machine, snapshot).Ok?
              && var kernel32 := FindRemoteModule(pid, KERNEL32, machine, snapshot).value;
                 && FindExportRvaInFile(readFile(kernel32.path), LOAD_LIBRARY_W).Ok?
                 && r.value == kernel32.baseAddress + FindExportRvaInFile(readFile(kernel32.path), LOAD_LIBRARY_W).value
  {
    var kernel32 :- FindRemoteModule(pid, KERNEL32, machine, snapshot);
    match FindExportRvaInFile(readFile(kernel32.path), LOAD_LIBRARY_W)
    case Err(e) => Err(ExportLookupFailed(e))
    case Ok(rva) => Ok(kernel32.baseAddress + rva)
  }

  // ---------------------------------------------------------------------
  // The remote-call sequence (`inject_agent_dll`)

  /** Outcomes of the Win32 calls after the agent path is known. */
  datatype RemoteCalls = RemoteCalls(
    allocOk: bool,
    written: Option<nat>,      // `None`: WriteProcessMemory failed; else bytes written
    threadOk: bool,
    waitResult: uint32,
    exitCode: Option<uint32>)  // `None`: GetExitCodeThread failed

  const WAIT_OBJECT_0: uint32 := 0

  /** The path as `display()` writes it, components joined by `\`. */
  function Display(p: Path): string {
    if |p| == 0 then "" else if |p| == 1 then p[0] else Display(p[..|p| - 1]) + "\\" + p[|p| - 1]
  }

  /** UTF-16 code units of a string: two for a scalar above U+FFFF. */
  function Utf16Length(s: string): nat {
    if |s| == 0 then 0 else (if s[0] as int >= 0x1_0000 then 2 else 1) + Utf16Length(s[1..])
  }

  /** Bytes of the NUL-terminated wide path copied into the target. */
  function WidePathBytes(p: Path): nat {
    (Utf16Length(Display(p)) + 1) * 2
  }

  datatype Injection = Injection(result: Result<string, InjectError>, bufferAllocated: bool, bufferFrees: nat)

  /** The remote half of `inject_agent_dll`: allocate a buffer in the target,
      copy the wide path in, run `LoadLibraryW` on it in a remote thread,
      wait, and read the module handle it returned. */
  function RunRemoteLoad(dll: Path, c: RemoteCalls): (r: Injection)
    ensures r.bufferFrees == (if r.bufferAllocated then 1 else 0)
    ensures r.bufferAllocated <==> c.allocOk
    ensures r.result.Ok? <==>
              && c.allocOk && c.written == Some(WidePathBytes(dll)) && c.threadOk
              && c.waitResult == WAIT_OBJECT_0 && c.exitCode.Some? && c.exitCode.value != 0
    ensures r.result.Ok? ==> r.result.value == Display(dll)
  {
    if !c.allocOk then Injection(Err(AllocFailed), false, 0)
    else if c.written != Some(WidePathBytes(dll)) then Injection(Err(WriteFailed), true, 1)
    else if !c.threadOk then Injection(Err(CreateThreadFailed), true, 1)
    else if c.waitResult != WAIT_OBJECT_0 then Injection(Err(WaitFailed(c.waitResult)), true, 1)
    else
      match c.exitCode
      case None => Injection(Err(ExitCodeFailed), true, 1)
      case Some(handle) =>
        if handle == 0 then Injection(Err(LoadLibraryReturnedNull(dll)), true, 1)
        else Injection(Ok(Display(dll)), true, 1)
  }

  /** Everything the OS and filesystem report to `inject_agent_dll`. */
  datatype System = System(
    openOk: bool,
    wow64Process2: Option<Wow64Report>,
    wow64Process: Option<bool>,
    host: HostArch,
    currentExe: Option<Path>,
    pathExists: Path -> bool,
    x86RuntimeOk: bool,
    snapshot: SnapshotOracle,
    readFile: Path -> Option<seq<uint8>>,
    remote: RemoteCalls)

  /** Every step `inject_agent_dll` takes before touching the target's
      memory succeeds: the process opens, its machine is known, an agent
      image for it exists, the x86 runtime is in place for an I386 target,
      and `LoadLibraryW` is located in the target. */
  predicate LocalStepsSucceed(pid: uint32, sys: System) {
    && sys.openOk
    && DetectProcessMachine(sys.wow64Process2, sys.wow64Process, sys.host).Ok?
    && var machine := DetectProcessMachine(sys.wow64Process2, sys.wow64Process, sys.host).value;
       && ResolveAgentDllPath(machine, sys.currentExe, sys.pathExists).Ok?
       && (machine == IMAGE_FILE_MACHINE_I386 ==> sys.x86RuntimeOk)
       && ResolveRemoteLoadLibraryW(pid, machine, sys.snapshot, sys.readFile).Ok?
  }

  /** `inject_agent_dll`: the whole sequence. No buffer is allocated in the
      target before every local decision has succeeded. */
  function InjectAgentDll(pid: uint32, sys: System): (r: Injection)
    ensures r.bufferFrees == (if r.bufferAllocated then 1 else 0)
    ensures r.bufferAllocated <==> LocalStepsSucceed(pid, sys) && sys.remote.allocOk
    ensures !LocalStepsSucceed(pid, sys) ==> r.result.Err? && !r.bufferAllocated && r.bufferFrees == 0
    ensures r.result.Ok? ==>
              && LocalStepsSucceed(pid, sys)
              && var machine := DetectProcessMachine(sys.wow64Process2, sys.wow64Process, sys.host).value;
                 r.result.value == Display(ResolveAgentDllPath(machine, sys.currentExe, sys.pathExists).value)
  {
    if !sys.openOk then Injection(Err(OpenProcessFailed(pid)), false, 0)
    else
      match DetectProcessMachine(sys.wow64Process2, sys.wow64Process, sys.host)
      case Err(e) => Injection(Err(e), false, 0)
      case Ok(machine) =>
        match ResolveAgentDllPath(machine, sys.currentExe, sys.pathExists)
        case Err(e) => Injection(Err(e), false, 0)
        case Ok(dll) =>
          if machine == IMAGE_FILE_MACHINE_I386 && !sys.x86RuntimeOk then
            Injection(Err(X86RuntimeMissing), false, 0)
          else
            match ResolveRemoteLoadLibraryW(pid, machine, sys.snapshot, sys.readFile)
            case Err(e) => Injection(Err(e), false, 0)
            case Ok(_) => RunRemoteLoad(dll, sys.remote)
  }

  /** With no agent image for the target's machine, the injection fails
      with that error before any call into the target's memory. */
  lemma MissingAgentMakesNoRemoteCalls(pid: uint32, sys: System)
    requires sys.openOk && DetectProcessMachine(sys.wow64Process2, sys.wow64Process, sys.host).Ok?
    requires ResolveAgentDllPath(DetectProcessMachine(sys.wow64Process2, sys.wow64Process, sys.host).value,
                                 sys.currentExe, sys.pathExists).Err?
    ensures var machine := DetectProcessMachine(sys.wow64Process2, sys.wow64Process, sys.host).value;
            InjectAgentDll(pid, sys)
            == Injection(Err(ResolveAgentDllPath(machine, sys.currentExe, sys.pathExists).error), false, 0)
  {
  }
}
