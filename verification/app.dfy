/** The viewer application's attach retry policy and selection upkeep
    (`app::WinApiTraceApp`). Injection and process enumeration are the
    injector's and the operating system's: here they are oracle answers. */
module App {
  import opened Wrappers
  import opened Ints
  import opened Text
  import opened Decimal
  import opened Events
  import LoadedDllTable
  import ProcessLaunch
  import Injector

  // ---- Retrying an attach after resume -------------------------------------------------

  /** The error texts after which an attach is retried once the launched
      process has been resumed. */
  const RETRY_MARKERS: seq<string> := ["GetLastError=299", "last error=299", "ERROR_PARTIAL_COPY", "ERROR_BAD_LENGTH"]

  /** `should_retry_attach_after_resume`. */
  predicate ShouldRetryAttachAfterResume(error: string) {
    || Contains(error, "GetLastError=299")
    || Contains(error, "last error=299")
    || Contains(error, "ERROR_PARTIAL_COPY")
    || Contains(error, "ERROR_BAD_LENGTH")
  }

  lemma ContainsInMiddle(prefix: string, marker: string, suffix: string)
    ensures Contains(prefix + marker + suffix, marker)
  {
    var s := prefix + marker + suffix;
    assert s[|prefix|..|prefix| + |marker|] == marker;
    assert OccursAt(s, marker, |prefix|);
  }

  /** A marker anywhere in the error text makes the attach retried. */
  lemma MarkerAnywhereRetries(prefix: string, marker: string, suffix: string)
    requires marker in RETRY_MARKERS
    ensures ShouldRetryAttachAfterResume(prefix + marker + suffix)
  {
    ContainsInMiddle(prefix, marker, suffix);
  }

  /** An occurrence of a longer text contains every occurrence inside it. */
  lemma ContainsInner(hay: string, outer: string, inner: string, j: nat)
    requires Contains(hay, outer) && OccursAt(outer, inner, j)
    ensures Contains(hay, inner)
  {
    var i :| 0 <= i <= |hay| - |outer| && OccursAt(hay, outer, i);
    forall k | 0 <= k < |inner| ensures hay[i + j + k] == inner[k] {
      assert hay[i + j + k] == outer[j + k];
      assert outer[j + k] == outer[j..j + |inner|][k];
    }
    assert hay[i + j..i + j + |inner|] == inner;
    assert OccursAt(hay, inner, i + j);
  }

  /** Errors that mention neither `299` nor `ERROR_` are never retried. */
  lemma NoMarkerNoRetry(error: string)
    requires !Contains(error, "299") && !Contains(error, "ERROR_")
    ensures !ShouldRetryAttachAfterResume(error)
  {
    if Contains(error, "GetLastError=299") {
      assert OccursAt("GetLastError=299", "299", 13);
      ContainsInner(error, "GetLastError=299", "299", 13);
    }
    if Contains(error, "last error=299") {
      assert OccursAt("last error=299", "299", 11);
      ContainsInner(error, "last error=299", "299", 11);
    }
    if Contains(error, "ERROR_PARTIAL_COPY") {
      assert OccursAt("ERROR_PARTIAL_COPY", "ERROR_", 0);
      ContainsInner(error, "ERROR_PARTIAL_COPY", "ERROR_", 0);
    }
    if Contains(error, "ERROR_BAD_LENGTH") {
      assert OccursAt("ERROR_BAD_LENGTH", "ERROR_", 0);
      ContainsInner(error, "ERROR_BAD_LENGTH", "ERROR_", 0);
    }
  }

  /** No occurrence of `needle` fits in a text that lacks one of its
      characters. */
  lemma MissingCharNoContains(hay: string, needle: string, k: nat)
    requires k < |needle| && needle[k] !in hay
    ensures !Contains(hay, needle)
  {
  }

  lemma DigitsLack(d: string, c: char)
    requires AllDigits(d) && !IsDigit(c)
    ensures c !in d
  {
  }

  /** The injector's module search that stopped on "partial copy" (error
      299) is retried after resume. */
  lemma PartialCopySearchRetried(pid: uint32, wanted: string)
    ensures ShouldRetryAttachAfterResume(Injector.ModuleSearchErrorText(pid, wanted, Injector.ERROR_PARTIAL_COPY))
  {
    assert ToDecimal(2) == "2";
    assert ToDecimal(29) == "29";
    assert ToDecimal(299) == "299";
    assert "GetLastError=" + ToDecimal(299) == "GetLastError=299";
    ContainsJoined("CreateToolhelp32Snapshot(module) failed for PID " + ToDecimal(pid) + " (",
                   "GetLastError=", ToDecimal(299), Injector.PARTIAL_COPY_ADVICE);
  }

  /** A text whose only `=` is followed by something other than `29`, and
      that has no `_` and no `G`, holds none of the retry markers. */
  lemma SingleEqualsNoMarker(pre: string, mid: string, code: string, post: string)
    requires '_' !in pre && '_' !in mid && '_' !in code && '_' !in post
    requires 'G' !in pre && 'G' !in mid && 'G' !in code && 'G' !in post
    requires '=' !in pre && '=' !in code && '=' !in post
    requires |mid| >= 1 && mid[|mid| - 1] == '=' && forall j :: 0 <= j < |mid| - 1 ==> mid[j] != '='
    requires |code| >= 2 && code[1] != '9'
    ensures !ShouldRetryAttachAfterResume(pre + mid + code + post)
  {
    var text := pre + mid + code + post;
    assert '_' !in text && 'G' !in text;
    MissingCharNoContains(text, "ERROR_PARTIAL_COPY", 5);
    MissingCharNoContains(text, "ERROR_BAD_LENGTH", 5);
    MissingCharNoContains(text, "GetLastError=299", 0);
    var marker := "last error=299";
    forall i | 0 <= i <= |text| - 14
      ensures OccursAt(text, marker, i) ==> text[i + 10] == '=' && text[i + 12] == '9'
    {
      if OccursAt(text, marker, i) {
        assert text[i..i + 14][10] == text[i + 10];
        assert text[i..i + 14][12] == text[i + 12];
      }
    }
    forall at | 10 <= at <= |text| - 4
      ensures text[at] != '=' || text[at + 2] != '9'
    {
      if at < |pre| {
        assert text[at] == pre[at];
      } else if at < |pre| + |mid| - 1 {
        assert text[at] == mid[at - |pre|];
      } else if at == |pre| + |mid| - 1 {
        assert text[at + 2] == code[1];
      } else if at < |pre| + |mid| + |code| {
        assert text[at] == code[at - |pre| - |mid|];
      } else {
        assert text[at] == post[at - |pre| - |mid| - |code|];
      }
    }
  }

  /** The search for `kernel32.dll` that gave up on error 24 is NOT retried
      after resume: its text reads `last error=24`, and none of the markers
      occurs in it, whatever the PID. */
  lemma BadLengthSearchNotRetried(pid: uint32)
    ensures !ShouldRetryAttachAfterResume(Injector.ModuleSearchErrorText(pid, Injector.KERNEL32, Injector.ERROR_BAD_LENGTH))
  {
    var d := ToDecimal(pid);
    var e := ToDecimal(24);
    assert ToDecimal(2) == "2";
    assert e == "24";
    var head := "Failed to locate module " + Injector.KERNEL32 + " in PID ";
    var mid := " (last error=";
    SearchTextPiecesLackMarkers(head, mid);
    DigitsLack(d, '_');
    DigitsLack(d, 'G');
    DigitsLack(d, '=');
    SingleEqualsNoMarker(head + d, mid, e, ").");
  }

  /** The fixed pieces of the module-search text hold no `_` or `G`, and the
      only `=` among them is the one closing `last error=`. */
  lemma SearchTextPiecesLackMarkers(head: string, mid: string)
    requires head == "Failed to locate module " + Injector.KERNEL32 + " in PID "
    requires mid == " (last error="
    ensures '_' !in head && 'G' !in head && '=' !in head
    ensures '_' !in mid && 'G' !in mid
    ensures |mid| >= 1 && mid[|mid| - 1] == '=' && forall j :: 0 <= j < |mid| - 1 ==> mid[j] != '='
  {
    assert NoMarkerChar("Failed to locate module ");
    assert NoMarkerChar(Injector.KERNEL32);
    assert NoMarkerChar(" in PID ");
    assert NoMarkerChar(" (last error");
    LacksMarkerChars("Failed to locate module ");
    LacksMarkerChars(Injector.KERNEL32);
    LacksMarkerChars(" in PID ");
    LacksMarkerChars(" (last error");
    assert mid == " (last error" + "=";
  }

  /** None of `_`, `G` and `=` occurs in `s`. */
  predicate NoMarkerChar(s: string) {
    forall k :: 0 <= k < |s| ==> s[k] != '_' && s[k] != 'G' && s[k] != '='
  }

  lemma LacksMarkerChars(s: string)
    requires NoMarkerChar(s)
    ensures '_' !in s && 'G' !in s && '=' !in s
  {
  }

  /** `retry_attach_after_resume`: `inject(k)` is what `inject_agent_dll`
      returns on the `k`-th attempt (the short sleep between attempts is not
      modelled). Returns the result and the number of attempts made. */
  method RetryAttachAfterResume(attempts: nat, inject: nat -> Result<string, string>)
    returns (r: Result<(nat, string), string>, calls: nat)
    ensures calls <= attempts
    ensures r.Ok? <==> exists k :: 1 <= k <= attempts && inject(k).Ok?
    ensures r.Ok? ==>
              && 1 <= r.value.0 <= attempts && calls == r.value.0
              && inject(r.value.0) == Ok(r.value.1)
              && forall k :: 1 <= k < r.value.0 ==> inject(k).Err?
    ensures r.Err? ==>
              && calls == attempts
              && r.error == (if attempts == 0 then "" else inject(attempts).error)
  {
    var lastError := "";
    var attempt := 1;
    calls := 0;
    while attempt <= attempts
      invariant 1 <= attempt <= attempts + 1
      invariant calls == attempt - 1
      invariant forall k :: 1 <= k < attempt ==> inject(k).Err?
      invariant lastError == (if attempt == 1 then "" else inject(attempt - 1).error)
    {
      calls := calls + 1;
      match inject(attempt) {
        case Ok(dllPath) =>
          r := Ok((attempt, dllPath));
          return;
        case Err(error) =>
          lastError := error;
      }
      attempt := attempt + 1;
    }
    r := Err(lastError);
  }

  // ---- Process list and selections ------------------------------------------------------

  /** `model::process::ProcessEntry`. */
  datatype ProcessEntry = ProcessEntry(pid: uint32, name: string)

  /** The process-list part of the application state. */
  datatype ProcessPanel = ProcessPanel(processes: seq<ProcessEntry>, selected: Option<nat>, status: string)

  predicate ValidSelection(p: ProcessPanel) {
    p.selected.Some? ==> p.selected.value < |p.processes|
  }

  /** `refresh_process_list`, with `listing` the answer of
      `enumerate_processes`. */
  function RefreshProcessList(p: ProcessPanel, listing: Result<seq<ProcessEntry>, string>): (r: ProcessPanel)
    ensures listing.Ok? ==> r.processes == listing.value && r.status == p.status && ValidSelection(r)
    ensures listing.Ok? && p.selected.Some? && p.selected.value < |listing.value| ==> r.selected == p.selected
    ensures listing.Ok? && r.selected != p.selected ==> r.selected.None?
    ensures listing.Err? ==>
              r.processes == p.processes && r.selected == p.selected
              && r.status == "Process list refresh failed: " + listing.error
  {
    match listing
    case Ok(processes) =>
      var selected := if p.selected.Some? && p.selected.value >= |processes| then None else p.selected;
      p.(processes := processes, selected := selected)
    case Err(error) =>
      p.(status := "Process list refresh failed: " + error)
  }

  /** A valid selection stays valid whatever the enumeration answers. */
  lemma RefreshKeepsSelectionValid(p: ProcessPanel, listing: Result<seq<ProcessEntry>, string>)
    requires ValidSelection(p)
    ensures ValidSelection(RefreshProcessList(p, listing))
  {
  }

  /** The Events tab drops a selected event that is no longer visible, so
      the details panel never shows a hidden event. */
  function ClearHiddenSelection(selected: Option<nat>, visible: seq<nat>): (r: Option<nat>)
    ensures r.Some? ==> r.value in visible
    ensures r == selected || r.None?
    ensures selected.Some? && selected.value in visible ==> r == selected
  {
    if selected.Some? && selected.value !in visible then None else selected
  }

  // ---- Attach requests --------------------------------------------------------------------

  /** The status line after an attach request, and whether the process list
      is refreshed afterwards. */
  datatype AttachOutcome = AttachOutcome(status: string, refresh: bool)

  /** `handle_attach_request`: attaching to the viewer's own process installs
      the hooks locally (`install` answers); any other PID is injected
      (`inject` answers). */
  function HandleAttachRequest(pid: uint32, currentPid: uint32, install: Result<(), string>,
                               inject: Result<string, string>): (r: AttachOutcome)
    ensures r.refresh <==> pid != currentPid && inject.Ok?
    ensures pid == currentPid && install.Ok? ==>
              r.status == "Attached. Local hooks active in PID " + ToDecimal(currentPid) + "."
    ensures pid == currentPid && install.Err? ==> r.status == "Hook install failed: " + install.error
    ensures pid != currentPid && inject.Ok? ==>
              r.status == "Injected agent into PID " + ToDecimal(pid) + " using " + inject.value
    ensures pid != currentPid && inject.Err? ==>
              r.status == "Attach failed for PID " + ToDecimal(pid) + ": " + inject.error
  {
    if pid == currentPid then
      match install
      case Ok(_) => AttachOutcome("Attached. Local hooks active in PID " + ToDecimal(currentPid) + ".", false)
      case Err(e) => AttachOutcome("Hook install failed: " + e, false)
    else
      match inject
      case Ok(dllPath) => AttachOutcome("Injected agent into PID " + ToDecimal(pid) + " using " + dllPath, true)
      case Err(e) => AttachOutcome("Attach failed for PID " + ToDecimal(pid) + ": " + e, false)
  }

  /** The viewer never injects into itself, and never installs local hooks
      for another process. */
  lemma AttachTakesOnePath(pid: uint32, currentPid: uint32, install: Result<(), string>, install2: Result<(), string>,
                           inject: Result<string, string>, inject2: Result<string, string>)
    ensures pid == currentPid ==>
              HandleAttachRequest(pid, currentPid, install, inject) == HandleAttachRequest(pid, currentPid, install, inject2)
    ensures pid != currentPid ==>
              HandleAttachRequest(pid, currentPid, install, inject) == HandleAttachRequest(pid, currentPid, install2, inject)
  {
  }

  // ---- Launch and attach --------------------------------------------------------------------

  /** The number of attach attempts after a resume. */
  const RESUME_RETRY_ATTEMPTS: nat := 16

  /** How `handle_launch_and_attach_request` ends. */
  datatype LaunchOutcome =
    | LaunchFailed(error: string)
    | ResumeFailed(pid: uint32, error: string)
    | AttachedBeforeResume(pid: uint32)
    | AttachFailed(pid: uint32, error: string)
    | RetrySucceeded(pid: uint32, attempt: nat, dllPath: string)
    | RetryFailed(pid: uint32, error: string, retryError: string)

  /** The status line each outcome leaves. */
  function LaunchStatus(o: LaunchOutcome): string {
    match o
    case LaunchFailed(error) => "Launch failed: " + error
    case ResumeFailed(pid, error) => "Launch failed to resume PID " + ToDecimal(pid) + ": " + error
    case AttachedBeforeResume(pid) =>
      "Attached to PID " + ToDecimal(pid) + " before resume. Early graphics init calls should now be visible."
    case AttachFailed(pid, error) => "Process PID " + ToDecimal(pid) + " resumed, but attach failed: " + error
    case RetrySucceeded(_, attempt, dllPath) =>
      "Initial suspended attach failed, but retry succeeded after resume (attempt " + ToDecimal(attempt) + ") using " + dllPath
    case RetryFailed(pid, error, retryError) =>
      "Process PID " + ToDecimal(pid) + " resumed, initial attach failed (" + error + "), and retry also failed: " + retryError
  }

  /** `handle_launch_and_attach_request`: `launch` is what
      `launch_target_exe_suspended` returned, `inject(0)` the attach while
      suspended and `inject(k)` the `k`-th attach after resume, `resume` what
      `SuspendedProcess::resume` returned. Also returns the number of
      injection attempts. */
  method HandleLaunchAndAttach(launch: Result<ProcessLaunch.SuspendedProcess, string>,
                               inject: nat -> Result<string, string>, resume: Result<(), string>)
    returns (o: LaunchOutcome, injectCalls: nat, refresh: bool)
    ensures refresh <==> launch.Ok? && resume.Ok?
    ensures refresh <==> !o.LaunchFailed? && !o.ResumeFailed?
    ensures launch.Err? <==> o.LaunchFailed?
    ensures launch.Err? ==> o == LaunchFailed(launch.error) && injectCalls == 0
    ensures launch.Ok? ==> !o.LaunchFailed? && o.pid == launch.value.pid && 1 <= injectCalls <= 1 + RESUME_RETRY_ATTEMPTS
    ensures launch.Ok? && resume.Err? ==> o == ResumeFailed(launch.value.pid, resume.error) && injectCalls == 1
    ensures launch.Ok? && resume.Ok? && inject(0).Ok? ==> o == AttachedBeforeResume(launch.value.pid)
    ensures o.RetrySucceeded? || o.RetryFailed? <==>
              launch.Ok? && resume.Ok? && inject(0).Err? && ShouldRetryAttachAfterResume(inject(0).error)
    ensures launch.Ok? && resume.Ok? && inject(0).Err? && !ShouldRetryAttachAfterResume(inject(0).error) ==>
              o == AttachFailed(launch.value.pid, inject(0).error) && injectCalls == 1
    ensures o.RetrySucceeded? ==>
              && 1 <= o.attempt <= RESUME_RETRY_ATTEMPTS && injectCalls == 1 + o.attempt
              && inject(o.attempt) == Ok(o.dllPath)
              && forall k :: 0 <= k < o.attempt ==> inject(k).Err?
    ensures o.RetryFailed? ==>
              && (forall k :: 0 <= k <= RESUME_RETRY_ATTEMPTS ==> inject(k).Err?)
              && inject(0).Err? && inject(RESUME_RETRY_ATTEMPTS).Err?
              && o.error == inject(0).error && o.retryError == inject(RESUME_RETRY_ATTEMPTS).error
              && injectCalls == 1 + RESUME_RETRY_ATTEMPTS
  {
    if launch.Err? {
      return LaunchFailed(launch.error), 0, false;
    }
    var pid := launch.value.pid;
    var first := inject(0);
    injectCalls := 1;
    if resume.Err? {
      return ResumeFailed(pid, resume.error), injectCalls, false;
    }
    refresh := true;
    if first.Ok? {
      return AttachedBeforeResume(pid), injectCalls, refresh;
    }
    if ShouldRetryAttachAfterResume(first.error) {
      var retried, calls := RetryAttachAfterResume(RESUME_RETRY_ATTEMPTS, inject);
      injectCalls := 1 + calls;
      if retried.Ok? {
        o := RetrySucceeded(pid, retried.value.0, retried.value.1);
      } else {
        o := RetryFailed(pid, first.error, retried.error);
      }
    } else {
      o := AttachFailed(pid, first.error);
    }
  }

  /** What the viewer shows once `handle_launch_and_attach_request` returns. */
  datatype LaunchView = LaunchView(panel: ProcessPanel, pidInput: string)

  /** The state the launch request leaves: a launched PID is copied into the
      PID text box, the status line is the outcome's, and when the process
      was resumed the process list is refreshed (`listing` is what
      `enumerate_processes` answers), whose failure overwrites the status. */
  function ApplyLaunch(panel: ProcessPanel, pidInput: string, o: LaunchOutcome, refresh: bool,
                       listing: Result<seq<ProcessEntry>, string>): (r: LaunchView)
    ensures r.pidInput == (if o.LaunchFailed? then pidInput else ToDecimal(o.pid))
    ensures !refresh ==>
              r.panel.processes == panel.processes && r.panel.selected == panel.selected
              && r.panel.status == LaunchStatus(o)
    ensures refresh && listing.Ok? ==>
              r.panel.processes == listing.value && r.panel.status == LaunchStatus(o)
              && ValidSelection(r.panel)
              && (r.panel.selected == panel.selected || r.panel.selected.None?)
              && (panel.selected.Some? && panel.selected.value < |listing.value| ==> r.panel.selected == panel.selected)
    ensures refresh && listing.Err? ==>
              r.panel.processes == panel.processes && r.panel.selected == panel.selected
              && r.panel.status == "Process list refresh failed: " + listing.error
  {
    var pidText := if o.LaunchFailed? then pidInput else ToDecimal(o.pid);
    var shown := panel.(status := LaunchStatus(o));
    LaunchView(if refresh then RefreshProcessList(shown, listing) else shown, pidText)
  }

  // ---- Live events --------------------------------------------------------------------------

  /** `drain_live_events`: every received event goes to the DLL table and
      then to the event list, in arrival order. */
  function DrainLiveEvents(dlls: LoadedDllTable.LoadedDlls, events: seq<Event>, incoming: seq<Event>): (LoadedDllTable.LoadedDlls, seq<Event>)
  {
    (LoadedDllTable.ObserveAll(dlls, incoming), events + incoming)
  }

  lemma {:induction false} ObserveAllAppend(dlls: LoadedDllTable.LoadedDlls, a: seq<Event>, b: seq<Event>)
    ensures LoadedDllTable.ObserveAll(LoadedDllTable.ObserveAll(dlls, a), b) == LoadedDllTable.ObserveAll(dlls, a + b)
    decreases |b|
  {
    if |b| == 0 {
      assert a + b == a;
    } else {
      assert (a + b)[..|a + b| - 1] == a + b[..|b| - 1];
      assert (a + b)[|a + b| - 1] == b[|b| - 1];
      ObserveAllAppend(dlls, a, b[..|b| - 1]);
    }
  }

  /** How the received events are split into frames does not matter: two
      drains give the state of one drain of both batches. */
  lemma DrainInBatches(dlls: LoadedDllTable.LoadedDlls, events: seq<Event>, a: seq<Event>, b: seq<Event>)
    ensures var first := DrainLiveEvents(dlls, events, a);
            DrainLiveEvents(first.0, first.1, b) == DrainLiveEvents(dlls, events, a + b)
  {
    ObserveAllAppend(dlls, a, b);
    assert events + a + b == events + (a + b);
  }
}
