/** The left panel of the viewer (`app::widgets::left_panel`): PID entry and
    its validation, the three buttons, and the process list whose rows fill
    in the PID. Drawing is not modelled; a frame's clicks are an input. */
module LeftPanel {
  import opened Wrappers
  import opened Ints
  import opened Text
  import opened Decimal
  import App

  const ENTER_PID: string := "Enter a PID to enable attach."
  const PID_NOT_POSITIVE: string := "PID must be greater than 0."
  const PID_NOT_NUMBER: string := "PID must be a valid number."

  /** `validate_pid`: the trimmed input must be a non-zero `u32`. */
  function ValidatePid(input: string): (r: Result<uint32, string>)
    ensures AllWhitespace(input) <==> r == Err(ENTER_PID)
    ensures r == Err(PID_NOT_POSITIVE) <==> !AllWhitespace(input) && ParseU32(Trim(input)) == Some(0)
    ensures r == Err(PID_NOT_NUMBER) <==> !AllWhitespace(input) && !IsU32Literal(Trim(input))
    ensures r.Ok? <==> IsU32Literal(Trim(input)) && Value(SignStripped(Trim(input))) > 0
    ensures r.Ok? ==> r.value > 0 && r.value == Value(SignStripped(Trim(input)))
  {
    TrimEmptyIffBlank(input);
    var trimmed := Trim(input);
    if |trimmed| == 0 then Err(ENTER_PID)
    else
      match ParseU32(trimmed)
      case Some(pid) => if pid == 0 then Err(PID_NOT_POSITIVE) else Ok(pid)
      case None => Err(PID_NOT_NUMBER)
  }

  lemma DigitsNotWhitespace(s: string)
    requires AllDigits(s)
    ensures forall i :: 0 <= i < |s| ==> !IsWhitespace(s[i])
  {
    forall i | 0 <= i < |s| ensures !IsWhitespace(s[i]) {
      assert IsDigit(s[i]);
    }
  }

  /** The decimal rendering of a PID validates back to that PID; PID 0 is
      refused as not positive. */
  lemma ValidatePidOfDecimal(pid: uint32)
    ensures ValidatePid(ToDecimal(pid)) == if pid == 0 then Err(PID_NOT_POSITIVE) else Ok(pid)
  {
    var s := ToDecimal(pid);
    DigitsNotWhitespace(s);
    TrimOfTrimmed(s);
    ParseU32OfToDecimal(pid);
    assert !IsWhitespace(s[0]);
  }

  /** `LeftPanelAction`. */
  datatype Action = Attach(pid: uint32) | RefreshProcesses | LaunchAndAttach

  /** What the user clicked during one frame. `row` is the index of a
      clicked process row. */
  datatype Clicks = Clicks(attach: bool, launch: bool, refresh: bool, row: Option<nat>)

  datatype Frame = Frame(action: Option<Action>, pidInput: string, selected: Option<nat>)

  /** `show`: the Attach button is enabled only while the PID validates; a
      later button in the panel overrides an earlier one; a row click
      selects the row and puts its PID in the input box. The validation is
      that of the input as it was before the row click. */
  function Show(pidInput: string, processes: seq<App.ProcessEntry>, selected: Option<nat>, clicks: Clicks): (r: Frame)
    ensures clicks.refresh <==> r.action == Some(RefreshProcesses)
    ensures r.action == Some(LaunchAndAttach) <==> clicks.launch && !clicks.refresh
    ensures r.action.Some? && r.action.value.Attach? <==>
              clicks.attach && !clicks.launch && !clicks.refresh && ValidatePid(pidInput).Ok?
    ensures r.action.Some? && r.action.value.Attach? ==> ValidatePid(pidInput) == Ok(r.action.value.pid)
    ensures clicks.row.Some? && clicks.row.value < |processes| ==>
              r.selected == clicks.row && r.pidInput == ToDecimal(processes[clicks.row.value].pid)
    ensures !(clicks.row.Some? && clicks.row.value < |processes|) ==>
              r.selected == selected && r.pidInput == pidInput
  {
    var validation := ValidatePid(pidInput);
    var action := if clicks.attach && validation.Ok? then Some(Attach(validation.value)) else None;
    var action := if clicks.launch then Some(LaunchAndAttach) else action;
    var action := if clicks.refresh then Some(RefreshProcesses) else action;
    match clicks.row
    case Some(index) =>
      if index < |processes| then Frame(action, ToDecimal(processes[index].pid), Some(index))
      else Frame(action, pidInput, selected)
    case None => Frame(action, pidInput, selected)
  }

  /** After a row click the next frame's Attach is armed with that row's
      PID, unless it is 0. */
  lemma RowClickArmsAttach(pidInput: string, processes: seq<App.ProcessEntry>, selected: Option<nat>, clicks: Clicks, next: Clicks)
    requires clicks.row.Some? && clicks.row.value < |processes|
    requires next.attach && !next.launch && !next.refresh
    ensures var f := Show(pidInput, processes, selected, clicks);
            var pid := processes[clicks.row.value].pid;
            var g := Show(f.pidInput, processes, f.selected, next);
            g.action == if pid == 0 then None else Some(Attach(pid))
  {
    ValidatePidOfDecimal(processes[clicks.row.value].pid);
  }
}
