/** Launching the target suspended (`util::process_launch`): validation of
    the EXE path the user typed, the `CreateProcessW` call and the later
    `ResumeThread`. The file system and the two Win32 calls are oracle
    answers. Path syntax is that of `std::path` on Windows, where both `\`
    and `/` separate components. */
module ProcessLaunch {
  import opened Wrappers
  import opened Ints
  import opened Text
  import opened Decimal
  import LoadedDllTable

  const ENTER_EXE: string := "Enter an EXE path."
  const NOT_EXE: string := "Target must be an .exe file."

  // ---- Path syntax ------------------------------------------------------------------------

  function TrimTrailingSeparators(p: string): (r: string)
    ensures |r| <= |p| && r == p[..|r|]
    ensures |r| > 0 ==> !LoadedDllTable.IsSeparator(r[|r| - 1])
    decreases |p|
  {
    if |p| > 0 && LoadedDllTable.IsSeparator(p[|p| - 1]) then TrimTrailingSeparators(p[..|p| - 1]) else p
  }

  /** `Path::file_name`: the last component, ignoring trailing separators;
      none for a path ending in `.` or `..` or with no component. */
  function FileName(p: string): (r: Option<string>)
    ensures r.Some? ==> |r.value| > 0 && r.value != ".." && r.value != "."
    ensures r.Some? ==> forall i :: 0 <= i < |r.value| ==> !LoadedDllTable.IsSeparator(r.value[i])
  {
    var name := LoadedDllTable.Basename(TrimTrailingSeparators(p));
    if name == [] || name == "." || name == ".." then None else Some(name)
  }

  /** The index of the last `c` in `s`, or -1. */
  function LastIndexOf(s: string, c: char): (i: int)
    ensures -1 <= i < |s|
    ensures i >= 0 ==> s[i] == c
    ensures forall j :: i < j < |s| ==> s[j] != c
    decreases |s|
  {
    if |s| == 0 then -1
    else if s[|s| - 1] == c then |s| - 1
    else LastIndexOf(s[..|s| - 1], c)
  }

  /** `Path::extension` of a file name: the text after the last dot, unless
      there is no dot or the only text before it is empty (a dot file). */
  function Extension(name: string): (r: Option<string>)
    ensures r.Some? ==> exists i :: 0 < i < |name| && name[i] == '.' && r.value == name[i + 1..]
    ensures r.Some? ==> forall j :: 0 <= j < |r.value| ==> r.value[j] != '.'
  {
    if name == ".." then None
    else
      var i := LastIndexOf(name, '.');
      if i <= 0 then None
      else
        Some(name[i + 1..])
  }

  /** The `is_exe` test: the extension is `exe` in any letter case. */
  predicate IsExe(p: string) {
    match FileName(p)
    case None => false
    case Some(name) => Extension(name).Some? && EqIgnoreAsciiCase(Extension(name).value, "exe")
  }

  /** A file system as `validate_exe_path` consults it. */
  datatype FileSystem = FileSystem(pathExists: string -> bool, isFile: string -> bool)

  /** `validate_exe_path`: the trimmed path must name an existing file with
      an `.exe` extension. */
  function ValidateExePath(path: string, fs: FileSystem): (r: Result<string, string>)
    ensures AllWhitespace(path) <==> r == Err(ENTER_EXE)
    ensures !AllWhitespace(path) && !fs.pathExists(Trim(path)) ==> r == Err("File does not exist: " + Trim(path))
    ensures !AllWhitespace(path) && fs.pathExists(Trim(path)) && !fs.isFile(Trim(path)) ==>
              r == Err("Path is not a file: " + Trim(path))
    ensures !AllWhitespace(path) && fs.pathExists(Trim(path)) && fs.isFile(Trim(path)) && !IsExe(Trim(path)) ==>
              r == Err(NOT_EXE)
    ensures r.Ok? <==> !AllWhitespace(path) && fs.pathExists(Trim(path)) && fs.isFile(Trim(path)) && IsExe(Trim(path))
    ensures r.Ok? ==> r.value == Trim(path)
  {
    TrimEmptyIffBlank(path);
    var trimmed := Trim(path);
    if |trimmed| == 0 then Err(ENTER_EXE)
    else if !fs.pathExists(trimmed) then Err("File does not exist: " + trimmed)
    else if !fs.isFile(trimmed) then Err("Path is not a file: " + trimmed)
    else if !IsExe(trimmed) then Err(NOT_EXE)
    else Ok(trimmed)
  }

  // ---- The `.exe` test, stated on the text ---------------------------------------------------

  lemma LowerIsExeLetters(e: string)
    requires AsciiLower(e) == "exe"
    ensures |e| == 3 && forall j :: 0 <= j < 3 ==> e[j] != '.' && !LoadedDllTable.IsSeparator(e[j])
  {
    forall j | 0 <= j < 3 ensures e[j] != '.' && !LoadedDllTable.IsSeparator(e[j]) {
      assert AsciiLower(e)[j] == AsciiLowerChar(e[j]);
    }
  }

  /** The name ends in `.exe` in any letter case and has text before it. */
  predicate EndsInExe(name: string) {
    |name| > 4 && name[|name| - 4] == '.' && AsciiLower(name[|name| - 3..]) == "exe"
  }

  /** A file name has an `exe` extension exactly when it ends in `.exe`
      with something before the dot. */
  lemma ExtensionExeIff(name: string)
    ensures (Extension(name).Some? && EqIgnoreAsciiCase(Extension(name).value, "exe")) <==> EndsInExe(name)
  {
    if Extension(name).Some? && EqIgnoreAsciiCase(Extension(name).value, "exe") {
      var e := Extension(name).value;
      LowerIsExeLetters(e);
      var i := LastIndexOf(name, '.');
      assert e == name[i + 1..];
      assert |name| == i + 4;
    }
    if EndsInExe(name) {
      var e := name[|name| - 3..];
      LowerIsExeLetters(e);
      assert forall j :: |name| - 4 < j < |name| ==> name[j] == e[j - (|name| - 3)];
      var i := LastIndexOf(name, '.');
      assert i == |name| - 4;
      assert name != "..";
    }
  }

  lemma {:induction false} BasenameAfterSeparator(dir: string, name: string)
    requires |dir| > 0 && LoadedDllTable.IsSeparator(dir[|dir| - 1])
    requires forall i :: 0 <= i < |name| ==> !LoadedDllTable.IsSeparator(name[i])
    ensures LoadedDllTable.Basename(dir + name) == name
    decreases |name|
  {
    if |name| > 0 {
      var p := dir + name;
      assert p[..|p| - 1] == dir + name[..|name| - 1];
      BasenameAfterSeparator(dir, name[..|name| - 1]);
    } else {
      assert dir + name == dir;
    }
  }

  /** A path whose last component ends in `.exe` passes the extension test,
      whatever the directory and the letter case. */
  lemma ExeInDirectory(dir: string, name: string)
    requires |dir| > 0 && LoadedDllTable.IsSeparator(dir[|dir| - 1])
    requires forall i :: 0 <= i < |name| ==> !LoadedDllTable.IsSeparator(name[i])
    requires EndsInExe(name)
    ensures IsExe(dir + name)
  {
    var p := dir + name;
    assert p[|p| - 1] == name[|name| - 1];
    assert TrimTrailingSeparators(p) == p;
    BasenameAfterSeparator(dir, name);
    assert |name| > 4;
    assert FileName(p) == Some(name);
    ExtensionExeIff(name);
  }

  // ---- Launch and resume ----------------------------------------------------------------------

  /** The process created suspended; `threadHandle` stands for the thread
      that `resume` wakes. */
  datatype SuspendedProcess = SuspendedProcess(pid: uint32, threadHandle: nat)

  /** `CreateProcessW` as an oracle: the new process or the last error. */
  datatype CreateResult = Created(process: SuspendedProcess) | CreateFailed(lastError: uint32)

  /** `launch_target_exe_suspended`: validation first; `CreateProcessW` is
      asked only for a validated path, which is what `create` receives. */
  function LaunchTargetExeSuspended(path: string, fs: FileSystem, create: string -> CreateResult): (r: Result<SuspendedProcess, string>)
    ensures ValidateExePath(path, fs).Err? ==> r == Err(ValidateExePath(path, fs).error)
    ensures r.Ok? ==> ValidateExePath(path, fs) == Ok(Trim(path)) && create(Trim(path)) == Created(r.value)
    ensures ValidateExePath(path, fs).Ok? && create(Trim(path)).CreateFailed? ==>
              r == Err("CreateProcessW failed (GetLastError=" + ToDecimal(create(Trim(path)).lastError) + ")")
  {
    match ValidateExePath(path, fs)
    case Err(e) => Err(e)
    case Ok(exe) =>
      match create(exe)
      case Created(process) => Ok(process)
      case CreateFailed(code) => Err("CreateProcessW failed (GetLastError=" + ToDecimal(code) + ")")
  }

  /** `SuspendedProcess::resume`: `ResumeThread` returns the previous
      suspend count, or `u32::MAX` on failure. */
  function Resume(previousCount: uint32, lastError: uint32): (r: Result<(), string>)
    ensures r.Err? <==> previousCount == U32_MAX
    ensures r.Err? ==> r.error == "ResumeThread failed (GetLastError=" + ToDecimal(lastError) + ")"
  {
    if previousCount == U32_MAX then Err("ResumeThread failed (GetLastError=" + ToDecimal(lastError) + ")")
    else Ok(())
  }
}
