/** The viewer's table of loaded DLLs (`model::dll::LoadedDlls`): every
    `DllLoad` event is folded into one row per de-duplication key, counting
    how often the module was seen and when.

    `observe_event` is split here into reading a sighting off the event
    (`SightingOf`) and recording the sighting in the table (`Record`). */
module LoadedDllTable {
  import opened Ints
  import opened Text
  import opened Events
  import opened Wrappers

  const FAILED: string := "(failed)"
  const UNKNOWN_NAME: string := "<unknown>"

  datatype LoadedDll = LoadedDll(
    name: string,
    path: string,
    firstSeenMs: uint64,
    lastSeenMs: uint64,
    count: uint32,
    lastSummary: string)

  /** `LoadedDlls::by_key`. */
  type LoadedDlls = map<string, LoadedDll>

  predicate IsSeparator(c: char) {
    c == '\\' || c == '/'
  }

  /** `basename`: the text after the last `\` or `/` (all of it when there
      is none; empty when the path ends in a separator). */
  function Basename(path: string): (r: string)
    ensures |r| <= |path| && r == path[|path| - |r|..]
    ensures forall i :: 0 <= i < |r| ==> !IsSeparator(r[i])
    ensures |r| < |path| ==> IsSeparator(path[|path| - |r| - 1])
    decreases |path|
  {
    if |path| == 0 || IsSeparator(path[|path| - 1]) then ""
    else Basename(path[..|path| - 1]) + [path[|path| - 1]]
  }

  /** A result text that names no module: empty, or the failure marker. */
  predicate Unresolved(path: string) {
    path == [] || path == FAILED
  }

  predicate IsDllLoad(e: Event) {
    e.api == DLL_LOAD_API
  }

  /** What one `DllLoad` event tells the table: the row key, the trimmed
      result, the display name for a new row, the time and the summary. */
  datatype Sighting = Sighting(key: string, path: string, name: string, timestampMs: uint64, summary: string)

  /** The row key is the trimmed result when that names a module, else the
      summary; the name is the module file name, or unknown. */
  function SightingOf(e: Event): (r: Option<Sighting>)
    ensures r.Some? <==> IsDllLoad(e)
    ensures r.Some? && !Unresolved(Trim(e.result)) ==>
              r.value.key == Trim(e.result) && r.value.name == Basename(Trim(e.result))
    ensures r.Some? && Unresolved(Trim(e.result)) ==> r.value.key == e.summary && r.value.name == UNKNOWN_NAME
  {
    if !IsDllLoad(e) then None
    else
      var path := Trim(e.result);
      if Unresolved(path) then Some(Sighting(e.summary, path, UNKNOWN_NAME, e.timestampMs, e.summary))
      else Some(Sighting(path, path, Basename(path), e.timestampMs, e.summary))
  }

  function CountIn(table: LoadedDlls, key: string): nat {
    if key in table then table[key].count else 0
  }

  /** The table update of `observe_event`: the sighting's row is created if
      missing, then its last-seen time, count, summary and (unless the
      sighting has no path) path are updated; no other row changes. */
  function Record(table: LoadedDlls, s: Sighting): (r: LoadedDlls)
    ensures forall k :: k in r <==> k in table || k == s.key
    ensures forall k :: k in table && k != s.key ==> r[k] == table[k]
    ensures var row := r[s.key];
            && row.lastSeenMs == s.timestampMs
            && row.lastSummary == s.summary
            && row.count == SaturatingAdd32(CountIn(table, s.key), 1)
            && row.firstSeenMs == (if s.key in table then table[s.key].firstSeenMs else s.timestampMs)
            && row.name == (if s.key in table then table[s.key].name else s.name)
            && row.path == (if s.path != [] || s.key !in table then s.path else table[s.key].path)
  {
    var entry := if s.key in table then table[s.key]
                 else LoadedDll(s.name, s.path, s.timestampMs, s.timestampMs, 0, "");
    var updated := entry.(lastSeenMs := s.timestampMs,
                          count := SaturatingAdd32(entry.count, 1),
                          lastSummary := s.summary,
                          path := if s.path != [] then s.path else entry.path);
    table[s.key := updated]
  }

  /** `LoadedDlls::observe_event`: events other than DLL loads are ignored. */
  function ObserveEvent(table: LoadedDlls, e: Event): (r: LoadedDlls)
    ensures !IsDllLoad(e) ==> r == table
    ensures IsDllLoad(e) ==> r == Record(table, SightingOf(e).value)
  {
    match SightingOf(e)
    case None => table
    case Some(s) => Record(table, s)
  }

  /** `LoadedDlls::len`: one more row exactly when the sighting opens a new
      key. */
  lemma RecordLen(table: LoadedDlls, s: Sighting)
    ensures |Record(table, s)| == if s.key in table then |table| else |table| + 1
  {
    var r := Record(table, s);
    if s.key in table {
      assert r.Keys == table.Keys;
    } else {
      assert r.Keys == table.Keys + {s.key};
    }
  }

  /** Every row has been seen at least once, and is named after the module
      file that its key names, or is of unknown name. */
  predicate Consistent(table: LoadedDlls) {
    forall k :: k in table ==>
      table[k].count >= 1 && (table[k].name == UNKNOWN_NAME || table[k].name == Basename(k))
  }

  lemma ObservePreservesConsistent(table: LoadedDlls, e: Event)
    requires Consistent(table)
    ensures Consistent(ObserveEvent(table, e))
  {
  }

  /** The sightings of a run of events, in order. */
  function Sightings(events: seq<Event>): (r: seq<Sighting>)
    ensures |r| <= |events|
    decreases |events|
  {
    if |events| == 0 then []
    else
      var last := events[|events| - 1];
      Sightings(events[..|events| - 1]) + (if IsDllLoad(last) then [SightingOf(last).value] else [])
  }

  /** The events in the order the viewer receives them. */
  function ObserveAll(table: LoadedDlls, events: seq<Event>): LoadedDlls
    decreases |events|
  {
    if |events| == 0 then table
    else ObserveEvent(ObserveAll(table, events[..|events| - 1]), events[|events| - 1])
  }

  function RecordAll(table: LoadedDlls, sightings: seq<Sighting>): LoadedDlls
    decreases |sightings|
  {
    if |sightings| == 0 then table
    else Record(RecordAll(table, sightings[..|sightings| - 1]), sightings[|sightings| - 1])
  }

  /** Observing a run is recording its sightings. */
  lemma {:induction false} ObserveAllRecordsSightings(table: LoadedDlls, events: seq<Event>)
    ensures ObserveAll(table, events) == RecordAll(table, Sightings(events))
    decreases |events|
  {
    if |events| > 0 {
      var prefix := events[..|events| - 1];
      var last := events[|events| - 1];
      ObserveAllRecordsSightings(table, prefix);
      if IsDllLoad(last) {
        var ss := Sightings(events);
        assert ss[..|ss| - 1] == Sightings(prefix);
        assert ss[|ss| - 1] == SightingOf(last).value;
      } else {
        assert Sightings(events) == Sightings(prefix);
      }
    }
  }

  /** How many sightings of the run are of row `key`. */
  function Occurrences(sightings: seq<Sighting>, key: string): nat
    decreases |sightings|
  {
    if |sightings| == 0 then 0
    else Occurrences(sightings[..|sightings| - 1], key) + (if sightings[|sightings| - 1].key == key then 1 else 0)
  }

  function Min(a: nat, b: nat): nat {
    if a < b then a else b
  }

  /** After a run, a row exists exactly for the keys that had one before
      or that a sighting of the run is of. */
  lemma {:induction false} RecordAllPresence(table: LoadedDlls, sightings: seq<Sighting>, key: string)
    ensures key in RecordAll(table, sightings) <==> key in table || Occurrences(sightings, key) > 0
    decreases |sightings|
  {
    if |sightings| > 0 {
      RecordAllPresence(table, sightings[..|sightings| - 1], key);
    }
  }

  lemma SaturateStep(a: nat)
    ensures SaturatingAdd32(Min(a, U32_MAX), 1) == Min(a + 1, U32_MAX)
  {
  }

  /** A row's count is its old count plus the sightings of the run that are
      of it, saturated at `u32::MAX`. */
  lemma {:induction false} RecordAllCount(table: LoadedDlls, sightings: seq<Sighting>, key: string)
    ensures key in RecordAll(table, sightings) ==>
              RecordAll(table, sightings)[key].count == Min(CountIn(table, key) + Occurrences(sightings, key), U32_MAX)
    decreases |sightings|
  {
    if |sightings| > 0 {
      var prefix := sightings[..|sightings| - 1];
      RecordAllCount(table, prefix, key);
      RecordAllPresence(table, prefix, key);
      if sightings[|sightings| - 1].key == key {
        SaturateStep(CountIn(table, key) + Occurrences(prefix, key));
      }
    }
  }

  /** Rows that no sighting of the run is of are left as they were. */
  lemma {:induction false} RecordAllUntouched(table: LoadedDlls, sightings: seq<Sighting>, key: string)
    requires key in table && Occurrences(sightings, key) == 0
    ensures key in RecordAll(table, sightings) && RecordAll(table, sightings)[key] == table[key]
    decreases |sightings|
  {
    if |sightings| > 0 {
      RecordAllUntouched(table, sightings[..|sightings| - 1], key);
    }
  }

  /** From an empty table: the rows are the keys of the run's DLL loads,
      each counted once per load up to `u32::MAX`. */
  lemma RowsOfRun(events: seq<Event>, key: string)
    ensures var r := ObserveAll(map[], events);
            && (key in r <==> Occurrences(Sightings(events), key) > 0)
            && (key in r ==> r[key].count == Min(Occurrences(Sightings(events), key), U32_MAX))
  {
    ObserveAllRecordsSightings(map[], events);
    RecordAllPresence(map[], Sightings(events), key);
    RecordAllCount(map[], Sightings(events), key);
  }

  /** A run without sightings of the row has none at any index. */
  lemma {:induction false} NoOccurrences(sightings: seq<Sighting>, key: string)
    requires Occurrences(sightings, key) == 0
    ensures forall j :: 0 <= j < |sightings| ==> sightings[j].key != key
    decreases |sightings|
  {
    if |sightings| > 0 {
      NoOccurrences(sightings[..|sightings| - 1], key);
    }
  }

  /** The index of the first sighting of `key`. */
  function FirstIndex(sightings: seq<Sighting>, key: string): (i: nat)
    requires Occurrences(sightings, key) > 0
    ensures i < |sightings| && sightings[i].key == key
    ensures forall j :: 0 <= j < i ==> sightings[j].key != key
    decreases |sightings|
  {
    var prefix := sightings[..|sightings| - 1];
    if Occurrences(prefix, key) > 0 then FirstIndex(prefix, key)
    else
      NoOccurrences(prefix, key);
      |sightings| - 1
  }

  /** The index of the last sighting of `key`. */
  function LastIndex(sightings: seq<Sighting>, key: string): (i: nat)
    requires Occurrences(sightings, key) > 0
    ensures i < |sightings| && sightings[i].key == key
    ensures forall j :: i < j < |sightings| ==> sightings[j].key != key
    decreases |sightings|
  {
    if sightings[|sightings| - 1].key == key then |sightings| - 1
    else LastIndex(sightings[..|sightings| - 1], key)
  }

  /** A row's first-seen time is that of the first sighting of it. */
  lemma {:induction false} FirstSeen(sightings: seq<Sighting>, key: string)
    requires Occurrences(sightings, key) > 0
    ensures key in RecordAll(map[], sightings)
    ensures RecordAll(map[], sightings)[key].firstSeenMs == sightings[FirstIndex(sightings, key)].timestampMs
    decreases |sightings|
  {
    var prefix := sightings[..|sightings| - 1];
    RecordAllPresence(map[], sightings, key);
    RecordAllPresence(map[], prefix, key);
    if Occurrences(prefix, key) > 0 {
      FirstSeen(prefix, key);
    }
  }

  /** A row's last-seen time and summary are those of the last sighting of
      it. */
  lemma {:induction false} LastSeen(sightings: seq<Sighting>, key: string)
    requires Occurrences(sightings, key) > 0
    ensures key in RecordAll(map[], sightings)
    ensures var row := RecordAll(map[], sightings)[key];
            var last := sightings[LastIndex(sightings, key)];
            row.lastSeenMs == last.timestampMs && row.lastSummary == last.summary
    decreases |sightings|
  {
    RecordAllPresence(map[], sightings, key);
    if sightings[|sightings| - 1].key != key {
      LastSeen(sightings[..|sightings| - 1], key);
    }
  }

  /** A successful load of a module names its row after the module file. */
  lemma LoadedModuleRowName(table: LoadedDlls, e: Event)
    requires IsDllLoad(e) && !Unresolved(Trim(e.result)) && Trim(e.result) !in table
    ensures var row := ObserveEvent(table, e)[Trim(e.result)];
            row.name == Basename(Trim(e.result)) && row.path == Trim(e.result) && row.count == 1
  {
  }

  /** Failed loads are told apart by their summaries, and their rows are
      of unknown name. */
  lemma FailedLoadRow(table: LoadedDlls, e: Event)
    requires IsDllLoad(e) && Trim(e.result) == FAILED && e.summary !in table
    ensures e.summary in ObserveEvent(table, e)
    ensures ObserveEvent(table, e)[e.summary].name == UNKNOWN_NAME
    ensures ObserveEvent(table, e)[e.summary].path == FAILED
  {
  }

  /** The agent's "(path unavailable)" marker is not recognised here: all
      loads that report it share one row, whatever their summaries. */
  lemma UnavailablePathsShareOneRow(e1: Event, e2: Event)
    requires IsDllLoad(e1) && IsDllLoad(e2)
    requires e1.result == e2.result == "(path unavailable)"
    ensures SightingOf(e1).value.key == SightingOf(e2).value.key == "(path unavailable)"
  {
    TrimOfTrimmed(e1.result);
  }
}
