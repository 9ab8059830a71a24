/** The viewer's event filter and sort settings (`model::filters`): an
    optional restriction to the window and display APIs, a case-insensitive
    text query over the api name and summary, and a sort column with a
    direction that header clicks toggle. */
module Filters {
  import opened Text
  import opened Events

  const WINDOW_DISPLAY_APIS: seq<string> :=
    ["CreateWindowExW", "SetWindowPos", "MoveWindow", "ChangeDisplaySettingsExW", "AdjustWindowRectEx"]

  /** `is_window_display_api`: exact, case-sensitive membership. */
  predicate IsWindowDisplayApi(api: string) {
    api in WINDOW_DISPLAY_APIS
  }

  datatype SortColumn = Time | Api | Caller

  datatype EventSort = EventSort(column: SortColumn, descending: bool)

  /** `EventSort::default`: time, ascending. */
  const DEFAULT_SORT: EventSort := EventSort(Time, false)

  datatype EventFilters = EventFilters(textQuery: string, onlyWindowDisplayApis: bool, sort: EventSort)

  const DEFAULT_FILTERS: EventFilters := EventFilters("", false, DEFAULT_SORT)

  predicate InScope(f: EventFilters, e: Event) {
    !f.onlyWindowDisplayApis || IsWindowDisplayApi(e.api)
  }

  /** `EventFilters::matches`. */
  predicate Matches(f: EventFilters, e: Event) {
    if f.onlyWindowDisplayApis && !IsWindowDisplayApi(e.api) then false
    else
      var query := Trim(f.textQuery);
      if |query| == 0 then true
      else
        var q := AsciiLower(query);
        Contains(AsciiLower(e.api), q) || Contains(AsciiLower(e.summary), q)
  }

  /** With the scope restriction on, only the five listed APIs can match. */
  lemma ScopeRestricts(f: EventFilters, e: Event)
    requires f.onlyWindowDisplayApis && Matches(f, e)
    ensures e.api in WINDOW_DISPLAY_APIS
  {
  }

  /** A blank query matches exactly the events in scope. */
  lemma BlankQueryMatchesScope(f: EventFilters, e: Event)
    requires AllWhitespace(f.textQuery)
    ensures Matches(f, e) <==> InScope(f, e)
  {
    TrimEmptyIffBlank(f.textQuery);
  }

  /** A non-blank query matches an in-scope event exactly when its trimmed
      text occurs, ignoring ASCII case, in the api name or the summary. */
  lemma QueryMatchesIffOccurs(f: EventFilters, e: Event)
    requires !AllWhitespace(f.textQuery)
    ensures Matches(f, e) <==>
              InScope(f, e)
              && (Contains(AsciiLower(e.api), AsciiLower(Trim(f.textQuery)))
                  || Contains(AsciiLower(e.summary), AsciiLower(Trim(f.textQuery))))
  {
    TrimEmptyIffBlank(f.textQuery);
  }

  /** The query's letter case does not matter. */
  lemma QueryCaseIrrelevant(f: EventFilters, e: Event)
    ensures Matches(f.(textQuery := AsciiLower(f.textQuery)), e) == Matches(f, e)
  {
    TrimCommutesWithLower(f.textQuery);
    AsciiLowerIdempotent(Trim(f.textQuery));
  }

  /** An in-scope event is found by searching for its own api name. */
  lemma ApiNameFindsEvent(f: EventFilters, e: Event)
    requires InScope(f, e) && Trim(f.textQuery) == e.api
    ensures Matches(f, e)
  {
    ContainsSelf(AsciiLower(e.api));
  }

  /** `EventFilters::toggle_sort`: clicking the current column flips the
      direction, clicking another selects it in ascending order. */
  function ToggleSort(f: EventFilters, column: SortColumn): (r: EventFilters)
    ensures r.textQuery == f.textQuery && r.onlyWindowDisplayApis == f.onlyWindowDisplayApis
    ensures r.sort.column == column
    ensures r.sort.descending <==> f.sort.column == column && !f.sort.descending
  {
    if f.sort.column == column then f.(sort := f.sort.(descending := !f.sort.descending))
    else f.(sort := EventSort(column, false))
  }

  /** Two clicks on the current column restore the settings. */
  lemma ToggleTwiceIsIdentity(f: EventFilters)
    ensures ToggleSort(ToggleSort(f, f.sort.column), f.sort.column) == f
  {
  }

  /** Two clicks on another column select it in descending order. */
  lemma ToggleOtherTwiceDescends(f: EventFilters, column: SortColumn)
    requires f.sort.column != column
    ensures ToggleSort(ToggleSort(f, column), column).sort == EventSort(column, true)
  {
  }

  /** Toggling never changes which events match. */
  lemma ToggleKeepsMatches(f: EventFilters, column: SortColumn, e: Event)
    ensures Matches(ToggleSort(f, column), e) == Matches(f, e)
  {
  }
}
