/** The order of the viewer's Events tab (`visible_event_indices`): the
    indices of the events that are not DLL loads and match the filters,
    stably sorted by the chosen column. `sort_by` is stable, so the result
    is the visible indices sorted by the column's ordering with ties kept
    in index order; `descending` reverses the column's ordering but not the
    tie-break. */
module EventView {
  import opened Events
  import opened Filters

  // ---- Orderings ---------------------------------------------------------------

  datatype Ordering = Less | Equal | Greater

  /** `Ordering::reverse`. */
  function Reverse(o: Ordering): Ordering {
    match o
    case Less => Greater
    case Equal => Equal
    case Greater => Less
  }

  /** `Ordering::then_with`. */
  function Then(first: Ordering, second: Ordering): Ordering {
    if first == Equal then second else first
  }

  /** `u64::cmp`. */
  function CmpNat(a: nat, b: nat): Ordering {
    if a < b then Less else if a == b then Equal else Greater
  }

  /** `String::cmp`: lexicographic by characters. Comparing UTF-8 bytes
      lexicographically orders strings exactly as comparing their scalar
      values does. */
  function StrCmp(a: string, b: string): Ordering
    decreases |a|
  {
    if |a| == 0 && |b| == 0 then Equal
    else if |a| == 0 then Less
    else if |b| == 0 then Greater
    else if a[0] < b[0] then Less
    else if a[0] > b[0] then Greater
    else StrCmp(a[1..], b[1..])
  }

  lemma {:induction false} StrCmpFlip(a: string, b: string)
    ensures StrCmp(b, a) == Reverse(StrCmp(a, b))
    decreases |a|
  {
    if |a| > 0 && |b| > 0 && a[0] == b[0] {
      StrCmpFlip(a[1..], b[1..]);
    }
  }

  lemma {:induction false} StrCmpEqualIff(a: string, b: string)
    ensures StrCmp(a, b) == Equal <==> a == b
    decreases |a|
  {
    if |a| > 0 && |b| > 0 && a[0] == b[0] {
      StrCmpEqualIff(a[1..], b[1..]);
      assert a == [a[0]] + a[1..] && b == [b[0]] + b[1..];
    }
  }

  lemma {:induction false} StrCmpTrans(a: string, b: string, c: string)
    requires StrCmp(a, b) == Less && StrCmp(b, c) == Less
    ensures StrCmp(a, c) == Less
    decreases |a|
  {
    if |a| > 0 && a[0] == b[0] && b[0] == c[0] {
      StrCmpTrans(a[1..], b[1..], c[1..]);
    }
  }

  // ---- The column ordering ---------------------------------------------------------

  /** The comparator of `visible_event_indices` for one sort setting. */
  function Compare(sort: EventSort, a: Event, b: Event): Ordering {
    var byTime := CmpNat(a.timestampMs, b.timestampMs);
    var ordering := match sort.column
      case Time => byTime
      case Api => Then(StrCmp(a.api, b.api), byTime)
      case Caller => Then(StrCmp(a.caller, b.caller), byTime);
    if sort.descending then Reverse(ordering) else ordering
  }

  /** The comparator is antisymmetric. */
  lemma CompareFlip(sort: EventSort, a: Event, b: Event)
    ensures Compare(sort, b, a) == Reverse(Compare(sort, a, b))
  {
    StrCmpFlip(a.api, b.api);
    StrCmpFlip(a.caller, b.caller);
  }

  lemma CompareSelf(sort: EventSort, a: Event)
    ensures Compare(sort, a, a) == Equal
  {
    StrCmpEqualIff(a.api, a.api);
    StrCmpEqualIff(a.caller, a.caller);
  }

  /** `Then(StrCmp, CmpNat)` is a total preorder: "not after" is transitive,
      and strictly before on either side makes it strict. */
  lemma ThenTrans(s1: string, s2: string, s3: string, t1: nat, t2: nat, t3: nat)
    requires Then(StrCmp(s1, s2), CmpNat(t1, t2)) != Greater
    requires Then(StrCmp(s2, s3), CmpNat(t2, t3)) != Greater
    ensures Then(StrCmp(s1, s3), CmpNat(t1, t3)) != Greater
    ensures Then(StrCmp(s1, s2), CmpNat(t1, t2)) == Less || Then(StrCmp(s2, s3), CmpNat(t2, t3)) == Less
            ==> Then(StrCmp(s1, s3), CmpNat(t1, t3)) == Less
  {
    StrCmpEqualIff(s1, s2);
    StrCmpEqualIff(s2, s3);
    StrCmpEqualIff(s1, s3);
    if StrCmp(s1, s2) == Less && StrCmp(s2, s3) == Less {
      StrCmpTrans(s1, s2, s3);
    }
  }

  /** Ascending column order is a total preorder. */
  lemma AscendingTrans(column: SortColumn, a: Event, b: Event, c: Event)
    requires Compare(EventSort(column, false), a, b) != Greater
    requires Compare(EventSort(column, false), b, c) != Greater
    ensures Compare(EventSort(column, false), a, c) != Greater
    ensures Compare(EventSort(column, false), a, b) == Less || Compare(EventSort(column, false), b, c) == Less
            ==> Compare(EventSort(column, false), a, c) == Less
  {
    match column
    case Time =>
    case Api => ThenTrans(a.api, b.api, c.api, a.timestampMs, b.timestampMs, c.timestampMs);
    case Caller => ThenTrans(a.caller, b.caller, c.caller, a.timestampMs, b.timestampMs, c.timestampMs);
  }

  /** Every sort setting orders events by a total preorder. */
  lemma CompareTrans(sort: EventSort, a: Event, b: Event, c: Event)
    requires Compare(sort, a, b) != Greater && Compare(sort, b, c) != Greater
    ensures Compare(sort, a, c) != Greater
    ensures Compare(sort, a, b) == Less || Compare(sort, b, c) == Less ==> Compare(sort, a, c) == Less
  {
    var up := EventSort(sort.column, false);
    if sort.descending {
      CompareFlip(up, a, b);
      CompareFlip(up, b, c);
      CompareFlip(up, a, c);
      AscendingTrans(sort.column, c, b, a);
    } else {
      AscendingTrans(sort.column, a, b, c);
    }
  }

  // ---- Stable order on indices -------------------------------------------------------

  /** Index `i` comes before index `j`: its event is ordered first, or the
      two events tie and `i` is the earlier index (stability). */
  predicate Precedes(events: seq<Event>, sort: EventSort, i: nat, j: nat) {
    && i < |events| && j < |events|
    && var c := Compare(sort, events[i], events[j]);
       c == Less || (c == Equal && i < j)
  }

  /** `Precedes` is a strict total order on the indices of `events`. */
  lemma PrecedesTotal(events: seq<Event>, sort: EventSort, i: nat, j: nat)
    requires i < |events| && j < |events| && i != j
    ensures Precedes(events, sort, i, j) != Precedes(events, sort, j, i)
  {
    CompareFlip(sort, events[i], events[j]);
  }

  lemma PrecedesIrreflexive(events: seq<Event>, sort: EventSort, i: nat)
    ensures !Precedes(events, sort, i, i)
  {
    if i < |events| {
      CompareSelf(sort, events[i]);
    }
  }

  lemma PrecedesTrans(events: seq<Event>, sort: EventSort, i: nat, j: nat, k: nat)
    requires Precedes(events, sort, i, j) && Precedes(events, sort, j, k)
    ensures Precedes(events, sort, i, k)
  {
    CompareTrans(sort, events[i], events[j], events[k]);
  }

  predicate Sorted(events: seq<Event>, sort: EventSort, xs: seq<nat>) {
    forall a, b :: 0 <= a < b < |xs| ==> Precedes(events, sort, xs[a], xs[b])
  }

  /** Inserts `x` before the first element it precedes. */
  function Insert(events: seq<Event>, sort: EventSort, sorted: seq<nat>, x: nat): (r: seq<nat>)
    ensures |r| == |sorted| + 1
    ensures forall y :: y in r <==> y in sorted || y == x
    decreases |sorted|
  {
    if |sorted| == 0 || Precedes(events, sort, x, sorted[0]) then [x] + sorted
    else [sorted[0]] + Insert(events, sort, sorted[1..], x)
  }

  /** A sorted sequence stays sorted behind an element that precedes all of
      it. */
  lemma ConsSorted(events: seq<Event>, sort: EventSort, h: nat, tail: seq<nat>)
    requires Sorted(events, sort, tail)
    requires forall y :: y in tail ==> Precedes(events, sort, h, y)
    ensures Sorted(events, sort, [h] + tail)
  {
    var r := [h] + tail;
    forall a, b | 0 <= a < b < |r| ensures Precedes(events, sort, r[a], r[b]) {
      if a == 0 {
        assert r[b] == tail[b - 1];
      } else {
        assert r[a] == tail[a - 1] && r[b] == tail[b - 1];
      }
    }
  }

  lemma {:induction false} InsertKeepsSorted(events: seq<Event>, sort: EventSort, sorted: seq<nat>, x: nat)
    requires Sorted(events, sort, sorted) && x < |events| && x !in sorted
    requires forall y :: y in sorted ==> y < |events|
    ensures Sorted(events, sort, Insert(events, sort, sorted, x))
    decreases |sorted|
  {
    if |sorted| == 0 {
    } else if Precedes(events, sort, x, sorted[0]) {
      forall y | y in sorted ensures Precedes(events, sort, x, y) {
        var k :| 0 <= k < |sorted| && sorted[k] == y;
        if k > 0 {
          PrecedesTrans(events, sort, x, sorted[0], y);
        }
      }
      ConsSorted(events, sort, x, sorted);
    } else {
      var rest := sorted[1..];
      assert sorted[0] in sorted;
      assert Sorted(events, sort, rest);
      InsertKeepsSorted(events, sort, rest, x);
      PrecedesTotal(events, sort, x, sorted[0]);
      var tail := Insert(events, sort, rest, x);
      forall y | y in tail ensures Precedes(events, sort, sorted[0], y) {
        if y != x {
          var k :| 0 <= k < |rest| && rest[k] == y;
          assert sorted[k + 1] == y;
        }
      }
      ConsSorted(events, sort, sorted[0], tail);
    }
  }

  /** Insertion sort of a run of indices (a stable sort). */
  function SortIndices(events: seq<Event>, sort: EventSort, xs: seq<nat>): (r: seq<nat>)
    ensures |r| == |xs|
    ensures forall y :: y in r <==> y in xs
    decreases |xs|
  {
    if |xs| == 0 then []
    else Insert(events, sort, SortIndices(events, sort, xs[..|xs| - 1]), xs[|xs| - 1])
  }

  predicate Distinct(xs: seq<nat>) {
    forall a, b :: 0 <= a < b < |xs| ==> xs[a] != xs[b]
  }

  lemma {:induction false} SortIndicesSorted(events: seq<Event>, sort: EventSort, xs: seq<nat>)
    requires Distinct(xs) && forall y :: y in xs ==> y < |events|
    ensures Sorted(events, sort, SortIndices(events, sort, xs))
    decreases |xs|
  {
    if |xs| > 0 {
      var prefix := xs[..|xs| - 1];
      assert forall y :: y in prefix ==> y in xs;
      SortIndicesSorted(events, sort, prefix);
      assert forall k :: 0 <= k < |prefix| ==> prefix[k] != xs[|xs| - 1];
      var x := xs[|xs| - 1];
      assert x in xs;
      var sorted := SortIndices(events, sort, prefix);
      assert x !in sorted;
      InsertKeepsSorted(events, sort, sorted, x);
    }
  }

  /** A strictly sorted sequence is determined by its elements: whatever
      algorithm produces the order, it is this one. */
  lemma {:induction false} SortedUnique(events: seq<Event>, sort: EventSort, xs: seq<nat>, ys: seq<nat>)
    requires Sorted(events, sort, xs) && Sorted(events, sort, ys)
    requires |xs| == |ys| && forall y :: y in xs <==> y in ys
    ensures xs == ys
    decreases |xs|
  {
    if |xs| > 0 {
      assert xs[0] in ys;
      assert |ys| > 0;
      assert ys[0] in xs;
      if xs[0] != ys[0] {
        var i :| 0 <= i < |xs| && xs[i] == ys[0];
        var j :| 0 <= j < |ys| && ys[j] == xs[0];
        assert Precedes(events, sort, xs[0], ys[0]);
        assert Precedes(events, sort, ys[0], xs[0]);
        PrecedesTrans(events, sort, xs[0], ys[0], xs[0]);
        PrecedesIrreflexive(events, sort, xs[0]);
      }
      var xt := xs[1..];
      var yt := ys[1..];
      forall y ensures y in xt <==> y in yt {
        if y in xt {
          var i :| 0 <= i < |xt| && xt[i] == y;
          PrecedesIrreflexive(events, sort, xs[0]);
          assert Precedes(events, sort, xs[0], xs[i + 1]);
          assert y in ys;
          assert y != ys[0];
        }
        if y in yt {
          var i :| 0 <= i < |yt| && yt[i] == y;
          PrecedesIrreflexive(events, sort, ys[0]);
          assert Precedes(events, sort, ys[0], ys[i + 1]);
          assert y in xs;
          assert y != xs[0];
        }
      }
      SortedUnique(events, sort, xt, yt);
    }
  }

  // ---- `visible_event_indices` ------------------------------------------------------------

  /** Shown in the Events tab: not a DLL load (those have their own tab)
      and matching the filters. */
  predicate Visible(filters: EventFilters, e: Event) {
    e.api != DLL_LOAD_API && Matches(filters, e)
  }

  /** The indices whose flag is set, in increasing order (the
      `filter_map` of `visible_event_indices`). */
  method IndicesWhere(flags: seq<bool>) returns (indices: seq<nat>)
    ensures forall x: nat :: x in indices <==> x < |flags| && flags[x]
    ensures forall a, b :: 0 <= a < b < |indices| ==> indices[a] < indices[b]
  {
    indices := [];
    var i := 0;
    while i < |flags|
      invariant i <= |flags|
      invariant forall x: nat :: x in indices <==> x < i && flags[x]
      invariant forall a, b :: 0 <= a < b < |indices| ==> indices[a] < indices[b]
      invariant forall a :: 0 <= a < |indices| ==> indices[a] < i
    {
      if flags[i] {
        indices := indices + [i];
      }
      i := i + 1;
    }
  }

  /** `visible_event_indices`: exactly the indices of the visible events,
      in the stable column order. */
  method VisibleEventIndices(events: seq<Event>, filters: EventFilters) returns (visible: seq<nat>)
    ensures forall i: nat :: i in visible <==> i < |events| && Visible(filters, events[i])
    ensures Sorted(events, filters.sort, visible)
  {
    var shown := seq(|events|, k requires 0 <= k < |events| => Visible(filters, events[k]));
    var candidates := IndicesWhere(shown);
    SortIndicesSorted(events, filters.sort, candidates);
    visible := SortIndices(events, filters.sort, candidates);
  }

  /** Without ties, the descending order is the ascending one reversed. */
  lemma DescendingReversesWithoutTies(events: seq<Event>, column: SortColumn, xs: seq<nat>)
    requires Distinct(xs) && forall y :: y in xs ==> y < |events|
    requires forall i, j :: i in xs && j in xs && i != j ==>
               Compare(EventSort(column, false), events[i], events[j]) != Equal
    ensures SortIndices(events, EventSort(column, true), xs)
            == Rev(SortIndices(events, EventSort(column, false), xs))
  {
    var asc := SortIndices(events, EventSort(column, false), xs);
    var desc := SortIndices(events, EventSort(column, true), xs);
    SortIndicesSorted(events, EventSort(column, false), xs);
    SortIndicesSorted(events, EventSort(column, true), xs);
    ReversedSortedDescending(events, column, xs, asc);
    RevMembers(asc);
    SortedUnique(events, EventSort(column, true), desc, Rev(asc));
  }

  lemma ReversedSortedDescending(events: seq<Event>, column: SortColumn, xs: seq<nat>, asc: seq<nat>)
    requires forall y :: y in xs ==> y < |events|
    requires forall i, j :: i in xs && j in xs && i != j ==>
               Compare(EventSort(column, false), events[i], events[j]) != Equal
    requires forall y :: y in asc <==> y in xs
    requires Sorted(events, EventSort(column, false), asc)
    ensures Sorted(events, EventSort(column, true), Rev(asc))
  {
    var rev := Rev(asc);
    forall a, b | 0 <= a < b < |rev| ensures Precedes(events, EventSort(column, true), rev[a], rev[b]) {
      ReversedPairPrecedes(events, column, xs, asc, |asc| - 1 - b, |asc| - 1 - a);
    }
  }

  lemma ReversedPairPrecedes(events: seq<Event>, column: SortColumn, xs: seq<nat>, asc: seq<nat>, i: nat, j: nat)
    requires forall y :: y in xs ==> y < |events|
    requires forall i, j :: i in xs && j in xs && i != j ==>
               Compare(EventSort(column, false), events[i], events[j]) != Equal
    requires forall y :: y in asc <==> y in xs
    requires Sorted(events, EventSort(column, false), asc)
    requires i < j < |asc|
    ensures Precedes(events, EventSort(column, true), asc[j], asc[i])
  {
    var up := EventSort(column, false);
    assert Precedes(events, up, asc[i], asc[j]);
    assert asc[i] in xs && asc[j] in xs;
    PrecedesIrreflexive(events, up, asc[i]);
    CompareFlip(up, events[asc[i]], events[asc[j]]);
  }

  lemma RevMembers(xs: seq<nat>)
    ensures forall y :: y in Rev(xs) <==> y in xs
  {
    var r := Rev(xs);
    forall y ensures y in r <==> y in xs {
      if y in xs {
        var k :| 0 <= k < |xs| && xs[k] == y;
        assert r[|xs| - 1 - k] == y;
      }
      if y in r {
        var k :| 0 <= k < |r| && r[k] == y;
        assert xs[|xs| - 1 - k] == y;
      }
    }
  }

  function Rev(xs: seq<nat>): (r: seq<nat>)
    ensures |r| == |xs|
    ensures forall a :: 0 <= a < |xs| ==> r[a] == xs[|xs| - 1 - a]
  {
    seq(|xs|, a requires 0 <= a < |xs| => xs[|xs| - 1 - a])
  }
}
