/** The agent's DLL-load reporting (`emit_dll_load`) and its HRESULT test.
    A load is reported as a `DllLoad` event unless an earlier load with the
    same de-duplication key was already reported; the key is the module
    path when there is one, else the requested name, else the summary. */
module AgentEvents {
  import opened Ints
  import opened Wrappers

  // ---- HRESULT --------------------------------------------------------------

  type int32 = x: int | -0x8000_0000 <= x < 0x8000_0000

  /** `hresult_succeeded`. */
  predicate HresultSucceeded(value: int32) {
    value >= 0
  }

  /** The bits of an HRESULT, as `value as u32`. */
  function HresultBits(value: int32): uint32 {
    if value < 0 then value + 0x1_0000_0000 else value
  }

  /** Success is the clear severity bit (bit 31) of the HRESULT. */
  lemma SucceededIffSeverityClear(value: int32)
    ensures HresultSucceeded(value) <==> HresultBits(value) / 0x8000_0000 == 0
  {
  }

  // ---- Pointer text -----------------------------------------------------------

  function HexDigit(d: nat): (c: char)
    requires d < 16
  {
    if d < 10 then ('0' as int + d) as char else ('a' as int + d - 10) as char
  }

  function HexDigitValue(c: char): nat {
    if '0' <= c <= '9' then c as int - '0' as int
    else if 'a' <= c <= 'f' then c as int - 'a' as int + 10
    else 0
  }

  function HexDigits(n: nat): (s: string)
    ensures |s| > 0
    decreases n
  {
    if n < 16 then [HexDigit(n)] else HexDigits(n / 16) + [HexDigit(n % 16)]
  }

  function HexValue(s: string): nat
    decreases |s|
  {
    if |s| == 0 then 0 else HexValue(s[..|s| - 1]) * 16 + HexDigitValue(s[|s| - 1])
  }

  /** The `{:p}` rendering of an address: `0x` and lower-case hex digits. */
  function PointerText(p: nat): (s: string)
    ensures |s| > 2 && s[..2] == "0x"
  {
    "0x" + HexDigits(p)
  }

  lemma {:induction false} HexValueOfDigits(n: nat)
    ensures HexValue(HexDigits(n)) == n
    decreases n
  {
    if n >= 16 {
      var s := HexDigits(n);
      assert s[..|s| - 1] == HexDigits(n / 16);
      HexValueOfDigits(n / 16);
    }
  }

  /** Distinct modules give distinct pointer texts. */
  lemma PointerTextInjective(p: nat, q: nat)
    requires PointerText(p) == PointerText(q)
    ensures p == q
  {
    assert HexDigits(p) == PointerText(p)[2..];
    assert HexDigits(q) == PointerText(q)[2..];
    HexValueOfDigits(p);
    HexValueOfDigits(q);
  }

  // ---- DLL-load events ------------------------------------------------------------

  const FAILED: string := "(failed)"
  const PATH_UNAVAILABLE: string := "(path unavailable)"

  /** The summary text of a load made through `source` (`LoadLibraryA` and
      the like) for the name `requested`, returning the module `handle`. */
  function DllLoadSummary(source: string, requested: string, handle: nat): string {
    if requested == [] then source + " module=" + PointerText(handle)
    else source + " module=" + PointerText(handle) + " requested=\"" + requested + "\""
  }

  /** The event's result text: a marker for a failed load or a missing path,
      else the module's path (`path` is what `GetModuleFileNameW` gave). */
  function DllLoadResult(handle: nat, path: string): (r: string)
    ensures handle == 0 ==> r == FAILED
    ensures handle != 0 && path == [] ==> r == PATH_UNAVAILABLE
    ensures handle != 0 && path != [] ==> r == path
  {
    if handle == 0 then FAILED
    else if path == [] then PATH_UNAVAILABLE
    else path
  }

  /** The de-duplication key. */
  function DllLoadKey(result: string, requested: string, summary: string): (k: string)
    ensures k == result || k == requested || k == summary
    ensures k == result <== result != FAILED && result != PATH_UNAVAILABLE && result != []
    ensures k == requested <== (result == FAILED || result == PATH_UNAVAILABLE || result == []) && requested != []
    ensures k == summary <== (result == FAILED || result == PATH_UNAVAILABLE || result == []) && requested == []
  {
    if result != FAILED && result != PATH_UNAVAILABLE && result != [] then result
    else if requested != [] then requested
    else summary
  }

  datatype Load = Load(source: string, requested: string, handle: nat, path: string)

  datatype DllLoadEvent = DllLoadEvent(summary: string, result: string)

  function KeyOf(l: Load): string {
    var summary := DllLoadSummary(l.source, l.requested, l.handle);
    DllLoadKey(DllLoadResult(l.handle, l.path), l.requested, summary)
  }

  /** A successful load with a real path is keyed by that path; a failed or
      pathless one by its requested name when it has one. */
  lemma KeyOfLoad(l: Load)
    ensures l.handle != 0 && l.path != [] && l.path != FAILED && l.path != PATH_UNAVAILABLE ==> KeyOf(l) == l.path
    ensures (l.handle == 0 || l.path == []) && l.requested != [] ==> KeyOf(l) == l.requested
    ensures (l.handle == 0 || l.path == []) && l.requested == [] ==>
              KeyOf(l) == DllLoadSummary(l.source, l.requested, l.handle)
  {
  }

  /** `emit_dll_load` with the set of keys reported so far: the new key set
      and the event, if one is sent. */
  function EmitDllLoad(seen: set<string>, l: Load): (r: (set<string>, Option<DllLoadEvent>))
    ensures r.0 == seen + {KeyOf(l)}
    ensures r.1.Some? <==> KeyOf(l) !in seen
    ensures r.1.Some? ==> r.1.value.result == DllLoadResult(l.handle, l.path)
  {
    var key := KeyOf(l);
    if key in seen then (seen, None)
    else (seen + {key}, Some(DllLoadEvent(DllLoadSummary(l.source, l.requested, l.handle), DllLoadResult(l.handle, l.path))))
  }

  /** Reports a run of loads in order; returns the final key set and the
      keys of the loads that were reported. */
  function EmitAll(seen: set<string>, loads: seq<Load>): (r: (set<string>, seq<string>))
    decreases |loads|
  {
    if |loads| == 0 then (seen, [])
    else
      var (seen1, ev) := EmitDllLoad(seen, loads[0]);
      var rest := EmitAll(seen1, loads[1..]);
      (rest.0, (if ev.Some? then [KeyOf(loads[0])] else []) + rest.1)
  }

  function Keys(loads: seq<Load>): (keys: seq<string>)
    ensures |keys| == |loads|
    ensures forall i :: 0 <= i < |loads| ==> keys[i] == KeyOf(loads[i])
  {
    seq(|loads|, i requires 0 <= i < |loads| => KeyOf(loads[i]))
  }

  /** De-duplication of a run of keys against a set of keys already seen. */
  function Dedup(seen: set<string>, keys: seq<string>): (r: (set<string>, seq<string>))
    decreases |keys|
  {
    if |keys| == 0 then (seen, [])
    else
      var rest := Dedup(seen + {keys[0]}, keys[1..]);
      (rest.0, (if keys[0] in seen then [] else [keys[0]]) + rest.1)
  }

  /** Reporting a run of loads is de-duplicating their keys. */
  lemma {:induction false} EmitAllIsDedup(seen: set<string>, loads: seq<Load>)
    ensures EmitAll(seen, loads) == Dedup(seen, Keys(loads))
    decreases |loads|
  {
    if |loads| > 0 {
      EmitAllIsDedup(seen + {KeyOf(loads[0])}, loads[1..]);
      assert Keys(loads)[1..] == Keys(loads[1..]);
    }
  }

  predicate Distinct(keys: seq<string>) {
    forall i, j :: 0 <= i < j < |keys| ==> keys[i] != keys[j]
  }

  /** The key set after a run is the old one plus every key, and a key is
      reported only if it is new. */
  lemma {:induction false} DedupSeen(seen: set<string>, keys: seq<string>)
    ensures var r := Dedup(seen, keys);
            && (forall k :: k in r.0 <==> k in seen || k in keys)
            && (forall k :: k in r.1 ==> k in keys && k !in seen)
    decreases |keys|
  {
    if |keys| > 0 {
      DedupSeen(seen + {keys[0]}, keys[1..]);
    }
  }

  /** Every key is reported at most once. */
  lemma {:induction false} DedupDistinct(seen: set<string>, keys: seq<string>)
    ensures Distinct(Dedup(seen, keys).1)
    decreases |keys|
  {
    if |keys| > 0 {
      var seen1 := seen + {keys[0]};
      DedupDistinct(seen1, keys[1..]);
      DedupSeen(seen1, keys[1..]);
      var rest := Dedup(seen1, keys[1..]).1;
      var head := if keys[0] in seen then [] else [keys[0]];
      var out := head + rest;
      assert Dedup(seen, keys).1 == out;
      forall i, j | 0 <= i < j < |out| ensures out[i] != out[j] {
        assert out[j] == rest[j - |head|];
        assert out[j] in rest;
        if i >= |head| {
          assert out[i] == rest[i - |head|];
        }
      }
    }
  }

  /** A whole run of loads: every reported key is distinct and new, and
      every load's key ends up in the key set. */
  lemma EmitAllOncePerKey(seen: set<string>, loads: seq<Load>)
    ensures var r := EmitAll(seen, loads);
            && Distinct(r.1)
            && (forall k :: k in r.1 ==> k !in seen)
            && (forall i :: 0 <= i < |loads| ==> KeyOf(loads[i]) in r.0)
  {
    EmitAllIsDedup(seen, loads);
    DedupSeen(seen, Keys(loads));
    DedupDistinct(seen, Keys(loads));
    var keys := Keys(loads);
    assert forall i :: 0 <= i < |loads| ==> keys[i] in keys;
  }

  /** Loading the same module twice reports it once. */
  lemma RepeatedLoadReportedOnce(seen: set<string>, l: Load)
    ensures EmitDllLoad(EmitDllLoad(seen, l).0, l).1.None?
  {
  }
}
