/** How the agent hooks DirectDraw objects and surfaces: the table of
    intercepted vtable operations, the object pass and surface pass that run
    one installer per operation, the interface probe, and the source-name
    classifiers that decide which SetDisplayMode flavour an object gets.
    Every method address comes through `VtableMethodPtr`, so only
    executable addresses can ever be recorded in the registry. */
module HookEngine {
  import opened Wrappers
  import opened Text
  import opened MemoryGuards
  import opened HookRegistry

  /** The two-slot operations (QueryInterface has its own single slot). */
  datatype Operation =
    | CreateSurface | RestoreDisplayMode | SetCooperativeLevel
    | SetDisplayMode | SetDisplayModeEx | WaitForVBlank
    | SurfaceBlt | SurfaceBltFast | SurfaceFlip | SurfaceGetAttached
    | SurfaceGetDC | SurfaceGetDesc | SurfaceIsLost | SurfaceLock
    | SurfaceUnlock | SurfaceReleaseDC | SurfaceRestore
    | SurfaceSetClipper | SurfaceSetPalette

  const QUERY_INTERFACE_INDEX: nat := 0

  /** The vtable slot each installer reads. Both SetDisplayMode flavours
      read slot 21: the three-argument method of `IDirectDraw` and the
      five-argument one of `IDirectDraw2` and later live there. */
  function VtableIndex(op: Operation): nat {
    match op
    case CreateSurface => 6
    case RestoreDisplayMode => 19
    case SetCooperativeLevel => 20
    case SetDisplayMode => 21
    case SetDisplayModeEx => 21
    case WaitForVBlank => 22
    case SurfaceBlt => 5
    case SurfaceBltFast => 7
    case SurfaceFlip => 11
    case SurfaceGetAttached => 12
    case SurfaceGetDC => 17
    case SurfaceGetDesc => 22
    case SurfaceIsLost => 24
    case SurfaceLock => 25
    case SurfaceUnlock => 32
    case SurfaceReleaseDC => 26
    case SurfaceRestore => 27
    case SurfaceSetClipper => 28
    case SurfaceSetPalette => 31
  }

  function StyleOf(op: Operation): Style {
    if op == CreateSurface || op == SetCooperativeLevel then SetDetectsFull else UpFront
  }

  /** The detour library's answers, per operation and method address. */
  datatype DetourLib = DetourLib(
    builds: (Operation, nat) -> bool,
    enables: (Operation, nat) -> bool,
    qiBuilds: nat -> bool,
    qiEnables: nat -> bool)

  datatype Env = Env(mem: AddressSpace, lib: DetourLib)

  /** Every hook slot of the agent. An operation missing from the map has
      both slots empty. */
  datatype Registry = Registry(qi: QiSlot, ops: map<Operation, OpSlots>)

  const EmptyRegistry: Registry := Registry(QiEmpty, map[])

  function Lookup(reg: Registry, op: Operation): OpSlots {
    if op in reg.ops then reg.ops[op] else Unbound
  }

  /** The registry invariant over a fixed address space: every operation's
      slots are well formed and every recorded address is executable. */
  ghost predicate Sound(reg: Registry, mem: AddressSpace) {
    && (reg.qi.QiFilled? ==> IsExecutablePtr(mem, reg.qi.target))
    && forall op :: SlotsSound(Lookup(reg, op), mem)
  }

  predicate SlotsSound(s: OpSlots, mem: AddressSpace) {
    && WellFormed(s)
    && (s.primary.Filled? ==> IsExecutablePtr(mem, s.primary.target))
    && (s.alt.Filled? ==> IsExecutablePtr(mem, s.alt.target))
  }

  /** What one `try_install_directdraw_*_hook` call does to its operation's
      slots: nothing for a null instance or an unusable vtable entry,
      otherwise one `TryBind` of the method address. */
  function Step(s: OpSlots, env: Env, op: Operation, instance: nat): (r: OpSlots)
    ensures instance == 0 ==> r == s
    ensures VtableMethodPtr(env.mem, instance, VtableIndex(op)).None? ==> r == s
    ensures r != s ==> var addr := VtableMethodPtr(env.mem, instance, VtableIndex(op)).value;
                       IsBound(r, addr) && !IsBound(s, addr) && env.lib.builds(op, addr)
  {
    if instance == 0 then s
    else
      match VtableMethodPtr(env.mem, instance, VtableIndex(op))
      case None => s
      case Some(addr) =>
        TryBind(s, StyleOf(op), addr, env.lib.builds(op, addr), env.lib.enables(op, addr)).slots
  }

  /** Running an installer twice on the same instance is running it once. */
  lemma StepIdempotent(s: OpSlots, env: Env, op: Operation, instance: nat)
    ensures Step(Step(s, env, op, instance), env, op, instance) == Step(s, env, op, instance)
  {
    if instance != 0 {
      match VtableMethodPtr(env.mem, instance, VtableIndex(op))
      case None =>
      case Some(addr) =>
        TryBindIdempotent(s, StyleOf(op), addr, env.lib.builds(op, addr), env.lib.enables(op, addr));
    }
  }

  /** An installer keeps the invariant: what it records is executable. */
  lemma StepSound(s: OpSlots, env: Env, op: Operation, instance: nat)
    requires SlotsSound(s, env.mem)
    ensures SlotsSound(Step(s, env, op, instance), env.mem)
  {
    if instance != 0 {
      match VtableMethodPtr(env.mem, instance, VtableIndex(op))
      case None =>
      case Some(addr) =>
        TryBindPreservesWellFormed(s, StyleOf(op), addr, env.lib.builds(op, addr), env.lib.enables(op, addr));
    }
  }

  function InstallHook(reg: Registry, env: Env, op: Operation, instance: nat): (r: Registry)
    ensures r.qi == reg.qi
    ensures forall other :: Lookup(r, other) == if other == op then Step(Lookup(reg, op), env, op, instance) else Lookup(reg, other)
  {
    reg.(ops := reg.ops[op := Step(Lookup(reg, op), env, op, instance)])
  }

  /** Runs the installers of `ops`, in order, on one instance. */
  function InstallAll(reg: Registry, env: Env, ops: seq<Operation>, instance: nat): Registry
    decreases |ops|
  {
    if |ops| == 0 then reg
    else InstallAll(InstallHook(reg, env, ops[0], instance), env, ops[1..], instance)
  }

  /** A pass changes exactly the operations it runs, each as a single
      installer call would (a repeated operation acts once). */
  lemma {:induction false} InstallAllPointwise(reg: Registry, env: Env, ops: seq<Operation>, instance: nat)
    ensures InstallAll(reg, env, ops, instance).qi == reg.qi
    ensures forall op :: Lookup(InstallAll(reg, env, ops, instance), op)
                         == if op in ops then Step(Lookup(reg, op), env, op, instance) else Lookup(reg, op)
    decreases |ops|
  {
    if |ops| > 0 {
      var reg1 := InstallHook(reg, env, ops[0], instance);
      InstallAllPointwise(reg1, env, ops[1..], instance);
      forall op ensures Lookup(InstallAll(reg, env, ops, instance), op)
                        == if op in ops then Step(Lookup(reg, op), env, op, instance) else Lookup(reg, op)
      {
        assert op in ops <==> op == ops[0] || op in ops[1..];
        if op == ops[0] && op in ops[1..] {
          StepIdempotent(Lookup(reg, op), env, op, instance);
        }
      }
    }
  }

  /** `try_install_directdraw_query_interface_hook`. */
  function InstallQueryInterface(reg: Registry, env: Env, instance: nat): (r: Registry)
    ensures r.ops == reg.ops
    ensures reg.qi.QiFilled? ==> r == reg
    ensures r.qi.QiFilled? && reg.qi.QiEmpty? ==>
              var addr := VtableMethodPtr(env.mem, instance, QUERY_INTERFACE_INDEX);
              addr.Some? && r.qi.target == addr.value && env.lib.qiBuilds(addr.value)
  {
    if reg.qi.QiFilled? || instance == 0 then reg
    else
      match VtableMethodPtr(env.mem, instance, QUERY_INTERFACE_INDEX)
      case None => reg
      case Some(addr) =>
        reg.(qi := TryBindQueryInterface(reg.qi, addr, env.lib.qiBuilds(addr), env.lib.qiEnables(addr)).slot)
  }

  // ---- Source classification -------------------------------------------------

  const LEGACY_FACTORY: string := "DirectDrawCreate"
  const EXTENDED_FACTORY: string := "DirectDrawCreateEx"
  const PROBE_NAMES: seq<string> := ["IDirectDraw", "IDirectDraw2", "IDirectDraw4", "IDirectDraw7"]

  /** `source_is_directdraw_legacy_interface`. */
  predicate Legacy(source: string) {
    source == LEGACY_FACTORY
    || EndsWith(source, "->IDirectDraw")
    || EndsWith(source, "IDirectDraw::QueryInterface")
  }

  /** `source_is_directdraw_extended_interface`, as written. */
  predicate ExtendedAsWritten(source: string) {
    Contains(source, EXTENDED_FACTORY)
    || EndsWith(source, "->IDirectDraw2")
    || EndsWith(source, "->IDirectDraw4")
    || EndsWith(source, "->IDirectDraw7")
  }

  /** The extended classifier as evidently intended: a source the legacy
      classifier claims is not extended. */
  predicate Extended(source: string) {
    ExtendedAsWritten(source) && !Legacy(source)
  }

  /** The source label the probe gives the interface it obtained. */
  function ProbeSource(source: string, k: nat): (r: string)
    requires k < |PROBE_NAMES|
    ensures EndsWith(r, PROBE_NAMES[k])
  {
    EndsWithConcat(source + "->", PROBE_NAMES[k]);
    source + "->" + PROBE_NAMES[k]
  }

  /** As written, the `IDirectDraw` interface probed from an object made by
      `DirectDrawCreateEx` counts as both legacy and extended. */
  lemma AsWrittenProbeOverlap(source: string)
    requires Contains(source, EXTENDED_FACTORY)
    ensures Legacy(ProbeSource(source, 0)) && ExtendedAsWritten(ProbeSource(source, 0))
  {
    assert source + "->" + "IDirectDraw" == source + "->IDirectDraw";
    EndsWithConcat(source, "->IDirectDraw");
    ContainsConcatLeft(source, "->IDirectDraw", EXTENDED_FACTORY);
  }

  /** The overlap occurs on the agent's own call path: `DirectDrawCreateEx`
      probes its object under that source name. */
  lemma ExtendedFactoryProbeOverlaps()
    ensures Legacy(ProbeSource(EXTENDED_FACTORY, 0)) && ExtendedAsWritten(ProbeSource(EXTENDED_FACTORY, 0))
  {
    ContainsSelf(EXTENDED_FACTORY);
    AsWrittenProbeOverlap(EXTENDED_FACTORY);
  }

  /** The corrected classifiers never both hold, and agree with the written
      extended classifier on every source that is not legacy. */
  lemma ClassifiersExclusive(source: string)
    ensures !(Legacy(source) && Extended(source))
    ensures !Legacy(source) ==> (Extended(source) <==> ExtendedAsWritten(source))
  {
  }

  /** Every probed interface is classified by its interface name alone: the
      `IDirectDraw` probe is legacy, the newer three are extended. */
  lemma ProbeSourceClassified(source: string, k: nat)
    requires k < |PROBE_NAMES|
    ensures Legacy(ProbeSource(source, k)) <==> k == 0
    ensures Extended(ProbeSource(source, k)) <==> k != 0
  {
    var s := ProbeSource(source, k);
    if k == 0 {
      assert s == source + "->IDirectDraw";
      EndsWithConcat(source, "->IDirectDraw");
    } else {
      var name := PROBE_NAMES[k];
      var digit := name[|name| - 1];
      assert s[|s| - 1] == digit;
      assert digit in "247";
      assert s != LEGACY_FACTORY by { assert LEGACY_FACTORY[|LEGACY_FACTORY| - 1] == 'e'; }
      assert !EndsWith(s, "->IDirectDraw") by { assert "->IDirectDraw"[12] == 'w'; }
      assert !EndsWith(s, "IDirectDraw::QueryInterface") by { assert "IDirectDraw::QueryInterface"[26] == 'e'; }
      assert s == source + "->" + name;
      assert name == "IDirectDraw2" || name == "IDirectDraw4" || name == "IDirectDraw7";
      if name == "IDirectDraw2" {
        assert s == source + "->IDirectDraw2";
        EndsWithConcat(source, "->IDirectDraw2");
      } else if name == "IDirectDraw4" {
        assert s == source + "->IDirectDraw4";
        EndsWithConcat(source, "->IDirectDraw4");
      } else {
        assert s == source + "->IDirectDraw7";
        EndsWithConcat(source, "->IDirectDraw7");
      }
    }
  }

  // ---- Passes ------------------------------------------------------------------

  /** The operations installed on DirectDraw objects (the rest are
      installed on surfaces). */
  predicate OnObject(op: Operation) {
    op == CreateSurface || op == RestoreDisplayMode || op == SetCooperativeLevel
    || op == SetDisplayMode || op == SetDisplayModeEx || op == WaitForVBlank
  }

  /** The operations of the object pass, given the two classifications. */
  function ObjectOpsFor(legacy: bool, extended: bool): (ops: seq<Operation>)
    ensures forall op :: op in ops ==> OnObject(op)
    ensures CreateSurface in ops && SetCooperativeLevel in ops
    ensures SetDisplayMode in ops <==> legacy
    ensures SetDisplayModeEx in ops <==> extended
  {
    [CreateSurface, RestoreDisplayMode, SetCooperativeLevel]
    + (if legacy then [SetDisplayMode] else [])
    + (if extended then [SetDisplayModeEx] else [])
    + [WaitForVBlank]
  }

  /** `try_install_directdraw_object_hooks`, with a choice of extended
      classifier. */
  function ObjectPassWith(reg: Registry, env: Env, instance: nat, legacy: bool, extended: bool): Registry {
    InstallAll(InstallQueryInterface(reg, env, instance), env, ObjectOpsFor(legacy, extended), instance)
  }

  /** `try_install_directdraw_object_hooks` with the extended classifier as
      written, which also claims the probe's `->IDirectDraw` label. */
  function ObjectPassAsWritten(reg: Registry, env: Env, instance: nat, source: string): Registry {
    ObjectPassWith(reg, env, instance, Legacy(source), ExtendedAsWritten(source))
  }

  /** `try_install_directdraw_object_hooks` with the corrected classifier
      `Extended`: a source is never both legacy and extended, so the two
      display-mode hooks never land on the same slot. */
  function ObjectPass(reg: Registry, env: Env, instance: nat, source: string): Registry {
    ObjectPassWith(reg, env, instance, Legacy(source), Extended(source))
  }

  const SURFACE_OPS: seq<Operation> :=
    [SurfaceBlt, SurfaceBltFast, SurfaceFlip, SurfaceGetAttached, SurfaceGetDC,
     SurfaceGetDesc, SurfaceIsLost, SurfaceLock, SurfaceUnlock, SurfaceReleaseDC,
     SurfaceRestore, SurfaceSetClipper, SurfaceSetPalette]

  /** The surface pass covers exactly the operations the object pass does
      not. */
  lemma SurfaceOpsAreTheRest(op: Operation)
    ensures op in SURFACE_OPS <==> !OnObject(op)
  {
  }

  /** `try_install_directdraw_surface_hooks`. */
  function SurfacePass(reg: Registry, env: Env, surface: nat): Registry {
    InstallAll(reg, env, SURFACE_OPS, surface)
  }

  /** `try_probe_directdraw_interfaces`: `queryInterface(instance, k)` is the
      interface the object returns for the k-th probed IID, if any; each one
      gets the object pass under its own source label. Uses the corrected
      classifier through `ObjectPass`. */
  function Probe(reg: Registry, env: Env, instance: nat, source: string,
                 queryInterface: (nat, nat) -> Option<nat>, k: nat): Registry
    requires k <= |PROBE_NAMES|
    decreases |PROBE_NAMES| - k
  {
    if instance == 0 || k == |PROBE_NAMES| then reg
    else
      var next :=
        match queryInterface(instance, k)
        case None => reg
        case Some(iface) => ObjectPass(reg, env, iface, ProbeSource(source, k));
      Probe(next, env, instance, source, queryInterface, k + 1)
  }

  /** What a factory hook does with a new DirectDraw object: the object
      pass under the factory's name, then the interface probe, both with the
      corrected classifier. */
  function OnDirectDrawObject(reg: Registry, env: Env, instance: nat, source: string,
                              queryInterface: (nat, nat) -> Option<nat>): Registry {
    Probe(ObjectPass(reg, env, instance, source), env, instance, source, queryInterface, 0)
  }

  // ---- Properties of the passes --------------------------------------------------

  lemma {:induction false} InstallAllSound(reg: Registry, env: Env, ops: seq<Operation>, instance: nat)
    requires Sound(reg, env.mem)
    ensures Sound(InstallAll(reg, env, ops, instance), env.mem)
  {
    InstallAllPointwise(reg, env, ops, instance);
    var r := InstallAll(reg, env, ops, instance);
    forall op
      ensures SlotsSound(Lookup(r, op), env.mem)
    {
      StepSound(Lookup(reg, op), env, op, instance);
    }
  }

  lemma InstallQueryInterfaceSound(reg: Registry, env: Env, instance: nat)
    requires Sound(reg, env.mem)
    ensures Sound(InstallQueryInterface(reg, env, instance), env.mem)
  {
    var r := InstallQueryInterface(reg, env, instance);
    assert forall op :: Lookup(r, op) == Lookup(reg, op);
  }

  /** Only executable method addresses ever reach the registry: every pass
      keeps the invariant. */
  lemma ObjectPassSound(reg: Registry, env: Env, instance: nat, legacy: bool, extended: bool)
    requires Sound(reg, env.mem)
    ensures Sound(ObjectPassWith(reg, env, instance, legacy, extended), env.mem)
  {
    InstallQueryInterfaceSound(reg, env, instance);
    InstallAllSound(InstallQueryInterface(reg, env, instance), env, ObjectOpsFor(legacy, extended), instance);
  }

  lemma SurfacePassSound(reg: Registry, env: Env, surface: nat)
    requires Sound(reg, env.mem)
    ensures Sound(SurfacePass(reg, env, surface), env.mem)
  {
    InstallAllSound(reg, env, SURFACE_OPS, surface);
  }

  lemma {:induction false} ProbeSound(reg: Registry, env: Env, instance: nat, source: string,
                                      queryInterface: (nat, nat) -> Option<nat>, k: nat)
    requires k <= |PROBE_NAMES|
    requires Sound(reg, env.mem)
    ensures Sound(Probe(reg, env, instance, source, queryInterface, k), env.mem)
    decreases |PROBE_NAMES| - k
  {
    if instance != 0 && k < |PROBE_NAMES| {
      var next :=
        match queryInterface(instance, k)
        case None => reg
        case Some(iface) => ObjectPass(reg, env, iface, ProbeSource(source, k));
      if queryInterface(instance, k).Some? {
        var iface := queryInterface(instance, k).value;
        ObjectPassSound(reg, env, iface, Legacy(ProbeSource(source, k)), Extended(ProbeSource(source, k)));
      }
      ProbeSound(next, env, instance, source, queryInterface, k + 1);
    }
  }

  lemma OnDirectDrawObjectSound(reg: Registry, env: Env, instance: nat, source: string,
                                queryInterface: (nat, nat) -> Option<nat>)
    requires Sound(reg, env.mem)
    ensures Sound(OnDirectDrawObject(reg, env, instance, source, queryInterface), env.mem)
  {
    ObjectPassSound(reg, env, instance, Legacy(source), Extended(source));
    ProbeSound(ObjectPass(reg, env, instance, source), env, instance, source, queryInterface, 0);
  }

  lemma EmptyRegistrySound(mem: AddressSpace)
    ensures Sound(EmptyRegistry, mem)
  {
  }

  /** A surface seen twice is hooked as if seen once. */
  lemma SurfacePassIdempotent(reg: Registry, env: Env, surface: nat)
    ensures var once := SurfacePass(reg, env, surface);
            var twice := SurfacePass(once, env, surface);
            twice.qi == once.qi && forall op :: Lookup(twice, op) == Lookup(once, op)
  {
    var once := SurfacePass(reg, env, surface);
    InstallAllPointwise(reg, env, SURFACE_OPS, surface);
    InstallAllPointwise(once, env, SURFACE_OPS, surface);
    forall op | op in SURFACE_OPS
      ensures Lookup(SurfacePass(once, env, surface), op) == Lookup(once, op)
    {
      StepIdempotent(Lookup(reg, op), env, op, surface);
    }
  }

  /** An object pass touches only its own operations: the surface slots are
      left alone. */
  lemma ObjectPassLeavesSurfaceSlots(reg: Registry, env: Env, instance: nat, legacy: bool, extended: bool)
    ensures forall op :: !OnObject(op) ==>
              Lookup(ObjectPassWith(reg, env, instance, legacy, extended), op) == Lookup(reg, op)
  {
    var r0 := InstallQueryInterface(reg, env, instance);
    InstallAllPointwise(r0, env, ObjectOpsFor(legacy, extended), instance);
  }

  // ---- The classifier overlap, as written and corrected ---------------------------

  /** As written, an object pass for the probed `IDirectDraw` of a
      `DirectDrawCreateEx` object hooks vtable slot 21 (the three-argument
      SetDisplayMode) with both the SetDisplayMode and the five-argument
      SetDisplayModeEx detour. */
  lemma AsWrittenHooksSlot21Twice(env: Env, iface: nat)
    requires VtableMethodPtr(env.mem, iface, 21).Some?
    requires var addr := VtableMethodPtr(env.mem, iface, 21).value;
             env.lib.builds(SetDisplayMode, addr) && env.lib.builds(SetDisplayModeEx, addr)
    ensures var addr := VtableMethodPtr(env.mem, iface, 21).value;
            var r := ObjectPassAsWritten(EmptyRegistry, env, iface, ProbeSource(EXTENDED_FACTORY, 0));
            && Binds(Lookup(r, SetDisplayMode).primary, addr)
            && Binds(Lookup(r, SetDisplayModeEx).primary, addr)
  {
    var source := ProbeSource(EXTENDED_FACTORY, 0);
    ExtendedFactoryProbeOverlaps();
    var r0 := InstallQueryInterface(EmptyRegistry, env, iface);
    InstallAllPointwise(r0, env, ObjectOpsFor(Legacy(source), ExtendedAsWritten(source)), iface);
  }

  /** Corrected, no object pass hooks both SetDisplayMode flavours: one of
      the two operations is always left as it was. */
  lemma ObjectPassHooksOneDisplayModeFlavour(reg: Registry, env: Env, instance: nat, source: string)
    ensures var r := ObjectPass(reg, env, instance, source);
            Lookup(r, SetDisplayMode) == Lookup(reg, SetDisplayMode)
            || Lookup(r, SetDisplayModeEx) == Lookup(reg, SetDisplayModeEx)
  {
    ClassifiersExclusive(source);
    var r0 := InstallQueryInterface(reg, env, instance);
    InstallAllPointwise(r0, env, ObjectOpsFor(Legacy(source), Extended(source)), instance);
  }
}
