/** The agent's two-slot interception registry for one COM vtable
    operation. Each operation owns a primary and an alternate write-once
    slot; a slot, once filled, records the hooked target address, which of
    the two detour handlers it runs, and whether enabling succeeded. The
    installers of `src/agent_dll.rs` are modelled as the `TryBind`
    transition; detour construction and enabling are oracle answers. */
module HookRegistry {

  /** Which detour function a slot runs: the plain one or its `_alt_` twin. */
  datatype Handler = PrimaryHandler | AltHandler

  /** A write-once hook slot together with its recorded target address. */
  datatype Slot = Empty | Filled(target: nat, handler: Handler, enabled: bool)

  datatype OpSlots = OpSlots(primary: Slot, alt: Slot)

  /** CreateSurface and SetCooperativeLevel find out that both slots are
      taken only when the write-once `set` of the alternate slot fails;
      every other installer checks up front, before building a detour. */
  datatype Style = UpFront | SetDetectsFull

  /** What an install attempt reports. */
  datatype Outcome =
    | AlreadyBound                          // silent return: address already hooked
    | SkippedBothFull                       // "SKIPPED: alt slot already in use"
    | InitFailed                            // "INIT_FAILED": detour construction failed
    | Installed(useAlt: bool, enabled: bool) // "ENABLED" or "ENABLE_FAILED"

  datatype Bind = Bind(slots: OpSlots, outcome: Outcome)

  const Unbound: OpSlots := OpSlots(Empty, Empty)

  predicate Binds(slot: Slot, addr: nat) {
    slot.Filled? && slot.target == addr
  }

  predicate IsBound(s: OpSlots, addr: nat) {
    Binds(s.primary, addr) || Binds(s.alt, addr)
  }

  predicate BothFull(s: OpSlots) {
    s.primary.Filled? && s.alt.Filled?
  }

  /** The registry invariant: each slot runs its own handler, the alternate
      is only used once the primary is, and the two never hook the same
      address. */
  predicate WellFormed(s: OpSlots) {
    && (s.primary.Filled? ==> s.primary.handler == PrimaryHandler)
    && (s.alt.Filled? ==> s.alt.handler == AltHandler && s.primary.Filled?)
    && (BothFull(s) ==> s.primary.target != s.alt.target)
  }

  /** One install attempt of a method address `addr` for an operation whose
      slots are `s`. `detourOk` is whether `GenericDetour::new` succeeds and
      `enableOk` whether `enable` does. */
  function TryBind(s: OpSlots, style: Style, addr: nat, detourOk: bool, enableOk: bool): (r: Bind)
    ensures IsBound(s, addr) ==> r == Bind(s, AlreadyBound)
    ensures r.outcome.Installed? <==> !IsBound(s, addr) && !BothFull(s) && detourOk
    ensures !r.outcome.Installed? ==> r.slots == s
    ensures r.outcome.Installed? ==>
              && IsBound(r.slots, addr)
              && r.outcome.enabled == enableOk
              && (r.outcome.useAlt <==> s.primary.Filled?)
    ensures s.primary.Filled? ==> r.slots.primary == s.primary
    ensures s.alt.Filled? ==> r.slots.alt == s.alt
    ensures r.slots.primary == s.primary || r.slots.primary == Filled(addr, PrimaryHandler, enableOk)
    ensures r.slots.alt == s.alt || r.slots.alt == Filled(addr, AltHandler, enableOk)
    ensures BothFull(s) && !IsBound(s, addr) && (style == UpFront || detourOk) ==>
              r.outcome == SkippedBothFull
  {
    if IsBound(s, addr) then Bind(s, AlreadyBound)
    else
      var useAlt := s.primary.Filled?;
      if style == UpFront && useAlt && s.alt.Filled? then Bind(s, SkippedBothFull)
      else if !detourOk then Bind(s, InitFailed)
      else if !useAlt then
        Bind(OpSlots(Filled(addr, PrimaryHandler, enableOk), s.alt), Installed(false, enableOk))
      else if s.alt.Empty? then
        Bind(OpSlots(s.primary, Filled(addr, AltHandler, enableOk)), Installed(true, enableOk))
      else
        Bind(s, SkippedBothFull)
  }

  /** Every install attempt keeps the registry invariant; in particular the
      primary and alternate targets, once both set, differ. */
  lemma TryBindPreservesWellFormed(s: OpSlots, style: Style, addr: nat, detourOk: bool, enableOk: bool)
    requires WellFormed(s)
    ensures WellFormed(TryBind(s, style, addr, detourOk, enableOk).slots)
  {
  }

  /** The two installer styles leave the same registry behind; their reports
      differ only when both slots are taken and the detour cannot be built. */
  lemma StylesAgree(s: OpSlots, addr: nat, detourOk: bool, enableOk: bool)
    ensures TryBind(s, UpFront, addr, detourOk, enableOk).slots
            == TryBind(s, SetDetectsFull, addr, detourOk, enableOk).slots
    ensures TryBind(s, UpFront, addr, detourOk, enableOk).outcome
            != TryBind(s, SetDetectsFull, addr, detourOk, enableOk).outcome
            <==> BothFull(s) && !IsBound(s, addr) && !detourOk
  {
  }

  /** Repeating an attempt changes nothing further. */
  lemma TryBindIdempotent(s: OpSlots, style: Style, addr: nat, detourOk: bool, enableOk: bool)
    ensures var once := TryBind(s, style, addr, detourOk, enableOk).slots;
            TryBind(once, style, addr, detourOk, enableOk).slots == once
  {
  }

  /** One install attempt, as the sequence of inputs a process run feeds an
      operation's installer. */
  datatype Attempt = Attempt(addr: nat, detourOk: bool, enableOk: bool)

  function BindAll(s: OpSlots, style: Style, attempts: seq<Attempt>): (r: OpSlots)
    decreases |attempts|
  {
    if |attempts| == 0 then s
    else
      var a := attempts[0];
      BindAll(TryBind(s, style, a.addr, a.detourOk, a.enableOk).slots, style, attempts[1..])
  }

  /** A hooked address was offered by some attempt whose detour could be
      built. */
  predicate Offered(attempts: seq<Attempt>, addr: nat) {
    exists i :: 0 <= i < |attempts| && attempts[i].addr == addr && attempts[i].detourOk
  }

  /** Over any run: the invariant holds, a filled slot never changes, and
      every newly hooked address was offered by an attempt. */
  lemma {:induction false} BindAllInvariant(s: OpSlots, style: Style, attempts: seq<Attempt>)
    requires WellFormed(s)
    ensures var r := BindAll(s, style, attempts);
            && WellFormed(r)
            && (s.primary.Filled? ==> r.primary == s.primary)
            && (s.alt.Filled? ==> r.alt == s.alt)
            && (r.primary.Filled? && s.primary.Empty? ==> Offered(attempts, r.primary.target))
            && (r.alt.Filled? && s.alt.Empty? ==> Offered(attempts, r.alt.target))
    decreases |attempts|
  {
    if |attempts| > 0 {
      var a := attempts[0];
      var s1 := TryBind(s, style, a.addr, a.detourOk, a.enableOk).slots;
      TryBindPreservesWellFormed(s, style, a.addr, a.detourOk, a.enableOk);
      BindAllInvariant(s1, style, attempts[1..]);
      var r := BindAll(s, style, attempts);
      assert r == BindAll(s1, style, attempts[1..]);
      if r.primary.Filled? && s.primary.Empty? {
        if s1.primary.Empty? {
          var i :| 0 <= i < |attempts[1..]| && attempts[1..][i].addr == r.primary.target && attempts[1..][i].detourOk;
          assert attempts[i + 1] == attempts[1..][i];
        } else {
          assert attempts[0].addr == r.primary.target;
        }
      }
      if r.alt.Filled? && s.alt.Empty? {
        if s1.alt.Empty? {
          var i :| 0 <= i < |attempts[1..]| && attempts[1..][i].addr == r.alt.target && attempts[1..][i].detourOk;
          assert attempts[i + 1] == attempts[1..][i];
        } else {
          assert attempts[0].addr == r.alt.target;
        }
      }
    }
  }

  /** Once hooked, an address stays hooked for the rest of the run. */
  lemma {:induction false} BoundStaysBound(s: OpSlots, style: Style, attempts: seq<Attempt>, addr: nat)
    requires IsBound(s, addr)
    ensures IsBound(BindAll(s, style, attempts), addr)
    decreases |attempts|
  {
    if |attempts| > 0 {
      var a := attempts[0];
      BoundStaysBound(TryBind(s, style, a.addr, a.detourOk, a.enableOk).slots, style, attempts[1..], addr);
    }
  }

  /** With both slots taken by two other addresses, a third method address
      is skipped and the registry stays as it was. */
  lemma ThirdAddressSkipped(style: Style, a: nat, b: nat, c: nat)
    requires a != b && a != c && b != c
    ensures var s1 := TryBind(Unbound, style, a, true, true);
            var s2 := TryBind(s1.slots, style, b, true, true);
            var s3 := TryBind(s2.slots, style, c, true, true);
            && s1.outcome == Installed(false, true)
            && s2.outcome == Installed(true, true)
            && s3.outcome == SkippedBothFull
            && s3.slots == s2.slots
            && s2.slots == OpSlots(Filled(a, PrimaryHandler, true), Filled(b, AltHandler, true))
  {
  }

  /** The QueryInterface hook: a single write-once slot, filled by the first
      instance whose detour can be built, without any address comparison. */
  datatype QiSlot = QiEmpty | QiFilled(target: nat, enabled: bool)

  datatype QiBind = QiBind(slot: QiSlot, outcome: Outcome)

  function TryBindQueryInterface(s: QiSlot, addr: nat, detourOk: bool, enableOk: bool): (r: QiBind)
    ensures s.QiFilled? ==> r == QiBind(s, AlreadyBound)
    ensures r.slot.QiFilled? <==> s.QiFilled? || detourOk
    ensures s.QiEmpty? && detourOk ==> r.slot == QiFilled(addr, enableOk)
  {
    if s.QiFilled? then QiBind(s, AlreadyBound)
    else if !detourOk then QiBind(s, InitFailed)
    else QiBind(QiFilled(addr, enableOk), Installed(false, enableOk))
  }

  /** The QueryInterface hook is installed at most once: after any number
      of attempts the slot holds the first attempt whose detour built. */
  function QiBindAll(s: QiSlot, attempts: seq<Attempt>): QiSlot
    decreases |attempts|
  {
    if |attempts| == 0 then s
    else QiBindAll(TryBindQueryInterface(s, attempts[0].addr, attempts[0].detourOk, attempts[0].enableOk).slot, attempts[1..])
  }

  lemma {:induction false} QiInstalledOnce(s: QiSlot, attempts: seq<Attempt>)
    ensures s.QiFilled? ==> QiBindAll(s, attempts) == s
    ensures s.QiEmpty? ==>
              (QiBindAll(s, attempts).QiFilled? <==> exists i :: 0 <= i < |attempts| && attempts[i].detourOk)
    ensures forall i :: (0 <= i < |attempts| && attempts[i].detourOk && s.QiEmpty?
                         && (forall j :: 0 <= j < i ==> !attempts[j].detourOk)) ==>
              QiBindAll(s, attempts) == QiFilled(attempts[i].addr, attempts[i].enableOk)
    decreases |attempts|
  {
    if |attempts| > 0 {
      var a := attempts[0];
      var s1 := TryBindQueryInterface(s, a.addr, a.detourOk, a.enableOk).slot;
      QiInstalledOnce(s1, attempts[1..]);
      assert QiBindAll(s, attempts) == QiBindAll(s1, attempts[1..]);
      if s.QiEmpty? && a.detourOk {
        assert attempts[0].detourOk;
      }
      if s.QiEmpty? && !a.detourOk {
        if exists i :: 0 <= i < |attempts| && attempts[i].detourOk {
          var i :| 0 <= i < |attempts| && attempts[i].detourOk;
          assert attempts[1..][i - 1] == attempts[i];
        }
        forall i | 0 <= i < |attempts| && attempts[i].detourOk && s.QiEmpty?
                   && (forall j :: 0 <= j < i ==> !attempts[j].detourOk)
          ensures QiBindAll(s, attempts) == QiFilled(attempts[i].addr, attempts[i].enableOk)
        {
          assert attempts[1..][i - 1] == attempts[i];
          assert forall j :: 0 <= j < i - 1 ==> attempts[1..][j] == attempts[j + 1];
        }
      }
    }
  }
}
