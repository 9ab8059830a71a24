/** The agent's pointer-validation guards (`is_readable_ptr`,
    `is_executable_ptr`, `vtable_method_ptr`), evaluated against an
    abstract address space: `VirtualQuery` becomes a region lookup and a
    pointer-sized load becomes a word lookup. These guards decide which
    COM method addresses may ever reach the hook registry. */
module MemoryGuards {
  import opened Wrappers

  const MEM_COMMIT: bv32 := 0x1000
  const PAGE_NOACCESS: bv32 := 0x01
  const PAGE_EXECUTE: bv32 := 0x10
  const PAGE_EXECUTE_READ: bv32 := 0x20
  const PAGE_EXECUTE_READWRITE: bv32 := 0x40
  const PAGE_EXECUTE_WRITECOPY: bv32 := 0x80
  const PAGE_GUARD: bv32 := 0x100

  /** `size_of::<*const c_void>()` on the two pointer widths. */
  type PointerSize = n: nat | n == 4 || n == 8 witness 4

  /** The `MEMORY_BASIC_INFORMATION` fields the guards read. */
  datatype RegionInfo = RegionInfo(baseAddress: nat, regionSize: nat, state: bv32, protect: bv32)

  /** A process's memory as the guards see it: `query(p)` is `VirtualQuery`
      (`None` when it returns 0) and `load(p)` the pointer stored at `p`. */
  datatype AddressSpace = AddressSpace(
    pointerSize: PointerSize,
    query: nat -> Option<RegionInfo>,
    load: nat -> nat)

  function UsizeMax(mem: AddressSpace): nat {
    if mem.pointerSize == 4 then 0xFFFF_FFFF else 0xFFFF_FFFF_FFFF_FFFF
  }

  /** `usize::saturating_add`. */
  function SaturatingAdd(mem: AddressSpace, a: nat, b: nat): (r: nat)
    ensures r == if a + b <= UsizeMax(mem) then a + b else UsizeMax(mem)
  {
    if a + b <= UsizeMax(mem) then a + b else UsizeMax(mem)
  }

  predicate Committed(info: RegionInfo) {
    info.state == MEM_COMMIT
  }

  /** No-access and guard pages are never read. */
  predicate ReadProtected(info: RegionInfo) {
    info.protect & PAGE_NOACCESS != 0 || info.protect & PAGE_GUARD != 0
  }

  /** `is_readable_ptr(ptr, bytes)`. */
  predicate IsReadablePtr(mem: AddressSpace, ptr: nat, bytes: nat) {
    if ptr == 0 then false
    else
      match mem.query(ptr)
      case None => false
      case Some(info) =>
        if !Committed(info) then false
        else if ReadProtected(info) then false
        else
          ptr >= info.baseAddress
          && SaturatingAdd(mem, ptr, bytes) <= SaturatingAdd(mem, info.baseAddress, info.regionSize)
  }

  /** `is_executable_ptr(ptr)`. */
  predicate IsExecutablePtr(mem: AddressSpace, ptr: nat) {
    if ptr == 0 then false
    else
      match mem.query(ptr)
      case None => false
      case Some(info) =>
        if !Committed(info) then false
        else
          var p := info.protect;
          var exec := p == PAGE_EXECUTE || p == PAGE_EXECUTE_READ
                      || p == PAGE_EXECUTE_READWRITE || p == PAGE_EXECUTE_WRITECOPY;
          exec && p & PAGE_GUARD == 0 && p & PAGE_NOACCESS == 0
  }

  /** The four executable protections, exactly (no modifier bits). */
  predicate ExactlyExecutable(p: bv32) {
    p in {PAGE_EXECUTE, PAGE_EXECUTE_READ, PAGE_EXECUTE_READWRITE, PAGE_EXECUTE_WRITECOPY}
  }

  /** The guard and no-access tests of `is_executable_ptr` are implied by
      its exact comparison: a pointer is executable iff it is non-null, in
      committed memory, and the protection is one of the four values. */
  lemma ExecutableIffExactProtection(mem: AddressSpace, ptr: nat)
    ensures IsExecutablePtr(mem, ptr) <==>
              ptr != 0 && mem.query(ptr).Some? && Committed(mem.query(ptr).value)
              && ExactlyExecutable(mem.query(ptr).value.protect)
  {
  }

  /** A guard page stays non-executable even with an execute protection. */
  lemma GuardPageNotExecutable(mem: AddressSpace, ptr: nat)
    requires mem.query(ptr).Some? && mem.query(ptr).value.protect & PAGE_GUARD != 0
    ensures !IsExecutablePtr(mem, ptr)
  {
    ExecutableIffExactProtection(mem, ptr);
  }

  /** Readability says that the range `[ptr, ptr + bytes)` lies inside the
      queried region, when its end does not saturate. */
  lemma ReadableMeansInsideRegion(mem: AddressSpace, ptr: nat, bytes: nat)
    requires IsReadablePtr(mem, ptr, bytes)
    requires ptr + bytes <= UsizeMax(mem)
    ensures var info := mem.query(ptr).value;
            info.baseAddress <= ptr && ptr + bytes <= info.baseAddress + info.regionSize
  {
  }

  /** Conversely, a readable page whose region holds the whole range makes
      the range readable. */
  lemma InsideRegionMeansReadable(mem: AddressSpace, ptr: nat, bytes: nat)
    requires ptr != 0 && mem.query(ptr).Some?
    requires var info := mem.query(ptr).value;
             && Committed(info) && !ReadProtected(info)
             && info.baseAddress <= ptr && ptr + bytes <= info.baseAddress + info.regionSize
    ensures IsReadablePtr(mem, ptr, bytes)
  {
  }

  /** Readability of a range implies readability of every shorter range. */
  lemma ReadableShrinks(mem: AddressSpace, ptr: nat, bytes: nat, fewer: nat)
    requires IsReadablePtr(mem, ptr, bytes) && fewer <= bytes
    ensures IsReadablePtr(mem, ptr, fewer)
  {
  }

  /** `vtable_method_ptr(instance, index)`: the instance must be readable for
      one pointer, the vtable it points to for `index + 1` pointers, and the
      entry at `index` must be executable. */
  function VtableMethodPtr(mem: AddressSpace, instance: nat, index: nat): (r: Option<nat>)
    ensures r.Some? ==> IsExecutablePtr(mem, r.value) && r.value != 0
    ensures r.Some? ==>
              && IsReadablePtr(mem, instance, mem.pointerSize)
              && IsReadablePtr(mem, mem.load(instance), (index + 1) * mem.pointerSize)
              && r.value == mem.load(mem.load(instance) + index * mem.pointerSize)
    ensures instance == 0 ==> r.None?
  {
    if !IsReadablePtr(mem, instance, mem.pointerSize) then None
    else
      var vtable := mem.load(instance);
      if !IsReadablePtr(mem, vtable, (index + 1) * mem.pointerSize) then None
      else
        var entry := mem.load(vtable + index * mem.pointerSize);
        if !IsExecutablePtr(mem, entry) then None else Some(entry)
  }

  /** All three checks are needed: the lookup succeeds exactly when they
      pass. */
  lemma VtableMethodPtrSomeIff(mem: AddressSpace, instance: nat, index: nat)
    ensures VtableMethodPtr(mem, instance, index).Some? <==>
              && IsReadablePtr(mem, instance, mem.pointerSize)
              && IsReadablePtr(mem, mem.load(instance), (index + 1) * mem.pointerSize)
              && IsExecutablePtr(mem, mem.load(mem.load(instance) + index * mem.pointerSize))
  {
  }

  /** The slot the method pointer was loaded from lies inside the vtable's
      region: the load never reads memory the guard did not check. */
  lemma VtableSlotInsideRegion(mem: AddressSpace, instance: nat, index: nat)
    requires VtableMethodPtr(mem, instance, index).Some?
    requires mem.load(instance) + (index + 1) * mem.pointerSize <= UsizeMax(mem)
    ensures var vtable := mem.load(instance);
            var info := mem.query(vtable).value;
            var slot := vtable + index * mem.pointerSize;
            info.baseAddress <= slot && slot + mem.pointerSize <= info.baseAddress + info.regionSize
  {
    var vtable := mem.load(instance);
    var n := (index + 1) * mem.pointerSize;
    ReadableMeansInsideRegion(mem, vtable, n);
    var info := mem.query(vtable).value;
    var slot := vtable + index * mem.pointerSize;
    assert n == index * mem.pointerSize + mem.pointerSize;
  }
}
