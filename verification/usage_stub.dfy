/** The 32-bit agent's DirectDraw usage stub (`alloc_x86_ddraw_usage_stub`):
    a 47-byte x86 thunk that, the first time any patched vtable entry is
    called, reports the call through a logger and then jumps on to the
    original method. The encodings are those of the Intel 64 and IA-32
    Architectures Software Developer's Manual, Volume 2:

        0  80 3D <flag> 00      cmp byte ptr [flag], 0
        7  75 <rel8>            jne tail
        9  9C 60                pushfd; pushad
       11  68 <target>          push target
       16  68 <index>           push index
       21  68 <kind>            push kind
       26  E8 <rel32>           call logger
       31  61 9D                popad; popfd
       33  C6 05 <flag> 01      mov byte ptr [flag], 1
       40  B8 <target>          tail: mov eax, target
       45  FF E0                jmp eax

    The allocation of executable memory is an oracle answer. */
module UsageStub {
  import opened Ints
  import opened Wrappers

  type int32 = x: int | -0x8000_0000 <= x < 0x8000_0000

  const STUB_LENGTH: nat := 47
  const JNE_END: nat := 9
  const CALL_NEXT_IP: nat := 31
  const TAILJMP_START: nat := 40

  /** The two's complement `i32::to_le_bytes`. */
  function I32ToLe(v: int32): (r: seq<uint8>)
    ensures |r| == 4
  {
    U32ToLe(if v < 0 then v + 0x1_0000_0000 else v)
  }

  /** A `u32` read back as `i32`. */
  function AsSigned32(u: uint32): int32 {
    if u < 0x8000_0000 then u else u - 0x1_0000_0000
  }

  function AsSigned8(u: uint8): int {
    if u < 0x80 then u else u - 0x100
  }

  function ReadLe32(code: seq<uint8>, off: nat): uint32
    requires off + 4 <= |code|
  {
    LeU32(code[off], code[off + 1], code[off + 2], code[off + 3])
  }

  /** The variable parts of a stub. */
  datatype StubFields = StubFields(flag: uint32, target: uint32, index: uint32, kind: uint32, rel8: uint8, rel32: int32)

  /** The byte layout of a stub with the given fields: everything up to the
      call displacement, then the rest. */
  function Layout(f: StubFields): (code: seq<uint8>)
    ensures |code| == STUB_LENGTH
  {
    LayoutHead(f) + LayoutTail(f)
  }

  function LayoutHead(f: StubFields): (code: seq<uint8>)
    ensures |code| == 27
  {
    [0x80, 0x3D] + U32ToLe(f.flag) + [0x00]
    + [0x75, f.rel8]
    + [0x9C, 0x60]
    + [0x68] + U32ToLe(f.target)
    + [0x68] + U32ToLe(f.index)
    + [0x68] + U32ToLe(f.kind)
    + [0xE8]
  }

  function LayoutTail(f: StubFields): (code: seq<uint8>)
    ensures |code| == 20
  {
    I32ToLe(f.rel32)
    + [0x61, 0x9D]
    + [0xC6, 0x05] + U32ToLe(f.flag) + [0x01]
    + [0xB8] + U32ToLe(f.target) + [0xFF, 0xE0]
  }

  /** Reads the fields back out of a stub: `None` unless the bytes are
      exactly the layout of what was read. */
  function Decode(code: seq<uint8>): (r: Option<StubFields>)
    ensures r.Some? ==> Layout(r.value) == code
  {
    if |code| != STUB_LENGTH then None
    else
      var f := StubFields(ReadLe32(code, 2), ReadLe32(code, 12), ReadLe32(code, 17), ReadLe32(code, 22),
                          code[8], AsSigned32(ReadLe32(code, 27)));
      if Layout(f) == code then Some(f) else None
  }

  lemma LayoutHeadBytes(f: StubFields)
    ensures var code := LayoutHead(f);
            && code[2..6] == U32ToLe(f.flag)
            && code[12..16] == U32ToLe(f.target)
            && code[17..21] == U32ToLe(f.index) && code[22..26] == U32ToLe(f.kind)
            && code[7] == 0x75 && code[8] == f.rel8 && code[26] == 0xE8
  {
  }

  lemma LayoutTailBytes(f: StubFields)
    ensures var code := LayoutTail(f);
            && code[0..4] == I32ToLe(f.rel32)
            && code[8..12] == U32ToLe(f.flag)
            && code[13..] == [0xB8] + U32ToLe(f.target) + [0xFF, 0xE0]
            && code[14..18] == U32ToLe(f.target)
  {
  }

  lemma LayoutBytes(f: StubFields)
    ensures var code := Layout(f);
            && code[2..6] == U32ToLe(f.flag) && code[35..39] == U32ToLe(f.flag)
            && code[12..16] == U32ToLe(f.target) && code[41..45] == U32ToLe(f.target)
            && code[17..21] == U32ToLe(f.index) && code[22..26] == U32ToLe(f.kind)
            && code[27..31] == I32ToLe(f.rel32)
            && code[7] == 0x75 && code[8] == f.rel8 && code[26] == 0xE8
            && code[TAILJMP_START..] == [0xB8] + U32ToLe(f.target) + [0xFF, 0xE0]
  {
    var head := LayoutHead(f);
    var tail := LayoutTail(f);
    LayoutHeadBytes(f);
    LayoutTailBytes(f);
    var code := head + tail;
    assert code[..27] == head;
    assert code[27..] == tail;
    assert code[2..6] == head[2..6];
    assert code[12..16] == head[12..16];
    assert code[17..21] == head[17..21];
    assert code[22..26] == head[22..26];
    assert code[27..31] == tail[0..4];
    assert code[35..39] == tail[8..12];
    assert code[41..45] == tail[14..18];
    assert code[40..] == tail[13..];
  }

  lemma SignedRoundTrip(v: int32)
    ensures var b := I32ToLe(v); AsSigned32(LeU32(b[0], b[1], b[2], b[3])) == v
  {
  }

  /** Decoding a laid-out stub gives back its fields. */
  lemma DecodeLayout(f: StubFields)
    ensures Decode(Layout(f)) == Some(f)
  {
    var code := Layout(f);
    LayoutBytes(f);
    SignedRoundTrip(f.rel32);
    assert ReadLe32(code, 2) == f.flag;
    assert ReadLe32(code, 12) == f.target;
    assert ReadLe32(code, 17) == f.index;
    assert ReadLe32(code, 22) == f.kind;
    assert ReadLe32(code, 27) == (if f.rel32 < 0 then f.rel32 + 0x1_0000_0000 else f.rel32);
  }

  /** The `jne` displacement, from the end of the `jne` to the tail jump. */
  function JneRel(): int {
    TAILJMP_START - JNE_END
  }

  /** The `call` displacement of a stub placed at `stub`, from the
      instruction after the `call` to the logger. */
  function CallRel(stub: uint32, logger: uint32): int {
    logger - (stub + CALL_NEXT_IP)
  }

  datatype Stub = Stub(address: uint32, code: seq<uint8>)

  /** `alloc_x86_ddraw_usage_stub`: `alloc` is the address `VirtualAlloc`
      returns for the stub, or `None` for a null result. */
  function AllocUsageStub(flag: uint32, target: uint32, logger: uint32, kind: uint32, index: uint32,
                          alloc: Option<uint32>): (r: Option<Stub>)
    ensures r.None? <==> alloc.None? || CallRel(alloc.value, logger) < -0x8000_0000
                                     || CallRel(alloc.value, logger) > 0x7FFF_FFFF
    ensures r.Some? ==> r.value.address == alloc.value && |r.value.code| == STUB_LENGTH
  {
    var rel8 := JneRel();
    if !(-128 <= rel8 <= 127) then None
    else
      match alloc
      case None => None
      case Some(stub) =>
        var rel32 := CallRel(stub, logger);
        if rel32 < -0x8000_0000 || rel32 > 0x7FFF_FFFF then None
        else Some(Stub(stub, Layout(StubFields(flag, target, index, kind, rel8 as uint8, rel32))))
  }

  /** What an allocated stub does: both `cmp` and `mov` address the flag,
      the `jne` lands on the tail jump, the `call` lands on the logger with
      the target, index and kind pushed, and the tail jumps to the target. */
  lemma AllocatedStubBehaviour(flag: uint32, target: uint32, logger: uint32, kind: uint32, index: uint32,
                               alloc: Option<uint32>)
    requires AllocUsageStub(flag, target, logger, kind, index, alloc).Some?
    ensures var s := AllocUsageStub(flag, target, logger, kind, index, alloc).value;
            var code := s.code;
            && Decode(code).Some?
            && Decode(code).value.flag == flag
            && Decode(code).value.target == target
            && Decode(code).value.index == index
            && Decode(code).value.kind == kind
            && JNE_END + AsSigned8(code[8]) == TAILJMP_START
            && s.address + CALL_NEXT_IP + Decode(code).value.rel32 == logger
            && code[2..6] == U32ToLe(flag) && code[35..39] == U32ToLe(flag)
            && code[TAILJMP_START..] == [0xB8] + U32ToLe(target) + [0xFF, 0xE0]
  {
    var s := AllocUsageStub(flag, target, logger, kind, index, alloc).value;
    var f := StubFields(flag, target, index, kind, JneRel() as uint8, CallRel(alloc.value, logger));
    assert s.code == Layout(f);
    DecodeLayout(f);
    LayoutBytes(f);
  }
}
