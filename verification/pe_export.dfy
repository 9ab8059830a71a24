/** The PE export resolver of the injector (`find_export_rva` and its
    range-checked readers). It follows the Microsoft PE/COFF Specification:
    the `e_lfanew` field at 0x3C of the MS-DOS stub, the COFF file header,
    the optional header data directories, the 40-byte section table
    entries, and the export directory, name pointer and ordinal tables.
    Every read is range-checked; every failure is a typed error. */
module PeExport {
  import opened Ints
  import opened Wrappers

  datatype PeError =
    | ReadFailed
    | OutOfBounds(offset: nat)
    | UnterminatedString(offset: nat)
    | InvalidUtf8(offset: nat)
    | NotPe
    | BadPeSignature
    | UnsupportedMagic(magic: uint16)
    | NoExportDirectory
    | UnmappedRva(rva: uint32)
    | ExportNotFound

  const DOS_MAGIC: uint16 := 0x5A4D
  const E_LFANEW_OFFSET: nat := 0x3C
  const PE_SIGNATURE: uint32 := 0x0000_4550
  const PE32_MAGIC: uint16 := 0x10B
  const PE32_PLUS_MAGIC: uint16 := 0x20B
  /** Offset of the export-table data directory inside the optional header. */
  const PE32_EXPORT_DIRECTORY: nat := 96
  const PE32_PLUS_EXPORT_DIRECTORY: nat := 112
  const SECTION_HEADER_SIZE: nat := 40

  // ---------------------------------------------------------------------
  // Range-checked readers

  /** `read_u16`: the little-endian `u16` at `off`, or an error when the two
      bytes are not all inside `data`. */
  function ReadU16(data: seq<uint8>, off: nat): (r: Result<uint16, PeError>)
    ensures r.Err? <==> off + 2 > |data|
    ensures r.Err? ==> r.error == OutOfBounds(off)
    ensures r.Ok? ==> r.value == LeU16(data[off], data[off + 1])
  {
    if off + 2 > |data| then Err(OutOfBounds(off))
    else Ok(LeU16(data[off], data[off + 1]))
  }

  /** `read_u32`: the little-endian `u32` at `off`, or an error when the four
      bytes are not all inside `data`. */
  function ReadU32(data: seq<uint8>, off: nat): (r: Result<uint32, PeError>)
    ensures r.Err? <==> off + 4 > |data|
    ensures r.Err? ==> r.error == OutOfBounds(off)
    ensures r.Ok? ==> r.value == LeU32(data[off], data[off + 1], data[off + 2], data[off + 3])
  {
    if off + 4 > |data| then Err(OutOfBounds(off))
    else Ok(LeU32(data[off], data[off + 1], data[off + 2], data[off + 3]))
  }

  /** Writing a `u32` little-endian and reading it back gives the value. */
  lemma ReadU32RoundTrip(prefix: seq<uint8>, v: uint32, suffix: seq<uint8>)
    ensures ReadU32(prefix + U32ToLe(v) + suffix, |prefix|) == Ok(v)
  {
    var d := prefix + U32ToLe(v) + suffix;
    var e := U32ToLe(v);
    assert d[|prefix|] == e[0] && d[|prefix| + 1] == e[1];
    assert d[|prefix| + 2] == e[2] && d[|prefix| + 3] == e[3];
  }

  /** Writing a `u16` little-endian and reading it back gives the value. */
  lemma ReadU16RoundTrip(prefix: seq<uint8>, v: uint16, suffix: seq<uint8>)
    ensures ReadU16(prefix + U16ToLe(v) + suffix, |prefix|) == Ok(v)
  {
    var d := prefix + U16ToLe(v) + suffix;
    var e := U16ToLe(v);
    assert d[|prefix|] == e[0] && d[|prefix| + 1] == e[1];
  }

  /** Index of the first NUL byte at or after `off`, if any. */
  function FirstNul(data: seq<uint8>, off: nat): (r: Option<nat>)
    requires off <= |data|
    ensures r.Some? ==> off <= r.value < |data| && data[r.value] == 0
    ensures r.Some? ==> forall i :: off <= i < r.value ==> data[i] != 0
    ensures r.None? ==> forall i :: off <= i < |data| ==> data[i] != 0
    decreases |data| - off
  {
    if off == |data| then None
    else if data[off] == 0 then Some(off)
    else FirstNul(data, off + 1)
  }

  /** Well-formed UTF-8 as `std::str::from_utf8` accepts it (Table 3-7 of
      the Unicode Standard: no overlong forms, no surrogates, nothing above
      U+10FFFF). Returns the length of the first encoded character, or 0 if
      `s` does not start with one. */
  function Utf8CharLength(s: seq<uint8>): (n: nat)
    requires |s| > 0
    ensures n <= 4 && n <= |s|
  {
    var b0 := s[0];
    if b0 <= 0x7F then 1
    else if 0xC2 <= b0 <= 0xDF then
      (if |s| >= 2 && IsContinuation(s[1]) then 2 else 0)
    else if b0 == 0xE0 then
      (if |s| >= 3 && 0xA0 <= s[1] <= 0xBF && IsContinuation(s[2]) then 3 else 0)
    else if (0xE1 <= b0 <= 0xEC) || (0xEE <= b0 <= 0xEF) then
      (if |s| >= 3 && IsContinuation(s[1]) && IsContinuation(s[2]) then 3 else 0)
    else if b0 == 0xED then
      (if |s| >= 3 && 0x80 <= s[1] <= 0x9F && IsContinuation(s[2]) then 3 else 0)
    else if b0 == 0xF0 then
      (if |s| >= 4 && 0x90 <= s[1] <= 0xBF && IsContinuation(s[2]) && IsContinuation(s[3]) then 4 else 0)
    else if 0xF1 <= b0 <= 0xF3 then
      (if |s| >= 4 && IsContinuation(s[1]) && IsContinuation(s[2]) && IsContinuation(s[3]) then 4 else 0)
    else if b0 == 0xF4 then
      (if |s| >= 4 && 0x80 <= s[1] <= 0x8F && IsContinuation(s[2]) && IsContinuation(s[3]) then 4 else 0)
    else 0
  }

  predicate IsContinuation(b: uint8) {
    0x80 <= b <= 0xBF
  }

  predicate ValidUtf8(s: seq<uint8>)
    decreases |s|
  {
    |s| == 0 || (Utf8CharLength(s) > 0 && ValidUtf8(s[Utf8CharLength(s)..]))
  }

  /** Bytes below 0x80 are always well-formed UTF-8. */
  lemma {:induction false} AsciiIsValidUtf8(s: seq<uint8>)
    requires forall i :: 0 <= i < |s| ==> s[i] < 0x80
    ensures ValidUtf8(s)
    decreases |s|
  {
    if |s| > 0 {
      assert Utf8CharLength(s) == 1;
      AsciiIsValidUtf8(s[1..]);
    }
  }

  /** `read_c_string`: the bytes from `off` up to (not including) the first
      NUL, which must be well-formed UTF-8. */
  function ReadCString(data: seq<uint8>, off: nat): (r: Result<seq<uint8>, PeError>)
    ensures off > |data| ==> r == Err(OutOfBounds(off))
    ensures off <= |data| && (forall i :: off <= i < |data| ==> data[i] != 0) ==>
              r == Err(UnterminatedString(off))
    ensures r.Ok? ==>
              && off + |r.value| < |data|
              && data[off + |r.value|] == 0
              && r.value == data[off..off + |r.value|]
              && NulFree(r.value)
  {
    if off > |data| then Err(OutOfBounds(off))
    else
      match FirstNul(data, off)
      case None => Err(UnterminatedString(off))
      case Some(end) =>
        var s := data[off..end];
        if ValidUtf8(s) then Ok(s) else Err(InvalidUtf8(off))
  }

  /** The read succeeds exactly when a NUL follows `off` and the bytes up to
      the first one are well-formed UTF-8. */
  lemma ReadCStringOkIff(data: seq<uint8>, off: nat)
    ensures ReadCString(data, off).Ok? <==>
              off <= |data| && FirstNul(data, off).Some?
              && ValidUtf8(data[off..FirstNul(data, off).value])
  {
  }

  predicate NulFree(s: seq<uint8>) {
    forall i :: 0 <= i < |s| ==> s[i] != 0
  }

  /** A NUL-free, well-formed run of bytes followed by a NUL reads back as
      exactly that run. */
  lemma ReadCStringAt(data: seq<uint8>, off: nat, end: nat)
    requires off <= end < |data| && data[end] == 0
    requires NulFree(data[off..end]) && ValidUtf8(data[off..end])
    ensures ReadCString(data, off) == Ok(data[off..end])
  {
    forall i | off <= i < end
      ensures data[i] != 0
    {
      assert data[i] == data[off..end][i - off];
    }
    FirstNulIsFirst(data, off, end);
  }

  /** `FirstNul` finds the earliest NUL at or after `off`. */
  lemma {:induction false} FirstNulIsFirst(data: seq<uint8>, off: nat, end: nat)
    requires off <= end < |data| && data[end] == 0
    requires forall i :: off <= i < end ==> data[i] != 0
    ensures FirstNul(data, off) == Some(end)
    decreases end - off
  {
    if off < end {
      FirstNulIsFirst(data, off + 1, end);
    }
  }

  /** A NUL-terminated, NUL-free, well-formed name reads back as itself. */
  lemma ReadCStringRoundTrip(prefix: seq<uint8>, name: seq<uint8>, suffix: seq<uint8>)
    requires NulFree(name) && ValidUtf8(name)
    ensures ReadCString(prefix + name + [0] + suffix, |prefix|) == Ok(name)
  {
    NameSlice(prefix, name, suffix);
    ReadCStringAt(prefix + name + [0] + suffix, |prefix|, |prefix| + |name|);
  }

  lemma NameSlice(prefix: seq<uint8>, name: seq<uint8>, suffix: seq<uint8>)
    ensures var d := prefix + name + [0] + suffix;
            d[|prefix|..|prefix| + |name|] == name && d[|prefix| + |name|] == 0
  {
  }

  // ---------------------------------------------------------------------
  // Headers

  /** What `find_export_rva` learns from the headers before it touches the
      section table. */
  datatype Headers = Headers(
    numberOfSections: nat,
    sectionTableOffset: nat,
    exportRva: uint32)

  /** File offset of the optional header. */
  function OptionalHeaderOffset(data: seq<uint8>): (r: Result<nat, PeError>)
  {
    var ntOff :- ReadU32(data, E_LFANEW_OFFSET);
    Ok(ntOff + 4 + 20)
  }

  /** Header checks in the order the resolver makes them: the MZ magic, the
      `PE\0\0` signature at `e_lfanew`, the optional-header magic (which
      selects where the export data directory lies), and a non-zero export
      RVA. */
  function ParseHeaders(data: seq<uint8>): (r: Result<Headers, PeError>)
    ensures r.Ok? ==> ReadU16(data, 0) == Ok(DOS_MAGIC)
    ensures r.Ok? ==>
              && ReadU32(data, E_LFANEW_OFFSET).Ok?
              && ReadU32(data, ReadU32(data, E_LFANEW_OFFSET).value) == Ok(PE_SIGNATURE)
    ensures r.Ok? ==>
              var opt := ReadU32(data, E_LFANEW_OFFSET).value + 24;
              && ReadU16(data, opt).Ok?
              && (ReadU16(data, opt).value == PE32_MAGIC || ReadU16(data, opt).value == PE32_PLUS_MAGIC)
              && var dir := if ReadU16(data, opt).value == PE32_MAGIC
                            then opt + PE32_EXPORT_DIRECTORY else opt + PE32_PLUS_EXPORT_DIRECTORY;
                 ReadU32(data, dir) == Ok(r.value.exportRva)
    ensures r.Ok? ==> r.value.exportRva != 0
    ensures ReadU16(data, 0).Ok? && ReadU16(data, 0).value != DOS_MAGIC ==> r == Err(NotPe)
  {
    var mz :- ReadU16(data, 0);
    if mz != DOS_MAGIC then Err(NotPe)
    else
      var ntOff :- ReadU32(data, E_LFANEW_OFFSET);
      var signature :- ReadU32(data, ntOff);
      if signature != PE_SIGNATURE then Err(BadPeSignature)
      else
        var coffOff := ntOff + 4;
        var numberOfSections :- ReadU16(data, coffOff + 2);
        var sizeOfOptionalHeader :- ReadU16(data, coffOff + 16);
        var optionalOff := coffOff + 20;
        var magic :- ReadU16(data, optionalOff);
        if magic != PE32_MAGIC && magic != PE32_PLUS_MAGIC then Err(UnsupportedMagic(magic))
        else
          var exportDirOff :=
            if magic == PE32_MAGIC then optionalOff + PE32_EXPORT_DIRECTORY
            else optionalOff + PE32_PLUS_EXPORT_DIRECTORY;
          var exportRva :- ReadU32(data, exportDirOff);
          if exportRva == 0 then Err(NoExportDirectory)
          else Ok(Headers(numberOfSections, optionalOff + sizeOfOptionalHeader, exportRva))
  }

  // ---------------------------------------------------------------------
  // RVA to file offset (the `rva_to_offset` closure)

  datatype SectionHeader = SectionHeader(
    virtualSize: uint32,
    virtualAddress: uint32,
    sizeOfRawData: uint32,
    pointerToRawData: uint32)

  /** Section-table entry `idx`, read field by field in the resolver's order. */
  function ReadSection(data: seq<uint8>, tableOff: nat, idx: nat): Result<SectionHeader, PeError> {
    var secOff := tableOff + idx * SECTION_HEADER_SIZE;
    var virtualSize :- ReadU32(data, secOff + 8);
    var virtualAddress :- ReadU32(data, secOff + 12);
    var sizeOfRawData :- ReadU32(data, secOff + 16);
    var pointerToRawData :- ReadU32(data, secOff + 20);
    Ok(SectionHeader(virtualSize, virtualAddress, sizeOfRawData, pointerToRawData))
  }

  /** The section spans `[va, va ⊕ max(vsize, rawsize))`, with ⊕ the
      saturating `u32` addition: a section whose virtual size exceeds its
      raw size still covers its whole virtual extent. */
  predicate Covers(s: SectionHeader, rva: uint32) {
    s.virtualAddress <= rva
    && rva < SaturatingAdd32(s.virtualAddress, Max32(s.virtualSize, s.sizeOfRawData))
  }

  /** `ptr_to_raw_data ⊕ (rva − virtual_address)`. */
  function MapThrough(s: SectionHeader, rva: uint32): uint32
    requires Covers(s, rva)
  {
    SaturatingAdd32(s.pointerToRawData, rva - s.virtualAddress)
  }

  /** Scans section entries `idx..n` for the first one covering `rva`. The
      first covering section decides: if its mapped offset is outside the
      file, the result is an error and later sections are not tried. */
  function RvaToOffsetFrom(data: seq<uint8>, tableOff: nat, n: nat, idx: nat, rva: uint32)
    : (r: Result<nat, PeError>)
    ensures r.Ok? ==> r.value < |data|
    decreases n - idx
  {
    if idx >= n then Err(UnmappedRva(rva))
    else
      var sec :- ReadSection(data, tableOff, idx);
      if Covers(sec, rva) then
        var fileOff := MapThrough(sec, rva);
        if fileOff >= |data| then Err(UnmappedRva(rva)) else Ok(fileOff)
      else RvaToOffsetFrom(data, tableOff, n, idx + 1, rva)
  }

  function RvaToOffset(data: seq<uint8>, hdr: Headers, rva: uint32): (r: Result<nat, PeError>)
    ensures r.Ok? ==> r.value < |data|
  {
    RvaToOffsetFrom(data, hdr.sectionTableOffset, hdr.numberOfSections, 0, rva)
  }

  /** The sections before `k` are readable and do not cover `rva`. */
  predicate NoneCoverBefore(data: seq<uint8>, tableOff: nat, k: nat, rva: uint32) {
    forall j :: 0 <= j < k ==>
      ReadSection(data, tableOff, j).Ok? && !Covers(ReadSection(data, tableOff, j).value, rva)
  }

  /** An RVA maps through the FIRST section that covers it. */
  lemma {:induction false} RvaMapsThroughFirstCoveringSection(
    data: seq<uint8>, tableOff: nat, n: nat, rva: uint32, k: nat, i: nat)
    requires i <= k < n
    requires NoneCoverBefore(data, tableOff, k, rva)
    requires ReadSection(data, tableOff, k).Ok? && Covers(ReadSection(data, tableOff, k).value, rva)
    ensures var off := MapThrough(ReadSection(data, tableOff, k).value, rva);
            RvaToOffsetFrom(data, tableOff, n, i, rva)
              == if off < |data| then Ok(off) else Err(UnmappedRva(rva))
    decreases k - i
  {
    if i < k {
      assert ReadSection(data, tableOff, i).Ok?;
      RvaMapsThroughFirstCoveringSection(data, tableOff, n, rva, k, i + 1);
    }
  }

  /** An RVA that no readable section covers fails to map. */
  lemma {:induction false} RvaUnmappedWhenNoSectionCovers(
    data: seq<uint8>, tableOff: nat, n: nat, rva: uint32, i: nat)
    requires i <= n
    requires NoneCoverBefore(data, tableOff, n, rva)
    ensures RvaToOffsetFrom(data, tableOff, n, i, rva) == Err(UnmappedRva(rva))
    decreases n - i
  {
    if i < n {
      assert ReadSection(data, tableOff, i).Ok?;
      RvaUnmappedWhenNoSectionCovers(data, tableOff, n, rva, i + 1);
    }
  }

  // ---------------------------------------------------------------------
  // Export directory and name lookup

  /** File offsets of the three export tables and the name count. */
  datatype ExportTables = ExportTables(
    numberOfNames: nat,
    namesOffset: nat,
    ordinalsOffset: nat,
    functionsOffset: nat)

  function ReadExportTables(data: seq<uint8>, hdr: Headers): (r: Result<ExportTables, PeError>)
    ensures r.Ok? ==>
              r.value.namesOffset < |data| && r.value.ordinalsOffset < |data|
              && r.value.functionsOffset < |data|
  {
    var exportOff :- RvaToOffset(data, hdr, hdr.exportRva);
    var numberOfNames :- ReadU32(data, exportOff + 24);
    var addressOfFunctions :- ReadU32(data, exportOff + 28);
    var addressOfNames :- ReadU32(data, exportOff + 32);
    var addressOfNameOrdinals :- ReadU32(data, exportOff + 36);
    var namesOff :- RvaToOffset(data, hdr, addressOfNames);
    var ordinalsOff :- RvaToOffset(data, hdr, addressOfNameOrdinals);
    var functionsOff :- RvaToOffset(data, hdr, addressOfFunctions);
    Ok(ExportTables(numberOfNames, namesOff, ordinalsOff, functionsOff))
  }

  /** Name `idx` of the export name pointer table. */
  function ExportName(data: seq<uint8>, hdr: Headers, t: ExportTables, idx: nat)
    : Result<seq<uint8>, PeError>
  {
    var nameRva :- ReadU32(data, t.namesOffset + idx * 4);
    var nameOff :- RvaToOffset(data, hdr, nameRva);
    ReadCString(data, nameOff)
  }

  /** The function RVA that name `idx` designates: `functions[ordinals[idx]]`. */
  function ExportedRva(data: seq<uint8>, t: ExportTables, idx: nat): Result<uint32, PeError> {
    var ordinal :- ReadU16(data, t.ordinalsOffset + idx * 2);
    ReadU32(data, t.functionsOffset + ordinal * 4)
  }

  /** Linear scan of names `idx..n` for an exact match. `nameAt(i)` reads
      name `i` and `rvaAt(i)` reads the function RVA it designates; the first
      failing name read ends the scan with that failure. */
  function ScanNames(
    nameAt: nat -> Result<seq<uint8>, PeError>, rvaAt: nat -> Result<uint32, PeError>,
    n: nat, name: seq<uint8>, idx: nat)
    : Result<uint32, PeError>
    decreases n - idx
  {
    if idx >= n then Err(ExportNotFound)
    else
      var s :- nameAt(idx);
      if s == name then rvaAt(idx)
      else ScanNames(nameAt, rvaAt, n, name, idx + 1)
  }

  /** A successful scan returns what some equal name designates. */
  lemma {:induction false} ScanNamesSound(
    nameAt: nat -> Result<seq<uint8>, PeError>, rvaAt: nat -> Result<uint32, PeError>,
    n: nat, name: seq<uint8>, idx: nat)
    ensures ScanNames(nameAt, rvaAt, n, name, idx).Ok? ==>
              exists i :: idx <= i < n && nameAt(i) == Ok(name)
                          && ScanNames(nameAt, rvaAt, n, name, idx) == rvaAt(i)
    decreases n - idx
  {
    if idx < n && nameAt(idx).Ok? && nameAt(idx).value != name {
      ScanNamesSound(nameAt, rvaAt, n, name, idx + 1);
    }
  }

  /** Name `i` of the export name pointer table, read as the scan reads it. */
  function NameReader(data: seq<uint8>, hdr: Headers, t: ExportTables): nat -> Result<seq<uint8>, PeError> {
    i => ExportName(data, hdr, t, i)
  }

  function RvaReader(data: seq<uint8>, t: ExportTables): nat -> Result<uint32, PeError> {
    i => ExportedRva(data, t, i)
  }

  /** `find_export_rva` on the file contents. */
  function FindExportRva(data: seq<uint8>, name: seq<uint8>): (r: Result<uint32, PeError>)
    ensures r.Ok? ==> ParseHeaders(data).Ok?
    ensures r.Ok? ==>
              var hdr := ParseHeaders(data).value;
              && ReadExportTables(data, hdr).Ok?
              && var t := ReadExportTables(data, hdr).value;
                 exists i :: 0 <= i < t.numberOfNames && ExportName(data, hdr, t, i) == Ok(name)
                                                      && r == ExportedRva(data, t, i)
  {
    var hdr :- ParseHeaders(data);
    var t :- ReadExportTables(data, hdr);
    ScanNamesSound(NameReader(data, hdr, t), RvaReader(data, t), t.numberOfNames, name, 0);
    ScanNames(NameReader(data, hdr, t), RvaReader(data, t), t.numberOfNames, name, 0)
  }

  /** Once the headers and tables are read, the lookup is the name scan. */
  lemma FindExportRvaIsScan(data: seq<uint8>, name: seq<uint8>, hdr: Headers, t: ExportTables)
    requires ParseHeaders(data) == Ok(hdr) && ReadExportTables(data, hdr) == Ok(t)
    ensures FindExportRva(data, name)
            == ScanNames(NameReader(data, hdr, t), RvaReader(data, t), t.numberOfNames, name, 0)
  {
  }

  /** A file too short to hold the `e_lfanew` field is rejected, whatever its
      first bytes are. */
  lemma ShortFileRejected(data: seq<uint8>, name: seq<uint8>)
    requires |data| < E_LFANEW_OFFSET + 4
    ensures FindExportRva(data, name).Err?
  {
  }

  /** Reading the module file can fail before any parsing happens. */
  function FindExportRvaInFile(contents: Option<seq<uint8>>, name: seq<uint8>)
    : (r: Result<uint32, PeError>)
    ensures contents.None? ==> r == Err(ReadFailed)
    ensures contents.Some? ==> r == FindExportRva(contents.value, name)
  {
    match contents
    case None => Err(ReadFailed)
    case Some(data) => FindExportRva(data, name)
  }

  /** The names before `k` are readable and differ from `name`. */
  predicate NoMatchBefore(nameAt: nat -> Result<seq<uint8>, PeError>, name: seq<uint8>, k: nat) {
    forall j: nat :: j < k ==> nameAt(j).Ok? && nameAt(j).value != name
  }

  /** The lookup returns the RVA designated by the SMALLEST `k` whose name
      equals the wanted name, whatever later names hold. */
  lemma {:induction false} ScanNamesFindsFirstMatch(
    nameAt: nat -> Result<seq<uint8>, PeError>, rvaAt: nat -> Result<uint32, PeError>,
    n: nat, name: seq<uint8>, k: nat, i: nat)
    requires i <= k < n
    requires NoMatchBefore(nameAt, name, k)
    requires nameAt(k) == Ok(name)
    ensures ScanNames(nameAt, rvaAt, n, name, i) == rvaAt(k)
    decreases k - i
  {
    if i < k {
      assert nameAt(i).Ok?;
      ScanNamesFindsFirstMatch(nameAt, rvaAt, n, name, k, i + 1);
    }
  }

  /** One step of the scan: a readable name that differs is passed over. */
  lemma ScanNamesSkipsMismatch(
    nameAt: nat -> Result<seq<uint8>, PeError>, rvaAt: nat -> Result<uint32, PeError>,
    n: nat, name: seq<uint8>, i: nat)
    requires i < n && nameAt(i).Ok? && nameAt(i).value != name
    ensures ScanNames(nameAt, rvaAt, n, name, i) == ScanNames(nameAt, rvaAt, n, name, i + 1)
  {
  }

  /** With every name readable and none equal, the lookup fails. */
  lemma {:induction false} ScanNamesNotFound(
    nameAt: nat -> Result<seq<uint8>, PeError>, rvaAt: nat -> Result<uint32, PeError>,
    n: nat, name: seq<uint8>, i: nat)
    requires i <= n
    requires NoMatchBefore(nameAt, name, n)
    ensures ScanNames(nameAt, rvaAt, n, name, i) == Err(ExportNotFound)
    decreases n - i
  {
    if i < n {
      assert nameAt(i).Ok?;
      ScanNamesNotFound(nameAt, rvaAt, n, name, i + 1);
    }
  }

  /** The scan stops at the first unreadable name, even if a later name
      would match. */
  lemma {:induction false} ScanNamesStopsAtUnreadableName(
    nameAt: nat -> Result<seq<uint8>, PeError>, rvaAt: nat -> Result<uint32, PeError>,
    n: nat, name: seq<uint8>, k: nat, i: nat)
    requires i <= k < n
    requires NoMatchBefore(nameAt, name, k)
    requires nameAt(k).Err?
    ensures ScanNames(nameAt, rvaAt, n, name, i) == Err(nameAt(k).error)
    decreases k - i
  {
    if i < k {
      assert nameAt(i).Ok?;
      ScanNamesStopsAtUnreadableName(nameAt, rvaAt, n, name, k, i + 1);
    }
  }

  // ---------------------------------------------------------------------
  // Truncated files

  /** Every read that succeeds on a prefix of a file reads the same bytes
      in the whole file. */
  lemma ReadsAgreeOnPrefix(p: seq<uint8>, d: seq<uint8>)
    requires p <= d
    ensures forall off: nat :: ReadU16(p, off).Ok? ==> ReadU16(d, off) == ReadU16(p, off)
    ensures forall off: nat :: ReadU32(p, off).Ok? ==> ReadU32(d, off) == ReadU32(p, off)
  {
  }

  lemma ReadCStringOnPrefix(p: seq<uint8>, d: seq<uint8>, off: nat)
    requires p <= d
    ensures ReadCString(p, off).Ok? ==> ReadCString(d, off) == ReadCString(p, off)
  {
    if ReadCString(p, off).Ok? {
      var s := ReadCString(p, off).value;
      var end := off + |s|;
      assert FirstNul(p, off) == Some(end);
      forall i | off <= i < end
        ensures d[i] != 0
      {
        assert d[i] == p[i] == s[i - off];
      }
      FirstNulIsFirst(d, off, end);
      assert d[off..end] == p[off..end];
    }
  }

  lemma {:induction false} RvaToOffsetFromOnPrefix(p: seq<uint8>, d: seq<uint8>, tableOff: nat, n: nat, idx: nat, rva: uint32)
    requires p <= d
    ensures RvaToOffsetFrom(p, tableOff, n, idx, rva).Ok? ==>
              RvaToOffsetFrom(d, tableOff, n, idx, rva) == RvaToOffsetFrom(p, tableOff, n, idx, rva)
    decreases n - idx
  {
    if idx < n {
      ReadsAgreeOnPrefix(p, d);
      if ReadSection(p, tableOff, idx).Ok? {
        assert ReadSection(d, tableOff, idx) == ReadSection(p, tableOff, idx);
        RvaToOffsetFromOnPrefix(p, d, tableOff, n, idx + 1, rva);
      }
    }
  }

  lemma RvaToOffsetOnPrefix(p: seq<uint8>, d: seq<uint8>, hdr: Headers, rva: uint32)
    requires p <= d
    ensures RvaToOffset(p, hdr, rva).Ok? ==> RvaToOffset(d, hdr, rva) == RvaToOffset(p, hdr, rva)
  {
    RvaToOffsetFromOnPrefix(p, d, hdr.sectionTableOffset, hdr.numberOfSections, 0, rva);
  }

  lemma ParseHeadersOnPrefix(p: seq<uint8>, d: seq<uint8>)
    requires p <= d
    ensures ParseHeaders(p).Ok? ==> ParseHeaders(d) == ParseHeaders(p)
  {
    ReadsAgreeOnPrefix(p, d);
  }

  lemma ReadExportTablesOnPrefix(p: seq<uint8>, d: seq<uint8>, hdr: Headers)
    requires p <= d
    ensures ReadExportTables(p, hdr).Ok? ==> ReadExportTables(d, hdr) == ReadExportTables(p, hdr)
  {
    var e := RvaToOffset(p, hdr, hdr.exportRva);
    RvaToOffsetOnPrefix(p, d, hdr, hdr.exportRva);
    if e.Ok? {
      var off := e.value;
      ReadU32OnPrefix(p, d, off + 24);
      ReadU32OnPrefix(p, d, off + 28);
      ReadU32OnPrefix(p, d, off + 32);
      ReadU32OnPrefix(p, d, off + 36);
      var n, f, nm, o := ReadU32(p, off + 24), ReadU32(p, off + 28), ReadU32(p, off + 32), ReadU32(p, off + 36);
      if n.Ok? && f.Ok? && nm.Ok? && o.Ok? {
        RvaToOffsetOnPrefix(p, d, hdr, f.value);
        RvaToOffsetOnPrefix(p, d, hdr, nm.value);
        RvaToOffsetOnPrefix(p, d, hdr, o.value);
      }
    }
  }

  lemma ReadU32OnPrefix(p: seq<uint8>, d: seq<uint8>, off: nat)
    requires p <= d
    ensures ReadU32(p, off).Ok? ==> ReadU32(d, off) == ReadU32(p, off)
  {
  }

  lemma ExportNameOnPrefix(p: seq<uint8>, d: seq<uint8>, hdr: Headers, t: ExportTables, i: nat)
    requires p <= d
    ensures ExportName(p, hdr, t, i).Ok? ==> ExportName(d, hdr, t, i) == ExportName(p, hdr, t, i)
  {
    if ExportName(p, hdr, t, i).Ok? {
      ReadsAgreeOnPrefix(p, d);
      var nameRva := ReadU32(p, t.namesOffset + i * 4).value;
      RvaToOffsetOnPrefix(p, d, hdr, nameRva);
      ReadCStringOnPrefix(p, d, RvaToOffset(p, hdr, nameRva).value);
    }
  }

  lemma ExportedRvaOnPrefix(p: seq<uint8>, d: seq<uint8>, t: ExportTables, i: nat)
    requires p <= d
    ensures ExportedRva(p, t, i).Ok? ==> ExportedRva(d, t, i) == ExportedRva(p, t, i)
  {
    ReadsAgreeOnPrefix(p, d);
  }

  /** A scan whose readers agree wherever the first pair succeeds ends the
      same way whenever the first scan succeeds. */
  lemma {:induction false} ScanNamesAgree(
    nameAt: nat -> Result<seq<uint8>, PeError>, rvaAt: nat -> Result<uint32, PeError>,
    nameAt': nat -> Result<seq<uint8>, PeError>, rvaAt': nat -> Result<uint32, PeError>,
    n: nat, name: seq<uint8>, idx: nat)
    requires forall i :: nameAt(i).Ok? ==> nameAt'(i) == nameAt(i)
    requires forall i :: rvaAt(i).Ok? ==> rvaAt'(i) == rvaAt(i)
    ensures ScanNames(nameAt, rvaAt, n, name, idx).Ok? ==>
              ScanNames(nameAt', rvaAt', n, name, idx) == ScanNames(nameAt, rvaAt, n, name, idx)
    decreases n - idx
  {
    if idx < n && nameAt(idx).Ok? && nameAt(idx).value != name {
      ScanNamesAgree(nameAt, rvaAt, nameAt', rvaAt', n, name, idx + 1);
    }
  }

  /** Truncation never changes an answer: a lookup that succeeds on the
      first bytes of a file gives the same RVA on the whole file. */
  lemma FindExportRvaOnPrefix(p: seq<uint8>, d: seq<uint8>, name: seq<uint8>)
    requires p <= d
    ensures FindExportRva(p, name).Ok? ==> FindExportRva(d, name) == FindExportRva(p, name)
  {
    if FindExportRva(p, name).Ok? {
      ParseHeadersOnPrefix(p, d);
      var hdr := ParseHeaders(p).value;
      ReadExportTablesOnPrefix(p, d, hdr);
      var t := ReadExportTables(p, hdr).value;
      forall i: nat
        ensures NameReader(p, hdr, t)(i).Ok? ==> NameReader(d, hdr, t)(i) == NameReader(p, hdr, t)(i)
      {
        ExportNameOnPrefix(p, d, hdr, t, i);
      }
      forall i: nat
        ensures RvaReader(p, t)(i).Ok? ==> RvaReader(d, t)(i) == RvaReader(p, t)(i)
      {
        ExportedRvaOnPrefix(p, d, t, i);
      }
      ScanNamesAgree(NameReader(p, hdr, t), RvaReader(p, t), NameReader(d, hdr, t), RvaReader(d, t),
                     t.numberOfNames, name, 0);
      FindExportRvaIsScan(p, name, hdr, t);
      FindExportRvaIsScan(d, name, hdr, t);
    }
  }

  /** In a file exporting a single name, a prefix that ends before that
      name's terminating NUL exports nothing under that name. */
  lemma PrefixMissesOnlyName(p: seq<uint8>, d: seq<uint8>, name: seq<uint8>, hdr: Headers, t: ExportTables,
                             nameRva: uint32, nameOff: nat)
    requires p <= d
    requires ParseHeaders(d) == Ok(hdr) && ReadExportTables(d, hdr) == Ok(t) && t.numberOfNames == 1
    requires ReadU32(d, t.namesOffset) == Ok(nameRva) && RvaToOffset(d, hdr, nameRva) == Ok(nameOff)
    requires |p| <= nameOff + |name|
    ensures FindExportRva(p, name).Err?
  {
    if FindExportRva(p, name).Ok? {
      ParseHeadersOnPrefix(p, d);
      assert ParseHeaders(p) == Ok(hdr);
      ReadExportTablesOnPrefix(p, d, hdr);
      assert ReadExportTables(p, hdr) == Ok(t);
      assert ExportName(p, hdr, t, 0) == Ok(name);
      ReadU32OnPrefix(p, d, t.namesOffset);
      assert ReadU32(p, t.namesOffset) == Ok(nameRva);
      RvaToOffsetOnPrefix(p, d, hdr, nameRva);
    }
  }
}
