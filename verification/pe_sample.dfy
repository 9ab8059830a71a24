/** A minimal PE32 image exporting one name, and the proof that the export
    resolver finds that name's RVA in it (and nothing for another name).
    The image plays the part of the inverse of the resolver: it is laid out
    the way the Microsoft PE/COFF Specification describes, with one section
    holding the export directory, its three tables and the name string. */
module PeSample {
  import opened Ints
  import opened Wrappers
  import opened PeExport

  // File offsets of the sample layout.
  const LFANEW: nat := 64
  const OPTIONAL_HEADER: nat := 88
  const OPTIONAL_HEADER_SIZE: uint16 := 104
  const SECTION_TABLE: nat := 192
  const EXPORT_FILE_OFFSET: nat := 256
  const EXPORT_RVA: uint32 := 0x1000
  const FUNCTIONS_OFFSET: nat := 296
  const NAMES_OFFSET: nat := 300
  const ORDINALS_OFFSET: nat := 304
  const NAME_OFFSET: nat := 308

  const MAX_NAME: nat := 0x0100_0000

  /** Names short enough for every offset of the image to have an RVA. */
  predicate SampleName(name: seq<uint8>) {
    |name| < MAX_NAME && NulFree(name) && ValidUtf8(name)
  }

  /** Size of the one section, which runs from the export directory to the
      end of the file. */
  function SectionSize(name: seq<uint8>): uint32
    requires |name| < MAX_NAME
  {
    NAME_OFFSET + |name| + 1 - EXPORT_FILE_OFFSET
  }

  function RvaOf(fileOffset: nat): uint32
    requires EXPORT_FILE_OFFSET <= fileOffset < 2 * MAX_NAME
  {
    EXPORT_RVA + (fileOffset - EXPORT_FILE_OFFSET)
  }

  function SampleByte(name: seq<uint8>, funcRva: uint32, i: int): uint8
    requires |name| < MAX_NAME
  {
    if i == 0 then 0x4D
    else if i == 1 then 0x5A
    else if 0x3C <= i < 0x40 then U32ToLe(LFANEW)[i - 0x3C]
    else if 64 <= i < 68 then U32ToLe(PE_SIGNATURE)[i - 64]
    else if 70 <= i < 72 then U16ToLe(1)[i - 70]
    else if 84 <= i < 86 then U16ToLe(OPTIONAL_HEADER_SIZE)[i - 84]
    else if 88 <= i < 90 then U16ToLe(PE32_MAGIC)[i - 88]
    else if 184 <= i < 188 then U32ToLe(EXPORT_RVA)[i - 184]
    else if 200 <= i < 204 then U32ToLe(SectionSize(name))[i - 200]
    else if 204 <= i < 208 then U32ToLe(EXPORT_RVA)[i - 204]
    else if 208 <= i < 212 then U32ToLe(SectionSize(name))[i - 208]
    else if 212 <= i < 216 then U32ToLe(EXPORT_FILE_OFFSET)[i - 212]
    else if 280 <= i < 284 then U32ToLe(1)[i - 280]
    else if 284 <= i < 288 then U32ToLe(RvaOf(FUNCTIONS_OFFSET))[i - 284]
    else if 288 <= i < 292 then U32ToLe(RvaOf(NAMES_OFFSET))[i - 288]
    else if 292 <= i < 296 then U32ToLe(RvaOf(ORDINALS_OFFSET))[i - 292]
    else if 296 <= i < 300 then U32ToLe(funcRva)[i - 296]
    else if 300 <= i < 304 then U32ToLe(RvaOf(NAME_OFFSET))[i - 300]
    else if NAME_OFFSET <= i < NAME_OFFSET + |name| then name[i - NAME_OFFSET]
    else 0
  }

  /** The sample image exporting `name` at `funcRva`; the byte after the name
      is its NUL terminator and ends the file. */
  function SampleImage(name: seq<uint8>, funcRva: uint32): (img: seq<uint8>)
    requires |name| < MAX_NAME
    ensures |img| == NAME_OFFSET + |name| + 1
  {
    seq(NAME_OFFSET + |name| + 1, i => SampleByte(name, funcRva, i))
  }

  lemma ReadsU32(img: seq<uint8>, off: nat, v: uint32)
    requires off + 4 <= |img|
    requires img[off] == U32ToLe(v)[0] && img[off + 1] == U32ToLe(v)[1]
    requires img[off + 2] == U32ToLe(v)[2] && img[off + 3] == U32ToLe(v)[3]
    ensures ReadU32(img, off) == Ok(v)
  {
  }

  lemma ReadsU16(img: seq<uint8>, off: nat, v: uint16)
    requires off + 2 <= |img|
    requires img[off] == U16ToLe(v)[0] && img[off + 1] == U16ToLe(v)[1]
    ensures ReadU16(img, off) == Ok(v)
  {
  }

  lemma SampleHeaders(name: seq<uint8>, funcRva: uint32)
    requires |name| < MAX_NAME
    ensures ParseHeaders(SampleImage(name, funcRva)) == Ok(Headers(1, SECTION_TABLE, EXPORT_RVA))
  {
    var img := SampleImage(name, funcRva);
    assert ReadU16(img, 0) == Ok(DOS_MAGIC);
    ReadsU32(img, E_LFANEW_OFFSET, LFANEW);
    ReadsU32(img, LFANEW, PE_SIGNATURE);
    ReadsU16(img, 70, 1);
    ReadsU16(img, 84, OPTIONAL_HEADER_SIZE);
    ReadsU16(img, OPTIONAL_HEADER, PE32_MAGIC);
    ReadsU32(img, OPTIONAL_HEADER + PE32_EXPORT_DIRECTORY, EXPORT_RVA);
  }

  lemma SampleSection(name: seq<uint8>, funcRva: uint32)
    requires |name| < MAX_NAME
    ensures ReadSection(SampleImage(name, funcRva), SECTION_TABLE, 0)
            == Ok(SectionHeader(SectionSize(name), EXPORT_RVA, SectionSize(name), EXPORT_FILE_OFFSET))
  {
    var img := SampleImage(name, funcRva);
    ReadsU32(img, 200, SectionSize(name));
    ReadsU32(img, 204, EXPORT_RVA);
    ReadsU32(img, 208, SectionSize(name));
    ReadsU32(img, 212, EXPORT_FILE_OFFSET);
  }

  /** Every offset of the section maps back from its RVA. */
  lemma SampleMapsRva(name: seq<uint8>, funcRva: uint32, fileOffset: nat)
    requires |name| < MAX_NAME
    requires EXPORT_FILE_OFFSET <= fileOffset < |SampleImage(name, funcRva)|
    ensures RvaToOffset(SampleImage(name, funcRva), Headers(1, SECTION_TABLE, EXPORT_RVA), RvaOf(fileOffset))
            == Ok(fileOffset)
  {
    var img := SampleImage(name, funcRva);
    SampleSection(name, funcRva);
    var sec := ReadSection(img, SECTION_TABLE, 0).value;
    assert Covers(sec, RvaOf(fileOffset));
    assert MapThrough(sec, RvaOf(fileOffset)) == fileOffset;
    RvaMapsThroughFirstCoveringSection(img, SECTION_TABLE, 1, RvaOf(fileOffset), 0, 0);
  }

  /** The export directory's count and table RVAs. */
  lemma SampleDirectory(name: seq<uint8>, funcRva: uint32)
    requires |name| < MAX_NAME
    ensures var img := SampleImage(name, funcRva);
            && ReadU32(img, EXPORT_FILE_OFFSET + 24) == Ok(1)
            && ReadU32(img, EXPORT_FILE_OFFSET + 28) == Ok(RvaOf(FUNCTIONS_OFFSET))
            && ReadU32(img, EXPORT_FILE_OFFSET + 32) == Ok(RvaOf(NAMES_OFFSET))
            && ReadU32(img, EXPORT_FILE_OFFSET + 36) == Ok(RvaOf(ORDINALS_OFFSET))
  {
    var img := SampleImage(name, funcRva);
    ReadsU32(img, EXPORT_FILE_OFFSET + 24, 1);
    ReadsU32(img, EXPORT_FILE_OFFSET + 28, RvaOf(FUNCTIONS_OFFSET));
    ReadsU32(img, EXPORT_FILE_OFFSET + 32, RvaOf(NAMES_OFFSET));
    ReadsU32(img, EXPORT_FILE_OFFSET + 36, RvaOf(ORDINALS_OFFSET));
  }

  lemma SampleTables(name: seq<uint8>, funcRva: uint32)
    requires |name| < MAX_NAME
    ensures ReadExportTables(SampleImage(name, funcRva), Headers(1, SECTION_TABLE, EXPORT_RVA))
            == Ok(ExportTables(1, NAMES_OFFSET, ORDINALS_OFFSET, FUNCTIONS_OFFSET))
  {
    SampleMapsRva(name, funcRva, EXPORT_FILE_OFFSET);
    SampleDirectory(name, funcRva);
    SampleMapsRva(name, funcRva, NAMES_OFFSET);
    SampleMapsRva(name, funcRva, ORDINALS_OFFSET);
    SampleMapsRva(name, funcRva, FUNCTIONS_OFFSET);
  }

  lemma SampleFirstName(name: seq<uint8>, funcRva: uint32)
    requires SampleName(name)
    ensures var t := ExportTables(1, NAMES_OFFSET, ORDINALS_OFFSET, FUNCTIONS_OFFSET);
            ExportName(SampleImage(name, funcRva), Headers(1, SECTION_TABLE, EXPORT_RVA), t, 0) == Ok(name)
            && ExportedRva(SampleImage(name, funcRva), t, 0) == Ok(funcRva)
  {
    var img := SampleImage(name, funcRva);
    ReadsU32(img, NAMES_OFFSET, RvaOf(NAME_OFFSET));
    SampleMapsRva(name, funcRva, NAME_OFFSET);
    assert img[NAME_OFFSET..NAME_OFFSET + |name|] == name;
    ReadCStringAt(img, NAME_OFFSET, NAME_OFFSET + |name|);
    ReadsU16(img, ORDINALS_OFFSET, 0);
    ReadsU32(img, FUNCTIONS_OFFSET, funcRva);
  }

  /** Resolving the exported name yields the RVA it was exported at. */
  lemma FindExportRvaOfSample(name: seq<uint8>, funcRva: uint32)
    requires SampleName(name)
    ensures FindExportRva(SampleImage(name, funcRva), name) == Ok(funcRva)
  {
    var img := SampleImage(name, funcRva);
    var hdr := Headers(1, SECTION_TABLE, EXPORT_RVA);
    var t := ExportTables(1, NAMES_OFFSET, ORDINALS_OFFSET, FUNCTIONS_OFFSET);
    SampleHeaders(name, funcRva);
    SampleTables(name, funcRva);
    SampleFirstName(name, funcRva);
    FindExportRvaIsScan(img, name, hdr, t);
    ScanNamesFindsFirstMatch(NameReader(img, hdr, t), RvaReader(img, t), 1, name, 0, 0);
  }

  /** Resolving any other name fails with "not found". */
  lemma FindOtherExportOfSample(name: seq<uint8>, funcRva: uint32, other: seq<uint8>)
    requires SampleName(name) && other != name
    ensures FindExportRva(SampleImage(name, funcRva), other) == Err(ExportNotFound)
  {
    var img := SampleImage(name, funcRva);
    var hdr := Headers(1, SECTION_TABLE, EXPORT_RVA);
    var t := ExportTables(1, NAMES_OFFSET, ORDINALS_OFFSET, FUNCTIONS_OFFSET);
    SampleHeaders(name, funcRva);
    SampleTables(name, funcRva);
    SampleFirstName(name, funcRva);
    FindExportRvaIsScan(img, other, hdr, t);
    ScanNamesSkipsMismatch(NameReader(img, hdr, t), RvaReader(img, t), 1, other, 0);
  }

  /** Where the sample's one name pointer leads. */
  lemma SampleNamePointer(name: seq<uint8>, funcRva: uint32)
    requires SampleName(name)
    ensures ReadU32(SampleImage(name, funcRva), NAMES_OFFSET) == Ok(RvaOf(NAME_OFFSET))
    ensures RvaToOffset(SampleImage(name, funcRva), Headers(1, SECTION_TABLE, EXPORT_RVA), RvaOf(NAME_OFFSET))
            == Ok(NAME_OFFSET)
  {
    ReadsU32(SampleImage(name, funcRva), NAMES_OFFSET, RvaOf(NAME_OFFSET));
    SampleMapsRva(name, funcRva, NAME_OFFSET);
  }

  /** Cutting the image short anywhere makes the lookup fail: the name's
      terminating NUL is the last byte of the file. */
  lemma TruncatedSampleFails(name: seq<uint8>, funcRva: uint32, cut: nat)
    requires SampleName(name) && cut < |SampleImage(name, funcRva)|
    ensures FindExportRva(SampleImage(name, funcRva)[..cut], name).Err?
  {
    var img := SampleImage(name, funcRva);
    SampleHeaders(name, funcRva);
    SampleTables(name, funcRva);
    SampleNamePointer(name, funcRva);
    PrefixMissesOnlyName(img[..cut], img, name, Headers(1, SECTION_TABLE, EXPORT_RVA),
                         ExportTables(1, NAMES_OFFSET, ORDINALS_OFFSET, FUNCTIONS_OFFSET),
                         RvaOf(NAME_OFFSET), NAME_OFFSET);
  }
}
