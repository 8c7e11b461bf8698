/** The on-disk building blocks: constants, descriptor variants, directory
    entries with fixed-width names, the layouts a block can hold, and the
    bitmap block whose bits mark occupied block addresses.

    The struct layouts themselves (`filesystemblock.h`) are not part of this
    model; their capacities are fields of the header, so every count below is
    a parameter rather than a value derived from `sizeof`. */
module Blocks {
  import opened Errors

  const HEADER_ADDRESS: nat := 0
  const INVALID_DESCRIPTOR_ID: nat := 0
  const DEFAULT_BLOCK_BYTE_SIZE: nat := 1024
  const MAX_FILENAME: nat := 16
  /** The 32 characters of the magic mark; the 33rd byte is its terminator. */
  const MAGIC_MARK: string := "WK8sTuQpu_[MgkRwRL)vgY8G53w}gqoz"
  const FS_VERSION: int := 1
  const EMPTY_NAME: string := "~empty~"
  const NUL: char := '\0'

  /* ---------------------------------------------------------------------- */
  /* Descriptor variants: bit flags, combined with `|` and tested with `&`. */

  type Variant = bv8

  const VNone: Variant := 0
  const VFile: Variant := 1
  const VDirectory: Variant := 2
  const VSymLink: Variant := 4
  const VAny: Variant := 7

  /** Bit k of a variant. */
  predicate HasFlag(v: Variant, k: nat)
    requires k < 8
  {
    v & ((1 as bv8) << k) != 0
  }

  /** `operator|`: the union of the flags. */
  function Or(a: Variant, b: Variant): (r: Variant)
    ensures forall k :: 0 <= k < 8 ==> (HasFlag(r, k) <==> HasFlag(a, k) || HasFlag(b, k))
  {
    OrFlags(a, b);
    a | b
  }

  /** `|` works flag by flag. */
  lemma OrFlags(a: Variant, b: Variant)
    ensures forall k :: 0 <= k < 8 ==> (HasFlag(a | b, k) <==> HasFlag(a, k) || HasFlag(b, k))
  {
    forall k | 0 <= k < 8
      ensures HasFlag(a | b, k) <==> HasFlag(a, k) || HasFlag(b, k)
    {
      var mask := (1 as bv8) << k;
      assert (a | b) & mask == (a & mask) | (b & mask);
    }
  }

  /** `operator&`: the common flags, as a raw number. */
  function And(a: Variant, b: Variant): (r: bv8)
    ensures forall k :: 0 <= k < 8 ==> (HasFlag(r, k) <==> HasFlag(a, k) && HasFlag(b, k))
    ensures r == 0 <==> forall k :: 0 <= k < 8 ==> !(HasFlag(a, k) && HasFlag(b, k))
  {
    BitsAreFlags(a & b);
    a & b
  }

  /** A byte is zero exactly when none of its eight flags is set. */
  lemma BitsAreFlags(x: bv8)
    ensures x == 0 <==> forall k :: 0 <= k < 8 ==> !HasFlag(x, k)
  {
    if x != 0 {
      assert HasFlag(x, 0) || HasFlag(x, 1) || HasFlag(x, 2) || HasFlag(x, 3)
          || HasFlag(x, 4) || HasFlag(x, 5) || HasFlag(x, 6) || HasFlag(x, 7);
    }
  }

  /** One step of the mixed-variant loop: a non-empty result gets " or " before
      the next name. */
  function AppendPart(acc: string, part: string): string {
    if acc == [] then part else acc + " or " + part
  }

  /** The mixed-variant branch: File, SymLink and Directory are checked in this
      order and the names of those present are appended. */
  function MixedName(v: Variant): string {
    var r1 := if And(VFile, v) != 0 then AppendPart([], "file") else [];
    var r2 := if And(VSymLink, v) != 0 then AppendPart(r1, "symlink") else r1;
    if And(VDirectory, v) != 0 then AppendPart(r2, "directory") else r2
  }

  /** `to_string(DescriptorVariant)`: every variant has a name, and
      "bad variant" is the name of exactly the non-empty variants that share
      no flag with Any. */
  function VariantName(v: Variant): (r: string)
    ensures r != []
    ensures r == "bad variant" <==> v != VNone && And(v, VAny) == 0
  {
    if v == VNone then "none"
    else if v == VFile then "file"
    else if v == VSymLink then "symlink"
    else if v == VDirectory then "directory"
    else if v == VAny then "Any"
    else if And(v, VAny) == 0 then "bad variant"
    else MixedNameNamed(v); MixedName(v)
  }

  /** A variant sharing a flag with Any gets a mixed name that starts with
      the first letter of one of its parts, so it is never "bad variant". */
  lemma MixedNameNamed(v: Variant)
    requires And(v, VAny) != 0
    ensures MixedName(v) != [] && MixedName(v)[0] != 'b'
  {
    var f, s, d := And(VFile, v) != 0, And(VSymLink, v) != 0, And(VDirectory, v) != 0;
    assert f || s || d;
    JoinedParts(f, s, d);
  }

  /** Reference definition: the names of the base variants present, in order. */
  function Parts(v: Variant): seq<string> {
    (if And(VFile, v) != 0 then ["file"] else [])
    + (if And(VSymLink, v) != 0 then ["symlink"] else [])
    + (if And(VDirectory, v) != 0 then ["directory"] else [])
  }

  /** Reference definition: the parts joined by " or ". */
  function JoinOr(parts: seq<string>): string {
    if parts == [] then [] else if |parts| == 1 then parts[0] else parts[0] + " or " + JoinOr(parts[1..])
  }

  /** A mixed variant prints the names of its File, SymLink and Directory parts,
      in that order, joined by " or "; a variant with no bit of Any prints
      "bad variant"; nothing else does. */
  lemma VariantNameCases(v: Variant)
    ensures (v != VNone && v != VFile && v != VSymLink && v != VDirectory && v != VAny
             && And(v, VAny) != 0) ==> Parts(v) != [] && VariantName(v) == JoinOr(Parts(v))
    ensures VariantName(v) == "bad variant" <==> v != VNone && And(v, VAny) == 0
  {
    var f, s, d := And(VFile, v) != 0, And(VSymLink, v) != 0, And(VDirectory, v) != 0;
    assert f || s || d <==> And(v, VAny) != 0;
    JoinedParts(f, s, d);
    var m := MixedName(v);
    if f || s || d {
      assert m != "bad variant" by { assert "bad variant"[0] == 'b'; }
    }
  }

  /** The mixed-variant loop over the flags `f`, `s`, `d` (file, symlink,
      directory) joins the names of the flags that are set; it starts with
      the first of them. */
  lemma JoinedParts(f: bool, s: bool, d: bool)
    ensures var r1 := if f then AppendPart([], "file") else [];
            var r2 := if s then AppendPart(r1, "symlink") else r1;
            var m := if d then AppendPart(r2, "directory") else r2;
            var p := (if f then ["file"] else []) + (if s then ["symlink"] else []) + (if d then ["directory"] else []);
            && m == JoinOr(p)
            && (f || s || d ==> p != [] && m != [] && (m[0] == 'f' || m[0] == 's' || m[0] == 'd'))
  {
    var p := (if f then ["file"] else []) + (if s then ["symlink"] else []) + (if d then ["directory"] else []);
    if f && s && d {
      assert p == ["file", "symlink", "directory"];
      assert p[1..] == ["symlink", "directory"];
      assert p[1..][1..] == ["directory"];
      assert JoinOr(p[1..]) == "symlink" + " or " + "directory";
    } else if f && s {
      assert p == ["file", "symlink"];
    } else if f && d {
      assert p == ["file", "directory"];
    } else if s && d {
      assert p == ["symlink", "directory"];
    } else if f {
      assert p == ["file"];
    } else if s {
      assert p == ["symlink"];
    } else if d {
      assert p == ["directory"];
    }
  }

  /* ---------------------------------------------------------------------- */
  /* Directory entries: a descriptor index and a fixed-width name buffer.   */

  datatype DirEntry = DirEntry(descriptor: nat, name: seq<char>)

  predicate NulFree(s: string) {
    forall i :: 0 <= i < |s| ==> s[i] != NUL
  }

  /** The name as `set` stores it: truncated to `maxLength`. */
  function Truncated(name: string, maxLength: nat): (t: string)
    ensures |t| <= maxLength && |t| <= |name| && t == name[..|t|]
    ensures |t| == if |name| >= maxLength then maxLength else |name|
  {
    if |name| >= maxLength then name[..maxLength] else name
  }

  /** The buffer after `set`: the truncated name over its first characters, a
      NUL right after it when it is shorter than `maxLength`, and the old
      contents everywhere else. */
  function StoredName(buf: seq<char>, name: string, maxLength: nat): (r: seq<char>)
    requires maxLength <= |buf|
    ensures |r| == |buf|
    ensures var t := Truncated(name, maxLength);
            && (forall i :: 0 <= i < |t| ==> r[i] == t[i])
            && (|t| < maxLength ==> r[|t|] == NUL)
            && (forall i :: |t| < i < |buf| ==> r[i] == buf[i])
            && (|t| == maxLength && |t| < |buf| ==> r[|t|] == buf[|t|])
  {
    var t := Truncated(name, maxLength);
    if |t| < maxLength then t + [NUL] + buf[|t| + 1..] else t + buf[|t|..]
  }

  /** `directoryEntry::set`: rejects an empty name, otherwise stores the
      truncated name and the descriptor index. The source writes at most
      `maxLength` characters, so the buffer must hold that many. */
  method SetEntry(e: DirEntry, descriptor: nat, name: string, maxLength: nat) returns (r: Result<DirEntry>)
    requires maxLength <= |e.name|
    ensures r.Err? <==> name == []
    ensures r.Err? ==> r.error == InvalidArgument
    ensures r.Ok? ==> r.value == DirEntry(descriptor, StoredName(e.name, name, maxLength))
  {
    if name == [] {
      return Err(InvalidArgument);
    }
    var s := name;
    if |s| >= maxLength {
      s := s[..maxLength];
    }
    assert s == Truncated(name, maxLength);
    var buf := e.name;
    var i := 0;
    while i < |s|
      invariant 0 <= i <= |s| && |buf| == |e.name|
      invariant forall j :: 0 <= j < i ==> buf[j] == s[j]
      invariant forall j :: i <= j < |buf| ==> buf[j] == e.name[j]
    {
      buf := buf[i := s[i]];
      i := i + 1;
    }
    if i != maxLength {
      buf := buf[i := NUL];
    }
    ghost var stored := StoredName(e.name, name, maxLength);
    assert buf == stored by {
      forall j | 0 <= j < |buf| ensures buf[j] == stored[j] {
      }
    }
    return Ok(DirEntry(descriptor, buf));
  }

  /** The characters before the first NUL among the first `maxFilename`. */
  function NameChars(buf: seq<char>, maxFilename: nat): (r: string)
    requires maxFilename <= |buf|
    ensures |r| <= maxFilename && r == buf[..|r|] && NulFree(r)
    ensures |r| < maxFilename ==> buf[|r|] == NUL
  {
    if maxFilename == 0 || buf[0] == NUL then [] else [buf[0]] + NameChars(buf[1..], maxFilename - 1)
  }

  /** `directoryEntry::name`: the stored name, or "~empty~" for an empty entry.
      The source tests the character before the bound, so a name that fills
      the buffer makes it read one element past it; that element cannot change
      the result, and the model tests the bound first. */
  function EntryName(e: DirEntry, maxFilename: nat): (r: string)
    requires 0 < |e.name| && maxFilename <= |e.name|
    ensures IsEmpty(e) ==> r == EMPTY_NAME
    ensures !IsEmpty(e) ==> |r| <= maxFilename && r == e.name[..|r|] && NulFree(r)
    ensures !IsEmpty(e) && |r| < maxFilename ==> e.name[|r|] == NUL
  {
    if e.name[0] == NUL then EMPTY_NAME else NameChars(e.name, maxFilename)
  }

  /** The loop of `directoryEntry::name`. */
  method ReadName(e: DirEntry, maxFilename: nat) returns (result: string)
    requires 0 < |e.name| && maxFilename <= |e.name|
    ensures result == EntryName(e, maxFilename)
  {
    if e.name[0] == NUL {
      return EMPTY_NAME;
    }
    result := [];
    var i := 0;
    while i < maxFilename && e.name[i] != NUL
      invariant 0 <= i <= maxFilename
      invariant result == e.name[..i] && NulFree(result)
    {
      result := result + [e.name[i]];
      i := i + 1;
    }
    NameCharsIsPrefix(e.name, maxFilename, result);
  }

  /** The NUL-free prefix that stops at a NUL or at the bound is `NameChars`. */
  lemma {:induction false} NameCharsIsPrefix(buf: seq<char>, maxFilename: nat, p: string)
    requires maxFilename <= |buf| && |p| <= maxFilename && p == buf[..|p|] && NulFree(p)
    requires |p| < maxFilename ==> buf[|p|] == NUL
    ensures NameChars(buf, maxFilename) == p
  {
    if maxFilename == 0 || buf[0] == NUL {
    } else {
      NameCharsIsPrefix(buf[1..], maxFilename - 1, p[1..]);
      assert p == [buf[0]] + p[1..];
    }
  }

  /** `directoryEntry::isEmpty`: an entry is empty exactly when its stored
      name is the empty string. */
  predicate IsEmpty(e: DirEntry)
    requires 0 < |e.name|
    ensures IsEmpty(e) <==> NameChars(e.name, |e.name|) == []
  {
    e.name[0] == NUL
  }

  /** `directoryEntry::clear`: only the first character is overwritten. */
  function Clear(e: DirEntry): (r: DirEntry)
    requires 0 < |e.name|
    ensures |r.name| == |e.name| && IsEmpty(r)
    ensures r.descriptor == e.descriptor && r.name[1..] == e.name[1..]
  {
    e.(name := e.name[0 := NUL])
  }

  /** Round trip: after `set`, `name(maxLength)` returns the stored name, which
      is the given one cut to `maxLength`; a name no longer than `maxLength`
      comes back unchanged. */
  lemma SetThenName(e: DirEntry, descriptor: nat, name: string, maxLength: nat)
    requires maxLength <= |e.name| && 0 < maxLength
    requires name != [] && NulFree(name)
    ensures var stored := DirEntry(descriptor, StoredName(e.name, name, maxLength));
            && !IsEmpty(stored)
            && EntryName(stored, maxLength) == Truncated(name, maxLength)
            && (|name| <= maxLength ==> EntryName(stored, maxLength) == name)
  {
    var buf := StoredName(e.name, name, maxLength);
    var t := Truncated(name, maxLength);
    assert t[0] == name[0];
    assert NulFree(t) by {
      forall i | 0 <= i < |t| ensures t[i] != NUL { assert t[i] == name[i]; }
    }
    assert buf[..|t|] == t;
    NameCharsIsPrefix(buf, maxLength, t);
  }

  /** "~empty~" comes back exactly for an empty entry, or for an entry whose
      stored name is literally "~empty~". */
  lemma EmptyName(e: DirEntry, maxFilename: nat)
    requires 0 < |e.name| && maxFilename <= |e.name|
    ensures IsEmpty(e) ==> EntryName(e, maxFilename) == EMPTY_NAME
    ensures EntryName(e, maxFilename) == EMPTY_NAME <==> IsEmpty(e) || NameChars(e.name, maxFilename) == EMPTY_NAME
    ensures !IsEmpty(e) && 0 < maxFilename ==> EntryName(e, maxFilename) != []
  {
    if !IsEmpty(e) && 0 < maxFilename {
      assert NameChars(e.name, maxFilename)[0] == e.name[0];
    }
  }

  /* ---------------------------------------------------------------------- */
  /* Layouts.                                                               */

  /** The header kept in block 0. `_bitMapBegin`, `_bitMapEnd`,
      `_descriptorsEnd` and `_dataEnd` are stored; the other two boundaries
      follow from them. */
  datatype Header = Header(
    signature: string,
    version: int,
    blockByteSize: nat,
    filenameLength: nat,
    rootDirectoryDescriptor: nat,
    bitsInBitMapBlock: nat,
    descriptorsInBlock: nat,
    entriesInDirectoryDescriptor: nat,
    entriesInDirectoryBlock: nat,
    bitMapBegin: nat,
    bitMapEnd: nat,
    descriptorsEnd: nat,
    dataEnd: nat)
  {
    function DescriptorsBegin(): nat { bitMapEnd + 1 }
    function DataBegin(): nat { descriptorsEnd + 1 }
    /** Bytes of one bitmap block holding `bitsInBitMapBlock` bits. */
    function BitMapBytes(): nat { (bitsInBitMapBlock + 7) / 8 }
  }

  /** The header read from a block that holds no header: every field zero. */
  const ZeroHeader: Header := Header([], 0, 0, 0, 0, 0, 0, 0, 0, 0, 0, 0, 0)

  /** The signature test of `isFormattedFS`: the magic mark, which a block
      holding no header never carries. */
  predicate IsValidSignature(h: Header)
    ensures IsValidSignature(h) ==> h.signature != ZeroHeader.signature && |h.signature| == |MAGIC_MARK|
  {
    h.signature == MAGIC_MARK
  }

  /** `FSHeader::init` followed by the block size assignment of `formatFile`;
      the capacities it derives from the struct sizes are parameters here. */
  function InitHeader(blockByteSize: nat, filenameLength: nat, rootDirectoryDescriptor: nat,
                      bitsInBitMapBlock: nat, descriptorsInBlock: nat,
                      entriesInDirectoryDescriptor: nat, entriesInDirectoryBlock: nat): (h: Header)
    ensures IsValidSignature(h) && h.version == FS_VERSION && h.blockByteSize == blockByteSize
  {
    Header(MAGIC_MARK, FS_VERSION, blockByteSize, filenameLength, rootDirectoryDescriptor,
           bitsInBitMapBlock, descriptorsInBlock, entriesInDirectoryDescriptor, entriesInDirectoryBlock,
           0, 0, 0, 0)
  }

  /** A descriptor slot. The source overlays the file fields (size, data
      addresses) and the directory fields (parent, entries) in a union; the
      model keeps the directory side and the file size. */
  datatype Descriptor = Descriptor(
    variant: Variant,
    referencesCount: int,
    nextDataSegment: nat,
    firstFreeElementIndex: nat,
    fileSize: nat,
    parent: nat,
    entries: seq<DirEntry>)
  {
    predicate IsHaveExtendedSegment() { nextDataSegment != HEADER_ADDRESS }
  }

  /** An overflow block of a directory: the next block of the chain and more
      entries. */
  datatype DataPart = DataPart(nextSegment: nat, entries: seq<DirEntry>) {
    predicate IsHaveExtendedSegment() { nextSegment != HEADER_ADDRESS }
  }

  /** What a block holds. A block read as a layout other than the one it
      holds reads as that layout's zero value, as zero-filled bytes would. */
  datatype Block =
    | Zeroed
    | HeaderBlock(header: Header)
    | BitMapData(bytes: seq<bv8>)
    | DescriptorsData(descriptors: seq<Descriptor>)
    | DataPartData(part: DataPart)
    | RawData(raw: seq<bv8>)

  function ZeroEntry(h: Header): DirEntry {
    DirEntry(0, seq(h.filenameLength, _ => NUL))
  }

  predicate EntryFits(h: Header, e: DirEntry) {
    |e.name| == h.filenameLength
  }

  predicate EntriesFit(h: Header, es: seq<DirEntry>, n: nat) {
    |es| == n && forall i :: 0 <= i < |es| ==> EntryFits(h, es[i])
  }

  predicate DescriptorFits(h: Header, d: Descriptor) {
    EntriesFit(h, d.entries, h.entriesInDirectoryDescriptor)
  }

  predicate DataPartFits(h: Header, p: DataPart) {
    EntriesFit(h, p.entries, h.entriesInDirectoryBlock)
  }

  function ZeroDescriptor(h: Header): (d: Descriptor)
    ensures DescriptorFits(h, d) && d.variant == VNone
  {
    Descriptor(VNone, 0, 0, 0, 0, 0, seq(h.entriesInDirectoryDescriptor, _ => ZeroEntry(h)))
  }

  /** `FSDescriptor::initDirectory(parent)`: an empty directory. */
  function InitDirectory(h: Header, parent: nat): (d: Descriptor)
    ensures DescriptorFits(h, d) && d.variant == VDirectory && d.parent == parent
    ensures d.firstFreeElementIndex == 0 && !d.IsHaveExtendedSegment()
  {
    ZeroDescriptor(h).(variant := VDirectory, parent := parent)
  }

  /** `FSDescriptor::initFile()`: an empty file. */
  function InitFile(h: Header): (d: Descriptor)
    ensures DescriptorFits(h, d) && d.variant == VFile && d.fileSize == 0
    ensures d.firstFreeElementIndex == 0 && !d.IsHaveExtendedSegment()
  {
    ZeroDescriptor(h).(variant := VFile)
  }

  /** `FSDescriptorDataPart::init`: no successor and empty entries. */
  function InitDataPart(h: Header): (p: DataPart)
    ensures DataPartFits(h, p) && !p.IsHaveExtendedSegment()
  {
    DataPart(0, seq(h.entriesInDirectoryBlock, _ => ZeroEntry(h)))
  }

  function AsHeader(b: Block): Header {
    if b.HeaderBlock? then b.header else ZeroHeader
  }

  function AsBitMap(h: Header, b: Block): (r: seq<bv8>)
    ensures |r| == h.BitMapBytes()
  {
    if b.BitMapData? && |b.bytes| == h.BitMapBytes() then b.bytes else seq(h.BitMapBytes(), _ => 0)
  }

  function AsDescriptors(h: Header, b: Block): (r: seq<Descriptor>)
    ensures |r| == h.descriptorsInBlock
    ensures forall i :: 0 <= i < |r| ==> DescriptorFits(h, r[i])
  {
    if b.DescriptorsData? && |b.descriptors| == h.descriptorsInBlock
       && (forall i :: 0 <= i < |b.descriptors| ==> DescriptorFits(h, b.descriptors[i]))
    then b.descriptors
    else seq(h.descriptorsInBlock, _ => ZeroDescriptor(h))
  }

  function AsDataPart(h: Header, b: Block): (r: DataPart)
    ensures DataPartFits(h, r)
  {
    if b.DataPartData? && DataPartFits(h, b.part) then b.part
    else DataPart(0, seq(h.entriesInDirectoryBlock, _ => ZeroEntry(h)))
  }

  /* ---------------------------------------------------------------------- */
  /* Bitmap blocks.                                                         */

  /** The mask `1 << (bit & 7)` of a bit inside its byte. */
  function Mask(k: nat): bv8
    requires k < 8
  {
    (1 as bv8) << (k as bv8)
  }

  /** `FSBitMapBlock::get` on the bytes of a bitmap block. */
  predicate BitAt(bytes: seq<bv8>, bit: nat)
    requires bit / 8 < |bytes|
  {
    bytes[bit / 8] & Mask(bit % 8) != 0
  }

  /** The byte update of `set`: or-in the mask, or and-out its complement. */
  function SetInByte(x: bv8, k: nat, data: bool): bv8
    requires k < 8
  {
    if data then x | Mask(k) else x & !Mask(k)
  }

  /** Updating bit k of a byte makes it read `data` and keeps the other seven. */
  lemma SetInByteGet(x: bv8, k: nat, data: bool, j: nat)
    requires k < 8 && j < 8
    ensures (SetInByte(x, k, data) & Mask(j) != 0) == if j == k then data else x & Mask(j) != 0
  {
  }

  /** The bytes after `set(bit, data)`. */
  function WithBit(bytes: seq<bv8>, bit: nat, data: bool): (r: seq<bv8>)
    requires bit / 8 < |bytes|
    ensures |r| == |bytes|
  {
    bytes[bit / 8 := SetInByte(bytes[bit / 8], bit % 8, data)]
  }

  /** Setting one bit of a byte sequence changes that bit alone. */
  lemma SetBitInBytes(bytes: seq<bv8>, bit: nat, data: bool, c: nat)
    requires bit / 8 < |bytes| && c / 8 < |bytes|
    ensures BitAt(WithBit(bytes, bit, data), c) == if c == bit then data else BitAt(bytes, c)
  {
    var after := WithBit(bytes, bit, data);
    if c / 8 == bit / 8 {
      assert c == bit <==> c % 8 == bit % 8;
      SetInByteGet(bytes[bit / 8], bit % 8, data, c % 8);
    } else {
      assert after[c / 8] == bytes[c / 8];
    }
  }

  /** Reference definition: the least clear bit in [lo, hi), or `hi` when
      every bit there is set. */
  function FirstClearIn(bytes: seq<bv8>, lo: nat, hi: nat): (r: nat)
    requires hi <= 8 * |bytes|
    ensures r == hi || (lo <= r < hi && !BitAt(bytes, r))
    ensures forall j :: lo <= j < r && j < hi ==> BitAt(bytes, j)
    decreases hi - lo
  {
    if lo >= hi then hi
    else if !BitAt(bytes, lo) then lo
    else FirstClearIn(bytes, lo + 1, hi)
  }

  /** The least clear bit is determined by being clear with every bit before
      it set. */
  lemma FirstClearUnique(bytes: seq<bv8>, lo: nat, hi: nat, r: nat)
    requires hi <= 8 * |bytes|
    requires r == hi || (lo <= r < hi && !BitAt(bytes, r))
    requires forall j :: lo <= j < r && j < hi ==> BitAt(bytes, j)
    ensures r == FirstClearIn(bytes, lo, hi)
  {
  }

  /** A bitmap block viewed in place over the bytes of a buffer. */
  class BitMapBlock {
    const bits: array<bv8>

    constructor (bytes: seq<bv8>)
      ensures fresh(bits) && bits[..] == bytes
    {
      bits := new bv8[|bytes|](i requires 0 <= i < |bytes| => bytes[i]);
    }

    /** `set(bit, data)`: afterwards `get(bit) == data`, and every other bit
        reads as before. */
    method Set(bit: nat, data: bool)
      requires bit / 8 < bits.Length
      modifies bits
      ensures bits[..] == WithBit(old(bits[..]), bit, data)
      ensures BitAt(bits[..], bit) == data
      ensures forall c :: 0 <= c < 8 * bits.Length && c != bit ==> BitAt(bits[..], c) == BitAt(old(bits[..]), c)
    {
      ghost var before := bits[..];
      bits[bit / 8] := SetInByte(bits[bit / 8], bit % 8, data);
      assert bits[..] == WithBit(before, bit, data);
      forall c | 0 <= c < 8 * bits.Length
        ensures BitAt(bits[..], c) == if c == bit then data else BitAt(before, c)
      {
        SetBitInBytes(before, bit, data, c);
      }
    }

    /** `findFirstZero(begin, maxBits)`: the least clear bit in
        [begin, maxBits), or `maxBits` when there is none. */
    method FindFirstZero(begin: nat, maxBits: nat) returns (r: nat)
      requires maxBits <= 8 * bits.Length
      ensures r == maxBits || (begin <= r < maxBits && !BitAt(bits[..], r))
      ensures forall j :: begin <= j < r && j < maxBits ==> BitAt(bits[..], j)
      ensures r == FirstClearIn(bits[..], begin, maxBits)
    {
      r := Scan(begin, maxBits);
      FirstClearUnique(bits[..], begin, maxBits, r);
    }

    method Scan(begin: nat, maxBits: nat) returns (r: nat)
      requires maxBits <= 8 * bits.Length
      ensures r == maxBits || (begin <= r < maxBits && !BitAt(bits[..], r))
      ensures forall j :: begin <= j < r && j < maxBits ==> BitAt(bits[..], j)
    {
      var i := begin;
      while i < maxBits
        invariant begin <= i
        invariant forall j :: begin <= j < i && j < maxBits ==> BitAt(bits[..], j)
        decreases maxBits - i
      {
        if bits[i / 8] & Mask(i % 8) == 0 {
          return i;
        }
        i := i + 1;
      }
      return maxBits;
    }

    /** `reset()`: every byte, hence every bit, becomes zero. */
    method Reset()
      modifies bits
      ensures forall k :: 0 <= k < bits.Length ==> bits[k] == 0
      ensures forall c :: 0 <= c < 8 * bits.Length ==> !BitAt(bits[..], c)
    {
      var k := 0;
      while k < bits.Length
        invariant 0 <= k <= bits.Length
        invariant forall m :: 0 <= m < k ==> bits[m] == 0
      {
        bits[k] := 0;
        k := k + 1;
      }
    }
  }
}
