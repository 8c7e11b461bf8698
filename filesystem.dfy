/** The file system on top of the areas and the directory algorithms:
    formatting, the argument and file name checks, looking names up in
    directories, resolving paths, allocating descriptors, creating, linking
    and removing entries, and the table of opened files.

    Every command takes its arguments as a list of words. Console output and
    logging are left out; the values a command prints are its results. */
module FileSystemDriver {
  import opened Errors
  import opened Blocks
  import opened Storage
  import opened Areas
  import opened Directory
  import opened Iterators
  import opened Paths

  /* ---------------------------------------------------------------------- */
  /* Formatting.                                                            */

  /** The capacities `FSHeader::init` derives from the struct layouts: the
      file name width, the root directory's descriptor index, the bits of a
      bitmap block, the descriptors of a table block, and the entries of a
      directory descriptor and of an overflow block. */
  datatype Capacities = Capacities(
    filenameLength: nat,
    rootDirectoryDescriptor: nat,
    bitsInBitMapBlock: nat,
    descriptorsInBlock: nat,
    entriesInDirectoryDescriptor: nat,
    entriesInDirectoryBlock: nat)

  /** Capacities the code can work with: it divides by the bitmap and table
      capacities, asserts more than one descriptor per block, and walks
      directories whose containers hold entries and whose names have room for
      "..". */
  predicate Workable(c: Capacities) {
    && c.bitsInBitMapBlock > 0 && c.descriptorsInBlock > 1
    && 0 < c.entriesInDirectoryDescriptor && 0 < c.entriesInDirectoryBlock
    && c.entriesInDirectoryDescriptor + c.entriesInDirectoryBlock < BAD
    && 3 <= c.filenameLength
  }

  /** The header carries the capacities `c`. */
  predicate Carries(h: Header, c: Capacities) {
    && h.filenameLength == c.filenameLength && h.rootDirectoryDescriptor == c.rootDirectoryDescriptor
    && h.bitsInBitMapBlock == c.bitsInBitMapBlock && h.descriptorsInBlock == c.descriptorsInBlock
    && h.entriesInDirectoryDescriptor == c.entriesInDirectoryDescriptor
    && h.entriesInDirectoryBlock == c.entriesInDirectoryBlock
  }

  /** The header of `formatFile` for a file of `fileSize` bytes: blocks of
      1024 bytes, at least 4 of them, the bitmap from block 1 with one block
      more than the whole blocks of bits, then a quarter of the blocks' worth
      of descriptors, and the data area up to the last block. */
  function FormattedHeader(c: Capacities, fileSize: nat): (r: Result<Header>)
    requires c.bitsInBitMapBlock > 0 && c.descriptorsInBlock > 0
    ensures r.Err? <==> fileSize / DEFAULT_BLOCK_BYTE_SIZE < 4
    ensures r.Err? ==> r.error == BadState
    ensures r.Ok? ==> && IsValidSignature(r.value) && r.value.version == FS_VERSION
                      && r.value.blockByteSize == DEFAULT_BLOCK_BYTE_SIZE && Carries(r.value, c)
  {
    var n := fileSize / DEFAULT_BLOCK_BYTE_SIZE;
    if n < 4 then Err(BadState)
    else
      var h := InitHeader(DEFAULT_BLOCK_BYTE_SIZE, c.filenameLength, c.rootDirectoryDescriptor, c.bitsInBitMapBlock,
                          c.descriptorsInBlock, c.entriesInDirectoryDescriptor, c.entriesInDirectoryBlock);
      var bitMapEnd := 1 + n / c.bitsInBitMapBlock;
      Ok(h.(bitMapBegin := 1, bitMapEnd := bitMapEnd,
            descriptorsEnd := bitMapEnd + 1 + n / 4 / c.descriptorsInBlock, dataEnd := n - 1))
  }

  /** Dividing by a larger divisor gives no more. */
  lemma DivByLarger(n: nat, a: nat, b: nat)
    requires 0 < a <= b
    ensures n / b <= n / a
  {
    DivModSplit(n, a);
    DivModSplit(n, b);
    if n / b > n / a {
      MulMono(n / a + 1, n / b, a);
      MulMono(a, b, n / b);
    }
  }

  /** With at least 8 bits per bitmap block and 2 descriptors per table
      block, the areas of a formatted file follow one another without
      overlap: header, bitmap, descriptor table, data, each non-empty and the
      data area ending at the last block. The bitmap holds the bit of every
      block of the file. */
  lemma FormattedLayout(c: Capacities, fileSize: nat)
    requires c.bitsInBitMapBlock >= 8 && c.descriptorsInBlock >= 2
    requires fileSize / DEFAULT_BLOCK_BYTE_SIZE >= 4
    ensures var h := FormattedHeader(c, fileSize).value;
            && HEADER_ADDRESS < h.bitMapBegin <= h.bitMapEnd < h.DescriptorsBegin() <= h.descriptorsEnd
            && h.descriptorsEnd < h.DataBegin() <= h.dataEnd
            && h.dataEnd == fileSize / DEFAULT_BLOCK_BYTE_SIZE - 1
            && Covered(h)
  {
    var n := fileSize / DEFAULT_BLOCK_BYTE_SIZE;
    var h := FormattedHeader(c, fileSize).value;
    var a, b := n / c.bitsInBitMapBlock, n / 4 / c.descriptorsInBlock;
    assert h.bitMapBegin == 1 && h.bitMapEnd == 1 + a && h.descriptorsEnd == 2 + a + b && h.dataEnd == n - 1;
    DivByLarger(n, 8, c.bitsInBitMapBlock);
    DivByLarger(n / 4, 2, c.descriptorsInBlock);
    assert n / 4 / 2 == n / 8;
    AreasFit(n, a, b);
    DivMono(n - 1, n, c.bitsInBitMapBlock);
  }

  /** Two areas of at most an eighth of `n` blocks each, plus the header
      and one block of each, leave room for data. */
  lemma AreasFit(n: nat, a: nat, b: nat)
    requires 4 <= n && a <= n / 8 && b <= n / 8
    ensures 2 + a + b < n - 1
  {
    DivModSplit(n, 8);
  }


  /** The root directory's index is valid whenever it names a slot of the
      first table block other than the reserved slot 0: it lies in that block
      on every formatted file. */
  lemma RootInTable(c: Capacities, fileSize: nat)
    requires c.bitsInBitMapBlock > 0 && c.descriptorsInBlock > 0
    requires FormattedHeader(c, fileSize).Ok?
    requires 0 < c.rootDirectoryDescriptor < c.descriptorsInBlock
    ensures var h := FormattedHeader(c, fileSize).value;
            DescriptorPosFromBlock(h, c.rootDirectoryDescriptor) == Ok((h.DescriptorsBegin(), c.rootDirectoryDescriptor))
  {
    DivModOf(0, c.descriptorsInBlock, c.rootDirectoryDescriptor);
  }

  /* ---------------------------------------------------------------------- */
  /* Argument and file name checks.                                         */

  /** `checkArgumentsCount(arg, min)`. */
  function CheckArgumentsCount(args: seq<string>, min: nat): (r: Outcome)
    ensures r.Pass? <==> |args| >= min
    ensures r.Fail? ==> r.error == NotEnoughArguments
  {
    if |args| < min then Fail(NotEnoughArguments) else Pass
  }

  /** `checkFilename(name)`, given what `header()` returned: its failure, or
      a name too long for the header's width. */
  function CheckFilename(hr: Result<Header>, name: string): (r: Outcome)
    ensures hr.Err? ==> r == Fail(hr.error)
    ensures hr.Ok? ==> (r.Pass? <==> |name| <= hr.value.filenameLength)
    ensures hr.Ok? && r.Fail? ==> r.error == FilenameError
  {
    if hr.Err? then Fail(hr.error)
    else if |name| > hr.value.filenameLength then Fail(FilenameError)
    else Pass
  }

  /** The entry `addDescriptorToDirectory` builds: `set(element, name,
      filenameLength)` on an entry whose name bytes start as zeros. */
  function NewEntry(h: Header, element: nat, name: string): (e: DirEntry)
    ensures EntryFits(h, e) && e.descriptor == element
  {
    DirEntry(element, StoredName(ZeroEntry(h).name, name, h.filenameLength))
  }

  /** `name(filenameLength)` of an entry of the header's width. */
  function NameOf(h: Header, e: DirEntry): string
    requires 0 < h.filenameLength && EntryFits(h, e)
  {
    EntryName(e, h.filenameLength)
  }

  /** The file name check is exactly what makes a name survive storage: a
      non-empty name without NUL reads back from its new entry unchanged
      when it passes the check, and cut to the width when it does not. */
  lemma CheckedNameReadsBack(h: Header, element: nat, name: string)
    requires 0 < h.filenameLength && name != [] && NulFree(name)
    ensures CheckFilename(Ok(h), name).Pass? <==> NameOf(h, NewEntry(h, element, name)) == name
    ensures NameOf(h, NewEntry(h, element, name)) == Truncated(name, h.filenameLength)
  {
    SetThenName(ZeroEntry(h), element, name, h.filenameLength);
  }

  /** "." and ".." as the iterator builds them read back as "." and "..". */
  lemma DotNames(h: Header, self: nat, parent: nat)
    requires 3 <= h.filenameLength
    ensures NameOf(h, DotEntry(h, self, ".", 2)) == "."
    ensures NameOf(h, DotEntry(h, parent, "..", 3)) == ".."
  {
    var dot := DotEntry(h, self, ".", 2);
    var dotDot := DotEntry(h, parent, "..", 3);
    assert dot.name[..1] == ".";
    NameCharsIsPrefix(dot.name, h.filenameLength, ".");
    assert dotDot.name[..2] == "..";
    NameCharsIsPrefix(dotDot.name, h.filenameLength, "..");
  }

  /* ---------------------------------------------------------------------- */
  /* Looking a name up in a directory.                                      */

  /** What an iterator over directory `idx` yields, in order: ".", "..",
      then the stored entries. */
  function Visible(h: Header, m: map<nat, Block>, idx: nat, d: Descriptor): (vs: seq<DirEntry>)
    requires 3 <= h.filenameLength && DescriptorFits(h, d) && d.firstFreeElementIndex <= Capacity(h)
    ensures |vs| == d.firstFreeElementIndex + 2
    ensures forall j :: 0 <= j < |vs| ==> EntryFits(h, vs[j])
  {
    var vs := [DotEntry(h, idx, ".", 2), DotEntry(h, d.parent, "..", 3)] + Listing(h, m, d);
    assert forall j :: 2 <= j < |vs| ==> vs[j] == EntryAt(h, m, d, j - 2);
    vs
  }

  /** The position of the first entry named `name`, or the length when
      there is none. */
  function FirstMatch(h: Header, es: seq<DirEntry>, name: string): (k: nat)
    requires 0 < h.filenameLength && forall j :: 0 <= j < |es| ==> EntryFits(h, es[j])
    ensures k <= |es|
    ensures forall j :: 0 <= j < k ==> NameOf(h, es[j]) != name
    ensures k < |es| ==> NameOf(h, es[k]) == name
  {
    if es == [] then 0
    else if NameOf(h, es[0]) == name then 0
    else 1 + FirstMatch(h, es[1..], name)
  }

  /** The first match is where a scan that saw no match before `k` stops:
      on an entry named `name`, or at the end. */
  lemma FirstMatchAt(h: Header, es: seq<DirEntry>, name: string, k: nat)
    requires 0 < h.filenameLength && forall j :: 0 <= j < |es| ==> EntryFits(h, es[j])
    requires k <= |es| && forall j :: 0 <= j < k ==> NameOf(h, es[j]) != name
    requires k < |es| ==> NameOf(h, es[k]) == name
    ensures FirstMatch(h, es, name) == k
  {
  }

  /** A name other than "." and ".." is found among the stored entries or
      not at all. */
  lemma LookupSkipsDots(h: Header, m: map<nat, Block>, idx: nat, d: Descriptor, name: string)
    requires 3 <= h.filenameLength && DescriptorFits(h, d) && d.firstFreeElementIndex <= Capacity(h)
    requires name != "." && name != ".."
    ensures var k := FirstMatch(h, Visible(h, m, idx, d), name);
            2 <= k && k - 2 == FirstMatch(h, Listing(h, m, d), name)
  {
    var vs := Visible(h, m, idx, d);
    DotNames(h, idx, d.parent);
    assert vs[2..] == Listing(h, m, d);
    assert vs[1..][1..] == vs[2..];
  }

  /** Looking up "." finds the directory itself, and ".." its parent. */
  lemma LookupDots(h: Header, m: map<nat, Block>, idx: nat, d: Descriptor)
    requires 3 <= h.filenameLength && DescriptorFits(h, d) && d.firstFreeElementIndex <= Capacity(h)
    ensures var vs := Visible(h, m, idx, d);
            && FirstMatch(h, vs, ".") == 0 && vs[0].descriptor == idx
            && FirstMatch(h, vs, "..") == 1 && vs[1].descriptor == d.parent
  {
    DotNames(h, idx, d.parent);
  }

  /** Where an iterator over a directory stands after `k` steps: before the
      first step, at ".", at "..", then at entry `k - 3`. */
  function Seen(h: Header, m: map<nat, Block>, d: Descriptor, k: nat): Cursor {
    if k == 0 then Fresh
    else if k == 1 then Cursor(DOT, DOT, HEADER_ADDRESS, HEADER_ADDRESS, NoBlock)
    else if k == 2 then Cursor(DOTDOT, DOTDOT, HEADER_ADDRESS, HEADER_ADDRESS, NoBlock)
    else Pos(h, m, d, k - 3)
  }

  /** Every step over a directory within its capacity is allowed, reaches
      the next position and writes nothing. */
  lemma SeenStep(h: Header, bs: nat, m: map<nat, Block>, d: Descriptor, k: nat)
    requires Shaped(h) && Readable(h, bs, m, d) && d.firstFreeElementIndex <= Capacity(h)
    requires k < d.firstFreeElementIndex + 2
    ensures Seen(h, m, d, k).Bounded()
    ensures Advance(h, bs, m, Seen(h, m, d, k), d, h.entriesInDirectoryDescriptor, h.entriesInDirectoryBlock)
            == Ok(Moved(Seen(h, m, d, k + 1), m))
  {
    var eID, eIB := h.entriesInDirectoryDescriptor, h.entriesInDirectoryBlock;
    if k == 0 {
      assert Advance(h, bs, m, Fresh, d, eID, eIB) == Ok(Moved(Seen(h, m, d, 1), m));
    } else if k == 1 {
      assert Advance(h, bs, m, Seen(h, m, d, 1), d, eID, eIB) == Ok(Moved(Seen(h, m, d, 2), m));
    } else if k == 2 {
      assert Advance(h, bs, m, Seen(h, m, d, 2), d, eID, eIB) == Ok(Moved(Pos(h, m, d, 0), m));
    } else {
      AdvanceInLayout(h, bs, m, d, k - 3);
    }
  }

  /** After every entry has been visited there is no next one. */
  lemma SeenEnd(h: Header, m: map<nat, Block>, d: Descriptor)
    requires Shaped(h) && d.firstFreeElementIndex <= Capacity(h)
    ensures var c := Seen(h, m, d, d.firstFreeElementIndex + 2);
            c.Bounded() && !HasNextAt(c.index, d.firstFreeElementIndex)
  {
  }

  /** After `k` steps the iterator stands on entry `k - 1` of what it
      yields. */
  lemma SeenEntry(h: Header, m: map<nat, Block>, idx: nat, d: Descriptor, k: nat)
    requires Shaped(h) && DescriptorFits(h, d) && d.firstFreeElementIndex <= Capacity(h)
    requires 1 <= k <= d.firstFreeElementIndex + 2
    ensures EntryUnder(h, Seen(h, m, d, k), d, DotEntry(h, idx, ".", 2), DotEntry(h, d.parent, "..", 3),
                       h.entriesInDirectoryDescriptor) == Ok(Visible(h, m, idx, d)[k - 1])
  {
    if k >= 3 {
      EntryUnderPos(h, m, d, DotEntry(h, idx, ".", 2), DotEntry(h, d.parent, "..", 3), k - 3);
    }
  }

  /** Over a directory within its capacity, there is a next entry exactly
      until every entry has been visited. */
  lemma SeenHasNext(h: Header, m: map<nat, Block>, d: Descriptor, k: nat)
    requires Shaped(h) && d.firstFreeElementIndex <= Capacity(h) && k <= d.firstFreeElementIndex + 2
    ensures Seen(h, m, d, k).Bounded()
    ensures HasNextAt(Seen(h, m, d, k).index, d.firstFreeElementIndex) <==> k < d.firstFreeElementIndex + 2
  {
  }

  /** A directory iterator as `getDirectoryDescriptorIterator` hands it
      out: over the stored copy `d`, before the first step, storing the
      descriptor on flush, with the header's capacities, and with "." and
      ".." naming the directory and its parent. */
  ghost predicate Started(it: DirectoryIterator, d: Descriptor)
    reads it, it.store, it.store.file
  {
    var h := it.Header();
    && 3 <= h.filenameLength
    && it.data == d && it.persists && it.Position() == Fresh
    && it.entriesInDescriptor == h.entriesInDirectoryDescriptor && it.entriesInBlock == h.entriesInDirectoryBlock
    && it.dotEntry == DotEntry(h, it.handle, ".", 2) && it.dotDotEntry == DotEntry(h, d.parent, "..", 3)
  }

  /** An iterator over directory copy `d` after `k` steps, on file blocks
      `m`; the copy need not be what the table now holds. */
  ghost predicate Viewing(it: DirectoryIterator, m: map<nat, Block>, d: Descriptor, k: nat)
    reads it, it.store, it.store.file
  {
    var h := it.Header();
    && Ready(it.store.file) && Shaped(h) && DescriptorFits(h, d) && d.firstFreeElementIndex <= Capacity(h)
    && Readable(h, it.store.file.blockSize, m, d)
    && k <= d.firstFreeElementIndex + 2
    && it.data == d && it.persists && it.store.file.blocks == m && it.Position() == Seen(h, m, d, k)
    && it.entriesInDescriptor == h.entriesInDirectoryDescriptor && it.entriesInBlock == h.entriesInDirectoryBlock
    && it.dotEntry == DotEntry(h, it.handle, ".", 2) && it.dotDotEntry == DotEntry(h, d.parent, "..", 3)
  }

  /** An iterator over stored directory `d` after `k` steps, on file
      blocks `m`. */
  ghost predicate Scanning(it: DirectoryIterator, m: map<nat, Block>, d: Descriptor, k: nat)
    reads it, it.store, it.store.file
  {
    Viewing(it, m, d, k) && Stored(it.Header(), it.store.file.blockSize, m, it.handle, d)
  }

  /** `++it` over a directory copy: the iterator moves from the
      position after `k` steps to the next one and writes nothing. */
  method MoveOn(it: DirectoryIterator, ghost m: map<nat, Block>, ghost d: Descriptor, ghost k: nat, ghost proved: bool)
    returns (r: Outcome)
    requires it.Valid() && it.HasNext()
    requires proved ==> Viewing(it, m, d, k)
    modifies it`index, it`offset, it`blockAddress, it`prevAddress, it`current, it.store.file`blocks, it.store.file.pool
    ensures it.Valid()
    ensures r.Pass? ==> Remaining(it.index, it.data.firstFreeElementIndex) < Remaining(old(it.index), it.data.firstFreeElementIndex)
    ensures proved ==> r.Pass? && k < d.firstFreeElementIndex + 2 && Viewing(it, m, d, k + 1)
  {
    if proved {
      SeenHasNext(it.Header(), m, d, k);
      SeenStep(it.Header(), it.store.file.blockSize, m, d, k);
    }
    ghost var before := it.index;
    r := it.Next();
    if r.Pass? {
      StepShrinks(before, it.data.firstFreeElementIndex);
    }
  }

  /** One step of a scan, `++it` then `*it`: over a directory copy it moves
      to the next of the entries an iterator yields and reads it, writing
      nothing. */
  method Step(it: DirectoryIterator, ghost m: map<nat, Block>, ghost d: Descriptor, ghost k: nat, ghost proved: bool)
    returns (r: Result<DirEntry>)
    requires it.Valid() && it.HasNext()
    requires proved ==> Viewing(it, m, d, k)
    modifies it`index, it`offset, it`blockAddress, it`prevAddress, it`current, it.store.file`blocks, it.store.file.pool
    ensures it.Valid()
    ensures r.Ok? ==> Remaining(it.index, it.data.firstFreeElementIndex) < Remaining(old(it.index), it.data.firstFreeElementIndex)
    ensures r.Ok? ==> r == it.Deref() && EntryFits(it.Header(), r.value)
    ensures proved ==>
      && k < d.firstFreeElementIndex + 2
      && r == Ok(Visible(it.Header(), m, it.handle, d)[k])
      && Viewing(it, m, d, k + 1)
  {
    ghost var h := it.Header();
    var s := MoveOn(it, m, d, k, proved);
    if s.Fail? {
      return Err(s.error);
    }
    r := it.Deref();
    EntryUnderFits(h, it.Position(), it.data, it.dotEntry, it.dotDotEntry, it.entriesInDescriptor);
    if proved {
      SeenEntry(h, m, it.handle, d, k + 1);
    }
  }


  /** None of the first `k` entries of `es` is named `name`. */
  predicate Misses(h: Header, es: seq<DirEntry>, name: string, k: nat) {
    && 0 < h.filenameLength && k <= |es|
    && forall j :: 0 <= j < k ==> EntryFits(h, es[j]) && NameOf(h, es[j]) != name
  }

  /** A scan for `name` that has seen `k` entries, none of them named so. */
  ghost predicate Searching(it: DirectoryIterator, m: map<nat, Block>, d: Descriptor, name: string, k: nat)
    reads it, it.store, it.store.file
  {
    && Scanning(it, m, d, k) && 3 <= it.Header().filenameLength
    && Misses(it.Header(), Visible(it.Header(), m, it.handle, d), name, k)
  }


  /** Where a finished search for `name` leaves the iterator: `found` says
      whether some entry of the directory is named so, and the iterator
      stands just past the first such entry, or past the end. */
  ghost predicate Searched(it: DirectoryIterator, m: map<nat, Block>, d: Descriptor, name: string, found: bool)
    reads it, it.store, it.store.file
  {
    && 3 <= it.Header().filenameLength && DescriptorFits(it.Header(), d)
    && d.firstFreeElementIndex <= Capacity(it.Header())
    && var vs := Visible(it.Header(), m, it.handle, d);
       var k := FirstMatch(it.Header(), vs, name);
       && found == (k < |vs|)
       && Scanning(it, m, d, if found then k + 1 else |vs|)
  }

  /** A scan with no entry left has seen them all: `name` is nowhere. */
  lemma SearchedAll(it: DirectoryIterator, m: map<nat, Block>, d: Descriptor, name: string, k: nat)
    requires it.index < U64 && !it.HasNext() && Searching(it, m, d, name, k)
    ensures Searched(it, m, d, name, false)
  {
    SeenHasNext(it.Header(), m, d, k);
    FirstMatchAt(it.Header(), Visible(it.Header(), m, it.handle, d), name, k);
  }

  /** A search that has passed `k` entries without a match and finds the
      next one named `name` is finished. */
  lemma SearchHit(it: DirectoryIterator, m: map<nat, Block>, d: Descriptor, name: string, k: nat, vs: seq<DirEntry>)
    requires Scanning(it, m, d, k + 1) && 3 <= it.Header().filenameLength
    requires vs == Visible(it.Header(), m, it.handle, d) && k < |vs| && Misses(it.Header(), vs, name, k)
    requires NameOf(it.Header(), vs[k]) == name
    ensures Searched(it, m, d, name, true)
  {
    FirstMatchAt(it.Header(), vs, name, k);
  }

  /** A search that has passed `k` entries without a match and then one more
      goes on. */
  lemma SearchOn(it: DirectoryIterator, m: map<nat, Block>, d: Descriptor, name: string, k: nat, vs: seq<DirEntry>)
    requires Scanning(it, m, d, k + 1) && 3 <= it.Header().filenameLength
    requires vs == Visible(it.Header(), m, it.handle, d) && k < |vs| && Misses(it.Header(), vs, name, k)
    requires NameOf(it.Header(), vs[k]) != name
    ensures Searching(it, m, d, name, k + 1)
  {
  }

  /** One turn of the search loop: step, read the name, compare. */
  method Probe(it: DirectoryIterator, name: string, ghost m: map<nat, Block>, ghost d: Descriptor, ghost k: nat, ghost proved: bool)
    returns (r: Result<bool>)
    requires it.Valid() && it.HasNext()
    requires proved ==> Searching(it, m, d, name, k)
    modifies it`index, it`offset, it`blockAddress, it`prevAddress, it`current, it.store.file`blocks, it.store.file.pool
    ensures it.Valid()
    ensures r.Ok? ==> Remaining(it.index, it.data.firstFreeElementIndex) < Remaining(old(it.index), it.data.firstFreeElementIndex)
    ensures r == Ok(true) ==> it.Deref().Ok? && EntryFits(it.Header(), it.Deref().value)
                              && NameOf(it.Header(), it.Deref().value) == name
    ensures proved ==> r.Ok? && (if r.value then Searched(it, m, d, name, true) else Searching(it, m, d, name, k + 1))
  {
    ghost var vs := if proved then Visible(it.Header(), m, it.handle, d) else [];
    assert proved ==> Misses(it.Header(), vs, name, k);
    var e := Step(it, m, d, k, proved);
    if e.Err? {
      return Err(e.error);
    }
    var found := ReadName(e.value, it.Header().filenameLength);
    if proved {
      if found == name {
        SearchHit(it, m, d, name, k, vs);
      } else {
        SearchOn(it, m, d, name, k, vs);
      }
    }
    return Ok(found == name);
  }


  /** The search loop shared by path resolution and removal: step while
      there is a next entry and stop at the first one named `name`. On a
      stored directory it finds the first match among ".", ".." and the
      entries, stands on it, and writes nothing; with no match it has
      visited everything. */
  method Lookup(it: DirectoryIterator, name: string, ghost m: map<nat, Block>, ghost d: Descriptor, ghost proved: bool)
    returns (r: Result<bool>)
    requires it.Valid()
    requires proved ==> Scanning(it, m, d, 0)
    modifies it`index, it`offset, it`blockAddress, it`prevAddress, it`current, it.store.file`blocks, it.store.file.pool
    ensures it.Valid()
    ensures r == Ok(true) ==> it.Deref().Ok? && EntryFits(it.Header(), it.Deref().value)
                              && NameOf(it.Header(), it.Deref().value) == name
    ensures proved ==> r.Ok? && Searched(it, m, d, name, r.value)
  {
    ghost var k: nat := 0;
    while it.HasNext()
      invariant it.Valid()
      invariant proved ==> Searching(it, m, d, name, k)
      decreases Remaining(it.index, it.data.firstFreeElementIndex)
    {
      r := Probe(it, name, m, d, k, proved);
      if r != Ok(false) {
        return;
      }
      k := k + 1;
    }
    if proved {
      SearchedAll(it, m, d, name, k);
    }
    return Ok(false);
  }


  /* ---------------------------------------------------------------------- */
  /* What formatting leaves.                                                */

  /** Every bit the bitmap area records reads as free. */
  ghost predicate BitmapClear(h: Header, m: map<nat, Block>)
    requires h.bitsInBitMapBlock > 0
  {
    forall a: nat :: InRange(h.bitMapBegin, h.bitMapEnd, h.bitMapBegin + a / h.bitsInBitMapBlock) ==> !Bit(h, m, a)
  }

  /** A freshly formatted file: the header in block 0, every bit of the
      bitmap clear, and every descriptor unused except the root, which is an
      empty directory that is its own parent. */
  ghost predicate Formatted(h: Header, m: map<nat, Block>)
    requires SaneCapacities(h)
  {
    && AsHeader(BlockOf(m, HEADER_ADDRESS)) == h
    && BitmapClear(h, m)
    && DescriptorAt(h, m, h.rootDirectoryDescriptor) == InitDirectory(h, h.rootDirectoryDescriptor)
    && forall i: nat :: i != h.rootDirectoryDescriptor && DescriptorPosFromBlock(h, i).Ok? ==>
                        DescriptorAt(h, m, i) == ZeroDescriptor(h)
  }

  /** Writing blocks past the bitmap area leaves every bit it records as it
      was. */
  lemma BitsBelowKept(h: Header, m: map<nat, Block>, m': map<nat, Block>)
    requires h.bitsInBitMapBlock > 0 && BitmapClear(h, m)
    requires forall b: nat :: b <= h.bitMapEnd ==> BlockOf(m', b) == BlockOf(m, b)
    ensures BitmapClear(h, m')
  {
    forall a: nat | InRange(h.bitMapBegin, h.bitMapEnd, h.bitMapBegin + a / h.bitsInBitMapBlock)
      ensures !Bit(h, m', a)
    {
      var blk := h.bitMapBegin + a / h.bitsInBitMapBlock;
      assert BlockOf(m', blk) == BlockOf(m, blk);
      BitKept(h, m, m', a);
      assert !Bit(h, m, a);
    }
  }

  /** A bit reads as before while its bitmap block is as before. */
  lemma BitKept(h: Header, m: map<nat, Block>, m': map<nat, Block>, a: nat)
    requires h.bitsInBitMapBlock > 0
    requires var blk := h.bitMapBegin + a / h.bitsInBitMapBlock;
             BlockOf(m', blk) == BlockOf(m, blk)
    ensures Bit(h, m', a) == Bit(h, m, a)
  {
  }

  /** Clearing the descriptor table keeps the header and the bitmap. */
  lemma ClearingTableKeeps(h: Header, m: map<nat, Block>)
    requires h.bitsInBitMapBlock > 0 && BitmapClear(h, m)
    ensures var m' := ClearedRange(m, h.DescriptorsBegin(), h.descriptorsEnd + 1);
            BitmapClear(h, m') && BlockOf(m', HEADER_ADDRESS) == BlockOf(m, HEADER_ADDRESS)
  {
    var m' := ClearedRange(m, h.DescriptorsBegin(), h.descriptorsEnd + 1);
    forall b: nat | b <= h.bitMapEnd
      ensures BlockOf(m', b) == BlockOf(m, b)
    {
      ClearedRangeAt(m, h.DescriptorsBegin(), h.descriptorsEnd + 1, b);
    }
    BitsBelowKept(h, m, m');
  }

  /** Storing the root descriptor keeps the header and the bitmap. */
  lemma StoringRootKeeps(h: Header, m: map<nat, Block>, blk: nat, x: Block)
    requires h.bitsInBitMapBlock > 0 && BitmapClear(h, m) && h.bitMapEnd < blk
    ensures BitmapClear(h, m[blk := x]) && BlockOf(m[blk := x], HEADER_ADDRESS) == BlockOf(m, HEADER_ADDRESS)
  {
    BitsBelowKept(h, m, m[blk := x]);
  }

  /* ---------------------------------------------------------------------- */
  /* Path resolution.                                                       */

  /** Directory `idx`, when it is one, is a stored directory whose overflow
      block, when used, is present in the file. */
  ghost predicate Intact(h: Header, bs: nat, m: map<nat, Block>, idx: nat)
    requires SaneCapacities(h)
  {
    var d := DescriptorAt(h, m, idx);
    d.variant == VDirectory ==>
      && Stored(h, bs, m, idx, d)
      && (d.firstFreeElementIndex > h.entriesInDirectoryDescriptor ==> d.nextDataSegment in m)
  }

  /** The files path resolution is proved for: capacities the iterator can
      walk, and every directory of the table intact. */
  ghost predicate Healthy(h: Header, bs: nat, m: map<nat, Block>) {
    && Shaped(h) && SaneCapacities(h)
    && forall idx: nat :: DescriptorPosFromBlock(h, idx).Ok? ==> Intact(h, bs, m, idx)
  }

  /** A freshly formatted file is healthy: the root directory is empty and
      every other descriptor is unused. */
  lemma FormattedIsHealthy(h: Header, bs: nat, m: map<nat, Block>)
    requires Shaped(h) && SaneCapacities(h) && Formatted(h, m)
    ensures Healthy(h, bs, m)
  {
    forall idx: nat | DescriptorPosFromBlock(h, idx).Ok?
      ensures Intact(h, bs, m, idx)
    {
      if idx != h.rootDirectoryDescriptor {
        assert DescriptorAt(h, m, idx).variant == VNone;
      }
    }
  }

  /** One component of a walk: directory `cur` searched for `name`; the
      first entry so named gives the next descriptor. A bad index, a
      descriptor that is not a directory, and a missing name fail as the
      descriptor read, the assertion and the search do. */
  function Child(h: Header, bs: nat, m: map<nat, Block>, cur: nat, name: string): (r: Result<nat>)
    requires Healthy(h, bs, m)
  {
    if DescriptorPosFromBlock(h, cur).Err? then Err(InvalidArgument)
    else
      var d := DescriptorAt(h, m, cur);
      if d.variant != VDirectory then Err(AssertionFailed)
      else
        assert Intact(h, bs, m, cur);
        var vs := Visible(h, m, cur, d);
        var k := FirstMatch(h, vs, name);
        if k < |vs| then Ok(vs[k].descriptor) else Err(FileSystemError)
  }

  /** A name no entry of a directory carries: the directory is intact and
      its scan for the name runs past every entry. */
  lemma ChildMissing(h: Header, bs: nat, m: map<nat, Block>, cur: nat, name: string)
    requires Healthy(h, bs, m) && DescriptorPosFromBlock(h, cur).Ok? && DescriptorAt(h, m, cur).variant == VDirectory
    requires Child(h, bs, m, cur, name) == Err(FileSystemError)
    ensures var d := DescriptorAt(h, m, cur);
            && Stored(h, bs, m, cur, d) && DescriptorFits(h, d)
            && (d.firstFreeElementIndex > h.entriesInDirectoryDescriptor ==> d.nextDataSegment in m)
            && FirstMatch(h, Visible(h, m, cur, d), name) == d.firstFreeElementIndex + 2
  {
    assert Intact(h, bs, m, cur);
  }

  /** `name` names at most one of the entries `vs`. */
  predicate AtMostOnce(h: Header, vs: seq<DirEntry>, name: string)
    requires 0 < h.filenameLength && forall j :: 0 <= j < |vs| ==> EntryFits(h, vs[j])
  {
    forall i, j :: 0 <= i < j < |vs| && NameOf(h, vs[i]) == name ==> NameOf(h, vs[j]) != name
  }

  /** The cases `link` is proved for, on a healthy file whose current folder
      `cur` is a directory: no entry of the folder is named `src`, or the
      folder keeps all its entries in its descriptor and only one of the
      entries an iterator over it yields is named `src`. */
  ghost predicate LinkCase(h: Header, bs: nat, m: map<nat, Block>, cur: nat, src: string) {
    && Healthy(h, bs, m) && DescriptorPosFromBlock(h, cur).Ok?
    && var d := DescriptorAt(h, m, cur);
       && d.variant == VDirectory
       && (Child(h, bs, m, cur, src).Ok? ==>
             && d.firstFreeElementIndex <= h.entriesInDirectoryDescriptor
             && (assert Intact(h, bs, m, cur); AtMostOnce(h, Visible(h, m, cur, d), src)))
  }

  /** The blocks `m'` a scan for `src` over the copy `d` of directory `idx`
      leaves when it links what it finds under `dest`: `m` itself when no
      entry is named `src`; otherwise the directory grown by one entry,
      named `dest`, for the descriptor of the first entry named `src`. */
  ghost predicate LinkedOver(h: Header, bs: nat, m: map<nat, Block>, m': map<nat, Block>, idx: nat, d: Descriptor,
                             src: string, dest: string)
    requires Shaped(h) && DescriptorFits(h, d) && d.firstFreeElementIndex <= Capacity(h)
  {
    var vs := Visible(h, m, idx, d);
    var j := FirstMatch(h, vs, src);
    if j == |vs| then m' == m
    else Consistent(h, bs, m, idx, d) && GrewBy(h, bs, m, m', idx, d, NewEntry(h, vs[j].descriptor, dest))
  }

  /** What `link` leaves of the blocks `m` of a healthy file: the scan of
      the current folder `cur` linking the entry named `src` under `dest`. */
  ghost predicate Linked(h: Header, bs: nat, m: map<nat, Block>, m': map<nat, Block>, cur: nat, src: string, dest: string)
    requires LinkCase(h, bs, m, cur, src)
  {
    assert Intact(h, bs, m, cur);
    LinkedOver(h, bs, m, m', cur, DescriptorAt(h, m, cur), src, dest)
  }

  /** `link` in terms of path resolution: when `src` names nothing in the
      current folder the blocks are as they were, and when it names the
      descriptor `e` the folder grew by one entry, named `dest`, for `e`. */
  lemma LinkedResolves(h: Header, bs: nat, m: map<nat, Block>, m': map<nat, Block>, cur: nat,
                       src: string, dest: string)
    requires LinkCase(h, bs, m, cur, src) && Linked(h, bs, m, m', cur, src, dest)
    ensures Child(h, bs, m, cur, src).Err? ==> m' == m
    ensures Child(h, bs, m, cur, src).Ok? ==>
              var d := DescriptorAt(h, m, cur);
              && Consistent(h, bs, m, cur, d)
              && GrewBy(h, bs, m, m', cur, d, NewEntry(h, Child(h, bs, m, cur, src).value, dest))
  {
    assert Intact(h, bs, m, cur);
  }

  /** What the loop of `link` has done after `k` steps over the copy `d` of
      stored directory `idx`, with `m` the blocks it started from and `now`
      the blocks it holds: nothing up to the entry named `src`, and that
      entry linked under `dest` after it. */
  ghost predicate LinkState(h: Header, bs: nat, m: map<nat, Block>, now: map<nat, Block>, idx: nat, d: Descriptor,
                            src: string, dest: string, k: nat)
  {
    && Stored(h, bs, m, idx, d) && DescriptorFits(h, d) && d.variant == VDirectory
    && (d.firstFreeElementIndex > h.entriesInDirectoryDescriptor ==> d.nextDataSegment in m)
    && k <= d.firstFreeElementIndex + 2
    && var vs := Visible(h, m, idx, d);
       var j := FirstMatch(h, vs, src);
       && (j < |vs| ==> d.firstFreeElementIndex <= h.entriesInDirectoryDescriptor && AtMostOnce(h, vs, src))
       && (k <= j ==> now == m)
       && (j < k ==> dest != [] && |dest| <= h.filenameLength && LinkedOver(h, bs, m, now, idx, d, src, dest))
  }

  /** The loop state of `link` on iterator `it`. */
  ghost predicate Linking(it: DirectoryIterator, m: map<nat, Block>, d: Descriptor, src: string, dest: string, k: nat)
    reads it, it.store, it.store.file
  {
    && Viewing(it, it.store.file.blocks, d, k)
    && LinkState(it.Header(), it.store.file.blockSize, m, it.store.file.blocks, it.handle, d, src, dest, k)
  }

  /** During the loop of `link` the iterator yields the entries it would
      have yielded on the blocks the loop started from. */
  lemma LinkView(h: Header, bs: nat, m: map<nat, Block>, now: map<nat, Block>, idx: nat, d: Descriptor,
                 src: string, dest: string, k: nat)
    requires LinkState(h, bs, m, now, idx, d, src, dest, k)
    ensures Visible(h, now, idx, d) == Visible(h, m, idx, d)
  {
    if now != m {
      InlineAnyBlocks(h, m, now, idx, d, k);
    }
  }

  /** An entry not named `src` leaves the state of `link`'s loop as it was. */
  lemma LinkPassed(h: Header, bs: nat, m: map<nat, Block>, now: map<nat, Block>, idx: nat, d: Descriptor,
                   src: string, dest: string, k: nat)
    requires LinkState(h, bs, m, now, idx, d, src, dest, k) && k < d.firstFreeElementIndex + 2
    requires NameOf(h, Visible(h, m, idx, d)[k]) != src
    ensures LinkState(h, bs, m, now, idx, d, src, dest, k + 1)
  {
    var vs := Visible(h, m, idx, d);
    var j := FirstMatch(h, vs, src);
    assert j != k;
    assert k <= j ==> k + 1 <= j;
  }

  /** The entry named `src` is the first one so named, found while the
      blocks are still those the loop started from, in a directory with
      room for one more entry. */
  lemma LinkHit(h: Header, bs: nat, m: map<nat, Block>, now: map<nat, Block>, idx: nat, d: Descriptor,
                src: string, dest: string, k: nat)
    requires LinkState(h, bs, m, now, idx, d, src, dest, k) && k < d.firstFreeElementIndex + 2
    requires NameOf(h, Visible(h, m, idx, d)[k]) == src
    ensures k == FirstMatch(h, Visible(h, m, idx, d), src) && now == m
    ensures d.firstFreeElementIndex <= h.entriesInDirectoryDescriptor && Consistent(h, bs, m, idx, d)
  {
  }

  /** Linking the entry named `src` into the directory completes what
      `link`'s loop does. */
  lemma LinkAdded(h: Header, bs: nat, m: map<nat, Block>, m': map<nat, Block>, idx: nat, d: Descriptor,
                  src: string, dest: string, k: nat)
    requires LinkState(h, bs, m, m, idx, d, src, dest, k) && k < d.firstFreeElementIndex + 2
    requires k == FirstMatch(h, Visible(h, m, idx, d), src) && Consistent(h, bs, m, idx, d)
    requires dest != [] && |dest| <= h.filenameLength
    requires GrewBy(h, bs, m, m', idx, d, NewEntry(h, Visible(h, m, idx, d)[k].descriptor, dest))
    ensures LinkState(h, bs, m, m', idx, d, src, dest, k + 1)
  {
  }

  /** At the end of `link`'s loop every entry was seen, the iterator holds
      no block that differs from the file's, and the blocks are those the
      scan leaves. */
  lemma LinkIdle(it: DirectoryIterator, m: map<nat, Block>, d: Descriptor, src: string, dest: string, k: nat)
    requires it.index < U64 && !it.HasNext() && Linking(it, m, d, src, dest, k)
    ensures WriteBackOf(it.store.file.blockSize, it.store.file.blocks, it.current) == Ok(it.store.file.blocks)
    ensures LinkedOver(it.Header(), it.store.file.blockSize, m, it.store.file.blocks, it.handle, d, src, dest)
  {
    var h, now := it.Header(), it.store.file.blocks;
    SeenHasNext(h, now, d, k);
    var vs := Visible(h, m, it.handle, d);
    if FirstMatch(h, vs, src) == |vs| {
      ScanIdle(it, m, d, k);
    } else {
      InlineAnyBlocks(h, now, now, it.handle, d, k);
      WriteBackIdle(it.store.file.blockSize, now, it.current);
    }
  }

  /** The outcome of `link` on a file it is proved for: on success the
      blocks `Linked` describes; a failure only when `src` names an entry,
      leaving the blocks as they were when `dest` cannot be stored as a
      name, and otherwise only when the folder's descriptor was full. */
  ghost predicate LinkOutcome(h: Header, bs: nat, m: map<nat, Block>, m': map<nat, Block>, cur: nat, src: string,
                              dest: string, r: Outcome)
    requires LinkCase(h, bs, m, cur, src)
  {
    && (r.Pass? ==> Linked(h, bs, m, m', cur, src, dest))
    && (r.Fail? ==>
          && Child(h, bs, m, cur, src).Ok?
          && (dest == [] || |dest| > h.filenameLength ==> m' == m)
          && (dest != [] && |dest| <= h.filenameLength ==>
                DescriptorAt(h, m, cur).firstFreeElementIndex == h.entriesInDirectoryDescriptor))
  }

  /** How `link`'s loop over the copy `d` of directory `idx`, started on
      blocks `m`, may fail when it is proved for: only after finding an
      entry named `src`, with `m` kept when `dest` cannot be stored as a
      name, and otherwise only when the descriptor's entries were full. */
  ghost predicate LinkFailed(h: Header, m: map<nat, Block>, m': map<nat, Block>, idx: nat, d: Descriptor,
                             src: string, dest: string)
    requires Shaped(h) && DescriptorFits(h, d) && d.firstFreeElementIndex <= Capacity(h)
  {
    && FirstMatch(h, Visible(h, m, idx, d), src) < d.firstFreeElementIndex + 2
    && (dest == [] || |dest| > h.filenameLength ==> m' == m)
    && (dest != [] && |dest| <= h.filenameLength ==> d.firstFreeElementIndex == h.entriesInDirectoryDescriptor)
  }

  /** What the loop of `link` promises over the current folder is the
      outcome of `link`. */
  lemma LinkEnds(h: Header, bs: nat, m: map<nat, Block>, m': map<nat, Block>, cur: nat, src: string, dest: string,
                 r: Outcome)
    requires LinkCase(h, bs, m, cur, src)
    requires var d := DescriptorAt(h, m, cur);
      && Shaped(h) && DescriptorFits(h, d) && d.firstFreeElementIndex <= Capacity(h)
      && (r.Pass? ==> LinkedOver(h, bs, m, m', cur, d, src, dest))
      && (r.Fail? ==> LinkFailed(h, m, m', cur, d, src, dest))
    ensures LinkOutcome(h, bs, m, m', cur, src, dest, r)
    ensures Child(h, bs, m, cur, src).Err? ==> r == Pass && m' == m
  {
    assert Intact(h, bs, m, cur);
    if r.Pass? {
      LinkedResolves(h, bs, m, m', cur, src, dest);
    }
  }

  /** A fresh iterator over the current folder of a file `link` is proved
      for starts the loop of `link`. */
  lemma LinkScanStarts(it: DirectoryIterator, m: map<nat, Block>, src: string, dest: string)
    requires Ready(it.store.file) && it.store.file.blocks == m
    requires LinkCase(it.Header(), it.store.file.blockSize, m, it.handle, src)
    requires Started(it, DescriptorAt(it.Header(), m, it.handle))
    ensures Linking(it, m, DescriptorAt(it.Header(), m, it.handle), src, dest, 0)
  {
    assert Intact(it.Header(), it.store.file.blockSize, m, it.handle);
  }

  /** Over a directory that keeps all its entries in its descriptor, the
      entries and the positions of an iterator do not depend on the blocks,
      and the iterator never holds a block. */
  lemma InlineAnyBlocks(h: Header, m: map<nat, Block>, m': map<nat, Block>, idx: nat, d: Descriptor, k: nat)
    requires Shaped(h) && DescriptorFits(h, d) && d.firstFreeElementIndex <= h.entriesInDirectoryDescriptor
    requires k <= d.firstFreeElementIndex + 2
    ensures Visible(h, m, idx, d) == Visible(h, m', idx, d)
    ensures Seen(h, m, d, k) == Seen(h, m', d, k) && Seen(h, m, d, k).held == NoBlock
  {
    assert Listing(h, m, d) == Listing(h, m', d);
  }

  /** `getLastPathElementDescriptor(path, isAbsolute)` on a healthy file:
      the components taken one by one from `cur`. */
  function Resolve(h: Header, bs: nat, m: map<nat, Block>, cur: nat, comps: seq<string>): Result<nat>
    requires Healthy(h, bs, m)
    decreases |comps|
  {
    if comps == [] then Ok(cur)
    else
      var next :- Child(h, bs, m, cur, comps[0]);
      Resolve(h, bs, m, next, comps[1..])
  }

  /** Resolving a path is resolving its first part, then the rest from
      where the first part leads. */
  lemma {:induction false} ResolveAppend(h: Header, bs: nat, m: map<nat, Block>, cur: nat, a: seq<string>, b: seq<string>)
    requires Healthy(h, bs, m)
    ensures Resolve(h, bs, m, cur, a + b)
            == match Resolve(h, bs, m, cur, a)
               case Ok(x) => Resolve(h, bs, m, x, b)
               case Err(e) => Err(e)
    decreases |a|
  {
    if a == [] {
      assert a + b == b;
    } else {
      assert (a + b)[0] == a[0] && (a + b)[1..] == a[1..] + b;
      var c := Child(h, bs, m, cur, a[0]);
      if c.Ok? {
        ResolveAppend(h, bs, m, c.value, a[1..], b);
      }
    }
  }

  /** In a directory, "." leads to the directory itself and ".." to its
      parent. */
  lemma ResolveDots(h: Header, bs: nat, m: map<nat, Block>, cur: nat)
    requires Healthy(h, bs, m)
    requires DescriptorPosFromBlock(h, cur).Ok? && DescriptorAt(h, m, cur).variant == VDirectory
    ensures Resolve(h, bs, m, cur, ["."]) == Ok(cur)
    ensures Resolve(h, bs, m, cur, [".."]) == Ok(DescriptorAt(h, m, cur).parent)
  {
    assert Intact(h, bs, m, cur);
    LookupDots(h, m, cur, DescriptorAt(h, m, cur));
    assert ["."][1..] == [] && [".."][1..] == [];
  }

  /** The iterator stands on a position whose held block the file already
      holds, so releasing it writes nothing. */
  lemma ScanIdle(it: DirectoryIterator, m: map<nat, Block>, d: Descriptor, k: nat)
    requires Scanning(it, m, d, k)
    requires d.firstFreeElementIndex > it.Header().entriesInDirectoryDescriptor ==> d.nextDataSegment in m
    ensures WriteBackOf(it.store.file.blockSize, m, it.current) == Ok(m)
  {
    var h := it.Header();
    if it.current.Held? {
      assert k >= 3 && k - 3 >= h.entriesInDirectoryDescriptor;
      assert SegmentRead(h, it.store.file.blockSize, m, d.nextDataSegment).Ok?;
    }
    WriteBackIdle(it.store.file.blockSize, m, it.current);
  }

  /** A finished search for a name other than "." and ".." in terms of
      the stored entries: it found the first entry so named, and the
      iterator stands on it, or there is none and every entry was seen. */
  lemma SearchedListing(it: DirectoryIterator, m: map<nat, Block>, d: Descriptor, name: string, found: bool)
    requires Searched(it, m, d, name, found) && name != "." && name != ".."
    ensures var h := it.Header();
            var ls := Listing(h, m, d);
            var k := FirstMatch(h, ls, name);
            && found == (k < |ls|)
            && Scanning(it, m, d, if found then k + 3 else |ls| + 2)
  {
    LookupSkipsDots(it.Header(), m, it.handle, d, name);
  }

  /** The search of `removeDescriptorFromDirectory`: `name` looked up
      through iterator `it`. For a name other than "." and ".." it finds
      the first stored entry so named, and leaves the iterator on it, or
      finds nothing after seeing every entry. */
  method Find(it: DirectoryIterator, name: string, ghost m: map<nat, Block>, ghost d: Descriptor, ghost proved: bool)
    returns (r: Result<bool>)
    requires it.Valid()
    requires proved ==> Scanning(it, m, d, 0) && name != "." && name != ".."
    modifies it`index, it`offset, it`blockAddress, it`prevAddress, it`current, it.store.file`blocks, it.store.file.pool
    ensures it.Valid()
    ensures proved ==>
      var h := it.Header();
      var k := FirstMatch(h, Listing(h, m, d), name);
      && r.Ok? && r.value == (k < d.firstFreeElementIndex)
      && Scanning(it, m, d, if r.value then k + 3 else d.firstFreeElementIndex + 2)
  {
    r := Lookup(it, name, m, d, proved);
    if proved {
      SearchedListing(it, m, d, name, r.value);
    }
  }

  /** The search of a path walk: `name` looked up through iterator `it`,
      the descriptor of the entry found taken, the iterator released. Over a
      stored directory whose overflow block is in the file it finds the
      first entry so named and writes nothing. */
  method SearchAndRelease(it: DirectoryIterator, name: string, ghost m: map<nat, Block>, ghost d: Descriptor, ghost proved: bool)
    returns (r: Result<nat>)
    requires it.Valid()
    requires proved ==> && Scanning(it, m, d, 0)
                        && (d.firstFreeElementIndex > it.Header().entriesInDirectoryDescriptor ==> d.nextDataSegment in m)
    modifies it`index, it`offset, it`blockAddress, it`prevAddress, it`current, it.store.file`blocks, it.store.file.pool
    ensures it.Valid()
    ensures proved ==>
      var h := it.Header();
      var vs := Visible(h, m, it.handle, d);
      var k := FirstMatch(h, vs, name);
      && it.store.file.blocks == m
      && r == if k < |vs| then Ok(vs[k].descriptor) else Err(FileSystemError)
  {
    var found := Lookup(it, name, m, d, proved);
    if found.Err? {
      return Err(found.error);
    }
    r := FoundEntry(it, name, found.value, m, d, proved);
    var released := it.Release();
    if released.Fail? {
      return Err(released.error);
    }
  }

  /** What a search that ended with `found` reports: the descriptor of the
      entry under the iterator, or a file-system error when there is none.
      The iterator then holds no block that differs from the file's. */
  method FoundEntry(it: DirectoryIterator, name: string, found: bool, ghost m: map<nat, Block>, ghost d: Descriptor,
                    ghost proved: bool)
    returns (r: Result<nat>)
    requires it.Valid()
    requires found ==> it.Deref().Ok?
    requires proved ==> && Searched(it, m, d, name, found)
                        && (d.firstFreeElementIndex > it.Header().entriesInDirectoryDescriptor ==> d.nextDataSegment in m)
    ensures !found ==> r == Err(FileSystemError)
    ensures proved ==>
      var h := it.Header();
      var vs := Visible(h, m, it.handle, d);
      var k := FirstMatch(h, vs, name);
      && it.store.file.blocks == m
      && WriteBackOf(it.store.file.blockSize, m, it.current) == Ok(m)
      && r == if k < |vs| then Ok(vs[k].descriptor) else Err(FileSystemError)
  {
    r := Err(FileSystemError);
    if found {
      r := Ok(it.Deref().value.descriptor);
    }
    if proved {
      ghost var h := it.Header();
      ghost var vs := Visible(h, m, it.handle, d);
      ghost var k := FirstMatch(h, vs, name);
      ScanIdle(it, m, d, if found then k + 1 else |vs|);
      if found {
        SeenEntry(h, m, it.handle, d, k + 1);
      }
    }
  }

  /* ---------------------------------------------------------------------- */
  /* Allocating descriptors.                                                */

  /** A header whose bitmap lies before the descriptor table and covers it,
      as `formatFile` lays it out. */
  predicate Laid(h: Header) {
    h.bitsInBitMapBlock > 0 && h.descriptorsInBlock > 0 && Covered(h) && h.descriptorsEnd <= h.dataEnd
  }

  /** Writing a block before the descriptor table changes no descriptor. */
  lemma BitMapWriteKeepsDescriptors(h: Header, m: map<nat, Block>, b: nat, x: Block)
    requires h.descriptorsInBlock > 0 && b < h.DescriptorsBegin()
    ensures forall j: nat :: DescriptorAt(h, m[b := x], j) == DescriptorAt(h, m, j)
  {
    forall j: nat
      ensures DescriptorAt(h, m[b := x], j) == DescriptorAt(h, m, j)
    {
      assert BlockOf(m[b := x], h.DescriptorsBegin() + j / h.descriptorsInBlock)
          == BlockOf(m, h.DescriptorsBegin() + j / h.descriptorsInBlock);
    }
  }

  /** Storing `desc` in slot `slot` of table block `blk` stores it at the
      index of that position and nowhere else. */
  lemma StoredInSlot(h: Header, m: map<nat, Block>, blk: nat, slot: nat, desc: Descriptor)
    requires SaneCapacities(h) && DescriptorFits(h, desc)
    requires InRange(h.DescriptorsBegin(), h.descriptorsEnd, blk) && slot < h.descriptorsInBlock
    requires blk == h.DescriptorsBegin() ==> slot != 0
    ensures var i := DescriptorIndexFromPos(h, blk, slot).value;
            var m' := m[blk := DescriptorsData(DescriptorsIn(h, m, blk)[slot := desc])];
            forall j: nat :: DescriptorAt(h, m', j) == if j == i then desc else DescriptorAt(h, m, j)
  {
    var i := DescriptorIndexFromPos(h, blk, slot).value;
    DescriptorIndexRoundTrip(h, blk, slot);
    forall j: nat
      ensures DescriptorAt(h, m[blk := WithDescriptor(h, m, blk, slot, desc)], j) == if j == i then desc else DescriptorAt(h, m, j)
    {
      WithDescriptorChangesOnlyIt(h, m, i, desc, j);
    }
  }

  /** Marking a table block full changes no descriptor. */
  lemma MarkedFull(h: Header, m: map<nat, Block>, blk: nat)
    requires Laid(h) && InRange(h.DescriptorsBegin(), h.descriptorsEnd, blk)
    ensures var b := h.bitMapBegin + blk / h.bitsInBitMapBlock;
            var m' := m[b := SetBitIn(h, m, b, blk % h.bitsInBitMapBlock, true)];
            forall j: nat :: DescriptorAt(h, m', j) == DescriptorAt(h, m, j)
  {
    var b := h.bitMapBegin + blk / h.bitsInBitMapBlock;
    BitBlockInBitMap(h, blk);
    BitMapWriteKeepsDescriptors(h, m, b, SetBitIn(h, m, b, blk % h.bitsInBitMapBlock, true));
  }

  /** From `m` to `m'`, descriptor `desc` went into slot `slot` of table
      block `blk`: the first unused slot, slot 0 of the first block
      excepted; on a laid-out header the descriptor at that position is
      `desc` and every other descriptor is as it was; a block whose last slot
      was taken is marked full in the bitmap. */
  ghost predicate Allocated(h: Header, m: map<nat, Block>, m': map<nat, Block>, blk: nat, slot: nat, desc: Descriptor)
    requires SaneCapacities(h)
  {
    var start := if blk == h.DescriptorsBegin() then 1 else 0;
    && InRange(h.DescriptorsBegin(), h.descriptorsEnd, blk)
    && slot < h.descriptorsInBlock && slot == FreeSlot(DescriptorsIn(h, m, blk), start)
    && (Laid(h) ==>
          var i := DescriptorIndexFromPos(h, blk, slot).value;
          && DescriptorAt(h, m', i) == desc
          && (forall j: nat :: j != i ==> DescriptorAt(h, m', j) == DescriptorAt(h, m, j))
          && (slot + 1 == h.descriptorsInBlock ==> Bit(h, m', blk)))
  }

  /** From `m` to `m'`, directory `dir` gained the entry `(element, name)`
      at the end of its listing, whenever it was a directory appending is
      proved for. */
  ghost predicate AddedTo(h: Header, bs: nat, m: map<nat, Block>, m': map<nat, Block>, dir: nat, element: nat, name: string)
    requires SaneCapacities(h)
  {
    var d := DescriptorAt(h, m, dir);
    d.variant == VDirectory && Consistent(h, bs, m, dir, d) ==> GrewBy(h, bs, m, m', dir, d, NewEntry(h, element, name))
  }

  /* ---------------------------------------------------------------------- */
  /* Removing an entry.                                                     */

  /** What `removeDescriptorFromDirectory` decides about descriptor `t`,
      named by the entry it found: an index outside the table is refused,
      a descriptor of none of the `allowed` variants is refused, a directory
      that still has entries cannot lose a reference, and anything else is
      removed. */
  function Removal(h: Header, m: map<nat, Block>, t: nat, allowed: Variant): (r: Outcome)
    requires h.descriptorsInBlock > 0
    ensures r.Pass? ==> DescriptorPosFromBlock(h, t).Ok? && And(DescriptorAt(h, m, t).variant, allowed) != 0
    ensures r.Pass? && DescriptorAt(h, m, t).variant == VDirectory ==> DescriptorAt(h, m, t).firstFreeElementIndex == 0
    ensures r.Fail? ==> r.error in {InvalidArgument, FileSystemError}
  {
    if DescriptorPosFromBlock(h, t).Err? then Fail(InvalidArgument)
    else
      var e := DescriptorAt(h, m, t);
      if And(e.variant, allowed) == 0 then Fail(FileSystemError)
      else if e.variant == VDirectory && e.firstFreeElementIndex != 0 then Fail(FileSystemError)
      else Pass
  }

  /** `unlink` removes files and symbolic links and refuses directories;
      `rmdir` removes empty directories and refuses everything else. */
  lemma RemovalKinds(h: Header, m: map<nat, Block>, t: nat)
    requires h.descriptorsInBlock > 0 && DescriptorPosFromBlock(h, t).Ok?
    ensures var e := DescriptorAt(h, m, t);
            e.variant in {VFile, VSymLink} ==>
              && Removal(h, m, t, Or(VFile, VSymLink)) == Pass
              && Removal(h, m, t, VDirectory) == Fail(FileSystemError)
    ensures var e := DescriptorAt(h, m, t);
            e.variant == VDirectory ==>
              && Removal(h, m, t, Or(VFile, VSymLink)) == Fail(FileSystemError)
              && (Removal(h, m, t, VDirectory) == Pass <==> e.firstFreeElementIndex == 0)
  {
    var unlinkable := Or(VFile, VSymLink);
    assert unlinkable == 5;
    assert And(VFile, unlinkable) != 0 && And(VSymLink, unlinkable) != 0 && And(VDirectory, unlinkable) == 0;
    assert And(VFile, VDirectory) == 0 && And(VSymLink, VDirectory) == 0 && And(VDirectory, VDirectory) != 0;
  }

  /** The table after `decrementReference(t)`: one reference fewer on `t`,
      every other descriptor as it was. */
  ghost predicate Decremented(h: Header, m: map<nat, Block>, m': map<nat, Block>, t: nat)
    requires h.descriptorsInBlock > 0
  {
    var before := DescriptorAt(h, m, t);
    && DescriptorAt(h, m', t) == before.(referencesCount := before.referencesCount - 1)
    && forall j: nat :: j != t ==> DescriptorAt(h, m', j) == DescriptorAt(h, m, j)
  }

  /** Taking a reference from another descriptor leaves a stored directory
      as it was: its descriptor, its overflow block and so its entries and
      the positions of an iterator over them. */
  lemma DecrementKeepsDirectory(h: Header, bs: nat, m: map<nat, Block>, m': map<nat, Block>, dir: nat, d: Descriptor,
                                t: nat, x: Block)
    requires Stored(h, bs, m, dir, d) && (d.firstFreeElementIndex > h.entriesInDirectoryDescriptor ==> d.nextDataSegment in m)
    requires t != dir && DescriptorPosFromBlock(h, t).Ok? && Decremented(h, m, m', t)
    requires m' == m[h.DescriptorsBegin() + t / h.descriptorsInBlock := x]
    ensures Stored(h, bs, m', dir, d) && (d.firstFreeElementIndex > h.entriesInDirectoryDescriptor ==> d.nextDataSegment in m')
    ensures Listing(h, m', d) == Listing(h, m, d)
    ensures forall i :: 0 <= i < d.firstFreeElementIndex ==> Pos(h, m', d, i) == Pos(h, m, d, i)
  {
    var eID := h.entriesInDirectoryDescriptor;
    if d.firstFreeElementIndex > eID {
      assert SegmentRead(h, bs, m, d.nextDataSegment).Ok?;
      assert BlockOf(m', d.nextDataSegment) == BlockOf(m, d.nextDataSegment);
    }
    assert forall i :: 0 <= i < d.firstFreeElementIndex ==> EntryAt(h, m', d, i) == EntryAt(h, m, d, i);
  }

  /** What removing entry `i` of directory `dir`, stored as `d` in `m`,
      leaves: either the refusal `Removal` states with nothing changed, or
      `Ok(true)`, one reference fewer on the entry's descriptor (giving
      `mid`) and the entry gone from the directory, the last entry in its
      place (giving `m'`). */
  ghost predicate RemovedAt(h: Header, bs: nat, m: map<nat, Block>, mid: map<nat, Block>, m': map<nat, Block>,
                            dir: nat, d: Descriptor, allowed: Variant, i: nat, r: Result<bool>)
    requires Stored(h, bs, m, dir, d) && i < d.firstFreeElementIndex
  {
    var ls := Listing(h, m, d);
    var o := Removal(h, m, ls[i].descriptor, allowed);
    && (o.Fail? ==> r == Err(o.error) && m' == m)
    && (o.Pass? ==> && r == Ok(true) && Decremented(h, m, mid, ls[i].descriptor)
                    && Stored(h, bs, mid, dir, d) && ShrankTo(h, bs, mid, m', dir, d, Swapped(ls, i)))
  }

  /** What removing `name` from directory `dir`, stored as `d` in `m`,
      leaves: `Ok(false)` and nothing changed when no entry is named `name`,
      otherwise what removing the first such entry leaves. */
  ghost predicate RemovedFrom(h: Header, bs: nat, m: map<nat, Block>, mid: map<nat, Block>, m': map<nat, Block>,
                              dir: nat, d: Descriptor, allowed: Variant, name: string, r: Result<bool>)
    requires Stored(h, bs, m, dir, d)
  {
    var k := FirstMatch(h, Listing(h, m, d), name);
    if k == d.firstFreeElementIndex then r == Ok(false) && m' == m
    else RemovedAt(h, bs, m, mid, m', dir, d, allowed, k, r)
  }

  /** What `removeDescriptorFromDirectory(dir, allowed, name)` leaves of a
      healthy file `m`, on the directory stored at `dir`. */
  ghost predicate RemovedAs(h: Header, bs: nat, m: map<nat, Block>, mid: map<nat, Block>, m': map<nat, Block>,
                            dir: nat, allowed: Variant, name: string, r: Result<bool>)
    requires Healthy(h, bs, m) && DescriptorPosFromBlock(h, dir).Ok? && DescriptorAt(h, m, dir).variant == VDirectory
  {
    assert Intact(h, bs, m, dir);
    RemovedFrom(h, bs, m, mid, m', dir, DescriptorAt(h, m, dir), allowed, name, r)
  }

  /* ---------------------------------------------------------------------- */
  /* The file system.                                                       */

  /** `FileSystem`: the file, its three areas and the directory algorithms
      wired to them, the current folder, and the table of opened files. */
  class FileSystem {
    const file: FileAccessor
    const store: Callbacks
    const algorithms: DescriptorAlgorithms
    /** The capacities `formatFile` writes into a new header. */
    const capacities: Capacities
    /** `_currentFolder`: the descriptor index of the current directory. */
    var currentFolder: nat
    /** `_opennedFiles`: opened file id to descriptor index. */
    var openedFiles: map<nat, nat>
    /** `_lastFreeFileDescriptor`: the next opened file id, an unsigned
        64-bit value. */
    var lastFreeFileDescriptor: nat

    /** The areas and the algorithms work on this file, its header, when
        usable, leaves room for "..", and every opened id lies below the next
        one to hand out. */
    ghost predicate Valid()
      reads this, store, store.bitMap, store.descriptors, store.data, file, file.pool, algorithms
    {
      && store.file == file && algorithms.store == store && store.Valid()
      && Workable(capacities)
      && (file.HeaderExcept().Ok? ==> 3 <= file.header.filenameLength)
      && lastFreeFileDescriptor < U64
      && forall id :: id in openedFiles ==> id < lastFreeFileDescriptor
    }

    /** The directory algorithms use the header's capacities. */
    predicate Synced()
      reads this, algorithms, file
    {
      && algorithms.entriesInDescriptor == file.header.entriesInDirectoryDescriptor
      && algorithms.entriesInBlock == file.header.entriesInDirectoryBlock
    }

    /** The constructor wires the areas and the callbacks to the file. The
        source leaves the current folder uninitialised; here it starts as
        the invalid index 0. */
    constructor (f: FileAccessor, c: Capacities)
      requires f.Valid() && Sane(f) && Workable(c)
      requires f.HeaderExcept().Ok? ==> 3 <= f.header.filenameLength
      ensures Valid() && file == f && capacities == c
      ensures currentFolder == INVALID_DESCRIPTOR_ID && openedFiles == map[] && lastFreeFileDescriptor == 0
    {
      file := f;
      capacities := c;
      var s := new Callbacks(f);
      store := s;
      algorithms := new DescriptorAlgorithms(s);
      currentFolder := INVALID_DESCRIPTOR_ID;
      openedFiles := map[];
      lastFreeFileDescriptor := 0;
    }

    /** `fileFormatChanged()`: the file must hold a file system; the
        algorithms take the header's capacities and the root directory
        becomes the current folder. */
    method FileFormatChanged() returns (r: Outcome)
      requires Valid()
      modifies this`currentFolder, algorithms`entriesInDescriptor, algorithms`entriesInBlock
      ensures Valid()
      ensures !file.IsFormattedFS() ==> r == Fail(AssertionFailed)
      ensures file.IsFormattedFS() && file.HeaderExcept().Err? ==> r == Fail(file.HeaderExcept().error)
      ensures r.Pass? <==> file.HeaderExcept().Ok?
      ensures r.Pass? ==> Synced() && currentFolder == file.header.rootDirectoryDescriptor
      ensures r.Fail? ==> currentFolder == old(currentFolder) && unchanged(algorithms)
    {
      if !file.IsFormattedFS() {
        return Fail(AssertionFailed);
      }
      var h := file.HeaderExcept();
      if h.Err? {
        return Fail(h.error);
      }
      algorithms.SetEntriesInfo(h.value.entriesInDirectoryDescriptor, h.value.entriesInDirectoryBlock);
      currentFolder := h.value.rootDirectoryDescriptor;
      return Pass;
    }

    /** `getDirectoryDescriptorIterator(idx)`: descriptor `idx` must be a
        directory; the algorithms take the header's capacities and hand out
        an iterator over it. Nothing is written. */
    method GetDirectoryIterator(idx: nat) returns (r: Result<DirectoryIterator>)
      requires Valid()
      modifies file`blocks, file.pool, algorithms`entriesInDescriptor, algorithms`entriesInBlock
      ensures Valid() && file.blocks == old(file.blocks)
      ensures idx == INVALID_DESCRIPTOR_ID ==> r == Err(InvalidArgument)
      ensures idx != INVALID_DESCRIPTOR_ID && file.HeaderExcept().Err? ==> r == Err(file.HeaderExcept().error)
      ensures file.HeaderExcept().Ok? && DescriptorPosFromBlock(file.header, idx).Err? ==> r == Err(InvalidArgument)
      ensures Ready(file) && DescriptorPosFromBlock(file.header, idx).Ok? ==>
        (r.Ok? <==> DescriptorAt(file.header, file.blocks, idx).variant == VDirectory)
        && (DescriptorAt(file.header, file.blocks, idx).variant != VDirectory ==> r == Err(AssertionFailed))
      ensures r.Ok? ==>
        && fresh(r.value) && r.value.Valid() && r.value.store == store && r.value.handle == idx
        && Ready(file) && DescriptorPosFromBlock(file.header, idx).Ok?
        && Started(r.value, DescriptorAt(file.header, file.blocks, idx)) && Synced()
    {
      var d := store.descriptors.GetDescriptor(idx, VAny);
      if d.Err? {
        return Err(d.error);
      }
      if d.value.variant != VDirectory {
        return Err(AssertionFailed);
      }
      var h := file.HeaderExcept().value;
      algorithms.SetEntriesInfo(h.entriesInDirectoryDescriptor, h.entriesInDirectoryBlock);
      var it := algorithms.Iterator(idx, d.value, true);
      return Ok(it);
    }

    /** `formatFile()`: a header for the file's size, installed; the bitmap
        and the descriptor table cleared; the root directory stored; then
        the file system is taken up. It fails on a closed file, on fewer than
        4 blocks, while a block handle is held, and when the root index does
        not name a slot of the table; otherwise the file holds exactly the
        formatted layout and the root directory is the current folder. */
    method FormatFile() returns (r: Outcome)
      requires Valid()
      modifies file`header, file`blocks, file`blockSize, file`lastBlockAddress, file.pool
      modifies this`currentFolder, algorithms`entriesInDescriptor, algorithms`entriesInBlock
      ensures Valid()
      ensures !file.isOpen ==> r == Fail(BadState)
      ensures file.isOpen && file.fileSize / DEFAULT_BLOCK_BYTE_SIZE < 4 ==> r == Fail(BadState)
      ensures file.isOpen && file.fileSize / DEFAULT_BLOCK_BYTE_SIZE >= 4 ==>
        var h := FormattedHeader(capacities, file.fileSize).value;
        (r.Pass? <==> old(file.pool.occupied) == {} && DescriptorPosFromBlock(h, h.rootDirectoryDescriptor).Ok?)
      ensures r.Pass? ==>
        && Ready(file) && FormattedHeader(capacities, file.fileSize) == Ok(file.header)
        && Formatted(file.header, file.blocks)
        && Synced() && currentFolder == file.header.rootDirectoryDescriptor
    {
      var size := file.FileSize();
      if size.Err? {
        return Fail(size.error);
      }
      var layout := FormattedHeader(capacities, size.value);
      if layout.Err? {
        return Fail(layout.error);
      }
      r := Install(layout.value);
      if r.Fail? {
        return;
      }
      assert file.header.descriptorsInBlock > 1;
      r := FileFormatChanged();
    }

    /** The middle of `formatFile`: `formatFS(h)`, both `initBlocks`, and the
        root directory stored as an empty directory that is its own parent. */
    method Install(h: Header) returns (r: Outcome)
      requires Valid() && IsValidSignature(h) && h.version == FS_VERSION && h.blockByteSize == DEFAULT_BLOCK_BYTE_SIZE
      requires Carries(h, capacities)
      requires HEADER_ADDRESS < h.bitMapBegin <= h.bitMapEnd && h.DescriptorsBegin() <= h.descriptorsEnd
      modifies file`header, file`blocks, file`blockSize, file`lastBlockAddress, file.pool
      ensures Valid() && file.header == h
      ensures r.Pass? <==> file.isOpen && old(file.pool.occupied) == {} && DescriptorPosFromBlock(h, h.rootDirectoryDescriptor).Ok?
      ensures r.Pass? ==> Ready(file) && Formatted(h, file.blocks)
    {
      r := ClearAreas(h);
      if r.Fail? {
        return;
      }
      ghost var m2 := file.blocks;
      r := store.descriptors.UpdateDescriptor(h.rootDirectoryDescriptor, InitDirectory(h, h.rootDirectoryDescriptor));
      if r.Pass? {
        StoringRootKeeps(h, m2, h.DescriptorsBegin() + h.rootDirectoryDescriptor / h.descriptorsInBlock,
                         WithDescriptor(h, m2, h.DescriptorsBegin() + h.rootDirectoryDescriptor / h.descriptorsInBlock,
                                        h.rootDirectoryDescriptor % h.descriptorsInBlock,
                                        InitDirectory(h, h.rootDirectoryDescriptor)));
      }
    }

    /** `formatFS(h)` and both `initBlocks`: the header written, the bitmap
        all clear and every descriptor of the table unused. */
    method ClearAreas(h: Header) returns (r: Outcome)
      requires Valid() && IsValidSignature(h) && h.version == FS_VERSION && h.blockByteSize == DEFAULT_BLOCK_BYTE_SIZE
      requires Carries(h, capacities)
      requires HEADER_ADDRESS < h.bitMapBegin <= h.bitMapEnd && h.DescriptorsBegin() <= h.descriptorsEnd
      modifies file`header, file`blocks, file`blockSize, file`lastBlockAddress, file.pool
      ensures Valid() && file.header == h
      ensures r.Pass? <==> file.isOpen && old(file.pool.occupied) == {}
      ensures r.Pass? ==> && Ready(file)
                          && AsHeader(BlockOf(file.blocks, HEADER_ADDRESS)) == h
                          && BitmapClear(h, file.blocks)
                          && forall i: nat :: DescriptorPosFromBlock(h, i).Ok? ==>
                                                DescriptorAt(h, file.blocks, i) == ZeroDescriptor(h)
    {
      r := file.FormatFS(h);
      if r.Fail? {
        return;
      }
      r := store.bitMap.InitBlocks();
      if r.Fail? {
        return;
      }
      ghost var m1 := file.blocks;
      assert BlockOf(m1, HEADER_ADDRESS) == HeaderBlock(h) by {
        ClearedRangeAt(old(file.blocks)[HEADER_ADDRESS := HeaderBlock(h)], h.bitMapBegin, h.bitMapEnd + 1, HEADER_ADDRESS);
      }
      r := store.descriptors.InitBlocks();
      if r.Fail? {
        return;
      }
      ClearingTableKeeps(h, m1);
    }

    /** One turn of `getLastPathElementDescriptor`'s walk: an iterator over
        directory `cur`, searched for `name`. On a healthy file it gives what
        `Child` says and writes nothing. */
    method Descend(cur: nat, name: string, ghost proved: bool) returns (r: Result<nat>)
      requires Valid()
      requires proved ==> Ready(file) && Healthy(file.header, file.blockSize, file.blocks)
      modifies file`blocks, file.pool, algorithms`entriesInDescriptor, algorithms`entriesInBlock
      ensures Valid()
      ensures proved ==> file.blocks == old(file.blocks) && r == Child(file.header, file.blockSize, file.blocks, cur, name)
    {
      ghost var m := file.blocks;
      var got := GetDirectoryIterator(cur);
      if got.Err? {
        return Err(got.error);
      }
      if proved {
        assert Intact(file.header, file.blockSize, m, cur);
      }
      r := SearchAndRelease(got.value, name, m, DescriptorAt(file.header, m, cur), proved);
    }

    /** `getLastPathElementDescriptor(components, isAbsolute)` past its
        start: one `Descend` per component; the first failure ends the walk. */
    method WalkFrom(start: nat, comps: seq<string>, ghost proved: bool) returns (r: Result<nat>)
      requires Valid()
      requires proved ==> Ready(file) && Healthy(file.header, file.blockSize, file.blocks)
      modifies file`blocks, file.pool, algorithms`entriesInDescriptor, algorithms`entriesInBlock
      ensures Valid()
      ensures proved ==> file.blocks == old(file.blocks) && r == Resolve(file.header, file.blockSize, file.blocks, start, comps)
    {
      ghost var m := file.blocks;
      var cur := start;
      var i := 0;
      while i < |comps|
        invariant Valid() && i <= |comps|
        invariant proved ==> Ready(file) && file.blocks == m && Healthy(file.header, file.blockSize, m)
        invariant proved ==> Resolve(file.header, file.blockSize, m, start, comps)
                             == Resolve(file.header, file.blockSize, m, cur, comps[i..])
      {
        var next := Descend(cur, comps[i], proved);
        if proved {
          assert comps[i..][0] == comps[i] && comps[i..][1..] == comps[i + 1..];
        }
        if next.Err? {
          return Err(next.error);
        }
        cur := next.value;
        i := i + 1;
      }
      return Ok(cur);
    }

    /** `getLastPathElementDescriptor(path)`: the components of `path`,
        walked from the root directory for an absolute path and from the
        current folder otherwise. On a healthy file it gives what `Resolve`
        says and writes nothing. */
    method GetLastPathElementDescriptor(path: string) returns (r: Result<nat>)
      requires Valid() && path != []
      modifies file`blocks, file.pool, algorithms`entriesInDescriptor, algorithms`entriesInBlock
      ensures Valid()
      ensures Ready(file) && Healthy(file.header, file.blockSize, old(file.blocks)) ==>
        && file.blocks == old(file.blocks)
        && r == Resolve(file.header, file.blockSize, file.blocks,
                        if IsAbsolute(path) then file.header.rootDirectoryDescriptor else currentFolder,
                        Components(path))
    {
      var p := new Path(path);
      var comps := p.GetParsedPath();
      var start: nat;
      if IsAbsolute(path) {
        var h :- file.HeaderExcept();
        start := h.rootDirectoryDescriptor;
      } else {
        start := currentFolder;
      }
      r := WalkFrom(start, comps, Ready(file) && Healthy(file.header, file.blockSize, file.blocks));
    }

    /** `open(args)`: the path's descriptor gets the next opened file id.
        There must be a path; the id counter must not be at its largest
        value; the path must resolve. */
    method Open(args: seq<string>) returns (r: Result<nat>)
      requires Valid() && (|args| >= 1 ==> args[0] != [])
      modifies this`openedFiles, this`lastFreeFileDescriptor
      modifies file`blocks, file.pool, algorithms`entriesInDescriptor, algorithms`entriesInBlock
      ensures Valid()
      ensures |args| < 1 ==> r == Err(NotEnoughArguments)
      ensures |args| >= 1 && old(lastFreeFileDescriptor) == U64 - 1 ==> r == Err(FileSystemError)
      ensures r.Err? ==> openedFiles == old(openedFiles) && lastFreeFileDescriptor == old(lastFreeFileDescriptor)
      ensures r.Ok? ==>
        && r.value == old(lastFreeFileDescriptor) && r.value !in old(openedFiles)
        && lastFreeFileDescriptor == old(lastFreeFileDescriptor) + 1
        && r.value in openedFiles && openedFiles == old(openedFiles)[r.value := openedFiles[r.value]]
      ensures |args| >= 1 && old(lastFreeFileDescriptor) < U64 - 1
              && Ready(file) && Healthy(file.header, file.blockSize, old(file.blocks)) ==>
        var target := Resolve(file.header, file.blockSize, old(file.blocks),
                              if IsAbsolute(args[0]) then file.header.rootDirectoryDescriptor else currentFolder,
                              Components(args[0]));
        && (r.Ok? <==> target.Ok?)
        && (r.Ok? ==> openedFiles[r.value] == target.value)
        && (r.Err? ==> r.error == target.error)
    {
      var c := CheckArgumentsCount(args, 1);
      if c.Fail? {
        return Err(c.error);
      }
      if lastFreeFileDescriptor == U64 - 1 {
        return Err(FileSystemError);
      }
      var descriptor :- GetLastPathElementDescriptor(args[0]);
      var id := lastFreeFileDescriptor;
      lastFreeFileDescriptor := lastFreeFileDescriptor + 1;
      openedFiles := openedFiles[id := descriptor];
      return Ok(id);
    }

    /** `close(args)`, with the id `args[0]` parses to: an id that is not
        open fails, and otherwise exactly that entry leaves the table. */
    method Close(args: seq<string>, id: nat) returns (r: Outcome)
      requires Valid()
      modifies this`openedFiles
      ensures Valid()
      ensures r.Pass? <==> |args| >= 1 && id in old(openedFiles)
      ensures |args| < 1 ==> r == Fail(NotEnoughArguments)
      ensures |args| >= 1 && id !in old(openedFiles) ==> r == Fail(FileSystemError)
      ensures openedFiles == if r.Pass? then old(openedFiles) - {id} else old(openedFiles)
    {
      r := CheckArgumentsCount(args, 1);
      if r.Fail? {
        return;
      }
      if id !in openedFiles {
        return Fail(FileSystemError);
      }
      openedFiles := openedFiles - {id};
    }

    /** `cd(args)`: the current folder becomes the descriptor the path
        leads to; whether that is a directory is not checked. */
    method Cd(args: seq<string>) returns (r: Outcome)
      requires Valid() && (|args| >= 1 ==> args[0] != [])
      modifies this`currentFolder
      modifies file`blocks, file.pool, algorithms`entriesInDescriptor, algorithms`entriesInBlock
      ensures Valid()
      ensures |args| < 1 ==> r == Fail(NotEnoughArguments)
      ensures r.Fail? ==> currentFolder == old(currentFolder)
      ensures |args| >= 1 && Ready(file) && Healthy(file.header, file.blockSize, old(file.blocks)) ==>
        var target := Resolve(file.header, file.blockSize, old(file.blocks),
                              if IsAbsolute(args[0]) then file.header.rootDirectoryDescriptor else old(currentFolder),
                              Components(args[0]));
        && file.blocks == old(file.blocks)
        && (r.Pass? <==> target.Ok?)
        && (r.Pass? ==> currentFolder == target.value)
        && (r.Fail? ==> r.error == target.error)
    {
      r := CheckArgumentsCount(args, 1);
      if r.Fail? {
        return;
      }
      var target := GetLastPathElementDescriptor(args[0]);
      if target.Err? {
        return Fail(target.error);
      }
      currentFolder := target.value;
    }

    /** `addDescriptorToDirectory(dir, element, name)`: the name checked, the
        entry `(element, name)` built, directory `dir` read (it must be a
        directory) and the entry appended at its end. */
    method AddDescriptorToDirectory(dir: nat, element: nat, name: string) returns (r: Outcome)
      requires Valid()
      modifies file`blocks, file.pool
      ensures Valid()
      ensures file.HeaderExcept().Err? ==> r == Fail(file.HeaderExcept().error)
      ensures file.HeaderExcept().Ok? && |name| > file.header.filenameLength ==> r == Fail(FilenameError)
      ensures file.HeaderExcept().Ok? && name == [] ==> r == Fail(InvalidArgument)
      ensures r.Fail? && (file.HeaderExcept().Err? || |name| > file.header.filenameLength || name == []) ==>
        file.blocks == old(file.blocks)
      ensures Ready(file) && name != [] && |name| <= file.header.filenameLength && DescriptorPosFromBlock(file.header, dir).Ok? ==>
        var d := DescriptorAt(file.header, old(file.blocks), dir);
        && (d.variant != VDirectory ==> r == Fail(AssertionFailed) && file.blocks == old(file.blocks))
        && (d.variant == VDirectory && Synced() && Consistent(file.header, file.blockSize, old(file.blocks), dir, d) ==>
              && (r.Pass? ==> GrewBy(file.header, file.blockSize, old(file.blocks), file.blocks, dir, d, NewEntry(file.header, element, name)))
              && (r.Fail? ==> d.firstFreeElementIndex == file.header.entriesInDirectoryDescriptor))
      ensures r.Pass? ==> Ready(file) && name != [] && |name| <= file.header.filenameLength
                          && DescriptorPosFromBlock(file.header, dir).Ok?
                          && DescriptorAt(file.header, old(file.blocks), dir).variant == VDirectory
    {
      r := CheckFilename(file.HeaderExcept(), name);
      if r.Fail? {
        return;
      }
      var h := file.header;
      var e := SetEntry(ZeroEntry(h), element, name, h.filenameLength);
      if e.Err? {
        return Fail(e.error);
      }
      var d := store.descriptors.GetDescriptor(dir, VAny);
      if d.Err? {
        return Fail(d.error);
      }
      if d.value.variant != VDirectory {
        return Fail(AssertionFailed);
      }
      r := algorithms.AppendToEnd(dir, d.value, e.value);
    }

    /** The first half of `allocAndAppendDescriptorToCurrentFolder`: the
        first table block the bitmap marks as not full, `desc` appended to
        it, and the block marked full when that took its last slot. The
        block and the slot are returned. */
    method AllocDescriptor(desc: Descriptor) returns (r: Result<(nat, nat)>)
      requires Valid()
      requires file.HeaderExcept().Ok? ==> DescriptorFits(file.header, desc)
      modifies file`blocks, file.pool
      ensures Valid()
      ensures file.HeaderExcept().Err? ==> r == Err(file.HeaderExcept().error)
      ensures Ready(file) ==>
        var h := file.header;
        var scan := FirstFreeScan(h, file.blockSize, old(file.blocks), h.DescriptorsBegin(), h.descriptorsEnd);
        && (scan.Err? ==> r == Err(scan.error))
        && (scan == Ok(HEADER_ADDRESS) ==> r == Err(NoEnoughFsEntry))
        && (scan.Ok? && scan.value != HEADER_ADDRESS && !InRange(h.DescriptorsBegin(), h.descriptorsEnd, scan.value) ==>
              r == Err(InvalidArgument))
        && (r.Ok? ==> scan == Ok(r.value.0))
      ensures r.Ok? ==> Ready(file) && Allocated(file.header, old(file.blocks), file.blocks, r.value.0, r.value.1, desc)
    {
      var hr := file.HeaderExcept();
      if hr.Err? {
        return Err(hr.error);
      }
      var h := hr.value;
      var blk := store.bitMap.FindFirstFreeBlock(h.DescriptorsBegin(), h.descriptorsEnd);
      if blk.Err? {
        return Err(blk.error);
      }
      if blk.value == HEADER_ADDRESS {
        return Err(NoEnoughFsEntry);
      }
      ghost var m0 := file.blocks;
      var slot, filled := store.descriptors.AppendDescriptor(blk.value, desc);
      if slot.Err? {
        return Err(slot.error);
      }
      ghost var m1 := file.blocks;
      StoredInSlot(h, m0, blk.value, slot.value, desc);
      if filled {
        var s := store.bitMap.Set(blk.value, true);
        if s.Fail? {
          return Err(s.error);
        }
        if Laid(h) {
          MarkedFull(h, m1, blk.value);
        }
      }
      return Ok((blk.value, slot.value));
    }

    /** `allocAndAppendDescriptorToCurrentFolder(desc, name)` as written: the
        new descriptor is linked into the current folder under the slot
        `appendDescriptor` returns, which names the new descriptor only in
        the first table block. */
    method AllocAndAppend(desc: Descriptor, name: string)
      returns (r: Outcome, ghost mid: map<nat, Block>, ghost blk: nat, ghost slot: nat)
      requires Valid()
      requires file.HeaderExcept().Ok? ==> DescriptorFits(file.header, desc)
      modifies file`blocks, file.pool
      ensures Valid()
      ensures file.HeaderExcept().Err? ==> r == Fail(file.HeaderExcept().error)
      ensures (&& Ready(file)
               && FirstFreeScan(file.header, file.blockSize, old(file.blocks), file.header.DescriptorsBegin(),
                                file.header.descriptorsEnd) == Ok(HEADER_ADDRESS))
              ==> r == Fail(NoEnoughFsEntry)
      ensures r.Pass? ==>
        && Ready(file) && Allocated(file.header, old(file.blocks), mid, blk, slot, desc)
        && (Synced() ==> AddedTo(file.header, file.blockSize, mid, file.blocks, currentFolder, slot, name))
    {
      var pos := AllocDescriptor(desc);
      if pos.Err? {
        return Fail(pos.error), file.blocks, 0, 0;
      }
      mid, blk, slot := file.blocks, pos.value.0, pos.value.1;
      r := AddDescriptorToDirectory(currentFolder, pos.value.1, name);
    }

    /** `allocAndAppendDescriptorToCurrentFolder(desc, name)` linking the
        index of the new descriptor, built from its block and slot. */
    method AllocAndAppendAsIntended(desc: Descriptor, name: string)
      returns (r: Outcome, ghost mid: map<nat, Block>, ghost blk: nat, ghost slot: nat)
      requires Valid()
      requires file.HeaderExcept().Ok? ==> DescriptorFits(file.header, desc)
      modifies file`blocks, file.pool
      ensures Valid()
      ensures file.HeaderExcept().Err? ==> r == Fail(file.HeaderExcept().error)
      ensures (&& Ready(file)
               && FirstFreeScan(file.header, file.blockSize, old(file.blocks), file.header.DescriptorsBegin(),
                                file.header.descriptorsEnd) == Ok(HEADER_ADDRESS))
              ==> r == Fail(NoEnoughFsEntry)
      ensures r.Pass? ==>
        && Ready(file) && Allocated(file.header, old(file.blocks), mid, blk, slot, desc)
        && var i := DescriptorIndexFromPos(file.header, blk, slot).value;
           && DescriptorPosFromBlock(file.header, i) == Ok((blk, slot))
           && (Synced() ==> AddedTo(file.header, file.blockSize, mid, file.blocks, currentFolder, i, name))
    {
      var pos := AllocDescriptor(desc);
      if pos.Err? {
        return Fail(pos.error), file.blocks, 0, 0;
      }
      mid, blk, slot := file.blocks, pos.value.0, pos.value.1;
      var h := file.header;
      var i := DescriptorIndexFromPos(h, pos.value.0, pos.value.1).value;
      DescriptorIndexRoundTrip(h, blk, slot);
      r := AddDescriptorToDirectory(currentFolder, i, name);
    }

    /** `create(args)`: a new empty file named `args[0]` in the current
        folder. */
    method Create(args: seq<string>) returns (r: Outcome, ghost mid: map<nat, Block>, ghost blk: nat, ghost slot: nat)
      requires Valid()
      modifies file`blocks, file.pool
      ensures Valid()
      ensures |args| < 1 ==> r == Fail(NotEnoughArguments)
      ensures |args| >= 1 && file.HeaderExcept().Err? ==> r == Fail(file.HeaderExcept().error)
      ensures r.Pass? ==>
        && Ready(file) && Allocated(file.header, old(file.blocks), mid, blk, slot, InitFile(file.header))
        && (Synced() ==> AddedTo(file.header, file.blockSize, mid, file.blocks, currentFolder,
                                 DescriptorIndexFromPos(file.header, blk, slot).value, args[0]))
    {
      r := CheckArgumentsCount(args, 1);
      if r.Fail? {
        return r, file.blocks, 0, 0;
      }
      var h := file.HeaderExcept();
      if h.Err? {
        return Fail(h.error), file.blocks, 0, 0;
      }
      r, mid, blk, slot := AllocAndAppendAsIntended(InitFile(h.value), args[0]);
    }

    /** `mkdir(args)`: a new empty directory named `args[0]` in the current
        folder, whose parent is the current folder. */
    method Mkdir(args: seq<string>) returns (r: Outcome, ghost mid: map<nat, Block>, ghost blk: nat, ghost slot: nat)
      requires Valid()
      modifies file`blocks, file.pool
      ensures Valid()
      ensures |args| < 1 ==> r == Fail(NotEnoughArguments)
      ensures |args| >= 1 && file.HeaderExcept().Err? ==> r == Fail(file.HeaderExcept().error)
      ensures r.Pass? ==>
        && Ready(file) && Allocated(file.header, old(file.blocks), mid, blk, slot, InitDirectory(file.header, currentFolder))
        && (Synced() ==> AddedTo(file.header, file.blockSize, mid, file.blocks, currentFolder,
                                 DescriptorIndexFromPos(file.header, blk, slot).value, args[0]))
    {
      r := CheckArgumentsCount(args, 1);
      if r.Fail? {
        return r, file.blocks, 0, 0;
      }
      var h := file.HeaderExcept();
      if h.Err? {
        return Fail(h.error), file.blocks, 0, 0;
      }
      r, mid, blk, slot := AllocAndAppendAsIntended(InitDirectory(h.value, currentFolder), args[0]);
    }

    /** The check of `removeDescriptorFromDirectory` once iterator `it`
        stands on the entry found, entry `i` of the directory: the named
        descriptor is read and its variant must be one of `allowed`. */
    method ReadTarget(it: DirectoryIterator, allowed: Variant, ghost m: map<nat, Block>, ghost d: Descriptor, ghost i: nat,
                      ghost proved: bool)
      returns (r: Result<nat>)
      requires Valid() && it.Valid() && it.store == store
      requires proved ==> Scanning(it, m, d, i + 3) && i < d.firstFreeElementIndex
      modifies file`blocks, file.pool
      ensures Valid() && file.blocks == old(file.blocks)
      ensures proved ==>
        var h := file.header;
        var t := Listing(h, m, d)[i].descriptor;
        && (DescriptorPosFromBlock(h, t).Err? ==> r == Err(InvalidArgument))
        && (DescriptorPosFromBlock(h, t).Ok? ==>
              r == if And(DescriptorAt(h, m, t).variant, allowed) == 0 then Err(FileSystemError) else Ok(t))
        && (r.Err? ==> Removal(h, m, t, allowed) == Fail(r.error))
        && (r.Ok? ==> r.value == t && DescriptorPosFromBlock(h, t).Ok? && And(DescriptorAt(h, m, t).variant, allowed) != 0)
    {
      if proved {
        SeenEntry(file.header, m, it.handle, d, i + 3);
      }
      var entry := it.Deref();
      if entry.Err? {
        return Err(entry.error);
      }
      r := CheckTarget(entry.value.descriptor, allowed);
    }

    /** The descriptor `t` an entry names is read, and its variant must be
        one of `allowed`. On a ready file this is `Removal` short of the
        check for an empty directory. */
    method CheckTarget(t: nat, allowed: Variant) returns (r: Result<nat>)
      requires Valid()
      modifies file`blocks, file.pool
      ensures Valid() && file.blocks == old(file.blocks)
      ensures Ready(file) ==>
        var h := file.header;
        && (DescriptorPosFromBlock(h, t).Err? ==> r == Err(InvalidArgument))
        && (DescriptorPosFromBlock(h, t).Ok? ==>
              r == if And(DescriptorAt(h, file.blocks, t).variant, allowed) == 0 then Err(FileSystemError) else Ok(t))
        && (r.Err? ==> Removal(h, file.blocks, t, allowed) == Fail(r.error))
        && (r.Ok? ==> && r.value == t && DescriptorPosFromBlock(h, t).Ok?
                      && And(DescriptorAt(h, file.blocks, t).variant, allowed) != 0)
    {
      var got := store.descriptors.GetDescriptor(t, VAny);
      if got.Err? {
        return Err(got.error);
      }
      if And(got.value.variant, allowed) == 0 {
        return Err(FileSystemError);
      }
      r := Ok(t);
    }

    /** `decrementReference(t)` while iterator `it` stands on entry `i` of
        a directory: it fails only for a directory that still has entries,
        which includes the directory being scanned, so when it succeeds
        only the slot of another descriptor changes and the iterator still
        stands where `deleteEntry` expects it. */
    method Unreference(it: DirectoryIterator, t: nat, allowed: Variant, ghost m: map<nat, Block>, ghost d: Descriptor,
                       ghost i: nat, ghost proved: bool)
      returns (r: Outcome)
      requires Valid() && it.Valid() && it.store == store
      requires proved ==>
        && Laid(it.Header()) && Scanning(it, m, d, i + 3) && i < d.firstFreeElementIndex && d.variant == VDirectory
        && (d.firstFreeElementIndex > it.Header().entriesInDirectoryDescriptor ==> d.nextDataSegment in m)
        && DescriptorPosFromBlock(it.Header(), t).Ok? && And(DescriptorAt(it.Header(), m, t).variant, allowed) != 0
      modifies file`blocks, file.pool
      ensures Valid() && it.Valid()
      ensures proved ==>
        var h := file.header;
        var e := DescriptorAt(h, m, t);
        && (r.Fail? <==> e.variant == VDirectory && e.firstFreeElementIndex != 0)
        && r == Removal(h, m, t, allowed)
        && (r.Fail? ==> file.blocks == m)
        && (r.Pass? ==> && Decremented(h, m, file.blocks, t)
                        && algorithms.AtEntry(it, file.blocks, d, i) && Listing(h, file.blocks, d) == Listing(h, m, d))
    {
      r := store.descriptors.DecrementReference(t);
      if proved && r.Pass? {
        ghost var h := file.header;
        DecrementKeepsDirectory(h, file.blockSize, m, file.blocks, it.handle, d, t,
                                file.blocks[h.DescriptorsBegin() + t / h.descriptorsInBlock]);
      }
    }

    /** The first half of `removeDescriptorFromDirectory` once iterator
        `it` stands on the entry found, entry `i` of the directory: the
        named descriptor checked and its reference taken. */
    method TakeReference(it: DirectoryIterator, allowed: Variant, ghost m: map<nat, Block>, ghost d: Descriptor, ghost i: nat,
                         ghost proved: bool)
      returns (r: Result<nat>)
      requires Valid() && it.Valid() && it.store == store
      requires proved ==>
        && Laid(it.Header()) && Scanning(it, m, d, i + 3) && i < d.firstFreeElementIndex && d.variant == VDirectory
        && (d.firstFreeElementIndex > it.Header().entriesInDirectoryDescriptor ==> d.nextDataSegment in m)
      modifies file`blocks, file.pool
      ensures Valid() && it.Valid()
      ensures proved ==>
        var h := file.header;
        var ls := Listing(h, m, d);
        var o := Removal(h, m, ls[i].descriptor, allowed);
        && (o.Fail? ==> r == Err(o.error) && file.blocks == m && WriteBackOf(file.blockSize, m, it.current) == Ok(m))
        && (o.Pass? ==> && r == Ok(ls[i].descriptor) && Decremented(h, m, file.blocks, ls[i].descriptor)
                        && algorithms.AtEntry(it, file.blocks, d, i) && Listing(h, file.blocks, d) == ls)
    {
      if proved {
        ScanIdle(it, m, d, i + 3);
      }
      var t :- ReadTarget(it, allowed, m, d, i, proved);
      var dec := Unreference(it, t, allowed, m, d, i, proved);
      if dec.Fail? {
        return Err(dec.error);
      }
      r := Ok(t);
    }

    /** The rest of `removeDescriptorFromDirectory` once iterator `it`
        stands on the entry found, entry `i` of the directory: the reference
        taken, the entry deleted by the corrected `deleteEntry`, and the
        iterator released. The descriptor table then holds one reference
        fewer on the named descriptor, and the directory lost exactly that
        entry, its last entry taking its place. */
    method RemoveFound(it: DirectoryIterator, allowed: Variant, ghost m: map<nat, Block>, ghost d: Descriptor, ghost i: nat,
                       ghost proved: bool)
      returns (r: Result<bool>, ghost mid: map<nat, Block>)
      requires Valid() && it.Valid() && it.store == store
      requires proved ==>
        && Laid(it.Header()) && Scanning(it, m, d, i + 3) && i < d.firstFreeElementIndex && d.variant == VDirectory
        && (d.firstFreeElementIndex > it.Header().entriesInDirectoryDescriptor ==> d.nextDataSegment in m)
      modifies file`blocks, file.pool, it`data, it`current, it`dotEntry, it`dotDotEntry
      ensures Valid() && it.Valid()
      ensures proved ==> RemovedAt(file.header, file.blockSize, m, mid, file.blocks, it.handle, d, allowed, i, r)
      ensures it.current == NoBlock
    {
      var taken := TakeReference(it, allowed, m, d, i, proved);
      mid := file.blocks;
      if taken.Err? {
        var released := it.Release();
        return Err(taken.error), mid;
      }
      var deleted := algorithms.DeleteEntryAsIntended(it, i, proved);
      if deleted.Fail? {
        // the exception unwinds this frame, and `it` is destroyed on the way
        var _ := it.Release();
        return Err(deleted.error), mid;
      }
      var released := it.Release();
      if released.Fail? {
        return Err(released.error), mid;
      }
      r := Ok(true);
    }

    /** The end of a scan that found nothing: the iterator released,
        which writes nothing after a scan of a stored directory. */
    method Unmatched(it: DirectoryIterator, ghost m: map<nat, Block>, ghost d: Descriptor, ghost proved: bool)
      returns (r: Result<bool>)
      requires Valid() && it.Valid() && it.store == store
      requires proved ==> && Scanning(it, m, d, d.firstFreeElementIndex + 2)
                          && (d.firstFreeElementIndex > it.Header().entriesInDirectoryDescriptor ==> d.nextDataSegment in m)
      modifies it`current, file`blocks
      ensures Valid()
      ensures r.Ok? ==> r.value == false
      ensures proved ==> r == Ok(false) && file.blocks == m
    {
      if proved {
        ScanIdle(it, m, d, d.firstFreeElementIndex + 2);
      }
      var released := it.Release();
      if released.Fail? {
        return Err(released.error);
      }
      r := Ok(false);
    }

    /** The scan of `removeDescriptorFromDirectory`: `name` looked up
        through the new iterator `it` over directory `d`, stored in `m`;
        the entry found removed, or the iterator released when there is
        none. */
    method RemoveFrom(it: DirectoryIterator, allowed: Variant, name: string, ghost m: map<nat, Block>, ghost d: Descriptor,
                      ghost proved: bool)
      returns (r: Result<bool>, ghost mid: map<nat, Block>)
      requires Valid() && it.Valid() && it.store == store
      requires proved ==>
        && Laid(it.Header()) && Scanning(it, m, d, 0) && d.variant == VDirectory && name != "." && name != ".."
        && (d.firstFreeElementIndex > it.Header().entriesInDirectoryDescriptor ==> d.nextDataSegment in m)
      modifies file`blocks, file.pool, it`index, it`offset, it`blockAddress, it`prevAddress, it`current
      modifies it`data, it`dotEntry, it`dotDotEntry
      ensures Valid()
      ensures proved ==> RemovedFrom(file.header, file.blockSize, m, mid, file.blocks, it.handle, d, allowed, name, r)
    {
      mid := file.blocks;
      ghost var h := file.header;
      var found := Find(it, name, m, d, proved);
      if found.Err? {
        return Err(found.error), mid;
      }
      if !found.value {
        r := Unmatched(it, m, d, proved);
        return;
      }
      r, mid := RemoveMatch(it, allowed, name, m, d, proved);
    }

    /** `removeDescriptorFromDirectory` once the scan found an entry named
        `name`: the first such entry removed. */
    method RemoveMatch(it: DirectoryIterator, allowed: Variant, name: string, ghost m: map<nat, Block>, ghost d: Descriptor,
                       ghost proved: bool)
      returns (r: Result<bool>, ghost mid: map<nat, Block>)
      requires Valid() && it.Valid() && it.store == store
      requires proved ==>
        && Laid(it.Header()) && d.variant == VDirectory
        && (d.firstFreeElementIndex > it.Header().entriesInDirectoryDescriptor ==> d.nextDataSegment in m)
        && DescriptorFits(it.Header(), d) && d.firstFreeElementIndex <= Capacity(it.Header())
        && var k := FirstMatch(it.Header(), Listing(it.Header(), m, d), name);
           k < d.firstFreeElementIndex && Scanning(it, m, d, k + 3)
      modifies file`blocks, file.pool, it`data, it`current, it`dotEntry, it`dotDotEntry
      ensures Valid()
      ensures proved ==> RemovedFrom(file.header, file.blockSize, m, mid, file.blocks, it.handle, d, allowed, name, r)
    {
      ghost var i: nat := 0;
      if proved {
        i := FirstMatch(file.header, Listing(file.header, m, d), name);
      }
      r, mid := RemoveFound(it, allowed, m, d, i, proved);
    }

    /** `removeDescriptorFromDirectory(dir, allowed, name)`: the name
        checked, directory `dir` scanned for the first entry so named, and
        that entry removed when its descriptor is of an `allowed` variant.
        On a healthy file and for a name other than "." and "..", the
        outcome is `RemovedAs`. */
    method RemoveDescriptorFromDirectory(dir: nat, allowed: Variant, name: string)
      returns (r: Result<bool>, ghost mid: map<nat, Block>)
      requires Valid()
      modifies file`blocks, file.pool, algorithms`entriesInDescriptor, algorithms`entriesInBlock
      ensures Valid()
      ensures CheckFilename(file.HeaderExcept(), name).Fail? ==>
        r == Err(CheckFilename(file.HeaderExcept(), name).error) && file.blocks == old(file.blocks)
      ensures file.HeaderExcept().Ok? && CheckFilename(file.HeaderExcept(), name).Pass? ==>
        && (dir == INVALID_DESCRIPTOR_ID || DescriptorPosFromBlock(file.header, dir).Err? ==> r == Err(InvalidArgument))
        && ((&& Ready(file) && DescriptorPosFromBlock(file.header, dir).Ok?
             && DescriptorAt(file.header, old(file.blocks), dir).variant != VDirectory)
            ==> r == Err(AssertionFailed))
      ensures && Ready(file) && Healthy(file.header, file.blockSize, old(file.blocks)) && Laid(file.header)
              && CheckFilename(file.HeaderExcept(), name).Pass? && name != "." && name != ".."
              && DescriptorPosFromBlock(file.header, dir).Ok? && DescriptorAt(file.header, old(file.blocks), dir).variant == VDirectory
              ==> RemovedAs(file.header, file.blockSize, old(file.blocks), mid, file.blocks, dir, allowed, name, r)
    {
      mid := file.blocks;
      var checked := CheckFilename(file.HeaderExcept(), name);
      if checked.Fail? {
        return Err(checked.error), mid;
      }
      ghost var m := file.blocks;
      var got := GetDirectoryIterator(dir);
      if got.Err? {
        return Err(got.error), mid;
      }
      ghost var h := file.header;
      ghost var proved := Healthy(h, file.blockSize, m) && Laid(h) && name != "." && name != "..";
      if proved {
        assert Intact(h, file.blockSize, m, dir);
      }
      r, mid := RemoveFrom(got.value, allowed, name, m, DescriptorAt(h, m, dir), proved);
    }

    /** `unlink(args)`: the entry `args[0]` of the current folder removed
        when it names a file or a symbolic link; `Ok(false)` when there is
        none. */
    method Unlink(args: seq<string>) returns (r: Result<bool>, ghost mid: map<nat, Block>)
      requires Valid()
      modifies file`blocks, file.pool, algorithms`entriesInDescriptor, algorithms`entriesInBlock
      ensures Valid()
      ensures |args| < 1 ==> r == Err(NotEnoughArguments) && file.blocks == old(file.blocks)
      ensures |args| >= 1 && Ready(file) && Healthy(file.header, file.blockSize, old(file.blocks)) && Laid(file.header)
              && CheckFilename(file.HeaderExcept(), args[0]).Pass? && args[0] != "." && args[0] != ".."
              && DescriptorPosFromBlock(file.header, currentFolder).Ok?
              && DescriptorAt(file.header, old(file.blocks), currentFolder).variant == VDirectory
              ==> RemovedAs(file.header, file.blockSize, old(file.blocks), mid, file.blocks, currentFolder,
                            Or(VFile, VSymLink), args[0], r)
    {
      mid := file.blocks;
      var count := CheckArgumentsCount(args, 1);
      if count.Fail? {
        return Err(count.error), mid;
      }
      r, mid := RemoveDescriptorFromDirectory(currentFolder, Or(VFile, VSymLink), args[0]);
    }

    /** `rmdir(args)`: the entry `args[0]` of the current folder removed
        when it names an empty directory; `Ok(false)` when there is none. */
    method Rmdir(args: seq<string>) returns (r: Result<bool>, ghost mid: map<nat, Block>)
      requires Valid()
      modifies file`blocks, file.pool, algorithms`entriesInDescriptor, algorithms`entriesInBlock
      ensures Valid()
      ensures |args| < 1 ==> r == Err(NotEnoughArguments) && file.blocks == old(file.blocks)
      ensures |args| >= 1 && Ready(file) && Healthy(file.header, file.blockSize, old(file.blocks)) && Laid(file.header)
              && CheckFilename(file.HeaderExcept(), args[0]).Pass? && args[0] != "." && args[0] != ".."
              && DescriptorPosFromBlock(file.header, currentFolder).Ok?
              && DescriptorAt(file.header, old(file.blocks), currentFolder).variant == VDirectory
              ==> RemovedAs(file.header, file.blockSize, old(file.blocks), mid, file.blocks, currentFolder,
                            VDirectory, args[0], r)
    {
      mid := file.blocks;
      var count := CheckArgumentsCount(args, 1);
      if count.Fail? {
        return Err(count.error), mid;
      }
      r, mid := RemoveDescriptorFromDirectory(currentFolder, VDirectory, args[0]);
    }

    /** The loop of `link`: every entry iterator `it` yields that is named
        `src` is linked into directory `destDir` under the name `dest`, then
        the iterator is released. Over a stored directory with no entry
        named `src` it writes nothing; over one keeping its entries in its
        descriptor with one entry named `src` it links that entry once and
        fails only for a bad `dest` or when no overflow block can be taken. */
    method LinkEach(it: DirectoryIterator, src: string, dest: string, destDir: nat, ghost m: map<nat, Block>,
                    ghost d: Descriptor, ghost proved: bool)
      returns (r: Outcome)
      requires Valid() && it.Valid() && it.store == store
      requires proved ==> Synced() && destDir == it.handle && Linking(it, m, d, src, dest, 0)
      modifies file`blocks, file.pool, it`index, it`offset, it`blockAddress, it`prevAddress, it`current
      ensures Valid()
      ensures proved ==> Shaped(it.Header()) && DescriptorFits(it.Header(), d) && d.firstFreeElementIndex <= Capacity(it.Header())
      ensures proved && r.Pass? ==> LinkedOver(it.Header(), file.blockSize, m, file.blocks, it.handle, d, src, dest)
      ensures proved && r.Fail? ==> LinkFailed(it.Header(), m, file.blocks, it.handle, d, src, dest)
    {
      ghost var k: nat := 0;
      while it.HasNext()
        invariant Valid() && it.Valid() && it.store == store
        invariant proved ==> Synced() && destDir == it.handle && Linking(it, m, d, src, dest, k)
        decreases Remaining(it.index, it.data.firstFreeElementIndex)
      {
        r := LinkOne(it, src, dest, destDir, m, d, k, proved);
        if r.Fail? {
          return;
        }
        k := k + 1;
      }
      r := LinkDone(it, src, dest, m, d, k, proved);
    }

    /** One turn of `link`'s loop: step, read the name, and link the entry
        when it is named `src`. */
    method LinkOne(it: DirectoryIterator, src: string, dest: string, destDir: nat, ghost m: map<nat, Block>,
                   ghost d: Descriptor, ghost k: nat, ghost proved: bool)
      returns (r: Outcome)
      requires Valid() && it.Valid() && it.store == store && it.HasNext()
      requires proved ==> Synced() && destDir == it.handle && Linking(it, m, d, src, dest, k)
      modifies file`blocks, file.pool, it`index, it`offset, it`blockAddress, it`prevAddress, it`current
      ensures Valid() && it.Valid()
      ensures r.Pass? ==> Remaining(it.index, it.data.firstFreeElementIndex) < Remaining(old(it.index), it.data.firstFreeElementIndex)
      ensures proved ==> Synced() && Shaped(it.Header()) && DescriptorFits(it.Header(), d)
                         && d.firstFreeElementIndex <= Capacity(it.Header())
      ensures proved && r.Pass? ==> Linking(it, m, d, src, dest, k + 1)
      ensures proved && r.Fail? ==> LinkFailed(it.Header(), m, file.blocks, it.handle, d, src, dest)
    {
      ghost var h, bs := it.Header(), file.blockSize;
      var e := LinkStep(it, src, dest, destDir, m, d, k, proved);
      if e.Err? {
        return Fail(e.error);
      }
      var name := ReadName(e.value, it.Header().filenameLength);
      if name != src {
        if proved {
          LinkPassed(h, bs, m, file.blocks, destDir, d, src, dest, k);
        }
        return Pass;
      }
      r := LinkMatch(it, e.value, src, dest, destDir, m, d, k, proved);
    }

    /** The step of `link`'s loop: the iterator moves to the next entry,
        which is entry `k` of the folder as the loop found it. */
    method LinkStep(it: DirectoryIterator, src: string, dest: string, destDir: nat, ghost m: map<nat, Block>,
                    ghost d: Descriptor, ghost k: nat, ghost proved: bool)
      returns (e: Result<DirEntry>)
      requires Valid() && it.Valid() && it.store == store && it.HasNext()
      requires proved ==> Synced() && destDir == it.handle && Linking(it, m, d, src, dest, k)
      modifies file`blocks, file.pool, it`index, it`offset, it`blockAddress, it`prevAddress, it`current
      ensures Valid() && it.Valid() && it.Header() == old(it.Header()) && file.blockSize == old(file.blockSize)
      ensures e.Ok? ==> Remaining(it.index, it.data.firstFreeElementIndex) < Remaining(old(it.index), it.data.firstFreeElementIndex)
      ensures e.Ok? ==> EntryFits(it.Header(), e.value)
      ensures proved ==>
        var h := it.Header();
        && Synced() && e.Ok? && k < d.firstFreeElementIndex + 2
        && Viewing(it, file.blocks, d, k + 1)
        && LinkState(h, file.blockSize, m, file.blocks, destDir, d, src, dest, k)
        && e.value == Visible(h, m, destDir, d)[k]
    {
      ghost var h, bs, now := it.Header(), it.store.file.blockSize, file.blocks;
      if proved {
        LinkView(h, bs, m, now, destDir, d, src, dest, k);
      }
      e := Step(it, now, d, k, proved);
    }

    /** The entry `e` under the iterator is named `src`: it is linked into
        the folder again under the name `dest`. */
    method LinkMatch(it: DirectoryIterator, e: DirEntry, src: string, dest: string, destDir: nat,
                     ghost m: map<nat, Block>, ghost d: Descriptor, ghost k: nat, ghost proved: bool)
      returns (r: Outcome)
      requires Valid() && it.Valid() && it.store == store
      requires proved ==>
        var h := it.Header();
        && Synced() && destDir == it.handle && Viewing(it, file.blocks, d, k + 1)
        && LinkState(h, file.blockSize, m, file.blocks, destDir, d, src, dest, k) && k < d.firstFreeElementIndex + 2
        && e == Visible(h, m, destDir, d)[k] && NameOf(h, e) == src
      modifies file`blocks, file.pool
      ensures Valid() && it.Valid()
      ensures proved ==> Synced()
      ensures proved && r.Pass? ==> Linking(it, m, d, src, dest, k + 1)
      ensures proved && r.Fail? ==> LinkFailed(it.Header(), m, file.blocks, it.handle, d, src, dest)
    {
      ghost var h, bs, now := it.Header(), file.blockSize, file.blocks;
      if proved {
        LinkHit(h, bs, m, now, destDir, d, src, dest, k);
      }
      r := AddDescriptorToDirectory(destDir, e.descriptor, dest);
      if r.Pass? && proved {
        LinkAdded(h, bs, m, file.blocks, destDir, d, src, dest, k);
        InlineAnyBlocks(h, now, file.blocks, destDir, d, k + 1);
      }
    }

    /** The end of `link`'s loop: the iterator released, which writes nothing
        after a scan that either matched nothing or kept to the descriptor. */
    method LinkDone(it: DirectoryIterator, src: string, dest: string, ghost m: map<nat, Block>, ghost d: Descriptor,
                    ghost k: nat, ghost proved: bool)
      returns (r: Outcome)
      requires Valid() && it.Valid() && it.store == store
      requires proved ==> !it.HasNext() && Linking(it, m, d, src, dest, k)
      modifies it`current, file`blocks
      ensures Valid()
      ensures proved ==> Shaped(it.Header()) && DescriptorFits(it.Header(), d) && d.firstFreeElementIndex <= Capacity(it.Header())
      ensures proved ==> r == Pass && LinkedOver(it.Header(), file.blockSize, m, file.blocks, it.handle, d, src, dest)
    {
      if proved {
        LinkIdle(it, m, d, src, dest, k);
      }
      var released := it.Release();
      if released.Fail? {
        return Fail(released.error);
      }
      r := Pass;
    }

    /** The body of `link` past its argument check: every entry of the
        current folder named `src` linked into it again under the name
        `dest`. */
    method LinkNames(src: string, dest: string) returns (r: Outcome)
      requires Valid()
      modifies file`blocks, file.pool, algorithms`entriesInDescriptor, algorithms`entriesInBlock
      ensures Valid()
      ensures currentFolder == INVALID_DESCRIPTOR_ID || file.HeaderExcept().Err? ==> r.Fail? && file.blocks == old(file.blocks)
      ensures && Ready(file) && DescriptorPosFromBlock(file.header, currentFolder).Ok?
              && DescriptorAt(file.header, old(file.blocks), currentFolder).variant != VDirectory ==>
        r == Fail(AssertionFailed) && file.blocks == old(file.blocks)
      ensures && Ready(file) && Healthy(file.header, file.blockSize, old(file.blocks))
              && DescriptorPosFromBlock(file.header, currentFolder).Ok?
              && DescriptorAt(file.header, old(file.blocks), currentFolder).variant == VDirectory
              && Child(file.header, file.blockSize, old(file.blocks), currentFolder, src) == Err(FileSystemError)
              ==> r == Pass && file.blocks == old(file.blocks)
      ensures Ready(file) && LinkCase(file.header, file.blockSize, old(file.blocks), currentFolder, src) ==>
        LinkOutcome(file.header, file.blockSize, old(file.blocks), file.blocks, currentFolder, src, dest, r)
    {
      var got := GetDirectoryIterator(currentFolder);
      if got.Err? {
        return Fail(got.error);
      }
      r := LinkFrom(got.value, src, dest);
    }

    /** `link`'s loop over the fresh iterator `it` on the current folder. */
    method LinkFrom(it: DirectoryIterator, src: string, dest: string) returns (r: Outcome)
      requires Valid() && it.Valid() && it.store == store && it.handle == currentFolder && Synced()
      requires Ready(file) && DescriptorPosFromBlock(file.header, currentFolder).Ok?
      requires Started(it, DescriptorAt(file.header, file.blocks, currentFolder))
      modifies file`blocks, file.pool, it`index, it`offset, it`blockAddress, it`prevAddress, it`current
      ensures Valid()
      ensures && Healthy(file.header, file.blockSize, old(file.blocks))
              && DescriptorAt(file.header, old(file.blocks), currentFolder).variant == VDirectory
              && Child(file.header, file.blockSize, old(file.blocks), currentFolder, src) == Err(FileSystemError)
              ==> r == Pass && file.blocks == old(file.blocks)
      ensures LinkCase(file.header, file.blockSize, old(file.blocks), currentFolder, src) ==>
        LinkOutcome(file.header, file.blockSize, old(file.blocks), file.blocks, currentFolder, src, dest, r)
    {
      ghost var m := file.blocks;
      ghost var h := file.header;
      ghost var proved := LinkCase(h, file.blockSize, m, currentFolder, src);
      ghost var d := DescriptorAt(h, m, currentFolder);
      if proved {
        assert it.Header() == h && it.store.file.blockSize == file.blockSize;
        LinkScanStarts(it, m, src, dest);
      }
      r := LinkEach(it, src, dest, currentFolder, m, d, proved);
      if proved {
        LinkEnds(h, file.blockSize, m, file.blocks, currentFolder, src, dest, r);
      }
    }

    /** `link(args)`: every entry of the current folder named `args[0]` is
        linked into the current folder again under the name `args[1]`,
        while the iterator over the folder is still open. When no entry is
        named `args[0]` nothing is written. */
    method Link(args: seq<string>) returns (r: Outcome)
      requires Valid()
      modifies file`blocks, file.pool, algorithms`entriesInDescriptor, algorithms`entriesInBlock
      ensures Valid()
      ensures |args| < 2 ==> r == Fail(NotEnoughArguments) && file.blocks == old(file.blocks)
      ensures |args| >= 2 && (currentFolder == INVALID_DESCRIPTOR_ID || file.HeaderExcept().Err?) ==>
        r.Fail? && file.blocks == old(file.blocks)
      ensures && |args| >= 2 && Ready(file) && DescriptorPosFromBlock(file.header, currentFolder).Ok?
              && DescriptorAt(file.header, old(file.blocks), currentFolder).variant != VDirectory ==>
        r == Fail(AssertionFailed) && file.blocks == old(file.blocks)
      ensures && |args| >= 2 && Ready(file) && Healthy(file.header, file.blockSize, old(file.blocks))
              && DescriptorPosFromBlock(file.header, currentFolder).Ok?
              && DescriptorAt(file.header, old(file.blocks), currentFolder).variant == VDirectory
              && Child(file.header, file.blockSize, old(file.blocks), currentFolder, args[0]) == Err(FileSystemError)
              ==> r == Pass && file.blocks == old(file.blocks)
      ensures |args| >= 2 && Ready(file) && LinkCase(file.header, file.blockSize, old(file.blocks), currentFolder, args[0]) ==>
        LinkOutcome(file.header, file.blockSize, old(file.blocks), file.blocks, currentFolder, args[0], args[1], r)
    {
      r := CheckArgumentsCount(args, 2);
      if r.Fail? {
        return;
      }
      r := LinkNames(args[0], args[1]);
    }
  }
}
