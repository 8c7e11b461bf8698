/** Directories: the iterator over the entries of a directory and the two
    algorithms built on it, appending an entry and deleting one.

    A directory is a descriptor holding `entriesInDescriptor` entries inline
    and the address of a first overflow block; every overflow block holds
    `entriesInBlock` entries and the address of the next one. The iterator
    yields the synthetic "." and ".." entries first and then the stored
    ones. Its index and offset are unsigned 64-bit values, and the three
    positions before the first entry are -3, -2 and -1 read as unsigned
    values.

    The algorithms reach storage only through four callbacks: read an
    overflow block for update, allocate a free data block, free a block,
    and store a descriptor. */
module Directory {
  import opened Errors
  import opened Blocks
  import opened Storage
  import opened Areas

  const U64: nat := 0x1_0000_0000_0000_0000
  /** `_badPosition`: before the first step. */
  const BAD: nat := U64 - 3
  /** `_dotPosition`: at ".". */
  const DOT: nat := U64 - 2
  /** `_dotDotPosition`: at "..". */
  const DOTDOT: nat := U64 - 1

  /** `x + 1` on an unsigned 64-bit value. */
  function Inc(x: nat): (r: nat)
    requires x < U64
    ensures r < U64
    ensures r == (x + 1) % U64
  {
    if x == U64 - 1 then 0 else x + 1
  }

  /** `x - 1` on an unsigned 64-bit value: 0 wraps around to the largest. */
  function Dec(x: nat): nat {
    if x == 0 then U64 - 1 else x - 1
  }

  /* ---------------------------------------------------------------------- */
  /* The iterator's position, as a value.                                   */

  /** The block handle `_currentBlock`: none yet, or a handle opened for
      update on `address`, whose buffer holds `block`. */
  datatype Held = NoBlock | Held(address: nat, block: Block)

  /** The mutable position fields of the iterator: `_currentIndex`,
      `_currentOffsetInBlock`, `_currentBlockAddress`, `_prevBlockAddress`
      and `_currentBlock`. */
  datatype Cursor = Cursor(index: nat, offset: nat, blockAddress: nat, prevAddress: nat, held: Held)
  {
    predicate Bounded() { index < U64 && offset < U64 }
  }

  /** A new iterator: before the first step, no block. */
  const Fresh: Cursor := Cursor(BAD, BAD, HEADER_ADDRESS, HEADER_ADDRESS, NoBlock)

  /** One step of the iterator: where it is now and the file's blocks, which
      the write-back of a replaced block handle may have changed. */
  datatype Moved = Moved(cursor: Cursor, blocks: map<nat, Block>)

  /** `weInDescriptor()`: the index lies in the inline entries, or the
      iterator stands at "..". The test is on the GLOBAL index. */
  predicate WeInDescriptorAt(i: nat, eID: nat)
    ensures i == DOTDOT ==> WeInDescriptorAt(i, eID)
    ensures i == DOT && eID <= DOT ==> !WeInDescriptorAt(i, eID)
    ensures i < DOT ==> (WeInDescriptorAt(i, eID) <==> i < eID)
  {
    i < eID || i == DOTDOT
  }

  /** `currentBlockEntriesLimit()`: the capacity of the container the index
      is taken to be in. */
  function LimitAt(i: nat, eID: nat, eIB: nat): nat {
    if WeInDescriptorAt(i, eID) then eID else eIB
  }

  /** `hasNext()`: the next index is below the entry count, or is "." or "..". */
  predicate HasNextAt(i: nat, n: nat)
    requires i < U64
    ensures i == BAD || i == DOT ==> HasNextAt(i, n)
    ensures i == DOTDOT ==> (HasNextAt(i, n) <==> 0 < n)
    ensures n <= BAD && i + 1 < BAD ==> (HasNextAt(i, n) <==> i + 1 < n)
  {
    Inc(i) < n || Inc(i) == DOT || Inc(i) == DOTDOT
  }

  /** `readExtendedSegment(a)`, which is `readData(a, ReadWrite)` of the data
      area, on a valid file system with header `h` and block size `bs`: only
      a block of the data area can be read. */
  function SegmentRead(h: Header, bs: nat, m: map<nat, Block>, a: nat): (r: Result<Block>)
    ensures r.Ok? <==> InRange(h.DataBegin(), h.dataEnd, a) && ReadCheckOf(bs, a).Pass?
  {
    if !InRange(h.DataBegin(), h.dataEnd, a) then Err(InvalidArgument)
    else if ReadCheckOf(bs, a).Fail? then Err(ReadCheckOf(bs, a).error)
    else Ok(BlockOf(m, a))
  }

  /** The write-back of a handle being replaced or destroyed: a handle opened
      for update writes its buffer to its block. */
  function WriteBackOf(bs: nat, m: map<nat, Block>, held: Held): (r: Result<map<nat, Block>>)
    ensures held.NoBlock? ==> r == Ok(m)
  {
    if held.NoBlock? then Ok(m)
    else if ReadCheckOf(bs, held.address).Fail? then Err(ReadCheckOf(bs, held.address).error)
    else Ok(m[held.address := held.block])
  }

  /** Writing back a handle whose block the file already holds changes
      nothing. */
  lemma WriteBackIdle(bs: nat, m: map<nat, Block>, held: Held)
    requires held.Held? ==> ReadCheckOf(bs, held.address).Pass? && held.address in m && m[held.address] == held.block
    ensures WriteBackOf(bs, m, held) == Ok(m)
  {
    if held.Held? {
      assert m[held.address := held.block] == m;
    }
  }

  /** `currentBlockNextSegmentAddress()`: the descriptor's link when the
      index is taken to be inline, else the link of the held block (a
      missing handle fails as `data()` on an invalid handle does). */
  function NextSegmentOf(h: Header, c: Cursor, d: Descriptor, eID: nat): Result<nat> {
    if WeInDescriptorAt(c.index, eID) then Ok(d.nextDataSegment)
    else if c.held.NoBlock? then Err(InvalidArgument)
    else Ok(AsDataPart(h, c.held.block).nextSegment)
  }

  /** `operator++`: the assertion, the `hasNext` test, then either a move to
      the next container (offset 0, the previous address recorded when
      leaving an overflow block, the next block read and the old handle
      written back) or one more offset; the index always grows. */
  function Advance(h: Header, bs: nat, m: map<nat, Block>, c: Cursor, d: Descriptor, eID: nat, eIB: nat): (r: Result<Moved>)
    requires c.Bounded()
    ensures r.Ok? ==> r.value.cursor.Bounded() && r.value.cursor.index == Inc(c.index)
    ensures r.Ok? ==> HasNextAt(c.index, d.firstFreeElementIndex) && Inc(c.index) != BAD
    ensures !HasNextAt(c.index, d.firstFreeElementIndex) && Inc(c.index) != BAD ==> r == Err(OutOfRange)
    ensures r.Ok? && Inc(c.index) != LimitAt(c.index, eID, eIB) ==>
      r.value == Moved(c.(index := Inc(c.index), offset := Inc(c.offset)), m)
    ensures r.Ok? && Inc(c.index) == LimitAt(c.index, eID, eIB) ==>
      && r.value.cursor.offset == 0
      && NextSegmentOf(h, c, d, eID) == Ok(r.value.cursor.blockAddress)
      && r.value.cursor.held == Held(r.value.cursor.blockAddress, BlockOf(m, r.value.cursor.blockAddress))
      && r.value.cursor.prevAddress == (if WeInDescriptorAt(c.index, eID) then c.prevAddress else c.blockAddress)
      && WriteBackOf(bs, m, c.held) == Ok(r.value.blocks)
  {
    if Inc(c.index) == BAD then Err(AssertionFailed)
    else if !HasNextAt(c.index, d.firstFreeElementIndex) then Err(OutOfRange)
    else if Inc(c.index) == LimitAt(c.index, eID, eIB) then
      var next :- NextSegmentOf(h, c, d, eID);
      var blk :- SegmentRead(h, bs, m, next);
      var m' :- WriteBackOf(bs, m, c.held);
      var prev := if WeInDescriptorAt(c.index, eID) then c.prevAddress else c.blockAddress;
      Ok(Moved(Cursor(Inc(c.index), 0, next, prev, Held(next, blk)), m'))
    else
      Ok(Moved(c.(index := Inc(c.index), offset := Inc(c.offset)), m))
  }

  /** Steps still possible from index `i` with `n` entries: positions count
      -3, -2, -1, 0, 1, ... in that order. */
  function Rank(i: nat): nat
    requires i < U64
  {
    if i >= BAD then i - BAD else i + 3
  }

  function Remaining(i: nat, n: nat): nat
    requires i < U64
  {
    if Rank(i) <= n + 3 then n + 3 - Rank(i) else 0
  }

  /** A step that `hasNext` allows uses up one of the remaining positions. */
  lemma StepShrinks(i: nat, n: nat)
    requires i < U64 && HasNextAt(i, n) && Inc(i) != BAD
    ensures Remaining(Inc(i), n) < Remaining(i, n)
  {
  }

  /** `toLast()`: steps while `hasNext()` holds; the first failing step
      ends the walk with its error. */
  function Walk(h: Header, bs: nat, m: map<nat, Block>, c: Cursor, d: Descriptor, eID: nat, eIB: nat): (r: Result<Moved>)
    requires c.Bounded()
    ensures r.Ok? ==> r.value.cursor.Bounded() && !HasNextAt(r.value.cursor.index, d.firstFreeElementIndex)
    decreases Remaining(c.index, d.firstFreeElementIndex)
  {
    if !HasNextAt(c.index, d.firstFreeElementIndex) then Ok(Moved(c, m))
    else
      match Advance(h, bs, m, c, d, eID, eIB)
      case Err(e) => Err(e)
      case Ok(step) =>
        StepShrinks(c.index, d.firstFreeElementIndex);
        Walk(h, bs, step.blocks, step.cursor, d, eID, eIB)
  }

  /* ---------------------------------------------------------------------- */
  /* The layout the iterator walks.                                         */

  /** Capacities the iterator can work with: both containers hold entries,
      the sentinels lie beyond every index of the two first containers, and
      an entry name has room for "..". */
  predicate Shaped(h: Header) {
    && 0 < h.entriesInDirectoryDescriptor && 0 < h.entriesInDirectoryBlock
    && h.entriesInDirectoryDescriptor + h.entriesInDirectoryBlock < BAD
    && 3 <= h.filenameLength
  }

  /** Because the boundary test compares the global index with the capacity
      of one container, the iterator leaves the first overflow block at
      index `entriesInBlock` when that exceeds `entriesInDescriptor`, and
      never leaves it otherwise. Appending agrees with that walk only while
      the directory holds at most this many entries. */
  function Capacity(h: Header): nat {
    var eID, eIB := h.entriesInDirectoryDescriptor, h.entriesInDirectoryBlock;
    if eIB > eID then eIB else eID + eIB
  }

  /** The first overflow block of a directory, as read from the file. */
  function FirstSegment(h: Header, m: map<nat, Block>, d: Descriptor): DataPart {
    AsDataPart(h, BlockOf(m, d.nextDataSegment))
  }

  /** Entry `i` of a directory within its capacity: inline, or in the first
      overflow block. */
  function EntryAt(h: Header, m: map<nat, Block>, d: Descriptor, i: nat): DirEntry
    requires DescriptorFits(h, d) && i < h.entriesInDirectoryDescriptor + h.entriesInDirectoryBlock
  {
    var eID := h.entriesInDirectoryDescriptor;
    if i < eID then d.entries[i] else FirstSegment(h, m, d).entries[i - eID]
  }

  /** The entries of a directory, in the order the iterator yields them
      after "." and "..". */
  function Listing(h: Header, m: map<nat, Block>, d: Descriptor): (r: seq<DirEntry>)
    requires DescriptorFits(h, d) && d.firstFreeElementIndex <= Capacity(h)
    ensures |r| == d.firstFreeElementIndex
  {
    seq(d.firstFreeElementIndex, i requires 0 <= i < d.firstFreeElementIndex => EntryAt(h, m, d, i))
  }

  /** The overflow block a directory uses can be read. */
  predicate Readable(h: Header, bs: nat, m: map<nat, Block>, d: Descriptor) {
    d.firstFreeElementIndex > h.entriesInDirectoryDescriptor ==> SegmentRead(h, bs, m, d.nextDataSegment).Ok?
  }

  /** The iterator's position at entry `i` of a directory within its
      capacity, stepped there from a new iterator. */
  function Pos(h: Header, m: map<nat, Block>, d: Descriptor, i: nat): Cursor {
    var eID := h.entriesInDirectoryDescriptor;
    if i < eID then Cursor(i, i, HEADER_ADDRESS, HEADER_ADDRESS, NoBlock)
    else Cursor(i, i - eID, d.nextDataSegment, HEADER_ADDRESS, Held(d.nextDataSegment, BlockOf(m, d.nextDataSegment)))
  }

  /** Where `toLast()` leaves a new iterator: at ".." for an empty
      directory, else at the last entry. */
  function LastPos(h: Header, m: map<nat, Block>, d: Descriptor): Cursor {
    if d.firstFreeElementIndex == 0 then Cursor(DOTDOT, DOTDOT, HEADER_ADDRESS, HEADER_ADDRESS, NoBlock)
    else Pos(h, m, d, d.firstFreeElementIndex - 1)
  }

  /** Inside the capacity, a step from entry `i` reaches entry `i + 1` and
      writes nothing back. */
  lemma AdvanceInLayout(h: Header, bs: nat, m: map<nat, Block>, d: Descriptor, i: nat)
    requires Shaped(h) && Readable(h, bs, m, d)
    requires i + 1 < d.firstFreeElementIndex && i + 1 < Capacity(h)
    ensures Pos(h, m, d, i).Bounded()
    ensures Advance(h, bs, m, Pos(h, m, d, i), d, h.entriesInDirectoryDescriptor, h.entriesInDirectoryBlock)
            == Ok(Moved(Pos(h, m, d, i + 1), m))
  {
  }

  /** Inside the capacity, walking on from entry `i` passes entry `j`. */
  lemma {:induction false} WalkAlong(h: Header, bs: nat, m: map<nat, Block>, d: Descriptor, i: nat, j: nat)
    requires Shaped(h) && Readable(h, bs, m, d)
    requires i <= j < d.firstFreeElementIndex && j < Capacity(h)
    ensures Pos(h, m, d, i).Bounded() && Pos(h, m, d, j).Bounded()
    ensures Walk(h, bs, m, Pos(h, m, d, i), d, h.entriesInDirectoryDescriptor, h.entriesInDirectoryBlock)
            == Walk(h, bs, m, Pos(h, m, d, j), d, h.entriesInDirectoryDescriptor, h.entriesInDirectoryBlock)
    decreases j - i
  {
    if i < j {
      AdvanceInLayout(h, bs, m, d, i);
      WalkAlong(h, bs, m, d, i + 1, j);
    }
  }

  /** A new iterator steps over "." and ".." to the first entry. */
  lemma FreshReachesFirst(h: Header, bs: nat, m: map<nat, Block>, d: Descriptor)
    requires Shaped(h)
    ensures Walk(h, bs, m, Fresh, d, h.entriesInDirectoryDescriptor, h.entriesInDirectoryBlock)
            == if d.firstFreeElementIndex == 0 then Ok(Moved(LastPos(h, m, d), m))
               else Walk(h, bs, m, Pos(h, m, d, 0), d, h.entriesInDirectoryDescriptor, h.entriesInDirectoryBlock)
  {
    var eID, eIB := h.entriesInDirectoryDescriptor, h.entriesInDirectoryBlock;
    var atDot := Cursor(DOT, DOT, HEADER_ADDRESS, HEADER_ADDRESS, NoBlock);
    var atDotDot := Cursor(DOTDOT, DOTDOT, HEADER_ADDRESS, HEADER_ADDRESS, NoBlock);
    assert Advance(h, bs, m, Fresh, d, eID, eIB) == Ok(Moved(atDot, m));
    assert Walk(h, bs, m, Fresh, d, eID, eIB) == Walk(h, bs, m, atDot, d, eID, eIB);
    assert Advance(h, bs, m, atDot, d, eID, eIB) == Ok(Moved(atDotDot, m));
    assert Walk(h, bs, m, atDot, d, eID, eIB) == Walk(h, bs, m, atDotDot, d, eID, eIB);
    if d.firstFreeElementIndex > 0 {
      assert Advance(h, bs, m, atDotDot, d, eID, eIB) == Ok(Moved(Pos(h, m, d, 0), m));
    }
  }

  /** A new iterator visits ".", "..", then every entry in turn, so that
      `toLast()` leaves it at the last entry without changing the file. */
  lemma WalkFromFresh(h: Header, bs: nat, m: map<nat, Block>, d: Descriptor)
    requires Shaped(h) && d.firstFreeElementIndex <= Capacity(h) && Readable(h, bs, m, d)
    ensures Walk(h, bs, m, Fresh, d, h.entriesInDirectoryDescriptor, h.entriesInDirectoryBlock)
            == Ok(Moved(LastPos(h, m, d), m))
  {
    FreshReachesFirst(h, bs, m, d);
    var n := d.firstFreeElementIndex;
    if n > 0 {
      WalkAlong(h, bs, m, d, 0, n - 1);
    }
  }

  /** The boundary test on the global index, first consequence: when an
      overflow block holds more entries than the descriptor, the iterator
      leaves the first overflow block at index `entriesInBlock`, after only
      `entriesInBlock - entriesInDescriptor` of its entries. Appending never
      links a second block there, so a walk over a directory with more
      entries than that fails on the missing link. */
  lemma WalkPastCapacityFails(h: Header, bs: nat, m: map<nat, Block>, d: Descriptor)
    requires Shaped(h) && Readable(h, bs, m, d)
    requires h.entriesInDirectoryBlock > h.entriesInDirectoryDescriptor
    requires d.firstFreeElementIndex > h.entriesInDirectoryBlock
    requires !FirstSegment(h, m, d).IsHaveExtendedSegment()
    ensures Walk(h, bs, m, Fresh, d, h.entriesInDirectoryDescriptor, h.entriesInDirectoryBlock) == Err(InvalidArgument)
  {
    var eIB := h.entriesInDirectoryBlock;
    FreshReachesFirst(h, bs, m, d);
    WalkAlong(h, bs, m, d, 0, eIB - 1);
  }

  /** Second consequence: when an overflow block holds no more entries than
      the descriptor, the iterator never leaves the first overflow block,
      and the entry after its last one is looked for at an offset equal to
      the block's capacity. */
  lemma StepPastFirstBlock(h: Header, bs: nat, m: map<nat, Block>, d: Descriptor)
    requires Shaped(h) && Readable(h, bs, m, d)
    requires h.entriesInDirectoryBlock <= h.entriesInDirectoryDescriptor
    requires d.firstFreeElementIndex > h.entriesInDirectoryDescriptor + h.entriesInDirectoryBlock
    ensures var last := h.entriesInDirectoryDescriptor + h.entriesInDirectoryBlock - 1;
            && Pos(h, m, d, last).Bounded()
            && Advance(h, bs, m, Pos(h, m, d, last), d, h.entriesInDirectoryDescriptor, h.entriesInDirectoryBlock)
               == Ok(Moved(Pos(h, m, d, last).(index := last + 1, offset := h.entriesInDirectoryBlock), m))
            && |FirstSegment(h, m, d).entries| == h.entriesInDirectoryBlock
  {
  }

  /** Writing a whole block on a file whose header is valid passes exactly
      when reading it would. */
  lemma WriteCheckWhenValid(f: FileAccessor, a: nat)
    requires f.HeaderExcept().Ok?
    ensures f.WriteCheck(a, 0) == ReadCheckOf(f.blockSize, a)
  {
  }

  /* ---------------------------------------------------------------------- */
  /* The four callbacks, as the file system wires them.                     */

  /** The storage the directory algorithms reach: overflow blocks come from
      the data area, new blocks are allocated and freed in the bitmap, and
      descriptors are stored in the descriptor table. */
  class Callbacks {
    const file: FileAccessor
    const bitMap: BitMapArea
    const descriptors: DescriptorsArea
    const data: DataArea

    constructor (f: FileAccessor)
      ensures file == f && Wired()
    {
      file := f;
      bitMap := new BitMapArea(f);
      descriptors := new DescriptorsArea(f);
      data := new DataArea(f);
    }

    /** Every area works on the same file. */
    predicate Wired()
      reads this, bitMap, descriptors, data
    {
      bitMap.file == file && descriptors.file == file && data.file == file
    }

    ghost predicate Valid()
      reads this, bitMap, descriptors, data, file, file.pool
    {
      Wired() && file.Valid() && Sane(file)
    }

    /** `readExtendedSegment(a)`: block `a` of the data area, read for
        update. */
    method ReadExtendedSegment(a: nat) returns (r: Result<Block>)
      requires Valid()
      modifies file.pool
      ensures Valid()
      ensures file.HeaderExcept().Err? ==> r == Err(file.HeaderExcept().error)
      ensures file.HeaderExcept().Ok? ==> r == SegmentRead(file.header, file.blockSize, file.blocks, a)
    {
      var hd :- data.ReadData(a, ReadWrite);
      ReadCheckWhenValid(file, a, ReadWrite);
      var v := hd.View();
      return Ok(v.value);
    }

    /** The write-back of a block handle that is flushed or destroyed. */
    method WriteBack(held: Held) returns (r: Outcome)
      requires Valid()
      modifies file`blocks
      ensures Valid()
      ensures r.Fail? ==> file.blocks == old(file.blocks)
      ensures file.HeaderExcept().Ok? ==>
        var w := WriteBackOf(file.blockSize, old(file.blocks), held);
        && (r.Pass? <==> w.Ok?)
        && (w.Ok? ==> file.blocks == w.value)
        && (w.Err? ==> r.error == w.error)
    {
      if held.NoBlock? {
        return Pass;
      }
      if file.HeaderExcept().Ok? {
        WriteCheckWhenValid(file, held.address);
      }
      r := file.Write(held.address, Some(held.block), 0);
    }

    /** `allocNewFreeBlock()`, that is `findAndAllocateFreeDataBlock()`: the
        first free block of the data area is marked used and returned; when
        the scan finds none the allocation fails. */
    method AllocNewFreeBlock() returns (r: Result<nat>)
      requires Valid()
      modifies file`blocks, file.pool
      ensures Valid()
      ensures r.Err? ==> file.blocks == old(file.blocks)
      ensures file.HeaderExcept().Err? ==> r == Err(file.HeaderExcept().error)
      ensures file.HeaderExcept().Ok? ==>
        var h := file.header;
        var scan := FirstFreeScan(h, file.blockSize, old(file.blocks), h.DataBegin(), h.dataEnd);
        && (scan.Err? ==> r == Err(scan.error))
        && (scan == Ok(HEADER_ADDRESS) ==> r == Err(NoEnoughFsEntry))
        && (r.Ok? ==> scan == r && r.value != HEADER_ADDRESS)
      ensures r.Ok? ==> Bit(file.header, file.blocks, r.value)
      ensures r.Ok? ==> forall c: nat :: c != r.value ==> Bit(file.header, file.blocks, c) == Bit(file.header, old(file.blocks), c)
      ensures r.Ok? ==>
        var h := file.header;
        var blk := h.bitMapBegin + r.value / h.bitsInBitMapBlock;
        file.blocks == old(file.blocks)[blk := SetBitIn(h, old(file.blocks), blk, r.value % h.bitsInBitMapBlock, true)]
    {
      var h :- file.HeaderExcept();
      var freeBlock :- bitMap.FindFirstFreeBlock(h.DataBegin(), h.dataEnd);
      if freeBlock == HEADER_ADDRESS {
        return Err(NoEnoughFsEntry);
      }
      var s := bitMap.Set(freeBlock, true);
      if s.Fail? {
        return Err(s.error);
      }
      return Ok(freeBlock);
    }

    /** `deallocBlock(a)`: the bit of block `a` is cleared. */
    method DeallocBlock(a: nat) returns (r: Outcome)
      requires Valid()
      modifies file`blocks, file.pool
      ensures Valid()
      ensures r.Fail? ==> file.blocks == old(file.blocks)
      ensures a == HEADER_ADDRESS ==> r == Fail(InvalidArgument)
      ensures a != HEADER_ADDRESS && file.HeaderExcept().Ok? ==>
        var h := file.header;
        var blk := h.bitMapBegin + a / h.bitsInBitMapBlock;
        && (r.Pass? <==> ReadCheckOf(file.blockSize, blk).Pass?)
        && (r.Pass? ==> file.blocks == old(file.blocks)[blk := SetBitIn(h, old(file.blocks), blk, a % h.bitsInBitMapBlock, false)])
      ensures r.Pass? ==> file.HeaderExcept().Ok?
      ensures r.Pass? ==> !Bit(file.header, file.blocks, a)
      ensures r.Pass? ==> forall c: nat :: c != a ==> Bit(file.header, file.blocks, c) == Bit(file.header, old(file.blocks), c)
    {
      r := bitMap.Set(a, false);
    }

    /** `updateDescriptor(i, d)`: descriptor `i` is stored. */
    method UpdateDescriptor(i: nat, d: Descriptor) returns (r: Outcome)
      requires Valid()
      requires file.HeaderExcept().Ok? ==> DescriptorFits(file.header, d)
      modifies file`blocks, file.pool
      ensures Valid()
      ensures r.Fail? ==> file.blocks == old(file.blocks)
      ensures r.Pass? <==> Ready(file) && DescriptorPosFromBlock(file.header, i).Ok?
      ensures r.Pass? ==>
        var h := file.header;
        var blk := h.DescriptorsBegin() + i / h.descriptorsInBlock;
        file.blocks == old(file.blocks)[blk := WithDescriptor(h, old(file.blocks), blk, i % h.descriptorsInBlock, d)]
      ensures r.Pass? ==> DescriptorAt(file.header, file.blocks, i) == d
      ensures r.Pass? ==> forall j: nat :: j != i ==> DescriptorAt(file.header, file.blocks, j) == DescriptorAt(file.header, old(file.blocks), j)
    {
      r := descriptors.UpdateDescriptor(i, d);
    }
  }

  /* ---------------------------------------------------------------------- */
  /* A stored directory before and after an update.                         */

  /** The directories the algorithms are proved for: `d` is the stored
      descriptor `idx`, the iterator's boundary test agrees with the layout
      (at most `Capacity` entries), and the first overflow block can be read
      when it is in use. */
  predicate Stored(h: Header, bs: nat, m: map<nat, Block>, idx: nat, d: Descriptor) {
    && Shaped(h) && SaneCapacities(h)
    && DescriptorPosFromBlock(h, idx).Ok? && d == DescriptorAt(h, m, idx)
    && d.firstFreeElementIndex <= Capacity(h) && Readable(h, bs, m, d)
  }

  /** The directories appending is proved for: stored, with room for one
      more entry within `Capacity`. */
  predicate Consistent(h: Header, bs: nat, m: map<nat, Block>, idx: nat, d: Descriptor) {
    Stored(h, bs, m, idx, d) && d.firstFreeElementIndex < Capacity(h)
  }

  /** Directory `idx`, stored as `d` in `m`, is stored in `m'` with one more
      entry, `e`, at the end of its listing, its other fields as they were,
      and its overflow block still readable. */
  ghost predicate GrewBy(h: Header, bs: nat, m: map<nat, Block>, m': map<nat, Block>, idx: nat, d: Descriptor, e: DirEntry)
    requires Consistent(h, bs, m, idx, d)
  {
    var d' := DescriptorAt(h, m', idx);
    && d'.firstFreeElementIndex == d.firstFreeElementIndex + 1 && d'.firstFreeElementIndex <= Capacity(h)
    && d'.variant == d.variant && d'.referencesCount == d.referencesCount
    && d'.fileSize == d.fileSize && d'.parent == d.parent
    && DescriptorFits(h, d')
    && Listing(h, m', d') == Listing(h, m, d) + [e]
    && Readable(h, bs, m', d')
  }

  /** Directory `idx`, stored as `d` in `m`, is stored in `m'` with one entry
      fewer and listing `entries`; its other fields are as they were, except
      that the link to the overflow block is cleared when that block held
      only the last entry, and its overflow block, if still used, can be
      read. */
  ghost predicate ShrankTo(h: Header, bs: nat, m: map<nat, Block>, m': map<nat, Block>, idx: nat, d: Descriptor,
                           entries: seq<DirEntry>)
    requires Stored(h, bs, m, idx, d) && 0 < d.firstFreeElementIndex
  {
    var d' := DescriptorAt(h, m', idx);
    var n := d.firstFreeElementIndex;
    && d'.firstFreeElementIndex == n - 1
    && d'.variant == d.variant && d'.referencesCount == d.referencesCount
    && d'.fileSize == d.fileSize && d'.parent == d.parent
    && d'.nextDataSegment == (if n - 1 == h.entriesInDirectoryDescriptor then HEADER_ADDRESS else d.nextDataSegment)
    && DescriptorFits(h, d')
    && Listing(h, m', d') == entries
    && Readable(h, bs, m', d')
  }
}
