/** The directory iterator as an object, and the two algorithms built on it.

    The iterator keeps its position in mutable fields, a copy of the
    directory's descriptor, and the overflow block it stands in. Every step is
    proved to do what `Advance` in module Directory describes, and `toLast()`
    what `Walk` describes; the theorems about the walk then carry over. */
module Iterators {
  import opened Errors
  import opened Blocks
  import opened Storage
  import opened Areas
  import opened Directory

  /** "." or ".." as the constructor builds it: `set(descriptor, name, length)`
      on an entry whose name bytes are zero. */
  function DotEntry(h: Header, descriptor: nat, name: string, length: nat): DirEntry
    requires length <= h.filenameLength
  {
    DirEntry(descriptor, StoredName(ZeroEntry(h).name, name, length))
  }

  /** `currentEntryArray()`: the inline entries when the index is taken to be
      inline, else the entries of the held block. */
  function EntriesUnder(h: Header, c: Cursor, d: Descriptor, eID: nat): Result<seq<DirEntry>> {
    if WeInDescriptorAt(c.index, eID) then Ok(d.entries)
    else if c.held.NoBlock? then Err(InvalidArgument)
    else Ok(AsDataPart(h, c.held.block).entries)
  }

  /** `operator*`: a failure before the first step, the synthetic entries at
      "." and "..", else the slot at the offset in the current container. The
      source indexes past the container without a check; the model reports
      that as out of range. */
  function EntryUnder(h: Header, c: Cursor, d: Descriptor, dot: DirEntry, dotDot: DirEntry, eID: nat): Result<DirEntry> {
    if c.offset == BAD then Err(BadState)
    else if c.offset == DOT then Ok(dot)
    else if c.offset == DOTDOT then Ok(dotDot)
    else
      var entries :- EntriesUnder(h, c, d, eID);
      if c.offset < |entries| then Ok(entries[c.offset]) else Err(OutOfRange)
  }

  /** Inside the capacity, the entry under the iterator at position `i` is
      entry `i` of the listing. */
  lemma EntryUnderPos(h: Header, m: map<nat, Block>, d: Descriptor, dot: DirEntry, dotDot: DirEntry, i: nat)
    requires Shaped(h) && DescriptorFits(h, d) && d.firstFreeElementIndex <= Capacity(h)
    requires i < d.firstFreeElementIndex
    ensures EntryUnder(h, Pos(h, m, d, i), d, dot, dotDot, h.entriesInDirectoryDescriptor) == Ok(Listing(h, m, d)[i])
  {
  }

  /** The copy constructor: the index is taken from the DESCRIPTOR HANDLE, the
      other position fields are copied, and a new handle is opened on the
      current block when there is one. */
  function CopyOf(h: Header, bs: nat, m: map<nat, Block>, c: Cursor, handle: nat): (r: Result<Cursor>)
    ensures r.Ok? ==> r.value.index == handle && r.value.offset == c.offset
                      && r.value.blockAddress == c.blockAddress && r.value.prevAddress == c.prevAddress
    ensures c.blockAddress == HEADER_ADDRESS ==> r == Ok(Cursor(handle, c.offset, c.blockAddress, c.prevAddress, NoBlock))
  {
    if c.blockAddress == HEADER_ADDRESS then Ok(Cursor(handle, c.offset, c.blockAddress, c.prevAddress, NoBlock))
    else
      var blk :- SegmentRead(h, bs, m, c.blockAddress);
      Ok(Cursor(handle, c.offset, c.blockAddress, c.prevAddress, Held(c.blockAddress, blk)))
  }

  /** The position of a copy differs from the original's whenever the
      descriptor handle differs from the index: a copy of an iterator at an
      entry does not stand at that entry. */
  lemma CopyMovesIndex(h: Header, bs: nat, m: map<nat, Block>, c: Cursor, handle: nat)
    requires CopyOf(h, bs, m, c, handle).Ok? && handle != c.index
    ensures CopyOf(h, bs, m, c, handle).value.index != c.index
  {
  }

  class DirectoryIterator {
    var index: nat
    var offset: nat
    var blockAddress: nat
    var prevAddress: nat
    var current: Held
    var syncDescriptor: bool
    const handle: nat
    var data: Descriptor
    const entriesInDescriptor: nat
    const entriesInBlock: nat
    var dotEntry: DirEntry
    var dotDotEntry: DirEntry
    const store: Callbacks
    /** Whether `_updateDescriptor` stores the descriptor: the constructor
        without an update function installs one that does nothing. */
    const persists: bool

    function Position(): Cursor
      reads this
    {
      Cursor(index, offset, blockAddress, prevAddress, current)
    }

    function Header(): Header
      reads store, store.file
    {
      store.file.header
    }

    ghost predicate Valid()
      reads this, store, store.bitMap, store.descriptors, store.data, store.file, store.file.pool
    {
      && store.Valid() && store.file.HeaderExcept().Ok?
      && index < U64 && offset < U64
      && 3 <= Header().filenameLength
      && DescriptorFits(Header(), data)
      && EntryFits(Header(), dotEntry) && EntryFits(Header(), dotDotEntry)
    }

    /** The two constructors: before the first step, no block, "." naming the
        directory itself and ".." its parent. */
    constructor (store: Callbacks, handle: nat, d: Descriptor, eID: nat, eIB: nat, persists: bool)
      requires store.Valid() && store.file.HeaderExcept().Ok?
      requires 3 <= store.file.header.filenameLength && DescriptorFits(store.file.header, d)
      ensures Valid() && Position() == Fresh
      ensures this.store == store && this.handle == handle && data == d && this.persists == persists
      ensures entriesInDescriptor == eID && entriesInBlock == eIB && syncDescriptor == persists
      ensures dotEntry == DotEntry(store.file.header, handle, ".", 2)
      ensures dotDotEntry == DotEntry(store.file.header, d.parent, "..", 3)
    {
      var h := store.file.header;
      index, offset := BAD, BAD;
      blockAddress, prevAddress := HEADER_ADDRESS, HEADER_ADDRESS;
      current := NoBlock;
      syncDescriptor := persists;
      this.handle := handle;
      data := d;
      entriesInDescriptor, entriesInBlock := eID, eIB;
      this.store := store;
      this.persists := persists;
      var dot := SetEntry(ZeroEntry(h), handle, ".", 2);
      var dotDot := SetEntry(ZeroEntry(h), d.parent, "..", 3);
      dotEntry, dotDotEntry := dot.value, dotDot.value;
    }

    /** The body of the copy constructor, given the block handle it opened.
        The synthetic entries are not copied; they start as zero bytes. */
    constructor Duplicate(other: DirectoryIterator, c: Cursor, sync: bool)
      requires other.Valid() && c.Bounded()
      ensures Valid() && Position() == c
      ensures store == other.store && handle == other.handle && data == other.data && persists == other.persists
      ensures entriesInDescriptor == other.entriesInDescriptor && entriesInBlock == other.entriesInBlock
      ensures syncDescriptor == sync
      ensures dotEntry == ZeroEntry(other.Header()) && dotDotEntry == ZeroEntry(other.Header())
    {
      index, offset, blockAddress, prevAddress, current := c.index, c.offset, c.blockAddress, c.prevAddress, c.held;
      syncDescriptor := sync;
      handle := other.handle;
      data := other.data;
      entriesInDescriptor, entriesInBlock := other.entriesInDescriptor, other.entriesInBlock;
      store := other.store;
      persists := other.persists;
      dotEntry, dotDotEntry := ZeroEntry(other.Header()), ZeroEntry(other.Header());
    }

    /** The copy constructor with an explicit synchronisation flag. */
    method Copy(sync: bool) returns (r: Result<DirectoryIterator>)
      requires Valid() && handle < U64
      modifies store.file.pool
      ensures Valid()
      ensures var c := CopyOf(Header(), store.file.blockSize, store.file.blocks, Position(), handle);
              && (r.Ok? <==> c.Ok?)
              && (r.Ok? ==> fresh(r.value) && r.value.Valid() && r.value.Position() == c.value)
              && (r.Err? ==> r.error == c.error)
      ensures r.Ok? ==> r.value.store == store && r.value.handle == handle && r.value.data == data
                        && r.value.persists == persists && r.value.syncDescriptor == sync
                        && r.value.entriesInDescriptor == entriesInDescriptor && r.value.entriesInBlock == entriesInBlock
    {
      r := CopyFrom(sync, handle);
    }

    /** The copy constructor's work with the index the copy starts from: the
        source seeds it with the descriptor handle; the corrected deletion
        seeds it with the iterator's own index. */
    method CopyFrom(sync: bool, start: nat) returns (r: Result<DirectoryIterator>)
      requires Valid() && start < U64
      modifies store.file.pool
      ensures Valid()
      ensures var c := CopyOf(Header(), store.file.blockSize, store.file.blocks, Position(), start);
              && (r.Ok? <==> c.Ok?)
              && (r.Ok? ==> fresh(r.value) && r.value.Valid() && r.value.Position() == c.value)
              && (r.Err? ==> r.error == c.error)
      ensures r.Ok? ==> r.value.store == store && r.value.handle == handle && r.value.data == data
                        && r.value.persists == persists && r.value.syncDescriptor == sync
                        && r.value.entriesInDescriptor == entriesInDescriptor && r.value.entriesInBlock == entriesInBlock
    {
      var held := NoBlock;
      if blockAddress != HEADER_ADDRESS {
        var blk := store.ReadExtendedSegment(blockAddress);
        if blk.Err? {
          return Err(blk.error);
        }
        held := Held(blockAddress, blk.value);
      }
      var it := new DirectoryIterator.Duplicate(this, Cursor(start, offset, blockAddress, prevAddress, held), sync);
      return Ok(it);
    }

    /** `hasNext()`. */
    predicate HasNext()
      requires index < U64
      reads this
    {
      HasNextAt(index, data.firstFreeElementIndex)
    }

    /** `operator==`: the same index and the same directory. */
    predicate Equals(other: DirectoryIterator)
      reads this, other
      ensures other == this ==> Equals(other)
    {
      index == other.index && handle == other.handle
    }

    /** `operator!=`: the negation of `operator==`, so two iterators differ
        exactly when their indices or their directories do, and never from
        themselves. */
    predicate NotEquals(other: DirectoryIterator)
      reads this, other
      ensures NotEquals(other) <==> index != other.index || handle != other.handle
      ensures other == this ==> !NotEquals(other)
    {
      !Equals(other)
    }

    /** `operator*`. */
    function Deref(): (r: Result<DirEntry>)
      reads this, store, store.file
      ensures Position().offset == BAD ==> r == Err(BadState)
      ensures Position().offset == DOT ==> r == Ok(dotEntry)
      ensures Position().offset == DOTDOT ==> r == Ok(dotDotEntry)
      ensures r.Err? && Position().offset < BAD ==> r.error == OutOfRange || EntriesUnder(Header(), Position(), data, entriesInDescriptor).Err?
    {
      EntryUnder(Header(), Position(), data, dotEntry, dotDotEntry, entriesInDescriptor)
    }

    /** `*it = e`: the entry under the iterator is replaced, in the copy of
        the descriptor, in the held block, or in "."/".."; nothing reaches the
        file until a flush. */
    method Assign(e: DirEntry) returns (r: Outcome)
      requires Valid() && EntryFits(Header(), e)
      modifies this`data, this`current, this`dotEntry, this`dotDotEntry
      ensures Valid()
      ensures r.Pass? <==> old(Deref()).Ok?
      ensures r.Fail? ==> r.error == old(Deref()).error && unchanged(this)
      ensures r.Pass? ==> Deref() == Ok(e)
      ensures r.Pass? && offset == DOT ==> dotEntry == e && unchanged(this`data, this`current, this`dotDotEntry)
      ensures r.Pass? && offset == DOTDOT ==> dotDotEntry == e && unchanged(this`data, this`current, this`dotEntry)
      ensures r.Pass? && offset < DOT && WeInDescriptorAt(index, entriesInDescriptor) ==>
        data == old(data).(entries := old(data.entries)[offset := e]) && unchanged(this`current, this`dotEntry, this`dotDotEntry)
      ensures r.Pass? && offset < DOT && !WeInDescriptorAt(index, entriesInDescriptor) ==>
        var part := AsDataPart(Header(), old(current).block);
        && current == Held(old(current).address, DataPartData(part.(entries := part.entries[offset := e])))
        && unchanged(this`data, this`dotEntry, this`dotDotEntry)
    {
      var h := Header();
      if offset == BAD {
        return Fail(BadState);
      } else if offset == DOT {
        dotEntry := e;
      } else if offset == DOTDOT {
        dotDotEntry := e;
      } else if WeInDescriptorAt(index, entriesInDescriptor) {
        if offset >= |data.entries| {
          return Fail(OutOfRange);
        }
        data := data.(entries := data.entries[offset := e]);
      } else {
        if current.NoBlock? {
          return Fail(InvalidArgument);
        }
        var part := AsDataPart(h, current.block);
        if offset >= |part.entries| {
          return Fail(OutOfRange);
        }
        current := Held(current.address, DataPartData(part.(entries := part.entries[offset := e])));
      }
      return Pass;
    }

    /** `operator++`: one step, as `Advance` describes it. After a failure
        the position is unspecified, as it is in the source. */
    method Next() returns (r: Outcome)
      requires Valid()
      modifies this`index, this`offset, this`blockAddress, this`prevAddress, this`current
      modifies store.file`blocks, store.file.pool
      ensures Valid()
      ensures var a := Advance(Header(), store.file.blockSize, old(store.file.blocks), old(Position()), data,
                               entriesInDescriptor, entriesInBlock);
              && (r.Pass? <==> a.Ok?)
              && (r.Pass? ==> Position() == a.value.cursor && store.file.blocks == a.value.blocks)
              && (r.Fail? ==> r.error == a.error)
    {
      var h := Header();
      if Inc(index) == BAD {
        return Fail(AssertionFailed);
      }
      if !HasNext() {
        return Fail(OutOfRange);
      }
      if Inc(index) == LimitAt(index, entriesInDescriptor, entriesInBlock) {
        r := EnterNextSegment();
      } else {
        offset := Inc(offset);
        index := Inc(index);
        r := Pass;
      }
    }

    /** The step of `next()` that crosses into the next overflow block: it
        reads that block and writes the one it held back. */
    method EnterNextSegment() returns (r: Outcome)
      requires Valid() && Inc(index) != BAD && HasNext()
      requires Inc(index) == LimitAt(index, entriesInDescriptor, entriesInBlock)
      modifies this`index, this`offset, this`blockAddress, this`prevAddress, this`current
      modifies store.file`blocks, store.file.pool
      ensures Valid()
      ensures var a := Advance(Header(), store.file.blockSize, old(store.file.blocks), old(Position()), data,
                               entriesInDescriptor, entriesInBlock);
              && (r.Pass? <==> a.Ok?)
              && (r.Pass? ==> Position() == a.value.cursor && store.file.blocks == a.value.blocks)
              && (r.Fail? ==> r.error == a.error)
    {
      var h := Header();
      ghost var a := Advance(h, store.file.blockSize, store.file.blocks, Position(), data,
                             entriesInDescriptor, entriesInBlock);
      var next := NextSegmentOf(h, Position(), data, entriesInDescriptor);
      offset := 0;
      if !WeInDescriptorAt(index, entriesInDescriptor) {
        prevAddress := blockAddress;
      }
      if next.Err? {
        assert a == Err(next.error);
        return Fail(next.error);
      }
      blockAddress := next.value;
      var blk := store.ReadExtendedSegment(next.value);
      if blk.Err? {
        assert a == Err(blk.error);
        return Fail(blk.error);
      }
      // the move assignment of the new handle writes the old one back
      var w := store.WriteBack(current);
      if w.Fail? {
        assert a == Err(w.error);
        return w;
      }
      current := Held(next.value, blk.value);
      index := Inc(index);
      assert a == Ok(Moved(Position(), store.file.blocks));
      return Pass;
    }

    /** `toLast()`: steps while `hasNext()` holds, as `Walk` describes it. */
    method ToLast() returns (r: Outcome)
      requires Valid()
      modifies this`index, this`offset, this`blockAddress, this`prevAddress, this`current
      modifies store.file`blocks, store.file.pool
      ensures Valid()
      ensures var w := Walk(Header(), store.file.blockSize, old(store.file.blocks), old(Position()), data,
                            entriesInDescriptor, entriesInBlock);
              && (r.Pass? <==> w.Ok?)
              && (r.Pass? ==> Position() == w.value.cursor && store.file.blocks == w.value.blocks)
              && (r.Fail? ==> r.error == w.error)
    {
      ghost var goal := Walk(Header(), store.file.blockSize, store.file.blocks, Position(), data,
                             entriesInDescriptor, entriesInBlock);
      while HasNext()
        invariant Valid()
        invariant goal == Walk(Header(), store.file.blockSize, store.file.blocks, Position(), data,
                               entriesInDescriptor, entriesInBlock)
        decreases Remaining(index, data.firstFreeElementIndex)
      {
        ghost var before := Position();
        ghost var m := store.file.blocks;
        r := Next();
        if r.Fail? {
          return;
        }
        StepShrinks(before.index, data.firstFreeElementIndex);
      }
      return Pass;
    }

    /** `flushDesciptor()`: refused when "." or ".." has both a changed name
        and a changed descriptor; otherwise the update function runs, and it
        stores the descriptor only when it is the real one. */
    method FlushDescriptor() returns (r: Outcome)
      requires Valid()
      modifies store.file`blocks, store.file.pool
      ensures Valid()
      ensures r.Fail? ==> store.file.blocks == old(store.file.blocks)
      ensures DotsChanged() ==> r == Fail(BadState)
      ensures !DotsChanged() && !persists ==> r == Pass && store.file.blocks == old(store.file.blocks)
      ensures !DotsChanged() && persists ==>
        && (r.Pass? <==> Ready(store.file) && DescriptorPosFromBlock(Header(), handle).Ok?)
        && (r.Pass? ==> DescriptorAt(Header(), store.file.blocks, handle) == data)
        && (r.Pass? ==> forall j: nat :: j != handle ==>
              DescriptorAt(Header(), store.file.blocks, j) == DescriptorAt(Header(), old(store.file.blocks), j))
        && (r.Pass? ==>
              var h := Header();
              var blk := h.DescriptorsBegin() + handle / h.descriptorsInBlock;
              store.file.blocks == old(store.file.blocks)[blk := WithDescriptor(h, old(store.file.blocks), blk, handle % h.descriptorsInBlock, data)])
    {
      if DotsChanged() {
        return Fail(BadState);
      }
      r := CallUpdate();
    }

    /** `_updateDescriptor(_descriptorData)`: the update function stores the
        descriptor copy when it is the real one, and does nothing otherwise. */
    method CallUpdate() returns (r: Outcome)
      requires Valid()
      modifies store.file`blocks, store.file.pool
      ensures Valid()
      ensures r.Fail? ==> store.file.blocks == old(store.file.blocks)
      ensures !persists ==> r == Pass && store.file.blocks == old(store.file.blocks)
      ensures persists ==>
        && (r.Pass? <==> Ready(store.file) && DescriptorPosFromBlock(Header(), handle).Ok?)
        && (r.Pass? ==> DescriptorAt(Header(), store.file.blocks, handle) == data)
        && (r.Pass? ==> forall j: nat :: j != handle ==>
              DescriptorAt(Header(), store.file.blocks, j) == DescriptorAt(Header(), old(store.file.blocks), j))
        && (r.Pass? ==>
              var h := Header();
              var blk := h.DescriptorsBegin() + handle / h.descriptorsInBlock;
              store.file.blocks == old(store.file.blocks)[blk := WithDescriptor(h, old(store.file.blocks), blk, handle % h.descriptorsInBlock, data)])
    {
      if persists {
        r := store.UpdateDescriptor(handle, data);
      } else {
        r := Pass;
      }
    }

    /** `currentEntryArray()[k] = e`. The source writes past the container
        without a check; the model reports that as out of range. */
    method SetInCurrentArray(k: nat, e: DirEntry) returns (r: Outcome)
      requires Valid() && EntryFits(Header(), e)
      modifies this`data, this`current
      ensures Valid()
      ensures r.Pass? <==> EntriesUnder(Header(), old(Position()), old(data), entriesInDescriptor).Ok?
                           && k < |EntriesUnder(Header(), old(Position()), old(data), entriesInDescriptor).value|
      ensures r.Fail? ==> unchanged(this)
      ensures r.Pass? && WeInDescriptorAt(index, entriesInDescriptor) ==>
        data == old(data).(entries := old(data.entries)[k := e]) && current == old(current)
      ensures r.Pass? && !WeInDescriptorAt(index, entriesInDescriptor) ==>
        var part := AsDataPart(Header(), old(current).block);
        && current == Held(old(current).address, DataPartData(part.(entries := part.entries[k := e])))
        && data == old(data)
    {
      if WeInDescriptorAt(index, entriesInDescriptor) {
        if k >= |data.entries| {
          return Fail(OutOfRange);
        }
        data := data.(entries := data.entries[k := e]);
        return Pass;
      }
      if current.NoBlock? {
        return Fail(InvalidArgument);
      }
      var part := AsDataPart(Header(), current.block);
      if k >= |part.entries| {
        return Fail(OutOfRange);
      }
      current := Held(current.address, DataPartData(part.(entries := part.entries[k := e])));
      return Pass;
    }

    /** The test of `flushDesciptor()`: "." (or "..") has BOTH another name and
        another descriptor. */
    predicate DotsChanged()
      requires 3 <= |dotEntry.name| && 3 <= |dotDotEntry.name|
      reads this
    {
      || (EntryName(dotEntry, 2) != "." && dotEntry.descriptor != handle)
      || (EntryName(dotDotEntry, 3) != ".." && dotDotEntry.descriptor != data.parent)
    }

    /** `flush()`: the descriptor, then the held block. */
    method Flush() returns (r: Outcome)
      requires Valid()
      modifies store.file`blocks, store.file.pool
      ensures Valid()
      ensures r.Pass? ==> !DotsChanged()
      ensures DotsChanged() ==> r == Fail(BadState) && store.file.blocks == old(store.file.blocks)
      ensures && !DotsChanged() && (persists ==> Ready(store.file) && DescriptorPosFromBlock(Header(), handle).Ok?)
              && (current.Held? ==> ReadCheckOf(store.file.blockSize, current.address).Pass?)
              ==> r.Pass?
      ensures r.Pass? ==>
        var m1 := FlushedDescriptor(old(store.file.blocks));
        var w := WriteBackOf(store.file.blockSize, m1, current);
        w.Ok? && store.file.blocks == w.value
    {
      r := FlushDescriptor();
      if r.Fail? {
        return;
      }
      ghost var m1 := store.file.blocks;
      assert m1 == FlushedDescriptor(old(store.file.blocks));
      r := store.WriteBack(current);
    }

    /** The blocks after a successful `flushDesciptor()`. */
    ghost function FlushedDescriptor(m: map<nat, Block>): map<nat, Block>
      requires Header().descriptorsInBlock > 0
      reads this, store, store.file
    {
      var h := Header();
      var blk := h.DescriptorsBegin() + handle / h.descriptorsInBlock;
      if persists then m[blk := WithDescriptor(h, m, blk, handle % h.descriptorsInBlock, data)] else m
    }

    /** The destructor: the held block handle writes its buffer back. */
    method Release() returns (r: Outcome)
      requires Valid()
      modifies this`current, store.file`blocks
      ensures Valid() && current == NoBlock
      ensures var w := WriteBackOf(store.file.blockSize, old(store.file.blocks), old(current));
              && (r.Pass? <==> w.Ok?)
              && (r.Pass? ==> store.file.blocks == w.value)
              && (r.Fail? ==> r.error == w.error && store.file.blocks == old(store.file.blocks))
    {
      r := store.WriteBack(current);
      current := NoBlock;
    }

    /** `setNextAddressInCurrentContainer(a)`: the link of the descriptor
        copy when the index is taken to be inline, else of the held block. */
    method SetNextAddressInCurrentContainer(a: nat) returns (r: Outcome)
      requires Valid()
      modifies this`data, this`current
      ensures Valid()
      ensures WeInDescriptorAt(index, entriesInDescriptor) ==>
        r == Pass && data == old(data).(nextDataSegment := a) && current == old(current)
      ensures !WeInDescriptorAt(index, entriesInDescriptor) && old(current).NoBlock? ==>
        r == Fail(InvalidArgument) && unchanged(this)
      ensures !WeInDescriptorAt(index, entriesInDescriptor) && old(current).Held? ==>
        && r == Pass && data == old(data)
        && current == Held(old(current).address, DataPartData(AsDataPart(Header(), old(current).block).(nextSegment := a)))
    {
      if WeInDescriptorAt(index, entriesInDescriptor) {
        data := data.(nextDataSegment := a);
        return Pass;
      }
      if current.NoBlock? {
        return Fail(InvalidArgument);
      }
      current := Held(current.address, DataPartData(AsDataPart(Header(), current.block).(nextSegment := a)));
      return Pass;
    }
  }

  /* ---------------------------------------------------------------------- */
  /* Appending an entry.                                                    */

  
  
  /** An entry stored in the next inline slot extends the listing by it. */
  lemma ListingGrowsInline(h: Header, m: map<nat, Block>, m': map<nat, Block>, d: Descriptor, d': Descriptor, e: DirEntry)
    requires Shaped(h) && DescriptorFits(h, d) && d.firstFreeElementIndex < h.entriesInDirectoryDescriptor
    requires d' == d.(entries := d.entries[d.firstFreeElementIndex := e], firstFreeElementIndex := d.firstFreeElementIndex + 1)
    ensures DescriptorFits(h, d') ==> Listing(h, m', d') == Listing(h, m, d) + [e]
  {
    if DescriptorFits(h, d') {
      assert Listing(h, m', d') == Listing(h, m, d) + [e] by {
        forall i | 0 <= i < d'.firstFreeElementIndex
          ensures Listing(h, m', d')[i] == (Listing(h, m, d) + [e])[i]
        {
        }
      }
    }
  }

  /** An entry stored in the next slot of the first overflow block extends
      the listing by it. */
  lemma ListingGrowsInBlock(h: Header, m: map<nat, Block>, m': map<nat, Block>, d: Descriptor, d': Descriptor, e: DirEntry)
    requires Shaped(h) && DescriptorFits(h, d) && EntryFits(h, e)
    requires h.entriesInDirectoryDescriptor < d.firstFreeElementIndex < Capacity(h)
    requires d' == d.(firstFreeElementIndex := d.firstFreeElementIndex + 1)
    requires var part := FirstSegment(h, m, d);
             BlockOf(m', d.nextDataSegment)
             == DataPartData(part.(entries := part.entries[d.firstFreeElementIndex - h.entriesInDirectoryDescriptor := e]))
    ensures Listing(h, m', d') == Listing(h, m, d) + [e]
  {
    var part := FirstSegment(h, m, d);
    var k := d.firstFreeElementIndex - h.entriesInDirectoryDescriptor;
    var part' := part.(entries := part.entries[k := e]);
    assert DataPartFits(h, part');
    assert FirstSegment(h, m', d') == part';
    forall i | 0 <= i < d'.firstFreeElementIndex
      ensures Listing(h, m', d')[i] == (Listing(h, m, d) + [e])[i]
    {
    }
  }

  /** An entry stored in slot 0 of a new block linked from the descriptor
      extends the listing by it. */
  lemma ListingGrowsNewBlock(h: Header, m: map<nat, Block>, m': map<nat, Block>, d: Descriptor, d': Descriptor, e: DirEntry, a: nat)
    requires Shaped(h) && DescriptorFits(h, d) && EntryFits(h, e)
    requires d.firstFreeElementIndex == h.entriesInDirectoryDescriptor
    requires d' == d.(nextDataSegment := a, firstFreeElementIndex := d.firstFreeElementIndex + 1)
    requires var part := InitDataPart(h);
             BlockOf(m', a) == DataPartData(part.(entries := part.entries[0 := e]))
    ensures d'.firstFreeElementIndex <= Capacity(h)
    ensures Listing(h, m', d') == Listing(h, m, d) + [e]
  {
    var part := InitDataPart(h);
    var part' := part.(entries := part.entries[0 := e]);
    assert DataPartFits(h, part');
    assert FirstSegment(h, m', d') == part';
    forall i | 0 <= i < d'.firstFreeElementIndex
      ensures Listing(h, m', d')[i] == (Listing(h, m, d) + [e])[i]
    {
    }
  }

  /** The last steps of `appendToEnd` on a consistent directory: the
      descriptor with one more entry is stored, then the held block is
      written back (by the flush and again by the destructor). */
  lemma AppendedListing(h: Header, bs: nat, m: map<nat, Block>, mX: map<nat, Block>, m': map<nat, Block>,
                        idx: nat, d: Descriptor, d1: Descriptor, d2: Descriptor, cur: Held, e: DirEntry, a: nat)
    requires Consistent(h, bs, m, idx, d) && EntryFits(h, e)
    requires d2 == d1.(firstFreeElementIndex := d1.firstFreeElementIndex + 1) && DescriptorFits(h, d2)
    requires BranchDone(h, bs, m, mX, d, d1, cur, e, a)
    requires var blk := h.DescriptorsBegin() + idx / h.descriptorsInBlock;
             var m1 := mX[blk := WithDescriptor(h, mX, blk, idx % h.descriptorsInBlock, d2)];
             var m3 := WriteBackOf(bs, m1, cur);
             && m3.Ok? && WriteBackOf(bs, m3.value, cur) == Ok(m')
    ensures DescriptorAt(h, m', idx) == d2
    ensures GrewBy(h, bs, m, m', idx, d, e)
  {
    var n := d.firstFreeElementIndex;
    var eID := h.entriesInDirectoryDescriptor;
    if n < eID {
      AppendedInline(h, bs, m, mX, m', idx, d, d1, d2, cur, e, a);
    } else if n > eID {
      AppendedInBlock(h, bs, m, mX, m', idx, d, d1, d2, cur, e, a);
    } else {
      AppendedNewBlock(h, bs, m, mX, m', idx, d, d1, d2, cur, e, a);
    }
  }

  /** `AppendedListing` when the new entry is inline. */
  lemma AppendedInline(h: Header, bs: nat, m: map<nat, Block>, mX: map<nat, Block>, m': map<nat, Block>,
                       idx: nat, d: Descriptor, d1: Descriptor, d2: Descriptor, cur: Held, e: DirEntry, a: nat)
    requires Consistent(h, bs, m, idx, d) && EntryFits(h, e)
    requires d2 == d1.(firstFreeElementIndex := d1.firstFreeElementIndex + 1) && DescriptorFits(h, d2)
    requires BranchDone(h, bs, m, mX, d, d1, cur, e, a)
    requires var blk := h.DescriptorsBegin() + idx / h.descriptorsInBlock;
             var m1 := mX[blk := WithDescriptor(h, mX, blk, idx % h.descriptorsInBlock, d2)];
             var m3 := WriteBackOf(bs, m1, cur);
             && m3.Ok? && WriteBackOf(bs, m3.value, cur) == Ok(m')
    requires d.firstFreeElementIndex < h.entriesInDirectoryDescriptor
    ensures DescriptorAt(h, m', idx) == d2
    ensures GrewBy(h, bs, m, m', idx, d, e)
  {
    var blk := h.DescriptorsBegin() + idx / h.descriptorsInBlock;
    var m1 := mX[blk := WithDescriptor(h, mX, blk, idx % h.descriptorsInBlock, d2)];
    WithDescriptorChangesOnlyIt(h, mX, idx, d2, idx);
    assert m' == m1;
    ListingGrowsInline(h, m, m', d, d2, e);
  }

  /** `AppendedListing` when the new entry goes in the overflow block. */
  lemma AppendedInBlock(h: Header, bs: nat, m: map<nat, Block>, mX: map<nat, Block>, m': map<nat, Block>,
                        idx: nat, d: Descriptor, d1: Descriptor, d2: Descriptor, cur: Held, e: DirEntry, a: nat)
    requires Consistent(h, bs, m, idx, d) && EntryFits(h, e)
    requires d2 == d1.(firstFreeElementIndex := d1.firstFreeElementIndex + 1) && DescriptorFits(h, d2)
    requires BranchDone(h, bs, m, mX, d, d1, cur, e, a)
    requires var blk := h.DescriptorsBegin() + idx / h.descriptorsInBlock;
             var m1 := mX[blk := WithDescriptor(h, mX, blk, idx % h.descriptorsInBlock, d2)];
             var m3 := WriteBackOf(bs, m1, cur);
             && m3.Ok? && WriteBackOf(bs, m3.value, cur) == Ok(m')
    requires d.firstFreeElementIndex > h.entriesInDirectoryDescriptor
    ensures DescriptorAt(h, m', idx) == d2
    ensures GrewBy(h, bs, m, m', idx, d, e)
  {
    var blk := h.DescriptorsBegin() + idx / h.descriptorsInBlock;
    var m1 := mX[blk := WithDescriptor(h, mX, blk, idx % h.descriptorsInBlock, d2)];
    WithDescriptorChangesOnlyIt(h, mX, idx, d2, idx);
    assert SegmentRead(h, bs, m, d.nextDataSegment).Ok?;
    assert blk != d.nextDataSegment;
    assert m' == m1[d.nextDataSegment := cur.block];
    ListingGrowsInBlock(h, m, m', d, d2, e);
  }

  /** `AppendedListing` when the new entry opens a new overflow block. */
  lemma AppendedNewBlock(h: Header, bs: nat, m: map<nat, Block>, mX: map<nat, Block>, m': map<nat, Block>,
                         idx: nat, d: Descriptor, d1: Descriptor, d2: Descriptor, cur: Held, e: DirEntry, a: nat)
    requires Consistent(h, bs, m, idx, d) && EntryFits(h, e)
    requires d2 == d1.(firstFreeElementIndex := d1.firstFreeElementIndex + 1) && DescriptorFits(h, d2)
    requires BranchDone(h, bs, m, mX, d, d1, cur, e, a)
    requires var blk := h.DescriptorsBegin() + idx / h.descriptorsInBlock;
             var m1 := mX[blk := WithDescriptor(h, mX, blk, idx % h.descriptorsInBlock, d2)];
             var m3 := WriteBackOf(bs, m1, cur);
             && m3.Ok? && WriteBackOf(bs, m3.value, cur) == Ok(m')
    requires d.firstFreeElementIndex == h.entriesInDirectoryDescriptor
    ensures DescriptorAt(h, m', idx) == d2
    ensures GrewBy(h, bs, m, m', idx, d, e)
  {
    var blk := h.DescriptorsBegin() + idx / h.descriptorsInBlock;
    var m1 := mX[blk := WithDescriptor(h, mX, blk, idx % h.descriptorsInBlock, d2)];
    WithDescriptorChangesOnlyIt(h, mX, idx, d2, idx);
    assert m' == m1;
    assert blk != a;
    assert BlockOf(m', a) == BlockOf(mX, a);
    ListingGrowsNewBlock(h, m, m', d, d2, e, a);
  }

  /** What the branch of `appendToEnd` leaves on a consistent directory with
      `n` entries: the descriptor copy `d1` and the held block `cur`, and
      the blocks `mX`. */
  ghost predicate BranchDone(h: Header, bs: nat, m: map<nat, Block>, mX: map<nat, Block>, d: Descriptor, d1: Descriptor,
                             cur: Held, e: DirEntry, a: nat)
    requires Shaped(h) && DescriptorFits(h, d)
  {
    var n := d.firstFreeElementIndex;
    var eID := h.entriesInDirectoryDescriptor;
    && (n < eID ==> d1 == d.(entries := d.entries[n := e]) && cur == NoBlock)
    && (n > eID ==>
          var part := FirstSegment(h, m, d);
          && d1 == d && n - eID < |part.entries|
          && cur == Held(d.nextDataSegment, DataPartData(part.(entries := part.entries[n - eID := e]))))
    && (n == eID ==>
          var part := InitDataPart(h);
          && d1 == d.(nextDataSegment := a) && cur == NoBlock
          && SegmentRead(h, bs, mX, a).Ok?
          && BlockOf(mX, a) == DataPartData(part.(entries := part.entries[0 := e])))
  }

  
  /* ---------------------------------------------------------------------- */
  /* Deleting an entry.                                                     */

  /** The listing deleting entry `i` is meant to leave: the last entry takes
      slot `i` and the last slot goes. */
  function Swapped<T>(s: seq<T>, i: nat): (r: seq<T>)
    requires i < |s|
    ensures |r| == |s| - 1
  {
    s[i := s[|s| - 1]][..|s| - 1]
  }

  /** Exactly one occurrence of entry `i` leaves the listing; every other
      entry stays, the last one in slot `i`. */
  lemma {:induction false} SwappedRemovesOne<T>(s: seq<T>, i: nat)
    requires i < |s|
    ensures multiset(Swapped(s, i)) + multiset{s[i]} == multiset(s)
    ensures forall k :: 0 <= k < |s| - 1 && k != i ==> Swapped(s, i)[k] == s[k]
    ensures i < |s| - 1 ==> Swapped(s, i)[i] == s[|s| - 1]
  {
    var n := |s|;
    var front := s[..n - 1];
    assert s == front + [s[n - 1]];
    if i < n - 1 {
      assert Swapped(s, i) == front[i := s[n - 1]];
      assert front == front[..i] + [s[i]] + front[i + 1..];
      assert front[i := s[n - 1]] == front[..i] + [s[n - 1]] + front[i + 1..];
    } else {
      assert Swapped(s, i) == front;
    }
  }

  /** Whatever the iterator stands on, a successful dereference gives an
      entry of the stored width. */
  lemma EntryUnderFits(h: Header, c: Cursor, d: Descriptor, dot: DirEntry, dotDot: DirEntry, eID: nat)
    requires DescriptorFits(h, d) && EntryFits(h, dot) && EntryFits(h, dotDot)
    ensures EntryUnder(h, c, d, dot, dotDot, eID).Ok? ==> EntryFits(h, EntryUnder(h, c, d, dot, dotDot, eID).value)
  {
  }

  /** A copy that keeps the index of an iterator at entry `i` stands where it
      stands. */
  lemma CopyAtPos(h: Header, bs: nat, m: map<nat, Block>, d: Descriptor, i: nat)
    requires Shaped(h) && Readable(h, bs, m, d) && i < d.firstFreeElementIndex
    ensures CopyOf(h, bs, m, Pos(h, m, d, i), i) == Ok(Pos(h, m, d, i))
  {
  }

  /** From entry `i`, `toLast()` reaches the last entry and writes nothing. */
  lemma WalkToLast(h: Header, bs: nat, m: map<nat, Block>, d: Descriptor, i: nat)
    requires Shaped(h) && Readable(h, bs, m, d)
    requires i < d.firstFreeElementIndex <= Capacity(h)
    ensures Pos(h, m, d, i).Bounded()
    ensures Walk(h, bs, m, Pos(h, m, d, i), d, h.entriesInDirectoryDescriptor, h.entriesInDirectoryBlock)
            == Ok(Moved(Pos(h, m, d, d.firstFreeElementIndex - 1), m))
  {
    WalkAlong(h, bs, m, d, i, d.firstFreeElementIndex - 1);
  }

  /** The copy as written, of an iterator at inline entry `i` of a directory
      whose own index is inline too and at least the index of its last
      entry: it starts at that index, cannot step, and reads entry `i`
      back. */
  lemma CopyStaysPut(h: Header, bs: nat, m: map<nat, Block>, d: Descriptor, dot: DirEntry, dotDot: DirEntry, idx: nat, i: nat)
    requires Shaped(h) && DescriptorFits(h, d)
    requires i < h.entriesInDirectoryDescriptor && idx < h.entriesInDirectoryDescriptor
    requires i < d.firstFreeElementIndex <= idx + 1
    ensures var c := Cursor(idx, i, HEADER_ADDRESS, HEADER_ADDRESS, NoBlock);
            && c.Bounded()
            && CopyOf(h, bs, m, Pos(h, m, d, i), idx) == Ok(c)
            && Walk(h, bs, m, c, d, h.entriesInDirectoryDescriptor, h.entriesInDirectoryBlock) == Ok(Moved(c, m))
            && EntryUnder(h, c, d, dot, dotDot, h.entriesInDirectoryDescriptor) == Ok(d.entries[i])
  {
  }

  
  /** The listing after the last entry `e` has replaced entry `i`, in the
      descriptor or in the first overflow block, and the count has dropped
      by one. */
  lemma ListingAfterDelete(h: Header, m: map<nat, Block>, m': map<nat, Block>, d: Descriptor, d3: Descriptor, i: nat)
    requires Shaped(h) && DescriptorFits(h, d) && d.firstFreeElementIndex <= Capacity(h) && i < d.firstFreeElementIndex
    requires var n := d.firstFreeElementIndex;
             var eID := h.entriesInDirectoryDescriptor;
             var e := Listing(h, m, d)[n - 1];
             var part := FirstSegment(h, m, d);
             && d3.firstFreeElementIndex == n - 1
             && d3.entries == (if i < eID then d.entries[i := e] else d.entries)
             && (n - 1 > eID ==>
                   d3.nextDataSegment == d.nextDataSegment
                   && FirstSegment(h, m', d3) == if i < eID then part else part.(entries := part.entries[i - eID := e]))
    ensures DescriptorFits(h, d3)
    ensures Listing(h, m', d3) == Swapped(Listing(h, m, d), i)
  {
    var n := d.firstFreeElementIndex;
    var L := Listing(h, m, d);
    assert EntryFits(h, L[n - 1]);
    SwappedRemovesOne(L, i);
    forall k | 0 <= k < n - 1
      ensures Listing(h, m', d3)[k] == Swapped(L, i)[k]
    {
    }
  }

  /** The last entry `e` of stored directory `idx` has been assigned under
      an iterator at entry `i`: in the descriptor copy `d1` when the entry is
      inline, else in the copy `cur1` of the first overflow block. */
  ghost predicate AssignedLast(h: Header, bs: nat, m: map<nat, Block>, idx: nat, d: Descriptor, i: nat,
                               d1: Descriptor, cur1: Held)
  {
    && Stored(h, bs, m, idx, d) && Covered(h) && bs != 0 && i < d.firstFreeElementIndex
    && var n := d.firstFreeElementIndex;
       var eID := h.entriesInDirectoryDescriptor;
       var e := Listing(h, m, d)[n - 1];
       var part := FirstSegment(h, m, d);
       && (i < eID ==> d1 == d.(entries := d.entries[i := e]) && cur1 == NoBlock)
       && (i >= eID ==> d1 == d && cur1 == Held(d.nextDataSegment, DataPartData(part.(entries := part.entries[i - eID := e]))))
  }

  /** The emptied-block step of `deleteEntry`: when the last entry of `d` is
      alone in its overflow block, the block's bit is cleared (`m1`) and the
      link in the descriptor copy is cleared (`d2`); otherwise nothing
      changes. */
  ghost predicate UnlinkedAs(h: Header, m: map<nat, Block>, d: Descriptor, d1: Descriptor, m1: map<nat, Block>, d2: Descriptor)
    requires h.bitsInBitMapBlock > 0
  {
    var a := d.nextDataSegment;
    var bit := h.bitMapBegin + a / h.bitsInBitMapBlock;
    if d.firstFreeElementIndex - 1 == h.entriesInDirectoryDescriptor then
      m1 == m[bit := SetBitIn(h, m, bit, a % h.bitsInBitMapBlock, false)] && d2 == d1.(nextDataSegment := HEADER_ADDRESS)
    else
      m1 == m && d2 == d1
  }

  /** The copy's block `held` is written back to `m1`, then descriptor `idx`
      is stored as `d3` and the iterator's block `cur1` written back, giving
      `m'`. */
  ghost predicate WrittenBack(h: Header, bs: nat, m1: map<nat, Block>, held: Held, idx: nat, d3: Descriptor, cur1: Held,
                              m': map<nat, Block>)
    requires h.descriptorsInBlock > 0
  {
    var m2 := WriteBackOf(bs, m1, held);
    var blk := h.DescriptorsBegin() + idx / h.descriptorsInBlock;
    && m2.Ok?
    && WriteBackOf(bs, m2.value[blk := WithDescriptor(h, m2.value, blk, idx % h.descriptorsInBlock, d3)], cur1) == Ok(m')
  }

  /** The steps of the corrected `deleteEntry` on a stored directory whose
      iterator stands at entry `i`: the last entry is assigned (`d1`,
      `cur1`), the emptied block freed and unlinked (`m1`, `d2`), the count
      lowered, the copy released and the iterator flushed (`m'`). */
  lemma DeletedAsIntended(h: Header, bs: nat, m: map<nat, Block>, m1: map<nat, Block>, m': map<nat, Block>,
                          idx: nat, d: Descriptor, i: nat, d1: Descriptor, cur1: Held, d2: Descriptor)
    requires AssignedLast(h, bs, m, idx, d, i, d1, cur1)
    requires UnlinkedAs(h, m, d, d1, m1, d2)
    requires WrittenBack(h, bs, m1, Pos(h, m, d, d.firstFreeElementIndex - 1).held, idx,
                         d2.(firstFreeElementIndex := d.firstFreeElementIndex - 1), cur1, m')
    ensures ShrankTo(h, bs, m, m', idx, d, Swapped(Listing(h, m, d), i))
    ensures d.firstFreeElementIndex - 1 == h.entriesInDirectoryDescriptor ==> !Bit(h, m', d.nextDataSegment)
  {
    var n := d.firstFreeElementIndex;
    var d3 := d2.(firstFreeElementIndex := n - 1);
    AssignedLastFits(h, bs, m, idx, d, i, d1, cur1);
    StoredAcrossWriteBack(h, bs, WriteBackOf(bs, m1, Pos(h, m, d, n - 1).held).value, idx, d3, cur1, m');
    if n - 1 > h.entriesInDirectoryDescriptor {
      DeleteKeepsSegment(h, bs, m, m1, m', idx, d, i, d1, cur1, d2);
    } else if n - 1 == h.entriesInDirectoryDescriptor {
      DeleteFreesSegment(h, bs, m, m1, m', idx, d, i, d1, cur1, d2);
    }
    ListingAfterDelete(h, m, m', d, d3, i);
  }

  /** The copies `deleteEntry` assigns the last entry in: the descriptor
      copy still fits the layout, and a held block lies in the data area. */
  lemma AssignedLastFits(h: Header, bs: nat, m: map<nat, Block>, idx: nat, d: Descriptor, i: nat,
                         d1: Descriptor, cur1: Held)
    requires AssignedLast(h, bs, m, idx, d, i, d1, cur1)
    ensures DescriptorFits(h, d1)
    ensures cur1.Held? ==> cur1.address > h.descriptorsEnd
  {
    assert EntryFits(h, Listing(h, m, d)[d.firstFreeElementIndex - 1]);
    if cur1.Held? {
      assert InRange(h.DataBegin(), h.dataEnd, d.nextDataSegment);
    }
  }

  /** A descriptor stored and then followed by the write-back of a data
      block reads back as stored. */
  lemma StoredAcrossWriteBack(h: Header, bs: nat, m2: map<nat, Block>, idx: nat, d3: Descriptor, cur1: Held,
                              m': map<nat, Block>)
    requires h.descriptorsInBlock > 0 && DescriptorFits(h, d3) && DescriptorPosFromBlock(h, idx).Ok?
    requires cur1.Held? ==> cur1.address > h.descriptorsEnd
    requires var blk := h.DescriptorsBegin() + idx / h.descriptorsInBlock;
             WriteBackOf(bs, m2[blk := WithDescriptor(h, m2, blk, idx % h.descriptorsInBlock, d3)], cur1) == Ok(m')
    ensures DescriptorAt(h, m', idx) == d3
  {
    var blk := h.DescriptorsBegin() + idx / h.descriptorsInBlock;
    var m3 := m2[blk := WithDescriptor(h, m2, blk, idx % h.descriptorsInBlock, d3)];
    WithDescriptorChangesOnlyIt(h, m2, idx, d3, idx);
    assert DescriptorsIn(h, m', blk) == DescriptorsIn(h, m3, blk);
  }

  /** The overflow block after the corrected `deleteEntry`, when it still
      holds entries: it holds what the iterator's copy held. */
  lemma DeleteKeepsSegment(h: Header, bs: nat, m: map<nat, Block>, m1: map<nat, Block>, m': map<nat, Block>,
                           idx: nat, d: Descriptor, i: nat, d1: Descriptor, cur1: Held, d2: Descriptor)
    requires AssignedLast(h, bs, m, idx, d, i, d1, cur1)
    requires UnlinkedAs(h, m, d, d1, m1, d2)
    requires WrittenBack(h, bs, m1, Pos(h, m, d, d.firstFreeElementIndex - 1).held, idx,
                         d2.(firstFreeElementIndex := d.firstFreeElementIndex - 1), cur1, m')
    requires d.firstFreeElementIndex - 1 > h.entriesInDirectoryDescriptor
    ensures var eID := h.entriesInDirectoryDescriptor;
            var e := Listing(h, m, d)[d.firstFreeElementIndex - 1];
            var part := FirstSegment(h, m, d);
            FirstSegment(h, m', d) == if i < eID then part else part.(entries := part.entries[i - eID := e])
  {
    var eID := h.entriesInDirectoryDescriptor;
    var e := Listing(h, m, d)[d.firstFreeElementIndex - 1];
    var part := FirstSegment(h, m, d);
    var a := d.nextDataSegment;
    assert InRange(h.DataBegin(), h.dataEnd, a);
    if i < eID {
      assert BlockOf(m', a) == BlockOf(m, a);
    } else {
      var part' := part.(entries := part.entries[i - eID := e]);
      assert DataPartFits(h, part');
      assert BlockOf(m', a) == DataPartData(part');
    }
  }

  /** The overflow block after the corrected `deleteEntry`, when it held
      only the last entry: its bit is clear. */
  lemma DeleteFreesSegment(h: Header, bs: nat, m: map<nat, Block>, m1: map<nat, Block>, m': map<nat, Block>,
                           idx: nat, d: Descriptor, i: nat, d1: Descriptor, cur1: Held, d2: Descriptor)
    requires AssignedLast(h, bs, m, idx, d, i, d1, cur1)
    requires UnlinkedAs(h, m, d, d1, m1, d2)
    requires WrittenBack(h, bs, m1, Pos(h, m, d, d.firstFreeElementIndex - 1).held, idx,
                         d2.(firstFreeElementIndex := d.firstFreeElementIndex - 1), cur1, m')
    requires d.firstFreeElementIndex - 1 == h.entriesInDirectoryDescriptor
    ensures !Bit(h, m', d.nextDataSegment)
  {
    var a := d.nextDataSegment;
    var bit := h.bitMapBegin + a / h.bitsInBitMapBlock;
    assert InRange(h.DataBegin(), h.dataEnd, a);
    BitBlockInBitMap(h, a);
    SetBitChangesOnlyThat(h, m, a, false);
    assert BlockOf(m', bit) == BlockOf(m1, bit);
  }

  /** The steps of `deleteEntry` as written, in the case the copy cannot
      step: entry `i` is assigned to itself, the count is lowered, and the
      iterator is flushed. */
  lemma DeletedAsWritten(h: Header, bs: nat, m: map<nat, Block>, m': map<nat, Block>, idx: nat, d: Descriptor, i: nat)
    requires Stored(h, bs, m, idx, d) && bs != 0
    requires i < h.entriesInDirectoryDescriptor && i < d.firstFreeElementIndex <= h.entriesInDirectoryDescriptor
    requires var d3 := d.(entries := d.entries[i := d.entries[i]], firstFreeElementIndex := d.firstFreeElementIndex - 1);
             var blk := h.DescriptorsBegin() + idx / h.descriptorsInBlock;
             m' == m[blk := WithDescriptor(h, m, blk, idx % h.descriptorsInBlock, d3)]
    ensures ShrankTo(h, bs, m, m', idx, d, Listing(h, m, d)[..d.firstFreeElementIndex - 1])
  {
    var d3 := d.(firstFreeElementIndex := d.firstFreeElementIndex - 1);
    assert d.entries[i := d.entries[i]] == d.entries;
    WithDescriptorChangesOnlyIt(h, m, idx, d3, idx);
  }

  /** The end of `deleteEntry` as written: descriptor `idx` is stored as `d3`
      and the iterator's block `cur1` written back (the flush), and then the
      copy's block `held` is written back over the result (its destructor). */
  ghost predicate FlushedThenReleased(h: Header, bs: nat, m: map<nat, Block>, idx: nat, d3: Descriptor, cur1: Held,
                                      held: Held, m': map<nat, Block>)
    requires h.descriptorsInBlock > 0
  {
    var blk := h.DescriptorsBegin() + idx / h.descriptorsInBlock;
    var m2 := WriteBackOf(bs, m[blk := WithDescriptor(h, m, blk, idx % h.descriptorsInBlock, d3)], cur1);
    && m2.Ok? && WriteBackOf(bs, m2.value, held) == Ok(m')
  }

  /** The emptied-block test of `deleteEntry` as written reads the
      ITERATOR's index. With the iterator at an inline entry and the last
      entry alone in slot 0 of the overflow block, that block is neither
      freed nor unlinked: the count drops to the inline capacity while the
      descriptor still links the block and its bit reads as before. The
      next append to the now full descriptor links a new block in its
      place, and the old one is never freed. */
  lemma EmptiedBlockKeptAsWritten(h: Header, bs: nat, m: map<nat, Block>, m': map<nat, Block>,
                                  idx: nat, d: Descriptor, i: nat, d1: Descriptor, cur1: Held)
    requires AssignedLast(h, bs, m, idx, d, i, d1, cur1)
    requires i < h.entriesInDirectoryDescriptor && d.firstFreeElementIndex - 1 == h.entriesInDirectoryDescriptor
    requires FlushedThenReleased(h, bs, m, idx, d1.(firstFreeElementIndex := d.firstFreeElementIndex - 1), cur1,
                                 Pos(h, m, d, d.firstFreeElementIndex - 1).held, m')
    ensures var d' := DescriptorAt(h, m', idx);
            && d'.firstFreeElementIndex == h.entriesInDirectoryDescriptor
            && d'.nextDataSegment == d.nextDataSegment != HEADER_ADDRESS
    ensures Bit(h, m', d.nextDataSegment) == Bit(h, m, d.nextDataSegment)
    ensures !ShrankTo(h, bs, m, m', idx, d, Swapped(Listing(h, m, d), i))
  {
    var a := d.nextDataSegment;
    var d3 := d1.(firstFreeElementIndex := d.firstFreeElementIndex - 1);
    var blk := h.DescriptorsBegin() + idx / h.descriptorsInBlock;
    assert InRange(h.DataBegin(), h.dataEnd, a);
    AssignedLastFits(h, bs, m, idx, d, i, d1, cur1);
    StoredAcrossWriteBack(h, bs, m, idx, d3, Pos(h, m, d, d.firstFreeElementIndex - 1).held, m');
    BitBlockInBitMap(h, a);
    var bit := h.bitMapBegin + a / h.bitsInBitMapBlock;
    assert BlockOf(m', bit) == BlockOf(m, bit);
  }

  /** The flush of `deleteEntry` as written comes before the copy is
      destroyed. With entry `i` and the last entry both in the overflow
      block, the copy's handle still holds that block as it was read, and
      its write-back lands last: the block ends as it was, so entry `i` is
      back and lowering the count drops the last entry instead. */
  lemma StaleCopyRestoresEntry(h: Header, bs: nat, m: map<nat, Block>, m': map<nat, Block>,
                               idx: nat, d: Descriptor, i: nat, d1: Descriptor, cur1: Held)
    requires AssignedLast(h, bs, m, idx, d, i, d1, cur1)
    requires h.entriesInDirectoryDescriptor <= i < d.firstFreeElementIndex - 1
    requires FlushedThenReleased(h, bs, m, idx, d1.(firstFreeElementIndex := d.firstFreeElementIndex - 1), cur1,
                                 Pos(h, m, d, d.firstFreeElementIndex - 1).held, m')
    ensures BlockOf(m', d.nextDataSegment) == BlockOf(m, d.nextDataSegment)
    ensures DescriptorAt(h, m', idx) == d.(firstFreeElementIndex := d.firstFreeElementIndex - 1)
    ensures Listing(h, m', DescriptorAt(h, m', idx)) == Listing(h, m, d)[..d.firstFreeElementIndex - 1]
    ensures Listing(h, m, d)[i] != Listing(h, m, d)[d.firstFreeElementIndex - 1] ==>
            !ShrankTo(h, bs, m, m', idx, d, Swapped(Listing(h, m, d), i))
  {
    var a := d.nextDataSegment;
    var n := d.firstFreeElementIndex;
    var d3 := d.(firstFreeElementIndex := n - 1);
    var blk := h.DescriptorsBegin() + idx / h.descriptorsInBlock;
    var m3 := m[blk := WithDescriptor(h, m, blk, idx % h.descriptorsInBlock, d3)];
    assert InRange(h.DataBegin(), h.dataEnd, a);
    AssignedLastFits(h, bs, m, idx, d, i, d1, cur1);
    assert m' == m3[a := BlockOf(m, a)];
    StoredAcrossWriteBack(h, bs, m, idx, d3, Held(a, BlockOf(m, a)), m');
    assert FirstSegment(h, m', d3) == FirstSegment(h, m, d);
    assert Listing(h, m', d3) == Listing(h, m, d)[..n - 1];
  }

  /** The directory algorithms with the capacities they were last given. */
  class DescriptorAlgorithms {
    var entriesInDescriptor: nat
    var entriesInBlock: nat
    const store: Callbacks

    constructor (store: Callbacks)
      ensures this.store == store && entriesInDescriptor == 0 && entriesInBlock == 0
    {
      this.store := store;
      entriesInDescriptor, entriesInBlock := 0, 0;
    }

    /** `setEntriesInfo(eID, eIB)`. */
    method SetEntriesInfo(eID: nat, eIB: nat)
      modifies this`entriesInDescriptor, this`entriesInBlock
      ensures entriesInDescriptor == eID && entriesInBlock == eIB
    {
      entriesInDescriptor, entriesInBlock := eID, eIB;
    }

    /** `iterator(idx, d, sync)`: with `sync` the update function stores the
        descriptor as `idx`, without it the update function does nothing. */
    method Iterator(idx: nat, d: Descriptor, sync: bool) returns (it: DirectoryIterator)
      requires store.Valid() && store.file.HeaderExcept().Ok?
      requires 3 <= store.file.header.filenameLength && DescriptorFits(store.file.header, d)
      ensures fresh(it) && it.Valid() && it.Position() == Fresh
      ensures it.store == store && it.handle == idx && it.data == d && it.persists == sync && it.syncDescriptor == sync
      ensures it.entriesInDescriptor == entriesInDescriptor && it.entriesInBlock == entriesInBlock
      ensures it.dotEntry == DotEntry(store.file.header, idx, ".", 2)
      ensures it.dotDotEntry == DotEntry(store.file.header, d.parent, "..", 3)
    {
      it := new DirectoryIterator(store, idx, d, entriesInDescriptor, entriesInBlock, sync);
    }

    /** `appendToEnd(idx, d, e)`. On a consistent directory whose capacities
        are the header's, it succeeds unless a new block is needed and cannot
        be had, and then the stored directory has one more entry, `e`, at the
        end of its listing, its other fields unchanged, and its overflow block
        still readable. */
    method AppendToEnd(idx: nat, d: Descriptor, e: DirEntry) returns (r: Outcome)
      requires store.Valid() && store.file.HeaderExcept().Ok?
      requires 3 <= store.file.header.filenameLength && DescriptorFits(store.file.header, d)
      requires EntryFits(store.file.header, e)
      modifies store.file`blocks, store.file.pool
      ensures store.Valid()
      ensures Ready(store.file) && Consistent(store.file.header, store.file.blockSize, old(store.file.blocks), idx, d)
              && entriesInDescriptor == store.file.header.entriesInDirectoryDescriptor
              && entriesInBlock == store.file.header.entriesInDirectoryBlock ==>
        && (r.Fail? ==> d.firstFreeElementIndex == store.file.header.entriesInDirectoryDescriptor)
        && (r.Pass? ==> GrewBy(store.file.header, store.file.blockSize, old(store.file.blocks), store.file.blocks, idx, d, e))
    {
      var h := store.file.header;
      ghost var bs := store.file.blockSize;
      ghost var m := store.file.blocks;
      ghost var n := d.firstFreeElementIndex;
      ghost var proved := Ready(store.file) && Consistent(h, bs, m, idx, d)
                          && entriesInDescriptor == h.entriesInDirectoryDescriptor
                          && entriesInBlock == h.entriesInDirectoryBlock;
      var it := Iterator(idx, d, true);
      if proved {
        WalkFromFresh(h, bs, m, d);
      }
      r := WalkAndAppend(it, e, proved);
    }

    /** `appendToEnd` once its iterator exists: walk to the last entry, then
        append there. */
    method WalkAndAppend(it: DirectoryIterator, e: DirEntry, ghost proved: bool) returns (r: Outcome)
      requires it.Valid() && it.store == store && EntryFits(it.Header(), e) && it.persists
      requires it.dotEntry.descriptor == it.handle && it.dotDotEntry.descriptor == it.data.parent
      requires proved ==>
        var h := store.file.header;
        var m := store.file.blocks;
        && Ready(store.file) && Consistent(h, store.file.blockSize, m, it.handle, it.data)
        && it.entriesInDescriptor == h.entriesInDirectoryDescriptor && it.entriesInBlock == h.entriesInDirectoryBlock
        && Walk(h, store.file.blockSize, m, it.Position(), it.data, it.entriesInDescriptor, it.entriesInBlock)
           == Ok(Moved(LastPos(h, m, it.data), m))
      modifies it`index, it`offset, it`blockAddress, it`prevAddress, it`current, it`data
      modifies store.file`blocks, store.file.pool
      ensures it.Valid()
      ensures proved && r.Fail? ==> old(it.data).firstFreeElementIndex == store.file.header.entriesInDirectoryDescriptor
      ensures proved && r.Pass? ==>
        GrewBy(store.file.header, store.file.blockSize, old(store.file.blocks), store.file.blocks, it.handle, old(it.data), e)
    {
      r := it.ToLast();
      if r.Fail? {
        return;
      }
      r := AppendAtLast(it, e, proved);
    }

    /** `appendToEnd` from the end of its walk: append after the last entry,
        count it, flush, and destroy the iterator. */
    method AppendAtLast(it: DirectoryIterator, e: DirEntry, ghost proved: bool) returns (r: Outcome)
      requires it.Valid() && it.store == store && EntryFits(it.Header(), e) && it.persists
      requires it.dotEntry.descriptor == it.handle && it.dotDotEntry.descriptor == it.data.parent
      requires proved ==> AtLast(it, store.file.blocks, it.data)
      modifies it`data, it`current, store.file`blocks, store.file.pool
      ensures it.Valid()
      ensures proved && r.Fail? ==> old(it.data).firstFreeElementIndex == store.file.header.entriesInDirectoryDescriptor
      ensures proved && r.Pass? ==>
        GrewBy(store.file.header, store.file.blockSize, old(store.file.blocks), store.file.blocks, it.handle, old(it.data), e)
    {
      ghost var h := store.file.header;
      ghost var bs := store.file.blockSize;
      ghost var m := store.file.blocks;
      ghost var d := it.data;
      ghost var a;
      r, a := AppendBranch(it, e, proved);
      if r.Fail? {
        return;
      }
      ghost var data1 := it.data;
      ghost var mX := store.file.blocks;
      ghost var cur := it.current;
      r := Finish(it, proved);
      if proved && r.Pass? {
        AppendedListing(h, bs, m, mX, store.file.blocks, it.handle, d, data1, it.data, cur, e, a);
      }
    }

    /** The test of `appendToEnd`: is there room after the last entry in its
        container? */
    method AppendBranch(it: DirectoryIterator, e: DirEntry, ghost proved: bool) returns (r: Outcome, ghost a: nat)
      requires it.Valid() && it.store == store && EntryFits(it.Header(), e)
      requires proved ==> AtLast(it, store.file.blocks, it.data)
      modifies it`data, it`current, store.file`blocks, store.file.pool
      ensures it.Valid() && it.Position().(held := NoBlock) == old(it.Position()).(held := NoBlock)
      ensures proved && r.Fail? ==> old(it.data).firstFreeElementIndex == store.file.header.entriesInDirectoryDescriptor
      ensures proved && r.Pass? ==>
        BranchDone(store.file.header, store.file.blockSize, old(store.file.blocks), store.file.blocks, old(it.data), it.data, it.current, e, a)
    {
      a := 0;
      if Inc(it.offset) != LimitAt(it.index, it.entriesInDescriptor, it.entriesInBlock) {
        r := AppendInPlace(it, e, proved);
      } else {
        r, a := AppendInNewBlock(it, e, proved);
      }
    }

    /** The end of `appendToEnd`: one more entry is counted, the iterator is
        flushed, and it is destroyed. */
    method Finish(it: DirectoryIterator, ghost proved: bool) returns (r: Outcome)
      requires it.Valid() && it.store == store && it.persists
      requires proved ==> FinishSafe(it)
      modifies it`data, it`current, store.file`blocks, store.file.pool
      ensures it.Valid()
      ensures proved ==> r.Pass?
      ensures r.Pass? ==>
        var h := store.file.header;
        var blk := h.DescriptorsBegin() + it.handle / h.descriptorsInBlock;
        var m1 := old(store.file.blocks)[blk := WithDescriptor(h, old(store.file.blocks), blk, it.handle % h.descriptorsInBlock, it.data)];
        var m3 := WriteBackOf(store.file.blockSize, m1, old(it.current));
        && it.data == old(it.data).(firstFreeElementIndex := old(it.data).firstFreeElementIndex + 1)
        && m3.Ok? && WriteBackOf(store.file.blockSize, m3.value, old(it.current)) == Ok(store.file.blocks)
    {
      it.data := it.data.(firstFreeElementIndex := it.data.firstFreeElementIndex + 1);
      r := it.Flush();
      if r.Fail? {
        return;
      }
      r := it.Release();
    }

    /** What makes the end of `appendToEnd` succeed: the dot entries name the
        directory and its parent, its descriptor can be stored, and the held
        block can be written. */
    ghost predicate FinishSafe(it: DirectoryIterator)
      reads it, store, store.file
    {
      && it.dotEntry.descriptor == it.handle && it.dotDotEntry.descriptor == it.data.parent
      && Ready(store.file) && store.file.header.descriptorsInBlock > 0
      && DescriptorPosFromBlock(store.file.header, it.handle).Ok?
      && (it.current.Held? ==> ReadCheckOf(store.file.blockSize, it.current.address).Pass?)
    }

    /** The state `toLast()` leaves when appending is proved: the iterator at
        the last entry of a consistent directory, with the file unchanged. */
    ghost predicate AtLast(it: DirectoryIterator, m: map<nat, Block>, d: Descriptor)
      reads it, store, store.file
    {
      var h := store.file.header;
      && Ready(store.file) && Consistent(h, store.file.blockSize, m, it.handle, d)
      && it.data == d && it.persists && it.Position() == LastPos(h, m, d) && store.file.blocks == m
      && it.entriesInDescriptor == h.entriesInDirectoryDescriptor && it.entriesInBlock == h.entriesInDirectoryBlock
    }

    /** The first branch of `appendToEnd`: the last container has room, so
        the entry goes in the slot after the last one, and the descriptor is
        stored. */
    method AppendInPlace(it: DirectoryIterator, e: DirEntry, ghost proved: bool) returns (r: Outcome)
      requires it.Valid() && it.store == store && EntryFits(it.Header(), e)
      requires proved ==> AtLast(it, store.file.blocks, it.data)
      requires Inc(it.offset) != LimitAt(it.index, it.entriesInDescriptor, it.entriesInBlock)
      modifies it`data, it`current, store.file`blocks, store.file.pool
      ensures it.Valid() && it.Position().(held := NoBlock) == old(it.Position()).(held := NoBlock)
      ensures proved ==> r.Pass?
      ensures proved && r.Pass? ==>
        var h := store.file.header;
        var d := old(it.data);
        var n := d.firstFreeElementIndex;
        var eID := h.entriesInDirectoryDescriptor;
        var blk := h.DescriptorsBegin() + it.handle / h.descriptorsInBlock;
        && (n < eID ==> it.data == d.(entries := d.entries[n := e]) && it.current == NoBlock)
        && (n > eID ==>
              var part := FirstSegment(h, old(store.file.blocks), d);
              && it.data == d
              && it.current == Held(d.nextDataSegment, DataPartData(part.(entries := part.entries[n - eID := e]))))
        && n != eID
        && store.file.blocks == old(store.file.blocks)[blk := WithDescriptor(h, old(store.file.blocks), blk, it.handle % h.descriptorsInBlock, it.data)]
    {
      r := it.SetInCurrentArray(Inc(it.offset), e);
      if r.Fail? {
        return;
      }
      r := it.CallUpdate();
    }

    /** The second branch of `appendToEnd`: the last container is full, so a
        new block is allocated, read, initialised with the entry in slot 0,
        linked from the last container, and written when its handle goes. */
    method AppendInNewBlock(it: DirectoryIterator, e: DirEntry, ghost proved: bool) returns (r: Outcome, ghost a: nat)
      requires it.Valid() && it.store == store && EntryFits(it.Header(), e)
      requires proved ==> AtLast(it, store.file.blocks, it.data)
      requires Inc(it.offset) == LimitAt(it.index, it.entriesInDescriptor, it.entriesInBlock)
      modifies it`data, it`current, store.file`blocks, store.file.pool
      ensures it.Valid() && it.Position().(held := NoBlock) == old(it.Position()).(held := NoBlock)
      ensures proved && r.Pass? ==>
        var h := store.file.header;
        var d := old(it.data);
        var part := InitDataPart(h);
        && d.firstFreeElementIndex == h.entriesInDirectoryDescriptor
        && it.data == d.(nextDataSegment := a) && it.current == NoBlock
        && SegmentRead(h, store.file.blockSize, store.file.blocks, a).Ok?
        && BlockOf(store.file.blocks, a) == DataPartData(part.(entries := part.entries[0 := e]))
      ensures proved && r.Fail? ==> old(it.data).firstFreeElementIndex == store.file.header.entriesInDirectoryDescriptor
    {
      a := 0;
      var h := it.Header();
      var got := NewSegment();
      if got.Err? {
        return Fail(got.error), a;
      }
      var newBlockAddress := got.value;
      a := newBlockAddress;
      var part := InitDataPart(h);
      if |part.entries| == 0 {
        return Fail(OutOfRange), a;
      }
      var newBlock := DataPartData(part.(entries := part.entries[0 := e]));
      r := it.SetNextAddressInCurrentContainer(newBlockAddress);
      if r.Fail? {
        return;
      }
      r := store.WriteBack(Held(newBlockAddress, newBlock));
    }

    /** The allocation of a new overflow block in `appendToEnd`: a free block
        of the data area is claimed and read. */
    method NewSegment() returns (r: Result<nat>)
      requires store.Valid()
      modifies store.file`blocks, store.file.pool
      ensures store.Valid()
      ensures r.Ok? && store.file.HeaderExcept().Ok? ==>
        SegmentRead(store.file.header, store.file.blockSize, store.file.blocks, r.value).Ok?
    {
      var got := store.AllocNewFreeBlock();
      if got.Err? {
        return Err(got.error);
      }
      var blk := store.ReadExtendedSegment(got.value);
      if blk.Err? {
        return Err(blk.error);
      }
      return Ok(got.value);
    }

    /** The state `deleteEntry` is proved from: the iterator stands at entry
        `i` of a stored directory, where stepping from a new iterator leaves
        it, with "." and ".." naming the directory and its parent, on a file
        whose bitmap covers the data area. */
    ghost predicate AtEntry(it: DirectoryIterator, m: map<nat, Block>, d: Descriptor, i: nat)
      reads it, store, store.file
    {
      var h := store.file.header;
      && Ready(store.file) && Stored(h, store.file.blockSize, m, it.handle, d) && Covered(h)
      && i < d.firstFreeElementIndex
      && it.data == d && it.persists && it.Position() == Pos(h, m, d, i) && store.file.blocks == m
      && it.entriesInDescriptor == h.entriesInDirectoryDescriptor && it.entriesInBlock == h.entriesInDirectoryBlock
      && it.dotEntry.descriptor == it.handle && it.dotDotEntry.descriptor == d.parent
    }

    /** The copy `deleteEntry` makes of the iterator, started at index
        `start`, walked to the last entry. When the copy and the walk are
        known to succeed without writing, the copy stands at `target` and the
        file is as it was. */
    method CopyToLast(it: DirectoryIterator, start: nat, ghost target: Cursor, ghost proved: bool)
      returns (r: Result<DirectoryIterator>)
      requires it.Valid() && it.store == store && start < U64
      requires proved ==>
        var c := CopyOf(it.Header(), store.file.blockSize, store.file.blocks, it.Position(), start);
        && c.Ok?
        && Walk(it.Header(), store.file.blockSize, store.file.blocks, c.value, it.data, it.entriesInDescriptor, it.entriesInBlock)
           == Ok(Moved(target, store.file.blocks))
      modifies store.file`blocks, store.file.pool
      ensures it.Valid()
      ensures r.Ok? ==> && fresh(r.value) && r.value.Valid() && r.value.store == store && r.value.data == it.data
                        && r.value.entriesInDescriptor == it.entriesInDescriptor
      ensures proved ==> r.Ok? && r.value.Position() == target && store.file.blocks == old(store.file.blocks)
    {
      r := it.CopyFrom(false, start);
      if r.Err? {
        return;
      }
      var walked := r.value.ToLast();
      if walked.Fail? {
        return Err(walked.error);
      }
    }

    /** `*it = *itInEnd`: the last entry is read through the copy and
        assigned under the iterator. */
    method AssignLast(it: DirectoryIterator, itInEnd: DirectoryIterator) returns (r: Outcome)
      requires it.Valid() && itInEnd.Valid() && it.store == store && itInEnd.store == store && it != itInEnd
      modifies it`data, it`current, it`dotEntry, it`dotDotEntry
      ensures it.Valid()
      ensures r.Pass? ==> old(itInEnd.Deref()).Ok? && old(it.Deref()).Ok?
      ensures r.Pass? && it.offset < DOT && WeInDescriptorAt(it.index, it.entriesInDescriptor) ==>
        it.data == old(it.data).(entries := old(it.data.entries)[it.offset := itInEnd.Deref().value]) && it.current == old(it.current)
      ensures r.Pass? && it.offset < DOT && !WeInDescriptorAt(it.index, it.entriesInDescriptor) ==>
        var part := AsDataPart(it.Header(), old(it.current).block);
        && it.current == Held(old(it.current).address, DataPartData(part.(entries := part.entries[it.offset := itInEnd.Deref().value])))
        && it.data == old(it.data)
      ensures it.offset < DOT ==> unchanged(it`dotEntry, it`dotDotEntry)
      ensures old(itInEnd.Deref()).Ok? && old(it.Deref()).Ok? ==> r.Pass?
    {
      var last := itInEnd.Deref();
      EntryUnderFits(it.Header(), itInEnd.Position(), itInEnd.data, itInEnd.dotEntry, itInEnd.dotDotEntry, itInEnd.entriesInDescriptor);
      if last.Err? {
        return Fail(last.error);
      }
      r := it.Assign(last.value);
    }

    /** The end of `deleteEntry` as written: the iterator is flushed, then
        the copy is destroyed and writes back the block it holds. */
    method FlushThenRelease(it: DirectoryIterator, itInEnd: DirectoryIterator) returns (r: Outcome)
      requires it.Valid() && itInEnd.Valid() && it.store == store && itInEnd.store == store && it != itInEnd
      modifies itInEnd`current, store.file`blocks, store.file.pool
      ensures it.Valid() && itInEnd.Valid()
      ensures && !it.DotsChanged() && (it.persists ==> Ready(store.file) && DescriptorPosFromBlock(it.Header(), it.handle).Ok?)
              && (it.current.Held? ==> ReadCheckOf(store.file.blockSize, it.current.address).Pass?)
              && (old(itInEnd.current).Held? ==> ReadCheckOf(store.file.blockSize, old(itInEnd.current).address).Pass?)
              ==> r.Pass?
      ensures r.Pass? ==>
        var m1 := WriteBackOf(store.file.blockSize, it.FlushedDescriptor(old(store.file.blocks)), it.current);
        && m1.Ok? && WriteBackOf(store.file.blockSize, m1.value, old(itInEnd.current)) == Ok(store.file.blocks)
    {
      r := it.Flush();
      // the copy's destructor writes its block back, on success and on failure
      var released := itInEnd.Release();
      if r.Pass? {
        r := released;
      }
    }

    /** The end of the corrected `deleteEntry`: the copy is destroyed first,
        so the block it holds cannot overwrite what the iterator writes. */
    method ReleaseThenFlush(it: DirectoryIterator, itInEnd: DirectoryIterator) returns (r: Outcome)
      requires it.Valid() && itInEnd.Valid() && it.store == store && itInEnd.store == store && it != itInEnd
      modifies itInEnd`current, store.file`blocks, store.file.pool
      ensures it.Valid() && itInEnd.Valid()
      ensures && !it.DotsChanged() && (it.persists ==> Ready(store.file) && DescriptorPosFromBlock(it.Header(), it.handle).Ok?)
              && (it.current.Held? ==> ReadCheckOf(store.file.blockSize, it.current.address).Pass?)
              && (old(itInEnd.current).Held? ==> ReadCheckOf(store.file.blockSize, old(itInEnd.current).address).Pass?)
              ==> r.Pass?
      ensures r.Pass? && it.persists ==>
        WrittenBack(store.file.header, store.file.blockSize, old(store.file.blocks), old(itInEnd.current), it.handle, it.data,
                    it.current, store.file.blocks)
    {
      r := itInEnd.Release();
      if r.Pass? {
        r := it.Flush();
      }
    }

    /** `deleteEntry(it)` as written. The copy starts from the DESCRIPTOR
        HANDLE, so its walk to "the last entry" starts from the wrong index;
        the emptied-block test looks at the iterator rather than the copy; and
        the copy's block handle is written back after the iterator's flush.
        In the case where the copy cannot step (an inline entry of a
        directory whose own index is inline and at least that of its last
        entry), the entry under the iterator stays and the LAST entry is
        dropped instead. */
    method DeleteEntry(it: DirectoryIterator, ghost i: nat, ghost proved: bool) returns (r: Outcome)
      requires it.Valid() && it.store == store && it.handle < U64
      requires proved ==> && AtEntry(it, store.file.blocks, it.data, i)
                          && i < it.entriesInDescriptor && it.handle < it.entriesInDescriptor
                          && it.data.firstFreeElementIndex <= it.handle + 1
      modifies it`data, it`current, it`dotEntry, it`dotDotEntry, store.file`blocks, store.file.pool
      ensures it.Valid()
      ensures proved ==>
        var h := store.file.header;
        var d := old(it.data);
        && r.Pass?
        && ShrankTo(h, store.file.blockSize, old(store.file.blocks), store.file.blocks, it.handle, d,
                    Listing(h, old(store.file.blocks), d)[..d.firstFreeElementIndex - 1])
    {
      ghost var m := store.file.blocks;
      ghost var d := it.data;
      var copied := TakeLastFromHandle(it, i, proved);
      if copied.Err? {
        return Fail(copied.error);
      }
      r := RemoveLastAsWritten(it, copied.value, m, d, i, proved);
    }

    /** The first half of `deleteEntry` as written: the copy starts at the
        descriptor handle, walks, and its entry is assigned under the
        iterator. In the case proved, the copy cannot step and reads back the
        entry under the iterator. */
    method TakeLastFromHandle(it: DirectoryIterator, ghost i: nat, ghost proved: bool) returns (r: Result<DirectoryIterator>)
      requires it.Valid() && it.store == store && it.handle < U64
      requires proved ==> && AtEntry(it, store.file.blocks, it.data, i)
                          && i < it.entriesInDescriptor && it.handle < it.entriesInDescriptor
                          && it.data.firstFreeElementIndex <= it.handle + 1
      modifies it`data, it`current, it`dotEntry, it`dotDotEntry, store.file`blocks, store.file.pool
      ensures it.Valid()
      ensures r.Ok? ==> fresh(r.value) && r.value.Valid() && r.value.store == store
      ensures proved ==> r.Ok? && TakenInPlace(it, r.value, old(store.file.blocks), old(it.data), i)
    {
      ghost var h := store.file.header;
      ghost var bs := store.file.blockSize;
      ghost var m := store.file.blocks;
      ghost var d := it.data;
      if proved {
        CopyStaysPut(h, bs, m, d, ZeroEntry(h), ZeroEntry(h), it.handle, i);
        EntryUnderPos(h, m, d, it.dotEntry, it.dotDotEntry, i);
      }
      r := CopyToLast(it, it.handle, Cursor(it.handle, i, HEADER_ADDRESS, HEADER_ADDRESS, NoBlock), proved);
      if r.Err? {
        return;
      }
      if proved {
        CopyStaysPut(h, bs, m, d, r.value.dotEntry, r.value.dotDotEntry, it.handle, i);
      }
      var moved := AssignLast(it, r.value);
      if moved.Fail? {
        return Err(moved.error);
      }
    }

    /** Where the first half of `deleteEntry` as written leaves things in
        the case proved: entry `i` assigned to itself, no block held by
        either iterator, and the file unchanged. */
    ghost predicate TakenInPlace(it: DirectoryIterator, itInEnd: DirectoryIterator, m: map<nat, Block>, d: Descriptor, i: nat)
      reads it, itInEnd, store, store.file
    {
      var h := store.file.header;
      && Ready(store.file) && store.file.blocks == m
      && Stored(h, store.file.blockSize, m, it.handle, d)
      && i < h.entriesInDirectoryDescriptor && i < d.firstFreeElementIndex <= h.entriesInDirectoryDescriptor
      && it.data == d.(entries := d.entries[i := d.entries[i]]) && it.current == NoBlock && itInEnd.current == NoBlock
      && it != itInEnd && it.persists
      && 3 <= |it.dotEntry.name| && 3 <= |it.dotDotEntry.name| && !it.DotsChanged()
      && it.index == i && it.entriesInDescriptor == h.entriesInDirectoryDescriptor
    }

    /** The second half of `deleteEntry` as written: the emptied-block test
        on the iterator, the count dropped by one, the iterator flushed, and
        then the copy destroyed. */
    method RemoveLastAsWritten(it: DirectoryIterator, itInEnd: DirectoryIterator, ghost m: map<nat, Block>,
                               ghost d: Descriptor, ghost i: nat, ghost proved: bool) returns (r: Outcome)
      requires it.Valid() && itInEnd.Valid() && it.store == store && itInEnd.store == store && it != itInEnd
      requires proved ==> TakenInPlace(it, itInEnd, m, d, i)
      modifies it`data, itInEnd`current, store.file`blocks, store.file.pool
      ensures it.Valid()
      ensures proved ==>
        var h := store.file.header;
        && r.Pass?
        && ShrankTo(h, store.file.blockSize, m, store.file.blocks, it.handle, d, Listing(h, m, d)[..d.firstFreeElementIndex - 1])
      ensures !(itInEnd.offset == 0 && !WeInDescriptorAt(it.index, it.entriesInDescriptor)) ==>
        && it.data == old(it.data).(firstFreeElementIndex := Dec(old(it.data.firstFreeElementIndex)))
        && (r.Pass? && it.persists ==>
              FlushedThenReleased(it.Header(), store.file.blockSize, old(store.file.blocks), it.handle, it.data, it.current,
                                  old(itInEnd.current), store.file.blocks))
    {
      r := Pass;
      if itInEnd.offset == 0 && !WeInDescriptorAt(it.index, it.entriesInDescriptor) {
        r := UnlinkLastBlock(it, itInEnd);
      }
      if r.Pass? {
        r := CountDownThenFlush(it, itInEnd, m, d, i, proved);
      } else {
        // the copy's destructor writes its block back, on success and on failure
        var _ := itInEnd.Release();
      }
    }

    /** The count dropped by one, the iterator flushed, and then the copy
        destroyed, as `deleteEntry` does it. */
    method CountDownThenFlush(it: DirectoryIterator, itInEnd: DirectoryIterator, ghost m: map<nat, Block>,
                              ghost d: Descriptor, ghost i: nat, ghost proved: bool) returns (r: Outcome)
      requires it.Valid() && itInEnd.Valid() && it.store == store && itInEnd.store == store && it != itInEnd
      requires proved ==> TakenInPlace(it, itInEnd, m, d, i)
      modifies it`data, itInEnd`current, store.file`blocks, store.file.pool
      ensures it.Valid()
      ensures proved ==>
        var h := store.file.header;
        && r.Pass?
        && ShrankTo(h, store.file.blockSize, m, store.file.blocks, it.handle, d, Listing(h, m, d)[..d.firstFreeElementIndex - 1])
      ensures it.data == old(it.data).(firstFreeElementIndex := Dec(old(it.data.firstFreeElementIndex)))
      ensures r.Pass? && it.persists ==>
        FlushedThenReleased(it.Header(), store.file.blockSize, old(store.file.blocks), it.handle, it.data, it.current,
                            old(itInEnd.current), store.file.blocks)
    {
      it.data := it.data.(firstFreeElementIndex := Dec(it.data.firstFreeElementIndex));
      r := FlushThenRelease(it, itInEnd);
      if proved {
        assert store.file.blocks == it.FlushedDescriptor(m);
        DeletedAsWritten(store.file.header, store.file.blockSize, m, store.file.blocks, it.handle, d, i);
      }
    }

    /** `deleteEntry(it)` as evidently intended: the copy keeps the
        iterator's index, the emptied-block test looks at the copy, and the
        copy's block handle is released before the iterator is flushed. On a
        stored directory with the iterator at entry `i`, the last entry takes
        the place of entry `i` and the count drops by one; when the last entry
        was alone in the overflow block, that block is freed and unlinked. */
    method DeleteEntryAsIntended(it: DirectoryIterator, ghost i: nat, ghost proved: bool) returns (r: Outcome)
      requires it.Valid() && it.store == store
      requires proved ==> AtEntry(it, store.file.blocks, it.data, i)
      modifies it`data, it`current, it`dotEntry, it`dotDotEntry, store.file`blocks, store.file.pool
      ensures it.Valid()
      ensures proved ==>
        var h := store.file.header;
        var d := old(it.data);
        && r.Pass?
        && ShrankTo(h, store.file.blockSize, old(store.file.blocks), store.file.blocks, it.handle, d,
                    Swapped(Listing(h, old(store.file.blocks), d), i))
        && (d.firstFreeElementIndex - 1 == h.entriesInDirectoryDescriptor ==> !Bit(h, store.file.blocks, d.nextDataSegment))
        && WriteBackOf(store.file.blockSize, store.file.blocks, it.current) == Ok(store.file.blocks)
    {
      ghost var m := store.file.blocks;
      ghost var d := it.data;
      var copied := TakeLast(it, i, proved);
      if copied.Err? {
        return Fail(copied.error);
      }
      r := RemoveLast(it, copied.value, m, d, i, proved);
    }

    /** The first half of the corrected `deleteEntry`: a copy of the
        iterator, at the same index, walks to the last entry, which is then
        assigned under the iterator. */
    method TakeLast(it: DirectoryIterator, ghost i: nat, ghost proved: bool) returns (r: Result<DirectoryIterator>)
      requires it.Valid() && it.store == store
      requires proved ==> AtEntry(it, store.file.blocks, it.data, i)
      modifies it`data, it`current, it`dotEntry, it`dotDotEntry, store.file`blocks, store.file.pool
      ensures it.Valid()
      ensures r.Ok? ==> fresh(r.value) && r.value.Valid() && r.value.store == store
      ensures proved ==> r.Ok? && Taken(it, r.value, old(store.file.blocks), old(it.data), i)
    {
      ghost var h := store.file.header;
      ghost var bs := store.file.blockSize;
      ghost var m := store.file.blocks;
      ghost var d := it.data;
      ghost var n := d.firstFreeElementIndex;
      if proved {
        CopyAtPos(h, bs, m, d, i);
        WalkToLast(h, bs, m, d, i);
      }
      r := CopyToLast(it, it.index, LastPos(h, m, d), proved);
      if r.Err? {
        return;
      }
      var moved := AssignFromLast(it, r.value, i, proved);
      if moved.Fail? {
        return Err(moved.error);
      }
    }

    /** The assignment in `deleteEntry`: the entry under the copy at the end
        replaces the entry under the iterator. */
    method AssignFromLast(it: DirectoryIterator, itInEnd: DirectoryIterator, ghost i: nat, ghost proved: bool)
      returns (r: Outcome)
      requires it.Valid() && itInEnd.Valid() && it.store == store && itInEnd.store == store && it != itInEnd
      requires proved ==> && AtEntry(it, store.file.blocks, it.data, i)
                          && itInEnd.Position() == LastPos(store.file.header, store.file.blocks, it.data)
                          && itInEnd.data == it.data && itInEnd.entriesInDescriptor == it.entriesInDescriptor
      modifies it`data, it`current, it`dotEntry, it`dotDotEntry
      ensures it.Valid()
      ensures proved ==> r.Pass? && Taken(it, itInEnd, store.file.blocks, old(it.data), i)
    {
      ghost var h := store.file.header;
      ghost var m := store.file.blocks;
      ghost var d := it.data;
      if proved {
        EntryUnderPos(h, m, d, it.dotEntry, it.dotDotEntry, i);
        EntryUnderPos(h, m, d, itInEnd.dotEntry, itInEnd.dotDotEntry, d.firstFreeElementIndex - 1);
      }
      r := AssignLast(it, itInEnd);
    }

    /** Where the first half of the corrected `deleteEntry` leaves things:
        the copy at the last entry of the stored directory, the iterator
        still at entry `i` with that entry assigned there, and the file
        unchanged. */
    ghost predicate Taken(it: DirectoryIterator, itInEnd: DirectoryIterator, m: map<nat, Block>, d: Descriptor, i: nat)
      reads it, itInEnd, store, store.file
    {
      var h := store.file.header;
      && Ready(store.file) && store.file.blocks == m
      && AssignedLast(h, store.file.blockSize, m, it.handle, d, i, it.data, it.current)
      && it != itInEnd && it.persists
      && 3 <= |it.dotEntry.name| && 3 <= |it.dotDotEntry.name| && !it.DotsChanged()
      && it.index == i && it.entriesInDescriptor == h.entriesInDirectoryDescriptor
      && itInEnd.Position() == Pos(h, m, d, d.firstFreeElementIndex - 1)
      && itInEnd.data == d && itInEnd.entriesInDescriptor == h.entriesInDirectoryDescriptor
    }

    /** The second half of the corrected `deleteEntry`: the emptied block is
        dealt with, the count drops by one, the copy is destroyed, and the
        iterator is flushed. */
    method RemoveLast(it: DirectoryIterator, itInEnd: DirectoryIterator, ghost m: map<nat, Block>, ghost d: Descriptor,
                      ghost i: nat, ghost proved: bool) returns (r: Outcome)
      requires it.Valid() && itInEnd.Valid() && it.store == store && itInEnd.store == store && it != itInEnd
      requires proved ==> Taken(it, itInEnd, m, d, i)
      modifies it`data, itInEnd`current, store.file`blocks, store.file.pool
      ensures it.Valid()
      ensures proved ==>
        var h := store.file.header;
        && r.Pass?
        && ShrankTo(h, store.file.blockSize, m, store.file.blocks, it.handle, d, Swapped(Listing(h, m, d), i))
        && (d.firstFreeElementIndex - 1 == h.entriesInDirectoryDescriptor ==> !Bit(h, store.file.blocks, d.nextDataSegment))
        && WriteBackOf(store.file.blockSize, store.file.blocks, it.current) == Ok(store.file.blocks)
    {
      ghost var h := store.file.header;
      ghost var bs := store.file.blockSize;
      ghost var d1, cur1 := it.data, it.current;
      ghost var held := itInEnd.current;
      r := UnlinkIfEmptied(it, itInEnd, m, d, i, proved);
      ghost var m1, d2 := store.file.blocks, it.data;
      if r.Pass? {
        it.data := it.data.(firstFreeElementIndex := Dec(it.data.firstFreeElementIndex));
        r := ReleaseThenFlush(it, itInEnd);
      } else {
        var _ := itInEnd.Release();
      }
      if proved {
        DeletedAsIntended(h, bs, m, m1, store.file.blocks, it.handle, d, i, d1, cur1, d2);
        WriteBackIdle(bs, store.file.blocks, it.current);
      }
    }

    /** The emptied-block test of the corrected `deleteEntry`, on the copy:
        when the last entry sits in slot 0 of an overflow block, the block is
        freed and unlinked. */
    method UnlinkIfEmptied(it: DirectoryIterator, itInEnd: DirectoryIterator, ghost m: map<nat, Block>, ghost d: Descriptor,
                           ghost i: nat, ghost proved: bool) returns (r: Outcome)
      requires it.Valid() && itInEnd.Valid() && it.store == store && itInEnd.store == store && it != itInEnd
      requires proved ==> Taken(it, itInEnd, m, d, i)
      modifies it`data, store.file`blocks, store.file.pool
      ensures it.Valid() && itInEnd.Valid()
      ensures proved ==> && r.Pass? && UnlinkedAs(store.file.header, m, d, old(it.data), store.file.blocks, it.data)
                         && it.data.firstFreeElementIndex == d.firstFreeElementIndex && !it.DotsChanged()
                         && (it.current.Held? ==> ReadCheckOf(store.file.blockSize, it.current.address).Pass?)
                         && (itInEnd.current.Held? ==> ReadCheckOf(store.file.blockSize, itInEnd.current.address).Pass?)
    {
      if itInEnd.offset == 0 && !WeInDescriptorAt(itInEnd.index, itInEnd.entriesInDescriptor) {
        r := UnlinkEmptied(it, itInEnd, m, d, i, proved);
      } else {
        r := Pass;
      }
    }

    /** `unlinkIfEmptied` when the copy at the end stands at slot 0 of an
        overflow block: under the proved layout that block held only the
        last entry, and it is freed and unlinked from the descriptor. */
    method UnlinkEmptied(it: DirectoryIterator, itInEnd: DirectoryIterator, ghost m: map<nat, Block>, ghost d: Descriptor,
                         ghost i: nat, ghost proved: bool) returns (r: Outcome)
      requires it.Valid() && itInEnd.Valid() && it.store == store && itInEnd.store == store && it != itInEnd
      requires itInEnd.offset == 0 && !WeInDescriptorAt(itInEnd.index, itInEnd.entriesInDescriptor)
      requires proved ==> Taken(it, itInEnd, m, d, i)
      modifies it`data, store.file`blocks, store.file.pool
      ensures it.Valid() && itInEnd.Valid()
      ensures proved ==> && r.Pass? && UnlinkedAs(store.file.header, m, d, old(it.data), store.file.blocks, it.data)
                         && it.data.firstFreeElementIndex == d.firstFreeElementIndex && !it.DotsChanged()
                         && (it.current.Held? ==> ReadCheckOf(store.file.blockSize, it.current.address).Pass?)
                         && (itInEnd.current.Held? ==> ReadCheckOf(store.file.blockSize, itInEnd.current.address).Pass?)
    {
      ghost var h := store.file.header;
      ghost var a := d.nextDataSegment;
      if proved {
        assert InRange(h.DataBegin(), h.dataEnd, a);
        BitBlockInBitMap(h, a);
      }
      r := UnlinkLastBlock(it, itInEnd);
    }

    /** The clean-up of `deleteEntry` once the last entry was taken from slot
        0 of an overflow block: that block is freed, and the link to it is
        cleared, in the iterator's descriptor copy when no block precedes it,
        else in the preceding block, read for update and written back. */
    method UnlinkLastBlock(it: DirectoryIterator, itInEnd: DirectoryIterator) returns (r: Outcome)
      requires it.Valid() && itInEnd.Valid() && it.store == store && itInEnd.store == store && it != itInEnd
      modifies it`data, store.file`blocks, store.file.pool
      ensures it.Valid() && itInEnd.Valid()
      ensures r.Fail? ==> it.data == old(it.data)
      ensures itInEnd.prevAddress == HEADER_ADDRESS ==>
        var h := store.file.header;
        var a := old(it.data).nextDataSegment;
        var bit := h.bitMapBegin + a / h.bitsInBitMapBlock;
        && (itInEnd.data.nextDataSegment != itInEnd.blockAddress ==> r == Fail(AssertionFailed))
        && (itInEnd.data.nextDataSegment == itInEnd.blockAddress && a != HEADER_ADDRESS ==>
              (r.Pass? <==> ReadCheckOf(store.file.blockSize, bit).Pass?))
        && (r.Pass? ==>
              && a != HEADER_ADDRESS
              && it.data == old(it.data).(nextDataSegment := HEADER_ADDRESS)
              && store.file.blocks == old(store.file.blocks)[bit := SetBitIn(h, old(store.file.blocks), bit, a % h.bitsInBitMapBlock, false)])
      ensures itInEnd.prevAddress != HEADER_ADDRESS ==>
        var h := store.file.header;
        var p := itInEnd.prevAddress;
        var part := AsDataPart(h, BlockOf(old(store.file.blocks), p));
        var a := part.nextSegment;
        var bit := h.bitMapBegin + a / h.bitsInBitMapBlock;
        && it.data == old(it.data)
        && (r.Pass? ==>
              && a == itInEnd.blockAddress && a != HEADER_ADDRESS
              && store.file.blocks == old(store.file.blocks)[bit := SetBitIn(h, old(store.file.blocks), bit, a % h.bitsInBitMapBlock, false)]
                                                             [p := DataPartData(part.(nextSegment := HEADER_ADDRESS))])
    {
      if itInEnd.prevAddress == HEADER_ADDRESS {
        if itInEnd.data.nextDataSegment != itInEnd.blockAddress {
          return Fail(AssertionFailed);
        }
        r := store.DeallocBlock(it.data.nextDataSegment);
        if r.Fail? {
          return;
        }
        it.data := it.data.(nextDataSegment := HEADER_ADDRESS);
      } else {
        var prev := store.ReadExtendedSegment(itInEnd.prevAddress);
        if prev.Err? {
          return Fail(prev.error);
        }
        var part := AsDataPart(store.file.header, prev.value);
        if part.nextSegment != itInEnd.blockAddress {
          return Fail(AssertionFailed);
        }
        r := store.DeallocBlock(part.nextSegment);
        if r.Fail? {
          // the handle's destructor writes back the unchanged block
          return;
        }
        // the handle's destructor writes back the block with the link cleared
        r := store.WriteBack(Held(itInEnd.prevAddress, DataPartData(part.(nextSegment := HEADER_ADDRESS))));
      }
    }
  }
}
