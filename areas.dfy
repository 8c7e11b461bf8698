/** The three areas of a formatted file: the bitmap of used blocks, the
    descriptor table and the data blocks. Each area is a closed range of block
    addresses taken from the header. The bitmap holds one bit per block address
    of the file (set = in use); the descriptor table holds `descriptorsInBlock`
    descriptors per block, and descriptor index 0 is reserved as invalid.

    Every area reaches the file through read handles: a read-only handle to
    look, and a read-write handle whose buffer is changed and then written back
    when the handle is destroyed. */
module Areas {
  import opened Errors
  import opened Blocks
  import opened Storage

  /** `inRange`: the address lies in the closed range [begin, end]. */
  predicate InRange(begin: nat, end: nat, a: nat) {
    begin <= a <= end
  }

  /** The capacities the position arithmetic divides by. The source divides
      without checking, and formatting asserts more than one descriptor per
      block. */
  predicate SaneCapacities(h: Header) {
    h.bitsInBitMapBlock > 0 && h.descriptorsInBlock > 1
  }

  /** Whenever the file's header is usable, its capacities are sane. */
  predicate Sane(f: FileAccessor)
    reads f`isOpen, f`header
  {
    f.HeaderExcept().Ok? ==> SaneCapacities(f.header)
  }

  /** The file is open, holds a valid file system, and has a block size. */
  predicate Ready(f: FileAccessor)
    reads f`isOpen, f`header, f`blockSize
  {
    f.HeaderExcept().Ok? && f.blockSize != 0
  }

  /** The bitmap area lies after the header and holds the bit of every block
      up to the end of the data area. */
  predicate Covered(h: Header)
    requires h.bitsInBitMapBlock > 0
  {
    HEADER_ADDRESS < h.bitMapBegin && h.bitMapBegin + h.dataEnd / h.bitsInBitMapBlock <= h.bitMapEnd
  }

  /* ---------------------------------------------------------------------- */
  /* Arithmetic.                                                            */

  lemma {:induction false} MulMono(a: nat, b: nat, n: nat)
    requires a <= b
    ensures a * n <= b * n
    decreases b - a
  {
    if a < b {
      MulMono(a, b - 1, n);
      assert b * n == (b - 1) * n + n;
    }
  }

  /** Euclidean division by `n` undoes scaling by `n`. */
  lemma DivModOf(q: nat, n: nat, r: nat)
    requires r < n
    ensures (q * n + r) / n == q && (q * n + r) % n == r
  {
    var x := q * n + r;
    assert x == (x / n) * n + x % n;
    if x / n < q {
      MulMono(x / n + 1, q, n);
    } else if x / n > q {
      MulMono(q + 1, x / n, n);
    }
  }

  lemma DivModSplit(a: nat, n: nat)
    requires n > 0
    ensures a == (a / n) * n + a % n && a % n < n
  {
  }

  lemma DivMono(a: nat, b: nat, n: nat)
    requires a <= b && n > 0
    ensures a / n <= b / n
  {
    DivModSplit(a, n);
    DivModSplit(b, n);
    if a / n > b / n {
      MulMono(b / n + 1, a / n, n);
    }
  }

  /** On a covered layout the bit of a block of the data area lies in a
      bitmap block, which is neither the header nor a descriptor block nor a
      data block. */
  lemma BitBlockInBitMap(h: Header, a: nat)
    requires h.bitsInBitMapBlock > 0 && Covered(h) && a <= h.dataEnd
    ensures HEADER_ADDRESS < h.bitMapBegin + a / h.bitsInBitMapBlock <= h.bitMapEnd < h.DescriptorsBegin()
  {
    DivMono(a, h.dataEnd, h.bitsInBitMapBlock);
  }

  /** A bit offset below `n` lies in the `(n + 7) / 8` bytes of a bitmap block. */
  lemma BitFits(x: nat, n: nat)
    requires x < n
    ensures x / 8 < (n + 7) / 8
  {
  }

  lemma BitsFit(n: nat)
    ensures n <= 8 * ((n + 7) / 8)
  {
  }

  /* ---------------------------------------------------------------------- */
  /* Positions.                                                             */

  /** `bitMapPosFromBlock`: the bitmap block and the bit that record block
      address `a`. Address 0 is the header and is refused. */
  function BitMapPosFromBlock(h: Header, a: nat): (r: Result<(nat, nat)>)
    requires h.bitsInBitMapBlock > 0
    ensures r.Err? <==> a == HEADER_ADDRESS
    ensures r.Err? ==> r.error == InvalidArgument
    ensures r.Ok? ==> h.bitMapBegin <= r.value.0 && r.value.1 < h.bitsInBitMapBlock
    ensures r.Ok? ==> a == (r.value.0 - h.bitMapBegin) * h.bitsInBitMapBlock + r.value.1
  {
    if a == HEADER_ADDRESS then Err(InvalidArgument)
    else Ok((h.bitMapBegin + a / h.bitsInBitMapBlock, a % h.bitsInBitMapBlock))
  }

  /** `blockPosFromBitMapPos`: the block address recorded by bit `off` of
      bitmap block `blk`; the block must lie in the bitmap area and the
      offset inside a block. */
  function BlockPosFromBitMapPos(h: Header, blk: nat, off: nat): (r: Result<nat>)
    requires h.bitsInBitMapBlock > 0
    ensures r.Ok? <==> InRange(h.bitMapBegin, h.bitMapEnd, blk) && off < h.bitsInBitMapBlock
    ensures r.Err? ==> r.error == InvalidArgument
    ensures r.Ok? ==> r.value / h.bitsInBitMapBlock == blk - h.bitMapBegin && r.value % h.bitsInBitMapBlock == off
  {
    if InRange(h.bitMapBegin, h.bitMapEnd, blk) && off < h.bitsInBitMapBlock then
      DivModOf(blk - h.bitMapBegin, h.bitsInBitMapBlock, off);
      Ok((blk - h.bitMapBegin) * h.bitsInBitMapBlock + off)
    else Err(InvalidArgument)
  }

  /** Round trip from an address: a non-header address whose bit lies in the
      bitmap area is recovered from its position. */
  lemma BitMapPosRoundTrip(h: Header, a: nat)
    requires h.bitsInBitMapBlock > 0 && a != HEADER_ADDRESS
    requires InRange(h.bitMapBegin, h.bitMapEnd, h.bitMapBegin + a / h.bitsInBitMapBlock)
    ensures BitMapPosFromBlock(h, a).Ok?
    ensures BlockPosFromBitMapPos(h, BitMapPosFromBlock(h, a).value.0, BitMapPosFromBlock(h, a).value.1) == Ok(a)
  {
  }

  /** Round trip from a position: every position of the bitmap area except
      the one of the header address names an address that maps back to it. */
  lemma BlockPosRoundTrip(h: Header, blk: nat, off: nat)
    requires h.bitsInBitMapBlock > 0
    requires InRange(h.bitMapBegin, h.bitMapEnd, blk) && off < h.bitsInBitMapBlock
    requires blk != h.bitMapBegin || off != 0
    ensures BlockPosFromBitMapPos(h, blk, off).Ok?
    ensures BitMapPosFromBlock(h, BlockPosFromBitMapPos(h, blk, off).value) == Ok((blk, off))
  {
    var a := BlockPosFromBitMapPos(h, blk, off).value;
    DivModSplit(a, h.bitsInBitMapBlock);
  }

  /** `descriptorPosFromBlock`: the block and slot of descriptor `i`; index 0
      is invalid, and the block must lie in the descriptor area. */
  function DescriptorPosFromBlock(h: Header, i: nat): (r: Result<(nat, nat)>)
    requires h.descriptorsInBlock > 0
    ensures r.Ok? <==> i != INVALID_DESCRIPTOR_ID
                       && InRange(h.DescriptorsBegin(), h.descriptorsEnd, h.DescriptorsBegin() + i / h.descriptorsInBlock)
    ensures r.Err? ==> r.error == InvalidArgument
    ensures r.Ok? ==> InRange(h.DescriptorsBegin(), h.descriptorsEnd, r.value.0) && r.value.1 < h.descriptorsInBlock
    ensures r.Ok? ==> i == (r.value.0 - h.DescriptorsBegin()) * h.descriptorsInBlock + r.value.1
  {
    if i == INVALID_DESCRIPTOR_ID then Err(InvalidArgument)
    else
      var blk := h.DescriptorsBegin() + i / h.descriptorsInBlock;
      if !InRange(h.DescriptorsBegin(), h.descriptorsEnd, blk) then Err(InvalidArgument)
      else Ok((blk, i % h.descriptorsInBlock))
  }

  /** `blockPosToDescriptorIndex` as written: the block address itself, not
      its distance from the start of the area, is scaled. */
  function BlockPosToDescriptorIndex(h: Header, blk: nat, slot: nat): (r: Result<nat>)
    requires h.descriptorsInBlock > 0
    ensures r.Ok? <==> InRange(h.DescriptorsBegin(), h.descriptorsEnd, blk) && slot < h.descriptorsInBlock
    ensures r.Err? ==> r.error == InvalidArgument
  {
    if InRange(h.DescriptorsBegin(), h.descriptorsEnd, blk) && slot < h.descriptorsInBlock then
      Ok(blk * h.descriptorsInBlock + slot)
    else Err(InvalidArgument)
  }

  /** The index `descriptorPosFromBlock` inverts: the block's distance from the
      start of the area, scaled, plus the slot. */
  function DescriptorIndexFromPos(h: Header, blk: nat, slot: nat): (r: Result<nat>)
    requires h.descriptorsInBlock > 0
    ensures r.Ok? <==> InRange(h.DescriptorsBegin(), h.descriptorsEnd, blk) && slot < h.descriptorsInBlock
    ensures r.Err? ==> r.error == InvalidArgument
  {
    if InRange(h.DescriptorsBegin(), h.descriptorsEnd, blk) && slot < h.descriptorsInBlock then
      Ok((blk - h.DescriptorsBegin()) * h.descriptorsInBlock + slot)
    else Err(InvalidArgument)
  }

  /** The index built as written never names its own position again: it
      lands `descriptorsBegin` blocks further on, or outside the area. */
  lemma BlockPosToDescriptorIndexMisses(h: Header, blk: nat, slot: nat)
    requires h.descriptorsInBlock > 0
    requires InRange(h.DescriptorsBegin(), h.descriptorsEnd, blk) && slot < h.descriptorsInBlock
    ensures BlockPosToDescriptorIndex(h, blk, slot).Ok?
    ensures DescriptorPosFromBlock(h, BlockPosToDescriptorIndex(h, blk, slot).value) != Ok((blk, slot))
  {
    var i := BlockPosToDescriptorIndex(h, blk, slot).value;
    DivModOf(blk, h.descriptorsInBlock, slot);
    assert i / h.descriptorsInBlock == blk;
  }

  /** Round trip for the inverse: every position of the descriptor area except
      the reserved slot 0 of its first block maps back to itself. */
  lemma DescriptorIndexRoundTrip(h: Header, blk: nat, slot: nat)
    requires h.descriptorsInBlock > 0
    requires InRange(h.DescriptorsBegin(), h.descriptorsEnd, blk) && slot < h.descriptorsInBlock
    requires blk != h.DescriptorsBegin() || slot != 0
    ensures DescriptorIndexFromPos(h, blk, slot).Ok?
    ensures DescriptorPosFromBlock(h, DescriptorIndexFromPos(h, blk, slot).value) == Ok((blk, slot))
  {
    DivModOf(blk - h.DescriptorsBegin(), h.descriptorsInBlock, slot);
  }

  /* ---------------------------------------------------------------------- */
  /* What the areas hold, read off the file's blocks.                       */

  /** The bytes of block `i` read as a bitmap block. */
  function BitMapBits(h: Header, m: map<nat, Block>, i: nat): (r: seq<bv8>)
    ensures |r| == h.BitMapBytes()
  {
    AsBitMap(h, BlockOf(m, i))
  }

  /** Bit `k` of bitmap block `blk`. */
  function BlockBit(h: Header, m: map<nat, Block>, blk: nat, k: nat): bool
    requires k < h.bitsInBitMapBlock
  {
    BitFits(k, h.bitsInBitMapBlock);
    BitAt(BitMapBits(h, m, blk), k)
  }

  /** The bit that records block address `a`. */
  function Bit(h: Header, m: map<nat, Block>, a: nat): bool
    requires h.bitsInBitMapBlock > 0
  {
    BlockBit(h, m, h.bitMapBegin + a / h.bitsInBitMapBlock, a % h.bitsInBitMapBlock)
  }

  /** Bit `k` of the `q`-th bitmap block records address `q * n + k`. */
  lemma BitInBlock(h: Header, m: map<nat, Block>, q: nat, k: nat)
    requires k < h.bitsInBitMapBlock
    ensures Bit(h, m, q * h.bitsInBitMapBlock + k) == BlockBit(h, m, h.bitMapBegin + q, k)
  {
    DivModOf(q, h.bitsInBitMapBlock, k);
  }

  /** The descriptors of block `i`. */
  function DescriptorsIn(h: Header, m: map<nat, Block>, i: nat): (r: seq<Descriptor>)
    ensures |r| == h.descriptorsInBlock
  {
    AsDescriptors(h, BlockOf(m, i))
  }

  /** Descriptor `i` as stored in the table. */
  function DescriptorAt(h: Header, m: map<nat, Block>, i: nat): Descriptor
    requires h.descriptorsInBlock > 0
  {
    DescriptorsIn(h, m, h.DescriptorsBegin() + i / h.descriptorsInBlock)[i % h.descriptorsInBlock]
  }

  /** The bitmap block `blk` after `set(off, v)`. */
  function SetBitIn(h: Header, m: map<nat, Block>, blk: nat, off: nat, v: bool): Block
    requires off < h.bitsInBitMapBlock
  {
    BitFits(off, h.bitsInBitMapBlock);
    BitMapData(WithBit(BitMapBits(h, m, blk), off, v))
  }

  /** Writing bit `a` of the bitmap changes that bit alone. */
  lemma SetBitChangesOnlyIt(h: Header, m: map<nat, Block>, a: nat, v: bool, c: nat)
    requires h.bitsInBitMapBlock > 0
    ensures var n := h.bitsInBitMapBlock;
            var blk := h.bitMapBegin + a / n;
            Bit(h, m[blk := SetBitIn(h, m, blk, a % n, v)], c) == if c == a then v else Bit(h, m, c)
  {
    var n := h.bitsInBitMapBlock;
    var blk := h.bitMapBegin + a / n;
    var m' := m[blk := SetBitIn(h, m, blk, a % n, v)];
    var cb, ca, cc := h.bitMapBegin + c / n, a % n, c % n;
    BitFits(ca, n);
    BitFits(cc, n);
    if cb == blk {
      var bytes := BitMapBits(h, m, blk);
      assert BitMapBits(h, m', blk) == WithBit(bytes, ca, v);
      SetBitInBytes(bytes, ca, v, cc);
      SameAddress(a, c, n);
    }
  }

  /** Two addresses are equal exactly when their quotients and remainders are. */
  lemma SameAddress(a: nat, c: nat, n: nat)
    requires n > 0
    ensures a == c <==> a / n == c / n && a % n == c % n
  {
    DivModSplit(a, n);
    DivModSplit(c, n);
  }

  lemma SetBitChangesOnlyThat(h: Header, m: map<nat, Block>, a: nat, v: bool)
    requires h.bitsInBitMapBlock > 0
    ensures var n := h.bitsInBitMapBlock;
            var blk := h.bitMapBegin + a / n;
            var m' := m[blk := SetBitIn(h, m, blk, a % n, v)];
            Bit(h, m', a) == v && forall c: nat :: c != a ==> Bit(h, m', c) == Bit(h, m, c)
  {
    var n := h.bitsInBitMapBlock;
    var blk := h.bitMapBegin + a / n;
    var m' := m[blk := SetBitIn(h, m, blk, a % n, v)];
    forall c: nat ensures Bit(h, m', c) == if c == a then v else Bit(h, m, c) {
      SetBitChangesOnlyIt(h, m, a, v, c);
    }
  }

  /** Storing descriptor `d` in slot `slot` of block `blk`. */
  function WithDescriptor(h: Header, m: map<nat, Block>, blk: nat, slot: nat, d: Descriptor): Block
    requires slot < h.descriptorsInBlock
  {
    DescriptorsData(DescriptorsIn(h, m, blk)[slot := d])
  }

  /** After `updateDescriptor` writes slot `slot` of block `blk`, slot `js`
      of block `jb` holds `d` when it is that slot, and what it held before
      otherwise. */
  lemma SlotUpdate(h: Header, m: map<nat, Block>, blk: nat, slot: nat, d: Descriptor, jb: nat, js: nat)
    requires slot < h.descriptorsInBlock && js < h.descriptorsInBlock && DescriptorFits(h, d)
    ensures DescriptorsIn(h, m[blk := WithDescriptor(h, m, blk, slot, d)], jb)[js]
            == if jb == blk && js == slot then d else DescriptorsIn(h, m, jb)[js]
  {
    if jb == blk {
      var ds := DescriptorsIn(h, m, blk)[slot := d];
      assert forall k :: 0 <= k < |ds| ==> DescriptorFits(h, ds[k]);
    }
  }

  /** Storing a descriptor that fits the layout changes that descriptor alone. */
  lemma WithDescriptorChangesOnlyIt(h: Header, m: map<nat, Block>, i: nat, d: Descriptor, j: nat)
    requires h.descriptorsInBlock > 0 && DescriptorFits(h, d)
    ensures var n := h.descriptorsInBlock;
            var blk := h.DescriptorsBegin() + i / n;
            DescriptorAt(h, m[blk := WithDescriptor(h, m, blk, i % n, d)], j) == if j == i then d else DescriptorAt(h, m, j)
  {
    var n := h.descriptorsInBlock;
    SlotUpdate(h, m, h.DescriptorsBegin() + i / n, i % n, d, h.DescriptorsBegin() + j / n, j % n);
    SameAddress(i, j, n);
  }

  /* ---------------------------------------------------------------------- */
  /* Reading and updating one block.                                        */

  /** On an open file with a valid header, a whole-block read of a block
      other than the header passes exactly when the block size is set. */
  function ReadCheckOf(blockSize: nat, a: nat): Outcome {
    if blockSize == 0 then Fail(BadState) else if a == HEADER_ADDRESS then Fail(InvalidArgument) else Pass
  }

  lemma ReadCheckWhenValid(f: FileAccessor, a: nat, t: SyncType)
    requires f.HeaderExcept().Ok? && t.Reads()
    ensures f.ReadCheck(a, t, 0) == ReadCheckOf(f.blockSize, a)
    ensures f.ReadCheck(a, t, 0).Pass? ==> f.WriteCheck(a, 0).Pass?
  {
  }

  /** Reads block `a` through a temporary read-only handle, which gives its
      buffer back when it is destroyed. */
  method ReadBlock(file: FileAccessor, a: nat) returns (r: Result<Block>)
    requires file.Valid()
    modifies file`blocks, file.pool
    ensures file.Valid() && file.blocks == old(file.blocks)
    ensures r.Ok? <==> file.ReadCheck(a, ReadOnly, 0).Pass?
    ensures r.Err? ==> r.error == file.ReadCheck(a, ReadOnly, 0).error
    ensures r.Ok? ==> r.value == file.BlockAt(a)
  {
    var hd :- file.Read(a, ReadOnly, 0);
    var v := hd.View();
    var _ := hd.Release();
    return Ok(v.value);
  }

  /** A valid read-write handle on block `a` of the file, its buffer taken. */
  ghost predicate Updating(file: FileAccessor, hd: BufferHandle, a: nat)
    reads hd, file.pool
  {
    && hd.pool == file.pool && hd.Valid() && hd.isValid && hd.file == file
    && hd.blockAddress == a && hd.syncType == ReadWrite && hd.buffer != null
  }

  /** Opens block `a` for update: a read-write handle holding the block. */
  method OpenForUpdate(file: FileAccessor, a: nat) returns (r: Result<BufferHandle>)
    requires file.Valid()
    modifies file.pool
    ensures file.Valid()
    ensures r.Ok? <==> file.ReadCheck(a, ReadWrite, 0).Pass?
    ensures r.Err? ==> r.error == file.ReadCheck(a, ReadWrite, 0).error
    ensures r.Ok? ==> fresh(r.value) && Updating(file, r.value, a)
    ensures r.Ok? ==> file.pool.Content(r.value.buffer) == file.BlockAt(a) && file.WriteCheck(a, 0).Pass?
  {
    r := file.Read(a, ReadWrite, 0);
  }

  /** Puts `x` in the handle's buffer and destroys the handle, which writes
      the buffer back to its block. */
  method Commit(file: FileAccessor, hd: BufferHandle, a: nat, x: Block)
    requires file.Valid() && Updating(file, hd, a) && file.WriteCheck(a, 0).Pass?
    modifies hd, file`blocks, file.pool
    ensures file.Valid()
    ensures file.blocks == old(file.blocks)[a := x]
  {
    ghost var m0 := file.blocks;
    var _ := hd.Put(x);
    assert file.blocks == m0;
    assert file.pool.Content(hd.buffer) == x && hd.buffer != null;
    assert file.WriteCheck(a, 0).Pass?;
    var r := hd.Release();
    assert r.Pass?;
    assert file.blocks == m0[a := x];
  }

  /* ---------------------------------------------------------------------- */
  /* The bitmap area.                                                       */

  /** The checks of `readToBuff(i, ReadOnly)` on the bitmap area of an open
      file holding a valid file system. */
  function BitMapReadCheck(h: Header, blockSize: nat, i: nat): Outcome {
    if !InRange(h.bitMapBegin, h.bitMapEnd, i) then Fail(InvalidArgument) else ReadCheckOf(blockSize, i)
  }

  /** Reference definition of what the scan is for: the least address in
      [lo, hi] whose bit is clear, or 0 when every one is set. */
  function FirstFreeAddress(h: Header, m: map<nat, Block>, lo: nat, hi: nat): (r: nat)
    requires h.bitsInBitMapBlock > 0 && lo != HEADER_ADDRESS
    ensures r == HEADER_ADDRESS || (lo <= r <= hi && !Bit(h, m, r))
    ensures forall x: nat :: lo <= x < r || (r == HEADER_ADDRESS && lo <= x <= hi) ==> Bit(h, m, x)
    decreases hi + 1 - lo
  {
    if lo > hi then HEADER_ADDRESS
    else if !Bit(h, m, lo) then lo
    else FirstFreeAddress(h, m, lo + 1, hi)
  }

  /** The first clear bit of bitmap block `blk` in [lo, hi), or `hi`. */
  function ClearIn(h: Header, m: map<nat, Block>, blk: nat, lo: nat, hi: nat): (r: nat)
    requires hi <= h.bitsInBitMapBlock
  {
    BitsFit(h.bitsInBitMapBlock);
    FirstClearIn(BitMapBits(h, m, blk), lo, hi)
  }

  /** Phase 1 of `findFirstFreeBlock`: only when `begin` is not the first bit
      of its bitmap block, the rest of that block (up to `end` when both share
      the block) is scanned. `None` means the scan goes on to phase 2. */
  function FirstPhase(h: Header, blockSize: nat, m: map<nat, Block>, bb: nat, bo: nat, eb: nat, eo: nat): Option<Result<nat>>
    requires h.bitsInBitMapBlock > 0 && eo < h.bitsInBitMapBlock
  {
    if bo == 0 then None
    else if BitMapReadCheck(h, blockSize, bb).Fail? then Some(Err(BitMapReadCheck(h, blockSize, bb).error))
    else
      var endBit := if bb == eb then eo + 1 else h.bitsInBitMapBlock;
      var off := ClearIn(h, m, bb, bo, endBit);
      if off == endBit then (if bb == eb then Some(Ok(HEADER_ADDRESS)) else None)
      else Some(BlockPosFromBitMapPos(h, bb, off))
  }

  /** Phase 2: every bitmap block from `i` up to, not including, `eb` is
      scanned whole. */
  function MiddlePhase(h: Header, blockSize: nat, m: map<nat, Block>, i: nat, eb: nat): Option<Result<nat>>
    requires h.bitsInBitMapBlock > 0
    decreases eb - i
  {
    if i >= eb then None
    else if BitMapReadCheck(h, blockSize, i).Fail? then Some(Err(BitMapReadCheck(h, blockSize, i).error))
    else
      var off := ClearIn(h, m, i, 0, h.bitsInBitMapBlock);
      if off != h.bitsInBitMapBlock then Some(BlockPosFromBitMapPos(h, i, off))
      else MiddlePhase(h, blockSize, m, i + 1, eb)
  }

  /** Phase 3: when `end` is not the first bit of its bitmap block, the bits
      up to it are scanned in the block read at address `end` itself, and an
      offset found there is placed in `end`'s bitmap block. */
  function LastPhase(h: Header, blockSize: nat, m: map<nat, Block>, end: nat, eb: nat, eo: nat): Result<nat>
    requires h.bitsInBitMapBlock > 0 && eo < h.bitsInBitMapBlock
  {
    if eo == 0 then Ok(HEADER_ADDRESS)
    else if BitMapReadCheck(h, blockSize, end).Fail? then Err(BitMapReadCheck(h, blockSize, end).error)
    else
      var off := ClearIn(h, m, end, 0, eo + 1);
      if off != eo + 1 then BlockPosFromBitMapPos(h, eb, off) else Ok(HEADER_ADDRESS)
  }

  /** `findFirstFreeBlock(begin, end)` on an open file holding a valid file
      system, phase by phase as written. */
  function FirstFreeScan(h: Header, blockSize: nat, m: map<nat, Block>, begin: nat, end: nat): Result<nat>
    requires h.bitsInBitMapBlock > 0
  {
    if begin == HEADER_ADDRESS || end == HEADER_ADDRESS then Err(InvalidArgument)
    else
      var n := h.bitsInBitMapBlock;
      ScanPhases(h, blockSize, m, h.bitMapBegin + begin / n, begin % n, h.bitMapBegin + end / n, end % n, end)
  }

  /** The three phases, given the positions of both ends. */
  function ScanPhases(h: Header, blockSize: nat, m: map<nat, Block>, bb: nat, bo: nat, eb: nat, eo: nat, end: nat): Result<nat>
    requires h.bitsInBitMapBlock > 0 && eo < h.bitsInBitMapBlock
  {
    var first := FirstPhase(h, blockSize, m, bb, bo, eb, eo);
    if first.Some? then first.value
    else
      var middle := MiddlePhase(h, blockSize, m, bb + 1, eb);
      if middle.Some? then middle.value
      else LastPhase(h, blockSize, m, end, eb, eo)
  }

  /** Scanning offsets [lo, hi] of one bitmap block is scanning the addresses
      `begin = base + lo` to `end = base + hi` those offsets record. */
  lemma {:induction false} ScanOffsets(h: Header, m: map<nat, Block>, blk: nat, base: nat, lo: nat, hi: nat,
                                       begin: nat, end: nat)
    requires hi < h.bitsInBitMapBlock && begin != HEADER_ADDRESS
    requires begin == base + lo && end == base + hi
    requires forall k :: lo <= k <= hi ==> Bit(h, m, base + k) == BlockBit(h, m, blk, k)
    ensures var off := ClearIn(h, m, blk, lo, hi + 1);
            && (off == hi + 1 <==> FirstFreeAddress(h, m, begin, end) == HEADER_ADDRESS)
            && (off != hi + 1 ==> FirstFreeAddress(h, m, begin, end) == base + off)
    decreases hi + 1 - lo
  {
    if lo > hi {
      assert ClearIn(h, m, blk, lo, hi + 1) == hi + 1;
    } else if !BlockBit(h, m, blk, lo) {
      assert ClearIn(h, m, blk, lo, hi + 1) == lo;
      assert !Bit(h, m, begin);
    } else {
      assert ClearIn(h, m, blk, lo, hi + 1) == ClearIn(h, m, blk, lo + 1, hi + 1);
      assert Bit(h, m, begin);
      ScanOffsets(h, m, blk, base, lo + 1, hi, begin + 1, end);
    }
  }

  /** Begin and end in the same bitmap block, begin not its first bit: the
      scan finds the least free address of [begin, end], or 0 when there is
      none. */
  lemma FirstFreeScanSameBlock(h: Header, blockSize: nat, m: map<nat, Block>, begin: nat, end: nat)
    requires h.bitsInBitMapBlock > 0 && begin != HEADER_ADDRESS && end != HEADER_ADDRESS
    requires begin / h.bitsInBitMapBlock == end / h.bitsInBitMapBlock && begin % h.bitsInBitMapBlock != 0
    requires BitMapReadCheck(h, blockSize, h.bitMapBegin + begin / h.bitsInBitMapBlock).Pass?
    ensures FirstFreeScan(h, blockSize, m, begin, end) == Ok(FirstFreeAddress(h, m, begin, end))
  {
    var n := h.bitsInBitMapBlock;
    var q, lo, hi := end / n, begin % n, end % n;
    var bb := h.bitMapBegin + q;
    assert FirstFreeScan(h, blockSize, m, begin, end) == ScanPhases(h, blockSize, m, bb, lo, bb, hi, end);
    var base := SameBlockSplit(begin, end, n);
    FirstPhaseOneBlock(h, blockSize, m, q, base, lo, hi, begin, end);
    assert ScanPhases(h, blockSize, m, bb, lo, bb, hi, end) == Ok(FirstFreeAddress(h, m, begin, end));
  }

  /** Two addresses of the same bitmap block are its first address plus
      their offsets. */
  lemma SameBlockSplit(begin: nat, end: nat, n: nat) returns (base: nat)
    requires n > 0 && begin / n == end / n
    ensures base == (end / n) * n && begin == base + begin % n && end == base + end % n
  {
    DivModSplit(begin, n);
    DivModSplit(end, n);
    base := (end / n) * n;
  }

  lemma FirstPhaseOneBlock(h: Header, blockSize: nat, m: map<nat, Block>, q: nat, base: nat, lo: nat, hi: nat,
                            begin: nat, end: nat)
    requires 0 < lo && hi < h.bitsInBitMapBlock && base == q * h.bitsInBitMapBlock
    requires begin == base + lo && end == base + hi
    requires BitMapReadCheck(h, blockSize, h.bitMapBegin + q).Pass?
    ensures var bb := h.bitMapBegin + q;
            FirstPhase(h, blockSize, m, bb, lo, bb, hi) == Some(Ok(FirstFreeAddress(h, m, begin, end)))
  {
    var bb := h.bitMapBegin + q;
    var off := ClearIn(h, m, bb, lo, hi + 1);
    FirstPhaseInOneBlock(h, blockSize, m, bb, lo, hi);
    OffsetsAsAddresses(h, m, q, base, lo, hi, begin, end);
    if off == hi + 1 {
      assert FirstPhase(h, blockSize, m, bb, lo, bb, hi) == Some(Ok(HEADER_ADDRESS));
    } else {
      BlockPosOf(h, q, base, off);
      assert FirstPhase(h, blockSize, m, bb, lo, bb, hi) == Some(Ok(base + off));
    }
  }

  /** Phase 1 when both ends share a bitmap block: it always decides. */
  lemma FirstPhaseInOneBlock(h: Header, blockSize: nat, m: map<nat, Block>, bb: nat, lo: nat, hi: nat)
    requires 0 < lo && hi < h.bitsInBitMapBlock
    requires BitMapReadCheck(h, blockSize, bb).Pass?
    ensures var off := ClearIn(h, m, bb, lo, hi + 1);
            FirstPhase(h, blockSize, m, bb, lo, bb, hi)
              == if off == hi + 1 then Some(Ok(HEADER_ADDRESS)) else Some(BlockPosFromBitMapPos(h, bb, off))
  {
  }

  /** Bit `off` of the `q`-th bitmap block records address `q * n + off`. */
  lemma BlockPosOf(h: Header, q: nat, base: nat, off: nat)
    requires off < h.bitsInBitMapBlock && base == q * h.bitsInBitMapBlock
    requires InRange(h.bitMapBegin, h.bitMapEnd, h.bitMapBegin + q)
    ensures BlockPosFromBitMapPos(h, h.bitMapBegin + q, off) == Ok(base + off)
  {
  }

  /** Scanning offsets [lo, hi] of the `q`-th bitmap block is scanning the
      addresses they record. */
  lemma OffsetsAsAddresses(h: Header, m: map<nat, Block>, q: nat, base: nat, lo: nat, hi: nat, begin: nat, end: nat)
    requires 0 < lo && hi < h.bitsInBitMapBlock && base == q * h.bitsInBitMapBlock
    requires begin == base + lo && end == base + hi
    ensures var off := ClearIn(h, m, h.bitMapBegin + q, lo, hi + 1);
            && (off == hi + 1 <==> FirstFreeAddress(h, m, begin, end) == HEADER_ADDRESS)
            && (off != hi + 1 ==> FirstFreeAddress(h, m, begin, end) == base + off)
  {
    var bb := h.bitMapBegin + q;
    BitsOfBlock(h, m, q, bb, base, lo, hi);
    ScanOffsets(h, m, bb, base, lo, hi, begin, end);
  }

  /** The bits of offsets [lo, hi] of the `q`-th bitmap block are the bits
      of the addresses they record. */
  lemma BitsOfBlock(h: Header, m: map<nat, Block>, q: nat, bb: nat, base: nat, lo: nat, hi: nat)
    requires hi < h.bitsInBitMapBlock && base == q * h.bitsInBitMapBlock && bb == h.bitMapBegin + q
    ensures forall k :: lo <= k <= hi ==> Bit(h, m, base + k) == BlockBit(h, m, bb, k)
  {
    forall k | lo <= k <= hi
      ensures Bit(h, m, base + k) == BlockBit(h, m, bb, k)
    {
      BitInBlock(h, m, q, k);
    }
  }

  /** What phase 2 returns is a free address of the blocks it scans, and every
      address of those blocks before it is in use. */
  lemma {:induction false} MiddlePhaseFinds(h: Header, blockSize: nat, m: map<nat, Block>, i: nat, eb: nat, x: nat)
    requires h.bitsInBitMapBlock > 0 && h.bitMapBegin <= i
    requires MiddlePhase(h, blockSize, m, i, eb) == Some(Ok(x))
    ensures (i - h.bitMapBegin) * h.bitsInBitMapBlock <= x < (eb - h.bitMapBegin) * h.bitsInBitMapBlock
    ensures !Bit(h, m, x)
    ensures forall y: nat :: (i - h.bitMapBegin) * h.bitsInBitMapBlock <= y < x ==> Bit(h, m, y)
    decreases eb - i
  {
    var n := h.bitsInBitMapBlock;
    var q: nat := i - h.bitMapBegin;
    MulMono(0, q, n);
    var base: nat := q * n;
    var off := ClearIn(h, m, i, 0, n);
    assert i < eb && BitMapReadCheck(h, blockSize, i).Pass?;
    assert MiddlePhase(h, blockSize, m, i, eb) ==
      if off != n then Some(BlockPosFromBitMapPos(h, i, off)) else MiddlePhase(h, blockSize, m, i + 1, eb);
    BlockScan(h, m, q, off);
    assert base + n == (q + 1) * n;
    MulMono(q + 1, eb - h.bitMapBegin, n);
    if off != n {
      BlockPosOf(h, q, base, off);
    } else {
      MiddlePhaseFinds(h, blockSize, m, i + 1, eb, x);
    }
  }

  /** Read as addresses, the first clear bit of the `q`-th bitmap block is a
      free address and every address of the block before it is in use. */
  lemma BlockScan(h: Header, m: map<nat, Block>, q: nat, off: nat)
    requires h.bitsInBitMapBlock > 0
    requires off == ClearIn(h, m, h.bitMapBegin + q, 0, h.bitsInBitMapBlock)
    ensures var base := q * h.bitsInBitMapBlock;
            && (forall y: nat :: base <= y < base + off ==> Bit(h, m, y))
            && (off != h.bitsInBitMapBlock ==> !Bit(h, m, base + off))
  {
    var n := h.bitsInBitMapBlock;
    var base := q * n;
    forall y: nat | base <= y < base + off
      ensures Bit(h, m, y)
    {
      BitInBlock(h, m, q, y - base);
    }
    if off != n {
      BitInBlock(h, m, q, off);
    }
  }

  /** The scan as written skips the first bitmap block when `begin` is its
      first bit: every address of this range is free, yet the scan reports
      none. */
  lemma FirstFreeScanSkipsFirstBlock()
    ensures var h := ScanHeader();
            FirstFreeAddress(h, map[], 8, 16) == 8 && FirstFreeScan(h, 1024, map[], 8, 16) == Ok(HEADER_ADDRESS)
  {
    var h := ScanHeader();
    assert !Bit(h, map[], 8);
  }

  /** The scan as written reads phase 3's bits from block `end`, which is not
      a bitmap block here, so it fails although address 16 is free. */
  lemma FirstFreeScanReadsEnd()
    ensures var h := ScanHeader();
            var m := map[2 := BitMapData([0xFF])];
            FirstFreeAddress(h, m, 9, 17) == 16 && FirstFreeScan(h, 1024, m, 9, 17) == Err(InvalidArgument)
  {
    var h := ScanHeader();
    var m := map[2 := BitMapData([0xFF])];
    assert forall x: nat :: 9 <= x < 16 ==> Bit(h, m, x) by {
      forall x: nat | 9 <= x < 16 ensures Bit(h, m, x) {
        assert h.bitMapBegin + x / 8 == 2;
        assert BitMapBits(h, m, 2) == [0xFF];
        assert x % 8 < 8;
        assert [0xFF as bv8][0] & Mask(x % 8) != 0;
      }
    }
    assert !Bit(h, m, 16);
    assert FirstFreeAddress(h, m, 9, 17) == 16 by {
      FirstFreeSkipsSet(h, m, 9, 16, 17);
    }
    assert BitAt(BitMapBits(h, m, 2), 1);
    assert FirstClearIn(BitMapBits(h, m, 2), 1, 8) == 8 by {
      FirstClearAllSet(BitMapBits(h, m, 2), 1, 8);
    }
  }

  /** Over a stretch of set bits the reference scan moves on to the next one. */
  lemma {:induction false} FirstFreeSkipsSet(h: Header, m: map<nat, Block>, lo: nat, x: nat, hi: nat)
    requires h.bitsInBitMapBlock > 0 && lo != HEADER_ADDRESS && lo <= x <= hi + 1
    requires forall y: nat :: lo <= y < x ==> Bit(h, m, y)
    ensures FirstFreeAddress(h, m, lo, hi) == FirstFreeAddress(h, m, x, hi)
    decreases x - lo
  {
    if lo < x {
      FirstFreeSkipsSet(h, m, lo + 1, x, hi);
    }
  }

  lemma {:induction false} FirstClearAllSet(bytes: seq<bv8>, lo: nat, hi: nat)
    requires hi <= 8 * |bytes|
    requires forall j :: lo <= j < hi ==> BitAt(bytes, j)
    ensures FirstClearIn(bytes, lo, hi) == hi
    decreases hi - lo
  {
    if lo < hi {
      FirstClearAllSet(bytes, lo + 1, hi);
    }
  }

  /** A small header for the scan examples: eight bits per bitmap block and
      the bitmap in blocks 1 to 3. */
  function ScanHeader(): (h: Header)
    ensures h.bitsInBitMapBlock == 8 && h.BitMapBytes() == 1 && h.bitMapBegin == 1 && h.bitMapEnd == 3
  {
    InitHeader(DEFAULT_BLOCK_BYTE_SIZE, MAX_FILENAME, 1, 8, 2, 4, 4).(bitMapBegin := 1, bitMapEnd := 3)
  }

  class BitMapArea {
    const file: FileAccessor

    constructor (f: FileAccessor)
      ensures file == f
    {
      file := f;
    }

    function AreaBegin(): (r: Result<nat>)
      reads file
      ensures r.Ok? <==> file.HeaderExcept().Ok?
      ensures r.Ok? ==> r.value == file.header.bitMapBegin
    {
      var h :- file.HeaderExcept();
      Ok(h.bitMapBegin)
    }

    function AreaEnd(): (r: Result<nat>)
      reads file
      ensures r.Ok? <==> file.HeaderExcept().Ok?
      ensures r.Ok? ==> r.value == file.header.bitMapEnd
    {
      var h :- file.HeaderExcept();
      Ok(h.bitMapEnd)
    }

    /** `get(a)`: whether block address `a` is marked used. */
    method Get(a: nat) returns (r: Result<bool>)
      requires file.Valid() && Sane(file)
      modifies file`blocks, file.pool
      ensures file.Valid() && file.blocks == old(file.blocks)
      ensures a == HEADER_ADDRESS ==> r == Err(InvalidArgument)
      ensures a != HEADER_ADDRESS && file.HeaderExcept().Err? ==> r == Err(file.HeaderExcept().error)
      ensures a != HEADER_ADDRESS && file.HeaderExcept().Ok? ==>
        var blk := file.header.bitMapBegin + a / file.header.bitsInBitMapBlock;
        && (r.Ok? <==> ReadCheckOf(file.blockSize, blk).Pass?)
        && (r.Ok? ==> r.value == Bit(file.header, file.blocks, a))
    {
      if a == HEADER_ADDRESS {
        return Err(InvalidArgument);
      }
      var h :- file.HeaderExcept();
      var pos := BitMapPosFromBlock(h, a).value;
      ReadCheckWhenValid(file, pos.0, ReadOnly);
      var b :- ReadBlock(file, pos.0);
      BitFits(pos.1, h.bitsInBitMapBlock);
      return Ok(BitAt(AsBitMap(h, b), pos.1));
    }

    /** `set(a, v)`: afterwards the bit of `a` reads `v` and every other bit
        reads as before; only that bitmap block is written. */
    method Set(a: nat, v: bool) returns (r: Outcome)
      requires file.Valid() && Sane(file)
      modifies file`blocks, file.pool
      ensures file.Valid()
      ensures a == HEADER_ADDRESS ==> r == Fail(InvalidArgument)
      ensures a != HEADER_ADDRESS && file.HeaderExcept().Err? ==> r == Fail(file.HeaderExcept().error)
      ensures r.Fail? ==> file.blocks == old(file.blocks)
      ensures a != HEADER_ADDRESS && file.HeaderExcept().Ok? ==>
        var h := file.header;
        var blk := h.bitMapBegin + a / h.bitsInBitMapBlock;
        && (r.Pass? <==> ReadCheckOf(file.blockSize, blk).Pass?)
        && (r.Pass? ==> file.blocks == old(file.blocks)[blk := SetBitIn(h, old(file.blocks), blk, a % h.bitsInBitMapBlock, v)])
      ensures r.Pass? ==> Bit(file.header, file.blocks, a) == v
      ensures r.Pass? ==> forall c: nat :: c != a ==> Bit(file.header, file.blocks, c) == Bit(file.header, old(file.blocks), c)
    {
      if a == HEADER_ADDRESS {
        return Fail(InvalidArgument);
      }
      var hr := file.HeaderExcept();
      if hr.Err? {
        return Fail(hr.error);
      }
      var h := hr.value;
      var pos := BitMapPosFromBlock(h, a).value;
      ReadCheckWhenValid(file, pos.0, ReadWrite);
      var hd := OpenForUpdate(file, pos.0);
      if hd.Err? {
        return Fail(hd.error);
      }
      BitFits(pos.1, h.bitsInBitMapBlock);
      var bitBlock := new BitMapBlock(AsBitMap(h, file.pool.Content(hd.value.buffer)));
      bitBlock.Set(pos.1, v);
      ghost var m0 := file.blocks;
      Commit(file, hd.value, pos.0, BitMapData(bitBlock.bits[..]));
      assert file.blocks == m0[pos.0 := SetBitIn(h, m0, pos.0, pos.1, v)];
      SetBitChangesOnlyThat(h, m0, a, v);
      return Pass;
    }

    /** `findFirstFreeBlock(begin, end)`, both ends included, phase by phase
        as written. */
    method FindFirstFreeBlock(begin: nat, end: nat) returns (r: Result<nat>)
      requires file.Valid() && Sane(file)
      modifies file`blocks, file.pool
      ensures file.Valid() && file.blocks == old(file.blocks)
      ensures begin == HEADER_ADDRESS ==> r == Err(InvalidArgument)
      ensures begin != HEADER_ADDRESS && file.HeaderExcept().Err? ==> r == Err(file.HeaderExcept().error)
      ensures file.HeaderExcept().Ok? ==> r == FirstFreeScan(file.header, file.blockSize, file.blocks, begin, end)
    {
      if begin == HEADER_ADDRESS {
        return Err(InvalidArgument);
      }
      var checked := file.HeaderExcept();
      if checked.Err? {
        return Err(checked.error);
      }
      if end == HEADER_ADDRESS {
        return Err(InvalidArgument);
      }
      var h := file.header;
      var n := h.bitsInBitMapBlock;
      var bb, bo := h.bitMapBegin + begin / n, begin % n;
      var eb, eo := h.bitMapBegin + end / n, end % n;
      r := ScanAll(bb, bo, eb, eo, end);
    }

    /** `findFirstFreeBlock(begin, end)` as evidently intended: the least
        address of [begin, end] whose bit is clear, found by asking `get`
        address by address, or 0 when every bit there is set. It succeeds
        whenever the bitmap block of every address it asks about can be
        read. */
    method FindFirstFreeBlockAsIntended(begin: nat, end: nat) returns (r: Result<nat>)
      requires file.Valid() && Sane(file)
      modifies file`blocks, file.pool
      ensures file.Valid() && file.blocks == old(file.blocks)
      ensures begin == HEADER_ADDRESS ==> r == Err(InvalidArgument)
      ensures begin != HEADER_ADDRESS && file.HeaderExcept().Err? ==> r == Err(file.HeaderExcept().error)
      ensures begin != HEADER_ADDRESS && file.HeaderExcept().Ok? && end == HEADER_ADDRESS ==> r == Err(InvalidArgument)
      ensures r.Ok? ==> r.value == FirstFreeAddress(file.header, file.blocks, begin, end)
      ensures && begin != HEADER_ADDRESS && end != HEADER_ADDRESS && file.HeaderExcept().Ok?
              && (forall a: nat :: begin <= a <= end ==>
                    ReadCheckOf(file.blockSize, file.header.bitMapBegin + a / file.header.bitsInBitMapBlock).Pass?)
              ==> r == Ok(FirstFreeAddress(file.header, file.blocks, begin, end))
    {
      if begin == HEADER_ADDRESS {
        return Err(InvalidArgument);
      }
      var checked := file.HeaderExcept();
      if checked.Err? {
        return Err(checked.error);
      }
      if end == HEADER_ADDRESS {
        return Err(InvalidArgument);
      }
      var a := begin;
      while a <= end
        invariant begin <= a
        invariant file.Valid() && file.blocks == old(file.blocks) && file.HeaderExcept().Ok?
        invariant FirstFreeAddress(file.header, file.blocks, begin, end) == FirstFreeAddress(file.header, file.blocks, a, end)
        decreases end + 1 - a
      {
        var used := Get(a);
        if used.Err? {
          return Err(used.error);
        }
        if !used.value {
          return Ok(a);
        }
        a := a + 1;
      }
      return Ok(HEADER_ADDRESS);
    }

    /** The three phases in turn. */
    method ScanAll(bb: nat, bo: nat, eb: nat, eo: nat, end: nat) returns (r: Result<nat>)
      requires file.Valid() && file.HeaderExcept().Ok? && SaneCapacities(file.header) && eo < file.header.bitsInBitMapBlock
      modifies file`blocks, file.pool
      ensures file.Valid() && file.blocks == old(file.blocks)
      ensures r == ScanPhases(file.header, file.blockSize, file.blocks, bb, bo, eb, eo, end)
    {
      var first := ScanFirst(bb, bo, eb, eo);
      if first.Some? {
        return first.value;
      }
      var middle := ScanMiddle(bb + 1, eb);
      if middle.Some? {
        return middle.value;
      }
      r := ScanLast(end, eb, eo);
    }

    /** Phase 1 of the scan. */
    method ScanFirst(bb: nat, bo: nat, eb: nat, eo: nat) returns (r: Option<Result<nat>>)
      requires file.Valid() && file.HeaderExcept().Ok? && SaneCapacities(file.header) && eo < file.header.bitsInBitMapBlock
      modifies file`blocks, file.pool
      ensures file.Valid() && file.blocks == old(file.blocks)
      ensures r == FirstPhase(file.header, file.blockSize, file.blocks, bb, bo, eb, eo)
    {
      if bo == 0 {
        return None;
      }
      var n := file.header.bitsInBitMapBlock;
      var bits := ReadBitMap(bb);
      if bits.Err? {
        return Some(Err(bits.error));
      }
      var endBit := if bb == eb then eo + 1 else n;
      BitsFit(n);
      var bitBlock := new BitMapBlock(bits.value);
      var offset := bitBlock.FindFirstZero(bo, endBit);
      if offset == endBit {
        return if bb == eb then Some(Ok(HEADER_ADDRESS)) else None;
      }
      return Some(BlockPosFromBitMapPos(file.header, bb, offset));
    }

    /** Phase 2 of the scan: the bitmap blocks from `from` up to, not
        including, `eb`. */
    method ScanMiddle(from: nat, eb: nat) returns (r: Option<Result<nat>>)
      requires file.Valid() && file.HeaderExcept().Ok? && SaneCapacities(file.header)
      modifies file`blocks, file.pool
      ensures file.Valid() && file.blocks == old(file.blocks)
      ensures r == MiddlePhase(file.header, file.blockSize, file.blocks, from, eb)
    {
      var n := file.header.bitsInBitMapBlock;
      BitsFit(n);
      var i := from;
      while i < eb
        invariant from <= i || eb <= from
        invariant file.Valid() && file.blocks == old(file.blocks)
        invariant MiddlePhase(file.header, file.blockSize, file.blocks, from, eb)
               == MiddlePhase(file.header, file.blockSize, file.blocks, i, eb)
        decreases eb - i
      {
        var bits := ReadBitMap(i);
        if bits.Err? {
          return Some(Err(bits.error));
        }
        var bitBlock := new BitMapBlock(bits.value);
        var offset := bitBlock.FindFirstZero(0, n);
        if offset != n {
          return Some(BlockPosFromBitMapPos(file.header, i, offset));
        }
        i := i + 1;
      }
      return None;
    }

    /** Phase 3 of the scan, reading block `end`. */
    method ScanLast(end: nat, eb: nat, eo: nat) returns (r: Result<nat>)
      requires file.Valid() && file.HeaderExcept().Ok? && SaneCapacities(file.header) && eo < file.header.bitsInBitMapBlock
      modifies file`blocks, file.pool
      ensures file.Valid() && file.blocks == old(file.blocks)
      ensures r == LastPhase(file.header, file.blockSize, file.blocks, end, eb, eo)
    {
      if eo == 0 {
        return Ok(HEADER_ADDRESS);
      }
      BitsFit(file.header.bitsInBitMapBlock);
      var bits :- ReadBitMap(end);
      var bitBlock := new BitMapBlock(bits);
      var offset := bitBlock.FindFirstZero(0, eo + 1);
      if offset != eo + 1 {
        return BlockPosFromBitMapPos(file.header, eb, offset);
      }
      return Ok(HEADER_ADDRESS);
    }

    /** `readToBuff<FSBitMapBlock>(i, ReadOnly)`, taking the bits and
        destroying the handle. */
    method ReadBitMap(i: nat) returns (r: Result<seq<bv8>>)
      requires file.Valid() && file.HeaderExcept().Ok?
      modifies file`blocks, file.pool
      ensures file.Valid() && file.blocks == old(file.blocks)
      ensures r.Ok? <==> BitMapReadCheck(file.header, file.blockSize, i).Pass?
      ensures r.Err? ==> r.error == BitMapReadCheck(file.header, file.blockSize, i).error
      ensures r.Ok? ==> r.value == BitMapBits(file.header, file.blocks, i)
    {
      var h := file.HeaderExcept().value;
      if !InRange(h.bitMapBegin, h.bitMapEnd, i) {
        return Err(InvalidArgument);
      }
      ReadCheckWhenValid(file, i, ReadOnly);
      var b :- ReadBlock(file, i);
      return Ok(AsBitMap(h, b));
    }

    /** `initBlocks`: zero-fills the whole bitmap area, so that every address
        whose bit lies in it reads as free. */
    method InitBlocks() returns (r: Outcome)
      requires Sane(file)
      modifies file`blocks
      ensures r.Fail? ==> file.blocks == old(file.blocks)
      ensures file.HeaderExcept().Err? ==> r == Fail(file.HeaderExcept().error)
      ensures file.HeaderExcept().Ok? && file.blockSize != 0 && file.header.bitMapBegin <= file.header.bitMapEnd ==>
        r == file.FormattedCheck(file.header.bitMapBegin)
      ensures r.Pass? ==> file.blocks == ClearedRange(old(file.blocks), file.header.bitMapBegin, file.header.bitMapEnd + 1)
      ensures r.Pass? ==> forall a: nat :: InRange(file.header.bitMapBegin, file.header.bitMapEnd,
                                               file.header.bitMapBegin + a / file.header.bitsInBitMapBlock)
                                      ==> !Bit(file.header, file.blocks, a)
    {
      var h := file.HeaderExcept();
      if h.Err? {
        return Fail(h.error);
      }
      r := file.ClearBlocks(h.value.bitMapBegin, h.value.bitMapEnd);
      if r.Pass? {
        ClearedBitMapIsClear(h.value, old(file.blocks));
      }
    }
  }

  /** Once the bitmap blocks are zeroed, every bit they record is clear. */
  lemma ClearedBitMapIsClear(h: Header, m: map<nat, Block>)
    requires h.bitsInBitMapBlock > 0
    ensures var m' := ClearedRange(m, h.bitMapBegin, h.bitMapEnd + 1);
            forall a: nat :: InRange(h.bitMapBegin, h.bitMapEnd, h.bitMapBegin + a / h.bitsInBitMapBlock) ==> !Bit(h, m', a)
  {
    var n := h.bitsInBitMapBlock;
    var m' := ClearedRange(m, h.bitMapBegin, h.bitMapEnd + 1);
    forall a: nat | InRange(h.bitMapBegin, h.bitMapEnd, h.bitMapBegin + a / n)
      ensures !Bit(h, m', a)
    {
      ClearedRangeAt(m, h.bitMapBegin, h.bitMapEnd + 1, h.bitMapBegin + a / n);
    }
  }

  /* ---------------------------------------------------------------------- */
  /* The descriptor table.                                                  */

  /** The type test of `getDescriptor` as written: a request for a variant
      other than Any fails when the stored variant SHARES a flag with it. */
  function VariantCheck(stored: Variant, requested: Variant): (r: Outcome)
    ensures r.Fail? ==> r.error == FileSystemError
  {
    if requested != VAny && And(stored, requested) != 0 then Fail(FileSystemError) else Pass
  }

  /** Because of that, a typed request refuses a descriptor of exactly the
      requested kind, and accepts an unused slot. */
  lemma VariantCheckRefusesOwnKind(k: Variant)
    requires k == VFile || k == VDirectory || k == VSymLink
    ensures VariantCheck(k, k) == Fail(FileSystemError)
    ensures VariantCheck(VNone, k) == Pass
  {
    assert And(k, k) == k;
    assert And(VNone, k) == 0;
  }

  /** The type test `getDescriptor` evidently intends: a typed request fails
      when the stored variant shares NO flag with it. */
  function VariantCheckAsIntended(stored: Variant, requested: Variant): (r: Outcome)
    ensures r.Fail? ==> r.error == FileSystemError
  {
    if requested != VAny && And(stored, requested) == 0 then Fail(FileSystemError) else Pass
  }

  /** The corrected test accepts a descriptor of the requested kind and
      refuses an unused slot; on an untyped request, the only one the driver
      makes, it agrees with the test as written. */
  lemma VariantCheckAsIntendedAcceptsOwnKind(k: Variant, stored: Variant)
    requires k == VFile || k == VDirectory || k == VSymLink
    ensures VariantCheckAsIntended(k, k) == Pass
    ensures VariantCheckAsIntended(VNone, k) == Fail(FileSystemError)
    ensures VariantCheckAsIntended(stored, VAny) == VariantCheck(stored, VAny) == Pass
  {
    assert And(k, k) == k;
    assert And(VNone, k) == 0;
  }

  /** The first unused slot at or after `start`, or `start` itself when every
      slot from there on is in use. */
  function FreeSlot(ds: seq<Descriptor>, start: nat): (slot: nat)
    ensures slot == start || (start <= slot < |ds| && ds[slot].variant == VNone)
    ensures forall k :: start <= k < slot ==> ds[k].variant != VNone
    ensures (exists k :: start <= k < |ds| && ds[k].variant == VNone) ==> start <= slot < |ds| && ds[slot].variant == VNone
    decreases |ds| - start
  {
    if start >= |ds| then start
    else if ds[start].variant == VNone then start
    else
      var s := FreeSlot(ds, start + 1);
      if s == start + 1 && !(start + 1 < |ds| && ds[start + 1].variant == VNone) then start else s
  }

  /** When the block is full, `appendDescriptor` as written overwrites the
      slot it started from, which holds a descriptor in use. */
  lemma AppendOverwritesWhenFull(ds: seq<Descriptor>, start: nat)
    requires start < |ds| && forall k :: start <= k < |ds| ==> ds[k].variant != VNone
    ensures FreeSlot(ds, start) == start && ds[start].variant != VNone
  {
  }

  /** `appendDescriptor` returns the slot inside the block; read as a
      descriptor index, it names a slot of the first descriptor block, not
      the one just written, whenever the block is another one. */
  lemma AppendedSlotIsNotAnIndex(h: Header, blk: nat, slot: nat)
    requires h.descriptorsInBlock > 0 && slot < h.descriptorsInBlock && blk != h.DescriptorsBegin()
    ensures DescriptorPosFromBlock(h, slot) != Ok((blk, slot))
  {
    DivModOf(0, h.descriptorsInBlock, slot);
  }

  class DescriptorsArea {
    const file: FileAccessor

    constructor (f: FileAccessor)
      ensures file == f
    {
      file := f;
    }

    function AreaBegin(): (r: Result<nat>)
      reads file
      ensures r.Ok? <==> file.HeaderExcept().Ok?
      ensures r.Ok? ==> r.value == file.header.DescriptorsBegin()
    {
      var h :- file.HeaderExcept();
      Ok(h.DescriptorsBegin())
    }

    function AreaEnd(): (r: Result<nat>)
      reads file
      ensures r.Ok? <==> file.HeaderExcept().Ok?
      ensures r.Ok? ==> r.value == file.header.descriptorsEnd
    {
      var h :- file.HeaderExcept();
      Ok(h.descriptorsEnd)
    }

    /** `getDescriptor(i, t)`: descriptor `i` as stored, refused when its
        variant shares a flag with a requested variant other than Any. */
    method GetDescriptor(i: nat, t: Variant) returns (r: Result<Descriptor>)
      requires file.Valid() && Sane(file)
      modifies file`blocks, file.pool
      ensures file.Valid() && file.blocks == old(file.blocks)
      ensures i == INVALID_DESCRIPTOR_ID ==> r == Err(InvalidArgument)
      ensures i != INVALID_DESCRIPTOR_ID && file.HeaderExcept().Err? ==> r == Err(file.HeaderExcept().error)
      ensures file.HeaderExcept().Ok? && DescriptorPosFromBlock(file.header, i).Err? ==> r == Err(InvalidArgument)
      ensures file.HeaderExcept().Ok? && file.blockSize == 0 ==> r.Err?
      ensures Ready(file) && DescriptorPosFromBlock(file.header, i).Ok? ==>
        var d := DescriptorAt(file.header, file.blocks, i);
        r == if VariantCheck(d.variant, t).Pass? then Ok(d) else Err(FileSystemError)
      ensures r.Ok? ==> Ready(file) && DescriptorPosFromBlock(file.header, i).Ok?
    {
      if i == INVALID_DESCRIPTOR_ID {
        return Err(InvalidArgument);
      }
      var h :- file.HeaderExcept();
      var pos :- DescriptorPosFromBlock(h, i);
      ReadCheckWhenValid(file, pos.0, ReadOnly);
      var b :- ReadBlock(file, pos.0);
      var d := AsDescriptors(h, b)[pos.1];
      if VariantCheck(d.variant, t).Fail? {
        return Err(FileSystemError);
      }
      return Ok(d);
    }

    /** `updateDescriptor(i, d)`: afterwards descriptor `i` reads `d` and every
        other descriptor reads as before. */
    method UpdateDescriptor(i: nat, d: Descriptor) returns (r: Outcome)
      requires file.Valid() && Sane(file)
      requires file.HeaderExcept().Ok? ==> DescriptorFits(file.header, d)
      modifies file`blocks, file.pool
      ensures file.Valid()
      ensures r.Fail? ==> file.blocks == old(file.blocks)
      ensures i == INVALID_DESCRIPTOR_ID ==> r == Fail(InvalidArgument)
      ensures i != INVALID_DESCRIPTOR_ID && file.HeaderExcept().Err? ==> r == Fail(file.HeaderExcept().error)
      ensures file.HeaderExcept().Ok? && DescriptorPosFromBlock(file.header, i).Err? ==> r == Fail(InvalidArgument)
      ensures r.Pass? <==> Ready(file) && DescriptorPosFromBlock(file.header, i).Ok?
      ensures r.Pass? ==>
        var h := file.header;
        var blk := h.DescriptorsBegin() + i / h.descriptorsInBlock;
        file.blocks == old(file.blocks)[blk := WithDescriptor(h, old(file.blocks), blk, i % h.descriptorsInBlock, d)]
      ensures r.Pass? ==> DescriptorAt(file.header, file.blocks, i) == d
      ensures r.Pass? ==> forall j: nat :: j != i ==> DescriptorAt(file.header, file.blocks, j) == DescriptorAt(file.header, old(file.blocks), j)
    {
      if i == INVALID_DESCRIPTOR_ID {
        return Fail(InvalidArgument);
      }
      var hr := file.HeaderExcept();
      if hr.Err? {
        return Fail(hr.error);
      }
      var h := hr.value;
      var pos := DescriptorPosFromBlock(h, i);
      if pos.Err? {
        return Fail(pos.error);
      }
      var blk, slot := pos.value.0, pos.value.1;
      ReadCheckWhenValid(file, blk, ReadWrite);
      var hd := OpenForUpdate(file, blk);
      if hd.Err? {
        return Fail(hd.error);
      }
      ghost var m0 := file.blocks;
      var ds := AsDescriptors(h, file.pool.Content(hd.value.buffer));
      Commit(file, hd.value, blk, DescriptorsData(ds[slot := d]));
      assert file.blocks == m0[blk := WithDescriptor(h, m0, blk, slot, d)];
      forall j ensures DescriptorAt(h, file.blocks, j) == if j == i then d else DescriptorAt(h, m0, j) {
        WithDescriptorChangesOnlyIt(h, m0, i, d, j);
      }
      return Pass;
    }

    /** `appendDescriptor(addr, d, &filled)`: stores `d` in the first unused
        slot of block `addr` (never slot 0 of the first block, which would be
        the invalid index 0), reports whether that was the block's last slot,
        and returns the SLOT, not a descriptor index. With no unused slot the
        starting slot is overwritten. */
    method AppendDescriptor(addr: nat, d: Descriptor) returns (r: Result<nat>, filled: bool)
      requires file.Valid() && Sane(file)
      requires file.HeaderExcept().Ok? ==> DescriptorFits(file.header, d)
      modifies file`blocks, file.pool
      ensures file.Valid()
      ensures r.Err? ==> file.blocks == old(file.blocks) && !filled
      ensures file.HeaderExcept().Err? ==> r == Err(file.HeaderExcept().error)
      ensures file.HeaderExcept().Ok? && !InRange(file.header.DescriptorsBegin(), file.header.descriptorsEnd, addr) ==> r == Err(InvalidArgument)
      ensures r.Ok? <==> Ready(file) && InRange(file.header.DescriptorsBegin(), file.header.descriptorsEnd, addr)
      ensures r.Ok? ==>
        var h := file.header;
        var ds := DescriptorsIn(h, old(file.blocks), addr);
        var slot := r.value;
        && slot == FreeSlot(ds, if addr == h.DescriptorsBegin() then 1 else 0)
        && slot < h.descriptorsInBlock
        && (addr == h.DescriptorsBegin() ==> slot != 0)
        && file.blocks == old(file.blocks)[addr := DescriptorsData(ds[slot := d])]
        && DescriptorsIn(h, file.blocks, addr)[slot] == d
        && (filled <==> slot + 1 == h.descriptorsInBlock)
    {
      filled := false;
      var hr := file.HeaderExcept();
      if hr.Err? {
        return Err(hr.error), false;
      }
      var h := hr.value;
      if !InRange(h.DescriptorsBegin(), h.descriptorsEnd, addr) {
        return Err(InvalidArgument), false;
      }
      ReadCheckWhenValid(file, addr, ReadWrite);
      var hd := OpenForUpdate(file, addr);
      if hd.Err? {
        return Err(hd.error), false;
      }
      ghost var m0 := file.blocks;
      var ds := AsDescriptors(h, file.pool.Content(hd.value.buffer));
      var start := if addr == h.DescriptorsBegin() then 1 else 0;
      var freeDescriptor := start;
      var i := start;
      while i < h.descriptorsInBlock
        invariant start <= i
        invariant forall k :: start <= k < i && k < |ds| ==> ds[k].variant != VNone
        decreases h.descriptorsInBlock - i
      {
        if ds[i].variant == VNone {
          freeDescriptor := i;
          break;
        }
        i := i + 1;
      }
      assert freeDescriptor == FreeSlot(ds, start);
      var stored := ds[freeDescriptor := d];
      Commit(file, hd.value, addr, DescriptorsData(stored));
      assert forall k :: 0 <= k < |stored| ==> DescriptorFits(h, stored[k]);
      filled := freeDescriptor + 1 == h.descriptorsInBlock;
      return Ok(freeDescriptor), filled;
    }

    /** `initBlocks`: zero-fills the whole table, so that every descriptor in
        it reads as unused. */
    method InitBlocks() returns (r: Outcome)
      requires Sane(file)
      modifies file`blocks
      ensures r.Fail? ==> file.blocks == old(file.blocks)
      ensures file.HeaderExcept().Err? ==> r == Fail(file.HeaderExcept().error)
      ensures file.HeaderExcept().Ok? && file.blockSize != 0 && file.header.DescriptorsBegin() <= file.header.descriptorsEnd ==>
        r == file.FormattedCheck(file.header.DescriptorsBegin())
      ensures r.Pass? ==> file.blocks == ClearedRange(old(file.blocks), file.header.DescriptorsBegin(), file.header.descriptorsEnd + 1)
      ensures r.Pass? ==> forall i: nat :: DescriptorPosFromBlock(file.header, i).Ok? ==>
                            DescriptorAt(file.header, file.blocks, i) == ZeroDescriptor(file.header)
    {
      var h := file.HeaderExcept();
      if h.Err? {
        return Fail(h.error);
      }
      r := file.ClearBlocks(h.value.DescriptorsBegin(), h.value.descriptorsEnd);
      if r.Pass? {
        var n := h.value.descriptorsInBlock;
        forall i: nat | DescriptorPosFromBlock(h.value, i).Ok?
          ensures DescriptorAt(h.value, file.blocks, i) == ZeroDescriptor(h.value)
        {
          ClearedRangeAt(old(file.blocks), h.value.DescriptorsBegin(), h.value.descriptorsEnd + 1, h.value.DescriptorsBegin() + i / n);
        }
      }
    }

    /** `incrementReference(i)`: one more reference, nothing else changes. */
    method IncrementReference(i: nat) returns (r: Outcome)
      requires file.Valid() && Sane(file)
      modifies file`blocks, file.pool
      ensures file.Valid()
      ensures r.Fail? ==> file.blocks == old(file.blocks)
      ensures r.Pass? <==> i != INVALID_DESCRIPTOR_ID && Ready(file) && DescriptorPosFromBlock(file.header, i).Ok?
      ensures r.Pass? ==>
        var before := DescriptorAt(file.header, old(file.blocks), i);
        DescriptorAt(file.header, file.blocks, i) == before.(referencesCount := before.referencesCount + 1)
      ensures r.Pass? ==> forall j: nat :: j != i ==> DescriptorAt(file.header, file.blocks, j) == DescriptorAt(file.header, old(file.blocks), j)
    {
      var d := GetDescriptor(i, VAny);
      if d.Err? {
        return Fail(d.error);
      }
      r := UpdateDescriptor(i, d.value.(referencesCount := d.value.referencesCount + 1));
    }

    /** `decrementReference(i)`: refused for a directory that still has
        entries; otherwise one reference fewer, nothing else changes. */
    method DecrementReference(i: nat) returns (r: Outcome)
      requires file.Valid() && Sane(file)
      modifies file`blocks, file.pool
      ensures file.Valid()
      ensures r.Fail? ==> file.blocks == old(file.blocks)
      ensures Ready(file) && DescriptorPosFromBlock(file.header, i).Ok? ==>
        var before := DescriptorAt(file.header, old(file.blocks), i);
        (r == Fail(FileSystemError) <==> before.variant == VDirectory && before.firstFreeElementIndex != 0)
      ensures r.Pass? <==>
        && Ready(file) && DescriptorPosFromBlock(file.header, i).Ok?
        && !(DescriptorAt(file.header, old(file.blocks), i).variant == VDirectory
             && DescriptorAt(file.header, old(file.blocks), i).firstFreeElementIndex != 0)
      ensures r.Pass? ==>
        var before := DescriptorAt(file.header, old(file.blocks), i);
        DescriptorAt(file.header, file.blocks, i) == before.(referencesCount := before.referencesCount - 1)
      ensures r.Pass? ==> forall j: nat :: j != i ==> DescriptorAt(file.header, file.blocks, j) == DescriptorAt(file.header, old(file.blocks), j)
      ensures r.Pass? ==>
        var h := file.header;
        var blk := h.DescriptorsBegin() + i / h.descriptorsInBlock;
        var before := DescriptorAt(h, old(file.blocks), i);
        file.blocks == old(file.blocks)[blk := WithDescriptor(h, old(file.blocks), blk, i % h.descriptorsInBlock,
                                                              before.(referencesCount := before.referencesCount - 1))]
    {
      var d := GetDescriptor(i, VAny);
      if d.Err? {
        return Fail(d.error);
      }
      if d.value.variant == VDirectory && d.value.firstFreeElementIndex != 0 {
        return Fail(FileSystemError);
      }
      r := UpdateDescriptor(i, d.value.(referencesCount := d.value.referencesCount - 1));
    }
  }

  /* ---------------------------------------------------------------------- */
  /* The data area.                                                         */

  class DataArea {
    const file: FileAccessor

    constructor (f: FileAccessor)
      ensures file == f
    {
      file := f;
    }

    function AreaBegin(): (r: Result<nat>)
      reads file
      ensures r.Ok? <==> file.HeaderExcept().Ok?
      ensures r.Ok? ==> r.value == file.header.DataBegin()
    {
      var h :- file.HeaderExcept();
      Ok(h.DataBegin())
    }

    function AreaEnd(): (r: Result<nat>)
      reads file
      ensures r.Ok? <==> file.HeaderExcept().Ok?
      ensures r.Ok? ==> r.value == file.header.dataEnd
    {
      var h :- file.HeaderExcept();
      Ok(h.dataEnd)
    }

    /** `readData(block, t)`: a handle on a block of the data area; any other
        block is refused before the file is touched. */
    method ReadData(block: nat, t: SyncType) returns (r: Result<BufferHandle>)
      requires file.Valid()
      modifies file.pool
      ensures file.Valid()
      ensures file.HeaderExcept().Err? ==> r == Err(file.HeaderExcept().error)
      ensures file.HeaderExcept().Ok? && !InRange(file.header.DataBegin(), file.header.dataEnd, block) ==>
        r == Err(InvalidArgument) && unchanged(file.pool)
      ensures r.Ok? <==> file.HeaderExcept().Ok? && InRange(file.header.DataBegin(), file.header.dataEnd, block)
                         && file.ReadCheck(block, t, 0).Pass?
      ensures file.HeaderExcept().Ok? && InRange(file.header.DataBegin(), file.header.dataEnd, block) && r.Err? ==>
        r.error == file.ReadCheck(block, t, 0).error
      ensures r.Ok? ==> fresh(r.value) && r.value.Valid() && r.value.pool == file.pool && r.value.file == file
                        && r.value.isValid && r.value.blockAddress == block && r.value.syncType == t
      ensures r.Ok? && t.Reads() ==> r.value.buffer != null && file.pool.Content(r.value.buffer) == file.BlockAt(block)
    {
      var h :- file.HeaderExcept();
      if !InRange(h.DataBegin(), h.dataEnd, block) {
        return Err(InvalidArgument);
      }
      r := file.Read(block, t, 0);
    }
  }
}
