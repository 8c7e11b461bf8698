/** The block store: a pool of block buffers, move-only handles that write
    their buffer back to the file when released, and the formatted accessor
    that maps block addresses to the file and guards everything but the header
    path with the signature and version checks.

    The file itself is a map from block address to the block it holds; an
    address absent from the map reads as a zero-filled block. */
module Storage {
  import opened Errors
  import opened Blocks

  /** `checkBlockSize` takes an `unsigned int`, so a 64-bit size is cut to 32 bits. */
  const U32_MODULUS: nat := 0x1_0000_0000

  datatype SyncType = SyncNone | ReadOnly | WriteOnly | ReadWrite {
    predicate Writes() { this == WriteOnly || this == ReadWrite }
    predicate Reads() { this == ReadOnly || this == ReadWrite }
  }

  /** A buffer of `size` bytes. What it holds is kept by its pool, which
      owns the memory of every buffer it hands out. */
  class Buffer {
    const size: nat
    /** The bytes a newly allocated buffer happens to hold: the constructor
        leaves them unset, so nothing is known about them. */
    const initial: Block

    constructor (size: nat)
      ensures this.size == size
    {
      this.size := size;
    }
  }

  /* ---------------------------------------------------------------------- */

  class BufferPool {
    var bufferSize: nat
    var free: seq<Buffer>
    var occupied: set<Buffer>
    /** The block each buffer currently holds. */
    var content: map<Buffer, Block>

    function Content(b: Buffer): Block
      reads this
    {
      if b in content then content[b] else Zeroed
    }

    /** The free list has no repeats, free and occupied are disjoint, and
        every buffer has the current size. */
    ghost predicate Valid()
      reads this
    {
      && (forall i, j :: 0 <= i < j < |free| ==> free[i] != free[j])
      && (forall i :: 0 <= i < |free| ==> free[i] !in occupied && free[i].size == bufferSize)
      && (forall b :: b in occupied ==> b.size == bufferSize)
    }

    constructor ()
      ensures Valid() && bufferSize == 0 && free == [] && occupied == {}
    {
      bufferSize := 0;
      free := [];
      occupied := {};
      content := map[];
    }

    /** Fails while a buffer is out. A new size discards every free buffer;
        the same size changes nothing. */
    method SetDefaultBuffersSize(size: nat) returns (r: Outcome)
      requires Valid()
      modifies this
      ensures Valid()
      ensures old(occupied) != {} ==> r == Fail(BadState) && unchanged(this)
      ensures old(occupied) == {} ==> r == Pass && bufferSize == size && occupied == {}
      ensures old(occupied) == {} && old(bufferSize) == size ==> free == old(free)
      ensures old(occupied) == {} && old(bufferSize) != size ==> free == []
      ensures content == old(content)
    {
      if occupied != {} {
        return Fail(BadState);
      }
      if bufferSize != size {
        bufferSize := size;
        while free != []
          invariant occupied == {} && bufferSize == size && content == old(content)
          decreases |free|
        {
          free := free[1..];
        }
      }
      return Pass;
    }

    /** Hands out the front of the free list, or a new buffer when it is
        empty; either way the buffer ends up occupied and not free. */
    method GetAnyFreeBuffer() returns (b: Buffer)
      requires Valid()
      modifies this
      ensures Valid() && bufferSize == old(bufferSize)
      ensures b in occupied && b !in free && b.size == bufferSize
      ensures occupied == old(occupied) + {b}
      ensures old(free) == [] ==> fresh(b) && free == [] && content == old(content)[b := b.initial]
      ensures old(free) != [] ==> b == old(free[0]) && free == old(free[1..]) && content == old(content)
    {
      if free == [] {
        b := LockNewBuffer();
      } else {
        b := LockFreeBuffer();
      }
    }

    /** Puts a buffer back at the front of the free list (last out, first
        in again). */
    method UnlockBuffer(b: Buffer)
      requires Valid() && b !in free && b.size == bufferSize
      modifies this
      ensures Valid() && bufferSize == old(bufferSize)
      ensures occupied == old(occupied) - {b}
      ensures free == [b] + old(free) && content == old(content)
    {
      occupied := occupied - {b};
      free := [b] + free;
    }

    method LockFreeBuffer() returns (b: Buffer)
      requires Valid() && free != []
      modifies this
      ensures Valid() && bufferSize == old(bufferSize)
      ensures b == old(free[0]) && free == old(free[1..])
      ensures b in occupied && b !in free && occupied == old(occupied) + {b}
      ensures content == old(content)
    {
      b := free[0];
      free := free[1..];
      occupied := occupied + {b};
    }

    method LockNewBuffer() returns (b: Buffer)
      requires Valid()
      modifies this
      ensures Valid() && bufferSize == old(bufferSize) && free == old(free)
      ensures fresh(b) && b.size == bufferSize
      ensures b in occupied && b !in free && occupied == old(occupied) + {b}
      ensures content == old(content)[b := b.initial]
    {
      b := new Buffer(bufferSize);
      occupied := occupied + {b};
      content := content[b := b.initial];
    }

    /** `getLock`: a handle for the block, the file and the mode; no buffer
        is taken yet. */
    method GetLock(block: nat, file: FileAccessor?, t: SyncType) returns (r: Result<BufferHandle>)
      ensures r.Err? <==> block == HEADER_ADDRESS || (file == null && t.Writes())
      ensures r.Err? ==> r.error == InvalidArgument
      ensures r.Ok? ==> fresh(r.value) && r.value.Opened(this, file, block, t)
    {
      r := NewHandle(this, file, block, t);
    }
  }

  /* ---------------------------------------------------------------------- */

  /** The handle constructor: it rejects a null pool, the header address, and
      a null file when the mode writes. */
  method NewHandle(pool: BufferPool?, file: FileAccessor?, block: nat, t: SyncType) returns (r: Result<BufferHandle>)
    ensures r.Err? <==> pool == null || block == HEADER_ADDRESS || (file == null && t.Writes())
    ensures r.Err? ==> r.error == InvalidArgument
    ensures r.Ok? ==> fresh(r.value) && pool != null && r.value.Opened(pool, file, block, t)
  {
    if pool == null || block == HEADER_ADDRESS || (file == null && t.Writes()) {
      return Err(InvalidArgument);
    }
    var h := new BufferHandle(pool, file, block, t);
    return Ok(h);
  }

  /** A move-only handle on one block buffer (copying is not offered). */
  class BufferHandle {
    var pool: BufferPool?
    var file: FileAccessor?
    var blockAddress: nat
    var syncType: SyncType
    var buffer: Buffer?
    var isValid: bool

    /** A valid handle has a pool, holds its buffer as occupied, and has a file
        when its mode writes. */
    ghost predicate Valid()
      reads this, pool
    {
      isValid ==>
        && pool != null && pool.Valid()
        && (buffer != null ==> buffer in pool.occupied)
        && (syncType.Writes() ==> file != null)
    }

    /** Freshly built by the handle constructor. */
    ghost predicate Opened(p: BufferPool, f: FileAccessor?, block: nat, t: SyncType)
      reads this
    {
      pool == p && file == f && blockAddress == block && syncType == t && isValid && buffer == null
    }

    /** The public default constructor: an invalid handle. */
    constructor Invalid()
      ensures Valid() && !isValid && buffer == null
    {
      pool := null;
      file := null;
      blockAddress := 0;
      syncType := SyncNone;
      buffer := null;
      isValid := false;
    }

    constructor (p: BufferPool, f: FileAccessor?, block: nat, t: SyncType)
      ensures Opened(p, f, block, t)
    {
      pool := p;
      file := f;
      blockAddress := block;
      syncType := t;
      buffer := null;
      isValid := true;
    }

    /** `data()`: fails on an invalid handle; otherwise takes a buffer from the
        pool on the first call and returns that same buffer on every call. */
    method Data() returns (r: Result<Buffer>)
      requires Valid()
      modifies this`buffer, pool
      ensures Valid()
      ensures !isValid ==> r == Err(InvalidArgument) && buffer == old(buffer) && (pool != null ==> unchanged(pool))
      ensures isValid ==> buffer != null && r.Ok? && r.value == buffer
      ensures isValid && old(buffer) != null ==> buffer == old(buffer) && unchanged(pool)
      ensures isValid && old(buffer) == null ==> Acquired(pool, buffer, old(pool.free), old(pool.occupied), old(pool.bufferSize), old(pool.content))
      ensures isValid && old(buffer) == null && old(pool.free) == [] ==> fresh(buffer)
    {
      if !isValid {
        return Err(InvalidArgument);
      }
      if buffer == null {
        buffer := pool.GetAnyFreeBuffer();
      }
      return Ok(buffer);
    }

    /** `atBlock()`, `*` and `->`: the block held by the buffer `data()`
        returns; they view the buffer itself, not a copy. */
    method View() returns (r: Result<Block>)
      requires Valid()
      modifies this`buffer, pool
      ensures Valid()
      ensures !isValid ==> r == Err(InvalidArgument) && buffer == old(buffer) && (pool != null ==> unchanged(pool))
      ensures isValid ==> buffer != null && r == Ok(pool.Content(buffer))
      ensures isValid && old(buffer) != null ==> buffer == old(buffer) && unchanged(pool)
      ensures isValid && old(buffer) == null ==> Acquired(pool, buffer, old(pool.free), old(pool.occupied), old(pool.bufferSize), old(pool.content))
    {
      var b :- Data();
      return Ok(pool.Content(b));
    }

    /** A write through the view: the buffer itself now holds `x`, and no
        other buffer changes. */
    method Put(x: Block) returns (r: Outcome)
      requires Valid()
      modifies this`buffer, pool
      ensures Valid()
      ensures !isValid ==> r == Fail(InvalidArgument) && buffer == old(buffer) && (pool != null ==> unchanged(pool))
      ensures isValid ==> r == Pass && buffer != null && pool.Content(buffer) == x
      ensures isValid && old(buffer) != null ==>
        && buffer == old(buffer) && pool.content == old(pool.content)[buffer := x]
        && pool.free == old(pool.free) && pool.occupied == old(pool.occupied) && pool.bufferSize == old(pool.bufferSize)
      ensures isValid && old(buffer) == null ==>
        && pool.content == (if old(pool.free) == [] then old(pool.content)[buffer := buffer.initial] else old(pool.content))[buffer := x]
        && pool.occupied == old(pool.occupied) + {buffer} && buffer !in pool.free
        && pool.free == (if old(pool.free) == [] then [] else old(pool.free[1..])) && pool.bufferSize == old(pool.bufferSize)
    {
      var b := Data();
      if b.Err? {
        return Fail(b.error);
      }
      pool.content := pool.content[b.value := x];
      return Pass;
    }

    /** `length()`: the size of the handle's buffer. */
    function Length(): (r: Result<nat>)
      requires Valid()
      reads this, pool
      ensures !isValid ==> r == Err(InvalidArgument)
      ensures isValid && buffer != null ==> r == Ok(buffer.size)
    {
      if !isValid then Err(InvalidArgument) else Ok(pool.bufferSize)
    }

    /** The file a flush may write, as a set: empty without a file. */
    function Files(): set<FileAccessor>
      reads this`file
    {
      if file == null then {} else {file}
    }

    /** The block a flush writes, when the buffer it writes from exists
        already: the held one, or the front of the free list, which `data()`
        takes. A buffer allocated for the flush holds its `initial` bytes. */
    ghost function Pending(): Block
      requires pool != null && (buffer != null || pool.free != [])
      reads this, pool
    {
      if buffer != null then pool.Content(buffer) else pool.Content(pool.free[0])
    }

    /** `flush()`: only a valid handle in a writing mode writes its buffer, as
        a whole block, to its block address; on any other handle, including
        a default-constructed one, it does nothing. */
    method Flush() returns (r: Outcome)
      requires Valid()
      modifies this`buffer, pool, Files()`blocks
      ensures Valid()
      ensures !(isValid && syncType.Writes()) ==>
        && r == Pass && buffer == old(buffer) && (pool != null ==> unchanged(pool))
        && (file != null ==> file.blocks == old(file.blocks))
      ensures isValid && syncType.Writes() ==>
        && file != null && buffer != null
        && (old(buffer) != null ==> buffer == old(buffer) && unchanged(pool))
        && (old(buffer) == null ==> Acquired(pool, buffer, old(pool.free), old(pool.occupied), old(pool.bufferSize), old(pool.content)))
        && (old(buffer) != null || old(pool.free) != [] ==> pool.Content(buffer) == old(Pending()))
        && (old(buffer) == null && old(pool.free) == [] ==> fresh(buffer) && pool.Content(buffer) == buffer.initial)
        && r == old(file.WriteCheck(blockAddress, 0))
        && (r.Pass? ==> file.blocks == old(file.blocks)[blockAddress := pool.Content(buffer)])
        && (r.Fail? ==> file.blocks == old(file.blocks))
    {
      if syncType.Writes() && isValid {
        var b := Data();
        r := file.Write(blockAddress, Some(pool.Content(b.value)), 0);
      } else {
        r := Pass;
      }
    }

    /** The destructor: flush, then give the buffer back to the front of the
        free list. A failing write-back ends the process in the source (an
        exception leaving a destructor); here it is returned and the buffer
        stays out. */
    method Release() returns (r: Outcome)
      requires Valid()
      requires isValid && !syncType.Writes() ==> buffer != null
      modifies this`buffer, this`isValid, pool, Files()`blocks
      ensures Valid() && (old(isValid) ==> pool.Valid())
      ensures old(buffer) != null ==> buffer == old(buffer)
      ensures !old(isValid) ==> r == Pass && (pool != null ==> unchanged(pool)) && (file != null ==> file.blocks == old(file.blocks))
      ensures old(isValid) && !syncType.Writes() ==> r == Pass && (file != null ==> file.blocks == old(file.blocks))
      ensures old(isValid) && syncType.Writes() ==>
        && file != null
        && r == old(file.WriteCheck(blockAddress, 0))
        && (r.Pass? ==> buffer != null && file.blocks == old(file.blocks)[blockAddress := pool.Content(buffer)])
      ensures old(isValid) && r.Pass? ==>
        && !isValid && buffer != null
        && pool.bufferSize == old(pool.bufferSize)
        && pool.occupied == old(pool.occupied) - {buffer}
        && pool.free == [buffer] + (if old(buffer) == null && old(pool.free) != [] then old(pool.free[1..]) else old(pool.free))
        && pool.content == (if old(buffer) == null && old(pool.free) == [] then old(pool.content)[buffer := buffer.initial] else old(pool.content))
    {
      r := Flush();
      if r.Fail? {
        return;
      }
      if isValid {
        pool.UnlockBuffer(buffer);
        isValid := false;
      }
    }

    /** Move assignment: nothing on self; otherwise flush, take over the other
        handle's pool, file, buffer, address and mode, and leave the other
        invalid. The buffer this handle held is not given back to the pool. */
    method MoveAssign(other: BufferHandle) returns (r: Outcome)
      requires Valid() && other.Valid()
      modifies this, other`isValid, pool, Files()`blocks
      ensures other == this ==> r == Pass && unchanged(this) && (pool != null ==> unchanged(pool))
      ensures other != this && r.Pass? ==>
        && pool == old(other.pool) && file == old(other.file) && buffer == old(other.buffer)
        && blockAddress == old(other.blockAddress) && syncType == old(other.syncType)
        && isValid == old(other.isValid) && !other.isValid
      ensures other != this && old(isValid) && old(syncType).Writes() ==>
        && old(file) != null
        && r == old(file.WriteCheck(blockAddress, 0))
        && (r.Pass? && (old(buffer) != null || old(pool.free) != []) ==>
              old(file).blocks == old(file.blocks)[old(blockAddress) := old(Pending())])
        && (r.Pass? && old(buffer) == null && old(pool.free) == [] ==>
              exists b: Buffer :: fresh(b) && b in old(pool).occupied && old(file).blocks == old(file.blocks)[old(blockAddress) := b.initial])
        && (r.Fail? ==> old(file).blocks == old(file.blocks))
      ensures other != this && !(old(isValid) && old(syncType).Writes()) ==>
        r == Pass && (old(file) != null ==> old(file).blocks == old(file.blocks))
      ensures other != this && old(isValid) && old(buffer) != null && r.Pass? ==>
        old(buffer) in old(pool).occupied && old(buffer) !in old(pool).free
    {
      if other == this {
        return Pass;
      }
      r := Flush();
      if r.Fail? {
        return;
      }
      syncType := other.syncType;
      file := other.file;
      pool := other.pool;
      buffer := other.buffer;
      blockAddress := other.blockAddress;
      isValid := other.isValid;
      other.isValid := false;
    }

    /** Move assignment that also gives back the buffer this handle held. */
    method MoveAssignReleasing(other: BufferHandle) returns (r: Outcome)
      requires Valid() && other.Valid()
      modifies this, other`isValid, pool, Files()`blocks
      ensures other == this ==> r == Pass && unchanged(this) && (pool != null ==> unchanged(pool))
      ensures other != this && r.Pass? ==>
        && pool == old(other.pool) && file == old(other.file) && buffer == old(other.buffer)
        && blockAddress == old(other.blockAddress) && syncType == old(other.syncType)
        && isValid == old(other.isValid) && !other.isValid
      ensures other != this && old(isValid) && old(syncType).Writes() ==>
        && old(file) != null
        && r == old(file.WriteCheck(blockAddress, 0))
        && (r.Pass? && (old(buffer) != null || old(pool.free) != []) ==>
              old(file).blocks == old(file.blocks)[old(blockAddress) := old(Pending())])
        && (r.Pass? && old(buffer) == null && old(pool.free) == [] ==>
              exists b: Buffer :: fresh(b) && b in old(pool).free && old(file).blocks == old(file.blocks)[old(blockAddress) := b.initial])
        && (r.Fail? ==> old(file).blocks == old(file.blocks))
      ensures other != this && !(old(isValid) && old(syncType).Writes()) ==>
        r == Pass && (old(file) != null ==> old(file).blocks == old(file.blocks))
      ensures other != this && old(isValid) && old(buffer) != null && old(buffer) != old(other.buffer) && r.Pass? ==>
        old(buffer) !in old(pool).occupied && old(buffer) in old(pool).free
    {
      if other == this {
        return Pass;
      }
      r := Flush();
      if r.Fail? {
        return;
      }
      ghost var written := buffer;
      if isValid && buffer != null && buffer != other.buffer {
        pool.UnlockBuffer(buffer);
        assert written in pool.free;
      }
      syncType := other.syncType;
      file := other.file;
      pool := other.pool;
      buffer := other.buffer;
      blockAddress := other.blockAddress;
      isValid := other.isValid;
      other.isValid := false;
    }
  }

  /** `b` was taken from the pool whose free list, occupied set and buffer
      size were `free0`, `occupied0` and `size0`. */
  ghost predicate Acquired(pool: BufferPool, b: Buffer, free0: seq<Buffer>, occupied0: set<Buffer>, size0: nat,
                          content0: map<Buffer, Block>)
    reads pool
  {
    && pool.bufferSize == size0
    && b in pool.occupied && b !in pool.free && b.size == size0
    && pool.occupied == occupied0 + {b}
    && (free0 == [] ==> pool.free == [] && pool.content == content0[b := b.initial])
    && (free0 != [] ==> b == free0[0] && pool.free == free0[1..] && pool.content == content0)
  }

  /* ---------------------------------------------------------------------- */

  /** The block file: the formatted accessor with the members of the raw
      accessor it inherits. */
  class FileAccessor {
    var isOpen: bool
    var blockSize: nat
    var lastBlockAddress: nat
    var fileSize: nat
    var blocks: map<nat, Block>
    var header: Header
    const pool: BufferPool

    ghost predicate Valid()
      reads this, pool
    {
      pool.Valid()
    }

    /** A fresh accessor: no file, block size 0, last block address 0, file
        size 0, and an empty pool. */
    constructor ()
      ensures Valid() && fresh(pool)
      ensures !isOpen && blockSize == 0 && lastBlockAddress == 0 && fileSize == 0
      ensures pool.bufferSize == 0 && pool.free == [] && pool.occupied == {}
      ensures header == ZeroHeader && blocks == map[]
    {
      isOpen := false;
      blockSize := 0;
      lastBlockAddress := 0;
      fileSize := 0;
      blocks := map[];
      header := ZeroHeader;
      pool := new BufferPool();
    }

    function BlockAt(a: nat): Block
      reads this`blocks
    {
      BlockOf(blocks, a)
    }

    /** `blockToPosType`: address 0 is the header at offset 0; any other
        address needs the block size. */
    function BlockToPos(a: nat): (r: Result<nat>)
      reads this`blockSize
      ensures a == HEADER_ADDRESS ==> r == Ok(0)
      ensures a != HEADER_ADDRESS ==> (r.Ok? <==> blockSize != 0) && (r.Err? ==> r.error == BadState)
    {
      if a == HEADER_ADDRESS then Ok(0)
      else if blockSize == 0 then Err(BadState)
      else Ok(a * blockSize)
    }

    /** `checkOpen`: the host file must be open. */
    function CheckOpen(): (r: Outcome)
      reads this`isOpen
      ensures r.Pass? <==> isOpen
      ensures r.Fail? ==> r.error == BadState
    {
      if isOpen then Pass else Fail(BadState)
    }

    /** `checkValidBlockSize`: a block size must have been set. */
    function CheckValidBlockSize(): (r: Outcome)
      reads this`blockSize
      ensures r.Pass? <==> blockSize != 0
      ensures r.Fail? ==> r.error == BadState
    {
      if blockSize == 0 then Fail(BadState) else Pass
    }

    /** `checkBlockSize`: the block size must be set and at least `size`. */
    function CheckBlockSize(size: nat): (r: Outcome)
      reads this`blockSize
      ensures r.Pass? <==> 0 < blockSize && size <= blockSize
      ensures r.Fail? ==> (r.error == BadState <==> blockSize == 0)
    {
      if blockSize == 0 then Fail(BadState)
      else if size > blockSize then Fail(InvalidArgument)
      else Pass
    }

    /** `getBlockSize`: the block size, once set. */
    function GetBlockSize(): (r: Result<nat>)
      reads this`blockSize
      ensures r.Ok? <==> blockSize != 0
      ensures r.Ok? ==> r.value == blockSize && 0 < r.value
    {
      if blockSize == 0 then Err(BadState) else Ok(blockSize)
    }

    /** `lastBlockAddress()`: needs an open file and a block size. */
    function LastBlockAddress(): (r: Result<nat>)
      reads this`isOpen, this`blockSize, this`lastBlockAddress
      ensures r.Ok? <==> isOpen && blockSize != 0
      ensures r.Ok? ==> r.value == lastBlockAddress
    {
      if !isOpen then Err(BadState) else if blockSize == 0 then Err(BadState) else Ok(lastBlockAddress)
    }

    /** `fileSize()`: needs an open file. */
    function FileSize(): (r: Result<nat>)
      reads this`isOpen, this`fileSize
      ensures r.Ok? <==> isOpen
      ensures r.Ok? ==> r.value == fileSize
    {
      if !isOpen then Err(BadState) else Ok(fileSize)
    }

    /** `isFormattedFS()`: a header block never written reads as the zero
        header and is not formatted. */
    predicate IsFormattedFS()
      reads this`header
      ensures header == ZeroHeader ==> !IsFormattedFS()
    {
      IsValidSignature(header)
    }

    /** `ensureValidFS`: a bad signature means not formatted; a good one with
        a version other than 1 means an unsupported version. */
    function EnsureValidFS(): (r: Outcome)
      reads this`header
      ensures r.Pass? <==> IsValidSignature(header) && header.version == FS_VERSION
      ensures !IsValidSignature(header) ==> r == Fail(NotFormatted)
      ensures IsValidSignature(header) && header.version != FS_VERSION ==> r == Fail(UnsupportedVersion)
    {
      if !IsFormattedFS() then Fail(NotFormatted)
      else if header.version != FS_VERSION then Fail(UnsupportedVersion)
      else Pass
    }

    /** `headerExcept()`: the header of an open, valid file system. */
    function HeaderExcept(): (r: Result<Header>)
      reads this`isOpen, this`header
      ensures r.Ok? <==> isOpen && EnsureValidFS().Pass?
      ensures r.Ok? ==> r.value == header
    {
      if !isOpen then Err(BadState)
      else if EnsureValidFS().Fail? then Err(EnsureValidFS().error)
      else Ok(header)
    }

    /** `header()`: the same, with null in place of any failure. */
    function HeaderOrNull(): (r: Option<Header>)
      reads this`isOpen, this`header
      ensures r.Some? <==> HeaderExcept().Ok?
    {
      HeaderOrNullOf(isOpen, header)
    }

    /** The checks of `_write`/`_read` in the formatted accessor. */
    function FormattedCheck(a: nat): Outcome
      reads this`header
    {
      if a == HEADER_ADDRESS then Fail(InvalidArgument) else EnsureValidFS()
    }

    /** Every check `write(offset, block, size)` makes, in order. */
    function WriteCheck(offset: nat, size: nat): (r: Outcome)
      reads this`isOpen, this`blockSize, this`header
      ensures r.Pass? ==> isOpen && blockSize != 0 && offset != HEADER_ADDRESS
                          && IsValidSignature(header) && header.version == FS_VERSION
    {
      if !isOpen then Fail(BadState)
      else if size == 0 && blockSize == 0 then Fail(BadState)
      else if size != 0 && CheckBlockSize(size % U32_MODULUS).Fail? then CheckBlockSize(size % U32_MODULUS)
      else FormattedCheck(offset)
    }

    /** The stream write of the raw accessor: it has no effect on a closed file. */
    method RawWrite(a: nat, b: Block)
      modifies this`blocks
      ensures blocks == if isOpen then old(blocks)[a := b] else old(blocks)
    {
      if isOpen {
        blocks := blocks[a := b];
      }
    }

    /** `_write` of the formatted accessor. */
    method FormattedWrite(a: nat, b: Block) returns (r: Outcome)
      modifies this`blocks
      ensures r == FormattedCheck(a)
      ensures r.Pass? ==> blocks == if isOpen then old(blocks)[a := b] else old(blocks)
      ensures r.Fail? ==> blocks == old(blocks)
    {
      if a == HEADER_ADDRESS {
        return Fail(InvalidArgument);
      }
      r := EnsureValidFS();
      if r.Fail? {
        return;
      }
      RawWrite(a, b);
    }

    /** `write(offset, block, size)`: a null block is rejected, the file must
        be open, size 0 stands for a whole block, and the formatted checks
        apply; on success exactly that block changes. */
    method Write(offset: nat, block: Option<Block>, size: nat) returns (r: Outcome)
      modifies this`blocks
      ensures block.None? ==> r == Fail(InvalidArgument)
      ensures block.Some? ==> r == WriteCheck(offset, size)
      ensures r.Pass? ==> blocks == old(blocks)[offset := block.value]
      ensures r.Fail? ==> blocks == old(blocks)
    {
      if block.None? {
        return Fail(InvalidArgument);
      }
      :- CheckOpen();
      if size == 0 {
        :- CheckValidBlockSize();
      } else {
        :- CheckBlockSize(size % U32_MODULUS);
      }
      r := FormattedWrite(offset, block.value);
    }

    /** `clearBlocks(begin, end)`: zero-fills the blocks begin..end, both
        included. The block size must be set; the first write already fails
        for block 0 or an invalid file system, and then nothing is written.
        A closed file is left as it is. */
    method ClearBlocks(begin: nat, end: nat) returns (r: Outcome)
      modifies this`blocks
      ensures blockSize == 0 ==> r == Fail(BadState)
      ensures blockSize != 0 && begin > end ==> r == Pass
      ensures blockSize != 0 && begin <= end ==> r == FormattedCheck(begin)
      ensures r.Pass? && isOpen ==> blocks == ClearedRange(old(blocks), begin, end + 1)
      ensures r.Pass? && !isOpen ==> blocks == old(blocks)
      ensures r.Fail? ==> blocks == old(blocks)
    {
      r := CheckValidBlockSize();
      if r.Fail? {
        return;
      }
      var i := begin;
      while i <= end
        invariant begin <= i <= end + 1 || (begin > end && i == begin)
        invariant i > begin ==> FormattedCheck(begin).Pass? && EnsureValidFS().Pass?
        invariant blocks == if isOpen then ClearedRange(old(blocks), begin, i) else old(blocks)
        decreases end + 1 - i
      {
        r := FormattedWrite(i, Zeroed);
        if r.Fail? {
          assert i == begin;
          assert ClearedRange(old(blocks), begin, i) == old(blocks);
          return;
        }
        ClearedStep(old(blocks), begin, i);
        i := i + 1;
      }
      if begin <= end {
        r := FormattedCheck(begin);
      } else {
        r := Pass;
        assert ClearedRange(old(blocks), begin, i) == old(blocks);
      }
    }

    /** `clearBlock(b)` is `clearBlocks(b, b)`. */
    method ClearBlock(b: nat) returns (r: Outcome)
      modifies this`blocks
      ensures r == if blockSize == 0 then Fail(BadState) else FormattedCheck(b)
      ensures r.Pass? && isOpen ==> blocks == old(blocks)[b := Zeroed]
      ensures r.Pass? && !isOpen ==> blocks == old(blocks)
      ensures r.Fail? ==> blocks == old(blocks)
    {
      r := ClearBlocks(b, b);
      if r.Pass? && isOpen {
        assert ClearedRange(old(blocks), b, b + 1) == old(blocks)[b := Zeroed];
      }
    }

    /** `updateBlockConfiguration`: the last block address becomes the number
        of whole blocks in the file, or 0 without a block size. */
    method UpdateBlockConfiguration() returns (r: Outcome)
      modifies this`lastBlockAddress
      ensures !isOpen ==> r == Fail(BadState) && lastBlockAddress == old(lastBlockAddress)
      ensures isOpen ==> r == Pass && lastBlockAddress == BlockCount(fileSize, blockSize)
    {
      r := CheckOpen();
      if r.Fail? {
        return;
      }
      if blockSize == 0 {
        lastBlockAddress := 0;
      } else {
        lastBlockAddress := fileSize / blockSize;
      }
      return Pass;
    }

    /** `setBlockSize`: the size is stored first, then the pool is resized
        (which fails while buffers are out), then the configuration is
        updated for a non-zero size. */
    method SetBlockSize(size: nat) returns (r: Outcome)
      requires Valid()
      modifies this`blockSize, this`lastBlockAddress, pool
      ensures Valid() && blockSize == size
      ensures old(pool.occupied) != {} ==> r == Fail(BadState) && unchanged(pool) && lastBlockAddress == old(lastBlockAddress)
      ensures old(pool.occupied) == {} ==> pool.bufferSize == size && pool.occupied == {}
      ensures old(pool.occupied) == {} && size != 0 ==> r == CheckOpen()
      ensures old(pool.occupied) == {} && size == 0 ==> r == Pass && lastBlockAddress == old(lastBlockAddress)
      ensures r.Pass? && size != 0 ==> lastBlockAddress == BlockCount(fileSize, size)
    {
      blockSize := size;
      :- pool.SetDefaultBuffersSize(size);
      if blockSize != 0 {
        r := UpdateBlockConfiguration();
      } else {
        r := Pass;
      }
    }

    /** Writes the in-memory header to block 0, the one write that bypasses
        the formatted checks. */
    method SyncHeaderToFile() returns (r: Outcome)
      modifies this`blocks
      ensures r == CheckOpen()
      ensures r.Pass? ==> blocks == old(blocks)[HEADER_ADDRESS := HeaderBlock(header)]
      ensures r.Fail? ==> blocks == old(blocks)
    {
      r := CheckOpen();
      if r.Fail? {
        return;
      }
      RawWrite(HEADER_ADDRESS, HeaderBlock(header));
      return Pass;
    }

    /** Reads the header from block 0 and, when its signature is valid,
        adopts its block size. A read from a closed file leaves the header as
        it was. The source takes the block size through `header()`, which is
        null for a valid signature with another version; this model takes it
        from the header just read. */
    method SyncHeaderFromFile() returns (r: Outcome)
      requires Valid()
      modifies this`header, this`blockSize, this`lastBlockAddress, pool
      ensures Valid()
      ensures header == if isOpen then AsHeader(old(BlockAt(HEADER_ADDRESS))) else old(header)
      ensures !IsValidSignature(header) ==> r == Pass && blockSize == old(blockSize) && unchanged(pool)
      ensures IsValidSignature(header) ==> blockSize == header.blockByteSize
      ensures IsValidSignature(header) && old(pool.occupied) != {} ==> r == Fail(BadState)
      ensures IsValidSignature(header) && old(pool.occupied) == {} ==> pool.bufferSize == header.blockByteSize
      ensures IsValidSignature(header) && old(pool.occupied) == {} && isOpen ==> r == Pass
    {
      if isOpen {
        header := AsHeader(BlockAt(HEADER_ADDRESS));
      }
      if IsFormattedFS() {
        r := SetBlockSize(header.blockByteSize);
      } else {
        r := Pass;
      }
    }

    /** `formatFS`: a header with a bad signature is refused; otherwise it
        becomes the in-memory header, is written to block 0, and its block
        size is adopted. */
    method FormatFS(h: Header) returns (r: Outcome)
      requires Valid()
      modifies this`header, this`blocks, this`blockSize, this`lastBlockAddress, pool
      ensures Valid()
      ensures !IsValidSignature(h) ==> r == Fail(BadState) && unchanged(this) && unchanged(pool)
      ensures IsValidSignature(h) ==> header == h
      ensures IsValidSignature(h) && !isOpen ==> r == Fail(BadState) && blocks == old(blocks) && blockSize == old(blockSize)
      ensures IsValidSignature(h) && isOpen ==>
        && blocks == old(blocks)[HEADER_ADDRESS := HeaderBlock(h)]
        && blockSize == h.blockByteSize
        && r == (if old(pool.occupied) != {} then Fail(BadState) else Pass)
      ensures r.Pass? ==> AsHeader(BlockAt(HEADER_ADDRESS)) == header
    {
      if !IsValidSignature(h) {
        return Fail(BadState);
      }
      header := h;
      :- SyncHeaderToFile();
      r := SetBlockSize(header.blockByteSize);
    }

    /** `close()`. */
    method Close()
      modifies this`isOpen
      ensures !isOpen
    {
      isOpen := false;
    }

    /** `open(path, blockSize)` of the formatted accessor, with the file's
        existence, contents and size as parameters: a previous file is closed,
        the block size is set, and the header is read. */
    method Open(exists_: bool, contents: map<nat, Block>, size: nat, requestedBlockSize: nat) returns (r: Outcome)
      requires Valid()
      modifies this, pool
      ensures Valid()
      ensures !exists_ ==> r == Fail(FileOpenError) && !isOpen
      ensures exists_ && old(pool.occupied) == {} ==> r.Pass? && isOpen && blocks == contents && fileSize == size
      ensures exists_ && r.Pass? ==> header == AsHeader(if HEADER_ADDRESS in contents then contents[HEADER_ADDRESS] else Zeroed)
      ensures exists_ && r.Pass? && IsValidSignature(header) ==> blockSize == header.blockByteSize
      ensures exists_ && r.Pass? && !IsValidSignature(header) ==> blockSize == requestedBlockSize
    {
      if isOpen {
        Close();
      }
      if !exists_ {
        return Fail(FileOpenError);
      }
      isOpen := true;
      blocks := contents;
      fileSize := size;
      :- SetBlockSize(requestedBlockSize);
      r := SyncHeaderFromFile();
    }

    /** Every check `read<T>(offset, type, size)` makes, in order. */
    function ReadCheck(offset: nat, t: SyncType, size: nat): (r: Outcome)
      reads this`isOpen, this`blockSize, this`header
      ensures r.Pass? ==> isOpen && offset != HEADER_ADDRESS
      ensures r.Pass? && t.Reads() ==> IsValidSignature(header) && header.version == FS_VERSION
      ensures r == Fail(AssertionFailed) <==> isOpen && offset != HEADER_ADDRESS && t.Reads() && t.Writes()
                                              && EnsureValidFS().Fail? && (size != 0 || blockSize != 0)
                                              && (size != 0 ==> CheckBlockSize(size % U32_MODULUS).Pass?)
    {
      if !isOpen then Fail(BadState)
      else if size == 0 && blockSize == 0 then Fail(BadState)
      else if size != 0 && CheckBlockSize(size % U32_MODULUS).Fail? then CheckBlockSize(size % U32_MODULUS)
      else if offset == HEADER_ADDRESS then Fail(InvalidArgument)
      else if t.Reads() && t.Writes() && FormattedCheck(offset).Fail? then Fail(AssertionFailed)
      else if t.Reads() then FormattedCheck(offset)
      else Pass
    }

    /** `read<T>(offset, type, size)`: a handle on the block; in a reading mode
        its buffer is taken at once and filled from the file. */
    method Read(offset: nat, t: SyncType, size: nat) returns (r: Result<BufferHandle>)
      requires Valid()
      modifies pool
      ensures Valid()
      ensures r.Ok? <==> ReadCheck(offset, t, size).Pass?
      ensures r.Err? ==> r.error == ReadCheck(offset, t, size).error
      ensures r.Ok? ==> fresh(r.value) && r.value.Valid()
      ensures r.Ok? ==> r.value.pool == pool && r.value.file == this && r.value.isValid
                        && r.value.blockAddress == offset && r.value.syncType == t
      ensures r.Ok? && !t.Reads() ==> r.value.buffer == null && unchanged(pool)
      ensures r.Ok? && t.Reads() ==>
        && r.value.buffer != null && pool.Content(r.value.buffer) == BlockAt(offset)
        && pool.bufferSize == old(pool.bufferSize)
        && r.value.buffer in pool.occupied && r.value.buffer !in pool.free
        && pool.occupied == old(pool.occupied) + {r.value.buffer}
        && pool.free == (if old(pool.free) == [] then [] else old(pool.free[1..]))
        && pool.content == old(pool.content)[r.value.buffer := BlockAt(offset)]
    {
      if !isOpen {
        return Err(BadState);
      }
      if size == 0 && blockSize == 0 {
        return Err(BadState);
      }
      if size != 0 && CheckBlockSize(size % U32_MODULUS).Fail? {
        return Err(CheckBlockSize(size % U32_MODULUS).error);
      }
      var h :- pool.GetLock(offset, this, t);
      if t.Reads() {
        var b := h.Data();
        var check := FormattedCheck(offset);
        if check.Fail? {
          if t.Writes() {
            // the temporary handle's destructor flushes through the same
            // check, which throws again while unwinding: the program stops
            return Err(AssertionFailed);
          }
          // the temporary handle is destroyed: its buffer goes back
          pool.UnlockBuffer(b.value);
          h.isValid := false;
          return Err(check.error);
        }
        pool.content := pool.content[b.value := BlockAt(offset)];
      }
      return Ok(h);
    }
  }

  /** The block at address `a` of a file; an address never written reads as
      a zero-filled block. */
  function BlockOf(m: map<nat, Block>, a: nat): Block {
    if a in m then m[a] else Zeroed
  }

  /** `header()` on the state it reads: null whenever `headerExcept()` fails. */
  function HeaderOrNullOf(isOpen: bool, h: Header): Option<Header> {
    if isOpen && IsValidSignature(h) && h.version == FS_VERSION then Some(h) else None
  }

  /** The number of whole blocks in a file of `fileSize` bytes. */
  function BlockCount(fileSize: nat, blockSize: nat): nat {
    if blockSize == 0 then 0 else fileSize / blockSize
  }

  /** The file after zero-filling the blocks lo, lo + 1, ..., hi - 1 in turn. */
  function ClearedRange(m: map<nat, Block>, lo: nat, hi: nat): map<nat, Block>
    decreases hi - lo
  {
    if lo >= hi then m else ClearedRange(m, lo, hi - 1)[hi - 1 := Zeroed]
  }

  lemma ClearedStep(m: map<nat, Block>, lo: nat, i: nat)
    requires lo <= i
    ensures ClearedRange(m, lo, i)[i := Zeroed] == ClearedRange(m, lo, i + 1)
  {
  }

  /** Exactly the blocks in [lo, hi) read as zero-filled afterwards; every
      other block is as before. */
  lemma {:induction false} ClearedRangeAt(m: map<nat, Block>, lo: nat, hi: nat, a: nat)
    ensures a in ClearedRange(m, lo, hi) <==> a in m || lo <= a < hi
    ensures a in ClearedRange(m, lo, hi) ==>
      ClearedRange(m, lo, hi)[a] == if lo <= a < hi then Zeroed else m[a]
    decreases hi - lo
  {
    if lo < hi {
      ClearedRangeAt(m, lo, hi - 1, a);
    }
  }

  /** Distinct non-header addresses map to disjoint byte ranges, all past the
      first block, which holds the header. */
  lemma BlockRangesDisjoint(blockSize: nat, a: nat, b: nat)
    requires blockSize != 0 && a != HEADER_ADDRESS && b != HEADER_ADDRESS && a < b
    ensures blockSize <= a * blockSize
    ensures a * blockSize + blockSize <= b * blockSize
  {
    MulAtLeast(a, blockSize);
    MulSplit(a, b - a, blockSize);
    MulAtLeast(b - a, blockSize);
  }

  lemma {:induction false} MulAtLeast(k: nat, n: nat)
    requires k >= 1
    ensures k * n >= n
  {
    if k > 1 {
      MulAtLeast(k - 1, n);
      assert k * n == (k - 1) * n + n;
    }
  }

  lemma MulSplit(a: nat, k: nat, n: nat)
    ensures (a + k) * n == a * n + k * n
  {
  }

  /** `lastBlockAddress` is the count of whole blocks: that many blocks fit
      in the file and one more does not. */
  lemma BlockCountFits(fileSize: nat, blockSize: nat)
    requires blockSize != 0
    ensures BlockCount(fileSize, blockSize) * blockSize <= fileSize < (BlockCount(fileSize, blockSize) + 1) * blockSize
  {
  }
}
