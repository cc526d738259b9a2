/**
 The file system server of TPJOS/fs/fs.c: block allocation, block maps, reading, writing
 and truncating, as methods that change the bitmap, the File records and the blocks in place.
 */
module FileSystem {
  import opened Options
  import opened FileLayout

  datatype Error = NotFound | NoDisk | InvalidBlock

  /** The result of a call of the server; Panic when the server has stopped. */
  datatype Result<T> = Ok(value: T) | Err(error: Error) | Panic

  /** What ends up in a slot when alloc_block fails: -E_NO_DISK as a uint32_t. */
  const NO_BLOCK: nat := 0xFFFF_FFF7

  ghost predicate SameSizes(files: Files, files': Files) {
    |files'| == |files| && forall f :: 0 <= f < |files| ==> files'[f].size == files[f].size
  }

  /** There are enough free blocks for the blocks `lo` .. `hi` - 1 of the file and its indirect block,
      however many of them it lacks. */
  ghost predicate Room(files: Files, free: seq<bool>, f: nat, lo: int, hi: int) {
    f < |files| && hi <= MAXBLOCKS && hi - lo + (if files[f].indirect == 0 then 1 else 0) <= |FreeBlocks(free)|
  }

  class Server {
    const reserved: nat          // the boot block, the superblock and the bitmap blocks
    var files: Files
    var blocks: Blocks           // s_nblocks of them
    var free: seq<bool>          // the bits of the bitmap

    ghost predicate Valid()
      reads this
    {
      Inv(files, blocks, free, reserved)
    }

    /** alloc_block: the first free block. */
    method AllocBlock() returns (r: Option<nat>)
      requires |free| == |blocks|
      modifies `free
      ensures |free| == old(|free|)
      ensures r.None? <==> forall b :: 0 <= b < |free| ==> !old(free)[b]
      ensures r.Some? ==> r.value < |free| && old(free)[r.value]
      ensures r.Some? ==> forall b :: 0 <= b < r.value ==> !old(free)[b]
      ensures free == if r.Some? then old(free)[r.value := false] else old(free)
      ensures r.None? <==> |FreeBlocks(old(free))| == 0
      ensures r.Some? ==> |FreeBlocks(free)| == |FreeBlocks(old(free))| - 1
    {
      var nb := 0;
      while nb < |blocks|
        invariant nb <= |blocks| && free == old(free)
        invariant forall b :: 0 <= b < nb ==> !free[b]
      {
        if free[nb] {
          TakeFree(free, nb);
          free := free[nb := false];
          return Some(nb);
        }
        nb := nb + 1;
      }
      assert FreeBlocks(free) == {};
      return None;
    }

    /** free_block, which panics on block 0. */
    method FreeBlock(b: nat)
      requires 0 < b < |free|
      modifies `free
      ensures free == old(free)[b := true]
    {
      free := free[b := true];
    }

    /** The file has no indirect block and needs one for block `filebno`. */
    predicate Missing(f: nat, filebno: nat)
      requires f < |files|
      reads this
    {
      filebno >= NDIRECT && files[f].indirect == 0
    }

    /** file_block_walk: the place that holds the number of block `filebno`, with a new empty indirect
        block if one is needed and asked for. */
    method FileBlockWalk(f: nat, filebno: nat, alloc: bool) returns (r: Result<Slot>)
      requires Valid() && f < |files|
      modifies this
      ensures Valid() && Kept(old(files), old(blocks), files, blocks, f)
      ensures r == if filebno >= MAXBLOCKS then Err(InvalidBlock)
                   else if old(Missing(f, filebno)) && !alloc then Err(NotFound)
                   else if old(Missing(f, filebno)) && |FreeBlocks(old(free))| == 0 then Err(NoDisk)
                   else Ok(DataSlot(f, filebno))
      ensures !r.Ok? || !old(Missing(f, filebno)) ==> files == old(files) && blocks == old(blocks) && free == old(free)
      ensures r.Ok? && old(Missing(f, filebno)) ==> |FreeBlocks(free)| == |FreeBlocks(old(free))| - 1
      ensures r.Ok? && r.value.Ind? ==> files[f].indirect != 0
      ensures SameSizes(old(files), files)
      ensures r.Ok? ==> At(files, blocks, r.value) == old(At(files, blocks, DataSlot(f, filebno)))
    {
      hide Disjoint, Conserved, Trimmed, Kept, SameData;
      Shapes(files, blocks, free, reserved);
      SameKept(files, blocks, f);
      if filebno >= MAXBLOCKS {
        return Err(InvalidBlock);
      }
      if filebno < NDIRECT {
        return Ok(Direct(f, filebno));
      }
      if files[f].indirect == 0 {
        if !alloc {
          return Err(NotFound);
        }
        var b := AllocBlock();
        if b.None? {
          return Err(NoDisk);
        }
        FreshBlock(files, blocks, old(free), reserved, b.value);
        EnterIndirect(files, blocks, reserved, f, b.value);
        ghost var files0, blocks0 := files, blocks;
        files := SetIndirect(files, f, b.value);
        blocks := blocks[b.value := ZeroBlock()];
        ConservedEnter(files0, blocks0, old(free), files, blocks, reserved, Indirect(f), b.value);
        TrimmedChange(files0, blocks0, files, blocks, Indirect(f), b.value);
        FillKeeps(files0, blocks0, files, blocks, Indirect(f), b.value);
      }
      return Ok(Ind(f, filebno - NDIRECT));
    }

    /** file_get_block: the block that holds block `filebno` of the file, which it gets if it has none.
        Past the end of the file it leaves a block that no truncation to a smaller size frees. When the disk is full the slot receives a negative number that is not seen as such, and the
        server panics in diskaddr; -E_NO_DISK comes out only for want of an indirect block. */
    method FileGetBlock(f: nat, filebno: nat) returns (r: Result<nat>)
      requires Valid() && f < |files|
      modifies this
      ensures r.Err? <==> filebno >= MAXBLOCKS || (old(Missing(f, filebno)) && |FreeBlocks(old(free))| == 0)
      ensures r.Err? ==> r.error == if filebno >= MAXBLOCKS then InvalidBlock else NoDisk
      ensures r.Panic? <==> !r.Err? && old(At(files, blocks, DataSlot(f, filebno))) == 0 &&
                            |FreeBlocks(old(free))| == if old(Missing(f, filebno)) then 1 else 0
      ensures !r.Panic? ==> (Valid() <==> r.Err? || filebno < BlocksOf(old(files)[f].size))
      ensures !r.Panic? ==> Disjoint(files, blocks, reserved) && Conserved(files, blocks, free, reserved)
      ensures !r.Panic? ==> Kept(old(files), old(blocks), files, blocks, f) && SameSizes(old(files), files)
      ensures r.Ok? ==> r.value == At(files, blocks, DataSlot(f, filebno)) && reserved <= r.value < |free| && !free[r.value]
      ensures filebno < MAXBLOCKS && old(At(files, blocks, DataSlot(f, filebno))) != 0 ==>
        r.Ok? && files == old(files) && blocks == old(blocks) && free == old(free)
      ensures r.Ok? ==> forall hi :: filebno < hi && Room(old(files), old(free), f, filebno, hi) ==> Room(files, free, f, filebno + 1, hi)
    {
      hide Disjoint, Conserved, Trimmed, Kept, SameData;
      Shapes(files, blocks, free, reserved);
      var walk := FileBlockWalk(f, filebno, true);
      if walk.Err? {
        return Err(walk.error);
      }
      var slot := walk.value;
      Shapes(files, blocks, free, reserved);
      if At(files, blocks, slot) == 0 {
        ghost var files0, blocks0, free0 := files, blocks, free;
        var b := AllocBlock();
        var number := if b.Some? then b.value else NO_BLOCK;
        PutChanges(files, blocks, reserved, slot, number);
        files, blocks := PutFiles(files, slot, number), PutBlocks(files, blocks, slot, number);
        if number >= |blocks| {
          return Panic;
        }
        FreshBlock(files0, blocks0, free0, reserved, number);
        ConservedEnter(files0, blocks0, free0, files, blocks, reserved, slot, number);
        if filebno < BlocksOf(files[f].size) {
          TrimmedChange(files0, blocks0, files, blocks, slot, number);
        }
        FillKeeps(files0, blocks0, files, blocks, slot, number);
        KeptTwice(old(files), old(blocks), files0, blocks0, files, blocks, f);
      }
      NotTrimmed(files, blocks, f, filebno);
      Taken(files, blocks, free, reserved, slot);
      return Ok(At(files, blocks, slot));
    }

    function ReadLength(f: nat, count: nat, offset: nat): nat
      requires f < |files|
      reads this
    {
      if offset >= files[f].size then 0
      else if count < files[f].size - offset then count
      else files[f].size - offset
    }

    /** file_read. A position that has no block gets one, with whatever the block held before. */
    method FileRead(f: nat, count: nat, offset: nat) returns (r: Result<seq<Byte>>)
      requires Valid() && f < |files|
      modifies this
      ensures !r.Panic? ==> Valid() && Kept(old(files), old(blocks), files, blocks, f) && SameSizes(old(files), files)
      ensures r.Ok? ==> |r.value| == old(ReadLength(f, count, offset)) && Reads(files, blocks, f, offset, r.value)
      ensures old(Filled(files, blocks, f, offset, ReadLength(f, count, offset))) ==>
        r.Ok? && files == old(files) && blocks == old(blocks) && free == old(free)
      ensures old(Room(files, free, f, offset / BLKSIZE, BlocksOf(offset + ReadLength(f, count, offset)))) ==> r.Ok?
      ensures r.Err? ==> r.error == NoDisk || (r.error == InvalidBlock && BlocksOf(offset + old(ReadLength(f, count, offset))) > MAXBLOCKS)
    {
      hide Inv, Disjoint, Conserved, Kept, Reads, Filled, Room;
      Shapes(files, blocks, free, reserved);
      WriteNothing(files, blocks, f, offset);
      if offset >= files[f].size {
        NothingRead(files, blocks, f, offset);
        return Ok([]);
      }
      var n := if count < files[f].size - offset then count else files[f].size - offset;
      var pos, buf := offset, [];
      NothingRead(files, blocks, f, offset);
      while pos < offset + n
        invariant Valid() && SameSizes(old(files), files) && Kept(old(files), old(blocks), files, blocks, f)
        invariant pos == offset + |buf| <= offset + n <= old(files)[f].size
        invariant FilesShape(files) && Reads(files, blocks, f, offset, buf)
        invariant Filled(old(files), old(blocks), f, offset, n) ==> files == old(files) && blocks == old(blocks) && free == old(free)
        invariant pos < offset + n && old(Room(files, free, f, offset / BLKSIZE, BlocksOf(offset + n))) ==>
          Room(files, free, f, pos / BLKSIZE, BlocksOf(offset + n))
        decreases offset + n - pos
      {
        RoomForOne(files, free, f, pos, offset + n);
        ghost var files0, blocks0 := files, blocks;
        WithinSize(pos, files[f].size);
        HasBlock(files, blocks, f, offset, n, pos);
        var blk := FileGetBlock(f, pos / BLKSIZE);
        if blk.Panic? {
          return Panic;
        }
        Shapes(files, blocks, free, reserved);
        KeptTwice(old(files), old(blocks), files0, blocks0, files, blocks, f);
        if blk.Err? {
          return Err(blk.error);
        }
        ReadsKept(files0, blocks0, files, blocks, f, offset, buf);
        ChunkFits(pos, offset + n);
        var bn := if BLKSIZE - pos % BLKSIZE < offset + n - pos then BLKSIZE - pos % BLKSIZE else offset + n - pos;
        ReadsChunk(files, blocks, f, offset, buf, bn);
        buf := buf + blocks[blk.value][pos % BLKSIZE..pos % BLKSIZE + bn];
        NextChunk(pos, bn, offset + n);
        pos := pos + bn;
      }
      return Ok(buf);
    }

    /** file_free_block. */
    method FileFreeBlock(f: nat, filebno: nat) returns (r: Result<nat>)
      requires Valid() && f < |files|
      modifies this
      ensures Valid() && SameSizes(old(files), files)
      ensures Erased(old(files), old(blocks), files, blocks, f, filebno, filebno + 1)
      ensures OthersZero(old(files), old(blocks), files, blocks, f, filebno)
      ensures |files| == old(|files|) && files[f].indirect == old(files)[f].indirect
      ensures r == if filebno >= MAXBLOCKS then Err(InvalidBlock) else if old(Missing(f, filebno)) then Err(NotFound) else Ok(0)
    {
      hide Inv, Erased, OthersZero, SameData;
      Shapes(files, blocks, free, reserved);
      var walk := FileBlockWalk(f, filebno, false);
      if walk.Err? {
        NoBlockThere(files, blocks, f, filebno);
        return Err(walk.error);
      }
      var slot := walk.value;
      ghost var files0, blocks0, free0 := files, blocks, free;
      if At(files, blocks, slot) != 0 {
        Revealed(files, blocks, free, reserved);
        InUse(files, blocks, free, reserved, slot);
        PutChanges(files, blocks, reserved, slot, 0);
        ConservedLeave(files, blocks, free, PutFiles(files, slot, 0), PutBlocks(files, blocks, slot, 0), reserved, slot);
        TrimmedChange(files, blocks, PutFiles(files, slot, 0), PutBlocks(files, blocks, slot, 0), slot, 0);
        FreeBlock(At(files, blocks, slot));
        files, blocks := PutFiles(files, slot, 0), PutBlocks(files, blocks, slot, 0);
        Gathered(files, blocks, free, reserved);
        SlotErases(files0, blocks0, files, blocks, f, filebno);
        ZeroNow(files0, blocks0, files, blocks, f, filebno);
      } else {
        NoBlockThere(files, blocks, f, filebno);
      }
      return Ok(0);
    }

    /** file_truncate_blocks, for a size below the present one. */
    method FileTruncateBlocks(f: nat, newsize: nat)
      requires Valid() && f < |files| && newsize < files[f].size
      modifies this
      ensures Valid() && SameSizes(old(files), files)
      ensures Cut(old(files), old(blocks), files, blocks, f, BlocksOf(newsize))
      ensures ZeroRange(files, blocks, f, BlocksOf(newsize), MAXBLOCKS)
      ensures f < |files| && (BlocksOf(newsize) <= NDIRECT ==> files[f].indirect == 0)
    {
      hide Inv, Erased, OthersZero, ZeroRange, Cut, SameData;
      Shapes(files, blocks, free, reserved);
      var oldNblocks, newNblocks := BlocksOf(files[f].size), BlocksOf(newsize);
      FewerBlocks(newsize, files[f].size);
      Revealed(files, blocks, free, reserved);
      ErasedNone(files, blocks, f, newNblocks);
      var bno := newNblocks;
      while bno < oldNblocks
        invariant newNblocks <= bno <= oldNblocks && Valid() && SameSizes(old(files), files)
        invariant Erased(old(files), old(blocks), files, blocks, f, newNblocks, bno)
        invariant ZeroRange(files, blocks, f, newNblocks, bno) && ZeroRange(files, blocks, f, oldNblocks, MAXBLOCKS)
        invariant f < |files| && files[f].indirect == old(files)[f].indirect
      {
        ghost var files0, blocks0 := files, blocks;
        var _ := FileFreeBlock(f, bno);
        EraseNext(old(files), old(blocks), files0, blocks0, files, blocks, f, newNblocks, bno);
        ZeroNext(files0, blocks0, files, blocks, f, newNblocks, bno, oldNblocks);
        bno := bno + 1;
      }
      Shapes(files, blocks, free, reserved);
      ZeroJoin(files, blocks, f, newNblocks, oldNblocks);
      WasTrimmed(old(files), old(blocks), f);
      ErasedIsCut(old(files), old(blocks), files, blocks, f, newNblocks, oldNblocks);
      if newNblocks <= NDIRECT && files[f].indirect != 0 {
        Revealed(files, blocks, free, reserved);
        InUse(files, blocks, free, reserved, Indirect(f));
        AllIndZero(files, blocks, f, newNblocks);
        LeaveIndirect(files, blocks, f);
        ConservedLeave(files, blocks, free, SetIndirect(files, f, 0), blocks, reserved, Indirect(f));
        TrimmedChange(files, blocks, SetIndirect(files, f, 0), blocks, Indirect(f), 0);
        CutUnseen(old(files), old(blocks), files, blocks, SetIndirect(files, f, 0), f, newNblocks);
        FreeBlock(files[f].indirect);
        files := SetIndirect(files, f, 0);
        Gathered(files, blocks, free, reserved);
      }
    }

    /** file_set_size: cut back to whole blocks, or extended without blocks. */
    method FileSetSize(f: nat, newsize: nat)
      requires Valid() && f < |files|
      modifies this
      ensures Valid() && SameSizes(SetSize(old(files), f, newsize), files)
      ensures if newsize < old(files)[f].size then Cut(old(files), old(blocks), files, blocks, f, BlocksOf(newsize))
              else blocks == old(blocks) && files == SetSize(old(files), f, newsize) && free == old(free)
    {
      hide Inv, Cut, ZeroRange;
      Shapes(files, blocks, free, reserved);
      if files[f].size > newsize {
        FileTruncateBlocks(f, newsize);
      } else {
        StaysTrimmed(files, blocks, free, reserved, f, newsize);
      }
      ghost var files0 := files;
      ResizeUnseen(files, blocks, free, reserved, f, newsize);
      files := SetSize(files, f, newsize);
      if newsize < old(files)[f].size {
        CutThenSame(old(files), old(blocks), files0, files, blocks, f, BlocksOf(newsize));
      }
    }

    /** file_write: on success the file reads as `buf` from `offset` on, it is no shorter than before and
        reaches at least to the end of `buf`; everything else that had a value keeps it. When a block
        cannot be had, a first part of `buf` has been written. */
    method FileWrite(f: nat, buf: seq<Byte>, offset: nat) returns (r: Result<nat>)
      requires Valid() && f < |files|
      modifies this
      ensures !r.Panic? ==> Valid() && SameSizes(SetSize(old(files), f, Max(old(files)[f].size, offset + |buf|)), files)
      ensures r.Ok? ==> r.value == |buf| && Written(old(files), old(blocks), files, blocks, f, offset, buf)
      ensures r.Err? ==> exists n :: 0 <= n <= |buf| && Written(old(files), old(blocks), files, blocks, f, offset, buf[..n])
      ensures Filled(old(files), old(blocks), f, offset, |buf|) ==> r.Ok?
      ensures old(Room(files, free, f, offset / BLKSIZE, BlocksOf(offset + |buf|))) ==> r.Ok?
      ensures r.Err? ==> r.error == NoDisk || (r.error == InvalidBlock && BlocksOf(offset + |buf|) > MAXBLOCKS)
    {
      hide Inv, Disjoint, Conserved, Kept, Reads, Written, Cut, Filled, Room, Overwrite, At, DataSlot, View, BlocksOf, SameSizes, SetSize, FreeBlocks, FilesShape;
      ghost var room := Room(files, free, f, offset / BLKSIZE, BlocksOf(offset + |buf|));
      Shapes(files, blocks, free, reserved);
      if offset + |buf| > files[f].size {
        FileSetSize(f, offset + |buf|);
        ResizeView(old(files), old(blocks), f, offset + |buf|);
        ResizeRoom(old(files), free, f, offset + |buf|, offset / BLKSIZE, BlocksOf(offset + |buf|));
      }
      Shapes(files, blocks, free, reserved);
      SizesStart(old(files), files, f, Max(old(files)[f].size, offset + |buf|));
      WriteNothing(old(files), old(blocks), f, offset);
      var pos, done := offset, 0;
      ResizedNothing(old(files), files, blocks, f, offset);
      assert buf[..0] == [];
      assert Filled(old(files), old(blocks), f, offset, |buf|) ==> Filled(files, blocks, f, offset, |buf|);
      while pos < offset + |buf|
        invariant Valid() && SameSizes(SetSize(old(files), f, Max(old(files)[f].size, offset + |buf|)), files)
        invariant pos == offset + done && done <= |buf|
        invariant Written(old(files), old(blocks), files, blocks, f, offset, buf[..done])
        invariant FilesShape(files) && f < |files| && files[f].size >= offset + |buf|
        invariant Filled(old(files), old(blocks), f, offset, |buf|) ==> Filled(files, blocks, f, offset, |buf|)
        invariant pos < offset + |buf| && room ==> Room(files, free, f, pos / BLKSIZE, BlocksOf(offset + |buf|))
        decreases |buf| - done
      {
        RoomForOne(files, free, f, pos, offset + |buf|);
        ghost var files0, blocks0 := files, blocks;
        WithinSize(pos, files[f].size);
        HasBlock(files, blocks, f, offset, |buf|, pos);
        var blk := FileGetBlock(f, pos / BLKSIZE);
        if blk.Panic? {
          return Panic;
        }
        Shapes(files, blocks, free, reserved);
        WrittenThenKept(old(files), old(blocks), files0, blocks0, files, blocks, f, offset, buf[..done]);
        SizesStay(SetSize(old(files), f, Max(old(files)[f].size, offset + |buf|)), files0, files, f);
        if blk.Err? {
          return Err(blk.error);
        }
        KeptFilled(files0, blocks0, files, blocks, f, offset, |buf|);
        ChunkFits(pos, offset + |buf|);
        var bn := if BLKSIZE - pos % BLKSIZE < offset + |buf| - pos then BLKSIZE - pos % BLKSIZE else offset + |buf| - pos;
        var chunk := buf[done..done + bn];
        ChunkStep(old(files), old(blocks), files, blocks, free, reserved, f, offset, buf[..done], chunk, |buf|);
        blocks := blocks[blk.value := Overwrite(blocks[blk.value], pos % BLKSIZE, chunk)];
        assert buf[..done] + chunk == buf[..done + bn];
        NextChunk(pos, bn, offset + |buf|);
        pos, done := pos + bn, done + bn;
      }
      assert buf[..done] == buf;
      return Ok(|buf|);
    }
  }

  lemma Revealed(files: Files, blocks: Blocks, free: seq<bool>, reserved: nat)
    requires Inv(files, blocks, free, reserved)
    ensures Disjoint(files, blocks, reserved) && Conserved(files, blocks, free, reserved) && Trimmed(files, blocks)
    ensures |blocks| < 0x8000_0000
  {
  }

  lemma Gathered(files: Files, blocks: Blocks, free: seq<bool>, reserved: nat)
    requires Disjoint(files, blocks, reserved) && Conserved(files, blocks, free, reserved) && Trimmed(files, blocks)
    requires |blocks| < 0x8000_0000
    ensures Inv(files, blocks, free, reserved)
  {
  }

  /** Block `filebno` of `f` is gone; its other blocks are gone if they were. */
  ghost predicate OthersZero(files: Files, blocks: Blocks, files': Files, blocks': Blocks, f: nat, filebno: nat) {
    && FilesShape(files) && FilesShape(files') && f < |files| == |files'|
    && forall bno: nat | bno < MAXBLOCKS && (bno == filebno || At(files, blocks, DataSlot(f, bno)) == 0) ::
         At(files', blocks', DataSlot(f, bno)) == 0
  }

  lemma NoBlockThere(files: Files, blocks: Blocks, f: nat, filebno: nat)
    requires FilesShape(files) && f < |files| && (filebno < MAXBLOCKS ==> At(files, blocks, DataSlot(f, filebno)) == 0)
    ensures Erased(files, blocks, files, blocks, f, filebno, filebno + 1)
    ensures OthersZero(files, blocks, files, blocks, f, filebno)
  {
    NothingErased(files, blocks, f, filebno);
  }

  lemma ZeroNow(files: Files, blocks: Blocks, files': Files, blocks': Blocks, f: nat, filebno: nat)
    requires filebno < MAXBLOCKS && OneChange(files, blocks, files', blocks', DataSlot(f, filebno), 0) && f < |files|
    ensures OthersZero(files, blocks, files', blocks', f, filebno)
  {
  }

  ghost predicate ZeroRange(files: Files, blocks: Blocks, f: nat, lo: nat, hi: nat) {
    && FilesShape(files) && f < |files|
    && forall bno | lo <= bno < hi && bno < MAXBLOCKS :: At(files, blocks, DataSlot(f, bno)) == 0
  }

  lemma FewerBlocks(newsize: nat, size: nat)
    requires newsize <= size
    ensures BlocksOf(newsize) <= BlocksOf(size)
  {
  }

  lemma ErasedNone(files: Files, blocks: Blocks, f: nat, lo: nat)
    requires FilesShape(files) && f < |files| && Trimmed(files, blocks)
    ensures Erased(files, blocks, files, blocks, f, lo, lo) && ZeroRange(files, blocks, f, lo, lo)
    ensures ZeroRange(files, blocks, f, BlocksOf(files[f].size), MAXBLOCKS)
  {
  }

  lemma ZeroNext(files: Files, blocks: Blocks, files': Files, blocks': Blocks, f: nat, lo: nat, bno: nat, hi: nat)
    requires ZeroRange(files, blocks, f, lo, bno) && ZeroRange(files, blocks, f, hi, MAXBLOCKS) && lo <= bno
    requires OthersZero(files, blocks, files', blocks', f, bno)
    ensures ZeroRange(files', blocks', f, lo, bno + 1) && ZeroRange(files', blocks', f, hi, MAXBLOCKS)
  {
  }

  lemma ZeroJoin(files: Files, blocks: Blocks, f: nat, lo: nat, hi: nat)
    requires ZeroRange(files, blocks, f, lo, hi) && ZeroRange(files, blocks, f, hi, MAXBLOCKS)
    ensures ZeroRange(files, blocks, f, lo, MAXBLOCKS)
  {
  }

  lemma WasTrimmed(files: Files, blocks: Blocks, f: nat)
    requires FilesShape(files) && f < |files| && Trimmed(files, blocks)
    ensures forall bno | BlocksOf(files[f].size) <= bno < MAXBLOCKS :: At(files, blocks, DataSlot(f, bno)) == 0
  {
  }

  lemma AllIndZero(files: Files, blocks: Blocks, f: nat, lo: nat)
    requires ZeroRange(files, blocks, f, lo, MAXBLOCKS) && lo <= NDIRECT
    ensures forall k: nat | k < NINDIRECT :: At(files, blocks, Ind(f, k)) == 0
    ensures ZeroRange(SetIndirect(files, f, 0), blocks, f, lo, MAXBLOCKS)
  {
    forall k: nat | k < NINDIRECT
      ensures At(files, blocks, Ind(f, k)) == 0
    {
      assert DataSlot(f, NDIRECT + k) == Ind(f, k);
    }
    forall bno | lo <= bno < MAXBLOCKS
      ensures At(SetIndirect(files, f, 0), blocks, DataSlot(f, bno)) == 0
    {
      assert At(files, blocks, DataSlot(f, bno)) == 0;
    }
  }

  lemma CutUnseen(files: Files, blocks: Blocks, files1: Files, blocks1: Blocks, files2: Files, f: nat, lo: nat)
    requires Cut(files, blocks, files1, blocks1, f, lo) && f < |files|
    requires OneChange(files1, blocks1, files2, blocks1, Indirect(f), 0) && SameData(files1, blocks1, blocks1)
    ensures Cut(files, blocks, files2, blocks1, f, lo)
  {
    forall g, pos | 0 <= g < |files| && 0 <= pos
      ensures View(files2, blocks1, g, pos) == View(files1, blocks1, g, pos)
    {
      IndirectUnseen(files1, blocks1, files2, blocks1, f, 0, g, pos);
    }
  }

  lemma StaysTrimmed(files: Files, blocks: Blocks, free: seq<bool>, reserved: nat, f: nat, newsize: nat)
    requires Inv(files, blocks, free, reserved) && f < |files| && files[f].size <= newsize
    ensures ZeroRange(files, blocks, f, BlocksOf(newsize), MAXBLOCKS)
  {
    FewerBlocks(files[f].size, newsize);
  }

  /** The size is not part of the layout. */
  lemma ResizeUnseen(files: Files, blocks: Blocks, free: seq<bool>, reserved: nat, f: nat, newsize: nat)
    requires Inv(files, blocks, free, reserved) && ZeroRange(files, blocks, f, BlocksOf(newsize), MAXBLOCKS)
    ensures Inv(SetSize(files, f, newsize), blocks, free, reserved) && FilesShape(SetSize(files, f, newsize))
    ensures forall g, pos | 0 <= g < |files| && 0 <= pos :: View(SetSize(files, f, newsize), blocks, g, pos) == View(files, blocks, g, pos)
  {
    var files' := SetSize(files, f, newsize);
    assert forall s | IsSlot(|files|, s) :: At(files', blocks, s) == At(files, blocks, s);
    forall b | reserved <= b < |blocks|
      ensures Owned(files', blocks, b) <==> Owned(files, blocks, b)
    {
      if Owned(files, blocks, b) {
        var s :| IsSlot(|files|, s) && At(files, blocks, s) == b;
        assert At(files', blocks, s) == b;
      }
      if Owned(files', blocks, b) {
        var s :| IsSlot(|files'|, s) && At(files', blocks, s) == b;
        assert At(files, blocks, s) == b;
      }
    }
  }

  lemma CutThenSame(files: Files, blocks: Blocks, files1: Files, files2: Files, blocks1: Blocks, f: nat, lo: nat)
    requires Cut(files, blocks, files1, blocks1, f, lo) && FilesShape(files2) && |files2| == |files1|
    requires forall g, pos | 0 <= g < |files1| && 0 <= pos :: View(files2, blocks1, g, pos) == View(files1, blocks1, g, pos)
    ensures Cut(files, blocks, files2, blocks1, f, lo)
  {
  }

  function Max(a: nat, b: nat): nat {
    if a < b then b else a
  }

  lemma SizesStart(files: Files, files': Files, f: nat, size: nat)
    requires f < |files| && size >= files[f].size
    requires if size == files[f].size then files' == files else SameSizes(SetSize(files, f, size), files')
    ensures SameSizes(SetSize(files, f, size), files') && f < |files'| && files'[f].size == size
  {
  }

  lemma SizesStay(files: Files, files1: Files, files2: Files, f: nat)
    requires SameSizes(files, files1) && SameSizes(files1, files2) && f < |files|
    ensures SameSizes(files, files2) && f < |files2| && files2[f].size == files[f].size
  {
  }

  lemma ResizeView(files: Files, blocks: Blocks, f: nat, newsize: nat)
    requires FilesShape(files) && f < |files|
    ensures FilesShape(SetSize(files, f, newsize)) && |SetSize(files, f, newsize)| == |files|
    ensures forall g, pos | 0 <= g < |files| && 0 <= pos :: View(SetSize(files, f, newsize), blocks, g, pos) == View(files, blocks, g, pos)
  {
  }

  lemma ResizeRoom(files: Files, free: seq<bool>, f: nat, newsize: nat, lo: int, hi: int)
    requires f < |files|
    ensures Room(SetSize(files, f, newsize), free, f, lo, hi) == Room(files, free, f, lo, hi)
  {
  }

  lemma ResizedNothing(files: Files, files': Files, blocks: Blocks, f: nat, offset: nat)
    requires FilesShape(files) && FilesShape(files') && f < |files| == |files'|
    requires forall g, pos | 0 <= g < |files| && 0 <= pos :: View(files', blocks, g, pos) == View(files, blocks, g, pos)
    ensures Written(files, blocks, files', blocks, f, offset, [])
    ensures forall n :: Filled(files, blocks, f, offset, n) ==> Filled(files', blocks, f, offset, n)
  {
  }

  lemma KeptFilled(files: Files, blocks: Blocks, files': Files, blocks': Blocks, f: nat, offset: nat, n: nat)
    requires Kept(files, blocks, files', blocks', f)
    ensures Filled(files, blocks, f, offset, n) ==> Filled(files', blocks', f, offset, n)
  {
  }

  lemma WrittenFilled(files: Files, blocks: Blocks, blocks': Blocks, f: nat, offset: nat, data: seq<Byte>, from: nat, n: nat)
    requires Written(files, blocks, files, blocks', f, offset, data) && Filled(files, blocks, f, from, n)
    ensures Filled(files, blocks', f, from, n)
  {
    forall pos | from <= pos < from + n
      ensures View(files, blocks', f, pos).Some?
    {
      if offset <= pos < offset + |data| {
        assert View(files, blocks', f, offset + (pos - offset)) == Some(data[pos - offset]);
      } else {
        assert View(files, blocks, f, pos).Some?;
      }
    }
  }

  lemma DataKeepsInv(files: Files, blocks: Blocks, free: seq<bool>, reserved: nat, x: Slot, content: Block)
    requires Inv(files, blocks, free, reserved) && IsSlot(|files|, x) && !x.Indirect? && 0 < At(files, blocks, x) < |blocks|
    ensures Inv(files, blocks[At(files, blocks, x) := content], free, reserved)
  {
    var blocks' := blocks[At(files, blocks, x) := content];
    WriteData(files, blocks, reserved, x, content);
    forall b | reserved <= b < |blocks|
      ensures Owned(files, blocks', b) <==> Owned(files, blocks, b)
    {
      if Owned(files, blocks, b) {
        var s :| IsSlot(|files|, s) && At(files, blocks, s) == b;
        assert At(files, blocks', s) == b;
      }
      if Owned(files, blocks', b) {
        var s :| IsSlot(|files|, s) && At(files, blocks', s) == b;
        assert At(files, blocks, s) == b;
      }
    }
  }

  /** One turn of the loop of file_write, after the block has been found. */
  lemma ChunkStep(files0: Files, blocks0: Blocks, files: Files, blocks: Blocks, free: seq<bool>, reserved: nat,
                  f: nat, offset: nat, data: seq<Byte>, chunk: seq<Byte>, n: nat)
    requires f < |files| && Inv(files, blocks, free, reserved) && Written(files0, blocks0, files, blocks, f, offset, data)
    requires (offset + |data|) / BLKSIZE < MAXBLOCKS && (offset + |data|) % BLKSIZE + |chunk| <= BLKSIZE
    requires At(files, blocks, DataSlot(f, (offset + |data|) / BLKSIZE)) != 0
    ensures var pos := offset + |data|; var b := At(files, blocks, DataSlot(f, pos / BLKSIZE));
      && b < |blocks|
      && var blocks' := blocks[b := Overwrite(blocks[b], pos % BLKSIZE, chunk)];
         && Inv(files, blocks', free, reserved) && Written(files0, blocks0, files, blocks', f, offset, data + chunk)
         && (Filled(files, blocks, f, offset, n) ==> Filled(files, blocks', f, offset, n))
  {
    hide Written, Conserved, Trimmed, Disjoint;
    Shapes(files, blocks, free, reserved);
    var pos := offset + |data|;
    var x := DataSlot(f, pos / BLKSIZE);
    var b := At(files, blocks, x);
    InUse(files, blocks, free, reserved, x);
    var blocks' := blocks[b := Overwrite(blocks[b], pos % BLKSIZE, chunk)];
    ChunkWritten(files, blocks, reserved, f, pos, chunk);
    DataKeepsInv(files, blocks, free, reserved, x, Overwrite(blocks[b], pos % BLKSIZE, chunk));
    WrittenTwice(files0, blocks0, files, blocks, files, blocks', f, offset, data, chunk);
    if Filled(files, blocks, f, offset, n) {
      WrittenFilled(files, blocks, blocks', f, pos, chunk, offset, n);
    }
  }

  lemma NothingRead(files: Files, blocks: Blocks, f: nat, offset: nat)
    requires FilesShape(files) && f < |files|
    ensures Reads(files, blocks, f, offset, [])
  {
  }

  /** Room for the rest is room for the next block. */
  lemma RoomForOne(files: Files, free: seq<bool>, f: nat, pos: nat, end: nat)
    requires pos < end
    ensures pos / BLKSIZE < BlocksOf(end)
    ensures Room(files, free, f, pos / BLKSIZE, BlocksOf(end)) ==>
      pos / BLKSIZE < MAXBLOCKS && |FreeBlocks(free)| >= (if files[f].indirect == 0 then 2 else 1)
    ensures pos / BLKSIZE >= MAXBLOCKS ==> BlocksOf(end) > MAXBLOCKS
  {
    WithinSize(pos, end);
  }

  /** A chunk that is not the last one ends a block. */
  lemma NextChunk(pos: nat, n: nat, end: nat)
    requires pos < end && n == if BLKSIZE - pos % BLKSIZE < end - pos then BLKSIZE - pos % BLKSIZE else end - pos
    ensures pos + n < end ==> (pos + n) / BLKSIZE == pos / BLKSIZE + 1
  {
  }

  lemma WithinSize(pos: nat, size: nat)
    requires pos < size
    ensures pos / BLKSIZE < BlocksOf(size)
  {
  }

  /** Every position in the range has a block. */
  ghost predicate Filled(files: Files, blocks: Blocks, f: nat, offset: nat, n: nat) {
    FilesShape(files) && f < |files| && forall pos | offset <= pos < offset + n :: View(files, blocks, f, pos).Some?
  }

  lemma HasBlock(files: Files, blocks: Blocks, f: nat, offset: nat, n: nat, pos: nat)
    requires FilesShape(files) && f < |files| && offset <= pos < offset + n
    ensures Filled(files, blocks, f, offset, n) ==> pos / BLKSIZE < MAXBLOCKS && At(files, blocks, DataSlot(f, pos / BLKSIZE)) != 0
  {
    assert Filled(files, blocks, f, offset, n) ==> View(files, blocks, f, pos).Some?;
  }

  lemma NotTrimmed(files: Files, blocks: Blocks, f: nat, filebno: nat)
    requires FilesShape(files) && f < |files| && filebno < MAXBLOCKS && At(files, blocks, DataSlot(f, filebno)) != 0
    ensures Trimmed(files, blocks) ==> filebno < BlocksOf(files[f].size)
  {
  }

  lemma Taken(files: Files, blocks: Blocks, free: seq<bool>, reserved: nat, s: Slot)
    requires Disjoint(files, blocks, reserved) && Conserved(files, blocks, free, reserved)
    requires IsSlot(|files|, s) && At(files, blocks, s) != 0
    ensures reserved <= At(files, blocks, s) < |blocks| && !free[At(files, blocks, s)]
  {
    assert Owned(files, blocks, At(files, blocks, s));
  }

  /** The block behind a slot is never a free one, so touching it cannot make bc_pgfault panic. */
  lemma InUse(files: Files, blocks: Blocks, free: seq<bool>, reserved: nat, s: Slot)
    requires Inv(files, blocks, free, reserved) && IsSlot(|files|, s) && At(files, blocks, s) != 0
    ensures reserved <= At(files, blocks, s) < |blocks| && !free[At(files, blocks, s)]
  {
    assert Owned(files, blocks, At(files, blocks, s));
  }

  lemma SameKept(files: Files, blocks: Blocks, f: nat)
    requires FilesShape(files)
    ensures Kept(files, blocks, files, blocks, f)
  {
  }

  lemma Shapes(files: Files, blocks: Blocks, free: seq<bool>, reserved: nat)
    requires Inv(files, blocks, free, reserved)
    ensures FilesShape(files) && |free| == |blocks| && 1 <= reserved <= |blocks|
  {
  }

  lemma FreshBlock(files: Files, blocks: Blocks, free: seq<bool>, reserved: nat, b: nat)
    requires Disjoint(files, blocks, reserved) && Conserved(files, blocks, free, reserved) && b < |free| && free[b]
    ensures reserved <= b < |blocks| && 0 < b && !Owned(files, blocks, b)
  {
  }
}
