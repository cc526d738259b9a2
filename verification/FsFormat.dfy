/**
 The builder of file system images, TPJOS/fs/fsformat.c: blocks are handed out from left to
 right, and the finished image satisfies the invariant that the server relies on.
 */
module FsFormat {
  import opened Options
  import opened FileLayout

  const MAX_DIR_ENTS: nat := 128
  const FILE_RECORD: nat := 256
  const MAXFILESIZE: nat := MAXBLOCKS * BLKSIZE

  function NewFile(): File {
    File(0, seq(NDIRECT, _ => 0), 0)
  }

  function Bno(s: Slot): nat
    requires !s.Indirect?
  {
    if s.Direct? then s.k else NDIRECT + s.k
  }

  /** The first `i` blocks of file `f` are those from `start` on, `ind` is its indirect block, and the
      slots of the other files are as they were. */
  ghost predicate Laying(files0: Files, blocks0: Blocks, files: Files, blocks: Blocks, f: nat, start: nat, i: nat, ind: nat) {
    && FilesShape(files0) && FilesShape(files) && |files| == |files0| && |blocks| == |blocks0| && f < |files|
    && (forall g :: 0 <= g < |files| && g != f ==> files[g].size == files0[g].size)
    && forall s | IsSlot(|files|, s) ::
         At(files, blocks, s) == if s.file != f then At(files0, blocks0, s)
                                 else if s.Indirect? then ind
                                 else if Bno(s) < i then start + Bno(s) else 0
  }

  /** Everything before `pos` is in use, and nothing from there on. */
  ghost predicate Packed(files: Files, blocks: Blocks, reserved: nat, pos: nat) {
    && Disjoint(files, blocks, reserved) && 1 <= reserved <= pos < |blocks|
    && (forall s | IsSlot(|files|, s) :: At(files, blocks, s) < pos)
    && (forall b :: reserved <= b < pos ==> Owned(files, blocks, b))
    && Trimmed(files, blocks)
  }

  /** As far as it has got, the layout is disjoint. */
  lemma LayingDisjoint(files0: Files, blocks0: Blocks, files: Files, blocks: Blocks, reserved: nat, f: nat, start: nat, i: nat, ind: nat, pos: nat)
    requires Laying(files0, blocks0, files, blocks, f, start, i, ind) && Disjoint(files0, blocks0, reserved)
    requires 1 <= reserved <= start && start + i <= pos <= |blocks|
    requires forall s | IsSlot(|files0|, s) && s.file != f :: At(files0, blocks0, s) < start
    requires ind == 0 || start + i <= ind < pos
    ensures Disjoint(files, blocks, reserved)
    ensures forall s | IsSlot(|files|, s) :: At(files, blocks, s) < pos
  {
    forall s, s' | IsSlot(|files|, s) && IsSlot(|files|, s') && At(files, blocks, s) != 0 &&
                   At(files, blocks, s) == At(files, blocks, s')
      ensures s == s'
    {
    }
  }

  lemma LayNothing(files: Files, blocks: Blocks, f: nat, start: nat, size: nat)
    requires FilesShape(files) && f < |files| && forall s | IsSlot(|files|, s) && s.file == f :: At(files, blocks, s) == 0
    ensures Laying(files, blocks, SetSize(files, f, size), blocks, f, start, 0, 0)
  {
  }

  lemma LayOne(files0: Files, blocks0: Blocks, files: Files, blocks: Blocks, reserved: nat, f: nat, start: nat, i: nat, ind: nat)
    requires Laying(files0, blocks0, files, blocks, f, start, i, ind) && Disjoint(files, blocks, reserved) && 1 <= reserved
    requires i < MAXBLOCKS && start + i < WORD && (i < NDIRECT || ind != 0)
    ensures var x := DataSlot(f, i);
      && Laying(files0, blocks0, PutFiles(files, x, start + i), PutBlocks(files, blocks, x, start + i), f, start, i + 1, ind)
      && forall b | 0 <= b < |blocks| && b != ind :: PutBlocks(files, blocks, x, start + i)[b] == blocks[b]
  {
    assert At(files, blocks, Indirect(f)) == ind;
    assert files[f].indirect == ind;
    hide At, Disjoint;
    PutChanges(files, blocks, reserved, DataSlot(f, i), start + i);
  }

  /** One more block number is stored. */
  lemma LayNext(files0: Files, blocks0: Blocks, files: Files, blocks: Blocks, reserved: nat, f: nat, start: nat, i: nat, ind: nat, pos: nat)
    requires Laying(files0, blocks0, files, blocks, f, start, i, ind) && Packed(files0, blocks0, reserved, start)
    requires start + i < pos <= |blocks| < WORD && (ind == 0 || start + i < ind < pos)
    requires i < MAXBLOCKS && (i < NDIRECT || ind != 0)
    ensures FilesShape(files) && f < |files|
    ensures var x := DataSlot(f, i);
      && Laying(files0, blocks0, PutFiles(files, x, start + i), PutBlocks(files, blocks, x, start + i), f, start, i + 1, ind)
      && forall b | 0 <= b < |blocks| && b != ind :: PutBlocks(files, blocks, x, start + i)[b] == blocks[b]
  {
    hide Disjoint, Trimmed, Owned, OneChange;
    LayingDisjoint(files0, blocks0, files, blocks, reserved, f, start, i, ind, pos);
    LayOne(files0, blocks0, files, blocks, reserved, f, start, i, ind);
  }

  lemma LayIndirect(files0: Files, blocks0: Blocks, files: Files, blocks: Blocks, reserved: nat, f: nat, start: nat, ind: nat)
    requires Laying(files0, blocks0, files, blocks, f, start, NDIRECT, 0) && Packed(files0, blocks0, reserved, start)
    requires start + NDIRECT <= ind < |blocks| && blocks[ind] == ZeroBlock()
    ensures |files| == |files0|
    ensures Laying(files0, blocks0, SetIndirect(files, f, ind), blocks, f, start, NDIRECT, ind)
  {
    LayingDisjoint(files0, blocks0, files, blocks, reserved, f, start, NDIRECT, 0, ind);
    NobodyHas(files, blocks, ind);
    assert At(files, blocks, Indirect(f)) == 0;
    EnterIndirect(files, blocks, reserved, f, ind);
    assert blocks[ind := ZeroBlock()] == blocks;
  }

  /** When it is done the blocks up to the new position are all in use. */
  lemma LaidOut(files0: Files, blocks0: Blocks, files: Files, blocks: Blocks, reserved: nat, f: nat, start: nat, n: nat, ind: nat, pos: nat)
    requires Laying(files0, blocks0, files, blocks, f, start, n, ind) && Packed(files0, blocks0, reserved, start)
    requires forall s | IsSlot(|files0|, s) && s.file == f :: At(files0, blocks0, s) == 0
    requires pos < |blocks| && n <= MAXBLOCKS && BlocksOf(files[f].size) == n
    requires if ind == 0 then pos == start + n else ind == start + n && pos == start + n + 1
    ensures Packed(files, blocks, reserved, pos)
  {
    LayingDisjoint(files0, blocks0, files, blocks, reserved, f, start, n, ind, pos);
    forall b | reserved <= b < pos
      ensures Owned(files, blocks, b)
    {
      if b < start {
        assert Owned(files0, blocks0, b);
        var s :| IsSlot(|files0|, s) && At(files0, blocks0, s) == b;
        assert At(files, blocks, s) == b;
      } else if b < start + n {
        assert At(files, blocks, DataSlot(f, b - start)) == b;
      } else {
        assert At(files, blocks, Indirect(f)) == b;
      }
    }
    forall g, bno | 0 <= g < |files| && BlocksOf(files[g].size) <= bno < MAXBLOCKS
      ensures At(files, blocks, DataSlot(g, bno)) == 0
    {
      assert IsSlot(|files|, DataSlot(g, bno)) && (g != f ==> At(files0, blocks0, DataSlot(g, bno)) == 0);
    }
  }

  /** A block number that was not allocated lies beyond the position. */
  lemma NotPacked(files0: Files, blocks0: Blocks, files: Files, blocks: Blocks, reserved: nat, f: nat, start: nat)
    requires Laying(files0, blocks0, files, blocks, f, start, 1, 0)
    ensures At(files, blocks, Direct(f, 0)) == start && !Packed(files, blocks, reserved, start)
  {
    assert IsSlot(|files|, Direct(f, 0));
  }

  lemma OthersRead(files0: Files, blocks0: Blocks, files: Files, blocks: Blocks, f: nat, start: nat, n: nat, ind: nat, g: nat, pos: nat)
    requires Laying(files0, blocks0, files, blocks, f, start, n, ind) && g < |files| && g != f
    requires start <= |blocks| && forall b | 0 <= b < start && b != ind :: blocks[b] == blocks0[b]
    requires forall s | IsSlot(|files0|, s) :: At(files0, blocks0, s) < start
    requires ind == 0 || start <= ind
    ensures View(files, blocks, g, pos) == View(files0, blocks0, g, pos)
  {
    if pos / BLKSIZE < MAXBLOCKS {
      assert IsSlot(|files|, DataSlot(g, pos / BLKSIZE));
    }
  }

  /** A new, empty file. */
  lemma OneMoreFile(files: Files, blocks: Blocks, reserved: nat, pos: nat)
    requires Packed(files, blocks, reserved, pos)
    ensures Packed(files + [NewFile()], blocks, reserved, pos)
    ensures forall s | IsSlot(|files| + 1, s) && s.file == |files| :: At(files + [NewFile()], blocks, s) == 0
    ensures forall g, p | 0 <= g < |files| && 0 <= p :: View(files + [NewFile()], blocks, g, p) == View(files, blocks, g, p)
  {
    var files' := files + [NewFile()];
    assert forall s | IsSlot(|files'|, s) :: At(files', blocks, s) == if s.file < |files| then At(files, blocks, s) else 0;
    forall b | reserved <= b < pos
      ensures Owned(files', blocks, b)
    {
      assert Owned(files, blocks, b);
      var s :| IsSlot(|files|, s) && At(files, blocks, s) == b;
      assert At(files', blocks, s) == b;
    }
  }

  /** The bytes of block `k` of the contents of a file, padded with zeroes. */
  function Piece(content: seq<Byte>, k: nat): seq<Byte> {
    if k * BLKSIZE >= |content| then []
    else if (k + 1) * BLKSIZE <= |content| then content[k * BLKSIZE..(k + 1) * BLKSIZE]
    else content[k * BLKSIZE..]
  }

  lemma PieceAt(content: seq<Byte>, pos: nat)
    requires pos < |content|
    ensures pos / BLKSIZE < BlocksOf(|content|) && pos % BLKSIZE < |Piece(content, pos / BLKSIZE)| <= BLKSIZE
    ensures Piece(content, pos / BLKSIZE)[pos % BLKSIZE] == content[pos]
  {
    assert pos == pos / BLKSIZE * BLKSIZE + pos % BLKSIZE;
  }

  /** The blocks that a file of `len` bytes takes, with its indirect block. */
  function Space(len: nat): nat {
    BlocksOf(len) + if BlocksOf(len) < NDIRECT then 0 else 1
  }

  function TotalSpace(inputs: seq<seq<Byte>>): nat {
    if inputs == [] then 0 else TotalSpace(inputs[..|inputs| - 1]) + Space(|inputs[|inputs| - 1]|)
  }

  lemma {:induction false} SpaceGrows(inputs: seq<seq<Byte>>, k: nat)
    requires k <= |inputs|
    ensures TotalSpace(inputs[..k]) <= TotalSpace(inputs)
  {
    if k < |inputs| {
      var shorter := inputs[..|inputs| - 1];
      SpaceGrows(shorter, k);
      assert shorter[..k] == inputs[..k];
    } else {
      assert inputs[..k] == inputs;
    }
  }

  /** ROUNDUP(n, BLKSIZE) of a uint32_t (fsformat.c:85) ... */
  function RoundUpUnsigned(n: nat): nat {
    (n - 1 + BLKSIZE - (n - 1) % WORD % BLKSIZE) % WORD
  }

  /** ... and of an int (fsformat.c:175), whose % takes the sign of the dividend. */
  function RoundUpSigned(n: nat): int {
    n - 1 + BLKSIZE - (if n == 0 then -(1 % BLKSIZE) else (n - 1) % BLKSIZE)
  }

  /** The two agree but for 0. */
  lemma RoundUps(n: nat)
    requires n <= WORD - BLKSIZE
    ensures RoundUpUnsigned(n) == BlocksOf(n) * BLKSIZE
    ensures RoundUpSigned(n) == if n == 0 then BLKSIZE else BlocksOf(n) * BLKSIZE
  {
    assert n > 0 ==> (n - 1) % WORD == n - 1;
  }

  function ReservedFor(nblocks: nat): nat {
    2 + (nblocks + BLKBITSIZE - 1) / BLKBITSIZE
  }

  /** The image has room for all of it, and one block to spare. */
  predicate Fits(nblocks: nat, inputs: seq<seq<Byte>>) {
    && |inputs| <= MAX_DIR_ENTS && (forall i :: 0 <= i < |inputs| ==> |inputs[i]| < MAXFILESIZE)
    && ReservedFor(nblocks) + TotalSpace(inputs) + BlocksOf(|inputs| * FILE_RECORD) < nblocks
  }

  /** What each file does to the sum, and what a file that does not fit says of the whole. */
  lemma NextFits(nblocks: nat, inputs: seq<seq<Byte>>, i: nat)
    requires i < |inputs|
    ensures TotalSpace(inputs[..i + 1]) == TotalSpace(inputs[..i]) + Space(|inputs[i]|)
    ensures |inputs[i]| >= MAXFILESIZE || i >= MAX_DIR_ENTS || ReservedFor(nblocks) + TotalSpace(inputs[..i + 1]) >= nblocks ==> !Fits(nblocks, inputs)
  {
    SpaceGrows(inputs, i + 1);
    assert inputs[..i + 1][..i] == inputs[..i];
  }

  lemma NoneFits(nblocks: nat, inputs: seq<seq<Byte>>)
    ensures TotalSpace(inputs[..0]) == 0 && (Fits(nblocks, inputs) ==> ReservedFor(nblocks) < nblocks)
  {
  }

  lemma AllFit(nblocks: nat, inputs: seq<seq<Byte>>)
    requires |inputs| <= MAX_DIR_ENTS && forall i :: 0 <= i < |inputs| ==> |inputs[i]| < MAXFILESIZE
    ensures inputs[..|inputs|] == inputs
    ensures Fits(nblocks, inputs) <==> ReservedFor(nblocks) + TotalSpace(inputs) + BlocksOf(|inputs| * FILE_RECORD) < nblocks
  {
  }

  class Image {
    const nblocks: nat
    var diskpos: nat             // blockof(diskpos)
    var files: Files             // the root directory, then the files in the order given
    var blocks: Blocks
    var free: seq<bool>

    /** The zeroed disk that ftruncate leaves. */
    constructor (nblocks: nat)
      ensures this.nblocks == nblocks && diskpos == 0 && files == [NewFile()] && |free| == nblocks
      ensures blocks == seq(nblocks, _ => ZeroBlock()) && files[0].size == 0 && forall b :: 0 <= b < nblocks ==> !free[b]
    {
      this.nblocks, this.diskpos, this.files := nblocks, 0, [NewFile()];
      this.blocks, this.free := seq(nblocks, _ => ZeroBlock()), seq(nblocks, _ => false);
    }

    /** alloc. The position may not reach the end of the disk, so the last block is never used. */
    method Alloc(bytes: nat) returns (start: Option<nat>)
      modifies `diskpos
      ensures diskpos == old(diskpos) + BlocksOf(bytes)
      ensures start == if diskpos < nblocks then Some(old(diskpos)) else None
    {
      var first := diskpos;
      diskpos := diskpos + BlocksOf(bytes);
      return if diskpos >= nblocks then None else Some(first);
    }

    function Reserved(): nat {
      ReservedFor(nblocks)
    }

    /** Everything up to the position is laid out, the rest of the disk is zero. */
    ghost predicate Valid()
      reads this
    {
      && |blocks| == |free| == nblocks < 0x8000_0000 && 1 <= |files|
      && Packed(files, blocks, Reserved(), diskpos)
      && forall b :: diskpos <= b < nblocks ==> blocks[b] == ZeroBlock()
    }

    /** The rest of opendisk: the boot block, the superblock and the bitmap, all bits set. */
    method OpenDisk() returns (ok: bool)
      requires diskpos == 0 && files == [NewFile()] && blocks == seq(nblocks, _ => ZeroBlock()) && |free| == nblocks < 0x8000_0000
      modifies `diskpos, `free
      ensures ok <==> Reserved() < nblocks
      ensures ok ==> Valid() && diskpos == Reserved() && forall b :: 0 <= b < nblocks ==> free[b]
    {
      var boot := Alloc(BLKSIZE);
      if boot.None? {
        return false;
      }
      var super := Alloc(BLKSIZE);
      if super.None? {
        return false;
      }
      var nbitblocks := (nblocks + BLKBITSIZE - 1) / BLKBITSIZE;
      WholeBlocks(nbitblocks);
      var bitmap := Alloc(nbitblocks * BLKSIZE);
      if bitmap.None? {
        return false;
      }
      free := seq(nblocks, _ => true);
      assert forall s | IsSlot(1, s) :: At(files, blocks, s) == 0;
      return true;
    }

    /** File `f` has no blocks yet; those from `start` to the position are meant for it. For an empty
        directory the position has not moved, although its length is that of one block. */
    ghost predicate Ready(f: nat, start: nat, len: nat)
      reads this
    {
      && |blocks| == |free| == nblocks < 0x8000_0000 && f < |files|
      && Packed(files, blocks, Reserved(), start)
      && (forall s | IsSlot(|files|, s) && s.file == f :: At(files, blocks, s) == 0)
      && BlocksOf(len) <= MAXBLOCKS && start + BlocksOf(len) <= nblocks && diskpos < nblocks
      && (diskpos == start + BlocksOf(len) || (diskpos == start && BlocksOf(len) == 1))
      && forall b :: diskpos <= b < nblocks ==> blocks[b] == ZeroBlock()
    }

    /** The second half of finishfile (fsformat.c:142-147): the indirect block and what goes into it. */
    method FillIndirect(ghost files0: Files, f: nat, start: nat, nblock: nat) returns (ok: bool)
      requires |blocks| == nblocks < 0x8000_0000 && Packed(files0, blocks, Reserved(), start)
      requires Laying(files0, blocks, files, blocks, f, start, NDIRECT, 0) && f < |files|
      requires NDIRECT <= nblock <= MAXBLOCKS && diskpos == start + nblock < nblocks && blocks[diskpos] == ZeroBlock()
      modifies `diskpos, `files, `blocks
      ensures ok <==> old(diskpos) + 1 < nblocks
      ensures diskpos == old(diskpos) + 1 && |files| == old(|files|) && files[f].size == old(files)[f].size && |blocks| == nblocks
      ensures forall b :: 0 <= b < nblocks && b != old(diskpos) ==> blocks[b] == old(blocks)[b]
      ensures ok ==> Laying(files0, old(blocks), files, blocks, f, start, nblock, old(diskpos))
    {
      hide Packed, Disjoint, Laying, Trimmed;
      var ind := Alloc(BLKSIZE);
      if ind.None? {
        return false;
      }
      LayIndirect(files0, blocks, files, blocks, Reserved(), f, start, ind.value);
      files := SetIndirect(files, f, ind.value);
      var i := NDIRECT;
      while i < nblock
        invariant NDIRECT <= i <= nblock && |files| == |files0| && files[f].size == old(files)[f].size
        invariant |blocks| == nblocks && files[f].indirect == ind.value && diskpos == old(diskpos) + 1
        invariant forall b :: 0 <= b < nblocks && b != ind.value ==> blocks[b] == old(blocks)[b]
        invariant Laying(files0, old(blocks), files, blocks, f, start, i, ind.value)
      {
        LayNext(files0, old(blocks), files, blocks, Reserved(), f, start, i, ind.value, diskpos);
        assert PutFiles(files, DataSlot(f, i), start + i) == files;
        blocks := blocks[ind.value := PutWord(blocks[ind.value], i - NDIRECT, start + i)];
        i := i + 1;
      }
      return true;
    }

    /** finishfile; `ok` is false when it panics for want of an indirect block, which it takes for every
        file of NDIRECT blocks or more, one block too early. */
    method FinishFile(f: nat, start: nat, len: nat) returns (ok: bool)
      requires Ready(f, start, len)
      modifies `diskpos, `files, `blocks
      ensures ok <==> BlocksOf(len) < NDIRECT || old(diskpos) + 1 < nblocks
      ensures ok ==> |files| == old(|files|) && |blocks| == nblocks && files[f].size == len
      ensures ok ==> (Valid() <==> old(diskpos) == start + BlocksOf(len))
      ensures ok ==> diskpos == old(diskpos) + if BlocksOf(len) < NDIRECT then 0 else 1
      ensures ok ==> forall b :: 0 <= b < old(diskpos) ==> blocks[b] == old(blocks)[b]
      ensures ok ==> Laying(old(files), old(blocks), files, blocks, f, start, BlocksOf(len), if BlocksOf(len) < NDIRECT then 0 else old(diskpos))
    {
      hide Packed, Disjoint, Laying, Trimmed;
      ghost var files0, blocks0, n := files, blocks, BlocksOf(len);
      PackedFacts(files, blocks, Reserved(), start);
      LayNothing(files, blocks, f, start, len);
      files := SetSize(files, f, len);
      var nblock := (len + BLKSIZE - 1) / BLKSIZE;
      var i := 0;
      while i < nblock && i < NDIRECT
        invariant i <= nblock && i <= NDIRECT && |files| == |files0| && files[f].size == len
        invariant blocks == blocks0 && diskpos == old(diskpos)
        invariant Laying(files0, blocks0, files, blocks, f, start, i, 0)
      {
        LayNext(files0, blocks0, files, blocks, Reserved(), f, start, i, 0, start + n);
        files := SetDirect(files, f, i, start + i);
        i := i + 1;
      }
      if i == NDIRECT {
        ok := FillIndirect(files0, f, start, nblock);
        if !ok {
          return false;
        }
      }
      if diskpos == start && n == 1 {
        NotPacked(files0, blocks0, files, blocks, Reserved(), f, start);
      } else {
        LaidOut(files0, blocks0, files, blocks, Reserved(), f, start, n, if n < NDIRECT then 0 else old(diskpos), diskpos);
      }
      return true;
    }

    /** readn: the bytes of a host file, copied to the blocks from `start` on. */
    method CopyIn(content: seq<Byte>, start: nat)
      requires start + BlocksOf(|content|) <= |blocks|
      modifies `blocks
      ensures |blocks| == old(|blocks|)
      ensures forall b :: 0 <= b < |blocks| && !(start <= b < start + BlocksOf(|content|)) ==> blocks[b] == old(blocks)[b]
      ensures Holds(blocks, start, content, BlocksOf(|content|))
    {
      var k := 0;
      while k < BlocksOf(|content|)
        invariant k <= BlocksOf(|content|) && |blocks| == old(|blocks|)
        invariant forall b :: 0 <= b < |blocks| && !(start <= b < start + k) ==> blocks[b] == old(blocks)[b]
        invariant Holds(blocks, start, content, k)
      {
        PieceFits(content, k);
        ghost var was := blocks[start + k];
        blocks := blocks[start + k := Overwrite(blocks[start + k], 0, Piece(content, k))];
        forall i | 0 <= i < |Piece(content, k)|
          ensures blocks[start + k][i] == Piece(content, k)[i]
        {
          OverwriteAt(was, 0, Piece(content, k), i);
        }
        k := k + 1;
      }
    }

    /** writefile: a new file that reads as `content`. */
    method WriteFile(content: seq<Byte>) returns (ok: bool)
      requires Valid() && Empty(files, blocks, 0)
      modifies `diskpos, `files, `blocks
      ensures ok <==> |content| < MAXFILESIZE && old(|files|) <= MAX_DIR_ENTS &&
                      old(diskpos) + Space(|content|) < nblocks
      ensures ok ==> diskpos == old(diskpos) + Space(|content|)
      ensures ok ==> Valid() && Empty(files, blocks, 0) && |files| == old(|files|) + 1
      ensures ok ==> FileIs(files, blocks, |files| - 1, content)
      ensures ok ==> SameFiles(old(files), old(blocks), files, blocks)
    {
      hide Packed, Disjoint, Laying, Trimmed, Empty, SameFiles, FileIs, Holds;
      if |content| >= MAXFILESIZE {
        return false;
      }
      PackedFacts(files, blocks, Reserved(), diskpos);
      OneMoreFile(files, blocks, Reserved(), diskpos);
      ghost var blocks0 := blocks;
      var f := |files|;
      if f > MAX_DIR_ENTS {
        return false;
      }
      files := files + [NewFile()];
      var start := Alloc(|content|);
      if start.None? {
        return false;
      }
      ghost var files1 := files;
      CopyIn(content, start.value);
      ghost var blocks1 := blocks;
      FewBlocks(|content|);
      BeyondUnseen(files, blocks0, blocks, Reserved(), start.value);
      StillEmpty(old(files), blocks0, files, blocks, Reserved(), start.value, f);
      ok := FinishFile(f, start.value, |content|);
      if ok {
        Finished(old(files), blocks0, files1, blocks1, files, blocks, Reserved(), f, start.value,
          if BlocksOf(|content|) < NDIRECT then 0 else start.value + BlocksOf(|content|), content);
      }
    }

    /** finishdir for the root: room for one record per file, whose bytes are not part of this model.
        Without files no block is allocated, yet the directory gets the size of one block and the number
        of the next free block. */
    method FinishDir() returns (ok: bool)
      requires Valid() && Empty(files, blocks, 0) && 1 <= |files| <= MAX_DIR_ENTS + 1
      modifies `diskpos, `files, `blocks
      ensures ok <==> old(diskpos) + BlocksOf((old(|files|) - 1) * FILE_RECORD) < nblocks
      ensures ok ==> |files| == old(|files|) && |blocks| == nblocks && (Valid() <==> old(|files|) > 1)
      ensures ok ==> diskpos == old(diskpos) + BlocksOf((old(|files|) - 1) * FILE_RECORD)
      ensures ok ==> files[0].size == BLKSIZE * if old(|files|) == 1 then 1 else BlocksOf((old(|files|) - 1) * FILE_RECORD)
      ensures ok ==> SameRegular(old(files), old(blocks), files, blocks)
      ensures ok && old(|files|) == 1 ==> FilesShape(files) && At(files, blocks, Direct(0, 0)) == diskpos
    {
      hide Packed, Disjoint, Laying, Trimmed, Empty, SameRegular;
      PackedFacts(files, blocks, Reserved(), diskpos);
      var size := (|files| - 1) * FILE_RECORD;
      ghost var files0, blocks0 := files, blocks;
      var start := Alloc(size);
      if start.None? {
        return false;
      }
      EmptySlots(files, blocks, 0);
      RoundUps(size);
      WholeBlocks(BlocksOf(size));
      WholeBlocks(1);
      ok := FinishFile(0, start.value, RoundUpSigned(size));
      RegularKept(files0, blocks0, files, blocks, Reserved(), start.value, BlocksOf(RoundUpSigned(size)));
      if size == 0 {
        NotPacked(files0, blocks0, files, blocks, Reserved(), 0, start.value);
      }
    }

    /** finishdisk: the blocks before the position are in use. */
    method FinishDisk()
      requires |free| == nblocks && diskpos <= nblocks && forall b :: 0 <= b < nblocks ==> free[b]
      modifies `free
      ensures |free| == nblocks && forall b :: 0 <= b < nblocks ==> free[b] == (diskpos <= b)
      ensures Valid() ==> Inv(files, blocks, free, Reserved())
    {
      var i := 0;
      while i < diskpos
        invariant i <= diskpos && |free| == nblocks
        invariant forall b :: 0 <= b < nblocks ==> free[b] == (i <= b)
      {
        free := free[i := false];
        i := i + 1;
      }
    }
  }

  /** The server panics on the first access to a block that a file has and the bitmap calls free. */
  lemma FreeRoot(files: Files, blocks: Blocks, free: seq<bool>, reserved: nat, b: nat)
    requires FilesShape(files) && 0 < |files| && At(files, blocks, Direct(0, 0)) == b && reserved <= b < |free| && free[b]
    ensures !Conserved(files, blocks, free, reserved) && !Inv(files, blocks, free, reserved)
  {
    assert IsSlot(|files|, Direct(0, 0));
  }

  /** `fsformat img 1024`, a call that main accepts. */
  lemma EmptyFits(nblocks: nat)
    ensures Fits(nblocks, []) <==> ReservedFor(nblocks) < nblocks
    ensures ReservedFor(1024) == 3
  {
  }

  /** The files but the root are as they were. */
  ghost predicate SameRegular(files0: Files, blocks0: Blocks, files: Files, blocks: Blocks) {
    && FilesShape(files0) && FilesShape(files) && |files0| == |files|
    && (forall g | 0 < g < |files0| :: files[g].size == files0[g].size)
    && forall g, pos | 0 < g < |files0| && 0 <= pos :: View(files, blocks, g, pos) == View(files0, blocks0, g, pos)
  }

  lemma EmptySlots(files: Files, blocks: Blocks, f: nat)
    requires Empty(files, blocks, f)
    ensures forall s | IsSlot(|files|, s) && s.file == f :: At(files, blocks, s) == 0
  {
  }

  lemma RegularKept(files0: Files, blocks0: Blocks, files: Files, blocks: Blocks, reserved: nat, start: nat, n: nat)
    requires Packed(files0, blocks0, reserved, start) && Laying(files0, blocks0, files, blocks, 0, start, n, 0)
    requires forall b | 0 <= b < start :: blocks[b] == blocks0[b]
    ensures SameRegular(files0, blocks0, files, blocks)
  {
    forall g, pos | 0 < g < |files0| && 0 <= pos
      ensures View(files, blocks, g, pos) == View(files0, blocks0, g, pos)
    {
      OthersRead(files0, blocks0, files, blocks, 0, start, n, 0, g, pos);
    }
  }

  lemma FileStays(files0: Files, blocks0: Blocks, files: Files, blocks: Blocks, f: nat, content: seq<Byte>)
    requires FileIs(files0, blocks0, f, content)
    requires SameFiles(files0, blocks0, files, blocks) || (0 < f && SameRegular(files0, blocks0, files, blocks))
    ensures FileIs(files, blocks, f, content)
  {
  }

  /** fsformat: the image has the files that were given, and every byte of them is there to be read. It
      satisfies the invariant of the server exactly if there are files: otherwise the first block after
      the bitmap belongs to the root directory and is free. */
  method Format(nblocks: nat, inputs: seq<seq<Byte>>) returns (ok: bool, files: Files, blocks: Blocks, free: seq<bool>, reserved: nat)
    requires nblocks < 0x8000_0000
    ensures ok <==> Fits(nblocks, inputs)
    ensures ok ==> reserved == ReservedFor(nblocks) < nblocks && |blocks| == |free| == nblocks && |files| == |inputs| + 1
    ensures ok ==> (Inv(files, blocks, free, reserved) <==> |inputs| > 0)
    ensures ok && inputs == [] ==> FilesShape(files) && At(files, blocks, Direct(0, 0)) == reserved && free[reserved]
    ensures ok ==> forall i :: 0 <= i < |inputs| ==> FileIs(files, blocks, i + 1, inputs[i])
  {
    hide FileIs, SameFiles, SameRegular, Inv, Empty, Packed, Fits, Space, TotalSpace;
    var image := new Image(nblocks);
    files, blocks, free, reserved := image.files, image.blocks, image.free, image.Reserved();
    NoneFits(nblocks, inputs);
    ok := image.OpenDisk();
    if !ok {
      return;
    }
    NoFiles(image.blocks);
    var i := 0;
    while i < |inputs|
      invariant i <= |inputs| && image.Valid() && |image.files| == i + 1 <= MAX_DIR_ENTS + 1 && Empty(image.files, image.blocks, 0)
      invariant fresh(image) && forall b :: 0 <= b < nblocks ==> image.free[b]
      invariant forall k :: 0 <= k < i ==> FileIs(image.files, image.blocks, k + 1, inputs[k])
      invariant forall k :: 0 <= k < i ==> |inputs[k]| < MAXFILESIZE
      invariant image.diskpos == ReservedFor(nblocks) + TotalSpace(inputs[..i])
    {
      NextFits(nblocks, inputs, i);
      ghost var files0, blocks0 := image.files, image.blocks;
      ok := image.WriteFile(inputs[i]);
      if !ok {
        return;
      }
      forall k | 0 <= k < i
        ensures FileIs(image.files, image.blocks, k + 1, inputs[k])
      {
        FileStays(files0, blocks0, image.files, image.blocks, k + 1, inputs[k]);
      }
      i := i + 1;
    }
    AllFit(nblocks, inputs);
    ghost var files0, blocks0 := image.files, image.blocks;
    ok := image.FinishDir();
    if !ok {
      return;
    }
    forall k | 0 <= k < i
      ensures FileIs(image.files, image.blocks, k + 1, inputs[k])
    {
      FileStays(files0, blocks0, image.files, image.blocks, k + 1, inputs[k]);
    }
    image.FinishDisk();
    if inputs == [] {
      FreeRoot(image.files, image.blocks, image.free, reserved, image.diskpos);
    }
    files, blocks, free := image.files, image.blocks, image.free;
  }

  lemma NoFiles(blocks: Blocks)
    ensures Empty([NewFile()], blocks, 0)
  {
  }

  /** Blocks start .. start + n - 1 hold the contents. */
  ghost predicate Holds(blocks: Blocks, start: nat, content: seq<Byte>, n: nat) {
    && start + n <= |blocks|
    && forall k, i | 0 <= k < n && 0 <= i < |Piece(content, k)| && i < BLKSIZE :: blocks[start + k][i] == Piece(content, k)[i]
  }

  ghost predicate Empty(files: Files, blocks: Blocks, f: nat) {
    FilesShape(files) && f < |files| && forall s | IsSlot(|files|, s) && s.file == f :: At(files, blocks, s) == 0
  }

  ghost predicate FileIs(files: Files, blocks: Blocks, f: nat, content: seq<Byte>) {
    FilesShape(files) && f < |files| && files[f].size == |content| && Reads(files, blocks, f, 0, content)
  }

  /** The files of the first layout are in the second as they were. */
  ghost predicate SameFiles(files0: Files, blocks0: Blocks, files: Files, blocks: Blocks) {
    && FilesShape(files0) && FilesShape(files) && |files0| <= |files|
    && (forall g | 0 <= g < |files0| :: files[g].size == files0[g].size)
    && forall g, pos | 0 <= g < |files0| && 0 <= pos :: View(files, blocks, g, pos) == View(files0, blocks0, g, pos)
  }

  lemma PieceFits(content: seq<Byte>, k: nat)
    ensures |Piece(content, k)| <= BLKSIZE
  {
  }

  lemma FewBlocks(len: nat)
    requires len < MAXFILESIZE
    ensures BlocksOf(len) <= MAXBLOCKS
  {
  }

  /** What is written beyond the position is not seen by any file. */
  lemma BeyondUnseen(files: Files, blocks: Blocks, blocks': Blocks, reserved: nat, pos: nat)
    requires Packed(files, blocks, reserved, pos) && |blocks'| == |blocks|
    requires forall b | 0 <= b < pos :: blocks'[b] == blocks[b]
    ensures Packed(files, blocks', reserved, pos)
    ensures forall s | IsSlot(|files|, s) :: At(files, blocks', s) == At(files, blocks, s)
    ensures SameFiles(files, blocks, files, blocks')
  {
    forall s | IsSlot(|files|, s)
      ensures At(files, blocks', s) == At(files, blocks, s) < pos
    {
      if s.Ind? {
        assert At(files, blocks, Indirect(s.file)) == files[s.file].indirect;
      }
    }
    forall b | reserved <= b < pos
      ensures Owned(files, blocks', b)
    {
      assert Owned(files, blocks, b);
      var s :| IsSlot(|files|, s) && At(files, blocks, s) == b;
      assert At(files, blocks', s) == b;
    }
    forall g, p | 0 <= g < |files| && 0 <= p
      ensures View(files, blocks', g, p) == View(files, blocks, g, p)
    {
      if p / BLKSIZE < MAXBLOCKS {
        assert IsSlot(|files|, DataSlot(g, p / BLKSIZE));
      }
    }
  }

  lemma StillEmpty(files0: Files, blocks0: Blocks, files: Files, blocks: Blocks, reserved: nat, pos: nat, f: nat)
    requires Packed(files0, blocks0, reserved, pos) && Empty(files0, blocks0, 0) && files == files0 + [NewFile()] && f == |files0|
    requires |blocks| == |blocks0| && forall b | 0 <= b < pos :: blocks[b] == blocks0[b]
    ensures Empty(files, blocks, 0) && Empty(files, blocks, f) && SameFiles(files0, blocks0, files, blocks)
    ensures forall s | IsSlot(|files|, s) && s.file == f :: At(files, blocks, s) == 0
  {
    hide Packed;
    OneMoreFile(files0, blocks0, reserved, pos);
    BeyondUnseen(files0, blocks0, blocks, reserved, pos);
    BeyondUnseen(files, blocks0, blocks, reserved, pos);
    assert FilesShape(files) by { PackedFacts(files, blocks0, reserved, pos); }
    forall s | IsSlot(|files|, s) && s.file == 0
      ensures At(files, blocks, s) == 0
    {
      assert At(files0, blocks0, s) == 0;
    }
  }

  /** What finishfile leaves: the new file holds its contents, the earlier ones are as they were. */
  lemma Finished(files0: Files, blocks0: Blocks, files1: Files, blocks1: Blocks, files: Files, blocks: Blocks, reserved: nat,
                 f: nat, start: nat, ind: nat, content: seq<Byte>)
    requires SameFiles(files0, blocks0, files1, blocks1) && Empty(files1, blocks1, 0) && 0 < f == |files0| < |files1|
    requires Packed(files1, blocks1, reserved, start)
    requires Laying(files1, blocks1, files, blocks, f, start, BlocksOf(|content|), ind) && files[f].size == |content|
    requires BlocksOf(|content|) <= MAXBLOCKS && (ind == 0 || ind == start + BlocksOf(|content|))
    requires Holds(blocks1, start, content, BlocksOf(|content|))
    requires forall b | 0 <= b < start + BlocksOf(|content|) :: blocks[b] == blocks1[b]
    ensures FileIs(files, blocks, f, content) && Empty(files, blocks, 0) && SameFiles(files0, blocks0, files, blocks)
  {
    PackedFacts(files1, blocks1, reserved, start);
    forall i | 0 <= i < |content|
      ensures View(files, blocks, f, i) == Some(content[i])
    {
      PieceAt(content, i);
      assert At(files, blocks, DataSlot(f, i / BLKSIZE)) == start + i / BLKSIZE;
    }
    forall i | 0 <= i < |content|
      ensures View(files, blocks, f, 0 + i) == Some(content[i])
    {
    }
    forall g, pos | 0 <= g < |files0| && 0 <= pos
      ensures View(files, blocks, g, pos) == View(files0, blocks0, g, pos)
    {
      OthersRead(files1, blocks1, files, blocks, f, start, BlocksOf(|content|), ind, g, pos);
      assert View(files1, blocks1, g, pos) == View(files0, blocks0, g, pos);
    }
    forall s | IsSlot(|files|, s) && s.file == 0
      ensures At(files, blocks, s) == 0
    {
      assert At(files1, blocks1, s) == 0;
    }
  }

  lemma PackedFacts(files: Files, blocks: Blocks, reserved: nat, pos: nat)
    requires Packed(files, blocks, reserved, pos)
    ensures FilesShape(files) && Disjoint(files, blocks, reserved) && 1 <= reserved <= pos < |blocks|
    ensures forall s | IsSlot(|files|, s) :: At(files, blocks, s) < pos
  {
  }

  lemma NobodyHas(files: Files, blocks: Blocks, b: nat)
    requires FilesShape(files) && forall s | IsSlot(|files|, s) :: At(files, blocks, s) < b
    ensures !Owned(files, blocks, b)
  {
  }

  lemma WholeBlocks(n: nat)
    ensures BlocksOf(n * BLKSIZE) == n
  {
  }
}
