/**
 The on-disk layout of the file system of TPJOS/inc/fs.h as TPJOS/fs/fs.c uses it: files
 with direct block numbers and an indirect block, the free-block bitmap, and the bytes of
 every block. Block contents are those of the logical disk, cached or not.

 A File record is kept apart from the bytes of the directory block that it lives in.
 */
module FileLayout {
  import opened Options

  const BLKSIZE: nat := 4096
  const BLKBITSIZE: nat := 32768
  const NDIRECT: nat := 10
  const NINDIRECT: nat := 1024
  const MAXBLOCKS: nat := 1034     // NDIRECT + NINDIRECT
  const WORD: nat := 0x1_0000_0000

  type Byte = b: nat | b < 256
  type Block = b: seq<Byte> | |b| == BLKSIZE witness seq(BLKSIZE, _ => 0)

  datatype File = File(size: nat, direct: seq<nat>, indirect: nat)

  /** A place that may hold the number of a block. */
  datatype Slot = Direct(file: nat, k: nat) | Indirect(file: nat) | Ind(file: nat, k: nat)

  predicate IsSlot(nfiles: nat, s: Slot) {
    s.file < nfiles && (s.Direct? ==> s.k < NDIRECT) && (s.Ind? ==> s.k < NINDIRECT)
  }

  /** The place for block `bno` of a file. */
  function DataSlot(file: nat, bno: nat): Slot {
    if bno < NDIRECT then Direct(file, bno) else Ind(file, bno - NDIRECT)
  }

  // ------------------------------------------------------------------
  // Words in a block, least significant byte first
  // ------------------------------------------------------------------

  function WordAt(b: Block, k: nat): (v: nat)
    requires k < NINDIRECT
    ensures v < WORD
  {
    (b[4 * k] as int) + 0x100 * (b[4 * k + 1] as int) + 0x1_0000 * (b[4 * k + 2] as int) + 0x100_0000 * (b[4 * k + 3] as int)
  }

  function PutWord(b: Block, k: nat, v: nat): Block
    requires k < NINDIRECT && v < WORD
  {
    b[4 * k := v % 0x100][4 * k + 1 := v / 0x100 % 0x100][4 * k + 2 := v / 0x1_0000 % 0x100][4 * k + 3 := v / 0x100_0000]
  }

  lemma WordPut(b: Block, k: nat, v: nat, l: nat)
    requires k < NINDIRECT && l < NINDIRECT && v < WORD
    ensures WordAt(PutWord(b, k, v), l) == if l == k then v else WordAt(b, l)
  {
    if l == k {
      var q, r := v / 0x100, v % 0x100;
      assert v / 0x1_0000 == q / 0x100 && v / 0x100_0000 == q / 0x100 / 0x100;
    }
  }

  function ZeroBlock(): Block {
    seq(BLKSIZE, _ => 0)
  }

  lemma ZeroWords(k: nat)
    requires k < NINDIRECT
    ensures WordAt(ZeroBlock(), k) == 0
  {
  }

  // ------------------------------------------------------------------
  // Block maps
  // ------------------------------------------------------------------

  type Files = seq<File>
  type Blocks = seq<Block>

  predicate FilesShape(files: Files) {
    forall f :: 0 <= f < |files| ==> |files[f].direct| == NDIRECT
  }

  function At(files: Files, blocks: Blocks, s: Slot): nat
    requires FilesShape(files) && IsSlot(|files|, s)
  {
    match s
    case Direct(f, k) => files[f].direct[k]
    case Indirect(f) => files[f].indirect
    case Ind(f, k) => if 0 < files[f].indirect < |blocks| then WordAt(blocks[files[f].indirect], k) else 0
  }

  function SetDirect(files: Files, f: nat, k: nat, v: nat): Files
    requires FilesShape(files) && f < |files| && k < NDIRECT
  {
    files[f := files[f].(direct := files[f].direct[k := v])]
  }

  function SetIndirect(files: Files, f: nat, v: nat): Files
    requires f < |files|
  {
    files[f := files[f].(indirect := v)]
  }

  function SetSize(files: Files, f: nat, size: nat): Files
    requires f < |files|
  {
    files[f := files[f].(size := size)]
  }

  /** Storing `v` in a data slot: in the File record, or in the indirect block. */
  function PutFiles(files: Files, s: Slot, v: nat): Files
    requires FilesShape(files) && IsSlot(|files|, s)
  {
    if s.Direct? then SetDirect(files, s.file, s.k, v) else files
  }

  function PutBlocks(files: Files, blocks: Blocks, s: Slot, v: nat): Blocks
    requires FilesShape(files) && IsSlot(|files|, s) && v < WORD
  {
    if s.Ind? && files[s.file].indirect < |blocks|
    then blocks[files[s.file].indirect := PutWord(blocks[files[s.file].indirect], s.k, v)]
    else blocks
  }

  /** Two layouts agree on every slot except that `x` now holds `v`. */
  ghost predicate OneChange(files: Files, blocks: Blocks, files': Files, blocks': Blocks, x: Slot, v: nat) {
    && FilesShape(files) && FilesShape(files') && |files'| == |files| && |blocks'| == |blocks| && IsSlot(|files|, x)
    && (forall f :: 0 <= f < |files| ==> files'[f].size == files[f].size)
    && forall s :: IsSlot(|files|, s) ==> At(files', blocks', s) == if s == x then v else At(files, blocks, s)
  }

  /** The data of every file block is where it was, with the same bytes. */
  ghost predicate SameData(files: Files, blocks: Blocks, blocks': Blocks)
    requires FilesShape(files)
  {
    && |blocks'| == |blocks|
    && forall s | IsSlot(|files|, s) && !s.Indirect? && 0 < At(files, blocks, s) < |blocks| ::
         blocks'[At(files, blocks, s)] == blocks[At(files, blocks, s)]
  }

  // ------------------------------------------------------------------
  // The invariant
  // ------------------------------------------------------------------

  /** Every block number in use is that of a block after the reserved ones, and in use once only. */
  ghost predicate Disjoint(files: Files, blocks: Blocks, reserved: nat) {
    && FilesShape(files)
    && (forall s | IsSlot(|files|, s) :: At(files, blocks, s) != 0 ==> reserved <= At(files, blocks, s) < |blocks|)
    && (forall s, s' | IsSlot(|files|, s) && IsSlot(|files|, s') && At(files, blocks, s) != 0 &&
                       At(files, blocks, s) == At(files, blocks, s') :: s == s')
  }

  ghost predicate Owned(files: Files, blocks: Blocks, b: nat)
    requires FilesShape(files)
  {
    exists s :: IsSlot(|files|, s) && At(files, blocks, s) == b
  }

  /** A block is free exactly when it is neither reserved nor owned: none is lost, none is shared. */
  ghost predicate Conserved(files: Files, blocks: Blocks, free: seq<bool>, reserved: nat)
    requires FilesShape(files)
  {
    && |free| == |blocks| && 1 <= reserved <= |blocks|
    && (forall b :: 0 <= b < reserved ==> !free[b])
    && (forall b :: reserved <= b < |blocks| ==> (free[b] <==> !Owned(files, blocks, b)))
  }

  function BlocksOf(size: nat): nat {
    (size + BLKSIZE - 1) / BLKSIZE
  }

  /** No file has blocks beyond its size. */
  ghost predicate Trimmed(files: Files, blocks: Blocks)
    requires FilesShape(files)
  {
    forall f, bno | 0 <= f < |files| && BlocksOf(files[f].size) <= bno < MAXBLOCKS :: At(files, blocks, DataSlot(f, bno)) == 0
  }

  ghost predicate Inv(files: Files, blocks: Blocks, free: seq<bool>, reserved: nat) {
    && Disjoint(files, blocks, reserved) && Conserved(files, blocks, free, reserved) && Trimmed(files, blocks)
    && |blocks| < 0x8000_0000
  }

  // ------------------------------------------------------------------
  // One slot at a time
  // ------------------------------------------------------------------

  /** Storing a block number in a data slot touches no other slot and no data. */
  lemma PutChanges(files: Files, blocks: Blocks, reserved: nat, x: Slot, v: nat)
    requires Disjoint(files, blocks, reserved) && 1 <= reserved && IsSlot(|files|, x) && !x.Indirect? && v < WORD
    requires x.Ind? ==> files[x.file].indirect != 0
    ensures OneChange(files, blocks, PutFiles(files, x, v), PutBlocks(files, blocks, x, v), x, v)
    ensures SameData(files, blocks, PutBlocks(files, blocks, x, v))
  {
    var files', blocks' := PutFiles(files, x, v), PutBlocks(files, blocks, x, v);
    var own := Indirect(x.file);
    assert At(files, blocks, own) == files[x.file].indirect;
    forall s | IsSlot(|files|, s)
      ensures At(files', blocks', s) == if s == x then v else At(files, blocks, s)
      ensures x.Ind? && s != own && At(files, blocks, s) != 0 ==> At(files, blocks, s) != files[x.file].indirect
    {
      if x.Ind? && s.Ind? {
        WordPut(blocks[files[x.file].indirect], x.k, v, s.k);
        var other := Indirect(s.file);
        assert At(files, blocks, other) == files[s.file].indirect;
        assert s.file != x.file && files[s.file].indirect != 0 ==> files[s.file].indirect != files[x.file].indirect;
      }
    }
  }

  /** A zeroed block that nobody owns becomes the indirect block of `f`. */
  lemma EnterIndirect(files: Files, blocks: Blocks, reserved: nat, f: nat, b: nat)
    requires Disjoint(files, blocks, reserved) && f < |files| && files[f].indirect == 0 && 0 < b < |blocks|
    requires !Owned(files, blocks, b)
    ensures OneChange(files, blocks, SetIndirect(files, f, b), blocks[b := ZeroBlock()], Indirect(f), b)
    ensures SameData(files, blocks, blocks[b := ZeroBlock()])
  {
    var files', blocks' := SetIndirect(files, f, b), blocks[b := ZeroBlock()];
    forall s | IsSlot(|files|, s)
      ensures At(files', blocks', s) == if s == Indirect(f) then b else At(files, blocks, s)
      ensures At(files, blocks, s) != b
    {
      if s.Ind? {
        ZeroWords(s.k);
        assert At(files, blocks, Indirect(s.file)) == files[s.file].indirect;
      }
    }
  }

  /** An indirect block in which nothing is left is given up. */
  lemma LeaveIndirect(files: Files, blocks: Blocks, f: nat)
    requires FilesShape(files) && f < |files|
    requires forall k: nat | k < NINDIRECT :: At(files, blocks, Ind(f, k)) == 0
    ensures OneChange(files, blocks, SetIndirect(files, f, 0), blocks, Indirect(f), 0)
    ensures SameData(files, blocks, blocks)
  {
  }

  /** Writing data moves no block. */
  lemma WriteData(files: Files, blocks: Blocks, reserved: nat, x: Slot, content: Block)
    requires Disjoint(files, blocks, reserved) && IsSlot(|files|, x) && !x.Indirect? && 0 < At(files, blocks, x) < |blocks|
    ensures var blocks' := blocks[At(files, blocks, x) := content];
      && (forall s | IsSlot(|files|, s) :: At(files, blocks', s) == At(files, blocks, s))
      && (forall s | IsSlot(|files|, s) && s != x && 0 < At(files, blocks, s) < |blocks| ::
            blocks'[At(files, blocks, s)] == blocks[At(files, blocks, s)])
  {
    var blocks' := blocks[At(files, blocks, x) := content];
    forall s | IsSlot(|files|, s)
      ensures At(files, blocks', s) == At(files, blocks, s)
      ensures s != x && At(files, blocks, s) != 0 ==> At(files, blocks, s) != At(files, blocks, x)
    {
      if s.Ind? {
        assert At(files, blocks, Indirect(s.file)) == files[s.file].indirect;
      }
    }
  }

  lemma DisjointChange(files: Files, blocks: Blocks, files': Files, blocks': Blocks, reserved: nat, x: Slot, v: nat)
    requires Disjoint(files, blocks, reserved) && OneChange(files, blocks, files', blocks', x, v)
    requires v != 0 ==> reserved <= v < |blocks| && !Owned(files, blocks, v)
    ensures Disjoint(files', blocks', reserved)
  {
    forall s, s' | IsSlot(|files'|, s) && IsSlot(|files'|, s') && At(files', blocks', s) != 0 &&
                   At(files', blocks', s) == At(files', blocks', s')
      ensures s == s'
    {
      assert At(files', blocks', s) == if s == x then v else At(files, blocks, s);
      assert At(files', blocks', s') == if s' == x then v else At(files, blocks, s');
    }
  }

  /** A free block is put in an empty slot ... */
  lemma ConservedEnter(files: Files, blocks: Blocks, free: seq<bool>, files': Files, blocks': Blocks, reserved: nat, x: Slot, v: nat)
    requires Disjoint(files, blocks, reserved) && Conserved(files, blocks, free, reserved)
    requires OneChange(files, blocks, files', blocks', x, v) && At(files, blocks, x) == 0 && v < |blocks| && free[v]
    ensures reserved <= v && !Owned(files, blocks, v) && Disjoint(files', blocks', reserved)
    ensures Conserved(files', blocks', free[v := false], reserved)
  {
    assert reserved <= v;
    DisjointChange(files, blocks, files', blocks', reserved, x, v);
    forall b | reserved <= b < |blocks|
      ensures free[v := false][b] <==> !Owned(files', blocks', b)
    {
      if b == v {
        assert At(files', blocks', x) == b;
      } else if s :| IsSlot(|files|, s) && At(files, blocks, s) == b {
        assert At(files', blocks', s) == b;
      }
    }
  }

  /** ... and one that is taken out of its slot is free again. */
  lemma ConservedLeave(files: Files, blocks: Blocks, free: seq<bool>, files': Files, blocks': Blocks, reserved: nat, x: Slot)
    requires Disjoint(files, blocks, reserved) && Conserved(files, blocks, free, reserved)
    requires OneChange(files, blocks, files', blocks', x, 0) && At(files, blocks, x) != 0
    ensures At(files, blocks, x) < |free| && Disjoint(files', blocks', reserved)
    ensures Conserved(files', blocks', free[At(files, blocks, x) := true], reserved)
  {
    var v := At(files, blocks, x);
    DisjointChange(files, blocks, files', blocks', reserved, x, 0);
    forall b | reserved <= b < |blocks|
      ensures free[v := true][b] <==> !Owned(files', blocks', b)
    {
      assert At(files', blocks', x) == 0;
      if b != v {
        if s :| IsSlot(|files|, s) && At(files, blocks, s) == b {
          assert At(files', blocks', s) == b;
        }
      }
    }
  }

  lemma TrimmedChange(files: Files, blocks: Blocks, files': Files, blocks': Blocks, x: Slot, v: nat)
    requires OneChange(files, blocks, files', blocks', x, v) && Trimmed(files, blocks)
    requires v == 0 || x.Indirect? || exists bno: nat :: x == DataSlot(x.file, bno) && bno < BlocksOf(files[x.file].size)
    ensures Trimmed(files', blocks')
  {
    forall f, bno | 0 <= f < |files'| && BlocksOf(files'[f].size) <= bno < MAXBLOCKS
      ensures At(files', blocks', DataSlot(f, bno)) == 0
    {
      assert At(files, blocks, DataSlot(f, bno)) == 0;
    }
  }

  // ------------------------------------------------------------------
  // What a file reads as
  // ------------------------------------------------------------------

  /** The byte of file `f` at `pos`, where it has a block; a position without one has no value yet. */
  function View(files: Files, blocks: Blocks, f: nat, pos: nat): Option<Byte>
    requires FilesShape(files) && f < |files|
  {
    if pos / BLKSIZE >= MAXBLOCKS then None
    else
      var b := At(files, blocks, DataSlot(f, pos / BLKSIZE));
      if 0 < b < |blocks| then Some(blocks[b][pos % BLKSIZE]) else None
  }

  /** Every byte that has a value keeps it, and no other file than `f` is touched. */
  ghost predicate Kept(files: Files, blocks: Blocks, files': Files, blocks': Blocks, f: nat) {
    && FilesShape(files) && FilesShape(files') && |files'| == |files|
    && forall g, pos | 0 <= g < |files| && 0 <= pos && (g != f || View(files, blocks, g, pos).Some?) ::
         View(files', blocks', g, pos) == View(files, blocks, g, pos)
  }

  /** File `f` reads as `data` from `offset` on; every other byte that had a value keeps it. */
  ghost predicate Written(files: Files, blocks: Blocks, files': Files, blocks': Blocks, f: nat, offset: nat, data: seq<Byte>) {
    && FilesShape(files) && FilesShape(files') && |files'| == |files| && f < |files|
    && (forall i :: 0 <= i < |data| ==> View(files', blocks', f, offset + i) == Some(data[i]))
    && forall g, pos | 0 <= g < |files| && 0 <= pos && (g != f || (View(files, blocks, g, pos).Some? && !(offset <= pos < offset + |data|))) ::
         View(files', blocks', g, pos) == View(files, blocks, g, pos)
  }

  /** File `f` is cut back to `nblocks` blocks. */
  ghost predicate Cut(files: Files, blocks: Blocks, files': Files, blocks': Blocks, f: nat, nblocks: nat) {
    && FilesShape(files) && FilesShape(files') && |files'| == |files|
    && forall g, pos | 0 <= g < |files| && 0 <= pos ::
         View(files', blocks', g, pos) == if g == f && nblocks <= pos / BLKSIZE then None else View(files, blocks, g, pos)
  }

  lemma FillKeeps(files: Files, blocks: Blocks, files': Files, blocks': Blocks, x: Slot, v: nat)
    requires OneChange(files, blocks, files', blocks', x, v) && At(files, blocks, x) == 0 && SameData(files, blocks, blocks')
    ensures Kept(files, blocks, files', blocks', x.file)
  {
    forall g, pos | 0 <= g < |files| && 0 <= pos && (g != x.file || View(files, blocks, g, pos).Some?)
      ensures View(files', blocks', g, pos) == View(files, blocks, g, pos)
    {
      if pos / BLKSIZE < MAXBLOCKS {
        var s := DataSlot(g, pos / BLKSIZE);
        assert IsSlot(|files|, s) && s != x;
      }
    }
  }

  /** Emptying a data slot takes away the bytes of that block. */
  lemma EmptyCuts(files: Files, blocks: Blocks, files': Files, blocks': Blocks, f: nat, bno: nat, pos: nat, g: nat)
    requires FilesShape(files) && f < |files| && bno < MAXBLOCKS && g < |files|
    requires OneChange(files, blocks, files', blocks', DataSlot(f, bno), 0) && SameData(files, blocks, blocks')
    ensures View(files', blocks', g, pos) == if g == f && bno == pos / BLKSIZE then None else View(files, blocks, g, pos)
  {
    if pos / BLKSIZE < MAXBLOCKS {
      var s := DataSlot(g, pos / BLKSIZE);
      assert IsSlot(|files|, s);
    }
  }

  /** Dropping an empty indirect block changes no byte. */
  lemma IndirectUnseen(files: Files, blocks: Blocks, files': Files, blocks': Blocks, f: nat, v: nat, g: nat, pos: nat)
    requires OneChange(files, blocks, files', blocks', Indirect(f), v) && SameData(files, blocks, blocks') && g < |files|
    ensures View(files', blocks', g, pos) == View(files, blocks, g, pos)
  {
    if pos / BLKSIZE < MAXBLOCKS {
      var s := DataSlot(g, pos / BLKSIZE);
      assert IsSlot(|files|, s);
    }
  }

  lemma KeptTwice(files: Files, blocks: Blocks, files1: Files, blocks1: Blocks, files2: Files, blocks2: Blocks, f: nat)
    requires Kept(files, blocks, files1, blocks1, f) && Kept(files1, blocks1, files2, blocks2, f)
    ensures Kept(files, blocks, files2, blocks2, f)
  {
  }

  lemma WrittenThenKept(files: Files, blocks: Blocks, files1: Files, blocks1: Blocks, files2: Files, blocks2: Blocks,
                        f: nat, offset: nat, data: seq<Byte>)
    requires Written(files, blocks, files1, blocks1, f, offset, data) && Kept(files1, blocks1, files2, blocks2, f)
    ensures Written(files, blocks, files2, blocks2, f, offset, data)
  {
  }

  lemma WriteNothing(files: Files, blocks: Blocks, f: nat, offset: nat)
    requires FilesShape(files) && f < |files|
    ensures Written(files, blocks, files, blocks, f, offset, []) && Kept(files, blocks, files, blocks, f)
  {
  }

  function Overwrite(b: Block, at: nat, data: seq<Byte>): Block
    requires at + |data| <= BLKSIZE
  {
    b[..at] + data + b[at + |data|..]
  }

  /** One memmove into a block. */
  lemma ChunkWritten(files: Files, blocks: Blocks, reserved: nat, f: nat, pos: nat, chunk: seq<Byte>)
    requires Disjoint(files, blocks, reserved) && f < |files| && pos / BLKSIZE < MAXBLOCKS
    requires pos % BLKSIZE + |chunk| <= BLKSIZE
    requires 0 < At(files, blocks, DataSlot(f, pos / BLKSIZE)) < |blocks|
    ensures var b := At(files, blocks, DataSlot(f, pos / BLKSIZE));
      Written(files, blocks, files, blocks[b := Overwrite(blocks[b], pos % BLKSIZE, chunk)], f, pos, chunk)
  {
    var x := DataSlot(f, pos / BLKSIZE);
    var b := At(files, blocks, x);
    var content := Overwrite(blocks[b], pos % BLKSIZE, chunk);
    var blocks' := blocks[b := content];
    WriteData(files, blocks, reserved, x, content);
    forall i | 0 <= i < |chunk|
      ensures View(files, blocks', f, pos + i) == Some(chunk[i])
    {
      SameBlock(pos, i);
      OverwriteAt(blocks[b], pos % BLKSIZE, chunk, pos % BLKSIZE + i);
    }
    forall g, p | 0 <= g < |files| && 0 <= p && (g != f || !(pos <= p < pos + |chunk|))
      ensures View(files, blocks', g, p) == View(files, blocks, g, p)
    {
      if p / BLKSIZE < MAXBLOCKS {
        var s := DataSlot(g, p / BLKSIZE);
        assert IsSlot(|files|, s);
        if s == x {
          Apart(pos, p, |chunk|);
          OverwriteAt(blocks[b], pos % BLKSIZE, chunk, p % BLKSIZE);
        }
      }
    }
  }

  lemma OverwriteAt(b: Block, at: nat, data: seq<Byte>, i: nat)
    requires at + |data| <= BLKSIZE && i < BLKSIZE
    ensures Overwrite(b, at, data)[i] == if at <= i < at + |data| then data[i - at] else b[i]
  {
  }

  lemma Apart(pos: nat, p: nat, n: nat)
    requires pos / BLKSIZE == p / BLKSIZE && !(pos <= p < pos + n)
    ensures !(pos % BLKSIZE <= p % BLKSIZE < pos % BLKSIZE + n)
  {
  }

  lemma SameBlock(pos: nat, i: nat)
    requires pos % BLKSIZE + i < BLKSIZE
    ensures (pos + i) / BLKSIZE == pos / BLKSIZE && (pos + i) % BLKSIZE == pos % BLKSIZE + i
  {
  }

  lemma WrittenTwice(files: Files, blocks: Blocks, files1: Files, blocks1: Blocks, files2: Files, blocks2: Blocks,
                     f: nat, offset: nat, data: seq<Byte>, chunk: seq<Byte>)
    requires Written(files, blocks, files1, blocks1, f, offset, data)
    requires Written(files1, blocks1, files2, blocks2, f, offset + |data|, chunk)
    ensures Written(files, blocks, files2, blocks2, f, offset, data + chunk)
  {
    forall i | 0 <= i < |data + chunk|
      ensures View(files2, blocks2, f, offset + i) == Some((data + chunk)[i])
    {
      if i >= |data| {
        assert offset + i == offset + |data| + (i - |data|);
      } else {
        assert View(files1, blocks1, f, offset + i) == Some(data[i]);
      }
    }
  }

  ghost function FreeBlocks(free: seq<bool>): set<nat> {
    set b | 0 <= b < |free| && free[b]
  }

  lemma TakeFree(free: seq<bool>, b: nat)
    requires b < |free| && free[b]
    ensures FreeBlocks(free[b := false]) == FreeBlocks(free) - {b} && b in FreeBlocks(free)
    ensures |FreeBlocks(free[b := false])| == |FreeBlocks(free)| - 1
  {
    assert FreeBlocks(free[b := false]) == FreeBlocks(free) - {b};
  }

  /** `lo <= block < hi` of file `f` are gone and nothing else is changed. */
  ghost predicate Erased(files: Files, blocks: Blocks, files': Files, blocks': Blocks, f: nat, lo: nat, hi: nat) {
    && FilesShape(files) && FilesShape(files') && |files'| == |files|
    && forall g, pos | 0 <= g < |files| && 0 <= pos ::
         View(files', blocks', g, pos) == if g == f && lo <= pos / BLKSIZE < hi then None else View(files, blocks, g, pos)
  }

  lemma EraseNext(files: Files, blocks: Blocks, files1: Files, blocks1: Blocks, files2: Files, blocks2: Blocks, f: nat, lo: nat, hi: nat)
    requires Erased(files, blocks, files1, blocks1, f, lo, hi) && Erased(files1, blocks1, files2, blocks2, f, hi, hi + 1) && lo <= hi
    ensures Erased(files, blocks, files2, blocks2, f, lo, hi + 1)
  {
  }

  lemma SlotErases(files: Files, blocks: Blocks, files': Files, blocks': Blocks, f: nat, bno: nat)
    requires FilesShape(files) && f < |files| && bno < MAXBLOCKS
    requires OneChange(files, blocks, files', blocks', DataSlot(f, bno), 0) && SameData(files, blocks, blocks')
    ensures Erased(files, blocks, files', blocks', f, bno, bno + 1)
  {
    forall g, pos | 0 <= g < |files| && 0 <= pos
      ensures View(files', blocks', g, pos) == if g == f && bno <= pos / BLKSIZE < bno + 1 then None else View(files, blocks, g, pos)
    {
      EmptyCuts(files, blocks, files', blocks', f, bno, pos, g);
    }
  }

  lemma NothingErased(files: Files, blocks: Blocks, f: nat, bno: nat)
    requires FilesShape(files) && f < |files| && (bno < MAXBLOCKS ==> At(files, blocks, DataSlot(f, bno)) == 0)
    ensures Erased(files, blocks, files, blocks, f, bno, bno + 1)
  {
    forall pos: nat | pos / BLKSIZE == bno
      ensures View(files, blocks, f, pos) == None
    {
    }
  }

  /** Everything from `lo` on is gone once the blocks up to the old size are. */
  lemma ErasedIsCut(files: Files, blocks: Blocks, files': Files, blocks': Blocks, f: nat, lo: nat, hi: nat)
    requires Erased(files, blocks, files', blocks', f, lo, hi) && f < |files| && lo <= hi
    requires forall bno | hi <= bno < MAXBLOCKS :: At(files, blocks, DataSlot(f, bno)) == 0
    ensures Cut(files, blocks, files', blocks', f, lo)
  {
    forall pos: nat | pos / BLKSIZE >= hi
      ensures View(files, blocks, f, pos) == None
    {
      if pos / BLKSIZE < MAXBLOCKS {
        assert At(files, blocks, DataSlot(f, pos / BLKSIZE)) == 0;
      }
    }
  }

  /** What reading `data` from `offset` on means. */
  ghost predicate Reads(files: Files, blocks: Blocks, f: nat, offset: nat, data: seq<Byte>)
    requires FilesShape(files) && f < |files|
  {
    forall i :: 0 <= i < |data| ==> View(files, blocks, f, offset + i) == Some(data[i])
  }

  lemma ReadsChunk(files: Files, blocks: Blocks, f: nat, offset: nat, data: seq<Byte>, n: nat)
    requires FilesShape(files) && f < |files| && Reads(files, blocks, f, offset, data)
    requires var pos := offset + |data|;
      pos / BLKSIZE < MAXBLOCKS && pos % BLKSIZE + n <= BLKSIZE && 0 < At(files, blocks, DataSlot(f, pos / BLKSIZE)) < |blocks|
    ensures var pos := offset + |data|;
      Reads(files, blocks, f, offset, data + blocks[At(files, blocks, DataSlot(f, pos / BLKSIZE))][pos % BLKSIZE..pos % BLKSIZE + n])
  {
    var pos := offset + |data|;
    var chunk := blocks[At(files, blocks, DataSlot(f, pos / BLKSIZE))][pos % BLKSIZE..pos % BLKSIZE + n];
    forall i | 0 <= i < |data + chunk|
      ensures View(files, blocks, f, offset + i) == Some((data + chunk)[i])
    {
      if i >= |data| {
        SameBlock(pos, i - |data|);
        assert offset + i == pos + (i - |data|);
      }
    }
  }

  lemma ReadsKept(files: Files, blocks: Blocks, files': Files, blocks': Blocks, f: nat, offset: nat, data: seq<Byte>)
    requires FilesShape(files) && f < |files| && Reads(files, blocks, f, offset, data) && Kept(files, blocks, files', blocks', f)
    ensures Reads(files', blocks', f, offset, data)
  {
  }

  datatype Layout = Layout(files: Files, blocks: Blocks)

  /** What an operation of the server does to the bytes of the files: reading and growing keep them,
      writing, freeing blocks and shrinking change those of one file. */
  datatype Effect =
    | Keeps(file: nat)
    | Writes(file: nat, offset: nat, data: seq<Byte>)
    | Erases(file: nat, lo: nat, hi: nat)
    | Cuts(file: nat, nblocks: nat)

  ghost predicate Did(e: Effect, s: Layout, s': Layout) {
    match e
    case Keeps(f) => Kept(s.files, s.blocks, s'.files, s'.blocks, f)
    case Writes(f, offset, data) => Written(s.files, s.blocks, s'.files, s'.blocks, f, offset, data)
    case Erases(f, lo, hi) => Erased(s.files, s.blocks, s'.files, s'.blocks, f, lo, hi)
    case Cuts(f, nblocks) => Cut(s.files, s.blocks, s'.files, s'.blocks, f, nblocks)
  }

  /** It may change a byte from `lo` to `hi` - 1 of file `f`. */
  predicate Touches(e: Effect, f: nat, lo: nat, hi: nat) {
    match e
    case Keeps(_) => false
    case Writes(g, offset, data) => g == f && offset < hi && lo < offset + |data|
    case Erases(g, from, to) => g == f && from * BLKSIZE < hi && lo < to * BLKSIZE
    case Cuts(g, nblocks) => g == f && nblocks * BLKSIZE < hi
  }

  /** The bytes from `lo` to `hi` - 1 of file `f` that had a value have it still. */
  ghost predicate Spared(s: Layout, s': Layout, f: nat, lo: nat, hi: nat) {
    && FilesShape(s.files) && FilesShape(s'.files) && f < |s.files| == |s'.files|
    && forall pos | lo <= pos < hi && View(s.files, s.blocks, f, pos).Some? ::
         View(s'.files, s'.blocks, f, pos) == View(s.files, s.blocks, f, pos)
  }

  lemma EffectSpares(e: Effect, s: Layout, s': Layout, f: nat, lo: nat, hi: nat)
    requires Did(e, s, s') && f < |s.files| && !Touches(e, f, lo, hi)
    ensures Spared(s, s', f, lo, hi)
  {
  }

  lemma {:induction false} AllSpare(trace: seq<Layout>, effects: seq<Effect>, f: nat, lo: nat, hi: nat)
    requires |trace| == |effects| + 1 && FilesShape(trace[0].files) && f < |trace[0].files|
    requires forall k :: 0 <= k < |effects| ==> Did(effects[k], trace[k], trace[k + 1]) && !Touches(effects[k], f, lo, hi)
    ensures Spared(trace[0], trace[|effects|], f, lo, hi)
  {
    if effects != [] {
      var n := |effects| - 1;
      AllSpare(trace[..n + 1], effects[..n], f, lo, hi);
      assert Did(effects[n], trace[n], trace[n + 1]);
      EffectSpares(effects[n], trace[n], trace[n + 1], f, lo, hi);
    }
  }

  /** Write and read back: a read of what was written, in whole or in part, gives those bytes, whatever
      the server has done in between to other files or to other places of the file. */
  lemma ReadBack(s: Layout, f: nat, offset: nat, data: seq<Byte>, trace: seq<Layout>, effects: seq<Effect>, from: nat, got: seq<Byte>)
    requires |trace| == |effects| + 1 && Did(Writes(f, offset, data), s, trace[0])
    requires forall k :: 0 <= k < |effects| ==>
      Did(effects[k], trace[k], trace[k + 1]) && !Touches(effects[k], f, from, from + |got|)
    requires offset <= from && from + |got| <= offset + |data|
    requires var t := trace[|effects|]; FilesShape(t.files) && f < |t.files| && Reads(t.files, t.blocks, f, from, got)
    ensures got == data[from - offset..from - offset + |got|]
  {
    AllSpare(trace, effects, f, from, from + |got|);
    forall i | 0 <= i < |got|
      ensures got[i] == data[from - offset + i]
    {
      assert View(trace[0].files, trace[0].blocks, f, offset + (from - offset + i)) == Some(data[from - offset + i]);
      assert offset + (from - offset + i) == from + i;
    }
  }

  lemma ChunkFits(pos: nat, end: nat)
    requires pos < end
    ensures var n := if BLKSIZE - pos % BLKSIZE < end - pos then BLKSIZE - pos % BLKSIZE else end - pos;
      0 < n <= end - pos && pos % BLKSIZE + n <= BLKSIZE
    ensures pos / BLKSIZE < BlocksOf(end)
  {
  }

  // ------------------------------------------------------------------
  // Counting
  // ------------------------------------------------------------------

  ghost function UsedSlots(files: Files, blocks: Blocks): (r: set<Slot>)
    requires FilesShape(files)
    ensures forall s :: s in r <==> IsSlot(|files|, s) && At(files, blocks, s) != 0
  {
    (set f: nat | f < |files| && At(files, blocks, Indirect(f)) != 0 :: Indirect(f)) +
    (set f: nat, k: nat | f < |files| && k < NDIRECT && At(files, blocks, Direct(f, k)) != 0 :: Direct(f, k)) +
    (set f: nat, k: nat | f < |files| && k < NINDIRECT && At(files, blocks, Ind(f, k)) != 0 :: Ind(f, k))
  }

  lemma {:induction false} ImageSize(files: Files, blocks: Blocks, slots: set<Slot>)
    requires FilesShape(files) && forall s :: s in slots ==> IsSlot(|files|, s)
    requires forall s, s' | s in slots && s' in slots && At(files, blocks, s) == At(files, blocks, s') :: s == s'
    ensures |set s | s in slots :: At(files, blocks, s)| == |slots|
    decreases |slots|
  {
    var image := set x | x in slots :: At(files, blocks, x);
    if slots != {} {
      var s :| s in slots;
      var rest := slots - {s};
      ImageSize(files, blocks, rest);
      assert image == (set x | x in rest :: At(files, blocks, x)) + {At(files, blocks, s)};
      assert At(files, blocks, s) !in (set x | x in rest :: At(files, blocks, x));
    } else {
      assert image == {};
    }
  }

  ghost function Range(lo: nat, hi: nat): (r: set<nat>)
    requires lo <= hi
    ensures |r| == hi - lo && forall b :: b in r <==> lo <= b < hi
    decreases hi - lo
  {
    if lo == hi then {} else Range(lo, hi - 1) + {hi - 1}
  }

  ghost function UsedBlocks(files: Files, blocks: Blocks): set<nat>
    requires FilesShape(files)
  {
    set s | s in UsedSlots(files, blocks) :: At(files, blocks, s)
  }

  lemma FreeOrUsed(files: Files, blocks: Blocks, free: seq<bool>, reserved: nat, b: nat)
    requires Disjoint(files, blocks, reserved) && Conserved(files, blocks, free, reserved)
    ensures reserved <= b < |blocks| <==> b in FreeBlocks(free) || b in UsedBlocks(files, blocks)
    ensures !(b in FreeBlocks(free) && b in UsedBlocks(files, blocks))
  {
    if reserved <= b < |blocks| {
      if Owned(files, blocks, b) {
        var s :| IsSlot(|files|, s) && At(files, blocks, s) == b;
        assert s in UsedSlots(files, blocks);
      }
    }
  }

  /** The free blocks, the blocks named by the files and the reserved blocks add up to the disk. */
  lemma Conservation(files: Files, blocks: Blocks, free: seq<bool>, reserved: nat)
    requires Disjoint(files, blocks, reserved) && Conserved(files, blocks, free, reserved)
    ensures |FreeBlocks(free)| + |UsedSlots(files, blocks)| + reserved == |blocks|
  {
    var used, rest := UsedBlocks(files, blocks), Range(reserved, |blocks|);
    ImageSize(files, blocks, UsedSlots(files, blocks));
    hide Disjoint, Conserved, UsedSlots, FreeBlocks;
    forall b: nat
      ensures b in rest <==> b in FreeBlocks(free) || b in used
      ensures !(b in FreeBlocks(free) && b in used)
    {
      FreeOrUsed(files, blocks, free, reserved, b);
    }
    assert rest == FreeBlocks(free) + used && FreeBlocks(free) * used == {};
  }
}
