/**
 The block cache of TPJOS/fs/bc.c and its users in TPJOS/fs/fs.c: blocks are read in when
 they are first touched, the processor marks them dirty when they are written, and
 flush_block writes dirty ones back. The disk and the cache together are one logical disk.
 */
module BlockCache {
  import opened FileLayout

  const BITMAP: nat := 2           // the first bitmap block

  function Pow2(n: nat): nat {
    if n == 0 then 1 else 2 * Pow2(n - 1)
  }

  /** word & (1 << k) */
  predicate Bit(word: nat, k: nat) {
    if k == 0 then word % 2 == 1 else Bit(word / 2, k - 1)
  }

  /** word | (1 << k), and word & ~(1 << k) */
  function PutBit(word: nat, k: nat, on: bool): nat {
    if k == 0 then word - word % 2 + (if on then 1 else 0) else 2 * PutBit(word / 2, k - 1, on) + word % 2
  }

  lemma {:induction false} BitPut(word: nat, k: nat, on: bool, j: nat)
    ensures Bit(PutBit(word, k, on), j) == if j == k then on else Bit(word, j)
  {
    if k > 0 && j > 0 {
      BitPut(word / 2, k - 1, on, j - 1);
    }
  }

  lemma {:induction false} PutBitFits(word: nat, k: nat, on: bool, n: nat)
    requires word < Pow2(n) && k < n
    ensures PutBit(word, k, on) < Pow2(n)
  {
    var half, limit := word / 2, Pow2(n - 1);
    assert word == 2 * half + word % 2 && Pow2(n) == 2 * limit && half < limit;
    if k > 0 {
      PutBitFits(half, k - 1, on, n - 1);
    }
  }

  lemma PutBitWord(word: nat, k: nat, on: bool)
    requires word < WORD && k < 32
    ensures PutBit(word, k, on) < WORD
  {
    assert Pow2(10) == 0x400;
    assert Pow2(20) == 0x10_0000;
    assert Pow2(32) == 0x1_0000_0000;
    PutBitFits(word, k, on, 32);
  }

  /** Where the bit of block `b` is: bitmap[b / 32], bit b % 32. */
  function BitmapBlock(b: nat): nat {
    BITMAP + b / BLKBITSIZE
  }

  function BitmapWord(b: nat): (w: nat)
    ensures w < NINDIRECT
  {
    b % BLKBITSIZE / 32
  }

  /** The bit of the bitmap that says that block `b` is free. */
  predicate FreeBit(blocks: Blocks, b: nat)
    requires BitmapBlock(b) < |blocks|
  {
    Bit(WordAt(blocks[BitmapBlock(b)], BitmapWord(b)), b % 32)
  }

  /** The block with the bit of `b` set or cleared. */
  function Marked(block: Block, b: nat, on: bool): Block {
    PutBitWord(WordAt(block, BitmapWord(b)), b % 32, on);
    PutWord(block, BitmapWord(b), PutBit(WordAt(block, BitmapWord(b)), b % 32, on))
  }

  lemma MarkedBit(blocks: Blocks, b: nat, on: bool, c: nat)
    requires BitmapBlock(b) < |blocks| && BitmapBlock(c) < |blocks|
    ensures FreeBit(blocks[BitmapBlock(b) := Marked(blocks[BitmapBlock(b)], b, on)], c) == if c == b then on else FreeBit(blocks, c)
  {
    var block := blocks[BitmapBlock(b)];
    PutBitWord(WordAt(block, BitmapWord(b)), b % 32, on);
    WordPut(block, BitmapWord(b), PutBit(WordAt(block, BitmapWord(b)), b % 32, on), BitmapWord(c));
    if BitmapBlock(b) == BitmapBlock(c) && BitmapWord(b) == BitmapWord(c) {
      BitPut(WordAt(block, BitmapWord(b)), b % 32, on, c % 32);
      SameBit(b, c);
    }
  }

  lemma SameFreeBit(blocks: Blocks, blocks': Blocks, b: nat)
    requires BitmapBlock(b) < |blocks| == |blocks'| && blocks[BitmapBlock(b)] == blocks'[BitmapBlock(b)]
    ensures FreeBit(blocks, b) == FreeBit(blocks', b)
  {
  }

  lemma SameBit(b: nat, c: nat)
    requires BitmapBlock(b) == BitmapBlock(c) && BitmapWord(b) == BitmapWord(c)
    ensures b % 32 == c % 32 <==> b == c
  {
    Place(b);
    Place(c);
  }

  lemma Place(b: nat)
    ensures b == (BitmapBlock(b) - BITMAP) * BLKBITSIZE + 32 * BitmapWord(b) + b % 32
  {
    var q, r := b / BLKBITSIZE, b % BLKBITSIZE;
    var w, k := r / 32, r % 32;
    assert b == 32 * (1024 * q + w) + k;
    assert b % 32 == k by { Thirty(b, 1024 * q + w, k); }
  }

  lemma Thirty(b: nat, n: nat, k: nat)
    requires b == 32 * n + k && k < 32
    ensures b % 32 == k
  {
  }

  predicate IsBitmapBlock(nblocks: nat, b: nat)
    requires nblocks > 0
  {
    BITMAP <= b <= BitmapBlock(nblocks - 1)
  }

  /** Those that have the bit of some block of the disk. */
  lemma IsBitmapBlockIff(nblocks: nat, b: nat)
    requires nblocks > 0
    ensures IsBitmapBlock(nblocks, b) <==> exists c: nat :: c < nblocks && BitmapBlock(c) == b
  {
    if IsBitmapBlock(nblocks, b) {
      var c := (b - BITMAP) * BLKBITSIZE;
      assert BitmapBlock(c) == b && c <= (nblocks - 1) / BLKBITSIZE * BLKBITSIZE <= nblocks - 1;
    }
  }

  /** The disk has room for its bitmap. */
  predicate BitmapFits(nblocks: nat) {
    nblocks > 0 && BitmapBlock(nblocks - 1) < nblocks
  }

  ghost predicate BitmapInUse(blocks: Blocks)
    requires BitmapFits(|blocks|)
  {
    forall b | IsBitmapBlock(|blocks|, b) :: !FreeBit(blocks, b)
  }

  class Cache {
    const nblocks: nat            // s_nblocks
    var disk: Blocks
    var mapped: seq<bool>         // PTE_P of the page of each block
    var dirty: seq<bool>          // PTE_D
    var page: Blocks

    /** Everything has the size of the disk, and a block that is in memory and clean is what is on the disk. */
    ghost predicate Coherent()
      reads this
    {
      && |disk| == |mapped| == |dirty| == |page| == nblocks && BitmapFits(nblocks)
      && (forall b :: 0 <= b < nblocks && mapped[b] && !dirty[b] ==> page[b] == disk[b])
    }

    /** Besides, the bitmap blocks are in use, which check_bitmap has seen to. */
    ghost predicate Valid()
      reads this
    {
      Coherent() && BitmapInUse(Logical())
    }

    /** The logical disk: what any access sees. */
    ghost function Logical(): (r: Blocks)
      requires Coherent()
      reads this
      ensures |r| == nblocks
    {
      seq(nblocks, b requires 0 <= b < nblocks reads this requires Coherent() => if mapped[b] then page[b] else disk[b])
    }

    /** At the start nothing is in memory. */
    constructor (disk: Blocks)
      requires BitmapFits(|disk|) && BitmapInUse(disk)
      ensures Valid() && this.disk == disk == Logical() && nblocks == |disk|
      ensures forall b :: 0 <= b < nblocks ==> !mapped[b] && !dirty[b]
    {
      this.nblocks, this.disk, this.page := |disk|, disk, disk;
      this.mapped, this.dirty := seq(|disk|, _ => false), seq(|disk|, _ => false);
      new;
      assert Logical() == disk;
    }

    /** The blocks that are not in memory. */
    ghost function Absent(): set<nat>
      reads this
    {
      set b: nat | b < |mapped| && !mapped[b]
    }

    /** Only `b` and bitmap blocks have come into memory, and they are clean. */
    twostate predicate OnlyRead(b: nat)
      requires |old(mapped)| == |old(dirty)| == |mapped| == |dirty| == nblocks
      reads this
    {
      forall c :: 0 <= c < nblocks ==>
        if mapped[c] == old(mapped)[c] then dirty[c] == old(dirty)[c]
        else mapped[c] && !dirty[c] && (c == b || IsBitmapBlock(nblocks, c))
    }

    /** block_is_free: a load from the bitmap, which may have to be read in first. */
    method BlockIsFree(b: nat) returns (isFree: bool)
      requires Valid() && b < nblocks
      modifies `page, `mapped, `dirty
      ensures Valid() && Logical() == old(Logical()) && OnlyRead(BitmapBlock(b)) && mapped[BitmapBlock(b)]
      ensures isFree == FreeBit(Logical(), b)
      decreases Absent(), 1
    {
      var k := BitmapBlock(b);
      if !mapped[k] {
        var ok := BcPgfault(k);
        assert ok;
      }
      return Bit(WordAt(page[k], BitmapWord(b)), b % 32);
    }

    /** bc_pgfault. It looks at the bitmap only after it has read the block, and that may be another fault;
        `ok` is false when it panics. */
    method BcPgfault(b: nat) returns (ok: bool)
      requires Valid() && b < nblocks && !mapped[b]
      modifies `page, `mapped, `dirty
      ensures Valid() && Logical() == old(Logical()) && OnlyRead(b) && mapped[b] && mapped[BitmapBlock(b)]
      ensures ok <==> !FreeBit(Logical(), b)
      decreases Absent(), 0
    {
      hide FreeBit;
      page, mapped, dirty := page[b := disk[b]], mapped[b := true], dirty[b := false];
      assert Logical() == old(Logical());
      assert b in old(Absent()) && b !in Absent();
      var isFree := BlockIsFree(b);
      return !isFree;
    }

    /** A load from the page of block `b`. */
    method Load(b: nat, i: nat) returns (ok: bool, v: Byte)
      requires Valid() && b < nblocks && i < BLKSIZE
      modifies `page, `mapped, `dirty
      ensures Valid() && Logical() == old(Logical()) && OnlyRead(b)
      ensures ok <==> old(mapped)[b] || !FreeBit(Logical(), b)
      ensures ok ==> mapped[b] && v == Logical()[b][i]
    {
      ok := true;
      if !mapped[b] {
        ok := BcPgfault(b);
      }
      v := page[b][i];
    }

    /** A store to the page of block `b`; the processor sets the dirty bit. */
    method Store(b: nat, i: nat, v: Byte) returns (ok: bool)
      requires Valid() && b < nblocks && i < BLKSIZE
      modifies `page, `mapped, `dirty
      ensures Coherent() && (ok <==> old(mapped)[b] || !old(FreeBit(Logical(), b)))
      ensures !IsBitmapBlock(nblocks, b) ==> Valid()
      ensures Logical() == if ok then old(Logical())[b := old(Logical())[b][i := v]] else old(Logical())
    {
      ok := true;
      if !mapped[b] {
        ok := BcPgfault(b);
        if !ok {
          return;
        }
      }
      page, dirty := page[b := page[b][i := v]], dirty[b := true];
    }

    /** flush_block. */
    method FlushBlock(b: nat)
      requires Valid() && b < nblocks
      modifies `disk, `dirty
      ensures Valid() && Logical() == old(Logical())
      ensures disk == old(disk)[b := Logical()[b]]
      ensures (mapped[b] ==> !dirty[b]) && forall c :: 0 <= c < nblocks && c != b ==> dirty[c] == old(dirty)[c]
    {
      if !mapped[b] || !dirty[b] {
        assert old(disk)[b := Logical()[b]] == old(disk);
        return;
      }
      disk, dirty := disk[b := page[b]], dirty[b := false];
    }

    /** fs_sync: from block 1 on the disk is the logical disk. */
    method FsSync()
      requires Valid()
      modifies `disk, `dirty
      ensures Valid() && Logical() == old(Logical())
      ensures disk[1..] == Logical()[1..] && disk[0] == old(disk)[0]
      ensures forall b :: 1 <= b < nblocks && mapped[b] ==> !dirty[b]
    {
      var i := 1;
      while i < nblocks
        invariant 1 <= i <= nblocks && Valid() && Logical() == old(Logical())
        invariant disk[0] == old(disk)[0] && forall b :: 1 <= b < i ==> disk[b] == Logical()[b] && (mapped[b] ==> !dirty[b])
      {
        FlushBlock(i);
        i := i + 1;
      }
    }

    /** What alloc_block does to the bitmap once it has found `nb`: the bit goes in memory, and the first
        bitmap block goes to the disk. The bit goes to the disk only if it is in that block. */
    method TakeBlock(nb: nat)
      requires Valid() && nb < nblocks && FreeBit(Logical(), nb)
      modifies `disk, `dirty, `page, `mapped
      ensures Valid() && Logical() == old(Logical())[BitmapBlock(nb) := Marked(old(Logical())[BitmapBlock(nb)], nb, false)]
      ensures forall b :: 0 <= b < nblocks ==> FreeBit(Logical(), b) == (b != nb && old(FreeBit(Logical(), b)))
      ensures !FreeBit(disk, nb) <==> nb < BLKBITSIZE || !old(FreeBit(disk, nb))
      ensures forall b :: 0 <= b < nblocks && b != BITMAP ==> disk[b] == old(disk)[b]
    {
      hide FreeBit, Marked;
      Mark(nb, false);
      FlushBlock(BITMAP);
      if nb < BLKBITSIZE {
        SameFreeBit(disk, Logical(), nb);
      } else {
        SameFreeBit(disk, old(disk), nb);
      }
    }

    /** free_block, which panics on block 0. Freeing a bitmap block is what makes the server panic later. */
    method FreeBlock(b: nat)
      requires Valid() && 0 < b < nblocks
      modifies `dirty, `page, `mapped
      ensures Coherent() && (Valid() <==> !IsBitmapBlock(nblocks, b))
      ensures forall c :: 0 <= c < nblocks ==> FreeBit(Logical(), c) == (c == b || old(FreeBit(Logical(), c)))
      ensures Logical() == old(Logical())[BitmapBlock(b) := Marked(old(Logical())[BitmapBlock(b)], b, true)]
    {
      Mark(b, true);
    }

    /** A store to the bitmap word of block `b`. */
    method Mark(b: nat, on: bool)
      requires Valid() && b < nblocks
      modifies `dirty, `page, `mapped
      ensures Coherent() && (Valid() <==> !on || !IsBitmapBlock(nblocks, b))
      ensures mapped[BitmapBlock(b)] && dirty[BitmapBlock(b)]
      ensures Logical() == old(Logical())[BitmapBlock(b) := Marked(old(Logical())[BitmapBlock(b)], b, on)]
      ensures forall c :: 0 <= c < nblocks ==> FreeBit(Logical(), c) == if c == b then on else old(FreeBit(Logical(), c))
    {
      hide FreeBit, Marked;
      var k := BitmapBlock(b);
      if !mapped[k] {
        var _ := BcPgfault(k);
      }
      page, dirty := page[k := Marked(page[k], b, on)], dirty[k := true];
      forall c | 0 <= c < nblocks
        ensures FreeBit(Logical(), c) == if c == b then on else old(FreeBit(Logical(), c))
      {
        MarkedBit(old(Logical()), b, on, c);
        assert Logical() == old(Logical())[k := Marked(old(Logical())[k], b, on)];
      }
    }

    /** What file_block_walk finds, without allocating; the indirect block may have to be read in. */
    method FindNumber(f: File, i: nat) returns (b: nat)
      requires Valid() && NumbersOk(Logical(), f) && (f.indirect != 0 ==> !FreeBit(Logical(), f.indirect))
      modifies `dirty, `page, `mapped
      ensures Valid() && Logical() == old(Logical()) && b == NumberOf(Logical(), f, i) && b < nblocks
    {
      b := 0;
      if i < NDIRECT {
        b := f.direct[i];
      } else if i < MAXBLOCKS && f.indirect != 0 {
        if !mapped[f.indirect] {
          var _ := BcPgfault(f.indirect);
        }
        b := WordAt(page[f.indirect], i - NDIRECT);
      }
      assert b == NumberOf(Logical(), f, i);
    }

    /** file_flush of a file whose record is in block `fb`: its data blocks, its record and its indirect
        block are on the disk afterwards, and no other block of the disk is written. */
    method FileFlush(fb: nat, f: File)
      requires Valid() && 0 < fb < nblocks && NumbersOk(Logical(), f)
      requires f.indirect != 0 ==> !FreeBit(Logical(), f.indirect)
      modifies `disk, `dirty, `page, `mapped
      ensures Valid() && Logical() == old(Logical())
      ensures forall i :: 0 <= i < BlocksOf(f.size) && NumberOf(Logical(), f, i) != 0 ==>
        disk[NumberOf(Logical(), f, i)] == Logical()[NumberOf(Logical(), f, i)]
      ensures disk[fb] == Logical()[fb] && (f.indirect != 0 ==> disk[f.indirect] == Logical()[f.indirect])
      ensures forall b :: 0 <= b < nblocks ==> disk[b] == old(disk)[b] || disk[b] == Logical()[b]
      ensures forall b :: 0 <= b < nblocks && b != fb && b != f.indirect && !Mentions(Logical(), f, b) ==> disk[b] == old(disk)[b]
    {
      hide FreeBit, NumberOf, Logical;
      ghost var all := Logical();
      var i := 0;
      while i < BlocksOf(f.size)
        invariant i <= BlocksOf(f.size) && Valid() && Logical() == all
        invariant forall k :: 0 <= k < i && NumberOf(all, f, k) != 0 ==> disk[NumberOf(all, f, k)] == all[NumberOf(all, f, k)]
        invariant forall b :: 0 <= b < nblocks ==> disk[b] == old(disk)[b] || disk[b] == all[b]
        invariant forall b :: 0 <= b < nblocks && !Mentions(all, f, b) ==> disk[b] == old(disk)[b]
      {
        var b := FindNumber(f, i);
        if b != 0 {
          FlushBlock(b);
        }
        i := i + 1;
      }
      FlushBlock(fb);
      if f.indirect != 0 {
        FlushBlock(f.indirect);
      }
    }
  }

  /** The number of block `i` of a file, as file_block_walk finds it; 0 for none. */
  function NumberOf(blocks: Blocks, f: File, i: nat): nat
    requires |f.direct| == NDIRECT && f.indirect < |blocks|
  {
    if i < NDIRECT then f.direct[i]
    else if i < MAXBLOCKS && f.indirect != 0 then WordAt(blocks[f.indirect], i - NDIRECT)
    else 0
  }

  /** Every block number in the file is one of the disk. */
  ghost predicate NumbersOk(blocks: Blocks, f: File) {
    |f.direct| == NDIRECT && f.indirect < |blocks| && forall i: nat :: NumberOf(blocks, f, i) < |blocks|
  }

  ghost predicate Mentions(blocks: Blocks, f: File, b: nat)
    requires |f.direct| == NDIRECT && f.indirect < |blocks|
  {
    exists i :: 0 <= i < BlocksOf(f.size) && NumberOf(blocks, f, i) == b
  }
}
