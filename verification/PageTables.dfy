/**
 The page allocator and the page tables of TPJOS/kern/pmap.c, and the set-up and teardown
 of an address space in TPJOS/kern/env.c, as one object whose methods change reference
 counts, links and table words in place.

 Virtual addresses are page numbers below UTOP; `env_pgdir` is the number of its page.
 */
module PageTables {
  import opened Options
  import opened Vm

  const IOPHYSMEM_PAGE: nat := 160
  const MPENTRY_PAGE: nat := 7
  const UTOP_PAGE: nat := PDX_UTOP * NPTENTRIES

  function Zeroes(): seq<Entry> {
    seq(NPTENTRIES, _ => Zero)
  }

  function PdeOf(d: nat, va: nat): Slot {
    Pde(d, va / NPTENTRIES)
  }

  function PteOf(d: nat, va: nat): Slot {
    Pte(d, va / NPTENTRIES, va % NPTENTRIES)
  }

  /** What the two-level table of `d` says about page `va`. */
  function Translation(words: Words, d: nat, va: nat): Entry {
    At(words, PteOf(d, va))
  }

  /** x & (1 << k) */
  predicate Bit(x: nat, k: nat) {
    if k == 0 then x % 2 == 1 else Bit(x / 2, k - 1)
  }

  // Numbers of bits in an entry
  const PTE_P: nat := 0
  const PTE_W: nat := 1
  const PTE_U: nat := 2

  /** perm | PTE_P */
  function Present(perm: nat): nat {
    if Bit(perm, PTE_P) then perm else perm + 1
  }

  /** a | b */
  function Or(a: nat, b: nat): nat {
    if a == 0 then b
    else if b == 0 then a
    else 2 * Or(a / 2, b / 2) + (if a % 2 == 1 || b % 2 == 1 then 1 else 0)
  }

  /** page2pa(pp) | perm | PTE_P: the bits of `perm` above the low twelve fall into the page number. */
  function NewEntry(p: nat, perm: nat): Entry {
    Map(Or(p, perm / 0x1000), Present(perm % 0x1000))
  }

  /** Permissions within the low twelve bits are stored beside the page number. */
  lemma LowPerm(p: nat, perm: nat)
    requires perm < 0x1000
    ensures NewEntry(p, perm) == Map(p, Present(perm)) && Or(p, perm / 0x1000) == p
  {
  }

  /** The entry has the low twelve bits of `perm`, and is present. */
  ghost predicate HasBits(e: Entry, perm: nat) {
    e.Map? && e.perm < 0x1000 && forall k: nat | k < 12 :: Bit(e.perm, k) <==> k == PTE_P || Bit(perm, k)
  }

  lemma InsertedBits(words: Words, words': Words, dirs: set<nat>, d: nat, va: nat, p: nat, perm: nat, table: nat)
    requires d in dirs && va < UTOP_PAGE && Inserted(words, words', dirs, PteOf(d, va), NewEntry(p, perm), table)
    ensures Translation(words', d, va) == NewEntry(p, perm) && HasBits(Translation(words', d, va), perm)
  {
    assert IsSlot(dirs, PteOf(d, va));
    forall k: nat | k < 12
      ensures Bit(NewEntry(p, perm).perm, k) <==> k == PTE_P || Bit(perm, k)
    {
      EntryBits(p, perm, k);
    }
  }

  /** With 0x1007 for `perm`, the entry meant for an even page names the next page. */
  lemma HighPerm(p: nat)
    ensures NewEntry(p, 0x1007) == Map(if p % 2 == 0 then p + 1 else p, 7)
  {
    assert Or(p / 2, 0) == p / 2;
  }

  /** The page number stays what it was exactly if it has all the bits that are or-ed into it. */
  lemma {:induction false} OrKeepsIff(a: nat, b: nat)
    ensures Or(a, b) == a <==> BitsWithin(b, a)
  {
    if b > 0 {
      OrKeepsIff(a / 2, b / 2);
      assert a == 2 * (a / 2) + a % 2;
    }
  }

  predicate BitsWithin(b: nat, a: nat) {
    b == 0 || ((b % 2 == 1 ==> a % 2 == 1) && BitsWithin(b / 2, a / 2))
  }

  lemma {:induction false} OrBits(a: nat, b: nat, k: nat)
    ensures Bit(Or(a, b), k) <==> Bit(a, k) || Bit(b, k)
    decreases k
  {
    if a == 0 || b == 0 {
      NoBits(k);
    } else if k > 0 {
      OrBits(a / 2, b / 2, k - 1);
    }
  }

  lemma {:induction false} NoBits(k: nat)
    ensures !Bit(0, k)
  {
    if k > 0 {
      NoBits(k - 1);
    }
  }

  /** The low twelve bits of an entry are those of `perm`, and PTE_P. */
  lemma EntryBits(p: nat, perm: nat, k: nat)
    requires k < 12
    ensures NewEntry(p, perm).perm < 0x1000 && (Bit(NewEntry(p, perm).perm, k) <==> k == 0 || Bit(perm, k))
  {
    var low := perm % 0x1000;
    LowBits(perm, k, 12);
    if k > 0 {
      assert Present(low) / 2 == low / 2;
    }
  }

  lemma {:induction false} LowBits(x: nat, k: nat, n: nat)
    requires k < n
    ensures Bit(x % Pow2(n), k) == Bit(x, k) && Pow2(12) == 0x1000
  {
    var half := Pow2(n - 1);
    Halves(x, half);
    assert Pow2(2) == 4 && Pow2(4) == 16 && Pow2(6) == 64 && Pow2(8) == 256 && Pow2(10) == 1024;
    if k > 0 {
      LowBits(x / 2, k - 1, n - 1);
    }
  }

  function Pow2(n: nat): (r: nat)
    ensures r > 0
  {
    if n == 0 then 1 else 2 * Pow2(n - 1)
  }

  lemma Halves(x: nat, half: nat)
    requires half > 0
    ensures x % (2 * half) % 2 == x % 2 && x % (2 * half) / 2 == x / 2 % half
  {
    var q, r := x / 2 / half, x / 2 % half;
    assert x == 2 * half * q + (2 * r + x % 2) by {
      assert x / 2 == half * q + r && x == 2 * (x / 2) + x % 2;
      assert 2 * (half * q) == 2 * half * q;
    }
    Quotient(x, 2 * half, q, 2 * r + x % 2);
  }

  lemma Quotient(x: nat, d: nat, q: nat, r: nat)
    requires x == d * q + r && r < d
    ensures x % d == r
  {
    var k := x / d - q;
    assert d * k + x % d == r;
    assert (k > 0 ==> d * k >= d) && (k < 0 ==> d * k <= 0 - d);
  }

  /** syscall.c:219: no bit outside PTE_SYSCALL, and PTE_U or PTE_P. */
  predicate AllocPerm(perm: nat) {
    perm < 0x1000 && perm / 8 % 64 == 0 && (Bit(perm, PTE_U) || Bit(perm, PTE_P))
  }

  ghost predicate BitsAllowed(perm: nat) {
    forall k: nat | Bit(perm, k) :: k <= 2 || 9 <= k <= 11
  }

  /** PTE_SYSCALL is bits 0, 1, 2, 9, 10 and 11. */
  lemma AllocPermIs(perm: nat)
    ensures AllocPerm(perm) <==> BitsAllowed(perm) && (Bit(perm, PTE_U) || Bit(perm, PTE_P))
  {
    hide Pow2;
    assert Pow2(12) == 0x1000 by { LowBits(0, 0, 12); }
    if perm < 0x1000 {
      BitsBelow(perm, 12);
      MiddleBits(perm);
      if perm / 8 % 64 == 0 {
        forall k: nat | Bit(perm, k)
          ensures k <= 2 || 9 <= k <= 11
        {
          assert k < 12;
        }
      }
    } else if BitsAllowed(perm) {
      NoBitsAbove(perm, 12);
    }
  }

  lemma {:induction false} BitsBelow(x: nat, n: nat)
    requires x < Pow2(n)
    ensures forall k: nat :: Bit(x, k) ==> k < n
  {
    forall k: nat | Bit(x, k)
      ensures k < n
    {
      if n == 0 {
        NoBits(k);
      } else if k > 0 {
        BitsBelow(x / 2, n - 1);
        assert Bit(x / 2, k - 1);
      }
    }
  }

  lemma {:induction false} HighBit(x: nat)
    requires x > 0
    ensures exists k: nat :: Bit(x, k)
  {
    if x % 2 == 1 {
      assert Bit(x, 0);
    } else {
      HighBit(x / 2);
      var k: nat :| Bit(x / 2, k);
      assert Bit(x, k + 1);
    }
  }

  lemma {:induction false} NoBitsAbove(x: nat, n: nat)
    requires forall k: nat :: Bit(x, k) ==> k < n
    ensures x < Pow2(n)
  {
    if n == 0 {
      if x > 0 {
        HighBit(x);
      }
    } else {
      forall k: nat | Bit(x / 2, k)
        ensures k < n - 1
      {
        assert Bit(x, k + 1);
      }
      NoBitsAbove(x / 2, n - 1);
    }
  }

  lemma Eighth(x: nat, k: nat)
    ensures Bit(x / 8, k) == Bit(x, k + 3)
  {
    assert x / 8 == x / 2 / 2 / 2;
    assert Bit(x, k + 3) == Bit(x / 2, k + 2) && Bit(x / 2, k + 2) == Bit(x / 2 / 2, k + 1);
  }

  ghost predicate SomeBit(x: nat, lo: nat, hi: nat) {
    exists k: nat :: lo <= k <= hi && Bit(x, k)
  }

  /** Bits 3 to 8 are those that x / 8 % 64 is made of. */
  lemma MiddleBits(x: nat)
    ensures x / 8 % 64 == 0 <==> !SomeBit(x, 3, 8)
  {
    var y := x / 8;
    var z := y % 64;
    assert Pow2(6) == 64;
    if z == 0 {
      forall k: nat | 3 <= k <= 8
        ensures !Bit(x, k)
      {
        Eighth(x, k - 3);
        LowBits(y, k - 3, 6);
        NoBits(k - 3);
      }
    } else {
      HighBit(z);
      var k: nat :| Bit(z, k);
      BitsBelow(z, 6);
      LowBits(y, k, 6);
      Eighth(x, k);
      assert Bit(x, k + 3);
    }
  }

  /** syscall.c:279-288: there is a table, and the new mapping is no more permissive than the entry. */
  predicate MayMap(pde: Entry, pte: Entry, perm: nat) {
    pde.Map? && Bit(perm, PTE_U) && Bit(perm, PTE_P) && (Bit(perm, PTE_W) ==> pte.Map? && Bit(pte.perm, PTE_W))
  }

  /** PTE_ADDR of the entry, as a page number. */
  function PageOf(pte: Entry): nat {
    if pte.Map? then pte.page else 0
  }

  /** Panicked: page_free found that the page is still referenced. */
  datatype SysResult = Done | Inval | NoMem | Panicked

  /** The pages that page_init puts on the list; `end` is the page of boot_alloc(0). */
  predicate Allocatable(i: nat, end: nat) {
    i != 0 && (i < IOPHYSMEM_PAGE || i > end) && i != MPENTRY_PAGE
  }

  /** Only the table that `pde` leads to may have changed. */
  ghost predicate OnlyTable(words: Words, words': Words, pde: Entry) {
    |words'| == |words| && forall q :: 0 <= q < |words| && (pde.Zero? || q != pde.page) ==> words'[q] == words[q]
  }

  lemma ThenOnly(words: Words, mid: Words, words': Words, pde: Entry)
    requires mid == words || OnlyTable(words, mid, pde)
    requires OnlyTable(mid, words', pde)
    ensures OnlyTable(words, words', pde)
  {
  }

  /** The two-level tables are one flat map for each environment: page_insert changes one virtual page
      of it, also when it makes a table ... */
  lemma InsertIsUpdate(words: Words, words': Words, dirs: set<nat>, d: nat, va: nat, e: Entry, table: nat, d2: nat, va2: nat)
    requires d in dirs && d2 in dirs && va < UTOP_PAGE && va2 < UTOP_PAGE
    requires Inserted(words, words', dirs, PteOf(d, va), e, table)
    ensures Translation(words', d2, va2) == if d2 == d && va2 == va then e else Translation(words, d2, va2)
  {
    assert IsSlot(dirs, PteOf(d2, va2));
    assert va2 == va2 / NPTENTRIES * NPTENTRIES + va2 % NPTENTRIES && va == va / NPTENTRIES * NPTENTRIES + va % NPTENTRIES;
  }

  /** ... and so does page_remove. */
  lemma RemoveIsUpdate(words: Words, words': Words, dirs: set<nat>, d: nat, va: nat, d2: nat, va2: nat)
    requires d in dirs && d2 in dirs && va < UTOP_PAGE && va2 < UTOP_PAGE
    requires OneChange(words, words', dirs, PteOf(d, va), Zero)
    ensures Translation(words', d2, va2) == if d2 == d && va2 == va then Zero else Translation(words, d2, va2)
  {
    assert IsSlot(dirs, PteOf(d2, va2));
    assert va2 == va2 / NPTENTRIES * NPTENTRIES + va2 % NPTENTRIES && va == va / NPTENTRIES * NPTENTRIES + va % NPTENTRIES;
  }

  class Machine {
    const npages: nat
    const kern: nat                   // kern_pgdir
    ghost const pool: set<nat>        // the pages that are handed out
    var ref: seq<nat>                 // pp_ref
    var link: seq<Option<nat>>        // pp_link
    var head: Option<nat>             // page_free_list
    var words: Words
    ghost var list: seq<nat>
    ghost var dirs: set<nat>          // page directories of live environments
    ghost var held: set<nat>          // allocated, not yet mapped
    ghost var pins: multiset<nat>
    ghost var strays: int             // references taken off page 0 that it never had

    ghost predicate Balanced()
      reads this
    {
      && |ref| == |link| == npages && Shape(words, npages)
      && (forall p :: 0 <= p < npages ==> ref[p] < REF_LIMIT)
      && 0 < npages && ref[0] == -strays % REF_LIMIT
      && kern < npages && (forall i: nat :: i < PDX_UTOP ==> words[kern][i] == Zero)
      && 0 !in pool && kern !in pool && (forall p :: p in pool ==> p < npages)
      && dirs <= pool
      && Consistent(ref, words, dirs, pool, pins)
      && ListOk(head, link, list) && FreeOk(ref, pool, list, held)
    }

    /** Between two system calls every counted reference is a place below UTOP or a live directory. */
    ghost predicate Valid()
      reads this
    {
      Balanced() && pins == multiset{}
    }

    /** page_init (pmap.c:343-352), with an empty lower half in kern_pgdir. */
    constructor (npages: nat, end: nat, kern: nat)
      requires 0 < npages && IOPHYSMEM_PAGE <= kern <= end && kern < npages
      ensures Valid() && this.npages == npages && this.kern == kern && dirs == {} && held == {} && strays == 0
      ensures forall p: nat :: p in list <==> p < npages && Allocatable(p, end)
      ensures forall p: nat :: p in list <==>
        0 < p < npages && (p * 4096 < 0xA_0000 || p * 4096 > end * 4096) && p * 4096 != 0x7000
    {
      this.npages, this.kern := npages, kern;
      this.pool := set p: nat | p < npages && Allocatable(p, end);
      this.ref, this.words := seq(npages, _ => 0), seq(npages, _ => Zeroes());
      this.link, this.head, this.list := seq(npages, _ => None), None, [];
      this.dirs, this.held, this.pins, this.strays := {}, {}, multiset{}, 0;
      new;
      var i := 0;
      while i < npages
        invariant i <= npages && |link| == npages && |ref| == npages && ListOk(head, link, list)
        invariant forall p :: p in list <==> 0 <= p < i && Allocatable(p, end)
        invariant words == seq(npages, _ => Zeroes()) && dirs == {} && held == {} && pins == multiset{} && strays == 0
        invariant forall p :: 0 <= p < npages ==> ref[p] == 0
      {
        if Allocatable(i, end) {
          Push(head, link, list, i);
          ref, link, head, list := ref[i := 0], link[i := head], Some(i), [i] + list;
        }
        i := i + 1;
      }
      forall p | p in pool
        ensures |Refs(words, dirs, p)| == 0
      {
        assert Refs(words, dirs, p) == {};
      }
    }

    /** page_alloc. */
    method PageAlloc(zero: bool) returns (p: Option<nat>)
      requires Balanced()
      modifies `link, `head, `words, `list, `held
      ensures Balanced()
      ensures p == if old(list) == [] then None else Some(old(list)[0])
      ensures list == if p.None? then [] else old(list)[1..]
      ensures held == if p.None? then old(held) else old(held) + {p.value}
      ensures words == if p.None? || !zero then old(words) else old(words)[p.value := Zeroes()]
      ensures p.Some? ==> ref[p.value] == 0 && p.value in pool && p.value !in old(held)
      ensures p.Some? ==> forall s :: IsSlot(dirs, s) ==> !Names(words, s, p.value)
      ensures forall s :: IsSlot(dirs, s) ==> At(words, s) == old(At(words, s))
    {
      hide Consistent;
      if head.None? {
        return None;
      }
      var page := head.value;
      Pop(head, link, list);
      Take(ref, pool, head, link, list, held);
      FillUnreferenced(ref, words, dirs, pool, pins, page, Zeroes());
      head, list := link[page], list[1..];
      link := link[page := None];
      held := held + {page};
      if zero {
        words := words[page := Zeroes()];
      }
      return Some(page);
    }

    /** page_free; `ok` is false when it panics. A page that is on the list already is noticed by its
        link, which the last one does not have: then there is no list any more. */
    method PageFree(p: nat) returns (ok: bool)
      requires ListOk(head, link, list) && p < |link| == |ref|
      modifies `link, `head, `list
      ensures |link| == old(|link|) && (ok <==> ref[p] == 0 && old(link)[p].None?)
      ensures list == if ok then [p] + old(list) else old(list)
      ensures ListOk(head, link, list) <==> !ok || p !in old(list)
      ensures p in old(list) ==> if ok then forall l :: !ListOk(head, link, l) else ListOk(head, link, list)
    {
      hide ListOk;
      if ref[p] != 0 || link[p].Some? {
        return false;
      }
      if p !in list {
        Push(head, link, list, p);
      } else {
        NoListLeft(head, link, list, p, link[p := head]);
      }
      link := link[p := head];
      head, list := Some(p), [p] + list;
      return true;
    }

    /** page_decref, in the arithmetic of a uint16_t. */
    method PageDecref(p: nat)
      requires ListOk(head, link, list) && p < |link| == |ref| && p !in list && ref[p] < REF_LIMIT
      modifies `ref, `link, `head, `list
      ensures ListOk(head, link, list) && |link| == old(|link|)
      ensures ref == old(ref)[p := if old(ref)[p] == 0 then REF_LIMIT - 1 else old(ref)[p] - 1]
      ensures list == if old(ref)[p] == 1 then [p] + old(list) else old(list)
    {
      hide ListOk;
      Unlinked(head, link, list, p);
      ref := ref[p := (ref[p] + REF_LIMIT - 1) % REF_LIMIT];
      if ref[p] == 0 {
        var _ := PageFree(p);
      }
    }

    /** create_page_table. */
    method CreatePageTable(d: nat, pdx: nat) returns (t: Option<nat>)
      requires Balanced() && IsSlot(dirs, Pde(d, pdx)) && At(words, Pde(d, pdx)) == Zero
      modifies `ref, `link, `head, `words, `list, `held
      ensures Balanced() && held == old(held)
      ensures t == if old(list) == [] then None else Some(old(list)[0])
      ensures list == if t.None? then [] else old(list)[1..]
      ensures t.None? ==> words == old(words) && ref == old(ref)
      ensures t.Some? ==> t.value in pool && ref == old(ref)[t.value := 1] && t.value !in held
      ensures t.Some? ==> OneChange(old(words), words, dirs, Pde(d, pdx), Map(t.value, TABLE_PERM))
      ensures t.Some? ==> forall q :: 0 <= q < npages && q != d && q != t.value ==> words[q] == old(words)[q]
    {
      hide Consistent, ListOk, FreeOk;
      t := PageAlloc(true);
      if t.None? {
        return;
      }
      EnterTable(ref, words, dirs, pool, pins, Pde(d, pdx), t.value);
      ThenOneChange(old(words), words, SetWord(words, d, pdx, Map(t.value, TABLE_PERM)), dirs, Pde(d, pdx), Map(t.value, TABLE_PERM));
      Use(ref, pool, list, held, t.value, 1);
      ref := ref[t.value := ref[t.value] + 1];
      words := SetWord(words, d, pdx, Map(t.value, TABLE_PERM));
      held := held - {t.value};
      assert held == old(held);
    }

    /** pgdir_walk: the page table that has the entry for `va`. */
    method PgdirWalk(d: nat, va: nat, create: bool) returns (t: Option<nat>)
      requires Balanced() && d in dirs && va < UTOP_PAGE
      modifies `ref, `link, `head, `words, `list, `held
      ensures Balanced() && held == old(held)
      ensures var pde := old(At(words, PdeOf(d, va)));
        && (pde.Map? || !create || old(list) == [] ==> words == old(words) && ref == old(ref) && list == old(list))
        && t == (if pde.Map? then Some(pde.page) else if !create || old(list) == [] then None else Some(old(list)[0]))
        && (pde.Zero? && t.Some? ==>
             && list == old(list)[1..] && ref == old(ref)[t.value := 1]
             && OneChange(old(words), words, dirs, PdeOf(d, va), Map(t.value, TABLE_PERM)))
      ensures t.Some? ==> At(words, PdeOf(d, va)).Map? && At(words, PdeOf(d, va)).page == t.value && t.value in pool
      ensures t.Some? ==> forall q :: 0 <= q < npages && q != d && q != t.value ==> words[q] == old(words)[q]
    {
      assert IsSlot(dirs, PdeOf(d, va));
      if words[d][va / NPTENTRIES].Zero? {
        if !create {
          return None;
        }
        t := CreatePageTable(d, va / NPTENTRIES);
      } else {
        t := Some(words[d][va / NPTENTRIES].page);
      }
    }

    /** page_lookup. Its test for a present entry is `*pte | PTE_P` (pmap.c:579), which is always true,
        so that an empty entry of an existing table is taken for a mapping of page 0. */
    method PageLookup(d: nat, va: nat) returns (p: Option<nat>)
      requires Balanced() && d in dirs && va < UTOP_PAGE
      ensures p.None? <==> At(words, PdeOf(d, va)).Zero?
      ensures p.Some? ==> p.value == if Translation(words, d, va).Map? then Translation(words, d, va).page else 0
      ensures var promised := if Translation(words, d, va).Map? then Some(Translation(words, d, va).page) else None;
        p == promised <==> At(words, PdeOf(d, va)).Zero? || Translation(words, d, va).Map?
    {
      hide Consistent, ListOk, FreeOk;
      if words[d][va / NPTENTRIES].Zero? {
        return None;
      }
      var t := words[d][va / NPTENTRIES].page;
      TableInRange(PdeOf(d, va));
      var pte := words[t][va % NPTENTRIES];
      return Some(if pte.Zero? then 0 else pte.page);
    }

    lemma TableInRange(x: Slot)
      requires Balanced() && IsSlot(dirs, x)
      ensures x.dir < npages && |words[x.dir]| == NPTENTRIES
      ensures !x.Pte? && At(words, x).Map? ==> At(words, x).page < npages && |words[At(words, x).page]| == NPTENTRIES
    {
    }

    /** page_remove. With a table but no mapping at `va` it takes a reference off page 0, which has none.
        The counts and the list of all other pages stay right until that frees page 0. */
    method PageRemove(d: nat, va: nat)
      requires Balanced() && d in dirs && va < UTOP_PAGE
      modifies `ref, `link, `head, `words, `list, `strays
      ensures Balanced() <==> old(At(words, PdeOf(d, va))).Zero? || old(Translation(words, d, va)).Map? || old(ref)[0] != 1
      ensures var pte := old(Translation(words, d, va));
        if pte.Map? then
          && OneChange(old(words), words, dirs, PteOf(d, va), Zero) && strays == old(strays)
          && old(ref)[pte.page] > 0 && ref == old(ref)[pte.page := old(ref)[pte.page] - 1]
          && list == if old(ref)[pte.page] == 1 then [pte.page] + old(list) else old(list)
        else if old(At(words, PdeOf(d, va))).Zero? then
          words == old(words) && list == old(list) && ref == old(ref) && strays == old(strays)
        else
          && words == old(words) && strays == old(strays) + 1
          && ref == old(ref)[0 := if old(ref)[0] == 0 then REF_LIMIT - 1 else old(ref)[0] - 1]
          && list == if old(ref)[0] == 1 then [0] + old(list) else old(list)
      ensures OnlyTable(old(words), words, old(At(words, PdeOf(d, va))))
    {
      hide Consistent, ListOk, FreeOk;
      var pp := PageLookup(d, va);
      if pp.None? {
        return;
      }
      ghost var x := PteOf(d, va);
      TableInRange(PdeOf(d, va));
      var t := words[d][va / NPTENTRIES].page;
      if words[t][va % NPTENTRIES].Map? {
        LeavePte(ref, words, dirs, pool, pins, x);
        Drop(ref, pool, list, held, pp.value);
        TablesAreNotKern(x);
        TablesAreNotKern(PdeOf(d, va));
      } else {
        NotListed(0);
        Page0Drops();
        strays := strays + 1;
      }
      PageDecref(pp.value);
      if words[t][va % NPTENTRIES] != Zero {
        words := SetWord(words, t, va % NPTENTRIES, Zero);
      }
    }

    lemma Page0Drops()
      requires Balanced()
      ensures var r := ref[0 := if ref[0] == 0 then REF_LIMIT - 1 else ref[0] - 1];
        && Consistent(r, words, dirs, pool, pins) && FreeOk(r, pool, list, held)
        && r[0] == -(strays + 1) % REF_LIMIT
      ensures !FreeOk(ref[0 := 0], pool, [0] + list, held)
    {
      hide Consistent, FreeOk, ListOk;
      OutsidePool(ref, words, dirs, pool, pins, list, held, 0, if ref[0] == 0 then REF_LIMIT - 1 else ref[0] - 1);
      OutsidePool(ref, words, dirs, pool, pins, list, held, 0, 0);
    }

    /** Page 0 is freed by the 65536th stray removal and by none before. */
    lemma StraysLeft()
      requires Balanced()
      ensures ref[0] == 1 <==> (strays + 1) % REF_LIMIT == 0
      ensures 0 <= strays < REF_LIMIT - 1 ==> ref[0] != 1
    {
    }

    lemma NotListed(p: nat)
      requires Balanced() && p !in pool
      ensures p !in list
    {
    }

    lemma TablesAreNotKern(x: Slot)
      requires Balanced() && IsSlot(dirs, x)
      ensures x.dir != kern
      ensures At(words, x).Map? ==> At(words, x).page in pool - {0, kern} && At(words, x).page < npages
    {
      assert x.dir in pool;
    }

    /** Pages that may be mapped: allocated, and neither a directory nor a page table. */
    ghost predicate UserPage(p: nat)
      reads this
    {
      p in pool && p !in list && forall s | IsSlot(dirs, s) && !s.Pte? :: !Names(words, s, p)
    }

    /** page_insert once there is a table for `va` (pmap.c:552-558). */
    method ReplaceEntry(d: nat, p: nat, va: nat, perm: nat)
      requires Balanced() && d in dirs && va < UTOP_PAGE && p < npages
      requires p == 0 || (UserPage(p) && ref[p] < REF_LIMIT - 1)
      requires At(words, PdeOf(d, va)).Map?
      modifies this
      ensures Balanced() <==> p != 0 && Or(p, perm / 0x1000) == p
      ensures dirs == old(dirs) && pins == old(pins) && held == old(held) - {p}
      ensures OneChange(old(words), words, dirs, PteOf(d, va), NewEntry(p, perm))
      ensures OnlyTable(old(words), words, old(At(words, PdeOf(d, va))))
    {
      hide Consistent, ListOk, FreeOk, OneChange, OnlyTable, Names, Or, Present, NewEntry;
      ghost var x := PteOf(d, va);
      TableInRange(PdeOf(d, va));
      TablesAreNotKern(PdeOf(d, va));
      AddRef(p);
      var t := words[d][va / NPTENTRIES].page;
      if words[t][va % NPTENTRIES].Map? {
        PageRemove(d, va);
        if p != 0 {
          StillUser(old(words), words, dirs, x, Zero, p);
        }
        Emptied(old(words), words, dirs, x);
      }
      ghost var mid := words;
      StoreEntry(d, p, va, perm);
      assert pins == old(pins);
      Replaced(old(words), mid, words, dirs, x, NewEntry(p, perm));
      ThenOnly(old(words), mid, words, old(At(words, PdeOf(d, va))));
    }

    /** pp->pp_ref++ (pmap.c:552). */
    method AddRef(p: nat)
      requires Balanced() && p < npages && (p == 0 || (p in pool && p !in list && ref[p] < REF_LIMIT - 1))
      modifies `ref, `pins, `held, `strays
      ensures Balanced() && ref == old(ref)[p := (old(ref)[p] + 1) % REF_LIMIT]
      ensures pins == (if p == 0 then old(pins) else old(pins) + multiset{p}) && held == old(held) - {p}
    {
      hide Consistent, ListOk, FreeOk;
      if p == 0 {
        Page0Counts();
        strays := strays - 1;
      } else {
        Pin(ref, words, dirs, pool, pins, p);
        Count(ref, pool, list, held, p);
        pins, held := pins + multiset{p}, held - {p};
      }
      ref := ref[p := (ref[p] + 1) % REF_LIMIT];
    }

    /** The last statement of page_insert (pmap.c:558). */
    method StoreEntry(d: nat, p: nat, va: nat, perm: nat)
      requires Balanced() && d in dirs && va < UTOP_PAGE && At(words, PdeOf(d, va)).Map? && Translation(words, d, va) == Zero
      requires p == 0 || (p in pins && forall s | IsSlot(dirs, s) && !s.Pte? :: !Names(words, s, p))
      modifies `words, `pins
      ensures Balanced() <==> p != 0 && Or(p, perm / 0x1000) == p
      ensures pins == if p == 0 then old(pins) else old(pins) - multiset{p}
      ensures OneChange(old(words), words, dirs, PteOf(d, va), NewEntry(p, perm))
      ensures OnlyTable(old(words), words, old(At(words, PdeOf(d, va))))
    {
      hide Consistent, ListOk, FreeOk, OneChange, Names, Or, Present;
      TableInRange(PdeOf(d, va));
      TablesAreNotKern(PdeOf(d, va));
      var t := words[d][va / NPTENTRIES].page;
      if p == 0 {
        EnterStray(ref, words, dirs, pool, pins, PteOf(d, va), NewEntry(p, perm));
      } else {
        EnterPte(ref, words, dirs, pool, pins, PteOf(d, va), p, NewEntry(p, perm));
        pins := pins - multiset{p};
      }
      words := SetWord(words, t, va % NPTENTRIES, NewEntry(p, perm));
    }

    lemma Page0Counts()
      requires Balanced()
      ensures var r := ref[0 := (ref[0] + 1) % REF_LIMIT];
        && Consistent(r, words, dirs, pool, pins) && FreeOk(r, pool, list, held)
        && r[0] == -(strays - 1) % REF_LIMIT
      ensures 0 !in held
    {
      hide Consistent, ListOk;
      OutsidePool(ref, words, dirs, pool, pins, list, held, 0, (ref[0] + 1) % REF_LIMIT);
    }

    /** page_insert: on success exactly the entry for `va` is new, and the directory entry when it had
        none; whatever was mapped there has one reference less, and `p` one more. The entry names `p`
        unless `perm` brings other bits into the page number. */
    method PageInsert(d: nat, p: nat, va: nat, perm: nat) returns (ok: bool)
      requires Balanced() && d in dirs && va < UTOP_PAGE && p < npages
      requires p == 0 || (UserPage(p) && ref[p] < REF_LIMIT - 1)
      modifies this
      ensures Balanced() <==> !ok || (p != 0 && Or(p, perm / 0x1000) == p)
      ensures dirs == old(dirs) && pins == old(pins)
      ensures ok <==> old(At(words, PdeOf(d, va))).Map? || old(list) != []
      ensures !ok ==> words == old(words) && ref == old(ref) && list == old(list) && held == old(held)
      ensures ok ==> held == old(held) - {p}
      ensures ok ==> Inserted(old(words), words, dirs, PteOf(d, va), NewEntry(p, perm), if old(list) == [] then 0 else old(list)[0])
      ensures |words| == npages && (p != 0 ==> words[p] == old(words)[p])
    {
      hide Consistent, ListOk, FreeOk, OneChange, Inserted, Or, Present;
      assert p == 0 || (!Names(words, Dir(d), p) && !Names(words, PdeOf(d, va), p));
      ghost var table := if list == [] then 0 else list[0];
      var t := PgdirWalk(d, va, true);
      if t.None? {
        return false;
      }
      ghost var mid := words;
      if p != 0 && old(At(words, PdeOf(d, va))).Zero? {
        StillUser(old(words), words, dirs, PdeOf(d, va), Map(t.value, TABLE_PERM), p);
      }
      ReplaceEntry(d, p, va, perm);
      Insertion(old(words), mid, words, dirs, PteOf(d, va), NewEntry(p, perm), table);
      return true;
    }

    /** env_setup_vm. */
    method EnvSetupVm() returns (d: Option<nat>)
      requires Valid()
      modifies this
      ensures Valid() && held == old(held)
      ensures d == if old(list) == [] then None else Some(old(list)[0])
      ensures d.None? ==> dirs == old(dirs) && words == old(words)
      ensures d.Some? ==> d.value !in old(dirs) && dirs == old(dirs) + {d.value} && list == old(list)[1..]
      ensures d.Some? ==> forall va :: 0 <= va < UTOP_PAGE ==> Translation(words, d.value, va) == Zero
      ensures d.Some? ==> words[d.value][PDX_UTOP..] == old(words)[kern][PDX_UTOP..][PDX_UVPT - PDX_UTOP := Map(d.value, 5)]
      ensures forall s :: IsSlot(old(dirs), s) ==> At(words, s) == old(At(words, s))
    {
      hide Consistent, ListOk, FreeOk;
      d := PageAlloc(true);
      if d.None? {
        return;
      }
      var p := d.value;
      assert p < npages && p != kern && words[kern] == old(words)[kern];
      ghost var content := words[kern][PDX_UVPT := Map(p, 5)];
      EnterDir(ref, words, dirs, pool, pins, p, content);
      Use(ref, pool, list, held, p, 1);
      ghost var w1 := words;
      ref := ref[p := ref[p] + 1];
      words := words[p := words[kern]];
      words := SetWord(words, p, PDX_UVPT, Map(p, 5));
      assert words == w1[p := content];
      dirs, held := dirs + {p}, held - {p};
      forall va | 0 <= va < UTOP_PAGE
        ensures Translation(words, p, va) == Zero
      {
        assert IsSlot({p}, PteOf(p, va));
      }
    }

    /** env_free (env.c:443-466): the address space is gone, the others are as they were, and the pages
        that no other environment has are free. */
    method EnvFree(d: nat)
      requires Valid() && d in dirs
      modifies this
      ensures Valid() && dirs == old(dirs) - {d} && held == old(held)
      ensures forall s :: IsSlot(dirs, s) ==> At(words, s) == old(At(words, s))
      ensures forall p :: p in pool && p !in held ==>
        (p in list <==> forall s :: IsSlot(old(dirs), s) && old(Names(words, s, p)) ==> s.dir == d)
    {
      hide Consistent, ListOk, FreeOk, OneChange, Cleared;
      ghost var w0 := words;
      var pdeno := 0;
      InUse(d);
      StartClearing(d);
      while pdeno < PDX_UTOP
        invariant pdeno <= PDX_UTOP && Valid() && dirs == old(dirs) && held == old(held)
        invariant Cleared(w0, words, dirs, d, pdeno, 0)
      {
        TableInRange(Pde(d, pdeno));
        TablesAreNotKern(Pde(d, pdeno));
        if words[d][pdeno].Map? {
          ClearTable(w0, d, pdeno);
        } else {
          NextTable(w0, words, words, dirs, d, pdeno);
        }
        pdeno := pdeno + 1;
      }
      AllCleared(w0, words, dirs, d);
      LeaveDir(ref, words, dirs, pool, pins, d);
      Drop(ref, pool, list, held, d);
      dirs := dirs - {d};
      PageDecref(d);
      forall p | p in pool && p !in held
        ensures p in list <==> forall s :: IsSlot(old(dirs), s) && Names(w0, s, p) ==> s.dir == d
      {
        NobodyElse(ref, w0, words, old(dirs), pool, d, p);
        Listed(p);
      }
    }

    /** sys_page_alloc for an environment with directory `d`. */
    method SysPageAlloc(d: nat, va: nat, perm: nat) returns (r: SysResult)
      requires Valid() && d in dirs
      modifies this
      ensures Valid() && dirs == old(dirs) && held == old(held)
      ensures r.Inval? <==> !AllocPerm(perm) || va >= UTOP_PAGE
      ensures r.NoMem? <==> !r.Inval? && |old(list)| < (if old(At(words, PdeOf(d, va))).Zero? then 2 else 1)
      ensures r.Done? ==> words[old(list)[0]] == Zeroes() && Inserted(old(words), words, dirs, PteOf(d, va),
        Map(old(list)[0], Present(perm)), if |old(list)| < 2 then 0 else old(list)[1])
      ensures r.Done? ==> HasBits(Translation(words, d, va), perm) && Translation(words, d, va).page == old(list)[0]
      ensures !r.Done? ==> !r.Panicked? && forall s :: IsSlot(dirs, s) ==> At(words, s) == old(At(words, s))
    {
      hide Consistent, ListOk, FreeOk, OneChange, Inserted, Or, Present, NewEntry, Bit;
      if !AllocPerm(perm) || va >= UTOP_PAGE {
        return Inval;
      }
      var page := PageAlloc(true);
      if page.None? {
        return NoMem;
      }
      ghost var w1 := words;
      NewIsUser(page.value);
      LowPerm(page.value, perm);
      var ok := PageInsert(d, page.value, va, perm);
      if !ok {
        NewIsUser(page.value);
        GiveBack(ref, pool, list, held, page.value);
        Unlinked(head, link, list, page.value);
        var freed := PageFree(page.value);
        held := held - {page.value};
        return NoMem;
      }
      InsertedBits(w1, words, dirs, d, va, page.value, perm, if |old(list)| < 2 then 0 else old(list)[1]);
      ThenInserted(old(words), w1, words, dirs, PteOf(d, va), Map(page.value, Present(perm)), if |old(list)| < 2 then 0 else old(list)[1]);
      return Done;
    }

    lemma NewIsUser(p: nat)
      requires Balanced() && p in held
      ensures UserPage(p) && p < npages && ref[p] == 0
    {
      NoRefs(ref, words, dirs, pool, pins, p);
    }

    lemma MappedIsUser(x: Slot)
      requires Balanced() && IsSlot(dirs, x) && x.Pte? && At(words, x).Map?
      ensures UserPage(At(words, x).page) && At(words, x).page < npages && At(words, x).page !in held && ref[At(words, x).page] > 0
    {
      SomeRef(ref, words, dirs, pool, pins, x, At(words, x).page);
    }

    /** sys_page_map between the environments with directories `sd` and `dd`. It takes an empty entry of
        an existing table for a mapping of page 0, and permissions above the low twelve bits for more of
        the page number. When memory is short a page that is mapped is handed to page_free: the call does
        not return -E_NO_MEM, it panics, and exactly then. */
    method SysPageMap(sd: nat, sva: nat, dd: nat, dva: nat, perm: nat) returns (r: SysResult)
      requires Valid() && sd in dirs && dd in dirs
      requires sva < UTOP_PAGE && Translation(words, sd, sva).Map? ==> ref[Translation(words, sd, sva).page] < REF_LIMIT - 1
      modifies this
      ensures var may := old(MayMap(At(words, PdeOf(sd, sva)), Translation(words, sd, sva), perm));
        r.Inval? <==> sva >= UTOP_PAGE || dva >= UTOP_PAGE || !may
      ensures r.Done? <==> !r.Inval? && (old(At(words, PdeOf(dd, dva))).Map? || old(list) != [])
      ensures r.NoMem? <==> !r.Inval? && !r.Done? && old(Translation(words, sd, sva)).Zero? && old(ref)[0] == 0
      ensures var pte := old(Translation(words, sd, sva));
        Valid() <==> r.Inval? || r.Panicked? || (r.Done? && pte.Map? && Or(pte.page, perm / 0x1000) == pte.page)
      ensures dirs == old(dirs) && held == old(held) && (!r.Done? ==> words == old(words))
      ensures r.Done? ==> Inserted(old(words), words, dirs, PteOf(dd, dva),
        NewEntry(PageOf(old(Translation(words, sd, sva))), perm), if old(list) == [] then 0 else old(list)[0])
      ensures r.Done? ==> HasBits(Translation(words, dd, dva), perm)
      ensures r.Done? && Bit(Translation(words, dd, dva).perm, PTE_W) ==>
        old(Translation(words, sd, sva)).Map? && Bit(old(Translation(words, sd, sva)).perm, PTE_W)
    {
      hide Consistent, ListOk, FreeOk, OneChange, Inserted, Or, Present, NewEntry, Bit;
      if sva >= UTOP_PAGE || dva >= UTOP_PAGE {
        return Inval;
      }
      var page := PageLookup(sd, sva);
      if page.None? {
        return Inval;
      }
      TableInRange(PdeOf(sd, sva));
      var pte := words[words[sd][sva / NPTENTRIES].page][sva % NPTENTRIES];
      assert pte == Translation(words, sd, sva);
      if !Bit(perm, PTE_U) || !Bit(perm, PTE_P) || (!(pte.Map? && Bit(pte.perm, PTE_W)) && Bit(perm, PTE_W)) {
        return Inval;
      }
      if pte.Map? {
        MappedIsUser(PteOf(sd, sva));
      } else {
        Page0Listed();
      }
      var ok := PageInsert(dd, page.value, dva, perm);
      if !ok {
        Linked();
        Page0Listed();
        var freed := PageFree(page.value);
        return if freed then NoMem else Panicked;
      }
      InsertedBits(old(words), words, dirs, dd, dva, page.value, perm, if old(list) == [] then 0 else old(list)[0]);
      return Done;
    }

    lemma Page0Listed()
      requires Balanced()
      ensures 0 !in held && 0 !in list && link[0].None? && !FreeOk(ref, pool, [0] + list, held)
    {
      assert 0 in [0] + list;
    }

    lemma Linked()
      requires Balanced()
      ensures ListOk(head, link, list)
    {
    }

    /** sys_page_unmap: right exactly when page_remove is. */
    method SysPageUnmap(d: nat, va: nat) returns (r: SysResult)
      requires Valid() && d in dirs
      modifies this
      ensures r == if va < UTOP_PAGE then Done else Inval
      ensures Valid() <==> r.Inval? || old(At(words, PdeOf(d, va))).Zero? || old(Translation(words, d, va)).Map? || old(ref)[0] != 1
      ensures r.Done? && old(Translation(words, d, va)).Map? ==> OneChange(old(words), words, dirs, PteOf(d, va), Zero)
      ensures r.Inval? || old(Translation(words, d, va)).Zero? ==> words == old(words)
      ensures dirs == old(dirs) && held == old(held)
    {
      hide Consistent, ListOk, FreeOk, OneChange;
      if va >= UTOP_PAGE {
        return Inval;
      }
      var page := PageLookup(d, va);
      if page.None? {
        return Done;
      }
      PageRemove(d, va);
      return Done;
    }

    lemma InUse(d: nat)
      requires Balanced() && d in dirs
      ensures d in pool && d < npages && d != kern
    {
    }

    lemma StartClearing(d: nat)
      ensures Cleared(words, words, dirs, d, 0, 0)
    {
    }

    lemma Listed(p: nat)
      requires Balanced() && p in pool && p !in held
      ensures p in list <==> ref[p] == 0
    {
    }

    /** One turn of the outer loop (env.c:448-460): every mapping of one table, then the table. */
    method ClearTable(ghost w0: Words, d: nat, pdeno: nat)
      requires Valid() && d in dirs && pdeno < PDX_UTOP && At(words, Pde(d, pdeno)).Map?
      requires Cleared(w0, words, dirs, d, pdeno, 0)
      modifies `ref, `link, `head, `words, `list, `strays
      ensures Valid() && Cleared(w0, words, dirs, d, pdeno + 1, 0)
    {
      hide Consistent, ListOk, FreeOk, OneChange, Cleared;
      InUse(d);
      var x := Pde(d, pdeno);
      var t := words[d][pdeno].page;
      var pteno := 0;
      while pteno < NPTENTRIES
        invariant pteno <= NPTENTRIES && Valid()
        invariant At(words, x) == old(At(words, x))
        invariant Cleared(w0, words, dirs, d, pdeno, pteno)
      {
        ghost var mid := words;
        TableInRange(x);
        assert PteOf(d, pdeno * NPTENTRIES + pteno) == Pte(d, pdeno, pteno);
        if words[t][pteno].Map? {
          PageRemove(d, pdeno * NPTENTRIES + pteno);
        }
        NextEntry(w0, mid, words, dirs, d, pdeno, pteno);
        pteno := pteno + 1;
      }
      ghost var mid := words;
      TableEmpty(w0, words, dirs, d, pdeno);
      TableInRange(x);
      LeaveTable(ref, words, dirs, pool, pins, x);
      Drop(ref, pool, list, held, t);
      TablesAreNotKern(x);
      words := SetWord(words, d, pdeno, Zero);
      PageDecref(t);
      NextTable(w0, mid, words, dirs, d, pdeno);
    }
  }

  lemma TableEmpty(w0: Words, words: Words, dirs: set<nat>, d: nat, pdx: nat)
    requires Cleared(w0, words, dirs, d, pdx, NPTENTRIES) && d in dirs && pdx < PDX_UTOP
    ensures forall j: nat | j < NPTENTRIES :: At(words, Pte(d, pdx, j)) == Zero
  {
    assert forall j: nat | j < NPTENTRIES :: IsSlot(dirs, Pte(d, pdx, j));
  }

  lemma AllCleared(w0: Words, words: Words, dirs: set<nat>, d: nat)
    requires Cleared(w0, words, dirs, d, PDX_UTOP, 0)
    ensures forall s :: IsSlot(dirs, s) && s.dir == d && !s.Dir? ==> At(words, s) == Zero
    ensures forall s :: IsSlot(dirs, s) && s.dir != d ==> At(words, s) == At(w0, s)
  {
  }
}
