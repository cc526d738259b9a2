/**
 Pages, page tables and reference counts: the values that TPJOS/kern/pmap.c and the
 teardown of TPJOS/kern/env.c work on, the invariant that ties them together, and what
 one change of one word does to it.

 Physical pages are numbered. A page that serves as a page directory or a page table is
 its 1024 entries; the bytes of user pages are not part of this model.
 */
module Vm {
  import opened Options

  const NPTENTRIES: nat := 1024
  const PDX_UTOP: nat := 955       // PDX(UTOP)
  const PDX_UVPT: nat := 957       // PDX(UVPT)
  const TABLE_PERM: nat := 7       // PTE_P | PTE_W | PTE_U
  const REF_LIMIT: nat := 0x1_0000 // pp_ref is a uint16_t

  /** A directory or table entry: zero, or present (PTE_P is always in `perm`). */
  datatype Entry = Zero | Map(page: nat, perm: nat)

  type Words = seq<seq<Entry>>

  /** A place below UTOP that counts as a reference to a page. */
  datatype Slot = Dir(dir: nat) | Pde(dir: nat, pdx: nat) | Pte(dir: nat, pdx: nat, ptx: nat)

  predicate IsSlot(dirs: set<nat>, s: Slot) {
    s.dir in dirs && (!s.Dir? ==> s.pdx < PDX_UTOP) && (s.Pte? ==> s.ptx < NPTENTRIES)
  }

  ghost function Slots(dirs: set<nat>): (r: set<Slot>)
    ensures forall s :: s in r <==> IsSlot(dirs, s)
  {
    (set d | d in dirs :: Dir(d)) +
    (set d, i: nat | d in dirs && i < PDX_UTOP :: Pde(d, i)) +
    (set d, i: nat, j: nat | d in dirs && i < PDX_UTOP && j < NPTENTRIES :: Pte(d, i, j))
  }

  function Word(words: Words, page: nat, i: nat): Entry {
    if page < |words| && i < |words[page]| then words[page][i] else Zero
  }

  /** What the place holds. A page directory that an environment has is named by `env_pgdir`. */
  function At(words: Words, s: Slot): Entry {
    match s
    case Dir(d) => Map(d, 0)
    case Pde(d, i) => Word(words, d, i)
    case Pte(d, i, j) => if Word(words, d, i).Zero? then Zero else Word(words, Word(words, d, i).page, j)
  }

  predicate Names(words: Words, s: Slot, page: nat) {
    At(words, s).Map? && At(words, s).page == page
  }

  ghost function Refs(words: Words, dirs: set<nat>, page: nat): set<Slot> {
    set s | s in Slots(dirs) && Names(words, s, page)
  }

  // ------------------------------------------------------------------
  // The invariant
  // ------------------------------------------------------------------

  ghost predicate Shape(words: Words, npages: nat) {
    |words| == npages && forall p :: 0 <= p < npages ==> |words[p]| == NPTENTRIES
  }

  ghost predicate Named(words: Words, dirs: set<nat>, pool: set<nat>) {
    forall s :: IsSlot(dirs, s) && At(words, s).Map? ==> At(words, s).page in pool
  }

  /** A page that is a directory or a table is named from one place only. */
  ghost predicate Alone(words: Words, dirs: set<nat>) {
    forall s, s' | IsSlot(dirs, s) && IsSlot(dirs, s') && !s.Pte? && At(words, s).Map? && Names(words, s', At(words, s).page) ::
      s == s'
  }

  /** `pins` are the references that pp_ref counts and no place holds yet, or no longer holds. */
  ghost predicate Counted(ref: seq<nat>, words: Words, dirs: set<nat>, pool: set<nat>, pins: multiset<nat>) {
    && (forall p :: p in pool ==> p < |ref| && ref[p] == |Refs(words, dirs, p)| + pins[p])
    && (forall p :: p in pins ==> p in pool)
  }

  function Following(list: seq<nat>, k: nat): Option<nat> {
    if k + 1 < |list| then Some(list[k + 1]) else None
  }

  /** `list` is what page_free_list leads to. */
  ghost predicate ListOk(head: Option<nat>, link: seq<Option<nat>>, list: seq<nat>) {
    && head == (if list == [] then None else Some(list[0]))
    && (forall k :: 0 <= k < |list| ==> list[k] < |link|)
    && (forall k {:trigger link[list[k]]} :: 0 <= k < |list| ==> link[list[k]] == Following(list, k))
    && (forall k, l :: 0 <= k < l < |list| ==> list[k] != list[l])
    && (forall p :: 0 <= p < |link| && p !in list ==> link[p] == None)
  }

  /** The list holds the unreferenced pages, but for those that a caller has just allocated. */
  ghost predicate FreeOk(ref: seq<nat>, pool: set<nat>, list: seq<nat>, held: set<nat>) {
    && (forall p :: p in pool ==> p < |ref|)
    && (forall p :: p in list <==> p in pool && ref[p] == 0 && p !in held)
    && (forall p :: p in held ==> p in pool && ref[p] == 0)
  }

  // ------------------------------------------------------------------
  // One word at a time
  // ------------------------------------------------------------------

  /** A page that is neither directory nor table may hold anything. */
  lemma OtherPage(words: Words, dirs: set<nat>, t: nat, content: seq<Entry>)
    requires t < |words|
    requires forall s :: IsSlot(dirs, s) && !s.Pte? ==> !Names(words, s, t)
    ensures forall s :: IsSlot(dirs, s) ==> At(words[t := content], s) == At(words, s)
  {
    forall s | IsSlot(dirs, s)
      ensures At(words[t := content], s) == At(words, s)
    {
      assert !Names(words, Dir(s.dir), t);
      if s.Pte? {
        assert !Names(words, Pde(s.dir, s.pdx), t);
      }
    }
  }

  function SetWord(words: Words, page: nat, i: nat, e: Entry): Words
    requires page < |words| && i < |words[page]|
  {
    words[page := words[page][i := e]]
  }

  /** Because tables are not shared, a table entry belongs to one virtual page. */
  lemma SetPte(words: Words, dirs: set<nat>, x: Slot, e: Entry)
    requires Alone(words, dirs) && IsSlot(dirs, x) && x.Pte? && At(words, Pde(x.dir, x.pdx)).Map?
    requires var t := At(words, Pde(x.dir, x.pdx)).page; t < |words| && x.ptx < |words[t]|
    ensures var words' := SetWord(words, At(words, Pde(x.dir, x.pdx)).page, x.ptx, e);
      forall s :: IsSlot(dirs, s) ==> At(words', s) == if s == x then e else At(words, s)
  {
    var pde := Pde(x.dir, x.pdx);
    var t := At(words, pde).page;
    forall s | IsSlot(dirs, s)
      ensures At(SetWord(words, t, x.ptx, e), s) == if s == x then e else At(words, s)
    {
      assert IsSlot(dirs, Dir(s.dir)) && IsSlot(dirs, pde);
      assert s.dir != t by {
        assert At(words, Dir(s.dir)).page == s.dir;
      }
      if s.Pte? {
        assert IsSlot(dirs, Pde(s.dir, s.pdx));
        assert At(words, Pde(s.dir, s.pdx)) == Word(words, s.dir, s.pdx);
      }
    }
  }

  /** A directory entry changes nothing else as long as its table is empty. */
  lemma SetPde(words: Words, dirs: set<nat>, x: Slot, e: Entry)
    requires Alone(words, dirs) && IsSlot(dirs, x) && x.Pde? && x.dir < |words| && x.pdx < |words[x.dir]|
    requires forall j: nat | j < NPTENTRIES :: At(words, Pte(x.dir, x.pdx, j)) == Zero
    requires e.Map? ==> e.page != x.dir && forall j: nat | j < NPTENTRIES :: Word(words, e.page, j) == Zero
    requires forall s :: IsSlot(dirs, s) && s.Pde? ==> !Names(words, s, x.dir)
    ensures var words' := SetWord(words, x.dir, x.pdx, e);
      forall s :: IsSlot(dirs, s) ==> At(words', s) == if s == x then e else At(words, s)
  {
    forall s | IsSlot(dirs, s)
      ensures At(SetWord(words, x.dir, x.pdx, e), s) == if s == x then e else At(words, s)
    {
      if s.Pte? {
        assert !Names(words, Pde(s.dir, s.pdx), x.dir);
        if Pde(s.dir, s.pdx) == x {
          assert At(words, Pte(x.dir, x.pdx, s.ptx)) == Zero;
          assert e.Map? ==> Word(words, e.page, s.ptx) == Zero;
        }
      }
    }
  }

  /** `words'` differs from `words` in one place. */
  ghost predicate OneChange(words: Words, words': Words, dirs: set<nat>, x: Slot, e: Entry) {
    IsSlot(dirs, x) && forall s :: IsSlot(dirs, s) ==> At(words', s) == if s == x then e else At(words, s)
  }

  lemma ThenOneChange(words: Words, mid: Words, words': Words, dirs: set<nat>, x: Slot, e: Entry)
    requires forall s :: IsSlot(dirs, s) ==> At(mid, s) == At(words, s)
    requires OneChange(mid, words', dirs, x, e)
    ensures OneChange(words, words', dirs, x, e)
  {
  }

  /** Only the entry `x` is new, and its directory entry where there was none before. */
  ghost predicate Inserted(words: Words, words': Words, dirs: set<nat>, x: Slot, e: Entry, table: nat)
    requires x.Pte?
  {
    forall s :: IsSlot(dirs, s) ==>
      At(words', s) == if s == x then e
                       else if s == Pde(x.dir, x.pdx) && At(words, s).Zero? then Map(table, TABLE_PERM)
                       else At(words, s)
  }

  lemma Insertion(words: Words, w1: Words, words': Words, dirs: set<nat>, x: Slot, e: Entry, table: nat)
    requires IsSlot(dirs, x) && x.Pte?
    requires var pde := Pde(x.dir, x.pdx);
      if At(words, pde).Map? then w1 == words else OneChange(words, w1, dirs, pde, Map(table, TABLE_PERM))
    requires OneChange(w1, words', dirs, x, e)
    ensures Inserted(words, words', dirs, x, e, table)
  {
    assert IsSlot(dirs, Pde(x.dir, x.pdx));
  }

  lemma ThenInserted(words: Words, mid: Words, words': Words, dirs: set<nat>, x: Slot, e: Entry, table: nat)
    requires forall s :: IsSlot(dirs, s) ==> At(mid, s) == At(words, s)
    requires x.Pte? && Inserted(mid, words', dirs, x, e, table)
    ensures Inserted(words, words', dirs, x, e, table)
  {
  }

  lemma Replaced(words: Words, mid: Words, words': Words, dirs: set<nat>, x: Slot, e: Entry)
    requires mid == words || OneChange(words, mid, dirs, x, Zero)
    requires OneChange(mid, words', dirs, x, e)
    ensures OneChange(words, words', dirs, x, e)
  {
  }

  lemma Emptied(words: Words, words': Words, dirs: set<nat>, x: Slot)
    requires OneChange(words, words', dirs, x, Zero)
    ensures At(words', x) == Zero
    ensures x.Pte? ==> At(words', Pde(x.dir, x.pdx)) == At(words, Pde(x.dir, x.pdx))
  {
    assert x.Pte? ==> IsSlot(dirs, Pde(x.dir, x.pdx));
  }

  lemma StillUser(words: Words, words': Words, dirs: set<nat>, x: Slot, e: Entry, p: nat)
    requires forall s | IsSlot(dirs, s) && !s.Pte? :: !Names(words, s, p)
    requires OneChange(words, words', dirs, x, e) && (x.Pte? || e.Zero? || e.page != p)
    ensures forall s | IsSlot(dirs, s) && !s.Pte? :: !Names(words', s, p)
    ensures At(words', x) == e
    ensures x.Pte? ==> At(words', Pde(x.dir, x.pdx)) == At(words, Pde(x.dir, x.pdx))
  {
    assert x.Pte? ==> IsSlot(dirs, Pde(x.dir, x.pdx));
  }

  lemma RefsChange(words: Words, words': Words, dirs: set<nat>, x: Slot, e: Entry, page: nat)
    requires OneChange(words, words', dirs, x, e)
    ensures Refs(words', dirs, page) ==
      if e.Map? && e.page == page then Refs(words, dirs, page) + {x} else Refs(words, dirs, page) - {x}
    ensures |Refs(words', dirs, page)| == |Refs(words, dirs, page)|
      - (if Names(words, x, page) then 1 else 0) + (if e.Map? && e.page == page then 1 else 0)
  {
    assert Refs(words', dirs, page) ==
      if e.Map? && e.page == page then Refs(words, dirs, page) + {x} else Refs(words, dirs, page) - {x};
    assert x in Refs(words, dirs, page) <==> Names(words, x, page);
  }

  lemma SameRefs(words: Words, words': Words, dirs: set<nat>, page: nat)
    requires forall s :: IsSlot(dirs, s) ==> At(words', s) == At(words, s)
    ensures Refs(words', dirs, page) == Refs(words, dirs, page)
  {
  }

  /** Leaving a place out of Alone and Named and filling it again. */
  lemma AloneChange(words: Words, words': Words, dirs: set<nat>, pool: set<nat>, x: Slot, e: Entry)
    requires Alone(words, dirs) && Named(words, dirs, pool) && OneChange(words, words', dirs, x, e)
    requires e.Map? ==> e.page in pool
    requires e.Map? ==> forall s | IsSlot(dirs, s) && (!s.Pte? || !x.Pte?) :: !Names(words, s, e.page)
    ensures Alone(words', dirs) && Named(words', dirs, pool)
  {
    forall s, s' | IsSlot(dirs, s) && IsSlot(dirs, s') && !s.Pte? && At(words', s).Map? && Names(words', s', At(words', s).page)
      ensures s == s'
    {
      assert At(words', s) == if s == x then e else At(words, s);
      assert At(words', s') == if s' == x then e else At(words, s');
      if e.Map? {
        assert !s'.Pte? || !x.Pte? ==> !Names(words, s', e.page);
        assert !Names(words, s, e.page);
      }
    }
  }

  lemma CountedChange(ref: seq<nat>, ref': seq<nat>, words: Words, words': Words, dirs: set<nat>, pool: set<nat>,
                      pins: multiset<nat>, pins': multiset<nat>, x: Slot, e: Entry)
    requires Counted(ref, words, dirs, pool, pins) && OneChange(words, words', dirs, x, e)
    requires |ref'| == |ref| && forall p :: p in pins' ==> p in pool
    requires forall p :: p in pool ==>
      ref'[p] + pins[p] + (if Names(words, x, p) then 1 else 0) == ref[p] + pins'[p] + (if e.Map? && e.page == p then 1 else 0)
    ensures Counted(ref', words', dirs, pool, pins')
  {
    forall p | p in pool
      ensures ref'[p] == |Refs(words', dirs, p)| + pins'[p]
    {
      RefsChange(words, words', dirs, x, e, p);
    }
  }

  lemma NoRefs(ref: seq<nat>, words: Words, dirs: set<nat>, pool: set<nat>, pins: multiset<nat>, p: nat)
    requires Counted(ref, words, dirs, pool, pins) && p in pool && ref[p] == 0
    ensures Refs(words, dirs, p) == {}
    ensures forall s :: IsSlot(dirs, s) ==> !Names(words, s, p)
  {
    assert |Refs(words, dirs, p)| == 0;
    forall s | IsSlot(dirs, s)
      ensures !Names(words, s, p)
    {
      assert s !in Refs(words, dirs, p);
    }
  }

  lemma SomeRef(ref: seq<nat>, words: Words, dirs: set<nat>, pool: set<nat>, pins: multiset<nat>, s: Slot, p: nat)
    requires Counted(ref, words, dirs, pool, pins) && p in pool && IsSlot(dirs, s) && Names(words, s, p)
    ensures ref[p] > 0
  {
    assert s in Refs(words, dirs, p);
  }

  /** A directory or table in use has exactly one reference. */
  lemma StructureHasOneRef(ref: seq<nat>, words: Words, dirs: set<nat>, pool: set<nat>, s: Slot)
    requires Counted(ref, words, dirs, pool, multiset{}) && Alone(words, dirs) && Named(words, dirs, pool)
    requires IsSlot(dirs, s) && !s.Pte? && At(words, s).Map?
    ensures Refs(words, dirs, At(words, s).page) == {s} && ref[At(words, s).page] == 1
  {
    assert Refs(words, dirs, At(words, s).page) == {s};
  }

  lemma NothingChanges(words: Words, words': Words, dirs: set<nat>, pool: set<nat>)
    requires forall s :: IsSlot(dirs, s) ==> At(words', s) == At(words, s)
    ensures Alone(words, dirs) ==> Alone(words', dirs)
    ensures Named(words, dirs, pool) ==> Named(words', dirs, pool)
    ensures forall ref, pins :: Counted(ref, words, dirs, pool, pins) ==> Counted(ref, words', dirs, pool, pins)
  {
    forall p {
      SameRefs(words, words', dirs, p);
    }
  }

  /** A directory in which nothing is left below UTOP comes and goes with one reference, its own. */
  lemma LoneDir(words: Words, dirs: set<nat>, d: nat, p: nat)
    requires d in dirs && forall s :: IsSlot(dirs, s) && s.dir == d && !s.Dir? ==> At(words, s) == Zero
    ensures Refs(words, dirs, p) == Refs(words, dirs - {d}, p) + (if p == d then {Dir(d)} else {})
    ensures |Refs(words, dirs, p)| == |Refs(words, dirs - {d}, p)| + (if p == d then 1 else 0)
  {
    var all, rest := Refs(words, dirs, p), Refs(words, dirs - {d}, p);
    assert Dir(d) !in rest && (Dir(d) in all <==> p == d);
    forall s | s != Dir(d)
      ensures s in all <==> s in rest
    {
      assert IsSlot(dirs, s) && s.dir == d ==> At(words, s) == Zero;
    }
    assert all == rest + (if p == d then {Dir(d)} else {});
  }

  // ------------------------------------------------------------------
  // The list
  // ------------------------------------------------------------------

  lemma Pop(head: Option<nat>, link: seq<Option<nat>>, list: seq<nat>)
    requires ListOk(head, link, list) && list != []
    ensures ListOk(link[list[0]], link[list[0] := None], list[1..])
  {
    var rest := list[1..];
    assert forall k :: 0 <= k < |rest| ==> rest[k] == list[k + 1] && rest[k] != list[0];
    assert forall p :: p in list <==> p == list[0] || p in rest;
  }

  lemma Push(head: Option<nat>, link: seq<Option<nat>>, list: seq<nat>, p: nat)
    requires ListOk(head, link, list) && p < |link| && p !in list
    ensures ListOk(Some(p), link[p := head], [p] + list)
  {
    var more, link' := [p] + list, link[p := head];
    forall k | 0 <= k < |more|
      ensures more[k] < |link'| && link'[more[k]] == Following(more, k)
      ensures forall l :: k < l < |more| ==> more[k] != more[l]
    {
      if k > 0 {
        assert more[k] == list[k - 1] && link[list[k - 1]] == Following(list, k - 1);
        assert Following(list, k - 1) == Following(more, k);
      }
      forall l | k < l < |more|
        ensures more[k] != more[l]
      {
        assert more[l] == list[l - 1];
      }
    }
  }

  lemma Unlinked(head: Option<nat>, link: seq<Option<nat>>, list: seq<nat>, p: nat)
    requires ListOk(head, link, list) && p < |link| && p !in list
    ensures link[p].None?
  {
  }

  lemma Use(ref: seq<nat>, pool: set<nat>, list: seq<nat>, held: set<nat>, p: nat, n: nat)
    requires FreeOk(ref, pool, list, held) && p in held && n > 0
    ensures FreeOk(ref[p := n], pool, list, held - {p})
  {
  }

  lemma Count(ref: seq<nat>, pool: set<nat>, list: seq<nat>, held: set<nat>, p: nat)
    requires FreeOk(ref, pool, list, held) && p in pool && p !in list
    ensures FreeOk(ref[p := ref[p] + 1], pool, list, held - {p})
  {
  }

  lemma GiveBack(ref: seq<nat>, pool: set<nat>, list: seq<nat>, held: set<nat>, p: nat)
    requires FreeOk(ref, pool, list, held) && p in held
    ensures p !in list && ref[p] == 0 && FreeOk(ref, pool, [p] + list, held - {p})
  {
    assert forall q :: q in [p] + list <==> q == p || q in list;
  }

  lemma Take(ref: seq<nat>, pool: set<nat>, head: Option<nat>, link: seq<Option<nat>>, list: seq<nat>, held: set<nat>)
    requires FreeOk(ref, pool, list, held) && ListOk(head, link, list) && list != []
    ensures FreeOk(ref, pool, list[1..], held + {list[0]})
    ensures list[0] in pool && list[0] !in held && ref[list[0]] == 0
  {
    assert list[0] in list;
    assert forall q :: q in list <==> q == list[0] || q in list[1..];
    assert list[0] !in list[1..];
  }

  lemma Drop(ref: seq<nat>, pool: set<nat>, list: seq<nat>, held: set<nat>, p: nat)
    requires FreeOk(ref, pool, list, held) && p in pool && ref[p] > 0
    ensures FreeOk(ref[p := ref[p] - 1], pool, if ref[p] == 1 then [p] + list else list, held) && p !in list
  {
    assert forall q :: q in [p] + list <==> q == p || q in list;
  }

  /** page_free notices a second free of a page by its link, which the last page on the list does not
      have. For that page nothing is noticed and page_free_list runs in a circle. */
  lemma DoubleFreeSlips(head: Option<nat>, link: seq<Option<nat>>, list: seq<nat>, p: nat, list': seq<nat>)
    requires ListOk(head, link, list) && p in list
    ensures link[p] == None <==> p == list[|list| - 1]
    ensures link[p] == None ==> !ListOk(Some(p), link[p := head], list')
  {
    var k :| 0 <= k < |list| && list[k] == p;
    assert link[list[k]] == Following(list, k);
    if link[p] == None && ListOk(Some(p), link[p := head], list') {
      Circle(head, link, list, p, list', |list'| - 1);
    }
  }

  lemma NoListLeft(head: Option<nat>, link: seq<Option<nat>>, list: seq<nat>, p: nat, link': seq<Option<nat>>)
    requires ListOk(head, link, list) && p in list && link[p].None? && link' == link[p := head]
    ensures forall l :: !ListOk(Some(p), link', l)
  {
    forall l: seq<nat>
      ensures !ListOk(Some(p), link', l)
    {
      DoubleFreeSlips(head, link, list, p, l);
    }
  }

  lemma {:induction false} Circle(head: Option<nat>, link: seq<Option<nat>>, list: seq<nat>, p: nat, list': seq<nat>, n: nat)
    requires ListOk(head, link, list) && list != [] && p == list[|list| - 1]
    requires ListOk(Some(p), link[p := head], list') && n < |list'|
    ensures list'[n] in list && link[p := head][list'[n]].Some?
  {
    if n > 0 {
      Circle(head, link, list, p, list', n - 1);
      assert link[p := head][list'[n - 1]] == Some(list'[n]);
      var l :| 0 <= l < |list| && list[l] == list'[n - 1];
      assert list'[n] == if l == |list| - 1 then list[0] else list[l + 1];
    }
    var k :| 0 <= k < |list| && list[k] == list'[n];
  }

  // ------------------------------------------------------------------
  // What the operations do to the invariant
  // ------------------------------------------------------------------

  ghost predicate Consistent(ref: seq<nat>, words: Words, dirs: set<nat>, pool: set<nat>, pins: multiset<nat>) {
    && Named(words, dirs, pool) && Alone(words, dirs) && Counted(ref, words, dirs, pool, pins)
    && forall s :: IsSlot(dirs, s) && !s.Pte? && At(words, s).Map? ==> At(words, s).page < |words|
  }

  /** The count of a page that is not handed out is no part of it. */
  lemma OutsidePool(ref: seq<nat>, words: Words, dirs: set<nat>, pool: set<nat>, pins: multiset<nat>, list: seq<nat>, held: set<nat>,
                    p: nat, n: nat)
    requires p < |ref| && p !in pool && Consistent(ref, words, dirs, pool, pins) && FreeOk(ref, pool, list, held)
    ensures Consistent(ref[p := n], words, dirs, pool, pins) && FreeOk(ref[p := n], pool, list, held)
    ensures !FreeOk(ref[p := n], pool, [p] + list, held)
  {
    assert p in [p] + list;
  }

  /** An unreferenced page may be given any content. */
  lemma FillUnreferenced(ref: seq<nat>, words: Words, dirs: set<nat>, pool: set<nat>, pins: multiset<nat>, p: nat, content: seq<Entry>)
    requires Consistent(ref, words, dirs, pool, pins) && p in pool && ref[p] == 0 && p < |words|
    ensures Consistent(ref, words[p := content], dirs, pool, pins)
    ensures forall s :: IsSlot(dirs, s) ==> At(words[p := content], s) == At(words, s) && !Names(words, s, p)
  {
    NoRefs(ref, words, dirs, pool, pins, p);
    OtherPage(words, dirs, p, content);
    NothingChanges(words, words[p := content], dirs, pool);
  }

  /** A zeroed unreferenced page becomes a page table. */
  lemma EnterTable(ref: seq<nat>, words: Words, dirs: set<nat>, pool: set<nat>, pins: multiset<nat>, x: Slot, t: nat)
    requires Consistent(ref, words, dirs, pool, pins) && t in pool && ref[t] == 0 && t < |words|
    requires IsSlot(dirs, x) && x.Pde? && At(words, x) == Zero && x.dir < |words| && x.pdx < |words[x.dir]|
    requires forall j: nat | j < NPTENTRIES :: Word(words, t, j) == Zero
    ensures var words' := SetWord(words, x.dir, x.pdx, Map(t, TABLE_PERM));
      OneChange(words, words', dirs, x, Map(t, TABLE_PERM)) && Consistent(ref[t := 1], words', dirs, pool, pins)
  {
    var e := Map(t, TABLE_PERM);
    var words' := SetWord(words, x.dir, x.pdx, e);
    NoRefs(ref, words, dirs, pool, pins, t);
    assert IsSlot(dirs, Dir(x.dir)) && Names(words, Dir(x.dir), x.dir) && !Names(words, Dir(x.dir), t);
    SetPde(words, dirs, x, e);
    AloneChange(words, words', dirs, pool, x, e);
    CountedChange(ref, ref[t := 1], words, words', dirs, pool, pins, pins, x, e);
  }

  lemma Pin(ref: seq<nat>, words: Words, dirs: set<nat>, pool: set<nat>, pins: multiset<nat>, p: nat)
    requires Consistent(ref, words, dirs, pool, pins) && p in pool
    ensures Consistent(ref[p := ref[p] + 1], words, dirs, pool, pins + multiset{p})
  {
  }

  /** A table entry is cleared and its page loses a reference. */
  lemma LeavePte(ref: seq<nat>, words: Words, dirs: set<nat>, pool: set<nat>, pins: multiset<nat>, x: Slot)
    requires Consistent(ref, words, dirs, pool, pins) && Shape(words, |words|) && IsSlot(dirs, x) && x.Pte? && At(words, x).Map?
    ensures At(words, Pde(x.dir, x.pdx)).Map? && At(words, Pde(x.dir, x.pdx)).page < |words|
    ensures var p, words' := At(words, x).page, SetWord(words, At(words, Pde(x.dir, x.pdx)).page, x.ptx, Zero);
      && p in pool && ref[p] > 0
      && OneChange(words, words', dirs, x, Zero) && Consistent(ref[p := ref[p] - 1], words', dirs, pool, pins)
  {
    assert IsSlot(dirs, Pde(x.dir, x.pdx));
    var p, words' := At(words, x).page, SetWord(words, At(words, Pde(x.dir, x.pdx)).page, x.ptx, Zero);
    SomeRef(ref, words, dirs, pool, pins, x, p);
    SetPte(words, dirs, x, Zero);
    AloneChange(words, words', dirs, pool, x, Zero);
    CountedChange(ref, ref[p := ref[p] - 1], words, words', dirs, pool, pins, pins, x, Zero);
  }

  /** A reference that is already counted is written into a table; `e` may name another page. */
  lemma EnterPte(ref: seq<nat>, words: Words, dirs: set<nat>, pool: set<nat>, pins: multiset<nat>, x: Slot, p: nat, e: Entry)
    requires Consistent(ref, words, dirs, pool, pins) && Shape(words, |words|) && IsSlot(dirs, x) && x.Pte?
    requires At(words, Pde(x.dir, x.pdx)).Map? && At(words, x) == Zero && p in pins && e.Map?
    requires forall s | IsSlot(dirs, s) && !s.Pte? :: !Names(words, s, p)
    ensures At(words, Pde(x.dir, x.pdx)).page < |words|
    ensures var words' := SetWord(words, At(words, Pde(x.dir, x.pdx)).page, x.ptx, e);
      && OneChange(words, words', dirs, x, e)
      && (Consistent(ref, words', dirs, pool, pins - multiset{p}) <==> e.page == p)
  {
    assert IsSlot(dirs, Pde(x.dir, x.pdx));
    var words' := SetWord(words, At(words, Pde(x.dir, x.pdx)).page, x.ptx, e);
    SetPte(words, dirs, x, e);
    if e.page == p {
      AloneChange(words, words', dirs, pool, x, e);
      CountedChange(ref, ref, words, words', dirs, pool, pins, pins - multiset{p}, x, e);
    } else {
      Miscounted(ref, words, words', dirs, pool, pins, pins - multiset{p}, x, e);
    }
  }

  /** The same for page 0, which no entry may name. */
  lemma EnterStray(ref: seq<nat>, words: Words, dirs: set<nat>, pool: set<nat>, pins: multiset<nat>, x: Slot, e: Entry)
    requires Consistent(ref, words, dirs, pool, pins) && Shape(words, |words|) && IsSlot(dirs, x) && x.Pte?
    requires At(words, Pde(x.dir, x.pdx)).Map? && At(words, x) == Zero && e.Map?
    ensures At(words, Pde(x.dir, x.pdx)).page < |words|
    ensures var words' := SetWord(words, At(words, Pde(x.dir, x.pdx)).page, x.ptx, e);
      OneChange(words, words', dirs, x, e) && !Consistent(ref, words', dirs, pool, pins)
  {
    assert IsSlot(dirs, Pde(x.dir, x.pdx));
    SetPte(words, dirs, x, e);
    Miscounted(ref, words, SetWord(words, At(words, Pde(x.dir, x.pdx)).page, x.ptx, e), dirs, pool, pins, pins, x, e);
  }

  /** An entry that names a page whose count was not raised ends the invariant. */
  lemma Miscounted(ref: seq<nat>, words: Words, words': Words, dirs: set<nat>, pool: set<nat>,
                   pins: multiset<nat>, pins': multiset<nat>, x: Slot, e: Entry)
    requires Consistent(ref, words, dirs, pool, pins) && OneChange(words, words', dirs, x, e)
    requires At(words, x) == Zero && e.Map? && pins'[e.page] == pins[e.page]
    ensures !Consistent(ref, words', dirs, pool, pins')
  {
    assert At(words', x) == e;
    if e.page in pool {
      RefsChange(words, words', dirs, x, e, e.page);
    }
  }

  /** A page table in which nothing is left loses its one reference. */
  lemma LeaveTable(ref: seq<nat>, words: Words, dirs: set<nat>, pool: set<nat>, pins: multiset<nat>, x: Slot)
    requires Consistent(ref, words, dirs, pool, pins) && IsSlot(dirs, x) && x.Pde? && At(words, x).Map?
    requires x.dir < |words| && x.pdx < |words[x.dir]|
    requires forall j: nat | j < NPTENTRIES :: At(words, Pte(x.dir, x.pdx, j)) == Zero
    ensures var t, words' := At(words, x).page, SetWord(words, x.dir, x.pdx, Zero);
      && t in pool && ref[t] == 1 + pins[t]
      && OneChange(words, words', dirs, x, Zero) && Consistent(ref[t := ref[t] - 1], words', dirs, pool, pins)
  {
    var t, words' := At(words, x).page, SetWord(words, x.dir, x.pdx, Zero);
    assert Refs(words, dirs, t) == {x};
    assert IsSlot(dirs, Dir(x.dir)) && Names(words, Dir(x.dir), x.dir);
    SetPde(words, dirs, x, Zero);
    AloneChange(words, words', dirs, pool, x, Zero);
    CountedChange(ref, ref[t := ref[t] - 1], words, words', dirs, pool, pins, pins, x, Zero);
  }

  /** An unreferenced page becomes a directory with an empty lower half. */
  lemma EnterDir(ref: seq<nat>, words: Words, dirs: set<nat>, pool: set<nat>, pins: multiset<nat>, d: nat, content: seq<Entry>)
    requires Consistent(ref, words, dirs, pool, pins) && d in pool && ref[d] == 0 && d < |words|
    requires |content| == NPTENTRIES && forall i :: 0 <= i < PDX_UTOP ==> content[i] == Zero
    ensures d !in dirs && Consistent(ref[d := 1], words[d := content], dirs + {d}, pool, pins)
    ensures forall s :: IsSlot(dirs, s) ==> At(words[d := content], s) == At(words, s)
    ensures forall s :: IsSlot({d}, s) && !s.Dir? ==> At(words[d := content], s) == Zero
  {
    hide Refs;
    var words', dirs' := words[d := content], dirs + {d};
    FillUnreferenced(ref, words, dirs, pool, pins, d, content);
    assert d !in dirs by {
      assert d in dirs ==> Names(words, Dir(d), d);
    }
    assert dirs' - {d} == dirs;
    forall s | IsSlot(dirs', s)
      ensures s.dir == d && !s.Dir? ==> At(words', s) == Zero
      ensures s.dir != d ==> IsSlot(dirs, s) && At(words', s) == At(words, s) && !Names(words', s, d)
    {
    }
    forall p | p in pool
      ensures ref[d := 1][p] == |Refs(words', dirs', p)| + pins[p]
    {
      LoneDir(words', dirs', d, p);
    }
  }

  /** A directory in which nothing is left loses its one reference. */
  lemma LeaveDir(ref: seq<nat>, words: Words, dirs: set<nat>, pool: set<nat>, pins: multiset<nat>, d: nat)
    requires Consistent(ref, words, dirs, pool, pins) && d in dirs
    requires forall s :: IsSlot(dirs, s) && s.dir == d && !s.Dir? ==> At(words, s) == Zero
    ensures d in pool && ref[d] == 1 + pins[d] && Consistent(ref[d := ref[d] - 1], words, dirs - {d}, pool, pins)
  {
    assert IsSlot(dirs, Dir(d)) && At(words, Dir(d)) == Map(d, 0);
    assert Refs(words, dirs, d) == {Dir(d)};
    var dirs' := dirs - {d};
    assert forall s :: IsSlot(dirs', s) ==> IsSlot(dirs, s);
    assert Named(words, dirs', pool) && Alone(words, dirs');
    forall p | p in pool
      ensures ref[d := ref[d] - 1][p] == |Refs(words, dirs - {d}, p)| + pins[p]
    {
      LoneDir(words, dirs, d, p);
    }
  }

  // ------------------------------------------------------------------
  // Teardown
  // ------------------------------------------------------------------

  predicate Before(s: Slot, d: nat, pdx: nat, ptx: nat) {
    s.dir == d && !s.Dir? && (s.pdx < pdx || (s.pdx == pdx && s.Pte? && s.ptx < ptx))
  }

  /** The entries of `d` before (pdx, ptx) are cleared and nothing else is changed. */
  ghost predicate Cleared(words: Words, words': Words, dirs: set<nat>, d: nat, pdx: nat, ptx: nat) {
    forall s :: IsSlot(dirs, s) ==> At(words', s) == if Before(s, d, pdx, ptx) then Zero else At(words, s)
  }

  lemma NextEntry(words: Words, mid: Words, words': Words, dirs: set<nat>, d: nat, pdx: nat, ptx: nat)
    requires Cleared(words, mid, dirs, d, pdx, ptx) && d in dirs && pdx < PDX_UTOP && ptx < NPTENTRIES
    requires if At(mid, Pte(d, pdx, ptx)).Map? then OneChange(mid, words', dirs, Pte(d, pdx, ptx), Zero) else words' == mid
    ensures Cleared(words, words', dirs, d, pdx, ptx + 1)
    ensures At(words', Pde(d, pdx)) == At(mid, Pde(d, pdx))
  {
    assert IsSlot(dirs, Pde(d, pdx)) && IsSlot(dirs, Pte(d, pdx, ptx));
    forall s | IsSlot(dirs, s)
      ensures At(words', s) == if Before(s, d, pdx, ptx + 1) then Zero else At(words, s)
    {
      assert Before(s, d, pdx, ptx + 1) <==> Before(s, d, pdx, ptx) || s == Pte(d, pdx, ptx);
    }
  }

  lemma NextTable(words: Words, mid: Words, words': Words, dirs: set<nat>, d: nat, pdx: nat)
    requires d in dirs && pdx < PDX_UTOP
    requires if At(mid, Pde(d, pdx)).Map? then Cleared(words, mid, dirs, d, pdx, NPTENTRIES) && OneChange(mid, words', dirs, Pde(d, pdx), Zero)
             else Cleared(words, mid, dirs, d, pdx, 0) && words' == mid
    ensures Cleared(words, words', dirs, d, pdx + 1, 0)
  {
    assert IsSlot(dirs, Pde(d, pdx));
    forall s | IsSlot(dirs, s)
      ensures At(words', s) == if Before(s, d, pdx + 1, 0) then Zero else At(words, s)
    {
      assert Before(s, d, pdx + 1, 0) <==> Before(s, d, pdx, NPTENTRIES) || s == Pde(d, pdx);
    }
  }

  /** Once `d` is gone, the unreferenced pages are those that nobody else had. */
  lemma NobodyElse(ref: seq<nat>, words: Words, words': Words, dirs: set<nat>, pool: set<nat>, d: nat, p: nat)
    requires Consistent(ref, words', dirs - {d}, pool, multiset{}) && p in pool
    requires forall s :: IsSlot(dirs - {d}, s) ==> At(words', s) == At(words, s)
    ensures ref[p] == 0 <==> forall s :: IsSlot(dirs, s) && Names(words, s, p) ==> s.dir == d
  {
    var refs := Refs(words', dirs - {d}, p);
    if s :| IsSlot(dirs, s) && Names(words, s, p) && s.dir != d {
      assert IsSlot(dirs - {d}, s) && s in refs;
    } else {
      assert forall s :: IsSlot(dirs - {d}, s) ==> IsSlot(dirs, s);
      assert refs == {};
    }
  }
}
