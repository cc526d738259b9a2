/**
 The loops of fork.c without interleaving: `fork`, a run of the copy-on-write
 machine, and the eager `fork_v0` beside it. Both leave the child the same bytes.
 */
module CowForkLoops {
  import opened CowFork
  import opened CowForkInvariant
  import opened CowForkRefinement
  import opened CowForkRights

  const UTEMP: nat := 0x400     // page number of UTEMP
  const NPDE: nat := 955        // PDX(UTOP)
  const NPTE: nat := 1024       // NPTENTRIES

  /** The child's pages below `next` are the parent's, and nobody else's view has changed. */
  ghost predicate CopiedBelow(view: map<Va, Cell>, view': map<Va, Cell>, e: Env, c: Env, next: nat) {
    && (forall k: Va :: k.env != c ==> (k in view' <==> k in view) && (k in view ==> view'[k] == view[k]))
    && (forall v: nat :: Va(c, v) in view' <==> v < next && v != UXSTACK && Va(e, v) in view)
    && (forall v: nat :: Va(c, v) in view' ==> view'[Va(c, v)] == view[Va(e, v)])
  }

  lemma VisibleHere(s: State, e: Env)
    requires Inv(s) && InScan(s, e)
    ensures Here(s.fork, e) in s.pt <==> Here(s.fork, e) in Meaning(s).view
  {
    OneInflight(s, e);
  }

  /** The entries: the child's pages below `next` and the parent's are the parent's before, protected; all
      other entries, and above the scan the parent's own, are as they were. */
  ghost predicate ProtectedBelow(pt: map<Va, Pte>, pt': map<Va, Pte>, e: Env, c: Env, next: nat) {
    && e != c && (forall k: Va :: k.env != c ==> (k in pt' <==> k in pt))
    && (forall k: Va :: k.env != c && k.env != e && k in pt ==> pt'[k] == pt[k])
    && (forall v: nat :: Va(e, v) in pt ==>
          if v < next && v != UXSTACK then SamePage(pt[Va(e, v)], pt'[Va(e, v)]) else pt'[Va(e, v)] == pt[Va(e, v)])
    && (forall v: nat :: Va(c, v) in pt' && v != UXSTACK ==>
          v < next && Va(e, v) in pt && SamePage(pt[Va(e, v)], pt'[Va(c, v)]))
  }

  predicate SamePage(p: Pte, q: Pte) {
    q.page == p.page && Protects(p, q)
  }

  /** What one round of the scan does: the child gets the parent's page, if there is one to give. */
  ghost predicate Round(s: State, s': State, e: Env)
    requires Inv(s) && InScan(s, e)
  {
    && Inv(s') && InScan(s', e) && s'.runnable == s.runnable
    && ForkOf(s'.fork, e) == Scanning(ForkOf(s.fork, e).child, ForkOf(s.fork, e).next + 1)
    && (forall page :: Unused(s.pt, page) ==> Unused(s'.pt, page))
    && var f, t, view := Here(s.fork, e), There(s.fork, e), Meaning(s).view;
       && Meaning(s').view == (if f.vpn == UXSTACK || f !in view then view else view[t := view[f]])
       && if f.vpn == UXSTACK || f !in s.pt then s'.pt == s.pt else PairProtected(s.pt, s'.pt, f, t)
  }

  /** Both entries are protected and no other is touched. */
  ghost predicate PairProtected(pt: map<Va, Pte>, pt': map<Va, Pte>, f: Va, t: Va)
    requires f in pt
  {
    && pt'.Keys == pt.Keys + {t} && SamePage(pt[f], pt'[f]) && SamePage(pt[f], pt'[t])
    && forall k :: k in pt && k != f && k != t ==> pt'[k] == pt[k]
  }

  lemma SkipRound(s: State, e: Env)
    requires Inv(s) && CanSkip(s, e)
    ensures Round(s, DoSkip(s, e), e)
  {
    VisibleHere(s, e);
    StepRefines(s, Skip(e));
  }

  lemma DupRound(s: State, e: Env)
    requires Inv(s) && CanDup(s, e)
    ensures Round(s, DoDup(s, e), e)
  {
    VisibleHere(s, e);
    DupMeansCopy(s, e);
  }

  /** `duppage` of a writable or copy-on-write page: lines 90 and 93. */
  lemma CowRound(s: State, e: Env)
    requires Inv(s) && CanMapChild(s, e)
    ensures var mid := DoMapChild(s, e);
      && Inv(mid) && CanRemark(mid, e) && Here(mid.fork, e) == Here(s.fork, e) && Here(s.fork, e) in mid.pt
      && Inv(DoRemark(mid, e))
      && Meaning(DoRemark(mid, e)).view == Meaning(s).view[There(s.fork, e) := Meaning(s).view[Here(s.fork, e)]]
  {
    hide PageInv, ForkInv, Mean, CommonPages, View;
    VisibleHere(s, e);
    MapChildMeansNothing(s, e);
    RemarkMeansCopy(DoMapChild(s, e), e);
  }

  lemma CowEntries(s: State, e: Env)
    requires Inv(s) && CanMapChild(s, e) && CanRemark(DoMapChild(s, e), e) && Here(s.fork, e) in DoMapChild(s, e).pt
    ensures PairProtected(s.pt, DoRemark(DoMapChild(s, e), e).pt, Here(s.fork, e), There(s.fork, e))
  {
  }

  lemma CowRoundIs(s: State, e: Env)
    requires Inv(s) && CanMapChild(s, e)
    ensures Inv(DoMapChild(s, e)) && CanRemark(DoMapChild(s, e), e) && Here(s.fork, e) in DoMapChild(s, e).pt
    ensures Here(DoMapChild(s, e).fork, e) == Here(s.fork, e)
    ensures Round(s, DoRemark(DoMapChild(s, e), e), e)
  {
    hide PageInv, ForkInv, Meaning, PairProtected;
    CowRound(s, e);
    CowEntries(s, e);
    VisibleHere(s, e);
  }

  /** One round of the scan: skip the page, or `duppage` it. */
  method ScanPage(s: State, e: Env) returns (s': State)
    requires Inv(s) && InScan(s, e) && ForkOf(s.fork, e).next < UTOP
    ensures Round(s, s', e)
  {
    hide Inv, Round;
    var f := Here(s.fork, e);
    if f.vpn == UXSTACK || f !in s.pt {
      SkipRound(s, e);
      s' := DoSkip(s, e);
    } else if !NeedsCow(s.pt[f]) {
      DupRound(s, e);
      s' := DoDup(s, e);
    } else {
      CowRoundIs(s, e);
      s' := DoMapChild(s, e);
      s' := DoRemark(s', e);
    }
  }

  lemma CopiedOneMore(view: map<Va, Cell>, before: map<Va, Cell>, after: map<Va, Cell>, e: Env, c: Env, next: nat)
    requires CopiedBelow(view, before, e, c, next) && e != c
    requires after == if next == UXSTACK || Va(e, next) !in before then before
                      else before[Va(c, next) := before[Va(e, next)]]
    ensures CopiedBelow(view, after, e, c, next + 1)
  {
    assert Va(e, next) in before <==> Va(e, next) in view;
    forall v: nat
      ensures Va(c, v) in after <==> v < next + 1 && v != UXSTACK && Va(e, v) in view
      ensures Va(c, v) in after ==> after[Va(c, v)] == view[Va(e, v)]
    {
      assert Va(c, v) in before <==> v < next && v != UXSTACK && Va(e, v) in view;
    }
  }

  /** The scan of the child `c` has reached page `next`. */
  ghost predicate ScanAt(s: State, s': State, e: Env, c: Env, next: nat, stack: nat)
    requires Inv(s)
  {
    && Inv(s') && InScan(s', e) && ForkOf(s'.fork, e) == Scanning(c, next)
    && s'.runnable == s.runnable && Unused(s'.pt, stack)
    && CopiedBelow(Meaning(s).view, Meaning(s').view, e, c, next) && ProtectedBelow(s.pt, s'.pt, e, c, next)
  }

  lemma ScanBegins(s: State, e: Env, c: Env, stack: nat)
    requires Inv(s) && CanExofork(s, e, c) && Unused(s.pt, stack)
    ensures ScanAt(s, DoExofork(s, e, c), e, c, 0, stack)
  {
    StepRefines(s, Exofork(e, c));
  }

  lemma ScanMoves(s: State, before: State, after: State, e: Env, c: Env, next: nat, stack: nat)
    requires Inv(s) && e in s.runnable && c !in s.runnable
    requires ScanAt(s, before, e, c, next, stack) && Round(before, after, e)
    ensures ScanAt(s, after, e, c, next + 1, stack)
  {
    hide ProtectedBelow, Protects;
    CopiedOneMore(Meaning(s).view, Meaning(before).view, Meaning(after).view, e, c, next);
    ProtectedOneMore(s.pt, before.pt, after.pt, e, c, next);
  }

  lemma ProtectedOneMore(pt: map<Va, Pte>, before: map<Va, Pte>, after: map<Va, Pte>, e: Env, c: Env, next: nat)
    requires ProtectedBelow(pt, before, e, c, next)
    requires if next == UXSTACK || Va(e, next) !in before then after == before
             else PairProtected(before, after, Va(e, next), Va(c, next))
    ensures ProtectedBelow(pt, after, e, c, next + 1)
  {
  }

  /** The state `fork` leaves behind: the child sees its parent's pages, and a fresh exception stack. */
  ghost predicate Forked(s: State, s': State, e: Env, c: Env)
    requires Inv(s)
  {
    && Inv(s') && Idle(s', e) && s'.runnable == s.runnable + {c} && ForkedEntries(s.pt, s'.pt, e, c)
    && var view, view' := Meaning(s).view, Meaning(s').view;
       && (forall k: Va :: k.env != c ==> (k in view' <==> k in view) && (k in view ==> view'[k] == view[k]))
       && (forall v: nat :: Va(c, v) in view' <==> v == UXSTACK || (v < UTOP && Va(e, v) in view))
       && (forall v: nat :: Va(c, v) in view' ==>
             view'[Va(c, v)] == if v == UXSTACK then Own(Zero()) else view[Va(e, v)])
  }

  /** Every page but the exception stack is protected in both; the exception stacks are their own. */
  ghost predicate ForkedEntries(pt: map<Va, Pte>, pt': map<Va, Pte>, e: Env, c: Env) {
    && ProtectedBelow(pt, pt', e, c, UTOP)
    && Va(c, UXSTACK) in pt' && pt'[Va(c, UXSTACK)].w && !pt'[Va(c, UXSTACK)].share
    && (Va(e, UXSTACK) in pt ==> pt'[Va(e, UXSTACK)] == pt[Va(e, UXSTACK)])
  }

  lemma StackEntry(pt: map<Va, Pte>, pt': map<Va, Pte>, e: Env, c: Env, page: nat)
    requires ProtectedBelow(pt, pt', e, c, UTOP)
    ensures ForkedEntries(pt, pt'[Va(c, UXSTACK) := Writable(page)], e, c)
  {
  }

  lemma ScanEnds(s: State, s': State, e: Env, c: Env, stack: nat)
    requires Inv(s) && ScanAt(s, s', e, c, UTOP, stack)
    ensures Inv(DoStack(s', e, stack)) && CanStart(DoStack(s', e, stack), e)
    ensures Forked(s, DoStart(DoStack(s', e, stack), e), e, c)
  {
    hide PageInv, ForkInv, Mean, View, CommonPages, ProtectedBelow, ForkedEntries;
    StackEntry(s.pt, s'.pt, e, c, stack);
    StackMeansFresh(s', e, stack);
    StepRefines(DoStack(s', e, stack), Start(e));
  }

  /** `fork`, when no one else runs. */
  method Fork(s: State, e: Env, c: Env, stack: nat) returns (s': State)
    requires Inv(s) && CanExofork(s, e, c) && Unused(s.pt, stack)
    ensures Forked(s, s', e, c)
  {
    hide PageInv, ForkInv, CopiedBelow, ProtectedBelow, Forked, Meaning, Unused;
    ScanBegins(s, e, c, stack);
    s' := DoExofork(s, e, c);
    for i := 0 to NPDE
      invariant ScanAt(s, s', e, c, i * NPTE, stack)
    {
      for j := 0 to NPTE
        invariant ScanAt(s, s', e, c, i * NPTE + j, stack)
      {
        ghost var before := s';
        s' := ScanPage(s', e);
        ScanMoves(s, before, s', e, c, i * NPTE + j, stack);
      }
    }
    ScanEnds(s, s', e, c, stack);
    s' := DoStack(s', e, stack);
    s' := DoStart(s', e);
  }

  // ------------------------------------------------------------------
  // fork_v0
  // ------------------------------------------------------------------

  /** The child has the page at `v`, the free one with its bytes where it may write. What the parent had at
      UTEMP is lost with the first page that is copied; when that is UTEMP itself, the copy is empty. */
  ghost predicate Duplicated(pt: map<Va, Pte>, mem: map<nat, Page>, pt': map<Va, Pte>, mem': map<nat, Page>,
                             e: Env, c: Env, v: nat, page: nat)
    requires Backed(pt, mem) && Backed(pt', mem') && Va(e, v) in pt
  {
    var pte := pt[Va(e, v)];
    && pt'.Keys == (if pte.w then pt.Keys - {Va(e, UTEMP)} else pt.Keys) + {Va(c, v)}
    && (forall k :: k in pt && k in pt' && k != Va(c, v) ==> pt'[k] == pt[k] && mem'[pt[k].page] == mem[pt[k].page])
    && mem'[pt'[Va(c, v)].page] == (if v == UTEMP && pte.w then Zero() else mem[pte.page])
    && pt'[Va(c, v)] == pte.(page := if pte.w then page else pte.page)
  }

  /** `dup_or_share`: a writable page is copied through UTEMP, any other page is mapped as it is.
      `page` is the free page that sys_page_alloc finds. */
  method DupOrShare(pt: map<Va, Pte>, mem: map<nat, Page>, e: Env, c: Env, v: nat, page: nat)
    returns (pt': map<Va, Pte>, mem': map<nat, Page>)
    requires Backed(pt, mem) && Va(e, v) in pt && e != c && Unused(pt, page)
    ensures Backed(pt', mem') && Duplicated(pt, mem, pt', mem', e, c, v, page)
  {
    var pte := pt[Va(e, v)];
    if pte.w {
      // sys_page_alloc in the child, then sys_page_map of that page at the parent's UTEMP
      pt', mem' := pt[Va(c, v) := pte.(page := page)], mem[page := Zero()];
      pt' := pt'[Va(e, UTEMP) := pt'[Va(c, v)]];
      // memmove(UTEMP, va, PGSIZE) and sys_page_unmap
      mem' := mem'[pt'[Va(e, UTEMP)].page := mem'[pt'[Va(e, v)].page]];
      pt' := pt' - {Va(e, UTEMP)};
    } else {
      pt', mem' := pt[Va(c, v) := pte], mem;
    }
  }

  /** Some page of `e` below `next` is writable. */
  ghost predicate WritableBelow(pt: map<Va, Pte>, e: Env, next: nat) {
    exists u: nat :: u < next && Va(e, u) in pt && pt[Va(e, u)].w
  }

  lemma WritableNext(pt: map<Va, Pte>, e: Env, v: nat)
    ensures WritableBelow(pt, e, v + 1) <==> WritableBelow(pt, e, v) || (Va(e, v) in pt && pt[Va(e, v)].w)
  {
  }

  /** The parent has what it had, but for a page at UTEMP. */
  ghost predicate ParentKept(pt: map<Va, Pte>, mem: map<nat, Page>, pt': map<Va, Pte>, mem': map<nat, Page>,
                             e: Env, c: Env, next: nat)
    requires Backed(pt, mem) && Backed(pt', mem')
  {
    && (forall k: Va :: k.env != c ==> (k in pt' <==> k in pt && !(k == Va(e, UTEMP) && WritableBelow(pt, e, next))))
    && (forall k: Va :: k.env != c && k in pt' ==> pt'[k] == pt[k] && mem'[pt[k].page] == mem[pt[k].page])
  }

  /** The child has the parent's bytes and permissions below page `next`, but for a page at UTEMP. */
  ghost predicate ChildHas(pt: map<Va, Pte>, mem: map<nat, Page>, pt': map<Va, Pte>, mem': map<nat, Page>,
                           e: Env, c: Env, next: nat)
    requires Backed(pt, mem) && Backed(pt', mem')
  {
    && (forall v: nat :: Va(c, v) in pt' <==> v < next && Va(e, v) in pt && !(v == UTEMP && WritableBelow(pt, e, UTEMP)))
    && (forall v: nat :: Va(c, v) in pt' ==>
          && mem'[pt'[Va(c, v)].page] == (if v == UTEMP && pt[Va(e, v)].w then Zero() else mem[pt[Va(e, v)].page])
          && pt'[Va(c, v)].w == pt[Va(e, v)].w && pt'[Va(c, v)].cow == pt[Va(e, v)].cow && pt'[Va(c, v)].share == pt[Va(e, v)].share
          && (!pt[Va(e, v)].w ==> pt'[Va(c, v)].page == pt[Va(e, v)].page))
  }

  /** A page that the child may write is its own. */
  ghost predicate OwnPages(pt: map<Va, Pte>, c: Env) {
    forall v: nat, k: Va | Va(c, v) in pt && pt[Va(c, v)].w && k in pt && k != Va(c, v) :: pt[k].page != pt[Va(c, v)].page
  }

  ghost predicate EagerBelow(pt: map<Va, Pte>, mem: map<nat, Page>, pt': map<Va, Pte>, mem': map<nat, Page>,
                             e: Env, c: Env, next: nat)
  {
    && Backed(pt, mem) && Backed(pt', mem')
    && ParentKept(pt, mem, pt', mem', e, c, next) && ChildHas(pt, mem, pt', mem', e, c, next) && OwnPages(pt', c)
  }

  lemma ParentOneMore(pt: map<Va, Pte>, mem: map<nat, Page>, pt0: map<Va, Pte>, mem0: map<nat, Page>,
                      pt': map<Va, Pte>, mem': map<nat, Page>, e: Env, c: Env, v: nat, page: nat)
    requires Backed(pt, mem) && Backed(pt0, mem0) && Backed(pt', mem') && e != c && Va(e, v) in pt0
    requires ParentKept(pt, mem, pt0, mem0, e, c, v) && Duplicated(pt0, mem0, pt', mem', e, c, v, page)
    ensures ParentKept(pt, mem, pt', mem', e, c, v + 1)
  {
    hide WritableBelow;
    WritableNext(pt, e, v);
  }

  lemma ChildOneMore(pt: map<Va, Pte>, mem: map<nat, Page>, pt0: map<Va, Pte>, mem0: map<nat, Page>,
                     pt': map<Va, Pte>, mem': map<nat, Page>, e: Env, c: Env, v: nat, page: nat)
    requires Backed(pt, mem) && Backed(pt0, mem0) && Backed(pt', mem') && e != c && Va(e, v) in pt0
    requires ParentKept(pt, mem, pt0, mem0, e, c, v) && ChildHas(pt, mem, pt0, mem0, e, c, v)
    requires Duplicated(pt0, mem0, pt', mem', e, c, v, page)
    ensures ChildHas(pt, mem, pt', mem', e, c, v + 1)
  {
    hide WritableBelow;
    assert pt0[Va(e, v)] == pt[Va(e, v)] && mem0[pt[Va(e, v)].page] == mem[pt[Va(e, v)].page];
    forall u: nat | Va(c, u) in pt'
      ensures mem'[pt'[Va(c, u)].page] == if u == UTEMP && pt[Va(e, u)].w then Zero() else mem[pt[Va(e, u)].page]
      ensures u != v ==> pt'[Va(c, u)] == pt0[Va(c, u)]
    {
      assert u != v ==> Va(c, u) in pt0;
    }
  }

  lemma OwnOneMore(pt: map<Va, Pte>, mem: map<nat, Page>, pt': map<Va, Pte>, mem': map<nat, Page>, e: Env, c: Env, v: nat, page: nat)
    requires Backed(pt, mem) && Backed(pt', mem') && e != c && Va(e, v) in pt && Unused(pt, page)
    requires OwnPages(pt, c) && Duplicated(pt, mem, pt', mem', e, c, v, page)
    ensures OwnPages(pt', c)
  {
  }

  lemma EagerOneMore(pt: map<Va, Pte>, mem: map<nat, Page>, pt0: map<Va, Pte>, mem0: map<nat, Page>,
                     pt': map<Va, Pte>, mem': map<nat, Page>, e: Env, c: Env, v: nat, page: nat)
    requires EagerBelow(pt, mem, pt0, mem0, e, c, v) && e != c && Va(e, v) in pt0
    requires Unused(pt0, page) && Backed(pt', mem') && Duplicated(pt0, mem0, pt', mem', e, c, v, page)
    ensures EagerBelow(pt, mem, pt', mem', e, c, v + 1)
  {
    hide ParentKept, ChildHas, OwnPages, Duplicated;
    ParentOneMore(pt, mem, pt0, mem0, pt', mem', e, c, v, page);
    ChildOneMore(pt, mem, pt0, mem0, pt', mem', e, c, v, page);
    OwnOneMore(pt0, mem0, pt', mem', e, c, v, page);
  }

  lemma EagerSkip(pt: map<Va, Pte>, mem: map<nat, Page>, pt': map<Va, Pte>, mem': map<nat, Page>, e: Env, c: Env, v: nat)
    requires EagerBelow(pt, mem, pt', mem', e, c, v) && e != c && Va(e, v) !in pt'
    ensures EagerBelow(pt, mem, pt', mem', e, c, v + 1)
  {
    hide WritableBelow;
    WritableNext(pt, e, v);
  }

  lemma EagerStart(pt: map<Va, Pte>, mem: map<nat, Page>, e: Env, c: Env)
    requires Backed(pt, mem) && forall v :: Va(c, v) !in pt
    ensures EagerBelow(pt, mem, pt, mem, e, c, 0)
  {
  }

  /** `fork_v0`: pages from `free` on are free. */
  method ForkV0(pt: map<Va, Pte>, mem: map<nat, Page>, e: Env, c: Env, free: nat)
    returns (pt': map<Va, Pte>, mem': map<nat, Page>)
    requires Backed(pt, mem) && e != c && (forall v :: Va(c, v) !in pt)
    requires forall k :: k in pt ==> pt[k].page < free && k.vpn < UTOP
    ensures EagerBelow(pt, mem, pt', mem', e, c, UTOP)
  {
    hide ParentKept, ChildHas, OwnPages;
    pt', mem' := pt, mem;
    EagerStart(pt, mem, e, c);
    for v := 0 to UTOP
      invariant EagerBelow(pt, mem, pt', mem', e, c, v)
      invariant forall k :: k in pt' ==> pt'[k].page < free + v
    {
      if Va(e, v) in pt' {
        ghost var pt0, mem0 := pt', mem';
        pt', mem' := DupOrShare(pt', mem', e, c, v, free + v);
        EagerOneMore(pt, mem, pt0, mem0, pt', mem', e, c, v, free + v);
      } else {
        EagerSkip(pt, mem, pt', mem', e, c, v);
      }
    }
  }

  /** The fast and the simple fork leave the child the same private bytes, but for a page at UTEMP: the
      simple one loses it to a writable page before it, and clears it when it is writable itself. */
  method ForksAgree(s: State, e: Env, c: Env, stack: nat, free: nat)
    returns (cow: State, pt: map<Va, Pte>, mem: map<nat, Page>)
    requires Inv(s) && CanExofork(s, e, c) && Unused(s.pt, stack)
    requires forall k :: k in s.pt ==> s.pt[k].page < free
    ensures Forked(s, cow, e, c) && EagerBelow(s.pt, s.mem, pt, mem, e, c, UTOP)
    ensures forall v :: v != UXSTACK && Va(e, v) in s.pt && !s.pt[Va(e, v)].share ==>
      Va(c, v) in Meaning(cow).view && (AsInView(Meaning(cow).view, pt, mem, Va(c, v)) <==>
        v != UTEMP || !WritableBelow(s.pt, e, UTEMP + 1)
        || (!WritableBelow(s.pt, e, UTEMP) && s.mem[s.pt[Va(e, UTEMP)].page] == Zero()))
  {
    cow := Fork(s, e, c, stack);
    pt, mem := ForkV0(s.pt, s.mem, e, c, free);
    OneInflight(s, e);
    WritableNext(s.pt, e, UTEMP);
  }

  /** The page is there, with the bytes that it has in the view. */
  ghost predicate AsInView(view: map<Va, Cell>, pt: map<Va, Pte>, mem: map<nat, Page>, k: Va)
    requires Backed(pt, mem) && k in view
  {
    k in pt && view[k] == Own(mem[pt[k].page])
  }
}
