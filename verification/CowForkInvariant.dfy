/** Every call that fork, the fault handler and their callers make keeps `CowFork.Inv`. */
module CowForkInvariant {
  import opened CowFork

  lemma ForkUpdate(fork: map<Env, Fork>, fork': map<Env, Fork>, e: Env)
    requires e in fork' && fork' == fork[e := fork'[e]]
    ensures forall x :: ForkOf(fork', x) == if x == e then fork'[e] else ForkOf(fork, x)
  {
  }

  lemma FaultUpdate(fault: map<Env, Fault>, fault': map<Env, Fault>, e: Env)
    requires e in fault' && fault' == fault[e := fault'[e]]
    ensures forall x :: FaultOf(fault', x) == if x == e then fault'[e] else FaultOf(fault, x)
  {
  }

  /** A fork in progress depends on the entries of the parent and of its child alone. */
  lemma ForkFrame(pt: map<Va, Pte>, inflight: map<Va, Env>, pt': map<Va, Pte>, inflight': map<Va, Env>, fork: Fork, x: Env)
    requires ForkOk(pt, inflight, fork, x)
    requires !fork.NotForking? ==> forall k: Va | (k.env == x && k.vpn != PFTEMP) || k.env == fork.child ::
      && (k in pt <==> k in pt') && (k in pt ==> pt'[k] == pt[k])
      && (k in inflight <==> k in inflight')
    ensures ForkOk(pt', inflight', fork, x)
  {
    match fork
    case Mapped(c, next) =>
      assert ScanOk(pt' - {Va(c, next)}, x, c, next) by {
        assert ScanOk(pt - {Va(c, next)}, x, c, next);
      }
    case _ =>
  }

  /** The other forks do not notice that `e` changes its own entries and those of its child. */
  lemma OtherForks(s: State, pt: map<Va, Pte>, inflight: map<Va, Env>, e: Env)
    requires ForkInv(s) && e in s.runnable
    requires forall k: Va :: (k.env != e && (ForkOf(s.fork, e).NotForking? || k.env != ForkOf(s.fork, e).child)) ==>
      (k in pt <==> k in s.pt) && (k in pt ==> pt[k] == s.pt[k]) && (k in inflight <==> k in s.inflight)
    ensures forall x :: x != e ==> ForkOk(pt, inflight, ForkOf(s.fork, x), x)
  {
    forall x | x != e
      ensures ForkOk(pt, inflight, ForkOf(s.fork, x), x)
    {
      ForkFrame(s.pt, s.inflight, pt, inflight, ForkOf(s.fork, x), x);
    }
  }

  /** A fault in progress depends on the entries of the faulting environment and their bytes. */
  lemma FaultFrame(pt: map<Va, Pte>, mem: map<nat, Page>, pt': map<Va, Pte>, mem': map<nat, Page>, fault: Fault, x: Env)
    requires !fault.NoFault? && FaultOk(pt, mem, fault, x)
    requires forall k: Va | k.env == x && (k.vpn == PFTEMP || k.vpn == fault.vpn) && k in pt ::
      k in pt' && pt'[k] == pt[k] && (pt[k].page in mem ==> pt[k].page in mem' && mem'[pt[k].page] == mem[pt[k].page])
    ensures FaultOk(pt', mem', fault, x)
  {
    var f, t := Va(x, fault.vpn), Va(x, PFTEMP);
    assert pt'[f] == pt[f] && pt'[t] == pt[t];
  }

  // A fresh page at `k`.

  lemma FreshPages(pt: map<Va, Pte>, mem: map<nat, Page>, envs: set<Env>, k: Va, pte: Pte)
    requires PageTables(pt, mem, envs) && Unused(pt, pte.page)
    requires k.env in envs && k.vpn < UTOP && !pte.cow
    ensures PageTables(pt[k := pte], mem[pte.page := Zero()], envs)
  {
  }

  lemma FreshPrivate(pt: map<Va, Pte>, fault: map<Env, Fault>, inflight: map<Va, Env>, k: Va, pte: Pte)
    requires PrivateWritable(pt, fault, inflight) && Unused(pt, pte.page)
    ensures PrivateWritable(pt[k := pte], fault, inflight)
  {
  }

  lemma FreshFaults(pt: map<Va, Pte>, mem: map<nat, Page>, runnable: set<Env>, fault: map<Env, Fault>, k: Va, pte: Pte)
    requires FaultsOk(pt, mem, runnable, fault) && Unused(pt, pte.page)
    requires FaultOf(fault, k.env).NoFault? && k.vpn != PFTEMP
    ensures FaultsOk(pt[k := pte], mem[pte.page := Zero()], runnable, fault)
  {
    forall x | !FaultOf(fault, x).NoFault?
      ensures FaultOk(pt[k := pte], mem[pte.page := Zero()], FaultOf(fault, x), x)
    {
      FaultFrame(pt, mem, pt[k := pte], mem[pte.page := Zero()], FaultOf(fault, x), x);
    }
  }

  // A second entry for the page at `src`.

  lemma DupPages(pt: map<Va, Pte>, mem: map<nat, Page>, envs: set<Env>, src: Va, dst: Va, pte: Pte)
    requires PageTables(pt, mem, envs) && src in pt && dst.env in envs && dst.vpn < UTOP
    requires pte.page == pt[src].page && pte.share == pt[src].share && !(pte.cow && pte.share)
    ensures PageTables(pt[dst := pte], mem, envs)
  {
  }

  lemma DupPrivate(pt: map<Va, Pte>, fault: map<Env, Fault>, inflight: map<Va, Env>, inflight': map<Va, Env>,
                   src: Va, dst: Va, pte: Pte)
    requires PrivateWritable(pt, fault, inflight) && src in pt && src !in inflight
    requires FaultOf(fault, src.env).NoFault?
    requires forall k: Va, k': Va | k in pt && k' in pt && pt[k].page == pt[k'].page :: pt[k].share == pt[k'].share
    requires pte.page == pt[src].page && pte.share == pt[src].share
    requires pte.share || !pte.w
    requires forall k :: k in inflight ==> k in inflight' && inflight'[k] == inflight[k]
    requires pt[src].w && !pte.share ==> dst in inflight' && inflight'[dst] == src.env && dst.vpn == src.vpn
    ensures PrivateWritable(pt[dst := pte], fault, inflight')
  {
    var pt' := pt[dst := pte];
    forall k, k' | k in pt' && k' in pt' && k != k' && pt'[k].page == pt'[k'].page && pt'[k].w && !pt'[k].share
      ensures Exempt(fault, inflight', k, k')
    {
      if k' == dst {
        // Nothing but `src` itself is a private writable entry for this page.
        assert k != src ==> Exempt(fault, inflight, k, src);
      } else {
        assert Exempt(fault, inflight, k, k');
      }
    }
  }

  lemma DupFaults(pt: map<Va, Pte>, mem: map<nat, Page>, runnable: set<Env>, fault: map<Env, Fault>, dst: Va, pte: Pte)
    requires FaultsOk(pt, mem, runnable, fault)
    requires FaultOf(fault, dst.env).NoFault? && dst.vpn != PFTEMP
    ensures FaultsOk(pt[dst := pte], mem, runnable, fault)
  {
    forall x | !FaultOf(fault, x).NoFault?
      ensures FaultOk(pt[dst := pte], mem, FaultOf(fault, x), x)
    {
      FaultFrame(pt, mem, pt[dst := pte], mem, FaultOf(fault, x), x);
    }
  }

  // Entries changed in place: line 93 of `duppage` and the second call of `pgfault`.

  lemma RemarkPrivate(pt: map<Va, Pte>, fault: map<Env, Fault>, inflight: map<Va, Env>, f: Va, t: Va)
    requires PrivateWritable(pt, fault, inflight) && f in pt && !pt[f].share && f !in inflight
    requires FaultOf(fault, f.env).NoFault? && FaultOf(fault, t.env).NoFault?
    requires t in inflight ==> inflight[t] == f.env && t.vpn == f.vpn
    requires forall k: Va, k': Va | k in pt && k' in pt && pt[k].page == pt[k'].page :: pt[k].share == pt[k'].share
    ensures PrivateWritable(pt[f := Cow(pt[f].page)], fault, inflight - {t})
  {
    var pt' := pt[f := Cow(pt[f].page)];
    forall k, k' | k in pt' && k' in pt' && k != k' && pt'[k].page == pt'[k'].page && pt'[k].w && !pt'[k].share
      ensures Exempt(fault, inflight - {t}, k, k')
    {
      assert Exempt(fault, inflight, k, k');
    }
  }

  lemma RemapPrivate(pt: map<Va, Pte>, fault: map<Env, Fault>, inflight: map<Va, Env>, e: Env, v: nat, gone: set<Va>)
    requires PrivateWritable(pt, fault, inflight) && v != PFTEMP
    requires FaultOf(fault, e).Copied? && Va(e, v) in pt && Va(e, PFTEMP) in pt
    requires forall k :: k in pt && k != Va(e, PFTEMP) ==> pt[k].page != pt[Va(e, PFTEMP)].page
    requires forall k | k in gone ::
      && k in inflight && inflight[k] == e && k.vpn == v && FaultOf(fault, k.env).NoFault?
      && k in pt && pt[k].page == pt[Va(e, v)].page
    ensures PrivateWritable(pt[Va(e, v) := Writable(pt[Va(e, PFTEMP)].page)], fault[e := Remapped(v)], inflight - gone)
  {
    var f, t := Va(e, v), Va(e, PFTEMP);
    var pt', fault' := pt[f := Writable(pt[t].page)], fault[e := Remapped(v)];
    FaultUpdate(fault, fault', e);
    forall k, k' | k in pt' && k' in pt' && k != k' && pt'[k].page == pt'[k'].page && pt'[k].w && !pt'[k].share
      ensures Exempt(fault', inflight - gone, k, k')
    {
      if k != f && k' != f {
        assert Exempt(fault, inflight, k, k');
      }
    }
  }

  // One step of the scan of `fork`.

  lemma ChildrenAdvance(envs: set<Env>, runnable: set<Env>, fork: map<Env, Fork>, fork': map<Env, Fork>, e: Env)
    requires ChildrenOk(envs, runnable, fork) && !ForkOf(fork, e).NotForking?
    requires e in fork' && fork' == fork[e := fork'[e]]
    requires !fork'[e].NotForking? && fork'[e].child == ForkOf(fork, e).child
    ensures ChildrenOk(envs, runnable, fork')
  {
    ForkUpdate(fork, fork', e);
  }

  lemma ScanStep(pt: map<Va, Pte>, e: Env, c: Env, next: nat, pte: Pte)
    requires ScanOk(pt, e, c, next) && Va(e, next) in pt && e != c
    requires next < UTOP && next != UXSTACK && next != PFTEMP
    ensures ScanOk(pt[Va(c, next) := pte], e, c, next + 1)
  {
    var pt' := pt[Va(c, next) := pte];
    forall v | 0 <= v < next + 1 && v != UXSTACK && v != PFTEMP
      ensures Va(c, v) in pt' <==> Va(e, v) in pt'
    {
      assert v < next ==> (Va(c, v) in pt <==> Va(e, v) in pt);
    }
  }

  lemma ForksAfter(s: State, s': State, e: Env)
    requires ForkInv(s) && e in s'.fork && s'.fork == s.fork[e := s'.fork[e]]
    requires forall x :: x != e ==> ForkOk(s'.pt, s'.inflight, ForkOf(s.fork, x), x)
    requires ForkOk(s'.pt, s'.inflight, s'.fork[e], e)
    ensures ForksOk(s'.pt, s'.inflight, s'.fork)
  {
    ForkUpdate(s.fork, s'.fork, e);
  }

  /** Children in flight elsewhere stay in flight: they and their parents are not touched. */
  lemma InflightAfter(s: State, s': State, e: Env)
    requires ForkInv(s) && e in s'.fork && s'.fork == s.fork[e := s'.fork[e]]
    requires !ForkOf(s.fork, e).NotForking?
    requires forall k: Va :: k.env != e && k.env != ForkOf(s.fork, e).child && k in s.pt ==> k in s'.pt && s'.pt[k] == s.pt[k]
    requires forall k :: k in s'.inflight && s'.inflight[k] != e ==> k in s.inflight && s.inflight[k] == s'.inflight[k]
    requires forall k :: k in s'.inflight && s'.inflight[k] == e ==>
      && s'.fork[e] == Mapped(k.env, k.vpn)
      && k in s'.pt && Va(e, k.vpn) in s'.pt && s'.pt[k] == Cow(s'.pt[Va(e, k.vpn)].page)
    ensures InflightOk(s'.pt, s'.fork, s'.inflight)
  {
    ForkUpdate(s.fork, s'.fork, e);
    forall k | k in s'.inflight && s'.inflight[k] != e
      ensures ForkOf(s'.fork, s'.inflight[k]) == Mapped(k.env, k.vpn)
      ensures k in s'.pt && Va(s'.inflight[k], k.vpn) in s'.pt && s'.pt[k] == Cow(s'.pt[Va(s'.inflight[k], k.vpn)].page)
    {
      var p := Va(s.inflight[k], k.vpn);
      assert ForkOf(s.fork, p.env) == Mapped(k.env, k.vpn);
      assert ForkOf(s.fork, p.env).child != ForkOf(s.fork, e).child;
    }
  }

  /** A parent has at most the page of its present `duppage` in flight. */
  lemma OneInflight(s: State, e: Env)
    requires ForkInv(s)
    ensures forall k :: k in s.inflight && s.inflight[k] == e ==> ForkOf(s.fork, e) == Mapped(k.env, k.vpn)
    ensures forall k :: k in s.inflight ==> k.env !in s.runnable && k.vpn != PFTEMP
  {
    forall k | k in s.inflight
      ensures ForkOf(s.fork, s.inflight[k]) == Mapped(k.env, k.vpn)
      ensures k.env !in s.runnable && k.vpn != PFTEMP
    {
      assert ForkOk(s.pt, s.inflight, ForkOf(s.fork, s.inflight[k]), s.inflight[k]);
    }
  }

  // One step of `pgfault`.

  lemma FaultPrivate(pt: map<Va, Pte>, fault: map<Env, Fault>, fault': map<Env, Fault>, inflight: map<Va, Env>, e: Env)
    requires PrivateWritable(pt, fault, inflight)
    requires e in fault' && fault' == fault[e := fault'[e]]
    requires FaultOf(fault, e).Remapped? ==> Va(e, PFTEMP) !in pt
    ensures PrivateWritable(pt, fault', inflight)
  {
    FaultUpdate(fault, fault', e);
    forall k, k' | k in pt && k' in pt && k != k' && pt[k].page == pt[k'].page && pt[k].w && !pt[k].share
      ensures Exempt(fault', inflight, k, k')
    {
      assert Exempt(fault, inflight, k, k');
    }
  }

  /** Forks do not depend on the scratch page. */
  lemma ScratchForks(s: State, pt: map<Va, Pte>, e: Env)
    requires ForkInv(s) && e in s.runnable
    requires forall k: Va :: k != Va(e, PFTEMP) ==> (k in pt <==> k in s.pt) && (k in pt ==> pt[k] == s.pt[k])
    ensures ForksOk(pt, s.inflight, s.fork) && InflightOk(pt, s.fork, s.inflight)
  {
    OneInflight(s, e);
    forall x
      ensures ForkOk(pt, s.inflight, ForkOf(s.fork, x), x)
    {
      ForkFrame(s.pt, s.inflight, pt, s.inflight, ForkOf(s.fork, x), x);
    }
  }

  lemma FaultsAfter(s: State, s': State, e: Env)
    requires FaultsOk(s.pt, s.mem, s.runnable, s.fault) && e in s.runnable && s'.runnable == s.runnable
    requires e in s'.fault && s'.fault == s.fault[e := s'.fault[e]]
    requires forall k: Va :: k.env != e ==> (k in s'.pt <==> k in s.pt) && (k in s.pt ==> s'.pt[k] == s.pt[k])
    requires forall k | k in s.pt && k.env != e && !FaultOf(s.fault, k.env).NoFault?
                        && (k.vpn == PFTEMP || k.vpn == FaultOf(s.fault, k.env).vpn) && s.pt[k].page in s.mem ::
      s.pt[k].page in s'.mem && s'.mem[s.pt[k].page] == s.mem[s.pt[k].page]
    requires if s'.fault[e].NoFault? then Va(e, PFTEMP) !in s'.pt else FaultOk(s'.pt, s'.mem, s'.fault[e], e)
    ensures FaultsOk(s'.pt, s'.mem, s'.runnable, s'.fault)
  {
    FaultUpdate(s.fault, s'.fault, e);
    forall x | x != e && !FaultOf(s'.fault, x).NoFault?
      ensures FaultOk(s'.pt, s'.mem, FaultOf(s'.fault, x), x)
    {
      FaultFrame(s.pt, s.mem, s'.pt, s'.mem, FaultOf(s.fault, x), x);
    }
  }

  // ------------------------------------------------------------------
  // Every transition keeps the invariant
  // ------------------------------------------------------------------

  lemma StoreKeeps(s: State, e: Env, v: nat, off: nat, b: Byte)
    requires Inv(s) && CanStore(s, e, v, off)
    ensures Inv(DoStore(s, e, v, off, b))
  {
  }

  lemma AllocKeeps(s: State, e: Env, v: nat, w: bool, share: bool, page: nat)
    requires Inv(s) && CanAlloc(s, e, v, page)
    ensures Inv(DoAlloc(s, e, v, w, share, page))
  {
    var k, pte := Va(e, v), Pte(page, w, false, share);
    var s' := DoAlloc(s, e, v, w, share, page);
    OtherForks(s, s'.pt, s'.inflight, e);
    FreshPages(s.pt, s.mem, s.envs, k, pte);
    FreshPrivate(s.pt, s.fault, s.inflight, k, pte);
    FreshFaults(s.pt, s.mem, s.runnable, s.fault, k, pte);
  }

  lemma UnmapKeeps(s: State, e: Env, v: nat)
    requires Inv(s) && Idle(s, e)
    ensures Inv(DoUnmap(s, e, v))
  {
    OtherForks(s, DoUnmap(s, e, v).pt, s.inflight, e);
  }

  lemma ShareMapKeeps(s: State, e: Env, v: nat, dst: nat)
    requires Inv(s) && CanShareMap(s, e, v, dst)
    ensures Inv(DoShareMap(s, e, v, dst))
  {
    var s' := DoShareMap(s, e, v, dst);
    var f, t := Va(e, v), Va(e, dst);
    OneInflight(s, e);
    OtherForks(s, s'.pt, s'.inflight, e);
    DupPages(s.pt, s.mem, s.envs, f, t, s'.pt[t]);
    DupPrivate(s.pt, s.fault, s.inflight, s'.inflight, f, t, s'.pt[t]);
    DupFaults(s.pt, s.mem, s.runnable, s.fault, t, s'.pt[t]);
  }

  lemma ExoforkKeeps(s: State, e: Env, c: Env)
    requires Inv(s) && CanExofork(s, e, c)
    ensures Inv(DoExofork(s, e, c))
  {
    ForkUpdate(s.fork, DoExofork(s, e, c).fork, e);
  }

  lemma SkipKeeps(s: State, e: Env)
    requires Inv(s) && CanSkip(s, e)
    ensures Inv(DoSkip(s, e))
  {
    ForkUpdate(s.fork, DoSkip(s, e).fork, e);
  }

  lemma DupForks(s: State, e: Env)
    requires ForkInv(s) && CanDup(s, e) && Here(s.fork, e).vpn != PFTEMP
    ensures ForkInv(DoDup(s, e))
  {
    var s' := DoDup(s, e);
    var f, t := Here(s.fork, e), There(s.fork, e);
    OneInflight(s, e);
    OtherForks(s, s'.pt, s'.inflight, e);
    ChildrenAdvance(s.envs, s.runnable, s.fork, s'.fork, e);
    assert ForkOk(s.pt, s.inflight, ForkOf(s.fork, e), e);
    ScanStep(s.pt, e, t.env, f.vpn, s'.pt[t]);
    ForksAfter(s, s', e);
    InflightAfter(s, s', e);
  }

  lemma DupKeeps(s: State, e: Env)
    requires Inv(s) && CanDup(s, e)
    ensures Inv(DoDup(s, e))
  {
    var s' := DoDup(s, e);
    var f, t := Here(s.fork, e), There(s.fork, e);
    OneInflight(s, e);
    DupPages(s.pt, s.mem, s.envs, f, t, s'.pt[t]);
    DupPrivate(s.pt, s.fault, s.inflight, s'.inflight, f, t, s'.pt[t]);
    DupFaults(s.pt, s.mem, s.runnable, s.fault, t, s'.pt[t]);
    DupForks(s, e);
  }

  lemma MapChildForks(s: State, e: Env)
    requires ForkInv(s) && CanMapChild(s, e) && Here(s.fork, e).vpn != PFTEMP
    ensures ForkInv(DoMapChild(s, e))
  {
    var s' := DoMapChild(s, e);
    var f, t := Here(s.fork, e), There(s.fork, e);
    OneInflight(s, e);
    OtherForks(s, s'.pt, s'.inflight, e);
    ChildrenAdvance(s.envs, s.runnable, s.fork, s'.fork, e);
    assert MappedOk(s'.pt, s'.inflight, e, t.env, f.vpn) by {
      assert ForkOk(s.pt, s.inflight, ForkOf(s.fork, e), e);
      assert s'.pt - {t} == s.pt;
    }
    ForksAfter(s, s', e);
    InflightAfter(s, s', e);
  }

  lemma MapChildPages(s: State, e: Env)
    requires Inv(s) && CanMapChild(s, e)
    ensures Here(s.fork, e).vpn != PFTEMP && PageInv(DoMapChild(s, e))
  {
    var s' := DoMapChild(s, e);
    var f, t := Here(s.fork, e), There(s.fork, e);
    OneInflight(s, e);
    DupPages(s.pt, s.mem, s.envs, f, t, s'.pt[t]);
    DupPrivate(s.pt, s.fault, s.inflight, s'.inflight, f, t, s'.pt[t]);
    DupFaults(s.pt, s.mem, s.runnable, s.fault, t, s'.pt[t]);
  }

  lemma MapChildKeeps(s: State, e: Env)
    requires Inv(s) && CanMapChild(s, e)
    ensures Inv(DoMapChild(s, e))
  {
    MapChildPages(s, e);
    MapChildForks(s, e);
  }

  lemma RemarkForks(s: State, e: Env)
    requires ForkInv(s) && CanRemark(s, e)
    ensures Here(s.fork, e) in s.pt && !s.pt[Here(s.fork, e)].share && ForkInv(DoRemark(s, e))
  {
    var f, t := Here(s.fork, e), There(s.fork, e);
    assert MappedOk(s.pt, s.inflight, e, t.env, f.vpn) by {
      assert ForkOk(s.pt, s.inflight, ForkOf(s.fork, e), e);
    }
    var s' := DoRemark(s, e);
    OneInflight(s, e);
    OtherForks(s, s'.pt, s'.inflight, e);
    ChildrenAdvance(s.envs, s.runnable, s.fork, s'.fork, e);
    assert ScanOk(s'.pt, e, t.env, f.vpn + 1) by {
      ScanStep(s.pt - {t}, e, t.env, f.vpn, s.pt[t]);
    }
    ForksAfter(s, s', e);
    InflightAfter(s, s', e);
  }

  lemma RemarkPages(s: State, e: Env)
    requires Inv(s) && CanRemark(s, e) && Here(s.fork, e) in s.pt && !s.pt[Here(s.fork, e)].share
    ensures PageInv(DoRemark(s, e))
  {
    var s', f, t := DoRemark(s, e), Here(s.fork, e), There(s.fork, e);
    OneInflight(s, e);
    assert ForkOk(s.pt, s.inflight, ForkOf(s.fork, e), e);
    DupPages(s.pt, s.mem, s.envs, f, f, s'.pt[f]);
    RemarkPrivate(s.pt, s.fault, s.inflight, f, t);
    DupFaults(s.pt, s.mem, s.runnable, s.fault, f, s'.pt[f]);
  }

  lemma RemarkKeeps(s: State, e: Env)
    requires Inv(s) && CanRemark(s, e)
    ensures Here(s.fork, e) in s.pt && Inv(DoRemark(s, e))
  {
    RemarkForks(s, e);
    RemarkPages(s, e);
  }

  lemma StackKeeps(s: State, e: Env, page: nat)
    requires Inv(s) && CanStack(s, e, page)
    ensures Inv(DoStack(s, e, page))
  {
    var s' := DoStack(s, e, page);
    var k, pte := Va(ForkOf(s.fork, e).child, UXSTACK), Writable(page);
    OneInflight(s, e);
    OtherForks(s, s'.pt, s'.inflight, e);
    FreshPages(s.pt, s.mem, s.envs, k, pte);
    FreshPrivate(s.pt, s.fault, s.inflight, k, pte);
    FreshFaults(s.pt, s.mem, s.runnable, s.fault, k, pte);
    ChildrenAdvance(s.envs, s.runnable, s.fork, s'.fork, e);
    ForksAfter(s, s', e);
    InflightAfter(s, s', e);
  }

  lemma StartKeeps(s: State, e: Env)
    requires Inv(s) && CanStart(s, e)
    ensures Inv(DoStart(s, e))
  {
    ForkUpdate(s.fork, DoStart(s, e).fork, e);
  }

  lemma FaultKeeps(s: State, e: Env, v: nat, page: nat)
    requires Inv(s) && CanFault(s, e, v, page)
    ensures Inv(DoFault(s, e, v, page))
  {
    var s' := DoFault(s, e, v, page);
    var k, pte := Va(e, PFTEMP), Writable(page);
    FreshPages(s.pt, s.mem, s.envs, k, pte);
    FreshPrivate(s.pt, s.fault, s.inflight, k, pte);
    FaultPrivate(s'.pt, s.fault, s'.fault, s.inflight, e);
    ScratchForks(s, s'.pt, e);
    FaultsAfter(s, s', e);
  }

  lemma CopyKeeps(s: State, e: Env, v: nat)
    requires Inv(s) && FaultOf(s.fault, e) == Alloced(v)
    ensures FaultOk(s.pt, s.mem, Alloced(v), e) && Inv(DoCopy(s, e, v))
  {
    var s' := DoCopy(s, e, v);
    FaultPrivate(s.pt, s.fault, s'.fault, s.inflight, e);
    SoleScratch(s, e);
    FaultsAfter(s, s', e);
  }

  /** Before the remapping call, the page at PFTEMP is mapped there alone. */
  lemma SoleScratch(s: State, e: Env)
    requires Inv(s) && (FaultOf(s.fault, e).Alloced? || FaultOf(s.fault, e).Copied?)
    ensures FaultOk(s.pt, s.mem, FaultOf(s.fault, e), e)
    ensures forall k :: k in s.pt && k != Va(e, PFTEMP) ==> s.pt[k].page != s.pt[Va(e, PFTEMP)].page
  {
    OneInflight(s, e);
    assert FaultOk(s.pt, s.mem, FaultOf(s.fault, e), e);
    forall k | k in s.pt && k != Va(e, PFTEMP)
      ensures s.pt[k].page != s.pt[Va(e, PFTEMP)].page
    {
      assert s.pt[k].page == s.pt[Va(e, PFTEMP)].page ==> Exempt(s.fault, s.inflight, Va(e, PFTEMP), k);
    }
  }

  lemma RemapForks(s: State, e: Env, v: nat)
    requires ForkInv(s) && e in s.runnable && Va(e, v) in s.pt && Va(e, PFTEMP) in s.pt && !s.pt[Va(e, v)].share
    ensures ForkInv(DoRemap(s, e, v))
  {
    var s', fork := DoRemap(s, e, v), ForkOf(s.fork, e);
    OneInflight(s, e);
    OtherForks(s, s'.pt, s'.inflight, e);
    RemapOwnFork(s.pt, s.inflight, s'.pt, s'.inflight, fork, e, v);
    RemapInflight(s, e, v);
  }

  lemma RemapOwnFork(pt: map<Va, Pte>, inflight: map<Va, Env>, pt': map<Va, Pte>, inflight': map<Va, Env>,
                     fork: Fork, e: Env, v: nat)
    requires ForkOk(pt, inflight, fork, e) && Va(e, v) in pt && Va(e, PFTEMP) in pt
    requires pt' == pt[Va(e, v) := Writable(pt[Va(e, PFTEMP)].page)]
    requires forall k :: k in inflight && !(fork.Mapped? && k == Va(fork.child, v)) ==> k in inflight'
    ensures ForkOk(pt', inflight', fork, e)
  {
    assert pt'.Keys == pt.Keys;
    if fork.Mapped? {
      var t := Va(fork.child, fork.next);
      assert (pt' - {t}).Keys == (pt - {t}).Keys;
      assert MappedOk(pt', inflight', e, fork.child, fork.next);
    }
  }

  lemma RemapInflight(s: State, e: Env, v: nat)
    requires ForkInv(s) && e in s.runnable && Va(e, v) in s.pt && Va(e, PFTEMP) in s.pt
    ensures var s' := DoRemap(s, e, v); InflightOk(s'.pt, s'.fork, s'.inflight)
  {
    OneInflight(s, e);
    var s' := DoRemap(s, e, v);
    forall k | k in s'.inflight
      ensures k in s.inflight && ForkOf(s.fork, s.inflight[k]) == Mapped(k.env, k.vpn)
      ensures k != Va(e, v) && Va(s.inflight[k], k.vpn) != Va(e, v)
    {
    }
  }

  lemma RemapPages(s: State, e: Env, v: nat)
    requires PageTables(s.pt, s.mem, s.envs) && PrivateWritable(s.pt, s.fault, s.inflight)
    requires FaultOf(s.fault, e).Copied? && v != PFTEMP && Va(e, v) in s.pt && Va(e, PFTEMP) in s.pt
    requires s.pt[Va(e, v)].share == s.pt[Va(e, PFTEMP)].share == false
    requires forall k :: k in s.pt && k != Va(e, PFTEMP) ==> s.pt[k].page != s.pt[Va(e, PFTEMP)].page
    requires Parted(s, e, v) ==> var k := There(s.fork, e);
      s.inflight[k] == e && FaultOf(s.fault, k.env).NoFault? && k in s.pt && s.pt[k].page == s.pt[Va(e, v)].page
    ensures var s' := DoRemap(s, e, v);
      PageTables(s'.pt, s'.mem, s'.envs) && PrivateWritable(s'.pt, s'.fault, s'.inflight)
  {
    var f, t := Va(e, v), Va(e, PFTEMP);
    var gone := if Parted(s, e, v) then {There(s.fork, e)} else {};
    assert s.inflight - gone == DoRemap(s, e, v).inflight;
    DupPages(s.pt, s.mem, s.envs, t, f, Writable(s.pt[t].page));
    RemapPrivate(s.pt, s.fault, s.inflight, e, v, gone);
  }

  lemma PartedOk(s: State, e: Env, v: nat)
    requires Inv(s) && Parted(s, e, v) && Va(e, v) in s.pt
    ensures var k := There(s.fork, e);
      && s.inflight[k] == e && k.vpn == v && FaultOf(s.fault, k.env).NoFault?
      && k in s.pt && s.pt[k].page == s.pt[Va(e, v)].page
  {
    assert ForkOf(s.fork, s.inflight[There(s.fork, e)]) == Mapped(There(s.fork, e).env, v);
  }

  /** A page given to a forking parent by a fault leaves its fork in order, parted or not. */
  lemma RemapKeeps(s: State, e: Env, v: nat)
    requires Inv(s) && FaultOf(s.fault, e) == Copied(v)
    ensures FaultOk(s.pt, s.mem, Copied(v), e) && Inv(DoRemap(s, e, v))
  {
    SoleScratch(s, e);
    if Parted(s, e, v) {
      PartedOk(s, e, v);
    }
    RemapPages(s, e, v);
    RemapForks(s, e, v);
    FaultsAfter(s, DoRemap(s, e, v), e);
  }

  lemma DoneKeeps(s: State, e: Env, v: nat)
    requires Inv(s) && FaultOf(s.fault, e) == Remapped(v)
    ensures Inv(DoDone(s, e))
  {
    var s' := DoDone(s, e);
    assert PrivateWritable(s'.pt, s.fault, s.inflight);
    FaultPrivate(s'.pt, s.fault, s'.fault, s.inflight, e);
    ScratchForks(s, s'.pt, e);
    FaultsAfter(s, s', e);
  }

  lemma StepKeeps(s: State, ev: Event)
    requires Inv(s) && Enabled(s, ev)
    ensures Inv(Next(s, ev))
  {
    match ev
    case Store(e, v, off, b) => StoreKeeps(s, e, v, off, b);
    case Alloc(e, v, w, share, page) => AllocKeeps(s, e, v, w, share, page);
    case Unmap(e, v) => UnmapKeeps(s, e, v);
    case ShareMap(e, v, dst) => ShareMapKeeps(s, e, v, dst);
    case Exofork(e, c) => ExoforkKeeps(s, e, c);
    case Skip(e) => SkipKeeps(s, e);
    case Dup(e) => DupKeeps(s, e);
    case MapChild(e) => MapChildKeeps(s, e);
    case Remark(e) => RemarkKeeps(s, e);
    case Stack(e, page) => StackKeeps(s, e, page);
    case Start(e) => StartKeeps(s, e);
    case FaultAlloc(e, v, page) => FaultKeeps(s, e, v, page);
    case FaultCopy(e) => CopyKeeps(s, e, FaultOf(s.fault, e).vpn);
    case FaultRemap(e) => RemapKeeps(s, e, FaultOf(s.fault, e).vpn);
    case FaultDone(e) => DoneKeeps(s, e, FaultOf(s.fault, e).vpn);
  }
}
