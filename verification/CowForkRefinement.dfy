/**
 The copy-on-write machine refines the eager one: each call is one eager operation
 or none, and so is every run of any number of environments.
 */
module CowForkRefinement {
  import opened CowFork
  import opened CowForkInvariant

  // ------------------------------------------------------------------
  // Meanings of the state changes
  // ------------------------------------------------------------------

  ghost predicate ShareVisible(pt: map<Va, Pte>, inflight: map<Va, Env>) {
    forall k :: k in pt && pt[k].share ==> Visible(inflight, k)
  }

  lemma InvShareVisible(s: State)
    requires Inv(s)
    ensures ShareVisible(s.pt, s.inflight)
  {
    forall k | k in s.pt && s.pt[k].share
      ensures Visible(s.inflight, k)
    {
      assert k.vpn == PFTEMP ==> !FaultOf(s.fault, k.env).NoFault? && FaultOk(s.pt, s.mem, FaultOf(s.fault, k.env), k.env);
    }
  }

  /** Collecting leaves exactly the common pages that some entry still names. */
  lemma CollectCommon(pt: map<Va, Pte>, mem: map<nat, Page>, inflight: map<Va, Env>, common: map<nat, Page>)
    requires Backed(pt, mem) && ShareVisible(pt, inflight)
    requires forall p :: Shared(pt, p) ==> p in common && p in mem && common[p] == mem[p]
    ensures Collect(Eager(View(pt, mem, inflight), common)) == Eager(View(pt, mem, inflight), CommonPages(pt, mem))
  {
    var view := View(pt, mem, inflight);
    forall p
      ensures Held(view, p) <==> Shared(pt, p)
    {
      if Held(view, p) {
        var k :| k in view && view[k] == Common(p);
        assert pt[k].share && pt[k].page == p;
      }
      if Shared(pt, p) {
        var k :| k in pt && pt[k].page == p && pt[k].share;
        assert view[k] == Common(p);
      }
    }
  }

  lemma SharedPut(pt: map<Va, Pte>, k: Va, pte: Pte)
    ensures forall p :: Shared(pt[k := pte], p) ==> Shared(pt, p) || (pte.share && p == pte.page)
  {
    forall p | Shared(pt[k := pte], p)
      ensures Shared(pt, p) || (pte.share && p == pte.page)
    {
      var i :| i in pt[k := pte] && pt[k := pte][i].page == p && pt[k := pte][i].share;
      assert i != k ==> i in pt && pt[i].page == p && pt[i].share;
    }
  }

  // ------------------------------------------------------------------
  // Every transition means one eager operation, or none
  // ------------------------------------------------------------------

  /** No visible entry but `k` itself names the page that `k` may write. */
  lemma SoleWriter(s: State, k: Va)
    requires Inv(s) && k in s.pt && s.pt[k].w && !s.pt[k].share
    requires k.vpn != PFTEMP || !FaultOf(s.fault, k.env).Remapped?
    ensures forall i :: i in s.pt && i != k && s.pt[i].page == s.pt[k].page ==> !Visible(s.inflight, i)
  {
    forall i | i in s.pt && i != k && s.pt[i].page == s.pt[k].page
      ensures !Visible(s.inflight, i)
    {
      assert Exempt(s.fault, s.inflight, k, i);
    }
  }

  /** A byte written to the page of `k`, which is shared or no other visible entry names. */
  lemma WriteMeans(pt: map<Va, Pte>, mem: map<nat, Page>, inflight: map<Va, Env>, k: Va, off: nat, b: Byte)
    requires Backed(pt, mem) && ShareVisible(pt, inflight) && k in pt && Visible(inflight, k) && off < PGSIZE
    requires forall i :: i in pt && pt[i].page == pt[k].page ==> pt[i].share == pt[k].share
    requires !pt[k].share ==> forall i :: i in pt && i != k && pt[i].page == pt[k].page ==> !Visible(inflight, i)
    ensures EagerEnabled(Mean(pt, mem, inflight), Put(k, off, b))
    ensures Mean(pt, mem[pt[k].page := mem[pt[k].page][off := b]], inflight)
         == EagerStep(Mean(pt, mem, inflight), Put(k, off, b))
  {
    var mem' := mem[pt[k].page := mem[pt[k].page][off := b]];
    var after := EagerStep(Mean(pt, mem, inflight), Put(k, off, b));
    if pt[k].share {
      assert Shared(pt, pt[k].page);
    }
    assert View(pt, mem', inflight) == after.view;
    assert CommonPages(pt, mem') == after.common;
  }

  /** A fresh page at a visible place. */
  lemma FreshMeans(pt: map<Va, Pte>, mem: map<nat, Page>, inflight: map<Va, Env>, k: Va, pte: Pte)
    requires Backed(pt, mem) && ShareVisible(pt, inflight) && Unused(pt, pte.page) && Visible(inflight, k)
    ensures Mean(pt[k := pte], mem[pte.page := Zero()], inflight)
         == EagerStep(Mean(pt, mem, inflight), Fresh(k, pte.share, pte.page))
  {
    var pt', mem' := pt[k := pte], mem[pte.page := Zero()];
    assert View(pt', mem', inflight) == View(pt, mem, inflight)[k := CellOf(pte, mem')] by {
      FreshView(pt, mem, inflight, k, pte);
    }
    var common := if pte.share then CommonPages(pt, mem)[pte.page := Zero()] else CommonPages(pt, mem);
    assert forall p :: Shared(pt', p) ==> p in common && p in mem' && common[p] == mem'[p] by {
      SharedPut(pt, k, pte);
    }
    CollectCommon(pt', mem', inflight, common);
  }

  lemma FreshView(pt: map<Va, Pte>, mem: map<nat, Page>, inflight: map<Va, Env>, k: Va, pte: Pte)
    requires Backed(pt, mem) && Unused(pt, pte.page) && Visible(inflight, k)
    ensures Backed(pt[k := pte], mem[pte.page := Zero()])
    ensures View(pt[k := pte], mem[pte.page := Zero()], inflight)
         == View(pt, mem, inflight)[k := CellOf(pte, mem[pte.page := Zero()])]
  {
  }

  lemma CommonHas(pt: map<Va, Pte>, mem: map<nat, Page>)
    requires Backed(pt, mem)
    ensures forall p :: Shared(pt, p) ==> p in CommonPages(pt, mem) && p in mem && CommonPages(pt, mem)[p] == mem[p]
  {
  }

  /** A second visible entry for a page, with the same sharing, copies the view. */
  lemma DupMeans(pt: map<Va, Pte>, mem: map<nat, Page>, inflight: map<Va, Env>, src: Va, dst: Va, pte: Pte)
    requires Backed(pt, mem) && ShareVisible(pt, inflight)
    requires src in pt && Visible(inflight, src) && Visible(inflight, dst)
    requires pte.page == pt[src].page && pte.share == pt[src].share
    ensures EagerEnabled(Mean(pt, mem, inflight), Copy(src, dst))
    ensures Mean(pt[dst := pte], mem, inflight) == EagerStep(Mean(pt, mem, inflight), Copy(src, dst))
  {
    hide CommonPages;
    SharedPut(pt, dst, pte);
    CommonHas(pt, mem);
    assert pt[src].share ==> Shared(pt, pt[src].page);
    CollectCommon(pt[dst := pte], mem, inflight, CommonPages(pt, mem));
    assert View(pt[dst := pte], mem, inflight) == View(pt, mem, inflight)[dst := View(pt, mem, inflight)[src]];
  }

  /** The same for an entry that was there already and now stops being in flight. */
  lemma PartMeans(pt: map<Va, Pte>, mem: map<nat, Page>, inflight: map<Va, Env>, src: Va, dst: Va)
    requires Backed(pt, mem) && ShareVisible(pt, inflight)
    requires src in pt && Visible(inflight, src) && dst in inflight && dst.vpn != PFTEMP
    requires dst in pt && pt[dst].page == pt[src].page && !pt[dst].share && !pt[src].share
    ensures EagerEnabled(Mean(pt, mem, inflight), Copy(src, dst))
    ensures Mean(pt, mem, inflight - {dst}) == EagerStep(Mean(pt, mem, inflight), Copy(src, dst))
  {
    var inflight' := inflight - {dst};
    CollectCommon(pt, mem, inflight', CommonPages(pt, mem));
    assert View(pt, mem, inflight') == View(pt, mem, inflight)[dst := View(pt, mem, inflight)[src]];
  }

  lemma DropMeans(pt: map<Va, Pte>, mem: map<nat, Page>, inflight: map<Va, Env>, k: Va)
    requires Backed(pt, mem) && ShareVisible(pt, inflight)
    ensures Mean(pt - {k}, mem, inflight) == EagerStep(Mean(pt, mem, inflight), Drop(k))
  {
    var pt' := pt - {k};
    forall p | Shared(pt', p)
      ensures Shared(pt, p)
    {
      var i :| i in pt' && pt'[i].page == p && pt'[i].share;
      assert i in pt && pt[i] == pt'[i];
    }
    CollectCommon(pt', mem, inflight, CommonPages(pt, mem));
    assert View(pt', mem, inflight) == View(pt, mem, inflight) - {k};
  }

  /** A change of one private entry that leaves its bytes, or hides it before and after, does not show. */
  lemma PrivateEntryMeans(pt: map<Va, Pte>, mem: map<nat, Page>, inflight: map<Va, Env>, k: Va, pte: Pte)
    requires Backed(pt, mem) && pte.page in mem && !pte.share && (k in pt ==> !pt[k].share)
    requires Visible(inflight, k) ==> k in pt && mem[pte.page] == mem[pt[k].page]
    ensures Mean(pt[k := pte], mem, inflight) == Mean(pt, mem, inflight)
  {
    SharedPut(pt, k, pte);
    forall p | Shared(pt, p)
      ensures Shared(pt[k := pte], p)
    {
      var i :| i in pt && pt[i].page == p && pt[i].share;
      assert pt[k := pte][i] == pt[i];
    }
    assert View(pt[k := pte], mem, inflight) == View(pt, mem, inflight);
    assert CommonPages(pt[k := pte], mem) == CommonPages(pt, mem);
  }

  /** Bytes of a page that only hidden private entries name do not show. */
  lemma HiddenBytesMean(pt: map<Va, Pte>, mem: map<nat, Page>, inflight: map<Va, Env>, page: nat, bytes: Page)
    requires Backed(pt, mem)
    requires forall i :: i in pt && pt[i].page == page ==> !Visible(inflight, i) && !pt[i].share
    ensures Mean(pt, mem[page := bytes], inflight) == Mean(pt, mem, inflight)
  {
    var mem' := mem[page := bytes];
    assert View(pt, mem', inflight) == View(pt, mem, inflight);
    assert CommonPages(pt, mem') == CommonPages(pt, mem);
  }

  /** A private entry that was not there, or is hidden, may appear or vanish while hidden. */
  lemma HiddenEntryMeans(pt: map<Va, Pte>, mem: map<nat, Page>, inflight: map<Va, Env>, inflight': map<Va, Env>, k: Va)
    requires Backed(pt, mem) && k in pt && !pt[k].share && !Visible(inflight', k)
    requires forall i :: i != k ==> (Visible(inflight, i) <==> Visible(inflight', i))
    ensures Mean(pt, mem, inflight') == Mean(pt - {k}, mem, inflight)
  {
    var pt' := pt - {k};
    forall p
      ensures Shared(pt, p) <==> Shared(pt', p)
    {
      if Shared(pt, p) {
        var i :| i in pt && pt[i].page == p && pt[i].share;
        assert i in pt' && pt'[i] == pt[i];
      }
      if Shared(pt', p) {
        var i :| i in pt' && pt'[i].page == p && pt'[i].share;
        assert i in pt && pt[i] == pt'[i];
      }
    }
    assert View(pt, mem, inflight') == View(pt', mem, inflight);
    assert CommonPages(pt, mem) == CommonPages(pt', mem);
  }

  lemma DupMeansCopy(s: State, e: Env)
    requires Inv(s) && CanDup(s, e)
    ensures Inv(DoDup(s, e)) && EagerEnabled(Meaning(s), CopyHere(s, e))
    ensures Meaning(DoDup(s, e)) == EagerStep(Meaning(s), CopyHere(s, e))
  {
    DupKeeps(s, e);
    InvShareVisible(s);
    OneInflight(s, e);
    var f, t := Here(s.fork, e), There(s.fork, e);
    assert ForkOk(s.pt, s.inflight, ForkOf(s.fork, e), e);
    DupMeans(s.pt, s.mem, s.inflight, f, t, DoDup(s, e).pt[t]);
  }

  lemma MapChildMeansNothing(s: State, e: Env)
    requires Inv(s) && CanMapChild(s, e)
    ensures Inv(DoMapChild(s, e)) && Meaning(DoMapChild(s, e)) == Meaning(s)
  {
    hide CommonPages, Collect;
    MapChildKeeps(s, e);
    var s', t := DoMapChild(s, e), There(s.fork, e);
    assert ForkOk(s.pt, s.inflight, ForkOf(s.fork, e), e);
    assert s'.pt - {t} == s.pt;
    HiddenEntryMeans(s'.pt, s.mem, s.inflight, s'.inflight, t);
  }

  lemma RemarkMeansCopy(s: State, e: Env)
    requires Inv(s) && CanRemark(s, e)
    ensures Here(s.fork, e) in s.pt && Inv(DoRemark(s, e))
    ensures EagerEnabled(Meaning(s), Label(s, Remark(e)))
    ensures Meaning(DoRemark(s, e)) == EagerStep(Meaning(s), Label(s, Remark(e)))
  {
    hide PageInv, ForkInv, View, CommonPages, Collect;
    RemarkKeeps(s, e);
    RemarkedEntry(s, e);
    if InFlight(s, e) {
      RemarkParts(s, e);
    } else {
      assert s.inflight - {There(s.fork, e)} == s.inflight;
    }
  }

  lemma RemarkedEntry(s: State, e: Env)
    requires Inv(s) && CanRemark(s, e)
    ensures Here(s.fork, e) in s.pt
    ensures var pt := s.pt[Here(s.fork, e) := Cow(s.pt[Here(s.fork, e)].page)];
      && Backed(pt, s.mem) && Mean(pt, s.mem, s.inflight) == Meaning(s)
  {
    var f, t := Here(s.fork, e), There(s.fork, e);
    assert MappedOk(s.pt, s.inflight, e, t.env, f.vpn) by {
      assert ForkOk(s.pt, s.inflight, ForkOf(s.fork, e), e);
    }
    PrivateEntryMeans(s.pt, s.mem, s.inflight, f, Cow(s.pt[f].page));
  }

  lemma RemarkParts(s: State, e: Env)
    requires Inv(s) && CanRemark(s, e) && InFlight(s, e)
    ensures Here(s.fork, e) in s.pt
    ensures var f, t := Here(s.fork, e), There(s.fork, e);
      var pt := s.pt[f := Cow(s.pt[f].page)];
      && Backed(pt, s.mem)
      && EagerEnabled(Mean(pt, s.mem, s.inflight), Copy(f, t))
      && Mean(pt, s.mem, s.inflight - {t}) == EagerStep(Mean(pt, s.mem, s.inflight), Copy(f, t))
  {
    InvShareVisible(s);
    OneInflight(s, e);
    var f, t := Here(s.fork, e), There(s.fork, e);
    assert MappedOk(s.pt, s.inflight, e, t.env, f.vpn) by {
      assert ForkOk(s.pt, s.inflight, ForkOf(s.fork, e), e);
    }
    assert ForkOf(s.fork, s.inflight[t]) == Mapped(t.env, t.vpn);
    PartMeans(s.pt[f := Cow(s.pt[f].page)], s.mem, s.inflight, f, t);
  }

  lemma StackMeansFresh(s: State, e: Env, page: nat)
    requires Inv(s) && CanStack(s, e, page)
    ensures Inv(DoStack(s, e, page))
    ensures Meaning(DoStack(s, e, page)) == EagerStep(Meaning(s), Fresh(Va(ForkOf(s.fork, e).child, UXSTACK), false, page))
  {
    StackKeeps(s, e, page);
    InvShareVisible(s);
    OneInflight(s, e);
    assert ForkOk(s.pt, s.inflight, ForkOf(s.fork, e), e);
    var t := Va(ForkOf(s.fork, e).child, UXSTACK);
    assert forall k :: k in s.inflight ==> ForkOf(s.fork, s.inflight[k]) == Mapped(k.env, k.vpn);
    FreshMeans(s.pt, s.mem, s.inflight, t, Writable(page));
  }

  lemma FaultCallsMean(s: State, ev: Event)
    requires Inv(s) && Enabled(s, ev) && Inv(Next(s, ev))
    requires ev.FaultAlloc? || ev.FaultCopy? || ev.FaultRemap? || ev.FaultDone?
    ensures EagerEnabled(Meaning(s), Label(s, ev))
    ensures Meaning(Next(s, ev)) == EagerStep(Meaning(s), Label(s, ev))
  {
    InvShareVisible(s);
    OneInflight(s, ev.env);
    var s', k, v := Next(s, ev), Va(ev.env, PFTEMP), if ev.FaultAlloc? then ev.vpn else FaultOf(s.fault, ev.env).vpn;
    var f := Va(ev.env, v);
    if !ev.FaultAlloc? {
      assert FaultOk(s.pt, s.mem, FaultOf(s.fault, ev.env), ev.env);
      if !ev.FaultDone? {
        SoleWriter(s, k);
      }
    }
    match ev
    case FaultAlloc(e, _, page) =>
      HiddenBytesMean(s.pt, s.mem, s.inflight, page, Zero());
      PrivateEntryMeans(s.pt, s'.mem, s.inflight, k, s'.pt[k]);
    case FaultCopy(e) =>
      HiddenBytesMean(s.pt, s.mem, s.inflight, s.pt[k].page, s.mem[s.pt[f].page]);
    case FaultRemap(e) =>
      if Parted(s, e, v) {
        PartMeans(s.pt, s.mem, s.inflight, f, There(s.fork, e));
      }
      PrivateEntryMeans(s.pt, s.mem, s'.inflight, f, s'.pt[f]);
    case FaultDone(e) =>
      HiddenEntryMeans(s.pt, s.mem, s.inflight, s.inflight, k);
  }

  /** Forward simulation: one step of the copy-on-write machine is one eager operation or none. */
  lemma StepRefines(s: State, ev: Event)
    requires Inv(s) && Enabled(s, ev)
    ensures Inv(Next(s, ev))
    ensures EagerEnabled(Meaning(s), Label(s, ev))
    ensures Meaning(Next(s, ev)) == EagerStep(Meaning(s), Label(s, ev))
  {
    StepKeeps(s, ev);
    InvShareVisible(s);
    OneInflight(s, ev.env);
    match ev
    case Store(e, v, off, b) =>
      if !s.pt[Va(e, v)].share {
        SoleWriter(s, Va(e, v));
      }
      WriteMeans(s.pt, s.mem, s.inflight, Va(e, v), off, b);
    case Alloc(e, v, w, share, page) => FreshMeans(s.pt, s.mem, s.inflight, Va(e, v), Pte(page, w, false, share));
    case Unmap(e, v) => DropMeans(s.pt, s.mem, s.inflight, Va(e, v));
    case ShareMap(e, v, dst) => DupMeans(s.pt, s.mem, s.inflight, Va(e, v), Va(e, dst), s.pt[Va(e, v)]);
    case Exofork(_, _) =>
    case Skip(_) =>
    case Start(_) =>
    case Dup(_) => DupMeansCopy(s, ev.env);
    case MapChild(_) => MapChildMeansNothing(s, ev.env);
    case Remark(_) => RemarkMeansCopy(s, ev.env);
    case Stack(_, _) => StackMeansFresh(s, ev.env, ev.page);
    case FaultAlloc(_, _, _) => FaultCallsMean(s, ev);
    case FaultCopy(_) => FaultCallsMean(s, ev);
    case FaultRemap(_) => FaultCallsMean(s, ev);
    case FaultDone(_) => FaultCallsMean(s, ev);
  }

  // ------------------------------------------------------------------
  // Runs
  // ------------------------------------------------------------------

  ghost predicate IsRun(s: State, evs: seq<Event>)
    requires Inv(s)
    decreases |evs|, 0
  {
    evs == [] || (IsRun(s, evs[..|evs| - 1]) && Enabled(After(s, evs[..|evs| - 1]), evs[|evs| - 1]))
  }

  ghost function After(s: State, evs: seq<Event>): (s': State)
    requires Inv(s) && IsRun(s, evs)
    ensures Inv(s')
    decreases |evs|, 1
  {
    if evs == [] then s
    else
      var mid := After(s, evs[..|evs| - 1]);
      StepRefines(mid, evs[|evs| - 1]);
      Next(mid, evs[|evs| - 1])
  }

  ghost function Labels(s: State, evs: seq<Event>): (ops: seq<EagerOp>)
    requires Inv(s) && IsRun(s, evs)
    ensures |ops| == |evs|
  {
    if evs == [] then []
    else Labels(s, evs[..|evs| - 1]) + [Label(After(s, evs[..|evs| - 1]), evs[|evs| - 1])]
  }

  ghost predicate IsEagerRun(e: Eager, ops: seq<EagerOp>)
    decreases |ops|, 0
  {
    ops == [] || (IsEagerRun(e, ops[..|ops| - 1]) && EagerEnabled(EagerAfter(e, ops[..|ops| - 1]), ops[|ops| - 1]))
  }

  ghost function EagerAfter(e: Eager, ops: seq<EagerOp>): Eager
    requires IsEagerRun(e, ops)
    decreases |ops|, 1
  {
    if ops == [] then e else EagerStep(EagerAfter(e, ops[..|ops| - 1]), ops[|ops| - 1])
  }

  /** Copy-on-write fork refines eager copying, over every run of any number of environments. */
  lemma {:induction false} RunRefines(s: State, evs: seq<Event>)
    requires Inv(s) && IsRun(s, evs)
    ensures IsEagerRun(Meaning(s), Labels(s, evs))
    ensures Meaning(After(s, evs)) == EagerAfter(Meaning(s), Labels(s, evs))
    decreases |evs|
  {
    if evs != [] {
      var front := evs[..|evs| - 1];
      RunRefines(s, front);
      StepRefines(After(s, front), evs[|evs| - 1]);
      assert Labels(s, evs)[..|evs| - 1] == Labels(s, front);
    }
  }

  /** One environment with pages of its own is a state to start from. */
  lemma BootInv(s: State, e: Env)
    requires s.envs == s.runnable == {e} && s.fork == map[] && s.fault == map[] && s.inflight == map[]
    requires forall k :: k in s.pt ==>
      k.env == e && k.vpn < UTOP && k.vpn != PFTEMP && s.pt[k].page in s.mem && !(s.pt[k].cow && s.pt[k].share)
    requires forall k, k' :: k in s.pt && k' in s.pt && k != k' ==> s.pt[k].page != s.pt[k'].page
    ensures Inv(s)
  {
  }

  /** When the child starts, the scan has missed no page of its parent and added none but the exception stack. */
  lemma ChildPages(s: State, e: Env, v: nat)
    requires Inv(s) && CanStart(s, e)
    ensures var c := ForkOf(s.fork, e).child;
      && c !in s.runnable
      && (Va(c, v) in Meaning(s).view <==>
          v == UXSTACK || (v != PFTEMP && Va(e, v) in Meaning(s).view))
  {
    var c := ForkOf(s.fork, e).child;
    assert ForkOk(s.pt, s.inflight, ForkOf(s.fork, e), e);
    OneInflight(s, e);
    assert forall k :: k in s.inflight ==> ForkOf(s.fork, s.inflight[k]) == Mapped(k.env, k.vpn);
  }

  /** An operation of the eager machine that is not about `k` leaves the bytes `k` owns. */
  predicate Touches(op: EagerOp, k: Va) {
    match op
    case Stay => false
    case Put(i, _, _) => i == k
    case Fresh(i, _, _) => i == k
    case Drop(i) => i == k
    case Copy(_, dst) => dst == k
  }

  lemma UntouchedStays(e: Eager, op: EagerOp, k: Va)
    requires EagerEnabled(e, op) && !Touches(op, k) && k in e.view
    ensures k in EagerStep(e, op).view && EagerStep(e, op).view[k] == e.view[k]
  {
  }

  /** Nothing comes into view untouched. */
  lemma UntouchedWas(e: Eager, op: EagerOp, k: Va)
    requires EagerEnabled(e, op) && !Touches(op, k) && k in EagerStep(e, op).view
    ensures k in e.view && e.view[k] == EagerStep(e, op).view[k]
  {
  }

  /** A fork that is in progress after a step was in progress before, or is begun by it. */
  lemma ForkWas(s: State, ev: Event, e: Env)
    requires Inv(s) && Enabled(s, ev) && !ForkOf(Next(s, ev).fork, e).NotForking?
    ensures var c := ForkOf(Next(s, ev).fork, e).child;
      if ev == Exofork(e, c) then c !in s.envs
      else !ForkOf(s.fork, e).NotForking? && ForkOf(s.fork, e).child == c && c in s.envs && c !in s.runnable
  {
    hide PageInv, ForksOk, InflightOk;
    var c := ForkOf(Next(s, ev).fork, e).child;
    if ev.env != e {
      assert ForkOf(Next(s, ev).fork, e) == ForkOf(s.fork, e);
    }
  }

  /** Until it starts, only its parent touches the pages of a child, once for each. */
  lemma ChildTouched(s: State, ev: Event, e: Env, v: nat)
    requires Inv(s) && Enabled(s, ev) && !ForkOf(Next(s, ev).fork, e).NotForking?
    requires Touches(Label(s, ev), Va(ForkOf(Next(s, ev).fork, e).child, v))
    ensures var k := Va(ForkOf(Next(s, ev).fork, e).child, v);
      if v == UXSTACK then Label(s, ev).Fresh? && !Label(s, ev).share else Label(s, ev) == Copy(Va(e, v), k)
  {
    hide PageInv, InflightOk;
    ForkWas(s, ev, e);
    assert ForkOk(s.pt, s.inflight, ForkOf(s.fork, ev.env), ev.env);
  }

  lemma {:induction false} PrefixIsRun(s: State, evs: seq<Event>, i: nat)
    requires Inv(s) && IsRun(s, evs) && i <= |evs|
    ensures IsRun(s, evs[..i])
    decreases |evs|
  {
    if i < |evs| {
      PrefixIsRun(s, evs[..|evs| - 1], i);
      assert evs[..|evs| - 1][..i] == evs[..i];
    } else {
      assert evs[..i] == evs;
    }
  }

  /** Step `i` of the run means a copy of `src` to `dst`, which shows in the end what `src` showed then. */
  ghost predicate CopiedAt(s: State, evs: seq<Event>, i: nat, src: Va, dst: Va)
    requires Inv(s) && IsRun(s, evs) && i < |evs|
  {
    PrefixIsRun(s, evs, i);
    var t := After(s, evs[..i]);
    && Label(t, evs[i]) == Copy(src, dst)
    && src in Meaning(t).view && dst in Meaning(After(s, evs)).view
    && Meaning(After(s, evs)).view[dst] == Meaning(t).view[src]
  }

  /** A page that the child of `e` has in view is its fresh exception stack, or came by a copy. */
  ghost predicate CameByCopy(s: State, evs: seq<Event>, e: Env, c: Env, v: nat)
    requires Inv(s) && IsRun(s, evs)
  {
    Va(c, v) in Meaning(After(s, evs)).view ==>
      if v == UXSTACK then Meaning(After(s, evs)).view[Va(c, v)] == Own(Zero())
      else exists i :: 0 <= i < |evs| && CopiedAt(s, evs, i, Va(e, v), Va(c, v))
  }

  lemma NotBorn(s: State, k: Va)
    requires Inv(s) && k.env !in s.envs
    ensures k !in Meaning(s).view
    ensures forall e :: !ForkOf(s.fork, e).NotForking? ==> ForkOf(s.fork, e).child != k.env
  {
  }

  lemma JustCopied(s: State, evs: seq<Event>, e: Env, c: Env, v: nat)
    requires Inv(s) && IsRun(s, evs) && evs != []
    requires var mid, ev := After(s, evs[..|evs| - 1]), evs[|evs| - 1];
      if v == UXSTACK then Label(mid, ev).Fresh? && !Label(mid, ev).share && Label(mid, ev).k == Va(c, v)
      else Label(mid, ev) == Copy(Va(e, v), Va(c, v))
    ensures CameByCopy(s, evs, e, c, v)
  {
    hide Inv, Label;
    StepRefines(After(s, evs[..|evs| - 1]), evs[|evs| - 1]);
    if v != UXSTACK {
      assert CopiedAt(s, evs, |evs| - 1, Va(e, v), Va(c, v));
    }
  }

  lemma StillCopied(s: State, evs: seq<Event>, e: Env, c: Env, v: nat)
    requires Inv(s) && IsRun(s, evs) && evs != [] && CameByCopy(s, evs[..|evs| - 1], e, c, v)
    requires var before := Meaning(After(s, evs[..|evs| - 1])).view;
      var after := Meaning(After(s, evs)).view;
      Va(c, v) in before && Va(c, v) in after && after[Va(c, v)] == before[Va(c, v)]
    ensures CameByCopy(s, evs, e, c, v)
  {
    hide Inv, Label, Meaning;
    var front := evs[..|evs| - 1];
    if v != UXSTACK {
      var i :| 0 <= i < |front| && CopiedAt(s, front, i, Va(e, v), Va(c, v));
      assert front[..i] == evs[..i] && front[i] == evs[i];
      assert CopiedAt(s, evs, i, Va(e, v), Va(c, v));
    }
  }

  /** In every run, whatever the parent and the others do meanwhile: each page that the child of a fork
      begun in the run has in view shows what the parent's page showed when it was copied. */
  lemma {:induction false} ChildBytes(s: State, evs: seq<Event>, e: Env, v: nat)
    requires Inv(s) && IsRun(s, evs) && !ForkOf(After(s, evs).fork, e).NotForking?
    requires ForkOf(After(s, evs).fork, e).child !in s.envs
    ensures CameByCopy(s, evs, e, ForkOf(After(s, evs).fork, e).child, v)
    decreases |evs|
  {
    hide PageInv, ForkInv, Label, Mean, CopiedAt;
    var c := ForkOf(After(s, evs).fork, e).child;
    if evs == [] {
      NotBorn(s, Va(c, v));
    } else {
      var mid, ev := After(s, evs[..|evs| - 1]), evs[|evs| - 1];
      StepRefines(mid, ev);
      ForkWas(mid, ev, e);
      if Touches(Label(mid, ev), Va(c, v)) {
        ChildTouched(mid, ev, e, v);
        JustCopied(s, evs, e, c, v);
      } else if Va(c, v) in Meaning(After(s, evs)).view {
        UntouchedWas(Meaning(mid), Label(mid, ev), Va(c, v));
        if ev == Exofork(e, c) {
          NotBorn(mid, Va(c, v));
        } else {
          ChildBytes(s, evs[..|evs| - 1], e, v);
          StillCopied(s, evs, e, c, v);
        }
      }
    }
  }

  /** When the child starts it is complete: it has its parent's pages and an exception stack of its own, and
      each page has the bytes that the parent had there when that page was copied. */
  lemma ChildComplete(s: State, evs: seq<Event>, e: Env, v: nat)
    requires Inv(s) && IsRun(s, evs) && CanStart(After(s, evs), e) && ForkOf(After(s, evs).fork, e).child !in s.envs
    ensures var t, c := After(s, evs), ForkOf(After(s, evs).fork, e).child;
      && c !in t.runnable && CameByCopy(s, evs, e, c, v)
      && (Va(c, v) in Meaning(t).view <==> v == UXSTACK || (v != PFTEMP && Va(e, v) in Meaning(t).view))
  {
    hide Inv, Meaning;
    ChildPages(After(s, evs), e, v);
    ChildBytes(s, evs, e, v);
  }

  lemma OthersDoNotTouch(s: State, ev: Event, k: Va)
    requires Inv(s) && Enabled(s, ev) && ev.env != k.env && k.env in s.runnable
    ensures !Touches(Label(s, ev), k) && k.env in Next(s, ev).runnable
  {
    assert ForkOf(s.fork, ev.env).NotForking? || ForkOf(s.fork, ev.env).child !in s.runnable;
  }

  /** Nobody else changes the private bytes of a running environment, whatever the others do. */
  lemma {:induction false} PrivateBytesStay(s: State, evs: seq<Event>, k: Va)
    requires Inv(s) && IsRun(s, evs) && k.env in s.runnable && k in Meaning(s).view && Meaning(s).view[k].Own?
    requires forall i :: 0 <= i < |evs| ==> evs[i].env != k.env
    ensures k.env in After(s, evs).runnable
    ensures k in Meaning(After(s, evs)).view && Meaning(After(s, evs)).view[k] == Meaning(s).view[k]
    decreases |evs|
  {
    if evs != [] {
      var mid, ev := After(s, evs[..|evs| - 1]), evs[|evs| - 1];
      PrivateBytesStay(s, evs[..|evs| - 1], k);
      StepRefines(mid, ev);
      OthersDoNotTouch(mid, ev, k);
      UntouchedStays(Meaning(mid), Label(mid, ev), k);
    }
  }
}
