/**
 What may be written after which call: the permissions in the page tables of the
 copy-on-write machine. A page that its owner may write is writable or copy-on-write.
 */
module CowForkRights {
  import opened CowFork
  import opened CowForkInvariant
  import opened CowForkRefinement

  predicate MayWrite(pte: Pte) {
    pte.w || pte.cow
  }

  /** The entry may name another page, but gives its owner what the other one gave. */
  predicate SameRights(p: Pte, q: Pte) {
    q.share == p.share && MayWrite(q) == MayWrite(p) && (p.share ==> q == p)
  }

  /** What fork makes of the entry `p`, in the child and in the parent: a PTE_SHARE entry is the same, any
      other is not writable, and copy-on-write exactly if it could be written. */
  predicate Protects(p: Pte, q: Pte) {
    q.share == p.share && if p.share then q == p else !q.w && (q.cow <==> p.w || p.cow)
  }

  /** The call is made by the owner of `k` to map or unmap that very page. */
  predicate Remaps(ev: Event, k: Va) {
    match ev
    case Alloc(e, v, _, _, _) => k == Va(e, v)
    case Unmap(e, v) => k == Va(e, v)
    case ShareMap(e, _, dst) => k == Va(e, dst)
    case _ => false
  }

  /** Whatever an environment does but map and unmap the page itself, nobody's rights to a page change. */
  lemma RightsStay(s: State, ev: Event, k: Va)
    requires Inv(s) && Enabled(s, ev) && k in s.pt && k.vpn != PFTEMP && !Remaps(ev, k)
    ensures k in Next(s, ev).pt && SameRights(s.pt[k], Next(s, ev).pt[k])
  {
    if ev.FaultCopy? || ev.FaultRemap? || ev.FaultDone? {
      hide ForkInv, PrivateWritable;
      assert FaultOk(s.pt, s.mem, FaultOf(s.fault, ev.env), ev.env);
    } else {
      hide PageInv;
      assert ForkOk(s.pt, s.inflight, ForkOf(s.fork, ev.env), ev.env);
    }
  }

  /** What the calls that map a page give to it. */
  lemma MappedAsAsked(s: State, ev: Event)
    requires Inv(s) && Enabled(s, ev) && (ev.Alloc? || ev.ShareMap? || ev.Unmap?)
    ensures match ev
      case Alloc(e, v, w, share, page) =>
        Va(e, v) in Next(s, ev).pt && Next(s, ev).pt[Va(e, v)] == Pte(page, w, false, share)
      case ShareMap(e, v, dst) =>
        Va(e, v) in s.pt && Va(e, dst) in Next(s, ev).pt && Next(s, ev).pt[Va(e, dst)] == s.pt[Va(e, v)]
      case _ => Va(ev.env, ev.vpn) !in Next(s, ev).pt
  {
  }

  /** A page of a child appears with its parent's page behind it, protected; the exception stack appears
      writable. */
  lemma AppearsProtected(s: State, ev: Event, k: Va)
    requires Inv(s) && Enabled(s, ev) && k !in s.pt && k in Next(s, ev).pt && k.vpn != PFTEMP && !Remaps(ev, k)
    ensures !ForkOf(s.fork, ev.env).NotForking? && ForkOf(s.fork, ev.env).child == k.env
    ensures var q := Next(s, ev).pt[k];
      if k.vpn == UXSTACK then q.w && !q.share
      else Va(ev.env, k.vpn) in s.pt && q.page == s.pt[Va(ev.env, k.vpn)].page && Protects(s.pt[Va(ev.env, k.vpn)], q)
  {
    assert ForkOk(s.pt, s.inflight, ForkOf(s.fork, ev.env), ev.env);
  }

  /** The child of `e` has been given its pages protected, and its parent has the rights it had. */
  ghost predicate Given(s: State, e: Env)
    requires !ForkOf(s.fork, e).NotForking?
  {
    forall k | k in s.pt && k.env == ForkOf(s.fork, e).child ::
      if k.vpn == UXSTACK then s.pt[k].w && !s.pt[k].share
      else k.vpn != PFTEMP && Va(e, k.vpn) in s.pt && Protects(s.pt[Va(e, k.vpn)], s.pt[k])
  }

  /** Nobody but the parent changes an entry of a child that does not run, and the parent only adds one. */
  lemma ChildStays(s: State, ev: Event, k: Va)
    requires Inv(s) && Enabled(s, ev) && k in s.pt && k.env !in s.runnable
    ensures k in Next(s, ev).pt && Next(s, ev).pt[k] == s.pt[k] && !Remaps(ev, k)
  {
    assert ForkOk(s.pt, s.inflight, ForkOf(s.fork, ev.env), ev.env);
  }

  lemma StepGives(s: State, ev: Event, e: Env)
    requires Inv(s) && Enabled(s, ev) && !ForkOf(Next(s, ev).fork, e).NotForking?
    requires ForkOf(s.fork, e).NotForking? || Given(s, e)
    ensures Given(Next(s, ev), e)
  {
    hide PageInv, ForkInv, Protects, SameRights;
    var s', c := Next(s, ev), ForkOf(Next(s, ev).fork, e).child;
    ForkWas(s, ev, e);
    forall k | k in s'.pt && k.env == c
      ensures if k.vpn == UXSTACK then s'.pt[k].w && !s'.pt[k].share
              else k.vpn != PFTEMP && Va(e, k.vpn) in s'.pt && Protects(s'.pt[Va(e, k.vpn)], s'.pt[k])
    {
      GivesOne(s, ev, e, k);
    }
  }

  lemma GivesOne(s: State, ev: Event, e: Env, k: Va)
    requires Inv(s) && Enabled(s, ev) && !ForkOf(Next(s, ev).fork, e).NotForking?
    requires ForkOf(s.fork, e).NotForking? || Given(s, e)
    requires k in Next(s, ev).pt && k.env == ForkOf(Next(s, ev).fork, e).child
    ensures var s' := Next(s, ev);
      if k.vpn == UXSTACK then s'.pt[k].w && !s'.pt[k].share
      else k.vpn != PFTEMP && Va(e, k.vpn) in s'.pt && Protects(s'.pt[Va(e, k.vpn)], s'.pt[k])
  {
    hide PageInv, ForksOk, InflightOk, Protects, SameRights;
    ForkWas(s, ev, e);
    ChildPlace(s, ev, e, k);
    if ev == Exofork(e, k.env) {
      NotMapped(s, k);
    } else {
      assert !Remaps(ev, Va(e, k.vpn));
      if k in s.pt {
        ChildStays(s, ev, k);
      } else {
        AppearsProtected(s, ev, k);
        assert ev.env == e;
      }
      if k.vpn != UXSTACK {
        RightsStay(s, ev, Va(e, k.vpn));
        StillProtects(s.pt[Va(e, k.vpn)], Next(s, ev).pt[Va(e, k.vpn)], Next(s, ev).pt[k]);
      }
    }
  }

  lemma NotMapped(s: State, k: Va)
    requires Inv(s) && k.env !in s.envs
    ensures k !in s.pt
  {
  }

  lemma ChildPlace(s: State, ev: Event, e: Env, k: Va)
    requires Inv(s) && Enabled(s, ev) && k in Next(s, ev).pt
    requires !ForkOf(Next(s, ev).fork, e).NotForking? && ForkOf(Next(s, ev).fork, e).child == k.env
    ensures k.vpn != PFTEMP
  {
    hide Next;
    StepKeeps(s, ev);
    var s' := Next(s, ev);
    assert ForkOk(s'.pt, s'.inflight, ForkOf(s'.fork, e), e);
  }

  lemma StillProtects(p: Pte, p': Pte, q: Pte)
    requires Protects(p, q) && SameRights(p, p')
    ensures Protects(p', q)
  {
  }

  /** At any moment of any run, the child of a fork begun in the run has been given its pages protected. */
  lemma {:induction false} RunGives(s: State, evs: seq<Event>, e: Env)
    requires Inv(s) && IsRun(s, evs) && !ForkOf(After(s, evs).fork, e).NotForking?
    requires ForkOf(After(s, evs).fork, e).child !in s.envs
    ensures Given(After(s, evs), e)
    decreases |evs|
  {
    hide PageInv, ForkInv, Given;
    if evs == [] {
      NotBorn(s, Va(ForkOf(s.fork, e).child, 0));
    } else {
      var mid, ev := After(s, evs[..|evs| - 1]), evs[|evs| - 1];
      ForkWas(mid, ev, e);
      if !ForkOf(mid.fork, e).NotForking? && ev != Exofork(e, ForkOf(After(s, evs).fork, e).child) {
        RunGives(s, evs[..|evs| - 1], e);
      }
      StepGives(mid, ev, e);
    }
  }

  /** Over any run, a page that its owner does not map or unmap itself gives the same rights, whatever it
      forks and however often it faults. */
  lemma {:induction false} RightsStayOverRuns(s: State, evs: seq<Event>, k: Va)
    requires Inv(s) && IsRun(s, evs) && k in s.pt && k.vpn != PFTEMP && forall ev :: ev in evs ==> !Remaps(ev, k)
    ensures k in After(s, evs).pt && SameRights(s.pt[k], After(s, evs).pt[k])
    decreases |evs|
  {
    hide Inv;
    if evs != [] {
      RightsStayOverRuns(s, evs[..|evs| - 1], k);
      RightsStay(After(s, evs[..|evs| - 1]), evs[|evs| - 1], k);
    }
  }

  /** A store by an environment that may write the page goes through, or faults and can be served. */
  lemma StoreProceeds(s: State, k: Va, off: nat, page: nat)
    requires Inv(s) && k in s.pt && k.vpn != PFTEMP && MayWrite(s.pt[k]) && off < PGSIZE && Unused(s.pt, page)
    requires k.env in s.runnable && FaultOf(s.fault, k.env).NoFault?
    ensures CanStore(s, k.env, k.vpn, off) || CanFault(s, k.env, k.vpn, page)
  {
  }

  /** When the handler is done, the store that faulted goes through. */
  lemma FaultEndsWritable(s: State, e: Env, off: nat)
    requires Inv(s) && FaultOf(s.fault, e).Remapped? && off < PGSIZE
    ensures CanStore(Next(s, FaultDone(e)), e, FaultOf(s.fault, e).vpn, off)
    ensures FaultOf(Next(s, FaultDone(e)).fault, e).NoFault?
  {
    assert FaultOk(s.pt, s.mem, FaultOf(s.fault, e), e);
  }

  /** fork and the fault handler always have a next call to make, as long as there is a free page. */
  lemma NeverStuck(s: State, e: Env, page: nat)
    requires Inv(s) && e in s.runnable && Unused(s.pt, page)
    ensures match FaultOf(s.fault, e)
      case Alloced(_) => Enabled(s, FaultCopy(e))
      case Copied(_) => Enabled(s, FaultRemap(e))
      case Remapped(_) => Enabled(s, FaultDone(e))
      case NoFault =>
        match ForkOf(s.fork, e)
        case Scanning(_, next) =>
          if next == UTOP then Enabled(s, Stack(e, page)) else Enabled(s, Skip(e)) || Enabled(s, Dup(e)) || Enabled(s, MapChild(e))
        case Mapped(_, _) => Enabled(s, Remark(e))
        case Ready(_) => Enabled(s, Start(e))
        case NotForking => forall c: Env | c !in s.envs :: Enabled(s, Exofork(e, c))
  {
    assert ForkOk(s.pt, s.inflight, ForkOf(s.fork, e), e);
  }

  lemma FaultTurns(s: State, ev: Event, e: Env, v: nat)
    requires Inv(s) && Enabled(s, ev) && ev.env == e
    requires match ev
      case FaultAlloc(_, vpn, _) => vpn == v
      case FaultCopy(_) => FaultOf(s.fault, e).vpn == v
      case FaultRemap(_) => FaultOf(s.fault, e).vpn == v
      case FaultDone(_) => true
      case _ => false
    ensures var t, tmp, f := Next(s, ev), Va(e, PFTEMP), Va(e, v);
      && t.fork == s.fork && t.runnable == s.runnable
      && match ev
         case FaultAlloc(_, _, page) =>
           && FaultOf(t.fault, e) == Alloced(v) && Enabled(t, FaultCopy(e)) && tmp !in s.pt && f in s.pt && s.pt[f].page in s.mem
           && !s.pt[f].share && t.pt == s.pt[tmp := t.pt[tmp]] && t.pt[tmp].page == page && t.mem == s.mem[page := Zero()] && Unused(s.pt, page)
         case FaultCopy(_) =>
           && FaultOf(t.fault, e) == Copied(v) && Enabled(t, FaultRemap(e)) && tmp in s.pt && f in s.pt && s.pt[f].page in s.mem
           && t.pt == s.pt && t.mem == s.mem[s.pt[tmp].page := s.mem[s.pt[f].page]]
         case FaultRemap(_) =>
           && FaultOf(t.fault, e) == Remapped(v) && Enabled(t, FaultDone(e)) && tmp in s.pt
           && t.pt == s.pt[f := t.pt[f]] && t.pt[f].page == s.pt[tmp].page && t.pt[f].w && !t.pt[f].share && t.mem == s.mem
         case _ => FaultOf(t.fault, e).NoFault? && t.pt == s.pt - {tmp} && t.mem == s.mem
  {
    hide ForkInv, PrivateWritable;
    if !FaultOf(s.fault, e).NoFault? {
      assert FaultOk(s.pt, s.mem, FaultOf(s.fault, e), e);
    }
  }

  lemma NoSteps(s: State)
    requires Inv(s)
    ensures IsRun(s, []) && After(s, []) == s
  {
  }

  lemma OneMore(s: State, evs: seq<Event>, ev: Event)
    requires Inv(s) && IsRun(s, evs) && Enabled(After(s, evs), ev)
    ensures IsRun(s, evs + [ev]) && After(s, evs + [ev]) == Next(After(s, evs), ev)
  {
    assert (evs + [ev])[..|evs + [ev]| - 1] == evs;
  }

  /** The whole handler, uninterrupted: the page is writable, in the free page with the bytes it had, and
      nothing else is changed. */
  lemma FaultServed(s: State, e: Env, v: nat, page: nat)
    requires Inv(s) && Enabled(s, FaultAlloc(e, v, page))
    ensures var calls := [FaultAlloc(e, v, page), FaultCopy(e), FaultRemap(e), FaultDone(e)];
      IsRun(s, calls) &&
      var t, f := After(s, calls), Va(e, v);
      && FaultOf(t.fault, e).NoFault? && t.fork == s.fork && t.runnable == s.runnable
      && f in s.pt && s.pt[f].page in s.mem && t.mem == s.mem[page := s.mem[s.pt[f].page]]
      && f in t.pt && t.pt == s.pt[f := t.pt[f]] && t.pt[f].page == page && t.pt[f].w && !t.pt[f].share
  {
    hide Inv, Next, Enabled, After, IsRun, Zero;
    var c1, c2, c3, c4 := FaultAlloc(e, v, page), FaultCopy(e), FaultRemap(e), FaultDone(e);
    NoSteps(s);
    FaultTurns(s, c1, e, v);
    OneMore(s, [], c1);
    var s1 := After(s, [] + [c1]);
    FaultTurns(s1, c2, e, v);
    OneMore(s, [] + [c1], c2);
    var s2 := After(s, [] + [c1] + [c2]);
    FaultTurns(s2, c3, e, v);
    OneMore(s, [] + [c1] + [c2], c3);
    var s3 := After(s, [] + [c1] + [c2] + [c3]);
    FaultTurns(s3, c4, e, v);
    OneMore(s, [] + [c1] + [c2] + [c3], c4);
    assert [] + [c1] + [c2] + [c3] + [c4] == [c1, c2, c3, c4];
    assert v != PFTEMP by { NotTheTemp(s, e, v, page); }
    TempGone(s.pt, Va(e, PFTEMP), Va(e, v), s1.pt[Va(e, PFTEMP)], s3.pt[Va(e, v)]);
    assert s.mem[page := Zero()][page := s.mem[s.pt[Va(e, v)].page]] == s.mem[page := s.mem[s.pt[Va(e, v)].page]];
  }

  lemma TempGone(pt: map<Va, Pte>, tmp: Va, f: Va, p: Pte, q: Pte)
    requires tmp !in pt && tmp != f
    ensures pt[tmp := p][f := q] - {tmp} == pt[f := q]
  {
  }

  lemma NotTheTemp(s: State, e: Env, v: nat, page: nat)
    requires Enabled(s, FaultAlloc(e, v, page))
    ensures v != PFTEMP && Va(e, v) in s.pt && s.pt[Va(e, v)].page != page
  {
  }
}
