/**
 Copy-on-write fork (TPJOS/lib/fork.c), system call by system call, against an
 eager machine in which every address space owns its bytes outright.

 The concrete machine is the page tables of all environments and the physical
 pages they name.  Any environment may store, allocate, unmap, fault and fork at
 any time, and the system calls inside `duppage` and `pgfault` interleave freely
 with the steps of every other environment.
 */
module CowFork {

  const PGSIZE: nat := 4096
  const PFTEMP: nat := 0x7FF        // page number of PFTEMP
  const UXSTACK: nat := 0xEEBFF     // page number of UXSTACKTOP - PGSIZE
  const UTOP: nat := 0xEEC00        // first page number outside user space

  type Byte = b: int | 0 <= b < 256
  type Page = s: seq<Byte> | |s| == PGSIZE witness seq(PGSIZE, i => 0)
  type Env = nat

  function Zero(): Page { seq(PGSIZE, i => 0) }

  /** A virtual page of one environment. */
  datatype Va = Va(env: Env, vpn: nat)

  /** A present page table entry; PTE_P and PTE_U are implied. */
  datatype Pte = Pte(page: nat, w: bool, cow: bool, share: bool)

  /** Where an environment is in `fork`. `Mapped` lies between lines 90 and 93 of fork.c. */
  datatype Fork =
    | NotForking
    | Scanning(child: Env, next: nat)
    | Mapped(child: Env, next: nat)
    | Ready(child: Env)

  /** Where an environment is in `pgfault`, named after the last call that returned. */
  datatype Fault =
    | NoFault
    | Alloced(vpn: nat)
    | Copied(vpn: nat)
    | Remapped(vpn: nat)

  /** `inflight` is auxiliary: child pages mapped at line 90 whose parent page has not been
      parted from them yet, with the parent. No step reads it. */
  datatype State = State(
    pt: map<Va, Pte>,
    mem: map<nat, Page>,
    envs: set<Env>,
    runnable: set<Env>,
    fork: map<Env, Fork>,
    fault: map<Env, Fault>,
    inflight: map<Va, Env>)

  function ForkOf(fork: map<Env, Fork>, e: Env): Fork {
    if e in fork then fork[e] else NotForking
  }

  function FaultOf(fault: map<Env, Fault>, e: Env): Fault {
    if e in fault then fault[e] else NoFault
  }

  ghost predicate Unused(pt: map<Va, Pte>, page: nat) {
    forall k :: k in pt ==> pt[k].page != page
  }

  /** The page of the forking parent that its scan has reached. */
  function Here(fork: map<Env, Fork>, e: Env): Va
    requires ForkOf(fork, e).Scanning? || ForkOf(fork, e).Mapped?
  {
    Va(e, ForkOf(fork, e).next)
  }

  function There(fork: map<Env, Fork>, e: Env): Va
    requires ForkOf(fork, e).Scanning? || ForkOf(fork, e).Mapped?
  {
    Va(ForkOf(fork, e).child, ForkOf(fork, e).next)
  }

  function Cow(page: nat): Pte { Pte(page, false, true, false) }

  function Writable(page: nat): Pte { Pte(page, true, false, false) }

  predicate Idle(s: State, e: Env) {
    e in s.runnable && ForkOf(s.fork, e).NotForking? && FaultOf(s.fault, e).NoFault?
  }

  // The transitions, each with the condition under which the code can take it.

  predicate CanStore(s: State, e: Env, v: nat, off: nat) {
    e in s.runnable && off < PGSIZE && v != PFTEMP && Va(e, v) in s.pt && s.pt[Va(e, v)].w
  }

  /** A byte stored through a writable entry. */
  function DoStore(s: State, e: Env, v: nat, off: nat, b: Byte): State
    requires CanStore(s, e, v, off) && s.pt[Va(e, v)].page in s.mem
  {
    var p := s.pt[Va(e, v)].page;
    s.(mem := s.mem[p := s.mem[p][off := b]])
  }

  ghost predicate CanAlloc(s: State, e: Env, v: nat, page: nat) {
    Idle(s, e) && v < UTOP && v != PFTEMP && Unused(s.pt, page)
  }

  /** sys_page_alloc into the caller's own space. */
  function DoAlloc(s: State, e: Env, v: nat, w: bool, share: bool, page: nat): State {
    s.(pt := s.pt[Va(e, v) := Pte(page, w, false, share)], mem := s.mem[page := Zero()])
  }

  /** sys_page_unmap in the caller's own space. */
  function DoUnmap(s: State, e: Env, v: nat): State {
    s.(pt := s.pt - {Va(e, v)})
  }

  predicate CanShareMap(s: State, e: Env, v: nat, dst: nat) {
    Idle(s, e) && dst < UTOP && dst != PFTEMP && Va(e, v) in s.pt && s.pt[Va(e, v)].share
  }

  /** sys_page_map of a PTE_SHARE page inside the caller's own space, as `dup` and `pipe` do. */
  function DoShareMap(s: State, e: Env, v: nat, dst: nat): State
    requires Va(e, v) in s.pt
  {
    s.(pt := s.pt[Va(e, dst) := s.pt[Va(e, v)]])
  }

  predicate CanExofork(s: State, e: Env, c: Env) {
    Idle(s, e) && c !in s.envs
  }

  function DoExofork(s: State, e: Env, c: Env): State {
    s.(envs := s.envs + {c}, fork := s.fork[e := Scanning(c, 0)])
  }

  predicate InScan(s: State, e: Env) {
    e in s.runnable && FaultOf(s.fault, e).NoFault? && ForkOf(s.fork, e).Scanning?
  }

  predicate CanSkip(s: State, e: Env) {
    && InScan(s, e) && ForkOf(s.fork, e).next < UTOP
    && (ForkOf(s.fork, e).next == UXSTACK || Here(s.fork, e) !in s.pt)
  }

  /** The scan of `fork` passes over the exception stack and absent pages. */
  function DoSkip(s: State, e: Env): State
    requires ForkOf(s.fork, e).Scanning?
  {
    s.(fork := s.fork[e := Scanning(ForkOf(s.fork, e).child, ForkOf(s.fork, e).next + 1)])
  }

  predicate AtPage(s: State, e: Env) {
    && InScan(s, e) && ForkOf(s.fork, e).next < UTOP && ForkOf(s.fork, e).next != UXSTACK
    && Here(s.fork, e) in s.pt
  }

  predicate NeedsCow(pte: Pte) { !pte.share && (pte.cow || pte.w) }

  predicate CanDup(s: State, e: Env) {
    AtPage(s, e) && !NeedsCow(s.pt[Here(s.fork, e)])
  }

  /** `duppage` of a PTE_SHARE page keeps its permissions, of a read-only page gives PTE_P | PTE_U. */
  function DoDup(s: State, e: Env): State
    requires CanDup(s, e)
  {
    var pte := s.pt[Here(s.fork, e)];
    s.(pt := s.pt[There(s.fork, e) := if pte.share then pte else Pte(pte.page, false, false, false)],
       fork := s.fork[e := Scanning(ForkOf(s.fork, e).child, ForkOf(s.fork, e).next + 1)])
  }

  predicate CanMapChild(s: State, e: Env) {
    AtPage(s, e) && NeedsCow(s.pt[Here(s.fork, e)])
  }

  /** Line 90: the child maps the parent's page copy-on-write. */
  function DoMapChild(s: State, e: Env): State
    requires CanMapChild(s, e)
  {
    s.(pt := s.pt[There(s.fork, e) := Cow(s.pt[Here(s.fork, e)].page)],
       fork := s.fork[e := Mapped(ForkOf(s.fork, e).child, ForkOf(s.fork, e).next)],
       inflight := s.inflight[There(s.fork, e) := e])
  }

  predicate CanRemark(s: State, e: Env) {
    e in s.runnable && FaultOf(s.fault, e).NoFault? && ForkOf(s.fork, e).Mapped?
  }

  /** Line 93: the parent maps whatever page it has there now copy-on-write. */
  function DoRemark(s: State, e: Env): State
    requires CanRemark(s, e) && Here(s.fork, e) in s.pt
  {
    s.(pt := s.pt[Here(s.fork, e) := Cow(s.pt[Here(s.fork, e)].page)],
       fork := s.fork[e := Scanning(ForkOf(s.fork, e).child, ForkOf(s.fork, e).next + 1)],
       inflight := s.inflight - {There(s.fork, e)})
  }

  ghost predicate CanStack(s: State, e: Env, page: nat) {
    InScan(s, e) && ForkOf(s.fork, e).next == UTOP && Unused(s.pt, page)
  }

  /** The child gets an exception stack of its own. */
  function DoStack(s: State, e: Env, page: nat): State
    requires InScan(s, e)
  {
    s.(pt := s.pt[Va(ForkOf(s.fork, e).child, UXSTACK) := Writable(page)],
       mem := s.mem[page := Zero()],
       fork := s.fork[e := Ready(ForkOf(s.fork, e).child)])
  }

  predicate CanStart(s: State, e: Env) {
    e in s.runnable && FaultOf(s.fault, e).NoFault? && ForkOf(s.fork, e).Ready?
  }

  /** Line 217: the child becomes runnable. */
  function DoStart(s: State, e: Env): State
    requires ForkOf(s.fork, e).Ready?
  {
    s.(runnable := s.runnable + {ForkOf(s.fork, e).child}, fork := s.fork[e := NotForking])
  }

  ghost predicate CanFault(s: State, e: Env, v: nat, page: nat) {
    && e in s.runnable && FaultOf(s.fault, e).NoFault? && v != PFTEMP && Va(e, v) in s.pt
    && s.pt[Va(e, v)].cow && !s.pt[Va(e, v)].w && Unused(s.pt, page)
  }

  /** `pgfault` allocates a page at PFTEMP, */
  function DoFault(s: State, e: Env, v: nat, page: nat): State {
    s.(pt := s.pt[Va(e, PFTEMP) := Writable(page)], mem := s.mem[page := Zero()], fault := s.fault[e := Alloced(v)])
  }

  /** copies the faulting page there, */
  function DoCopy(s: State, e: Env, v: nat): State
    requires Va(e, v) in s.pt && Va(e, PFTEMP) in s.pt && s.pt[Va(e, v)].page in s.mem
  {
    s.(mem := s.mem[s.pt[Va(e, PFTEMP)].page := s.mem[s.pt[Va(e, v)].page]], fault := s.fault[e := Copied(v)])
  }

  /** maps the copy in place of the faulting page, */
  function DoRemap(s: State, e: Env, v: nat): State
    requires Va(e, PFTEMP) in s.pt
  {
    s.(pt := s.pt[Va(e, v) := Writable(s.pt[Va(e, PFTEMP)].page)],
       fault := s.fault[e := Remapped(v)],
       inflight := if Parted(s, e, v) then s.inflight - {There(s.fork, e)} else s.inflight)
  }

  /** and unmaps PFTEMP. */
  function DoDone(s: State, e: Env): State {
    s.(pt := s.pt - {Va(e, PFTEMP)}, fault := s.fault[e := NoFault])
  }

  /** The fault of `e` on page `v` parts `e` from the child page that line 90 has just mapped. */
  predicate Parted(s: State, e: Env, v: nat) {
    ForkOf(s.fork, e).Mapped? && ForkOf(s.fork, e).next == v && There(s.fork, e) in s.inflight
  }

  // ------------------------------------------------------------------
  // The invariant
  // ------------------------------------------------------------------

  /** The only two ways in which a privately writable page has a second mapping. */
  predicate Exempt(fault: map<Env, Fault>, inflight: map<Va, Env>, k: Va, k': Va) {
    || (k' in inflight && inflight[k'] == k.env && k.vpn == k'.vpn)
    || (&& k.env == k'.env && FaultOf(fault, k.env).Remapped?
        && (|| (k.vpn == PFTEMP && k'.vpn == FaultOf(fault, k.env).vpn)
            || (k'.vpn == PFTEMP && k.vpn == FaultOf(fault, k.env).vpn)))
  }

  /** A page writable through one private entry is reachable through no other. */
  ghost predicate PrivateWritable(pt: map<Va, Pte>, fault: map<Env, Fault>, inflight: map<Va, Env>) {
    forall k, k' | k in pt && k' in pt && k != k' && pt[k].page == pt[k'].page && pt[k].w && !pt[k].share ::
      Exempt(fault, inflight, k, k')
  }

  ghost predicate PageTables(pt: map<Va, Pte>, mem: map<nat, Page>, envs: set<Env>) {
    && (forall k :: k in pt ==> k.env in envs && k.vpn < UTOP && pt[k].page in mem && !(pt[k].cow && pt[k].share))
    && (forall k, k' | k in pt && k' in pt && pt[k].page == pt[k'].page :: pt[k].share == pt[k'].share)
  }

  ghost predicate FaultsOk(pt: map<Va, Pte>, mem: map<nat, Page>, runnable: set<Env>, fault: map<Env, Fault>) {
    && (forall k :: k in pt && k.vpn == PFTEMP ==> !FaultOf(fault, k.env).NoFault?)
    && (forall e :: !FaultOf(fault, e).NoFault? ==> e in runnable && FaultOk(pt, mem, FaultOf(fault, e), e))
  }

  ghost predicate FaultOk(pt: map<Va, Pte>, mem: map<nat, Page>, fault: Fault, e: Env)
    requires !fault.NoFault?
  {
    var f, t := Va(e, fault.vpn), Va(e, PFTEMP);
    && f.vpn != PFTEMP && f in pt && t in pt && pt[t] == Writable(pt[t].page)
    && pt[f].page in mem && pt[t].page in mem
    && if fault.Remapped? then pt[f] == pt[t]
       else
         && pt[f].cow && !pt[f].w && !pt[f].share && pt[f].page != pt[t].page
         && (fault.Copied? ==> mem[pt[t].page] == mem[pt[f].page])
  }

  /** The child under construction has exactly the parent's pages below the scan. */
  ghost predicate ScanOk(pt: map<Va, Pte>, e: Env, c: Env, next: nat) {
    && next <= UTOP
    && (forall v | 0 <= v < next && v != UXSTACK && v != PFTEMP :: Va(c, v) in pt <==> Va(e, v) in pt)
    && Va(c, UXSTACK) !in pt && Va(c, PFTEMP) !in pt
    && (forall v :: v >= next ==> Va(c, v) !in pt)
  }

  ghost predicate SamePages(pt: map<Va, Pte>, e: Env, c: Env) {
    forall v | v != UXSTACK && v != PFTEMP :: Va(c, v) in pt <==> Va(e, v) in pt
  }

  ghost predicate MappedOk(pt: map<Va, Pte>, inflight: map<Va, Env>, e: Env, c: Env, next: nat) {
    var f, t := Va(e, next), Va(c, next);
    && next < UTOP && next != UXSTACK && next != PFTEMP
    && f in pt && t in pt && !pt[f].share && (pt[f].w || pt[f].cow)
    && (t in inflight || pt[f].w)
    && ScanOk(pt - {t}, e, c, next)
  }

  ghost predicate ForkOk(pt: map<Va, Pte>, inflight: map<Va, Env>, fork: Fork, e: Env) {
    match fork
    case NotForking => true
    case Scanning(c, next) => ScanOk(pt, e, c, next)
    case Mapped(c, next) => MappedOk(pt, inflight, e, c, next)
    case Ready(c) => Va(c, UXSTACK) in pt && Va(c, PFTEMP) !in pt && SamePages(pt, e, c)
  }

  /** Every child under construction is a stopped environment with one parent. */
  ghost predicate ChildrenOk(envs: set<Env>, runnable: set<Env>, fork: map<Env, Fork>) {
    && (forall e :: !ForkOf(fork, e).NotForking? ==>
          e in runnable && ForkOf(fork, e).child in envs && ForkOf(fork, e).child !in runnable)
    && (forall e, e' :: e != e' && !ForkOf(fork, e).NotForking? && !ForkOf(fork, e').NotForking? ==>
          ForkOf(fork, e).child != ForkOf(fork, e').child)
  }

  ghost predicate ForksOk(pt: map<Va, Pte>, inflight: map<Va, Env>, fork: map<Env, Fork>) {
    forall e :: ForkOk(pt, inflight, ForkOf(fork, e), e)
  }

  ghost predicate InflightOk(pt: map<Va, Pte>, fork: map<Env, Fork>, inflight: map<Va, Env>) {
    forall k :: k in inflight ==>
      var p := Va(inflight[k], k.vpn);
      && ForkOf(fork, p.env) == Mapped(k.env, k.vpn)
      && k in pt && p in pt && pt[k] == Cow(pt[p].page)
  }

  ghost predicate PageInv(s: State) {
    && PageTables(s.pt, s.mem, s.envs)
    && PrivateWritable(s.pt, s.fault, s.inflight)
    && FaultsOk(s.pt, s.mem, s.runnable, s.fault)
  }

  ghost predicate ForkInv(s: State) {
    && ChildrenOk(s.envs, s.runnable, s.fork)
    && ForksOk(s.pt, s.inflight, s.fork)
    && InflightOk(s.pt, s.fork, s.inflight)
  }

  ghost predicate Inv(s: State) {
    s.runnable <= s.envs && PageInv(s) && ForkInv(s)
  }

  // ------------------------------------------------------------------
  // The eager machine
  // ------------------------------------------------------------------

  /** A page seen from one address space: its own bytes, or the one common copy of a PTE_SHARE page. */
  datatype Cell = Own(bytes: Page) | Common(page: nat)

  datatype Eager = Eager(view: map<Va, Cell>, common: map<nat, Page>)

  datatype EagerOp =
    | Stay
    | Put(k: Va, off: nat, b: Byte)
    | Fresh(k: Va, share: bool, page: nat)
    | Drop(k: Va)
    | Copy(src: Va, dst: Va)

  ghost predicate Held(view: map<Va, Cell>, page: nat) {
    exists k :: k in view && view[k] == Common(page)
  }

  /** Common copies that nobody maps any more are forgotten. */
  ghost function Collect(e: Eager): Eager {
    Eager(e.view, map p | p in e.common && Held(e.view, p) :: e.common[p])
  }

  ghost predicate EagerEnabled(e: Eager, op: EagerOp) {
    match op
    case Put(k, off, _) => off < PGSIZE && k in e.view && (e.view[k].Common? ==> e.view[k].page in e.common)
    case Copy(src, dst) => src in e.view
    case _ => true
  }

  /** Every address space evolves by itself: `Put` changes one page, `Copy` copies it at once. */
  ghost function EagerStep(e: Eager, op: EagerOp): Eager
    requires EagerEnabled(e, op)
  {
    match op
    case Stay => e
    case Put(k, off, b) =>
      (match e.view[k]
       case Own(bytes) => Eager(e.view[k := Own(bytes[off := b])], e.common)
       case Common(p) => Eager(e.view, e.common[p := e.common[p][off := b]]))
    case Fresh(k, share, p) =>
      if share then Collect(Eager(e.view[k := Common(p)], e.common[p := Zero()]))
      else Collect(Eager(e.view[k := Own(Zero())], e.common))
    case Drop(k) => Collect(Eager(e.view - {k}, e.common))
    case Copy(src, dst) => Collect(Eager(e.view[dst := e.view[src]], e.common))
  }

  // ------------------------------------------------------------------
  // What the copy-on-write machine means
  // ------------------------------------------------------------------

  /** PFTEMP is scratch space, and a page in flight is not the child's yet. */
  predicate Visible(inflight: map<Va, Env>, k: Va) {
    k.vpn != PFTEMP && k !in inflight
  }

  ghost predicate Backed(pt: map<Va, Pte>, mem: map<nat, Page>) {
    forall k :: k in pt ==> pt[k].page in mem
  }

  ghost predicate Shared(pt: map<Va, Pte>, page: nat) {
    exists k :: k in pt && pt[k].page == page && pt[k].share
  }

  ghost function CellOf(pte: Pte, mem: map<nat, Page>): Cell
    requires pte.page in mem
  {
    if pte.share then Common(pte.page) else Own(mem[pte.page])
  }

  ghost function View(pt: map<Va, Pte>, mem: map<nat, Page>, inflight: map<Va, Env>): map<Va, Cell>
    requires Backed(pt, mem)
  {
    map k | k in pt && Visible(inflight, k) :: CellOf(pt[k], mem)
  }

  ghost function CommonPages(pt: map<Va, Pte>, mem: map<nat, Page>): map<nat, Page> {
    map p | p in mem && Shared(pt, p) :: mem[p]
  }

  ghost function Mean(pt: map<Va, Pte>, mem: map<nat, Page>, inflight: map<Va, Env>): Eager
    requires Backed(pt, mem)
  {
    Eager(View(pt, mem, inflight), CommonPages(pt, mem))
  }

  /** The eager state that a copy-on-write state stands for. */
  ghost function Meaning(s: State): Eager
    requires Inv(s)
  {
    Mean(s.pt, s.mem, s.inflight)
  }

  // ------------------------------------------------------------------
  // Events and the eager operations they stand for
  // ------------------------------------------------------------------

  datatype Event =
    | Store(env: Env, vpn: nat, off: nat, b: Byte)
    | Alloc(env: Env, vpn: nat, w: bool, share: bool, page: nat)
    | Unmap(env: Env, vpn: nat)
    | ShareMap(env: Env, vpn: nat, to: nat)
    | Exofork(env: Env, child: Env)
    | Skip(env: Env)
    | Dup(env: Env)
    | MapChild(env: Env)
    | Remark(env: Env)
    | Stack(env: Env, page: nat)
    | Start(env: Env)
    | FaultAlloc(env: Env, vpn: nat, page: nat)
    | FaultCopy(env: Env)
    | FaultRemap(env: Env)
    | FaultDone(env: Env)

  ghost predicate Enabled(s: State, ev: Event) {
    match ev
    case Store(e, v, off, _) => CanStore(s, e, v, off)
    case Alloc(e, v, _, _, page) => CanAlloc(s, e, v, page)
    case Unmap(e, v) => Idle(s, e)
    case ShareMap(e, v, dst) => CanShareMap(s, e, v, dst)
    case Exofork(e, c) => CanExofork(s, e, c)
    case Skip(e) => CanSkip(s, e)
    case Dup(e) => CanDup(s, e)
    case MapChild(e) => CanMapChild(s, e)
    case Remark(e) => CanRemark(s, e)
    case Stack(e, page) => CanStack(s, e, page)
    case Start(e) => CanStart(s, e)
    case FaultAlloc(e, v, page) => CanFault(s, e, v, page)
    case FaultCopy(e) => FaultOf(s.fault, e).Alloced?
    case FaultRemap(e) => FaultOf(s.fault, e).Copied?
    case FaultDone(e) => FaultOf(s.fault, e).Remapped?
  }

  ghost function Next(s: State, ev: Event): State
    requires Inv(s) && Enabled(s, ev)
  {
    match ev
    case Store(e, v, off, b) => DoStore(s, e, v, off, b)
    case Alloc(e, v, w, share, page) => DoAlloc(s, e, v, w, share, page)
    case Unmap(e, v) => DoUnmap(s, e, v)
    case ShareMap(e, v, dst) => DoShareMap(s, e, v, dst)
    case Exofork(e, c) => DoExofork(s, e, c)
    case Skip(e) => DoSkip(s, e)
    case Dup(e) => DoDup(s, e)
    case MapChild(e) => DoMapChild(s, e)
    case Remark(e) => DoRemark(s, e)
    case Stack(e, page) => DoStack(s, e, page)
    case Start(e) => DoStart(s, e)
    case FaultAlloc(e, v, page) => DoFault(s, e, v, page)
    case FaultCopy(e) => DoCopy(s, e, FaultOf(s.fault, e).vpn)
    case FaultRemap(e) => DoRemap(s, e, FaultOf(s.fault, e).vpn)
    case FaultDone(e) => DoDone(s, e)
  }

  /** The eager operation each call stands for. A page is copied at line 93 of fork.c or, when the
      parent faults on that very page after line 90, when the fault gives it a page of its own. */
  function Label(s: State, ev: Event): EagerOp {
    match ev
    case Store(e, v, off, b) => Put(Va(e, v), off, b)
    case Alloc(e, v, w, share, page) => Fresh(Va(e, v), share, page)
    case Unmap(e, v) => Drop(Va(e, v))
    case ShareMap(e, v, dst) => Copy(Va(e, v), Va(e, dst))
    case Dup(e) => CopyHere(s, e)
    case Remark(e) => if InFlight(s, e) then CopyHere(s, e) else Stay
    case Stack(e, page) => if ForkOf(s.fork, e).NotForking? then Stay else Fresh(Va(ForkOf(s.fork, e).child, UXSTACK), false, page)
    case FaultRemap(e) =>
      if FaultOf(s.fault, e).Copied? && Parted(s, e, FaultOf(s.fault, e).vpn) then CopyHere(s, e) else Stay
    case _ => Stay
  }

  predicate InFlight(s: State, e: Env) {
    ForkOf(s.fork, e).Mapped? && There(s.fork, e) in s.inflight
  }

  function CopyHere(s: State, e: Env): EagerOp {
    if ForkOf(s.fork, e).Scanning? || ForkOf(s.fork, e).Mapped? then Copy(Here(s.fork, e), There(s.fork, e)) else Stay
  }
}
