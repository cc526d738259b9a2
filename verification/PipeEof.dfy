/**
 The end-of-file test of a pipe (TPJOS/lib/pipe.c:75-89): it compares how often two pages
 are mapped while other environments duplicate and close descriptors (TPJOS/lib/fd.c) and
 fork. One processor; environments take turns between any two steps.

 A descriptor is a place (environment, number) with two pages: its fd page, which belongs
 to one end of the pipe, and its data page, which both ends share.
 */
module PipeEof {
  const MAXFD: nat := 32

  datatype End = ReadEnd | WriteEnd

  datatype Place = Place(env: nat, fd: nat)

  /** What an environment is in the middle of. */
  datatype Pc =
    | Unborn
    | Child                                             // made by sys_exofork, its pages being mapped
    | Running
    | Closing(fd: nat)                                  // pipe.c:189, fd page unmapped
    | Duplicating(from: nat, to: nat)                    // fd.c:192, data page mapped
    | ForkFds(child: nat, k: nat)                       // fork.c, below FILEDATA
    | ForkData(child: nat, k: nat)                      // fork.c, from FILEDATA on
    | TestFd(fd: nat, n: nat)                           // pipe.c:82, env_runs loaded
    | TestData(fd: nat, n: nat, a: nat)                 // pipe.c:82, pageref(fd) loaded
    | TestRuns(fd: nat, n: nat, a: nat, b: nat)         // pipe.c:83, pageref(p) loaded

  type Fds = map<Place, End>

  datatype State = State(cur: nat, runs: seq<nat>, pcs: seq<Pc>, fds: Fds, data: set<Place>)

  function Opposite(end: End): End {
    if end.ReadEnd? then WriteEnd else ReadEnd
  }

  /** The places where the fd page of an end is mapped; their number is its pp_ref. */
  ghost function FdsOf(fds: Fds, end: End): set<Place> {
    set p | p in fds && fds[p] == end
  }

  predicate IsFork(pc: Pc) {
    pc.ForkFds? || pc.ForkData?
  }

  predicate Born(pc: Pc) {
    !pc.Unborn? && !pc.Child?
  }

  // ------------------------------------------------------------------
  // Steps of the current environment
  // ------------------------------------------------------------------

  predicate Shape(s: State) {
    s.cur < |s.pcs| == |s.runs|
  }

  function SetPc(s: State, pc: Pc): State
    requires Shape(s)
  {
    s.(pcs := s.pcs[s.cur := pc])
  }

  datatype Event =
    | Switch(env: nat)
    | BeginClose(fd: nat) | EndClose
    | BeginDup(from: nat, to: nat) | EndDup
    | BeginFork(child: nat) | ForkStep
    | Kill(env: nat) | Exit(next: nat)
    | BeginTest(fd: nat) | TestStep

  /** What can happen next. dup and the test need open descriptors; dup has closed its target before. An
      environment may be killed by another, or end by itself, in the middle of anything. */
  predicate Enabled(s: State, ev: Event) {
    && Shape(s)
    && var pc := s.pcs[s.cur];
       match ev
       case Switch(e) => e < |s.pcs| && Born(s.pcs[e])
       case BeginClose(fd) => pc.Running? && Place(s.cur, fd) in s.fds
       case EndClose => pc.Closing?
       case BeginDup(from, to) =>
         && pc.Running? && Place(s.cur, from) in s.fds && to < MAXFD
         && Place(s.cur, to) !in s.fds && Place(s.cur, to) !in s.data
       case EndDup => pc.Duplicating? && Place(s.cur, pc.from) in s.fds
       case BeginFork(child) => pc.Running? && child < |s.pcs| && s.pcs[child].Unborn?
       case ForkStep => (pc.ForkFds? || pc.ForkData?) && pc.child < |s.pcs|
       case Kill(e) => pc.Running? && e < |s.pcs| && e != s.cur && Born(s.pcs[e])
       case Exit(next) => Born(pc) && next < |s.pcs| && next != s.cur && Born(s.pcs[next])
       case BeginTest(fd) => pc.Running? && Place(s.cur, fd) in s.fds
       case TestStep => (pc.TestFd? || pc.TestData? || pc.TestRuns?) && Place(s.cur, pc.fd) in s.fds
  }

  /** env_free: the pages of `e` are unmapped. The child of a fork that is not complete stays as it is. */
  function Freed(s: State, e: nat): State
    requires e < |s.pcs|
  {
    s.(pcs := s.pcs[e := Unborn], fds := map p | p in s.fds && p.env != e :: s.fds[p], data := set p | p in s.data && p.env != e)
  }

  function SwitchTo(s: State, e: nat): State
    requires e < |s.runs|
  {
    s.(cur := e, runs := s.runs[e := s.runs[e] + 1])
  }

  function ForkNext(s: State): State
    requires Enabled(s, ForkStep)
  {
    var pc := s.pcs[s.cur];
    var from, to := Place(s.cur, pc.k), Place(pc.child, pc.k);
    if pc.ForkFds? then
      SetPc(s, if pc.k + 1 < MAXFD then ForkFds(pc.child, pc.k + 1) else ForkData(pc.child, 0))
        .(fds := if from in s.fds then s.fds[to := s.fds[from]] else s.fds)
    else
      var s' := s.(data := if from in s.data then s.data + {to} else s.data);
      if pc.k + 1 < MAXFD then SetPc(s', ForkData(pc.child, pc.k + 1))
      else s'.(pcs := s.pcs[s.cur := Running][pc.child := Running])
  }

  ghost function TestNext(s: State): State
    requires Enabled(s, TestStep)
  {
    var pc := s.pcs[s.cur];
    match pc
    case TestFd(fd, n) => SetPc(s, TestData(fd, n, |FdsOf(s.fds, s.fds[Place(s.cur, fd)])|))
    case TestData(fd, n, a) => SetPc(s, TestRuns(fd, n, a, |s.data|))
    case TestRuns(fd, n, a, b) => SetPc(s, if n == s.runs[s.cur] then Running else TestFd(fd, s.runs[s.cur]))
  }

  ghost function Next(s: State, ev: Event): State
    requires Enabled(s, ev)
  {
    var pc := s.pcs[s.cur];
    match ev
    case Switch(e) => SwitchTo(s, e)
    case BeginClose(fd) => SetPc(s, Closing(fd)).(fds := s.fds - {Place(s.cur, fd)})
    case EndClose => SetPc(s, Running).(data := s.data - {Place(s.cur, pc.fd)})
    case BeginDup(from, to) => SetPc(s, Duplicating(from, to)).(data := s.data + {Place(s.cur, to)})
    case EndDup => SetPc(s, Running).(fds := s.fds[Place(s.cur, pc.to) := s.fds[Place(s.cur, pc.from)]])
    case BeginFork(child) => s.(pcs := s.pcs[s.cur := ForkFds(child, 0)][child := Child])
    case ForkStep => ForkNext(s)
    case Kill(e) => Freed(s, e)
    case Exit(e) => SwitchTo(Freed(s, s.cur), e)
    case BeginTest(fd) => SetPc(s, TestFd(fd, s.runs[s.cur]))
    case TestStep => TestNext(s)
  }

  /** _pipeisclosed returns in this step, and answers `closed`. */
  ghost predicate Answers(s: State, closed: bool) {
    && Enabled(s, TestStep) && s.pcs[s.cur].TestRuns? && Next(s, TestStep).pcs[s.cur].Running?
    && closed == (s.pcs[s.cur].a == s.pcs[s.cur].b)
  }

  // ------------------------------------------------------------------
  // The invariant
  // ------------------------------------------------------------------

  /** A descriptor has a data page, except in a child that is being made. */
  ghost predicate Covered(pcs: seq<Pc>, fds: Fds, data: set<Place>) {
    && (forall p | p in fds || p in data :: p.env < |pcs| && p.fd < MAXFD && !pcs[p.env].Unborn?)
    && (forall p | p in fds && !pcs[p.env].Child? :: p in data)
    && (forall p | p in data && p !in fds :: HalfWay(pcs[p.env], p.fd))
  }

  /** The environment is between the two pages of descriptor `fd`: closing it, making it, or being made. */
  predicate HalfWay(pc: Pc, fd: nat) {
    pc.Child? || pc == Closing(fd) || (pc.Duplicating? && pc.to == fd)
  }

  /** How far the fork of environment `e` has come. */
  ghost predicate ForkOk(pcs: seq<Pc>, fds: Fds, data: set<Place>, e: nat)
    requires e < |pcs|
  {
    var pc := pcs[e];
    IsFork(pc) ==>
      && pc.child < |pcs| && pcs[pc.child].Child? && pc.k < MAXFD
      && (forall k: nat | Place(pc.child, k) in fds :: Place(e, k) in fds && fds[Place(pc.child, k)] == fds[Place(e, k)])
      && (forall k: nat | Place(pc.child, k) in data :: Place(e, k) in data)
      && (forall k: nat | (pc.ForkFds? ==> k < pc.k) && Place(e, k) in fds :: Place(pc.child, k) in fds)
      && (pc.ForkData? ==> forall k: nat | k < pc.k && Place(e, k) in data :: Place(pc.child, k) in data)
  }

  /** Two forks do not make the same child. */
  ghost predicate ChildrenApart(pcs: seq<Pc>) {
    forall e, e' | 0 <= e < |pcs| && 0 <= e' < |pcs| && IsFork(pcs[e]) && IsFork(pcs[e']) && pcs[e].child == pcs[e'].child :: e == e'
  }

  /** An environment in the middle of dup or close, or of the test. */
  ghost predicate OwnOk(s: State, e: nat)
    requires e < |s.pcs| == |s.runs|
  {
    match s.pcs[e]
    case Closing(fd) => Place(e, fd) !in s.fds
    case Duplicating(from, to) => Place(e, from) in s.fds && Place(e, to) in s.data && to < MAXFD
    case TestFd(fd, n) => Place(e, fd) in s.fds && n <= s.runs[e]
    case TestData(fd, n, a) =>
      Place(e, fd) in s.fds && n <= s.runs[e] && (n == s.runs[e] && s.cur == e ==> a == |FdsOf(s.fds, s.fds[Place(e, fd)])|)
    case TestRuns(fd, n, a, b) =>
      Place(e, fd) in s.fds && n <= s.runs[e] &&
      (n == s.runs[e] && s.cur == e ==> a == |FdsOf(s.fds, s.fds[Place(e, fd)])| && b == |s.data|)
    case _ => true
  }

  ghost predicate Inv(s: State) {
    && Shape(s) && Born(s.pcs[s.cur])
    && Covered(s.pcs, s.fds, s.data) && ChildrenApart(s.pcs)
    && (forall e :: 0 <= e < |s.pcs| ==> ForkOk(s.pcs, s.fds, s.data, e) && OwnOk(s, e))
  }

  lemma SwitchKeeps(s: State, e: nat)
    requires Inv(s) && Enabled(s, Switch(e))
    ensures Inv(Next(s, Switch(e)))
  {
    var s' := Next(s, Switch(e));
    forall d | 0 <= d < |s.pcs|
      ensures ForkOk(s'.pcs, s'.fds, s'.data, d) && OwnOk(s', d)
    {
      assert ForkOk(s.pcs, s.fds, s.data, d) && OwnOk(s, d);
    }
  }

  /** A step of one environment that touches only its own places. */
  ghost predicate OwnStep(s: State, s': State) {
    && Shape(s) && Shape(s') && |s'.pcs| == |s.pcs| && s'.cur == s.cur && s'.runs == s.runs
    && Born(s.pcs[s.cur]) && !IsFork(s.pcs[s.cur]) && Born(s'.pcs[s.cur]) && !IsFork(s'.pcs[s.cur])
    && (forall e | 0 <= e < |s.pcs| && e != s.cur :: s'.pcs[e] == s.pcs[e])
    && (forall p: Place | p.env != s.cur ::
          (p in s'.fds <==> p in s.fds) && (p in s.fds ==> s'.fds[p] == s.fds[p]) && (p in s'.data <==> p in s.data))
  }

  /** Such a step keeps what the invariant says of the other environments. */
  lemma OwnStepKeeps(s: State, s': State)
    requires Inv(s) && OwnStep(s, s')
    requires OwnOk(s', s.cur)
    requires forall p: Place | p.env == s.cur && p in s'.fds :: p in s'.data
    requires forall p: Place | p.env == s.cur && p in s'.data :: p.fd < MAXFD && (p in s'.fds || HalfWay(s'.pcs[s.cur], p.fd))
    ensures Inv(s')
  {
    forall e | 0 <= e < |s.pcs|
      ensures ForkOk(s'.pcs, s'.fds, s'.data, e) && OwnOk(s', e)
    {
      assert ForkOk(s.pcs, s.fds, s.data, e) && OwnOk(s, e);
    }
  }

  lemma CloseKeeps(s: State, ev: Event)
    requires Inv(s) && Enabled(s, ev) && (ev.BeginClose? || ev.EndClose? || ev.BeginDup? || ev.EndDup? || ev.BeginTest? || ev.TestStep?)
    ensures Inv(Next(s, ev))
  {
    assert OwnOk(s, s.cur);
    OwnStepKeeps(s, Next(s, ev));
  }

  lemma KillKeeps(s: State, e: nat)
    requires Inv(s) && Enabled(s, Kill(e))
    ensures Inv(Next(s, Kill(e)))
  {
    var s' := Next(s, Kill(e));
    forall d | 0 <= d < |s.pcs|
      ensures ForkOk(s'.pcs, s'.fds, s'.data, d) && OwnOk(s', d)
    {
      assert ForkOk(s.pcs, s.fds, s.data, d) && OwnOk(s, d);
    }
  }

  lemma ExitKeeps(s: State, e: nat)
    requires Inv(s) && Enabled(s, Exit(e))
    ensures Inv(Next(s, Exit(e)))
  {
    var s' := Next(s, Exit(e));
    forall d | 0 <= d < |s.pcs|
      ensures ForkOk(s'.pcs, s'.fds, s'.data, d) && OwnOk(s', d)
    {
      assert ForkOk(s.pcs, s.fds, s.data, d) && OwnOk(s, d);
    }
  }

  lemma BeginForkKeeps(s: State, child: nat)
    requires Inv(s) && Enabled(s, BeginFork(child))
    ensures Inv(Next(s, BeginFork(child)))
  {
    var s' := Next(s, BeginFork(child));
    forall e | 0 <= e < |s.pcs|
      ensures ForkOk(s'.pcs, s'.fds, s'.data, e) && OwnOk(s', e)
      ensures IsFork(s.pcs[e]) ==> s.pcs[e].child != child
    {
      assert ForkOk(s.pcs, s.fds, s.data, e) && OwnOk(s, e);
    }
  }

  lemma ForkFdsKeeps(s: State)
    requires Inv(s) && Enabled(s, ForkStep) && s.pcs[s.cur].ForkFds?
    ensures Inv(ForkNext(s))
  {
    var s' := ForkNext(s);
    assert ForkOk(s.pcs, s.fds, s.data, s.cur);
    forall e | 0 <= e < |s.pcs|
      ensures ForkOk(s'.pcs, s'.fds, s'.data, e) && OwnOk(s', e)
    {
      assert ForkOk(s.pcs, s.fds, s.data, e) && OwnOk(s, e);
    }
  }

  lemma ForkDataKeeps(s: State)
    requires Inv(s) && Enabled(s, ForkStep) && s.pcs[s.cur].ForkData? && s.pcs[s.cur].k + 1 < MAXFD
    ensures Inv(ForkNext(s))
  {
    var s' := ForkNext(s);
    assert ForkOk(s.pcs, s.fds, s.data, s.cur);
    forall e | 0 <= e < |s.pcs|
      ensures ForkOk(s'.pcs, s'.fds, s'.data, e) && OwnOk(s', e)
    {
      assert ForkOk(s.pcs, s.fds, s.data, e) && OwnOk(s, e);
    }
  }

  /** The last data page: the child is complete, and every fd page it has is covered. */
  lemma ForkEndKeeps(s: State)
    requires Inv(s) && Enabled(s, ForkStep) && s.pcs[s.cur].ForkData? && s.pcs[s.cur].k + 1 == MAXFD
    ensures Inv(ForkNext(s))
  {
    var s', child := ForkNext(s), s.pcs[s.cur].child;
    assert ForkOk(s.pcs, s.fds, s.data, s.cur);
    forall k: nat
      ensures Place(child, k) in s'.fds <==> Place(child, k) in s'.data
    {
      assert Place(s.cur, k) in s.data <==> Place(s.cur, k) in s.fds;
    }
    forall e | 0 <= e < |s.pcs|
      ensures ForkOk(s'.pcs, s'.fds, s'.data, e) && OwnOk(s', e)
    {
      assert ForkOk(s.pcs, s.fds, s.data, e) && OwnOk(s, e);
    }
  }

  lemma StepKeeps(s: State, ev: Event)
    requires Inv(s) && Enabled(s, ev)
    ensures Inv(Next(s, ev))
  {
    match ev
    case Switch(e) => SwitchKeeps(s, e);
    case Kill(e) => KillKeeps(s, e);
    case Exit(e) => ExitKeeps(s, e);
    case BeginFork(child) => BeginForkKeeps(s, child);
    case ForkStep =>
      assert ForkOk(s.pcs, s.fds, s.data, s.cur);
      if s.pcs[s.cur].ForkFds? {
        ForkFdsKeeps(s);
      } else if s.pcs[s.cur].k + 1 < MAXFD {
        ForkDataKeeps(s);
      } else {
        ForkEndKeeps(s);
      }
    case _ => CloseKeeps(s, ev);
  }

  /** fork ends with a child that runs and has its parent's descriptors, each with its data page. */
  lemma ForkCopies(s: State)
    requires Inv(s) && Enabled(s, ForkStep) && Next(s, ForkStep).pcs[s.cur].Running?
    ensures var t, child := Next(s, ForkStep), s.pcs[s.cur].child;
      && child < |t.pcs| && t.pcs[child].Running? && Born(t.pcs[s.cur])
      && (forall k: nat :: Place(child, k) in t.fds <==> Place(s.cur, k) in s.fds)
      && (forall k: nat :: Place(child, k) in t.fds ==> t.fds[Place(child, k)] == s.fds[Place(s.cur, k)])
      && (forall k: nat :: Place(child, k) in t.data <==> Place(s.cur, k) in s.data)
      && (forall p: Place | p.env != child :: (p in t.fds <==> p in s.fds) && (p in t.data <==> p in s.data))
  {
    assert ForkOk(s.pcs, s.fds, s.data, s.cur) && ForkOk(s.pcs, s.fds, s.data, s.pcs[s.cur].child);
  }

  /** Every step of a fork brings it nearer to its end, 64 steps after it has begun. */
  lemma ForkGoesOn(s: State)
    requires Inv(s) && Enabled(s, ForkStep)
    ensures var pc, pc' := s.pcs[s.cur], Next(s, ForkStep).pcs[s.cur];
      if StepsLeft(pc) == 1 then pc'.Running? else IsFork(pc') && pc'.child == pc.child && StepsLeft(pc') == StepsLeft(pc) - 1
  {
    assert ForkOk(s.pcs, s.fds, s.data, s.cur);
  }

  function StepsLeft(pc: Pc): int {
    if pc.ForkFds? then 2 * MAXFD - pc.k else if pc.ForkData? then MAXFD - pc.k else 0
  }

  lemma ForkBegins(s: State, child: nat)
    requires Inv(s) && Enabled(s, BeginFork(child))
    ensures var t := Next(s, BeginFork(child));
      && t == s.(pcs := t.pcs) && IsFork(t.pcs[s.cur]) && t.pcs[s.cur].child == child && StepsLeft(t.pcs[s.cur]) == 64
      && t.pcs[child].Child? && Enabled(t, ForkStep)
  {
  }

  /** An environment that is killed or ends has no page left, and nobody else has lost any. */
  lemma KilledGone(s: State, ev: Event)
    requires Inv(s) && Enabled(s, ev) && (ev.Kill? || ev.Exit?)
    ensures var t, e := Next(s, ev), if ev.Kill? then ev.env else s.cur;
      && t.pcs[e].Unborn? && (forall d :: 0 <= d < |s.pcs| && d != e ==> t.pcs[d] == s.pcs[d])
      && (forall p: Place | p.env == e :: p !in t.fds && p !in t.data)
      && (forall p: Place | p.env != e :: (p in t.fds <==> p in s.fds) && (p in s.fds ==> t.fds[p] == s.fds[p]) && (p in t.data <==> p in s.data))
      && (ev.Exit? ==> t.cur == ev.next && t.runs[ev.next] == s.runs[ev.next] + 1)
  {
  }

  /** dup ends with a descriptor of the same end, and has changed no other. */
  lemma DupCopies(s: State)
    requires Inv(s) && Enabled(s, EndDup)
    ensures var t, from, to := Next(s, EndDup), Place(s.cur, s.pcs[s.cur].from), Place(s.cur, s.pcs[s.cur].to);
      && t.pcs[s.cur].Running? && from in t.fds && to in t.fds && to in t.data && t.fds[to] == t.fds[from] == s.fds[from]
      && forall p | p != to :: (p in t.fds <==> p in s.fds) && (p in s.fds ==> t.fds[p] == s.fds[p]) && (p in t.data <==> p in s.data)
  {
    assert OwnOk(s, s.cur);
  }

  /** A close that has begun ends with neither page mapped, and has changed no other descriptor. */
  lemma CloseEnds(s: State)
    requires Inv(s) && Enabled(s, EndClose)
    ensures var t, place := Next(s, EndClose), Place(s.cur, s.pcs[s.cur].fd);
      && t.pcs[s.cur].Running? && place !in t.fds && place !in t.data
      && t.fds == s.fds && forall p | p != place :: p in t.data <==> p in s.data
  {
    assert OwnOk(s, s.cur);
  }

  /** Whole calls, uninterrupted: close, dup, and the beginning of the test. */
  lemma WholeCalls(s: State, fd: nat, to: nat)
    requires Inv(s) && s.pcs[s.cur].Running? && Place(s.cur, fd) in s.fds
    ensures Enabled(s, BeginClose(fd)) && Enabled(Next(s, BeginClose(fd)), EndClose)
    ensures Next(Next(s, BeginClose(fd)), EndClose) == s.(fds := s.fds - {Place(s.cur, fd)}, data := s.data - {Place(s.cur, fd)})
    ensures to < MAXFD && Place(s.cur, to) !in s.fds ==>
      && Enabled(s, BeginDup(fd, to)) && Enabled(Next(s, BeginDup(fd, to)), EndDup)
      && Next(Next(s, BeginDup(fd, to)), EndDup) ==
           s.(fds := s.fds[Place(s.cur, to) := s.fds[Place(s.cur, fd)]], data := s.data + {Place(s.cur, to)})
    ensures Enabled(s, BeginTest(fd)) && Next(s, BeginTest(fd)) == s.(pcs := s.pcs[s.cur := TestFd(fd, s.runs[s.cur])])
  {
    assert s.pcs[s.cur := Closing(fd)][s.cur := Running] == s.pcs;
    assert s.pcs[s.cur := Duplicating(fd, to)][s.cur := Running] == s.pcs;
    assert Place(s.cur, to) in s.data && Place(s.cur, to) !in s.fds ==> HalfWay(s.pcs[s.cur], to);
  }

  /** A test that is not interrupted answers after three steps. */
  lemma TestAnswers(s: State, fd: nat)
    requires Inv(s) && s.pcs[s.cur] == TestFd(fd, s.runs[s.cur])
    ensures Enabled(s, TestStep) && Enabled(Next(s, TestStep), TestStep)
    ensures Enabled(Next(Next(s, TestStep), TestStep), TestStep)
    ensures exists closed :: Answers(Next(Next(s, TestStep), TestStep), closed)
  {
    assert OwnOk(s, s.cur);
    var t := Next(Next(s, TestStep), TestStep);
    assert Answers(t, t.pcs[t.cur].a == t.pcs[t.cur].b);
  }

  // ------------------------------------------------------------------
  // What the answer means
  // ------------------------------------------------------------------

  /** No fork is between the fd pages and the data pages of some child. */
  ghost predicate NoFork(s: State) {
    forall e :: 0 <= e < |s.pcs| ==> !IsFork(s.pcs[e]) && !s.pcs[e].Child?
  }

  /** No dup or close is between its two pages. */
  ghost predicate NoDupOrClose(s: State) {
    forall e :: 0 <= e < |s.pcs| ==> !s.pcs[e].Closing? && !s.pcs[e].Duplicating?
  }

  ghost predicate NoneOpen(fds: Fds, end: End) {
    forall p | p in fds :: fds[p] != end
  }

  /** Places with a data page only: dup and close in progress. */
  ghost function DataOnly(fds: Fds, data: set<Place>): set<Place> {
    data - fds.Keys
  }

  /** Places with an fd page only: forks in progress. */
  ghost function FdOnly(fds: Fds, data: set<Place>): set<Place> {
    fds.Keys - data
  }

  /** The counts that the test compares, exactly. */
  lemma CountsCompared(fds: Fds, data: set<Place>, end: End)
    ensures |FdsOf(fds, end)| + |FdsOf(fds, Opposite(end))| + |DataOnly(fds, data)| == |data| + |FdOnly(fds, data)|
    ensures |FdsOf(fds, Opposite(end))| == 0 <==> NoneOpen(fds, Opposite(end))
  {
    var mine, others := FdsOf(fds, end), FdsOf(fds, Opposite(end));
    assert mine + others == fds.Keys && mine * others == {};
    assert fds.Keys + DataOnly(fds, data) == data + FdOnly(fds, data);
    assert fds.Keys * DataOnly(fds, data) == {} && data * FdOnly(fds, data) == {};
    assert others == {} <==> NoneOpen(fds, Opposite(end)) by {
      forall p | p in fds && fds[p] == Opposite(end)
        ensures p in others
      {
      }
    }
  }

  /** _pipeisclosed answers that the pipe is closed exactly when the descriptors of the other end and the
      ones that dup or close are working on are as many as those that forks have not given their data
      page yet: the loads around it make the two counts one snapshot. */
  lemma AnswerIs(s: State, closed: bool)
    requires Inv(s) && Answers(s, closed)
    ensures var end := s.fds[Place(s.cur, s.pcs[s.cur].fd)];
      closed <==> |FdsOf(s.fds, Opposite(end))| + |DataOnly(s.fds, s.data)| == |FdOnly(s.fds, s.data)|
  {
    assert OwnOk(s, s.cur);
    CountsCompared(s.fds, s.data, s.fds[Place(s.cur, s.pcs[s.cur].fd)]);
  }

  /** Soundness: while no fork is half-way, an answer of "closed" means that no descriptor of the other
      end exists anywhere; and when no dup or close is half-way either, the answer is right both ways. */
  lemma ClosedMeansClosed(s: State, closed: bool)
    requires Inv(s) && Answers(s, closed) && NoFork(s)
    ensures var end := s.fds[Place(s.cur, s.pcs[s.cur].fd)];
      && (closed ==> NoneOpen(s.fds, Opposite(end)))
      && (NoDupOrClose(s) ==> (closed <==> NoneOpen(s.fds, Opposite(end))))
  {
    AnswerIs(s, closed);
    CountsCompared(s.fds, s.data, s.fds[Place(s.cur, s.pcs[s.cur].fd)]);
    assert FdOnly(s.fds, s.data) == {};
    assert NoDupOrClose(s) ==> DataOnly(s.fds, s.data) == {};
  }

  // ------------------------------------------------------------------
  // Runs
  // ------------------------------------------------------------------

  ghost predicate IsRun(s: State, evs: seq<Event>)
    decreases |evs|
  {
    evs == [] || (Enabled(s, evs[0]) && IsRun(Next(s, evs[0]), evs[1..]))
  }

  ghost function After(s: State, evs: seq<Event>): State
    requires IsRun(s, evs)
    decreases |evs|
  {
    if evs == [] then s else After(Next(s, evs[0]), evs[1..])
  }

  lemma {:induction false} RunKeeps(s: State, evs: seq<Event>)
    requires Inv(s) && IsRun(s, evs)
    ensures Inv(After(s, evs))
    decreases |evs|
  {
    if evs != [] {
      StepKeeps(s, evs[0]);
      RunKeeps(Next(s, evs[0]), evs[1..]);
    }
  }

  /** What pipe() leaves: environment `e` has both ends, each with the data page. */
  predicate Made(s: State, e: nat, r: nat, w: nat) {
    && Shape(s) && s.cur == e && s.pcs[e].Running? && r != w && r < MAXFD && w < MAXFD
    && (forall d :: 0 <= d < |s.pcs| ==> s.pcs[d].Unborn? || s.pcs[d].Running?)
    && s.fds == map[Place(e, r) := ReadEnd, Place(e, w) := WriteEnd] && s.data == {Place(e, r), Place(e, w)}
  }

  /** In every run from there, every answer is sound that is given while no fork is half-way, and right both
      ways when no dup or close is either: an open descriptor of the other end is not overlooked, and when
      the last one is closed the test says so. */
  lemma EveryAnswerSound(s: State, e: nat, r: nat, w: nat, evs: seq<Event>, closed: bool)
    requires Made(s, e, r, w) && IsRun(s, evs) && Answers(After(s, evs), closed) && NoFork(After(s, evs))
    ensures var t := After(s, evs);
      var open := !NoneOpen(t.fds, Opposite(t.fds[Place(t.cur, t.pcs[t.cur].fd)]));
      (closed ==> !open) && (NoDupOrClose(t) ==> (closed <==> !open))
  {
    assert Inv(s);
    RunKeeps(s, evs);
    ClosedMeansClosed(After(s, evs), closed);
  }

  /** Environment 0 has both ends, environment 1 has a copy of the read end, and `pc0` and `pc1` are what
      they are doing; `more` is set once environment 2 has a copy of the read end too. */
  function Trio(cur: nat, runs1: nat, pc0: Pc, pc1: Pc, pc2: Pc, more: bool): State {
    var fds := map[Place(0, 0) := ReadEnd, Place(0, 1) := WriteEnd, Place(1, 0) := ReadEnd];
    State(cur, [1, runs1, 0], [pc0, pc1, pc2], if more then fds[Place(2, 0) := ReadEnd] else fds,
      {Place(0, 0), Place(0, 1), Place(1, 0)})
  }

  /** fork maps the fd pages of the child before its data pages, and an answer in between can be wrong:
      environment 0 forks, environment 1 asks after the first page, and is told that nobody can write. */
  lemma ForkFoolsTheTest()
    ensures var s := Trio(0, 1, Running, Running, Unborn, false);
      Inv(s) && NoFork(s) && Enabled(s, BeginFork(2)) && Next(s, BeginFork(2)) == Trio(0, 1, ForkFds(2, 0), Running, Child, false)
    ensures var s := Trio(0, 1, ForkFds(2, 0), Running, Child, false);
      Enabled(s, ForkStep) && Next(s, ForkStep) == Trio(0, 1, ForkFds(2, 1), Running, Child, true)
    ensures var s := Trio(0, 1, ForkFds(2, 1), Running, Child, true);
      Enabled(s, Switch(1)) && Next(s, Switch(1)) == Trio(1, 2, ForkFds(2, 1), Running, Child, true)
  {
  }

  lemma TheTestIsFooled()
    ensures var s := Trio(1, 2, ForkFds(2, 1), Running, Child, true);
      Enabled(s, BeginTest(0)) && Next(s, BeginTest(0)) == Trio(1, 2, ForkFds(2, 1), TestFd(0, 2), Child, true)
    ensures var s := Trio(1, 2, ForkFds(2, 1), TestFd(0, 2), Child, true);
      Enabled(s, TestStep) && Next(s, TestStep) == Trio(1, 2, ForkFds(2, 1), TestData(0, 2, 3), Child, true)
    ensures var s := Trio(1, 2, ForkFds(2, 1), TestData(0, 2, 3), Child, true);
      Enabled(s, TestStep) && Next(s, TestStep) == Trio(1, 2, ForkFds(2, 1), TestRuns(0, 2, 3, 3), Child, true)
    ensures var s := Trio(1, 2, ForkFds(2, 1), TestRuns(0, 2, 3, 3), Child, true);
      Answers(s, true) && s.fds[Place(1, 0)] == ReadEnd && !NoneOpen(s.fds, WriteEnd)
  {
    var s := Trio(1, 2, ForkFds(2, 1), TestFd(0, 2), Child, true);
    var readers := {Place(0, 0), Place(1, 0), Place(2, 0)};
    assert FdsOf(s.fds, ReadEnd) == readers;
    assert |readers| == 3 && |s.data| == 3;
    assert s.fds[Place(0, 1)] == WriteEnd;
  }
}
