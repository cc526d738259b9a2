/**
 User-level page faults: the frame that page_fault_handler (TPJOS/kern/trap.c:405-446) puts
 on the exception stack, and the return from it in TPJOS/lib/pfentry.S, one instruction at
 a time. Faults may be taken inside the handler of another fault, to any depth.

 `mem` maps the address of a word to the word; stack pointers are multiples of 4.
 */
module Upcall {

  const PGSIZE: int := 4096
  const UXSTACKTOP: int := 0xEEC0_0000
  const UXSTACKBOTTOM: int := UXSTACKTOP - PGSIZE
  const FRAME: int := 52          // sizeof(struct UTrapframe)

  datatype Machine = Machine(
    edi: int, esi: int, ebp: int, ebx: int, edx: int, ecx: int, eax: int,
    eip: int, eflags: int, esp: int, mem: int -> int)

  function Put(mem: int -> int, a: int, v: int): int -> int {
    x => if x == a then v else mem(x)
  }

  predicate OnExceptionStack(a: int) {
    UXSTACKBOTTOM <= a < UXSTACKTOP
  }

  // ------------------------------------------------------------------
  // The kernel
  // ------------------------------------------------------------------

  /** Where the frame goes: below a blank word if the fault was taken on the exception stack. */
  function FrameAddress(esp: int): int {
    if OnExceptionStack(esp) then esp - 4 - FRAME else UXSTACKTOP - FRAME
  }

  /** struct UTrapframe, word by word. `oesp` is what pusha saved of the stack pointer. */
  function FrameWords(m: Machine, va: int, err: int, oesp: int): seq<int> {
    [va, err, m.edi, m.esi, m.ebp, oesp, m.ebx, m.edx, m.ecx, m.eax, m.eip, m.eflags, m.esp]
  }

  /** trap.c:436-444. */
  function KernelPush(m: Machine, va: int, err: int, oesp: int, upcall: int): Machine {
    var u, words := FrameAddress(m.esp), FrameWords(m, va, err, oesp);
    m.(mem := x => if u <= x < u + FRAME && (x - u) % 4 == 0 then words[(x - u) / 4] else m.mem(x),
       eip := upcall, esp := u)
  }

  /** user_mem_assert (trap.c:413-423): otherwise the environment is destroyed. */
  predicate Fits(esp: int) {
    UXSTACKBOTTOM <= FrameAddress(esp)
  }

  // ------------------------------------------------------------------
  // pfentry.S
  // ------------------------------------------------------------------

  datatype Instr =
    | PushEsp | LoadHandler | CallEax(back: int)
    | AddEsp(flags: int)             // addl $4, %esp; `flags` is what it leaves in eflags
    | MovEspEax | LoadEbx(off: int) | LoadEsp(off: int) | PushEbx | StoreEsp(off: int) | MovEaxEsp
    | Popal | Popf | PopEsp | Ret

  function Exec(m: Machine, i: Instr, handler: int): Machine {
    match i
    case PushEsp => m.(esp := m.esp - 4, mem := Put(m.mem, m.esp - 4, m.esp))
    case LoadHandler => m.(eax := handler)
    case CallEax(back) => m.(esp := m.esp - 4, mem := Put(m.mem, m.esp - 4, back), eip := m.eax)
    case AddEsp(flags) => m.(esp := m.esp + 4, eflags := flags)
    case MovEspEax => m.(eax := m.esp)
    case LoadEbx(off) => m.(ebx := m.mem(m.esp + off))
    case LoadEsp(off) => m.(esp := m.mem(m.esp + off))
    case PushEbx => m.(esp := m.esp - 4, mem := Put(m.mem, m.esp - 4, m.ebx))
    case StoreEsp(off) => m.(mem := Put(m.mem, m.eax + off, m.esp))
    case MovEaxEsp => m.(esp := m.eax)
    case Popal =>
      m.(edi := m.mem(m.esp), esi := m.mem(m.esp + 4), ebp := m.mem(m.esp + 8),
         ebx := m.mem(m.esp + 16), edx := m.mem(m.esp + 20), ecx := m.mem(m.esp + 24), eax := m.mem(m.esp + 28),
         esp := m.esp + 32)
    case Popf => m.(eflags := m.mem(m.esp), esp := m.esp + 4)
    case PopEsp => m.(esp := m.mem(m.esp))
    case Ret => m.(eip := m.mem(m.esp), esp := m.esp + 4)
  }

  function ExecAll(m: Machine, code: seq<Instr>, handler: int): Machine
    decreases |code|
  {
    if code == [] then m else ExecAll(Exec(m, code[0], handler), code[1..], handler)
  }

  /** pfentry.S:36-38. */
  function Entry(back: int): seq<Instr> {
    [PushEsp, LoadHandler, CallEax(back)]
  }

  /** pfentry.S:39 and 68-95. `f0` to `f3` are what the additions leave in eflags. */
  function Return(f0: int, f1: int, f2: int, f3: int): seq<Instr> {
    [AddEsp(f0),
     MovEspEax, LoadEbx(40), LoadEsp(48), PushEbx, StoreEsp(48), MovEaxEsp,
     AddEsp(f1), AddEsp(f2), Popal, AddEsp(f3), Popf, PopEsp, Ret]
  }

  // ------------------------------------------------------------------
  // What the C handler does
  // ------------------------------------------------------------------

  datatype Write = Write(address: int, value: int)

  /** An execution of a handler: instructions of its own, each with the state it leaves, and faults. */
  datatype Body =
    | Done
    | Step(regs: Machine, writes: seq<Write>, rest: Body)
    | Fault(va: int, err: int, oesp: int, back: int, f0: int, f1: int, f2: int, f3: int, inner: Body, rest: Body)

  function Store(mem: int -> int, writes: seq<Write>): int -> int
    decreases |writes|
  {
    if writes == [] then mem else Store(Put(mem, writes[0].address, writes[0].value), writes[1..])
  }

  /** The handler has been called: the kernel and the entry code. */
  function Entered(m: Machine, f: Body, upcall: int, handler: int): Machine
    requires f.Fault?
  {
    ExecAll(KernelPush(m, f.va, f.err, f.oesp, upcall), Entry(f.back), handler)
  }

  /** The whole of one fault: the kernel, the entry code, the handler's `ret`, and the return code. */
  function DoFault(m: Machine, f: Body, upcall: int, handler: int): Machine
    requires f.Fault?
    decreases f, 0
  {
    var entered := Entered(m, f, upcall, handler);
    var left := Exec(Run(entered, f.inner, upcall, handler), Ret, handler);
    ExecAll(left, Return(f.f0, f.f1, f.f2, f.f3), handler)
  }

  function Run(m: Machine, body: Body, upcall: int, handler: int): Machine
    decreases body, 1
  {
    match body
    case Done => m
    case Step(regs, writes, rest) => Run(regs.(mem := Store(m.mem, writes)), rest, upcall, handler)
    case Fault(_, _, _, _, _, _, _, _, _, rest) => Run(DoFault(m, body, upcall, handler), rest, upcall, handler)
  }

  /** The words of an interrupted frame that a handler with its frame at `u` must leave alone: the frame,
      everything above it, and the return address of the call. */
  predicate Protected(u: int, a: int) {
    OnExceptionStack(a) && (u <= a || a == u - 8)
  }

  /** A handler that obeys the calling convention and stays within the exception stack. */
  predicate Obeys(m: Machine, body: Body, u: int, upcall: int, handler: int)
    decreases body
  {
    match body
    case Done => m.esp == u - 8
    case Step(regs, writes, rest) =>
      && regs.esp % 4 == 0 && UXSTACKBOTTOM <= regs.esp <= u - 8
      && (forall w :: w in writes ==> !Protected(u, w.address))
      && Obeys(regs.(mem := Store(m.mem, writes)), rest, u, upcall, handler)
    case Fault(_, _, _, _, _, _, _, _, _, rest) =>
      && FaultOk(m, body, upcall, handler)
      && Obeys(DoFault(m, body, upcall, handler), rest, u, upcall, handler)
  }

  /** The nesting fits the exception stack, down to the two words of the call. */
  predicate FaultOk(m: Machine, f: Body, upcall: int, handler: int)
    requires f.Fault?
    decreases f, 0
  {
    && m.esp % 4 == 0 && Fits(m.esp) && UXSTACKBOTTOM <= FrameAddress(m.esp) - 8
    && Obeys(Entered(m, f, upcall, handler), f.inner, FrameAddress(m.esp), upcall, handler)
  }

  /** The addresses that the handlers of a fault write themselves. */
  function Targets(body: Body): set<int> {
    match body
    case Done => {}
    case Step(_, writes, rest) => (set w | w in writes :: w.address) + Targets(rest)
    case Fault(_, _, _, _, _, _, _, _, inner, rest) => Targets(inner) + Targets(rest)
  }

  // ------------------------------------------------------------------
  // Running the code
  // ------------------------------------------------------------------

  lemma {:induction false} InTwo(m: Machine, a: seq<Instr>, b: seq<Instr>, handler: int)
    ensures ExecAll(m, a + b, handler) == ExecAll(ExecAll(m, a, handler), b, handler)
    decreases |a|
  {
    if a == [] {
      assert a + b == b;
    } else {
      assert (a + b)[1..] == a[1..] + b;
      InTwo(Exec(m, a[0], handler), a[1..], b, handler);
    }
  }

  lemma Three(m: Machine, i: Instr, j: Instr, k: Instr, handler: int)
    ensures ExecAll(m, [i, j, k], handler) == Exec(Exec(Exec(m, i, handler), j, handler), k, handler)
  {
    assert [i, j, k][1..] == [j, k] && [j, k][1..] == [k] && [k][1..] == [];
    assert ExecAll(Exec(Exec(m, i, handler), j, handler), [k], handler) == Exec(Exec(Exec(m, i, handler), j, handler), k, handler);
    assert ExecAll(Exec(m, i, handler), [j, k], handler) == ExecAll(Exec(Exec(m, i, handler), j, handler), [k], handler);
  }

  lemma Two(m: Machine, i: Instr, j: Instr, handler: int)
    ensures ExecAll(m, [i, j], handler) == Exec(Exec(m, i, handler), j, handler)
  {
    assert [i, j][1..] == [j] && [j][1..] == [];
    assert ExecAll(Exec(m, i, handler), [j], handler) == Exec(Exec(m, i, handler), j, handler);
  }

  lemma Enters(m: Machine, back: int, handler: int)
    ensures ExecAll(m, Entry(back), handler) ==
      m.(esp := m.esp - 8, eax := handler, eip := handler, mem := Put(Put(m.mem, m.esp - 4, m.esp), m.esp - 8, back))
  {
    Three(m, PushEsp, LoadHandler, CallEax(back), handler);
  }

  /** The trap-time stack with the trap-time eip pushed, and the saved stack pointer adjusted. */
  function Adjusted(mem: int -> int, u: int): int -> int {
    Put(Put(mem, mem(u + 48) - 4, mem(u + 40)), u + 48, mem(u + 48) - 4)
  }

  /** pfentry.S:39-73. */
  lemma Switches(m: Machine, f0: int, u: int, handler: int)
    requires m.esp == u - 4
    ensures ExecAll(m, [AddEsp(f0), MovEspEax, LoadEbx(40), LoadEsp(48), PushEbx, StoreEsp(48), MovEaxEsp], handler) ==
      m.(esp := u, eflags := f0, eax := u, ebx := m.mem(u + 40), mem := Adjusted(m.mem, u))
  {
    var m1 := m.(esp := u, eflags := f0, eax := u, ebx := m.mem(u + 40));
    var m2 := m1.(esp := m.mem(u + 48) - 4, mem := Put(m.mem, m.mem(u + 48) - 4, m.mem(u + 40)));
    Three(m, AddEsp(f0), MovEspEax, LoadEbx(40), handler);
    Two(m1, LoadEsp(48), PushEbx, handler);
    Two(m2, StoreEsp(48), MovEaxEsp, handler);
    InTwo(m1, [LoadEsp(48), PushEbx], [StoreEsp(48), MovEaxEsp], handler);
    InTwo(m, [AddEsp(f0), MovEspEax, LoadEbx(40)], [LoadEsp(48), PushEbx] + [StoreEsp(48), MovEaxEsp], handler);
    assert [AddEsp(f0), MovEspEax, LoadEbx(40)] + ([LoadEsp(48), PushEbx] + [StoreEsp(48), MovEaxEsp]) ==
      [AddEsp(f0), MovEspEax, LoadEbx(40), LoadEsp(48), PushEbx, StoreEsp(48), MovEaxEsp];
  }

  /** pfentry.S:78-95: everything is popped from the frame at `u`. */
  lemma Pops(m: Machine, f1: int, f2: int, f3: int, u: int, handler: int)
    requires m.esp == u
    ensures ExecAll(m, [AddEsp(f1), AddEsp(f2), Popal, AddEsp(f3), Popf, PopEsp, Ret], handler) ==
      Machine(m.mem(u + 8), m.mem(u + 12), m.mem(u + 16), m.mem(u + 24), m.mem(u + 28), m.mem(u + 32), m.mem(u + 36),
              m.mem(m.mem(u + 48)), m.mem(u + 44), m.mem(u + 48) + 4, m.mem)
  {
    var m1 := m.(edi := m.mem(u + 8), esi := m.mem(u + 12), ebp := m.mem(u + 16), ebx := m.mem(u + 24), edx := m.mem(u + 28),
                 ecx := m.mem(u + 32), eax := m.mem(u + 36), eflags := f2, esp := u + 40);
    var m2 := m1.(eflags := m.mem(u + 44), esp := u + 48);
    Three(m, AddEsp(f1), AddEsp(f2), Popal, handler);
    Two(m1, AddEsp(f3), Popf, handler);
    Two(m2, PopEsp, Ret, handler);
    InTwo(m1, [AddEsp(f3), Popf], [PopEsp, Ret], handler);
    InTwo(m, [AddEsp(f1), AddEsp(f2), Popal], [AddEsp(f3), Popf] + [PopEsp, Ret], handler);
    assert [AddEsp(f1), AddEsp(f2), Popal] + ([AddEsp(f3), Popf] + [PopEsp, Ret]) ==
      [AddEsp(f1), AddEsp(f2), Popal, AddEsp(f3), Popf, PopEsp, Ret];
  }

  lemma Returns(m: Machine, f0: int, f1: int, f2: int, f3: int, u: int, handler: int)
    requires m.esp == u - 4
    ensures var mem := Adjusted(m.mem, u);
      ExecAll(m, Return(f0, f1, f2, f3), handler) ==
      Machine(mem(u + 8), mem(u + 12), mem(u + 16), mem(u + 24), mem(u + 28), mem(u + 32), mem(u + 36),
              mem(mem(u + 48)), mem(u + 44), mem(u + 48) + 4, mem)
  {
    var first := [AddEsp(f0), MovEspEax, LoadEbx(40), LoadEsp(48), PushEbx, StoreEsp(48), MovEaxEsp];
    var second := [AddEsp(f1), AddEsp(f2), Popal, AddEsp(f3), Popf, PopEsp, Ret];
    assert Return(f0, f1, f2, f3) == first + second;
    InTwo(m, first, second, handler);
    Switches(m, f0, u, handler);
    Pops(ExecAll(m, first, handler), f1, f2, f3, u, handler);
  }

  // ------------------------------------------------------------------
  // Transparency
  // ------------------------------------------------------------------

  /** The words that a fault at stack pointer `esp` must not disturb: on the exception stack those that
      are in use; elsewhere all but the word below the stack pointer. */
  predicate Live(esp: int, a: int) {
    if OnExceptionStack(esp) then !OnExceptionStack(a) || esp <= a else !OnExceptionStack(a) && a != esp - 4
  }

  lemma {:induction false} StoreElsewhere(mem: int -> int, writes: seq<Write>, a: int)
    requires forall w :: w in writes ==> w.address != a
    ensures Store(mem, writes)(a) == mem(a)
    decreases |writes|
  {
    if writes != [] {
      StoreElsewhere(Put(mem, writes[0].address, writes[0].value), writes[1..], a);
    }
  }

  /** A handler's stores happen, the last one to a word last. */
  lemma {:induction false} StoreLast(mem: int -> int, writes: seq<Write>, w: Write, a: int)
    ensures Store(mem, writes + [w])(a) == if a == w.address then w.value else Store(mem, writes)(a)
    decreases |writes|
  {
    if writes == [] {
      assert writes + [w] == [w] && [w][1..] == [];
    } else {
      assert (writes + [w])[1..] == writes[1..] + [w];
      StoreLast(Put(mem, writes[0].address, writes[0].value), writes[1..], w, a);
    }
  }

  /** The handler comes back with its frame as it was. */
  lemma {:induction false} HandlerKeeps(m: Machine, body: Body, u: int, upcall: int, handler: int)
    requires Obeys(m, body, u, upcall, handler) && m.esp % 4 == 0 && UXSTACKBOTTOM <= m.esp <= u - 8 && u < UXSTACKTOP
    ensures Run(m, body, upcall, handler).esp == u - 8
    ensures forall a :: Protected(u, a) || (!OnExceptionStack(a) && a !in Targets(body)) ==> Run(m, body, upcall, handler).mem(a) == m.mem(a)
    decreases body, 1
  {
    match body
    case Done =>
    case Step(regs, writes, rest) =>
      var m1 := regs.(mem := Store(m.mem, writes));
      HandlerKeeps(m1, rest, u, upcall, handler);
      forall a | Protected(u, a) || (!OnExceptionStack(a) && a !in Targets(body))
        ensures Run(m, body, upcall, handler).mem(a) == m.mem(a)
      {
        assert forall w :: w in writes && !Protected(u, a) ==> w.address in Targets(body);
        StoreElsewhere(m.mem, writes, a);
      }
    case Fault(_, _, _, _, _, _, _, _, _, rest) =>
      var m1 := DoFault(m, body, upcall, handler);
      FaultIsTransparent(m, body, upcall, handler);
      HandlerKeeps(m1, rest, u, upcall, handler);
      forall a | Protected(u, a) || (!OnExceptionStack(a) && a !in Targets(body))
        ensures Run(m, body, upcall, handler).mem(a) == m.mem(a)
      {
        assert Live(m.esp, a);
      }
  }

  /** From a frame that is intact, the return code restores the machine. */
  lemma Resumes(m: Machine, left: Machine, f0: int, f1: int, f2: int, f3: int, u: int, handler: int)
    requires left.esp == u - 4 && !(u <= m.esp - 4 < u + FRAME)
    requires var w := left.mem;
      && w(u + 8) == m.edi && w(u + 12) == m.esi && w(u + 16) == m.ebp && w(u + 24) == m.ebx && w(u + 28) == m.edx
      && w(u + 32) == m.ecx && w(u + 36) == m.eax && w(u + 40) == m.eip && w(u + 44) == m.eflags && w(u + 48) == m.esp
    ensures var r := ExecAll(left, Return(f0, f1, f2, f3), handler);
      && r == m.(mem := r.mem)
      && forall a :: a != m.esp - 4 && a != u + 48 ==> r.mem(a) == left.mem(a)
  {
    hide ExecAll;
    Returns(left, f0, f1, f2, f3, u, handler);
  }

  lemma InRange(esp: int)
    requires Fits(esp)
    ensures UXSTACKBOTTOM <= FrameAddress(esp) && FrameAddress(esp) + FRAME <= UXSTACKTOP
    ensures OnExceptionStack(esp) ==> FrameAddress(esp) + FRAME == esp - 4
    ensures esp % 4 == 0 ==> FrameAddress(esp) % 4 == 0
  {
  }

  /** The kernel destroys the environment exactly if a word of the frame, or the blank word above it, would
      lie outside the page of the exception stack. */
  lemma FitsIff(esp: int)
    ensures var above := if OnExceptionStack(esp) then 4 else 0;
      Fits(esp) <==> forall a | FrameAddress(esp) <= a < FrameAddress(esp) + FRAME + above :: OnExceptionStack(a)
  {
    if !Fits(esp) {
      assert !OnExceptionStack(FrameAddress(esp));
    }
  }

  /** The frame is put where nothing is live. */
  lemma BelowTheLive(m: Machine, va: int, err: int, oesp: int, upcall: int)
    requires Fits(m.esp)
    ensures var p := KernelPush(m, va, err, oesp, upcall);
      && p.esp == FrameAddress(m.esp)
      && forall a :: Live(m.esp, a) ==> p.mem(a) == m.mem(a) && !(p.esp <= a < p.esp + FRAME) && (OnExceptionStack(a) ==> p.esp <= a)
  {
  }

  /** A fault, with everything that happens in it, is not noticed: registers, flags, instruction and
      stack pointers are those of the interrupted code, and no live word has changed but those that the
      handlers write themselves. The one stack pointer for which this fails is UXSTACKTOP. */
  lemma {:induction false} FaultIsTransparent(m: Machine, f: Body, upcall: int, handler: int)
    requires f.Fault? && FaultOk(m, f, upcall, handler) && m.esp != UXSTACKTOP
    ensures var r := DoFault(m, f, upcall, handler);
      && r == m.(mem := r.mem)
      && forall a :: Live(m.esp, a) && (OnExceptionStack(a) || a !in Targets(f.inner)) ==> r.mem(a) == m.mem(a)
    decreases f, 0
  {
    hide ExecAll, Obeys, Run, KernelPush, Adjusted, FrameAddress;
    var u := FrameAddress(m.esp);
    InRange(m.esp);
    BelowTheLive(m, f.va, f.err, f.oesp, upcall);
    var pushed := KernelPush(m, f.va, f.err, f.oesp, upcall);
    var entered := ExecAll(pushed, Entry(f.back), handler);
    Enters(pushed, f.back, handler);
    HandlerKeeps(entered, f.inner, u, upcall, handler);
    var left := Exec(Run(entered, f.inner, upcall, handler), Ret, handler);
    FrameKept(m, f.va, f.err, f.oesp, upcall, entered.mem, left.mem);
    Resumes(m, left, f.f0, f.f1, f.f2, f.f3, u, handler);
  }

  /** What a handler finds when it is called, at whatever depth: its return address, and above it a pointer
      to the fault address, the error code and the registers of the interrupted code, in the order of
      struct UTrapframe. The frame ends at the top of the exception stack or, for a fault taken on that
      stack, one word below its stack pointer. */
  lemma HandlerSees(m: Machine, f: Body, upcall: int, handler: int)
    requires f.Fault? && Fits(m.esp)
    ensures var e := Entered(m, f, upcall, handler); var utf := e.mem(e.esp + 4);
      && e.eip == handler && e.mem(e.esp) == f.back
      && utf + FRAME == (if UXSTACKTOP - PGSIZE <= m.esp < UXSTACKTOP then m.esp - 4 else UXSTACKTOP)
      && e.esp + 8 == utf
      && e.mem(utf) == f.va && e.mem(utf + 4) == f.err
      && e.mem(utf + 8) == m.edi && e.mem(utf + 12) == m.esi && e.mem(utf + 16) == m.ebp && e.mem(utf + 20) == f.oesp
      && e.mem(utf + 24) == m.ebx && e.mem(utf + 28) == m.edx && e.mem(utf + 32) == m.ecx && e.mem(utf + 36) == m.eax
      && e.mem(utf + 40) == m.eip && e.mem(utf + 44) == m.eflags && e.mem(utf + 48) == m.esp
      && forall a :: !(utf - 8 <= a < utf + FRAME) ==> e.mem(a) == m.mem(a)
  {
    hide ExecAll;
    var pushed := KernelPush(m, f.va, f.err, f.oesp, upcall);
    var u := FrameAddress(m.esp);
    Enters(pushed, f.back, handler);
    assert (u - u) / 4 == 0 && (u + 4 - u) / 4 == 1 && (u + 8 - u) / 4 == 2 && (u + 12 - u) / 4 == 3 && (u + 16 - u) / 4 == 4;
    assert (u + 20 - u) / 4 == 5 && (u + 24 - u) / 4 == 6 && (u + 28 - u) / 4 == 7 && (u + 32 - u) / 4 == 8;
    assert (u + 36 - u) / 4 == 9 && (u + 40 - u) / 4 == 10 && (u + 44 - u) / 4 == 11 && (u + 48 - u) / 4 == 12;
  }

  lemma FrameWord(m: Machine, va: int, err: int, oesp: int, upcall: int, k: int)
    requires 0 <= k < 13
    ensures KernelPush(m, va, err, oesp, upcall).mem(FrameAddress(m.esp) + 4 * k) == FrameWords(m, va, err, oesp)[k]
  {
    assert (FrameAddress(m.esp) + 4 * k - FrameAddress(m.esp)) / 4 == k;
  }

  /** What the return code finds in the frame. */
  lemma FrameKept(m: Machine, va: int, err: int, oesp: int, upcall: int, entered: int -> int, left: int -> int)
    requires m.esp % 4 == 0 && Fits(m.esp)
    requires var u := FrameAddress(m.esp);
      && (forall a :: u <= a ==> entered(a) == KernelPush(m, va, err, oesp, upcall).mem(a))
      && forall a :: Protected(u, a) ==> left(a) == entered(a)
    ensures var u := FrameAddress(m.esp);
      && left(u + 8) == m.edi && left(u + 12) == m.esi && left(u + 16) == m.ebp && left(u + 24) == m.ebx && left(u + 28) == m.edx
      && left(u + 32) == m.ecx && left(u + 36) == m.eax && left(u + 40) == m.eip && left(u + 44) == m.eflags && left(u + 48) == m.esp
  {
    hide KernelPush, FrameAddress;
    InRange(m.esp);
    var u, words := FrameAddress(m.esp), FrameWords(m, va, err, oesp);
    forall k | 0 <= k < 13
      ensures left(u + 4 * k) == words[k]
    {
      FrameWord(m, va, err, oesp, upcall, k);
      assert Protected(u, u + 4 * k);
    }
    assert left(u + 4 * 2) == words[2] && left(u + 4 * 3) == words[3] && left(u + 4 * 4) == words[4] && left(u + 4 * 6) == words[6];
    assert left(u + 4 * 7) == words[7] && left(u + 4 * 8) == words[8] && left(u + 4 * 9) == words[9] && left(u + 4 * 10) == words[10];
    assert left(u + 4 * 11) == words[11] && left(u + 4 * 12) == words[12];
  }

  /** With the stack pointer at UXSTACKTOP the frame and the word for the return address are one and the
      same word: the code goes on at the address of that word. */
  lemma TopOfStackFails(m: Machine, f: Body, upcall: int, handler: int)
    requires f.Fault? && FaultOk(m, f, upcall, handler) && m.esp == UXSTACKTOP
    ensures DoFault(m, f, upcall, handler).eip == UXSTACKTOP - 4
  {
    hide ExecAll, Obeys, Run, FrameWords;
    var u := FrameAddress(m.esp);
    var pushed := KernelPush(m, f.va, f.err, f.oesp, upcall);
    var entered := ExecAll(pushed, Entry(f.back), handler);
    Enters(pushed, f.back, handler);
    HandlerKeeps(entered, f.inner, u, upcall, handler);
    var left := Exec(Run(entered, f.inner, upcall, handler), Ret, handler);
    FrameKept(m, f.va, f.err, f.oesp, upcall, entered.mem, left.mem);
    Returns(left, f.f0, f.f1, f.f2, f.f3, u, handler);
  }
}
