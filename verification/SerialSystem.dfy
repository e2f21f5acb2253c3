/** The serial driver under interrupts, feeding the shell: one hart as a transition system.

The main thread is kmain()'s loop, one step for each access to shared state;
the interrupt thread is the trap handler running serial_irq().  An interrupt
may come before any step of the main thread while SIE is set, and bytes may
arrive at the UART at any moment.
*/
module SerialSystem {
  import opened CString
  import opened Serial
  import opened Shell
  import opened Wrappers

  datatype MainPc =
    | ReadStatus                 // hart_irq_save(): csr_read
    | ClearSie                   // hart_irq_save(): hart_irq_disable
    | Locking                    // spin_lock: one spin_trylock
    | Copying(i: nat)            // the copy loop of serial_read()
    | TakeLen                    // ret = dev.len
    | ResetLen                   // dev.len = 0
    | Unlocking                  // spin_unlock
    | Restoring                  // hart_irq_restore, then return
    | Processing(i: nat)         // kmain() handles input_buf[i]

  datatype IrqPc =
    | Idle
    | IrqLocking
    | IrqChecking                // dev.len < SERIAL_BUF_SIZE
    | IrqReading                 // ioread8
    | IrqStoring(b: byte)        // dev.buf[dev.len] = b
    | IrqAdvancing               // dev.len++
    | IrqUnlocking
    | IrqReturning               // sret

  datatype System = System(
    sstatus: Status, lock: bool,
    buf: seq<byte>, len: nat, fifo: seq<byte>,
    main: MainPc, flags: Status, input: seq<byte>, ret: nat,
    irq: IrqPc, shell: State,
    // history: every byte that ever arrived, every byte serial_read() returned, SIE at its last call, and
    // whether a trap has come between reading and clearing the flags in that call
    arrived: seq<byte>, returned: seq<byte>, entrySie: bool, hit: bool)

  datatype Event = MainStep | IrqStep | SerialInterrupt | OtherInterrupt | Arrive(b: byte)

  // ---- Steps ----

  ghost predicate Initial(s: System) {
    && !s.lock && |s.buf| == SERIAL_BUF_SIZE && s.len == 0 && s.fifo == []
    && s.main == ReadStatus && |s.input| == SERIAL_BUF_SIZE && s.irq == Idle
    && s.ret == 0 && s.shell == START && s.arrived == [] && s.returned == [] && s.entrySie == s.sstatus.sie
  }

  predicate Enabled(s: System, e: Event) {
    match e
    case MainStep => s.irq == Idle
    case IrqStep => s.irq != Idle
    case SerialInterrupt => s.irq == Idle && s.sstatus.sie && s.fifo != []
    case OtherInterrupt => s.irq == Idle && s.sstatus.sie
    case Arrive(_) => true
  }

  /** The main thread; a state in which an index is out of range has no successor. */
  function StepMain(s: System): Option<System> {
    match s.main
    case ReadStatus => Some(s.(flags := s.sstatus, hit := false, main := ClearSie))
    case ClearSie => Some(s.(sstatus := s.sstatus.(sie := false), main := Locking))
    case Locking => Some(if s.lock then s else s.(lock := true, main := Copying(0)))
    case Copying(i) =>
      if i >= s.len then Some(s.(main := TakeLen))
      else if i < |s.buf| && i < |s.input| then Some(s.(input := s.input[i := s.buf[i]], main := Copying(i + 1)))
      else None
    case TakeLen => Some(s.(ret := s.len, main := ResetLen))
    case ResetLen => Some(s.(len := 0, main := Unlocking))
    case Unlocking => Some(s.(lock := false, main := Restoring))
    case Restoring =>
      if s.ret <= |s.input| then
        Some(s.(sstatus := s.flags, returned := s.returned + s.input[..s.ret], main := Processing(0)))
      else None
    case Processing(i) =>
      if i >= s.ret then Some(s.(entrySie := s.sstatus.sie, main := ReadStatus))
      else if i < |s.input| then Some(s.(shell := Accept(s.shell, s.input[i]), main := Processing(i + 1)))
      else None
  }

  /** The trap handler. */
  function StepIrq(s: System): Option<System> {
    match s.irq
    case Idle => None
    case IrqLocking => Some(if s.lock then s else s.(lock := true, irq := IrqChecking))
    case IrqChecking => Some(s.(irq := if s.len < SERIAL_BUF_SIZE then IrqReading else IrqUnlocking))
    case IrqReading => if s.fifo == [] then None else Some(s.(fifo := s.fifo[1..], irq := IrqStoring(s.fifo[0])))
    case IrqStoring(b) => if s.len < |s.buf| then Some(s.(buf := s.buf[s.len := b], irq := IrqAdvancing)) else None
    case IrqAdvancing => Some(s.(len := s.len + 1, irq := IrqUnlocking))
    case IrqUnlocking => Some(s.(lock := false, irq := IrqReturning))
    case IrqReturning => Some(s.(sstatus := Status(s.sstatus.spie, true), irq := Idle))
  }

  /** Trap entry copies SIE to SPIE and clears SIE. */
  function Trap(s: System, handler: IrqPc): System {
    s.(sstatus := Status(false, s.sstatus.sie), hit := s.hit || s.main.ClearSie?, irq := handler)
  }

  function Step(s: System, e: Event): Option<System>
    requires Enabled(s, e)
  {
    match e
    case MainStep => StepMain(s)
    case IrqStep => StepIrq(s)
    case SerialInterrupt => Some(Trap(s, IrqLocking))
    case OtherInterrupt => Some(Trap(s, IrqReturning))
    case Arrive(b) => Some(s.(fifo := s.fifo + [b], arrived := s.arrived + [b]))
  }

  /** s2 is reached from s by these events. */
  ghost predicate Run(s: System, events: seq<Event>, s2: System)
    decreases |events|
  {
    if events == [] then s == s2
    else
      && Enabled(s, events[0])
      && Step(s, events[0]).Some?
      && Run(Step(s, events[0]).value, events[1..], s2)
  }

  // ---- The invariant ----

  /** Between hart_irq_save() and hart_irq_restore(). */
  predicate Masked(main: MainPc) {
    main.Locking? || Locked(main) || main.Restoring?
  }

  predicate Locked(main: MainPc) {
    main.Copying? || main.TakeLen? || main.ResetLen? || main.Unlocking?
  }

  predicate IrqLocked(irq: IrqPc) {
    irq.IrqChecking? || irq.IrqReading? || irq.IrqStoring? || irq.IrqAdvancing? || irq.IrqUnlocking?
  }

  /** Bytes that are in the driver: in dev.buf, or already in the caller's buffer once dev.len is 0. */
  function InDriver(s: System): seq<byte>
    requires s.len <= |s.buf| && s.ret <= |s.input|
  {
    if s.main.Unlocking? || s.main.Restoring? then s.input[..s.ret] else s.buf[..s.len]
  }

  /** The byte in the interrupt handler's hands. */
  function InHandler(s: System): seq<byte>
    requires s.irq.IrqAdvancing? ==> s.len < |s.buf|
  {
    match s.irq
    case IrqStoring(b) => [b]
    case IrqAdvancing => [s.buf[s.len]]
    case _ => []
  }

  /** Bytes that have arrived and not been returned, in order. */
  function Held(s: System): seq<byte>
    requires s.len <= |s.buf| && s.ret <= |s.input| && (s.irq.IrqAdvancing? ==> s.len < |s.buf|)
  {
    InDriver(s) + (InHandler(s) + s.fifo)
  }

  /** How many of the returned bytes kmain() has not looked at yet. */
  function Unprocessed(s: System): nat {
    if s.main.Processing? && s.main.i <= s.ret then s.ret - s.main.i else 0
  }

  ghost predicate Bounds(s: System) {
    && |s.buf| == |s.input| == SERIAL_BUF_SIZE && s.len <= SERIAL_BUF_SIZE && s.ret <= SERIAL_BUF_SIZE
    && (s.main.Copying? ==> s.main.i <= s.len && s.input[..s.main.i] == s.buf[..s.main.i])
    && (s.main.TakeLen? ==> s.input[..s.len] == s.buf[..s.len])
    && (s.main.ResetLen? ==> s.ret == s.len && s.input[..s.len] == s.buf[..s.len])
    && (s.main.Unlocking? || s.main.Restoring? ==> s.len == 0)
    && (s.main.Processing? ==> s.main.i <= s.ret)
    && (s.irq.IrqReading? || s.irq.IrqStoring? || s.irq.IrqAdvancing? ==> s.len < SERIAL_BUF_SIZE)
    && (s.irq.IrqLocking? || s.irq.IrqChecking? || s.irq.IrqReading? ==> s.fifo != [])
  }

  /** Whoever holds the lock runs with interrupts off, and nobody ever waits for it. */
  ghost predicate Exclusion(s: System) {
    && (s.lock <==> Locked(s.main) || IrqLocked(s.irq))
    && (Masked(s.main) ==> s.irq == Idle && !s.sstatus.sie)
    && (s.irq != Idle ==> !s.sstatus.sie && s.sstatus.spie)
  }

  /** SIE as the main thread sees it: a handler in progress gives it back. */
  function MainSie(s: System): bool {
    if s.irq == Idle then s.sstatus.sie else s.sstatus.spie
  }

  ghost predicate SieKept(s: System) {
    && (!Masked(s.main) ==> MainSie(s) == s.entrySie)
    && (Masked(s.main) || s.main.ClearSie? ==> s.flags.sie == s.entrySie)
  }

  /** Inside a call SPIE is what was read, or set because a trap came since. */
  ghost predicate SpieKept(s: System) {
    Masked(s.main) || s.main.ClearSie? ==> s.sstatus.spie == (s.flags.spie || s.hit)
  }

  ghost predicate Conserved(s: System)
    requires Bounds(s)
  {
    s.returned + Held(s) == s.arrived
  }

  /** kmain() has fed the shell what was returned, up to the position it has reached. */
  ghost predicate ShellFed(s: System) {
    && s.ret <= |s.input|
    && Unprocessed(s) <= |s.returned|
    && (s.main.Processing? && s.main.i <= s.ret ==>
          s.ret <= |s.returned| && s.returned[|s.returned| - s.ret..] == s.input[..s.ret])
    && s.shell == AcceptAll(START, s.returned[..|s.returned| - Unprocessed(s)])
  }

  ghost predicate Invariant(s: System) {
    Bounds(s) && Exclusion(s) && SieKept(s) && SpieKept(s) && Conserved(s) && ShellFed(s)
  }

  lemma Starts(s: System)
    requires Initial(s)
    ensures Invariant(s)
  {
  }

  lemma MainKeepsDriver(s: System)
    requires Invariant(s) && Enabled(s, MainStep)
    ensures StepMain(s).Some?
    ensures var t := StepMain(s).value; Bounds(t) && Exclusion(t) && SieKept(t) && SpieKept(t)
  {
    hide Conserved, ShellFed;
    MainKeepsBounds(s);
    MainKeepsFlags(s);
  }

  lemma CopyingKeepsBounds(s: System)
    requires Bounds(s) && s.main.Copying? && s.main.i < s.len
    ensures StepMain(s).Some? && Bounds(StepMain(s).value)
  {
    var t := StepMain(s).value;
    assert t.input[..s.main.i + 1] == s.input[..s.main.i] + [s.buf[s.main.i]] == t.buf[..s.main.i + 1];
  }

  lemma ReadKeepsBounds(s: System)
    requires Bounds(s) && Exclusion(s) && Locked(s.main) && !(s.main.Copying? && s.main.i < s.len)
    ensures StepMain(s).Some? && Bounds(StepMain(s).value)
  {
  }

  lemma MainKeepsBounds(s: System)
    requires Invariant(s) && Enabled(s, MainStep)
    ensures StepMain(s).Some? && Bounds(StepMain(s).value)
  {
    hide Conserved, ShellFed, SieKept, SpieKept;
    if s.main.Copying? && s.main.i < s.len {
      CopyingKeepsBounds(s);
    } else if Locked(s.main) {
      ReadKeepsBounds(s);
    }
  }

  lemma MainKeepsFlags(s: System)
    requires Invariant(s) && Enabled(s, MainStep) && StepMain(s).Some?
    ensures var t := StepMain(s).value; Exclusion(t) && SieKept(t) && SpieKept(t)
  {
    hide Conserved, ShellFed, Bounds;
  }

  /** Copied bytes count once: they leave dev.buf when dev.len is reset, and the driver when the call returns. */
  lemma MainKeepsHeld(s: System)
    requires Bounds(s) && s.irq == Idle && StepMain(s).Some? && Bounds(StepMain(s).value)
    ensures var t := StepMain(s).value;
            t.arrived == s.arrived && t.returned + Held(t) == s.returned + Held(s)
  {
    hide Held;
    if s.main.Restoring? {
      ReturnKeepsHeld(s);
    } else if s.main.ResetLen? {
      ResetKeepsHeld(s);
    } else {
      CopyKeepsHeld(s);
    }
  }

  lemma ReturnKeepsHeld(s: System)
    requires s.len == 0 && s.ret <= |s.input| && s.irq == Idle && s.main.Restoring?
    ensures var t := StepMain(s).value;
            t.arrived == s.arrived && t.len == 0 && t.returned + Held(t) == s.returned + Held(s)
  {
    hide Held;
    var t := StepMain(s).value;
    HeldAfterReset(s);
    HeldWhenEmpty(t);
    MoveAcross(s.returned, s.input[..s.ret], s.fifo);
  }

  lemma HeldAfterReset(s: System)
    requires s.len == 0 && s.ret <= |s.input| && s.irq == Idle && s.main.Restoring?
    ensures Held(s) == s.input[..s.ret] + s.fifo
  {
  }

  lemma HeldWhenEmpty(s: System)
    requires s.len == 0 && s.ret <= |s.input| && s.irq == Idle && s.main.Processing?
    ensures Held(s) == s.fifo
  {
  }

  lemma MoveAcross(a: seq<byte>, b: seq<byte>, c: seq<byte>)
    ensures (a + b) + c == a + (b + c)
  {
  }

  lemma ResetKeepsHeld(s: System)
    requires s.len <= |s.buf| && s.ret == s.len <= |s.input| && s.irq == Idle && s.main.ResetLen?
    requires s.input[..s.len] == s.buf[..s.len]
    ensures var t := StepMain(s).value;
            t.arrived == s.arrived && t.returned == s.returned && t.len == 0 && t.ret <= |t.input| && Held(t) == Held(s)
  {
  }

  /** All other steps leave the buffer and the device alone. */
  lemma CopyMovesNothing(s: System)
    requires s.irq == Idle && !s.main.Restoring? && !s.main.ResetLen? && StepMain(s).Some?
    ensures var t := StepMain(s).value;
            && t.arrived == s.arrived && t.returned == s.returned
            && t.len == s.len && t.buf == s.buf && t.fifo == s.fifo && t.irq == s.irq && !t.main.Unlocking?
            && (t.main.Restoring? <==> s.main.Unlocking?)
            && (s.main.Unlocking? ==> t.input == s.input && t.ret == s.ret)
  {
    match s.main
    case Copying(_) =>
    case Processing(_) =>
    case Unlocking =>
    case TakeLen =>
    case _ =>
  }

  lemma CopyKeepsHeld(s: System)
    requires s.len <= |s.buf| && s.ret <= |s.input| && s.irq == Idle && !s.main.Restoring? && !s.main.ResetLen?
    requires StepMain(s).Some? && StepMain(s).value.ret <= |StepMain(s).value.input|
    ensures var t := StepMain(s).value;
            t.arrived == s.arrived && t.returned == s.returned && t.len == s.len && t.buf == s.buf && Held(t) == Held(s)
  {
    hide Held, StepMain;
    CopyMovesNothing(s);
    SameHeld(s, StepMain(s).value);
  }

  lemma SameHeld(s: System, t: System)
    requires s.len <= |s.buf| && s.ret <= |s.input| && s.irq == Idle
    requires t.buf == s.buf && t.len == s.len && t.fifo == s.fifo && t.irq == s.irq && t.ret <= |t.input|
    requires (s.main.Unlocking? || s.main.Restoring?) == (t.main.Unlocking? || t.main.Restoring?)
    requires s.main.Unlocking? ==> t.input == s.input && t.ret == s.ret
    requires !s.main.Restoring?
    ensures Held(t) == Held(s)
  {
  }

  lemma MainConserves(s: System)
    requires Invariant(s) && Enabled(s, MainStep)
    ensures StepMain(s).Some? && Bounds(StepMain(s).value) && Conserved(StepMain(s).value)
  {
    hide ShellFed, Exclusion, SieKept, SpieKept, Bounds, Held, StepMain;
    MainKeepsDriver(s);
    MainKeepsHeld(s);
  }

  /** kmain()'s i-th input byte is the i-th of the last ret bytes returned. */
  lemma NextByte(returned: seq<byte>, input: seq<byte>, ret: nat, i: nat)
    requires i < ret <= |returned| && ret <= |input| && returned[|returned| - ret..] == input[..ret]
    ensures returned[|returned| - ret + i] == input[i]
  {
    assert returned[|returned| - ret..][i] == input[..ret][i];
  }

  lemma ProcessingFeedsShell(s: System)
    requires Invariant(s) && s.main.Processing? && s.main.i < s.ret
    ensures StepMain(s).Some? && ShellFed(StepMain(s).value)
  {
    hide Conserved, Exclusion, SieKept, SpieKept, AcceptAll, Accept;
    var n := |s.returned| - Unprocessed(s);
    NextByte(s.returned, s.input, s.ret, s.main.i);
    AcceptStep(START, s.returned, n);
  }

  lemma RestoringFeedsShell(s: System)
    requires Invariant(s) && s.main.Restoring?
    ensures StepMain(s).Some? && ShellFed(StepMain(s).value)
  {
    hide Conserved, Exclusion, SieKept, SpieKept, AcceptAll, Accept;
    var t := StepMain(s).value;
    assert t.returned[..|t.returned| - s.ret] == s.returned == s.returned[..|s.returned|];
    assert t.returned[|t.returned| - s.ret..] == s.input[..s.ret];
  }

  lemma MainFeedsShell(s: System)
    requires Invariant(s) && Enabled(s, MainStep)
    ensures StepMain(s).Some? && ShellFed(StepMain(s).value)
  {
    hide Conserved, Exclusion, SieKept, SpieKept, AcceptAll, Accept;
    if s.main.Processing? && s.main.i < s.ret {
      ProcessingFeedsShell(s);
    } else if s.main.Restoring? {
      RestoringFeedsShell(s);
    }
  }

  lemma IrqKeepsDriver(s: System)
    requires Invariant(s) && Enabled(s, IrqStep)
    ensures StepIrq(s).Some?
    ensures var t := StepIrq(s).value; Bounds(t) && Exclusion(t) && SieKept(t) && SpieKept(t)
  {
    hide Conserved, ShellFed;
  }

  /** Driver, handler and device before and after, where f is what the device keeps. */
  lemma HeldByParts(s: System, t: System, x: seq<byte>, y: seq<byte>, y2: seq<byte>, f: seq<byte>)
    requires s.len <= |s.buf| && s.ret <= |s.input| && (s.irq.IrqAdvancing? ==> s.len < |s.buf|)
    requires t.len <= |t.buf| && t.ret <= |t.input| && (t.irq.IrqAdvancing? ==> t.len < |t.buf|)
    requires InDriver(s) == InDriver(t) == x && InHandler(s) == y && InHandler(t) == y2
    requires t.fifo == f && y + s.fifo == y2 + f
    ensures Held(t) == Held(s)
  {
  }

  lemma SameContents(s: System, t: System)
    requires s.len <= |s.buf| && s.ret <= |s.input| && !s.irq.IrqAdvancing? && !t.irq.IrqAdvancing?
    requires t.len == s.len && t.buf == s.buf && t.ret == s.ret && t.input == s.input && t.main == s.main
    requires InHandler(s) == InHandler(t) && t.fifo == s.fifo
    ensures Held(t) == Held(s)
  {
  }

  lemma AdvancingKeepsHeld(s: System)
    requires s.irq.IrqAdvancing? && s.len < |s.buf| && s.ret <= |s.input|
    requires !s.main.Unlocking? && !s.main.Restoring?
    ensures var t := StepIrq(s).value; t.len <= |t.buf| && t.ret <= |t.input| && Held(t) == Held(s)
  {
    assert s.buf[..s.len + 1] == s.buf[..s.len] + [s.buf[s.len]];
    MoveAcross(s.buf[..s.len], [s.buf[s.len]], s.fifo);
  }

  /** The handler's step moves a byte from the device to its hands, or on into the buffer. */
  lemma IrqKeepsHeld(s: System)
    requires Bounds(s) && s.irq != Idle && StepIrq(s).Some? && Bounds(StepIrq(s).value) && !s.main.Unlocking?
    requires !s.main.Restoring?
    ensures var t := StepIrq(s).value;
            t.arrived == s.arrived && t.returned == s.returned && Held(t) == Held(s)
  {
    hide Held;
    var t := StepIrq(s).value;
    match s.irq
    case IrqReading =>
      HeldByParts(s, t, s.buf[..s.len], [], [s.fifo[0]], t.fifo);
    case IrqStoring(b) =>
      assert t.buf[..s.len] == s.buf[..s.len];
      HeldByParts(s, t, s.buf[..s.len], [b], [b], s.fifo);
    case IrqAdvancing =>
      AdvancingKeepsHeld(s);
    case _ =>
      SameContents(s, t);
  }

  lemma IrqConserves(s: System)
    requires Invariant(s) && Enabled(s, IrqStep)
    ensures StepIrq(s).Some? && Bounds(StepIrq(s).value) && Conserved(StepIrq(s).value)
  {
    hide ShellFed, SieKept, SpieKept, Bounds, Held, StepIrq;
    IrqKeepsDriver(s);
    IrqKeepsHeld(s);
  }

  lemma ArriveConserves(s: System, b: byte)
    requires Bounds(s) && Conserved(s)
    ensures var t := Step(s, Arrive(b)).value; Bounds(t) && Conserved(t)
  {
    hide StepMain, StepIrq;
    var t := Step(s, Arrive(b)).value;
    assert InHandler(s) + t.fifo == InHandler(s) + s.fifo + [b];
    assert Held(t) == Held(s) + [b];
    assert t.returned + (Held(s) + [b]) == t.returned + Held(s) + [b];
  }

  lemma ArriveKeeps(s: System, b: byte)
    requires Invariant(s)
    ensures Invariant(Step(s, Arrive(b)).value)
  {
    hide AcceptAll, Bounds, Conserved, StepMain, StepIrq;
    ArriveConserves(s, b);
  }

  lemma TrapKeeps(s: System, handler: IrqPc)
    requires Invariant(s) && s.irq == Idle && s.sstatus.sie
    requires handler == IrqReturning || (handler == IrqLocking && s.fifo != [])
    ensures Invariant(Trap(s, handler))
  {
    hide AcceptAll;
  }

  lemma IrqKeepsShell(s: System)
    requires Invariant(s) && Enabled(s, IrqStep)
    ensures StepIrq(s).Some? && ShellFed(StepIrq(s).value)
  {
    hide Conserved, AcceptAll;
    IrqKeepsDriver(s);
  }

  /** No step breaks the invariant, and every enabled step can be taken. */
  lemma StepKeeps(s: System, e: Event)
    requires Invariant(s) && Enabled(s, e)
    ensures Step(s, e).Some? && Invariant(Step(s, e).value)
  {
    hide Bounds, Exclusion, SieKept, SpieKept, Conserved, ShellFed, StepMain, StepIrq;
    match e
    case MainStep =>
      MainKeepsDriver(s);
      MainConserves(s);
      MainFeedsShell(s);
    case IrqStep =>
      IrqKeepsDriver(s);
      IrqConserves(s);
      IrqKeepsShell(s);
    case SerialInterrupt =>
      TrapKeeps(s, IrqLocking);
    case OtherInterrupt =>
      TrapKeeps(s, IrqReturning);
    case Arrive(b) =>
      ArriveKeeps(s, b);
  }

  lemma {:induction false} RunKeeps(s: System, events: seq<Event>, s2: System)
    requires Invariant(s) && Run(s, events, s2)
    ensures Invariant(s2)
    decreases |events|
  {
    if events != [] {
      StepKeeps(s, events[0]);
      RunKeeps(Step(s, events[0]).value, events[1..], s2);
    }
  }

  // ---- What holds in every run ----

  ghost predicate Reachable(s: System) {
    exists s0, events :: Initial(s0) && Run(s0, events, s)
  }

  lemma ReachableInvariant(s: System)
    requires Reachable(s)
    ensures Invariant(s)
  {
    var s0, events :| Initial(s0) && Run(s0, events, s);
    Starts(s0);
    RunKeeps(s0, events, s);
  }

  /** No byte is lost, duplicated or reordered, wherever the interrupts fell. */
  lemma ByteConservation(s: System)
    requires Reachable(s)
    ensures s.len <= |s.buf| && s.ret <= |s.input| && (s.irq.IrqAdvancing? ==> s.len < |s.buf|)
    ensures s.returned + InDriver(s) + InHandler(s) + s.fifo == s.arrived
    // where the bytes are when nobody is in the driver
    ensures s.irq == Idle && (s.main.ReadStatus? || s.main.Processing?) ==>
              s.returned + s.buf[..s.len] + s.fifo == s.arrived && |s.buf| == 256
  {
    ReachableInvariant(s);
  }

  /** The lock is held only with interrupts off, so every spin_lock() gets it at its first try. */
  lemma NoSelfDeadlock(s: System)
    requires Reachable(s)
    ensures s.lock ==> !s.sstatus.sie
    ensures s.main.Processing? && s.irq == Idle ==> !s.lock
    ensures s.main.Locking? || s.irq.IrqLocking? ==> !s.lock
    ensures !(Locked(s.main) && IrqLocked(s.irq))
  {
    ReachableInvariant(s);
  }

  /** Some thread can always move. */
  lemma NeverStuck(s: System)
    requires Reachable(s)
    ensures (Enabled(s, MainStep) && StepMain(s).Some?) || (Enabled(s, IrqStep) && StepIrq(s).Some?)
  {
    ReachableInvariant(s);
    StepKeeps(s, if s.irq == Idle then MainStep else IrqStep);
  }

  /** serial_read() gives SIE back as it was at the call, and every handler returns to SIE set. */
  lemma SieRestored(s: System)
    requires Reachable(s)
    ensures s.main.Processing? && s.irq == Idle ==> s.sstatus.sie == s.entrySie
    ensures s.irq.IrqReturning? ==> StepIrq(s).value.sstatus.sie
    ensures s.irq != Idle ==> s.entrySie
  {
    ReachableInvariant(s);
  }

  /** hart_irq_restore() also writes back SPIE, which is stale exactly if a trap came between the read and the
      clear of a call that had found SPIE clear. */
  lemma SpieStale(s: System)
    requires Reachable(s) && s.main.Restoring?
    ensures StepMain(s).Some?
    ensures StepMain(s).value.sstatus.spie != s.sstatus.spie <==> s.hit && !s.flags.spie
  {
    ReachableInvariant(s);
  }

  /** It happens: the first call, interrupted right after reading the flags. */
  lemma SpieStaleRun(s0: System) returns (events: seq<Event>, s: System)
    requires Initial(s0) && s0.sstatus == Status(true, false)
    ensures Run(s0, events, s) && s.main.Restoring? && StepMain(s).Some?
    ensures s.sstatus.spie && !StepMain(s).value.sstatus.spie
  {
    hide Run, Times;
    var s1 := StepMain(s0).value;
    var s2 := Trap(s1, IrqReturning);
    var s3 := StepIrq(s2).value;
    s := EmptyCriticalSection(s3);
    events := Times(MainStep, 6);
    FirstStep(s2, IrqStep, events, s);
    events := [IrqStep] + events;
    FirstStep(s1, OtherInterrupt, events, s);
    events := [OtherInterrupt] + events;
    FirstStep(s0, MainStep, events, s);
    events := [MainStep] + events;
  }

  /** From clearing SIE to restoring it, when nothing has been received. */
  lemma EmptyCriticalSection(s: System) returns (t: System)
    requires s.irq == Idle && s.main == ClearSie && !s.lock && s.len == 0
    ensures Run(s, Times(MainStep, 6), t)
    ensures t == s.(sstatus := s.sstatus.(sie := false), ret := 0, len := 0, main := Restoring)
  {
    hide Run, Times;
    var s1 := StepMain(s).value;
    var s2 := StepMain(s1).value;
    var s3 := StepMain(s2).value;
    var s4 := StepMain(s3).value;
    var s5 := StepMain(s4).value;
    t := StepMain(s5).value;
    RunStays(t);
    OneStep(s5, MainStep, 0, t);
    OneStep(s4, MainStep, 1, t);
    OneStep(s3, MainStep, 2, t);
    OneStep(s2, MainStep, 3, t);
    OneStep(s1, MainStep, 4, t);
    OneStep(s, MainStep, 5, t);
  }

  lemma RunStays(s: System)
    ensures Run(s, Times(MainStep, 0), s) && Run(s, Times(IrqStep, 0), s)
  {
  }

  /** The bytes kmain() has handled. */
  function Processed(s: System): seq<byte>
    requires Unprocessed(s) <= |s.returned|
  {
    s.returned[..|s.returned| - Unprocessed(s)]
  }

  /** The shell dispatches exactly the command lines of a prefix of what arrived. */
  lemma ShellRefinement(s: System)
    requires Reachable(s)
    ensures Unprocessed(s) <= |s.returned| && Processed(s) <= s.returned <= s.arrived
    ensures |Processed(s)| + (if s.main.Processing? then s.ret - s.main.i else 0) == |s.returned|
    ensures s.shell.dispatched == CommandLines(Processed(s))
    ensures s.shell.line == Cut(OpenLine(Processed(s)))
    ensures |s.shell.line| < 256
  {
    hide AcceptAll, CommandLines, OpenLine, Exclusion, SieKept, SpieKept, Reachable;
    ReachableInvariant(s);
    DispatchesCommandLines(Processed(s));
    assert Processed(s) <= s.returned <= s.arrived;
  }

  // ---- Runs without interrupts: the contracts of SerialRead and SerialIrq ----

  function Times(e: Event, n: nat): seq<Event> {
    if n == 0 then [] else [e] + Times(e, n - 1)
  }

  lemma FirstStep(s: System, e: Event, rest: seq<Event>, t: System)
    requires Enabled(s, e) && Step(s, e).Some? && Run(Step(s, e).value, rest, t)
    ensures Run(s, [e] + rest, t)
  {
    assert ([e] + rest)[1..] == rest;
  }

  lemma OneStep(s: System, e: Event, n: nat, t: System)
    requires Enabled(s, e) && Step(s, e).Some? && Run(Step(s, e).value, Times(e, n), t)
    ensures Run(s, Times(e, n + 1), t)
  {
    hide StepMain, StepIrq, Run;
    FirstStep(s, e, Times(e, n), t);
  }

  /** State in which serial_read() returns if nothing interrupts it. */
  function AfterRead(s: System): System
    requires s.len <= |s.buf| && s.len <= |s.input|
  {
    s.(input := s.buf[..s.len] + s.input[s.len..], ret := s.len, len := 0,
       returned := s.returned + s.buf[..s.len], flags := s.sstatus, hit := false, main := Processing(0))
  }

  /** The same, seen from inside the critical section. */
  function AfterCopy(s: System): System
    requires s.len <= |s.buf| && s.len <= |s.input|
  {
    AfterRead(s).(flags := s.flags, hit := s.hit, sstatus := s.flags, lock := false)
  }

  lemma {:induction false} CopyLoop(s: System, i: nat, t: System)
    requires s.irq == Idle && s.main == Copying(i) && i <= s.len <= |s.buf| && s.len <= |s.input|
    requires s.input[..i] == s.buf[..i] && s.ret <= |s.input|
    requires t == AfterCopy(s)
    ensures Run(s, Times(MainStep, s.len - i + 5), t)
    decreases s.len - i
  {
    if i < s.len {
      var u := StepMain(s).value;
      assert u.input[..i + 1] == u.buf[..i + 1];
      assert u.input[s.len..] == s.input[s.len..];
      CopyLoop(u, i + 1, t);
      OneStep(s, MainStep, s.len - i + 4, t);
    } else {
      AfterLoop(s, t);
    }
  }

  lemma AfterLoop(s: System, t: System)
    requires s.irq == Idle && s.main == Copying(s.len) && s.len <= |s.buf| && s.len <= |s.input|
    requires s.input[..s.len] == s.buf[..s.len]
    requires t == AfterCopy(s)
    ensures Run(s, Times(MainStep, 5), t)
  {
    var s1 := StepMain(s).value;
    var s2 := StepMain(s1).value;
    var s3 := StepMain(s2).value;
    var s4 := StepMain(s3).value;
    assert s.input == s.input[..s.len] + s.input[s.len..];
    assert StepMain(s4).value == t;
    OneStep(s4, MainStep, 0, t);
    OneStep(s3, MainStep, 1, t);
    OneStep(s2, MainStep, 2, t);
    OneStep(s1, MainStep, 3, t);
    OneStep(s, MainStep, 4, t);
  }

  /** Left alone, serial_read() returns after len + 8 steps with all the driver held. */
  lemma UninterruptedRead(s: System)
    requires Reachable(s) && s.irq == Idle && s.main == ReadStatus
    ensures s.len <= |s.buf| && s.len <= |s.input|
    ensures Run(s, Times(MainStep, s.len + 8), AfterRead(s))
  {
    ReachableInvariant(s);
    ReadRuns(s);
  }

  lemma ReadRuns(s: System)
    requires s.irq == Idle && s.main == ReadStatus && !s.lock && |s.buf| == |s.input| && s.len <= |s.buf|
    requires s.ret <= |s.input|
    ensures Run(s, Times(MainStep, s.len + 8), AfterRead(s))
  {
    hide Run, Times;
    var t := AfterRead(s);
    var s1 := StepMain(s).value;
    var s2 := StepMain(s1).value;
    var s3 := StepMain(s2).value;
    CopyLoop(s3, 0, t);
    OneStep(s2, MainStep, s.len + 5, t);
    OneStep(s1, MainStep, s.len + 6, t);
    OneStep(s, MainStep, s.len + 7, t);
  }

  /** State after the handler has run: one byte further, or the byte left in the device. */
  function AfterIrq(s: System): System
    requires s.fifo != [] && s.len <= |s.buf| == SERIAL_BUF_SIZE
  {
    var t := s.(sstatus := Status(true, true), irq := Idle, hit := s.hit || s.main.ClearSie?);
    if s.len < SERIAL_BUF_SIZE then t.(buf := s.buf[s.len := s.fifo[0]], len := s.len + 1, fifo := s.fifo[1..])
    else t
  }

  lemma UninterruptedIrq(s: System)
    requires Reachable(s) && Enabled(s, SerialInterrupt)
    ensures s.len <= |s.buf| == 256
    ensures Run(s, [SerialInterrupt] + Times(IrqStep, if s.len < 256 then 7 else 4), AfterIrq(s))
  {
    ReachableInvariant(s);
    var s0 := Trap(s, IrqLocking);
    TrapKeeps(s, IrqLocking);
    var n, t := if s.len < SERIAL_BUF_SIZE then 7 else 4, AfterIrq(s);
    HandlerRuns(s0, n, t);
    assert ([SerialInterrupt] + Times(IrqStep, n))[1..] == Times(IrqStep, n);
  }

  lemma HandlerRuns(s: System, n: nat, t: System)
    requires Invariant(s) && s.irq == IrqLocking && (s.main.ClearSie? ==> s.hit)
    requires n == if s.len < SERIAL_BUF_SIZE then 7 else 4
    requires t == AfterIrq(s)
    ensures Run(s, Times(IrqStep, n), t)
  {
    hide Conserved, ShellFed, SieKept;
    var s1 := StepIrq(s).value;
    var s2 := StepIrq(s1).value;
    OneStepIfRun(s, s1, n, t);
    OneStepIfRun(s1, s2, n - 1, t);
    if s.len < SERIAL_BUF_SIZE {
      HandlerMoves(s2, t);
    } else {
      var s3 := StepIrq(s2).value;
      OneStep(s3, IrqStep, 0, t);
      OneStep(s2, IrqStep, 1, t);
    }
  }

  /** From the read of the device to the return. */
  lemma HandlerMoves(s: System, t: System)
    requires s.irq == IrqReading && (s.main.ClearSie? ==> s.hit) && s.fifo != []
    requires s.len < |s.buf| == SERIAL_BUF_SIZE && s.sstatus.spie
    requires t == AfterIrq(s).(lock := false)
    ensures Run(s, Times(IrqStep, 5), t)
  {
    var s3 := StepIrq(s).value;
    var s4 := StepIrq(s3).value;
    var s5 := StepIrq(s4).value;
    var s6 := StepIrq(s5).value;
    assert StepIrq(s6).value == t;
    OneStep(s6, IrqStep, 0, t);
    OneStep(s5, IrqStep, 1, t);
    OneStep(s4, IrqStep, 2, t);
    OneStep(s3, IrqStep, 3, t);
    OneStep(s, IrqStep, 4, t);
  }

  lemma OneStepIfRun(s: System, u: System, n: nat, t: System)
    requires n > 0 && Enabled(s, IrqStep) && Step(s, IrqStep) == Some(u)
    ensures Run(u, Times(IrqStep, n - 1), t) ==> Run(s, Times(IrqStep, n), t)
  {
  }
}
