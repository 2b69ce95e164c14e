/** One fetch-decode-execute step of the interpreter.

    The step reads the big-endian word at `pc` and `pc + 1`, advances `pc`
    by two, and runs the handler the word selects.  A memory access the
    memory refuses stops the interpreter (`Fault`).  The wait-for-key
    instruction consumes keypad events until a key-down; when the events
    given run out first, the step has not finished (`AwaitingKey`) and is to
    be retried from the same machine with a longer event sequence.
 */
module Interpreter {
  import opened Bits
  import opened Errors
  import opened CpuState
  import opened Instructions
  import Ram
  import Display
  import Keyboard
  import Ops = Opcodes

  datatype Machine = Machine(cpu: Cpu, ram: Ram.Ram, display: Display.Grid, keyboard: Keyboard.Keyboard)

  datatype StepResult =
    | Next(m: Machine, rest: seq<Keyboard.KeyEvent>)   // the step finished; `rest` is still queued
    | Fault(error: Error)                              // a memory access was refused
    | AwaitingKey                                      // no key-down yet

  /** The machine at power-on, with the program image loaded. */
  function Boot(font: Ram.Font, rom: seq<Byte>): (res: Result<Machine>)
    ensures res.Ok? <==> |rom| <= Ram.MemSize
    ensures res.Ok? ==> res.value.cpu == CpuState.New() && res.value.keyboard == Keyboard.Released
    ensures res.Ok? ==> res.value.ram.fnt == font
    ensures res.Ok? ==> forall a :: 0 <= a < Ram.MemEnd - Ram.ProgramStart ==>
      Ram.Image(res.value.ram)[Ram.ProgramStart + a] == if a < |rom| then rom[a] else 0
  {
    var r :- Ram.LoadRom(Ram.New(font), rom);
    assert forall a :: 0 <= a < |rom| ==> r.mem[a] == r.mem[..|rom|][a];
    assert forall a :: |rom| <= a < Ram.MemSize ==> r.mem[a] == r.mem[|rom|..][a - |rom|];
    Ok(Machine(CpuState.New(), r, Display.Clear(), Keyboard.Released))
  }

  /** `pc + 1` on a `uint16`. */
  function Succ(pc: Word): Word {
    (pc + 1) % 65536
  }

  /** Reads the instruction word at `pc`: the byte at `pc` is the high one.
      Both reads must succeed, so the word must start below 0xFFE. */
  function Fetch(m: Machine): (res: Result<Word>)
    ensures res.Ok? <==> m.cpu.pc < Ram.MemEnd - 1
    ensures res.Err? ==> res.error == OutOfBounds
    ensures res.Ok? ==> res.value == 256 * (Ram.Image(m.ram)[m.cpu.pc] as int) + Ram.Image(m.ram)[m.cpu.pc + 1]
  {
    var hi :- Ram.Read(m.ram, m.cpu.pc);
    var lo :- Ram.Read(m.ram, Succ(m.cpu.pc));
    Ok(hi as int * 256 + lo)
  }

  /** Runs an instruction that reads and writes only processor state (and
      reads the keypad).  Every other instruction is left to `Execute`;
      here it changes nothing.  Only a call or a return touches the
      stack. */
  function ExecuteCpu(instr: Instr, c: Cpu, kb: Keyboard.Keyboard, rnd: Byte): (d: Cpu)
    ensures !instr.Call? && !instr.Ret? ==> d.stack == c.stack
    ensures !SetsPc(instr) && !IsSkip(instr) ==> d.pc == c.pc
    ensures IsSkip(instr) ==> d.pc == c.pc || d.pc == Advance(c.pc)
  {
    match instr
    case Ret => Ops.Ret(c)
    case Jp(nnn) => Ops.Jp(c, nnn)
    case Call(nnn) => Ops.Call(c, nnn)
    case SeImm(x, nn) => Ops.SeImm(c, x, nn)
    case SneImm(x, nn) => Ops.SneImm(c, x, nn)
    case SeReg(x, y) => Ops.SeReg(c, x, y)
    case LdImm(x, nn) => Ops.LdImm(c, x, nn)
    case AddImm(x, nn) => Ops.AddImm(c, x, nn)
    case LdReg(x, y) => Ops.LdReg(c, x, y)
    case Or(x, y) => Ops.Or(c, x, y)
    case And(x, y) => Ops.And(c, x, y)
    case Xor(x, y) => Ops.Xor(c, x, y)
    case AddReg(x, y) => Ops.AddReg(c, x, y)
    case Sub(x, y) => Ops.Sub(c, x, y)
    case Shr(x) => Ops.Shr(c, x)
    case Subn(x, y) => Ops.Subn(c, x, y)
    case Shl(x) => Ops.Shl(c, x)
    case SneReg(x, y) => Ops.SneReg(c, x, y)
    case Ldi(nnn) => Ops.Ldi(c, nnn)
    case JpV0(nnn) => Ops.JpV0(c, nnn)
    case Rnd(x, nn) => Ops.Rnd(c, x, nn, rnd)
    case Skp(x) => Ops.Skp(c, x, kb)
    case Sknp(x) => Ops.Sknp(c, x, kb)
    case LdDelay(x) => Ops.LdDelay(c, x)
    case SetDelay(x) => Ops.SetDelay(c, x)
    case SetSound(x) => Ops.SetSound(c, x)
    case AddI(x) => Ops.AddI(c, x)
    case Fnt(x) => Ops.Fnt(c, x)
    case _ => c
  }

  /** Runs one decoded instruction on a machine whose `pc` has already
      been advanced past it. */
  function Execute(instr: Instr, m: Machine, rnd: Byte, events: seq<Keyboard.KeyEvent>): (res: StepResult)
    ensures res.Fault? ==> instr.Drw? || instr.Bcd? || instr.Str? || instr.Ldr?
    ensures res.AwaitingKey? ==> instr.Ldk?
    ensures res.Next? && !instr.Ldk? ==> res.m.keyboard == m.keyboard && res.rest == events
    ensures res.Next? && !SetsPc(instr) && !IsSkip(instr) ==> res.m.cpu.pc == m.cpu.pc
    ensures res.Next? && IsSkip(instr) ==> res.m.cpu.pc == m.cpu.pc || res.m.cpu.pc == Advance(m.cpu.pc)
  {
    var c := m.cpu;
    match instr
    case Cls => Next(m.(display := Display.Clear()), events)
    case Drw(x, y, n) =>
      (match Ops.Drw(c, x, y, n, m.ram, m.display)
       case Ok(drawn) => Next(m.(cpu := drawn.0, display := drawn.1), events)
       case Err(e) => Fault(e))
    case Ldk(x) =>
      var (c', poll) := Ops.Ldk(c, x, m.keyboard, events);
      if poll.pressed then Next(m.(cpu := c', keyboard := poll.kb), poll.rest) else AwaitingKey
    case Bcd(x) =>
      (match Ops.Bcd(c, x, m.ram)
       case Ok(r) => Next(m.(ram := r), events)
       case Err(e) => Fault(e))
    case Str(x) =>
      (match Ops.Str(c, x, m.ram)
       case Ok(r) => Next(m.(ram := r), events)
       case Err(e) => Fault(e))
    case Ldr(x) =>
      (match Ops.Ldr(c, x, m.ram)
       case Ok(c') => Next(m.(cpu := c'), events)
       case Err(e) => Fault(e))
    case _ => Next(m.(cpu := ExecuteCpu(instr, c, m.keyboard, rnd)), events)
  }

  /** The machine after the fetch: `pc` advanced by two. */
  function Advanced(m: Machine): Machine {
    m.(cpu := m.cpu.(pc := Advance(m.cpu.pc)))
  }

  /** One step.  `rnd` is the byte the random generator would return, and
      `events` the keypad events that are queued or will arrive while the
      step waits for a key. */
  function Step(m: Machine, rnd: Byte, events: seq<Keyboard.KeyEvent>): (res: StepResult)
    ensures res.Fault? ==> res.error == OutOfBounds || res.error == ReservedRegion
    ensures res.AwaitingKey? ==> Fetch(m).Ok? && Decode(Fetch(m).value).Ldk?
    ensures res.Next? ==> Fetch(m).Ok? && res.m.ram.fnt == m.ram.fnt
  {
    match Fetch(m)
    case Err(e) => Fault(e)
    case Ok(w) => Execute(Decode(w), Advanced(m), rnd, events)
  }

  /** The word at `pc` decodes to `instr`. */
  predicate FetchesAs(m: Machine, instr: Instr) {
    Fetch(m).Ok? && Decode(Fetch(m).value) == instr
  }

  /*** Properties of a step ***/

  /** Fetching at or past 0xFFE faults, and nothing else faults in fetch. */
  lemma FetchFault(m: Machine, rnd: Byte, events: seq<Keyboard.KeyEvent>)
    ensures m.cpu.pc >= Ram.MemEnd - 1 <==> Step(m, rnd, events) == Fault(OutOfBounds) && Fetch(m).Err?
  {
  }

  /** `pc` is advanced by two before every handler runs.  An instruction
      that does not jump, call, return or skip ends at the next word; a
      skip ends at the next word or the one after it. */
  lemma StepAdvancesPc(m: Machine, rnd: Byte, events: seq<Keyboard.KeyEvent>)
    requires Step(m, rnd, events).Next?
    ensures var instr, pc := Decode(Fetch(m).value), Step(m, rnd, events).m.cpu.pc;
      && (!SetsPc(instr) && !IsSkip(instr) ==> pc == Advance(m.cpu.pc))
      && (IsSkip(instr) ==> pc == Advance(m.cpu.pc) || pc == Advance(Advance(m.cpu.pc)))
  {
  }

  /** A word no case matches only advances `pc`. */
  lemma UnassignedOnlyAdvances(m: Machine, rnd: Byte, events: seq<Keyboard.KeyEvent>)
    requires Fetch(m).Ok? && IsUnassigned(Fetch(m).value)
    ensures Step(m, rnd, events) == Next(m.(cpu := m.cpu.(pc := Advance(m.cpu.pc))), events)
  {
  }

  /** `1NNN` replaces the advanced `pc` with NNN. */
  lemma JumpOverridesAdvance(m: Machine, rnd: Byte, events: seq<Keyboard.KeyEvent>, nnn: Addr)
    requires FetchesAs(m, Jp(nnn))
    ensures Step(m, rnd, events) == Next(m.(cpu := m.cpu.(pc := nnn)), events)
  {
    assert Step(m, rnd, events) == Execute(Jp(nnn), Advanced(m), rnd, events);
  }

  /** `BNNN` replaces the advanced `pc` with NNN + V0. */
  lemma JumpWithOffsetOverridesAdvance(m: Machine, rnd: Byte, events: seq<Keyboard.KeyEvent>, nnn: Addr)
    requires FetchesAs(m, JpV0(nnn))
    ensures Step(m, rnd, events) == Next(m.(cpu := m.cpu.(pc := nnn + m.cpu.v[0])), events)
  {
    assert Step(m, rnd, events) == Execute(JpV0(nnn), Advanced(m), rnd, events);
  }

  /** The stack only changes on a call, which pushes the address after the
      call, and on a return, which pops. */
  lemma StackDiscipline(m: Machine, rnd: Byte, events: seq<Keyboard.KeyEvent>)
    requires Fetch(m).Ok? && Step(m, rnd, events).Next?
    ensures var instr := Decode(Fetch(m).value);
      var s := Step(m, rnd, events).m.cpu.stack;
      && (instr.Call? ==> s == m.cpu.stack + [Advance(m.cpu.pc)])
      && (instr.Ret? ==> (m.cpu.stack == [] ==> s == []) && (m.cpu.stack != [] ==> s == m.cpu.stack[..|m.cpu.stack| - 1]))
      && (!instr.Call? && !instr.Ret? ==> s == m.cpu.stack)
  {
    var instr := Decode(Fetch(m).value);
    var c := Advanced(m).cpu;
    if !instr.Call? && !instr.Ret? {
      ExecuteKeepsStack(instr, Advanced(m), rnd, events);
    }
    if instr.Ret? && c.stack != [] {
      var d := Ops.Ret(c);
      assert d.stack + [d.pc] == c.stack;
      assert d.stack == (d.stack + [d.pc])[..|c.stack| - 1];
    }
  }

  /** Instructions other than call and return leave the stack alone. */
  lemma ExecuteKeepsStack(instr: Instr, m: Machine, rnd: Byte, events: seq<Keyboard.KeyEvent>)
    requires !instr.Call? && !instr.Ret? && Execute(instr, m, rnd, events).Next?
    ensures Execute(instr, m, rnd, events).m.cpu.stack == m.cpu.stack
  {
  }

  /** Only the wait-for-key instruction changes the keypad, and only it
      consumes events. */
  lemma KeypadOnlyOnWait(m: Machine, rnd: Byte, events: seq<Keyboard.KeyEvent>)
    requires Fetch(m).Ok? && !Decode(Fetch(m).value).Ldk? && Step(m, rnd, events).Next?
    ensures Step(m, rnd, events).m.keyboard == m.keyboard
    ensures Step(m, rnd, events).rest == events
  {
  }

  /** A wait can be resumed.  A wait that saw no key-down in `e1` has
      applied its key-ups and drained the queue; retrying the step with
      `e1 + e2` is the same as stepping the machine with that keypad on
      `e2`. */
  lemma WaitResumes(m: Machine, rnd: Byte, e1: seq<Keyboard.KeyEvent>, e2: seq<Keyboard.KeyEvent>)
    requires Step(m, rnd, e1).AwaitingKey?
    ensures Step(m, rnd, e1 + e2) == Step(m.(keyboard := Keyboard.PollEvents(m.keyboard, e1).kb), rnd, e2)
  {
    var m' := m.(keyboard := Keyboard.PollEvents(m.keyboard, e1).kb);
    assert Fetch(m') == Fetch(m);
    assert Advanced(m') == Advanced(m).(keyboard := m'.keyboard);
    WaitResumesExecute(Decode(Fetch(m).value).x, Advanced(m), rnd, e1, e2);
  }

  lemma WaitResumesExecute(x: Nibble, m: Machine, rnd: Byte, e1: seq<Keyboard.KeyEvent>, e2: seq<Keyboard.KeyEvent>)
    requires Execute(Ldk(x), m, rnd, e1).AwaitingKey?
    ensures Execute(Ldk(x), m, rnd, e1 + e2) ==
      Execute(Ldk(x), m.(keyboard := Keyboard.PollEvents(m.keyboard, e1).kb), rnd, e2)
  {
    Keyboard.PollsCompose(m.keyboard, e1, e2);
  }

  /** A call followed by a return resumes at the instruction after the
      call with the stack as it was. */
  lemma CallThenReturn(m: Machine, rnd: Byte, events: seq<Keyboard.KeyEvent>, nnn: Addr, rnd': Byte)
    requires FetchesAs(m, Call(nnn))
    requires FetchesAs(Step(m, rnd, events).m, Ret)
    ensures Step(Step(m, rnd, events).m, rnd', events) ==
      Next(m.(cpu := m.cpu.(pc := Advance(m.cpu.pc))), events)
  {
    var c := Advanced(m).cpu;
    var m1 := Step(m, rnd, events).m;
    assert m1.cpu == Ops.Call(c, nnn);
    Ops.CallThenRet(c, nnn);
    assert Advanced(m1).cpu == Ops.Call(c, nnn).(pc := Advance(nnn));
    assert Ops.Ret(Advanced(m1).cpu) == c by {
      assert Advanced(m1).cpu.stack == c.stack + [c.pc];
    }
  }

  /** A `BNNN` at 0x200 with V0 = 2 and NNN = 0x200 jumps to 0x202. */
  lemma JumpWithOffsetExample(m: Machine, rnd: Byte, events: seq<Keyboard.KeyEvent>)
    requires m.cpu.pc == 0x200 && m.cpu.v[0] == 2
    requires Ram.Image(m.ram)[0x200] == 0xB2 && Ram.Image(m.ram)[0x201] == 0x00
    ensures Step(m, rnd, events).Next? && Step(m, rnd, events).m.cpu.pc == 0x202
  {
    assert Fetch(m) == Ok(0xB200);
    assert Decode(0xB200) == JpV0(0x200) by {
      DecodeWord4(0xB, 0x2, 0x0, 0x0);
    }
    JumpWithOffsetOverridesAdvance(m, rnd, events, 0x200);
  }
}
