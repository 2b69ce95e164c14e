/** The processor state: sixteen 8-bit registers V0..VF, the return-address
    stack, the index register I, the delay and sound timers and the program
    counter.  The pseudo-random generator of the Go code is not part of the
    state: the random byte an instruction needs is passed in instead.
 */
module CpuState {
  import opened Bits

  /** A register number, the `x` or `y` nibble of an instruction. */
  type Reg = Nibble

  /** The flag register VF. */
  const Flag: Reg := 0xF

  type Regs = s: seq<Byte> | |s| == 16 witness seq(16, _ => 0)

  /** The stack is an unbounded slice of return addresses. */
  datatype Cpu = Cpu(v: Regs, stack: seq<Word>, i: Word, delay: Byte, sound: Byte, pc: Word)

  /** Programs are loaded at 0x200. */
  const Entry: Word := 0x200

  /** The power-on state. */
  function New(): (c: Cpu)
    ensures c.pc == Entry && c.stack == [] && c.i == 0
    ensures c.delay == 0 && c.sound == 0
    ensures forall r: Reg :: c.v[r] == 0
  {
    Cpu(seq(16, _ => 0), [], 0, 0, 0, Entry)
  }

  /** Register `x` set to `b`; everything else as in `c`. */
  function SetReg(c: Cpu, x: Reg, b: Byte): (d: Cpu)
    ensures d.v[x] == b
    ensures forall r: Reg :: r != x ==> d.v[r] == c.v[r]
    ensures d.(v := c.v) == c
  {
    c.(v := c.v[x := b])
  }

  /** `pc += 2` on a `uint16`. */
  function Advance(pc: Word): (pc': Word)
    ensures pc' == if pc < 65534 then pc + 2 else pc - 65534
  {
    (pc + 2) % 65536
  }

  /** One tick of the 60 Hz timers: each positive timer counts down by one,
      and the buzzer sounds for this tick iff the sound timer was running. */
  function DecrementTimers(c: Cpu): (res: (Cpu, bool))
    ensures res.1 <==> c.sound > 0
    ensures res.0.delay == if c.delay > 0 then c.delay - 1 else 0
    ensures res.0.sound == if c.sound > 0 then c.sound - 1 else 0
    ensures res.0.(delay := c.delay, sound := c.sound) == c
  {
    var c1 := if c.delay > 0 then c.(delay := c.delay - 1) else c;
    if c1.sound > 0 then (c1.(sound := c1.sound - 1), true) else (c1, false)
  }

  /** `n` consecutive ticks; the second component counts the ticks on which
      the buzzer sounded. */
  function Ticks(c: Cpu, n: nat): (res: (Cpu, nat))
    decreases n
  {
    if n == 0 then (c, 0)
    else
      var (c1, buzz) := DecrementTimers(c);
      var (c2, count) := Ticks(c1, n - 1);
      (c2, count + if buzz then 1 else 0)
  }

  function Max0(a: int): nat {
    if a > 0 then a else 0
  }

  function Min(a: int, b: int): int {
    if a < b then a else b
  }

  /** After `n` ticks each timer has dropped by `n` but not below zero, the
      buzzer has sounded on exactly min(sound, n) ticks, and nothing else
      has changed. */
  lemma {:induction false} TicksCountDown(c: Cpu, n: nat)
    ensures Ticks(c, n).0.delay == Max0(c.delay - n)
    ensures Ticks(c, n).0.sound == Max0(c.sound - n)
    ensures Ticks(c, n).1 == Min(c.sound, n)
    ensures Ticks(c, n).0.(delay := c.delay, sound := c.sound) == c
    decreases n
  {
    if n > 0 {
      TicksCountDown(DecrementTimers(c).0, n - 1);
    }
  }
}
