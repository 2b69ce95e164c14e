/** The instruction handlers.

    Each handler receives the processor state after the fetch, so `c.pc`
    already points past the instruction.  Handlers that touch memory return
    a `Result`: an access the memory refuses stops the interpreter, and the
    error says why.
 */
module Opcodes {
  import opened Bits
  import opened Errors
  import opened CpuState
  import Ram
  import Display
  import Keyboard

  /*** Control flow ***/

  /** Pops the return address; an empty stack leaves the state alone. */
  function Ret(c: Cpu): (d: Cpu)
    ensures c.stack == [] ==> d == c
    ensures c.stack != [] ==> d.stack + [d.pc] == c.stack
    ensures d.(stack := c.stack, pc := c.pc) == c
  {
    if |c.stack| == 0 then c
    else c.(pc := c.stack[|c.stack| - 1], stack := c.stack[..|c.stack| - 1])
  }

  /** `1NNN`: jump to NNN. */
  function Jp(c: Cpu, nnn: Addr): (d: Cpu)
    ensures d.pc == nnn && d.(pc := c.pc) == c
  {
    c.(pc := nnn)
  }

  /** `BNNN`: jump to NNN + V0.  The sum is at most 0x10FE, so the 16-bit
      addition cannot wrap. */
  function JpV0(c: Cpu, nnn: Addr): (d: Cpu)
    ensures d.pc == nnn + c.v[0] && d.(pc := c.pc) == c
  {
    c.(pc := nnn + c.v[0])
  }

  /** `2NNN`: push the address of the next instruction, jump to NNN. */
  function Call(c: Cpu, nnn: Addr): (d: Cpu)
    ensures d.stack == c.stack + [c.pc] && d.pc == nnn
    ensures d.(stack := c.stack, pc := c.pc) == c
  {
    c.(stack := c.stack + [c.pc], pc := nnn)
  }

  /** A return undoes the call before it. */
  lemma CallThenRet(c: Cpu, nnn: Addr)
    ensures Ret(Call(c, nnn)) == c
  {
    assert Call(c, nnn).stack[..|c.stack|] == c.stack;
  }

  /*** Skips ***/

  /** Skip the next instruction when `cond` holds. */
  function Skip(c: Cpu, cond: bool): (d: Cpu)
    ensures d.pc == if cond then Advance(c.pc) else c.pc
    ensures d.(pc := c.pc) == c
  {
    if cond then c.(pc := Advance(c.pc)) else c
  }

  /** `3XNN` */
  function SeImm(c: Cpu, x: Reg, nn: Byte): (d: Cpu)
    ensures d.pc == (if c.v[x] == nn then Advance(c.pc) else c.pc) && d.(pc := c.pc) == c
  {
    Skip(c, c.v[x] == nn)
  }

  /** `4XNN` */
  function SneImm(c: Cpu, x: Reg, nn: Byte): (d: Cpu)
    ensures d.pc == (if c.v[x] != nn then Advance(c.pc) else c.pc) && d.(pc := c.pc) == c
  {
    Skip(c, c.v[x] != nn)
  }

  /** `5XYN` (any N) */
  function SeReg(c: Cpu, x: Reg, y: Reg): (d: Cpu)
    ensures d.pc == (if c.v[x] == c.v[y] then Advance(c.pc) else c.pc) && d.(pc := c.pc) == c
  {
    Skip(c, c.v[x] == c.v[y])
  }

  /** `9XYN` (any N) */
  function SneReg(c: Cpu, x: Reg, y: Reg): (d: Cpu)
    ensures d.pc == (if c.v[x] != c.v[y] then Advance(c.pc) else c.pc) && d.(pc := c.pc) == c
  {
    Skip(c, c.v[x] != c.v[y])
  }

  /** `EX9E`: skip when the key named by Vx is held. */
  function Skp(c: Cpu, x: Reg, kb: Keyboard.Keyboard): (d: Cpu)
    ensures d.pc == (if TestBit(kb.keys, c.v[x] % 16) then Advance(c.pc) else c.pc) && d.(pc := c.pc) == c
  {
    Skip(c, Keyboard.IsPressed(kb, c.v[x]))
  }

  /** `EXA1`: skip when the key named by Vx is not held. */
  function Sknp(c: Cpu, x: Reg, kb: Keyboard.Keyboard): (d: Cpu)
    ensures d.pc == (if TestBit(kb.keys, c.v[x] % 16) then c.pc else Advance(c.pc)) && d.(pc := c.pc) == c
  {
    Skip(c, !Keyboard.IsPressed(kb, c.v[x]))
  }

  /** Of each pair of opposite skips exactly one skips: they land on
      different instructions, one of them the next one and the other the
      one after. */
  lemma SkipsComplement(c: Cpu, x: Reg, y: Reg, nn: Byte, kb: Keyboard.Keyboard)
    ensures SeImm(c, x, nn).pc != SneImm(c, x, nn).pc
    ensures SeReg(c, x, y).pc != SneReg(c, x, y).pc
    ensures Skp(c, x, kb).pc != Sknp(c, x, kb).pc
    ensures {SeImm(c, x, nn).pc, SneImm(c, x, nn).pc} == {c.pc, Advance(c.pc)}
    ensures {SeReg(c, x, y).pc, SneReg(c, x, y).pc} == {c.pc, Advance(c.pc)}
    ensures {Skp(c, x, kb).pc, Sknp(c, x, kb).pc} == {c.pc, Advance(c.pc)}
  {
  }

  /*** Loads and arithmetic ***/

  /** `6XNN` */
  function LdImm(c: Cpu, x: Reg, nn: Byte): (d: Cpu)
    ensures d.v == c.v[x := nn] && d.(v := c.v) == c
  {
    SetReg(c, x, nn)
  }

  /** `8XY0` */
  function LdReg(c: Cpu, x: Reg, y: Reg): (d: Cpu)
    ensures d.v == c.v[x := c.v[y]] && d.(v := c.v) == c
  {
    SetReg(c, x, c.v[y])
  }

  /** `7XNN`: wrapping add; VF is not touched. */
  function AddImm(c: Cpu, x: Reg, nn: Byte): (d: Cpu)
    ensures d.v[x] as int + (if c.v[x] as int + nn >= 256 then 256 else 0) == c.v[x] as int + nn
    ensures d == SetReg(c, x, d.v[x])
  {
    SetReg(c, x, (c.v[x] as int + nn) % 256)
  }

  /** `8XY4`: Vx gets the low byte of the sum, then VF the carry.  With
      x = F the carry overwrites the sum. */
  function AddReg(c: Cpu, x: Reg, y: Reg): (d: Cpu)
    ensures d.v[Flag] <= 1
    ensures x != Flag ==> d.v[x] as int + 256 * (d.v[Flag] as int) == c.v[x] as int + c.v[y]
    ensures x == Flag ==> (d.v[Flag] == 1 <==> c.v[x] as int + c.v[y] >= 256)
    ensures forall r: Reg :: r != x && r != Flag ==> d.v[r] == c.v[r]
    ensures d.(v := c.v) == c
  {
    var sum: int := c.v[x] as int + c.v[y];
    var c1 := SetReg(c, x, sum % 256);
    SetReg(c1, Flag, sum / 256)
  }

  /** `8XY5`: Vx gets Vx - Vy wrapped, then VF is 1 iff Vx > Vy (strictly:
      equal operands give 0).  With x = F the flag overwrites the
      difference. */
  function Sub(c: Cpu, x: Reg, y: Reg): (d: Cpu)
    ensures d.v[Flag] == 1 <==> c.v[x] > c.v[y]
    ensures d.v[Flag] <= 1
    ensures x != Flag ==> (d.v[x] as int + c.v[y]) % 256 == c.v[x]
    ensures forall r: Reg :: r != x && r != Flag ==> d.v[r] == c.v[r]
    ensures d.(v := c.v) == c
  {
    var a: int := c.v[x];
    var b: int := c.v[y];
    var c1 := SetReg(c, x, (a - b) % 256);
    SetReg(c1, Flag, if a > b then 1 else 0)
  }

  /** `8XY7`: Vx gets Vy - Vx wrapped, then VF is 1 iff Vy > Vx. */
  function Subn(c: Cpu, x: Reg, y: Reg): (d: Cpu)
    ensures d.v[Flag] == 1 <==> c.v[y] > c.v[x]
    ensures d.v[Flag] <= 1
    ensures x != Flag ==> (d.v[x] as int + c.v[x]) % 256 == c.v[y]
    ensures forall r: Reg :: r != x && r != Flag ==> d.v[r] == c.v[r]
    ensures d.(v := c.v) == c
  {
    var a: int := c.v[x];
    var b: int := c.v[y];
    var c1 := SetReg(c, x, (b - a) % 256);
    SetReg(c1, Flag, if b > a then 1 else 0)
  }

  /** `8XY6`: VF gets bit 0 of Vx, then Vx is shifted right.  Vx is read
      again after VF is written, so with x = F the shifted flag (always 0)
      wins. */
  function Shr(c: Cpu, x: Reg): (d: Cpu)
    ensures x != Flag ==> 2 * (d.v[x] as int) + d.v[Flag] == c.v[x] && d.v[Flag] <= 1
    ensures x == Flag ==> d.v[Flag] == 0
    ensures forall r: Reg :: r != x && r != Flag ==> d.v[r] == c.v[r]
    ensures d.(v := c.v) == c
  {
    var c1 := SetReg(c, Flag, c.v[x] % 2);
    SetReg(c1, x, c1.v[x] / 2)
  }

  /** `8XYE`: VF gets bit 7 of Vx, then Vx is shifted left (wrapping).  With
      x = F the shifted flag wins: VF ends as 0 or 2. */
  function Shl(c: Cpu, x: Reg): (d: Cpu)
    ensures x != Flag ==> d.v[x] as int + 256 * (d.v[Flag] as int) == 2 * (c.v[x] as int) && d.v[Flag] <= 1
    ensures x == Flag ==> (d.v[Flag] == 2 <==> c.v[Flag] >= 128) && (d.v[Flag] == 0 <==> c.v[Flag] < 128)
    ensures forall r: Reg :: r != x && r != Flag ==> d.v[r] == c.v[r]
    ensures d.(v := c.v) == c
  {
    var c1 := SetReg(c, Flag, c.v[x] / 128);
    SetReg(c1, x, (c1.v[x] as int * 2) % 256)
  }

  /** The bits of `op` applied to two bytes. */
  lemma ByteBits(op: BitOp, a: Byte, b: Byte, k: nat)
    ensures TestBit(Zip(op, a, b, 8), k) == (k < 8 && Apply(op, TestBit(a, k), TestBit(b, k)))
  {
    ZipBit(op, a, b, 8, k);
  }

  /** `8XY1` */
  function Or(c: Cpu, x: Reg, y: Reg): (d: Cpu)
    ensures forall k :: 0 <= k < 8 ==> (TestBit(d.v[x], k) <==> TestBit(c.v[x], k) || TestBit(c.v[y], k))
    ensures d == SetReg(c, x, d.v[x])
  {
    forall k | 0 <= k < 8 {
      ByteBits(OrOp, c.v[x], c.v[y], k);
    }
    SetReg(c, x, Or8(c.v[x], c.v[y]))
  }

  /** `8XY2` */
  function And(c: Cpu, x: Reg, y: Reg): (d: Cpu)
    ensures forall k :: 0 <= k < 8 ==> (TestBit(d.v[x], k) <==> TestBit(c.v[x], k) && TestBit(c.v[y], k))
    ensures d == SetReg(c, x, d.v[x])
  {
    forall k | 0 <= k < 8 {
      ByteBits(AndOp, c.v[x], c.v[y], k);
    }
    SetReg(c, x, And8(c.v[x], c.v[y]))
  }

  /** `8XY3` */
  function Xor(c: Cpu, x: Reg, y: Reg): (d: Cpu)
    ensures forall k :: 0 <= k < 8 ==> (TestBit(d.v[x], k) <==> TestBit(c.v[x], k) != TestBit(c.v[y], k))
    ensures d == SetReg(c, x, d.v[x])
  {
    forall k | 0 <= k < 8 {
      ByteBits(XorOp, c.v[x], c.v[y], k);
    }
    SetReg(c, x, Xor8(c.v[x], c.v[y]))
  }

  /** Two bytes with the same eight bits are equal. */
  lemma SameBits(a: Byte, b: Byte)
    requires forall k :: 0 <= k < 8 ==> TestBit(a, k) == TestBit(b, k)
    ensures a == b
  {
    Pow2Values();
    BitsDetermine(a, b, 8);
  }

  /** XOR with a different register twice restores the register. */
  lemma XorTwice(c: Cpu, x: Reg, y: Reg)
    requires x != y
    ensures Xor(Xor(c, x, y), x, y) == c
  {
    var d := Xor(Xor(c, x, y), x, y);
    SameBits(d.v[x], c.v[x]);
    assert d.v == c.v;
  }

  /** OR and AND with the same operand are idempotent. */
  lemma OrAndIdempotent(c: Cpu, x: Reg, y: Reg)
    ensures Or(Or(c, x, y), x, y) == Or(c, x, y)
    ensures And(And(c, x, y), x, y) == And(c, x, y)
  {
    var o := Or(c, x, y);
    SameBits(Or(o, x, y).v[x], o.v[x]);
    assert Or(o, x, y).v == o.v;
    var a := And(c, x, y);
    SameBits(And(a, x, y).v[x], a.v[x]);
    assert And(a, x, y).v == a.v;
  }

  /** A left shift followed by a right shift clears bit 7 and nothing else. */
  lemma ShlThenShr(c: Cpu, x: Reg)
    requires x != Flag
    ensures Shr(Shl(c, x), x).v[x] == c.v[x] % 128
    ensures Shr(Shl(c, x), x).v[Flag] == 0
  {
  }

  /** Subtracting and adding back the same register restores Vx. */
  lemma SubThenAdd(c: Cpu, x: Reg, y: Reg)
    requires x != Flag && y != Flag && x != y
    ensures AddReg(Sub(c, x, y), x, y).v[x] == c.v[x]
    ensures AddReg(Sub(c, x, y), x, y).v[Flag] == if c.v[x] < c.v[y] then 1 else 0
  {
  }

  /*** The index register and the timers ***/

  /** `ANNN` */
  function Ldi(c: Cpu, nnn: Addr): (d: Cpu)
    ensures d.i == nnn && d.(i := c.i) == c
  {
    c.(i := nnn)
  }

  /** `FX1E`: wrapping 16-bit add. */
  function AddI(c: Cpu, x: Reg): (d: Cpu)
    ensures d.i as int + (if c.i as int + c.v[x] >= 65536 then 65536 else 0) == c.i as int + c.v[x]
    ensures d.(i := c.i) == c
  {
    c.(i := (c.i as int + c.v[x]) % 65536)
  }

  /** `FX29`: point I at the glyph of digit Vx.  Vx is not masked to a
      nibble, so a value of 16 or more points past the font. */
  function Fnt(c: Cpu, x: Reg): (d: Cpu)
    ensures d.i == 5 * (c.v[x] as int) && d.(i := c.i) == c
    ensures c.v[x] >= 16 ==> d.i >= Ram.FontEnd
  {
    c.(i := c.v[x] as int * 5)
  }

  /** After `FX29` with a digit, the five bytes at I are that digit's glyph. */
  lemma FntGlyph(c: Cpu, x: Reg, r: Ram.Ram, k: nat)
    requires c.v[x] < 16 && k < 5
    ensures Ram.Read(r, Fnt(c, x).i + k) == Ok(r.fnt[5 * (c.v[x] as int) + k])
  {
  }

  /** `CXNN`: the random byte masked by NN. */
  function Rnd(c: Cpu, x: Reg, nn: Byte, rnd: Byte): (d: Cpu)
    ensures forall k :: 0 <= k < 8 ==> (TestBit(d.v[x], k) <==> TestBit(rnd, k) && TestBit(nn, k))
    ensures forall k: nat :: TestBit(d.v[x], k) ==> TestBit(nn, k)
    ensures d == SetReg(c, x, d.v[x])
  {
    forall k: nat {
      ByteBits(AndOp, rnd, nn, k);
    }
    SetReg(c, x, And8(rnd, nn))
  }

  /** `FX07` */
  function LdDelay(c: Cpu, x: Reg): (d: Cpu)
    ensures d.v == c.v[x := c.delay] && d.(v := c.v) == c
  {
    SetReg(c, x, c.delay)
  }

  /** `FX15` */
  function SetDelay(c: Cpu, x: Reg): (d: Cpu)
    ensures d.delay == c.v[x] && d.(delay := c.delay) == c
  {
    c.(delay := c.v[x])
  }

  /** `FX18` */
  function SetSound(c: Cpu, x: Reg): (d: Cpu)
    ensures d.sound == c.v[x] && d.(sound := c.sound) == c
  {
    c.(sound := c.v[x])
  }

  /** Storing the delay timer back from the register it was read into is
      a no-op, and so is reading back a value just stored. */
  lemma DelayRoundTrip(c: Cpu, x: Reg)
    ensures SetDelay(LdDelay(c, x), x) == LdDelay(c, x)
    ensures LdDelay(SetDelay(c, x), x) == SetDelay(c, x)
  {
    assert SetDelay(c, x).v[x := c.v[x]] == c.v;
  }

  /*** Memory ***/

  /** `I + k` on a `uint16`. */
  function Offset(i: Word, k: nat): Word {
    (i + k) % 65536
  }

  /** `FX33`: the decimal digits of Vx, units first, at I+2, I+1 and I, the
      loop stopping at the first write the memory refuses.  All three
      addresses must lie in the writable region, and a refused write is out
      of bounds exactly when I+2 lies at or above 0xFFF without wrapping. */
  function Bcd(c: Cpu, x: Reg, r: Ram.Ram): (res: Result<Ram.Ram>)
    ensures res.Ok? <==> Ram.ProgramStart <= c.i && c.i + 2 < Ram.MemEnd
    ensures res.Err? ==> (res.error == OutOfBounds <==> Ram.MemEnd <= c.i + 2 < 65536)
    ensures res.Err? ==> res.error != ImageTooLarge
    ensures res.Ok? ==> res.value.fnt == r.fnt
    ensures res.Ok? ==> forall a :: 0 <= a < Ram.MemEnd ==>
      Ram.Image(res.value)[a] ==
        if a == c.i then c.v[x] / 100
        else if a == c.i + 1 then (c.v[x] / 10) % 10
        else if a == c.i + 2 then c.v[x] % 10
        else Ram.Image(r)[a]
  {
    BcdOutcome(r, c.i, c.v[x]);
    BcdImage(r, c.i, c.v[x]);
    BcdWrites(r, c.i, c.v[x])
  }

  /** The three writes of `FX33`, units first. */
  function BcdWrites(r: Ram.Ram, i: Word, value: Byte): Result<Ram.Ram> {
    var r1 :- Ram.Write(r, Offset(i, 2), value % 10);
    var r2 :- Ram.Write(r1, Offset(i, 1), (value / 10) % 10);
    var r3 :- Ram.Write(r2, i, (value / 100) % 10);
    Ok(r3)
  }

  lemma BcdOutcome(r: Ram.Ram, i: Word, value: Byte)
    ensures BcdWrites(r, i, value).Ok? <==> Ram.ProgramStart <= i && i + 2 < Ram.MemEnd
    ensures BcdWrites(r, i, value).Err? ==>
      && (BcdWrites(r, i, value).error == OutOfBounds <==> Ram.MemEnd <= i + 2 < 65536)
      && BcdWrites(r, i, value).error != ImageTooLarge
  {
    if i + 2 < 65536 {
      ModUnique(i + 2, 65536, 0, i + 2);
      ModUnique(i + 1, 65536, 0, i + 1);
    } else {
      ModUnique(i + 2, 65536, 1, i + 2 - 65536);
    }
  }

  lemma BcdImage(r: Ram.Ram, i: Word, value: Byte)
    ensures BcdWrites(r, i, value).Ok? ==> BcdWrites(r, i, value).value.fnt == r.fnt
    ensures BcdWrites(r, i, value).Ok? ==> forall a :: 0 <= a < Ram.MemEnd ==>
      Ram.Image(BcdWrites(r, i, value).value)[a] ==
        if a == i then value / 100
        else if a == i + 1 then (value / 10) % 10
        else if a == i + 2 then value % 10
        else Ram.Image(r)[a]
  {
    BcdOutcome(r, i, value);
    if BcdWrites(r, i, value).Ok? {
      ModUnique(i + 2, 65536, 0, i + 2);
      ModUnique(i + 1, 65536, 0, i + 1);
    }
  }

  /** The three digits written by `FX33` are decimal digits and spell Vx. */
  lemma BcdDigits(c: Cpu, x: Reg, r: Ram.Ram)
    requires Bcd(c, x, r).Ok?
    ensures var m := Bcd(c, x, r).value;
      && Ram.Read(m, c.i).Ok? && Ram.Read(m, c.i + 1).Ok? && Ram.Read(m, c.i + 2).Ok?
      && Ram.Read(m, c.i).value <= 2
      && Ram.Read(m, c.i + 1).value <= 9
      && Ram.Read(m, c.i + 2).value <= 9
      && 100 * Ram.Read(m, c.i).value + 10 * Ram.Read(m, c.i + 1).value + Ram.Read(m, c.i + 2).value == c.v[x]
  {
    var m := Bcd(c, x, r).value;
    var v: int := c.v[x];
    assert Ram.Read(m, c.i).value == v / 100;
    assert Ram.Read(m, c.i + 1).value == (v / 10) % 10;
    assert Ram.Read(m, c.i + 2).value == v % 10;
    DecimalDigits(v);
  }

  /** The three decimal digits of a byte. */
  lemma DecimalDigits(v: Byte)
    ensures v / 100 <= 2 && (v / 10) % 10 <= 9 && v % 10 <= 9
    ensures 100 * (v / 100) + 10 * ((v / 10) % 10) + v % 10 == v
  {
    var h := v / 100;
    var t := (v / 10) % 10;
    var u := v % 10;
    ModUnique(v, 10, v / 10, u);
    ModUnique(v / 10, 10, h, t);
  }

  /** The store loop of `FX55` from register `k` on: writes Vk..Vx to
      I+k..I+x.  It succeeds iff that whole range lies in the writable
      region; otherwise the first refused write is to a reserved address
      iff I+k is one. */
  function StoreFrom(c: Cpu, x: Reg, r: Ram.Ram, k: nat): (res: Result<Ram.Ram>)
    ensures res.Ok? <==> k > x || (Ram.ProgramStart <= c.i + k && c.i + x < Ram.MemEnd)
    ensures res.Err? ==> (res.error == ReservedRegion <==> Offset(c.i, k) < Ram.ProgramStart)
    ensures res.Err? ==> res.error != ImageTooLarge
    ensures res.Ok? ==> res.value.fnt == r.fnt
    ensures res.Ok? ==> forall a :: 0 <= a < Ram.MemEnd ==>
      Ram.Image(res.value)[a] == if c.i + k <= a <= c.i + x then c.v[a - c.i] else Ram.Image(r)[a]
    decreases 16 - k
  {
    if k > x then Ok(r)
    else
      var r1 :- Ram.Write(r, Offset(c.i, k), c.v[k]);
      StoreFrom(c, x, r1, k + 1)
  }

  /** `FX55`: store V0..Vx at I..I+x. */
  function Str(c: Cpu, x: Reg, r: Ram.Ram): (res: Result<Ram.Ram>)
    ensures res.Ok? <==> Ram.ProgramStart <= c.i && c.i + x < Ram.MemEnd
    ensures res.Err? ==> (res.error == ReservedRegion <==> c.i < Ram.ProgramStart)
    ensures res.Ok? ==> res.value.fnt == r.fnt
    ensures res.Ok? ==> forall a :: 0 <= a < Ram.MemEnd ==>
      Ram.Image(res.value)[a] == if c.i <= a <= c.i + x then c.v[a - c.i] else Ram.Image(r)[a]
  {
    StoreFrom(c, x, r, 0)
  }

  /** The load loop of `FX65` from register `k` on: reads Vk..Vx from
      I+k..I+x (each address wrapping at 16 bits), and fails iff one of
      those addresses is not readable. */
  function LoadFrom(c: Cpu, x: Reg, r: Ram.Ram, k: nat): (res: Result<Cpu>)
    ensures res.Ok? <==> forall j :: k <= j <= x ==> Offset(c.i, j) < Ram.MemEnd
    ensures res.Err? ==> res.error == OutOfBounds
    ensures res.Ok? ==> forall q: Reg ::
      res.value.v[q] == if k <= q <= x then Ram.Image(r)[Offset(c.i, q)] else c.v[q]
    ensures res.Ok? ==> res.value.(v := c.v) == c
    decreases 16 - k
  {
    if k > x then Ok(c)
    else
      var b :- Ram.Read(r, Offset(c.i, k));
      LoadFrom(SetReg(c, k, b), x, r, k + 1)
  }

  /** `FX65`: load V0..Vx from I..I+x. */
  function Ldr(c: Cpu, x: Reg, r: Ram.Ram): (res: Result<Cpu>)
    ensures res.Ok? <==> c.i + x < Ram.MemEnd
    ensures res.Err? ==> res.error == OutOfBounds
    ensures res.Ok? ==> forall q: Reg ::
      res.value.v[q] == if q <= x then Ram.Image(r)[c.i + q] else c.v[q]
    ensures res.Ok? ==> res.value.(v := c.v) == c
  {
    ReadableRange(c.i, x);
    var res := LoadFrom(c, x, r, 0);
    LoadedAtOffsets(c, x, r, res);
    res
  }

  /** Below 0xFFF the wrapped offsets of the load loop are plain sums. */
  lemma LoadedAtOffsets(c: Cpu, x: Reg, r: Ram.Ram, res: Result<Cpu>)
    requires res == LoadFrom(c, x, r, 0)
    requires res.Ok? ==> c.i + x < Ram.MemEnd
    ensures res.Ok? ==> forall q: Reg ::
      res.value.v[q] == if q <= x then Ram.Image(r)[c.i + q] else c.v[q]
  {
    if res.Ok? {
      forall q: Reg
        ensures res.value.v[q] == if q <= x then Ram.Image(r)[c.i + q] else c.v[q]
      {
        if q <= x {
          ModUnique(c.i + q, 65536, 0, c.i + q);
        }
      }
    }
  }

  /** I..I+x are all readable iff I+x is below 0xFFF: past the end of the
      16-bit space the range wraps, but only after crossing 0xFFFF. */
  lemma ReadableRange(i: Word, x: Reg)
    ensures (forall j :: 0 <= j <= x ==> Offset(i, j) < Ram.MemEnd) <==> i + x < Ram.MemEnd
  {
    if i + x >= Ram.MemEnd {
      var j: int := if i + x < 65536 then x else 65535 - i;
      assert Offset(i, j) >= Ram.MemEnd;
    }
  }

  /** `FX55` then `FX65` with the same I and x reloads V0..Vx as they were
      stored, whatever the registers held in between, and leaves the
      registers above x alone. */
  lemma StoreThenLoad(c: Cpu, c': Cpu, x: Reg, r: Ram.Ram)
    requires Str(c, x, r).Ok? && c'.i == c.i
    ensures Ldr(c', x, Str(c, x, r).value).Ok?
    ensures forall q: Reg :: Ldr(c', x, Str(c, x, r).value).value.v[q] == if q <= x then c.v[q] else c'.v[q]
  {
  }

  /*** Display ***/

  /** The sprite loop of `DXYN` from offset `k` on: the bytes at I+k..I+n-1,
      each address wrapping at 16 bits. */
  function ReadSprite(r: Ram.Ram, i: Word, n: Nibble, k: nat): (res: Result<seq<Byte>>)
    requires k <= n
    ensures res.Ok? <==> forall o :: k <= o < n ==> Offset(i, o) < Ram.MemEnd
    ensures res.Err? ==> res.error == OutOfBounds
    ensures res.Ok? ==> |res.value| == n - k
    ensures res.Ok? ==> forall o :: 0 <= o < n - k ==> res.value[o] == Ram.Image(r)[Offset(i, k + o)]
    decreases n - k
  {
    if k == n then Ok([])
    else
      var b :- Ram.Read(r, Offset(i, k));
      var rest :- ReadSprite(r, i, n, k + 1);
      Ok([b] + rest)
  }

  /** Pixel (row, col) is covered by the `n`-row sprite at I drawn at
      (Vx, Vy): Vx is the column and Vy the row of its top-left corner.
      The sprite row is `(row - Vy) mod 32`, its bit `(col - Vx) mod 64`
      counted from the most significant one. */
  ghost predicate DrwCovers(c: Cpu, x: Reg, y: Reg, n: Nibble, r: Ram.Ram, row: int, col: int) {
    var i := (row - c.v[y]) % Display.Height;
    var j := (col - c.v[x]) % Display.Width;
    i < n && j < 8 && Offset(c.i, i) < Ram.MemEnd && TestBit(Ram.Image(r)[Offset(c.i, i)], 7 - j)
  }

  /** `DXYN`: XOR the N bytes at I onto the display at column Vx, row Vy;
      VF is 1 iff some pixel was switched off.  The handler passes Vy as the
      drawing routine's first (row) coordinate and Vx as its second (column)
      coordinate. */
  function Drw(c: Cpu, x: Reg, y: Reg, n: Nibble, r: Ram.Ram, g: Display.Grid): (res: Result<(Cpu, Display.Grid)>)
    ensures res.Ok? <==> forall o :: 0 <= o < n ==> Offset(c.i, o) < Ram.MemEnd
    ensures res.Err? ==> res.error == OutOfBounds
    ensures res.Ok? ==> forall row, col :: Display.InGrid(row, col) ==>
      res.value.1[row][col] == (g[row][col] != DrwCovers(c, x, y, n, r, row, col))
    ensures res.Ok? ==> res.value.0.v[Flag] <= 1
    ensures res.Ok? ==> (res.value.0.v[Flag] == 1 <==>
      exists row, col :: Display.InGrid(row, col) && g[row][col] && !res.value.1[row][col])
    ensures res.Ok? ==> res.value.0 == SetReg(c, Flag, res.value.0.v[Flag])
  {
    var sprite :- ReadSprite(r, c.i, n, 0);
    var drawn := Display.Draw(g, c.v[y], c.v[x], sprite);
    DrwClosedForm(c, x, y, n, r, g, sprite);
    Display.CollisionMeansSwitchedOff(g, c.v[y], c.v[x], sprite);
    Ok((SetReg(c, Flag, if drawn.1 then 1 else 0), drawn.0))
  }

  lemma DrwClosedForm(c: Cpu, x: Reg, y: Reg, n: Nibble, r: Ram.Ram, g: Display.Grid, sprite: seq<Byte>)
    requires ReadSprite(r, c.i, n, 0) == Ok(sprite)
    ensures forall row, col :: Display.InGrid(row, col) ==>
      Display.Draw(g, c.v[y], c.v[x], sprite).0[row][col] == (g[row][col] != DrwCovers(c, x, y, n, r, row, col))
  {
    forall row, col | Display.InGrid(row, col)
      ensures Display.Covered(c.v[y], c.v[x], sprite, row, col) == DrwCovers(c, x, y, n, r, row, col)
    {
      var i := Display.RowIndex(c.v[y], row);
      SpriteLength(r, c.i, n, sprite);
      if i < n {
        SpriteByteAt(r, c.i, n, sprite, i);
      }
      DrwCoversPixel(c, x, y, n, r, sprite, row, col);
    }
  }

  /** One pixel of the closed form: the framebuffer's notion of coverage
      for the sprite read from memory is `DrwCovers`. */
  lemma DrwCoversPixel(c: Cpu, x: Reg, y: Reg, n: Nibble, r: Ram.Ram, sprite: seq<Byte>, row: int, col: int)
    requires |sprite| == n
    requires var i := Display.RowIndex(c.v[y], row);
      i < n ==> Offset(c.i, i) < Ram.MemEnd && sprite[i] == Ram.Image(r)[Offset(c.i, i)]
    ensures Display.Covered(c.v[y], c.v[x], sprite, row, col) == DrwCovers(c, x, y, n, r, row, col)
  {
    var i := Display.RowIndex(c.v[y], row);
    var j := Display.ColIndex(c.v[x], col);
    Display.CoveredAtIndex(c.v[y], c.v[x], sprite, row, col);
    if i < n && j < 8 {
      Display.SpriteBitIsBit(sprite[i], j);
    }
  }

  lemma SpriteLength(r: Ram.Ram, i: Word, n: Nibble, sprite: seq<Byte>)
    requires ReadSprite(r, i, n, 0) == Ok(sprite)
    ensures |sprite| == n
  {
  }

  lemma SpriteByteAt(r: Ram.Ram, i: Word, n: Nibble, sprite: seq<Byte>, k: nat)
    requires ReadSprite(r, i, n, 0) == Ok(sprite) && k < n
    ensures |sprite| == n && Offset(i, k) < Ram.MemEnd && sprite[k] == Ram.Image(r)[Offset(i, k)]
  {
    assert sprite[k] == Ram.Image(r)[Offset(i, 0 + k)];
  }

  /*** Keypad ***/

  /** `FX0A`: wait for a key press and put its number in Vx.  The handler
      polls until a poll reports a key-down; the events it consumes on the
      way (key-ups included) are given as one sequence.  Without a key-down
      in `events` the wait is not over: the registers are left alone. */
  function Ldk(c: Cpu, x: Reg, kb: Keyboard.Keyboard, events: seq<Keyboard.KeyEvent>): (res: (Cpu, Keyboard.Poll))
    ensures var n := Keyboard.FirstKeyDown(events);
      && (res.1.pressed <==> n < |events|)
      && (n < |events| ==> res.0 == SetReg(c, x, events[n].key) && TestBit(res.1.kb.keys, events[n].key))
      && (n == |events| ==> res.0 == c)
    ensures Keyboard.PollSpec(kb, events, res.1)
  {
    var p := Keyboard.PollEvents(kb, events);
    if p.pressed then (SetReg(c, x, p.key), p) else (c, p)
  }
}
