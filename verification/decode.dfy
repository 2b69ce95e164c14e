/** Instruction decoding.

    A 16-bit instruction word `w` is read as four nibbles `H X Y N`, with
    `NN` its low byte and `NNN` its low twelve bits.  The handlers extract
    the fields as `(w & 0x0F00) >> 8`, `(w & 0x00F0) >> 4`, `w & 0x000F`,
    `w & 0x00FF` and `w & 0x0FFF`, which on an unsigned 16-bit value are the
    divisions and remainders below.  Dispatch is on `H`, and then on the
    low byte for `H` = 0, E, F and on `N` for `H` = 8; words that match no
    case do nothing.
 */
module Instructions {
  import opened Bits

  datatype Instr =
    | Cls                       // 0?E0
    | Ret                       // 0?EE
    | Jp(nnn: Addr)             // 1NNN
    | Call(nnn: Addr)           // 2NNN
    | SeImm(x: Nibble, nn: Byte)    // 3XNN
    | SneImm(x: Nibble, nn: Byte)   // 4XNN
    | SeReg(x: Nibble, y: Nibble)   // 5XY?
    | LdImm(x: Nibble, nn: Byte)    // 6XNN
    | AddImm(x: Nibble, nn: Byte)   // 7XNN
    | LdReg(x: Nibble, y: Nibble)   // 8XY0
    | Or(x: Nibble, y: Nibble)      // 8XY1
    | And(x: Nibble, y: Nibble)     // 8XY2
    | Xor(x: Nibble, y: Nibble)     // 8XY3
    | AddReg(x: Nibble, y: Nibble)  // 8XY4
    | Sub(x: Nibble, y: Nibble)     // 8XY5
    | Shr(x: Nibble)                // 8X?6
    | Subn(x: Nibble, y: Nibble)    // 8XY7
    | Shl(x: Nibble)                // 8X?E
    | SneReg(x: Nibble, y: Nibble)  // 9XY?
    | Ldi(nnn: Addr)                // ANNN
    | JpV0(nnn: Addr)               // BNNN
    | Rnd(x: Nibble, nn: Byte)      // CXNN
    | Drw(x: Nibble, y: Nibble, n: Nibble)  // DXYN
    | Skp(x: Nibble)                // EX9E
    | Sknp(x: Nibble)               // EXA1
    | LdDelay(x: Nibble)            // FX07
    | Ldk(x: Nibble)                // FX0A
    | SetDelay(x: Nibble)           // FX15
    | SetSound(x: Nibble)           // FX18
    | AddI(x: Nibble)               // FX1E
    | Fnt(x: Nibble)                // FX29
    | Bcd(x: Nibble)                // FX33
    | Str(x: Nibble)                // FX55
    | Ldr(x: Nibble)                // FX65
    | Unassigned                    // any other word: no effect

  /** The instructions that put their own target in `pc`. */
  predicate SetsPc(instr: Instr) {
    instr.Jp? || instr.JpV0? || instr.Call? || instr.Ret?
  }

  /** The conditional skips. */
  predicate IsSkip(instr: Instr) {
    instr.SeImm? || instr.SneImm? || instr.SeReg? || instr.SneReg? || instr.Skp? || instr.Sknp?
  }

  function High(w: Word): Nibble { w / 4096 }
  function X(w: Word): Nibble { (w / 256) % 16 }
  function Y(w: Word): Nibble { (w / 16) % 16 }
  function N(w: Word): Nibble { w % 16 }
  function NN(w: Word): Byte { w % 256 }
  function NNN(w: Word): Addr { w % 4096 }

  /** The word `H X Y N`. */
  function Word4(h: Nibble, x: Nibble, y: Nibble, n: Nibble): Word {
    h * 4096 + x * 256 + y * 16 + n
  }

  /** A word is made of its four nibbles. */
  lemma WordFields(w: Word)
    ensures w == Word4(High(w), X(w), Y(w), N(w))
    ensures NN(w) == Y(w) * 16 + N(w) && NNN(w) == X(w) * 256 + Y(w) * 16 + N(w)
  {
    var hi, lo := w / 256, w % 256;
    var h, x, y, n := hi / 16, hi % 16, lo / 16, lo % 16;
    assert hi == 16 * h + x && lo == 16 * y + n;
    ModUnique(w, 4096, h, 256 * x + lo);
    ModUnique(w, 16, 16 * hi + y, n);
    ModUnique(w / 16, 16, hi, y);
  }

  /** The words no case of the dispatch matches. */
  predicate IsUnassigned(w: Word) {
    || (High(w) == 0x0 && NN(w) != 0xE0 && NN(w) != 0xEE)
    || (High(w) == 0x8 && 8 <= N(w) <= 0xD)
    || (High(w) == 0x8 && N(w) == 0xF)
    || (High(w) == 0xE && NN(w) != 0x9E && NN(w) != 0xA1)
    || (High(w) == 0xF && NN(w) !in {0x07, 0x0A, 0x15, 0x18, 0x1E, 0x29, 0x33, 0x55, 0x65})
  }

  /** The dispatch on the four nibbles `H X Y N` of a word. */
  function Dispatch(h: Nibble, x: Nibble, y: Nibble, n: Nibble): Instr {
    var nn, nnn := y * 16 + n, x * 256 + y * 16 + n;
    if h == 0x0 then
      if nn == 0xE0 then Cls else if nn == 0xEE then Ret else Unassigned
    else if h == 0x1 then Jp(nnn)
    else if h == 0x2 then Call(nnn)
    else if h == 0x3 then SeImm(x, nn)
    else if h == 0x4 then SneImm(x, nn)
    else if h == 0x5 then SeReg(x, y)
    else if h == 0x6 then LdImm(x, nn)
    else if h == 0x7 then AddImm(x, nn)
    else if h == 0x8 then
      if n == 0x0 then LdReg(x, y)
      else if n == 0x1 then Or(x, y)
      else if n == 0x2 then And(x, y)
      else if n == 0x3 then Xor(x, y)
      else if n == 0x4 then AddReg(x, y)
      else if n == 0x5 then Sub(x, y)
      else if n == 0x6 then Shr(x)
      else if n == 0x7 then Subn(x, y)
      else if n == 0xE then Shl(x)
      else Unassigned
    else if h == 0x9 then SneReg(x, y)
    else if h == 0xA then Ldi(nnn)
    else if h == 0xB then JpV0(nnn)
    else if h == 0xC then Rnd(x, nn)
    else if h == 0xD then Drw(x, y, n)
    else if h == 0xE then
      if nn == 0x9E then Skp(x) else if nn == 0xA1 then Sknp(x) else Unassigned
    else
      if nn == 0x07 then LdDelay(x)
      else if nn == 0x0A then Ldk(x)
      else if nn == 0x15 then SetDelay(x)
      else if nn == 0x18 then SetSound(x)
      else if nn == 0x1E then AddI(x)
      else if nn == 0x29 then Fnt(x)
      else if nn == 0x33 then Bcd(x)
      else if nn == 0x55 then Str(x)
      else if nn == 0x65 then Ldr(x)
      else Unassigned
  }


  function Decode(w: Word): (instr: Instr)
    ensures instr.Unassigned? <==> IsUnassigned(w)
  {
    WordFields(w);
    Dispatch(High(w), X(w), Y(w), N(w))
  }

  /** The nibbles `H X Y N` of an instruction's canonical word: fields
      the dispatch ignores are zero. */
  function Parts(instr: Instr): (Nibble, Nibble, Nibble, Nibble)
    requires !instr.Unassigned?
  {
    match instr
    case Cls => (0, 0, 0xE, 0x0)
    case Ret => (0, 0, 0xE, 0xE)
    case Jp(nnn) => (0x1, nnn / 256, (nnn / 16) % 16, nnn % 16)
    case Call(nnn) => (0x2, nnn / 256, (nnn / 16) % 16, nnn % 16)
    case SeImm(x, nn) => (0x3, x, nn / 16, nn % 16)
    case SneImm(x, nn) => (0x4, x, nn / 16, nn % 16)
    case SeReg(x, y) => (0x5, x, y, 0)
    case LdImm(x, nn) => (0x6, x, nn / 16, nn % 16)
    case AddImm(x, nn) => (0x7, x, nn / 16, nn % 16)
    case LdReg(x, y) => (0x8, x, y, 0x0)
    case Or(x, y) => (0x8, x, y, 0x1)
    case And(x, y) => (0x8, x, y, 0x2)
    case Xor(x, y) => (0x8, x, y, 0x3)
    case AddReg(x, y) => (0x8, x, y, 0x4)
    case Sub(x, y) => (0x8, x, y, 0x5)
    case Shr(x) => (0x8, x, 0, 0x6)
    case Subn(x, y) => (0x8, x, y, 0x7)
    case Shl(x) => (0x8, x, 0, 0xE)
    case SneReg(x, y) => (0x9, x, y, 0)
    case Ldi(nnn) => (0xA, nnn / 256, (nnn / 16) % 16, nnn % 16)
    case JpV0(nnn) => (0xB, nnn / 256, (nnn / 16) % 16, nnn % 16)
    case Rnd(x, nn) => (0xC, x, nn / 16, nn % 16)
    case Drw(x, y, n) => (0xD, x, y, n)
    case Skp(x) => (0xE, x, 0x9, 0xE)
    case Sknp(x) => (0xE, x, 0xA, 0x1)
    case LdDelay(x) => (0xF, x, 0x0, 0x7)
    case Ldk(x) => (0xF, x, 0x0, 0xA)
    case SetDelay(x) => (0xF, x, 0x1, 0x5)
    case SetSound(x) => (0xF, x, 0x1, 0x8)
    case AddI(x) => (0xF, x, 0x1, 0xE)
    case Fnt(x) => (0xF, x, 0x2, 0x9)
    case Bcd(x) => (0xF, x, 0x3, 0x3)
    case Str(x) => (0xF, x, 0x5, 0x5)
    case Ldr(x) => (0xF, x, 0x6, 0x5)
  }

  function Encode(instr: Instr): (w: Word)
    requires !instr.Unassigned?
    ensures High(w) == Parts(instr).0
  {
    var p := Parts(instr);
    Fields(p.0, p.1, p.2, p.3);
    Word4(p.0, p.1, p.2, p.3)
  }

  /** The fields of `H X Y N` are H, X, Y and N. */
  lemma Fields(h: Nibble, x: Nibble, y: Nibble, n: Nibble)
    ensures var w := Word4(h, x, y, n);
      && High(w) == h && X(w) == x && Y(w) == y && N(w) == n
      && NN(w) == y * 16 + n && NNN(w) == x * 256 + y * 16 + n
  {
    var w := Word4(h, x, y, n);
    ModUnique(w, 4096, h, x * 256 + y * 16 + n);
    ModUnique(w, 256, h * 16 + x, y * 16 + n);
    ModUnique(w / 256, 16, h, x);
    ModUnique(w, 16, h * 256 + x * 16 + y, n);
    ModUnique(w / 16, 16, h * 16 + x, y);
  }

  lemma DecodeWord4(h: Nibble, x: Nibble, y: Nibble, n: Nibble)
    ensures Decode(Word4(h, x, y, n)) == Dispatch(h, x, y, n)
  {
    Fields(h, x, y, n);
  }

  lemma DispatchParts(instr: Instr)
    requires !instr.Unassigned?
    ensures var p := Parts(instr); Dispatch(p.0, p.1, p.2, p.3) == instr
  {
    var h := Parts(instr).0;
    if instr.Jp? || instr.Call? || instr.Ldi? || instr.JpV0? {
      DispatchPartsAddr(instr);
    } else if instr.SeImm? || instr.SneImm? || instr.LdImm? || instr.AddImm? || instr.Rnd? {
      DispatchPartsImm(instr);
    } else if h == 0x8 {
      DispatchParts8(instr);
    } else if h == 0xF {
      DispatchPartsF(instr);
    } else if instr.Cls? || instr.Ret? || instr.Skp? || instr.Sknp? {
      DispatchPartsLowByte(instr);
    } else {
      DispatchPartsRegs(instr);
    }
  }

  lemma DispatchPartsAddr(instr: Instr)
    requires instr.Jp? || instr.Call? || instr.Ldi? || instr.JpV0?
    ensures var p := Parts(instr); Dispatch(p.0, p.1, p.2, p.3) == instr
  {
    SplitAddr(instr.nnn);
  }

  lemma DispatchPartsImm(instr: Instr)
    requires instr.SeImm? || instr.SneImm? || instr.LdImm? || instr.AddImm? || instr.Rnd?
    ensures var p := Parts(instr); Dispatch(p.0, p.1, p.2, p.3) == instr
  {
    SplitByte(instr.nn);
  }

  lemma DispatchParts8(instr: Instr)
    requires !instr.Unassigned? && Parts(instr).0 == 0x8
    ensures var p := Parts(instr); Dispatch(p.0, p.1, p.2, p.3) == instr
  {
  }

  lemma DispatchPartsF(instr: Instr)
    requires !instr.Unassigned? && Parts(instr).0 == 0xF
    ensures var p := Parts(instr); Dispatch(p.0, p.1, p.2, p.3) == instr
  {
  }

  lemma DispatchPartsLowByte(instr: Instr)
    requires instr.Cls? || instr.Ret? || instr.Skp? || instr.Sknp?
    ensures var p := Parts(instr); Dispatch(p.0, p.1, p.2, p.3) == instr
  {
  }

  lemma DispatchPartsRegs(instr: Instr)
    requires instr.SeReg? || instr.SneReg? || instr.Drw?
    ensures var p := Parts(instr); Dispatch(p.0, p.1, p.2, p.3) == instr
  {
  }

  lemma SplitByte(nn: Byte)
    ensures (nn / 16) * 16 + nn % 16 == nn && nn / 16 < 16
  {
  }

  lemma SplitAddr(nnn: Addr)
    ensures (nnn / 256) * 256 + ((nnn / 16) % 16) * 16 + nnn % 16 == nnn && nnn / 256 < 16
  {
    ModUnique(nnn, 16, nnn / 16, nnn % 16);
    ModUnique(nnn / 16, 16, nnn / 256, (nnn / 16) % 16);
  }

  /** Decoding the canonical word gives the instruction back. */
  lemma DecodeEncode(instr: Instr)
    requires !instr.Unassigned?
    ensures Decode(Encode(instr)) == instr
  {
    var p := Parts(instr);
    DecodeWord4(p.0, p.1, p.2, p.3);
    DispatchParts(instr);
  }

  lemma PartsDispatch(h: Nibble, x: Nibble, y: Nibble, n: Nibble)
    requires !Dispatch(h, x, y, n).Unassigned?
    ensures Parts(Dispatch(h, x, y, n)).0 == h
    ensures IgnoredZero(h, x, y, n) ==> Parts(Dispatch(h, x, y, n)) == (h, x, y, n)
  {
    if h == 0 || h == 0xE || h == 0xF {
      PartsDispatchLowByte(h, x, y, n);
    } else if h == 8 {
    } else {
      PartsDispatchMain(h, x, y, n);
    }
  }

  /** The groups that dispatch again on the low byte. */
  lemma PartsDispatchLowByte(h: Nibble, x: Nibble, y: Nibble, n: Nibble)
    requires h == 0 || h == 0xE || h == 0xF
    requires !Dispatch(h, x, y, n).Unassigned?
    ensures Parts(Dispatch(h, x, y, n)).0 == h
    ensures IgnoredZero(h, x, y, n) ==> Parts(Dispatch(h, x, y, n)) == (h, x, y, n)
  {
  }

  lemma PartsDispatchMain(h: Nibble, x: Nibble, y: Nibble, n: Nibble)
    requires h != 0 && h != 8 && h != 0xE && h != 0xF
    ensures Parts(Dispatch(h, x, y, n)).0 == h
    ensures IgnoredZero(h, x, y, n) ==> Parts(Dispatch(h, x, y, n)) == (h, x, y, n)
  {
    var nn, nnn := y * 16 + n, x * 256 + y * 16 + n;
    assert nn / 16 == y && nn % 16 == n by { ModUnique(nn, 16, y, n); }
    assert nnn / 256 == x && (nnn / 16) % 16 == y && nnn % 16 == n by {
      ModUnique(nnn, 256, x, nn);
      ModUnique(nnn, 16, x * 16 + y, n);
      ModUnique(nnn / 16, 16, x, y);
    }
  }

  /** The fields the dispatch does not look at are zero: the middle
      nibble of `0?E0` and `0?EE`, `N` of `5XYN` and `9XYN`, and `Y` of
      `8XY6` and `8XYE`. */
  predicate IgnoredZero(h: Nibble, x: Nibble, y: Nibble, n: Nibble) {
    && (h == 0x0 ==> x == 0)
    && (h == 0x5 || h == 0x9 ==> n == 0)
    && (h == 0x8 && (n == 0x6 || n == 0xE) ==> y == 0)
  }

  /** A word is canonical when it decodes to an instruction and every
      field the dispatch ignores is zero. */
  predicate Canonical(w: Word) {
    !IsUnassigned(w) && IgnoredZero(High(w), X(w), Y(w), N(w))
  }

  /** The canonical word of an instruction has its ignored fields zero. */
  lemma PartsIgnoredZero(instr: Instr)
    requires !instr.Unassigned?
    ensures var p := Parts(instr); IgnoredZero(p.0, p.1, p.2, p.3)
  {
  }

  /** Re-encoding a decoded word gives the word back exactly when the
      word is canonical; in any case the high nibble is kept. */
  lemma EncodeDecode(w: Word)
    requires !IsUnassigned(w)
    ensures High(Encode(Decode(w))) == High(w)
    ensures Encode(Decode(w)) == w <==> Canonical(w)
  {
    WordFields(w);
    var h, x, y, n := High(w), X(w), Y(w), N(w);
    PartsDispatch(h, x, y, n);
    var p := Parts(Decode(w));
    PartsIgnoredZero(Decode(w));
    Fields(p.0, p.1, p.2, p.3);
  }

  /** The middle nibble of a `0?E0` or `0?EE` word is not looked at: each of
      them is a clear or a return. */
  lemma SystemNibbleIgnored(x: Nibble)
    ensures Decode(Word4(0x0, x, 0xE, 0x0)) == Cls
    ensures Decode(Word4(0x0, x, 0xE, 0xE)) == Ret
  {
    DecodeWord4(0x0, x, 0xE, 0x0);
    DecodeWord4(0x0, x, 0xE, 0xE);
  }

  /** `N` of a `5XYN` or `9XYN` word is not looked at: each of them compares
      Vx with Vy. */
  lemma CompareNibbleIgnored(x: Nibble, y: Nibble, n: Nibble)
    ensures Decode(Word4(0x5, x, y, n)) == SeReg(x, y)
    ensures Decode(Word4(0x9, x, y, n)) == SneReg(x, y)
  {
    DecodeWord4(0x5, x, y, n);
    DecodeWord4(0x9, x, y, n);
  }

  /** `Y` of an `8XY6` or `8XYE` word is not looked at: each of them shifts
      Vx. */
  lemma ShiftNibbleIgnored(x: Nibble, y: Nibble)
    ensures Decode(Word4(0x8, x, y, 0x6)) == Shr(x)
    ensures Decode(Word4(0x8, x, y, 0xE)) == Shl(x)
  {
    DecodeWord4(0x8, x, y, 0x6);
    DecodeWord4(0x8, x, y, 0xE);
  }
}
