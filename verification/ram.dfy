/** The memory of the machine.

    The 4096-byte address space is split in three regions: the 80 bytes of
    font sprites at [0x000, 0x050), zero padding up to 0x200, and the
    general region from 0x200 on, backed by a 3584-byte store into which the
    program image is copied.  Reads and writes are bounded by 0xFFF, one
    short of the store's end: its last byte can be loaded but is never read
    or written afterwards.
 */
module Ram {
  import opened Bits
  import opened Errors

  const MemSize := 3584
  const FontSize := 80
  const FontEnd := 0x050
  const ProgramStart := 0x200
  const MemEnd := 0xFFF

  type Mem = s: seq<Byte> | |s| == MemSize witness seq(MemSize, _ => 0)
  type Font = s: seq<Byte> | |s| == FontSize witness seq(FontSize, _ => 0)

  datatype Ram = Ram(mem: Mem, fnt: Font)

  /** The bytes every readable address holds: the font, the zero padding,
      then the general region (without its unreachable last byte). */
  ghost function Image(r: Ram): (img: seq<Byte>)
    ensures |img| == MemEnd
  {
    r.fnt + seq(ProgramStart - FontEnd, _ => 0) + r.mem[..MemEnd - ProgramStart]
  }

  /** A fresh memory: the given font, and a zeroed general region. */
  function New(font: Font): (r: Ram)
    ensures r.fnt == font
    ensures forall a :: ProgramStart <= a < MemEnd ==> Image(r)[a] == 0
  {
    Ram(seq(MemSize, _ => 0), font)
  }

  function Read(r: Ram, addr: Word): (res: Result<Byte>)
    ensures res.Ok? <==> addr < MemEnd
    ensures res.Ok? ==> res.value == Image(r)[addr]
    ensures res.Err? ==> res.error == OutOfBounds
  {
    if 0 <= addr < FontEnd then Ok(r.fnt[addr])
    else if FontEnd <= addr < ProgramStart then Ok(0)
    else if ProgramStart <= addr < MemEnd then Ok(r.mem[addr - 512])
    else Err(OutOfBounds)
  }

  function Write(r: Ram, addr: Word, data: Byte): (res: Result<Ram>)
    ensures addr < ProgramStart ==> res == Err(ReservedRegion)
    ensures addr >= MemEnd ==> res == Err(OutOfBounds)
    ensures ProgramStart <= addr < MemEnd ==> res.Ok?
    ensures res.Ok? ==> Image(res.value) == Image(r)[addr := data]
    ensures res.Ok? ==> res.value.fnt == r.fnt
    ensures res.Ok? ==> res.value.mem[MemSize - 1] == r.mem[MemSize - 1]
  {
    if 0 <= addr < ProgramStart then Err(ReservedRegion)
    else if ProgramStart <= addr < MemEnd then Ok(r.(mem := r.mem[addr - 512 := data]))
    else Err(OutOfBounds)
  }

  /** The copy loop of LoadRom, from index `i` on. */
  function CopyFrom(mem: Mem, rom: seq<Byte>, i: nat): (m: Mem)
    requires i <= |rom| <= MemSize
    ensures forall k :: 0 <= k < i ==> m[k] == mem[k]
    ensures forall k :: i <= k < |rom| ==> m[k] == rom[k]
    ensures forall k :: |rom| <= k < MemSize ==> m[k] == mem[k]
    decreases |rom| - i
  {
    if i == |rom| then mem else CopyFrom(mem[i := rom[i]], rom, i + 1)
  }

  /** Copies a program image to the start of the general region.  The rest
      of the region keeps whatever it held. */
  function LoadRom(r: Ram, rom: seq<Byte>): (res: Result<Ram>)
    ensures res.Err? <==> |rom| > MemSize
    ensures res.Err? ==> res.error == ImageTooLarge
    ensures res.Ok? ==> res.value.fnt == r.fnt
    ensures res.Ok? ==> res.value.mem[..|rom|] == rom
    ensures res.Ok? ==> res.value.mem[|rom|..] == r.mem[|rom|..]
  {
    if |rom| > MemSize then Err(ImageTooLarge)
    else Ok(r.(mem := CopyFrom(r.mem, rom, 0)))
  }

  /** After a successful write, the written address reads back the new byte
      and every other address reads as before. */
  lemma ReadAfterWrite(r: Ram, addr: Word, data: Byte, other: Word)
    requires Write(r, addr, data).Ok?
    ensures Read(Write(r, addr, data).value, addr) == Ok(data)
    ensures other != addr ==> Read(Write(r, addr, data).value, other) == Read(r, other)
  {
  }

  /** The loaded image is visible at 0x200 on, except for a byte that would
      sit at 0xFFF. */
  lemma ReadAfterLoad(r: Ram, rom: seq<Byte>, i: nat)
    requires LoadRom(r, rom).Ok? && i < |rom| && ProgramStart + i < MemEnd
    ensures Read(LoadRom(r, rom).value, ProgramStart + i) == Ok(rom[i])
  {
    var r' := LoadRom(r, rom).value;
    assert r'.mem[i] == r'.mem[..|rom|][i];
  }

  /** The byte at the end of the store is never observed by a read. */
  lemma LastByteUnreadable(r: Ram, b: Byte, addr: Word)
    ensures Read(r.(mem := r.mem[MemSize - 1 := b]), addr) == Read(r, addr)
  {
  }
}
