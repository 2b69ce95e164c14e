# CHIP-8 interpreter core, modelled in Dafny

This project models the core of a CHIP-8 interpreter written in Go. The core covers:

- the processor state and its fetch-decode-execute step;
- the 34 instruction handlers;
- the 4 KiB memory with its font, padding and program regions;
- the 64 x 32 XOR framebuffer;
- the sixteen-key keypad.

The model keeps the Go integer widths explicitly:

- registers and timers are bytes in 0..255;
- `pc` and `I` are 16-bit words;
- every place where Go's `uint8` or `uint16` arithmetic wraps is written as a `% 256` or `% 65536`.

Go's `&`, `|` and `^` are modelled bit by bit (`Bits.Zip`). A panic in the Go code (a memory access refused by the RAM) becomes an error result.

Modules:

- `Bits`: integer widths, and bitwise operators defined bit by bit.
- `Errors`: the memory errors and a `Result` type.
- `Ram`: the memory, with `Read`, `Write` and `LoadRom`. The ghost `Image` is the 0xFFF readable bytes.
- `Display`: the framebuffer, with `Clear` and the sprite `Draw` loop, plus its closed form.
- `Keyboard`: the key bitmask, `IsPressed`, and the event poll `PollEvents`.
- `CpuState`: the registers, stack, index, timers and `pc`, plus the timer tick.
- `Opcodes`: one function per instruction handler. Each runs on the state after `pc` has been advanced.
- `Instructions`: the decoder from a 16-bit word to an instruction (the `switch` of `ExecuteInstruction`), and an encoder that it inverts.
- `Interpreter`: the machine, `Fetch`, and one `Step`.

Behaviour reproduced as the Go code has it:

- `8XY6` and `8XYE` write VF before they read Vx again. With x = F, `8XY6` leaves VF = 0, and `8XYE` leaves VF = 0 or 2.
- `8XY4`, `8XY5` and `8XY7` write Vx and then VF, so with x = F the flag wins.
- `8XY5` and `8XY7` set VF only on strictly greater.
- `00EE` on an empty stack does nothing.
- `FX29` does not mask Vx.
- `BNNN` adds V0 without wrapping.
- The system instructions ignore the middle nibble (`Instructions.SystemNibbleIgnored`).
- `5XYN` and `9XYN` accept any N (`Instructions.CompareNibbleIgnored`).
- `8XY6` and `8XYE` accept any Y (`Instructions.ShiftNibbleIgnored`).
- Reads and writes stop at 0xFFF, one short of the end of the 3584-byte program store. The last byte of the store can be loaded from a ROM but is never read back (`Ram.LastByteUnreadable`).
- The draw handler passes Vy as the framebuffer's row coordinate and Vx as its column coordinate. The net effect is the usual one: Vx is horizontal and Vy is vertical.

## Model

| member | source | states |
|---|---|---|
| Ram.New | ram/ram.go:13-28 | a fresh memory holds exactly the given font, and every address of the general region reads 0 |
| Ram.Read | ram/ram.go:51-61 | a read succeeds iff the address is below 0xFFF. It yields the font below 0x50, zero up to 0x200, and the program store after that. Any other address is OutOfBounds |
| Ram.Write | ram/ram.go:63-72 | addresses below 0x200 are ReservedRegion and those at 0xFFF or above are OutOfBounds. Otherwise exactly the written address changes in the readable image, and the font is kept |
| Ram.CopyFrom | ram/ram.go:44-46 | the copy loop puts the ROM bytes at the start of the store and leaves every later byte as it was |
| Ram.LoadRom | ram/ram.go:30-49 | loading fails with ImageTooLarge iff the image is longer than 3584 bytes. Otherwise the store starts with the image, the rest of the store is not cleared, and the font is kept |
| Ram.ReadAfterWrite | ram/ram.go:51-72 | after a successful write, the address reads back the written byte and every other address reads as before |
| Ram.ReadAfterLoad | ram/ram.go:44-57 | each loaded byte at or below 0xFFE reads back at 0x200 plus its offset |
| Ram.LastByteUnreadable | ram/ram.go:56-60 | changing the last byte of the store changes no read |
| Display.Clear | display/display.go:42-44 | every pixel is off |
| Display.Draw | display/display.go:46-69 | for a sprite of at most 32 rows, a pixel flips iff a set sprite bit lands on it, wrapping at 32 rows and 64 columns. The result is true iff a set bit lands on a lit pixel |
| Display.DrawBitsGrid | display/display.go:54-63 | the per-row loop flips exactly the pixels of that row covered by set bits |
| Display.DrawBitsCollision | display/display.go:57-61 | the per-row loop reports a collision iff a set bit lands on a lit pixel of that row |
| Display.DrawRowsGrid | display/display.go:50-66 | the row loop flips exactly the covered pixels |
| Display.DrawRowsCollision | display/display.go:50-68 | the row loop reports a collision iff some set bit lands on a lit pixel |
| Display.SpriteBitIsBit | display/display.go:57 | the mask test `row & (0x80 >> j)` reads bit 7 - j of the sprite row |
| Display.DrawTwiceRestores | display/display.go:58 | drawing the same sprite twice at the same place restores the grid |
| Display.DrawTwiceCollision | display/display.go:57-61 | the second of two identical draws collides iff a set bit lands on a pixel that was off before the first |
| Display.CollisionMeansSwitchedOff | display/display.go:57-61 | the collision result is true iff some pixel went from on to off |
| Display.BlankSpriteNoop | display/display.go:46-69 | an all-zero sprite of any height changes nothing and reports no collision |
| Display.DrawWrapsAround | display/display.go:51-55 | a full two-row sprite drawn at row 31, column 63 flips exactly the pixels of rows 31 and 0 in columns 63 and 0 to 6. Every other pixel of the grid is unchanged |
| Keyboard.KeyIndex | keyboard/keyboard.go:49 | `key & 0x0F` is the key number modulo 16 |
| Keyboard.IsPressed | keyboard/keyboard.go:48-53 | a key is held iff bit (key mod 16) of the key mask is set |
| Keyboard.IsPressedLowNibble | keyboard/keyboard.go:49-50 | only the low nibble of the key number matters |
| Keyboard.Press | keyboard/keyboard.go:34-37 | a key-down sets that key's bit and keeps every other bit |
| Keyboard.Release | keyboard/keyboard.go:38-39 | a key-up clears that key's bit and keeps every other bit |
| Keyboard.FirstKeyDown | keyboard/keyboard.go:26-37 | the first key-down is at the returned position, and no earlier event is a key-down |
| Keyboard.PollEvents | keyboard/keyboard.go:25-46 | see the list after this table |
| Keyboard.PollIgnoresLaterEvents | keyboard/keyboard.go:35-37 | once a poll has reported a key-down, events queued after it do not change the result; they stay queued |
| Keyboard.PollsCompose | keyboard/keyboard.go:25-45 | a poll that reports no key-down applies its key-ups and drains the queue, so a second poll on later events gives the same result as one poll over both |
| CpuState.New | cpu/cpu.go:23-27 | the power-on state: pc 0x200, empty stack, I, timers and all registers 0 |
| CpuState.DecrementTimers | cpu/cpu.go:29-41 | each positive timer drops by one and a zero timer stays zero. The buzzer result is true iff the sound timer was running. Nothing else changes |
| CpuState.TicksCountDown | cpu/cpu.go:29-41 | after n ticks each timer has dropped by n but not below zero, and the buzzer has sounded on min(sound, n) ticks |
| Opcodes.Ret | cpu/opcodes.go:10-17 | see the list after this table |
| Opcodes.Jp | cpu/opcodes.go:19-26 | pc becomes NNN and nothing else changes |
| Opcodes.JpV0 | cpu/cpu.go:128-130 | pc becomes NNN + V0 without wrapping, and nothing else changes |
| Opcodes.Call | cpu/opcodes.go:28-32 | the already-advanced pc is pushed and pc becomes NNN |
| Opcodes.CallThenRet | cpu/opcodes.go:10-32 | a return right after a call restores the state |
| Opcodes.SeImm | cpu/opcodes.go:34-41 | the next instruction is skipped (pc + 2 on 16 bits) iff Vx == NN. Only pc changes |
| Opcodes.SneImm | cpu/opcodes.go:52-59 | the next instruction is skipped iff Vx != NN. Only pc changes |
| Opcodes.SeReg | cpu/opcodes.go:42-49 | the next instruction is skipped iff Vx == Vy. Only pc changes |
| Opcodes.SneReg | cpu/opcodes.go:60-67 | the next instruction is skipped iff Vx != Vy. Only pc changes |
| Opcodes.Skp | cpu/opcodes.go:280-287 | the next instruction is skipped iff the key numbered by Vx mod 16 is held |
| Opcodes.Sknp | cpu/opcodes.go:289-296 | the next instruction is skipped iff that key is not held |
| Opcodes.SkipsComplement | cpu/opcodes.go:34-68 | of each skip and its negation, exactly one skips: together they reach pc and pc + 2 |
| Opcodes.LdImm | cpu/opcodes.go:70-76 | Vx becomes NN and nothing else changes |
| Opcodes.LdReg | cpu/opcodes.go:77-82 | Vx becomes Vy and nothing else changes |
| Opcodes.AddImm | cpu/opcodes.go:85-91 | Vx plus 256 on overflow equals the true sum. VF is untouched |
| Opcodes.AddReg | cpu/opcodes.go:92-103 | see the list after this table |
| Opcodes.Or | cpu/opcodes.go:105-110 | each bit of Vx becomes the OR of the two registers' bits |
| Opcodes.And | cpu/opcodes.go:112-117 | each bit of Vx becomes the AND of the two registers' bits |
| Opcodes.Xor | cpu/opcodes.go:119-124 | each bit of Vx becomes the XOR of the two registers' bits |
| Opcodes.XorTwice | cpu/opcodes.go:119-124 | XOR with a different register twice restores the state |
| Opcodes.OrAndIdempotent | cpu/opcodes.go:105-117 | OR and AND with the same operand are idempotent |
| Opcodes.Sub | cpu/opcodes.go:126-141 | VF == 1 iff Vx > Vy, otherwise 0. For x != F, adding Vy back to the result modulo 256 gives the old Vx. Registers other than x and F keep their values |
| Opcodes.Subn | cpu/opcodes.go:150-165 | VF == 1 iff Vy > Vx, otherwise 0. For x != F, the result plus the old Vx is Vy modulo 256 |
| Opcodes.Shr | cpu/opcodes.go:143-148 | for x != F, 2 * Vx' + VF is the old Vx. For x == F, VF ends as 0 |
| Opcodes.Shl | cpu/opcodes.go:167-172 | for x != F, Vx' + 256 * VF is twice the old Vx. For x == F, VF ends as 2 if bit 7 was set, else 0 |
| Opcodes.ShlThenShr | cpu/opcodes.go:143-172 | a left shift then a right shift clears bit 7 of Vx and leaves VF 0 |
| Opcodes.SubThenAdd | cpu/opcodes.go:92-141 | subtracting and then adding the same register restores Vx. VF ends as 1 iff the subtraction borrowed |
| Opcodes.Ldi | cpu/opcodes.go:174-177 | I becomes NNN and nothing else changes |
| Opcodes.AddI | cpu/opcodes.go:201-204 | I plus 65536 on overflow equals I + Vx, and nothing else changes |
| Opcodes.Fnt | cpu/opcodes.go:231-235 | I becomes 5 * Vx. A value of 16 or more points past the font |
| Opcodes.FntGlyph | cpu/opcodes.go:231-235 | after FX29 with a digit, the five bytes at I are that digit's glyph in the font |
| Opcodes.Rnd | cpu/opcodes.go:179-185 | each bit of Vx is the random byte's bit AND NN's bit, so no bit outside NN is set |
| Opcodes.LdDelay | cpu/opcodes.go:187-194 | Vx becomes the delay timer and nothing else changes |
| Opcodes.SetDelay | cpu/opcodes.go:187-194 | the delay timer becomes Vx and nothing else changes |
| Opcodes.SetSound | cpu/opcodes.go:196-199 | the sound timer becomes Vx and nothing else changes |
| Opcodes.DelayRoundTrip | cpu/opcodes.go:187-194 | reading the delay timer then storing it back, or the reverse, changes nothing further |
| Opcodes.Bcd | cpu/opcodes.go:237-251 | see the list after this table |
| Opcodes.BcdDigits | cpu/opcodes.go:237-251 | the three stored bytes are decimal digits, the first at most 2, and together they spell Vx |
| Opcodes.StoreFrom | cpu/opcodes.go:256-262 | the store loop from register k succeeds iff I+k..I+x are all writable. The failure is ReservedRegion iff the first address is reserved |
| Opcodes.Str | cpu/opcodes.go:253-263 | see the list after this table |
| Opcodes.LoadFrom | cpu/opcodes.go:268-277 | the load loop from register k succeeds iff every address (I+j) mod 65536 with k <= j <= x is readable |
| Opcodes.Ldr | cpu/opcodes.go:265-278 | see the list after this table |
| Opcodes.ReadableRange | cpu/opcodes.go:268-272 | the wrapping addresses I..I+x are all readable iff I + x < 0xFFF |
| Opcodes.StoreThenLoad | cpu/opcodes.go:253-278 | FX55 then FX65 with the same I gives back V0..Vx as stored, and keeps the registers above x |
| Opcodes.ReadSprite | cpu/opcodes.go:213-221 | the sprite is the n bytes at (I+o) mod 65536. The read fails iff one of those addresses is unreadable |
| Opcodes.Drw | cpu/opcodes.go:206-229 | see the list after this table |
| Opcodes.DrwClosedForm | cpu/opcodes.go:213-223 | the framebuffer draw of the read sprite flips exactly the pixels covered at column Vx, row Vy |
| Opcodes.Ldk | cpu/opcodes.go:298-309 | a key-down among the events ends the wait with its key in Vx and its bit set. Without one, the registers are unchanged. The keypad result meets `Keyboard.PollSpec`: key-ups before the key-down clear their bits, and the events after it stay queued |
| Instructions.Decode | cpu/cpu.go:60-176 | a word matches no case of the switch iff it is one of the unassigned patterns |
| Instructions.DecodeEncode | cpu/cpu.go:60-176 | decoding the canonical encoding of any instruction gives the instruction back |
| Instructions.EncodeDecode | cpu/cpu.go:60-176 | re-encoding a decoded word keeps its top nibble. It gives the word back exactly when every field the dispatch ignores is zero |
| Instructions.SystemNibbleIgnored | cpu/cpu.go:61-70 | 0?E0 and 0?EE decode to clear-screen and return, whatever the middle nibble |
| Instructions.CompareNibbleIgnored | cpu/cpu.go:83-124 | 5XYN and 9XYN decode to the register compares of X and Y, whatever N |
| Instructions.ShiftNibbleIgnored | cpu/cpu.go:92-121 | 8XY6 and 8XYE decode to the shifts of X, whatever Y |
| Interpreter.Boot | ram/ram.go:30-49 | see the list after this table |
| Interpreter.Fetch | cpu/cpu.go:47-58 | the fetch succeeds iff pc < 0xFFE, and the word is the big-endian pair at pc and pc + 1 |
| Interpreter.Execute | cpu/cpu.go:60-176 | only a draw, a BCD store, a register store or a register load can fault. Only FX0A can wait. Every other instruction keeps the keypad and leaves the events queued. An instruction that does not jump, call, return or skip leaves pc alone, and a skip moves it by at most one word |
| Interpreter.ExecuteCpu | cpu/cpu.go:60-176 | among the instructions that touch only processor state, only a call or a return changes the stack. Only the jumps, call and return set pc, and a skip moves it by at most one word |
| Interpreter.Step | cpu/cpu.go:43-178 | see the list after this table |
| Interpreter.FetchFault | cpu/cpu.go:47-55 | a step faults in the fetch iff pc >= 0xFFE |
| Interpreter.StepAdvancesPc | cpu/cpu.go:57-176 | pc is advanced by two before dispatch. A finished step of an instruction that does not jump, call, return or skip ends at pc + 2, and a skip ends at pc + 2 or pc + 4, each wrapping at 16 bits |
| Interpreter.WaitResumes | cpu/opcodes.go:298-309 | an FX0A step that saw no key-down can be retried with more events. The retry equals a step of the machine whose keypad has the key-ups of the first events applied, on the new events alone |
| Interpreter.UnassignedOnlyAdvances | cpu/cpu.go:60-176 | a word no case matches only advances pc by two |
| Interpreter.JumpOverridesAdvance | cpu/cpu.go:71-73 | a step on 1NNN leaves pc at NNN, discarding the advance by two |
| Interpreter.JumpWithOffsetOverridesAdvance | cpu/cpu.go:128-130 | a step on BNNN leaves pc at NNN + V0, discarding the advance by two |
| Interpreter.StackDiscipline | cpu/cpu.go:60-176 | only a call changes the stack, pushing the address after it, and only a return does, popping. Every other instruction keeps the stack |
| Interpreter.KeypadOnlyOnWait | cpu/cpu.go:146-175 | only FX0A changes the keypad state or consumes events |
| Interpreter.CallThenReturn | cpu/opcodes.go:10-32 | a step on 2NNN followed by a step on 00EE resumes after the call with the stack as before |
| Interpreter.JumpWithOffsetExample | cpu/cpu.go:128-130 | B200 at 0x200 with V0 = 2 jumps to 0x202 |

Rows whose contract has several clauses:

- `Keyboard.PollEvents`:
  - it reports the first key-down and leaves the later events queued;
  - the key-ups before it clear their bits;
  - with no key-down, it consumes everything and reports (0, false).
- `Opcodes.Ret`:
  - with an empty stack, nothing changes;
  - otherwise the top of the stack becomes pc and is popped;
  - nothing else changes.
- `Opcodes.AddReg`:
  - VF is the carry (0 or 1);
  - for x != F, Vx + 256 * VF is the true sum;
  - for x == F, VF == 1 iff the sum overflows.
- `Opcodes.Bcd`:
  - it succeeds iff 0x200 <= I and I + 2 < 0xFFF;
  - the error is OutOfBounds iff I + 2 reaches 0xFFF without wrapping;
  - I, I+1 and I+2 get the hundreds, tens and units of Vx, and nothing else changes.
- `Opcodes.Str`:
  - it succeeds iff I..I+x lies in [0x200, 0xFFF);
  - a failure is ReservedRegion iff I < 0x200;
  - I+k gets Vk and nothing else changes.
- `Opcodes.Ldr`:
  - it succeeds iff I + x < 0xFFF, and otherwise fails with OutOfBounds;
  - Vk gets the byte at I+k, and the registers above x are kept.
- `Opcodes.Drw`:
  - it succeeds iff the n sprite bytes are readable;
  - pixel (row, col) flips iff bit (col - Vx) mod 64 of sprite row (row - Vy) mod 32 is set;
  - VF == 1 iff some pixel went from on to off;
  - only VF changes among the registers.
- `Interpreter.Boot`:
  - it succeeds iff the ROM fits in 3584 bytes;
  - the processor and keypad are in their power-on state, and the font is the given one;
  - the general region holds the ROM followed by zeros.
- `Interpreter.Step`:
  - faults are only OutOfBounds or ReservedRegion;
  - waiting for a key happens only on FX0A;
  - a finished step has fetched successfully and keeps the font.

## Left out

- The buzzer (buzzer/): audio output. `CpuState.DecrementTimers` returns whether to buzz.
- main.go: the host loop, its instruction pacing, the 60 Hz timer pacing and the window refresh. The model is one `Interpreter.Step` at a time, plus `CpuState.Ticks`.
- The SDL window: `display.New`, `UpdatePicture` and the pixel scaling. Only the framebuffer is modelled.
- The font file read in `ram.New`: the 80 font bytes are a parameter of `Ram.New`.
- The ROM file read: the program image is a parameter of `Ram.LoadRom` and `Interpreter.Boot`.
- The physical-key mapping and the exit on a quit event in `PollEvents`. Events are abstracted to key-down and key-up of logical keys, plus ignored events.
- The sleep-and-poll loop of FX0A, which waits for real time to pass. `Opcodes.Ldk` takes the events of all the polls as one finite sequence. When that sequence holds no key-down, the step returns `AwaitingKey` and is to be retried with more events. `Keyboard.PollIgnoresLaterEvents` shows that extra events do not change an answer once a key-down has been seen. `Keyboard.PollsCompose` and `Interpreter.WaitResumes` show that one poll over the concatenated events equals the Go code's repeated polls, each of which drains the queue and applies its key-ups.
- The time-seeded random generator: the byte it would return is a parameter of `Interpreter.Step` and `Opcodes.Rnd`.
- Panics: a refused memory access stops the Go program. The model returns `Fault` instead, and it does not keep the partial writes that FX33 or FX55 made before the refused one.
- Display.Draw: the closed form is stated only for sprites of at most 32 rows. The draw opcode passes at most 15, and taller sprites would toggle some pixels twice.
- The stack is an unbounded sequence, as the Go slice is. No depth limit is modelled, because the Go code has none.
