# turquoise-rs core, modelled in Dafny

turquoise-rs is a small drawing virtual machine. A ROM is a run of rule blocks
`count cycles opcodes...`, with 4-bit opcodes packed two to a byte, high nibble first.
Each opcode stands for one `Command`: a move, a flip, mirror, colour, draw, scale or
push/pop. A `Rule` replays its commands `cycles` times. A `Program` plays its rules one
after another.

This project models two source files:

- `src/program.rs`: the decoder (opcode table, nibble stream, rule framing) and the
  iterators over rules and programs.
- `src/cpu.rs`: the `CPU` as it is written. It is a cursor, a 272 x 192 buffer of
  booleans and a counter. Each `tick` moves the counter one cell on and lights that cell.

Modules, one per component:

| file | module | models |
|---|---|---|
| `wrappers.dfy` | `Wrappers` | Rust's `Option` and `Result` |
| `arith.dfy` | `Arith` | facts about `%` used by the counters |
| `nibbles.dfy` | `Nibbles` | `HalfBytesChunker`, `half_bytes` |
| `commands.dfy` | `Commands` | `Command`, `Command::from` |
| `rules.dfy` | `Rules` | `Rule`, `Rule::from`, `Rule::next` |
| `framing.dfy` | `Framing` | `RulesChunker`, `rules` |
| `programs.dfy` | `Programs` | `Program`, `Program::default`, `Program::from`, `Program::next` |
| `cpu.dfy` | `Cpu` | `CPU`, `CPU::new`, `CPU::tick`, `cursor`, `v_buffer` |

Each iterator that the source mutates in place is a class. Its `Next` method changes
only the fields the Rust `next` changes. Its contract ties what it returns to a pure
specification function:

- `HalfBytes`: the nibble stream;
- `Blocks`: the framed rule blocks;
- `RoundRobin` and `Repeat`: the commands a rule yields;
- `ProgramCommands`: the commands a whole ROM yields.

The lemmas beside those functions state what the source promises.

`Rule::from` and `Program::from` are constructors. Like the Rust `collect()`, they drain
the chunker iterators, so the imperative iterators themselves are proved to produce the
specification. `CollectHalfBytes` drains `half_bytes` in a loop. `CollectFrom` drains a
`RulesChunker` by recursion, one `next` call per level, and `CollectRules` starts it at
offset 0.

A `Program` holds its rules as objects, as the Rust `Vec<Rule>` does. `Program.Valid()`
says that no rule appears twice, so advancing one rule leaves the others unchanged.

Bytes are the subset type `byte` (0..255) over `int`. On a `u8`, `b & 0x0F` is `b % 16`
and `(b >> 4) & 0x0F` is `b / 16`; that is how `Low` and `High` are written. The `f64`
`ceil` at `src/program.rs:168` is the integer `(n + 1) / 2` (`BytesFor`), which is equal
for every `u8`. `usize` and `i8` values are `nat` and `int`. No overflow can occur in
the source:

- `body.len() * cycles` is at most 255 * 255;
- `pc + 1` in the CPU is at most 272 * 192.

Facts about the code that the model keeps:

- A cycle count of 0 is accepted; such a rule yields nothing.
- The CPU neither loads nor runs a program; `tick` applies no command and always returns
  `Ok(())`.
- The cursor is a pair of unsigned integers that `tick` never moves; `src/cpu.rs` has no
  flip, mirror, colour or draw state.

## Model

| member | source | states |
|---|---|---|
| `Nibbles.Unpack` | src/program.rs:81-99 | every byte gives two nibbles, so the full stream has twice as many values as there are bytes |
| `Nibbles.UnpackAt` | src/program.rs:86-98 | value k of the stream is the high nibble of byte k/2 when k is even and its low nibble when k is odd |
| `Nibbles.HalfBytes` | src/program.rs:81-109 | `half_bytes(src, n)` yields exactly n nibbles, the k-th being nibble k of `src`; it needs ceil(n/2) bytes |
| `Nibbles.HalfBytesReadsPrefix` | src/program.rs:92 | the stream depends only on the first ceil(n/2) bytes of the source |
| `Nibbles.HalfBytesOfPack` | src/program.rs:81-99 | reading back nibbles packed two per byte, high first, returns them unchanged: the stream loses nothing |
| `Nibbles.HalfBytesChunker.constructor` | src/program.rs:102-109 | `half_bytes` starts at nibble 0 with an empty stash |
| `Nibbles.HalfBytesChunker.Next` | src/program.rs:81-99 | while `i < len`, returns nibble `i` and advances `i` by one; afterwards returns `None` and changes nothing; the stash holds the pending low nibble exactly when `i` is odd; the only precondition is the index at `src/program.rs:92` |
| `Nibbles.CollectHalfBytes` | src/program.rs:47-51 | draining `half_bytes(src, n)` gives exactly `HalfBytes(src, n)` |
| `Commands.CommandFrom` | src/program.rs:12-34 | every decoded command has its payload in range: Move deltas in {-1,0,1}, Flip flags in {0,1}, Scale in {-1,1}; the inverse table maps it back to the byte's low nibble |
| `Commands.CommandFromLowNibble` | src/program.rs:14 | only the low four bits of the byte matter |
| `Commands.CommandFromInjective` | src/program.rs:14-30 | two bytes decode to the same command if and only if their low nibbles are equal |
| `Commands.OpcodeRoundTrip` | src/program.rs:14-30 | every command that the table produces decodes back from its opcode |
| `Commands.CommandFromTable` | src/program.rs:188-204 | the sixteen table entries listed by the unit test |
| `Rules.BodyOf` | src/program.rs:44-54 | `Rule::from(block)` has `block[0]` commands, the k-th decoded from nibble k of the bytes after the count and cycles bytes |
| `Rules.BodyOfReadsPrefix` | src/program.rs:45-47 | `Rule::from` reads only the `2 + ceil(count/2)` bytes its count announces |
| `Rules.BodyOfExample` | src/program.rs:208-221 | `[0x03, 0x01, 0x44, 0x50]` decodes to `Move(0,-1), Move(0,-1), Move(1,-1)`, and the trailing nibble is unused |
| `Rules.RepeatAt` | src/program.rs:65-67 | position p of `cycles` passes through the body holds `body[p % len]` |
| `Rules.RoundRobinFromStart` | src/program.rs:60-68 | a rule at `pc = 0` yields exactly `cycles` full passes through its body, in order |
| `Rules.RoundRobinEmpty` | src/program.rs:61-63 | a rule yields nothing more if and only if `pc >= len * cycles`, so an empty body or zero cycles yields nothing |
| `Rules.Rule.FromBytes` | src/program.rs:43-55 | the new rule has `cycles == block[1]`, body `BodyOf(block)` and `pc == 0`, and will yield `cycles` passes through that body |
| `Rules.Rule.Next` | src/program.rs:60-68 | while `pc < len * cycles`, returns `body[pc % len]` and advances `pc`; then returns `None` with `pc` unchanged; each call removes the first of the remaining commands |
| `Framing.BlocksWellFormed` | src/program.rs:162-181 | every framed block has a non-zero count and exactly `2 + ceil(count/2)` bytes |
| `Framing.NoBlocks` | src/program.rs:163-166 | there are no rules if and only if the ROM is empty or starts with a zero byte |
| `Framing.BlocksCover` | src/program.rs:162-173 | the blocks are the ROM's bytes laid end to end, with no gap, up to a zero count byte or the end of input |
| `Framing.BlocksOfFlatten` | src/program.rs:162-173 | well-formed blocks laid end to end, followed by nothing or a zero byte, frame back into exactly those blocks |
| `Framing.FramingExamples` | src/program.rs:223-247 | the four-byte ROM is one rule; the nine-byte ROM is three rules, split as the unit test expects |
| `Framing.RulesChunker.constructor` | src/program.rs:176-181 | `rules(source)` starts at offset 0 |
| `Framing.RulesChunker.Next` | src/program.rs:162-173 | at a zero or missing count byte, returns `None` and leaves the offset where it is; otherwise returns a fresh `Rule::from` of the block at the offset and moves the offset just past it; the precondition is the slice at `src/program.rs:169` |
| `Programs.ProgramCommandsExample` | src/program.rs:224-232 | the single-rule ROM yields its three moves once |
| `Programs.NoCommands` | src/program.rs:163-166 | a ROM that is empty or starts with `0x00` yields no command |
| `Programs.CollectFrom` | src/program.rs:158-173 | draining a chunker from its offset gives one fresh, distinct rule per block framed from that offset, in order, each `Rule::from` of its block |
| `Programs.CollectRules` | src/program.rs:127-131 | draining `rules(source)` gives one fresh, distinct rule per framed block, in order, each `Rule::from` of its block |
| `Programs.Program.Default` | src/program.rs:117-124 | the default program has no rules and yields nothing |
| `Programs.Program.FromBytes` | src/program.rs:126-135 | the decoded program has one fresh rule per framed block, in order, with `rule_pc == 0`, and will yield `ProgramCommands(source)` |
| `Programs.Program.RemainingFromBlocks` | src/program.rs:126-151 | when each rule is fresh from its block, the program yields each block's `cycles` passes through its body, rule after rule |
| `Programs.Program.Next` | src/program.rs:140-151 | returns the first remaining command of the rules from `rule_pc` on, concatenated in order, and removes it; once none remain, returns `None` and keeps returning it; `rule_pc` never decreases and never passes `rules.len()` |
| `Cpu.Initial` | src/cpu.rs:12-18 | a new CPU has a full-size buffer and its counter inside it |
| `Cpu.Step` | src/cpu.rs:20-24 | a tick keeps the counter inside the buffer, keeps the cursor and never clears a cell |
| `Cpu.Run` | src/cpu.rs:12-24 | after any number of ticks, the buffer has full size and the counter lies in `[0, WIDTH*HEIGHT)` |
| `Cpu.RunClosedForm` | src/cpu.rs:12-22 | after k ticks the counter is `k mod (WIDTH*HEIGHT)` and the cursor is `(136, 96)`; the lit cells are `1..k`, or all cells once `k >= WIDTH*HEIGHT` |
| `Cpu.CellZeroLitLast` | src/cpu.rs:21-22 | cell 0 stays clear until tick number `WIDTH*HEIGHT`, because the counter is incremented before the write |
| `Cpu.CPU.constructor` | src/cpu.rs:12-18 | cursor `(136, 96)`, every cell `false`, `pc == 0` |
| `Cpu.CPU.Tick` | src/cpu.rs:20-24 | `pc` becomes `(pc + 1) mod (WIDTH*HEIGHT)`, exactly that cell becomes `true`, and all else is unchanged; the result is always `Ok(())` |
| `Cpu.CPU.Cursor` | src/cpu.rs:26-28 | returns the cursor |
| `Cpu.CPU.VBuffer` | src/cpu.rs:30-32 | returns the video buffer itself |

## Left out

- `src/vm.rs`: canvas rendering and the `requestAnimationFrame` loop. These are host
  presentation and scheduling, not logic.
- `src/wasm.rs`: wrappers over the browser's DOM and canvas APIs, which are not part of
  this model.
- `src/lib.rs`: `wasm_bindgen` entry points only.
- Panics from slicing or indexing past the end of a source (`src/program.rs:45-47, 92,
  169`) are preconditions, not modelled failures:
  - `HalfBytesChunker.Next` requires the byte at `i / 2` whenever it must read one.
  - `RulesChunker.Next` requires the block at its offset to fit.
  - `Program.FromBytes` requires every block of the ROM to fit (`Framed`).
- The `f64` arithmetic at `src/program.rs:168` is replaced by integer arithmetic, which
  gives the same value for every count byte.
- The derived `Debug`, `PartialEq` and `Clone` implementations are not modelled.
  Equality of decoded rules is stated on their fields.
- `v_buffer` is an inline array in the Rust `CPU` (the struct is `Copy`). Here it is a
  reference to an `array<bool>` that the CPU owns. Aliasing of the buffer by a caller of
  `VBuffer` is not modelled.
- Flip, mirror, colour and draw semantics, painting at the cursor and `load_rom` are not
  modelled, because `src/cpu.rs` has none of them.
