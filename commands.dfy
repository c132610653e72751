/** The `Command` enum of `src/program.rs` and its 16-entry opcode table (`Command::from`). */
module Commands {
  import opened Wrappers
  import opened Nibbles

  /** One drawing instruction. Payloads are Rust `i8` (Move, Scale) and `u8` (Flip). */
  datatype Command =
    | PushPop
    | Move(dx: int, dy: int)
    | Flip(fx: int, fy: int)
    | Mirror
    | Color
    | Draw
    | Scale(s: int)

  /** The payload ranges the opcode table produces. */
  predicate PayloadInRange(c: Command)
  {
    match c
    case Move(dx, dy) => -1 <= dx <= 1 && -1 <= dy <= 1
    case Flip(fx, fy) => 0 <= fx <= 1 && 0 <= fy <= 1
    case Scale(s) => s == 1 || s == -1
    case _ => true
  }

  /**
    The opcode table read backwards: the nibble that decodes to `c`, or `None` for a
    command no opcode produces (such as `Move(0, 0)`).
  */
  function Opcode(c: Command): Option<nibble>
  {
    match c
    case PushPop => Some(0x0)
    case Move(dx, dy) =>
      if dx == 1 && dy == 0 then Some(0x1)
      else if dx == -1 && dy == 0 then Some(0x2)
      else if dx == 0 && dy == -1 then Some(0x4)
      else if dx == 1 && dy == -1 then Some(0x5)
      else if dx == -1 && dy == -1 then Some(0x6)
      else if dx == 0 && dy == 1 then Some(0x8)
      else if dx == 1 && dy == 1 then Some(0x9)
      else if dx == -1 && dy == 1 then Some(0xA)
      else None
    case Flip(fx, fy) =>
      if fx == 1 && fy == 0 then Some(0x3)
      else if fx == 0 && fy == 1 then Some(0xB)
      else None
    case Mirror => Some(0x7)
    case Color => Some(0xC)
    case Draw => Some(0xD)
    case Scale(s) =>
      if s == 1 then Some(0xE)
      else if s == -1 then Some(0xF)
      else None
  }

  /**
    `Command::from(value)`: decodes the low four bits of `value`. Every result has its
    payload in range and is the command whose opcode is `value & 0x0F`.
  */
  function CommandFrom(value: byte): (c: Command)
    ensures PayloadInRange(c)
    ensures Opcode(c) == Some(Low(value))
  {
    match Low(value)
    case 0x0 => PushPop
    case 0x1 => Move(1, 0)
    case 0x2 => Move(-1, 0)
    case 0x3 => Flip(1, 0)
    case 0x4 => Move(0, -1)
    case 0x5 => Move(1, -1)
    case 0x6 => Move(-1, -1)
    case 0x7 => Mirror
    case 0x8 => Move(0, 1)
    case 0x9 => Move(1, 1)
    case 0xA => Move(-1, 1)
    case 0xB => Flip(0, 1)
    case 0xC => Color
    case 0xD => Draw
    case 0xE => Scale(1)
    case 0xF => Scale(-1)
    case _ => assert false; PushPop
  }

  /** Only the low four bits of a byte matter to the decoder. */
  lemma CommandFromLowNibble(value: byte)
    ensures CommandFrom(value) == CommandFrom(Low(value))
  {
  }

  /** Two bytes decode to the same command exactly when their low nibbles agree. */
  lemma CommandFromInjective(a: byte, b: byte)
    ensures CommandFrom(a) == CommandFrom(b) <==> Low(a) == Low(b)
  {
    if CommandFrom(a) == CommandFrom(b) {
      assert Some(Low(a)) == Opcode(CommandFrom(a)) == Some(Low(b));
    }
  }

  /** Every command that has an opcode decodes back from it: the table is a bijection onto its image. */
  lemma OpcodeRoundTrip(c: Command)
    requires Opcode(c).Some?
    ensures CommandFrom(Opcode(c).value) == c
  {
  }

  /** The sixteen entries, as the unit test at src/program.rs:188-204 lists them. */
  lemma CommandFromTable()
    ensures CommandFrom(0x0) == PushPop && CommandFrom(0x1) == Move(1, 0)
    ensures CommandFrom(0x2) == Move(-1, 0) && CommandFrom(0x3) == Flip(1, 0)
    ensures CommandFrom(0x4) == Move(0, -1) && CommandFrom(0x5) == Move(1, -1)
    ensures CommandFrom(0x6) == Move(-1, -1) && CommandFrom(0x7) == Mirror
    ensures CommandFrom(0x8) == Move(0, 1) && CommandFrom(0x9) == Move(1, 1)
    ensures CommandFrom(0xA) == Move(-1, 1) && CommandFrom(0xB) == Flip(0, 1)
    ensures CommandFrom(0xC) == Color && CommandFrom(0xD) == Draw
    ensures CommandFrom(0xE) == Scale(1) && CommandFrom(0xF) == Scale(-1)
  {
  }
}
