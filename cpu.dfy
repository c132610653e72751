/**
  The `CPU` of `src/cpu.rs`: a cursor, a WIDTH x HEIGHT video buffer of booleans and a
  counter `pc`; each tick advances the counter around the buffer and lights that cell.
*/
module Cpu {
  import opened Wrappers
  import Arith

  const WIDTH: nat := 272
  const HEIGHT: nat := 192

  /** Cells in the video buffer. */
  const CELLS: nat := WIDTH * HEIGHT

  /** Everything a CPU holds, as one value. */
  datatype CpuState = CpuState(cursor: (nat, nat), buffer: seq<bool>, pc: nat)

  /** The buffer has one cell per pixel and the counter points into it. */
  predicate WellSized(s: CpuState)
  {
    |s.buffer| == CELLS && s.pc < CELLS
  }

  /** The state `CPU::new()` builds: cursor centred, buffer clear, counter at zero. */
  function Initial(): (s: CpuState)
    ensures WellSized(s)
  {
    CpuState((WIDTH / 2, HEIGHT / 2), seq(CELLS, _ => false), 0)
  }

  /**
    The state `CPU::tick()` leaves: the counter moves one cell on, wrapping at the end
    of the buffer, and the cell it lands on is lit; the cursor stays, and no lit cell is
    cleared.
  */
  function Step(s: CpuState): (t: CpuState)
    requires WellSized(s)
    ensures WellSized(t) && t.cursor == s.cursor
    ensures forall j :: 0 <= j < CELLS && s.buffer[j] ==> t.buffer[j]
  {
    var pc := (s.pc + 1) % CELLS;
    CpuState(s.cursor, s.buffer[pc := true], pc)
  }

  /** The state after `k` ticks of a new CPU. */
  function Run(k: nat): (s: CpuState)
    ensures WellSized(s)
  {
    if k == 0 then Initial() else Step(Run(k - 1))
  }

  /**
    After `k` ticks the counter is `k mod CELLS`, the cursor is still centred, and the
    lit cells are `1..k` until the counter has gone all the way round, then all of them.
  */
  lemma {:induction false} RunClosedForm(k: nat)
    ensures Run(k).pc == k % CELLS
    ensures Run(k).cursor == (136, 96)
    ensures forall j :: 0 <= j < CELLS ==> (Run(k).buffer[j] <==> k >= CELLS || 1 <= j <= k)
  {
    if k > 0 {
      RunClosedForm(k - 1);
      Arith.ModSucc(k - 1, CELLS);
      if k < CELLS {
        Arith.ModUnique(k, CELLS, 0, k);
      } else if k == CELLS {
        Arith.ModUnique(k, CELLS, 1, 0);
      }
    }
  }

  /** Cell 0 is the last to light: the counter is incremented before the write. */
  lemma CellZeroLitLast(k: nat)
    ensures Run(k).buffer[0] <==> k >= CELLS
  {
    RunClosedForm(k);
  }

  /** The `CPU` struct. */
  class CPU {
    var cursor: (nat, nat)
    var vBuffer: array<bool>
    var pc: nat

    ghost predicate Valid()
      reads this
    {
      vBuffer.Length == CELLS && pc < CELLS
    }

    /** The CPU as a value. */
    ghost function Snapshot(): CpuState
      reads this, vBuffer
    {
      CpuState(cursor, vBuffer[..], pc)
    }

    /** `CPU::new()`. */
    constructor ()
      ensures Valid() && fresh(vBuffer)
      ensures cursor == (136, 96) && pc == 0
      ensures forall j :: 0 <= j < CELLS ==> !vBuffer[j]
      ensures Snapshot() == Initial()
    {
      cursor := (WIDTH / 2, HEIGHT / 2);
      vBuffer := new bool[CELLS](_ => false);
      pc := 0;
      new;
      assert vBuffer[..] == seq(CELLS, _ => false);
    }

    /**
      `CPU::tick()`: `pc := (pc + 1) mod CELLS`, then `v_buffer[pc] := true`. It never
      fails.
    */
    method Tick() returns (r: Result<(), string>)
      requires Valid()
      modifies this`pc, vBuffer
      ensures Valid() && r == Ok(())
      ensures pc == (old(pc) + 1) % CELLS
      ensures vBuffer[..] == old(vBuffer[..])[pc := true]
      ensures Snapshot() == Step(old(Snapshot()))
    {
      pc := (pc + 1) % CELLS;
      vBuffer[pc] := true;
      r := Ok(());
    }

    /** `CPU::cursor()`. */
    method Cursor() returns (c: (nat, nat))
      ensures c == cursor
    {
      c := cursor;
    }

    /** `CPU::v_buffer()`: the buffer itself, for reading. */
    method VBuffer() returns (b: array<bool>)
      ensures b == vBuffer
    {
      b := vBuffer;
    }
  }
}
