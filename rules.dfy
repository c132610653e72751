/**
  `Rule` of `src/program.rs`: a body of commands decoded from one rule block, replayed
  `cycles` times by an iterator that keeps a single position counter `pc`.
*/
module Rules {
  import opened Wrappers
  import opened Nibbles
  import opened Commands
  import Arith

  /** `.map(Command::from)` over a nibble stream. */
  function DecodeAll(ns: seq<nibble>): seq<Command>
  {
    seq(|ns|, k requires 0 <= k < |ns| => CommandFrom(ns[k]))
  }

  /** A rule block is long enough for `Rule::from`: count, cycles, then ceil(count / 2) opcode bytes. */
  predicate HoldsRule(block: seq<byte>)
  {
    2 <= |block| && BytesFor(block[0]) <= |block| - 2
  }

  /**
    The body `Rule::from(block)` decodes: `block[0]` commands, the `k`-th decoded from
    nibble `k` of the opcode bytes after the count and cycles bytes.
  */
  function BodyOf(block: seq<byte>): (body: seq<Command>)
    requires HoldsRule(block)
    ensures |body| == block[0]
    ensures forall k :: 0 <= k < |body| ==> body[k] == CommandFrom(NibbleAt(block[2..], k))
  {
    DecodeAll(HalfBytes(block[2..], block[0]))
  }

  /** `Rule::from` reads nothing past the bytes its count announces. */
  lemma BodyOfReadsPrefix(a: seq<byte>, b: seq<byte>)
    requires HoldsRule(a) && 2 + BytesFor(a[0]) <= |b|
    requires a[..2 + BytesFor(a[0])] == b[..2 + BytesFor(a[0])]
    ensures HoldsRule(b) && a[1] == b[1] && BodyOf(a) == BodyOf(b)
  {
    var m := 2 + BytesFor(a[0]);
    assert a[0] == a[..m][0] == b[..m][0] == b[0];
    assert a[1] == a[..m][1] == b[..m][1] == b[1];
    assert a[2..][..m - 2] == a[..m][2..] == b[..m][2..] == b[2..][..m - 2];
    HalfBytesReadsPrefix(a[2..], b[2..], a[0]);
  }

  /** The unit test at src/program.rs:208-221: three commands, one cycle; the trailing low nibble is ignored. */
  lemma BodyOfExample()
    ensures HoldsRule([0x03, 0x01, 0x44, 0x50])
    ensures BodyOf([0x03, 0x01, 0x44, 0x50]) == [Move(0, -1), Move(0, -1), Move(1, -1)]
  {
    var block: seq<byte> := [0x03, 0x01, 0x44, 0x50];
    assert block[2..] == [0x44, 0x50];
    assert NibbleAt(block[2..], 0) == 4 && NibbleAt(block[2..], 1) == 4 && NibbleAt(block[2..], 2) == 5;
  }

  /** `cycles` full passes through `body`: the reference order a fresh rule yields. */
  function Repeat(body: seq<Command>, cycles: nat): (r: seq<Command>)
    ensures |r| == |body| * cycles
  {
    if cycles == 0 then [] else body + Repeat(body, cycles - 1)
  }

  /**
    What a rule at position `pc` still yields: the positions `pc .. |body| * cycles` of
    the logical sequence, position `p` holding `body[p % |body|]`.
  */
  function RoundRobin(body: seq<Command>, cycles: nat, pc: nat): seq<Command>
  {
    if pc >= |body| * cycles then []
    else seq(|body| * cycles - pc, k requires 0 <= k < |body| * cycles - pc => body[(pc + k) % |body|])
  }

  lemma {:induction false} RepeatAt(body: seq<Command>, cycles: nat, p: nat)
    requires p < |body| * cycles
    ensures Repeat(body, cycles)[p] == body[p % |body|]
  {
    if p >= |body| {
      RepeatAt(body, cycles - 1, p - |body|);
      Arith.ModShift(p, |body|);
    }
  }

  /** A fresh rule yields its body `cycles` times over, in order, and nothing more. */
  lemma RoundRobinFromStart(body: seq<Command>, cycles: nat)
    ensures RoundRobin(body, cycles, 0) == Repeat(body, cycles)
  {
    var r := RoundRobin(body, cycles, 0);
    forall p | 0 <= p < |r| ensures r[p] == Repeat(body, cycles)[p] {
      RepeatAt(body, cycles, p);
    }
  }

  /** An empty body or zero cycles yields nothing, whatever `pc` is. */
  lemma RoundRobinEmpty(body: seq<Command>, cycles: nat, pc: nat)
    ensures RoundRobin(body, cycles, pc) == [] <==> pc >= |body| * cycles
  {
  }

  /** The `Rule` iterator. */
  class Rule {
    var cycles: nat
    var body: seq<Command>
    var pc: nat

    /** Length of the logical sequence: `body.len() * cycles`. */
    function Total(): nat
      reads this
    {
      |body| * cycles
    }

    /** The commands this rule has still to yield. */
    function Remaining(): seq<Command>
      reads this
    {
      RoundRobin(body, cycles, pc)
    }

    /**
      `Rule::from(block)`: the count byte, the cycles byte, then the body collected from
      `half_bytes` mapped through `Command::from`.
    */
    constructor FromBytes(block: seq<byte>)
      requires HoldsRule(block)
      ensures cycles == block[1] && body == BodyOf(block) && pc == 0
      ensures Remaining() == Repeat(BodyOf(block), block[1])
    {
      var len := block[0];
      var nibbles := CollectHalfBytes(block[2..], len);
      cycles := block[1];
      body := DecodeAll(nibbles);
      pc := 0;
      new;
      RoundRobinFromStart(body, cycles);
    }

    /**
      `Rule::next`: `body[pc % body.len()]` while `pc < body.len() * cycles`, advancing
      `pc`; afterwards `None`, with `pc` left where it is.
    */
    method Next() returns (r: Option<Command>)
      modifies this`pc
      ensures old(pc) < Total() ==> pc == old(pc) + 1 && r == Some(body[old(pc) % |body|])
      ensures old(pc) >= Total() ==> pc == old(pc) && r == None
      ensures old(Remaining()) == [] ==> r == None && Remaining() == []
      ensures old(Remaining()) != [] ==> r == Some(old(Remaining())[0]) && Remaining() == old(Remaining())[1..]
    {
      if pc >= |body| * cycles {
        return None;
      }
      var i := pc % |body|;
      pc := pc + 1;
      r := Some(body[i]);
    }
  }
}
