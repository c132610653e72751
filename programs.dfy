/**
  `Program` of `src/program.rs`: the rules decoded from a ROM, iterated as one flat
  command stream, rule after rule.
*/
module Programs {
  import opened Wrappers
  import opened Nibbles
  import opened Commands
  import opened Rules
  import opened Framing

  /** The commands fresh rules decoded from `bs` yield, one rule after another. */
  function BlocksCommands(bs: seq<seq<byte>>): seq<Command>
    requires forall k :: 0 <= k < |bs| ==> HoldsRule(bs[k])
  {
    if bs == [] then [] else Repeat(BodyOf(bs[0]), bs[0][1]) + BlocksCommands(bs[1..])
  }

  /** Every command a program decoded from `source` yields, in order. */
  function ProgramCommands(source: seq<byte>): seq<Command>
    requires Framed(source, 0)
  {
    BlocksWellFormed(source, 0);
    BlocksCommands(Blocks(source, 0))
  }

  /** An empty ROM, or one whose first count byte is zero, yields no command at all. */
  lemma NoCommands(source: seq<byte>)
    requires Framed(source, 0)
    requires |source| == 0 || source[0] == 0
    ensures ProgramCommands(source) == []
  {
  }

  /** The ROM of the unit test at src/program.rs:224-232 yields its one rule's three moves, once. */
  lemma ProgramCommandsExample()
    ensures Framed([0x03, 0x01, 0x44, 0x50], 0)
    ensures ProgramCommands([0x03, 0x01, 0x44, 0x50]) == [Move(0, -1), Move(0, -1), Move(1, -1)]
  {
    FramingExamples();
    BodyOfExample();
    var bs := Blocks([0x03, 0x01, 0x44, 0x50], 0);
    assert bs[1..] == [];
    assert Repeat(BodyOf(bs[0]), 1) == BodyOf(bs[0]) + [];
  }

  /** Whether `r` is what `Rule::from(block)` returns: nothing of it consumed yet. */
  predicate IsFrom(r: Rule, block: seq<byte>)
    reads r
  {
    HoldsRule(block) && r.cycles == block[1] && r.body == BodyOf(block) && r.pc == 0
  }

  /**
    Drains `chunker`, mapping each block through `Rule::from`: one fresh rule per block
    framed from the chunker's offset on, in order.
  */
  method CollectFrom(chunker: RulesChunker) returns (decoded: seq<Rule>)
    requires Framed(chunker.source, chunker.i)
    modifies chunker`i
    ensures |decoded| == |Blocks(chunker.source, old(chunker.i))|
    ensures forall k :: 0 <= k < |decoded| ==>
      fresh(decoded[k]) && IsFrom(decoded[k], Blocks(chunker.source, old(chunker.i))[k])
    ensures forall a, b :: 0 <= a < b < |decoded| ==> decoded[a] != decoded[b]
    decreases |chunker.source| - chunker.i
  {
    ghost var start := chunker.i;
    var next := chunker.Next();
    if next.None? {
      return [];
    }
    BlocksStep(chunker.source, start);
    ghost var blocks := Blocks(chunker.source, start);
    ghost var later := Blocks(chunker.source, chunker.i);
    assert IsFrom(next.value, blocks[0]);
    var rest := CollectFrom(chunker);
    decoded := [next.value] + rest;
    forall k | 0 <= k < |decoded|
      ensures fresh(decoded[k]) && IsFrom(decoded[k], blocks[k])
    {
      if k > 0 {
        assert decoded[k] == rest[k - 1] && blocks[k] == later[k - 1];
      }
    }
  }

  /** `rules(source).map(Rule::from).collect()`. */
  method CollectRules(source: seq<byte>) returns (decoded: seq<Rule>)
    requires Framed(source, 0)
    ensures |decoded| == |Blocks(source, 0)|
    ensures forall k :: 0 <= k < |decoded| ==> fresh(decoded[k]) && IsFrom(decoded[k], Blocks(source, 0)[k])
    ensures forall a, b :: 0 <= a < b < |decoded| ==> decoded[a] != decoded[b]
  {
    var chunker := new RulesChunker(source);
    decoded := CollectFrom(chunker);
  }

  /** The `Program` iterator. */
  class Program {
    var rules: seq<Rule>
    var rulePc: nat

    /** `rule_pc` never passes the end, and the program owns each of its rules once. */
    ghost predicate Valid()
      reads this
    {
      && rulePc <= |rules|
      && forall a, b :: 0 <= a < b < |rules| ==> rules[a] != rules[b]
    }

    /** The rules at index `j` and after. */
    function RulesFrom(j: nat): set<Rule>
      reads this`rules
    {
      set k | j <= k < |rules| :: rules[k]
    }

    /** What the rules from index `j` on still yield, concatenated in order. */
    ghost function RemainingFrom(j: nat): seq<Command>
      reads this`rules, RulesFrom(j)
      decreases |rules| - j
    {
      if j >= |rules| then [] else rules[j].Remaining() + RemainingFrom(j + 1)
    }

    /** The commands this program has still to yield. */
    ghost function Remaining(): seq<Command>
      reads this, RulesFrom(rulePc)
    {
      RemainingFrom(rulePc)
    }

    /** `Program::default()`: no rules. */
    constructor Default()
      ensures Valid() && rules == [] && rulePc == 0
      ensures Remaining() == []
    {
      rules := [];
      rulePc := 0;
    }

    /**
      `Program::from(source)`: the rules of `rules(source)` collected in order, each
      `Rule::from` of its block, starting at the first rule.
    */
    constructor FromBytes(source: seq<byte>)
      requires Framed(source, 0)
      ensures Valid() && rulePc == 0
      ensures |rules| == |Blocks(source, 0)|
      ensures forall k :: 0 <= k < |rules| ==> fresh(rules[k]) && IsFrom(rules[k], Blocks(source, 0)[k])
      ensures Remaining() == ProgramCommands(source)
    {
      var decoded := CollectRules(source);
      rules := decoded;
      rulePc := 0;
      new;
      BlocksWellFormed(source, 0);
      RemainingFromBlocks(0, Blocks(source, 0));
    }

    /** With every rule fresh and decoded from `bs`, what remains is the commands of `bs`. */
    lemma {:induction false} RemainingFromBlocks(j: nat, bs: seq<seq<byte>>)
      requires |bs| == |rules| && j <= |rules|
      requires forall k :: 0 <= k < |bs| ==> HoldsRule(bs[k])
      requires forall k :: 0 <= k < |rules| ==> IsFrom(rules[k], bs[k])
      ensures RemainingFrom(j) == BlocksCommands(bs[j..])
      decreases |rules| - j
    {
      if j < |rules| {
        RemainingFromBlocks(j + 1, bs);
        RoundRobinFromStart(rules[j].body, rules[j].cycles);
        assert bs[j..][1..] == bs[j + 1..];
      }
    }

    /**
      `Program::next`: the next command of the current rule; when that rule is
      exhausted, move `rule_pc` to the next rule and try again; `None` once past the
      last rule.
    */
    method Next() returns (r: Option<Command>)
      requires Valid()
      modifies this`rulePc, RulesFrom(rulePc)`pc
      ensures Valid() && rules == old(rules)
      ensures old(rulePc) <= rulePc
      ensures old(Remaining()) == [] ==> r == None && Remaining() == []
      ensures old(Remaining()) != [] ==> r == Some(old(Remaining())[0]) && Remaining() == old(Remaining())[1..]
      decreases |rules| - rulePc
    {
      if rulePc >= |rules| {
        return None;
      }
      ghost var p := rulePc;
      ghost var rest := RemainingFrom(p + 1);
      ghost var head := rules[p].Remaining();
      assert old(Remaining()) == head + rest;
      assert rules[p] !in RulesFrom(p + 1);
      var cmd := rules[rulePc].Next();
      assert RemainingFrom(p + 1) == rest;
      if cmd.Some? {
        return cmd;
      }
      rulePc := rulePc + 1;
      assert head == [];
      assert Remaining() == rest == old(Remaining());
      r := Next();
    }
  }
}
