/**
  Rule framing of `src/program.rs` (`RulesChunker`, `rules`): a ROM is a run of rule
  blocks `count cycles opcodes...`, ended by a zero count byte or by the end of input.
*/
module Framing {
  import opened Wrappers
  import opened Nibbles
  import opened Rules

  /** Bytes one rule block with `count` commands occupies (src/program.rs:168): ceil(count / 2) + 2. */
  function BlockLen(count: byte): nat
  {
    BytesFor(count) + 2
  }

  /** Whether framing stops at offset `i`: no byte there, or a zero count byte. */
  predicate AtEnd(source: seq<byte>, i: nat)
  {
    i >= |source| || source[i] == 0
  }

  /**
    Every block framed from offset `i` onwards lies inside `source`, so none of the
    slices at src/program.rs:169 panics.
  */
  predicate Framed(source: seq<byte>, i: nat)
    decreases |source| - i
  {
    AtEnd(source, i) || (i + BlockLen(source[i]) <= |source| && Framed(source, i + BlockLen(source[i])))
  }

  /** A block as framing cuts it: a non-zero count and exactly the bytes that count announces. */
  predicate WellFormedBlock(block: seq<byte>)
  {
    |block| >= 2 && block[0] != 0 && |block| == BlockLen(block[0])
  }

  /** The blocks `rules(source)` yields from offset `i`, in order. */
  function Blocks(source: seq<byte>, i: nat): seq<seq<byte>>
    requires Framed(source, i)
    decreases |source| - i
  {
    if AtEnd(source, i) then []
    else [source[i..i + BlockLen(source[i])]] + Blocks(source, i + BlockLen(source[i]))
  }

  /** Every framed block has a non-zero count and exactly the bytes that count announces. */
  lemma {:induction false} BlocksWellFormed(source: seq<byte>, i: nat)
    requires Framed(source, i)
    ensures forall k :: 0 <= k < |Blocks(source, i)| ==>
      WellFormedBlock(Blocks(source, i)[k]) && HoldsRule(Blocks(source, i)[k])
    decreases |source| - i
  {
    if !AtEnd(source, i) {
      BlocksWellFormed(source, i + BlockLen(source[i]));
    }
  }

  /** One framing step: the block at offset `i`, then the blocks after it. */
  lemma BlocksStep(source: seq<byte>, i: nat)
    requires Framed(source, i) && !AtEnd(source, i)
    ensures i + BlockLen(source[i]) <= |source| && Framed(source, i + BlockLen(source[i]))
    ensures HoldsRule(source[i..i + BlockLen(source[i])])
    ensures Blocks(source, i) == [source[i..i + BlockLen(source[i])]] + Blocks(source, i + BlockLen(source[i]))
  {
  }

  /** Blocks laid end to end. */
  function Flatten(bs: seq<seq<byte>>): seq<byte>
  {
    if bs == [] then [] else bs[0] + Flatten(bs[1..])
  }

  /** A ROM with no bytes, or whose first byte is zero, holds no rule. */
  lemma NoBlocks(source: seq<byte>)
    requires Framed(source, 0)
    ensures Blocks(source, 0) == [] <==> (|source| == 0 || source[0] == 0)
  {
  }

  /**
    The framed blocks are exactly the bytes of `source` from `i`, laid end to end, up to
    an offset where framing stops.
  */
  lemma {:induction false} BlocksCover(source: seq<byte>, i: nat)
    requires Framed(source, i) && i <= |source|
    ensures i + |Flatten(Blocks(source, i))| <= |source|
    ensures source[i..i + |Flatten(Blocks(source, i))|] == Flatten(Blocks(source, i))
    ensures AtEnd(source, i + |Flatten(Blocks(source, i))|)
    decreases |source| - i
  {
    if !AtEnd(source, i) {
      var j := i + BlockLen(source[i]);
      BlocksCover(source, j);
      var bs := Blocks(source, i);
      assert bs[1..] == Blocks(source, j);
      assert Flatten(bs) == source[i..j] + Flatten(Blocks(source, j));
      assert source[i..j + |Flatten(Blocks(source, j))|]
          == source[i..j] + source[j..j + |Flatten(Blocks(source, j))|];
    }
  }

  /** Framing `source` from offset `i + d` sees the same blocks as framing `source[i..]` from `d`. */
  lemma {:induction false} BlocksShift(source: seq<byte>, i: nat, d: nat)
    requires i <= |source|
    ensures Framed(source, i + d) <==> Framed(source[i..], d)
    ensures Framed(source, i + d) ==> Blocks(source, i + d) == Blocks(source[i..], d)
    decreases |source| - (i + d)
  {
    var s := source[i..];
    if !AtEnd(source, i + d) {
      assert s[d] == source[i + d];
      var len := BlockLen(source[i + d]);
      if i + d + len <= |source| {
        BlocksShift(source, i, d + len);
        assert s[d..d + len] == source[i + d..i + d + len];
      }
    }
  }

  lemma FlattenCons(bs: seq<seq<byte>>, tail: seq<byte>)
    requires bs != []
    ensures Flatten(bs) + tail == bs[0] + (Flatten(bs[1..]) + tail)
  {
  }

  /** A well-formed block in front of `rest` frames as that block, then the blocks of `rest`. */
  lemma BlocksCons(b: seq<byte>, rest: seq<byte>)
    requires WellFormedBlock(b)
    ensures Framed(b + rest, 0) <==> Framed(rest, 0)
    ensures Framed(rest, 0) ==> Blocks(b + rest, 0) == [b] + Blocks(rest, 0)
  {
    var s := b + rest;
    assert s[0] == b[0] && BlockLen(s[0]) == |b|;
    assert s[..|b|] == b && s[|b|..] == rest;
    BlocksShift(s, |b|, 0);
  }

  /**
    Laying well-formed blocks end to end, followed by nothing or by a zero byte, gives a
    ROM that frames back into exactly those blocks.
  */
  lemma {:induction false} BlocksOfFlatten(bs: seq<seq<byte>>, tail: seq<byte>)
    requires forall k :: 0 <= k < |bs| ==> WellFormedBlock(bs[k])
    requires tail == [] || tail[0] == 0
    ensures Framed(Flatten(bs) + tail, 0) && Blocks(Flatten(bs) + tail, 0) == bs
  {
    if bs != [] {
      var rest := Flatten(bs[1..]) + tail;
      assert Framed(rest, 0) && Blocks(rest, 0) == bs[1..] by {
        BlocksOfFlatten(bs[1..], tail);
      }
      assert Flatten(bs) + tail == bs[0] + rest by {
        FlattenCons(bs, tail);
      }
      assert Framed(bs[0] + rest, 0) && Blocks(bs[0] + rest, 0) == [bs[0]] + bs[1..] by {
        BlocksCons(bs[0], rest);
      }
      assert [bs[0]] + bs[1..] == bs;
    }
  }

  /**
    The unit tests at src/program.rs:223-247: a four-byte ROM is one rule; a nine-byte ROM of
    three one-command blocks is three rules.
  */
  lemma FramingExamples()
    ensures Framed([0x03, 0x01, 0x44, 0x50], 0)
    ensures Blocks([0x03, 0x01, 0x44, 0x50], 0) == [[0x03, 0x01, 0x44, 0x50]]
    ensures Framed([0x01, 0x01, 0xd0, 0x01, 0x40, 0x20, 0x01, 0x10, 0x80], 0)
    ensures Blocks([0x01, 0x01, 0xd0, 0x01, 0x40, 0x20, 0x01, 0x10, 0x80], 0)
         == [[0x01, 0x01, 0xd0], [0x01, 0x40, 0x20], [0x01, 0x10, 0x80]]
  {
    var one: seq<seq<byte>> := [[0x03, 0x01, 0x44, 0x50]];
    assert Flatten(one) == [0x03, 0x01, 0x44, 0x50];
    BlocksOfFlatten(one, []);
    var three: seq<seq<byte>> := [[0x01, 0x01, 0xd0], [0x01, 0x40, 0x20], [0x01, 0x10, 0x80]];
    assert Flatten(three[2..]) == [0x01, 0x10, 0x80];
    assert Flatten(three[1..]) == [0x01, 0x40, 0x20, 0x01, 0x10, 0x80];
    assert Flatten(three) + [] == [0x01, 0x01, 0xd0, 0x01, 0x40, 0x20, 0x01, 0x10, 0x80];
    BlocksOfFlatten(three, []);
  }

  /** The `RulesChunker` iterator: `i` is the offset of the next count byte. */
  class RulesChunker {
    var source: seq<byte>
    var i: nat

    /** `rules(source)`. */
    constructor (source: seq<byte>)
      ensures this.source == source && i == 0
    {
      this.source := source;
      i := 0;
    }

    /**
      `RulesChunker::next`: at a zero or missing count byte, `None` (and `i` stays, so
      every later call is `None` too); otherwise the rule decoded from the block at `i`,
      and `i` moves just past that block.
    */
    method Next() returns (r: Option<Rule>)
      requires !AtEnd(source, i) ==> i + BlockLen(source[i]) <= |source|
      modifies this`i
      ensures AtEnd(source, old(i)) ==> r == None && i == old(i)
      ensures !AtEnd(source, old(i)) ==>
        && i == old(i) + BlockLen(source[old(i)])
        && r.Some? && fresh(r.value)
        && r.value.cycles == source[old(i) + 1]
        && r.value.body == BodyOf(source[old(i)..i])
        && r.value.pc == 0
    {
      var count := if i < |source| then source[i] else 0;
      if count <= 0 {
        return None;
      }
      var len: nat := (count as int + 1) / 2 + 1 + 1;
      var rule := new Rule.FromBytes(source[i..i + len]);
      i := i + len;
      r := Some(rule);
    }
  }
}
