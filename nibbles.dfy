/**
  The nibble stream of `src/program.rs`: `half_bytes(source, len)` yields the first
  `len` 4-bit values of a byte slice, high nibble of each byte first.
*/
module Nibbles {
  import opened Wrappers

  /** Rust `u8`. */
  type byte = x: int | 0 <= x < 256

  /** A 4-bit value, half of a byte. */
  type nibble = x: int | 0 <= x < 16

  /** `(b >> 4) & 0x0F` on a `u8`. */
  function High(b: byte): nibble { b / 16 }

  /** `b & 0x0F` on a `u8`. */
  function Low(b: byte): nibble { b % 16 }

  /** Number of bytes that hold `n` packed nibbles: ceil(n / 2). */
  function BytesFor(n: nat): nat { (n + 1) / 2 }

  /** Nibble number `k` of `src`: the high half of `src[k / 2]` when `k` is even, its low half when odd. */
  function NibbleAt(src: seq<byte>, k: nat): nibble
    requires k / 2 < |src|
  {
    if k % 2 == 0 then High(src[k / 2]) else Low(src[k / 2])
  }

  /** Every nibble of `src`, in stream order, defined byte by byte. */
  function Unpack(src: seq<byte>): (ns: seq<nibble>)
    ensures |ns| == 2 * |src|
  {
    if src == [] then [] else [High(src[0]), Low(src[0])] + Unpack(src[1..])
  }

  lemma {:induction false} UnpackAt(src: seq<byte>, k: nat)
    requires k < 2 * |src|
    ensures Unpack(src)[k] == NibbleAt(src, k)
  {
    if k >= 2 {
      UnpackAt(src[1..], k - 2);
      assert (k - 2) / 2 == k / 2 - 1 && (k - 2) % 2 == k % 2;
    }
  }

  lemma UnpackAllAt(src: seq<byte>)
    ensures forall k :: 0 <= k < 2 * |src| ==> Unpack(src)[k] == NibbleAt(src, k)
  {
    forall k | 0 <= k < 2 * |src| ensures Unpack(src)[k] == NibbleAt(src, k) {
      UnpackAt(src, k);
    }
  }

  /**
    What `half_bytes(src, n)` yields when drained: exactly `n` nibbles, the `k`-th
    being nibble `k` of `src`. It needs `ceil(n / 2)` bytes of `src` (src/program.rs:92 indexes
    `source[i / 2]` and panics past the end).
  */
  function HalfBytes(src: seq<byte>, n: nat): (ns: seq<nibble>)
    requires BytesFor(n) <= |src|
    ensures |ns| == n
    ensures forall k :: 0 <= k < n ==> ns[k] == NibbleAt(src, k)
  {
    UnpackAllAt(src);
    Unpack(src)[..n]
  }

  /** `half_bytes(src, n)` looks only at the first `ceil(n / 2)` bytes of `src`. */
  lemma HalfBytesReadsPrefix(a: seq<byte>, b: seq<byte>, n: nat)
    requires BytesFor(n) <= |a| && BytesFor(n) <= |b|
    requires a[..BytesFor(n)] == b[..BytesFor(n)]
    ensures HalfBytes(a, n) == HalfBytes(b, n)
  {
    forall k | 0 <= k < n ensures HalfBytes(a, n)[k] == HalfBytes(b, n)[k] {
      assert a[k / 2] == a[..BytesFor(n)][k / 2];
    }
  }

  /** The byte whose high half is `hi` and low half is `lo`. */
  function Join(hi: nibble, lo: nibble): (b: byte)
    ensures High(b) == hi && Low(b) == lo
  {
    hi as int * 16 + lo
  }

  /**
    Packs nibbles two to a byte, high nibble first, padding an odd count with a zero
    low nibble: the encoder whose output `half_bytes` reads back.
  */
  function Pack(ns: seq<nibble>): (bs: seq<byte>)
    ensures |bs| == BytesFor(|ns|)
  {
    if |ns| == 0 then []
    else if |ns| == 1 then [Join(ns[0], 0)]
    else [Join(ns[0], ns[1])] + Pack(ns[2..])
  }

  lemma {:induction false} PackAt(ns: seq<nibble>, k: nat)
    requires k < |ns|
    ensures NibbleAt(Pack(ns), k) == ns[k]
  {
    if k >= 2 {
      PackAt(ns[2..], k - 2);
      assert (k - 2) / 2 == k / 2 - 1 && (k - 2) % 2 == k % 2;
      assert Pack(ns)[k / 2] == Pack(ns[2..])[k / 2 - 1];
    }
  }

  /** Decoding what `Pack` encodes gives the nibbles back: `half_bytes` loses nothing. */
  lemma HalfBytesOfPack(ns: seq<nibble>)
    ensures HalfBytes(Pack(ns), |ns|) == ns
  {
    forall k | 0 <= k < |ns| ensures HalfBytes(Pack(ns), |ns|)[k] == ns[k] {
      PackAt(ns, k);
    }
  }

  /**
    The `HalfBytesChunker` iterator. `buffer` stashes the low nibble of the byte whose
    high nibble was just yielded; `i` counts the nibbles yielded so far.
  */
  class HalfBytesChunker {
    var len: nat
    var source: seq<byte>
    var i: nat
    var buffer: Option<nibble>

    /** The stash is full exactly after a high nibble, and holds that byte's low nibble. */
    ghost predicate Valid()
      reads this
    {
      && i <= len
      && (buffer.Some? <==> i % 2 == 1)
      && (buffer.Some? ==> (i - 1) / 2 < |source| && buffer.value == Low(source[(i - 1) / 2]))
    }

    /** `half_bytes(source, len)`. */
    constructor (source: seq<byte>, len: nat)
      ensures Valid()
      ensures this.source == source && this.len == len && i == 0 && buffer == None
    {
      this.len := len;
      this.source := source;
      i := 0;
      buffer := None;
    }

    /** `HalfBytesChunker::next`: nibble number `i`, or `None` once `len` have been yielded. */
    method Next() returns (r: Option<nibble>)
      requires Valid()
      requires i < len && buffer == None ==> i / 2 < |source|
      modifies this`i, this`buffer
      ensures Valid()
      ensures old(i) < len ==> i == old(i) + 1 && r == Some(NibbleAt(source, old(i)))
      ensures old(i) >= len ==> i == old(i) && buffer == old(buffer) && r == None
    {
      if i >= len {
        return None;
      }
      if buffer.Some? {
        var value := buffer.value;
        i := i + 1;
        buffer := None;
        return Some(value);
      }
      var b := source[i / 2];
      buffer := Some(Low(b));
      var current := High(b);
      i := i + 1;
      r := Some(current);
    }
  }

  /**
    `half_bytes(source, len).collect()`: drains the iterator until it yields `None`;
    the result is the specification `HalfBytes`.
  */
  method CollectHalfBytes(source: seq<byte>, len: nat) returns (ns: seq<nibble>)
    requires BytesFor(len) <= |source|
    ensures ns == HalfBytes(source, len)
  {
    var chunker := new HalfBytesChunker(source, len);
    ns := [];
    var next := chunker.Next();
    while next.Some?
      invariant chunker.Valid() && chunker.source == source && chunker.len == len
      invariant next.Some? ==> chunker.i == |ns| + 1 && next.value == NibbleAt(source, |ns|)
      invariant next.None? ==> chunker.i == |ns| == len
      invariant forall k :: 0 <= k < |ns| ==> ns[k] == NibbleAt(source, k)
      decreases len - |ns|
    {
      ns := ns + [next.value];
      next := chunker.Next();
    }
  }
}
