/** Bytes and the two-level chunking used by the firmware upload loops:
    a buffer is cut into consecutive slices of `min(remaining, max)` bytes. */
module Chunking {

  /** An unsigned 8-bit value, as in a C# `byte[]`. */
  type byte = x: int | 0 <= x < 256

  function Min(a: int, b: int): int {
    if a <= b then a else b
  }

  /** Length of the slice taken at `from`: `Math.Min(totalLength - offset, max)`. */
  function SliceLength(total: nat, from: nat, max: nat): (n: nat)
    requires from < total && 0 < max
    ensures 0 < n <= max && from + n <= total
    ensures n < max ==> from + n == total
  {
    Min(total - from, max)
  }

  /** The slices a `while (offset < totalLength)` loop cuts from `buf`, starting at `from`. */
  function Chunks(buf: seq<byte>, max: nat, from: nat): (r: seq<seq<byte>>)
    requires 0 < max && from <= |buf|
    ensures r == [] <==> from == |buf|
    decreases |buf| - from
  {
    if from == |buf| then []
    else
      var n := SliceLength(|buf|, from, max);
      [buf[from..from + n]] + Chunks(buf, max, from + n)
  }

  /** Concatenation of a sequence of byte strings. */
  function Flatten(parts: seq<seq<byte>>): seq<byte> {
    if parts == [] then [] else parts[0] + Flatten(parts[1..])
  }

  lemma {:induction false} FlattenAppend(a: seq<seq<byte>>, b: seq<seq<byte>>)
    ensures Flatten(a + b) == Flatten(a) + Flatten(b)
  {
    if a == [] {
      assert a + b == b;
    } else {
      assert (a + b)[1..] == a[1..] + b;
      FlattenAppend(a[1..], b);
    }
  }

  /** The slices concatenate back to exactly the bytes from `from` on. */
  lemma {:induction false} ChunksRebuild(buf: seq<byte>, max: nat, from: nat)
    requires 0 < max && from <= |buf|
    ensures Flatten(Chunks(buf, max, from)) == buf[from..]
    decreases |buf| - from
  {
    if from < |buf| {
      var n := SliceLength(|buf|, from, max);
      var head := buf[from..from + n];
      var rest := Chunks(buf, max, from + n);
      assert Chunks(buf, max, from) == [head] + rest;
      assert ([head] + rest)[1..] == rest;
      assert Flatten([head] + rest) == head + Flatten(rest);
      ChunksRebuild(buf, max, from + n);
      assert head + buf[from + n..] == buf[from..];
    }
  }

  /** Every slice is non-empty and at most `max` bytes; all but the last are exactly `max`. */
  lemma {:induction false} ChunksBounded(buf: seq<byte>, max: nat, from: nat)
    requires 0 < max && from <= |buf|
    ensures forall i :: 0 <= i < |Chunks(buf, max, from)| ==> 0 < |Chunks(buf, max, from)[i]| <= max
    ensures forall i :: 0 <= i < |Chunks(buf, max, from)| - 1 ==> |Chunks(buf, max, from)[i]| == max
    decreases |buf| - from
  {
    if from < |buf| {
      var n := SliceLength(|buf|, from, max);
      ChunksBounded(buf, max, from + n);
      var cs := Chunks(buf, max, from);
      var rest := Chunks(buf, max, from + n);
      assert cs == [buf[from..from + n]] + rest;
      if n < max {
        assert rest == [];
      }
    }
  }

  /** The number of slices is the least `k` with `k * max >= |buf| - from`, i.e. the ceiling. */
  lemma {:induction false} ChunksCount(buf: seq<byte>, max: nat, from: nat)
    requires 0 < max && from <= |buf|
    ensures |Chunks(buf, max, from)| * max >= |buf| - from
    ensures |Chunks(buf, max, from)| == 0 || (|Chunks(buf, max, from)| - 1) * max < |buf| - from
    decreases |buf| - from
  {
    if from < |buf| {
      var n := SliceLength(|buf|, from, max);
      ChunksCount(buf, max, from + n);
      var k := |Chunks(buf, max, from + n)|;
      assert |Chunks(buf, max, from)| == k + 1;
      assert (k + 1) * max == k * max + max;
      if k > 0 {
        assert k * max == (k - 1) * max + max;
      }
    }
  }
}
