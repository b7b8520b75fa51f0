/**
 * Reassembly of a retrieved file from the chunks that `fs.cat` streams out.
 *
 * The retrieve handler keeps a growing `Uint8Array`: for every chunk it
 * allocates a new array of the combined length, copies the old buffer to
 * offset 0 and the chunk right after it, and replaces the buffer. `Flatten`
 * is the specification of that loop: the chunks concatenated in the order
 * the stream yields them.
 */
module Reassembly {

  /** One chunk yielded by the stream: a run of bytes. */
  type Chunk = seq<bv8>

  /** The chunks concatenated in arrival order. */
  function Flatten(chunks: seq<Chunk>): seq<bv8>
  {
    if chunks == [] then [] else chunks[0] + Flatten(chunks[1..])
  }

  /** The sum of the chunk lengths. */
  function TotalLength(chunks: seq<Chunk>): nat
  {
    if chunks == [] then 0 else |chunks[0]| + TotalLength(chunks[1..])
  }

  /** The reassembled buffer is exactly as long as all chunks together. */
  lemma {:induction false} FlattenLength(chunks: seq<Chunk>)
    ensures |Flatten(chunks)| == TotalLength(chunks)
  {
    if chunks != [] {
      FlattenLength(chunks[1..]);
    }
  }

  /** Reassembling two stretches of the stream one after the other is
      reassembling the whole stream. */
  lemma {:induction false} FlattenConcat(a: seq<Chunk>, b: seq<Chunk>)
    ensures Flatten(a + b) == Flatten(a) + Flatten(b)
  {
    if a == [] {
      assert a + b == b;
    } else {
      assert (a + b)[0] == a[0];
      assert (a + b)[1..] == a[1..] + b;
      FlattenConcat(a[1..], b);
    }
  }

  /** One step of the loop: taking in one more chunk appends it to the
      buffer built so far. */
  lemma FlattenSnoc(chunks: seq<Chunk>, c: Chunk)
    ensures Flatten(chunks + [c]) == Flatten(chunks) + c
  {
    FlattenConcat(chunks, [c]);
    assert [c][1..] == [];
  }

  /** Byte `k` of chunk `j` lands at offset `TotalLength(chunks[..j]) + k`
      of the reassembled buffer: every chunk sits right after all the chunks
      that arrived before it, in arrival order. */
  lemma {:induction false} FlattenAt(chunks: seq<Chunk>, j: nat, k: nat)
    requires j < |chunks| && k < |chunks[j]|
    ensures TotalLength(chunks[..j]) + k < |Flatten(chunks)|
    ensures Flatten(chunks)[TotalLength(chunks[..j]) + k] == chunks[j][k]
  {
    if j == 0 {
      assert chunks[..0] == [];
    } else {
      var rest := chunks[1..];
      assert chunks[..j][0] == chunks[0];
      assert chunks[..j][1..] == rest[..j - 1];
      FlattenAt(rest, j - 1, k);
    }
  }

  /** `temp.set(src, offset)` on a `Uint8Array`: copies `src` into `dst`
      starting at `offset` and leaves every other element alone. The typed
      array would throw a RangeError if `src` did not fit; the retrieve
      handler always sizes `dst` so that it fits. */
  method CopyInto(dst: array<bv8>, src: seq<bv8>, offset: nat)
    requires offset + |src| <= dst.Length
    modifies dst
    ensures forall m :: 0 <= m < |src| ==> dst[offset + m] == src[m]
    ensures forall m :: 0 <= m < dst.Length && !(offset <= m < offset + |src|) ==> dst[m] == old(dst[m])
  {
    var k := 0;
    while k < |src|
      invariant 0 <= k <= |src|
      invariant forall m :: 0 <= m < k ==> dst[offset + m] == src[m]
      invariant forall m :: 0 <= m < dst.Length && !(offset <= m < offset + k) ==> dst[m] == old(dst[m])
    {
      dst[offset + k] := src[k];
      k := k + 1;
    }
  }

  /** One iteration of the retrieve loop: a newly allocated buffer of length
      `old.length + chunk.length` holding the old buffer at offset 0 and
      the chunk at offset `old.length`. */
  method AppendChunk(buf: array<bv8>, chunk: Chunk) returns (temp: array<bv8>)
    ensures fresh(temp)
    ensures temp.Length == buf.Length + |chunk|
    ensures temp[..buf.Length] == buf[..]
    ensures temp[buf.Length..] == chunk
    ensures temp[..] == buf[..] + chunk
  {
    temp := new bv8[buf.Length + |chunk|];
    CopyInto(temp, buf[..], 0);
    CopyInto(temp, chunk, buf.Length);
    assert temp[..buf.Length] == buf[..];
    assert temp[buf.Length..] == chunk;
    assert temp[..] == temp[..buf.Length] + temp[buf.Length..];
  }

  /** The whole retrieve loop over a finished stream: starting from an empty
      buffer, every chunk is appended in turn. The result is a newly
      allocated array holding the chunks concatenated in arrival order; a
      stream with no chunks gives the empty buffer. */
  method Reassemble(stream: seq<Chunk>) returns (retrieved: array<bv8>)
    ensures fresh(retrieved)
    ensures retrieved[..] == Flatten(stream)
    ensures retrieved.Length == TotalLength(stream)
    ensures stream == [] ==> retrieved.Length == 0
  {
    retrieved := new bv8[0];
    var i := 0;
    while i < |stream|
      invariant 0 <= i <= |stream|
      invariant fresh(retrieved)
      invariant retrieved[..] == Flatten(stream[..i])
    {
      var temp := AppendChunk(retrieved, stream[i]);
      assert stream[..i + 1] == stream[..i] + [stream[i]];
      FlattenSnoc(stream[..i], stream[i]);
      retrieved := temp;
      i := i + 1;
    }
    assert stream[..i] == stream;
    FlattenLength(stream);
  }
}
