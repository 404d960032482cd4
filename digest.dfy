/** The streaming SHA-256 digest of wasm.rs: a reader over an in-memory byte
    slice is drained through a fixed 1024-byte buffer into a running hash
    context until a read returns 0.

    SHA-256 itself (FIPS 180-4, computed by `ring`) is not part of this
    model: it is the parameter `h`, and a context's state is abstracted as
    the bytes it has absorbed so far. */
module Streaming {
  import opened Types

  /** Size of the read buffer (`[0; 1024]`). */
  const BUFFER_SIZE: nat := 1024

  /** The chunks fed to a context, joined in order. */
  function Concat(chunks: seq<Bytes>): Bytes {
    if chunks == [] then [] else chunks[0] + Concat(chunks[1..])
  }

  lemma {:induction false} ConcatAppend(chunks: seq<Bytes>, c: Bytes)
    ensures Concat(chunks + [c]) == Concat(chunks) + c
  {
    if chunks != [] {
      assert (chunks + [c])[1..] == chunks[1..] + [c];
      ConcatAppend(chunks[1..], c);
    }
  }

  /** Every chunk is non-empty and fits in the read buffer. */
  predicate BufferSized(chunks: seq<Bytes>) {
    forall c :: c in chunks ==> 0 < |c| <= BUFFER_SIZE
  }

  /** `&[u8]` as an `std::io::Read`: each read copies as many bytes as fit
      into the buffer and advances past them; a read of an exhausted slice
      returns 0. */
  class SliceReader {
    var rest: Bytes

    constructor (data: Bytes)
      ensures rest == data
    {
      rest := data;
    }

    method Read(buffer: array<byte>) returns (count: nat)
      requires buffer.Length > 0
      modifies this, buffer
      ensures count == if |old(rest)| < buffer.Length then |old(rest)| else buffer.Length
      ensures old(rest) == buffer[..count] + rest
      ensures buffer[count..] == old(buffer[count..])
    {
      var data := rest;
      count := if |data| < buffer.Length then |data| else buffer.Length;
      var i := 0;
      while i < count
        invariant 0 <= i <= count
        invariant forall j :: 0 <= j < i ==> buffer[j] == data[j]
        invariant buffer[count..] == old(buffer[count..])
      {
        buffer[i] := data[i];
        i := i + 1;
      }
      rest := data[count..];
      assert data == data[..count] + data[count..];
    }
  }

  /** A running SHA-256 context (`ring::digest::Context`). */
  class Context {
    const h: Bytes -> Digest
    var absorbed: Bytes
    /** The arguments of every `update`, in order. */
    ghost var chunks: seq<Bytes>

    ghost predicate Valid()
      reads this
    {
      Concat(chunks) == absorbed
    }

    constructor (h: Bytes -> Digest)
      ensures Valid() && this.h == h && absorbed == [] && chunks == []
    {
      this.h := h;
      absorbed := [];
      chunks := [];
    }

    method Update(data: Bytes)
      requires Valid()
      modifies this
      ensures Valid()
      ensures absorbed == old(absorbed) + data
      ensures chunks == old(chunks) + [data]
    {
      absorbed := absorbed + data;
      chunks := chunks + [data];
      ConcatAppend(old(chunks), data);
    }

    method Finish() returns (d: Digest)
      ensures d == h(absorbed)
    {
      d := h(absorbed);
    }
  }

  /** Whatever sizes the reads come back in, the digest is that of the whole
      input: the chunks fed to the context are non-empty, at most one buffer
      long, and join up to the input exactly, in order. */
  method Sha256Digest(h: Bytes -> Digest, input: Bytes) returns (d: Digest, ghost chunks: seq<Bytes>)
    ensures d == h(input)
    ensures Concat(chunks) == input
    ensures BufferSized(chunks)
  {
    var reader := new SliceReader(input);
    var context := new Context(h);
    var buffer := new byte[BUFFER_SIZE];
    while true
      invariant context.Valid() && context.h == h
      invariant context.absorbed + reader.rest == input
      invariant BufferSized(context.chunks)
      decreases |reader.rest|
    {
      var count := reader.Read(buffer);
      if count == 0 {
        break;
      }
      ghost var before := context.absorbed;
      ghost var sized := context.chunks;
      var chunk := buffer[..count];
      context.Update(chunk);
      assert context.absorbed + reader.rest == input by {
        assert (before + chunk) + reader.rest == before + (chunk + reader.rest);
      }
      assert BufferSized(context.chunks) by {
        assert context.chunks == sized + [chunk];
      }
    }
    assert context.absorbed == input by {
      assert context.absorbed + [] == context.absorbed;
    }
    d := context.Finish();
    chunks := context.chunks;
  }
}
