/** TPM2_PersistentAllStore: serialize into a buffer that grows until the space left over proves that
    nothing was dropped. */
module PersistentStore {
  import opened Bytes

  const MARGIN := 66 * 1024
  const MAX_CHUNK := 64 * 1024
  const FIRST_SIZE := NV_MEMORY_SIZE + 32 * 1024 + MARGIN

  datatype Result = Ok(data: Bytes) | Size

  function Concat(chunks: seq<Bytes>): (r: Bytes) {
    if chunks == [] then [] else Concat(chunks[..|chunks| - 1]) + chunks[|chunks| - 1]
  }

  /** All chunks, each once and in order. */
  lemma {:induction false} ConcatAppend(a: seq<Bytes>, b: seq<Bytes>)
    ensures Concat(a + b) == Concat(a) + Concat(b)
    ensures |a| == 1 ==> Concat(a) == a[0]
    decreases |b|
  {
    if |a| == 1 {
      assert Concat(a[..0]) == [];
    }
    if b == [] {
      assert a + b == a;
    } else {
      assert (a + b)[..|a + b| - 1] == a + b[..|b| - 1];
      ConcatAppend(a, b[..|b| - 1]);
    }
  }

  /** What the marshalling functions leave in a buffer of `size` bytes, one chunk after the other: a chunk
      that does not fit is left out without notice. */
  function Fill(chunks: seq<Bytes>, size: nat): (r: Bytes)
    ensures |r| <= size
  {
    if chunks == [] then []
    else
      var before := Fill(chunks[..|chunks| - 1], size);
      var c := chunks[|chunks| - 1];
      if size - |before| >= |c| then before + c else before
  }

  ghost predicate SmallChunks(chunks: seq<Bytes>) {
    forall i :: 0 <= i < |chunks| ==> |chunks[i]| <= MAX_CHUNK
  }

  /** Why the margin works: space for the largest chunk left over means that every chunk went in. */
  lemma {:induction false} RoomLeftMeansComplete(chunks: seq<Bytes>, size: nat)
    requires SmallChunks(chunks) && size - |Fill(chunks, size)| >= MAX_CHUNK
    ensures Fill(chunks, size) == Concat(chunks)
    decreases |chunks|
  {
    if chunks != [] {
      RoomLeftMeansComplete(chunks[..|chunks| - 1], size);
    }
  }

  /** And a buffer with the margin to spare does leave it over, so the loop ends. */
  lemma {:induction false} EnoughRoomIsComplete(chunks: seq<Bytes>, size: nat)
    requires |Concat(chunks)| <= size
    ensures Fill(chunks, size) == Concat(chunks)
    decreases |chunks|
  {
    if chunks != [] {
      EnoughRoomIsComplete(chunks[..|chunks| - 1], size);
    }
  }

  /** The count the marshalling functions return is of all chunks, dropped ones included; it is the length
      of what is in the buffer exactly when nothing was dropped. */
  lemma {:induction false} WrittenTellsCompleteness(chunks: seq<Bytes>, size: nat)
    ensures |Fill(chunks, size)| <= |Concat(chunks)|
    ensures |Fill(chunks, size)| == |Concat(chunks)| <==> Fill(chunks, size) == Concat(chunks)
    decreases |chunks|
  {
    if chunks != [] {
      var init := chunks[..|chunks| - 1];
      WrittenTellsCompleteness(init, size);
    }
  }

  // ---------------------------------------------------------------- the code

  /** PERSISTENT_ALL_Marshal as a run of marshalling calls. */
  method Marshal(chunks: seq<Bytes>, room: nat) returns (buffer: Bytes, size: nat, written: nat)
    ensures buffer == Fill(chunks, room) && size == room - |buffer|
    ensures written == |Concat(chunks)|
  {
    buffer, size, written := [], room, 0;
    for i := 0 to |chunks|
      invariant buffer == Fill(chunks[..i], room) && size == room - |buffer|
      invariant written == |Concat(chunks[..i])|
    {
      assert chunks[..i + 1][..i] == chunks[..i];
      if size >= |chunks[i]| {
        buffer := buffer + chunks[i];
        size := size - |chunks[i]|;
      }
      written := written + |chunks[i]|;
    }
    assert chunks[..|chunks|] == chunks;
  }

  /** `realloc` tells which buffer sizes can be had; none beyond the INT32 the marshalling functions count in.
      For every finite state the loop ends, with the whole state or an allocation error. */
  method PersistentAllStore(chunks: seq<Bytes>, realloc: nat -> bool) returns (r: Result)
    requires SmallChunks(chunks) && forall n: nat :: realloc(n) ==> n < 0x8000_0000
    ensures r.Ok? ==> r.data == Concat(chunks)
    ensures r.Size? ==> exists n: nat :: !realloc(n) && n < FIRST_SIZE + |Concat(chunks)| + MARGIN
    ensures (forall n: nat :: n < FIRST_SIZE + |Concat(chunks)| + MARGIN ==> realloc(n)) ==> r == Ok(Concat(chunks))
  {
    var buflen := NV_MEMORY_SIZE + 32 * 1024;
    var buffer, size, written := [], 0, 0;
    while true
      invariant buflen == NV_MEMORY_SIZE + 32 * 1024 || buflen < |Concat(chunks)| + MARGIN
      invariant buflen >= NV_MEMORY_SIZE + 32 * 1024
      decreases |Concat(chunks)| + MARGIN - buflen
    {
      buflen := buflen + MARGIN;
      assert buflen < FIRST_SIZE + |Concat(chunks)| + MARGIN;
      if !realloc(buflen) {
        return Size;
      }
      buffer, size, written := Marshal(chunks, buflen);
      if size >= MARGIN {
        break;
      }
      if buflen >= |Concat(chunks)| + MARGIN {
        EnoughRoomIsComplete(chunks, buflen);
        assert false;
      }
    }
    RoomLeftMeansComplete(chunks, buflen);
    return Ok(buffer[..written]);
  }
}
