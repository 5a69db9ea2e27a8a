/** The uploader's `send_data_in_chunks`. */
module ChunkedSend {
  import opened Wire
  import opened Net

  /** `data[i:j]` for `0 <= i <= j`: Python clamps both ends to the length. */
  function Slice(data: Bytes, i: nat, j: nat): (r: Bytes)
    requires i <= j
  {
    var lo := if i < |data| then i else |data|;
    var hi := if j < |data| then j else |data|;
    data[lo..hi]
  }

  /** The slices `send_data_in_chunks` hands to `send`: `size` bytes at a time, then the
      remainder, which is empty when the length is a multiple of `size`. */
  function Chunks(data: Bytes, size: nat): (r: seq<Bytes>)
    requires size > 0
    ensures r != [] && |r[|r| - 1]| < size
    decreases |data|
  {
    if |data| < size then [data] else [data[..size]] + Chunks(data[size..], size)
  }

  /** Sending the chunks in order sends exactly `data`. */
  lemma {:induction false} ChunksFlatten(data: Bytes, size: nat)
    requires size > 0
    ensures Flatten(Chunks(data, size)) == data
    decreases |data|
  {
    if |data| >= size {
      ChunksFlatten(data[size..], size);
      assert data[..size] + data[size..] == data;
    }
  }

  /** There are exactly `len(data) // size + 1` sends. */
  lemma {:induction false} ChunksCount(data: Bytes, size: nat)
    requires size > 0
    ensures |Chunks(data, size)| == |data| / size + 1
    decreases |data|
  {
    if |data| >= size {
      ChunksCount(data[size..], size);
      DivStep(|data|, size);
    }
  }

  /** Every chunk but the last holds exactly `size` bytes, and the last holds the
      remaining `len(data) % size` bytes (none when `size` divides the length). */
  lemma {:induction false} ChunksSizes(data: Bytes, size: nat)
    requires size > 0
    ensures var cs := Chunks(data, size);
            |cs| >= 1 &&
            (forall k :: 0 <= k < |cs| - 1 ==> |cs[k]| == size) &&
            |cs[|cs| - 1]| == |data| % size
    decreases |data|
  {
    if |data| >= size {
      ChunksSizes(data[size..], size);
      DivStep(|data|, size);
    }
  }

  /** Chunk `k` is the slice `data[k*size : k*size + size]`, the one the `k`-th turn of
      the loop sends. */
  lemma {:induction false} ChunkAt(data: Bytes, size: nat, k: nat)
    requires size > 0 && k <= |data| / size
    ensures k < |Chunks(data, size)|
    ensures Chunks(data, size)[k] == Slice(data, k * size, k * size + size)
    decreases k
  {
    ChunksCount(data, size);
    if k > 0 {
      if |data| < size {
        DivUnique(|data|, size, 0, |data|);
        assert false;
      }
      var rest := data[size..];
      DivStep(|data|, size);
      ChunkAt(rest, size, k - 1);
      assert Chunks(data, size)[k] == Chunks(rest, size)[k - 1];
      var a := MulPred(k, size);
      SliceShift(data, size, a, a + size);
    }
  }

  /** `(k - 1) * size`, the start of the chunk before chunk `k`. */
  lemma MulPred(k: nat, size: nat) returns (a: nat)
    requires k > 0
    ensures a == (k - 1) * size && a + size == k * size
  {
    a := (k - 1) * size;
  }

  /** Slicing what follows the first `size` bytes is slicing `size` bytes further on. */
  lemma SliceShift(data: Bytes, size: nat, i: nat, j: nat)
    requires size <= |data| && i <= j
    ensures Slice(data[size..], i, j) == Slice(data, i + size, j + size)
  {
  }

  lemma StepBound(k: nat, size: nat, q: nat)
    requires size > 0
    ensures k * size < size * q + 1 <==> k <= q
  {
    if k < q {
      MulLess(size, k, q);
    } else if k > q {
      MulLess(size, q, k);
    }
  }

  lemma {:induction false} MulLess(s: int, a: int, b: int)
    requires s > 0 && a < b
    ensures s * a + s <= s * b
    decreases b - a
  {
    assert s * (b - 1) + s == s * b;
    if a < b - 1 {
      MulLess(s, a, b - 1);
    }
  }

  lemma DivUnique(n: int, s: int, q: int, r: int)
    requires s > 0 && 0 <= r < s && n == s * q + r
    ensures n / s == q && n % s == r
  {
    var q', r' := n / s, n % s;
    if q' < q {
      MulLess(s, q', q);
    } else if q' > q {
      MulLess(s, q, q');
    }
  }

  lemma DivStep(n: nat, s: nat)
    requires 0 < s <= n
    ensures (n - s) / s == n / s - 1 && (n - s) % s == n % s
  {
    var q, r := n / s, n % s;
    assert n - s == s * (q - 1) + r;
    DivUnique(n - s, s, q - 1, r);
  }

  /** `send_data_in_chunks(sock, data, chunk_size)`: the loop
      `for i in range(0, chunk_size * (len(data) // chunk_size) + 1, chunk_size)`
      sends `data[i:i + chunk_size]` once per turn. */
  method SendDataInChunks(sock: Socket, data: Bytes, chunkSize: nat)
    requires chunkSize > 0
    modifies sock
    ensures sock.pending == old(sock.pending)
    ensures sock.sent == old(sock.sent) + Chunks(data, chunkSize)
  {
    var dataLength := |data|;
    var stop := chunkSize * (dataLength / chunkSize) + 1;
    var i := 0;
    ghost var k: nat := 0;
    ghost var chunks := Chunks(data, chunkSize);
    ChunksCount(data, chunkSize);
    while i < stop
      invariant i == k * chunkSize && k <= |chunks|
      invariant i < stop <==> k < |chunks|
      invariant sock.pending == old(sock.pending)
      invariant sock.sent == old(sock.sent) + chunks[..k]
      decreases stop - i
    {
      ChunkAt(data, chunkSize, k);
      var dataToSend := Slice(data, i, i + chunkSize);
      assert dataToSend == chunks[k];
      sock.Send(dataToSend);
      TakeOneMore(chunks, k);
      Associative(old(sock.sent), chunks[..k], [dataToSend]);
      assert i + chunkSize == (k + 1) * chunkSize;
      i := i + chunkSize;
      k := k + 1;
      StepBound(k, chunkSize, dataLength / chunkSize);
    }
    assert chunks[..k] == chunks;
  }
}
