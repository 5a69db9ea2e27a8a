/** The receiver's `recv_data_in_chunks`. */
module ChunkedRecv {
  import opened Wire
  import opened Net

  /** How `recv_data_in_chunks` ends: the byte strings its `recv` calls returned, in
      order (`data` is their concatenation), what is left unread, and whether it is stuck:
      the peer closed before `total_size` bytes arrived, so every further `recv` returns
      `b''`, `data` never grows again and the loop never exits. */
  datatype Reception = Reception(pieces: seq<Bytes>, rest: seq<Bytes>, hangs: bool)

  /** The loop `while len(data) < total_size: data = data + sock.recv(chunk_size)`,
      continued from the pieces already `received` with `pending` still to arrive. */
  function Receive(pending: seq<Bytes>, received: seq<Bytes>, total: int, chunk: nat): (r: Reception)
    requires chunk > 0 && AllNonEmpty(pending)
    ensures r.hangs ==> r.rest == [] && |Flatten(r.pieces)| < total
    ensures !r.hangs ==> total <= |Flatten(r.pieces)|
    decreases |Flatten(pending)|
  {
    if |Flatten(received)| >= total then Reception(received, pending, false)
    else if pending == [] then Reception(received, [], true)
    else
      var (piece, rest) := Take(pending, chunk);
      TakeKeepsStream(pending, chunk);
      Receive(rest, received + [piece], total, chunk)
  }

  /** Before each `recv` of `pieces` the bytes gathered so far were fewer than `total`. */
  ghost predicate BelowTotalBefore(pieces: seq<Bytes>, total: int)
  {
    forall j :: 0 <= j < |pieces| ==> |Flatten(pieces[..j])| < total
  }

  lemma {:induction false} ReceiveFrom(pending: seq<Bytes>, received: seq<Bytes>, total: int,
                                       chunk: nat)
    requires chunk > 0 && AllNonEmpty(pending)
    requires BelowTotalBefore(received, total)
    requires forall j :: 0 <= j < |received| ==> 1 <= |received[j]| <= chunk
    ensures var r := Receive(pending, received, total, chunk);
            && Flatten(r.pieces) + Flatten(r.rest) == Flatten(received) + Flatten(pending)
            && BelowTotalBefore(r.pieces, total)
            && (forall j :: 0 <= j < |r.pieces| ==> 1 <= |r.pieces[j]| <= chunk)
            && (r.hangs <==> |Flatten(received) + Flatten(pending)| < total)
            && (r.hangs ==> r.rest == [])
            && (!r.hangs ==> |Flatten(r.pieces)| >= total)
            && AllNonEmpty(r.rest)
    decreases |Flatten(pending)|
  {
    if |Flatten(received)| < total && pending != [] {
      var (piece, rest) := Take(pending, chunk);
      TakeKeepsStream(pending, chunk);
      FlattenAppend(received, piece);
      assert (received + [piece])[..|received|] == received;
      assert BelowTotalBefore(received + [piece], total) by {
        forall j | 0 <= j < |received| + 1
          ensures |Flatten((received + [piece])[..j])| < total
        {
          if j < |received| {
            assert (received + [piece])[..j] == received[..j];
          }
        }
      }
      ReceiveFrom(rest, received + [piece], total, chunk);
    }
  }

  /** What `recv_data_in_chunks(sock, total_size, chunk_size)` does with a socket whose
      unread data is `pending`: it returns the in-order concatenation of what the `recv`
      calls returned; before each call fewer than `total_size` bytes had arrived, so it
      stops at the first point where it holds at least `total_size` bytes and may hold up
      to `chunk_size - 1` more, which it does not trim. With `total_size <= 0` it calls
      `recv` not at all and returns `b''`. It is stuck exactly when the stream ends short
      of `total_size` bytes. */
  lemma ReceiveSpec(pending: seq<Bytes>, total: int, chunk: nat)
    requires chunk > 0 && AllNonEmpty(pending)
    ensures var r := Receive(pending, [], total, chunk);
            var data := Flatten(r.pieces);
            && data + Flatten(r.rest) == Flatten(pending)
            && BelowTotalBefore(r.pieces, total)
            && (r.hangs <==> |Flatten(pending)| < total)
            && (r.hangs ==> r.rest == [])
            && (!r.hangs ==> total <= |data|)
            && (!r.hangs && total > 0 ==> |data| < total + chunk)
            && (total <= 0 ==> r.pieces == [] && r.rest == pending)
  {
    ReceiveFrom(pending, [], total, chunk);
    var r := Receive(pending, [], total, chunk);
    if r.pieces != [] {
      var n := |r.pieces| - 1;
      assert r.pieces == r.pieces[..n] + [r.pieces[n]];
      FlattenAppend(r.pieces[..n], r.pieces[n]);
    }
  }

  /** No trimming: with one 3-byte fragment arriving and 2 bytes announced, all 3 bytes
      are returned. */
  lemma OvershootExample()
    ensures var r := Receive([[1, 2, 3]], [], 2, ChunkSize);
            !r.hangs && Flatten(r.pieces) == [1, 2, 3]
  {
    var r := Receive([[1, 2, 3]], [], 2, ChunkSize);
    assert r == Reception([[1, 2, 3]], [], false);
    assert Flatten([[1, 2, 3]]) == [1, 2, 3];
  }

  /** A peer that closes after 1 of 2 announced bytes leaves the loop stuck. */
  lemma EarlyCloseExample()
    ensures Receive([[7]], [], 2, ChunkSize).hangs
  {
    var none: seq<Bytes> := [];
    assert |Flatten(none)| == 0;
    assert Take([[7]], ChunkSize) == ([7], none);
    assert none + [[7]] == [[7]];
    assert Flatten([[7]]) == [7];
    assert Receive([[7]], none, 2, ChunkSize) == Receive(none, [[7]], 2, ChunkSize);
  }

  /** `recv_data_in_chunks(sock, total_size, chunk_size)`. Where the loop would spin
      forever on `b''` this method stops and reports `hangs`; `pieces` are the results of
      its `recv` calls. */
  method RecvDataInChunks(sock: Socket, totalSize: int, chunkSize: nat)
    returns (data: Bytes, hangs: bool, ghost pieces: seq<Bytes>)
    requires sock.Valid() && chunkSize > 0
    modifies sock
    ensures sock.Valid() && sock.sent == old(sock.sent)
    ensures Reception(pieces, sock.pending, hangs) == Receive(old(sock.pending), [], totalSize, chunkSize)
    ensures data == Flatten(pieces)
    ensures Recvs(old(sock.pending), |pieces|, chunkSize) == (pieces, sock.pending)
  {
    data := [];
    pieces := [];
    hangs := false;
    while |data| < totalSize
      invariant sock.Valid() && sock.sent == old(sock.sent)
      invariant data == Flatten(pieces)
      invariant Receive(sock.pending, pieces, totalSize, chunkSize)
                == Receive(old(sock.pending), [], totalSize, chunkSize)
      invariant Recvs(old(sock.pending), |pieces|, chunkSize) == (pieces, sock.pending)
      decreases |Flatten(sock.pending)|
    {
      if sock.pending == [] {
        // The peer has closed: every further recv returns b'' and data stays as it is.
        hangs := true;
        return;
      }
      RecvsStep(old(sock.pending), pieces, sock.pending, chunkSize);
      var newData := sock.Recv(chunkSize);
      FlattenAppend(pieces, newData);
      pieces := pieces + [newData];
      data := data + newData;
    }
  }
}
