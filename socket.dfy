/** One end of a connected stream socket, as the two scripts use it: `send` and `recv`. */
module Net {
  import opened Wire

  /** `CHUNK_SIZE`, the `recv` buffer size and send slice size of both scripts. */
  const ChunkSize: nat := 1024

  predicate AllNonEmpty(fragments: seq<Bytes>)
  {
    forall i :: 0 <= i < |fragments| ==> |fragments[i]| >= 1
  }

  /** What one `recv(bufsize)` returns when `pending` are the fragments the peer's data
      will still arrive in, and the fragments left afterwards. A fragment longer than the
      buffer is split; once nothing is pending the peer has closed and `recv` returns
      `b''`. */
  function Take(pending: seq<Bytes>, bufsize: nat): (r: (Bytes, seq<Bytes>))
    requires bufsize > 0 && AllNonEmpty(pending)
    ensures |r.0| <= bufsize
    ensures r.0 == [] <==> pending == []
    ensures AllNonEmpty(r.1)
  {
    if pending == [] then ([], [])
    else if |pending[0]| <= bufsize then (pending[0], pending[1..])
    else (pending[0][..bufsize], [pending[0][bufsize..]] + pending[1..])
  }

  /** `recv` keeps the stream: what it returns followed by what stays pending is what was
      pending. */
  lemma TakeKeepsStream(pending: seq<Bytes>, bufsize: nat)
    requires bufsize > 0 && AllNonEmpty(pending)
    ensures Take(pending, bufsize).0 + Flatten(Take(pending, bufsize).1) == Flatten(pending)
  {
    if pending != [] && |pending[0]| > bufsize {
      var first := pending[0];
      assert first == first[..bufsize] + first[bufsize..];
      assert Flatten([first[bufsize..]] + pending[1..]) == first[bufsize..] + Flatten(pending[1..]);
      Associative(first[..bufsize], first[bufsize..], Flatten(pending[1..]));
    }
  }

  /** The results of `n` calls of `recv(bufsize)` in a row on a connection whose peer's
      data is still to arrive as `pending`, and what is pending afterwards. */
  function Recvs(pending: seq<Bytes>, n: nat, bufsize: nat): (r: (seq<Bytes>, seq<Bytes>))
    requires bufsize > 0 && AllNonEmpty(pending)
    ensures |r.0| == n && AllNonEmpty(r.1)
    decreases n
  {
    if n == 0 then ([], pending)
    else
      var (before, mid) := Recvs(pending, n - 1, bufsize);
      var (last, rest) := Take(mid, bufsize);
      (before + [last], rest)
  }

  /** `n` calls of `recv` keep the stream: what they returned, in order, followed by what
      stays pending is what was pending. */
  lemma {:induction false} RecvsKeepStream(pending: seq<Bytes>, n: nat, bufsize: nat)
    requires bufsize > 0 && AllNonEmpty(pending)
    ensures Flatten(Recvs(pending, n, bufsize).0) + Flatten(Recvs(pending, n, bufsize).1)
            == Flatten(pending)
    decreases n
  {
    if n > 0 {
      RecvsKeepStream(pending, n - 1, bufsize);
      var (before, mid) := Recvs(pending, n - 1, bufsize);
      var (last, rest) := Take(mid, bufsize);
      TakeKeepsStream(mid, bufsize);
      FlattenAppend(before, last);
      Associative(Flatten(before), last, Flatten(rest));
    }
  }

  /** A fragment that fits the buffer comes back whole from one `recv`, and the next
      `recv` returns the next fragment: the calls cannot re-split what arrives. */
  lemma RecvsExample()
    ensures Recvs([[0x35, 0x68], [0x0a]], 1, 1024) == ([[0x35, 0x68]], [[0x0a]])
    ensures Recvs([[0x35, 0x68], [0x0a]], 2, 1024) == ([[0x35, 0x68], [0x0a]], [])
  {
    var arriving: seq<Bytes> := [[0x35, 0x68], [0x0a]];
    var first, second: Bytes := [0x35, 0x68], [0x0a];
    var none: seq<Bytes> := [];
    assert arriving[0] == first && arriving[1..] == [second] && [second][1..] == none;
    assert Recvs(arriving, 0, 1024) == ([], arriving);
    assert Take(arriving, 1024) == (first, [second]);
    assert [] + [first] == [first];
    assert Recvs(arriving, 1, 1024) == ([first], [second]);
    assert Take([second], 1024) == (second, none);
    assert [first] + [second] == [first, second];
  }

  /** One more `recv` appends its result to those of the calls before it. */
  lemma RecvsStep(pending: seq<Bytes>, received: seq<Bytes>, unread: seq<Bytes>, bufsize: nat)
    requires bufsize > 0 && AllNonEmpty(pending)
    requires Recvs(pending, |received|, bufsize) == (received, unread)
    ensures AllNonEmpty(unread)
    ensures Recvs(pending, |received| + 1, bufsize)
            == (received + [Take(unread, bufsize).0], Take(unread, bufsize).1)
  {
  }

  /** Calls that return `xs`, then calls that return `ys` from where they left off, are
      calls that return `xs + ys`. */
  lemma {:induction false} RecvsConcat(pending: seq<Bytes>, xs: seq<Bytes>, mid: seq<Bytes>,
                                       ys: seq<Bytes>, rest: seq<Bytes>, bufsize: nat)
    requires bufsize > 0 && AllNonEmpty(pending)
    requires Recvs(pending, |xs|, bufsize) == (xs, mid)
    requires AllNonEmpty(mid) && Recvs(mid, |ys|, bufsize) == (ys, rest)
    ensures Recvs(pending, |xs + ys|, bufsize) == (xs + ys, rest)
    decreases |ys|
  {
    if ys == [] {
      assert xs + ys == xs;
    } else {
      var (before, mid2) := Recvs(mid, |ys| - 1, bufsize);
      var (last, rest2) := Take(mid2, bufsize);
      assert before + [last] == ys && rest2 == rest;
      RecvsConcat(pending, xs, mid, before, mid2, bufsize);
      var both := xs + before;
      assert |both| == |xs| + |before|;
      assert Recvs(pending, |both|, bufsize) == (both, mid2);
      RecvsStep(pending, both, mid2, bufsize);
      Associative(xs, before, [last]);
    }
  }

  /** The results of the `recv` calls so far followed by what is still pending is the whole
      stream: reading `pieces` off `unread`, which leaves `rest`, keeps it so. */
  lemma ConsumeMany(received: seq<Bytes>, pieces: seq<Bytes>, rest: seq<Bytes>,
                    unread: seq<Bytes>)
    requires Flatten(pieces) + Flatten(rest) == Flatten(unread)
    ensures Flatten(received + pieces + rest) == Flatten(received + unread)
  {
    var a, b, c := Flatten(received), Flatten(pieces), Flatten(rest);
    FlattenConcat(received + pieces, rest);
    FlattenConcat(received, pieces);
    FlattenConcat(received, unread);
    Associative(a, b, c);
  }

  /** One `recv` keeps the stream whole, and takes at least one byte while any is pending. */
  lemma ConsumeOne(received: seq<Bytes>, unread: seq<Bytes>, bufsize: nat)
    requires bufsize > 0 && AllNonEmpty(unread)
    ensures var (data, rest) := Take(unread, bufsize);
            && Flatten(received + [data] + rest) == Flatten(received + unread)
            && (unread != [] ==> |Flatten(rest)| < |Flatten(unread)|)
  {
    var r := Take(unread, bufsize);
    TakeKeepsStream(unread, bufsize);
    var one := [r.0];
    assert one[1..] == [];
    assert Flatten(one) == r.0 + [];
    assert r.0 + [] == r.0;
    ConsumeMany(received, one, r.1, unread);
  }

  /** One more `recv` on top of the calls that returned `received`: its result extends
      theirs, the stream stays whole, and a byte is taken while any is pending. */
  lemma RecvOne(arriving: seq<Bytes>, received: seq<Bytes>, unread: seq<Bytes>, bufsize: nat)
    requires bufsize > 0 && AllNonEmpty(arriving)
    requires Recvs(arriving, |received|, bufsize) == (received, unread)
    ensures AllNonEmpty(unread)
    ensures var more := received + [Take(unread, bufsize).0];
            && Recvs(arriving, |more|, bufsize) == (more, Take(unread, bufsize).1)
            && Flatten(more + Take(unread, bufsize).1) == Flatten(received + unread)
            && (unread != [] ==> |Flatten(Take(unread, bufsize).1)| < |Flatten(unread)|)
  {
    RecvsStep(arriving, received, unread, bufsize);
    ConsumeOne(received, unread, bufsize);
    assert |received + [Take(unread, bufsize).0]| == |received| + 1;
  }

  /** A connected socket. `pending` holds what the peer has sent and this end has not
      read yet, in the fragments the network delivers it in (a stream never delivers an
      empty fragment); after the last of them the peer has closed the connection. `sent`
      is every byte string passed to `send`, in order. */
  class Socket {
    var pending: seq<Bytes>
    var sent: seq<Bytes>

    ghost predicate Valid()
      reads this
    {
      AllNonEmpty(pending)
    }

    constructor (arriving: seq<Bytes>)
      requires AllNonEmpty(arriving)
      ensures Valid() && pending == arriving && sent == []
    {
      pending := arriving;
      sent := [];
    }

    /** `sock.send(data)`, taken to transmit all of `data`. */
    method Send(data: Bytes)
      modifies this
      ensures pending == old(pending) && sent == old(sent) + [data]
    {
      sent := sent + [data];
    }

    /** `sock.recv(bufsize)`. */
    method Recv(bufsize: nat) returns (data: Bytes)
      requires Valid() && bufsize > 0
      modifies this
      ensures Valid() && sent == old(sent)
      ensures (data, pending) == Take(old(pending), bufsize)
    {
      var r := Take(pending, bufsize);
      data, pending := r.0, r.1;
    }
  }
}
