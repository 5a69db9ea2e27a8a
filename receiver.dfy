/** The receiver's `handle_client`: agree to the announced length, take the data, write the
    folder, and ask for new names until the top-level folder can be created. */
module Receiver {
  import opened Wire
  import opened Text
  import opened Net
  import opened FileSystem
  import opened FolderJson
  import opened FolderRestore
  import opened ChunkedRecv
  import opened Protocol

  /** How serving one client ended: `DENIED` was sent, `DONE` was sent, or an exception
      ended the thread. */
  datatype ServerOutcome = Denied | Served | Crashed

  /** Where `handle_client` is: waiting for the length header, inside
      `recv_data_in_chunks` with `data` gathered of `total`, waiting for the answer to
      `RENAME` with `tree` the deserialized folder, or returned. */
  datatype Phase =
    | AwaitingLength
    | Receiving(total: int, data: Bytes)
    | AwaitingNewName(tree: Node)
    | Finished(outcome: ServerOutcome)

  datatype Server = Server(phase: Phase, volume: Volume)

  /** A state and the messages sent on the way to it. */
  type Transition = (Server, seq<Bytes>)

  /** One `json_to_folder(tree)` call of the `while ... == 'RENAME'` loop and the message
      that follows it. */
  function Attempt(v: Volume, tree: Node): (r: Transition)
    ensures var res := Restore(v, tree, "");
            && (r.1 == [RENAME] <==> res.status == Rename)
            && (r.1 == [DONE] <==> res.status == Done)
            && (r.1 == [] <==> res.status == Failed)
            && (res.status == Rename ==> r.0 == Server(AwaitingNewName(tree), v))
            && (res.status != Rename ==> r.0.phase.Finished? && r.0.volume == res.volume)
  {
    var res := Restore(v, tree, "");
    match res.status
    case Rename => (Server(AwaitingNewName(tree), v), [RENAME])
    case Done => (Server(Finished(Served), res.volume), [DONE])
    case Failed => (Server(Finished(Crashed), res.volume), [])
  }

  /** What `handle_client` does with the result `message` of one of its `recv` calls.
      `loads` is `pickle.loads`, `None` where it raises. */
  function ServerStep(loads: Bytes -> Option<Node>, s: Server, message: Bytes): (r: Transition)
    ensures s.phase.Finished? ==> r == (s, [])
    ensures r.1 == [OK] <==>
              s.phase.AwaitingLength? && ParseLength(message).Some? && ParseLength(message).value > 0
    ensures r.1 == [DENIED] <==>
              s.phase.AwaitingLength? && ParseLength(message).Some? && ParseLength(message).value <= 0
    ensures r.1 == [DENIED] ==> r.0 == Server(Finished(Denied), s.volume)
    ensures r.0.phase.Receiving? ==> r.0.volume == s.volume
    ensures |r.1| <= 1
  {
    match s.phase
    case AwaitingLength =>
      (match ParseLength(message)
       case None => (Server(Finished(Crashed), s.volume), [])
       case Some(n) =>
         if n > 0 then (Server(Receiving(n, []), s.volume), [OK])
         else (Server(Finished(Denied), s.volume), [DENIED]))
    case Receiving(n, data) =>
      var gathered := data + message;
      if |gathered| < n then (Server(Receiving(n, gathered), s.volume), [])
      else
        (match loads(gathered)
         case None => (Server(Finished(Crashed), s.volume), [])
         case Some(tree) => Attempt(s.volume, tree))
    case AwaitingNewName(tree) =>
      (match ParseNewName(message)
       case None => (Server(Finished(Crashed), s.volume), [])
       case Some(name) => Attempt(s.volume, tree.(name := name)))
    case Finished(_) => (s, [])
  }

  /** The state after handling `messages` in order from `s`, and everything sent: at most
      one reply per message read. */
  function ServerRun(loads: Bytes -> Option<Node>, s: Server, messages: seq<Bytes>): (r: Transition)
    ensures |r.1| <= |messages|
  {
    if messages == [] then (s, [])
    else
      var (mid, before) := ServerRun(loads, s, messages[..|messages| - 1]);
      var (next, sent) := ServerStep(loads, mid, messages[|messages| - 1]);
      (next, before + sent)
  }

  /** Handling one more message extends the run by one step. */
  lemma RunSnoc(loads: Bytes -> Option<Node>, s: Server, messages: seq<Bytes>, m: Bytes)
    ensures var (mid, before) := ServerRun(loads, s, messages);
            var (next, sent) := ServerStep(loads, mid, m);
            ServerRun(loads, s, messages + [m]) == (next, before + sent)
  {
    assert (messages + [m])[..|messages|] == messages;
  }

  /** Once `handle_client` has returned, nothing it might still be sent changes anything:
      after `DENIED` no data is read. */
  lemma {:induction false} FinishedStays(loads: Bytes -> Option<Node>, s: Server,
                                         messages: seq<Bytes>)
    requires s.phase.Finished?
    ensures ServerRun(loads, s, messages) == (s, [])
  {
    if messages != [] {
      var prefix := messages[..|messages| - 1];
      FinishedStays(loads, s, prefix);
      RunSnoc(loads, s, prefix, messages[|messages| - 1]);
      SplitLast(messages);
      var none: seq<Bytes> := [];
      assert none + none == none;
    }
  }

  /** The first message decides: `OK` exactly when it is a positive length, `DENIED` and
      the end exactly when it is a length of 0 or less. */
  lemma Agreement(loads: Bytes -> Option<Node>, v: Volume, header: Bytes)
    ensures var (s, sent) := ServerRun(loads, Server(AwaitingLength, v), [header]);
            && (sent == [OK] <==> ParseLength(header).Some? && ParseLength(header).value > 0)
            && (sent == [OK] ==> s == Server(Receiving(ParseLength(header).value, []), v))
            && (sent == [DENIED] <==> ParseLength(header).Some? && ParseLength(header).value <= 0)
            && (sent == [DENIED] ==> s == Server(Finished(Denied), v))
  {
    RunSnoc(loads, Server(AwaitingLength, v), [], header);
    assert [] + [header] == [header];
  }

  /** While fewer than `total` bytes have arrived, `recv_data_in_chunks` only gathers. */
  lemma {:induction false} Gathering(loads: Bytes -> Option<Node>, s: Server, messages: seq<Bytes>,
                                     total: int, v: Volume, sent: seq<Bytes>,
                                     pieces: seq<Bytes>, j: nat)
    requires ServerRun(loads, s, messages) == (Server(Receiving(total, []), v), sent)
    requires j <= |pieces| && |Flatten(pieces[..j])| < total
    ensures ServerRun(loads, s, messages + pieces[..j])
            == (Server(Receiving(total, Flatten(pieces[..j])), v), sent)
    decreases j
  {
    if j == 0 {
      assert messages + pieces[..0] == messages;
    } else {
      var prev := pieces[..j - 1];
      TakeOneMore(pieces, j - 1);
      FlattenAppend(prev, pieces[j - 1]);
      Gathering(loads, s, messages, total, v, sent, pieces, j - 1);
      RunSnoc(loads, s, messages + prev, pieces[j - 1]);
      Associative(messages, prev, [pieces[j - 1]]);
      assert sent + [] == sent;
    }
  }

  /** Once the last piece brings the gathered data to `total` bytes or more, it is
      deserialized and the first `json_to_folder` call is made. */
  lemma DataArrived(loads: Bytes -> Option<Node>, s: Server, messages: seq<Bytes>,
                    total: int, v: Volume, sent: seq<Bytes>, pieces: seq<Bytes>)
    requires ServerRun(loads, s, messages) == (Server(Receiving(total, []), v), sent)
    requires pieces != [] && BelowTotalBefore(pieces, total) && |Flatten(pieces)| >= total
    ensures ServerRun(loads, s, messages + pieces)
            == match loads(Flatten(pieces))
               case None => (Server(Finished(Crashed), v), sent)
               case Some(tree) => (Attempt(v, tree).0, sent + Attempt(v, tree).1)
  {
    var last := |pieces| - 1;
    var before := pieces[..last];
    Gathering(loads, s, messages, total, v, sent, pieces, last);
    RunSnoc(loads, s, messages + before, pieces[last]);
    SplitLast(pieces);
    FlattenAppend(before, pieces[last]);
    Associative(messages, before, [pieces[last]]);
    LastPiece(loads, v, total, Flatten(before), pieces[last], sent);
  }

  /** The piece that brings the gathered data to `total` bytes or more ends the loop. */
  lemma LastPiece(loads: Bytes -> Option<Node>, v: Volume, total: int, data: Bytes,
                  piece: Bytes, sent: seq<Bytes>)
    requires |data| < total <= |data + piece|
    ensures var step := ServerStep(loads, Server(Receiving(total, data), v), piece);
            (step.0, sent + step.1)
            == match loads(data + piece)
               case None => (Server(Finished(Crashed), v), sent)
               case Some(tree) => (Attempt(v, tree).0, sent + Attempt(v, tree).1)
  {
    assert sent + [] == sent;
  }

  /** The peer closed early: everything that came is gathered and the loop waits on. */
  lemma DataCutShort(loads: Bytes -> Option<Node>, s: Server, messages: seq<Bytes>,
                     total: int, v: Volume, sent: seq<Bytes>, pieces: seq<Bytes>)
    requires ServerRun(loads, s, messages) == (Server(Receiving(total, []), v), sent)
    requires |Flatten(pieces)| < total
    ensures ServerRun(loads, s, messages + pieces)
            == (Server(Receiving(total, Flatten(pieces)), v), sent)
  {
    assert pieces[..|pieces|] == pieces;
    Gathering(loads, s, messages, total, v, sent, pieces, |pieces|);
  }

  /** After `RENAME`, the answer names the next attempt, or ends the thread. */
  lemma RenameAnswered(loads: Bytes -> Option<Node>, s: Server, messages: seq<Bytes>,
                       v: Volume, tree: Node, sent: seq<Bytes>, answer: Bytes)
    requires Restore(v, tree, "").status == Rename
    requires ServerRun(loads, s, messages) == (Attempt(v, tree).0, sent + Attempt(v, tree).1)
    ensures ServerRun(loads, s, messages + [answer])
            == match ParseNewName(answer)
               case None => (Server(Finished(Crashed), v), sent + [RENAME])
               case Some(name) =>
                 (Attempt(v, tree.(name := name)).0, sent + [RENAME] + Attempt(v, tree.(name := name)).1)
  {
    RunSnoc(loads, s, messages, answer);
    assert sent + [RENAME] + [] == sent + [RENAME];
  }

  /** `handle_client(client_socket, ...)` on a freshly accepted connection, with `disk`
      the receiver's filesystem and `loads` standing for `pickle.loads`. It behaves as
      `ServerRun` over the results of its `recv` calls (`received`, read in order from the
      stream) and sends exactly what the run sends. It stops in `Receiving` only where the
      peer closed before all announced data arrived, at which point the source's loop
      spins for ever on `b''`. */
  method HandleClient(sock: Socket, disk: Disk, loads: Bytes -> Option<Node>)
    returns (phase: Phase, ghost received: seq<Bytes>)
    requires sock.Valid() && sock.sent == []
    modifies sock, disk
    ensures sock.Valid()
    ensures Flatten(received + sock.pending) == Flatten(old(sock.pending))
    ensures (received, sock.pending) == Recvs(old(sock.pending), |received|, ChunkSize)
    ensures ServerRun(loads, Server(AwaitingLength, old(disk.nodes)), received)
            == (Server(phase, disk.nodes), sock.sent)
    ensures phase.Finished? || (phase.Receiving? && sock.pending == [])
  {
    ghost var start := Server(AwaitingLength, disk.nodes);
    ghost var stream := Flatten(sock.pending);
    ghost var unread := sock.pending;
    RecvsStep(unread, [], unread, ChunkSize);
    var header := sock.Recv(ChunkSize);
    ConsumeOne([], unread, ChunkSize);
    received := [header];
    assert [] + unread == unread;
    RunSnoc(loads, start, [], header);
    assert [] + [header] == received;
    var dataLength := ParseLength(header);
    if dataLength.None? {
      assert [] + [] == sock.sent;
      return Finished(Crashed), received;
    }
    var n := dataLength.value;
    if n > 0 {
      sock.Send(OK);
      assert ServerStep(loads, start, header) == (Server(Receiving(n, []), disk.nodes), [OK]);
      assert ServerRun(loads, start, received) == (Server(Receiving(n, []), disk.nodes), [] + [OK]);
      assert [] + [OK] == sock.sent;
    } else {
      sock.Send(DENIED);
      assert ServerStep(loads, start, header) == (Server(Finished(Denied), disk.nodes), [DENIED]);
      assert [] + [DENIED] == sock.sent;
      return Finished(Denied), received;
    }
    assert Flatten(received + sock.pending) == stream;
    phase, received := ReceiveWebsite(sock, disk, loads, n, start, received, stream, unread);
  }

  /** The middle of `handle_client`, after `OK`: `recv_data_in_chunks`, `pickle.loads`
      and the rename loop. */
  method ReceiveWebsite(sock: Socket, disk: Disk, loads: Bytes -> Option<Node>, n: int,
                        ghost start: Server, ghost received0: seq<Bytes>, ghost stream: Bytes,
                        ghost arriving: seq<Bytes>)
    returns (phase: Phase, ghost received: seq<Bytes>)
    requires sock.Valid() && n > 0
    requires Flatten(received0 + sock.pending) == stream
    requires AllNonEmpty(arriving)
    requires Recvs(arriving, |received0|, ChunkSize) == (received0, sock.pending)
    requires ServerRun(loads, start, received0) == (Server(Receiving(n, []), disk.nodes), sock.sent)
    modifies sock, disk
    ensures sock.Valid()
    ensures Flatten(received + sock.pending) == stream
    ensures Recvs(arriving, |received|, ChunkSize) == (received, sock.pending)
    ensures ServerRun(loads, start, received) == (Server(phase, disk.nodes), sock.sent)
    ensures phase.Finished? || (phase.Receiving? && sock.pending == [])
  {
    ghost var unread := sock.pending;
    var data, hangs, pieces := RecvDataInChunks(sock, n, ChunkSize);
    ReceiveSpec(unread, n, ChunkSize);
    ConsumeMany(received0, pieces, sock.pending, unread);
    RecvsConcat(arriving, received0, unread, pieces, sock.pending, ChunkSize);
    if hangs {
      DataCutShort(loads, start, received0, n, disk.nodes, sock.sent, pieces);
      return Receiving(n, data), received0 + pieces;
    }
    DataArrived(loads, start, received0, n, disk.nodes, sock.sent, pieces);
    received := received0 + pieces;

    var loaded := loads(data);
    if loaded.None? {
      return Finished(Crashed), received;
    }
    phase, received := SaveWebsite(sock, disk, loads, loaded.value, start, received, stream, arriving);
  }

  /** The end of `handle_client`: `while json_to_folder(tree) == 'RENAME'`, sending
      `RENAME` and taking the new top-level name from each answer, then `DONE`. It is
      entered with the run of the receiver already at the first attempt. */
  method SaveWebsite(sock: Socket, disk: Disk, loads: Bytes -> Option<Node>, tree: Node,
                     ghost start: Server, ghost received0: seq<Bytes>, ghost stream: Bytes,
                     ghost arriving: seq<Bytes>)
    returns (phase: Phase, ghost received: seq<Bytes>)
    requires sock.Valid()
    requires Flatten(received0 + sock.pending) == stream
    requires AllNonEmpty(arriving)
    requires Recvs(arriving, |received0|, ChunkSize) == (received0, sock.pending)
    requires ServerRun(loads, start, received0)
             == (Attempt(disk.nodes, tree).0, sock.sent + Attempt(disk.nodes, tree).1)
    modifies sock, disk
    ensures sock.Valid()
    ensures Flatten(received + sock.pending) == stream
    ensures Recvs(arriving, |received|, ChunkSize) == (received, sock.pending)
    ensures ServerRun(loads, start, received) == (Server(phase, disk.nodes), sock.sent)
    ensures phase.Finished?
  {
    received := received0;
    var current := tree;
    ghost var attemptedOn := disk.nodes;
    var status := JsonToFolder(disk, current, "");
    while status == Rename
      invariant sock.Valid()
      invariant Flatten(received + sock.pending) == stream
      invariant Recvs(arriving, |received|, ChunkSize) == (received, sock.pending)
      invariant Restored(status, disk.nodes) == Restore(attemptedOn, current, "")
      invariant ServerRun(loads, start, received)
                == (Attempt(attemptedOn, current).0, sock.sent + Attempt(attemptedOn, current).1)
      decreases |Flatten(sock.pending)|
    {
      ghost var sentBefore := sock.sent;
      ghost var unread := sock.pending;
      RecvOne(arriving, received, unread, ChunkSize);
      sock.Send(RENAME);
      var reply := sock.Recv(ChunkSize);
      RenameAnswered(loads, start, received, attemptedOn, current, sentBefore, reply);
      received := received + [reply];
      var newName := ParseNewName(reply);
      if newName.None? {
        return Finished(Crashed), received;
      }
      assert reply != [] by {
        EmptyNewName();
      }
      current := current.(name := newName.value);
      attemptedOn := disk.nodes;
      status := JsonToFolder(disk, current, "");
    }
    if status == Failed {
      assert sock.sent + [] == sock.sent;
      return Finished(Crashed), received;
    }
    sock.Send(DONE);
    return Finished(Served), received;
  }
}
