/** The uploader's `main`: check the arguments, turn the folder into a tree, announce the
    serialized length, send the data once the receiver agrees, and answer every `RENAME`
    with a new name read from the user. */
module Uploader {
  import opened Wire
  import opened Text
  import opened Net
  import opened FileSystem
  import opened FolderJson
  import opened Arguments
  import opened ChunkedSend
  import opened Protocol

  /** How `main` ended after connecting: it printed `Failed.`, it printed `Done.`, or
      `input()` raised `EOFError` because the user had no name left to give. */
  datatype ClientOutcome = Refused | Completed | NoInput

  /** Waiting for the answer to the length header, waiting for `RENAME` or anything else
      after `asked` new names were given, or done. */
  datatype ClientPhase =
    | AwaitingAgreement
    | AwaitingVerdict(asked: nat)
    | Finished(outcome: ClientOutcome)

  /** The phase and the folder tree, whose top-level `name` the rename loop updates. */
  datatype Client = Client(phase: ClientPhase, tree: Node)

  type Transition = (Client, seq<Bytes>)

  /** The state right after connecting: the length header has been sent. */
  function Start(tree: Node, serialized: Bytes): (r: Transition)
    ensures r.1 == [LengthHeader(|serialized|)]
  {
    (Client(AwaitingAgreement, tree), [LengthHeader(|serialized|)])
  }

  /** What `main` does with the result `message` of one of its `recv` calls; `names` are
      the lines the user will type at the `Enter new name: ` prompt. */
  function ClientStep(serialized: Bytes, names: seq<string>, c: Client, message: Bytes)
    : (r: Transition)
    ensures c.phase.Finished? ==> r == (c, [])
    ensures c.phase == AwaitingAgreement ==> (r.1 != [] <==> message == OK)
    ensures c.phase == AwaitingAgreement && message == OK ==>
              Flatten(r.1) == serialized && r.0.phase == AwaitingVerdict(0)
    ensures c.phase.AwaitingVerdict? ==>
              (r.1 != [] <==> message == RENAME && c.phase.asked < |names|)
    ensures c.phase.AwaitingVerdict? && message != RENAME ==> r == (Client(Finished(Completed), c.tree), [])
    ensures r.0.tree.name != c.tree.name ==> c.phase.AwaitingVerdict? && message == RENAME
    ensures r.0.tree == c.tree.(name := r.0.tree.name)
    ensures r.0.tree.name == c.tree.name || r.0.tree.name in names
  {
    match c.phase
    case AwaitingAgreement =>
      if message == OK then
        ChunksFlatten(serialized, ChunkSize);
        (Client(AwaitingVerdict(0), c.tree), Chunks(serialized, ChunkSize))
      else (Client(Finished(Refused), c.tree), [])
    case AwaitingVerdict(k) =>
      if message != RENAME then (Client(Finished(Completed), c.tree), [])
      else if k < |names| then
        (Client(AwaitingVerdict(k + 1), c.tree.(name := names[k])), [NewNameMessage(names[k])])
      else (Client(Finished(NoInput), c.tree), [])
    case Finished(_) => (c, [])
  }

  /** The state after handling `messages` in order, from the state and the messages sent
      in `init`, and everything sent. What was sent stays sent, and the tree changes at
      most its name, which is then one the user typed. */
  function ClientRun(serialized: Bytes, names: seq<string>, init: Transition,
                     messages: seq<Bytes>): (r: Transition)
    ensures init.1 <= r.1
    ensures r.0.tree == init.0.tree.(name := r.0.tree.name)
    ensures r.0.tree.name == init.0.tree.name || r.0.tree.name in names
  {
    if messages == [] then init
    else
      var (mid, before) := ClientRun(serialized, names, init, messages[..|messages| - 1]);
      var (next, sent) := ClientStep(serialized, names, mid, messages[|messages| - 1]);
      (next, before + sent)
  }

  lemma ClientSnoc(serialized: Bytes, names: seq<string>, init: Transition,
                   messages: seq<Bytes>, m: Bytes)
    ensures var (mid, before) := ClientRun(serialized, names, init, messages);
            var (next, sent) := ClientStep(serialized, names, mid, m);
            ClientRun(serialized, names, init, messages + [m]) == (next, before + sent)
  {
    assert (messages + [m])[..|messages|] == messages;
  }

  /** The `k`-th `RENAME` is answered with the `k`-th name the user typed, and the tree is
      renamed to it. */
  lemma RenameAnswer(serialized: Bytes, names: seq<string>, tree: Node, k: nat)
    requires k < |names|
    ensures ClientStep(serialized, names, Client(AwaitingVerdict(k), tree), RENAME)
            == (Client(AwaitingVerdict(k + 1), tree.(name := names[k])), [NewNameMessage(names[k])])
  {
  }

  /** The conversation part of `main`, on the socket `connect` returned: the header, the
      agreement, the chunks, and the rename loop. It behaves as `ClientRun` from `Start`
      over the results of its `recv` calls and sends exactly what the run sends. */
  method SendWebsite(sock: Socket, tree: Node, serialized: Bytes, names: seq<string>)
    returns (client: Client, ghost received: seq<Bytes>)
    requires sock.Valid() && sock.sent == []
    modifies sock
    ensures sock.Valid() && client.phase.Finished?
    ensures Flatten(received + sock.pending) == Flatten(old(sock.pending))
    ensures (received, sock.pending) == Recvs(old(sock.pending), |received|, ChunkSize)
    ensures ClientRun(serialized, names, Start(tree, serialized), received) == (client, sock.sent)
  {
    ghost var init := Start(tree, serialized);
    ghost var stream := Flatten(sock.pending);
    sock.Send(LengthHeader(|serialized|));
    assert [] + [LengthHeader(|serialized|)] == sock.sent;
    assert init.0 == Client(AwaitingAgreement, tree) && init.1 == sock.sent;
    ghost var unread := sock.pending;
    RecvsStep(unread, [], unread, ChunkSize);
    var agreement := sock.Recv(ChunkSize);
    ConsumeOne([], unread, ChunkSize);
    assert [] + unread == unread;
    received := [agreement];
    ClientSnoc(serialized, names, init, [], agreement);
    assert [] + [agreement] == received;
    if agreement != OK {
      assert ClientStep(serialized, names, init.0, agreement) == (Client(Finished(Refused), tree), []);
      assert sock.sent + [] == sock.sent;
      return Client(Finished(Refused), tree), received;
    }
    ghost var headerSent := sock.sent;
    SendDataInChunks(sock, serialized, ChunkSize);
    assert ClientStep(serialized, names, init.0, agreement)
           == (Client(AwaitingVerdict(0), tree), Chunks(serialized, ChunkSize));
    assert ClientRun(serialized, names, init, received)
           == (Client(AwaitingVerdict(0), tree), headerSent + Chunks(serialized, ChunkSize));
    client, received := AnswerRenames(sock, tree, serialized, names, init, received, stream, unread);
  }

  /** The `while connection_socket.recv(CHUNK_SIZE) == b'RENAME'` loop of `main`, entered
      after the data has been sent: it continues the run until a reply other than `RENAME`
      or until the user has no name left. */
  method AnswerRenames(sock: Socket, tree: Node, serialized: Bytes, names: seq<string>,
                       ghost init: Transition, ghost received0: seq<Bytes>, ghost stream: Bytes,
                       ghost arriving: seq<Bytes>)
    returns (client: Client, ghost received: seq<Bytes>)
    requires sock.Valid()
    requires Flatten(received0 + sock.pending) == stream
    requires AllNonEmpty(arriving)
    requires Recvs(arriving, |received0|, ChunkSize) == (received0, sock.pending)
    requires ClientRun(serialized, names, init, received0) == (Client(AwaitingVerdict(0), tree), sock.sent)
    modifies sock
    ensures sock.Valid() && client.phase.Finished?
    ensures Flatten(received + sock.pending) == stream
    ensures Recvs(arriving, |received|, ChunkSize) == (received, sock.pending)
    ensures ClientRun(serialized, names, init, received) == (client, sock.sent)
  {
    var folder := tree;
    var asked := 0;
    ghost var prior := received0;
    ghost var unread := sock.pending;
    RecvOne(arriving, prior, unread, ChunkSize);
    var reply := sock.Recv(ChunkSize);
    received := prior + [reply];
    while reply == RENAME
      invariant received == prior + [reply]
      invariant sock.Valid()
      invariant Flatten(received + sock.pending) == stream
      invariant Recvs(arriving, |received|, ChunkSize) == (received, sock.pending)
      invariant ClientRun(serialized, names, init, prior)
                == (Client(AwaitingVerdict(asked), folder), sock.sent)
      decreases |Flatten(sock.pending)| + if reply == RENAME then 1 else 0
    {
      ClientSnoc(serialized, names, init, prior, reply);
      if asked >= |names| {
        // input() raises EOFError: nothing more is sent.
        assert sock.sent + [] == sock.sent;
        return Client(Finished(NoInput), folder), received;
      }
      var newName := names[asked];
      RenameAnswer(serialized, names, folder, asked);
      folder := folder.(name := newName);
      asked := asked + 1;
      sock.Send(NewNameMessage(newName));
      prior := received;
      unread := sock.pending;
      RecvOne(arriving, received, unread, ChunkSize);
      reply := sock.Recv(ChunkSize);
      received := received + [reply];
    }
    ClientSnoc(serialized, names, init, prior, reply);
    assert sock.sent + [] == sock.sent;
    return Client(Finished(Completed), folder), received;
  }

  /** `main()` with `argv` for `sys.argv`, `v` and `listdir` for the uploader's filesystem,
      `dumps` for `pickle.dumps` and `names` for what the user types. Where `validate_args`
      refuses, nothing is sent or read; otherwise the tree of `argv[2]` is serialized and
      sent as `SendWebsite` describes. */
  method Upload(sock: Socket, argv: seq<string>, v: Volume, listdir: Listing,
                dumps: Node -> Bytes, names: seq<string>)
    returns (check: ArgsCheck, client: Client, ghost received: seq<Bytes>)
    requires sock.Valid() && sock.sent == []
    modifies sock
    ensures sock.Valid()
    ensures check == ValidateArgs(argv, v)
    ensures check != Accepted ==> sock.sent == [] && sock.pending == old(sock.pending)
    ensures check == Accepted ==>
              var tree := FolderTree(v, listdir, argv[2]);
              && client.phase.Finished?
              && Flatten(received + sock.pending) == Flatten(old(sock.pending))
              && Recvs(old(sock.pending), |received|, ChunkSize) == (received, sock.pending)
              && ClientRun(dumps(tree), names, Start(tree, dumps(tree)), received)
                 == (client, sock.sent)
  {
    check := ValidateArgs(argv, v);
    if check != Accepted {
      return check, Client(AwaitingAgreement, Folder([], [])), [];
    }
    var websiteFolderPath := argv[2];
    var tree := FolderToJson(v, listdir, websiteFolderPath);
    var serialized := dumps(tree);
    client, received := SendWebsite(sock, tree, serialized, names);
  }
}
