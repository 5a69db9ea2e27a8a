/** The uploader and the receiver talking to each other: what each sends is what the other
    reads. */
module Conversation {
  import opened Wire
  import opened Text
  import opened Net
  import opened FileSystem
  import opened FolderJson
  import opened FolderRestore
  import opened ChunkedSend
  import opened ChunkedRecv
  import opened Protocol
  import Receiver
  import Uploader

  /** `k` copies of `RENAME`. */
  function Renames(k: nat): (r: seq<Bytes>)
    ensures |r| == k && forall i :: 0 <= i < k ==> r[i] == RENAME
  {
    if k == 0 then [] else Renames(k - 1) + [RENAME]
  }

  /** The uploader's answers to the receiver's `RENAME`s, one per name. */
  function NewNames(names: seq<string>): (r: seq<Bytes>)
    ensures |r| == |names| && forall i :: 0 <= i < |names| ==> r[i] == NewNameMessage(names[i])
  {
    if names == [] then [] else NewNames(names[..|names| - 1]) + [NewNameMessage(names[|names| - 1])]
  }

  /** The tree after `i` renames: the original one, then named by the `i`-th typed name. */
  function Named(tree: Node, names: seq<string>, i: nat): Node
    requires i <= |names|
  {
    if i == 0 then tree else tree.(name := names[i - 1])
  }

  /** No answer that is sent is cut short, and every attempt before the `k`-th is refused
      with `RENAME` while the `k`-th is not. */
  ghost predicate RenamesBefore(v: Volume, tree: Node, names: seq<string>, k: nat)
    requires k <= |names|
  {
    forall j :: 0 <= j < k ==> ':' !in names[j] && Restore(v, Named(tree, names, j), "").status == Rename
  }

  /** The receiver's side of the rename loop: after `i` answers it is at attempt `i`, having
      sent `i` more `RENAME`s. */
  lemma {:induction false} ReceiverRenames(loads: Bytes -> Option<Node>, s: Receiver.Server,
                                           messages: seq<Bytes>, sent: seq<Bytes>, v: Volume,
                                           tree: Node, names: seq<string>, i: nat)
    requires i <= |names| && RenamesBefore(v, tree, names, i)
    requires Receiver.ServerRun(loads, s, messages)
             == (Receiver.Attempt(v, tree).0, sent + Receiver.Attempt(v, tree).1)
    ensures var t := Named(tree, names, i);
            Receiver.ServerRun(loads, s, messages + NewNames(names[..i]))
            == (Receiver.Attempt(v, t).0, sent + Renames(i) + Receiver.Attempt(v, t).1)
  {
    if i == 0 {
      assert messages + NewNames(names[..0]) == messages;
      assert sent + Renames(0) == sent;
    } else {
      var m := NewNameMessage(names[i - 1]);
      var before := messages + NewNames(names[..i - 1]);
      var sentBefore := sent + Renames(i - 1);
      ReceiverRenames(loads, s, messages, sent, v, tree, names, i - 1);
      NewNamesSnoc(names, i);
      Associative(messages, NewNames(names[..i - 1]), [m]);
      Associative(sent, Renames(i - 1), [RENAME]);
      ReceiverRenameStep(loads, s, before, sentBefore, v, Named(tree, names, i - 1), names[i - 1],
                         messages + NewNames(names[..i]), sent + Renames(i), Named(tree, names, i));
    }
  }

  lemma NewNamesSnoc(names: seq<string>, i: nat)
    requires 0 < i <= |names|
    ensures NewNames(names[..i]) == NewNames(names[..i - 1]) + [NewNameMessage(names[i - 1])]
  {
    assert names[..i][..i - 1] == names[..i - 1];
  }

  /** One `RENAME` answered with a name without `:` moves the receiver to the next attempt. */
  lemma ReceiverRenameStep(loads: Bytes -> Option<Node>, s: Receiver.Server, messages: seq<Bytes>,
                           sent: seq<Bytes>, v: Volume, tree: Node, name: string,
                           messages': seq<Bytes>, sent': seq<Bytes>, tree': Node)
    requires ':' !in name && Restore(v, tree, "").status == Rename
    requires Receiver.ServerRun(loads, s, messages)
             == (Receiver.Attempt(v, tree).0, sent + Receiver.Attempt(v, tree).1)
    requires messages' == messages + [NewNameMessage(name)] && sent' == sent + [RENAME]
    requires tree' == tree.(name := name)
    ensures Receiver.ServerRun(loads, s, messages')
            == (Receiver.Attempt(v, tree').0, sent' + Receiver.Attempt(v, tree').1)
  {
    NewNameRoundTrip(name);
    Receiver.RenameAnswered(loads, s, messages, v, tree, sent, NewNameMessage(name));
  }

  /** A non-empty part of a stream split into non-empty pieces is reached only with the
      last piece. */
  lemma {:induction false} PrefixesShorter(pieces: seq<Bytes>, j: nat)
    requires AllNonEmpty(pieces) && j < |pieces|
    ensures |Flatten(pieces[..j])| < |Flatten(pieces)|
  {
    assert pieces == pieces[..j] + pieces[j..];
    FlattenConcat(pieces[..j], pieces[j..]);
    assert pieces[j..] == [pieces[j]] + pieces[j + 1..];
  }

  /** What the receiver does with an upload whose data arrives in any non-empty pieces and
      whose `k`-th proposed name is the first it can create: it answers `OK`, `k` times
      `RENAME`, then `DONE`, and the disk afterwards is that of writing the tree under its
      `k`-th name. */
  lemma ReceiverServes(loads: Bytes -> Option<Node>, v: Volume, serialized: Bytes, tree: Node,
                       pieces: seq<Bytes>, names: seq<string>, k: nat)
    requires |serialized| > 0 && loads(serialized) == Some(tree)
    requires AllNonEmpty(pieces) && Flatten(pieces) == serialized
    requires k <= |names| && RenamesBefore(v, tree, names, k)
    requires Restore(v, Named(tree, names, k), "").status == Done
    ensures var messages := [LengthHeader(|serialized|)] + pieces + NewNames(names[..k]);
            Receiver.ServerRun(loads, Receiver.Server(Receiver.AwaitingLength, v), messages)
            == (Receiver.Server(Receiver.Finished(Receiver.Served),
                                Restore(v, Named(tree, names, k), "").volume),
                [OK] + Renames(k) + [DONE])
  {
    var start := Receiver.Server(Receiver.AwaitingLength, v);
    var header := LengthHeader(|serialized|);
    LengthRoundTrip(|serialized|);
    Receiver.Agreement(loads, v, header);
    forall j | 0 <= j < |pieces| ensures |Flatten(pieces[..j])| < |serialized| {
      PrefixesShorter(pieces, j);
    }
    assert pieces != [];
    Receiver.DataArrived(loads, start, [header], |serialized|, v, [OK], pieces);
    ReceiverRenames(loads, start, [header] + pieces, [OK], v, tree, names, k);
  }

  /** The uploader's side of the rename loop: after `i` `RENAME`s it has sent `i` answers
      and its tree carries the `i`-th typed name. */
  lemma {:induction false} UploaderRenames(serialized: Bytes, names: seq<string>,
                                           init: Uploader.Transition, messages: seq<Bytes>,
                                           sent: seq<Bytes>, tree: Node, i: nat)
    requires i <= |names|
    requires Uploader.ClientRun(serialized, names, init, messages)
             == (Uploader.Client(Uploader.AwaitingVerdict(0), tree), sent)
    ensures Uploader.ClientRun(serialized, names, init, messages + Renames(i))
            == (Uploader.Client(Uploader.AwaitingVerdict(i), Named(tree, names, i)),
                sent + NewNames(names[..i]))
  {
    if i == 0 {
      assert messages + Renames(0) == messages;
      assert sent + NewNames(names[..0]) == sent;
    } else {
      UploaderRenames(serialized, names, init, messages, sent, tree, i - 1);
      Uploader.ClientSnoc(serialized, names, init, messages + Renames(i - 1), RENAME);
      Uploader.RenameAnswer(serialized, names, Named(tree, names, i - 1), i - 1);
      Associative(messages, Renames(i - 1), [RENAME]);
      NewNamesSnoc(names, i);
      Associative(sent, NewNames(names[..i - 1]), [NewNameMessage(names[i - 1])]);
      assert Named(tree, names, i - 1).(name := names[i - 1]) == Named(tree, names, i);
    }
  }

  /** What the uploader does with the receiver's `OK`, `k` `RENAME`s and `DONE`: it sends the
      header, the data in 1024-byte chunks and `k` answers, and ends printing `Done.` with
      its tree under the `k`-th name. */
  lemma UploaderCompletes(serialized: Bytes, names: seq<string>, tree: Node, k: nat)
    requires k <= |names|
    ensures Uploader.ClientRun(serialized, names, Uploader.Start(tree, serialized),
                               [OK] + Renames(k) + [DONE])
            == (Uploader.Client(Uploader.Finished(Uploader.Completed), Named(tree, names, k)),
                [LengthHeader(|serialized|)] + Chunks(serialized, ChunkSize) + NewNames(names[..k]))
  {
    var init := Uploader.Start(tree, serialized);
    var header := LengthHeader(|serialized|);
    Uploader.ClientSnoc(serialized, names, init, [], OK);
    assert [] + [OK] == [OK];
    UploaderRenames(serialized, names, init, [OK], [header] + Chunks(serialized, ChunkSize), tree, k);
    Uploader.ClientSnoc(serialized, names, init, [OK] + Renames(k), DONE);
    var sends := [header] + Chunks(serialized, ChunkSize) + NewNames(names[..k]);
    assert sends + [] == sends;
  }

  /** A whole successful upload. The receiver reads the uploader's messages, with the data
      in whatever non-empty pieces the network delivers (the chunks themselves when it
      keeps every chunk whole), and the uploader reads the receiver's replies: the two
      runs produce each other's input, the receiver ends having served, its disk holds the
      tree as written under the first name that could be created, and the uploader ends
      printing `Done.`. */
  lemma UploadServed(loads: Bytes -> Option<Node>, v: Volume, serialized: Bytes, tree: Node,
                     pieces: seq<Bytes>, names: seq<string>, k: nat)
    requires |serialized| > 0 && loads(serialized) == Some(tree)
    requires AllNonEmpty(pieces) && Flatten(pieces) == serialized
    requires k <= |names| && RenamesBefore(v, tree, names, k)
    requires Restore(v, Named(tree, names, k), "").status == Done
    ensures var replies := [OK] + Renames(k) + [DONE];
            var (client, sends) := Uploader.ClientRun(serialized, names,
                                                      Uploader.Start(tree, serialized), replies);
            && sends == [LengthHeader(|serialized|)] + Chunks(serialized, ChunkSize)
                        + NewNames(names[..k])
            && Flatten(sends) == LengthHeader(|serialized|) + serialized
                                 + Flatten(NewNames(names[..k]))
            && client == Uploader.Client(Uploader.Finished(Uploader.Completed), Named(tree, names, k))
            && Receiver.ServerRun(loads, Receiver.Server(Receiver.AwaitingLength, v),
                                  [LengthHeader(|serialized|)] + pieces + NewNames(names[..k]))
               == (Receiver.Server(Receiver.Finished(Receiver.Served),
                                   Restore(v, Named(tree, names, k), "").volume),
                   replies)
  {
    UploaderCompletes(serialized, names, tree, k);
    ReceiverServes(loads, v, serialized, tree, pieces, names, k);
    var header := LengthHeader(|serialized|);
    var chunks := Chunks(serialized, ChunkSize);
    FlattenConcat([header] + chunks, NewNames(names[..k]));
    FlattenConcat([header], chunks);
    ChunksFlatten(serialized, ChunkSize);
    assert Flatten([header]) == header + Flatten([]);
  }

  /** A whole upload onto free ground: when the earlier names were taken and nothing the
      `k`-th name would create is on the receiver's disk, the receiver serves the upload
      and its disk ends holding the uploader's tree under that name, every folder a
      directory and every file with exactly the bytes the uploader read. */
  lemma UploadWritesTree(loads: Bytes -> Option<Node>, v: Volume, serialized: Bytes, tree: Node,
                         pieces: seq<Bytes>, names: seq<string>, k: nat)
    requires |serialized| > 0 && loads(serialized) == Some(tree)
    requires AllNonEmpty(pieces) && Flatten(pieces) == serialized
    requires k <= |names| && RenamesBefore(v, tree, names, k)
    requires tree.Folder? && WellNamed(tree)
    requires OrdinaryName(Named(tree, names, k).name) && '/' !in Named(tree, names, k).name
    requires forall p :: p in Footprint(Named(tree, names, k), "") ==> p !in v
    ensures var (server, replies) := Receiver.ServerRun(loads, Receiver.Server(Receiver.AwaitingLength, v),
                                       [LengthHeader(|serialized|)] + pieces + NewNames(names[..k]));
            && server.phase == Receiver.Finished(Receiver.Served)
            && replies == [OK] + Renames(k) + [DONE]
            && OnDisk(server.volume, Named(tree, names, k), "")
  {
    var t := Named(tree, names, k);
    assert WellNamed(t);
    RestoreWritesTree(v, t, "");
    ReceiverServes(loads, v, serialized, tree, pieces, names, k);
  }

  /** A client announcing 0 bytes: the header says 0, the receiver answers `DENIED` and
      stops, and the uploader sends nothing more and prints `Failed.`. */
  lemma UploadDenied(loads: Bytes -> Option<Node>, v: Volume, tree: Node, names: seq<string>)
    ensures Receiver.ServerRun(loads, Receiver.Server(Receiver.AwaitingLength, v), [LengthHeader(0)])
            == (Receiver.Server(Receiver.Finished(Receiver.Denied), v), [DENIED])
    ensures Uploader.ClientRun([], names, Uploader.Start(tree, []), [DENIED])
            == (Uploader.Client(Uploader.Finished(Uploader.Refused), tree), [LengthHeader(0)])
  {
    LengthRoundTrip(0);
    Receiver.Agreement(loads, v, LengthHeader(0));
    Uploader.ClientSnoc([], names, Uploader.Start(tree, []), [], DENIED);
    assert [] + [DENIED] == [DENIED];
    assert [LengthHeader(0)] + [] == [LengthHeader(0)];
  }
}
