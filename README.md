# Website upload: uploader and receiver

This project is a Dafny model of a small website-hosting pair of scripts that talk over
TCP port 1337.

The uploader is `Linux/upload_website.py`. Its steps:

- It validates its command line: argument count, the IPv4 address regex, and whether the path exists and is a folder.
- It turns the website folder into a recursive `{type, name, entries | data}` tree (`folder_to_json`).
- It serializes the tree with `pickle` and announces the serialized length as decimal ASCII.
- If the reply is exactly `OK`, it sends the data in 1024-byte slices.
- It answers every `RENAME` reply with `NEWNAME:<name>`, taking the name from the user.

The receiver is `Windows/website_reciever.py`. Its steps:

- It parses the announced length. It replies `OK` for a positive length and `DENIED` otherwise.
- It accumulates `recv` results until it holds at least that many bytes (`recv_data_in_chunks`).
- It unpickles the result and writes the tree to disk (`json_to_folder`).
- While the top-level folder cannot be created, it replies `RENAME` and takes the first `:`-separated field after `NEWNAME` as the new name.
- It finishes with `DONE`.

The model is organised as follows:

- **Wire** and **Text** hold the byte and text layer:
  - a byte newtype;
  - the concatenation of received pieces;
  - strict UTF-8 `str.encode` / `bytes.decode`;
  - `str.split`, `str(n)` and `int(s)`.
- **FileSystem** is the disk:
  - a map from path strings to `Dir | File(bytes) | Special`;
  - the success rules of `os.mkdir` and `open(path, 'wb')`;
  - a `Disk` class that the receiver updates in place.
- **Net** is a socket as a class. `pending` is the non-empty fragments still to arrive; once they are used up, `recv` returns `b''` forever. `sent` is the log of `send` arguments.
- **Arguments** models `IP_PATTERN` and `validate_args`.
- **FolderJson** models `folder_to_json`, with a loop method proved against a recursive function.
- **ChunkedSend** models `send_data_in_chunks`, as an imperative loop proved against `Chunks`.
- **ChunkedRecv** models `recv_data_in_chunks`, as an imperative loop proved against `Receive`. Where the source loops forever on `b''`, the model stops and reports `hangs`.
- **FolderRestore** models `json_to_folder`, as a recursive method on a `Disk` proved against the pure `Restore`.
- **Protocol** holds the messages and their parsing.
- **Receiver** models `handle_client`: a step function over the results of the receiver's `recv` calls, its left fold `ServerRun`, and the imperative `HandleClient` proved to behave as that fold.
- **Uploader** models the same for `main`: `ClientStep`, `ClientRun`, and the imperative `SendWebsite` and `Upload`.
- **Conversation** composes the two runs. What one side sends is what the other reads. The lemmas about a whole upload assume that the names typed before the accepted one contain no `:`, so that no answer is cut at its `:`. When nothing the upload would create is on the receiver's disk yet, and the tree's names are as `os.listdir` gives them, a whole upload ends with the tree on the receiver's disk under the first name that could be created, every file holding exactly the uploader's bytes.

Behaviour of the code that the model keeps, as written:

- `$` in `IP_PATTERN` also matches just before a final newline, so `"1.2.3.4\n"` passes validation (`Arguments.IpAcceptedExamples`).
- `05` and `00` are accepted octets. `001` and `256` are not.
- `send_data_in_chunks` always sends `len(data) // 1024 + 1` slices. When the length is a multiple of 1024, including 0, the last slice is empty.
- `recv_data_in_chunks` does not trim: it may return up to 1023 bytes more than announced. It never ends if the peer closes early.
- A name answered to `RENAME` that contains `:` is cut at its first `:`.
- A nested folder whose directory cannot be made is skipped silently, together with its contents. The top level still answers `DONE`.
- The uploader prints `Done.` on any reply other than `RENAME`, including the `b''` it reads when the receiver's thread died.

## Model

| member | source | states |
|---|---|---|
| Text.DecimalString | Linux/upload_website.py:125 | `str(n)` of a length is a non-empty run of ASCII digits, without a leading `0` unless it is `0` itself |
| Text.ParseInt | Windows/website_reciever.py:80 | `int(s)` succeeds iff `s` is a non-empty run of ASCII digits, optionally after one `+` or `-`; an unsigned numeral gives a value of at least 0 |
| Text.Split | Windows/website_reciever.py:102 | `split(':')` yields at least one field, and no field contains `:` |
| FileSystem.MkdirOk | Windows/website_reciever.py:51-55 | `os.mkdir(relative_path)` succeeds iff the path, with one trailing `/` stripped (no `//`, `.` or `..` resolution), ends in a name other than empty, `.` and `..`, is not taken, and its parent is a directory or the current directory; every other case is the `except` branch |
| FileSystem.WriteOk | Windows/website_reciever.py:66 | `open(path, "wb")` succeeds iff the path ends in a name other than empty, `.` and `..` (so not in `/`), names nothing or a regular file, and its parent is a directory or the current directory |
| FileSystem.ParentLastName | Windows/website_reciever.py:47-52 | a path with a `/` is its parent, a `/` and the name it ends in; a path without one is all name, in the current directory |
| FileSystem.LastNameOfEntry | Windows/website_reciever.py:66 | `relative_path + name`, for a name without `/`, ends in `name` |
| FileSystem.DotNamesRefused | Windows/website_reciever.py:51-55 | `mkdir` and `open(..., "wb")` on a name `.` or `..`, with or without a trailing `/`, fail whatever is on the disk |
| FileSystem.Disk.Mkdir | Windows/website_reciever.py:51-55 | `os.mkdir` on the disk in place: it reports success exactly when `MkdirOk` holds, and then adds the directory and changes nothing else; on failure the disk is unchanged |
| FileSystem.Disk.WriteFile | Windows/website_reciever.py:66 | `open(path, "wb").write(data)` in place: it reports success exactly when `WriteOk` holds, and then stores exactly `data` at the path and changes nothing else; on failure the disk is unchanged |
| Net.Take | Windows/website_reciever.py:19 | one `recv(chunk_size)` returns at most `chunk_size` bytes, returns `b''` iff nothing is pending, and leaves only non-empty fragments pending |
| Net.TakeKeepsStream | Windows/website_reciever.py:19 | one `recv` keeps the stream: what it returns followed by what stays pending is what was pending |
| Net.Recvs | Windows/website_reciever.py:19 | `n` calls of `recv(bufsize)` in a row give `n` results and leave only non-empty fragments pending; the socket methods below are pinned to it |
| Net.RecvsExample | Windows/website_reciever.py:19 | with `b'5h'` then `b'\n'` arriving, the first `recv(1024)` returns `b'5h'` whole and the second `b'\n'`: the reads cannot re-split the stream |
| Net.RecvsKeepStream | Windows/website_reciever.py:19 | what `n` calls of `recv` returned, concatenated in order, followed by what stays pending, is what was pending |
| Net.Socket.Recv | Windows/website_reciever.py:19 | the socket's `recv` returns what `Take` returns, leaves the rest pending and does not touch the send log |
| Arguments.MatchesIpPattern | Linux/upload_website.py:25 | `re.match(IP_PATTERN, s) != None`: the text before the anchor splits at `.` into exactly four fields, each matching the octet group; what this means is proved in the rows that follow |
| Arguments.OctetIff | Linux/upload_website.py:9 | one octet group of `IP_PATTERN` matches a field iff it is 1 to 3 digits of value at most 255, and a 3-digit field does not start with `0` |
| Arguments.OctetExamples | Linux/upload_website.py:9 | `05`, `00`, `0` and `255` are octets; `001`, `256`, the empty field and `1000` are not |
| Arguments.IpAccepted | Linux/upload_website.py:9 | any four octets joined by `.` match the anchored pattern, with or without one trailing newline |
| Arguments.IpShape | Linux/upload_website.py:9 | a matching string is, apart from one trailing newline, four `.`-separated numerals each in 0..255 |
| Arguments.IpAcceptedExamples | Linux/upload_website.py:9 | `172.160.14.0` matches, and so does `1.2.3.4` followed by a newline |
| Arguments.IpRejectedExamples | Linux/upload_website.py:9 | three fields, a field of 256 and five fields are each rejected |
| Arguments.ValidateArgs | Linux/upload_website.py:13-41 | accepted iff there are exactly 3 arguments, the address matches and the path is a directory; the checks run in order (count, address, existence, directory) and the first failure decides the result |
| FolderJson.LastSegment | Linux/upload_website.py:70 | `split('/')[-1]` is the longest suffix without `/`, and it follows a `/` unless it is the whole path |
| FolderJson.LastSegmentOfChild | Linux/upload_website.py:75 | the last segment of `folder + '/' + entry` is `entry` |
| FolderJson.FolderTree | Linux/upload_website.py:67-71 | the result is a folder node named after the text after the last `/` of the path |
| FolderJson.EntriesFollowListing | Linux/upload_website.py:74-87 | `entries` has one element per listed name that is a regular file or a directory, in listing order; a file entry carries that file's exact bytes, and a directory entry is the recursive tree of that directory; other kinds of entry are skipped |
| FolderJson.FolderToJson | Linux/upload_website.py:43-88 | the loop that appends to `entries` and recurses returns exactly `FolderTree` |
| FolderJson.FolderTreeWellNamed | Linux/upload_website.py:67-87 | when `os.listdir` lists distinct names without `/` other than empty, `.` and `..`, every folder of the tree `folder_to_json` builds has entries with such names |
| ChunkedSend.Chunks | Linux/upload_website.py:100-101 | at least one slice is sent, and the last one is shorter than `chunk_size`: it is the remainder, empty when the size divides the length |
| ChunkedSend.ChunksFlatten | Linux/upload_website.py:100-102 | the slices sent, concatenated in order, are exactly `data` |
| ChunkedSend.ChunksCount | Linux/upload_website.py:100 | exactly `len(data) // chunk_size + 1` slices are sent |
| ChunkedSend.ChunksSizes | Linux/upload_website.py:100-101 | every slice but the last has exactly `chunk_size` bytes; the last has `len(data) % chunk_size`, so it is empty when the size divides the length |
| ChunkedSend.ChunkAt | Linux/upload_website.py:100-101 | the k-th slice sent is `data[k*chunk_size : k*chunk_size + chunk_size]` |
| ChunkedSend.SendDataInChunks | Linux/upload_website.py:90-103 | the socket's send log grows by exactly the slices `Chunks(data, chunk_size)`, and nothing is read |
| ChunkedRecv.Receive | Windows/website_reciever.py:18-21 | the loop either ends holding at least `total_size` bytes, or is stuck with nothing left to arrive and fewer bytes than that |
| ChunkedRecv.ReceiveSpec | Windows/website_reciever.py:11-21 | the result is the in-order concatenation of the `recv` results, and the unread rest follows it in the stream; before every `recv` fewer than `total_size` bytes were held; when it ends it holds at least `total_size` bytes, and for a positive `total_size` fewer than `total_size + chunk_size`; it never ends exactly when the stream closes short; with `total_size <= 0` nothing is read |
| ChunkedRecv.OvershootExample | Windows/website_reciever.py:18-21 | 3 bytes arriving for 2 announced are all returned, untrimmed |
| ChunkedRecv.EarlyCloseExample | Windows/website_reciever.py:18-20 | a peer closing after 1 of 2 announced bytes leaves the loop stuck |
| ChunkedRecv.RecvDataInChunks | Windows/website_reciever.py:11-21 | the loop's data, its `recv` results, the socket left over and whether it spins forever are those of `Receive`; its `recv` results and what stays pending are exactly those of that many `recv(chunk_size)` calls on the stream |
| FolderRestore.Restore | Windows/website_reciever.py:23-70 | `'RENAME'` is returned iff `mkdir(relative_path + name + '/')` fails, and then the disk is unchanged |
| FolderRestore.RestoreEntries | Windows/website_reciever.py:63-70 | the loop over `entries` never yields `'RENAME'`: a nested `'RENAME'` is ignored |
| FolderRestore.RestoreFrame | Windows/website_reciever.py:47-69 | `json_to_folder` deletes nothing and changes or adds only the paths of its footprint: `prefix + name + '/'` for each folder, and that path plus the file name for each file |
| FolderRestore.RestoreKeeps | Windows/website_reciever.py:47-69 | no directory or special file is replaced, and a file is only ever overwritten by a file |
| FolderRestore.RestoreCreatesDir | Windows/website_reciever.py:47-55 | unless it returns `'RENAME'`, the folder's directory did not exist before and is a directory at the end |
| FolderRestore.RestoreEntriesWritesFiles | Windows/website_reciever.py:63-66 | when the loop finishes, every file entry's `relative_path + name` holds a regular file; when the sibling names are distinct and free of `/`, that file holds exactly the entry's `data` |
| FolderRestore.RestoreWritesFiles | Windows/website_reciever.py:47-70 | after `'DONE'`, the folder's directory exists and every file directly inside it in the tree is a regular file on disk, holding exactly the entry's `data` when the names in the folder are distinct and free of `/` |
| FolderRestore.FootprintBelow | Windows/website_reciever.py:47-69 | every path `json_to_folder(node, prefix)` creates or writes is `prefix + name` itself or lies below `prefix + name + '/'` |
| FolderRestore.RestoreWritesTree | Windows/website_reciever.py:47-70 | on a disk where the parent exists and none of the paths the tree needs is taken, a well-named folder tree whose own name is not `.` or `..` is restored with `'DONE'`, and afterwards every folder of it is a directory and every file holds exactly its `data`, at any depth |
| FolderRestore.RestoreEntriesWritesTree | Windows/website_reciever.py:63-70 | the loop over well-named entries of an existing directory, on free paths, finishes and leaves every entry, and everything below it, on the disk with its exact contents |
| FolderRestore.DotFolderRenamed | Windows/website_reciever.py:47-55 | a folder named `.` or `..` is answered with `'RENAME'`, and nothing is written |
| FolderRestore.SkippedFolderExample | Windows/website_reciever.py:67-70 | of two sub-folders with the same name, the second is skipped with its file, and the top level still returns `'DONE'` |
| FolderRestore.JsonToFolder | Windows/website_reciever.py:23-70 | the in-place `mkdir`/`open` recursion returns the status of `Restore` and leaves the disk as `Restore` says |
| Protocol.ParseLength | Windows/website_reciever.py:80 | a first message that yields a length is non-empty and valid UTF-8: `decode` runs before `int` |
| Protocol.LengthRoundTrip | Linux/upload_website.py:125 | `int(str(n).encode().decode()) == n` for every length n ≥ 0 |
| Protocol.EmptyLength | Windows/website_reciever.py:80 | an empty first message is no length, so `int` raises |
| Protocol.ParseNewName | Windows/website_reciever.py:102 | the parsed name never contains `:` |
| Protocol.NewNameRoundTrip | Windows/website_reciever.py:102 | the answer `NEWNAME:` + name yields the name when it has no `:`, and otherwise the part before its first `:` |
| Protocol.EmptyNewName | Windows/website_reciever.py:102 | an empty answer has no field after `:`, so indexing raises |
| Receiver.Attempt | Windows/website_reciever.py:100-106 | one `json_to_folder` attempt sends `RENAME` iff it returned `'RENAME'` (and then waits for a new name, with the disk unchanged), `DONE` iff it returned `'DONE'`, and nothing iff it raised |
| Receiver.ServerStep | Windows/website_reciever.py:80-106 | the receiver replies `OK` iff it is awaiting the length and the message parses to a positive number, and replies `DENIED` and stops iff the number is 0 or less; a finished receiver ignores further messages; receiving data leaves the disk alone |
| Receiver.ServerRun | Windows/website_reciever.py:72-107 | `handle_client` sends at most one reply per message it reads |
| Receiver.FinishedStays | Windows/website_reciever.py:86-89 | after `DENIED` nothing more is read or sent |
| Receiver.Agreement | Windows/website_reciever.py:80-89 | the run on the header alone sends `OK` and starts receiving iff the length parses positive, and sends `DENIED` and stops iff it parses to 0 or less |
| Receiver.Gathering | Windows/website_reciever.py:18-20 | while fewer than the announced bytes have arrived, pieces are only accumulated |
| Receiver.DataArrived | Windows/website_reciever.py:94-100 | the piece that completes the data triggers deserialization and the first folder attempt |
| Receiver.DataCutShort | Windows/website_reciever.py:18-20 | pieces totalling less than announced leave the receiver waiting with all of them gathered |
| Receiver.RenameAnswered | Windows/website_reciever.py:100-103 | after `RENAME`, the answer's first field names the next attempt, and an answer without one ends the thread |
| Receiver.HandleClient | Windows/website_reciever.py:72-107 | `handle_client` on a socket and disk behaves as `ServerRun` over its `recv` results, which are exactly those of successive `recv(1024)` calls on the stream (`Recvs`), the rest staying pending: it sends exactly what the run sends and leaves the disk as the run says |
| Receiver.LastPiece | Windows/website_reciever.py:18-21 | the piece that brings the data to at least the announced length ends the loop: the whole data goes to `pickle.loads`, and a successful load starts the first folder attempt |
| Receiver.ReceiveWebsite | Windows/website_reciever.py:91-106 | after `OK`, receiving, deserializing and saving continue the run, over `recv` results that continue the successive `recv(1024)` calls on the stream (`Recvs`); it stops short only where the peer closed before all the data arrived |
| Receiver.SaveWebsite | Windows/website_reciever.py:99-106 | the rename loop continues the run from the first attempt until a `DONE` or an exception, each answer being the next `recv(1024)` on the stream (`Recvs`) |
| Uploader.Start | Linux/upload_website.py:125 | the first message sent is the decimal length header |
| Uploader.ClientStep | Linux/upload_website.py:128-142 | data is sent iff the agreement is exactly `OK`, and the slices sent concatenate to the serialized data; an answer is sent iff the reply is `RENAME` and the user still types a name; any other reply ends the loop; the tree's name changes only on `RENAME` |
| Uploader.ClientRun | Linux/upload_website.py:128-140 | what has been sent stays sent, and the tree changes at most its name, which is then one of the names the user typed |
| Uploader.RenameAnswer | Linux/upload_website.py:135-139 | the k-th `RENAME` is answered with `NEWNAME:` + the k-th typed name, and the tree takes that name |
| Uploader.SendWebsite | Linux/upload_website.py:124-142 | the conversation part of `main` behaves as `ClientRun` from `Start` over its `recv` results, which are exactly those of successive `recv(1024)` calls on the stream (`Recvs`), and sends exactly what the run sends |
| Uploader.AnswerRenames | Linux/upload_website.py:134-140 | the rename loop continues the run, each reply being the next `recv(1024)` on the stream (`Recvs`): each `RENAME` is answered while names remain, and it ends on any other reply |
| Uploader.Upload | Linux/upload_website.py:105-142 | `main` returns with nothing sent or read unless `validate_args` accepts; otherwise it serializes `folder_to_json(argv[2])` and behaves as `SendWebsite`, reading by successive `recv(1024)` calls (`Recvs`) |
| Conversation.ReceiverRenames | Windows/website_reciever.py:100-103 | i name answers after `RENAME`s move the receiver to its i-th attempt, having sent i more `RENAME`s |
| Conversation.UploaderRenames | Linux/upload_website.py:135-139 | i `RENAME`s make the uploader send i answers and rename its tree to the i-th typed name |
| Conversation.ReceiverServes | Windows/website_reciever.py:80-106 | with the header, any non-empty split of the data and k answers whose names contain no `:`, where the k-th name is the first that can be created, the receiver sends `OK`, k × `RENAME` and `DONE`, and its disk is the result of writing the tree under that name |
| Conversation.UploaderCompletes | Linux/upload_website.py:125-140 | on `OK`, k × `RENAME` and `DONE`, the uploader sends the header, the 1024-byte slices and k answers, and ends with `Done.` |
| Conversation.UploadServed | Linux/upload_website.py:125-140 | for typed names without `:`, each run produces the other's input; the bytes the uploader sends are header, data and answers in order; the receiver ends having served, with the tree written under the first free name |
| Conversation.UploadWritesTree | Windows/website_reciever.py:94-106 | when the earlier names, none containing `:`, were taken, the k-th name is ordinary and free of `/`, and nothing the k-th name would create is on the receiver's disk, the receiver serves the upload, replies `OK`, k `RENAME`s and `DONE`, and its disk ends holding the uploader's well-named tree under the k-th name, every file with exactly its bytes |
| Conversation.UploadDenied | Windows/website_reciever.py:83-89 | a client announcing `0` is answered with `DENIED`, and the uploader then sends nothing more and prints `Failed.` |

## Left out

- Sockets are not modelled as such. `socket`, `connect`, `bind`, `listen`, `accept` and `close` are left out. A connection is the sequence of fragments its `recv` calls return (with `b''` once the peer has closed) and the log of its `send` arguments.
- `send` is taken to transmit its whole argument. Partial sends are not modelled.
- `pickle.dumps` and `pickle.loads` are function parameters. `loads` returns `None` where it raises.
- The conversation lemmas assume that each `recv` returns one message of the peer; with TCP coalescing, that is not guaranteed.
- The server's `main` is left out: its thread per client and the `client_threads` list are about concurrency.
- `print`, `input()` and the prompt texts are left out. The names the user types are a parameter; running out of them stands for `input()` raising `EOFError`.
- `os.path.abspath` is left out: the website path is taken as already absolute and normalised, with no `.`, `..` or `//` handling.
- FileSystem.MkdirOk and FileSystem.WriteOk do not resolve `//` or a `.` or `..` inside a path: a path is looked up as written, less one trailing `/`, and only a last name of `.` or `..` is refused. So `mkdir('site//')`, which makes `site` where `site` is free, is refused in the model, and the receiver answers `RENAME` where it would answer `DONE`; `mkdir('a/../b/')` is judged on the key `a/../b`, not `b`. Such paths arise only from names the user types that end in or contain `/`.
- FileSystem.WriteOk: a file path with `//`, `.` or `..` inside it is looked up as written, so `open` is judged on the wrong key where a name from the network contains `/`.
- The disk is a map of path strings with POSIX-style `/` separators, also on the Windows receiver.
- Windows path rules are left out. Windows compares names case-insensitively and refuses `\ : * ? " < > |` in them. So `mkdir('Site/')` fails when `site` exists, and the receiver then answers `RENAME` where the model creates the folder; `open` fails on such names too. FileSystem.MkdirOk and FileSystem.WriteOk compare paths exactly and accept every character.
- Symbolic links, permissions and disk-full errors are left out.
- Other filesystem kinds are one `Special` kind.
- The busy wait `while not os.path.exists(relative_path)` after `mkdir` is left out: right after a successful `mkdir` the directory exists.
- `int(s)` is modelled for an optional sign and ASCII digits. Surrounding whitespace, `_` separators and non-ASCII digits, which Python also accepts, are left out.
- Tree nodes from the network that lack `name`, `entries`, `data` or `type`, or have another `type`, are left out. The tree is the well-formed datatype `Node`.
- ChunkedRecv.RecvDataInChunks: where the source spins forever on `b''`, the method stops and reports `hangs`.
- Receiver.HandleClient: the same applies to the data phase, which ends with the receiver still `Receiving`.
- `Web Server/Proxy Agent/proxy_agent.py` is not modelled.
