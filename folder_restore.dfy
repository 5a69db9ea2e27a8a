/** The receiver's `json_to_folder`: it writes a folder tree back onto the disk under a
    relative path. */
module FolderRestore {
  import opened Wire
  import opened FileSystem
  import opened FolderJson

  /** What `json_to_folder` returns (`'DONE'` or `'RENAME'`), or that it raised: an
      `OSError` from `open`, or a `KeyError` for a top-level node without `entries`. */
  datatype Status = Done | Rename | Failed

  /** The status and the disk afterwards. */
  datatype Restored = Restored(status: Status, volume: Volume)

  /** Number of nodes in a tree, so that the mutual recursion below is seen to end. */
  function Size(n: Node): (s: nat)
    ensures s >= 1
  {
    match n
    case FileEntry(_, _) => 1
    case Folder(_, entries) => 1 + SizeAll(entries)
  }

  function SizeAll(es: seq<Node>): nat
  {
    if es == [] then 0 else Size(es[0]) + SizeAll(es[1..])
  }

  lemma {:induction false} SizeAllBound(es: seq<Node>, i: nat)
    requires i < |es|
    ensures Size(es[i]) <= SizeAll(es)
  {
    if i > 0 {
      SizeAllBound(es[1..], i - 1);
    }
  }

  /** The directory path `json_to_folder(node, prefix)` creates: `prefix + name + '/'`. */
  function FolderPath(node: Node, prefix: string): string
  {
    prefix + node.name + "/"
  }

  /** `json_to_folder(node, prefix)` on the disk `v`. */
  function Restore(v: Volume, node: Node, prefix: string): (r: Restored)
    ensures r.status == Rename <==> !MkdirOk(v, FolderPath(node, prefix))
    ensures r.status == Rename ==> r.volume == v
    decreases Size(node), 0
  {
    var path := FolderPath(node, prefix);
    if !MkdirOk(v, path) then Restored(Rename, v)
    else
      var created := v[DirKey(path) := Dir];
      match node
      case FileEntry(_, _) => Restored(Failed, created)
      case Folder(_, entries) => RestoreEntries(created, entries, path)
  }

  /** A tree named `.` or `..` is answered with `'RENAME'` and nothing is written: its
      directory always exists already. */
  lemma DotFolderRenamed(v: Volume, node: Node, prefix: string)
    requires prefix == [] || prefix[|prefix| - 1] == '/'
    requires node.name == "." || node.name == ".."
    ensures Restore(v, node, prefix) == Restored(Rename, v)
  {
    DotNamesRefused(v, prefix, node.name);
  }

  /** The loop over `entries` of the folder whose directory `path` was just created: a
      file entry is written to `path + name`; a folder entry is restored recursively and a
      `'RENAME'` it returns is ignored; the first exception ends everything. */
  function RestoreEntries(v: Volume, entries: seq<Node>, path: string): (r: Restored)
    ensures r.status != Rename
    decreases SizeAll(entries), 1
  {
    if entries == [] then Restored(Done, v)
    else
      match entries[0]
      case FileEntry(name, data) =>
        if WriteOk(v, path + name) then RestoreEntries(v[path + name := File(data)], entries[1..], path)
        else Restored(Failed, v)
      case Folder(_, _) =>
        var sub := Restore(v, entries[0], path);
        if sub.status == Failed then sub else RestoreEntries(sub.volume, entries[1..], path)
  }

  /** The paths `json_to_folder(node, prefix)` may create or overwrite: the folder's own
      directory, and below it `path + name` for every file entry and the footprint of
      every folder entry. */
  function Footprint(node: Node, prefix: string): set<string>
    decreases Size(node), 0
  {
    var path := FolderPath(node, prefix);
    {DirKey(path)} + match node
      case FileEntry(_, _) => {}
      case Folder(_, entries) => FootprintAll(entries, path)
  }

  function FootprintAll(entries: seq<Node>, path: string): set<string>
    decreases SizeAll(entries), 1
  {
    if entries == [] then {}
    else
      (match entries[0]
       case FileEntry(name, _) => {path + name}
       case Folder(_, _) => Footprint(entries[0], path))
      + FootprintAll(entries[1..], path)
  }

  /** `v` and `w` agree everywhere outside `fp`, and `w` removes nothing. */
  ghost predicate ChangesOnly(v: Volume, w: Volume, fp: set<string>)
  {
    v.Keys <= w.Keys && forall k :: k in v && k !in fp ==> w[k] == v[k]
  }

  ghost predicate AddsOnly(v: Volume, w: Volume, fp: set<string>)
  {
    forall k :: k in w && k !in v ==> k in fp
  }

  /** `json_to_folder` deletes nothing and touches no path outside its footprint: every
      directory it makes is `prefix` followed by folder names each ending in `/`, and
      every file it writes is such a directory path followed by the file's name. */
  lemma {:induction false} RestoreFrame(v: Volume, node: Node, prefix: string)
    ensures var r := Restore(v, node, prefix);
            ChangesOnly(v, r.volume, Footprint(node, prefix))
            && AddsOnly(v, r.volume, Footprint(node, prefix))
    decreases Size(node), 0
  {
    var path := FolderPath(node, prefix);
    if MkdirOk(v, path) && node.Folder? {
      RestoreEntriesFrame(v[DirKey(path) := Dir], node.entries, path);
    }
  }

  lemma {:induction false} RestoreEntriesFrame(v: Volume, entries: seq<Node>, path: string)
    ensures var r := RestoreEntries(v, entries, path);
            ChangesOnly(v, r.volume, FootprintAll(entries, path))
            && AddsOnly(v, r.volume, FootprintAll(entries, path))
    decreases SizeAll(entries), 1
  {
    if entries != [] {
      match entries[0]
      case FileEntry(name, data) =>
        if WriteOk(v, path + name) {
          RestoreEntriesFrame(v[path + name := File(data)], entries[1..], path);
        }
      case Folder(_, _) =>
        SizeAllBound(entries, 0);
        RestoreFrame(v, entries[0], path);
        var sub := Restore(v, entries[0], path);
        if sub.status != Failed {
          RestoreEntriesFrame(sub.volume, entries[1..], path);
        }
    }
  }

  /** Every path of `v` is still there in `w`; a file may have been overwritten by another
      file, and nothing else has changed. */
  ghost predicate KindsKept(v: Volume, w: Volume)
  {
    forall k :: k in v ==> k in w && (v[k].File? ==> w[k].File?) && (!v[k].File? ==> w[k] == v[k])
  }

  /** `json_to_folder` replaces no directory and no special file, and turns no file into
      anything but a file: `mkdir` fails on a taken name and `open` on a directory. */
  lemma {:induction false} RestoreKeeps(v: Volume, node: Node, prefix: string)
    ensures KindsKept(v, Restore(v, node, prefix).volume)
    decreases Size(node), 0
  {
    var path := FolderPath(node, prefix);
    if MkdirOk(v, path) && node.Folder? {
      var created := v[DirKey(path) := Dir];
      RestoreEntriesKeeps(created, node.entries, path);
      assert KindsKept(v, created);
    }
  }

  lemma {:induction false} RestoreEntriesKeeps(v: Volume, entries: seq<Node>, path: string)
    ensures KindsKept(v, RestoreEntries(v, entries, path).volume)
    decreases SizeAll(entries), 1
  {
    if entries != [] {
      match entries[0]
      case FileEntry(name, data) =>
        if WriteOk(v, path + name) {
          var written := v[path + name := File(data)];
          RestoreEntriesKeeps(written, entries[1..], path);
          assert KindsKept(v, written);
        }
      case Folder(_, _) =>
        SizeAllBound(entries, 0);
        RestoreKeeps(v, entries[0], path);
        var sub := Restore(v, entries[0], path);
        if sub.status != Failed {
          RestoreEntriesKeeps(sub.volume, entries[1..], path);
        }
    }
  }

  /** Unless it answers `'RENAME'`, `json_to_folder` has created `prefix + name + '/'`, a
      directory that was not there before, and it is still a directory at the end. */
  lemma RestoreCreatesDir(v: Volume, node: Node, prefix: string)
    ensures var r := Restore(v, node, prefix);
            var dir := DirKey(FolderPath(node, prefix));
            r.status != Rename ==> dir !in v && IsDir(r.volume, dir)
  {
    var path := FolderPath(node, prefix);
    if MkdirOk(v, path) && node.Folder? {
      RestoreEntriesKeeps(v[DirKey(path) := Dir], node.entries, path);
    }
  }

  /** The text of `s` before its first `/`. */
  function Head(s: string): string
  {
    if s == [] || s[0] == '/' then [] else [s[0]] + Head(s[1..])
  }

  lemma {:induction false} HeadOf(a: string, t: string)
    requires '/' !in a && (t == [] || t[0] == '/')
    ensures Head(a + t) == a
  {
    if a == [] {
      assert a + t == t;
    } else {
      assert (a + t)[1..] == a[1..] + t;
      HeadOf(a[1..], t);
      assert a == [a[0]] + a[1..];
    }
  }

  /** `p` is `base` followed by anything. */
  ghost predicate Under(p: string, base: string)
  {
    |base| <= |p| && p[..|base|] == base
  }

  /** `p` is the entry `name` of the directory `path`, or lies below it. */
  ghost predicate Below(p: string, path: string, name: string)
  {
    p == path + name || Under(p, path + name + "/")
  }

  /** A path below the entry `name` of `path` names that entry first. */
  lemma BelowName(p: string, path: string, name: string)
    requires Below(p, path, name) && '/' !in name
    ensures |path| <= |p| && p[..|path|] == path && Head(p[|path|..]) == name
  {
    if p == path + name {
      assert p[|path|..] == name + [];
      HeadOf(name, []);
    } else {
      var base := path + name + "/";
      var rest := p[|base|..];
      assert p == base + rest;
      assert p[|path|..] == name + ("/" + rest);
      HeadOf(name, "/" + rest);
    }
  }

  lemma BelowNames(path: string)
    ensures forall p, name :: Below(p, path, name) && '/' !in name ==>
              |path| <= |p| && Head(p[|path|..]) == name
  {
    forall p, name | Below(p, path, name) && '/' !in name
      ensures |path| <= |p| && Head(p[|path|..]) == name
    {
      BelowName(p, path, name);
    }
  }

  /** The paths the loop over `entries` touches for the single entry `e`. */
  function EntryFootprint(e: Node, path: string): set<string>
  {
    match e
    case FileEntry(name, _) => {path + name}
    case Folder(_, _) => Footprint(e, path)
  }

  lemma {:induction false} FootprintAllSplit(entries: seq<Node>, path: string)
    requires entries != []
    ensures FootprintAll(entries, path) == EntryFootprint(entries[0], path) + FootprintAll(entries[1..], path)
  {
  }

  lemma {:induction false} EntryInFootprintAll(entries: seq<Node>, path: string, i: nat)
    requires i < |entries|
    ensures EntryFootprint(entries[i], path) <= FootprintAll(entries, path)
  {
    FootprintAllSplit(entries, path);
    if i > 0 {
      EntryInFootprintAll(entries[1..], path, i - 1);
    }
  }

  /** Everything `json_to_folder(node, prefix)` touches lies at or below
      `prefix + name`. */
  lemma {:induction false} FootprintBelow(node: Node, prefix: string)
    ensures forall p :: p in Footprint(node, prefix) ==> Below(p, prefix, node.name)
    decreases Size(node), 0
  {
    var path := FolderPath(node, prefix);
    assert DirKey(path) == prefix + node.name;
    if node.Folder? {
      FootprintAllBelow(node.entries, path);
      forall p | p in FootprintAll(node.entries, path)
        ensures Under(p, path)
      {
        var j :| 0 <= j < |node.entries| && Below(p, path, node.entries[j].name);
        var base := path + node.entries[j].name;
        if p != base {
          assert (base + "/")[..|path|] == path;
          assert p[..|path|] == p[..|base + "/"|][..|path|];
        } else {
          assert p[..|path|] == path;
        }
      }
    }
  }

  /** Everything the loop over `entries` touches lies at or below one of the entries. */
  lemma {:induction false} FootprintAllBelow(entries: seq<Node>, path: string)
    ensures forall p :: p in FootprintAll(entries, path) ==>
              exists j :: 0 <= j < |entries| && Below(p, path, entries[j].name)
    decreases SizeAll(entries), 1
  {
    if entries != [] {
      SizeAllBound(entries, 0);
      if entries[0].Folder? {
        FootprintBelow(entries[0], path);
      }
      FootprintAllBelow(entries[1..], path);
      forall p | p in FootprintAll(entries, path)
        ensures exists j :: 0 <= j < |entries| && Below(p, path, entries[j].name)
      {
        if p in FootprintAll(entries[1..], path) {
          var j :| 0 <= j < |entries[1..]| && Below(p, path, entries[1..][j].name);
          assert entries[1..][j] == entries[j + 1];
        } else {
          assert Below(p, path, entries[0].name);
        }
      }
    }
  }

  lemma DistinctRest(entries: seq<Node>)
    requires entries != [] && DistinctNames(entries)
    ensures DistinctNames(entries[1..])
    ensures forall j :: 0 <= j < |entries[1..]| ==> entries[1..][j].name != entries[0].name
  {
    forall i, j | 0 <= i < j < |entries[1..]|
      ensures entries[1..][i].name != entries[1..][j].name
    {
      assert entries[1..][i] == entries[i + 1] && entries[1..][j] == entries[j + 1];
    }
  }

  /** Under distinct names, what one entry touches and what its later siblings touch are
      apart. */
  lemma EntryApart(entries: seq<Node>, path: string)
    requires entries != [] && DistinctNames(entries)
    ensures forall p :: p in FootprintAll(entries[1..], path) ==> p !in EntryFootprint(entries[0], path)
  {
    DistinctRest(entries);
    if entries[0].Folder? {
      FootprintBelow(entries[0], path);
    }
    assert forall p :: p in EntryFootprint(entries[0], path) ==> Below(p, path, entries[0].name);
    FootprintAllBelow(entries[1..], path);
    BelowNames(path);
  }

  /** The entry `e` of the directory `path` is on the disk `w` as the tree says: a file
      entry is a regular file holding exactly its bytes, a folder entry a directory whose
      entries are on the disk in turn. */
  ghost predicate OnDisk(w: Volume, e: Node, path: string)
    decreases e
  {
    match e
    case FileEntry(name, data) => path + name in w && w[path + name] == File(data)
    case Folder(_, entries) =>
      && IsDir(w, DirKey(FolderPath(e, path)))
      && forall i :: 0 <= i < |entries| ==> OnDisk(w, entries[i], FolderPath(e, path))
  }

  /** What is on the disk stays there through changes outside what it occupies. */
  lemma {:induction false} OnDiskFrame(w1: Volume, w2: Volume, e: Node, path: string, fp: set<string>)
    requires OnDisk(w1, e, path) && KindsKept(w1, w2) && ChangesOnly(w1, w2, fp)
    requires forall k :: k in fp ==> k !in EntryFootprint(e, path)
    ensures OnDisk(w2, e, path)
    decreases e
  {
    match e
    case FileEntry(_, _) =>
    case Folder(_, entries) =>
      var sub := FolderPath(e, path);
      forall i | 0 <= i < |entries|
        ensures OnDisk(w2, entries[i], sub)
      {
        EntryInFootprintAll(entries, sub, i);
        OnDiskFrame(w1, w2, entries[i], sub, fp);
      }
  }

  /** When the loop over `entries` reaches its end, every file entry's path `path + name`
      holds a regular file; when the siblings' names are distinct and free of `/`, as
      `os.listdir` gives them, that file holds exactly the entry's `data`. */
  lemma {:induction false} RestoreEntriesWritesFiles(v: Volume, entries: seq<Node>, path: string)
    ensures var r := RestoreEntries(v, entries, path);
            r.status == Done ==>
              forall i :: 0 <= i < |entries| && entries[i].FileEntry? ==>
                IsFile(r.volume, path + entries[i].name)
    ensures var r := RestoreEntries(v, entries, path);
            r.status == Done && DistinctNames(entries) ==>
              forall i :: 0 <= i < |entries| && entries[i].FileEntry? ==>
                OnDisk(r.volume, entries[i], path)
    decreases |entries|
  {
    if entries != [] {
      var r := RestoreEntries(v, entries, path);
      var next := if entries[0].FileEntry? then v[path + entries[0].name := File(entries[0].data)]
                  else Restore(v, entries[0], path).volume;
      if r.status == Done {
        assert r == RestoreEntries(next, entries[1..], path);
        RestoreEntriesWritesFiles(next, entries[1..], path);
        RestoreEntriesKeeps(next, entries[1..], path);
        forall i | 0 <= i < |entries| && entries[i].FileEntry?
          ensures IsFile(r.volume, path + entries[i].name)
        {
          if i > 0 {
            assert entries[i] == entries[1..][i - 1];
          }
        }
        if DistinctNames(entries) {
          DistinctRest(entries);
          EntryApart(entries, path);
          RestoreEntriesFrame(next, entries[1..], path);
          forall i | 0 <= i < |entries| && entries[i].FileEntry?
            ensures OnDisk(r.volume, entries[i], path)
          {
            if i > 0 {
              assert entries[i] == entries[1..][i - 1];
            } else {
              assert path + entries[0].name in EntryFootprint(entries[0], path);
            }
          }
        }
      }
    }
  }

  /** A whole folder restored: its directory is new, and every file directly inside it in
      the tree is a regular file on the disk, holding exactly the entry's bytes when the
      names in the folder are distinct and free of `/`. */
  lemma RestoreWritesFiles(v: Volume, name: string, entries: seq<Node>, prefix: string)
    ensures var r := Restore(v, Folder(name, entries), prefix);
            var path := prefix + name + "/";
            r.status == Done ==>
              && IsDir(r.volume, DirKey(path))
              && forall i :: 0 <= i < |entries| && entries[i].FileEntry? ==>
                   IsFile(r.volume, path + entries[i].name)
    ensures var r := Restore(v, Folder(name, entries), prefix);
            var path := prefix + name + "/";
            r.status == Done && DistinctNames(entries) ==>
              forall i :: 0 <= i < |entries| && entries[i].FileEntry? ==>
                r.volume[path + entries[i].name] == File(entries[i].data)
  {
    var node := Folder(name, entries);
    RestoreCreatesDir(v, node, prefix);
    if MkdirOk(v, FolderPath(node, prefix)) {
      RestoreEntriesWritesFiles(v[DirKey(FolderPath(node, prefix)) := Dir], entries, FolderPath(node, prefix));
    }
  }

  /** The file `name` of the directory `path` is opened in that directory. */
  lemma {:induction false} ParentOfEntry(path: string, name: string)
    requires path != [] && path[|path| - 1] == '/' && '/' !in name
    ensures Parent(path + name) == DirKey(path)
    decreases |name|
  {
    var p := path + name;
    if name == [] {
      assert p == path;
    } else {
      assert p[..|p| - 1] == path + name[..|name| - 1];
      assert p[|p| - 1] == name[|name| - 1];
      ParentOfEntry(path, name[..|name| - 1]);
    }
  }

  /** `json_to_folder` on a disk where none of the paths it touches is taken and the
      parent exists: it answers `'DONE'`, and the whole tree is on the disk afterwards,
      every file with exactly its bytes. */
  lemma {:induction false} RestoreWritesTree(v: Volume, node: Node, prefix: string)
    requires node.Folder? && WellNamed(node) && OrdinaryName(node.name) && '/' !in node.name
    requires DirOrCwd(v, DirKey(prefix)) && (prefix == [] || prefix[|prefix| - 1] == '/')
    requires forall k :: k in Footprint(node, prefix) ==> k !in v
    ensures var r := Restore(v, node, prefix);
            r.status == Done && OnDisk(r.volume, node, prefix)
    decreases Size(node), 0
  {
    var path := FolderPath(node, prefix);
    var dir := DirKey(path);
    assert dir == prefix + node.name;
    if prefix == [] {
      assert dir == node.name;
      ParentOfCwdEntry(node.name);
    } else {
      ParentOfEntry(prefix, node.name);
    }
    assert Parent(dir) == [] || Parent(dir) == DirKey(prefix);
    LastNameOfEntry(prefix, node.name);
    assert dir in Footprint(node, prefix);
    assert MkdirOk(v, path);
    var created := v[dir := Dir];
    FootprintAllLonger(node.entries, path);
    assert forall k :: k in FootprintAll(node.entries, path) ==> k in Footprint(node, prefix);
    assert forall k :: k in FootprintAll(node.entries, path) ==> k !in created;
    RestoreEntriesWritesTree(created, node.entries, path);
    RestoreEntriesKeeps(created, node.entries, path);
  }

  /** Every path the loop over the entries of `path` touches is at least as long as `path`. */
  lemma FootprintAllLonger(entries: seq<Node>, path: string)
    ensures forall k :: k in FootprintAll(entries, path) ==> |path| <= |k|
  {
    FootprintAllBelow(entries, path);
  }

  /** A name without `/` has the current directory as its parent. */
  lemma {:induction false} ParentOfCwdEntry(name: string)
    requires '/' !in name
    ensures Parent(name) == []
    decreases |name|
  {
    if name != [] {
      var init := name[..|name| - 1];
      assert name[|name| - 1] in name;
      assert forall c :: c in init ==> c in name;
      ParentOfCwdEntry(init);
    }
  }

  /** The loop over the entries of a folder whose directory exists, on a disk where none
      of the paths it touches is taken: it reaches its end and every entry is on the disk. */
  lemma {:induction false} RestoreEntriesWritesTree(v: Volume, entries: seq<Node>, path: string)
    requires path != [] && path[|path| - 1] == '/' && IsDir(v, DirKey(path))
    requires DistinctNames(entries)
    requires forall i :: 0 <= i < |entries| ==> OrdinaryName(entries[i].name) && WellNamed(entries[i])
    requires forall k :: k in FootprintAll(entries, path) ==> k !in v
    ensures var r := RestoreEntries(v, entries, path);
            r.status == Done && forall i :: 0 <= i < |entries| ==> OnDisk(r.volume, entries[i], path)
    decreases SizeAll(entries), 1
  {
    if entries != [] {
      var e := entries[0];
      var rest := entries[1..];
      DistinctRest(entries);
      EntryApart(entries, path);
      FootprintAllSplit(entries, path);
      ParentOfEntry(path, e.name);
      LastNameOfEntry(path, e.name);
      assert forall i :: 0 <= i < |rest| ==> rest[i] == entries[i + 1];
      var next: Volume;
      if e.FileEntry? {
        assert path + e.name in EntryFootprint(e, path);
        assert (path + e.name)[|path + e.name| - 1] == e.name[|e.name| - 1];
        assert e.name[|e.name| - 1] in e.name;
        assert WriteOk(v, path + e.name);
        next := v[path + e.name := File(e.data)];
        assert OnDisk(next, e, path);
        assert KindsKept(v, next);
      } else {
        SizeAllBound(entries, 0);
        RestoreWritesTree(v, e, path);
        RestoreFrame(v, e, path);
        RestoreKeeps(v, e, path);
        next := Restore(v, e, path).volume;
      }
      assert RestoreEntries(v, entries, path) == RestoreEntries(next, rest, path);
      RestoreEntriesWritesTree(next, rest, path);
      RestoreEntriesFrame(next, rest, path);
      RestoreEntriesKeeps(next, rest, path);
      var r := RestoreEntries(next, rest, path);
      OnDiskFrame(next, r.volume, e, path, FootprintAll(rest, path));
      forall i | 0 <= i < |entries|
        ensures OnDisk(r.volume, entries[i], path)
      {
        if i > 0 {
          assert entries[i] == rest[i - 1];
        }
      }
    }
  }

  /** A nested folder whose directory cannot be made is skipped with nothing written,
      because the `'RENAME'` of the recursive call is ignored; the top level still answers
      `'DONE'`. Here the second of two sub-folders named `a` is dropped with its file. */
  lemma SkippedFolderExample()
    ensures Restore(map[], Folder("site", [Folder("a", []), Folder("a", [FileEntry("f", [1])])]), "")
            == Restored(Done, map["site" := Dir, "site/a" := Dir])
  {
    var empty: Volume := map[];
    var top: Volume := map["site" := Dir];
    var both: Volume := map["site" := Dir, "site/a" := Dir];
    var second := Folder("a", [FileEntry("f", [1])]);
    assert DirKey("site/") == "site" && Parent("site") == [];
    assert MkdirOk(empty, "site/");
    assert FolderPath(Folder("site", [Folder("a", []), second]), "") == "site/";
    assert empty["site" := Dir] == top;
    FirstFolderMade();
    SecondFolderSkipped();
    assert [second][1..] == [];
    assert RestoreEntries(both, [second], "site/") == Restored(Done, both);
    assert [Folder("a", []), second][1..] == [second];
  }

  /** In `SkippedFolderExample`: the first `a` is made. */
  lemma FirstFolderMade()
    ensures Restore(map["site" := Dir], Folder("a", []), "site/")
            == Restored(Done, map["site" := Dir, "site/a" := Dir])
  {
    var top: Volume := map["site" := Dir];
    var both: Volume := map["site" := Dir, "site/a" := Dir];
    assert DirKey("site/a/") == "site/a" && Parent("site/a") == "site";
    assert LastName("site/a") == "a";
    assert MkdirOk(top, "site/a/");
    assert FolderPath(Folder("a", []), "site/") == "site/a/";
    assert top["site/a" := Dir] == both;
    assert RestoreEntries(both, [], "site/a/") == Restored(Done, both);
  }

  /** In `SkippedFolderExample`: the second `a` finds its directory taken. */
  lemma SecondFolderSkipped()
    ensures var both: Volume := map["site" := Dir, "site/a" := Dir];
            Restore(both, Folder("a", [FileEntry("f", [1])]), "site/") == Restored(Rename, both)
  {
    var both: Volume := map["site" := Dir, "site/a" := Dir];
    assert DirKey("site/a/") == "site/a";
    assert !MkdirOk(both, "site/a/");
    assert FolderPath(Folder("a", [FileEntry("f", [1])]), "site/") == "site/a/";
  }

  /** `json_to_folder(folder_json, relative_path)`, writing to `disk` in place. The
      `while not os.path.exists(...)` wait after `mkdir` is not modelled. */
  method JsonToFolder(disk: Disk, node: Node, relativePath: string) returns (status: Status)
    modifies disk
    ensures Restored(status, disk.nodes) == Restore(old(disk.nodes), node, relativePath)
    decreases Size(node), 0
  {
    var path := relativePath + node.name + "/";
    var created := disk.Mkdir(path);
    if !created {
      return Rename;
    }
    if node.FileEntry? {
      return Failed;
    }
    var entries := node.entries;
    var i := 0;
    while i < |entries|
      invariant 0 <= i <= |entries|
      invariant RestoreEntries(disk.nodes, entries[i..], path)
                == Restore(old(disk.nodes), node, relativePath)
    {
      var entry := entries[i];
      assert entries[i..][1..] == entries[i + 1..];
      match entry {
        case FileEntry(name, data) =>
          var ok := disk.WriteFile(path + name, data);
          if !ok {
            return Failed;
          }
        case Folder(_, _) =>
          SizeAllBound(entries, i);
          var sub := JsonToFolder(disk, entry, path);
          if sub == Failed {
            return Failed;
          }
      }
      i := i + 1;
    }
    return Done;
  }
}
