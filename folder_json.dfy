/** The folder tree the uploader builds with `folder_to_json` and the receiver writes back
    with `json_to_folder`: a `{type, name, entries | data}` dictionary per node. */
module FolderJson {
  import opened Wire
  import opened FileSystem

  /** `{'type': 'file', 'name': ..., 'data': ...}` or
      `{'type': 'folder', 'name': ..., 'entries': [...]}`. */
  datatype Node = FileEntry(name: string, data: Bytes) | Folder(name: string, entries: seq<Node>)

  /** `path.split('/')[-1]`: the text after the last `/`. */
  function LastSegment(path: string): (r: string)
    ensures '/' !in r
    ensures |r| <= |path| && r == path[|path| - |r|..]
    ensures |r| < |path| ==> path[|path| - |r| - 1] == '/'
  {
    if path == [] || path[|path| - 1] == '/' then []
    else LastSegment(path[..|path| - 1]) + [path[|path| - 1]]
  }

  lemma {:induction false} LastSegmentOfChild(path: string, name: string)
    requires '/' !in name
    ensures LastSegment(path + "/" + name) == name
  {
    if name != [] {
      var full := path + "/" + name;
      assert full[..|full| - 1] == path + "/" + name[..|name| - 1];
      LastSegmentOfChild(path, name[..|name| - 1]);
      assert name[..|name| - 1] + [name[|name| - 1]] == name;
    }
  }

  /** Every path of the volume is shorter than this, so descending into its directories,
      which lengthens the path each time, ends. */
  ghost function Depth(v: Volume): int
  {
    MaxPathLength(v.Keys) + 1
  }

  /** The tree `folder_to_json(path)` returns. */
  function FolderTree(v: Volume, listdir: Listing, path: string): (r: Node)
    ensures r.Folder? && r.name == LastSegment(path)
    decreases Depth(v) - |path|, 1, 0
  {
    Folder(LastSegment(path), Entries(v, listdir, path, listdir(path)))
  }

  /** The `entries` list after the loop has visited `names`, the first listed names of
      `path`: one element per regular file or directory, skipping other kinds of entry. */
  function Entries(v: Volume, listdir: Listing, path: string, names: seq<string>): seq<Node>
    decreases Depth(v) - |path|, 0, |names|
  {
    if names == [] then []
    else
      var before := Entries(v, listdir, path, names[..|names| - 1]);
      var name := names[|names| - 1];
      var full := path + "/" + name;
      if IsFile(v, full) then before + [FileEntry(name, v[full].data)]
      else if IsDir(v, full) then before + [FolderTree(v, listdir, full)]
      else before
  }

  /** The listed names that `folder_to_json` keeps: regular files and directories. */
  function Kept(v: Volume, path: string, names: seq<string>): (r: seq<string>)
    ensures |r| <= |names|
  {
    if names == [] then []
    else
      var full := path + "/" + names[|names| - 1];
      Kept(v, path, names[..|names| - 1])
      + (if IsFile(v, full) || IsDir(v, full) then [names[|names| - 1]] else [])
  }

  /** Entry `e` is what `folder_to_json` records for the listed name `name` of `path`. */
  ghost predicate RecordsEntry(v: Volume, listdir: Listing, path: string, name: string, e: Node)
  {
    var full := path + "/" + name;
    e.name == name &&
    (IsFile(v, full) ==> e == FileEntry(name, v[full].data)) &&
    (!IsFile(v, full) ==> IsDir(v, full) && e == FolderTree(v, listdir, full))
  }

  /** `entries` follows the listing: element k is recorded for the k-th kept name, so a
      file entry carries that file's exact bytes and a directory entry is the tree of that
      directory, named after it. (`os.listdir` never lists a name containing `/`.) */
  lemma {:induction false} EntriesFollowListing(v: Volume, listdir: Listing, path: string,
                                                names: seq<string>)
    ensures var es, ks := Entries(v, listdir, path, names), Kept(v, path, names);
            |es| == |ks| &&
            forall k :: 0 <= k < |es| ==> RecordsEntry(v, listdir, path, ks[k], es[k])
    requires forall i :: 0 <= i < |names| ==> '/' !in names[i]
    decreases |names|
  {
    if names != [] {
      var before := names[..|names| - 1];
      var name := names[|names| - 1];
      var full := path + "/" + name;
      EntriesFollowListing(v, listdir, path, before);
      var es0, ks0 := Entries(v, listdir, path, before), Kept(v, path, before);
      var es, ks := Entries(v, listdir, path, names), Kept(v, path, names);
      if IsFile(v, full) {
        assert es == es0 + [FileEntry(name, v[full].data)] && ks == ks0 + [name];
        assert RecordsEntry(v, listdir, path, name, FileEntry(name, v[full].data));
      } else if IsDir(v, full) {
        LastSegmentOfChild(path, name);
        assert es == es0 + [FolderTree(v, listdir, full)] && ks == ks0 + [name];
        assert RecordsEntry(v, listdir, path, name, FolderTree(v, listdir, full));
      } else {
        assert es == es0 && ks == ks0 + [];
      }
    }
  }

  /** Sibling entries as `os.listdir` names them: without `/`, and no two alike. */
  ghost predicate DistinctNames(entries: seq<Node>)
  {
    && (forall i :: 0 <= i < |entries| ==> '/' !in entries[i].name)
    && (forall i, j :: 0 <= i < j < |entries| ==> entries[i].name != entries[j].name)
  }

  /** A tree as `folder_to_json` builds it from a well-behaved `os.listdir`: in every
      folder, entry names are ordinary (not empty, `.` or `..`), free of `/` and distinct. */
  ghost predicate WellNamed(node: Node)
    decreases node
  {
    node.Folder? ==>
      && DistinctNames(node.entries)
      && (forall i :: 0 <= i < |node.entries| ==> OrdinaryName(node.entries[i].name))
      && (forall i :: 0 <= i < |node.entries| ==> WellNamed(node.entries[i]))
  }

  /** Names as `os.listdir` gives them for one directory: ordinary (it lists neither `.`
      nor `..`), free of `/`, and pairwise different. */
  ghost predicate ProperNames(names: seq<string>)
  {
    && (forall i :: 0 <= i < |names| ==> OrdinaryName(names[i]) && '/' !in names[i])
    && (forall i, j :: 0 <= i < j < |names| ==> names[i] != names[j])
  }

  /** With `os.listdir` listing proper names, `folder_to_json` builds a well-named tree. */
  lemma {:induction false} FolderTreeWellNamed(v: Volume, listdir: Listing, path: string)
    requires forall p :: ProperNames(listdir(p))
    ensures WellNamed(FolderTree(v, listdir, path))
    decreases Depth(v) - |path|, 1, 0
  {
    EntriesWellNamed(v, listdir, path, listdir(path));
  }

  lemma {:induction false} EntriesWellNamed(v: Volume, listdir: Listing, path: string,
                                            names: seq<string>)
    requires forall p :: ProperNames(listdir(p))
    requires ProperNames(names)
    ensures var es := Entries(v, listdir, path, names);
            && DistinctNames(es)
            && forall i :: 0 <= i < |es| ==> OrdinaryName(es[i].name) && es[i].name in names && WellNamed(es[i])
    decreases Depth(v) - |path|, 0, |names|
  {
    if names != [] {
      var before := names[..|names| - 1];
      var name := names[|names| - 1];
      var full := path + "/" + name;
      assert names == before + [name];
      assert forall i :: 0 <= i < |before| ==> before[i] == names[i];
      EntriesWellNamed(v, listdir, path, before);
      var es0 := Entries(v, listdir, path, before);
      if IsFile(v, full) {
        AppendNamed(es0, FileEntry(name, v[full].data), before, names);
      } else if IsDir(v, full) {
        LastSegmentOfChild(path, name);
        FolderTreeWellNamed(v, listdir, full);
        AppendNamed(es0, FolderTree(v, listdir, full), before, names);
      } else {
        assert forall x :: x in before ==> x in names;
      }
    }
  }

  /** Appending an entry whose name is not among the earlier listed names keeps the
      entries well named. */
  lemma AppendNamed(es: seq<Node>, e: Node, before: seq<string>, names: seq<string>)
    requires DistinctNames(es)
    requires forall i :: 0 <= i < |es| ==> OrdinaryName(es[i].name) && es[i].name in before && WellNamed(es[i])
    requires ProperNames(names) && names == before + [e.name] && WellNamed(e)
    ensures var all := es + [e];
            && DistinctNames(all)
            && forall i :: 0 <= i < |all| ==> OrdinaryName(all[i].name) && all[i].name in names && WellNamed(all[i])
  {
    assert e.name !in before by {
      forall i | 0 <= i < |before| ensures before[i] != e.name {
        assert before[i] == names[i] && e.name == names[|names| - 1];
      }
    }
    assert e.name in names && e.name == names[|names| - 1];
  }

  /** `folder_to_json(path)`, which appends to `entries` in a loop over the listing and
      recurses into subdirectories. The path is taken as already absolute and normalised. */
  method FolderToJson(v: Volume, listdir: Listing, path: string) returns (node: Node)
    ensures node == FolderTree(v, listdir, path)
    decreases Depth(v) - |path|
  {
    var names := listdir(path);
    var entries: seq<Node> := [];
    for i := 0 to |names|
      invariant entries == Entries(v, listdir, path, names[..i])
    {
      var full := path + "/" + names[i];
      assert names[..i + 1][..i] == names[..i];
      if IsFile(v, full) {
        entries := entries + [FileEntry(names[i], v[full].data)];
      } else if IsDir(v, full) {
        var child := FolderToJson(v, listdir, full);
        entries := entries + [child];
      }
    }
    assert names[..|names|] == names;
    node := Folder(LastSegment(path), entries);
  }
}
