/** The filesystem both scripts touch, as a map from path strings to what is stored there.
    Paths are written the way the scripts build them (`folder + '/' + entry`); a directory
    is stored under its path without a trailing `/`. No operation here adds the empty
    path: as the parent of a relative name such as `site` it stands for the current
    working directory, and `mkdir('')` and `open('')` both fail. */
module FileSystem {
  import opened Wire

  /** What a path names: a directory, a regular file with its bytes, or anything else
      (a FIFO, a socket, a device). */
  datatype Inode = Dir | File(data: Bytes) | Special

  type Volume = map<string, Inode>

  /** `os.listdir`: the names in a directory, in the order the operating system lists them. */
  type Listing = string -> seq<string>

  /** `os.path.exists`. */
  predicate Exists(v: Volume, p: string) { p in v }

  /** `os.path.isdir`. */
  predicate IsDir(v: Volume, p: string) { p in v && v[p] == Dir }

  /** `os.path.isfile`. */
  predicate IsFile(v: Volume, p: string) { p in v && v[p].File? }

  /** Everything before the last `/` of a path (the empty path when there is none). */
  function Parent(p: string): (r: string)
    ensures |r| < |p| || p == []
  {
    if p == [] then []
    else if p[|p| - 1] == '/' then p[..|p| - 1]
    else Parent(p[..|p| - 1])
  }

  /** Everything after the last `/` of a path: the name the path ends in (empty when the
      path ends in `/`). */
  function LastName(p: string): (r: string)
    ensures '/' !in r && |r| <= |p|
  {
    if p == [] || p[|p| - 1] == '/' then []
    else LastName(p[..|p| - 1]) + [p[|p| - 1]]
  }

  /** A path is its parent, a `/` and its last name; a path without `/` is all name. */
  lemma {:induction false} ParentLastName(p: string)
    ensures '/' in p ==> p == Parent(p) + "/" + LastName(p)
    ensures '/' !in p ==> Parent(p) == [] && LastName(p) == p
  {
    if p != [] {
      var init := p[..|p| - 1];
      assert p == init + [p[|p| - 1]];
      if p[|p| - 1] != '/' {
        ParentLastName(init);
        assert '/' in p <==> '/' in init;
        if '/' in init {
          Associative(Parent(init) + "/", LastName(init), [p[|p| - 1]]);
        }
      }
    }
  }

  /** A name that can be made anew: `.` and `..` name, in every directory, that directory
      and its parent, which always exist. */
  predicate OrdinaryName(name: string) { name != [] && name != "." && name != ".." }

  /** An entry of the directory `path` (or of the current directory) ends in its own name. */
  lemma {:induction false} LastNameOfEntry(path: string, name: string)
    requires (path == [] || path[|path| - 1] == '/') && '/' !in name
    ensures LastName(path + name) == name
    decreases |name|
  {
    if name == [] {
      assert path + name == path;
    } else {
      var init, c := name[..|name| - 1], name[|name| - 1];
      assert name == init + [c];
      assert path + name == (path + init) + [c];
      assert '/' !in init by {
        forall x | x in init
          ensures x in name
        {
        }
      }
      LastNameOfEntry(path, init);
    }
  }

  /** Neither `mkdir` nor `open(..., "wb")` makes anything named `.` or `..`, with or
      without a trailing `/`, whatever is on the disk. */
  lemma DotNamesRefused(v: Volume, path: string, name: string)
    requires path == [] || path[|path| - 1] == '/'
    requires name == "." || name == ".."
    ensures !MkdirOk(v, path + name) && !MkdirOk(v, path + name + "/")
    ensures !WriteOk(v, path + name)
  {
    LastNameOfEntry(path, name);
    assert DirKey(path + name + "/") == path + name;
    assert DirKey(path + name) == path + name;
  }

  predicate DirOrCwd(v: Volume, p: string) { p == [] || IsDir(v, p) }

  /** The key a directory path such as `site/` is stored under. */
  function DirKey(path: string): (k: string)
    ensures |k| <= |path|
  {
    if path != [] && path[|path| - 1] == '/' then path[..|path| - 1] else path
  }

  /** `os.mkdir(path)` succeeds: the path, less one trailing `/`, ends in an ordinary
      name that is not taken by anything, and its parent is a directory. On any other
      outcome it raises `OSError`. */
  predicate MkdirOk(v: Volume, path: string)
  {
    var k := DirKey(path);
    OrdinaryName(LastName(k)) && k !in v && DirOrCwd(v, Parent(k))
  }

  /** `open(path, "wb")` succeeds: the path ends in an ordinary name (so not in `/`), names
      a regular file or nothing, and its parent is a directory. Otherwise it raises
      `OSError`. */
  predicate WriteOk(v: Volume, path: string)
  {
    OrdinaryName(LastName(path)) && (path !in v || v[path].File?) && DirOrCwd(v, Parent(path))
  }

  /** A bound on the length of every path of a volume; recursion that descends into
      directories of the volume terminates because paths only grow. */
  ghost function MaxPathLength(paths: set<string>): (m: nat)
    ensures forall p :: p in paths ==> |p| <= m
  {
    if paths == {} then 0
    else
      var p :| p in paths;
      var m := MaxPathLength(paths - {p});
      if |p| > m then |p| else m
  }

  /** A disk that the receiver writes to in place. */
  class Disk {
    var nodes: Volume

    constructor (initial: Volume)
      ensures nodes == initial
    {
      nodes := initial;
    }

    /** `os.mkdir(path)`; `ok` is false where it raises. */
    method Mkdir(path: string) returns (ok: bool)
      modifies this
      ensures ok == MkdirOk(old(nodes), path)
      ensures nodes == if ok then old(nodes)[DirKey(path) := Dir] else old(nodes)
    {
      ok := MkdirOk(nodes, path);
      if ok {
        nodes := nodes[DirKey(path) := Dir];
      }
    }

    /** `open(path, "wb").write(data)`; `ok` is false where it raises. */
    method WriteFile(path: string, data: Bytes) returns (ok: bool)
      modifies this
      ensures ok == WriteOk(old(nodes), path)
      ensures nodes == if ok then old(nodes)[path := File(data)] else old(nodes)
    {
      ok := WriteOk(nodes, path);
      if ok {
        nodes := nodes[path := File(data)];
      }
    }
  }
}
