/**
 An abstract filesystem: the entries that Node's `fs.existsSync`, `fs.lstatSync`,
 `fs.readdirSync`, `fs.unlinkSync`, `fs.rmdirSync`, `fs.symlinkSync` and
 `fs.realpathSync` observe and change. A path is the sequence of its '/'-separated
 segments; joining paths is concatenation of segments.
 */
module FileSystems {
  import opened Options
  import opened Chars

  type Path = seq<string>

  /** A directory lists the names `readdirSync` returns, in that order. */
  datatype Entry = File | Dir(names: seq<string>) | Link(target: Path)

  /** The `code` of the errors the `fs` calls throw. */
  datatype FsError =
    | NoSuchEntry(path: Path)     // ENOENT
    | NotADirectory(path: Path)   // ENOTDIR
    | IsADirectory(path: Path)    // EISDIR
    | NotEmpty(path: Path)        // ENOTEMPTY
    | AlreadyExists(path: Path)   // EEXIST

  /** The result of an `fs` call that either returns a value or throws. */
  datatype Result<T> = Ok(value: T) | Err(error: FsError)

  /** The directory holding `p`. */
  function Parent(p: Path): Path
    requires 0 < |p|
  {
    p[..|p| - 1]
  }

  /** The name `p` has in its parent's listing. */
  function Name(p: Path): string
    requires 0 < |p|
  {
    p[|p| - 1]
  }

  /** The segments of a '/'-separated string, the way a key doubles as a filesystem path. */
  function Segments(s: string): Path {
    Split(s, '/')
  }

  /** `names` with every name in `gone` dropped, the order of the others kept. */
  function Unlisted(names: seq<string>, gone: seq<string>): (r: seq<string>)
    ensures |r| <= |names|
    decreases |names|
  {
    if names == [] then []
    else if names[0] in gone then Unlisted(names[1..], gone)
    else [names[0]] + Unlisted(names[1..], gone)
  }

  /** Dropping names in `gone`, then in `more`, is dropping the names in both at once. */
  lemma {:induction false} UnlistedTwice(names: seq<string>, gone: seq<string>, more: seq<string>)
    ensures Unlisted(Unlisted(names, gone), more) == Unlisted(names, gone + more)
    decreases |names|
  {
    if names != [] {
      UnlistedTwice(names[1..], gone, more);
      if names[0] !in gone {
        assert Unlisted(names, gone) == [names[0]] + Unlisted(names[1..], gone);
        assert ([names[0]] + Unlisted(names[1..], gone))[1..] == Unlisted(names[1..], gone);
      }
    }
  }

  /** Dropping every listed name leaves nothing. */
  lemma {:induction false} UnlistedAll(names: seq<string>, gone: seq<string>)
    requires forall k | 0 <= k < |names| :: names[k] in gone
    ensures Unlisted(names, gone) == []
    decreases |names|
  {
    if names != [] {
      assert names[0] in gone;
      UnlistedAll(names[1..], gone);
    }
  }

  /** No name occurs twice, as in a `readdirSync` listing. */
  predicate Distinct(names: seq<string>) {
    forall i, j | 0 <= i < j < |names| :: names[i] != names[j]
  }

  datatype FileSystem = FileSystem(entries: map<Path, Entry>) {

    /** `fs.existsSync`: an entry is at `p` (a link counts, whatever it points at). */
    predicate Exists(p: Path) {
      p in entries
    }

    /** `fs.lstatSync(p).isDirectory()` for an existing `p`: links are not followed. */
    predicate IsDirectory(p: Path) {
      p in entries && entries[p].Dir?
    }

    /** `fs.readdirSync`: the listing of a directory. */
    function Readdir(p: Path): (r: Result<seq<string>>)
      ensures r.Ok? <==> IsDirectory(p)
      ensures r.Ok? ==> r.value == entries[p].names
      ensures r.Err? ==> r.error == (if Exists(p) then NotADirectory(p) else NoSuchEntry(p))
    {
      if p !in entries then Err(NoSuchEntry(p))
      else if !entries[p].Dir? then Err(NotADirectory(p))
      else Ok(entries[p].names)
    }

    /** The entry at `p` gone, and its name gone from its parent's listing. */
    function Detach(p: Path): (fs: FileSystem)
      ensures fs.entries.Keys == entries.Keys - {p}
      ensures forall q | q in fs.entries :: fs.entries[q].Dir? == entries[q].Dir?
    {
      var rest := entries - {p};
      if 0 < |p| && Parent(p) in rest && rest[Parent(p)].Dir? then
        FileSystem(rest[Parent(p) := Dir(Unlisted(rest[Parent(p)].names, [Name(p)]))])
      else
        FileSystem(rest)
    }

    /** An entry at `p`, with its name appended to its parent's listing. */
    function Attach(p: Path, e: Entry): (fs: FileSystem)
      requires 0 < |p| && IsDirectory(Parent(p))
      ensures fs.entries.Keys == entries.Keys + {p}
      ensures fs.entries[p] == e
    {
      var q := Parent(p);
      FileSystem(entries[q := Dir(entries[q].names + [Name(p)])][p := e])
    }

    /** `fs.unlinkSync`: removes a file or a link; a directory or nothing at `p` throws. */
    function Unlink(p: Path): (r: Result<FileSystem>)
      ensures r.Ok? <==> Exists(p) && !IsDirectory(p)
      ensures r.Ok? ==> r.value.entries.Keys == entries.Keys - {p}
      ensures r.Ok? ==> forall q | q in r.value.entries :: r.value.entries[q].Dir? == entries[q].Dir?
    {
      if p !in entries then Err(NoSuchEntry(p))
      else if entries[p].Dir? then Err(IsADirectory(p))
      else Ok(Detach(p))
    }

    /** `fs.rmdirSync`: removes an empty directory; anything else throws. */
    function Rmdir(p: Path): (r: Result<FileSystem>)
      ensures r.Ok? <==> IsDirectory(p) && entries[p].names == []
      ensures r.Ok? ==> r.value.entries.Keys == entries.Keys - {p}
    {
      if p !in entries then Err(NoSuchEntry(p))
      else if !entries[p].Dir? then Err(NotADirectory(p))
      else if entries[p].names != [] then Err(NotEmpty(p))
      else Ok(Detach(p))
    }

    /** `fs.symlinkSync(target, p)`: a new link at `p`, inside an existing directory. */
    function Symlink(target: Path, p: Path): (r: Result<FileSystem>)
      ensures r.Ok? <==> !Exists(p) && 0 < |p| && IsDirectory(Parent(p))
      ensures r.Ok? ==> r.value.entries.Keys == entries.Keys + {p}
      ensures r.Ok? ==> r.value.entries[p] == Link(target)
    {
      if p in entries then Err(AlreadyExists(p))
      else if |p| == 0 || Parent(p) !in entries then Err(NoSuchEntry(p))
      else if !entries[Parent(p)].Dir? then Err(NotADirectory(p))
      else Ok(Attach(p, Link(target)))
    }

    /**
     `fs.realpathSync`: an existing path resolves to itself, a link to its target;
     a missing path or a dangling link throws.
     */
    function Realpath(p: Path): (r: Result<Path>)
      ensures r.Ok? ==> Exists(r.value)
      ensures r.Ok? <==> Exists(p) && (entries[p].Link? ==> Exists(entries[p].target))
      ensures r.Ok? && !entries[p].Link? ==> r.value == p
    {
      if p !in entries then Err(NoSuchEntry(p))
      else match entries[p]
        case Link(t) => if t in entries then Ok(t) else Err(NoSuchEntry(t))
        case _ => Ok(p)
    }

    /**
     Reference state: the entries `dir/<n>` for the names `n` in `gone` removed, and those
     names dropped from `dir`'s listing; everything else as it is.
     */
    function WithoutChildren(dir: Path, gone: seq<string>): (fs: FileSystem)
      requires IsDirectory(dir)
    {
      FileSystem(map q | q in entries && !IsChildIn(q, dir, gone) ::
        if q == dir then Dir(Unlisted(entries[dir].names, gone)) else entries[q])
    }
  }

  /** `q` is `dir/<n>` for a name `n` in `names`. */
  predicate IsChildIn(q: Path, dir: Path, names: seq<string>) {
    |q| == |dir| + 1 && q[..|dir|] == dir && q[|dir|] in names
  }

  /** The paths of the entries a listing names. */
  lemma ChildIsChildIn(dir: Path, names: seq<string>, n: string)
    ensures IsChildIn(dir + [n], dir, names) <==> n in names
  {
    assert (dir + [n])[..|dir|] == dir;
  }
}
