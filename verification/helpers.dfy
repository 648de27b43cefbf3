/**
 `deleteFolderRecursive` of helpers.js over the abstract filesystem. Its recursive call
 names a function that is only a property of the exported object, so reaching a
 subdirectory throws a `ReferenceError` instead of recursing.
 */
module Helpers {
  import opened Options
  import opened FileSystems

  /** The name the recursive call looks up and does not find. */
  const UnboundName := "deleteFolderRecursive"

  /** What a call throws: an `fs` error, or the `ReferenceError` of an unbound name. */
  datatype Failure = Thrown(error: FsError) | ReferenceError(name: string)

  /** The filesystem after the call, and what it threw, if anything. Effects before a throw stay. */
  datatype Deletion = Deletion(fs: FileSystem, failure: Option<Failure>)

  /**
   Deletes the directory at `path`: every entry of its listing in order, then the
   directory itself. A missing path is left alone; anything else that is not a directory
   makes `readdirSync` throw before anything is deleted.
   */
  function DeleteFolderRecursive(fs: FileSystem, path: Path): (r: Deletion)
    ensures !fs.Exists(path) ==> r == Deletion(fs, None)
    ensures fs.Exists(path) && !fs.IsDirectory(path) ==> r == Deletion(fs, Some(Thrown(NotADirectory(path))))
    ensures r.fs.entries.Keys <= fs.entries.Keys
    ensures fs.Exists(path) ==> (r.failure.None? <==> !r.fs.Exists(path))
  {
    if !fs.Exists(path) then Deletion(fs, None)
    else match fs.Readdir(path)
      case Err(e) => Deletion(fs, Some(Thrown(e)))
      case Ok(names) =>
        var d := DeleteEntries(fs, path, names);
        if d.failure.Some? then d
        else match d.fs.Rmdir(path)
          case Err(e) => Deletion(d.fs, Some(Thrown(e)))
          case Ok(after) => Deletion(after, None)
  }

  /**
   The `forEach` over a `readdirSync` snapshot: each name in turn is `lstat`ed and, when it
   is not a directory, unlinked; the first directory stops the loop with the `ReferenceError`.
   */
  function DeleteEntries(fs: FileSystem, dir: Path, names: seq<string>): (r: Deletion)
    ensures r.fs.entries.Keys <= fs.entries.Keys
    ensures fs.IsDirectory(dir) ==> r.fs.IsDirectory(dir)
    decreases |names|
  {
    if names == [] then Deletion(fs, None)
    else
      var p := dir + [names[0]];
      if !fs.Exists(p) then Deletion(fs, Some(Thrown(NoSuchEntry(p))))
      else if fs.IsDirectory(p) then Deletion(fs, Some(ReferenceError(UnboundName)))
      else match fs.Unlink(p)
        case Err(e) => Deletion(fs, Some(Thrown(e)))
        case Ok(after) => DeleteEntries(after, dir, names[1..])
  }

  /** Every name of `names` is an entry of `dir` that `lstat` does not report as a directory. */
  predicate AllNonDirectories(fs: FileSystem, dir: Path, names: seq<string>) {
    forall k | 0 <= k < |names| :: fs.Exists(dir + [names[k]]) && !fs.IsDirectory(dir + [names[k]])
  }

  /** Removing no children changes nothing. */
  lemma {:induction false} WithoutNoChildren(fs: FileSystem, dir: Path)
    requires fs.IsDirectory(dir)
    ensures fs.WithoutChildren(dir, []) == fs
  {
    UnlistedNothing(fs.entries[dir].names);
    forall q | q in fs.entries
      ensures !IsChildIn(q, dir, [])
    {
    }
  }

  lemma {:induction false} UnlistedNothing(names: seq<string>)
    ensures Unlisted(names, []) == names
    decreases |names|
  {
    if names != [] {
      UnlistedNothing(names[1..]);
    }
  }

  /** Unlinking the non-directory `dir/<n>` is removing the child `n`. */
  lemma {:induction false} UnlinkChild(fs: FileSystem, dir: Path, n: string)
    requires fs.IsDirectory(dir)
    requires fs.Exists(dir + [n]) && !fs.IsDirectory(dir + [n])
    ensures fs.Unlink(dir + [n]) == Ok(fs.WithoutChildren(dir, [n]))
  {
    var p := dir + [n];
    assert Parent(p) == dir && Name(p) == n;
    var a := fs.Detach(p);
    var b := fs.WithoutChildren(dir, [n]);
    forall q
      ensures q in a.entries <==> q in b.entries
    {
      if |q| == |dir| + 1 && q[..|dir|] == dir && q[|dir|] == n {
        assert q == p;
      }
      ChildIsChildIn(dir, [n], n);
    }
    forall q | q in a.entries
      ensures a.entries[q] == b.entries[q]
    {
      assert !IsChildIn(q, dir, [n]);
    }
    assert a.entries == b.entries;
  }

  /** Removing children in two batches is removing them all at once. */
  lemma {:induction false} WithoutChildrenTwice(fs: FileSystem, dir: Path, gone: seq<string>, more: seq<string>)
    requires fs.IsDirectory(dir)
    ensures fs.WithoutChildren(dir, gone).IsDirectory(dir)
    ensures fs.WithoutChildren(dir, gone).WithoutChildren(dir, more) == fs.WithoutChildren(dir, gone + more)
  {
    var a := fs.WithoutChildren(dir, gone);
    assert !IsChildIn(dir, dir, gone);
    var b := a.WithoutChildren(dir, more);
    var c := fs.WithoutChildren(dir, gone + more);
    UnlistedTwice(fs.entries[dir].names, gone, more);
    forall q
      ensures q in b.entries <==> q in c.entries
    {
      assert IsChildIn(q, dir, gone + more) <==> IsChildIn(q, dir, gone) || IsChildIn(q, dir, more);
    }
    assert b.entries == c.entries;
  }

  /**
   The loop unlinks the first `k` names when they are distinct non-directories, and then
   goes on from the state with exactly those children removed.
   */
  lemma {:induction false} DeleteEntriesPrefix(fs: FileSystem, dir: Path, names: seq<string>, k: nat)
    requires fs.IsDirectory(dir)
    requires k <= |names| && Distinct(names[..k]) && AllNonDirectories(fs, dir, names[..k])
    ensures DeleteEntries(fs, dir, names) == DeleteEntries(fs.WithoutChildren(dir, names[..k]), dir, names[k..])
    decreases k
  {
    if k == 0 {
      assert names[..0] == [] && names[0..] == names;
      WithoutNoChildren(fs, dir);
    } else {
      var n := names[0];
      var rest := names[1..];
      assert names[..k][0] == n;
      UnlinkChild(fs, dir, n);
      var after := fs.WithoutChildren(dir, [n]);
      var pre := rest[..k - 1];
      WithoutChildrenTwice(fs, dir, [n], pre);
      assert [n] + pre == names[..k];
      forall i | 0 <= i < k - 1
        ensures after.Exists(dir + [pre[i]]) && !after.IsDirectory(dir + [pre[i]])
      {
        assert pre[i] == names[..k][i + 1];
        ChildIsChildIn(dir, [n], pre[i]);
      }
      assert Distinct(pre) by {
        forall i, j | 0 <= i < j < k - 1
          ensures pre[i] != pre[j]
        {
          assert pre[i] == names[..k][i + 1] && pre[j] == names[..k][j + 1];
        }
      }
      DeleteEntriesPrefix(after, dir, rest, k - 1);
      assert rest[k - 1..] == names[k..];
    }
  }

  /**
   A directory holding only distinct non-directories (files or links, which are unlinked
   and not followed) is removed with all of them, after them; nothing else changes but
   the parent's listing.
   */
  lemma {:induction false} DeleteFlatDirectory(fs: FileSystem, path: Path)
    requires fs.IsDirectory(path)
    requires Distinct(fs.entries[path].names) && AllNonDirectories(fs, path, fs.entries[path].names)
    ensures DeleteFolderRecursive(fs, path)
         == Deletion(fs.WithoutChildren(path, fs.entries[path].names).Detach(path), None)
    ensures forall q :: q in DeleteFolderRecursive(fs, path).fs.entries
                    <==> q in fs.entries && q != path && !IsChildIn(q, path, fs.entries[path].names)
  {
    var names := fs.entries[path].names;
    DeleteEntriesPrefix(fs, path, names, |names|);
    assert names[..|names|] == names && names[|names|..] == [];
    var emptied := fs.WithoutChildren(path, names);
    assert !IsChildIn(path, path, names);
    UnlistedAll(names, names);
    assert emptied.entries[path] == Dir([]);
  }

  /**
   When the `k`-th entry is the first directory, the entries before it are unlinked and
   then the call throws the `ReferenceError`: the directory, that entry and the ones after
   it stay.
   */
  lemma {:induction false} DeleteStopsAtSubdirectory(fs: FileSystem, path: Path, k: nat)
    requires fs.IsDirectory(path)
    requires k < |fs.entries[path].names|
    requires Distinct(fs.entries[path].names[..k + 1])
    requires AllNonDirectories(fs, path, fs.entries[path].names[..k])
    requires fs.IsDirectory(path + [fs.entries[path].names[k]])
    ensures DeleteFolderRecursive(fs, path)
         == Deletion(fs.WithoutChildren(path, fs.entries[path].names[..k]), Some(ReferenceError(UnboundName)))
    ensures DeleteFolderRecursive(fs, path).fs.IsDirectory(path)
    ensures DeleteFolderRecursive(fs, path).fs.IsDirectory(path + [fs.entries[path].names[k]])
  {
    var names := fs.entries[path].names;
    assert Distinct(names[..k]) by {
      assert forall i | 0 <= i < k :: names[..k][i] == names[..k + 1][i];
    }
    DeleteEntriesPrefix(fs, path, names, k);
    var before := fs.WithoutChildren(path, names[..k]);
    var sub := path + [names[k]];
    assert !IsChildIn(path, path, names[..k]);
    assert !IsChildIn(sub, path, names[..k]) by {
      assert sub[..|path|] == path && sub[|path|] == names[k];
      forall i | 0 <= i < k
        ensures names[..k][i] != names[k]
      {
        assert names[..k][i] == names[..k + 1][i] && names[k] == names[..k + 1][k];
      }
    }
    assert names[k..][0] == names[k];
  }

  // ---------------------------------------------------------------------
  // The recursion the `// recurse` comment intends
  // ---------------------------------------------------------------------

  /** The entries at or below `p`. */
  function Below(fs: FileSystem, p: Path): set<Path> {
    set q | q in fs.entries && p <= q
  }

  /** The entries strictly below `p`. */
  function StrictlyBelow(fs: FileSystem, p: Path): set<Path> {
    set q | q in fs.entries && p < q
  }

  lemma {:induction false} SubsetNoLarger(a: set<Path>, b: set<Path>)
    requires a <= b
    ensures |a| <= |b|
    decreases |a|
  {
    if a != {} {
      var x :| x in a;
      SubsetNoLarger(a - {x}, b - {x});
    }
  }

  /** What lies at or below a child lies strictly below its directory. */
  lemma {:induction false} BelowChild(fs: FileSystem, dir: Path, n: string)
    ensures Below(fs, dir + [n]) <= StrictlyBelow(fs, dir)
    ensures |Below(fs, dir + [n])| <= |StrictlyBelow(fs, dir)|
  {
    forall q | q in Below(fs, dir + [n])
      ensures q in StrictlyBelow(fs, dir)
    {
      assert q[..|dir|] == (dir + [n])[..|dir|] == dir;
    }
    SubsetNoLarger(Below(fs, dir + [n]), StrictlyBelow(fs, dir));
  }

  /** An existing entry is at but not strictly below itself. */
  lemma {:induction false} StrictlyBelowSmaller(fs: FileSystem, p: Path)
    requires p in fs.entries
    ensures |StrictlyBelow(fs, p)| < |Below(fs, p)|
  {
    assert StrictlyBelow(fs, p) <= Below(fs, p) - {p};
    SubsetNoLarger(StrictlyBelow(fs, p), Below(fs, p) - {p});
  }

  /** Removing entries leaves no more below a path. */
  lemma {:induction false} StrictlyBelowShrinks(fs: FileSystem, fs': FileSystem, p: Path)
    requires fs'.entries.Keys <= fs.entries.Keys
    ensures |StrictlyBelow(fs', p)| <= |StrictlyBelow(fs, p)|
  {
    SubsetNoLarger(StrictlyBelow(fs', p), StrictlyBelow(fs, p));
  }

  /**
   `deleteFolderRecursive` with the recursive call bound to itself: a subdirectory entry
   is deleted the same way before the loop goes on.
   */
  function RemoveTree(fs: FileSystem, path: Path): (r: Deletion)
    ensures r.fs.entries.Keys <= fs.entries.Keys
    ensures !fs.Exists(path) ==> r == Deletion(fs, None)
    ensures fs.Exists(path) && !fs.IsDirectory(path) ==> r == Deletion(fs, Some(Thrown(NotADirectory(path))))
    ensures forall q | q in fs.entries && !(path <= q) :: q in r.fs.entries
    ensures fs.Exists(path) ==> (r.failure.None? <==> !r.fs.Exists(path))
    decreases |Below(fs, path)|, 0, 0
  {
    if !fs.Exists(path) then Deletion(fs, None)
    else match fs.Readdir(path)
      case Err(e) => Deletion(fs, Some(Thrown(e)))
      case Ok(names) =>
        StrictlyBelowSmaller(fs, path);
        var d := RemoveEntries(fs, path, names);
        if d.failure.Some? then d
        else match d.fs.Rmdir(path)
          case Err(e) => Deletion(d.fs, Some(Thrown(e)))
          case Ok(after) => Deletion(after, None)
  }

  /** The `forEach` of `RemoveTree`: each name in turn, until one throws. */
  function RemoveEntries(fs: FileSystem, dir: Path, names: seq<string>): (r: Deletion)
    ensures r.fs.entries.Keys <= fs.entries.Keys
    ensures forall q | q in fs.entries && !(dir < q) :: q in r.fs.entries
    decreases |StrictlyBelow(fs, dir)|, 1, |names|
  {
    if names == [] then Deletion(fs, None)
    else
      var p := dir + [names[0]];
      if !fs.Exists(p) then Deletion(fs, Some(Thrown(NoSuchEntry(p))))
      else if fs.IsDirectory(p) then
        BelowChild(fs, dir, names[0]);
        var d := RemoveTree(fs, p);
        if d.failure.Some? then d
        else
          StrictlyBelowShrinks(fs, d.fs, dir);
          RemoveEntries(d.fs, dir, names[1..])
      else match fs.Unlink(p)
        case Err(e) => Deletion(fs, Some(Thrown(e)))
        case Ok(after) =>
          StrictlyBelowShrinks(fs, after, dir);
          RemoveEntries(after, dir, names[1..])
  }

  /**
   The filesystem is a tree: every entry but the root sits in a directory that lists it,
   and every listing is free of duplicates and names existing entries.
   */
  predicate IsTree(fs: FileSystem) {
    && (forall q | q in fs.entries && 0 < |q| :: fs.IsDirectory(Parent(q)) && Name(q) in fs.entries[Parent(q)].names)
    && (forall q | q in fs.entries && fs.entries[q].Dir? :: Distinct(fs.entries[q].names))
    && (forall q, n | q in fs.entries && fs.entries[q].Dir? && n in fs.entries[q].names :: q + [n] in fs.entries)
  }

  /** Reference state: everything strictly below the directory `dir` gone, and its listing empty. */
  function Emptied(fs: FileSystem, dir: Path): FileSystem {
    FileSystem(map q | q in fs.entries && !(dir < q) :: if q == dir then Dir([]) else fs.entries[q])
  }

  /** Reference state: everything at or below `path` gone, and its name gone from its parent's listing. */
  function Pruned(fs: FileSystem, path: Path): FileSystem {
    FileSystem(map q | q in fs.entries && !(path <= q) ::
      if 0 < |path| && q == Parent(path) && fs.entries[q].Dir?
      then Dir(Unlisted(fs.entries[q].names, [Name(path)]))
      else fs.entries[q])
  }

  /** In a tree, the ancestors of an entry are directories, each listing the next segment. */
  lemma {:induction false} AncestorListed(fs: FileSystem, q: Path, k: nat)
    requires IsTree(fs) && q in fs.entries && k < |q|
    ensures q[..k + 1] in fs.entries && fs.IsDirectory(q[..k]) && q[k] in fs.entries[q[..k]].names
    decreases |q| - k
  {
    if k + 1 < |q| {
      var pq := Parent(q);
      assert pq[..k + 1] == q[..k + 1] && pq[..k] == q[..k] && pq[k] == q[k];
      AncestorListed(fs, pq, k);
    } else {
      assert q[..k + 1] == q && q[..k] == Parent(q);
    }
  }

  lemma PrefixSlice(p: Path, q: Path)
    requires p <= q
    ensures |p| <= |q| && q[..|p|] == p
  {
  }

  /** In a tree, nothing lies strictly below an entry that is not a directory. */
  lemma {:induction false} NothingBelowNonDirectory(fs: FileSystem, p: Path)
    requires IsTree(fs) && p in fs.entries && !fs.IsDirectory(p)
    ensures forall q | q in fs.entries :: !(p < q)
  {
    forall q | q in fs.entries && p < q
      ensures false
    {
      PrefixSlice(p, q);
      AncestorListed(fs, q, |p|);
    }
  }

  /** In a tree, nothing lies strictly below a directory whose listing is empty. */
  lemma {:induction false} NothingBelowEmptyDirectory(fs: FileSystem, dir: Path)
    requires IsTree(fs) && fs.IsDirectory(dir) && fs.entries[dir].names == []
    ensures Emptied(fs, dir) == fs
  {
    forall q | q in fs.entries && dir < q
      ensures false
    {
      PrefixSlice(dir, q);
      AncestorListed(fs, q, |dir|);
    }
    assert Emptied(fs, dir).entries == fs.entries;
  }

  /** A name that occurs in `names` is kept by `Unlisted` exactly when it is not in `gone`. */
  lemma {:induction false} UnlistedMembers(names: seq<string>, gone: seq<string>, n: string)
    ensures n in Unlisted(names, gone) <==> n in names && n !in gone
    decreases |names|
  {
    if names != [] {
      UnlistedMembers(names[1..], gone, n);
      assert names == [names[0]] + names[1..];
    }
  }

  /** Dropping names keeps a listing free of duplicates. */
  lemma {:induction false} UnlistedDistinct(names: seq<string>, gone: seq<string>)
    requires Distinct(names)
    ensures Distinct(Unlisted(names, gone))
    decreases |names|
  {
    if names != [] {
      var rest := names[1..];
      assert Distinct(rest) by {
        forall i, j | 0 <= i < j < |rest|
          ensures rest[i] != rest[j]
        {
          assert rest[i] == names[i + 1] && rest[j] == names[j + 1];
        }
      }
      UnlistedDistinct(rest, gone);
      if names[0] !in gone {
        UnlistedMembers(rest, gone, names[0]);
        assert names[0] !in rest by {
          forall i | 0 <= i < |rest|
            ensures rest[i] != names[0]
          {
            assert rest[i] == names[i + 1];
          }
        }
        var u := Unlisted(rest, gone);
        assert Unlisted(names, gone) == [names[0]] + u;
        forall i, j | 0 <= i < j < |[names[0]] + u|
          ensures ([names[0]] + u)[i] != ([names[0]] + u)[j]
        {
          if i == 0 {
            assert ([names[0]] + u)[j] == u[j - 1] && u[j - 1] in u;
          } else {
            assert ([names[0]] + u)[i] == u[i - 1] && ([names[0]] + u)[j] == u[j - 1];
          }
        }
      }
    }
  }

  /** The first name of a listing without duplicates is dropped alone. */
  lemma {:induction false} UnlistedFirst(names: seq<string>)
    requires 0 < |names| && Distinct(names)
    ensures Unlisted(names, [names[0]]) == names[1..]
  {
    var rest := names[1..];
    forall i | 0 <= i < |rest|
      ensures rest[i] !in [names[0]]
    {
      assert rest[i] == names[i + 1];
    }
    UnlistedKeeps(rest, [names[0]]);
  }

  /** Dropping names none of which occurs changes nothing. */
  lemma {:induction false} UnlistedKeeps(names: seq<string>, gone: seq<string>)
    requires forall i | 0 <= i < |names| :: names[i] !in gone
    ensures Unlisted(names, gone) == names
    decreases |names|
  {
    if names != [] {
      UnlistedKeeps(names[1..], gone);
      assert [names[0]] + names[1..] == names;
    }
  }

  /** A path is its parent's path and its name. */
  lemma ParentName(q: Path)
    requires 0 < |q|
    ensures q == Parent(q) + [Name(q)]
  {
  }

  /** A prefix of `q + [n]` is all of it or a prefix of `q`. */
  lemma {:induction false} PrefixOfExtension(p: Path, q: Path, n: string)
    ensures p <= q + [n] <==> p == q + [n] || p <= q
  {
    if p <= q {
      PrefixSlice(p, q);
      assert (q + [n])[..|p|] == q[..|p|];
    }
    if p <= q + [n] && p != q + [n] {
      PrefixSlice(p, q + [n]);
      assert |p| <= |q|;
      assert q[..|p|] == (q + [n])[..|p|];
    }
  }

  /** Pruning the entry `p` of a tree leaves a tree. */
  lemma {:induction false} PrunedIsTree(fs: FileSystem, p: Path)
    requires IsTree(fs) && p in fs.entries
    ensures IsTree(Pruned(fs, p))
  {
    var r := Pruned(fs, p);
    forall q | q in r.entries && 0 < |q|
      ensures r.IsDirectory(Parent(q)) && Name(q) in r.entries[Parent(q)].names
    {
      var pq := Parent(q);
      ParentName(q);
      PrefixOfExtension(p, pq, Name(q));
      assert pq in fs.entries && fs.entries[pq].Dir?;
      if 0 < |p| && pq == Parent(p) {
        ParentName(p);
        UnlistedMembers(fs.entries[pq].names, [Name(p)], Name(q));
      }
    }
    forall q | q in r.entries && r.entries[q].Dir?
      ensures Distinct(r.entries[q].names)
    {
      if 0 < |p| && q == Parent(p) && fs.entries[q].Dir? {
        UnlistedDistinct(fs.entries[q].names, [Name(p)]);
      }
    }
    forall q, n | q in r.entries && r.entries[q].Dir? && n in r.entries[q].names
      ensures q + [n] in r.entries
    {
      PrefixOfExtension(p, q, n);
      if 0 < |p| && q == Parent(p) && fs.entries[q].Dir? {
        ParentName(p);
        UnlistedMembers(fs.entries[q].names, [Name(p)], n);
      }
    }
  }

  /** Unlinking a non-directory of a tree is pruning it. */
  lemma {:induction false} UnlinkIsPruned(fs: FileSystem, c: Path)
    requires IsTree(fs) && c in fs.entries && !fs.IsDirectory(c)
    ensures fs.Unlink(c) == Ok(Pruned(fs, c))
  {
    NothingBelowNonDirectory(fs, c);
    DetachIsPruned(fs, c);
  }

  /** Detaching an entry with nothing below it is pruning it. */
  lemma {:induction false} DetachIsPruned(fs: FileSystem, c: Path)
    requires c in fs.entries
    requires forall q | q in fs.entries :: !(c < q)
    ensures fs.Detach(c) == Pruned(fs, c)
  {
    var a := fs.Detach(c);
    var b := Pruned(fs, c);
    assert forall q | q in fs.entries :: c <= q <==> q == c;
    assert a.entries.Keys == b.entries.Keys;
    forall q | q in a.entries
      ensures a.entries[q] == b.entries[q]
    {
      assert q in fs.entries && !(c <= q);
    }
    assert a.entries == b.entries;
  }

  /** Pruning a child of `dir` and then emptying `dir` is emptying `dir`. */
  lemma {:induction false} EmptiedAfterPruned(fs: FileSystem, dir: Path, n: string)
    ensures Emptied(Pruned(fs, dir + [n]), dir) == Emptied(fs, dir)
  {
    var c := dir + [n];
    var a := Emptied(Pruned(fs, c), dir);
    var b := Emptied(fs, dir);
    assert Parent(c) == dir;
    forall q | q in fs.entries && c <= q
      ensures dir < q
    {
      PrefixSlice(c, q);
      assert q[..|dir|] == c[..|dir|];
    }
    assert a.entries.Keys == b.entries.Keys;
    forall q | q in a.entries
      ensures a.entries[q] == b.entries[q]
    {
    }
    assert a.entries == b.entries;
  }

  /** Removing the emptied directory `path` gives the filesystem pruned at `path`. */
  lemma {:induction false} RmdirEmptiedIsPruned(fs: FileSystem, path: Path)
    requires fs.IsDirectory(path)
    ensures Emptied(fs, path).Rmdir(path) == Ok(Pruned(fs, path))
  {
    var e := Emptied(fs, path);
    assert e.entries[path] == Dir([]);
    var a := e.Detach(path);
    assert e.Rmdir(path) == Ok(a);
    var b := Pruned(fs, path);
    assert forall q | q in fs.entries :: path <= q <==> q == path || path < q;
    assert a.entries.Keys == b.entries.Keys;
    forall q | q in a.entries
      ensures a.entries[q] == b.entries[q]
    {
      assert q in fs.entries && !(path <= q);
      assert e.entries[q] == fs.entries[q];
      if 0 < |path| && q == Parent(path) {
        assert a.entries[q] == if fs.entries[q].Dir? then Dir(Unlisted(fs.entries[q].names, [Name(path)])) else fs.entries[q];
      } else {
        assert a.entries[q] == e.entries[q];
      }
    }
    assert a.entries == b.entries;
  }

  /** Deleting a directory of a tree returns normally, leaving the tree pruned at it. */
  lemma {:induction false} RemoveTreeSpec(fs: FileSystem, path: Path)
    requires IsTree(fs) && fs.IsDirectory(path)
    ensures RemoveTree(fs, path) == Deletion(Pruned(fs, path), None)
    decreases |Below(fs, path)|, 0, 0
  {
    StrictlyBelowSmaller(fs, path);
    var names := fs.entries[path].names;
    RemoveEntriesSpec(fs, path, names);
    RmdirEmptiedIsPruned(fs, path);
  }

  /** Deleting every entry a directory of a tree lists leaves that directory emptied. */
  lemma {:induction false} RemoveEntriesSpec(fs: FileSystem, dir: Path, names: seq<string>)
    requires IsTree(fs) && fs.IsDirectory(dir) && fs.entries[dir].names == names
    ensures RemoveEntries(fs, dir, names) == Deletion(Emptied(fs, dir), None)
    decreases |StrictlyBelow(fs, dir)|, 1, |names|
  {
    if names == [] {
      NothingBelowEmptyDirectory(fs, dir);
    } else {
      var c := dir + [names[0]];
      assert c in fs.entries;
      var pruned := Pruned(fs, c);
      if fs.IsDirectory(c) {
        BelowChild(fs, dir, names[0]);
        RemoveTreeSpec(fs, c);
      } else {
        UnlinkIsPruned(fs, c);
      }
      PrunedIsTree(fs, c);
      PrunedKeepsParent(fs, dir, names[0]);
      StrictlyBelowShrinks(fs, pruned, dir);
      RemoveEntriesSpec(pruned, dir, names[1..]);
      EmptiedAfterPruned(fs, dir, names[0]);
    }
  }

  /** Pruning the first listed child of a directory of a tree leaves the rest of its listing. */
  lemma {:induction false} PrunedKeepsParent(fs: FileSystem, dir: Path, n: string)
    requires IsTree(fs) && fs.IsDirectory(dir) && 0 < |fs.entries[dir].names| && fs.entries[dir].names[0] == n
    ensures Pruned(fs, dir + [n]).entries.Keys <= fs.entries.Keys
    ensures Pruned(fs, dir + [n]).IsDirectory(dir)
    ensures Pruned(fs, dir + [n]).entries[dir].names == fs.entries[dir].names[1..]
  {
    var c := dir + [n];
    assert Parent(c) == dir && Name(c) == n;
    assert !(c <= dir);
    UnlistedFirst(fs.entries[dir].names);
  }

  /**
   Deleting a directory of a tree returns normally and removes exactly the entries at or
   below it; what is left is still a tree.
   */
  lemma {:induction false} RemoveTreeRemovesSubtree(fs: FileSystem, path: Path)
    requires IsTree(fs) && fs.IsDirectory(path)
    ensures RemoveTree(fs, path).failure.None?
    ensures RemoveTree(fs, path).fs.entries.Keys == fs.entries.Keys - Below(fs, path)
    ensures IsTree(RemoveTree(fs, path).fs)
  {
    RemoveTreeSpec(fs, path);
    PrunedIsTree(fs, path);
    hide IsTree;
    assert Pruned(fs, path).entries.Keys == fs.entries.Keys - Below(fs, path);
  }

  /** The corrected loop does what the loop as written does, unless that throws the `ReferenceError`. */
  lemma {:induction false} RemoveEntriesAgrees(fs: FileSystem, dir: Path, names: seq<string>)
    requires DeleteEntries(fs, dir, names).failure != Some(ReferenceError(UnboundName))
    ensures RemoveEntries(fs, dir, names) == DeleteEntries(fs, dir, names)
    decreases |names|
  {
    if names != [] {
      var p := dir + [names[0]];
      if fs.Exists(p) && !fs.IsDirectory(p) {
        RemoveEntriesAgrees(fs.Unlink(p).value, dir, names[1..]);
      }
    }
  }

  /**
   The corrected deletion and `deleteFolderRecursive` as written agree on every call where
   the latter does not throw the `ReferenceError`: the fix changes nothing else.
   */
  lemma {:induction false} RemoveTreeAgrees(fs: FileSystem, path: Path)
    requires DeleteFolderRecursive(fs, path).failure != Some(ReferenceError(UnboundName))
    ensures RemoveTree(fs, path) == DeleteFolderRecursive(fs, path)
  {
    if fs.IsDirectory(path) {
      RemoveEntriesAgrees(fs, path, fs.entries[path].names);
    }
  }
}
