/**
 build.js: for each allowed repository, bring its working copy up to date and link its
 documentation into the site's content, then run hugo. The run is modelled as the
 trace of actions it performs on an abstract filesystem. What git does to the
 filesystem is a parameter: its exit statuses are never read.
 */
module Build {
  import opened Options
  import opened FileSystems
  import opened Helpers

  /** `paths.repositories` and `paths.content` of globals.js. */
  const RepositoriesDir: Path := ["repositories"]
  const ContentDir: Path := ["content"]
  const DocumentationDir := "Documentation"
  const GitDir := ".git"

  /** An allow-list value: where the working copy and the content link go. */
  datatype Configuration = Configuration(name: string, path: Path)

  /** An allow-list entry: the clone url (or local path) and its configuration. */
  datatype Repository = Repository(key: string, config: Configuration)

  /** The allow-list, in the order a `for...in` loop enumerates its keys. */
  type AllowList = seq<Repository>

  datatype Action =
    | Handle(key: string)                       // the log line that starts one repository
    | DeleteTree(path: Path)                    // helpers.deleteFolderRecursive
    | Clone(url: string, workingDir: Path, destination: Path)  // git clone --recurse-submodules
    | ResetHard(dir: Path)                      // git reset --hard
    | Pull(dir: Path)                           // git pull
    | Unlink(path: Path)
    | Symlink(target: Path, path: Path)
    | RunHugo
    | Exit
  {
    predicate IsGit() {
      Clone? || ResetHard? || Pull?
    }

    /** An action `createSymbolicLink` takes on the link at `source`. */
    predicate Links(source: Path) {
      (Unlink? && path == source) || (Symlink? && path == source)
    }

    /** An action taken while handling one repository. */
    predicate IsRepositoryWork() {
      !Handle? && !RunHugo? && !Exit?
    }
  }

  /** The filesystem after a git command; git's exit status is never inspected. */
  type GitEffect = (FileSystem, Action) -> FileSystem

  /** Actions taken so far, the filesystem they leave, and an exception that escaped. */
  datatype Step = Step(fs: FileSystem, actions: seq<Action>, failure: Option<Failure>)

  /** `process.exit()` without a code exits with status 0. */
  datatype Ending = Finished | Exited(status: int) | Crashed(failure: Failure)

  datatype Run = Run(fs: FileSystem, trace: seq<Action>, ending: Ending)

  /** `path.join(paths.repositories, path, name)`: the working copy. */
  function RepositoryPath(c: Configuration): Path {
    RepositoriesDir + c.path + [c.name]
  }

  /** `content/<path>/<name>`: where the documentation link goes. */
  function LinkSource(c: Configuration): Path {
    ContentDir + c.path + [c.name]
  }

  predicate HasKey(allow: AllowList, key: string) {
    exists k | 0 <= k < |allow| :: allow[k].key == key
  }

  /** `allowedRepositories[key]`. */
  function Lookup(allow: AllowList, key: string): (c: Configuration)
    requires HasKey(allow, key)
    ensures exists k | 0 <= k < |allow| :: allow[k].key == key && allow[k].config == c
  {
    if allow[0].key == key then allow[0].config
    else
      assert HasKey(allow[1..], key) by {
        var k :| 0 <= k < |allow| && allow[k].key == key;
        assert allow[1..][k - 1] == allow[k];
      }
      Lookup(allow[1..], key)
  }

  function Keys(allow: AllowList): (keys: seq<string>)
    ensures |keys| == |allow|
  {
    seq(|allow|, k requires 0 <= k < |allow| => allow[k].key)
  }

  /** The keys of the `Handle` actions of a trace, in order. */
  function Handled(trace: seq<Action>): seq<string>
    decreases |trace|
  {
    if trace == [] then []
    else (if trace[0].Handle? then [trace[0].key] else []) + Handled(trace[1..])
  }

  /**
   `hasClone`: whether the working copy has a `.git`. A working copy without one is
   deleted first, which may throw.
   */
  function HasClone(fs: FileSystem, rp: Path): (r: (bool, Step))
    ensures r.0 <==> fs.Exists(rp) && fs.Exists(rp + [GitDir])
    ensures r.0 ==> r.1 == Step(fs, [], None)
    ensures !r.0 && r.1.failure.None? ==> !r.1.fs.Exists(rp)
    ensures r.1.failure.Some? ==> r.1.actions == [DeleteTree(rp)]
  {
    if !fs.Exists(rp) then (false, Step(fs, [], None))
    else if fs.Exists(rp + [GitDir]) then (true, Step(fs, [], None))
    else
      var d := DeleteFolderRecursive(fs, rp);
      (false, Step(d.fs, [DeleteTree(rp)], d.failure))
  }

  /** `clone`: clones from the key, in `repositories`, into `<path>/<name>`. */
  function CloneRepository(fs: FileSystem, key: string, c: Configuration, git: GitEffect): (r: Step)
    ensures |r.actions| == 1 && r.actions[0].Clone? && r.actions[0].url == key
    ensures r.actions[0].workingDir + r.actions[0].destination == RepositoryPath(c)
    ensures r.failure.None?
  {
    var a := Clone(key, RepositoriesDir, c.path + [c.name]);
    Step(git(fs, a), [a], None)
  }

  /** `pullChanges`: a hard reset, then a pull, both in the working copy. */
  function PullChanges(fs: FileSystem, rp: Path, git: GitEffect): (r: Step)
    ensures r.failure.None? && |r.actions| == 2
    ensures r.actions[0].ResetHard? && r.actions[1].Pull? && r.actions[0].dir == r.actions[1].dir == rp
  {
    var reset := ResetHard(rp);
    var pull := Pull(rp);
    Step(git(git(fs, reset), pull), [reset, pull], None)
  }

  /**
   `createSymbolicLink`: links `content/<path>/<name>` to the resolved `<target>/Documentation`,
   unlinking what was there. Every exception is caught and logged.
   */
  function CreateSymbolicLink(fs: FileSystem, target: Path, c: Configuration): (r: Step)
    ensures r.failure.None? && |r.actions| <= 2
    ensures forall k | 0 <= k < |r.actions| :: r.actions[k].Links(LinkSource(c))
    ensures fs.Realpath(target + [DocumentationDir]).Err? ==> r == Step(fs, [], None)
  {
    match fs.Realpath(target + [DocumentationDir])
    case Err(_) => Step(fs, [], None)
    case Ok(linkTarget) =>
      var source := LinkSource(c);
      if fs.Exists(source) then
        match fs.Unlink(source)
        case Err(_) => Step(fs, [], None)
        case Ok(cleared) => MakeLink(cleared, linkTarget, source, [Unlink(source)])
      else
        MakeLink(fs, linkTarget, source, [])
  }

  /** The second half of `createSymbolicLink`: link only to a target that exists. */
  function MakeLink(fs: FileSystem, linkTarget: Path, source: Path, done: seq<Action>): (r: Step)
    ensures r.failure.None?
    ensures r.actions == done || r.actions == done + [Symlink(linkTarget, source)]
    ensures r.actions != done <==> fs.Exists(linkTarget) && fs.Symlink(linkTarget, source).Ok?
    ensures r.actions != done ==> source in r.fs.entries && r.fs.entries[source] == Link(linkTarget)
  {
    if !fs.Exists(linkTarget) then Step(fs, done, None)
    else match fs.Symlink(linkTarget, source)
      case Err(_) => Step(fs, done, None)
      case Ok(linked) => Step(linked, done + [Symlink(linkTarget, source)], None)
  }

  /**
   `handleCurrentRepository`: a key that is an existing path is a local repository and is
   only linked; otherwise the working copy is cloned or updated, then linked.
   */
  function HandleCurrentRepository(fs: FileSystem, key: string, c: Configuration, git: GitEffect): (r: Step)
    ensures forall k | 0 <= k < |r.actions| :: r.actions[k].IsRepositoryWork()
    ensures r.failure.Some? ==> r.actions == [DeleteTree(RepositoryPath(c))]
  {
    var local := Segments(key);
    if fs.Exists(local) then CreateSymbolicLink(fs, local, c)
    else
      var rp := RepositoryPath(c);
      var checked := HasClone(fs, rp);
      if checked.1.failure.Some? then checked.1
      else
        var fetched := if checked.0 then PullChanges(checked.1.fs, rp, git)
                       else CloneRepository(checked.1.fs, key, c, git);
        var linked := CreateSymbolicLink(fetched.fs, rp, c);
        Step(linked.fs, checked.1.actions + fetched.actions + linked.actions, None)
  }

  /** The `for...in` loop: each repository in order, until one throws. */
  function HandleAll(fs: FileSystem, allow: AllowList, git: GitEffect): (r: Step)
    decreases |allow|
  {
    if allow == [] then Step(fs, [], None)
    else
      var first := HandleCurrentRepository(fs, allow[0].key, allow[0].config, git);
      var done := [Handle(allow[0].key)] + first.actions;
      if first.failure.Some? then Step(first.fs, done, first.failure)
      else
        var rest := HandleAll(first.fs, allow[1..], git);
        Step(rest.fs, done + rest.actions, rest.failure)
  }

  /** After the repositories: hugo runs unless an exception escaped and ended the process. */
  function Finish(s: Step): Run {
    match s.failure
    case Some(f) => Run(s.fs, s.actions, Crashed(f))
    case None => Run(s.fs, s.actions + [RunHugo], Finished)
  }

  /**
   The script: with no argument beyond node and the script, every allowed repository;
   with one, that repository if it is an own key of the allow-list; otherwise exit.
   */
  function BuildSite(fs: FileSystem, argv: seq<string>, allow: AllowList, git: GitEffect): (r: Run)
    ensures r.ending.Exited? ==> r == Run(fs, [Exit], Exited(0))
  {
    if |argv| == 2 then Finish(HandleAll(fs, allow, git))
    else if |argv| != 3 || !HasKey(allow, argv[2]) then Run(fs, [Exit], Exited(0))
    else
      var key := argv[2];
      var s := HandleCurrentRepository(fs, key, Lookup(allow, key), git);
      Finish(Step(s.fs, [Handle(key)] + s.actions, s.failure))
  }

  /** Concatenating traces concatenates the keys they handle. */
  lemma {:induction false} HandledConcat(a: seq<Action>, b: seq<Action>)
    ensures Handled(a + b) == Handled(a) + Handled(b)
    decreases |a|
  {
    if a == [] {
      assert a + b == b;
    } else {
      assert (a + b)[0] == a[0] && (a + b)[1..] == a[1..] + b;
      HandledConcat(a[1..], b);
    }
  }

  /** Work on one repository handles no key. */
  lemma {:induction false} HandledWork(work: seq<Action>)
    requires forall k | 0 <= k < |work| :: work[k].IsRepositoryWork()
    ensures Handled(work) == []
    decreases |work|
  {
    if work != [] {
      assert work[0].IsRepositoryWork();
      HandledWork(work[1..]);
    }
  }

  /** The keys one repository's handling contributes: just its own. */
  lemma HandledOne(key: string, work: seq<Action>)
    requires forall k | 0 <= k < |work| :: work[k].IsRepositoryWork()
    ensures Handled([Handle(key)] + work) == [key]
  {
    HandledWork(work);
    HandledConcat([Handle(key)], work);
    assert Handled([Handle(key)]) == [key];
  }

  /** The loop never runs hugo or exits, and when it throws, its last action is the failed delete. */
  lemma {:induction false} HandleAllWork(fs: FileSystem, allow: AllowList, git: GitEffect)
    ensures var r := HandleAll(fs, allow, git);
      && (forall k | 0 <= k < |r.actions| :: !r.actions[k].RunHugo? && !r.actions[k].Exit?)
      && (r.failure.Some? ==> 0 < |r.actions| && r.actions[|r.actions| - 1].DeleteTree?)
    decreases |allow|
  {
    hide HandleCurrentRepository;
    if allow != [] {
      var first := HandleCurrentRepository(fs, allow[0].key, allow[0].config, git);
      if first.failure.None? {
        HandleAllWork(first.fs, allow[1..], git);
      }
    }
  }

  /** The loop handles the keys in allow-list order: all of them, or a prefix up to the one that throws. */
  lemma {:induction false} HandleAllInOrder(fs: FileSystem, allow: AllowList, git: GitEffect)
    ensures var r := HandleAll(fs, allow, git);
      && (r.failure.None? ==> Handled(r.actions) == Keys(allow))
      && (r.failure.Some? ==>
            && 0 < |Handled(r.actions)| <= |allow|
            && Handled(r.actions) == Keys(allow)[..|Handled(r.actions)|])
    decreases |allow|
  {
    hide HandleCurrentRepository;
    if allow != [] {
      var first := HandleCurrentRepository(fs, allow[0].key, allow[0].config, git);
      var done := [Handle(allow[0].key)] + first.actions;
      HandledOne(allow[0].key, first.actions);
      assert Keys(allow) == [allow[0].key] + Keys(allow[1..]);
      if first.failure.None? {
        var rest := HandleAll(first.fs, allow[1..], git);
        HandleAllInOrder(first.fs, allow[1..], git);
        HandledConcat(done, rest.actions);
        if rest.failure.Some? {
          var n := |Handled(rest.actions)|;
          assert Keys(allow)[..n + 1] == [allow[0].key] + Keys(allow[1..])[..n];
        }
      }
    }
  }
  /** The script exits, touching nothing, exactly when its arguments are rejected. */
  lemma {:induction false} ExitsIffArgumentsRejected(fs: FileSystem, argv: seq<string>, allow: AllowList, git: GitEffect)
    ensures BuildSite(fs, argv, allow, git).ending.Exited?
        <==> |argv| != 2 && (|argv| != 3 || !HasKey(allow, argv[2]))
    ensures BuildSite(fs, argv, allow, git).ending.Exited? ==> BuildSite(fs, argv, allow, git) == Run(fs, [Exit], Exited(0))
  {
    hide HandleAll, HandleCurrentRepository;
  }

  /**
   Hugo runs once, last, exactly when the run finishes; a run ends early only by the exit
   for rejected arguments or by a failed delete.
   */
  lemma {:induction false} HugoRunsLast(fs: FileSystem, argv: seq<string>, allow: AllowList, git: GitEffect)
    ensures var r := BuildSite(fs, argv, allow, git);
      && (r.ending.Finished? ==>
            && 0 < |r.trace| && r.trace[|r.trace| - 1] == RunHugo
            && forall k | 0 <= k < |r.trace| - 1 :: r.trace[k] != RunHugo && r.trace[k] != Exit)
      && (!r.ending.Finished? ==> forall k | 0 <= k < |r.trace| :: r.trace[k] != RunHugo)
      && (r.ending.Crashed? ==> 0 < |r.trace| && r.trace[|r.trace| - 1].DeleteTree?)
  {
    hide HandleAll, HandleCurrentRepository;
    if |argv| == 2 {
      HandleAllWork(fs, allow, git);
    }
  }

  /** Without arguments every allowed repository is handled, in allow-list order, before hugo runs. */
  lemma {:induction false} AllKeysHandledInOrder(fs: FileSystem, argv: seq<string>, allow: AllowList, git: GitEffect)
    requires |argv| == 2
    ensures var r := BuildSite(fs, argv, allow, git);
      && (r.ending.Finished? ==> Handled(r.trace) == Keys(allow))
      && (r.ending.Crashed? ==>
            && 0 < |Handled(r.trace)| <= |allow|
            && Handled(r.trace) == Keys(allow)[..|Handled(r.trace)|])
  {
    hide HandleAll;
    var s := HandleAll(fs, allow, git);
    HandleAllInOrder(fs, allow, git);
    HandledConcat(s.actions, [RunHugo]);
    assert Handled([RunHugo]) == [];
  }

  /**
   With one allowed key, only that repository is handled, and the run crashes exactly when
   the stale working copy of a remote repository cannot be deleted: whatever git does.
   */
  lemma {:induction false} OneRepositoryHandled(fs: FileSystem, argv: seq<string>, allow: AllowList, git: GitEffect)
    requires |argv| == 3 && HasKey(allow, argv[2])
    ensures var r := BuildSite(fs, argv, allow, git);
      && Handled(r.trace) == [argv[2]]
      && (r.ending.Crashed? <==>
            && !fs.Exists(Segments(argv[2]))
            && HasClone(fs, RepositoryPath(Lookup(allow, argv[2]))).1.failure.Some?)
      && (!r.ending.Crashed? ==> r.ending.Finished?)
  {
    hide HandleCurrentRepository, HasClone;
    var key := argv[2];
    var c := Lookup(allow, key);
    var s := HandleCurrentRepository(fs, key, c, git);
    HandledOne(key, s.actions);
    HandledConcat([Handle(key)] + s.actions, [RunHugo]);
    assert Handled([RunHugo]) == [];
    OneRepositoryFails(fs, key, c, git);
  }

  /** Handling one repository throws exactly when it is remote and its stale working copy's delete throws. */
  lemma OneRepositoryFails(fs: FileSystem, key: string, c: Configuration, git: GitEffect)
    ensures HandleCurrentRepository(fs, key, c, git).failure.Some?
        <==> !fs.Exists(Segments(key)) && HasClone(fs, RepositoryPath(c)).1.failure.Some?
  {
    hide HasClone, CreateSymbolicLink;
  }

  /** A key that is an existing path is only linked: no delete and no git, whatever git would do. */
  lemma LocalRepositoryOnlyLinked(fs: FileSystem, key: string, c: Configuration, git: GitEffect, other: GitEffect)
    requires fs.Exists(Segments(key))
    ensures var r := HandleCurrentRepository(fs, key, c, git);
      && r.failure.None?
      && (forall k | 0 <= k < |r.actions| :: r.actions[k].Links(LinkSource(c)))
      && r == HandleCurrentRepository(fs, key, c, other)
  {
    hide CreateSymbolicLink;
  }

  /**
   A remote repository whose working copy has `.git` gets a hard reset and a pull in the
   working copy, never a clone, and then its link.
   */
  lemma WorkingCopyUpdated(fs: FileSystem, key: string, c: Configuration, git: GitEffect)
    requires !fs.Exists(Segments(key))
    requires fs.Exists(RepositoryPath(c)) && fs.Exists(RepositoryPath(c) + [GitDir])
    ensures var r := HandleCurrentRepository(fs, key, c, git);
      && r.failure.None?
      && 2 <= |r.actions|
      && r.actions[..2] == [ResetHard(RepositoryPath(c)), Pull(RepositoryPath(c))]
      && (forall k | 2 <= k < |r.actions| :: r.actions[k].Links(LinkSource(c)))
  {
    hide HasClone, CreateSymbolicLink;
    var rp := RepositoryPath(c);
    var p := PullChanges(fs, rp, git);
    var l := CreateSymbolicLink(p.fs, rp, c);
    assert HandleCurrentRepository(fs, key, c, git).actions == [ResetHard(rp), Pull(rp)] + l.actions;
  }

  /** A remote repository without a working copy is cloned into it from its key, then linked. */
  lemma MissingWorkingCopyCloned(fs: FileSystem, key: string, c: Configuration, git: GitEffect)
    requires !fs.Exists(Segments(key)) && !fs.Exists(RepositoryPath(c))
    ensures var r := HandleCurrentRepository(fs, key, c, git);
      && r.failure.None?
      && 1 <= |r.actions|
      && r.actions[0] == Clone(key, RepositoriesDir, c.path + [c.name])
      && RepositoriesDir + r.actions[0].destination == RepositoryPath(c)
      && (forall k | 1 <= k < |r.actions| :: r.actions[k].Links(LinkSource(c)))
  {
    hide CreateSymbolicLink;
    var rp := RepositoryPath(c);
    var cl := CloneRepository(fs, key, c, git);
    var l := CreateSymbolicLink(cl.fs, rp, c);
    assert HandleCurrentRepository(fs, key, c, git).actions == cl.actions + l.actions;
  }

  /**
   A remote repository whose working copy lacks `.git` has it deleted first. When the delete
   throws, nothing follows; otherwise it is cloned afresh into the emptied place, then linked.
   */
  lemma StaleWorkingCopyReplaced(fs: FileSystem, key: string, c: Configuration, git: GitEffect)
    requires !fs.Exists(Segments(key))
    requires fs.Exists(RepositoryPath(c)) && !fs.Exists(RepositoryPath(c) + [GitDir])
    ensures var r := HandleCurrentRepository(fs, key, c, git);
      var d := DeleteFolderRecursive(fs, RepositoryPath(c));
      && 1 <= |r.actions| && r.actions[0] == DeleteTree(RepositoryPath(c))
      && (d.failure.Some? ==> r == Step(d.fs, [DeleteTree(RepositoryPath(c))], d.failure))
      && (d.failure.None? ==>
            && r.failure.None?
            && !d.fs.Exists(RepositoryPath(c))
            && 2 <= |r.actions|
            && r.actions[1] == Clone(key, RepositoriesDir, c.path + [c.name])
            && (forall k | 2 <= k < |r.actions| :: r.actions[k].Links(LinkSource(c))))
  {
    hide CreateSymbolicLink, DeleteFolderRecursive;
    var rp := RepositoryPath(c);
    var d := DeleteFolderRecursive(fs, rp);
    if d.failure.None? {
      var cl := CloneRepository(d.fs, key, c, git);
      var l := CreateSymbolicLink(cl.fs, rp, c);
      assert HandleCurrentRepository(fs, key, c, git).actions == [DeleteTree(rp)] + cl.actions + l.actions;
    }
  }

  /**
   A stale working copy holding a subdirectory stops the handling of its repository: the
   delete unlinks the entries listed before the subdirectory and then throws the
   `ReferenceError`, so nothing is cloned or linked.
   */
  lemma {:induction false} StaleCopyWithSubdirectoryCrashes(fs: FileSystem, key: string, c: Configuration, git: GitEffect, k: nat)
    requires !fs.Exists(Segments(key))
    requires fs.IsDirectory(RepositoryPath(c)) && !fs.Exists(RepositoryPath(c) + [GitDir])
    requires k < |fs.entries[RepositoryPath(c)].names|
    requires Distinct(fs.entries[RepositoryPath(c)].names[..k + 1])
    requires AllNonDirectories(fs, RepositoryPath(c), fs.entries[RepositoryPath(c)].names[..k])
    requires fs.IsDirectory(RepositoryPath(c) + [fs.entries[RepositoryPath(c)].names[k]])
    ensures var r := HandleCurrentRepository(fs, key, c, git);
      && r.failure == Some(ReferenceError(UnboundName))
      && r.actions == [DeleteTree(RepositoryPath(c))]
      && r.fs.IsDirectory(RepositoryPath(c))
  {
    DeleteStopsAtSubdirectory(fs, RepositoryPath(c), k);
    hide DeleteFolderRecursive;
    StaleWorkingCopyReplaced(fs, key, c, git);
  }

  /**
   When the first allowed repository is remote and its stale working copy holds a
   subdirectory, the whole run crashes there: no later repository is handled and hugo
   never runs.
   */
  lemma {:induction false} SubdirectoryEndsTheRun(fs: FileSystem, argv: seq<string>, allow: AllowList, git: GitEffect, k: nat)
    requires |argv| == 2 && 0 < |allow|
    requires !fs.Exists(Segments(allow[0].key))
    requires fs.IsDirectory(RepositoryPath(allow[0].config)) && !fs.Exists(RepositoryPath(allow[0].config) + [GitDir])
    requires k < |fs.entries[RepositoryPath(allow[0].config)].names|
    requires Distinct(fs.entries[RepositoryPath(allow[0].config)].names[..k + 1])
    requires AllNonDirectories(fs, RepositoryPath(allow[0].config), fs.entries[RepositoryPath(allow[0].config)].names[..k])
    requires fs.IsDirectory(RepositoryPath(allow[0].config) + [fs.entries[RepositoryPath(allow[0].config)].names[k]])
    ensures var r := BuildSite(fs, argv, allow, git);
      && r.ending == Crashed(ReferenceError(UnboundName))
      && r.trace == [Handle(allow[0].key), DeleteTree(RepositoryPath(allow[0].config))]
  {
    StaleCopyWithSubdirectoryCrashes(fs, allow[0].key, allow[0].config, git, k);
    hide HandleCurrentRepository;
  }

  /**
   When `<target>/Documentation` resolves to an entry other than the link's own place, and
   the link's directory exists, whatever non-directory was at the link's place is unlinked
   and the link to the resolved target is created.
   */
  lemma LinkReplacesEntry(fs: FileSystem, target: Path, c: Configuration)
    requires fs.Realpath(target + [DocumentationDir]).Ok?
    requires fs.Realpath(target + [DocumentationDir]).value != LinkSource(c)
    requires !fs.IsDirectory(LinkSource(c)) && fs.IsDirectory(Parent(LinkSource(c)))
    ensures var t := fs.Realpath(target + [DocumentationDir]).value;
      var r := CreateSymbolicLink(fs, target, c);
      && r.actions == (if fs.Exists(LinkSource(c)) then [Unlink(LinkSource(c))] else []) + [Symlink(t, LinkSource(c))]
      && LinkSource(c) in r.fs.entries && r.fs.entries[LinkSource(c)] == Link(t)
  {
    var source := LinkSource(c);
    var t := fs.Realpath(target + [DocumentationDir]).value;
    if fs.Exists(source) {
      var cleared := fs.Unlink(source).value;
      assert cleared.Exists(t);
      assert cleared.IsDirectory(Parent(source));
      assert [Unlink(source)] + [Symlink(t, source)] == [Unlink(source), Symlink(t, source)];
    }
  }
}
