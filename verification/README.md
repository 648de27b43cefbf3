# Dolittle documentation site builder, modelled in Dafny

The Hugo tooling of the Dolittle documentation site has four parts, all modelled here:

- **Site build (`build.js`).** For each repository on an allow-list it brings a working copy up to date with git and links that copy's `Documentation` folder into the site's `content` tree. Then it runs hugo.
- **Recursive delete (`helpers.js`).** A helper that deletes a folder and its contents.
- **Webhook (`app.js`).** An HTTP handler, `/updateRepository`, that pulls one allowed repository when a push notification names it.
- **Version text (`versioning.js`, `BuildVersion.js`).** The newest git tag is parsed into a `BuildVersion` through a global regular expression.

The Dafny modules follow the source files:

| module | file | models |
|---|---|---|
| `Chars` | chars.dfy | Character classes of JavaScript patterns and of `trim`; greedy runs; `parseInt` and number rendering of digit strings. |
| `VersionRegex` | version_regex.dfy | The pattern `(\d+).(\d+).(\d+)-*([\w]+)*[+-.]*(\d+)*` with the `g` flag. `exec` is a leftmost search from `lastIndex` with the split that backtracking commits to. |
| `BuildVersions` | build_version.dfy | The `BuildVersion` constructor, `isPreRelease` and `toString`. |
| `Versioning` | versioning.dfy | `getVersionFromGit`: line splitting, the one-comma strip, `trim`, the first non-empty line, the "1.0.0" fallback. |
| `FileSystems` | filesystem.dfy | An abstract filesystem with the `fs` calls the scripts make. |
| `Helpers` | helpers.dfy | `deleteFolderRecursive` as written, and with its recursive call bound as intended. |
| `Build` | build.dfy | The build script, as the trace of actions it performs. |
| `Webhook` | webhook.dfy | The `/updateRepository` handler. |

Some behaviours follow the code as written, because they differ from what the scripts' documentation describes:

- **Versions.** `getVersionFromGit` reads `result.output`, which is `[null, stdout, stderr]` joined by commas. With no tags the chosen text is `","`, so the version is 0.0.0, not the promised 1.0.0 (see Findings).
- **Shared pattern.** The version pattern is global and shared. A second construction from the same text searches from where the first match ended (see Findings).
- **Exit code.** `process.exit()` is called without a code, so rejected command-line arguments end the script with status 0, not a failure status.
- **Recursive delete.** The recursive call inside `deleteFolderRecursive` names a function that is only a property of the exported object. Reaching a subdirectory therefore throws a `ReferenceError` instead of recursing (see Findings). The build model calls `Helpers.DeleteFolderRecursive`, the code as written. Nothing catches the throw in `hasClone` or `handleCurrentRepository`, so a stale working copy that holds a subdirectory ends the build there (`Build.SubdirectoryEndsTheRun`). The build does not skip that repository and go on. `Helpers.RemoveTree` is the deletion that recurses as intended, related to the code as written by `Helpers.RemoveTreeAgrees`.
- **Exit statuses.** The script never reads the exit statuses of git and hugo. A failing git command or a failing hugo run does not stop the build and does not change its ending.
- **Webhook status.** The webhook refuses with status 500 in every case.
- **Missing `url`.** A missing `url` reaches `decodeURIComponent` as `undefined` and becomes the text "undefined". The usage message is sent only when `url` is present and decodes to the empty string.

## Model

| member | source | states |
|---|---|---|
| Chars.RunLengthIsMaximal | Source/Hugo/BuildVersion.js:8 | A greedy quantifier's run is all of its class and is followed by the end of the text or by a character outside the class. |
| Chars.RunLengthUnique | Source/Hugo/BuildVersion.js:8 | Any run of the class that cannot be extended is the one the greedy quantifier takes. |
| Chars.DecimalString | Source/Hugo/BuildVersion.js:60-68 | A number rendered in a template literal is a non-empty digit string with no leading zero that `parseInt` reads back as the same number. |
| Chars.DecimalValueLeadingZero | Source/Hugo/BuildVersion.js:17-19 | `parseInt` ignores leading zeros. |
| Chars.DecimalStringOfValue | Source/Hugo/BuildVersion.js:17-19 | A digit string without a leading zero, parsed and then rendered, is itself. |
| VersionRegex.HeadAtIsChosen | Source/Hugo/BuildVersion.js:8 | At each start position the major/minor split found is the one backtracking commits to: longest major first, then longest minor. It fails exactly when no split matches there. |
| VersionRegex.CompleteIsWellFormed | Source/Hugo/BuildVersion.js:8 | In a match, the three numbers are digit strings, the patch is non-empty, and a captured label is a non-empty word. |
| VersionRegex.FirstHeadIsLeftmost | Source/Hugo/BuildVersion.js:8 | The first start position found is the leftmost one where the pattern matches, with the committed split. |
| VersionRegex.SearchIsLeftmost | Source/Hugo/BuildVersion.js:8 | A search returns the leftmost match from the given position, built from the committed split. It fails only when no position matches. |
| VersionRegex.Exec | Source/Hugo/BuildVersion.js:15 | `exec` resets `lastIndex` to 0 exactly when it fails. A match starts at or after `lastIndex`, is well formed, and moves `lastIndex` to its end. |
| VersionRegex.ExecFailsIffNoMatch | Source/Hugo/BuildVersion.js:15 | `exec` finds nothing exactly when no start position from `lastIndex` on can match. |
| VersionRegex.ExecIsLeftmostMatch | Source/Hugo/BuildVersion.js:15 | What `exec` finds is a match at its start, and no position between `lastIndex` and that start matches. |
| BuildVersions.BuildVersion.ToString | Source/Hugo/BuildVersion.js:60-68 | The rendering has a hyphen exactly when the version has a label. |
| BuildVersions.FromMatch | Source/Hugo/BuildVersion.js:17-21 | The label taken from a match is a word, possibly empty. The release flag is passed through. |
| BuildVersions.Construct | Source/Hugo/BuildVersion.js:12-29 | `isRelease` holds exactly when `true` is passed. With no match from the shared `lastIndex`, the fields are 0.0.0, build 0, no label, and `lastIndex` returns to 0. Otherwise the fields come from `exec`'s match and `lastIndex` is left at its end. |
| BuildVersions.Parse | Source/Hugo/BuildVersion.js:12-29 | A construction with a fresh pattern. The release flag is as passed, and a text with no match gives 0.0.0. |
| BuildVersions.RoundTripPlain | Source/Hugo/BuildVersion.js:62-63 | A release without a label renders as `M.m.p` and parses back to itself, and the match spans the whole text. |
| BuildVersions.RoundTripBuild | Source/Hugo/BuildVersion.js:64 | A non-release without a label renders as `M.m.p.b` and parses back to itself. |
| BuildVersions.PlainRendering | Source/Hugo/BuildVersion.js:61-64 | A version without a label renders as `M.m.p` when it is a release and as `M.m.p.b` otherwise. |
| BuildVersions.LabelRendering | Source/Hugo/BuildVersion.js:66 | A labelled version renders as `M.m.p-label.b`, whether or not it is a release. |
| BuildVersions.RoundTripLabel | Source/Hugo/BuildVersion.js:66 | A labelled version parses back to itself from its rendering. |
| BuildVersions.RoundTrip | Source/Hugo/BuildVersion.js:60-68 | Parsing `toString`'s output, with the same release flag, gives the version back. This holds for every version whose label is a word and that has build 0 when it is a release without a label (a build `toString` drops). |
| BuildVersions.ConstructTwiceForgetsVersion | Source/Hugo/BuildVersion.js:8-15 | The first construction from "1.2.3" gives 1.2.3 and leaves `lastIndex` at 5. A second construction from the same text then gives 0.0.0 and resets `lastIndex`. |
| BuildVersions.ReleaseOnlySetsFlag | Source/Hugo/BuildVersion.js:13 | The `release` argument decides `isRelease` and nothing else, not even the pattern state left behind. |
| BuildVersions.DigitsOnlySplit | Source/Hugo/BuildVersion.js:8 | On "12345" the groups are "1", "3" and "5": each unescaped dot consumes a digit. |
| BuildVersions.ParseDigitsOnly | Source/Hugo/BuildVersion.js:8 | "12345" reads as 1.3.5. |
| BuildVersions.NoDigitNoMatch | Source/Hugo/BuildVersion.js:8 | The pattern matches nowhere in a text without a digit. |
| BuildVersions.ParseWithoutDigits | Source/Hugo/BuildVersion.js:22-28 | A text without a version gives 0.0.0, rendered "0.0.0.0". |
| BuildVersions.ParseLabelled | Source/Hugo/BuildVersion.js:15-21 | "1.2.3-beta.4" gives label "beta" and build 4, and renders back unchanged. |
| BuildVersions.LettersSplit | Source/Hugo/BuildVersion.js:8 | On "1x2y3" the groups are "1", "2" and "3". |
| BuildVersions.ParseAnySeparator | Source/Hugo/BuildVersion.js:8 | Any character but a line terminator separates the numbers (for characters inside the Basic Multilingual Plane): "1x2y3" reads as 1.2.3. |
| BuildVersions.TailAtLabelOnly | Source/Hugo/BuildVersion.js:8 | A tail `-L` with a word `L` captures the label `L`, no build, and ends the match at the end of the text. |
| BuildVersions.ParseDigitLabel | Source/Hugo/BuildVersion.js:20-21 | Digits right after the hyphen are the label: "1.2.3-4" has label "4" and build 0. |
| BuildVersions.ParseDottedBuild | Source/Hugo/BuildVersion.js:21 | "1.2.3.4" has no label and build 4. |
| BuildVersions.ParseAfterPrefix | Source/Hugo/BuildVersion.js:15 | The search is not anchored: "v1.2.3" reads as 1.2.3. |
| Versioning.SplitLinesHasNoLineFeed | Source/Hugo/versioning.js:18 | No piece produced by `split('\n')` contains a line feed. |
| Versioning.JoinSplitLines | Source/Hugo/versioning.js:18 | Joining the pieces with line feeds gives the text back. |
| Versioning.SplitJoinLines | Source/Hugo/versioning.js:18 | Splitting lines that have no line feed, once joined, gives those lines back. |
| Versioning.SplitConcat | Source/Hugo/versioning.js:18 | Splitting a concatenation splits both parts. The last piece of the first part and the first piece of the second are fused. |
| Versioning.TrimShape | Source/Hugo/versioning.js:22 | `trim` removes a leading and a trailing run of white space and leaves a text that neither starts nor ends with white space. |
| Versioning.TrimUnique | Source/Hugo/versioning.js:22 | Any split into white space, a trimmed core and white space has `trim` giving that core. |
| Versioning.TrimIdempotent | Source/Hugo/versioning.js:22 | Trimming twice is trimming once. |
| Versioning.CleanLineDropsOneComma | Source/Hugo/versioning.js:21 | Only one leading ',' is dropped: ",v" cleans to "v" and ",,v" to ",v". |
| Versioning.CommaBehindSpaceStays | Source/Hugo/versioning.js:21-22 | A ',' behind white space is not at index 0 and survives the trim. |
| Versioning.CarriageReturnTrimmed | Source/Hugo/versioning.js:18-22 | The '\r' of a "\r\n" line end is removed by the trim. |
| Versioning.VersionsSnoc | Source/Hugo/versioning.js:19-24 | One more line adds its cleaned form to the versions exactly when that form is non-empty. |
| Versioning.CollectVersions | Source/Hugo/versioning.js:19-24 | The loop collects exactly the non-empty cleaned lines, in order. |
| Versioning.VersionsAreCleanedLines | Source/Hugo/versioning.js:19-24 | Every collected version is non-empty, trimmed, and the cleaned form of some line. |
| Versioning.NoVersionsIffAllBlank | Source/Hugo/versioning.js:19-27 | No version is collected exactly when every line cleans to nothing. |
| Versioning.FirstVersionIsFirstNonBlankLine | Source/Hugo/versioning.js:26 | The version chosen is the cleaned form of the first line that does not clean to nothing. |
| Versioning.GetVersionFromGit | Source/Hugo/versioning.js:26-27 | The result is never a release (no flag is passed), and its label is a word. |
| Versioning.OutputLines | Source/Hugo/versioning.js:18 | The lines of `[null, stdout, stderr].toString()` are: the first line of stdout behind a ',', the middle lines of stdout, its last line fused with ',' and the first line of stderr, then the rest of stderr. |
| Versioning.SingleLineOutputNeverFallsBack | Source/Hugo/versioning.js:18-27 | When stdout has no line feed, the first line always holds a ','. The "1.0.0" fallback is never used: the text is the trimmed `stdout + "," + first line of stderr`. |
| Versioning.NoTagsChooseComma | Source/Hugo/versioning.js:18-26 | With no tags and nothing on standard error, the chosen text is ",". |
| Versioning.NoTagsGiveZero | Source/Hugo/versioning.js:26 | With no tags the version is 0.0.0, rendered "0.0.0.0". |
| Versioning.TagText | Source/Hugo/versioning.js:26-27 | The text chosen from the tag list alone is non-empty and trimmed. |
| Versioning.VersionFromTags | Source/Hugo/versioning.js:26-27 | The intended version is never a release, and its label is a word. |
| Versioning.ParseOneZeroZero | Source/Hugo/versioning.js:27 | The fallback text "1.0.0" parses to 1.0.0. |
| Versioning.NoTagsGiveOne | Source/Hugo/versioning.js:27 | With no tags the intended reading gives 1.0.0, rendered "1.0.0.0". |
| Versioning.GitAgreesWithTags | Source/Hugo/versioning.js:18-26 | When stdout has several lines and its first line names a tag not starting with ',', the code as written agrees with the intended reading. |
| FileSystems.FileSystem.Readdir | Source/Hugo/helpers.js:7 | The listing is returned exactly for a directory. Otherwise the call throws ENOTDIR for an existing entry and ENOENT for a missing one. |
| FileSystems.FileSystem.Unlink | Source/Hugo/helpers.js:12 | The unlink succeeds exactly on an existing non-directory. It removes that one entry and changes no entry's kind. |
| FileSystems.FileSystem.Rmdir | Source/Hugo/helpers.js:15 | The removal succeeds exactly on an empty directory and removes only that entry. |
| FileSystems.FileSystem.Symlink | Source/Hugo/build.js:46 | The link is created exactly when nothing is at the path and its parent is a directory. Only that link is added. |
| FileSystems.FileSystem.Realpath | Source/Hugo/build.js:38 | Resolution succeeds exactly for an existing entry whose link target, if it is a link, exists. The result exists, and a non-link resolves to itself. |
| Helpers.DeleteFolderRecursive | Source/Hugo/helpers.js:5-17 | A missing path is left alone. An existing non-directory makes `readdirSync` throw before anything changes. No entry is ever added. For an existing path, the call returns normally exactly when the path is gone afterwards. |
| Helpers.DeleteEntries | Source/Hugo/helpers.js:7-14 | The loop only removes entries and keeps the directory a directory. |
| Helpers.UnlinkChild | Source/Hugo/helpers.js:12 | Unlinking a non-directory child removes exactly that child and its name from the listing. |
| Helpers.DeleteEntriesPrefix | Source/Hugo/helpers.js:7-14 | Over distinct non-directory entries, the loop unlinks each one in turn and continues from the state with exactly those children removed. |
| Helpers.DeleteFlatDirectory | Source/Hugo/helpers.js:5-17 | A directory of distinct files or links loses all of them and then itself. Nothing else changes except the parent's listing. |
| Helpers.DeleteStopsAtSubdirectory | Source/Hugo/helpers.js:9-10 | At the first subdirectory the entries before it have been unlinked and the call throws a `ReferenceError`. The directory and that subdirectory remain. |
| Helpers.RemoveTree | Source/Hugo/helpers.js:5-17 | The intended deletion leaves a missing path alone. It throws ENOTDIR, changing nothing, for an existing non-directory. It never adds an entry and keeps every entry outside the deleted path. For an existing path, it returns normally exactly when the path is gone afterwards. |
| Helpers.RemoveEntries | Source/Hugo/helpers.js:7-14 | The intended loop never adds an entry and keeps every entry that is not strictly below the directory. |
| Helpers.RemoveTreeSpec | Source/Hugo/helpers.js:5-17 | On a tree, deleting a directory returns normally. The result is the tree with the directory and everything below it gone, and its name dropped from its parent's listing. |
| Helpers.RemoveEntriesSpec | Source/Hugo/helpers.js:7-14 | On a tree, deleting every entry that a directory lists, subdirectories included, leaves the directory empty and everything outside it unchanged. |
| Helpers.RemoveTreeRemovesSubtree | Source/Hugo/helpers.js:5-17 | On a tree, deleting a directory returns normally and removes exactly the entries at or below it. What remains is still a tree. |
| Helpers.RemoveEntriesAgrees | Source/Hugo/helpers.js:9-10 | The intended loop behaves like the loop as written whenever the latter does not throw the `ReferenceError`. |
| Helpers.RemoveTreeAgrees | Source/Hugo/helpers.js:9-10 | The intended deletion behaves like `deleteFolderRecursive` as written on every call where the latter does not throw the `ReferenceError`. The binding fix changes nothing else. |
| Helpers.UnlinkIsPruned | Source/Hugo/helpers.js:12 | On a tree, unlinking a non-directory removes exactly that entry and its name from the parent's listing. |
| Helpers.RmdirEmptiedIsPruned | Source/Hugo/helpers.js:15 | Removing an emptied directory removes it and its name from the parent's listing, and nothing else. |
| Helpers.PrunedIsTree | Source/Hugo/helpers.js:5-17 | Removing an entry of a tree with everything below it leaves a tree: every entry is listed by its parent directory, and listings have no duplicates and name existing entries. |
| Build.Lookup | Source/Hugo/build.js:108 | The configuration found belongs to an entry with that key. |
| Build.HasClone | Source/Hugo/build.js:12-21 | The result is true exactly when the working copy and its `.git` exist, and then nothing changes. When it is false and nothing was thrown, the working copy is gone. A throw comes only from the delete of a working copy without `.git`. |
| Build.CloneRepository | Source/Hugo/build.js:23-33 | A single clone from the key, whose working directory and destination together are the working copy. |
| Build.PullChanges | Source/Hugo/build.js:58-67 | A hard reset, then a pull, both in the working copy. |
| Build.CreateSymbolicLink | Source/Hugo/build.js:35-56 | Nothing escapes the function. It acts only on the link place `content/<path>/<name>`, with at most an unlink and a symlink. An unresolvable `Documentation` changes nothing. |
| Build.MakeLink | Source/Hugo/build.js:45-51 | The symlink is created exactly when the resolved target exists and the link can be made. The link place then points at the target. |
| Build.HandleCurrentRepository | Source/Hugo/build.js:70-85 | Handling one repository only deletes, runs git and links. When it throws, its only action was the failed delete of the working copy. |
| Build.BuildSite | Source/Hugo/build.js:87-116 | When the script exits early it does nothing else, and its status is 0. |
| Build.HandleAllWork | Source/Hugo/build.js:88-95 | The loop never runs hugo or exits. When it throws, its last action is the failed delete. |
| Build.HandleAllInOrder | Source/Hugo/build.js:88-95 | The loop handles every allowed key in allow-list order, or, when one throws, a non-empty prefix of them ending with that key. |
| Build.ExitsIffArgumentsRejected | Source/Hugo/build.js:96-106 | The script exits exactly when it has an argument count other than 0 and 1, or a single argument that is not an allowed key. It exits touching nothing, with status 0. |
| Build.HugoRunsLast | Source/Hugo/build.js:87-116 | Hugo runs once, as the last action, exactly when the run finishes. Otherwise it never runs, and a crash ends with the failed delete. |
| Build.AllKeysHandledInOrder | Source/Hugo/build.js:87-95 | Without arguments, a finished run handled every allowed key in order, and a crashed run handled a prefix of them. |
| Build.OneRepositoryHandled | Source/Hugo/build.js:101-113 | With one allowed key only that repository is handled. The run crashes exactly when the repository is remote and the delete of its stale working copy throws, whatever git does. Otherwise it finishes. |
| Build.OneRepositoryFails | Source/Hugo/build.js:70-85 | Handling a repository throws exactly when the repository is remote and the delete in `hasClone` throws. |
| Build.LocalRepositoryOnlyLinked | Source/Hugo/build.js:71-74 | A key that is an existing path is only linked: no delete and no git. The result does not depend on git. |
| Build.WorkingCopyUpdated | Source/Hugo/build.js:75-83 | A working copy with `.git` gets a hard reset and then a pull, never a clone, and then only link actions. |
| Build.MissingWorkingCopyCloned | Source/Hugo/build.js:75-83 | A missing working copy is cloned from the key into `repositories/<path>/<name>`, and then only link actions follow. |
| Build.StaleWorkingCopyReplaced | Source/Hugo/build.js:12-21 | A working copy without `.git` is deleted first. If the delete throws nothing follows; otherwise the copy is cloned afresh into the emptied place and then linked. |
| Build.StaleCopyWithSubdirectoryCrashes | Source/Hugo/build.js:12-21 | A stale working copy whose listing reaches a subdirectory makes the delete throw the `ReferenceError`. Handling stops after that one delete; the working copy is still a directory and nothing is cloned or linked. |
| Build.SubdirectoryEndsTheRun | Source/Hugo/build.js:87-116 | When the first allowed repository is in that situation, the run crashes with the `ReferenceError`. Its trace is that repository's log line and the failed delete: no later repository is handled and hugo never runs. |
| Build.LinkReplacesEntry | Source/Hugo/build.js:38-47 | When `<target>/Documentation` resolves elsewhere and the link's directory exists, any non-directory at the link place is unlinked and a link to the resolved target is created. |
| Webhook.Lower | Source/Hugo/app.js:16 | Lower-casing keeps the length and leaves no upper-case letter. |
| Webhook.LowerIdempotent | Source/Hugo/app.js:12-18 | Lower-casing twice is lower-casing once. |
| Webhook.LowerFixesLowercase | Source/Hugo/app.js:16 | A text is its own lower case exactly when it has no upper-case letter. |
| Webhook.Incoming | Source/Hugo/app.js:12 | A missing `url` gives "undefined", and the incoming value is always lower case. |
| Webhook.FirstMatch | Source/Hugo/app.js:15-18 | Finds the first key whose lower case equals the incoming value; no earlier key matches. If none is found, no key matches. |
| Webhook.FirstMatchIsFirst | Source/Hugo/app.js:15-18 | When the first matching key is at some index, that index is what the search finds. |
| Webhook.UpdateRepository | Source/Hugo/app.js:11-36 | Every refusal has status 500. |
| Webhook.RefusedIffNoKeyMatches | Source/Hugo/app.js:15-35 | A request is refused exactly when no key lower-cases to the incoming value. The body is the usage message for an empty value, and otherwise the refusal naming the value. |
| Webhook.AbsentUrlNamesUndefined | Source/Hugo/app.js:12-35 | A request without `url` is refused with "Repository undefined is not allowed", not the usage message. |
| Webhook.MessagesDiffer | Source/Hugo/app.js:34-35 | The refusal and the usage message never coincide. |
| Webhook.UsageOnlyForEmptyUrl | Source/Hugo/app.js:33-35 | When no key is empty, the usage message answers exactly the requests whose `url` is present and decodes to "". |
| Webhook.MatchingIgnoresCase | Source/Hugo/app.js:12-18 | Two requests whose decoded values differ only in case get the same response. |
| Webhook.FirstMatchDecides | Source/Hugo/app.js:18-31 | The first matching key decides. If its lower case is a key, that entry's working copy `<cwd>/repositories/<path>/<name>` is pulled; otherwise reading its configuration throws. |
| Webhook.UppercaseKeyCrashes | Source/Hugo/app.js:16-19 | A request matching a key with an upper-case letter throws when the lower-cased key is not itself configured. |

## Left out

- Processes. Spawning processes (`helpers.run`, `spawnSync`) and what git and hugo do are not modelled. Git's effect on the filesystem is a function parameter. Hugo is a `RunHugo` action with no effect.
- Output. Console output is left out. Standard output and error of `git tag` are parameters of `getVersionFromGit`.
- Configuration loading. How `globals.js` and `repositories` are loaded (`NODE_ENV`, `require` of JSON) is left out. The allow-list is given as an ordered sequence of keys and configurations, in `for...in` order. `Lookup` takes the first entry with a key. JavaScript objects have unique keys, and the reordering of integer-like keys is not modelled.
- Paths. `path.join` normalisation is not modelled: paths are segment sequences joined by concatenation. A key used as a filesystem path is split on '/' (`FileSystems.Segments`), without resolving `.`, `..` or empty segments.
- Links. `fs.realpathSync` is modelled as one hop: intermediate links on the way and link chains are not followed. `fs.existsSync` does not follow links here, so a dangling link counts as existing.
- FileSystems.FileSystem.Readdir: a path is looked up as it is written. A link at the path, or at a directory segment on the way, is never followed, by `readdirSync` or by any other lookup. Node follows such links. So `readdirSync` on a link to a directory lists the target, and `deleteFolderRecursive` would unlink the target's files before `rmdirSync` throws ENOTDIR; the model throws ENOTDIR before changing anything. Likewise, a working copy that is a link to a clone has its `.git` found by `existsSync` and is pulled; in the model it counts as stale and is deleted.
- Errors. Filesystem errors other than ENOENT, ENOTDIR, EISDIR, ENOTEMPTY and EEXIST (permissions, busy files) are not modelled. On platforms where unlinking a directory reports EPERM, the result is the same: the catch in `createSymbolicLink` swallows it.
- `decodeURIComponent` is a parameter that returns the decoded text or reports a `URIError`. Its percent-decoding is not modelled. A `url` given several times (an array) is not modelled.
- `toLowerCase` maps only the ASCII letters. Unicode case mapping is left out.
- Strings are sequences of code points, not of UTF-16 code units. Without the `u` flag the pattern's `.` consumes one code unit and `lastIndex` counts code units, so for text with characters outside the Basic Multilingual Plane the model's match positions differ. For example, in "1😀2.3.4" the code's `.` takes only half of the emoji and the match is "2.3.4"; the model's `.` takes the whole emoji and reads 1.2.3 with build 4. `BuildVersions.ParseAnySeparator` holds only for characters inside that plane.
- `parseInt` is exact on digit strings of any length. The loss of precision above 2^53 is not modelled.
- The webhook's asynchronous part is reduced to the `Pulled` response naming the working copy. That part is the `simple-git` pull from origin master, the hugo run in its callback and the 200 reply. Express setup, static file serving and the listening port are left out.
- Concurrent webhook requests are not modelled.
- The client-side scripts under `static/js` are not part of this model.
- Build.PullChanges: the contract fixes the two actions and their directory. What they do to the files is the `git` parameter's business.
- Webhook.UpdateRepository: the contract states only the status of a refusal. Which response each request gets is stated by `Webhook.RefusedIffNoKeyMatches`, `Webhook.FirstMatchDecides` and `Webhook.UppercaseKeyCrashes`.
- BuildVersions.BuildVersion.ToString: the contract states only where the hyphen appears. The three forms are stated by `BuildVersions.PlainRendering` and `BuildVersions.LabelRendering`.
- Versioning.GetVersionFromGit: the contract states only the release flag and the label's shape. The version chosen is stated by `Versioning.SingleLineOutputNeverFallsBack`, `Versioning.NoTagsGiveZero` and `Versioning.GitAgreesWithTags`.
- Helpers.DeleteEntries: the contract states only that entries are removed, never added. What the loop does is stated by `Helpers.DeleteEntriesPrefix` and `Helpers.DeleteStopsAtSubdirectory`.
- Helpers.RemoveTree: the exact result is stated (by `Helpers.RemoveTreeSpec`) only for a filesystem that is a tree. A listing that names a missing entry, or one with duplicate names, is covered only by the key contracts.

## Findings

| source | as written | input that shows it | evidently intended | confidence | as-written member | corrected member |
|---|---|---|---|---|---|---|
| Source/Hugo/versioning.js:17-27 | The lines come from `result.output`, which is `[null, stdout, stderr]` joined with ','. When standard output has no line feed (no tags at all), the whole output is one line that begins with two commas. It never cleans to an empty text, so the "1.0.0" fallback cannot be reached. The fallback is reached only for output git does not give for tags, such as a bare line feed. | A repository with no tags: stdout and stderr are empty, the chosen text is ",", and the version is 0.0.0 ("0.0.0.0"). | The tag list on standard output; without tags, 1.0.0 ("1.0.0.0"). | not executed | Versioning.NoTagsGiveZero | Versioning.NoTagsGiveOne |
| Source/Hugo/BuildVersion.js:8-15 | The version pattern has the `g` flag and is shared by every construction, so `exec` starts from the previous match's end. | Constructing from "1.2.3" twice: the second construction gives 0.0.0. | Every construction searches its text from the start. | not executed | BuildVersions.ConstructTwiceForgetsVersion | BuildVersions.RoundTrip |
| Source/Hugo/helpers.js:9-10 | The recursive call names `deleteFolderRecursive`, which is only a property of the exported object and not a variable in scope. | A directory holding a subdirectory: the files listed before it are unlinked, then a `ReferenceError` is thrown. The directory and the subdirectory remain. | Post-order recursive deletion: the subdirectory is deleted the same way, then the loop goes on. | not executed | Helpers.DeleteStopsAtSubdirectory | Helpers.RemoveTreeRemovesSubtree |
