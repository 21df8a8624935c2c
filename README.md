# LogAccess: a Dafny model of the BrowserPlus log-directory resolver

LogAccess is a BrowserPlus plugin service. A web page can call it to get the
paths of the BrowserPlus log files. The page must come from a whitelisted
origin. This project models the service's core and proves properties of it:

- **The host-log resolver** (`getLogfilePaths`). It starts from the platform's
  writable data directory and goes to `Yahoo!/BrowserPlus`. There it keeps the
  immediate entries whose names parse as versions. It walks each of them
  recursively, in pre-order, looking for `BrowserPlusCore.log`. The current
  copy also looks for `BrowserPlus.config` as a fallback. It takes the parent
  directory of the winning marker and appends that directory's regular `.log`
  files to the output list.
- **The service-log resolver** (`getServiceLogfilePaths`). It starts from
  `Yahoo!/BrowserPlus/CoreletData/<service>`. It keeps only major-only version
  directories and takes any entry with extension `.log` as a marker. A missing
  service directory is a success with nothing appended.
- **Both copies of the resolver.** `src/logaccess_util.cpp` is the current
  copy and the one the service calls (module `LogAccessUtil`).
  `src/la_util.cpp` is the older copy, which has no config-file fallback
  (module `LaUtil`). The phases the copies share are in module `LogDir`.
- **The service glue** in `src/service.cpp` (module `LogAccess`): the origin
  whitelist `checkWhitelist`, and the two methods `get` and `getServiceLogs`.

The filesystem is one unchanging snapshot, a tree of `FileTree.Node`s.
- A directory lists its entries in enumeration order.
- A `broken` directory fails after producing the entries it lists. A directory
  that cannot be opened at all is `broken` with no entries.
- Every entry has a last-write time, which may be unreadable.

The boost directory iterators are modelled as follows:
- the recursive iterator is the spec function `FileTree.WalkEntries`, a pre-order walk;
- the one-level iterator is a value of the datatype `FileTree.Listing`, built by
  `FileTree.ListingOf`: a directory's path, its entries in order, and whether the
  enumeration fails after them.

The imperative loops of the source are Dafny methods with loop invariants:
- the version-directory `push_back` loop: `LogDir.CollectVersionDirs`;
- the nested marker scan: `LogDir.ScanOne` and `LogAccessUtil.ScanWithBackup`;
- the `paths.append` listing loop: `LogDir.ListLogFiles`;
- the loop over the service list: `LogAccess.GetServiceLogs`.

Each method is proved equal to a specification function (`Candidates`,
`AllVisits`, `Winner`, `LogFiles`, `HostLogs`, `ServiceLogs`, `Gather`), and
the lemmas state what those functions mean.

Module `Versions` handles version tags. The version parser itself is a
parameter (`Versions.Parser`): a function from a name to an optional
(major, minor, micro) triple, with -1 for an absent component.

## Behaviour as the code has it

Where the code and its comments disagree, the model follows the code:

- **The newest marker does not necessarily win.** The comments say the newest
  marker decides. But the threshold `lastWrite` starts at 0 and is never
  raised: the assignment in the matching branch (`src/logaccess_util.cpp:183`)
  writes the local `curWrite` instead. So the winner is the *last* marker, in
  traversal order, that was written after time 0. If there is no such marker,
  the winner is the *first* marker whose time could not be read. Four lemmas
  state this: `Markers.WinnerIsLastFresh`, `Markers.WinnerIsFirstBlind`,
  `Markers.WinnerNone` and `Markers.NewestNeedNotWin`.
- **Enumeration order matters.** Because of the rule above, the order in which
  version directories and their entries are enumerated decides the result.
- **A marker need not be a regular file.** The scan checks only the name or
  the extension, so a directory named `BrowserPlusCore.log` (or, for
  services, `x.log`) counts as a marker.
- **Non-directory version entries fail the walk.** The version filter looks
  only at names, so a regular file named like a version is kept. Starting the
  recursive walk on it then fails, with "unable to iterate thru platform
  version dir".
- **A service directory without markers is an error.** If a service's data
  directory exists but contains no `.log` marker, its resolution fails with
  "unable to find current log directory", and `getServiceLogs` stops there.
  Only a *missing* service directory is the benign empty result.
- **Two host messages are the same.** In the host resolver, failing to
  enumerate the plugin directory and failing to enumerate the winning log
  directory give the same message: "unable to iterate thru plugin writable
  dir".
- **Enumeration failures append nothing.** The model's filesystem does not
  change during the call. So the winning directory, already enumerated in
  full by a walk that did not fail, always lists without error
  (`LogAccessUtil.HostFailureAppendsNothing`). The listing-failure branch is
  still modelled, with what was appended before the failure staying appended.
- **Extensions follow the boost filesystem v3 rule.** The extension runs from
  the last `.` to the end of the name, with none for `.` and `..`. So a file
  named `.log` has extension `.log`. The comparison is case-sensitive: `a.LOG`
  is not listed (`LogDir.ListingIsCaseSensitive`).

## Model

| member | source | states |
|---|---|---|
| FileTree.LastDot | src/logaccess_util.cpp:232 | the index found holds a dot |
| FileTree.LastDotIsLast | src/logaccess_util.cpp:232 | no dot follows the one found, and when none is found the name has no dot |
| FileTree.Extension | src/logaccess_util.cpp:232 | the extension is empty, or it starts with a dot and ends the name |
| FileTree.ExtensionShape | src/logaccess_util.cpp:232 | the extension contains no dot after its first character; every name with a dot (other than `.` and `..`) has a non-empty extension |
| FileTree.LogExtensionIsSuffix | src/logaccess_util.cpp:232 | a name has extension `.log` exactly when it ends in `.log`, compared case-sensitively |
| FileTree.Lookup | src/logaccess_util.cpp:147-148 | following no names gives the starting node; otherwise the node found is named after the last component |
| FileTree.ListingOf | src/logaccess_util.cpp:161 | defines one pass of the one-level directory iterator (also line 230): the directory's path, its immediate entries in enumeration order, and whether enumerating it fails |
| FileTree.WalkEntries | src/logaccess_util.cpp:177-178 | a recursive iteration that did not fail enumerated its starting directory without error |
| FileTree.WalkListingsComplete | src/logaccess_util.cpp:176-218 | in a walk that did not fail, every listing that produced a visit enumerated without error |
| FileTree.WalkVisitsEveryEntry | src/logaccess_util.cpp:178 | a walk that did not fail visits every immediate entry of the walked directory, with that directory as its parent |
| FileTree.Walk | src/logaccess_util.cpp:177-178 | defines the recursive iteration of one version directory: the pre-order walk of a directory, or, started on a file, an immediate failure with nothing visited |
| FileTree.WalkStaysBelow | src/logaccess_util.cpp:177-178 | every listing a walk visits lies at or below the walked directory, whether or not the walk fails |
| FileTree.WalkIncludesSubwalk | src/logaccess_util.cpp:177-178 | in a walk that did not fail, each subdirectory's own walk did not fail, and all its visits are visits of the whole walk |
| FileTree.WalkVisitsEveryDescendant | src/logaccess_util.cpp:177-178 | a walk that did not fail visits every entry at any depth below the walked directory, with the listing it belongs to |
| FileTree.WalkVisitsGrandchildren | src/logaccess_util.cpp:177-179 | in particular the entries two levels down, where a host's `<version>/<install-id>/BrowserPlusCore.log` sits, are visited |
| Versions.Accepts | src/logaccess_util.cpp:163 | defines the version-directory filters: the host resolvers take any name that parses as a version (line 163); the service resolvers take only names whose major number is set and minor and micro absent (line 292) |
| Markers.WinnerIsLastFresh | src/logaccess_util.cpp:174-186 | the last marker written after time 0, in traversal order, decides the directory, whatever comes after it |
| Markers.WinnerIsFirstBlind | src/logaccess_util.cpp:187-195 | with no marker written after time 0, the first marker with an unreadable time decides the directory |
| Markers.WinnerNone | src/logaccess_util.cpp:172-195 | with no marker written after time 0 and none unreadable, no directory is chosen |
| Markers.WinnerWasSeen | src/logaccess_util.cpp:184-185 | a chosen directory is the parent of some marker that was seen |
| Markers.NewestNeedNotWin | src/logaccess_util.cpp:181-185 | a newer core log found first loses to an older one found later |
| Markers.IsMarker | src/logaccess_util.cpp:179-197 | defines the three marker tests: filename exactly `BrowserPlusCore.log` (line 179, and src/la_util.cpp:205), filename exactly `BrowserPlus.config` (line 197), or extension `.log` in the service resolvers (line 307, and src/la_util.cpp:331) |
| Markers.Step | src/logaccess_util.cpp:179-214 | defines the scan's step on one visited entry: a marker under the rule goes through `Adopt` with its timestamp, any other entry leaves the choice as it is |
| Markers.Adopt | src/logaccess_util.cpp:179-195 | one marker either leaves the choice as it is or makes its own directory the choice, and a choice once made is never undone |
| Markers.Winner | src/logaccess_util.cpp:172-213 | defines the scan's choice: starting from no choice, `Adopt` applied to each marker of the rule, in traversal order |
| LogDir.RootMessage | src/logaccess_util.cpp:117-139 | every platform-root failure has a non-empty message |
| LogDir.CandidatesExactly | src/logaccess_util.cpp:158-166 | the version candidates are exactly the immediate entries whose names the rule accepts, each at its own path |
| LogDir.Candidates | src/logaccess_util.cpp:158-166 | there are never more version candidates than entries; defines them as the accepted entries in enumeration order |
| LogDir.MajorOnlyNarrowsCandidates | src/logaccess_util.cpp:289-295 | the service resolvers' version directories are exactly the host resolvers' ones (line 163) with a major-only version, in the same order |
| LogDir.CollectVersionDirs | src/logaccess_util.cpp:158-169 | the loop appends, in order, exactly the accepted entries; the result is a failure exactly when the enumeration fails |
| LogDir.FailurePersists | src/logaccess_util.cpp:216-218 | once a version directory's walk fails, later version directories change nothing |
| LogDir.AllVisitsComplete | src/logaccess_util.cpp:175-219 | when no walk failed, every directory that produced a visit enumerated without error |
| LogDir.AllVisits | src/logaccess_util.cpp:175-219 | defines the visits of all walks in order, up to and including the first walk that fails |
| LogDir.AllVisitsBelowCandidates | src/logaccess_util.cpp:175-178 | every visit lies at or below one of the version directories walked |
| LogDir.ChosenLiesBelowCandidate | src/logaccess_util.cpp:179-213 | the directory a marker rule chooses lies at or below one of the version directories |
| LogDir.ChosenIsComplete | src/logaccess_util.cpp:226-239 | a directory chosen from walks that did not fail lists without error |
| LogDir.Consider | src/logaccess_util.cpp:179-195 | called with the bound at its initial 0, looking at one marker: a time after 0 makes its directory the choice, and an unreadable time does so only when nothing is chosen yet; the dead `curWrite = lastWrite` store is kept |
| LogDir.ScanWalk | src/logaccess_util.cpp:177-213 | one recursive walk extends the marker rule's choice over the visits seen so far to the choice over those visits followed by the walk's |
| LogDir.ScanOne | src/logaccess_util.cpp:299-329 | the nested scan fails exactly when some walk fails; otherwise it returns the marker rule's choice over all visits in order |
| LogDir.LogFilesExactly | src/logaccess_util.cpp:228-236 | a path is listed exactly when it names a regular entry of the directory whose extension is `.log` |
| LogDir.LogFilesInDir | src/logaccess_util.cpp:230-233 | listing is not recursive: every listed path lies directly in the directory, and there are at most as many paths as entries |
| LogDir.IsLogFile | src/logaccess_util.cpp:231-232 | defines the listing filter: a regular file whose extension is `.log` |
| LogDir.LogFiles | src/logaccess_util.cpp:228-236 | defines the listing's output: the paths of the regular `.log` entries, in enumeration order |
| LogDir.ListLogFiles | src/logaccess_util.cpp:226-239 | the output is the input list followed by the directory's `.log` files in enumeration order; it fails exactly when the enumeration fails |
| LogDir.OnlyLowerCaseLogIsListed | src/logaccess_util.cpp:232 | a regular file `a.log` is a log file; `a.LOG` and `a.txt` are not |
| LogDir.ListingIsCaseSensitive | src/logaccess_util.cpp:232 | of `a.log`, `a.LOG` and `a.txt`, only `a.log` is listed |
| LogAccessUtil.Chosen | src/logaccess_util.cpp:220-222 | the core log's directory is used when there is one; otherwise the config file's |
| LogAccessUtil.HostLogs | src/logaccess_util.cpp:100-242 | defines the host resolution: each failure with its message, in the source's order, or success with the chosen directory's `.log` files |
| LogAccessUtil.ServiceLogs | src/logaccess_util.cpp:244-349 | defines the service resolution: each failure with its message, success with nothing when the service has no data directory, or success with the chosen directory's `.log` files |
| LogAccessUtil.ScanWalkWithBackup | src/logaccess_util.cpp:177-213 | one recursive walk extends both choices, core log and config file, to the visits of that walk |
| LogAccessUtil.ScanWithBackup | src/logaccess_util.cpp:170-219 | one walk keeps two independent choices, core log and config file, under the same rule; it fails exactly when some walk fails |
| LogAccessUtil.GetLogfilePaths | src/logaccess_util.cpp:100-242 | the error and the appended paths are those of the host resolution specification; existing paths are kept in front |
| LogAccessUtil.GetServiceLogfilePaths | src/logaccess_util.cpp:244-349 | the error and the appended paths are those of the service resolution specification; existing paths are kept in front |
| LogAccessUtil.HostFailureAppendsNothing | src/logaccess_util.cpp:226-239 | a failing host resolution appends nothing |
| LogAccessUtil.ServiceFailureAppendsNothing | src/logaccess_util.cpp:333-346 | a failing service resolution appends nothing |
| LogAccessUtil.MissingServiceDirIsEmpty | src/logaccess_util.cpp:277-281 | a service data directory that is missing, or is not a directory, gives success with nothing appended |
| LogAccessUtil.HostSuccessListsChosenDir | src/logaccess_util.cpp:220-241 | on success, the chosen directory enumerates without error, and the listed paths are exactly its regular `.log` files |
| LogAccessUtil.HostLogDirBelowVersionDir | src/logaccess_util.cpp:158-222 | on success the host's log directory lies at or below a version directory of the host data directory |
| LogAccessUtil.ServiceLogDirBelowVersionDir | src/logaccess_util.cpp:287-329 | when the service's data directory exists and resolution succeeds, the log directory lies at or below one of its major-only version directories |
| LaUtil.GetLogfilePaths | src/la_util.cpp:116-253 | the older copy's error and appended paths are those of its host resolution specification, which uses core logs only |
| LaUtil.GetServiceLogfilePaths | src/la_util.cpp:256-379 | the older service resolver gives exactly what the current one gives |
| LaUtil.CopiesAgreeUnlessNoCoreLog | src/la_util.cpp:195-232 | the two host resolvers agree unless the older copy finds no core log; the current copy then fails the same way or succeeds |
| LaUtil.FallbackIsMorePermissive | src/logaccess_util.cpp:220-222 | whenever the older host resolver succeeds, the current one gives the same result |
| LaUtil.HostLogs | src/la_util.cpp:116-253 | defines the older host resolution: as the current one, but choosing by core logs only, with no config-file fallback |
| LogAccess.EntryMatchesIsAdmits | src/service.cpp:64-79 | the length, separator and suffix tests for one entry hold exactly when the host equals the entry or ends with a dot followed by the entry |
| LogAccess.EntryMatches | src/service.cpp:65-78 | defines the source's per-entry test: entry no longer than the host, a dot before the suffix when shorter, and the host ending with the entry |
| LogAccess.MatchFrom | src/service.cpp:64-80 | the search from entry `i` on succeeds exactly when some later entry admits the host |
| LogAccess.CheckWhitelist | src/service.cpp:50-81 | accepted exactly when the URI parses, its scheme is `http` or `https`, and its host equals a whitelist entry or ends with a dot followed by one |
| LogAccess.LongerEntryNeverMatches | src/service.cpp:65-67 | an entry longer than the host never admits it |
| LogAccess.UndottedSuffixRejected | src/service.cpp:68-74 | `suckbrowserplus.org` is rejected |
| LogAccess.DottedSubdomainAccepted | src/service.cpp:68-78 | `sub.browserplus.org` is accepted |
| LogAccess.Get | src/service.cpp:83-96 | a failed whitelist check gives `bp.permissionDenied` with no detail; a resolver error gives `bp.couldntGetLogs` with its message; otherwise the reply completes with the resolved paths |
| LogAccess.GatherSucceeds | src/service.cpp:109-120 | when no named service fails, the accumulation succeeds with every string service's paths, concatenated in list order |
| LogAccess.GatherStopsAtFirstError | src/service.cpp:113-117 | the first failing string service decides the error, whatever follows it |
| LogAccess.Gather | src/service.cpp:109-120 | defines the accumulation over the services list: non-strings skipped, each string's paths appended in order, stopping at the first error |
| LogAccess.FailureIsFinal | src/service.cpp:114-117 | once the accumulation has an error, the rest of the list changes nothing |
| LogAccess.TwoServicesExample | src/service.cpp:109-120 | with the real service resolver, a service resolving to two paths followed by one with no data directory gives exactly the two paths |
| LogAccess.GetServiceLogs | src/service.cpp:98-121 | checks the whitelist, then that a services list is present ("required services parameter missing"), then ends with the accumulation's first error or completes with its paths |

## Left out

- Platform root discovery is not modelled: `PlatformVersion`, `getCSIDL`, `stringRefToUTF8`, `FSFindFolder` and the `LocalLow` adjustment are Win32 and CoreFoundation calls. Their result is an input, `LogDir.PlatformRoot`: either one of the three failures, with the source's messages, or a path (possibly empty) and the node found there. The host and service resolvers take their roots separately, since on Windows Vista and later they differ.
- `bplus::service::Version::parse` is not part of this model; its source is not available. It is the parameter `parse`.
- `bplus::url::Url::parse` and `clientUri()` are not part of this model. Their outcome is the input `LogAccess.Url`.
- The plugin host ABI is not modelled: the service description macros, `Transaction`, `bplus::Map`, `bplus::List` and `bplus::Path`. `args.getList` becomes an optional list of `Arg`s; a `services` value that is not a list is also "missing". The transaction's end is the `Reply` datatype.
- The filesystem is a snapshot tree. Symlinks, changes during the call, case-insensitive file systems and native path encoding (`nativeUtf8String`) are not modelled. Paths are sequences of components.
- A service name is taken as a single path component. A name containing a separator, the empty name, `.` or `..` would address another directory on a real filesystem (`..` climbs to the parent); the model looks up a child with exactly that name.
- Timestamps are unbounded integers, not `time_t`.
- `unittest/unittest.rb` is an integration test against a live install, and `external/build.rb` is a build recipe. Neither is modelled.
