# URL dispatcher: a verified model

The URL dispatcher opens applications for URLs. It keeps an index of `.url-dispatcher` files in two SQLite
tables, brings the index in line with directories, reads URLs with four regular expressions, looks up the file
with the longest matching suffix, and tracks overlay sessions on a thread of their own. This project models those
three parts and proves what they promise.

**The index and its updater.** `UrlTables` gives the two tables with SQLite's rowid rule and the meaning of each SQL
statement, `UrlDb` the connection whose methods execute them with every call allowed to fail, and
`UpdateDirectory` the updater. What a reader sees through the join is `Seen(t, name)`: nothing for an unknown
file, else its time and URLs. Re-indexing never deletes a file's old URL rows; it gives the file a new rowid and
leaves the rows as orphans. `IndexRuns` proves when that is safe: over a whole run the tables stand for
the simple index exactly as long as no set-time meets an orphan at the rowid it hands out, and it proves a run in which
one does, so that a new file shows a removed file's URL. The updater removes last and is therefore safe from every
state in which no URL row lies at or above the next rowid; `UpdateScripts` proves this of every run and says exactly
when a run keeps that invariant. `UpdateHistory` follows the index through any number of runs over a directory that
changes between them, from any tables. `RacingUpdaters` interleaves any number of updaters statement by statement, with
any of the statements failing, and `RacingRemovals` lets them remove files as well.

**Resolving a URL.** `Regex` is a backtracking engine with the newlines GRegex knows by default (LF, VT, FF, CR, CR LF,
NEL, LS and PS); `UrlPatterns`, `GenericUrl` and `SpecialUrls` hold the four patterns, each proved equal to a direct
reading of the URL, for every URL, and `UrlHost` says when the domain read is the host. `SqlLike` is LIKE,
`Resolution` the longest-suffix lookup, `Dispatcher` the cascade and the two bus calls, `EndToEnd` joins it all.
`limit 1` leaves the choice among equally long suffixes to SQLite; it appears as a `Planner`, any function of the tables and the query that picks one of them.

**Overlay sessions.** `OverlayTracker` is the set of live overlays with the class that changes it, `ContextThread` the
thread's start and quit, and `OverlaySystem` the interleaving of the owner, the context thread with its queue, Mir's
thread and the helper observer. `OverlaySafety` proves what holds in every reachable state, `OverlayShutdown` that the
owner never blocks forever under weak fairness.

Assumptions: Mir never hands out a session twice and no two helper instances have one name (`OverlaySystem` numbers both);
GLib dispatches idle sources of one priority in the order they were attached; a database name, protocol or suffix
holds no NUL; URLs are valid UTF-8, as the bus guarantees.

Where code and documentation disagree, the model follows the code:

- The comment at `service/update-directory.c:204-205` speaks of the files in the directory; the query takes every
  name that starts with something LIKE the directory's name, up to ASCII case and with `_` and `%` as wildcards. A run
  over `a/urls` also removes the files of `a/urls-extra`, one over `a_b/urls` those of `axb/urls`
  (`SyncFrame.SiblingDirectoryIsSwept`, `SyncFrame.UnderscoreSweepsOthers`).
- The class comment at `service/url-db.c:291-292` promises that removal takes away all URLs built for the file; rows of
  earlier versions stay behind as orphans, and a later file can show them, after another run
  (`IndexRuns.ReusedRowidAdoptsUrls`, `UpdateHistory.StaleHistory`) or in a race (`RacingRemovals.RemovalInARace`).
- The generic pattern takes the host after the last `@` of the whole URL, also one in the path, and cuts it at a
  character such as `_` (`UrlHost.PathAtSignMisleads`, `UrlHost.UnderscoreCutsHost`; `UrlHost.DomainIsHost` says exactly when
  domain and host agree).
- A run for a directory named with two slashes at its end never removes the directory's deleted files: their joined
  names have one slash there (`UpdateHistory.QueryFindsDirectory`).

## Model

| member | source | states |
|---|---|---|
| `UrlTables.StatementRefines` | service/url-db.c:127-196 | one statement changes what readers see of every file exactly as the simple index does, if and only if it is not a set-time meeting an orphan row at the next rowid |
| `UrlTables.SetTimeSeen` | service/url-db.c:136 | a set-time shows the wrapped time and exactly the rows waiting at the fresh rowid |
| `UrlTables.StatementKeepsInv` | service/url-db.c:136-173 | every statement but a file deletion keeps all URL rows below the next rowid |
| `UrlTables.RemoveRefines` | service/url-db.c:291-360 | a removal takes one file away and leaves every other file as it was, whatever orphans exist |
| `UrlTables.RemoveKeepsInv` | service/url-db.c:309-334 | a removal keeps the rowid invariant if and only if no surviving row lies above every file left |
| `IndexRuns.RunRefines` | service/url-db.c:127-360 | over a whole run, from any valid tables, readers see the simple index at every point if and only if no set-time adopts |
| `IndexRuns.DeletingLastIsSafe` | service/update-directory.c:222-239 | a run that sets no time after its first file deletion is safe from every state with the invariant |
| `IndexRuns.ReusedRowidAdoptsUrls` | service/url-db.c:136-334 | the concrete run in which a new file shows a removed file's URL |
| `UrlDb.Connection.GetFileModificationTime` | service/url-db.c:84-125 | found exactly for a known file whose query works, with the 32-bit time |
| `UrlDb.Connection.SetFileModificationTime` | service/url-db.c:127-158 | the statement's effect or none |
| `UrlDb.Connection.InsertUrl` | service/url-db.c:160-196 | the statement's effect or none, a missing suffix counting as empty |
| `UrlDb.Connection.FindUrl` | service/url-db.c:198-248 | the basename, cut at its last `.url-dispatcher`, of a longest match; nothing if the query fails |
| `UrlDb.Connection.FilesForDir` | service/url-db.c:250-289 | each known name LIKE `dir%` exactly once; an empty list if the query fails |
| `UrlDb.Connection.RemoveFile` | service/url-db.c:291-368 | for every pattern of failures: TRUE exactly when none failed and both deletions are committed, FALSE with the committed state unchanged, and no transaction left open if rollback works |
| `SqlLike.LikeIsSplitting` | service/url-db.c:210-261 | the matcher that backtracks on `%` accepts exactly the texts that can be cut into fitting pieces |
| `SqlLike.LikePercentPrefix` | service/url-db.c:210 | for a suffix without wildcards, matching is ends-with up to ASCII case |
| `SqlLike.LikePercentSuffix` | service/url-db.c:261-269 | for a directory without wildcards, matching is starts-with up to ASCII case |
| `SqlLike.MatchingSuffixesChain` | service/url-db.c:210 | suffixes matching one domain form a chain; of equal length they agree up to case |
| `Text.FoldsAsciiCase` | service/url-db.c:210-269 | the folding of LIKE identifies a character with itself and the two cases of an ASCII letter, nothing else |
| `Resolution.NothingFoundIffNothingMatches` | service/url-db.c:198-248 | the lookup fails if and only if no file shows a matching URL |
| `Resolution.LongestIsShown` | service/url-db.c:210 | the candidate files are exactly those showing a matching suffix that no shown one exceeds, so orphans never count |
| `Resolution.FoundIsLongest` | service/url-db.c:210-240 | what is found is the file of a longest match, and for suffixes without wildcards that suffix is unique up to case |
| `Resolution.ShorterRowChangesNothing` | service/url-db.c:173-210 | inserting a row that does not match, or is shorter than a match, leaves the candidates alone |
| `Resolution.LongerRowWins` | service/url-db.c:173-210 | inserting a longer matching row for a known file makes that file the answer |
| `Resolution.AppIdRoundTrip` | service/url-db.c:230-234 | cutting at the last `.url-dispatcher` gives A back for every `A.url-dispatcher` in every directory |
| `Resolution.AppIdIsCut` | service/url-db.c:229-234 | for any file name the answer is the basename up to its last `.url-dispatcher`, or all of it |
| `Text.BasenameOfBuildFilename` | service/update-directory.c:224 | the basename of a joined path is the directory entry, whatever slashes the directory ends in |
| `Text.PrefixAndSuffix` | service/update-directory.c:223 | a name has a prefix or a suffix if and only if it is that and some other text put together |
| `Text.JoinedByOneSlash` | service/update-directory.c:224 | directory and name are joined by exactly one slash, however many the directory ends in |
| `Text.BasenameIsLastComponent` | service/url-db.c:229 | the basename is the last component, slashes at the end not counted |
| `UpdateDirectory.AcceptedAsks` | service/update-directory.c:33-68 | the URL an element yields, by its members: the protocol, and the suffix or, but for intents, the empty text |
| `UpdateDirectory.EachUrl` | service/update-directory.c:30-84 | a known file gains exactly the URL of the element's protocol and suffix; an element that is no object, has no protocol, or is an intent without a suffix changes nothing, nor does a failing insert |
| `UpdateDirectory.InsertUrlsFromFile` | service/update-directory.c:86-117 | a known file gains exactly the URLs that elements of the array ask for by their members and whose inserts work; other content changes nothing |
| `UpdateDirectory.CheckFileOutOfDate` | service/update-directory.c:119-156 | true exactly for a file unknown, unreadable or older in the index, whose time was then set |
| `UpdateDirectory.Update` | service/update-directory.c:177-240 | whatever fails, every `.url-dispatcher` file the directory lists keeps its entry if that is at least as new, else gets its time and the URLs its content asks for; when nothing fails, exactly the known names LIKE `dir%` that no listed file has are removed; nothing changes if the directory cannot be opened |
| `UpdateDirectory.RemoveFiles` | service/update-directory.c:158-175 | the removals that work are exactly those whose own calls work, if rollback does |
| `UpdateDirectory.NoMixedVersions` | service/update-directory.c:143 | after the set-time and k elements, readers see exactly the accepted URLs of those k, and no other file has moved |
| `UpdateDirectory.UpdateSeen` | service/update-directory.c:204-240 | file by file, what a run with any failures leaves, from any tables: a re-indexed file shows its accepted entries and the orphans at the rowid it is handed |
| `UpdateDirectory.SyncFromAnyTables` | service/update-directory.c:204-240 | a successful run from any tables: the names then known, and the time and URLs of each |
| `UpdateDirectory.DirectorySync` | service/update-directory.c:204-240 | from tables with the rowid invariant a successful run leaves exactly the names not LIKE `dir%` and the dispatcher files on disk, out-of-date ones with exactly their accepted entries, all else unchanged |
| `UpdateDirectory.UpdateByContent` | service/update-directory.c:204-240 | the same of the run as a function of the tables, file by file and member by member |
| `SyncFrame.SurvivesIffNotUnderPattern` | service/url-db.c:261-276 | for every directory name, a file that is not on disk survives if and only if no beginning of its name is LIKE the directory's |
| `SyncFrame.SurvivesIffNotUnderPrefix` | service/url-db.c:261-276 | for a directory name without `_` and `%`, that is if and only if its name does not start, up to case, with the directory's |
| `SyncFrame.UnderscoreSweepsOthers` | service/url-db.c:261-276 | a run over a directory with `_` in its name removes the files of a directory with another character there |
| `SyncFrame.SiblingDirectoryIsSwept` | service/update-directory.c:204-239 | files of a sibling directory whose name continues this one's are removed |
| `UpdateScripts.UpdateIsSafeScript` | service/update-directory.c:204-240 | every run, whatever fails, is a sequence of statements that sets no time after its first deletion, so from any state with the invariant readers see the simple index after each of them |
| `UpdateScripts.UpdateKeepsInv` | service/update-directory.c:204-240 | a run keeps the rowid invariant if and only if it re-indexes some file or no surviving URL row lies above every surviving file |
| `UpdateHistory.QueryFindsDirectory` | service/update-directory.c:204-224 | the query for a directory's files finds its names if and only if it is not named with two slashes at its end |
| `UpdateHistory.RunBringsInStep` | service/update-directory.c:204-240 | from any tables a successful run makes the index agree with the directory if and only if its check notices every difference, no deletion is hidden by two slashes at the directory's end, and no re-indexed file is handed a rowid where orphans with other URLs wait |
| `UpdateHistory.HistoryStaysInStep` | service/update-directory.c:119-240 | over any number of successful runs, from any tables, the index agrees with the changing directory after each if and only if it did at first, every changed file got a newer time, no file went away from a directory named with two slashes at its end, and no run handed a file a rowid where orphans with other URLs wait |
| `UpdateHistory.SafeHistoryStaysInStep` | service/update-directory.c:119-240 | as long as every run keeps the rowid invariant, by the condition of `UpdateKeepsInv`, the changes of the directory alone decide |
| `UpdateHistory.StaleHistory` | service/update-directory.c:204-240 | a history of two runs whose changes follow on and whose first run leaves the index in step, after which a new file without URLs shows one of a removed file |
| `SecondRun.CheckAfterSet` | service/update-directory.c:136-155 | a check after a successful set says out of date if and only if the time is at least 2^31 |
| `SecondRun.SecondRunChangesNothing` | service/update-directory.c:119-240 | from any tables, a second successful run leaves both tables identical if and only if every file on disk is dated before 2^31 |
| `RacingUpdaters.ReadersNeverSeeMixedVersions` | service/update-directory.c:114-143 | at every point of every race, whatever fails, a file shows what it showed at first, or exactly the accepted URLs of the elements inserted since it was set last |
| `RacingUpdaters.LastSetterDecides` | service/update-directory.c:30-156 | when all have finished, a file somebody set lacks at most the elements its last setter failed to insert |
| `RacingUpdaters.RacingUpdatersConverge` | service/update-directory.c:30-156 | when all have finished, every file untroubled by failures shows what one visit would have left |
| `RacingUpdaters.UndisturbedFilesConverge` | service/update-directory.c:30-156 | every file at which no call fails converges, whatever fails at others: to its accepted URLs if it was unknown or older in the index, else to its old entry |
| `RacingUpdaters.FaithfulSetterDecides` | service/update-directory.c:30-156 | if the process that set a file last never fails, the file shows all its accepted URLs, however often others fail |
| `RacingUpdaters.RacesEnd` | service/update-directory.c:222-232 | a race has finished as soon as every process has had a bounded number of moves |
| `RacingUpdaters.LoneVisit` | service/update-directory.c:30-156 | undisturbed by others, the moves of one visit, with any failures, do to the tables what the updater's turn does |
| `RacingUpdaters.FaultlessRacesConverge` | service/update-directory.c:30-156 | when nothing fails, that is every file |
| `RacingRemovals.RaceShowsIndex` | service/update-directory.c:119-240 | in every race with removals, whatever fails, readers see the simple index after every write if and only if no set-time of the race met an orphan at the rowid it took |
| `RacingRemovals.LoneUpdaterIsSafe` | service/update-directory.c:204-240 | a lone updater is safe at every point of its run, from tables with the rowid invariant |
| `RacingRemovals.RemovalInARace` | service/update-directory.c:136-239 | two updaters over different directories, a removal between the other's check and set-time, and the new file shows the removed one's URL |
| `RacingRemovals.RemovalAfterTheSet` | service/update-directory.c:136-239 | with the set-time first, the same two updaters leave the new file without it |
| `Regex.StarTakes` | service/dispatcher.c:558-561 | a greedy star commits to the last end from which the rest matches |
| `Regex.MatchOnAnyText` | service/dispatcher.c:558-561 | a pattern closing with `$` ignores one final newline of any kind, CR LF counting as one, and matches nothing across another |
| `Regex.NewlinesAre` | service/dispatcher.c:558-561 | the newlines known by default are LF, VT, FF, CR, NEL, LS, PS and CR LF |
| `UrlPatterns.ClassesAre` | service/dispatcher.c:558-561 | the character classes of the patterns, range by range |
| `GenericUrl.GenericIsSplit` | service/dispatcher.c:560 | ordered backtracking reads protocol and domain exactly as the direct splitter, for a URL without newlines |
| `GenericUrl.GenericOnAnyUrl` | service/dispatcher.c:463-474 | the same for every URL, with or without newlines |
| `UrlHost.DomainIsHost` | service/dispatcher.c:463-474 | for every URL the pattern matches, the domain is the host of sections 3.2 to 3.2.3 of RFC 3986 if and only if the host stays within the class and, when an `@` follows the authority, stands behind the last `@` once more; without an authority it is empty |
| `UrlHost.HostOfParts` | service/dispatcher.c:560 | the host that the comparison speaks of is the host of any URL composed by sections 3.2 to 3.2.3 of RFC 3986, with or without userinfo and port, bracketed addresses included |
| `UrlHost.PathAtSignMisleads` | service/dispatcher.c:560 | a URL whose path has an `@`: the host is `a`, the domain read `b` |
| `UrlHost.UnderscoreCutsHost` | service/dispatcher.c:560 | a URL whose host has a character outside the class: the host is `a_b`, the domain read `a` |
| `SpecialUrls.ApplicationOnAnyUrl` | service/dispatcher.c:453-458 | the application pattern is exactly stripping the prefix and the final `.desktop` |
| `SpecialUrls.AppIdOnAnyUrl` | service/dispatcher.c:432-435 | the appid pattern is exactly three class runs separated by slashes |
| `SpecialUrls.PrintThenParse` | service/dispatcher.c:432-438 | every triplet is read back from its URL, also with a newline of any kind at the end |
| `SpecialUrls.ParseThenPrint` | service/dispatcher.c:432-438 | a parsed triplet is well formed and prints to the URL without its final newline |
| `SpecialUrls.IntentOnAnyUrl` | service/dispatcher.c:408-421 | the intent pattern yields the run at the last position where `package=`, the run and `;` fit, else nothing |
| `SpecialUrls.IntentPackageOf` | service/dispatcher.c:561 | that is the text between the last `package=` and the next `;`, if it stays within the class |
| `Dispatcher.OneRoute` | service/dispatcher.c:424-496 | every URL has exactly one direct route |
| `Dispatcher.CascadeFollowsRoute` | service/dispatcher.c:424-496 | the cascade of patterns takes that route for every URL |
| `Dispatcher.AppIdUrlOpens` | service/dispatcher.c:430-450 | an appid URL opens the app of its triplet, or nothing, and hands no URL over |
| `Dispatcher.ApplicationUrlOpens` | service/dispatcher.c:452-460 | an application URL opens the app it names and hands no URL over |
| `Dispatcher.IntentUrlOpens` | service/dispatcher.c:462-492 | an intent is looked up by its package, or by nothing, and handed over |
| `Dispatcher.GenericUrlOpens` | service/dispatcher.c:462-492 | any other URL with a protocol is looked up by protocol and domain, and handed over |
| `Dispatcher.TestUrls` | service/dispatcher.c:366-405 | one app id per URL in order if and only if all URLs are non-empty and resolve, else one error for the first that does not |
| `Dispatcher.DispatchUrl` | service/dispatcher.c:305-363 | in one state a dispatch reaches the tested app unless it is unconfined or outside the package, as an overlay exactly if it is one, with the app id and URL of the direct route, and answers accordingly |
| `EndToEnd.SyncThenFind` | service/url-db.c:198-248 | after syncing a directory into an empty database a lookup fails if and only if no file offers a match, and its possible answers are exactly the apps with a match of maximal length |
| `EndToEnd.SyncThenResolve` | service/dispatcher.c:462-492 | the same for every URL on the generic route, intents included: it opens an app if and only if some file offers a match, then one of maximal length, and all such are possible |
| `Resolution.UnrelatedKeepsLongest` | service/url-db.c:127-360 | a statement that brings no new longest match and is not of a file that shows one leaves the longest matches alone |
| `EndToEnd.UnrelatedStatementsKeepAnswers` | service/url-db.c:127-360 | any number of such statements of any kind between a test and a dispatch leaves the possible answers as they were |
| `EndToEnd.UnrelatedUpdateKeepsAnswers` | service/update-directory.c:204-240 | a whole run of the updater keeps the answers if, by the tables before it, its inserts fall short of the longest match and it re-indexes and removes no file that shows one |
| `ContextThread.QuitIsLostWhileEntering` | service/glib-thread.cpp:64-110 | whatever the thread does between the two calls of `quit`, it ends if and only if it does not stay between its cancel check and its loop |
| `ContextThread.LostQuitIsReachable` | service/glib-thread.cpp:58-98 | an owner that quits right after construction can hang |
| `OverlayTracker.Tracker.RemoveSession` | service/overlay-tracker-mir.cpp:101-111 | one entry of the session is stopped and released, or nothing happens |
| `OverlayTracker.Tracker.UntrustedHelperStopped` | service/overlay-tracker-mir.cpp:134-153 | one entry of the helper is erased without a stop call, or nothing happens |
| `OverlayTracker.Tracker.AddOverlay` | service/overlay-tracker-mir.cpp:65-93 | an add tracks the overlay, or releases the session when the helper does not start |
| `OverlayTracker.Tracker.Clear` | service/overlay-tracker-mir.cpp:54-60 | the clear loop ends with every entry stopped exactly once, also when entries share a session |
| `OverlayTracker.StopAllLogs` | service/overlay-tracker-mir.cpp:54-111 | stopping a list of entries leaves one release and one stop call each, in order |
| `OverlaySafety.OverlaysAreConserved` | service/overlay-tracker-mir.cpp:65-153 | in every reachable state each session and each helper is in exactly one place, once |
| `OverlaySafety.NoStopIsLost` | service/overlay-tracker-mir.cpp:113-126 | after a stop event raised at any moment of any run, once no removal of its session waits in the queue, no overlay tracked or under construction has the session, and it has been released once |
| `OverlaySafety.StopIsQueued` | service/overlay-tracker-mir.cpp:113-126 | while the connection is open a stop of any session made can be raised, and queues its removal |
| `OverlaySafety.RemovalIsServed` | service/overlay-tracker-mir.cpp:101-111 | in every reachable state a queued removal ends the overlay of its session with one stop call and one release, and a late or duplicate one changes nothing |
| `OverlaySafety.ReportIsServed` | service/overlay-tracker-mir.cpp:134-153 | in every reachable state a helper that reports its end is no longer tracked, its session is released and it gets no stop call; other reports change nothing |
| `OverlaySafety.AddIsServed` | service/overlay-tracker-mir.cpp:65-93 | in every reachable state an add whose turn has come tracks its overlay, or releases the session again, or does nothing, and the owner is answered |
| `OverlaySafety.FreeOwnerMayCall` | service/glib-thread.h:43-62 | a free owner may add or delete, and its task waits behind what is queued |
| `OverlaySafety.SessionsGoBeforeConnection` | service/overlay-tracker-mir.cpp:51-63 | when the connection goes, every session has been released once and every helper ended once |
| `OverlayShutdown.StepRanks` | service/glib-thread.h:43-62 | every step lowers a measure or keeps it with the awaited party, whose own steps lower it |
| `OverlayShutdown.OwnerNeverHangs` | service/glib-thread.h:43-62 | in every fair endless run a blocked owner becomes free or is done: adds return and the destructor ends |
| `OverlayShutdown.ShutdownTerminates` | service/overlay-tracker-mir.cpp:52-63 | in every fair endless run a destructor that has begun ends, with the thread joined and nothing tracked |
| `OverlayShutdown.AFairShutdown` | service/overlay-tracker-mir.cpp:52-63 | such runs exist: a fair endless one in which the destructor begins, and ends |
| `OverlayShutdown.QuitMeetsARunningLoop` | service/glib-thread.cpp:93-110 | in every interleaving the tracker's quit finds the thread inside its loop |

## Left out

- Opening the database, creating its tables, closing it, and the usage and path handling before the sync (`service/update-directory.c:181-202`): input and output only.
- SQLite's own concurrency control: every statement outside a removal is one atomic step; a removal is atomic as a whole, and lock errors are among the failures of its calls.
- Rowids beyond 64 bits and the database refusing them.
- A file that vanishes between the directory listing and the query of its time.
- Files that change on disk while updaters race over them.
- What is shown in the end of a race with removals: `RacingRemovals` says when readers see the simple index, `RacingUpdaters` what it shows when nobody removes.
- JSON syntax, and members that are not strings: a file is unparsable, not an array, or a sequence of optional records.
- Fetching the calling process for an overlay, sending to the dash, and error reports: `Launcher.sends` says whether a launch worked.
- `service/url-overlay.c`, `service/recoverable-problem.c`, `service/service.c`, the client library and the tools: plumbing around the parts above.
- The context thread as a class: it is a state machine over its steps, because its fields matter through their interleaving; timeouts and the promise objects are not part of this model.
- Removals still queued when the tracker's members go: the set of sessions is destroyed before the thread is told to quit, so they would work on a dead set; in the interleaving they run as steps that find nothing.
- Events that arrive after the destructor of the thread has begun, and a constructor that throws because Mir cannot be reached.
- Sessions shared by several overlays appear in `OverlayTracker.Tracker` only; the interleaving numbers sessions afresh.
