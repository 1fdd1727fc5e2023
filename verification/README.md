# Velocity core, modelled in Dafny

Velocity is a Windows tray utility that keeps WhatsApp Desktop
(`WhatsApp.Root.exe` and its WebView2 children) in check. This project models
its core and proves properties about it. The core has four parts:

- **Process tree resolution** (`ProcessTree`). A snapshot of the OS process
  table is a sequence of records plus how the enumeration ended. The core
  offers exact-name lookup, prefix lookup, and root-plus-descendants
  resolution.
  - The root is the last record whose name matches, ignoring case.
  - The pid table keeps the last record for each pid.
  - The breadth-first walk returns the root and then its descendants. Parents
    always come before their children, no pid appears twice, and the pids
    are the same whatever order the children are visited in.
- **Governor** (`Governor`), which switches a process between two modes:
  - Efficiency: execution-speed throttling on, IDLE priority.
  - Performance: throttling off, NORMAL priority.

  It also reads working-set sizes and sums them in a `uint64` that wraps.
- **Focus classifier and resource-mode state machine** (`Focus`, `Velocity`).
  Every QoS tick re-resolves the tree, publishes it to the watcher and
  classifies it as Focused or Background. A call to the governor happens only
  when that classification changes:
  - Entering Background throttles every pid.
  - Entering Focused restores Performance only while the total is below
    2048 MB.

  A failed resolution resets the mode to Unknown. The memory trim pass counts
  the successful per-pid trims.
- **Focus-steal bouncer** (`Bouncer`). A foreground change to a window of an
  untracked process makes that window the trusted one. A WhatsApp window is
  let through in three cases, checked in this order:
  1. its title mentions a call or a video;
  2. Alt is held;
  3. the cursor is inside the window.

  Otherwise focus returns to the trusted window and the stealing window is
  flashed.
- **Update check** (`Updater`). Versions are compared component by component
  as strings, so "1.0.10" is not newer than "1.0.9". The decision on the
  latest-release response also picks the first `Velocity_Setup*.exe` asset.

Every answer the OS, the network or the clock would give is an explicit
input:
- the process listing;
- the foreground window;
- working-set probes;
- per-pid trim outcomes;
- the key state, cursor and window rectangle;
- the HTTP response.

The loop's timers and the watcher's callbacks become a sequence of events
(`Velocity.Run`), and each event is handled atomically. The record of a run
keeps every governor call, every callback decision and every trim pass's
report, starting with the trim pass the loop runs before its first event
(`Velocity.Launch`).

Files: `base.dfy` (integer widths, `Option`, `Result`), `text.dfy` (the
`strings` functions used), `process.dfy`, `focus.dfy`, `governor.dfy`,
`bouncer.dfy`, `updater.dfy`, `velocity.dfy`.

## Model

| member | source | states |
|---|---|---|
| Text.Split | internal/updater/updater.go:100-101 | at least one piece, no piece contains the separator, and joining the pieces back gives the input |
| Text.SplitJoin | internal/updater/updater.go:100-101 | splitting a joined list returns the list when no piece contains the separator |
| Text.LessIrreflexive | internal/updater/updater.go:104-109 | Go string `<` never holds between a string and itself |
| Text.LessAsymmetric | internal/updater/updater.go:104-109 | Go string `<` never holds in both directions |
| Text.LessTotal | internal/updater/updater.go:104-109 | two different strings are ordered by `<` one way or the other |
| ProcessTree.FirstMatch | internal/utils/process.go:34-41 | the pid of the first record whose name matches ignoring case, or none exactly when no record matches |
| ProcessTree.FindPid | internal/utils/process.go:16-54 | first match wins even if enumeration later fails; NotFound exactly when the listing ended normally without a match; enumeration error when the first call failed or an error ended a listing without a match |
| ProcessTree.FindProcessesByPrefix | internal/utils/process.go:58-94 | exactly the pids whose lower-cased name starts with the lower-cased prefix, in enumeration order; an error after the first record keeps the pids already collected; nothing on a failed first call |
| ProcessTree.PrefixMatchesMembers | internal/utils/process.go:76-91 | a pid is collected iff some record with that pid has a matching name; at most one pid per record |
| ProcessTree.PrefixMatchesSnoc | internal/utils/process.go:80-82 | one more record appends its pid exactly when it matches, keeping enumeration order |
| ProcessTree.BuildTable | internal/utils/process.go:121-127 | every entry of the table was written from a record carrying its pid, with that record's parent and name |
| ProcessTree.BuildTableKeys | internal/utils/process.go:121-127 | the table has a key iff some record carries that pid |
| ProcessTree.BuildTableLastWins | internal/utils/process.go:123-126 | for a repeated pid the table holds the parent and name of its last record |
| ProcessTree.RootPid | internal/utils/process.go:114-130 | the root is the pid of the LAST record whose name matches ignoring case, and 0 when none matches |
| ProcessTree.KeyOrder | internal/utils/process.go:155 | the pids iterated over are exactly the table's keys, each once |
| ProcessTree.Children | internal/utils/process.go:155-159 | a pid is enqueued as a child iff its parent is the current pid and it is not the current pid itself |
| ProcessTree.WalkTree | internal/utils/process.go:145-160 | the walk terminates when the root is on no parent cycle; it lists the root first, every pid after one of its parents, every child of a listed pid, and no pid twice |
| ProcessTree.FindProcessTree | internal/utils/process.go:98-163 | enumeration errors give EnumerationFailed and never a partial tree; NotFound exactly when the listing ended normally without the root; a tree exactly when the listing ended normally and has a root, and then a complete tree walk from the last matching root, over pids that appear in the listing |
| ProcessTree.QueueAfter | internal/utils/process.go:149-159 | the queue of the source's loop after n iterations: once empty it stays empty, and it only ever holds the starting pids and pids of the table |
| ProcessTree.PidReuseCycleNeverEnds | internal/utils/process.go:149-160 | when the root's parent pid was reused by one of its children, the root is on a parent cycle and the loop's queue still holds a pid after any number of iterations |
| ProcessTree.WalkTreeSeen | internal/utils/process.go:145-160 | the walk that skips pids already enqueued ends on every table, parent cycles included, and is a complete walk: root first, parents first, closed under children, no pid twice |
| ProcessTree.ParentsFirstWithinClosure | internal/utils/process.go:145-160 | every pid of a parents-first walk lies in any child-closed set containing the root |
| ProcessTree.TreeWalkElemsUnique | internal/utils/process.go:155-159 | any two complete walks from the same root list the same pids, so the random map order does not change the result |
| ProcessTree.ChainResolvesToAllThree | internal/utils/process.go:145-162 | the chain 100 -> 101 -> 102 resolves to exactly {100, 101, 102} |
| Focus.Occurs | internal/window/focus.go:28-32 | the scan finds the pid iff it is in the list |
| Focus.IsAnyProcessFocused | internal/window/focus.go:16-35 | focused iff there is a foreground window and its owner is one of the pids; never for an empty list |
| Focus.FocusIgnoresOrderAndDuplicates | internal/window/focus.go:28-34 | the answer depends only on the set of pids |
| Governor.EnforceMode | internal/cpu/governor.go:55-130 | an error iff the open or the priority change fails, OpenFailed exactly for the open and PriorityFailed exactly for the priority change; a failed open makes no call; otherwise throttling bit 1 is set on (Efficiency) or off (Performance), then priority 0x40 or 0x20 |
| Governor.ThrottleOutcomeIgnored | internal/cpu/governor.go:79-81 | a failing throttling call changes nothing about the outcome |
| Governor.BytesToMB | internal/cpu/governor.go:156-157 | whole megabytes rounded down: mb * 2^20 <= bytes < (mb + 1) * 2^20 |
| Governor.GetMemoryUsageMB | internal/cpu/governor.go:133-158 | no error iff the working set could be read; 0 with an error otherwise, the error saying whether the process could not be opened or its memory could not be queried |
| Governor.GetTotalMemoryUsageMB | internal/cpu/governor.go:161-170 | the uint64 total equals the exact sum over the pids whose query succeeds, modulo 2^64 |
| Governor.TotalIsExactSum | internal/cpu/governor.go:161-170 | below 2^20 pids the total never wraps |
| Governor.SucceededMBAppend | internal/cpu/governor.go:163-168 | the sum over a concatenation is the sum of the sums |
| Governor.FailingPidContributesNothing | internal/cpu/governor.go:164-167 | a pid whose query fails adds nothing: the total over N pids with one failing is the total over the other N-1 |
| Governor.TotalMonotone | internal/cpu/governor.go:163-168 | adding a pid never lowers the total (below the wrap bound) |
| Bouncer.NewWatcher | internal/watcher/bouncer.go:66-72 | nothing tracked and no trusted window |
| Bouncer.TrackedSet | internal/watcher/bouncer.go:79-82 | the loop's set holds exactly the listed pids |
| Bouncer.UpdatePIDs | internal/watcher/bouncer.go:75-83 | membership is replaced by exactly the given pids; the trusted window is kept |
| Bouncer.LastUpdateWins | internal/watcher/bouncer.go:79 | only the most recent update matters |
| Bouncer.UpdateIgnoresOrder | internal/watcher/bouncer.go:80-82 | the order and repetition of pids do not matter |
| Bouncer.IsMouseInsideWindow | internal/watcher/bouncer.go:213-222 | an inverted rectangle contains no point; the all-zero rectangle a failed read leaves contains only the screen origin |
| Bouncer.CornersAreInside | internal/watcher/bouncer.go:220-221 | the hit test includes the rectangle's edges |
| Bouncer.JustOutsideIsOutside | internal/watcher/bouncer.go:220-221 | a point one pixel past any edge is outside |
| Bouncer.IsAltPressed | internal/watcher/bouncer.go:207-210 | Alt counts as held iff the key state's most significant bit is set |
| Bouncer.AltIgnoresLowBit | internal/watcher/bouncer.go:209 | the "pressed since last poll" bit is ignored |
| Bouncer.CutAtNul | internal/watcher/bouncer.go:203 | the longest NUL-free prefix of the buffer |
| Bouncer.WindowTitle | internal/watcher/bouncer.go:195-204 | empty when the reported length is 0; otherwise the copied text (the first `length` characters, or all of the text when it is shorter than reported) up to its first NUL |
| Bouncer.TitleSignalsCall | internal/watcher/bouncer.go:161-163 | recognised iff "call" or "video" occurs in the title in any letter case; a recognised title has at least four characters |
| Text.LowerContainsIffFold | internal/watcher/bouncer.go:162-163 | searching the lower-cased title for a lower-case word finds it iff the word occurs in the title in any letter case |
| Text.LowerKeepsContains | internal/watcher/bouncer.go:162-163 | a lower-case word that occurs in a title still occurs after lower-casing |
| Bouncer.TitleFilterIgnoresCase | internal/watcher/bouncer.go:161-163 | the title filter does not depend on letter case |
| Bouncer.CallTitlesRecognised | internal/watcher/bouncer.go:161-166 | "Video call - Jane" and "INCOMING CALL" pass the title filter |
| Bouncer.PassesFilters | internal/watcher/bouncer.go:160-178 | holding Alt always lets a tracked window through; with an empty title and Alt up, only the cursor position decides |
| Bouncer.WinEventProc | internal/watcher/bouncer.go:136-192 | ignored without a watcher or window; an untracked window becomes trusted; a tracked one is allowed iff a filter passes; otherwise focus reverts to the trusted window and the stealer is flashed, or nothing happens when no window is trusted; only the trusted window ever changes |
| Bouncer.FilterPrecedence | internal/watcher/bouncer.go:160-178 | the filters apply in order: a call title wins over Alt and the mouse, Alt wins over the mouse, and a click inside the window is allowed when neither of the others applies |
| Bouncer.RevertTargetIsTrusted | internal/watcher/bouncer.go:181-189 | focus is never handed back to a null window, only to the trusted one |
| Bouncer.RevertCanTargetTheStealer | internal/watcher/bouncer.go:150-189 | a WhatsApp window focused before its pid is tracked becomes trusted, and a later steal by that same window is "reverted" to itself |
| Bouncer.TrackedEventsChangeNothing | internal/watcher/bouncer.go:150-191 | tracked and null windows never change the watcher |
| Bouncer.TrackedSetKept | internal/watcher/bouncer.go:145-156 | the callback never changes the tracked set |
| Bouncer.LastGoodIsLastUntracked | internal/watcher/bouncer.go:150-156 | after any events, the trusted window is the window of the last untracked event |
| Bouncer.StealAfterOtherWindowIsReverted | internal/watcher/bouncer.go:150-189 | a steal right after an untracked window had the focus reverts to exactly that window and flashes the stealer |
| Updater.TrimV | internal/updater/updater.go:97-98 | removes one leading 'v' and nothing else |
| Updater.IsNewerVersion | internal/updater/updater.go:95-113 | newer iff, at the first differing component, the remote component is greater as a string; or, with no difference, the remote has more components |
| Updater.ComparePartsLoop | internal/updater/updater.go:103-112 | the loop decides the first-difference order on the component lists |
| Updater.CommonPrefixDecides | internal/updater/updater.go:103-112 | when one list is a prefix of the other, the longer one is newer |
| Updater.NoLaterDifference | internal/updater/updater.go:107-109 | a smaller remote component at the first difference means not newer |
| Updater.NotNewerThanItself | internal/updater/updater.go:95-113 | no version is newer than itself |
| Updater.NewerIsAsymmetric | internal/updater/updater.go:95-113 | of two versions at most one is newer |
| Updater.PartsTotal | internal/updater/updater.go:103-112 | two different component lists are ordered one way or the other |
| Updater.DistinctVersionsAreOrdered | internal/updater/updater.go:95-113 | two versions that differ after dropping a leading 'v' are ordered one way or the other |
| Updater.SplitAppend | internal/updater/updater.go:100-101 | splitting at a separator concatenates the component lists |
| Updater.ExtraComponentIsNewer | internal/updater/updater.go:97-112 | one more component makes a version newer ("1.0.0" over "1.0", "v1.0.0" over "v1.0") |
| Updater.LeadingVIgnored | internal/updater/updater.go:97-98 | a leading 'v' on either side does not change the answer |
| Updater.PartsOfTriple | internal/updater/updater.go:97-101 | a dotted triple with no leading 'v' splits into its three components |
| Updater.NineAfterTen | internal/updater/updater.go:104-105 | component "9" is greater than component "10" as a string |
| Updater.ComponentsCompareAsStrings | internal/updater/updater.go:74-75 | "1.0.10" is not newer than "1.0.9", and "1.0.9" is newer than "1.0.10" |
| Updater.FirstInstaller | internal/updater/updater.go:80-89 | the first asset named Velocity_Setup*.exe, or none exactly when no asset qualifies |
| Updater.CheckForUpdates | internal/updater/updater.go:43-92 | 404 means no update; other non-200 statuses and decode failures are errors; a tag that is not newer means no update; a newer release with an installer asset is offered, with the first such asset's name and URL, and an offered update is always newer; a newer release without one is an error naming its tag |
| Velocity.Start | cmd/velocity/main.go:115 | the loop starts in Unknown with the shared watcher |
| Velocity.ApplyMode | cmd/velocity/main.go:189-199 | one governor call per pid, in order, all in the requested mode |
| Velocity.ApplyModeElems | cmd/velocity/main.go:189-199 | the calls are exactly the pids paired with the mode |
| Velocity.Classify | cmd/velocity/main.go:142-147 | Focused iff a tree pid owns the foreground window, Background otherwise |
| Velocity.Transition | cmd/velocity/main.go:150-162 | nothing on entering Unknown; entering Focused switches the tree iff it is non-empty and under 2048 MB; a switch makes one call per pid in the tree's order, in Performance exactly when entering Focused; Background always switches every pid |
| Velocity.QosTick | cmd/velocity/main.go:128-164 | failure resets to Unknown with no call; success publishes the tree to the watcher and records the classification; no call without a mode change; entering Background throttles every pid; entering Focused restores Performance only below 2048 MB; only tree pids are touched |
| Velocity.RepeatedTickIsQuiet | cmd/velocity/main.go:149 | the same tick twice issues no call the second time |
| Velocity.HighMemoryFocusSticks | cmd/velocity/main.go:151-158 | gaining focus over the ceiling issues no call but records Focused, and a later focused tick under the ceiling still issues none |
| Velocity.RecoveryReapplies | cmd/velocity/main.go:129-135 | after a failed resolution, the next successful background tick throttles every pid again |
| Velocity.EndToEndScenario | cmd/velocity/main.go:128-164 | the tree 100 -> 101 -> 102 stays Background with no call while pid 999 has the focus, then goes Focused with Performance applied to exactly 100, 101 and 102 at 500 MB |
| Velocity.TrimPass | cmd/velocity/main.go:169-187 | a count is reported exactly when the tree was resolved, and it never exceeds the number of pids |
| Velocity.TrimWhatsApp | cmd/velocity/main.go:169-187 | NotFound reports "not running", other errors are reported as such, and otherwise the count of successful trims out of the number of pids; the loop agrees with TrimPass |
| Velocity.CountOkExtremes | cmd/velocity/main.go:180-186 | every pid counts when every trim succeeds, none when all fail |
| Velocity.PublishedTreeGuardsFocus | internal/watcher/bouncer.go:136-192 | after a QoS tick publishes the tree to the watcher (main.go:137-140), the callback trusts a window outside the tree and then reverts a tracked window that passes no filter to exactly that window |
| Velocity.LoopScenarioCalls | cmd/velocity/main.go:115-164 | after launch, a tick with another process in front throttles the whole tree and a tick with a tree window in front restores it, under the ceiling: the governor sees exactly Efficiency for each pid, then Performance for each pid, in tree order |
| Velocity.Step | cmd/velocity/main.go:120-166 | calls are only appended; only a QoS tick changes the mode or calls the governor; a trim tick appends exactly its trim report; a foreground change appends exactly one decision |
| Velocity.Run | cmd/velocity/main.go:120-166 | decisions and trim reports are only appended, and the watcher never appears or disappears |
| Velocity.Launch | cmd/velocity/main.go:115-118 | the loop starts in Unknown with the shared watcher, with no call and no decision, and exactly one trim report, which is a count iff the tree resolved |
| Velocity.TrimsFollowTrimTicks | cmd/velocity/main.go:122-126 | the trim reports a run adds are exactly one per trim tick, in order |
| Velocity.InitialTrimComesFirst | cmd/velocity/main.go:115-126 | the loop's first trim report is the pass run before any event, followed by one per trim tick |
| Velocity.RunExtendsCalls | cmd/velocity/main.go:120-166 | governor calls are only ever appended |
| Velocity.QuietWithoutQosTicks | cmd/velocity/main.go:122-127 | trims and foreground changes never change the mode or call the governor |
| Velocity.ModeFollowsLastQosTick | cmd/velocity/main.go:120-166 | after any events, the mode is the one the last QoS tick set |

## Left out

- internal/memory/trimmer.go is not part of this model. Whether `TrimProcess` succeeds for a pid is an input of `Velocity.TrimWhatsApp`.
- cmd/debug, the tray menu, `main`/`onReady`/`onExit`, the log file and all log lines are not modelled. They hold no decision of the core.
- Win32 calls are not modelled. Their results are inputs: the snapshot listing, foreground window, owner pid, title reads, key state, cursor, window rectangle, working-set size, and the open, throttle and priority outcomes. A failed cursor or rectangle read leaves zeros, and the caller passes those zeros in.
- Case-insensitive comparisons (`strings.EqualFold`, `strings.ToLower`) are ASCII-only here. Full Unicode case folding is not reproduced.
- Window and process names are sequences of characters. The UTF-16 buffers and their decoding are not modelled, except that a title is cut at its first NUL.
- Go map iteration order is random. `ProcessTree.KeyOrder` fixes one order: each pid where it first occurs in the listing. Only order-independent properties of the resolution are proved.
- ProcessTree.WalkTree: requires that the root is not on a cycle of parent links. The source's loop never ends in that case (see Findings); ProcessTree.WalkTreeSeen is the walk without that requirement.
- ProcessTree.FindProcessTree: requires the same of the last matching root when the enumeration ended normally, because it models the source's walk as written.
- The HTTP request, the JSON decoding, `DownloadInstaller`, the installer launch and `checkForUpdatesAsync` are out of scope (network and filesystem). `Updater.CheckForUpdates` receives the response as a `Fetch`. A request that cannot even be built cannot happen with the constant endpoint, so it is merged with transport failure. Asset sizes play no part in the decision.
- The watcher's hook registration, message pump, `running` flag and hook handle are not modelled. Neither are its reader/writer lock or the loop's timers and channels. Loop events and foreground changes are handled one at a time, as a sequence of events in `Velocity.Run`.
- Governor.EnforceMode: does not model the structure version or the information-class number passed with the throttling call. Only the control and state masks are modelled.
- Governor.TotalMonotone: holds only below 2^20 pids, because above that the `uint64` total can wrap.
- Velocity.QosTick: receives what `FindProcessTree("WhatsApp.Root.exe")` returned instead of calling it. It records governor calls rather than their per-pid outcomes, which the source ignores.

## Findings

| source | as written | input that shows it | evidently intended | confidence | as-written member | corrected member |
|---|---|---|---|---|---|---|
| internal/utils/process.go:149-160 | the breadth-first walk enqueues every child of the current pid, even one already enqueued (its queue is ProcessTree.QueueAfter) | the root R has parent pid C, and C is a live child of R because the root's dead parent's pid was reused; the queue then alternates between R and C forever and the result grows without bound | skip pids already enqueued, so the walk always ends with the root and its descendants, each once | medium, not executed | ProcessTree.PidReuseCycleNeverEnds | ProcessTree.WalkTreeSeen |
