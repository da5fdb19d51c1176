# Verified model of the home policy control agent and its server

Models of the two halves of the system and proofs of what each is for.

**Enforcement on the Mac.** Each enforcer tick resolves a trusted instant from three witnesses (`TrustedClock`),
evaluates the bedtime rules at it (`BedtimePredicate` and `BedtimeWarnings` over `ZonedTime`), runs the warn, lock and
shutdown ladder (`Ladder`) and asks the shadow gate whether to act (`ShadowMode`); `Enforcer` composes the four. The
supervisor decides installs and roll-backs (`SupervisorPolicy`) and keeps the files that close its loop (`Supervisor`), written one at a time
by a process that may die between any two of them.

**Policy on the server.** `Restriction` is the server's own reading of the rules, `Compile` turns authored rows into a
signed document's content, `HolidayMeaning` and `ExceptionMeaning` say what the compiled overrides mean once an agent runs
them, `RowOrder`, `Recompile` and `Canonical` say when recompiling changes nothing, `Publish` is the version log.

**Telemetry.** `SpoolReader`, `Queue`, `QueuePolicy`, `Eviction`, `EventsRoute` and `SyncDaemon` are the parts;
`Delivery` is the whole journey as a protocol with crashes between any two steps and lost replies, each appended line
accounted for by itself. `Projector`, `ProjectorRuns` and `Rollup` are the usage cache and the daily totals; a pass of the
projector may die between any two of its statements.

Conventions: time is whole milliseconds from the epoch (microseconds for `received_at`), identifiers are opaque, a
database table or a directory is a sequence, set or map. What the program does with loops and fields is a method or a
class here, proved equal to a specification function; the properties are lemmas about those functions. `Basics`,
`Sorting`, `PolicyDocument` and `Events` hold shared vocabulary.

## Where code and comments disagree

The model follows the code. Each of these is a lemma.

- The high-water mark is not a floor: offline, a wall within two seconds of the carried reckoning is believed, so trusted
  time can sit up to two seconds behind it (`TrustedClock.BelowHighWaterExactly`, `TrustedClock.HighWaterIsNotAFloor`).
- Two seconds of error per wall shift needs each shift to be resolved and persisted before the Mac goes down, and to
  happen while the enforcer has ticked on this boot. The first tick of a boot takes in whatever shift went unseen before
  the Mac went down or after it came up (`TrustedClock.FirstTickOfBoot`, `TrustedClock.UnseenShiftAroundReboot`), and
  `TrustedClock.UnseenShiftMovesExactly` says exactly when that is more than two seconds.
- A server correction backwards leaves the last lock in the future and suppresses the next one
  (`Enforcer.CorrectionSuppressesExactly`, `Enforcer.BackwardCorrectionSuppressesLock`).
- The supervisor's three roll-backs a day and the ladder's five episodes a day are kept in memory. A day holds at most
  three, or five, for each process life it touches (`SupervisorPolicy.AtMostThreeRollbacksPerLife`,
  `Ladder.AtMostFiveShutdownEpisodesPerLife`) and can hold more over several (`SupervisorPolicy.RestartRenewsTheBudget`,
  `Ladder.SixLivesSixShutdowns`); since a shutdown ends the process, lives are the ordinary case. The ten minutes between
  kickstarts survive a restart (`SupervisorPolicy.KickstartsAreSpacedAcrossRestarts`), and an enforcer restarted inside a
  window locks at once and shuts nothing down before it ends (`Enforcer.RestartInsideOnlyLocks`).
- A version is said never to soak twice. It is never installed twice (`Supervisor.NeverInstalledTwice`) unless the process
  dies between the installer and the record of the version replaced: rolled back to the older last-good one, the
  supervisor installs the replaced version again, and soaks it again if its first soak was not over
  (`Supervisor.OrphanSoaksTwice`). `Supervisor.InstalledAgainExactly` and `Supervisor.CanBeInstalledExactly` say from
  which files, and `Supervisor.OrphanUnsettlesExactly` which version.
- A version that cannot be read is said never to be newer. It is newer than one whose first component other than 0 is
  negative (`SupervisorPolicy.UnreadableIsNewerExactly`).
- The server's resolver is said to land before a gap and to take the earlier of two occurrences. East of UTC it does the
  opposite (`ZonedTime.ServerReading`, `ZonedTime.ServerTakesLaterOccurrenceEast`).
- The agent's rule for an ambiguous end looks exactly one hour on, so a half-hour fall-back ends at the first occurrence
  (`ZonedTime.HalfHourFallBackEndsEarly`).
- Yesterday and today suffice in a zone if and only if falling back there does not step over a midnight
  (`ZonedTime.TwoDaysSufficeExactly`).
- A warning is said to be due from its moment until its boundary. One whose moment falls before midnight and boundary after
  it waits for midnight, because tomorrow's windows are not looked at (`BedtimeWarnings.WarningsSeenExactly`,
  `BedtimeWarnings.TomorrowIsNotWarnedOf`).
- A holiday's extension is capped at the window's length by the clock: on a night the clock lengthens, a window the
  weekend leaves free keeps its last hour (`HolidayMeaning.LongNightKeepsItsLastHour`);
  `HolidayMeaning.HolidayNightExactly` says exactly which nights translate.
- "No bedtime" for a whole date expires at that midnight, not at the end of a wrapping window
  (`HolidayMeaning.WholeDayNoBedtimeEndsAtMidnight`, `HolidayMeaning.NoBedtimeCoversExactly`).
- Extra minutes for a whole date also end at that midnight (`ExceptionMeaning.CustomNightExactly`).
- "Like a weekend" for one window looks for the weekend among that window alone, so it relaxes nothing, and takes the
  date's holiday away from every window (`ExceptionMeaning.NamedTreatAsWeekendDoesNothing`). For a whole date it is a
  holiday (`ExceptionMeaning.TreatAsWeekendIsAHoliday`).
- A compile after midnight drops yesterday's entries while yesterday's night still runs: a night freed by "no bedtime" for
  its window is restricted again (`HolidayMeaning.RecompileForgetsTheNight`).
- "No change, no new version" holds over time exactly while nothing alive expires, no live draft's date passes and none
  enters the horizon (`Recompile.RecompileExactly`, `Publish.RepublishExactly`).
- A roll-back that fails or is cut short leaves the version it quarantined running (`Supervisor.SoundKeptExactly`).
- Derived event ids are stable across re-reads only for lines with a readable timestamp and only within one process
  (`SpoolReader.ReparseNamesTheSame`), so a crash between enqueue and unlink can queue a segment twice
  (`Delivery.CrashQueuesTwiceExactly`).
- Two lines are one event when they are the same text, with a readable timestamp, at the same place of two segments that
  one process read under one name (`Delivery.ReusedNameRunExactly`); a segment's name is a second of the wall clock, and a
  rotation waits only while the former segment of that name is still there.
- An eviction is committed before its receipt is queued. A process that dies between the two, or an eviction that fails
  half-way, loses those rows without a word; otherwise the receipts add up to what was evicted
  (`Delivery.EvictionsReportedExactly`).
- The byte cap sheds by the mean row of each class. Where rows of a class are alike a pass gets below it
  (`Eviction.PassReachesByteTarget`); light rows ahead of heavy ones leave the queue over it
  (`Eviction.LightRowsFirstFallShort`). `Eviction.BytesSettleExactly` tells which from the queue before the pass.
- Size evictions are reckoned on the queue before the age evictions of the same pass, so rows that would have fitted can go
  with those that aged out (`Eviction.YoungRowsGoTooExactly`).
- A queue row is stamped by the wall clock (agent/Sources/HPCSyncKit/Queue.swift:118) and aged against trusted time
  (agent/Sources/HPCSyncKit/SyncDaemon.swift:632-633): with the wall set back further than the age bound, a new row is
  lost to the next pass (`Eviction.SetBackWallLosesNewRowsExactly`).
- A segment is decoded as one string, so one line that is not text loses every line beside it
  (`Delivery.SpoolTripKeepsExactly`).
- A batch refused as too large is said to be halved and sent again. The size starts over with each flush, and a flush halves
  it three times: rows of which no 250 fit in a request are never got through, and the queue behind them waits for ever
  (`SyncDaemon.HalvingGetsThroughExactly`, `SyncDaemon.HalvingWedges`).
- With a count cap of zero the eviction receipt itself overflows the cap, for ever (`Eviction.PassSettlesExactly`).
- An event that commits with a `received_at` at or behind the watermark is missed until a pass reaches back for it
  (`ProjectorRuns.LateArrivalIsMissed`), and an oversized group can be cut for good (`Projector.SkipsExactly`).
- A bucket's rows are deleted in one statement and inserted in another, outside any transaction. A forward pass that dies
  in between does no lasting harm, for its events are still past the watermark; a nightly pass that does leaves the
  bucket empty until a nightly pass reaches it again (`ProjectorRuns.CrashLeavesWrongExactly`,
  `ProjectorRuns.NightlyCrashWaitsForANightlyPass`).
- The daily roll-up overwrites the day its window opens in with part of itself, unless every hour of that day worth any
  time lies in the window (`Rollup.WrittenDayIsWholeExactly`, `Rollup.OnlyTheOpeningDayIsTorn`).

## Model

| member | source | states |
|---|---|---|
| TrustedClock.Resolve | agent/Sources/HPCCore/TrustedClock.swift:172-259 | the whole tick decision, vote, anchor, high water, offset, step and outvoted flags, equals the specification function |
| TrustedClock.CastBallot | agent/Sources/HPCCore/TrustedClock.swift:192-227 | the branch order of the vote equals the specification vote |
| TrustedClock.TwoOfThree | agent/Sources/HPCCore/TrustedClock.swift:192-213 | if any two witnesses agree, the chosen instant agrees with at least two; the server loses exactly when the other two agree and neither agrees with it |
| TrustedClock.ErrorsReportedOnce | agent/Sources/HPCCore/TrustedClock.swift:246-259 | between two reports nothing moves the reported error, an unreported error is within tolerance, and an outvoted server is announced on the first such tick only |
| TrustedClock.ConfirmedExactlyAfterServer | agent/Sources/HPCCore/TrustedClock.swift:229-244 | in every run from fresh, the anchor is confirmed exactly when some earlier tick was decided by the server |
| TrustedClock.OutvotedOnlyAfterServer | agent/Sources/HPCCore/TrustedClock.swift:204-208 | no run outvotes the server before the server decided once |
| TrustedClock.ServerDecidesExactly | agent/Sources/HPCCore/TrustedClock.swift:192-227 | in every run from fresh an anchor of the tick's own boot decides it and is taken as carried forward, unless the server decided before, the wall agrees with the own reckoning and the anchor with neither; without one the server never does; and what is taken otherwise |
| TrustedClock.FirstServerWordIsTaken | agent/Sources/HPCCore/TrustedClock.swift:204-213 | the first anchor of its own boot a run sees is taken at once, however far off the wall is, and is not outvoted |
| TrustedClock.FlagsExactly | agent/Sources/HPCCore/TrustedClock.swift:199-257 | over the same runs, exactly when the wall is named the source, the server corroborated, and an outvoted server announced |
| TrustedClock.ServerStaysAuthority | agent/Sources/HPCCore/TrustedClock.swift:177-238 | after one server decision, every later tick with that anchor and boot is the anchor carried forward, for any wall readings |
| TrustedClock.ServerAnchorWithinHalfRoundTrip | agent/Sources/HPCCore/TrustedClock.swift:155-170 | the pinned anchor is within half the round trip of the true time, carried to any later reading |
| TrustedClock.HighWaterStep | agent/Sources/HPCCore/TrustedClock.swift:183-244 | one spaced tick keeps anchor and mark within two seconds and, unless the server decides, the mark never falls |
| TrustedClock.NeverFarBackwards | agent/Sources/HPCCore/TrustedClock.swift:183-244 | between server decisions, over any walls and reboots, no trusted instant is over two seconds earlier than any before it |
| TrustedClock.BelowHighWaterExactly | agent/Sources/HPCCore/TrustedClock.swift:183-218 | offline, trusted time falls below the mark exactly when the wall is below it and within two seconds of the reckoning, on one boot or across a reboot |
| TrustedClock.HighWaterIsNotAFloor | agent/Sources/HPCCore/TrustedClock.swift:214-219 | a concrete reboot believed two seconds below the mark |
| TrustedClock.FirstTickTracks | agent/Sources/HPCCore/TrustedClock.swift:188-227 | a fresh agent's first tick takes the wall and starts a tracked run |
| TrustedClock.ErrorStep | agent/Sources/HPCCore/TrustedClock.swift:180-243 | the trusted error changes only on a tick just after a shift, only with the wall within two seconds of the reckoning, and by at most two seconds |
| TrustedClock.ErrorBoundedByShifts | agent/Sources/HPCEnforcer/main.swift:270-279 | over every offline run of passes, shifts, ticks, SIGTERM resolutions and reboots the error moves by at most two seconds a shift, if each shift is seen |
| TrustedClock.TwoSecondsPassTheMark | agent/Sources/HPCCore/TrustedClock.swift:183-218 | any resolution two seconds after the last is past the mark, which is all a first tick of a boot needs |
| TrustedClock.FirstTickOfBoot | agent/Sources/HPCCore/TrustedClock.swift:180-243 | from any tracked world the first tick of a boot takes the whole unseen shift, held up by the mark, or the wall when they agree within two seconds |
| TrustedClock.UnseenShiftMovesExactly | agent/Sources/HPCCore/TrustedClock.swift:180-243 | past the mark the error moves by exactly the unseen shift; in every case exactly when it moves by more than two seconds |
| TrustedClock.UnseenShiftAroundReboot | agent/Sources/HPCEnforcer/main.swift:270-279 | a shift just before a reboot and one just after it, before the first tick, both move trusted time in full |
| BedtimePredicate.ApplyOverrides | agent/Sources/HPCCore/BedtimePredicate.swift:166-213 | the override loop equals the fold of its live relaxations |
| BedtimePredicate.OverridesClosedForm | agent/Sources/HPCCore/BedtimePredicate.swift:174-212 | the loop is empty under any live suspend, else the start moved by the sum of live extends and capped at the end |
| BedtimePredicate.AppliedExactly | agent/Sources/HPCCore/BedtimePredicate.swift:174-212 | the overrides said to have applied are exactly those alive, for the window and the day, that relax anything |
| BedtimePredicate.MoreOverridesExtendMore | agent/Sources/HPCCore/BedtimePredicate.swift:174-212 | overrides contained in others, as multisets, extend no more and suspend no more, so their order is irrelevant |
| BedtimePredicate.LatestEndingIsLatest | agent/Sources/HPCCore/BedtimePredicate.swift:82-90 | the winner ends no earlier than any hit and before it no hit ends as late |
| BedtimePredicate.Soonest | agent/Sources/HPCCore/BedtimePredicate.swift:120 | the next boundary is the least one still ahead, or none is |
| BedtimePredicate.EvaluateOn | agent/Sources/HPCCore/BedtimePredicate.swift:66-115 | one window on one day adds exactly its hit, boundaries and due warnings |
| BedtimePredicate.Evaluate | agent/Sources/HPCCore/BedtimePredicate.swift:43-125 | the nested loops with their running best equal the evaluation function |
| BedtimePredicate.HitsAreSound | agent/Sources/HPCCore/BedtimePredicate.swift:66-90 | every collected hit restricts now, from a considered day, with its relaxed span |
| BedtimePredicate.HitsAreComplete | agent/Sources/HPCCore/BedtimePredicate.swift:66-90 | every window and considered day that restricts now is collected |
| BedtimePredicate.TwoDaysSuffice | agent/Sources/HPCCore/BedtimePredicate.swift:54-58 | any local day whose window restricts now is yesterday or today |
| BedtimePredicate.EvaluationMeaning | agent/Sources/HPCCore/BedtimePredicate.swift:43-125 | the verdict and end equal the specification ranging over windows on every local day |
| BedtimePredicate.WinnerIsFirstLatest | agent/Sources/HPCCore/BedtimePredicate.swift:82-90 | over windows on every local day the winner is the one that ends latest, of those the first in the document, and of its days the earlier; its overrides are the ones reported |
| BedtimePredicate.WinnerIsUnique | agent/Sources/HPCCore/BedtimePredicate.swift:82-90 | there is only one such place and day |
| BedtimePredicate.DroppingOverridesNeverRelaxes | agent/Sources/HPCCore/BedtimePredicate.swift:164-213 | with fewer overrides a restricted instant stays restricted |
| BedtimePredicate.ExpiredOverridesDoNothing | agent/Sources/HPCCore/BedtimePredicate.swift:177-180 | a list whose overrides have all expired leaves a span as it is |
| BedtimePredicate.PastLastExpiryIsTheSchedule | agent/Sources/HPCCore/BedtimePredicate.swift:164-213 | past the last expiry the evaluation equals that of the document without overrides |
| BedtimeWarnings.WarningsSeenExactly | agent/Sources/HPCCore/BedtimePredicate.swift:54-113 | over windows on every local day, a due warning is reported if and only if its window is of today or an earlier day |
| BedtimeWarnings.DueAreGathered | agent/Sources/HPCCore/BedtimePredicate.swift:66-113 | the loops collect exactly the due warnings of the windows and days visited |
| BedtimeWarnings.DueIsRecent | agent/Sources/HPCCore/BedtimePredicate.swift:93-112 | no warning is due from before yesterday's windows |
| BedtimeWarnings.TomorrowIsNotWarnedOf | agent/Sources/HPCCore/BedtimePredicate.swift:54-58 | a half-hour warning for 00:10 that is due at 23:45 and not reported |
| BedtimeWarnings.NextBoundaryIsTheEarliest | agent/Sources/HPCCore/BedtimePredicate.swift:92-120 | the next boundary is the earliest start or warning still ahead of a window of today or yesterday, and there is none exactly when there is none of those |
| Restriction.EnforcedStart | apps/api/src/lib/restriction.ts:93-107 | the server's loop with its suspended flag and clamping equals its relaxation function |
| Restriction.RestrictionAt | apps/api/src/lib/restriction.ts:68-144 | the server's nested loops equal the enforced-phase function |
| Restriction.RelaxationClosedForm | apps/api/src/lib/restriction.ts:93-107 | the server's relaxation has the agent's closed form while any of the window is left |
| Restriction.SameOnDay | apps/api/src/lib/restriction.ts:84-126 | with the same boundary instants one window on one day hits on both sides or neither, with the same span |
| Restriction.SameHitsThroughout | apps/api/src/lib/restriction.ts:73-126 | three days on the server and two on the agent collect the same hits in the same order |
| Restriction.ServerMirrorsAgent | apps/api/src/lib/restriction.ts:68-144 | phase `enforced` exactly when the agent is restricted, same winner and end, and a start from which that window restricts |
| ZonedTime.AgentResolverIsOrdered | agent/Sources/HPCCore/ZonedTime.swift:60-108 | every zone whose change keeps its day resolves times in the day order the predicate rests on |
| ZonedTime.InstantIsOnItsDay | agent/Sources/HPCCore/ZonedTime.swift:60-108 | a time that exists resolves to an instant of its own local day |
| ZonedTime.ServerReading | apps/api/src/policy/zoned-time.ts:57-70 | where two passes land, in a gap, twice or once, told by comparing the naive time with the change |
| ZonedTime.AgentPicksLaterExactly | agent/Sources/HPCCore/ZonedTime.swift:94-107 | an end takes a later occurrence exactly when it is ambiguous across a change of one hour |
| ZonedTime.ResolversAgreeExactly | agent/Sources/HPCCore/ZonedTime.swift:60-108 | the two resolvers name the same instant if and only if a condition on the time and the zone holds |
| ZonedTime.ServerTakesLaterOccurrenceEast | apps/api/src/policy/zoned-time.ts:10-20 | a zone two hours ahead where the server takes the later occurrence |
| ZonedTime.HalfHourFallBackEndsEarly | agent/Sources/HPCCore/ZonedTime.swift:100-106 | a half-hour fall-back where an end keeps its first occurrence |
| ZonedTime.ServerMirrorsAgentInZone | apps/api/src/lib/restriction.ts:68-144 | the mirror theorem with both resolvers' own rules, given only that nearby boundaries read alike |
| ZonedTime.TwoDaysSufficeExactly | agent/Sources/HPCCore/BedtimePredicate.swift:54-58 | in a plausible zone yesterday and today hold whatever restricts, for every document and instant, if and only if the change keeps its day |
| ZonedTime.FallBackHidesAWindow | agent/Sources/HPCCore/BedtimePredicate.swift:54-58 | in every other zone the day the clock stepped out of restricts, unseen, at the change |
| ZonedTime.FirstInstantAfterGap | agent/Sources/HPCCore/ZonedTime.swift:112-124 | the minute walk stops on the first probe past the change from up to 239 minutes short, else stays put |
| Ladder.MostUrgent | agent/Sources/HPCCore/Ladder.swift:168-170 | the due warning with the soonest boundary and, there, the shortest lead |
| Ladder.Step | agent/Sources/HPCCore/Ladder.swift:111-272 | one tick, effects in order and state, equals the specification function |
| Ladder.StepInside | agent/Sources/HPCCore/Ladder.swift:193-271 | the restricted half with its early returns equals open-episode then enforce |
| Ladder.StepOutside | agent/Sources/HPCCore/Ladder.swift:142-191 | the unrestricted half equals close-episode then warn |
| Ladder.OutsideFacts | agent/Sources/HPCCore/Ladder.swift:142-191 | outside, no lock or shutdown; an open episode is closed with its lock, warnings and shutdown forgotten, the breaker's memory kept |
| Ladder.InsideFacts | agent/Sources/HPCCore/Ladder.swift:196-239 | inside, a lock exactly when the action is not warn-only and none was issued within 55 seconds; episode and breaker change only at a start |
| Ladder.EscalationFacts | agent/Sources/HPCCore/Ladder.swift:241-271 | a shutdown exactly under all five conditions of the terminal rung |
| Ladder.WarningFacts | agent/Sources/HPCCore/Ladder.swift:158-189 | a tick asks for the most urgent warning exactly when it was not attempted for that boundary, and remembers the attempt |
| Ladder.MinutesLeftRoundsUp | agent/Sources/HPCCore/Ladder.swift:181-185 | the minutes shown are the time left rounded up, never none |
| Ladder.WarningIsTrue | agent/Sources/HPCCore/Ladder.swift:158-189 | a tick asks for one warning at most, outside a window and last: a due one of the soonest boundary and shortest lead, on its channel, for its window, with the minutes left rounded up |
| Ladder.OneWarningPerBoundary | agent/Sources/HPCCore/Ladder.swift:158-189 | over every run, between two firings of one lead for one boundary lies a tick for another boundary or an episode's end |
| Ladder.StaleWarningsAreDropped | agent/Sources/HPCCore/Ladder.swift:158-189 | over every run a warning that was due while a more urgent one of its boundary was is not given later, unless a tick turned to another boundary or ended an episode |
| Ladder.EffectsInOrder | agent/Sources/HPCCore/Ladder.swift:111-272 | no kind of effect comes twice in a tick, and they come in one order: reports, a warning, a lock, a shutdown |
| Ladder.RecordsExactly | agent/Sources/HPCCore/Ladder.swift:120-212 | which reports a tick makes: a failed warning, an episode's end and start, and at a start the day's episodes once over five, counted |
| Ladder.FailuresExactly | agent/Sources/HPCCore/Ladder.swift:120-140 | the failures on record are those in a row since a delivered warning or the end of an episode |
| Ladder.LockIgnoresEverythingElse | agent/Sources/HPCCore/Ladder.swift:120-239 | runs over the same evaluations and instants lock at the same ticks whatever the warnings, failures and breakers |
| Ladder.LastLockTracked | agent/Sources/HPCCore/Ladder.swift:227-239 | while ticks keep up, the remembered lock is the last tick of the stretch that had to lock |
| Ladder.RelocksExactlyWhenTicksKeepUp | agent/Sources/HPCCore/Ladder.swift:227-239 | every tick that must lock does, if and only if consecutive ones of a stretch are 55 seconds apart |
| Ladder.RecentEpisodesExact | agent/Sources/HPCCore/Ladder.swift:196-201 | the breaker's memory is exactly the episode starts of the trailing 24 hours |
| Ladder.BreakerTracked | agent/Sources/HPCCore/Ladder.swift:196-212 | while an episode is open the breaker says whether its start was over five in a day |
| Ladder.ShutdownIsSafe | agent/Sources/HPCCore/Ladder.swift:241-271 | every shutdown of a run comes the grace after its episode began, after a lock in it, after a warning delivered since the previous episode, and is its first |
| Ladder.OneShutdownPerEpisode | agent/Sources/HPCCore/Ladder.swift:241-271 | between two shutdowns lies an unrestricted tick |
| Ladder.AtMostFiveShutdownEpisodesPerDay | agent/Sources/HPCCore/Ladder.swift:94-212 | of the episodes of one process life starting within any 24 hours at most five reach shutdown |
| Ladder.AtMostFiveShutdownEpisodesPerLife | agent/Sources/HPCCore/Ladder.swift:94-212 | over any sequence of lives, of the episodes starting within any 24 hours at most five for each life they belong to reach shutdown |
| Ladder.SixLivesSixShutdowns | agent/Sources/HPCEnforcer/main.swift:30 | six warned episodes reach shutdown within an hour, one to a life |
| ShadowMode.ShadowIsBounded | agent/Sources/HPCCore/ShadowMode.swift:99-125 | whatever a marker says, it shadows one version and for under 36 hours and two minutes |
| ShadowMode.BeginShadowsUntilDeadline | agent/Sources/HPCCore/ShadowMode.swift:70-125 | a marker the supervisor writes shadows exactly its version until exactly 36 hours on |
| Enforcer.Agent.Tick | agent/Sources/HPCEnforcer/main.swift:35-193 | clock, kill switch, policy, predicate, ladder, shadow gate and execution equal the composed tick |
| Enforcer.Agent.Perform | agent/Sources/HPCEnforcer/main.swift:110-193 | the pending warning is the last one delivered, with its outcome |
| Enforcer.PendingIsTheLastWarning | agent/Sources/HPCEnforcer/main.swift:157-170 | what is left to fold in is the last warning performed with its outcome, and nothing exactly when none was |
| Enforcer.StoppedTickOnlyReadsTheClock | agent/Sources/HPCEnforcer/main.swift:52-90 | under a kill switch or without a policy a tick performs nothing, leaves ladder and pending warning, and still keeps the clock |
| Enforcer.ShadowedTickPerformsNothing | agent/Sources/HPCEnforcer/main.swift:113-155 | under its own version's marker, for 36 hours from the install, a tick performs nothing and leaves no pending warning, with clock and ladder as with no marker |
| Enforcer.OtherwiseTheMarkerIsIgnored | agent/Sources/HPCEnforcer/main.swift:113-155 | under another version's marker, or from the deadline on, a tick is one without a marker |
| Enforcer.TickPerformsExactly | agent/Sources/HPCEnforcer/main.swift:36-185 | all a tick performs, in order, what its ladder becomes and what it leaves to fold in, under the marker of any install |
| Enforcer.TickLocksExactly | agent/Sources/HPCEnforcer/main.swift:36-185 | a tick locks exactly when there is no kill switch, a policy, no soak of its version running, a restriction beyond warn-only and no lock within 55 trusted seconds |
| Enforcer.SoakDecidesAsEnforcing | agent/Sources/HPCEnforcer/main.swift:113-155 | over every run under a marker, clock and ladder go through exactly the states of the unmarked run in which nobody saw the soak's warnings |
| Enforcer.SoakPerformsNothingThenEverything | agent/Sources/HPCEnforcer/main.swift:113-155 | every tick of such a run performs nothing before the deadline and from it on exactly what that unmarked run performs, at the same trusted instants |
| Enforcer.WarningIsThePolicys | agent/Sources/HPCEnforcer/main.swift:157-170 | a warning put on the screen is the policy's own, for a window of today or earlier whose start lies ahead by no more than its lead, on its channel, with the minutes left rounded up |
| Enforcer.LockStaysBehind | agent/Sources/HPCCore/TrustedClock.swift:180-243 | with no server decision on one boot and ticks 57 seconds apart, the last lock is always 55 trusted seconds old |
| Enforcer.EveryRestrictedTickLocks | agent/Sources/HPCEnforcer/main.swift:46-110 | whatever the wall reads, every such tick that restricts beyond warn-only emits a lock |
| Enforcer.LocksExactly | agent/Sources/HPCEnforcer/main.swift:46-110 | a tick that acts and is restricted beyond warn-only locks exactly when none was issued or 55 trusted seconds have passed since |
| Enforcer.CorrectionSuppressesExactly | agent/Sources/HPCCore/Ladder.swift:227-239 | after a first lock, a tick decided by the server does not lock exactly when the server's time is less than 55 seconds past it |
| Enforcer.BackwardCorrectionSuppressesLock | agent/Sources/HPCCore/Ladder.swift:227-239 | such a run: noon by the wall, eleven by the server a minute later, restricted by both, and no lock |
| Enforcer.RestartInsideOnlyLocks | agent/Sources/HPCEnforcer/main.swift:27-110 | a process started inside a window locks on its first such tick and shuts nothing down while the window lasts, whatever a former process had delivered |
| Enforcer.ShutsDownExactly | agent/Sources/HPCEnforcer/main.swift:36-185 | over every run of a process, when it shuts the Mac down: the tick acts in a window whose action is that, none was issued in the episode, the breaker is not tripped, the grace is over, and the process itself delivered a warning with no episode ended since; if and only if |
| Enforcer.ShutdownWasWarnedOf | agent/Sources/HPCEnforcer/main.swift:105-165 | every shutdown a process performs was preceded by a warning that process put on the screen, with no episode ended in between |
| SupervisorPolicy.NewerIsStrictWeak | agent/Sources/HPCCore/SupervisorPolicy.swift:246-255 | zero padding makes "newer" a strict weak order on version strings |
| SupervisorPolicy.UnreadableIsNewerExactly | agent/Sources/HPCCore/SupervisorPolicy.swift:240-255 | a version no component of which reads is newer than another if and only if that one's first component other than 0 is negative |
| SupervisorPolicy.UnreadableBeatsNegative | agent/Sources/HPCCore/SupervisorPolicy.swift:240-255 | "x" is newer than "-1" |
| SupervisorPolicy.NewerFromExactly | agent/Sources/HPCCore/SupervisorPolicy.swift:246-254 | newer means greater in the first component that differs, a missing one standing as 0 |
| SupervisorPolicy.ComponentsJoin | agent/Sources/HPCCore/SupervisorPolicy.swift:247-248 | the components of two texts with a dot between are those of the one, then of the other, so empty ones vanish |
| SupervisorPolicy.ComponentAlone | agent/Sources/HPCCore/SupervisorPolicy.swift:247-248 | a text without a dot is one component, none when empty |
| SupervisorPolicy.NumericOrder | agent/Sources/HPCCore/SupervisorPolicy.swift:247-251 | components compare as numbers: without leading zeros the longer is greater, of two as long the greater in the first digit that differs |
| SupervisorPolicy.ReadsAsItself | agent/Sources/HPCCore/SupervisorPolicy.swift:247-248 | digits that fit read as their number, with either sign or none; anything else as 0 |
| SupervisorPolicy.TooLongReadsAsZero | agent/Sources/HPCCore/SupervisorPolicy.swift:247-248 | a number of twenty digits or more reads as 0 |
| SupervisorPolicy.Step | agent/Sources/HPCCore/SupervisorPolicy.swift:110-238 | the decision with its loops and guards equals the specification function |
| SupervisorPolicy.Candidates | agent/Sources/HPCCore/SupervisorPolicy.swift:190-196 | exactly the staged versions strictly newer, not running, not last-good, not quarantined |
| SupervisorPolicy.OldestFirstEndsNewest | agent/Sources/HPCCore/SupervisorPolicy.swift:197-198 | the last of the sorted candidates is one none of them is newer than |
| SupervisorPolicy.InstallsNewestCandidate | agent/Sources/HPCCore/SupervisorPolicy.swift:190-237 | an install is of a staged candidate, with no candidate newer |
| SupervisorPolicy.InstallsExactly | agent/Sources/HPCCore/SupervisorPolicy.swift:190-238 | an upgrade goes in if and only if there is one, every health file is there and under five minutes old, no crash in five minutes, ten since boot and last restart, and no lock or shutdown is in force |
| SupervisorPolicy.RollsBackExactly | agent/Sources/HPCCore/SupervisorPolicy.swift:110-173 | it rolls back if and only if a job is overdue as when last read or three crashes fall in five minutes, ten minutes have passed, fewer than three roll-backs fall in the day, and another last-good version is staged; and for which reason |
| SupervisorPolicy.ReportsExactly | agent/Sources/HPCCore/SupervisorPolicy.swift:144-235 | each report, and idleness, exactly when its obstacle is the first met |
| SupervisorPolicy.ScanExactly | agent/Sources/HPCCore/SupervisorPolicy.swift:117-129 | the counts say which jobs were overdue when last read, the scan which are so again, a job listed twice included |
| SupervisorPolicy.ActsExactlyOverRuns | agent/Sources/HPCCore/SupervisorPolicy.swift:105-238 | over every run, when a tick rolls back and when it installs, from what the supervisor was shown and did before, its own bookkeeping left out |
| SupervisorPolicy.KickstartsAreSpaced | agent/Sources/HPCCore/SupervisorPolicy.swift:137-148 | any two kickstarting decisions of a run are at least 600 seconds apart |
| SupervisorPolicy.WindowCountsRollbacks | agent/Sources/HPCCore/SupervisorPolicy.swift:114-118 | the aged window holds exactly the run's roll-backs of the trailing day |
| SupervisorPolicy.AtMostThreeRollbacksPerDay | agent/Sources/HPCCore/SupervisorPolicy.swift:150-155 | any 24 hours of one process's run hold at most three roll-backs |
| SupervisorPolicy.BudgetIsThisLifes | agent/Sources/HPCCore/SupervisorPolicy.swift:150-155 | only roll-backs of the same process life are counted against the budget |
| SupervisorPolicy.AtMostThreeRollbacksPerLife | agent/Sources/HPCCore/SupervisorPolicy.swift:150-155 | over any sequence of lives, any 24 hours hold at most three roll-backs for each life they belong to |
| SupervisorPolicy.KickstartsAreSpacedAcrossRestarts | agent/Sources/HPCCore/SupervisorPolicy.swift:137-148 | over any number of process lives, one after another, two kickstarting decisions are at least 600 seconds apart |
| SupervisorPolicy.RestartRenewsTheBudget | agent/Sources/HPCSupervisor/main.swift:28-35 | four roll-backs in fifty minutes: the fourth is refused in one life and made by the next |
| SupervisorPolicy.StaleRollbackIsConfirmed | agent/Sources/HPCCore/SupervisorPolicy.swift:120-173 | every `health_stale` roll-back, no job listed twice in that tick, follows two consecutive stale readings of one job with no roll-back between |
| SupervisorPolicy.CountsRememberExactly | agent/Sources/HPCCore/SupervisorPolicy.swift:117-170 | over every run the counts remember exactly a job's last reading since the last roll-back |
| Supervisor.Daemon.Tick | agent/Sources/HPCSupervisor/main.swift:39-108 | the tick's decision and every file and static it leaves equal the specification |
| Supervisor.Daemon.EnterShadow | agent/Sources/HPCSupervisor/main.swift:120-139 | a soaked version gets no marker, any other gets one begun now |
| Supervisor.Daemon.PromoteIfDue | agent/Sources/HPCSupervisor/main.swift:148-156 | a marker past its deadline is cleared and its version recorded, any other is left |
| Supervisor.WholeTick | agent/Sources/HPCSupervisor/main.swift:76-108 | a tick not cut short is its writes one after another, in the order the code makes them |
| Supervisor.EventFacts | agent/Sources/HPCSupervisor/main.swift:76-108 | versions, quarantine and marker after any tick, wherever it is cut short and whether or not its install works |
| Supervisor.MarkerExactly | agent/Sources/HPCSupervisor/main.swift:76-156 | marker and record of soaked versions after a whole tick: cleared by a roll-back, begun for 36 hours by an install of a version not soaked, else cleared and recorded exactly once the deadline has come |
| Supervisor.TickVersions | agent/Sources/HPCSupervisor/main.swift:76-103 | what each decision of a whole tick does to the running, last-good and quarantined versions |
| Supervisor.SoundKeptExactly | agent/Sources/HPCSupervisor/main.swift:84-103 | running and last-good stay out of quarantine exactly unless a roll-back stops, by failing or by dying, between the quarantine and the install |
| Supervisor.ActionsMakeProgress | agent/Sources/HPCCore/SupervisorPolicy.swift:175-255 | a roll-back leaves fewer unquarantined versions; an install leaves those and fewer newer ones |
| Supervisor.ActionsAreFinite | agent/Sources/HPCCore/SupervisorPolicy.swift:175-255 | no oscillation: over N versions any run, restarted between ticks or not, acts fewer than (N + 1) squared times |
| Supervisor.StandingSpent | agent/Sources/HPCSupervisor/main.swift:76-108 | wherever a tick is cut short and whatever fails, no tick gains standing and one that changes the running version loses some |
| Supervisor.ChangesAreFinite | agent/Sources/HPCSupervisor/main.swift:76-108 | from any files, with failing installs and deaths anywhere, the running version changes fewer than (2N + 1)(N + 1) times |
| Supervisor.SettledKept | agent/Sources/HPCCore/SupervisorPolicy.swift:190-198 | what keeps an installed version from being installed again is kept by every event but a death between install and record |
| Supervisor.NeverInstalledTwice | agent/Sources/HPCSupervisor/main.swift:76-103 | no version is installed twice, over restarts, deaths anywhere else and failing installs, unless a process dies between an install and its last-good record |
| Supervisor.OrphanUnsettlesExactly | agent/Sources/HPCSupervisor/main.swift:78-82 | of the versions that could not be installed any more such a death opens exactly the one replaced, if it is above the recorded last-good one |
| Supervisor.CanBeInstalledExactly | agent/Sources/HPCCore/SupervisorPolicy.swift:190-198 | from any files, some run installs a version if and only if a condition on the files alone holds |
| Supervisor.InstalledAgainExactly | agent/Sources/HPCSupervisor/main.swift:78-82 | after a run without such a death, a version already installed can be installed again if and only if it is running above its roll-back target and another could still be put in over it |
| Supervisor.OrphanSoaksTwice | agent/Sources/HPCSupervisor/main.swift:78-82 | such a run: the replaced version is installed a second time and shadows under a second marker |
| Supervisor.MarkersAreEarned | agent/Sources/HPCSupervisor/main.swift:112-139 | the marker on disk is the one the run found, or was begun by an install of its version |
| Supervisor.VersionsShadowOnce | agent/Sources/HPCCore/ShadowMode.swift:70-125 | over a run with restarts, from the middle of a soak or not, a version shadows under one marker only, for under 36 hours and two minutes |
| Compile.WeekendWindow | apps/api/src/policy/compile.ts:99-105 | a window covering the weekend with the latest start, or none covers it |
| Compile.WeekendWindowExactly | apps/api/src/policy/compile.ts:99-105 | Saturday or Sunday is enough, the latest start wins, and of equal starts the first row |
| Compile.TreatDateAsWeekend | apps/api/src/policy/compile.ts:232-270 | the loop with its skips and clamp emits exactly the per-window drafts |
| Compile.SynthesiseExceptions | apps/api/src/policy/compile.ts:121-139 | the loop over parent entries emits exactly their drafts within the horizon |
| Compile.Synthesise | apps/api/src/policy/compile.ts:121-157 | parent entries first, then holidays nobody has spoken for |
| HolidayMeaning.CompiledRelaxation | apps/api/src/policy/compile.ts:306-322 | on a date with no exception and no grant the compiled document never suspends and extends each window by its holiday draft, while live, whatever other dates hold |
| HolidayMeaning.AgentOnHoliday | agent/Sources/HPCCore/BedtimePredicate.swift:166-213 | the agent on a compiled holiday night restricts exactly from its own start plus the live extension to the end |
| HolidayMeaning.HolidayNightExactly | apps/api/src/policy/compile.ts:232-270 | a compiled holiday night means the parent's rule at every instant if and only if its five boundary instants translate |
| HolidayMeaning.MistranslatedAt | apps/api/src/policy/compile.ts:232-270 | any night that does not translate has an instant that shows it |
| HolidayMeaning.HolidayPreserved | apps/api/src/policy/compile.ts:232-270 | each window on each day restricts from the later of its own and the weekend's start to its end, or not at all |
| HolidayMeaning.CompiledHolidaysMeanTheSource | apps/api/src/policy/compile.ts:278-322 | over the whole document, at an instant whose date and the one before have no exception and no grant, the agent is restricted exactly when some rule, holidays included, restricts |
| HolidayMeaning.CleanNightTranslates | apps/api/src/policy/compile.ts:76-91 | a night without an offset change translates under both resolvers' own rules |
| HolidayMeaning.CompiledHolidaysMeanTheSourceInZone | apps/api/src/policy/compile.ts:278-322 | the same in a concrete zone, with holidays ahead off the change |
| HolidayMeaning.LongNightKeepsItsLastHour | apps/api/src/policy/compile.ts:249-256 | on a night made an hour longer, a window the rule leaves free restricts on the agent for exactly its last hour |
| HolidayMeaning.AgentOnNoBedtime | apps/api/src/policy/compile.ts:159-184 | the agent on a compiled "no bedtime" is restricted in each window it names exactly from its expiry on |
| HolidayMeaning.WholeDayNoBedtimeEndsAtMidnight | apps/api/src/policy/compile.ts:169-184 | a whole-date "no bedtime" restricts again exactly from that date's midnight |
| HolidayMeaning.NoBedtimeCoversExactly | apps/api/src/policy/compile.ts:169-184 | it frees the rest of a night, from the compile on, if and only if it does not expire before the window ends |
| HolidayMeaning.WindowNoBedtimeCoversTheNight | apps/api/src/policy/compile.ts:169-184 | named for its window it frees that window's whole night |
| HolidayMeaning.PastDateIsTheSchedule | apps/api/src/policy/compile.ts:121-124 | a date past at the compile is run by the schedule alone, whatever the parent had entered for it |
| HolidayMeaning.RecompileForgetsTheNight | apps/api/src/policy/compile.ts:121-124 | a night freed to its end by the evening's document is restricted by one compiled after midnight |
| ExceptionMeaning.AgentOnEntry | apps/api/src/policy/compile.ts:121-139 | on the date of a lone entry the agent is moved by that entry's drafts alone, holidays giving way |
| ExceptionMeaning.AgentOnCustom | apps/api/src/policy/compile.ts:186-202 | extra minutes move the start of the windows they name until they expire, and not after |
| ExceptionMeaning.CustomNightExactly | apps/api/src/policy/compile.ts:186-202 | a night of extra minutes is what was asked for, at every instant, if and only if the later start does not lie past the expiry |
| ExceptionMeaning.TreatAsWeekendIsAHoliday | apps/api/src/policy/compile.ts:203-213 | "like a weekend" for a whole date restricts at exactly the instants a holiday does |
| ExceptionMeaning.NamedTreatAsWeekendDoesNothing | apps/api/src/policy/compile.ts:203-213 | for a window of its own it leaves the date to the schedule, holiday or not |
| ExceptionMeaning.AgentOnGrants | apps/api/src/policy/compile.ts:307-322 | on a date only grants are for, the agent restricts each window from its start moved by the minutes of all grants alive for it, to its end, unless one alive frees it |
| ExceptionMeaning.SynthesisedRelax | apps/api/src/policy/compile.ts:121-270 | nothing synthesised is idle: it frees a night of the horizon or moves its start by at least a minute |
| ExceptionMeaning.CompiledWindowsExactly | apps/api/src/policy/compile.ts:286-304 | the document's windows are the rows, each once and unchanged, by sort order and then id, the warnings by longest lead |
| RowOrder.SameLiveDrafts | apps/api/src/policy/compile.ts:121-157 | permuted rows synthesise the same drafts |
| RowOrder.IdsNameDrafts | apps/api/src/policy/compile.ts:248-268 | two drafts with one id are one draft, so sorting by date and id has no ties |
| RowOrder.CompiledOverridesExactly | apps/api/src/policy/compile.ts:318-322 | the document's overrides are the drafts alive, each as often, by date and then id |
| RowOrder.CompileIgnoresRowOrder | apps/api/src/policy/compile.ts:284-322 | permuting window, grant, exception and holiday rows leaves the compiled document identical |
| RowOrder.ScheduleIgnoresWarningOrder | apps/api/src/policy/compile.ts:301-303 | permuting each window's warnings leaves the compiled windows identical |
| RowOrder.CompileIgnoresWarningOrder | apps/api/src/policy/compile.ts:284-322 | and the whole compiled document |
| RowOrder.CompileIgnoresAllOrder | apps/api/src/policy/compile.ts:284-322 | permuting window, warning, grant, exception and holiday rows all at once leaves the compiled document identical |
| Recompile.GatheringLosesNothing | apps/api/src/policy/gather.ts:63-102 | compiling only the exceptions and holidays of the horizon and the grants alive gives the document all rows would |
| Recompile.RecompileExactly | apps/api/src/policy/compile.ts:278-322 | compiling the same rows later gives the same document if and only if no live draft expires on the way or is for a date now past, and none is for a date the horizon has only now reached |
| Recompile.RecompileSameDayExactly | apps/api/src/policy/compile.ts:278-322 | within one local date, if and only if no draft expires on the way |
| Canonical.CanonicalForm | apps/api/src/policy/canonical.ts:24-32 | sorting the keys and rebuilding the object key by key, at every depth, equals the key-sorted value |
| Canonical.HashContent | apps/api/src/policy/canonical.ts:53-57 | deleting the three fields in turn and canonicalising equals the content hash |
| Canonical.CanonicalExactly | apps/api/src/policy/canonical.ts:20-32 | two values have one canonical form if and only if they have the same content at every depth |
| Canonical.HashIsTheContent | apps/api/src/policy/canonical.ts:47-57 | two documents have one hash if and only if they agree on every key but the three left out |
| Publish.Latest | apps/api/src/policy/publish.ts:58-67 | a row of the greatest version, or none |
| Publish.PolicyLog.Publish | apps/api/src/policy/publish.ts:39-102 | an equal hash changes nothing; any other appends the next version with its etag |
| Publish.PublishKeepsLog | apps/api/src/policy/publish.ts:69-102 | versions stay 1..n, neighbours differ, at most one row is added, and none exactly when the latest has this content |
| Publish.PublishesExactly | apps/api/src/policy/publish.ts:69-102 | a publish adds nothing if and only if device, settings and compiled document are the latest's; else a row whose number, document, etag, hash and instants agree |
| Publish.LogIsTheChanges | apps/api/src/policy/publish.ts:69-102 | over any run the log is exactly the sequence of changed contents, numbered from 1 |
| Publish.RepublishExactly | apps/api/src/policy/publish.ts:39-73 | publishing again later, from permuted rows, publishes nothing if and only if no live draft expires, passes its date or enters the horizon |
| Publish.ReorderedRowsPublishNothing | apps/api/src/policy/publish.ts:39-73 | within one local date, if and only if no draft expires in between; at one instant always |
| Publish.GatheredIsEnough | apps/api/src/policy/gather.ts:63-102 | publishing from the rows gathered is publishing from all the household's rows |
| QueuePolicy.Plan | agent/Sources/HPCCore/QueuePolicy.swift:123-204 | the planner with its running overruns equals the plan function |
| QueuePolicy.PlanAges | agent/Sources/HPCCore/QueuePolicy.swift:137-151 | one age eviction for each class whose oldest row is past its own bound |
| QueuePolicy.AuditsOnlyAfterEverySample | agent/Sources/HPCCore/QueuePolicy.swift:171-200 | the size caps take an audit row only in a plan that takes every sample |
| QueuePolicy.TargetIs95Percent | agent/Sources/HPCCore/QueuePolicy.swift:55-61 | the headroom target is the whole number of rows or bytes next below 95 % of the cap |
| QueuePolicy.SharesCoverCount | agent/Sources/HPCCore/QueuePolicy.swift:155-200 | over the cap, the two shares cover the count overrun down to the headroom target |
| Queue.Store.Enqueue | agent/Sources/HPCSyncKit/Queue.swift:102-147 | each row is appended unless its id is there; the count returned is what grew |
| Queue.Store.Batch | agent/Sources/HPCSyncKit/Queue.swift:157-183 | the oldest rows by insertion |
| Queue.Store.Acknowledge | agent/Sources/HPCSyncKit/Queue.swift:188-206 | exactly the rows named are gone |
| Queue.Store.TakeCensus | agent/Sources/HPCSyncKit/Queue.swift:208-237 | counts, bytes and oldest stamps by class |
| Queue.Store.Evict | agent/Sources/HPCSyncKit/Queue.swift:248-273 | the plan's victims, chosen on the queue as it then stands, are gone and counted |
| Queue.WithoutMembers | agent/Sources/HPCSyncKit/Queue.swift:188-206 | acknowledging removes the named rows and keeps every other |
| Eviction.EvictionConserves | agent/Sources/HPCSyncKit/Queue.swift:248-273 | what remains and what was evicted add up to what there was, row for row |
| Eviction.SizeEvictionsApplied | agent/Sources/HPCSyncKit/Queue.swift:248-273 | a size plan removes from each class exactly the rows it names |
| Eviction.PassReachesTarget | agent/Sources/HPCCore/QueuePolicy.swift:153-200 | a pass that fires on the count cap leaves no more rows than the headroom target |
| Eviction.PassLeavesExactly | agent/Sources/HPCCore/QueuePolicy.swift:153-178 | with nothing aged and the bytes within 95 % of their cap, a queue over the count cap is left with 95 % of it to the row, and one within both caps is left alone |
| Eviction.YoungRowsGoTooExactly | agent/Sources/HPCCore/QueuePolicy.swift:125-200 | where the age evictions alone get a queue under the target, the pass still takes young rows if and only if there is a young sample, or the audits alone were over the target and one is young |
| Eviction.OldestGoFirst | agent/Sources/HPCSyncKit/Queue.swift:256-260 | a size eviction takes a class from its oldest row on |
| Eviction.ApplyEviction | agent/Sources/HPCSyncKit/SyncDaemon.swift:630-643 | census, plan, evict and one receipt, in that order |
| Eviction.PassSettlesExactly | agent/Sources/HPCSyncKit/SyncDaemon.swift:630-643 | after a pass and its receipt the count cap does not fire again, for every queue, if and only if the cap is at least 1 |
| Eviction.AuditsGoLast | agent/Sources/HPCCore/QueuePolicy.swift:182-200 | when the size caps touch audits no sample is left |
| Eviction.AgesLeaveTheYoung | agent/Sources/HPCCore/QueuePolicy.swift:137-151 | the age evictions leave exactly the rows not past their class's bound, in order |
| Eviction.BytesSettleExactly | agent/Sources/HPCCore/QueuePolicy.swift:137-200 | a pass ends within the byte cap if and only if, of the young rows before it, the oldest of each class that the plan's shares name weigh what the young rows are over by |
| Eviction.PassReachesByteTarget | agent/Sources/HPCCore/QueuePolicy.swift:153-200 | when the rows of each class weigh alike a pass that fires leaves no more than the byte target |
| Eviction.LightRowsFirstFallShort | agent/Sources/HPCCore/QueuePolicy.swift:163-178 | a light row ahead of a heavy one, where the pass leaves the queue over the byte cap |
| Eviction.NothingAgedRemains | agent/Sources/HPCCore/QueuePolicy.swift:137-151 | no row past its class's age bound survives the plan of that instant |
| Eviction.SetBackWallLosesNewRowsExactly | agent/Sources/HPCSyncKit/Queue.swift:114-131 | a new row outlives the next pass's age evictions if and only if the wall that stamped it was not back beyond the age bound; else it is among the victims |
| SpoolReader.Parse | agent/Sources/HPCSyncKit/SpoolReader.swift:95-132 | the loop yields one row a parseable line, numbered by position, or nothing when the file is not text |
| SpoolReader.Disk.Rotate | agent/Sources/HPCSyncKit/SpoolReader.swift:54-75 | the live file becomes a segment unless empty or the name is taken; no line is lost or moved twice |
| SpoolReader.Disk.Drain | agent/Sources/HPCSyncKit/SpoolReader.swift:137-149 | every pending segment is enqueued in name order and only then deleted; the count is what the queue grew |
| SpoolReader.ParsedCoversExactly | agent/Sources/HPCSyncKit/SpoolReader.swift:95-132 | every parseable line gets its row if and only if the segment is text or holds none |
| SpoolReader.ParsedIds | agent/Sources/HPCSyncKit/SpoolReader.swift:114-124 | a derived id names the process, segment, position, line and readable timestamp |
| SpoolReader.ParsedRowsExactly | agent/Sources/HPCSyncKit/SpoolReader.swift:95-132 | the rows of a segment are exactly those of its parseable lines, if all of it is text, each with its line's class, size, place and stamps |
| SpoolReader.ReparseNamesTheSame | agent/Sources/HPCSyncKit/SpoolReader.swift:107-124 | parsing again names the same events if and only if the same process does it and every parseable line has a readable timestamp, or none parses |
| SpoolReader.DrainLeavesNoSegment | agent/Sources/HPCSyncKit/SpoolReader.swift:140-147 | after a drain no segment is left |
| EventsRoute.Intake.HandleEvents | apps/api/src/routes/events.ts:77-222 | oversized batches change nothing; otherwise every valid id is accepted, the rest rejected, and the valid rows stored once |
| EventsRoute.ReplyPartitionsBatch | apps/api/src/routes/events.ts:124-163 | accepted and rejected partition the batch by each event's own flaws |
| EventsRoute.ReasonsExactly | apps/api/src/routes/events.ts:231-248 | every flawed event is refused under its own id, for its id before its class and for either before the rest |
| EventsRoute.ExchangeRemovesExactlyTheBatch | apps/api/src/routes/events.ts:204-216 | acting on the reply removes exactly the batch sent, re-sent duplicates and poisoned events alike |
| SyncDaemon.Exchange | agent/Sources/HPCSyncKit/SyncDaemon.swift:583-596 | one answered request takes its batch off the queue and stores the clean rows |
| SyncDaemon.FlushEvents | agent/Sources/HPCSyncKit/SyncDaemon.swift:580-606 | the loop of up to four batches, halving, dropping and stopping, equals the link-by-link function |
| SyncDaemon.FlushSettles | agent/Sources/HPCSyncKit/SyncDaemon.swift:580-606 | whatever the links do, the queue keeps an untouched tail and every row ahead of it is stored, refused or in a dropped batch |
| SyncDaemon.FlushNamesOnlyTheFlawed | agent/Sources/HPCSyncKit/SyncDaemon.swift:588-599 | only flawed events are refused, and nothing is dropped without a drop order |
| SyncDaemon.FlushDrains | agent/Sources/HPCSyncKit/SyncDaemon.swift:580-596 | with every link answering one full batch a link leaves the queue |
| SyncDaemon.FlushTakesExactly | agent/Sources/HPCSyncKit/SyncDaemon.swift:580-606 | a flush takes off the front of the queue exactly the batches its answered links and its drop order found in force, the size halved once for each order before |
| SyncDaemon.FlushDropsExactly | agent/Sources/HPCSyncKit/SyncDaemon.swift:597-602 | what a drop order found in force is named dropped, row for row |
| SyncDaemon.FlushDropsOnlyOnOrder | agent/Sources/HPCSyncKit/SyncDaemon.swift:597-602 | without a drop order that is reached nothing is |
| SyncDaemon.FlushServesExactly | agent/Sources/HPCSyncKit/SyncDaemon.swift:583-596 | every batch answered, or served with its reply lost, has its clean rows stored and, if heard, its flawed ones refused |
| SyncDaemon.RoundsTakeExactly | agent/Sources/HPCSyncKit/SyncDaemon.swift:571-606 | over any flushes with arrivals in between, the row at place p leaves once answers and drop orders come to more than p rows, and not before |
| SyncDaemon.TakesNothingExactly | agent/Sources/HPCSyncKit/SyncDaemon.swift:580-606 | a flush takes nothing off a queue if and only if no answer and no drop order is reached |
| SyncDaemon.HalvingGetsThroughExactly | agent/Sources/HPCSyncKit/SyncDaemon.swift:580-599 | against a server that has every batch over some size halved, a flush gets rows through if and only if 250 of them, or the whole queue, are few enough |
| SyncDaemon.HalvingWedges | agent/Sources/HPCSyncKit/SyncDaemon.swift:580-599 | if not, the queue stays and only grows over any number of flushes |
| Delivery.DownstreamKept | agent/Sources/HPCSyncKit/SyncDaemon.swift:571-643 | no step takes an event id out of queue, server, named rows and evicted rows, reported or not, together |
| Delivery.IngestTakes | agent/Sources/HPCSyncKit/SpoolReader.swift:140-146 | ingesting a readable segment puts each of its occurrences past the spool, under an id of its own |
| Delivery.InvKept | agent/Sources/HPCSyncKit/SpoolReader.swift:134-149 | every step, a crash between an eviction and its receipt or a lost reply included, keeps the protocol's invariant |
| Delivery.NeverLosesSilently | agent/Sources/HPCSyncKit/SpoolReader.swift:54-149 | over every run each appended occurrence of a parseable line is spooled, or has an id queued, stored, named as refused or dropped, or evicted, or was in a segment deleted unread |
| Delivery.EvictionsReportedExactly | agent/Sources/HPCSyncKit/SyncDaemon.swift:630-643 | over every run the rows evicted equal what the receipts report if and only if no receipt is outstanding and no crash or failure fell between an eviction and its receipt |
| Delivery.NothingForgotten | agent/Sources/HPCSyncKit/SyncDaemon.swift:630-643 | and then no occurrence is lost without mention |
| Delivery.OccurrencesHaveTheirOwnIds | agent/Sources/HPCSyncKit/SpoolReader.swift:107-124 | while no process reads two segments under one name, two occurrences never share an id |
| Delivery.ReusedNameMergesExactly | agent/Sources/HPCSyncKit/SpoolReader.swift:107-124 | with a name used again, a line of the second segment takes the id of a row of the first if and only if the first had the same line at the same place with a readable timestamp |
| Delivery.ReusedNameRunExactly | agent/Sources/HPCSyncKit/SpoolReader.swift:54-149 | over that run for any two segments, the queue holds an event for each parseable line of both if and only if there is no such pair |
| Delivery.NeverLosesText | agent/Sources/HPCSyncKit/SpoolReader.swift:95-96 | when only text is appended no occurrence is in a segment deleted unread |
| Delivery.TextIsNeverForgotten | agent/Sources/HPCSyncKit/SpoolReader.swift:54-149 | with only text appended and every receipt in time each occurrence is spooled, queued, stored, named as refused, dropped or evicted, or in the eviction reported next |
| Delivery.DrainIsARun | agent/Sources/HPCSyncKit/SpoolReader.swift:137-149 | a drain is a run of the protocol's steps |
| Delivery.ExchangeIsARun | agent/Sources/HPCSyncKit/SyncDaemon.swift:583-596 | so is an answered exchange, and it takes exactly its batch |
| Delivery.SpoolTripKeepsExactly | agent/Sources/HPCSyncKit/SpoolReader.swift:95-146 | spooled lines all reach the queue if and only if all are text or none parses |
| Delivery.StoredOnce | agent/Sources/HPCSyncKit/SpoolReader.swift:114-124 | however often one process reads it, a line with a readable timestamp is stored once |
| Delivery.CrashQueuesTwiceExactly | agent/Sources/HPCSyncKit/SyncDaemon.swift:25 | a segment read again after a crash before its unlink queues nothing new if and only if it is the same process id and every line has a timestamp, or none parses; under another id it queues every row again |
| Projector.PerBundle | apps/api/src/jobs/project.ts:227-246 | the accumulation loop holds each bundle's totals |
| Projector.DirtyBuckets | apps/api/src/jobs/project.ts:148-153 | the dirty map is each bucket once, in the order first seen |
| Projector.BucketExactly | apps/api/src/jobs/project.ts:88 | an event's bucket is its device and the hour whose span holds its timestamp |
| Projector.FromScratchExactly | apps/api/src/jobs/project.ts:197-269 | the table has a row for a device, an instant and a program if and only if the instant begins an hour in which the program has samples; the row is the sums of exactly those, their number capped |
| ProjectorRuns.DirtyMembers | apps/api/src/jobs/project.ts:148-153 | the dirty buckets are exactly those some usable row falls in |
| Projector.Database.RecomputeBucket | apps/api/src/jobs/project.ts:191-269 | for a whole hour, all a pass asks for, the query by the hour's span leaves the bucket's rows those of the from-scratch aggregate, no other row is touched |
| Projector.Database.ProjectEvents | apps/api/src/jobs/project.ts:59-176 | every dirty bucket of the usable rows is recomputed and the watermark moves to the newest of them, if it is to move |
| Projector.UsableFacts | apps/api/src/jobs/project.ts:73-137 | usable rows are in order, past the watermark, and none only when nothing is waiting |
| Projector.UsableExactly | apps/api/src/jobs/project.ts:115-136 | a short scan is used whole; a full one gives up the rows of its last millisecond, unless it is all of that millisecond |
| Projector.SkipsExactly | apps/api/src/jobs/project.ts:107-136 | a waiting event is left behind the new watermark if and only if the batch is one oversized group cut at a stamp it shares |
| ProjectorRuns.InvKept | apps/api/src/jobs/project.ts:139-269 | every statement of a pass, arrivals and crashes between any two included, keeps settled buckets equal to a recount |
| ProjectorRuns.CaughtUpIsExact | apps/api/src/jobs/project.ts:59-269 | over every run, caught up, every bucket not late equals a recount of all events; one left empty behind the watermark by a crash is late |
| ProjectorRuns.TimelyIsExact | apps/api/src/jobs/project.ts:59-269 | when arrivals come past the line, no group is oversized and no nightly pass dies between a delete and its insert, caught up means the table equals the from-scratch aggregate |
| ProjectorRuns.CrashTearsExactly | apps/api/src/jobs/project.ts:250-269 | a crash leaves every bucket as it was but the one whose rows are deleted and not yet inserted, which is right only if it has none |
| ProjectorRuns.CrashLeavesWrongExactly | apps/api/src/jobs/project.ts:250-269 | a crash leaves a caught-up table wrong if and only if it falls between the delete and the insert of a bucket with samples |
| ProjectorRuns.NightlyCrashWaitsForANightlyPass | apps/api/src/jobs/project.ts:250-269 | from an exact table, after a nightly pass dies there no forward pass does anything, and a nightly pass repairs it if and only if it reaches that bucket |
| ProjectorRuns.PassIsARun | apps/api/src/jobs/project.ts:139-172 | an undisturbed pass is a run and leaves what the method promises |
| ProjectorRuns.PassMatches | apps/api/src/jobs/project.ts:159-165 | after a pass a bucket is right if and only if the pass touched it or it was right before |
| ProjectorRuns.ForwardPassAdvances | apps/api/src/jobs/project.ts:155-172 | every forward pass with a backlog advances the watermark strictly and shortens the backlog |
| ProjectorRuns.PassesCatchUp | apps/api/src/jobs/project.ts:155-172 | as many passes as rows waiting always catch up |
| ProjectorRuns.LateArrivalIsMissed | apps/api/src/jobs/project.ts:91 | an event committed at or behind the watermark is never picked up forward, and the table is wrong if and only if it counts for something |
| ProjectorRuns.NightlyPassRepairs | apps/api/src/jobs/project.ts:561-576 | the nightly side pass leaves the table exact if and only if it reaches every late bucket that is wrong, and leaves the watermark alone |
| Rollup.DailyTable.RollUpDaily | apps/api/src/jobs/project.ts:490-549 | every day with an hour in the window becomes the sum of those hours, no other day changes |
| Rollup.WrittenDayIsWholeExactly | apps/api/src/jobs/project.ts:491-506 | a written day is whole if and only if every hour of it worth any seconds lies in the window |
| Rollup.OnlyTheOpeningDayIsTorn | apps/api/src/jobs/project.ts:491-506 | the days of one device that come out torn are at most one |
| Rollup.WholeDayIsEventSum | apps/api/src/jobs/project.ts:490-543 | over an exact hourly table a day inside the window rolls up to the sum of its samples, whatever order the hours come in |

## Left out

- The server's watch period: only the enforced phase of the server's reading is modelled.
- Malformed times, unresolvable time zones and corrupt documents: the paths that report and do nothing.
- What Foundation returns inside a skipped hour: the agent's skipped time is the change itself, and the walk to it is modelled on its own.
- More than one offset change: a zone here has one.
- Supervisor.ActionsAreFinite: for installs that work and ticks not cut short; what fails or is cut short may be tried again for ever, and Supervisor.ChangesAreFinite bounds what such runs do.
- A package half installed when the process dies, and a soak marker that cannot be written.
- Lag of the health file behind the installed version, digest mismatches, cache pruning and process-id restart detection in the supervisor.
- Fractional seconds: instants are whole milliseconds, so half a round trip is rounded down and the eviction headroom of 0.95 is 95 hundredths.
- Window labels, weekday spelling, expected-online rows, action options other than the grace, and telemetry settings: passed through unchanged.
- The text order of override ids and JSON keys: any strict total order.
- Digests, UUIDs and JSON text: taken as injective.
- Why a request failed and the local events a failure enqueues, and when a flush is due; both sit around the delivery loop.
- Rows of an unrecognised class and the oldest and newest stamps of an eviction receipt.
- The table that sorts event types into classes: a line carries its type's class.
- Eviction.PassReachesByteTarget: sufficient, not necessary; `Eviction.BytesSettleExactly` has the exact form.
- SupervisorPolicy.StaleRollbackIsConfirmed: for a tick that lists each job once; `SupervisorPolicy.ActsExactlyOverRuns` has any list.
- Eviction.PassLeavesExactly: with nothing aged; `Eviction.YoungRowsGoTooExactly` has the case where ages alone would do.
- Ladder.AtMostFiveShutdownEpisodesPerDay: for one process life; `Ladder.AtMostFiveShutdownEpisodesPerLife` has any number.
- Sub-steps of one append: an append is atomic.
- CPU averages, enforcement log and session spans of the projector; the order of rows inside a bucket matters only to the last two.
- Devices missing for an event: the database forbids them.
- Projector concurrency with retention pruning.
- HTTP, routing, authentication, signatures, SQL, launchd and the installer.
- The sampler, deadfall schedule, liveness decisions, credential rotation, enrolment and reports: easier members beside the cores above.
