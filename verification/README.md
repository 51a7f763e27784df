# Armature: the clock, the routing, the codes, the runner, the files and the holidays

A Dafny model of the parts of Armature's backend whose correctness rests on reasoning rather
than on a database: the business-hours clock of a service desk, reads routed over replicas so
that people see their own writes, one-time codes at sign-in, the automation runner with its
schedules and its cap, the two-store protocol for attachments, and the import of iCalendar
files as holidays.

Code that changes things step by step is modelled as classes and loops, statement by
statement, and each method is proved against a specification that is defined on its own: sets
of open instants for the clock, a state machine over every interleaving for the protocols, a
printer for the file format. What the system promises is then proved of the specification, over
all inputs and all runs.

| file | what it models |
|---|---|
| `Instants.dfy`, `WeeklyHours.dfy`, `OpenTime.dfy`, `Calendar.dfy` | a desk's hours: openness instant by instant, and the loops that measure it and find deadlines |
| `Dates.dfy`, `Text.dfy`, `Wrappers.dfy` | calendar days and their text, text operations, results |
| `Lsn.dfy`, `LagWindow.dfy`, `Routing.dfy`, `Cluster.dfy`, `ReadYourWrites.dfy` | log positions, lag readings, pins and replica choice, health checks, and the protocol they make up |
| `Totp.dfy`, `SecondFactor.dfy`, `SignInRuns.dfy`, `Portal.dfy` | authenticator and recovery codes, sign-in challenges, portal codes, and whole runs of them |
| `Schedule.dfy`, `Runner.dfy` | when clock-driven rules fire, and rules run against events under an hourly cap |
| `Attachments.dfy` | rows, objects and tombstones, with a crash or a store failure after any step |
| `IcsText.dfy`, `IcsImport.dfy`, `IcsPrinted.dfy`, `IcsHolidays.dfy`, `IcsPlain.dfy`, `IcsValues.dfy`, `IcsRefusals.dfy` | reading calendar files, printing them, the round trip, and what is refused |

## What the proofs found

The code is followed throughout. Where a promise, read strictly, is not what the code keeps,
both what it keeps and an input that shows the difference are proved.

- Deadlines (`backend/internal/desk/calendar.go:289-316`): a goal the 366 days cannot hold is
  answered a year on, which may lie before the last of them ends. So closing for another day
  can answer a goal sooner (`DayOffCanHurry`), and a longer goal can be due sooner than a
  shorter one (`LongerGoalCanHurry`). Exactly when is `DayOffHurriesExactly` and
  `LongerGoalHurriesExactly`: the goal falls out of the 366 days, and was answered within them
  only after the instant a year on.
- Portal codes (`backend/internal/auth/portal.go:28-31`): an address is meant to get ten wrong
  codes an hour. Ten is kept for each counting window while it is younger than an hour and
  nobody gets in (`WindowsAreBounded`). A code that outlives its window is not held by the
  count, a window may begin right after another, and getting in takes the count away. An hour
  that begins anywhere is held to thirty, and nine more for each entry in it
  (`AnyHourIsBounded`), and to nothing less (`HourBoundIsExact`); with entries enough there is
  no bound (`NoNumberBoundsAnHour`).
- The automation cap (`backend/internal/automation/runner.go:145-169`): a run is claimed in one
  transaction and counted in a later one. With at most `gap` seconds between them, every rule
  keeps to its cap over every stretch of a length if and only if the length is at most an hour
  less the gap (`CapHoldsExactly`).
- Scheduled rules (`backend/internal/automation/runner.go:658-706`): the next tick starts from
  when the run's row was written, not from when the clock was looked at. A moment between the
  two is never answered (`NineIsMissed` is one); every other moment is answered exactly once
  (`AnsweredUnlessPassedOver`, `EachFiringIsItsOwn`).
- Imported holidays (`backend/internal/availability/ics.go:105-115`) are sorted by the text of
  their days. That is their order in time exactly when no event that is not cancelled reaches
  past the year 9999, which only a DURATION can do (`InOrderUnlessPast9999`). `LateFile` is a
  file that does.

## Model

| member | source | states |
|---|---|---|
| `BusinessHours.Calendar.WorkingDuration` | backend/internal/desk/calendar.go:265-287 | The loop over days and spans returns the number of open instants in [a, b), openness being what `OpenTime.OpenIs` says it is; zero when b is not after a. |
| `BusinessHours.Calendar.AddWorking` | backend/internal/desk/calendar.go:291-316 | For a positive goal the answer is the first instant whose open time since the start is the goal, whenever the open time up to the end of the 366th day suffices; otherwise the same time of day a year on, which `OpenTime.AnswerIs` counts in days; a goal that is not positive is the start. |
| `OpenTime.OpenIs` | backend/internal/desk/calendar.go:191-262 | An instant is open exactly when its time of day is inside a span of the weekday its day number has, and its day is neither one of the desk's own days off nor linked; a linked whole day is closed and a half day open only inside those hours. |
| `OpenTime.OneWeekday` | backend/internal/desk/calendar.go:44-47 | A desk with hours on one weekday is open on days of that residue modulo seven only: Thursday is 0, from 1 January 1970. |
| `OpenTime.OneWeekdayOpens` | backend/internal/desk/calendar.go:243-247 | And on each of those days it is open from the start of any of its spans. |
| `OpenTime.AnswerIs` | backend/internal/desk/calendar.go:291-316 | The answer in days: the goal reached, when what the desk holds open before the 366th day ends suffices; otherwise 366 days on when the day of the start or one of the 365 after it is a 29 February, and 365 days on when none is. |
| `Dates.YearLaterIs` | backend/internal/desk/calendar.go:315 | A day a year on is 366 days later exactly when it or one of the 365 after it is a 29 February, and otherwise 365 days later. |
| `OpenTime.AnswerUnique` | backend/internal/desk/calendar.go:291-316 | That description fixes the answer: two instants that both meet it are the same. |
| `OpenTime.DeadlinesCompose` | backend/internal/desk/calendar.go:291-316 | Waiting d1 and then d2 gives the same instant as waiting d1 + d2 whenever the whole is answered within its year. |
| `OpenTime.WorkingTimeAdds` | backend/internal/desk/calendar.go:265-287 | Open time adds over adjoining stretches, never exceeds the time that passed, and never shrinks as the stretch grows. |
| `OpenTime.DayOffCloses` | backend/internal/desk/calendar.go:191-200 | A day off of the desk's own closes every instant of its day and leaves every other instant as it was. |
| `OpenTime.DayOffNeverAdds` | backend/internal/desk/calendar.go:191-200 | Adding a day off never makes any stretch hold more open time. |
| `OpenTime.DayOffHurriesExactly` | backend/internal/desk/calendar.go:289-316 | Adding a day off brings a deadline forward exactly when it pushes a goal that was answered within its year, but only after the instant a year on, out of the 366 days; in every other case the answer stays or moves later. |
| `OpenTime.DayOffCanHurry` | backend/internal/desk/calendar.go:297-315 | Such an input: a desk open on Fridays, from a Thursday at nine, with a goal of all it holds open in its year; with the first Friday off the answer comes eight hours sooner. |
| `OpenTime.LongerGoalHurriesExactly` | backend/internal/desk/calendar.go:289-316 | A longer goal is due sooner exactly when it exceeds what the 366 days hold and the shorter one does not, but is answered after the instant a year on. |
| `OpenTime.LongerGoalCanHurry` | backend/internal/desk/calendar.go:297-315 | Such an input: the same desk, and a goal one tick longer than all it holds open in its year, answered eight hours sooner. |
| `OpenTime.HalfDayIsHalf` | backend/internal/desk/calendar.go:202-214 | Over a linked half day the open time is half of what its weekday's hours hold, rounded down, and it is the first half: nothing opens after an instant of those hours that was left out. |
| `BusinessHours.Calendar.OpenSpans` | backend/internal/desk/calendar.go:204-214 | The spans of a day run in order without overlapping and cover exactly the day's open instants: none on a day off, the first half on a half day. |
| `BusinessHours.Calendar.ClosedOn` | backend/internal/desk/calendar.go:191-200 | The desk's own days off close a day whatever the linked calendar says; else a linked whole day closes it and a linked half day halves it. |
| `BusinessHours.Calendar.FirstHalf` | backend/internal/desk/calendar.go:221-239 | On ordered spans, what is kept is ordered, totals half the ticks rounded down, and covers exactly the instants with fewer than that many open ones before them. |
| `OpenTime.TakeTicksIsFirstPart` | backend/internal/desk/calendar.go:221-239 | Cutting ordered spans from the front by length keeps exactly the first that many open instants, as a set. |
| `BusinessHours.Calendar.MergedSpans` | backend/internal/desk/calendar.go:243-262 | However a weekday's spans overlap and were ordered, the merged ones are sorted with a gap between each two and cover exactly their union. |
| `OpenTime.MergeInCover` | backend/internal/desk/calendar.go:253-259 | Merging one more span in start order adds exactly its instants to what is covered. |
| `WeeklyHours.SortedSpansSorts` | backend/internal/desk/calendar.go:140-149 | Sorting puts a day's spans in order of start and keeps each as many times as it was saved. |
| `WeeklyHours.SortedSpansStable` | backend/internal/desk/calendar.go:140-149 | Spans with the same start stay in the order they were saved. |
| `WeeklyHours.NoOverlaps` | backend/internal/desk/calendar.go:123-138 | A day is accepted exactly when no minute is open because of two of its spans; a refusal names two spans of the day that do overlap. |
| `WeeklyHours.ClashSorted` | backend/internal/desk/calendar.go:123-149 | Sorting a day neither makes nor hides an overlap. |
| `WeeklyHours.ClashIs` | backend/internal/desk/calendar.go:123-138 | Spans clash exactly when two of them, at different places, hold one minute between them. |
| `WeeklyHours.WeekdayIs` | backend/internal/desk/calendar.go:44-47 | Which weekday every day number has, before and after 1970: seven names in turn, from Thursday on day 0. |
| `WeeklyHours.MinuteRead` | backend/internal/desk/calendar.go:160-166 | Every time of day is read, with two digits of hour or, before ten, with one, as sixty times its hour and its minute. |
| `WeeklyHours.MinuteOnly` | backend/internal/desk/calendar.go:160-166 | And nothing else is read. |
| `BusinessHours.Calendar.Check` | backend/internal/desk/calendar.go:74-119 | A calendar is read back exactly when its zone is known, its keys are weekdays, its spans can be read and end after they start, and its days off are days; an empty zone becomes UTC. |
| `BusinessHours.Calendar.Validate` | backend/internal/desk/calendar.go:60-70 | A calendar is saved exactly when it can be read back and no weekday's spans overlap. |
| `BusinessHours.Calendar.Link` | backend/internal/desk/calendar.go:180-188 | The linked days are those of both lists, and a day on both is a half day. |
| `BusinessHours.Calendar.Location` | backend/internal/desk/calendar.go:168-177 | The zone is looked up once and an unknown one reads as UTC, without changing what the calendar says. |
| `Dates.ToDayFromDay` | backend/internal/desk/calendar.go:272 | Stepping day by day and the closed count of days agree for every day number, before and after 1970. |
| `Dates.KnownDays` | backend/internal/desk/calendar.go:272 | Day numbers of the first of each month of a year, of years with and without a leap day, and of 29 February 2000 and 28 February 1900. |
| `Dates.FourCenturies` | backend/internal/desk/calendar.go:272 | The calendar repeats after 400 years, which are 146097 days. |
| `Dates.TextIs` | backend/internal/availability/ics.go:141-148 | A day is written as the digits of its year, month and day, from the highest, with and without the dashes. |
| `Dates.DayTextInOrder` | backend/internal/availability/ics.go:112-114 | Within the years of four digits, comparing days as text compares them in time. |
| `Lsn.ParsePrint` | backend/internal/db/lsn.go:16-35 | Every 64-bit position is read back from its text. |
| `Lsn.PrintParse` | backend/internal/db/lsn.go:16-35 | Printing whatever was read gives its canonical form: upper case, high half bare, low half padded to eight. |
| `Lsn.ParseAccepts` | backend/internal/db/lsn.go:16-30 | Exactly which texts are read: two runs of hexadecimal digits around the first slash, each of at most eight once leading zeros go. |
| `Lsn.ParseIs` | backend/internal/db/lsn.go:16-30 | The number read: the first half counts in units of 2^32 and the second in ones, and white space around them counts for nothing. |
| `Lag.LagWindow.constructor` | backend/internal/db/lag.go:21-24 | A window keeps at least one reading and starts empty. |
| `Lag.LagWindow.Add` | backend/internal/db/lag.go:28-39 | After any number of readings the ring holds, as a multiset, exactly the latest of them up to its size, and the answer is their lower median. |
| `Lag.MedianOver` | backend/internal/db/lag.go:28-39 | The lower median exceeds a bound exactly when more than half of the readings do. |
| `Lag.CountOverIs` | backend/internal/db/lag.go:28-39 | How many readings are over a bound is how many places hold one. |
| `ReplicaCluster.Replica.constructor` | backend/internal/db/lag.go:41-47 | A replica starts out of the rotation, with no error and position zero. |
| `ReplicaCluster.Cluster.Judge` | backend/internal/db/lag.go:51-72 | A standby is in the rotation exactly when its receiver streams, or says nothing, and at most half of its kept readings are over the limit; a node out of recovery always is; and exactly then it has no error. |
| `ReplicaCluster.Cluster.Check` | backend/internal/db/cluster.go:328-367 | After a check a replica is in the rotation exactly when its pool is open, its answer could be read and it is not a stopped or lagging standby; the position is the one just read or the one before; healthy always implies a pool and no error. |
| `ReplicaCluster.Cluster.CheckAll` | backend/internal/db/cluster.go:292-296 | After a pass over every replica, exactly those whose own query shows them fit to serve are in the rotation, they alone have no error, and each keeps the position just read or the one before. |
| `ReplicaCluster.Cluster.MarkUnhealthy` | backend/internal/db/cluster.go:369-374 | The replica leaves the rotation with the reason as its error. |
| `ReplicaCluster.PickReplica` | backend/internal/db/cluster.go:246-273 | The scan returns the first eligible replica going round from the start, of either sign; otherwise it says pinned, stale when some replica is healthy, and no healthy when none is. |
| `ReplicaCluster.Cluster.Reader` | backend/internal/db/cluster.go:214-227 | A replica that serves a read has an open pool, no error and has replayed what the pin asks for; the primary serves only when pinned or no replica qualifies; each read is counted once, and its reason. |
| `Routing.PickFinds` | backend/internal/db/cluster.go:246-273 | A replica is picked exactly when the read is not pinned to the primary and some replica is healthy and caught up. |
| `Routing.PickIsFirst` | backend/internal/db/cluster.go:246-273 | The one picked is the first, going round from the start of either sign, that is healthy and has replayed what the pin asks for. |
| `Routing.RotationIsFair` | backend/internal/db/cluster.go:246-273 | With all n replicas eligible, n successive starts serve each of them exactly once. |
| `Routing.PinIsMaximum` | backend/internal/db/context.go:30-36 | A pin is a running maximum of the positions it was given, and never forgets the primary. |
| `ReadYourWrites.Primary.InTx` | backend/internal/db/tx.go:57-78 | The log grows by the transaction's changes, what others wrote meanwhile, and then its commit, exactly as far as the transaction came: a failed beginning leaves nothing, failed work no commit. |
| `ReadYourWrites.Primary.Write` | backend/internal/db/tx.go:18-38 | The position a write returns has the write's changes and, behind them, its commit before it, whatever other sessions write in between; a position that cannot be read fails a write that did commit. |
| `ReadYourWrites.StepKeepsStandbys` | backend/internal/db/cluster.go:328-367 | No step of any session, replica or health check puts a cached position ahead of the real one, takes replay back or shortens the log. |
| `ReadYourWrites.RunKeeps` | backend/internal/db/tx.go:18-78 | In every interleaving, cached positions trail the real ones, a transaction's commit is in the log exactly when it committed, behind all of its changes and before any position returned for it, and every read on a replica found what its pin asks for. |
| `ReadYourWrites.ReadsSeeOwnWrites` | backend/internal/db/tx.go:18-48 | In every interleaving of commits, position reads, replay, health checks and routing, a context pinned to the position a write returned, or a later one, sees the whole of that write, every change and the commit, in every read from then on, whichever pool serves it. |
| `ReadYourWrites.ReplicasServePins` | backend/internal/db/cluster.go:214-227 | In every state, a read goes to a replica exactly when its context is not pinned to the primary and some replica in the rotation is known to have replayed what it asks for. |
| `ReadYourWrites.PrimaryPinSticks` | backend/internal/db/context.go:17-23 | In every interleaving, each read a context makes after it was pinned to the primary goes to the primary. |
| `ReadYourWrites.RolledBackIsNeverSeen` | backend/internal/db/tx.go:57-78 | A transaction that was rolled back is seen by no read at any time. |
| `Totp.MatchTotp` | backend/internal/auth/totp.go:64-80 | The step returned is past the last one used and within one of the clock's, the typed code, read as `NormalizeIs` says, is six characters and is what the app shows at it; and no earlier such step is passed over: any that there is makes the code taken. |
| `Totp.MatchIs` | backend/internal/auth/totp.go:64-80 | The same of the specification that whole runs are made of: a code is taken exactly when the app shows it at a step not yet used and no more than one away from the clock's. |
| `Totp.NormalizeIs` | backend/internal/auth/totp.go:118-128 | Typed text is read character by character: blanks, tabs and dashes count for nothing, a capital for its small letter, and everything else for itself. |
| `Totp.TotpCodeIs` | backend/internal/auth/totp.go:132-144 | A code is taken for the app's exactly when six characters are left of it and all of them are digits. |
| `Totp.StepIs` | backend/internal/auth/totp.go:58-60 | Steps are half minutes, and a step's number that of the whole ones gone by since 1970; before it they are counted toward it. |
| `Totp.CodesPerStretch` | backend/internal/auth/totp.go:28-80 | Steps that go up and stay within the skew take at most q - p + 3 codes while the clock shows steps p to q. |
| `SecondFactor.AuthService.StartSecondFactor` | backend/internal/auth/secondfactor.go:166-195 | Starting again replaces the secret of an enrolment not yet confirmed, and is refused, changing nothing, once it is. |
| `SecondFactor.StartIs` | backend/internal/auth/secondfactor.go:166-195 | What is stored: the secret sealed with the key there is, unconfirmed, with the step already kept or zero; without a key, or once confirmed, nothing. |
| `SecondFactor.AuthService.ConfirmSecondFactor` | backend/internal/auth/secondfactor.go:199-238 | Confirms, keeps the step and replaces the recovery codes together, or changes nothing; when it does which is `ConfirmIs`. |
| `SecondFactor.ConfirmIs` | backend/internal/auth/secondfactor.go:199-238 | A started enrolment is confirmed exactly by a code its secret's app shows at a step past zero and within one of the clock's, under the key that sealed it, with recovery codes no two of which have one digest; each refusal has its condition. |
| `SecondFactor.AuthService.SpendCode` | backend/internal/auth/secondfactor.go:441-493 | A code is taken exactly when it proves its owner, as `SpendIs` says: an app's code then moves the last step, a recovery code is marked used, and a refusal of any kind changes nothing. |
| `SecondFactor.SpendIs` | backend/internal/auth/secondfactor.go:441-493 | A code is taken exactly when the factor is in use and either it has the app's form, the secret can be opened, and the app shows it at a step past the last one used and within one of the clock's, or it has not, and its digest is one of the person's and unused; no factor, no key and a wrong code are told apart in that order. |
| `SecondFactor.AuthService.ReplaceRecoveryCodes` | backend/internal/auth/secondfactor.go:505-521 | The set is replaced by the digests of the new codes, none used, exactly when they differ; otherwise none of the person's is left for the transaction to keep, and nobody else's codes change either way. |
| `SecondFactor.ReplacesAll` | backend/internal/auth/secondfactor.go:505-521 | The rows afterwards are the digests of the new codes and no other, all unused; refused exactly when two of the codes have the same digest. |
| `SecondFactor.AuthService.RenewRecoveryCodes` | backend/internal/auth/secondfactor.go:242-260 | A code proves the renewal and is spent with it; when the new set is refused, nothing is spent. |
| `SecondFactor.RenewIs` | backend/internal/auth/secondfactor.go:242-260 | Renewed exactly for a code that proves its owner and new codes that differ; what the code used up stays used up only then. |
| `SecondFactor.AuthService.RemoveSecondFactor` | backend/internal/auth/secondfactor.go:264-279 | A code proves the removal, and the factor, the recovery codes and the waiting challenge go together; every session of the person's but the one to keep is ended, and no other. |
| `SecondFactor.AuthService.DropSecondFactor` | backend/internal/auth/secondfactor.go:525-536 | The person is in none of the three tables afterwards, everybody else's rows are as they were, and no session changes. |
| `SecondFactor.DroppedFactorTakesNoCode` | backend/internal/auth/secondfactor.go:523-536 | Once a factor is dropped, no code of its owner's is taken and a sign-in that waited on one is not finished. |
| `SecondFactor.AuthService.IssueChallenge` | backend/internal/auth/secondfactor.go:335-353 | The person holds the new token with no attempts used and five minutes to run, the token of the sign-in before finds nobody, and everybody else's rows are as they were. |
| `SecondFactor.EarlierChallengeIsVoid` | backend/internal/auth/secondfactor.go:333-375 | Once a newer sign-in has its challenge, the token of the one before finishes nothing, whatever code comes with it. |
| `SecondFactor.AuthService.Login` | backend/internal/auth/login.go:17-91 | The right password of an active account opens a session only when no factor is in use, and otherwise only issues a challenge; every refusal changes nothing. |
| `SecondFactor.SignedInIs` | backend/internal/auth/login.go:17-91 | When each answer is given: wrong credentials, an inactive account, a challenge of five minutes with no tries used for a factor in use, a session for none, or a refused account. |
| `SecondFactor.AuthService.CompleteLogin` | backend/internal/auth/secondfactor.go:357-431 | A session opens only for the holder of the token and a code that proves them, typed in time; a wrong code is counted and the fifth ends the challenge, a factor gone ends it too, and a refused account undoes all of it, the code's spending included. |
| `SecondFactor.CompleteIs` | backend/internal/auth/secondfactor.go:357-431 | Every outcome for a token that somebody holds, by what the tables hold: a session exactly for a code that proves them before the challenge runs out, with an active account that is not refused; a miss for one that does not, with the count it leaves; and each refusal. |
| `SecondFactor.StrangeToken` | backend/internal/auth/secondfactor.go:357-375 | A token that nobody holds finishes nothing. |
| `SignInRuns.StepKeepsUser` | backend/internal/auth/secondfactor.go:199-279 | Every transaction by anybody keeps, for each person, that the steps taken go up to the one kept and that the recovery codes taken differ and are marked used. |
| `SignInRuns.AuthenticatorCodesAreSpentOnce` | backend/internal/auth/secondfactor.go:441-493 | In every run, one enrolment's accepted steps strictly increase within a step of the clock, so steps p to q of the clock take at most q - p + 3 codes (section 5.2 of RFC 6238). |
| `SignInRuns.RecoveryCodesAreSpentOnce` | backend/internal/auth/secondfactor.go:441-521 | In every run, no recovery code is accepted twice between replacements. |
| `SignInRuns.TakenCodesAreShown` | backend/internal/auth/secondfactor.go:199-493 | In every run, each code the journal says was taken had been given in one of the transactions and was right when it was: the app shows it for the secret stored then at the step noted, within one of the clock's, or it is a recovery code of that person's not used before. |
| `SignInRuns.ChallengesAreBounded` | backend/internal/auth/secondfactor.go:335-431 | In every run, a challenge takes at most five wrong codes and opens at most one session; a stored one has taken fewer than five, as many as it says, and opened none. |
| `SignInRuns.StepKeepsSessions` | backend/internal/auth/secondfactor.go:357-431 | Every transaction keeps that each session there is was opened by a code proved just then by its owner, or by a password of somebody found without a factor. |
| `SignInRuns.NoSessionPastAFactor` | backend/internal/auth/login.go:26-91 | In every run, a sign-in that read a factor in use with the password never opens a session by the password alone. |
| `SignInRuns.RemovalSignsOutElsewhere` | backend/internal/auth/secondfactor.go:262-279 | After every run, a live session ends exactly when its owner removes the factor with a taken code from another session, and a session just opened is live. |
| `Portal.PortalService.IssuePortalCode` | backend/internal/auth/portal.go:150-198 | Refused for an untrusted address, and within the cooldown of the last code, changing nothing; otherwise the row afterwards, field by field: ten minutes to run, no tries used, the hour's count and start as they were unless that hour is over; and of the others exactly those whose end is at most a day ago are left. |
| `Portal.PortalService.RedeemPortalCode` | backend/internal/auth/portal.go:237-330 | Let in exactly for the right code of a row that has not run out, has fewer than five wrong guesses and is not held by ten in its hour, with an account that is not refused; a refused one undoes the spending; a wrong code adds one to both counts; anything else changes nothing. |
| `Portal.CodesAreBounded` | backend/internal/auth/portal.go:150-330 | In every run, a code takes at most five wrong guesses and opens at most one session, counted until the next code is sent. |
| `Portal.WindowsAreBounded` | backend/internal/auth/portal.go:150-330 | In every run with a clock that does not go back, and counting since the address last got in: the kept count is the wrong guesses of its window, and at most ten fall while the window is younger than an hour, however many codes are asked for. |
| `Portal.AnyHourIsBounded` | backend/internal/auth/portal.go:28-31 | Counting every wrong guess at an address that is looked at in an hour that begins anywhere: at most thirty while nobody gets in, and at most nine more for each time somebody does. |
| `Portal.HourBoundIsExact` | backend/internal/auth/portal.go:28-31 | Over all timely runs and all hours with at most so many entries, up to 54, the wrong guesses keep to a bound if and only if 30 + 9 for each entry is within it. |
| `Portal.BoundIsReached` | backend/internal/auth/portal.go:28-31 | For each of up to 54 entries, a run that reaches the bound: thirty with none, and nine more with each. |
| `Portal.NoNumberBoundsAnHour` | backend/internal/auth/portal.go:270-285 | For every number there is a run with four times as many wrong guesses in one hour: getting in takes the row, with its counts and the wait between codes. |
| `Schedules.Due` | backend/internal/automation/model.go:326-348 | A daily or weekly schedule is due exactly when the clock reads its time, on its weekday, at some moment in (last, now]; an hourly one when enough hours passed; the search back over weekdays ends. |
| `Schedules.MomentIs` | backend/internal/automation/model.go:326-348 | Which instants are moments: those so long after their day's midnight as the time of day says and, for a weekly rule, so many days after a Sunday as its weekday, Sundays counted from 4 January 1970. |
| `Schedules.TickRules` | backend/internal/automation/runner.go:658-706 | A tick hands over exactly the rules that are due, in order, and counts exactly those of them the runner could take. |
| `Schedules.DueRulesAre` | backend/internal/automation/runner.go:658-706 | Each rule is judged by itself and the due ones keep their order. |
| `Schedules.HoursAreKept` | backend/internal/automation/model.go:327-329 | Over any run of ticks, a rule for every so many hours fires at least that long after the run before it, at the first tick that comes so late, and none such is passed by. |
| `Schedules.EachFiringIsItsOwn` | backend/internal/automation/runner.go:656-706 | Over any run of ticks of a daily or weekly rule, every firing answers a moment and no moment is answered twice. |
| `Schedules.EveryMomentIsAccountedFor` | backend/internal/automation/runner.go:656-706 | Every moment since a daily or weekly rule was made is answered by a firing or was passed over by one; none is passed over when a run is recorded at the time its tick looked. |
| `Schedules.AnsweredUnlessPassedOver` | backend/internal/automation/runner.go:656-706 | A moment of a daily or weekly rule is answered exactly when no firing passed over it between looking at the clock and recording its run. |
| `Schedules.PassedOverIsLost` | backend/internal/automation/runner.go:656-706 | What a firing passes over is answered by no firing, ever. |
| `Schedules.NineIsMissed` | backend/internal/automation/runner.go:656-706 | Such a run: a rule for nine each day, looked at a tick before nine with its run recorded a tick after, misses that nine. |
| `Runner.Automation.Run` | backend/internal/automation/runner.go:100-239 | One rule against one event: claimed once, guarded against its own echoes, capped, tested, acted on and recorded, each as `RunIs` says; a storm's further capped row goes as if never claimed, and a count that cannot be made leaves the run claimed. |
| `Runner.RunIs` | backend/internal/automation/runner.go:100-239 | A run acts exactly when it is the first for its rule and event, is not the automation's own doing, finds fewer than the cap of runs that acted in the hour before its count, and its field and tests say yes; its row says how that went or, case by case, what stopped it, and no other row changes. |
| `Runner.Automation.Handle` | backend/internal/automation/runner.go:48-97 | New rows and actions are only those of rules the event names, or of enabled rules of its kind that watch its issue's project or every project, when the issue did not come from a file; and every such rule is run: it has a row afterwards, or was capped when that had been told within the hour. |
| `Runner.SelectedInOrder` | backend/internal/automation/runner.go:74-88 | The rules an event starts keep the order the rules are in, and each is taken by what it is itself. |
| `Runner.HandlesOnlyItsOwn` | backend/internal/automation/runner.go:45-97 | Handling an event changes no row there was and adds rows only for it and its rules; handling it again, with its rules recorded, does nothing. |
| `Runner.Automation.FieldChanged` | backend/internal/automation/runner.go:170-180 | A narrowed update trigger asks whether some change names its field, in any case of ASCII letters. |
| `Runner.ActsAtMostOnce` | backend/internal/automation/runner.go:100-130 | However events are delivered again and in whatever order, a rule acts on an event at most once. |
| `Runner.CapHoldsInAnyHour` | backend/internal/automation/runner.go:145-169 | A rule acts at most its cap of times in any stretch of an hour less the longest gap between a claim and its count; in any hour at all without a gap. |
| `Runner.CapHoldsExactly` | backend/internal/automation/runner.go:145-169 | For every rule, gap and cap: over all deliveries the cap is kept in every stretch of a length if and only if the length is at most an hour less the gap. |
| `Runner.CapMissesAcrossAGap` | backend/internal/automation/runner.go:145-169 | For every cap and gap, deliveries in which a rule acts once more than its cap in a stretch one second longer. |
| `Runner.CapIsToldOnceAnHour` | backend/internal/automation/runner.go:154-169 | However a storm is delivered, as long as the question whether the cap was told is answered, the rows left to say so are an hour, less the gap, apart. |
| `Attachments.Service.Upload` | backend/internal/attachment/service.go:151-223 | A file too large or empty touches nothing; otherwise the bytes are stored exactly when the store kept them, told or untold, and there is a row exactly when they were and the commit landed; each refusal has its condition. |
| `Attachments.Service.Delete` | backend/internal/attachment/service.go:259-279 | The row and its tombstone change places in one transaction, the object goes after the commit, and the tombstone with it only when the store said so; when the commit landed, told or untold, the object has a tombstone for as long as it is there. |
| `Attachments.Service.Reap` | backend/internal/attachment/service.go:283-292 | The tombstone goes only after the store said the object did; success is reported only when both did. |
| `Attachments.Service.Once` | backend/internal/attachment/reaper.go:49-78 | Of the oldest two hundred, exactly the tombstones whose object and row went are gone, and the others are in the order they were; exactly the objects the store removed are gone; those reported removed are counted; with no failure the whole batch goes. |
| `Attachments.RemainingKept` | backend/internal/attachment/reaper.go:49-78 | The tombstones left after a batch are those not cleared, each before and after the same others as before. |
| `Attachments.NoBrokenLinks` | backend/internal/attachment/service.go:145-150 | With a crash or a store failure after any step, every committed row has its object, every object is a row's, a tombstone's, an upload's under way or an orphan's, and nobody is out to remove a live row's. |
| `Attachments.RemovalSparesRows` | backend/internal/attachment/service.go:257-292 | No removal, told or untold, takes the object of a live row. |
| `Attachments.TombstoneOutlivesObject` | backend/internal/attachment/service.go:66-68 | An object whose row is gone, however it went, keeps its tombstone for as long as it is stored. |
| `Attachments.NothingLeftBehind` | backend/internal/attachment/reaper.go:47-78 | With every tombstone reaped, the store holds only rows' objects, uploads under way and orphans of uploads that never committed. |
| `IcsText.Unfold` | backend/internal/availability/ics.go:184-208 | Unreadable, too large and badly encoded files are refused in the code's order; otherwise the physical lines are joined, blank ones dropped, and the mark, the carriage returns and the folds gone. |
| `IcsText.ContentLine` | backend/internal/availability/ics.go:211-223 | A line is split at its first colon outside quotes, its name from its parameters at the first semicolon; without a colon it is all name. |
| `IcsText.UnescapeText` | backend/internal/availability/ics.go:227-243 | The loop undoes escapes as the recursive definition does, a trailing backslash kept, and trims. |
| `IcsPrinted.PiecesUnfold` | backend/internal/availability/ics.go:182-208 | Unfolding gives back every line, wherever each was folded after a first piece that is not blank (section 3.1 of RFC 5545). |
| `IcsPrinted.TextUnfolds` | backend/internal/availability/ics.go:184-208 | And so from the file's text, whether lines end with a carriage return or not and whether or not a mark comes first. |
| `IcsPrinted.ContentOfProperty` | backend/internal/availability/ics.go:211-223 | Any name, parameters with their colons in quotes, and value are read back from the line they are written as. |
| `IcsPrinted.UnescapedEscaped` | backend/internal/availability/ics.go:225-243 | A text escaped as section 3.3.11 of RFC 5545 has it is read back, newlines as spaces. |
| `IcsPrinted.InsideSkips` | backend/internal/availability/ics.go:51-74 | Inside a component of an event, however deeply nested, nothing is taken for the event's. |
| `IcsPrinted.FileScans` | backend/internal/availability/ics.go:52-92 | Reading a whole file's lines gives, event by event in order, what each one's own properties say. |
| `IcsImport.ScanStep` | backend/internal/availability/ics.go:56-91 | One line begins, ends, nests or says something of an event, in the order the cases are tried. |
| `IcsImport.Days` | backend/internal/availability/ics.go:119-150 | The loop lists the days of the event's range, in order, or gives the refusal its range has; both are as `IcsRefusals.RangeRefuses` says. |
| `IcsImport.Ordered` | backend/internal/availability/ics.go:108-114 | The list holds each of the map's holidays once, in order of their days' text, whatever order the map gave them in. |
| `IcsImport.ImportICS` | backend/internal/availability/ics.go:42-115 | The loops answer with the refusal, or a list of the holidays, that reading the file as a function gives; which files are refused, and for what, is in the rows of `IcsRefusals`. |
| `IcsHolidays.DateRead` | backend/internal/availability/ics.go:154-164 | A day written as a DATE is read back, with any parameters that do not make it a time of day. |
| `IcsHolidays.DurationRead` | backend/internal/availability/ics.go:168-180 | A length of any number of days that fits 64 bits is read back. |
| `IcsValues.DateIs` | backend/internal/availability/ics.go:154-164 | A value is a day exactly when it is one written as eight digits, white space around it aside, holding no T and with no parameter that makes it a time of day; each refusal has its condition. |
| `IcsValues.LengthsAre` | backend/internal/availability/ics.go:168-180 | Whatever is read as a length is an optional sign, a P, and a count of weeks, of days or of both. |
| `IcsValues.WeeksRead` | backend/internal/availability/ics.go:168-180 | Weeks count seven days, with or without days beside them. |
| `IcsValues.LongLengths` | backend/internal/availability/ics.go:177-179 | Counts past 64 bits become the largest that fits, and their sum wraps around. |
| `IcsValues.LengthsRefused` | backend/internal/availability/ics.go:168-176 | What begins as a length and holds a T is part of a day; what does not begin as one is no length. |
| `IcsValues.NameIs` | backend/internal/availability/ics.go:246-255 | A holiday is named by its summary, trimmed; by one word when that is empty; by at most its first hundred characters, less the white space they end in. |
| `IcsValues.ColonIs` | backend/internal/availability/ics.go:211-223 | The colon a line is split at is the first one outside quotes, and a line without one is all name. |
| `IcsValues.BlankIsDropped` | backend/internal/availability/ics.go:198-206 | A line of white space alone is dropped unless it carries on the line before. |
| `IcsHolidays.CoversIs` | backend/internal/availability/ics.go:119-150 | Which days an event covers: its start alone, those before the end, or as many as it lasts. |
| `IcsHolidays.LastCoveringIs` | backend/internal/availability/ics.go:95-103 | The event a day is named for is the last in the file that covers it. |
| `IcsHolidays.ItemsTell` | backend/internal/availability/ics.go:76-90 | Read in any order, any number of times and among anything that says nothing of days or name, an event's own properties gather to what they say. |
| `IcsHolidays.ShownTells` | backend/internal/availability/ics.go:56-92 | Items that show an event are read as its start, end or length, summary if it has one, and cancellation. |
| `IcsHolidays.PutAll` | backend/internal/availability/ics.go:94-107 | Taking events one by one keeps the map at exactly the days off so far, each named by the last event covering it, and is refused exactly when an event or the days together exceed a thousand. |
| `IcsHolidays.PrintedFileImports` | backend/internal/availability/ics.go:42-150 | Whatever way a file of events is printed, its lines folded, each event's properties in any order, and other components nested among them, it is imported exactly within the limits, and the answer holds exactly the days from DTSTART up to DTEND (section 3.6.1 of RFC 5545) of the events not cancelled, once each, named by the last event covering the day. |
| `IcsRefusals.AppliedSays` | backend/internal/availability/ics.go:55-92 | An event whose properties can be read repeats, is cancelled, starts, ends, lasts and is named as its own properties say, the last of a kind standing; what its components say counts for nothing. |
| `IcsRefusals.RangeRefuses` | backend/internal/availability/ics.go:119-150 | An event is refused for repeating, for having no start, for ending before it starts and for covering over a thousand days, each exactly when it is not cancelled and the reasons before do not hold; and what days it covers otherwise. |
| `IcsRefusals.RepeatingIsRefused` | backend/internal/availability/ics.go:123-124 | However a file is printed: when an event that is not cancelled has a recurrence rule or recurrence dates of its own, nothing before it is refused and the properties after it can be read, the file is refused for repeating. |
| `IcsRefusals.StartlessIsRefused` | backend/internal/availability/ics.go:125-126 | So is one with an event that has no start of its own, for that. |
| `IcsRefusals.BackwardIsRefused` | backend/internal/availability/ics.go:131-135 | And one with an event whose last end is before its last start. |
| `IcsRefusals.TimeOfDayIsRefused` | backend/internal/availability/ics.go:154-158 | A start or an end that is a time of day refuses the file, with its value, before the rest of its event or of the file is looked at, cancelled or not. |
| `IcsRefusals.EventlessIsRefused` | backend/internal/availability/ics.go:92-94 | A file of lines outside any event is refused for having none. |
| `IcsRefusals.OtherBodies` | backend/internal/availability/ics.go:184-196 | Files that break off, are over 1048576 bytes or are not UTF-8, and text that does not begin a calendar, are refused before anything in them is looked at. |
| `IcsRefusals.NestedChangesNothing` | backend/internal/availability/ics.go:63-74 | A file with a component added inside an event, whatever it says, comes to the same, refusal or holidays. |
| `IcsRefusals.HeldIsClear` | backend/internal/availability/ics.go:94-107 | Entries that hold printed events within the limits are among those before which nothing is refused. |
| `IcsRefusals.YearlyIsRefused` | backend/internal/availability/ics.go:123-124 | Such a file, for every day: one event on it with a yearly rule is refused, not imported as one year's day. |
| `IcsPlain.PlainPrints` | backend/internal/availability/ics.go:42-92 | Every list of events whose summaries hold no carriage return has such a file: its plain one, unfolded. |
| `IcsPlain.PlainRoundTrip` | backend/internal/availability/ics.go:42-115 | Writing events out plainly and importing the file gives back exactly their holidays, within the limits. |
| `IcsHolidays.ExactlyOne` | backend/internal/availability/ics.go:108-114 | Those holidays in that order are one list and no other. |
| `IcsHolidays.InOrderUnlessPast9999` | backend/internal/availability/ics.go:112-114 | The list is in order of time exactly when no event that is not cancelled reaches past the year 9999; and only an event given by its length does. |
| `IcsPlain.LateFile` | backend/internal/availability/ics.go:112-114 | A file the import takes and lists out of order: two days from the last of 9999, the second of which is listed first. |

## Left out

- The zone database and daylight saving: a zone is a fixed offset, a day is 24 hours, in the calendar and in the schedules.
- SQL, HTTP, Redis, S3 and mail: tables are maps, a transaction is one step that commits whole or changes nothing, and the store is a set of keys whose operations may fail, with or without effect.
- HMAC, SHA, argon2, sealing and random tokens are uninterpreted functions and values handed in; a sign-in token that was issued before is not issued again, and uploads have fresh keys.
- Reading and writing a calendar as JSON, naming weekdays in refusals, and choosing which desk's calendar applies.
- The rotation counter is unbounded: its wrap-around, and negating the least integer, are not modelled. The replicas' flags are read at one moment for one read.
- Replicas that are promoted, and logs that are reset: replicas stay standbys and replay does not go back. Positions given to pins are those of a log within 64 bits.
- BusinessHours.Calendar.WorkingDuration: instants are unbounded integers of nanoseconds, so the saturation of Go's durations after 292 years is not modelled.
- BusinessHours.Calendar.MergedSpans: it asks that saved spans end after they start, which reading a calendar back has refused otherwise.
- ReadYourWrites.Primary.InTx: what the transaction does is a number of changes; panics and cancelled contexts are failed work.
- SecondFactor.AuthService.ReplaceRecoveryCodes: the new rows written before two are found alike are not modelled; the transaction around it rolls back.
- SecondFactor.AuthService.RemoveSecondFactor: the audit records, of this and of every other transaction, are not modelled.
- SecondFactor.AuthService.CompleteLogin: the clock is read once; the code reads it once for the challenge and once for the code.
- SecondFactor.AuthService.Login: rehashing an old password and the equal cost of its refusals are not modelled.
- Administrators requiring a second factor of everybody, and single sign-on, which open no password session.
- Portal.PortalService.RedeemPortalCode: making the account and the customer is one verdict, handed in; the clock is read once.
- Sessions end here only when a factor is removed: expiry, signing out and changes of password are not modelled.
- Runner.Automation.Run: the rule's actions are one effect, and its query or conditions one verdict; a worker that stops between acting and recording, or whose record is not written, is outside the cap.
- Runner.Automation.Handle: an event whose payload cannot be read, and one whose rules cannot be, are both taken as starting nothing; a claim that fails is a delivery that was not made.
- Runner.Automation.FieldChanged: of letters beyond ASCII only the long s and the Kelvin sign are folded, to s and k; the code folds every letter Unicode does.
- Runner.CapHoldsInAnyHour: runs are handled one at a time.
- Schedules.EveryMomentIsAccountedFor: ticks are the only source of the rule's runs and their rows are kept.
- Attachments.Service.Upload: reading the issue, and recording the change and the event, which are one verdict handed in.
- Cleaning file names, guessing content types, and listing and opening attachments.
- IcsText.Unfold: text is a sequence of characters, so a file folded inside the bytes of one character is not taken apart; one that is not UTF-8 is known by its size only.
- IcsText.ContentLine: upper case is ASCII's, with the two characters beyond it that become an ASCII letter; other letters are left as they are, which no name that is looked for can tell.
- IcsPlain.PlainPrints: a carriage return inside a summary is not written, since the end of a physical line takes it off.
- IcsHolidays.PrintedFileImports: events with a repetition rule or a time of day are not among those printed, and are in IcsRefusals; a DURATION is printed in days, and beside no DTEND.
- IcsImport.Days: a DURATION so long that Go's day arithmetic overflows is refused here for its length.
- Holiday calendars as stored, rosters, the CSV imports, plain reading and writing of records, and the web client.
