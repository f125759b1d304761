# Instance scheduler: a verified model

This project models the scheduling engine of the instance scheduler in Dafny and proves what it computes: which
minutes a schedule keeps instances up, what is decided and stored for each instance over whole runs, and what the
stores, the batch retry and the region registration protocol keep true. `dafny verify dfyconfig.toml` checks all of it.

| files | what they model |
|---|---|
| `Calendar`, `Schedules` | dates, running periods, and the desired state of a schedule with the one-minute bridge |
| `CronExpression`, `CronEvaluation`, `CronParser`, `CronReading`, `CronAsg` | the recurrence language: syntax and validators, meaning, parser and what it reads, and printer for Auto Scaling |
| `PeriodDefinitions`, `PeriodMeaning`, `PeriodJourney`, `ScheduleDefinitions` | the stored definitions, the minutes they ask for, and their journey through a scheduling request |
| `MaintenanceWindow`, `RdsMaintenanceWindow` | the two compilers from maintenance windows to schedules |
| `ScheduleUsage` | the usage report |
| `SchedulingDecision` | the decision, what one cycle stores, and runs of cycles |
| `Batch`, `Ec2Batches`, `Ec2Service`, `RdsService` | bisecting retry and the two scheduling passes |
| `MaintenanceWindowContext` | reconciliation of SSM windows with the window table |
| `RegionRegistration`, `RegionRegistrationHandlers` | the asynchronous registration protocol and its handlers |
| `ResourceRegistry`, `WriteThroughCache`, `CliCommands` | the registry and its grouping, the caches, the configuration commands |

Conventions. Times are whole minutes since 0001-01-01 00:00 of a fixed offset. `Option` and `Result` stand for values that
may be missing and for exceptions; an evaluation that raises or never ends is `None`. A function specifies what a method
does in place; the lemmas are about the functions, so they hold of the methods. Calls to a cloud service are arbitrary
functions of the number of the call, so they may answer differently every time.

## Where the code does not do what it seems to

Each of these is a theorem of this project.

- The pattern for steps keeps only the last digit of the interval, and the validators do not look at intervals: `1/10` is
  accepted with interval zero, and evaluating it never ends (`CronAsg.PrintThenParseExactly`,
  `CronAsg.StepsOfTenAreNeverEvaluated`, `CronEvaluation.LoopEndsExactly`).
- A window that opens the day before can lose its last minute before a closing midnight
  (`MaintenanceWindow.WindowItselfIsCovered`), and a pass over the windows in that minute forgets the execution under way
  (`MaintenanceWindowContext.LostMinuteForgets`).
- A compiled window recurs every year (`MaintenanceWindow.ScheduleRunsInAnyYear`), and one over the last midnight of
  28 February falls apart in years that differ from its own in being leap years (`MaintenanceWindow.MidnightInAnyYear`).
- An RDS window with whole days in between is stopped on those days (`RdsMaintenanceWindow.MiddleDaysAreMissed`). Because of
  the ten minutes' margin this happens to a window of less than a day (`RdsMaintenanceWindow.ShortWindowLosesTuesday`).
- The mark that keeps a retained instance up is lost when a cycle in between asks for any state
  (`SchedulingDecision.RetainRunningIsHonoured`).
- A parameter left over from an earlier request keeps a request for other regions from completing, unless the poll accepts
  it (`RegionRegistration.PollCompletesExactly`, `RegionRegistration.RefusedLeftoverBlocks`).
- The order in which a set of month days is iterated can decide whether a period gives an answer at all
  (`PeriodJourney.AnswersExactlyWhenNothingRaises`, `PeriodJourney.OrderDecidesWhetherItAnswers`).
- A search that is still handing on results when one of them is overwritten puts the older one back into the cache
  (`WriteThroughCache.InLineExactly`, `WriteThroughCache.StaleResultIsRemembered`).
- A period whose only times are empty strings is accepted but cannot be rebuilt from its own parameters
  (`PeriodDefinitions.RebuiltExactlyWhenAFieldIsSet`), and a period reference with a comma becomes two
  (`ScheduleDefinitions.JourneyExactly`).

## Model

| member | source | states |
|---|---|---|
| `Calendar.DayIndexOfDateOf` | source/app/instance_scheduler/cron/cron_to_running_period.py:210-218 | stepping through the proleptic Gregorian calendar day by day, leap rule included, and adding up years and months give the same day number |
| `Calendar.DateOfDayIndex` | source/app/instance_scheduler/cron/cron_to_running_period.py:210-218 | the two are inverses, so date arithmetic across months and years is exact |
| `Calendar.DaysBeforeYearClosed` | source/app/instance_scheduler/cron/cron_to_running_period.py:210-218 | the days before a year have the Gregorian closed form, one leap day in four years but only in every fourth century year |
| `Calendar.UnixEpoch` | source/app/instance_scheduler/cron/cron_to_running_period.py:210-218 | the count and its weekdays agree with the Unix epoch, a Thursday |
| `Calendar.SameMonthDayWithinAYear` | source/app/instance_scheduler/model/maint_win.py:195-262 | a month and day without a year names one day among any 365 consecutive days, the reason why the compiled recurrences are unambiguous within a year |
| `CronEvaluation.RangeToDiscreteValues` | source/app/instance_scheduler/cron/cron_to_running_period.py:236-256 | the counting loop with its single wrap ends for every positive interval and lists exactly the set `RangeValues`; a start past the domain gives the empty set |
| `CronEvaluation.RangeIsCyclicProgression` | source/app/instance_scheduler/cron/cron_to_running_period.py:236-256 | inside its domain a range holds exactly on the values whose cyclic distance from the start is a multiple of the interval and at most the cyclic distance to the end |
| `CronEvaluation.RangePastDomainIsClipped` | source/app/instance_scheduler/cron/cron_to_running_period.py:236-256 | a range that ends past its domain is the arithmetic progression cut off at the end of the domain |
| `CronEvaluation.LoopEndsExactly` | source/app/instance_scheduler/cron/cron_to_running_period.py:236-256 | the loop ends if and only if the interval is positive or the start lies past the domain; nothing in the validator keeps a zero interval out |
| `CronEvaluation.MonthDayRangesNeverWrap` | source/app/instance_scheduler/cron/cron_to_running_period.py:100-124 | a month-day range that the validator accepts never goes around, in a month of any length, and holds on the days from its start to its end that are on the interval |
| `CronEvaluation.MonthRangesGoAround` | source/app/instance_scheduler/cron/cron_to_running_period.py:71-97 | a validated month range holds exactly on the months that are a multiple of the interval after its start, counted around the year, up to its end or to December |
| `CronEvaluation.WeekdayRangesGoAround` | source/app/instance_scheduler/cron/cron_to_running_period.py:127-154 | likewise for weekdays, counted around the week, up to the end or to Sunday |
| `CronEvaluation.FirstAlternativeDecides` | source/app/instance_scheduler/cron/cron_to_running_period.py:84-87 | the first alternative of a union that does not say no decides, by holding or by raising; a union is false if and only if every alternative is |
| `CronEvaluation.UnionHoldsWhenOneDoes` | source/app/instance_scheduler/cron/cron_to_running_period.py:84-87 | a union none of whose alternatives raises holds if and only if one of them does |
| `CronEvaluation.LastMeansLast` | source/app/instance_scheduler/cron/cron_to_running_period.py:88-154 | "L" holds exactly on the days whose next day is in another month, on the days before a Monday, and in December |
| `CronEvaluation.NearestWeekdayIsClosest` | source/app/instance_scheduler/cron/cron_to_running_period.py:157-177 | the nearest weekday is a Monday-to-Friday day of the same month, and every other such day is strictly farther away |
| `CronEvaluation.NearestWeekdayMeansClosest` | source/app/instance_scheduler/cron/cron_to_running_period.py:118-177 | on every day, a nearest-weekday expression holds exactly on the working day of the month closer to the named day than every other one, and raises exactly in the months without the named day |
| `CronEvaluation.NthWeekdayIsNth` | source/app/instance_scheduler/cron/cron_to_running_period.py:196-218 | the nth weekday resolves to a day if and only if that day has the weekday and n-1 whole weeks of the month before it |
| `CronEvaluation.NthWeekdayMissing` | source/app/instance_scheduler/cron/cron_to_running_period.py:196-218 | the resolver says -1 if and only if the month has no nth such weekday, which never happens for n up to 4 |
| `CronEvaluation.NthWeekdayMeansNth` | source/app/instance_scheduler/cron/cron_to_running_period.py:127-154 | on every day, an nth-weekday expression holds exactly on the nth such weekday of its month |
| `CronEvaluation.ResolveLastWeekday` | source/app/instance_scheduler/cron/cron_to_running_period.py:180-193 | the backward scan returns the greatest day of the month with the weekday; it always finds one for a weekday of 0 to 6 and raises for any other |
| `CronEvaluation.LastWeekdayMeansLast` | source/app/instance_scheduler/cron/cron_to_running_period.py:127-154 | on every day, a last-weekday expression holds exactly when the weekday matches and a week later is another month |
| `CronEvaluation.EveryNthWeekdayOccurs` | source/app/instance_scheduler/cron/validator.py:90-122 | every weekday has a first to a fifth occurrence in some month, and these are the numbers the validator accepts |
| `CronEvaluation.ValidValuesOccur` | source/app/instance_scheduler/cron/validator.py:23-122 | the numeric values that a validator accepts are exactly those that some day of the calendar has |
| `CronEvaluation.ValidatorsAcceptExactly` | source/app/instance_scheduler/cron/validator.py:23-122 | the validators accept exactly values that occur, weekday expressions in their own field, ranges that go around in every field but the days of the month, and "L" in ranges only there |
| `CronEvaluation.ForeignExpressionsRaise` | source/app/instance_scheduler/cron/cron_to_running_period.py:90-193 | a weekday expression outside its own field raises on every day, and so does a weekday past Sunday counted back |
| `CronEvaluation.ValidRaisesExactly` | source/app/instance_scheduler/cron/cron_to_running_period.py:71-154 | a validated expression that is no union raises or never ends if and only if it has a zero interval and a start that the month has, or names the weekday nearest to a day that the month does not have |
| `CronParser.IndexOfName` | source/app/instance_scheduler/cron/parser.py:117-150 | a name is looked up by its full form or its first three letters, and the first match is taken |
| `CronParser.StepSlash` | source/app/instance_scheduler/cron/parser.py:228-239 | the slash of a step is the last one with something before it and a digit somewhere after it |
| `CronParser.ParseParts` | source/app/instance_scheduler/cron/parser.py:87-93 | the comma-separated parts are parsed one by one and one failure fails the whole |
| `CronParser.MonthNamesAreDistinct` | source/app/instance_scheduler/cron/parser.py:117-133 | no abbreviation is the name or abbreviation of another month, so reading names is unambiguous |
| `CronParser.WeekdayNamesAreDistinct` | source/app/instance_scheduler/cron/parser.py:137-150 | likewise for weekdays |
| `CronReading.SpacesMakeNoDifference` | source/app/instance_scheduler/cron/parser.py:87-93 | a part reads the same with spaces around it |
| `CronReading.CapitalsMakeNoDifference` | source/app/instance_scheduler/cron/parser.py:87-93 | a part reads the same in any mix of capitals and small letters |
| `CronReading.NamesAreRead` | source/app/instance_scheduler/cron/parser.py:117-150 | every month and weekday is read by its full name as its number |
| `CronReading.WeekdaysOfMonthRead` | source/app/instance_scheduler/cron/parser.py:272-291 | a weekday by name or number is read as its nth occurrence with a hash sign and a number, and as its last one with an L |
| `CronReading.NearestWeekdayReads` | source/app/instance_scheduler/cron/parser.py:294-298 | a day with a W is read as the weekday nearest to it |
| `CronReading.EveryValueReads` | source/app/instance_scheduler/cron/parser.py:72-229 | a star, a question mark and a missing set are read as every value |
| `CronReading.SpacesAroundTheDash` | source/app/instance_scheduler/cron/parser.py:256-270 | spaces around the dash of a range make no difference |
| `CronAsg.NumericReadsBack` | source/app/instance_scheduler/cron/asg.py:30-31 | every printed month, day or weekday value parses back to the same value |
| `CronAsg.StepReadsBack` | source/app/instance_scheduler/cron/parser.py:231-250 | a step is parsed as its range, else as its start, with the last digit of the printed interval |
| `CronAsg.LeafReadsBack` | source/app/instance_scheduler/cron/asg.py:25-124 | every printable expression other than a union parses back to itself except that only the last digit of its interval is kept |
| `CronAsg.ParsingWhatWasPrinted` | source/app/instance_scheduler/cron/asg.py:25-124 | parsing any printed expression gives its leaves in order with the last digits of their intervals, and fails if and only if some union in it is empty |
| `CronAsg.PrintThenParseExactly` | source/app/instance_scheduler/cron/asg.py:25-124 | printing, parsing and validating gives the same expression up to flattening of unions if and only if no union is empty and no interval is ten or more |
| `CronAsg.FlatMeansTheSame` | source/app/instance_scheduler/cron/cron_to_running_period.py:71-154 | flattening unions changes neither the answer on any day nor whether evaluation raises |
| `CronAsg.PrintThenParseKeepsTheMeaning` | source/app/instance_scheduler/cron/asg.py:25-124 | under that condition the printed and parsed field holds on exactly the same days |
| `CronAsg.StepsOfTenAreNeverEvaluated` | source/app/instance_scheduler/cron/parser.py:228-239 | an interval that is a multiple of ten is read back as zero, and then evaluation never ends on any day whose domain contains the start |
| `CronReading.PrintedExactlyWhenLeavesAre` | source/app/instance_scheduler/cron/asg.py:25-124 | a valid expression is printed if and only if each of its leaves is: no nth, last or nearest weekday and, but for months, no bare start with interval one |
| `CronReading.PrintedByName` | source/app/instance_scheduler/cron/asg.py:21-86 | months and weekdays are printed by three letters of their names, days of the month by number |
| `CronReading.SlashForSteps` | source/app/instance_scheduler/cron/asg.py:25-124 | a range is printed with a slash if and only if it has a step or goes on to the end |
| `Schedules.NewPeriod` | source/app/instance_scheduler/configuration/running_period.py:28-38 | a period is accepted if and only if its name is not empty and its begin is not after its end |
| `Schedules.DayOfAPeriod` | source/app/instance_scheduler/configuration/running_period.py:44-111 | on a day of its recurrence a period with only a begin time is running from then on and never stopped, one with only an end time is stopped from then on and never running, one with both runs in between and is stopped otherwise, one with neither runs all day |
| `Schedules.OtherDaysAreStopped` | source/app/instance_scheduler/configuration/running_period.py:44-57 | on the other days a period is stopped |
| `Schedules.OverrideDecides` | source/app/instance_scheduler/configuration/instance_schedule.py:181-191 | an override decides at every time, whatever the periods and even if their evaluation raises |
| `Schedules.EmptyOverrideIsNone` | source/app/instance_scheduler/configuration/instance_schedule.py:181-191 | an empty override is none |
| `Schedules.BridgedVerdictIsTheNext` | source/app/instance_scheduler/configuration/instance_schedule.py:137-166 | a minute that runs only as a bridge lies between two running minutes and has the verdict of the second |
| `Schedules.OtherVerdictsAreBare` | source/app/instance_scheduler/configuration/instance_schedule.py:137-226 | a verdict that is not running names neither period nor type and is that of the instant |
| `Schedules.GetNearestRunningPeriod` | source/app/instance_scheduler/configuration/instance_schedule.py:242-262 | the loop returns a member that no other member begins after, a missing begin time counting as earliest; an empty list raises |
| `Schedules.RunningExactlyWhenAPeriodIs` | source/app/instance_scheduler/configuration/instance_schedule.py:168-226 | without an override a schedule is running if and only if some period is, and stopped if and only if all are |
| `Schedules.VerdictNamesLatestRunningPeriod` | source/app/instance_scheduler/configuration/instance_schedule.py:168-226 | a running verdict carries the name and instance type of a running period that no other running period begins after |
| `Schedules.RunningOrBridged` | source/app/instance_scheduler/configuration/instance_schedule.py:108-166 | with two-sided and all-day periods, the schedule is running if and only if a period is, or there are several periods and some are running in both neighbouring minutes |
| `MaintenanceWindow.ScheduleRunsExactlyOnWindow` | source/app/instance_scheduler/model/maint_win.py:169-276 | for every start, duration of 1 to 24 hours and margin, and every minute within a year, the compiled schedule evaluated with the gap bridge is running exactly from the early start (or from 00:00 of the first day when a span over 24 hours ends on the next day) to the end, except minute 23:59 of the first day when the span begins there or a two-period span ends at the next midnight; compiling never fails |
| `MaintenanceWindow.IsRunningAtExactly` | source/app/instance_scheduler/model/maint_win.py:160-167 | the same for the window's own running check |
| `MaintenanceWindow.WindowItselfIsCovered` | source/app/instance_scheduler/model/maint_win.py:160-276 | during the window itself the check holds at every minute but the last one before a closing midnight of a window whose margin begins at most a day before it: if and only if |
| `MaintenanceWindow.ScheduleRunsInAnyYear` | source/app/instance_scheduler/model/maint_win.py:195-262 | at every minute of every year, leap years included, the compiled schedule is running exactly in its slots, whose days are months and days of the month, and in a single minute between two of their minutes |
| `MaintenanceWindow.MidnightInAnyYear` | source/app/instance_scheduler/model/maint_win.py:213-262 | in another year the two periods of a window over midnight join up at 23:59 of the first day unless that day is 28 February and one of the two years is a leap year and the other is not |
| `MaintenanceWindow.ScheduleRecursEveryYear` | source/app/instance_scheduler/model/maint_win.py:195-262 | in particular the compiled schedule asks for the same state at the same moment of any other year with the same neighbouring days |
| `RdsMaintenanceWindow.DaysParseToNumbers` | source/app/instance_scheduler/scheduling/rds/rds.py:366-366 | the weekday parser reads each three-letter day as its number from Monday |
| `RdsMaintenanceWindow.AdjustedStart` | source/app/instance_scheduler/scheduling/rds/rds.py:371-390 | starting ten minutes early moves to the previous weekday exactly when the start is before 00:10, Monday to Sunday included |
| `RdsMaintenanceWindow.ScheduleRunsExactlyOnWindow` | source/app/instance_scheduler/scheduling/rds/rds.py:353-442 | for every window that stops on its adjusted start day or the day after, at every UTC minute the built schedule is running exactly on the cyclic minute-of-week interval from ten minutes early to the stop, except minute 23:59 of the start day when the stop is 00:00 or the adjusted start is 23:59 |
| `RdsMaintenanceWindow.WholeWeekIsRefused` | source/app/instance_scheduler/scheduling/rds/rds.py:393-409 | building fails if and only if the window goes around the week to an earlier time of its own start day |
| `RdsMaintenanceWindow.MiddleDaysAreMissed` | source/app/instance_scheduler/scheduling/rds/rds.py:410-434 | when the stop lies two or more days after the adjusted start, the schedule is stopped at every minute of every day in between although it is inside the window |
| `RdsMaintenanceWindow.RunsOnWindowExactlyWhen` | source/app/instance_scheduler/scheduling/rds/rds.py:353-442 | the built schedule runs on the window, apart from the one missed minute, if and only if the window stops on its adjusted start day or the day after |
| `RdsMaintenanceWindow.ShortWindowLosesTuesday` | source/app/instance_scheduler/scheduling/rds/rds.py:371-434 | Tuesday 00:05 to Wednesday 00:04, a window of less than a day, is stopped during the whole of Tuesday |
| `ScheduleUsage.MakePeriod` | source/app/instance_scheduler/handler/cli/schedule_usage.py:115-130 | the sixty-second floor never binds and the hours are the seconds divided by 3600, rounded up |
| `ScheduleUsage.Timeline` | source/app/instance_scheduler/handler/cli/schedule_usage.py:53-67 | the breakpoints of a day are listed in increasing order, without repetition, and are exactly midnight and the periods' begin and end times |
| `ScheduleUsage.CalculateDay` | source/app/instance_scheduler/handler/cli/schedule_usage.py:69-108 | the sweep over the breakpoints of one day ends with the same report as a sweep over every minute of the day |
| `ScheduleUsage.ReportedDays` | source/app/instance_scheduler/handler/cli/schedule_usage.py:33-60 | the days of the report are those from the first before the last one, and the last one if it is reached at the time of day of the start |
| `ScheduleUsage.CalculateUsage` | source/app/instance_scheduler/handler/cli/schedule_usage.py:33-112 | the report has exactly the days from the first to the last, each with the report of that day, and refuses a stop before the start |
| `ScheduleUsage.StartingPeriodsDiffer` | source/app/instance_scheduler/handler/cli/schedule_usage.py:69-108 | two intervals of one day never start in a period of the same name, so the dictionary keyed by name loses none |
| `ScheduleUsage.ReportBillsExactlyTheBillableMinutes` | source/app/instance_scheduler/handler/cli/schedule_usage.py:33-112 | for every schedule and day the intervals are disjoint, lie in the day, are named after the period that began them, and cover exactly the minutes in which minute-by-minute evaluation keeps the instance up, one-minute bridges included; the billed seconds are sixty times their number |
| `ScheduleUsage.LatchedSinceRunning` | source/app/instance_scheduler/handler/cli/schedule_usage.py:69-108 | an instance is kept up at a minute if and only if some minute up to it was running and none since was stopped |
| `ScheduleUsage.BillableMinutesAreCounted` | source/app/instance_scheduler/handler/cli/schedule_usage.py:69-108 | the number of billable minutes is the size of the set of them |
| `ScheduleUsage.OnePeriodIsBilledItsTime` | source/app/instance_scheduler/handler/cli/schedule_usage.py:33-112 | on a day of its recurrence a schedule of one period is billed exactly the time from begin to end, up to midnight without an end, the whole day without times, and nothing for an end alone |
| `ScheduleUsage.ReportedHours` | source/app/instance_scheduler/handler/cli/schedule_usage.py:96-130 | the billed hours are at least the billed seconds and exceed them by less than one hour per interval |
| `SchedulingDecision.NoRepeatedRequest` | source/app/instance_scheduler/scheduling/scheduling_decision.py:80-208 | in every run of a schedule that is not enforced, within a stretch of running (or stopped) cycles no start or stop is requested after a cycle that did not fail |
| `SchedulingDecision.RequestsExactly` | source/app/instance_scheduler/scheduling/scheduling_decision.py:80-208 | in every run of a schedule that is not enforced, a cycle of a running (or stopped) stretch that looks at the instance requests the start (or stop) if and only if every earlier cycle of the stretch failed or did not look, and, at the first look, the state is neither stored already nor excused: found up or marked under retain-running, or new and to be left alone |
| `SchedulingDecision.StoredTellsWhatHappened` | source/app/instance_scheduler/scheduling/scheduling_result.py:24-181 | in every run, a cycle fails if and only if the call its request needs fails, and the entry it stores is that failure or else the state asked for; only an instance that a retain-running schedule finds up is newly marked |
| `SchedulingDecision.AnyActiveExactly` | source/app/instance_scheduler/scheduling/scheduling_decision.py:96-104 | a window is active if and only if one is running and those before it give an answer; none is if and only if all answer and none is running |
| `SchedulingDecision.FailedRequestIsRetried` | source/app/instance_scheduler/scheduling/scheduling_result.py:143-181 | a failed start or stop is requested again at the next cycle of the stretch that looks at the instance |
| `SchedulingDecision.EnforcedAlwaysRequests` | source/app/instance_scheduler/scheduling/scheduling_decision.py:113-190 | in every run of an enforced schedule, every cycle that looks at the instance requests the schedule's state whatever happened before; only a new instance to be left alone gets no stop, exactly while no earlier cycle has looked at it |
| `SchedulingDecision.RetainRunningIsHonoured` | source/app/instance_scheduler/scheduling/scheduling_decision.py:120-175 | an instance found up when a running stretch of a retain-running schedule begins gets no stop at the first stopped cycle after it, if and only if no cycle in between asked for any state, a window start or a resize |
| `SchedulingDecision.UnderWayWindowStarts` | source/app/instance_scheduler/scheduling/scheduling_decision.py:96-111 | at every minute of an SSM window that is under way but the one its schedule loses, the decision for an instance whose schedule uses it is to start, whatever the schedule asks, whatever is stored and wherever the window stands in the list; the EC2 pass resizes before it looks at windows, so there this is about instances of the preferred size |
| `SchedulingDecision.NewInstanceIsLeftAlone` | source/app/instance_scheduler/scheduling/scheduling_decision.py:105-111 | with stop_new_instances off, a new instance gets no stop in the whole stopped stretch it is found in |
| `Batch.BisectRetryResponse.Merge` | source/app/instance_scheduler/util/batch.py:33-38 | the other responses' three lists are appended to this one's, in order |
| `Batch.BisectRetry` | source/app/instance_scheduler/util/batch.py:41-87 | the recursion that merges responses in place returns the lists of the pure bisection and makes as many calls |
| `Batch.EveryInputAnsweredOnce` | source/app/instance_scheduler/util/batch.py:41-87 | for an arbitrary action, succeeded and failed inputs interleave to the inputs: each exactly once, each kind in the original order |
| `Batch.InterleaveIsPartition` | source/app/instance_scheduler/util/batch.py:41-87 | interleaving sequences partition the inputs as multisets |
| `Batch.CallsAreBounded` | source/app/instance_scheduler/util/batch.py:41-87 | no empty batch is ever sent and there are fewer than two calls per input |
| `Batch.EveryReportIsOfACall` | source/app/instance_scheduler/util/batch.py:41-87 | for an arbitrary action every reported failure is what a call with that input alone raised, every success and intermediate response what a call with that batch answered, and there are as many of them as calls |
| `Batch.BadInputsAreFound` | source/app/instance_scheduler/util/batch.py:41-87 | when the action fails exactly on batches with a bad input, exactly the bad inputs fail and the others succeed, in order, within 2 k ceil(log2 n) + 1 calls |
| `Ec2Batches.StopAnswers` | source/app/instance_scheduler/scheduling/ec2/ec2.py:514-549 | whatever the calls do, stopping a list yields exactly one result per decision, each storing the decided state or an attempted stop's failure |
| `Ec2Batches.HibernateAnswers` | source/app/instance_scheduler/scheduling/ec2/ec2.py:458-512 | likewise for hibernating, with the fallback to stopping what cannot hibernate |
| `Ec2Batches.StartAnswers` | source/app/instance_scheduler/scheduling/ec2/ec2.py:551-636 | likewise for starting, with the hand-overs to the resize queue |
| `Ec2Batches.StopTellsTheTruth` | source/app/instance_scheduler/scheduling/ec2/ec2.py:514-549 | whatever the calls do: nothing is done exactly for instances that are down, a stopped instance was in a batch whose call succeeded, and a failed one was refused alone |
| `Ec2Batches.HibernateTellsTheTruth` | source/app/instance_scheduler/scheduling/ec2/ec2.py:458-512 | likewise for hibernating; an instance is stopped instead only if its hibernation was refused alone as unsupported and the stop call succeeded |
| `Ec2Batches.StartTellsTheTruth` | source/app/instance_scheduler/scheduling/ec2/ec2.py:551-636 | likewise for starting; an instance is handed over for resizing only if it is not of its first preferred type, or if it has a second one and was refused alone for lack of capacity |
| `Ec2Batches.RequestsAreOfResults` | source/app/instance_scheduler/scheduling/ec2/ec2.py:174-199 | with a queue, its messages are exactly those of the results that ask for a resize and have a type to resize to; without one there are none |
| `Ec2Batches.BadInstancesFailToStop` | source/app/instance_scheduler/scheduling/ec2/ec2.py:514-549 | when stopping fails exactly on batches with a bad instance, every result is determined: already down, bad and marked as failed, or stopped with its new state |
| `Ec2Batches.BadInstancesFailToStart` | source/app/instance_scheduler/scheduling/ec2/ec2.py:551-636 | likewise for starting: up already, resized to its preferred type first, bad and failed or handed over for lack of capacity, or started |
| `Ec2Service.OnlyKnownActions` | source/app/instance_scheduler/scheduling/ec2/ec2.py:246-266 | every decision requests a start, a stop or nothing, so the branch for unrecognised decisions is unreachable |
| `Ec2Service.ResultIsOneCycle` | source/app/instance_scheduler/scheduling/ec2/ec2.py:201-292 | what a pass reports for an instance is one step of the abstract scheduling cycle: the state stored, the action requested and whether it failed |
| `Ec2Service.PassesAreRun` | source/app/instance_scheduler/scheduling/ec2/ec2.py:201-292 | the results for one instance over any number of passes, each beginning with the state stored before, are a run of the abstract cycle, so everything proved about runs holds of this service |
| `Ec2Service.PicksArePartition` | source/app/instance_scheduler/scheduling/ec2/ec2.py:246-266 | the decision lists by kind are a partition of the decisions |
| `Ec2Service.PassAnswers` | source/app/instance_scheduler/scheduling/ec2/ec2.py:268-292 | a whole pass yields exactly one result per decision, whatever the calls do |
| `Ec2Service.PassTellsTheTruth` | source/app/instance_scheduler/scheduling/ec2/ec2.py:201-292 | whatever the calls do, the results of stop decisions are those of the hibernate call for schedules that hibernate and of the stop call for others, those of start decisions are of the start call, resizes ask for the type that the schedule asks for, and all other instances are left alone |
| `Ec2Service.HibernatingSchedulesHibernate` | source/app/instance_scheduler/scheduling/ec2/ec2.py:263-275 | when the hibernate call never fails, exactly the stop decisions of schedules that hibernate, on instances that are not down, are hibernated |
| `Ec2Service.ResizesAskForOtherType` | source/app/instance_scheduler/scheduling/ec2/ec2.py:234-254 | a resize is decided if and only if the schedule is running with a named type other than the size of the instance, and that type is the one requested |
| `Ec2Service.StoredAsResulted` | source/app/instance_scheduler/scheduling/ec2/ec2.py:280-292 | after storing, each instance's entry is what its result says and all other entries are untouched |
| `Ec2Service.Ec2Service.Retry` | source/app/instance_scheduler/scheduling/ec2/ec2.py:475-490 | one bisecting call: its succeeded inputs, failures and number of calls |
| `Ec2Service.Ec2Service.SendResizeRequest` | source/app/instance_scheduler/scheduling/ec2/ec2.py:174-199 | a resize request goes to the queue only if there is one and there are preferences; the result is that of a resize |
| `Ec2Service.Ec2Service.StopInstances` | source/app/instance_scheduler/scheduling/ec2/ec2.py:514-549 | results in order: instances down already, then the succeeded, then the failed inputs of the bisected call |
| `Ec2Service.Ec2Service.HibernateInstances` | source/app/instance_scheduler/scheduling/ec2/ec2.py:458-512 | results in order, with the instances that cannot hibernate stopped in a second bisected call |
| `Ec2Service.Ec2Service.SkipStarted` | source/app/instance_scheduler/scheduling/ec2/ec2.py:555-580 | instances that are up or not of their preferred type are answered first, with their resize requests queued; the rest are to be started |
| `Ec2Service.Ec2Service.StartInstances` | source/app/instance_scheduler/scheduling/ec2/ec2.py:551-636 | results in order, and the queue gets exactly the requests of the results |
| `Ec2Service.Ec2Service.SendResizeRequests` | source/app/instance_scheduler/scheduling/ec2/ec2.py:174-199 | one result and at most one queued request per decision |
| `Ec2Service.Ec2Service.SortDecisions` | source/app/instance_scheduler/scheduling/ec2/ec2.py:219-266 | one decision per described instance, each in the list of its kind in the order of the instances, with the types to resize to |
| `Ec2Service.Ec2Service.PlanOne` | source/app/instance_scheduler/scheduling/ec2/ec2.py:219-266 | one instance is placed in the list of its kind, or the pass raises exactly when its schedule or windows give no answer |
| `Ec2Service.Ec2Service.ScheduleTarget` | source/app/instance_scheduler/scheduling/ec2/ec2.py:201-292 | every described instance gets exactly one decision and one result, in the order of the lists, from the very calls made for it and as `PassTells` says of its kind; the queue gets the requests of the results and the registry what they store; a pass that raises changes nothing |
| `Ec2Service.Ec2Service.StoreResults` | source/app/instance_scheduler/scheduling/ec2/ec2.py:280-292 | changed states are stored one after the other |
| `RdsService.RdsService.ProcessDecision` | source/app/instance_scheduler/scheduling/rds/rds.py:519-591 | the result and the number of calls of processing one decision |
| `RdsService.RdsService.ScheduleTarget` | source/app/instance_scheduler/scheduling/rds/rds.py:140-210 | one result per instance in order, each from the very calls made for it; the registry ends up with the changed states, also when an evaluation raises and ends the pass early |
| `RdsService.ResultIsOneCycle` | source/app/instance_scheduler/scheduling/rds/rds.py:140-210 | the result of a supported instance with a known schedule is one step of the abstract scheduling cycle: stored state, request and failure |
| `RdsService.ResultTellsTheTruth` | source/app/instance_scheduler/scheduling/rds/rds.py:140-210 | nothing is requested of an instance that is unsupported, of no known schedule or not schedulable, and its state is kept; any other failed if and only if the call that its request needs was answered with a failure |
| `RdsService.ResultFollowsInstance` | source/app/instance_scheduler/scheduling/rds/rds.py:140-210 | the results of a pass are those of the instances in order, each from the calls made after those of the instances before it |
| `RdsService.RaisesWithoutAnswer` | source/app/instance_scheduler/scheduling/rds/rds.py:140-210 | a pass ends early if and only if it raises, at an instance whose evaluation gives no answer |
| `RdsService.StoredAsResulted` | source/app/instance_scheduler/scheduling/rds/rds.py:140-210 | after a pass each instance's entry is what its result says |
| `RdsService.OthersAreKept` | source/app/instance_scheduler/scheduling/rds/rds.py:140-210 | the entries of instances without a result are kept |
| `MaintenanceWindowContext.WindowTable.Put` | source/app/instance_scheduler/maint_win/maintenance_window_context.py:86-92 | writing to the table raises for a failing key and otherwise replaces one entry of one partition |
| `MaintenanceWindowContext.InMemoryStore.Put` | source/app/instance_scheduler/model/store/in_memory_mw_store.py:23-26 | writing goes through to the very dictionary the store was given |
| `MaintenanceWindowContext.InMemoryStore.Delete` | source/app/instance_scheduler/model/store/in_memory_mw_store.py:28-30 | deleting goes through as well; a missing key raises |
| `MaintenanceWindowContext.ComputeDelta` | source/app/instance_scheduler/maint_win/maintenance_window_context.py:169-192 | the two loops split the keys into updated, unchanged and deleted ones |
| `MaintenanceWindow.NameIdIdentifies` | source/app/instance_scheduler/model/maint_win.py:100-102 | with ids that hold no colon two windows have the same key if and only if they have the same name and id |
| `MaintenanceWindowContext.TakenFromReport` | source/app/instance_scheduler/maint_win/maintenance_window_context.py:60-83 | under each key the pass takes from SSM the last reported window of that name and id that a schedule names and that has a next execution, and nothing under the other keys |
| `MaintenanceWindowContext.CollectAndAggregateByName` | source/app/instance_scheduler/maint_win/maintenance_window_context.py:206-219 | the index lists under each name exactly the windows of that name, in order |
| `MaintenanceWindowContext.Context.Apply` | source/app/instance_scheduler/maint_win/maintenance_window_context.py:85-114 | one write is refused while the stored window runs and otherwise keeps table, mirror and shared dictionary equal |
| `MaintenanceWindowContext.Context.Reconcile` | source/app/instance_scheduler/maint_win/maintenance_window_context.py:60-126 | a stored window that is running, or whose write fails, is kept; under every other key the table partition ends up with the last reported window of that name and id that a schedule names and that has a next execution, else without one, although the pass changes the dictionary it reads from; other partitions are untouched; the index holds every window once |
| `MaintenanceWindowContext.Context.FindByName` | source/app/instance_scheduler/maint_win/maintenance_window_context.py:138-142 | the windows of that name and no others; the first lookup makes the pass and takes from the report what the pass does |
| `MaintenanceWindowContext.ReconcilingAgainChangesNothing` | source/app/instance_scheduler/maint_win/maintenance_window_context.py:60-126 | repeating the pass at the same moment changes nothing |
| `MaintenanceWindowContext.WindowUnderWayIsRemembered` | source/app/instance_scheduler/maint_win/maintenance_window_context.py:60-126 | an execution in the table survives any run of passes made while it is under way, but for the minute its schedule loses, whatever SSM reports and whichever writes fail |
| `MaintenanceWindowContext.LostMinuteForgets` | source/app/instance_scheduler/maint_win/maintenance_window_context.py:60-126 | in that minute a pass replaces the execution under way by what SSM reports, unless the write fails |
| `MaintenanceWindowContext.TableFollowsSsm` | source/app/instance_scheduler/maint_win/maintenance_window_context.py:60-126 | once nothing stored is running, a pass without write errors makes the table what SSM reports |
| `RegionRegistration.OneOperationPerRegion` | source/app/instance_scheduler/handler/region_registration_events_handler.py:147-182 | a request never registers and deregisters the same region |
| `RegionRegistration.NoRegionsMeansOwnRegion` | source/app/instance_scheduler/handler/region_registration_events_handler.py:129-165 | without regions, or with a lone empty one, a request is about the region of the function itself, and an update between the two forms asks for nothing |
| `RegionRegistration.CompleteMeansDone` | source/app/instance_scheduler/handler/region_registration_events_iscomplete_handler.py:91-152 | in every run, with any interleaving, crashes, redelivered messages and left-over parameters: once the poll has reported complete, every requested region has all services registered and every removed region none |
| `RegionRegistration.CompleteMeansAsRequested` | source/app/instance_scheduler/handler/region_registration_events_handler.py:129-201 | in every run, a completed create adds exactly its regions, a completed delete removes exactly its regions, and after a completed update the current regions are registered in place of the previous ones, all other regions being as before |
| `RegionRegistration.LeftoversAfterCompletion` | source/app/instance_scheduler/handler/region_registration_events_iscomplete_handler.py:91-152 | in every run, a completed create or update leaves no parameter of another region and a completed delete all of them as they were |
| `RegionRegistration.ParametersTellProgress` | source/app/instance_scheduler/handler/spoke_registration.py:118-230 | with once-only delivery and distinct regions, until the request is complete the parameter of every job says how far it has come: created, being registered, managed, or being deleted, deleted |
| `RegionRegistration.CompleteMeansQuiet` | source/app/instance_scheduler/handler/region_registration_events_iscomplete_handler.py:91-152 | with once-only delivery and distinct regions, completion also means that every job has finished and no parameter of the request remains |
| `RegionRegistration.PollCompletesExactly` | source/app/instance_scheduler/handler/region_registration_events_iscomplete_handler.py:91-152 | for every kind of request, whatever parameters earlier requests left over: with once-only delivery to distinct regions, a poll completes if and only if every job has finished and the poll accepts every left-over parameter of another region |
| `RegionRegistration.LeftoversAcceptedExactly` | source/app/instance_scheduler/handler/region_registration_events_iscomplete_handler.py:91-152 | the parameters of other regions that a request can complete with: all managed for a create, all deleted for a delete, and for an update only managed ones of regions that it keeps |
| `RegionRegistration.RefusedLeftoverBlocks` | source/app/instance_scheduler/handler/region_registration_events_iscomplete_handler.py:91-152 | a left-over parameter of another region that the poll does not accept keeps a request of any kind from ever completing, with any interleaving, crashes and redelivered messages |
| `RegionRegistration.LeftoverBlocksCreate` | source/app/instance_scheduler/handler/region_registration_events_iscomplete_handler.py:91-103 | in particular a region that is still being deleted keeps a create request for other regions from ever completing |
| `RegionRegistrationHandlers.Deployment.IssueRequest` | source/app/instance_scheduler/handler/region_registration_events_handler.py:129-201 | the request handler is a run of the protocol from its initial state, with the messages of its event: the listed regions in order, or, of an update, first every removed region once, then every added one once |
| `RegionRegistrationHandlers.Deployment.HandleMessage` | source/app/instance_scheduler/handler/spoke_registration.py:118-230 | the spoke function handling one message is a run of the protocol that ends with the job finished and the parameter in its target state |
| `RegionRegistrationHandlers.Deployment.PollIsComplete` | source/app/instance_scheduler/handler/region_registration_events_iscomplete_handler.py:91-152 | the poll with its early exit is a protocol step; it reports complete if and only if every parameter is in its target state, and then clears them |
| `ResourceRegistry.SortKeyReadsBackExactly` | source/app/instance_scheduler/model/managed_instance.py:31-45 | a sort key parses back, to the key it was made from, if and only if no part contains a hash sign |
| `ResourceRegistry.PrefixesAreContiguous` | source/app/instance_scheduler/model/store/resource_registry.py:64-86 | what lies between two strings with a common prefix in lexicographic order has that prefix |
| `ResourceRegistry.PrefixSelectsTarget` | source/app/instance_scheduler/model/store/in_memory_resource_registry.py:59-66 | without hash signs in regions and services, the query prefix selects exactly the keys of the target |
| `ResourceRegistry.GroupByTarget` | source/app/instance_scheduler/model/store/resource_registry.py:64-86 | the loop that extends the current target returns the maximal runs of equal targets |
| `ResourceRegistry.RunsAreTargets` | source/app/instance_scheduler/model/store/resource_registry.py:64-86 | if targets are contiguous, each target has one run, holding all its resources in order |
| `ResourceRegistry.OrderedTargetsAreContiguous` | source/app/instance_scheduler/model/store/in_memory_resource_registry.py:49-52 | in key order the resources of a target are contiguous |
| `ResourceRegistry.TargetListingIsUnique` | source/app/instance_scheduler/model/store/in_memory_resource_registry.py:59-66 | a query for a target has one possible answer, so a listed target's resources equal it in the same order |
| `ResourceRegistry.InMemoryResourceRegistry.Put` | source/app/instance_scheduler/model/store/in_memory_resource_registry.py:22-33 | stores one resource under its key and changes no other, or is refused for a taken key |
| `ResourceRegistry.InMemoryResourceRegistry.Get` | source/app/instance_scheduler/model/store/in_memory_resource_registry.py:35-37 | the resource stored under the key |
| `ResourceRegistry.InMemoryResourceRegistry.Delete` | source/app/instance_scheduler/model/store/in_memory_resource_registry.py:39-47 | removes one resource and keeps no account empty; a missing key raises only if asked to |
| `ResourceRegistry.InMemoryResourceRegistry.FindAll` | source/app/instance_scheduler/model/store/in_memory_resource_registry.py:49-52 | every stored resource, accounts in any order but contiguous, keys increasing in each |
| `ResourceRegistry.InMemoryResourceRegistry.FindByAccount` | source/app/instance_scheduler/model/store/in_memory_resource_registry.py:54-57 | exactly the account's resources in key order |
| `ResourceRegistry.InMemoryResourceRegistry.FindBySchedulingTarget` | source/app/instance_scheduler/model/store/in_memory_resource_registry.py:59-66 | exactly the account's resources with the target's prefix, in key order |
| `ResourceRegistry.InMemoryResourceRegistry.ListAllBySchedulingTarget` | source/app/instance_scheduler/model/store/resource_registry.py:64-86 | every target with a resource is listed exactly once, with exactly what the query for it returns |
| `CliCommands.CliRequestHandler.ValidatePeriodsExist` | source/app/instance_scheduler/handler/cli/cli_request_handler.py:432-442 | accepts if and only if every referenced period exists |
| `CliCommands.CliRequestHandler.FindByPeriod` | source/app/instance_scheduler/model/store/in_memory_schedule_definition_store.py:42-54 | exactly the schedules that refer to the period, with or without an instance type |
| `CliCommands.CliRequestHandler.CreatePeriod` | source/app/instance_scheduler/handler/cli/cli_request_handler.py:214-226 | the first failing check, or the stored period |
| `CliCommands.CliRequestHandler.UpdatePeriod` | source/app/instance_scheduler/handler/cli/cli_request_handler.py:287-306 | the first failing check, or the replaced period |
| `CliCommands.CliRequestHandler.DeletePeriod` | source/app/instance_scheduler/handler/cli/cli_request_handler.py:243-267 | deletes exactly an existing period that no stack owns and no schedule refers to |
| `CliCommands.CliRequestHandler.CreateSchedule` | source/app/instance_scheduler/handler/cli/cli_request_handler.py:228-241 | the first failing check, or the stored schedule |
| `CliCommands.CliRequestHandler.UpdateSchedule` | source/app/instance_scheduler/handler/cli/cli_request_handler.py:308-329 | the first failing check, or the replaced schedule |
| `CliCommands.CliRequestHandler.DeleteSchedule` | source/app/instance_scheduler/handler/cli/cli_request_handler.py:269-285 | the first failing check, or the removal |
| `CliCommands.CliRequestHandler.BuildPeriods` | source/app/instance_scheduler/model/schedule_definition.py:272-296 | builds one running period per reference, in order, or raises exactly when a reference does not resolve to a valid period |
| `CliCommands.AcceptedExactlyWhenConsistent` | source/app/instance_scheduler/handler/cli/cli_request_handler.py:214-329 | a command is accepted if and only if it finds its entry missing (to create it) or present and not a stack's own (to change it) and its effect leaves every definition valid and every reference in place |
| `CliCommands.RefusalsAreTrue` | source/app/instance_scheduler/handler/cli/cli_request_handler.py:214-329 | the reason given for a refusal holds of the configuration and the command |
| `CliCommands.OneEntryChanges` | source/app/instance_scheduler/handler/cli/cli_request_handler.py:214-329 | an accepted command sets or removes the one entry it is about and no other |
| `CliCommands.LastCommandDecides` | source/app/instance_scheduler/handler/cli/cli_request_handler.py:214-329 | in every run an entry is as the last accepted command about it left it |
| `CliCommands.SchedulesStayValid` | source/app/instance_scheduler/model/schedule_definition.py:113-146 | after any sequence of commands every stored schedule has a name, a known time zone, a proper override and something to decide by |
| `CliCommands.SchedulesStayBuildable` | source/app/instance_scheduler/handler/cli/cli_request_handler.py:214-329 | from a consistent configuration, after any sequence of commands every schedule's periods can be built |
| `CliCommands.StackEntriesAreKept` | source/app/instance_scheduler/handler/cli/cli_request_handler.py:445-446 | no sequence of commands changes or removes what a stack configured |
| `CliCommands.DeletingUndoesCreating` | source/app/instance_scheduler/handler/cli/cli_request_handler.py:214-267 | deleting a period that was just created restores the configuration if and only if it was not created as a stack's own |
| `WriteThroughCache.CachedStore.Put` | source/app/instance_scheduler/model/store/cached_resource_registry.py:20-22 | writes to the table and then to the memory; a refused write changes neither |
| `WriteThroughCache.CachedStore.Delete` | source/app/instance_scheduler/model/store/cached_schedule_definition_store.py:27-29 | deletes from both |
| `WriteThroughCache.CachedStore.Get` | source/app/instance_scheduler/model/store/cached_period_definition_store.py:30-38 | answers from the memory, else from the table, and remembers the answer |
| `WriteThroughCache.CachedStore.Fetch` | source/app/instance_scheduler/model/store/cached_resource_registry.py:38-71 | a search reads a page of results from the table |
| `WriteThroughCache.CachedStore.Take` | source/app/instance_scheduler/model/store/cached_resource_registry.py:38-71 | the next result of a search, as it was when its page was fetched, is remembered before it is handed on |
| `WriteThroughCache.CachedStore.FindAll` | source/app/instance_scheduler/model/store/cached_period_definition_store.py:40-48 | a search that runs to its end gives what the table holds and leaves it in the memory |
| `WriteThroughCache.CachedStore.Preload` | source/app/instance_scheduler/model/store/cached_resource_registry.py:73-75 | remembers the given entries |
| `WriteThroughCache.CacheIsTransparent` | source/app/instance_scheduler/model/store/cached_resource_registry.py:20-75 | after any sequence of operations that hands on no stale result, the memory is a part of the table, the table is what it would be without the cache, and reading through the cache equals reading the table |
| `WriteThroughCache.ReadFromMemory` | source/app/instance_scheduler/model/store/cached_resource_registry.py:20-75 | what has been read, written, found or preloaded is read from the memory until it is deleted |
| `WriteThroughCache.TakeKeepsExactlyCurrent` | source/app/instance_scheduler/model/store/cached_resource_registry.py:38-71 | handing on a fetched result keeps the memory in line with the table if and only if the table still holds that result |
| `WriteThroughCache.InLineExactly` | source/app/instance_scheduler/model/store/cached_resource_registry.py:20-75 | in every run the memory is in line with the table after every operation if and only if no stale result is handed on |
| `WriteThroughCache.EndedSearchesAreCurrent` | source/app/instance_scheduler/model/store/cached_resource_registry.py:38-71 | a run that ends every search before its next write hands on no stale result |
| `WriteThroughCache.StaleResultIsRemembered` | source/app/instance_scheduler/model/store/cached_resource_registry.py:38-71 | a write between the fetching and the handing on of an older result leaves the older one in the cache |
| `PeriodDefinitions.ToPeriodParams` | source/app/instance_scheduler/model/period_definition.py:179-196 | the parameters carry exactly the fields that are not empty, sets joined by commas |
| `PeriodDefinitions.RebuiltExactlyWhenAFieldIsSet` | source/app/instance_scheduler/model/period_definition.py:198-214 | rebuilding a valid definition from its parameters is accepted if and only if one of its fields is not empty |
| `PeriodDefinitions.RebuiltKeepsFields` | source/app/instance_scheduler/model/period_definition.py:198-214 | a rebuilt definition has the name, times, description and stack of the first, empty ones becoming missing |
| `PeriodMeaning.TimesAreClockTimes` | source/app/instance_scheduler/configuration/time_utils.py:11-31 | the times that a definition accepts are exactly the clock times with one or two digits for the hours, each read as its minute of the day |
| `PeriodMeaning.DefinitionIsItsPeriod` | source/app/instance_scheduler/model/period_definition.py:100-148 | a definition whose texts read as times and expressions is accepted if and only if it does not begin after its end, and is then that period |
| `PeriodMeaning.EveryDefinitionReads` | source/app/instance_scheduler/model/period_definition.py:100-148 | the texts of every accepted definition read as such times and expressions |
| `PeriodMeaning.DefinitionRuns` | source/app/instance_scheduler/model/period_definition.py:138-148 | an accepted definition is running exactly on the days of all three of its sets, from its begin up to its end |
| `PeriodMeaning.OfficeHours` | source/app/instance_scheduler/model/period_definition.py:138-148 | a definition of two weekday names with a dash and two clock times is running exactly between these times on these days, around the weekend if the range goes around it |
| `PeriodJourney.JourneyKeepsDesiredState` | source/app/instance_scheduler/model/period_definition.py:179-224 | wherever both give an answer, a valid period and its rebuilt form ask for the same state at every time, whatever commas, spaces and iteration orders do to the sets |
| `PeriodJourney.AnswersExactlyWhenNothingRaises` | source/app/instance_scheduler/model/period_definition.py:179-224 | every rebuilt form of a valid period gives an answer at a time if and only if no element of its sets raises on that day |
| `PeriodJourney.StateSurvivesExactlyWhenNothingRaises` | source/app/instance_scheduler/model/period_definition.py:179-224 | the desired state of a valid period is the same after the journey, in whatever order the sets are iterated, if and only if no element of its sets raises on that day |
| `PeriodJourney.OrderDecidesWhetherItAnswers` | source/app/instance_scheduler/model/period_definition.py:179-224 | on any 1 February the month days 1 and 31W ask to run when 1 is tried first and raise when 31W is: an answer becomes an error |
| `ScheduleDefinitions.ToScheduleParams` | source/app/instance_scheduler/model/schedule_definition.py:199-225 | the parameters carry the references joined by commas, the fields that are not empty and the flags that are set |
| `ScheduleDefinitions.ReferenceReadsBack` | source/app/instance_scheduler/model/schedule_definition.py:272-296 | a reference reads back to the period name and type it was written with; an empty type is none |
| `ScheduleDefinitions.OverrideIgnoresCase` | source/app/instance_scheduler/model/schedule_definition.py:113-133 | an override may be written in any case |
| `ScheduleDefinitions.JourneyExactly` | source/app/instance_scheduler/model/schedule_definition.py:199-241 | a valid schedule rebuilt from its parameters is the same, apart from empty optional fields becoming missing, if and only if no reference holds a comma and the references are not a lone empty one |
| `Strings.SplitConcat` | source/app/instance_scheduler/cron/parser.py:87-91 | splitting a text joined by a separator splits its two sides |
| `Strings.NumberOfDecimal` | source/app/instance_scheduler/cron/parser.py:157-162 | reading a printed decimal gives the number back |

## Left out

- Time zones: one fixed offset per schedule or window; daylight saving and zone databases are not modelled.
- Seconds: the boundaries of periods and windows are whole minutes, so evaluation is by the minute.
- Year 1 and year 9999: dates are unbounded upwards and the overflow errors at both ends of Python's range are not modelled.
- MaintenanceWindow.ScheduleRunsExactlyOnWindow: the scheduling interval plus ten minutes is at most one day, far above every interval that can be configured.
- ScheduleUsage.ReportBillsExactlyTheBillableMinutes: period names identify periods, as they do for periods read from the store; the floating-point rounding of hours is integer arithmetic.
- RegionRegistration.CompleteMeansDone: a poll reads all parameters in one step, and registering a region's resources is abstracted to one entry per service.
- RegionRegistration.PollCompletesExactly: it is about once-only delivery to distinct regions; redelivered and duplicate messages let a region's parameter go back and forth, which only the safety results cover.
- MaintenanceWindowContext.Context.Reconcile: the names of the windows that schedules refer to are given as a set.
- ResourceRegistry.InMemoryResourceRegistry.ListAllBySchedulingTarget: the grouping result is for regions and services without hash signs, which is all that the cloud provider has.
- WriteThroughCache.CacheIsTransparent: the cached store is the only writer, preloaded entries come from the table, and one search is under way at a time; of what becomes of the memory after a stale result, `WriteThroughCache.StaleResultIsRemembered` is an example.
- RdsMaintenanceWindow.ScheduleRunsExactlyOnWindow: the window string is taken as already split into days and times, with the days in their three-letter form.
- CronParser.StepSlash: text is ASCII without line breaks, and digit strings are short enough for integer conversion.
- PeriodJourney.JourneyKeepsDesiredState: a set is the sequence in which it is iterated, and rebuilt sets may be iterated in any order.
- CliCommands.SchedulesStayBuildable: the tables start from definitions that went through their constructors; type checks of raw parameters and the describe commands are left out.
- Ec2Service.Ec2Service.ScheduleTarget: the registry is keyed by instance, and generators are the sequences they yield.
- The table stores of DynamoDB, SSM, SQS and EventBridge clients, sessions and role assumption, tagging, events, logging and metrics.
- Auto Scaling group scheduling, the resize function behind the queue, and snapshots taken when stopping databases.
- The CDK stacks, dashboards, permissions and the command-line front end.
