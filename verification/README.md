# Verified model of the household cleaning planner

The application plans household cleaning, keeps a history of what was done, walks people through room checklists and
signs them in with mailed one-time codes. This project models its four stateful cores in Dafny and proves what holds of
every input, every step and every run:

- **Planning and sessions** (`Planner`, `PlanProofs`, `Ranking`, `Suitability`, `Supersession`, `DisplayPlan`,
  `CardIdentity`, `Session`, `SessionStarts`, `SessionRecords`): the greedy planner, the cards it becomes, and the session
  that works through them until the history has recorded the plan. `Ranking` reads the planner's order off rooms, history
  and cards, and `Suitability` what may be suggested at all.
- **Release, history and due dates** (`TaskHistory`, `DueTests`, `Weekly`, `WeeklyAdvice`, `Calendar`, `TaskSchedule`,
  `Staggering`, `ReleaseRuns`): the pruned history, three independent due tests, the hashed and seasonal first due dates
  that spread a bank over the coming weeks, and whole runs of the stored state.
- **Sign-in** (`CodeLog`, `Codes`, `SignIn`, `Allowlist`, `SignInRuns`): the code store and the service over it, and the
  allowlist's text. `CodeLog` describes every outcome of a run by the log of calls alone, and `SignInRuns` every reply by
  the replies before it.
- **Checklists** (`Checklist`, `Condense`, `RowOrder`, `ChecklistProgress`, `PlannerSync`, `CreditRuns`, `ChecklistPage`):
  re-homing, condensing, progress per source task shown per row, and the synchronisation of finished checklist work into
  the history that sessions write too.

`Sequences` and `Text` hold the array, sort, grouping and string operations the sources lean on; `Tasks` the shared task
record. Code that updates state or runs a loop in the source is a class or a method here, proved against a function of
the old state; the theorems are lemmas about those functions.

## What the proofs settle

Some properties the code or its comments suggest hold only under a condition. The exact condition is proved, with a
concrete failing case on the other side:

- Sweeping expired codes is unobservable exactly when `resendAfter <= max(0, ttl + 1ns)`. The service does not check its
  configuration for this (`CodeLog.PurgingIsInvisible`, `CodeLog.SweepLiftsCooldown`).
- After a failed delivery `service.go:120` calls the stored code unusable. The record stays stored: it could still be
  redeemed, and it holds back the next request (`SignIn.StoredCodeSignsInOnce`, `SignIn.FailedDeliveryHoldsBackRetry`).
- Release is permanent exactly while the first due date lies at most 730 days and one millisecond ahead. That is always
  so for hashed dates, with or without a season whose months exist, and for the first 105 deep tasks
  (`ReleaseRuns.ReleaseIsPermanentWithinRetention`, `TaskSchedule.DeepIndexBoundIsExact`,
  `TaskSchedule.UnrealMonthsWithinRetention`).
- A cooldown survives pruning, checklist credits keep their distance from all earlier completions, and finished tasks stay
  unplanned, exactly when the cooldown is at most 730 days (`TaskHistory.PruningIsTransparent`,
  `CreditRuns.CooldownHoldsExactly`, `SessionRecords.NeverReplannedEarlyExactly`).
- The cards of a session have different ids, whatever its tasks, exactly when no two disjoint lists of task ids make one
  card id. Ids without `+` never do; ids with it can (`CardIdentity.SessionCardsAreUniqueExactly`,
  `CardIdentity.PlainIdsTell`, `CardIdentity.UnplainIdsClash`).
- Two cards of different members can be merged into one exactly when one member's id is the other's followed by `-` or
  `:` (`DisplayPlan.CardsBelongToOneMemberExactly`).
- Synchronising a checklist twice at one instant is harmless, whatever the links and history, exactly when every cooldown
  of the bank is positive and at most 730 days; a bank of one task needs only the former
  (`PlannerSync.SyncIsAlwaysIdempotentExactly`).
- Season lists move only hashed first due dates. Tasks due at once and deep tasks are released without a look at the
  season, and wait in the planner's own season test (`TaskSchedule.FirstDueIsInSeasonExactly`).
- A card for one task records the tasks it includes; a bundle card does not
  (`SessionRecords.IncludedTasksAreRecordedExactly`).
- Re-homed floor tasks are not always in their original order: tasks from after the floor section overtake the section's
  own (`Checklist.FloorSectionOrder`).
- Supersession loses no task, whichever candidates a bank yields, exactly when no card of the bank replaces itself,
  directly or through others (`Supersession.SupersessionLosesNothingExactly`).

## Conventions

Instants are whole milliseconds (nanoseconds for sign-in codes), dates are Gregorian days without time zones, scores are
reals. Task durations are positive. Task ids are unique and participants named once where a statement says `UniqueIds`
or `Sane`; `availableMinutes` is then not negative. `TellingIds` says that no two disjoint lists of the ids make one
card id. `Raw` says that a checklist as written contains no condensed row. Keyed digests are injective where a statement
says `InjectiveMac`, and a normalised address is not empty where it says `NormalizesToNonEmpty`.

## Model

| member | source | states |
|---|---|---|
| PlanProofs.ParticipantsAreUnique | frontend/src/domain/taskEngine.ts:155-157 | Everyone chosen who is a known adult or willing child takes part, once, and nobody else does |
| Ranking.ParticipantsFollowChoice | frontend/src/domain/taskEngine.ts:155-157 | The participants are the chosen known adults and willing children, in the order in which they were chosen |
| Suitability.CandidateExactly | frontend/src/domain/taskEngine.ts:160-175 | A task comes into question exactly when it is due in this mode and season and not held back, in focus, fits the time and the company, and no finished task that covers it rests |
| Suitability.EligibleExactly | frontend/src/domain/taskEngine.ts:176-178 | An eligible task is a candidate that no candidate supersedes or includes |
| Suitability.NothingUnsuitableIsAssigned | frontend/src/domain/taskEngine.ts:160-178 | No plan assigns a task that is held back by the schedule, reserved for the weekly advice, out of season or focus, too long, meant for other company, resting or covered |
| Suitability.ReleasedExactly | frontend/src/domain/taskSchedule.ts:43-47 | A task is held back exactly when it was never done and its entry lies ahead |
| Suitability.LoadedSchedulesAreSingle | frontend/src/domain/taskSchedule.ts:28-37 | A loaded schedule has at most one entry for any task |
| Suitability.CoolingDownExactly | frontend/src/domain/taskEngine.ts:227-238 | A task cools down exactly while a finished task that is it, shares its repeat group or supersedes it rests, for that finished task's own hours |
| PlanProofs.EligibleAreRanked | frontend/src/domain/taskEngine.ts:177-179 | No eligible task scores above one that is considered before it |
| PlanProofs.RankingKeepsTiesInOrder | frontend/src/domain/taskEngine.ts:177-179 | Ranking keeps every kept candidate once, and equally scored ones in the order of the task bank |
| Ranking.ScoreIsWorth | frontend/src/domain/taskEngine.ts:210-225 | The score is room weight times mode preference times two less freshness, times 30 for depth from 45 minutes on, 16 for unfinished first-use work and the task's own boost, per minute |
| Ranking.OrderByMerits | frontend/src/domain/taskEngine.ts:177-179 | Of two eligible tasks the one worth more stands first, and of equally worthy ones the one listed first in the bank |
| Ranking.LessFreshRoomFirst | frontend/src/domain/taskEngine.ts:210-214 | Of two cards alike in all else that count for anything, the one whose room is less fresh stands first |
| Ranking.MoreVisibleRoomFirst | frontend/src/domain/taskEngine.ts:214-214 | The one in the more visible room stands first |
| Ranking.PreferredCategoryFirst | frontend/src/domain/taskEngine.ts:121-129 | The one of the category the mode prefers stands first |
| Ranking.ShorterTaskFirst | frontend/src/domain/taskEngine.ts:214-214 | The shorter one stands first |
| Ranking.HigherBoostFirst | frontend/src/domain/taskEngine.ts:224-224 | The one boosted more stands first |
| Ranking.DeepCardFirstExactly | frontend/src/domain/taskEngine.ts:217-217 | A deep card stands before its like from 45 minutes on; in shorter sessions bank order decides |
| Ranking.UnfinishedKickstartFirst | frontend/src/domain/taskEngine.ts:218-223 | The one that is or includes first-use work never done stands first |
| Ranking.LaundryLastForGuests | frontend/src/domain/taskEngine.ts:124-127 | Laundry cards for guests stand after every card that counts |
| PlanProofs.PickIsBest | frontend/src/domain/taskEngine.ts:190-195 | A member is chosen unless nobody admissible has room; nobody who could take the task scores higher |
| PlanProofs.TiesGoToTheFirst | frontend/src/domain/taskEngine.ts:190-194 | Among members with the best score the first listed one gets the task |
| Ranking.ChosenExactly | frontend/src/domain/taskEngine.ts:190-194 | A member gets the task exactly when they can take it and are the first listed of the least loaded who can, after head starts of 10 minutes in a preferred private room, 5 for a child with a child-friendly task in a private one, and 2 for adults elsewhere |
| Planner.AssignGreedily | frontend/src/domain/taskEngine.ts:180-201 | The loop over maps, sets and a flag yields the assignments and assigned ids of the step-by-step specification |
| Planner.BuildPlan | frontend/src/domain/taskEngine.ts:152-208 | The planner returns the specified plan, of which all plan theorems speak |
| PlanProofs.PlanStaysWithinCapacity | frontend/src/domain/taskEngine.ts:180-206 | No participant is given more minutes than the session has, and the total is the sum of the participants' minutes |
| PlanProofs.LoadsAreMinutes | frontend/src/domain/taskEngine.ts:181-198 | The running load kept for a member is the sum of the durations assigned to that member |
| PlanProofs.TotalIsSumOfLoads | frontend/src/domain/taskEngine.ts:196-206 | After any number of turns the assigned minutes are the sum of the loads |
| PlanProofs.PlanPartitionsEligible | frontend/src/domain/taskEngine.ts:196-207 | Assigned and unassigned ids split the eligible tasks: nothing else, nothing twice, nothing lost |
| PlanProofs.AssignedTasksAreSuitable | frontend/src/domain/taskEngine.ts:160-195 | An assigned task passes every candidate test, is off cooldown and not replaced, and its member may do it |
| PlanProofs.AtMostOneOdorTask | frontend/src/domain/taskEngine.ts:185-200 | No plan assigns two odour tasks |
| PlanProofs.PlanIsMaximal | frontend/src/domain/taskEngine.ts:185-205 | A left-over eligible task is a second odour task or fits in no admissible member's final remaining time |
| Ranking.LeftOverForBetterOnes | frontend/src/domain/taskEngine.ts:185-201 | A task is left over only because tasks ranked before it hold the odour slot or take up every admissible participant's time |
| Ranking.MostUsefulIsAssigned | frontend/src/domain/taskEngine.ts:185-201 | The best ranked task is assigned whenever a participant may do it |
| Ranking.LeftOversKeepTheirRank | frontend/src/domain/taskEngine.ts:205-205 | What is left over is listed as it was ranked |
| PlanProofs.PlanIsBalancedThroughout | frontend/src/domain/taskEngine.ts:185-199 | After every turn, members of one role differ by at most the longest assigned task, plus 10 when preferences differ; a child exceeds an adult by at most that task plus 15 |
| PlanProofs.PlanIsBalanced | frontend/src/domain/taskEngine.ts:185-207 | The same bound, measured on the finished plan's own assignments |
| PlanProofs.ChosenIsLeastLoaded | frontend/src/domain/taskEngine.ts:251-260 | The chosen member's load is, up to the bonuses, no more than that of any comparable member, even one without room |
| Supersession.KeptCardsDoNotOverlap | frontend/src/domain/taskEngine.ts:176-178 | No kept card supersedes or includes a kept card |
| Supersession.DroppedTasksAreCovered | frontend/src/domain/taskEngine.ts:176-178 | Without cycles, every dropped candidate is reached from some kept one along supersedes and includes edges |
| Supersession.ClimbToKept | frontend/src/domain/taskEngine.ts:176-178 | Among candidates without cycles, any walk of replacements, continued upwards, ends at a kept card |
| Supersession.SupersessionLosesNothingExactly | frontend/src/domain/taskEngine.ts:176-178 | Whichever candidates a bank yields, every one is kept or reached from a kept one, exactly when the bank has no cycle |
| Supersession.CycleLosesAll | frontend/src/domain/taskEngine.ts:176-178 | Candidates that are the cards of a cycle are all dropped |
| Supersession.CycleLosesBoth | frontend/src/domain/taskEngine.ts:176-178 | The smallest instance: two cards that replace each other are both dropped |
| DisplayPlan.ToDisplayPlan | frontend/src/pages/HomePage.tsx:351-383 | Grouping through an insertion-ordered map yields the cards of the specification |
| Sequences.GroupInOrder | frontend/src/pages/HomePage.tsx:352-362 | The map loop produces, in order of first appearance, each key's elements in their order |
| DisplayPlan.CardsPartitionAssignments | frontend/src/pages/HomePage.tsx:351-383 | Every assignment is on exactly one card and no card is empty |
| DisplayPlan.CardMinutesAddUp | frontend/src/pages/HomePage.tsx:364-373 | The minutes on the cards add up to the minutes assigned |
| DisplayPlan.PlanTotalIsOnItsCards | frontend/src/domain/taskEngine.ts:203-207 | The announced total of a plan is the sum of its cards' minutes |
| DisplayPlan.KeysClashExactly | frontend/src/pages/HomePage.tsx:357-357 | Two member ids can lead to one card key exactly when one extends the other past a separator |
| DisplayPlan.CardsBelongToOneMemberExactly | frontend/src/pages/HomePage.tsx:352-362 | Cards never mix members, whatever tasks and bundles are called, exactly when no member id extends another past `-` or `:` |
| DisplayPlan.MixedCard | frontend/src/pages/HomePage.tsx:357-357 | For member ids that do extend each other, two tasks that share a card though their members differ |
| DisplayPlan.PlanCardsBelongToOneMember | frontend/src/pages/HomePage.tsx:352-362 | Each card of a plan for separable member ids belongs to one member |
| DisplayPlan.SameMemberSharesByBundle | frontend/src/pages/HomePage.tsx:357-361 | One member's tasks share a card exactly when they share a bundle |
| SessionStarts.NamesAreShownToSeveral | frontend/src/pages/HomePage.tsx:200-200 | Cards name somebody exactly when several people were chosen, and then the member to whom each of the card's tasks was assigned |
| CardIdentity.SessionCardsAreUnique | frontend/src/pages/HomePage.tsx:201-206 | If the bank's ids tell cards apart, planned cards and bonus cards of one session all have different ids |
| CardIdentity.SessionCardsAreUniqueExactly | frontend/src/pages/HomePage.tsx:364-369 | Over every session with task ids from a pool, cards have different ids exactly when no two disjoint lists of those ids make one card id |
| CardIdentity.ClashingListsClash | frontend/src/pages/HomePage.tsx:364-369 | Two lists that do make one card id, given out as two bundles of one member, are a session with two equal cards |
| CardIdentity.PlainIdsTell | frontend/src/pages/HomePage.tsx:368-368 | Ids without a plus sign tell all cards apart |
| CardIdentity.UnplainIdsClash | frontend/src/pages/HomePage.tsx:368-368 | Two families of ids with a plus sign do not: one that spells out a bundle of two others, and bundles split at different plus signs |
| Session.HomePage.StartSession | frontend/src/pages/HomePage.tsx:181-211 | Planning from the page's own history or from none, grouping and resetting lead to the specified starting state, rest included |
| Session.HomePage.FinishTask | frontend/src/pages/HomePage.tsx:213-228 | The whole new state of finishing a card: ids, history, bonus count and screen; a finished card changes nothing |
| Session.HomePage.StartBonus | frontend/src/pages/HomePage.tsx:230-237 | The next bonus card moves to the planned ones and gets at least a minute on the clock |
| Session.HomePage.DeclineBonus | frontend/src/pages/HomePage.tsx:257-257 | Declining ends the session and changes nothing else |
| Session.HomePage.Tick | frontend/src/pages/HomePage.tsx:130-134 | A running clock loses one second and nothing else changes |
| SessionStarts.ClockFitsTheWork | frontend/src/pages/HomePage.tsx:181-186 | The clock starts at the chosen minutes, and every participant's share fits on it |
| SessionStarts.RestExactlyWithoutWork | frontend/src/pages/HomePage.tsx:181-211 | A start leads to rest exactly when the plan assigns nothing, and otherwise to a running session with nothing finished |
| SessionStarts.BonusIsWhatIsLeftOver | frontend/src/pages/HomePage.tsx:203-206 | Exactly the tasks the plan leaves over are on offer as bonus cards, in the plan's order |
| SessionStarts.BonusSetsTheClock | frontend/src/pages/HomePage.tsx:230-237 | Accepting a bonus moves the first offer and sets the clock to its minutes, at least one |
| SessionStarts.OrdinaryStartRespectsHistory | frontend/src/pages/HomePage.tsx:194-194 | An ordinary start deals no task that rests after a remembered completion, neither planned nor as a bonus |
| SessionStarts.IgnoringHistoryStartsAfresh | frontend/src/pages/HomePage.tsx:194-194 | Starting regardless of history deals what a page without history would deal, and keeps the page's own |
| Session.StartedSessionIsCoherent | frontend/src/pages/HomePage.tsx:181-211 | A session started from any set-up whose ids tell cards apart satisfies the session invariant |
| Session.StepKeepsCoherence | frontend/src/pages/HomePage.tsx:213-237 | Every step keeps it: finished ids are distinct planned cards, the bonus count is the number of finished bonus cards, drawn and remaining bonus cards are the offered list |
| Session.StepMakesProgress | frontend/src/pages/HomePage.tsx:130-134 | Finish, bonus and tick decrease (twice the remaining bonus cards plus unfinished cards, seconds) lexicographically |
| Session.SessionNeverGetsStuck | frontend/src/pages/HomePage.tsx:213-237 | Until it is over a session always offers a step besides waiting |
| Session.FinishingDecidesScreen | frontend/src/pages/HomePage.tsx:224-227 | Comparing counts decides rightly: go on while a card is unfinished, then offer a bonus if any is left and time remains, else end |
| Session.DoneMeansAllFinished | frontend/src/pages/HomePage.tsx:224-237 | When a session is over every card drawn has been finished |
| Session.RunIsAccountedFor | frontend/src/pages/HomePage.tsx:213-237 | Over any run the finish and bonus steps equal the drop in work left, so a run has at most twice the bonus cards plus the planned cards of them |
| Session.RunIsBounded | frontend/src/pages/HomePage.tsx:130-134 | No run, ticks included, has more steps than the cards to finish and draw, the seconds on the clock and of every bonus card, and one for its end |
| SessionRecords.AssignedTaskIsOnACard | frontend/src/pages/HomePage.tsx:346-369 | Every assigned task is among the ids some card records |
| SessionRecords.IncludedTasksAreRecordedExactly | frontend/src/pages/HomePage.tsx:346-369 | In a plan, what a task includes is recorded with its card exactly when the card holds that one task |
| SessionRecords.RunKeepsRecords | frontend/src/pages/HomePage.tsx:217-221 | Over any run every finished card was recorded by the step that finished it, and all it stands for is in the history unless that very step lies further back than the retention |
| SessionRecords.FinishedSessionRecordsItsPlan | frontend/src/pages/HomePage.tsx:181-237 | A session run to its end, however long it takes, has a card for each assigned task that was recorded in that sense |
| SessionRecords.RecentTaskIsNotPlanned | frontend/src/domain/taskEngine.ts:160-175 | No plan made while a completion in the history is within its task's cooldown assigns that task |
| SessionRecords.FinishedTaskIsNotReplanned | frontend/src/pages/HomePage.tsx:217-221 | A finished card's tasks are not planned again within their cooldown, whatever is completed and pruned meanwhile if the cooldown is at most 730 days, and right after finishing for any cooldown |
| SessionRecords.NeverReplannedEarlyExactly | frontend/src/domain/taskHistory.ts:49-52 | For a task the planner would assign if nothing were remembered, no session and no later history lets it be planned within its cooldown exactly when that is at most 730 days |
| TaskHistory.OnCooldownMeansRecentCompletion | frontend/src/domain/taskHistory.ts:34-40 | The test on the latest completion holds exactly when some completion of the task is recent |
| TaskHistory.CooldownHasItsCompletion | frontend/src/domain/taskHistory.ts:42-47 | A task on cooldown has a latest completion, and it is the one the cooldown is measured from |
| TaskHistory.PruningKeepsCooldown | frontend/src/domain/taskHistory.ts:34-52 | For cooldowns up to 730 days pruning does not change the answer now or later |
| TaskHistory.PruningIsTransparent | frontend/src/domain/taskHistory.ts:49-52 | That bound is exact: pruning is unobservable for a cooldown if and only if it is at most 730 days |
| DueTests.PruningKeepsCoolingDown | frontend/src/domain/taskEngine.ts:227-238 | For banks whose cooldowns are at most 730 days pruning does not change the planner's test, repeat groups and superseding cards included |
| DueTests.PruningIsTransparentToPlanner | frontend/src/domain/taskEngine.ts:227-238 | That bound is exact for every bank with unique ids |
| DueTests.CooldownTestsAgree | frontend/src/domain/taskEngine.ts:227-249 | For a task nothing stands in for, the existential and the latest-based test differ exactly when its cooldown is not positive and a completion is dated further in the future than the cooldown falls short of zero |
| Weekly.ListedWhenNothingRecent | frontend/src/domain/weeklyRecommendation.ts:22-43 | An eligible task is listed exactly when nothing that counts for it was done within its recurrence |
| WeeklyAdvice.ListedExactly | frontend/src/domain/weeklyRecommendation.ts:22-36 | A task is listed exactly when it recurs, is meant for the advice, in season and released, and no completion of it or its repeat group lies within its recurrence |
| Weekly.DueTestsAgree | frontend/src/domain/weeklyRecommendation.ts:22-43 | Weekly listing, the history's cooldown and the planner's cooldown give one answer for a task nothing stands in for |
| Weekly.RecommendationIsUnbeaten | frontend/src/domain/weeklyRecommendation.ts:18-43 | The list is ranked, and its first entry is unbeaten and present whenever any task is due |
| WeeklyAdvice.AdviceIsRanked | frontend/src/domain/weeklyRecommendation.ts:40-40 | The list comes by falling score, equal scores by id |
| WeeklyAdvice.ScoreIsUrgency | frontend/src/domain/weeklyRecommendation.ts:32-39 | The score is the time since the latest completion in recurrences, 2 for what was never done, plus the priority in hundredths |
| WeeklyAdvice.AdviceTellsTheDays | frontend/src/domain/weeklyRecommendation.ts:32-39 | New is what was never done; any other entry tells the whole days since it was last done and those beyond its recurrence |
| Weekly.OverdueDaysAreConsistent | frontend/src/domain/weeklyRecommendation.ts:36-39 | Days since completion are the recurrence plus the days overdue, which are never negative |
| Calendar.NextDayAddsOne | frontend/src/domain/taskSchedule.ts:91-95 | Rolling a date over moves its day number, counted by the leap-year rule, by one |
| Calendar.DayNumberIsInjective | frontend/src/domain/taskSchedule.ts:91-95 | No two dates share a day number |
| Calendar.DateOfInvertsDayNumber | frontend/src/domain/taskSchedule.ts:87-95 | Counting days from the epoch and back is the identity |
| Calendar.MoveIntoActiveSeason | frontend/src/domain/taskSchedule.ts:71-79 | The loop returns the date that the search function describes |
| Calendar.SeasonSearchSucceeds | frontend/src/domain/taskSchedule.ts:71-79 | With a real month listed, the result is the first date on or after the input in an active month, at most 337 days on |
| Calendar.SeasonSearchFallsThrough | frontend/src/domain/taskSchedule.ts:74-78 | The loop runs out of its 370 days exactly when no listed month exists |
| Calendar.LongestSeasonWait | frontend/src/domain/taskSchedule.ts:71-79 | 337 days are reached, from the first of March to the next February |
| TaskSchedule.ComputeStableHash | frontend/src/domain/taskSchedule.ts:81-85 | The shifting loop computes the absolute value of the signed 32-bit residue (ToInt32, section 7.1.6 of ECMA-262) of the base-31 polynomial of the code units |
| TaskSchedule.CodeUnitsReadBack | frontend/src/domain/taskSchedule.ts:83-83 | The code units hashed are the UTF-16 encoding: read back, they are the characters |
| TaskSchedule.HashStep | frontend/src/domain/taskSchedule.ts:83-83 | One turn multiplies the residue by 31 and adds the code unit, modulo 2^32 |
| Staggering.OffsetIsHashWithinHorizon | frontend/src/domain/taskSchedule.ts:65-67 | The offset less one is the remainder of the id's hash by the horizon: the recurrence below six weeks and from half a year to a year, otherwise six weeks, and a year beyond |
| Staggering.EveryDayIsHit | frontend/src/domain/taskSchedule.ts:65-67 | Every day of the horizon is the offset of some id |
| TaskSchedule.FirstDueIsInSeasonExactly | frontend/src/domain/taskSchedule.ts:61-69 | A task first falls due in one of its months, whatever they are, exactly when its date is hashed; tasks due at once and deep tasks ignore the season |
| TaskSchedule.FirstDueWithinRetention | frontend/src/domain/taskSchedule.ts:61-69 | Unless the months listed do not exist, first due dates lie at most 702 days ahead, and 728 for the first 105 deep tasks |
| TaskSchedule.UnrealMonthsWithinRetention | frontend/src/domain/taskSchedule.ts:71-79 | With only months that do not exist, a hashed date lies within the retention exactly up to an offset of 360 days, or 361 in the last millisecond of a day |
| TaskSchedule.DeepIndexBoundIsExact | frontend/src/domain/taskSchedule.ts:63-63 | A deep task's date stays within the retention exactly up to index 104 |
| TaskSchedule.ScheduleStorage.LoadOrCreateTaskSchedule | frontend/src/domain/taskSchedule.ts:17-41 | Loading stores and returns the specified schedule, keeping the recorded start |
| Staggering.NewTaskIsScheduledExactly | frontend/src/domain/taskSchedule.ts:28-31 | A task new to the schedule gets a date exactly when it recurs, is to be done at once on first use, or is deep |
| Staggering.UrgentTaskFallsDue | frontend/src/domain/taskSchedule.ts:32-37 | What was done before falls due at the present, first-use work at the midnight past |
| Staggering.HashedTaskFallsDue | frontend/src/domain/taskSchedule.ts:61-69 | Without a season a hashed task falls due as many days after midnight as the remainder of its hash by the horizon, plus one |
| Staggering.SeasonalTaskFallsDue | frontend/src/domain/taskSchedule.ts:61-79 | With a season it falls due on the first day in season from there on |
| Staggering.DeepTaskFallsDue | frontend/src/domain/taskSchedule.ts:63-63 | A deep task falls due a whole number of weeks after midnight, below the number of deep tasks |
| Staggering.DeepTasksTakeTurns | frontend/src/domain/taskSchedule.ts:22-26 | Of two deep tasks the one boosted more, or with the earlier id, falls due at least a week earlier |
| TaskSchedule.EntryIsTheTasksOwn | frontend/src/domain/taskSchedule.ts:28-37 | A task's entry in the result is the one it contributes, and there is no other |
| TaskSchedule.LoadingKeepsEntries | frontend/src/domain/taskSchedule.ts:28-30 | A reload leaves the stored due date of every task still in the bank unchanged |
| TaskSchedule.NextReleaseAgrees | frontend/src/domain/taskSchedule.ts:43-55 | The announced next release is the soonest task the release test holds back, and is absent exactly when none is |
| ReleaseRuns.FirstLoadSecures | frontend/src/domain/taskSchedule.ts:28-37 | With at most 105 deep tasks and months that exist, the load that schedules a task gives it a date that no forgotten completion can precede |
| ReleaseRuns.RunKeepsRelease | frontend/src/domain/taskSchedule.ts:43-47 | Over every run of waiting, loading, completing and pruning the entry stays and a release is never taken back |
| ReleaseRuns.ReleaseIsPermanent | frontend/src/domain/taskSchedule.ts:28-47 | Under the same two assumptions, from the load that schedules a task, once released it stays released in every run that keeps it in the bank |
| ReleaseRuns.ReleaseIsPermanentWithinRetention | frontend/src/domain/taskSchedule.ts:43-47 | For a scheduled task not yet done this holds of all runs exactly when its date is at most 730 days and 1 ms ahead |
| ReleaseRuns.ForgottenCompletionRevertsRelease | frontend/src/domain/taskHistory.ts:49-52 | Beyond that, completing, waiting and reopening takes the release back |
| Codes.MemoryCodeStore.Issue | backend/internal/auth/codes.go:70-88 | The whole new store and the answer of an issue: sweep, cooldown, replacement |
| Codes.MemoryCodeStore.Consume | backend/internal/auth/codes.go:91-117 | The whole new store and the answer of a redemption in each of its five cases |
| Codes.MemoryCodeStore.Len | backend/internal/auth/codes.go:120-124 | The number of keys with an outstanding code |
| Codes.MemoryCodeStore.PurgeExpiredLocked | backend/internal/auth/codes.go:126-132 | The sweep removes exactly the expired records and alters no other |
| CodeLog.StoreRepresentsLog | backend/internal/auth/codes.go:70-117 | At every point of every run, each record is the outstanding issue of the log with its count of wrong guesses, and a missing record means none is outstanding or it has expired |
| CodeLog.OutcomesExplained | backend/internal/auth/codes.go:70-117 | Every answer of the sweeping store is determined by the log of calls, for every policy; without sweeping all but issues under a resend interval that outlasts the code |
| CodeLog.PurgingIsInvisible | backend/internal/auth/codes.go:126-132 | A store that sweeps and one that never does answer all runs alike exactly when the resend interval does not outlast the code |
| CodeLog.SweepLiftsCooldown | backend/internal/auth/codes.go:74-80 | Otherwise an issue just after expiry is accepted though the interval is still running |
| CodeLog.RedemptionSpendsAnIssue | backend/internal/auth/codes.go:95-116 | Every redemption has an earlier accepted issue of its key and digest, in time, with nothing between that would have ended or replaced it |
| CodeLog.RedemptionsAreInjective | backend/internal/auth/codes.go:114-116 | No two redemptions spend the same issue |
| CodeLog.GuessesStayBelowLimit | backend/internal/auth/codes.go:105-112 | An outstanding code has always absorbed fewer wrong guesses than the limit |
| CodeLog.LockoutIsTheLastGuess | backend/internal/auth/codes.go:105-112 | A lockout answers exactly the wrong guess that reaches the limit, and leaves no code outstanding |
| CodeLog.EarlyReissueNeedsClosure | backend/internal/auth/codes.go:76-86 | Two accepted issues closer than the resend interval and the lifetime have a redemption or lockout between them, for every policy |
| SignIn.ParseUsers | backend/internal/config/config.go:229-256 | The list is accepted exactly when no entry is malformed and then says each address's last word with valid roles only; otherwise the first malformed entry decides the error |
| Allowlist.AllowlistMeansItsText | backend/internal/config/config.go:229-256 | For parts joined with commas the answer is what the parts say: the valid role each address is last given, or the first part without colon, address or role |
| Allowlist.EveryTextMeansSomething | backend/internal/config/config.go:229-256 | The same for every text, cut at its commas |
| Allowlist.MeaningIsUnique | backend/internal/config/config.go:235-255 | What the parts say leaves one answer only |
| Allowlist.NamesExactly | backend/internal/config/config.go:236-253 | An entry is read as this address with this role exactly when it is written as `email:role` inside white space, cut at the first colon |
| Text.SplitJoins | backend/internal/config/config.go:236-236 | Splitting yields parts without the separator that, joined, give the text back |
| Text.JoinSplits | backend/internal/config/config.go:236-236 | Joining parts and splitting is the identity |
| Text.TrimTakesPadding | backend/internal/config/config.go:237-249 | Trimming takes off white space at both ends and nothing else |
| SignIn.Service.RequestCode | backend/internal/auth/service.go:91-127 | The new store and the reply of a code request in every case, failed delivery included |
| SignIn.Service.VerifyCode | backend/internal/auth/service.go:148-172 | The new store and the reply of a verification in every case |
| SignIn.RecordsComeFromRequests | backend/internal/auth/service.go:104-117 | At every point of every run a stored record was left by an earlier request of a recognised address |
| SignIn.RolesAreConfigured | backend/internal/auth/service.go:163-187 | Over whole runs a sign-in carries exactly the role configured for that address |
| SignIn.OtherRecordsSurvive | backend/internal/auth/service.go:104-117 | One call leaves every other record as it was but for its guess counter |
| SignIn.SignInProvesPossession | backend/internal/auth/service.go:148-172 | Whoever signs in typed an unexpired code that was drawn for that very address |
| SignIn.ServiceRunsTheStore | backend/internal/auth/service.go:91-172 | Every run of the service leaves the store that the run of its store calls leaves |
| SignInRuns.RepliesAreTheOutcomes | backend/internal/auth/service.go:113-172 | Every reply that depends on the store is the one its call's outcome in that run of the store calls for |
| SignInRuns.CurrentIsOutstanding | backend/internal/auth/service.go:91-172 | The request whose code is current, as the replies tell, is the outstanding issue of the store's run |
| SignInRuns.RequestIsAnswered | backend/internal/auth/service.go:91-127 | Over whole runs a request is refused exactly while the current code's resend interval and lifetime both run |
| SignInRuns.EveryRequestIsAnswered | backend/internal/auth/service.go:91-127 | Every reply to a code request over whole runs, from allowlist and earlier replies: a stranger's address gets the very answer of a delivered code |
| SignInRuns.StrangersAreAnsweredAlike | backend/internal/auth/service.go:86-106 | An answer to a stranger's address differs from one to an address that may sign in by the address alone |
| SignInRuns.UnknownAddressLeavesNoTrace | backend/internal/auth/service.go:104-111 | A request for a stranger, or under an impossible code length, stores nothing |
| SignInRuns.VerificationIsAnswered | backend/internal/auth/service.go:148-172 | Over whole runs a code signs in exactly when it is that of the current request and in time; the wrong one that reaches the limit locks out; any other is invalid |
| SignInRuns.EveryVerificationIsAnswered | backend/internal/auth/service.go:148-172 | Every reply to a typed code over whole runs, blank codes and malformed addresses included |
| SignInRuns.SignInsSpendDifferentRequests | backend/internal/auth/service.go:158-161 | Single use: no two sign-ins of a run spend the same request |
| SignInRuns.WrongTriesStayBelowLimit | backend/internal/auth/service.go:158-161 | Attempt limit: a current code has been tried wrongly, in time, less often than the limit |
| SignInRuns.EarlyRequestNeedsEnd | backend/internal/auth/service.go:113-117 | Resend interval: two codes stored for an address while the first one's interval and lifetime run have a sign-in or lockout between them |
| SignIn.StoredCodeSignsInOnce | backend/internal/auth/service.go:115-124 | A code just stored, delivered or not, signs in at the next call and not at the one after |
| SignIn.FailedDeliveryHoldsBackRetry | backend/internal/auth/service.go:115-124 | After a failed delivery a retry is refused exactly while the resend interval and the code's lifetime both run |
| Checklist.RehomeHiddenFloorTasks | frontend/src/domain/roomChecklist.ts:486-515 | The loop that filters and collects yields the specified re-homed sections |
| Checklist.RehomingPermutesTasks | frontend/src/domain/roomChecklist.ts:486-515 | Re-homing loses no task and repeats none |
| Checklist.RehomingIsIdempotent | frontend/src/domain/roomChecklist.ts:486-515 | Re-homing a re-homed checklist changes nothing |
| Checklist.HiddenFloorTasksAreRehomed | frontend/src/domain/roomChecklist.ts:495-507 | Afterwards tasks about hidden floor stand only in the floor section |
| Checklist.OtherTasksStayPut | frontend/src/domain/roomChecklist.ts:496-507 | All other tasks stay in their section and in their order there |
| Checklist.MovedTasksKeepChecklistOrder | frontend/src/domain/roomChecklist.ts:495-513 | Of two tasks that moved the one listed first still comes first |
| Checklist.FloorSectionOrder | frontend/src/domain/roomChecklist.ts:509-513 | The floor section is in original order exactly when it had no tasks of its own or nothing came from a later section |
| Condense.CondenseSection | frontend/src/domain/roomChecklist.ts:440-484 | Grouping through a map of growing groups, sorting and merging yields the specified rows |
| Condense.TaskGroupsAreGroups | frontend/src/domain/roomChecklist.ts:448-458 | The map holds the classes of phase and topic in order of first appearance, each with the place where it began |
| Condense.GroupsHoldTheTasks | frontend/src/domain/roomChecklist.ts:448-458 | The groups are non-empty, each in the section's order, and together are the section's tasks |
| Condense.RowsFollowPhases | frontend/src/domain/roomChecklist.ts:460-471 | Rows come phase by phase, and in a phase in the order their tasks first appear |
| RowOrder.RowsFollowTheirTasks | frontend/src/domain/roomChecklist.ts:460-470 | Of two rows the earlier one's tasks are of an earlier phase in the order of the section's kind, or of the same phase and started earlier |
| RowOrder.OrdinarySectionsFollowTheWork | frontend/src/domain/roomChecklist.ts:460-464 | Ordinary sections never show work before what it depends on: prepare, clean, restore, inspect |
| RowOrder.ShareARowExactly | frontend/src/domain/roomChecklist.ts:448-458 | Two tasks share a row exactly when they agree in phase and topic, all floor work outside the cleaning phase being one topic |
| RowOrder.RowShowsItsTasks | frontend/src/domain/roomChecklist.ts:471-483 | A task alone in its row is shown as it is; several become a row named after section, phase and topic that includes them all |
| RowOrder.RowsKeepTheOrder | frontend/src/domain/roomChecklist.ts:448-458 | The tasks behind a row stand in the section's order |
| RowOrder.SectionsAsShown | frontend/src/domain/roomChecklist.ts:395-401 | The bedroom's checklist is shown as written; any other keeps its sections and shows the rows of what re-homing leaves in them |
| Condense.RowsAreClasses | frontend/src/domain/roomChecklist.ts:471-483 | Each row's source ids are those of one non-empty class of tasks, in the section's order |
| Condense.MergedRowSpeaksForItsTasks | frontend/src/domain/roomChecklist.ts:471-483 | A merged row is unconditional exactly when a task is, claims no condition its tasks lack, and shows a safety note exactly when all its noted tasks carry it |
| Condense.CombinedConditionIsShared | frontend/src/domain/roomChecklist.ts:650-654 | A combined condition is `always`, shared by every task, or the vague one, and a shared condition is kept |
| Condense.CondensingKeepsIds | frontend/src/domain/roomChecklist.ts:440-484 | The source ids of a section's rows are the ids of its tasks |
| Condense.DisplayKeepsIds | frontend/src/domain/roomChecklist.ts:387-405 | Over the whole checklist, the rows on display stand for exactly its tasks, none lost and none twice |
| ChecklistProgress.RowsResolvedMeansTasksResolved | frontend/src/domain/roomChecklist.ts:407-414 | All rows are resolved exactly when all tasks of the checklist are |
| ChecklistProgress.FullBarMeansTasksResolved | frontend/src/domain/roomChecklist.ts:416-423 | The resolved count reaches the row count exactly when every task is resolved |
| ChecklistProgress.RemainingCountsTasks | frontend/src/pages/RoomChecklistPage.tsx:57-61 | The remaining work counted over rows is the number of unresolved tasks of the checklist |
| ChecklistProgress.RowReadsBack | frontend/src/pages/RoomChecklistPage.tsx:86-92 | A row reads back exactly what was set on it, unless it stands for no task |
| ChecklistProgress.StatusExactly | frontend/src/domain/roomChecklist.ts:407-414 | A row is open while one of its tasks is, completed when all were completed, and otherwise skipped |
| ChecklistProgress.UpdateIsLocal | frontend/src/pages/RoomChecklistPage.tsx:86-92 | One update gives its row the status and leaves every other row's status alone |
| ChecklistProgress.CountMovesWithTheRow | frontend/src/domain/roomChecklist.ts:416-423 | The resolved count moves by what happens to that row: one up, one down or not at all |
| ChecklistProgress.ChecklistRowsAreProper | frontend/src/domain/roomChecklist.ts:395-405 | Unique task ids make the rows of any checklist disjoint and non-empty |
| ChecklistProgress.EveryRowShowsItsLastStatus | frontend/src/pages/RoomChecklistPage.tsx:86-92 | From any stored progress, after any run of settings and clearings, every row shows what was last set on it, or its first status if it never was |
| ChecklistPage.UpdateEach | frontend/src/pages/RoomChecklistPage.tsx:89-92 | The loop over source ids sets or deletes exactly those ids |
| ChecklistPage.RoomChecklistPage.SetItemStatus | frontend/src/pages/RoomChecklistPage.tsx:86-98 | The new progress of this room, all other rooms unchanged, and the history synchronised with the new progress |
| ChecklistPage.RoomChecklistPage.SyncCompletedPlannerTasks | frontend/src/pages/RoomChecklistPage.tsx:100-122 | The loop over links yields the specified history and names exactly the credited tasks |
| ChecklistPage.RoomChecklistPage.ResetChecklist | frontend/src/pages/RoomChecklistPage.tsx:124-131 | Starting over forgets this room's progress and keeps the history |
| ChecklistPage.SettingARowShows | frontend/src/pages/RoomChecklistPage.tsx:86-98 | On any checklist with unique ids, a step changes exactly one row and the count accordingly |
| ChecklistPage.WholeChecklistLinkIsMetAtFullBar | frontend/src/pages/RoomChecklistPage.tsx:105-106 | A link that requires the whole checklist is met exactly when the bar over merged rows is full and nothing remains |
| PlannerSync.SyncAppends | frontend/src/pages/RoomChecklistPage.tsx:100-118 | A sync leaves the history untouched or is its unexpired part followed by the credits |
| PlannerSync.CreditsAreEarned | frontend/src/pages/RoomChecklistPage.tsx:104-112 | Everything credited belongs to a link whose requirements are all resolved |
| PlannerSync.MetTasksAreOnCooldown | frontend/src/pages/RoomChecklistPage.tsx:100-118 | After a sync every task of a met link whose cooldown is positive and at most 730 days is on cooldown |
| PlannerSync.SyncIsIdempotentExactly | frontend/src/pages/RoomChecklistPage.tsx:100-118 | If the met links' cooldowns are at most 730 days, or they are all for one task, a second sync at the same instant adds nothing exactly when no met link names a task without a positive cooldown |
| PlannerSync.LongCooldownsBreakIdempotence | frontend/src/domain/taskHistory.ts:22-24 | In any bank, a task with a longer cooldown beside any other task leads to a sync whose repetition credits what it withheld |
| PlannerSync.SyncIsAlwaysIdempotentExactly | frontend/src/pages/RoomChecklistPage.tsx:100-118 | For a bank, every sync with any links, progress and history is idempotent exactly when all cooldowns are positive and, unless the bank has one task, at most 730 days |
| CreditRuns.CreditsAreSpaced | frontend/src/pages/RoomChecklistPage.tsx:100-118 | Over every run of loads, finished cards and syncs from an empty history, a credit lies its task's cooldown, or one millisecond past the retention if that is shorter, after every earlier completion of the task |
| CreditRuns.CooldownHoldsExactly | frontend/src/domain/taskEngine.ts:240-249 | The credits of all runs keep a task's full cooldown exactly when it is at most 730 days |

## Left out

- Signing and verifying session tokens, and the expiry of sessions: only the two refusals of token issuing are modelled.
- The keyed digest, address parsing and drawing of random codes: arbitrary functions and parameters; delivery is a flag.
- HTTP handlers, middleware, cookies, routing, the database, environment loading other than the allowlist.
- Time zones, daylight saving, invalid dates, and rounding of scores: days are Gregorian, scores are reals.
- The clock inside one synchronisation or one finished card: one instant stands for the several readings of the source.
- Storage failures and damaged stored data: storage is a value that reads back as written.
- The title classifiers of the checklist and its row titles: arbitrary total functions, so every result holds for any of them.
- The task and checklist data: quantified over; that supersession has no cycles and ids are unique are stated assumptions.
- Comparison of ids by locale: an arbitrary strict order.
- Incident sessions, single-card weekly sessions, leaving a session half-way, and the weekly overview texts.
- Texts, tools, warnings and sub-task labels on cards: a card keeps its id, recorded ids, minutes and member.
- Several clicks before the page renders again: a step reads the state its predecessor wrote.
- Estimated minutes of a checklist and the rounded percentage: only the counts they are computed from are modelled.
