# git-copycat, modelled in Dafny

git-copycat mirrors a GitHub user's contribution calendar into a git
repository. It reads the calendar through the GitHub GraphQL API. It reads
the dates of the commits already in the target repository from `git log`.
For every day where the repository has fewer commits than the calendar
shows contributions, it creates the missing number of empty commits,
backdated to noon of that day. The commits are created in date order and
each carries the message `Contribution sync: <date> (<i>/<n>)`. A run that
follows a completed run creates nothing.

This project models the decision logic of that pipeline and proves what
it promises:

- `settings.dfy` (`Settings`): reading and validating the configuration
  from an environment map. A missing token, username or target is
  reported in that order, every field is the corresponding variable's
  value, the flags are on only for the exact text `"true"`, and the
  target repository is resolved.
- `contributions.dfy` (`Contributions`): flattening the calendar's weeks
  into the days with a positive count, in order.
- `inventory.dfy` (`Inventory`): turning `git log` output into per-date
  counts by trim, split, dropping empty lines and tallying.
- `writer.dfy` (`Writer`): the timestamp and the commit message of one
  backdated commit, and the numbered commits of one day.
- `plan.dfy` (`Plan`): the commit plan calculator. Its result is
  characterised as the unique exact, complete, date-sorted plan.
  Applying a plan closes every deficit, so planning again yields
  nothing.
- `sync.dfy` (`Sync`): `main` once configured. This covers the source
  map, the commit total, the commit loop, the dry-run, confirmation and
  push decisions, and the end-to-end property that a re-run after a
  completed sync plans no commits.
- `text.dfy`, `tallies.dfy`, `results.dfy`: string order, decimal
  numerals, `trim`/`split`, per-date count maps, and `Option`/`Result`.

## Model

| member | source | states |
|---|---|---|
| Settings.GetConfig | src/index.ts:19-65 | accepted exactly when the token, the username, and a path or URL are given (non-empty); a missing token is reported first, then a missing username, then a missing target; the flags are on iff the variable is exactly "true"; token, username, path, URL, git name and e-mail are copied from the environment, and the date bounds are the overrides given |
| Settings.ConfigError.Message | src/index.ts:25-33 | each error's text names the missing variables and ends in " environment variable is required" |
| Settings.ErrorMessagesDistinct | src/index.ts:25-33 | the three error texts differ from one another |
| Settings.Flag | src/index.ts:46-48 | a flag is on iff its variable is present and equals "true" |
| Settings.DateOverride | src/index.ts:39-44 | a date bound is overridden exactly when its variable is present and non-empty, and then by that variable's text |
| Settings.ResolveTarget | src/index.ts:97-106 | the repository is cloned iff a URL is given, from that URL; otherwise the configured path is used |
| Settings.Identity | src/index.ts:117-119 | git identity is configured iff both name and e-mail are given, and then with exactly the configured name and e-mail, both non-empty |
| Contributions.FetchContributions | src/github.ts:49-63 | the result is exactly the calendar's days with a positive count, in calendar order; at most one per cell; every count positive |
| Contributions.KeepPositive | src/github.ts:53-60 | the inner loop keeps one week's positive days in order |
| Contributions.Positive | src/github.ts:54-59 | the filter never lengthens the list and keeps only positive counts |
| Contributions.PositiveMembers | src/github.ts:54-58 | a cell appears in the result (date and count unchanged) iff its count is positive |
| Contributions.PositiveAppend | src/github.ts:52-61 | filtering distributes over concatenation, so kept days stay in calendar order |
| Inventory.LogLines | src/git.ts:14 | the dates read from a log are non-empty and contain no line feed |
| Inventory.Tally | src/git.ts:16-18 | the tally has at most one key per line; its contents are stated by `Inventory.TallyCounts` |
| Inventory.TallyCounts | src/git.ts:16-18 | the tally's keys are exactly the dates listed, and each count equals the number of times its date is listed |
| Inventory.TallyTotal | src/git.ts:16-18 | the counts add up to the number of lines |
| Inventory.ExistingCommitCounts | src/git.ts:8-24 | an unreadable log gives no counts; otherwise the keys are the non-empty trimmed log lines, each counted by its multiplicity (at least 1), summing to the number of lines |
| Inventory.ReadBackLog | src/git.ts:12-14 | trimming, splitting and filtering the output git prints for a history of dates gives back those dates in order |
| Inventory.InventoryOfHistory | src/git.ts:8-24 | the inventory of such a log is the tally of the history's dates |
| Writer.Timestamp | src/git.ts:27 | the timestamp is the date followed by `T12:00:00`; `Writer.DayOfTimestamp` recovers the date |
| Writer.Message | src/git.ts:40 | the message starts with "Contribution sync: " and the date and ends with ")"; `Writer.ParseMessageRoundTrip` recovers date, ordinal and count |
| Writer.BackdatedCommit | src/git.ts:26-36 | the commit keeps the message, and its `--date` flag, author date and committer date are the same timestamp, which falls on the requested day |
| Writer.DayOfTimestamp | src/git.ts:27 | the day of `<date>T12:00:00` is `<date>` |
| Writer.ParseMessageRoundTrip | src/git.ts:40 | a sync message can be parsed back into its date, ordinal and count |
| Writer.MessageInjective | src/git.ts:40 | messages for different (date, ordinal, count) differ |
| Writer.Numbered | src/git.ts:39-42 | after `made` iterations the loop has issued `made` requests, the k-th on the day with ordinal k+1 of `count` |
| Writer.DayCommitNumbered | src/git.ts:39-42 | the k-th commit of a day is on that day and its message parses to ordinal k+1 of `count` |
| Writer.CreateCommitsForDay | src/git.ts:38-43 | the loop issues exactly `count` requests for the day, numbered 1 to `count` |
| Plan.Deficit | src/index.ts:79 | the commits to create are never negative and are the shortfall when there is one |
| Plan.EntryFor | src/index.ts:77-82 | an entry records the date, the source count, the existing count (0 when absent) and the deficit |
| Plan.SortByDate | src/index.ts:86 | sorting permutes the entries and leaves them in date order |
| Plan.CalculateCommitPlan | src/index.ts:74-89 | every entry is a source date's exact positive deficit; every date behind has its entry; dates strictly ascend |
| Plan.PlanIsUnique | src/index.ts:74-89 | two plans meeting that description are equal, so the map's visiting order does not matter |
| Plan.Apply | src/index.ts:182-189 | once a plan is carried out, each date's count grows by exactly what the plan schedules there |
| Plan.ApplyingPlanCloses | src/index.ts:77-83 | after the plan, each source date has max(needed, existing) commits |
| Plan.ReplanAfterApplyIsEmpty | src/index.ts:74-89 | planning against the counts after the plan gives the empty plan |
| Plan.NothingBehindPlansNothing | src/index.ts:81-83 | when no source date is behind, the plan is empty |
| Plan.ExampleFreshRepository | src/index.ts:74-89 | two missing days on an empty repository are planned in date order with their full counts |
| Plan.ExampleInSync | src/index.ts:79-81 | a day in sync, or with excess commits, is not planned |
| Sync.SourceMap | src/index.ts:126-129 | the source map has at most one entry per fetched day; its contents are stated by `Sync.SourceMapKeys` and `Sync.SourceMapLastWins` |
| Sync.SourceMapKeys | src/index.ts:126-129 | the source map's keys are exactly the fetched days' dates |
| Sync.SourceMapLastWins | src/index.ts:126-129 | a date fetched more than once keeps its last count |
| Sync.TotalCommits | src/index.ts:145 | no entry asks for more commits than the total, and a plan of positive entries totals at least one commit per entry; `Sync.Schedule` shows it is the number of commits created |
| Sync.Schedule | src/index.ts:182-189 | the run issues `totalCommits` requests, and on each date exactly as many as the plan adds there |
| Sync.WriteCommits | src/index.ts:181-189 | the commit loop issues exactly the schedule's requests, and `created` ends at `totalCommits` |
| Sync.ScheduleMessageNamesDate | src/index.ts:184-185 | every commit's message names its own date and an ordinal between 1 and that date's count |
| Sync.ScheduleOrdered | src/index.ts:182-189 | commits are created in non-decreasing date order |
| Sync.ScheduleMessagesDistinct | src/index.ts:182-189 | no two commits of a run carry the same message |
| Sync.Run | src/index.ts:126-199 | `AlreadyInSync` only when the plan is empty; otherwise the plan is the commit plan; dry run iff `DRY_RUN`; cancelled iff not dry, not CI and not confirmed; a synced run creates the scheduled backdated commits and pushes iff `AUTO_PUSH` |
| Sync.HistoryAfterSchedule | src/index.ts:182-189 | adding the scheduled commits to a history yields the applied plan's counts |
| Sync.ResyncAfterRunIsEmpty | src/index.ts:74-89 | planning against the history extended by a run's commits gives the empty plan |
| Sync.RerunAfterSyncIsNoOp | src/git.ts:12-18 | the same, starting from the log git prints after the run, whatever order it lists the old and new commits in, so a second run finds nothing to do |
| Inventory.TallySameMultiset | src/git.ts:16-18 | the tally does not depend on the order of the log lines |
| Text.ParseNatToString | src/git.ts:40 | the ordinals and counts written into messages read back as the same numbers |
| Text.SplitJoin | src/git.ts:14 | splitting lines joined by a separator that none contains gives back the lines |
| Text.JoinSplit | src/git.ts:14 | joining the pieces of a split restores the text |
| Text.TrimKeepsInfix | src/git.ts:14 | `trim` removes exactly the leading and trailing white space |

## Left out

- `src/ui.ts` (banner, spinners, progress bar, printed plan, the prompt's
  text): output only. The operator's answer to the prompt is the boolean
  parameter `confirmed` of `Sync.Run`.
- Running git: `ensureRepo`, `pushToRemote`, the `git commit` process,
  `cloneRepo` and `configureGit`. Each commit is modelled as the
  invocation it produces (`Writer.EmptyCommit`). Pushing is the
  `pushed` flag of the outcome. `cloneRepo` and `configureGit` are not
  part of this model.
- The GraphQL request and the Octokit client: the parsed calendar (weeks
  of days) is the input. A response without a user would make the source
  throw; that case is not modelled.
- `getConfig`'s date window: the default "one year ago until now"
  depends on the clock, and `Date.parse` is not modelled. The bounds are
  kept as the given text (`Settings.DateOverride`) and are not passed to
  the fetch.
- Time zones: git's `--date=short` prints the author date in the time
  zone recorded in the commit, so the tool's commits, stamped at noon of
  a day, read back as that day. The model takes this as given rather
  than modelling git's date handling.
- `localeCompare`: modelled as lexicographic order by character code. It
  agrees with the locale order, and with chronological order, on
  `YYYY-MM-DD` dates. Sorting is modelled as insertion sort, since only
  the sorted result matters.
- The iteration order of the JavaScript `Map` in `calculateCommitPlan`:
  the method picks the next date arbitrarily. `Plan.PlanIsUnique` shows
  the result does not depend on the choice.
- `async`/`await`, `process.exit` and the thrown errors' printing: errors
  are `Result` values (`Settings.ConfigError`) and run outcomes
  (`Sync.Outcome`).
- Sync.RerunAfterSyncIsNoOp: requires every date involved to be a
  non-empty string without white space, as the dates git prints and the
  calendar returns are. A date with surrounding white space would be
  changed by `trim`.
- Sync.ScheduleOrdered: proved for strictly sorted plans, which is every
  plan `Plan.CalculateCommitPlan` returns.
- The source's number type: counts are natural numbers here. The
  calendar's `contributionCount` is an unbounded integer, filtered to the
  positive ones before it becomes a count.

Facts about the code that the model follows:

- The log is read with `--format=%ad`, the author date; the tool's
  commits set author and committer date to the same value.
- `getConfig` needs a path or a URL; `main` uses the URL when both are
  set (`Settings.GetConfig`, `Settings.ResolveTarget`).
- `getExistingCommitCounts` treats every failure of `git log` alike, not
  only the one on a repository without commits: the counts are empty
  (`Inventory.ExistingCommitCounts` with no log).
