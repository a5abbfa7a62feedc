/** The run itself (src/index.ts, `main`): contributions become the source
    counts, the repository's log becomes the existing counts, the plan
    reconciles the two, and the plan is expanded into the commits to
    create, one date after another. */
module Sync {
  import opened Results
  import opened Text
  import opened Tallies
  import opened Inventory
  import opened Writer
  import opened Contributions
  import opened Plan
  import opened Settings

  // ---------------------------------------------------------------------
  // Source counts
  // ---------------------------------------------------------------------

  /** No later day of `days` has the date of day `i`. */
  ghost predicate LastFor(days: seq<ContributionDay>, i: int)
    requires 0 <= i < |days|
  {
    forall j :: i < j < |days| ==> days[j].date != days[i].date
  }

  /** `sourceMap.set(day.date, day.count)` for each day in order: at most
      one entry per fetched day. Which entries it holds is stated by
      `SourceMapKeys` and `SourceMapLastWins`. */
  function SourceMap(days: seq<ContributionDay>): (source: Counts)
    ensures |source| <= |days|
  {
    if |days| == 0 then map[]
    else
      var last := days[|days| - 1];
      SourceMap(days[..|days| - 1])[last.date := last.count]
  }

  /** The keys are exactly the dates of the list. */
  lemma {:induction false} SourceMapKeys(days: seq<ContributionDay>)
    ensures forall date :: date in SourceMap(days) <==> exists k :: 0 <= k < |days| && days[k].date == date
  {
    if |days| > 0 {
      var init := days[..|days| - 1];
      SourceMapKeys(init);
      var last := days[|days| - 1];
      assert SourceMap(days) == SourceMap(init)[last.date := last.count];
      forall date | date in SourceMap(days)
        ensures exists k :: 0 <= k < |days| && days[k].date == date
      {
        if date != days[|days| - 1].date {
          var k :| 0 <= k < |init| && init[k].date == date;
          assert days[k] == init[k];
        }
      }
      forall date | exists k :: 0 <= k < |days| && days[k].date == date
        ensures date in SourceMap(days)
      {
        var k :| 0 <= k < |days| && days[k].date == date;
        if k < |init| {
          assert init[k] == days[k];
        }
      }
    }
  }

  /** A date listed more than once keeps the count of its last listing. */
  lemma {:induction false} SourceMapLastWins(days: seq<ContributionDay>, i: nat)
    requires i < |days| && LastFor(days, i)
    ensures days[i].date in SourceMap(days) && SourceMap(days)[days[i].date] == days[i].count
  {
    var init := days[..|days| - 1];
    if i < |init| {
      assert days[|days| - 1].date != days[i].date;
      assert init[i] == days[i];
      assert LastFor(init, i) by {
        forall j | i < j < |init|
          ensures init[j].date != init[i].date
        {
          assert init[j] == days[j];
        }
      }
      SourceMapLastWins(init, i);
    }
  }

  /** The source counts of a contribution calendar. */
  function SourceCounts(weeks: seq<Week>): Counts
  {
    SourceMap(Positive(AllDays(weeks)))
  }

  // ---------------------------------------------------------------------
  // The commit schedule
  // ---------------------------------------------------------------------

  /** `plan.reduce((sum, p) => sum + p.toCreate, 0)`: no entry asks for
      more than the total, and a plan of positive entries totals at least
      one commit per entry. */
  function TotalCommits(plan: seq<PlanEntry>): (total: nat)
    ensures forall k :: 0 <= k < |plan| ==> plan[k].toCreate <= total
    ensures (forall k :: 0 <= k < |plan| ==> plan[k].toCreate > 0) ==> total >= |plan|
  {
    if |plan| == 0 then 0 else plan[0].toCreate + TotalCommits(plan[1..])
  }

  /** The dates a sequence of requests commits on. */
  function Dates(reqs: seq<CommitRequest>): (dates: seq<string>)
    ensures |dates| == |reqs|
    ensures forall k :: 0 <= k < |reqs| ==> dates[k] == reqs[k].date
  {
    seq(|reqs|, k requires 0 <= k < |reqs| => reqs[k].date)
  }

  lemma {:induction false} NumberedDates(date: string, made: nat, count: nat, d: string)
    ensures multiset(Dates(Numbered(date, made, count)))[d] == if d == date then made else 0
  {
    if made > 0 {
      var before := Numbered(date, made - 1, count);
      NumberedDates(date, made - 1, count, d);
      assert Dates(Numbered(date, made, count)) == Dates(before) + [date];
    }
  }

  /** All requests of the run, in plan order: for each entry, its
      `toCreate` requests numbered 1 to `toCreate`. The run creates exactly
      `TotalCommits(plan)` commits, and on each date exactly as many as the
      plan adds there. */
  function Schedule(plan: seq<PlanEntry>): (reqs: seq<CommitRequest>)
    ensures |reqs| == TotalCommits(plan)
    ensures forall d :: multiset(Dates(reqs))[d] == PlannedFor(plan, d)
  {
    if |plan| == 0 then []
    else
      var day := DayCommits(plan[0].date, plan[0].toCreate);
      var rest := Schedule(plan[1..]);
      assert Dates(day + rest) == Dates(day) + Dates(rest);
      assert forall d :: multiset(Dates(day))[d] == if d == plan[0].date then plan[0].toCreate else 0 by {
        forall d
          ensures multiset(Dates(day))[d] == if d == plan[0].date then plan[0].toCreate else 0
        {
          NumberedDates(plan[0].date, plan[0].toCreate, plan[0].toCreate, d);
        }
      }
      day + rest
  }

  /** The schedule from entry `p` on is that entry's day followed by the
      schedule of the entries after it. */
  lemma ScheduleStep(plan: seq<PlanEntry>, p: nat)
    requires p < |plan|
    ensures Schedule(plan[p..]) == DayCommits(plan[p].date, plan[p].toCreate) + Schedule(plan[p + 1..])
  {
    assert plan[p..][1..] == plan[p + 1..];
  }

  /** The commit loop of `main`: for each plan entry in order, one request
      per missing commit, with the message numbering it among that date's
      (the same inner loop as `createCommitsForDay`); `created` counts the
      requests issued. */
  method WriteCommits(plan: seq<PlanEntry>) returns (reqs: seq<CommitRequest>, created: nat)
    ensures reqs == Schedule(plan)
    ensures created == |reqs| == TotalCommits(plan)
  {
    reqs := [];
    created := 0;
    var p := 0;
    while p < |plan|
      invariant 0 <= p <= |plan|
      invariant reqs + Schedule(plan[p..]) == Schedule(plan)
      invariant created == |reqs|
    {
      var item := plan[p];
      ScheduleStep(plan, p);
      // The inner loop is the one of `createCommitsForDay`.
      var day := CreateCommitsForDay(item.date, item.toCreate);
      assert (reqs + day) + Schedule(plan[p + 1..]) == reqs + Schedule(plan[p..]);
      reqs := reqs + day;
      created := created + |day|;
      p := p + 1;
    }
    assert plan[p..] == [];
  }

  /** The `k`-th request of the run (from 0) carries a message that names
      its own date and an ordinal between 1 and that date's count. */
  lemma {:induction false} ScheduleMessageNamesDate(plan: seq<PlanEntry>, k: nat)
    requires k < |Schedule(plan)|
    ensures var req := Schedule(plan)[k];
      var parsed := ParseMessage(req.message);
      parsed.Some? && parsed.value.0 == req.date && 1 <= parsed.value.1 <= parsed.value.2
  {
    var day := DayCommits(plan[0].date, plan[0].toCreate);
    var rest := Schedule(plan[1..]);
    assert Schedule(plan) == day + rest;
    if k < |day| {
      DayCommitNumbered(plan[0].date, plan[0].toCreate, k);
    } else {
      ScheduleMessageNamesDate(plan[1..], k - |day|);
    }
  }

  /** Every request of the run falls on a date after `bound` when every plan
      entry does. */
  lemma {:induction false} ScheduleAfter(plan: seq<PlanEntry>, bound: string)
    requires forall k :: 0 <= k < |plan| ==> Less(bound, plan[k].date)
    ensures forall k :: 0 <= k < |Schedule(plan)| ==> Less(bound, Schedule(plan)[k].date)
  {
    if |plan| > 0 {
      var day := DayCommits(plan[0].date, plan[0].toCreate);
      ScheduleAfter(plan[1..], bound);
      assert Schedule(plan) == day + Schedule(plan[1..]);
    }
  }

  /** Commits are created in ascending date order. */
  lemma {:induction false} ScheduleOrdered(plan: seq<PlanEntry>)
    requires StrictlySorted(plan)
    ensures var reqs := Schedule(plan);
      forall i, j :: 0 <= i < j < |reqs| ==> !Less(reqs[j].date, reqs[i].date)
  {
    if |plan| > 0 {
      var date := plan[0].date;
      var day := DayCommits(date, plan[0].toCreate);
      var rest := Schedule(plan[1..]);
      var reqs := Schedule(plan);
      assert reqs == day + rest;
      ScheduleOrdered(plan[1..]);
      assert forall k :: 0 <= k < |plan[1..]| ==> Less(date, plan[1..][k].date) by {
        forall k | 0 <= k < |plan[1..]|
          ensures Less(date, plan[1..][k].date)
        {
          assert plan[1..][k] == plan[k + 1];
        }
      }
      ScheduleAfter(plan[1..], date);
      forall i, j | 0 <= i < j < |reqs|
        ensures !Less(reqs[j].date, reqs[i].date)
      {
        if j < |day| {
          assert reqs[i] == day[i] && reqs[j] == day[j];
          DayCommitNumbered(date, plan[0].toCreate, i);
          DayCommitNumbered(date, plan[0].toCreate, j);
          LessIrreflexive(date);
        } else if i < |day| {
          assert reqs[i] == day[i] && reqs[j] == rest[j - |day|];
          DayCommitNumbered(date, plan[0].toCreate, i);
          assert Less(date, rest[j - |day|].date);
          LessAsymmetric(date, reqs[j].date);
        } else {
          assert reqs[i] == rest[i - |day|] && reqs[j] == rest[j - |day|];
          var a, b := i - |day|, j - |day|;
          assert 0 <= a < b < |Schedule(plan[1..])|;
          assert !Less(Schedule(plan[1..])[b].date, Schedule(plan[1..])[a].date);
        }
      }
    }
  }

  /** Two requests of the same day differ in their ordinal. */
  lemma DayMessagesDistinct(date: string, count: nat, i: nat, j: nat)
    requires i < j < count
    ensures DayCommits(date, count)[i].message != DayCommits(date, count)[j].message
  {
    DayCommitNumbered(date, count, i);
    DayCommitNumbered(date, count, j);
  }

  /** A request of the first planned day and one of a later day carry
      different messages, since their messages name different dates. */
  lemma FirstDayMessageUnique(plan: seq<PlanEntry>, i: nat, k: nat)
    requires StrictlySorted(plan) && |plan| > 0
    requires i < plan[0].toCreate && k < |Schedule(plan[1..])|
    ensures DayCommits(plan[0].date, plan[0].toCreate)[i].message != Schedule(plan[1..])[k].message
  {
    var date := plan[0].date;
    var rest := plan[1..];
    assert forall m :: 0 <= m < |rest| ==> Less(date, rest[m].date) by {
      forall m | 0 <= m < |rest|
        ensures Less(date, rest[m].date)
      {
        assert rest[m] == plan[m + 1];
      }
    }
    ScheduleAfter(rest, date);
    DayCommitNumbered(date, plan[0].toCreate, i);
    ScheduleMessageNamesDate(rest, k);
    LessIrreflexive(date);
  }

  /** No two requests of a run carry the same message. */
  lemma {:induction false} ScheduleMessagesDistinct(plan: seq<PlanEntry>)
    requires StrictlySorted(plan)
    ensures var reqs := Schedule(plan);
      forall i, j :: 0 <= i < j < |reqs| ==> reqs[i].message != reqs[j].message
  {
    if |plan| > 0 {
      var day := DayCommits(plan[0].date, plan[0].toCreate);
      var rest := Schedule(plan[1..]);
      var reqs := Schedule(plan);
      assert reqs == day + rest;
      assert StrictlySorted(plan[1..]);
      ScheduleMessagesDistinct(plan[1..]);
      forall i, j | 0 <= i < j < |reqs|
        ensures reqs[i].message != reqs[j].message
      {
        if j < |day| {
          assert reqs[i] == day[i] && reqs[j] == day[j];
          DayMessagesDistinct(plan[0].date, plan[0].toCreate, i, j);
        } else if i < |day| {
          assert reqs[i] == day[i] && reqs[j] == rest[j - |day|];
          FirstDayMessageUnique(plan, i, j - |day|);
        } else {
          var a, b := i - |day|, j - |day|;
          assert reqs[i] == rest[a] && reqs[j] == rest[b];
          assert 0 <= a < b < |Schedule(plan[1..])|;
          assert Schedule(plan[1..])[a].message != Schedule(plan[1..])[b].message;
        }
      }
    }
  }

  // ---------------------------------------------------------------------
  // The run
  // ---------------------------------------------------------------------

  /** How a run ends. */
  datatype Outcome =
    | AlreadyInSync
    | DryRun(plan: seq<PlanEntry>)
    | Cancelled(plan: seq<PlanEntry>)
    | Synced(plan: seq<PlanEntry>, commits: seq<EmptyCommit>, pushed: bool)

  /** `main` once the configuration is read: `weeks` is the fetched
      calendar, `log` the outcome of reading the repository's history, and
      `confirmed` the operator's answer to the confirmation prompt. */
  method Run(config: Config, weeks: seq<Week>, log: Option<string>, confirmed: bool) returns (outcome: Outcome)
    ensures outcome.AlreadyInSync? ==> IsCommitPlan([], SourceCounts(weeks), ExistingCommitCounts(log))
    ensures !outcome.AlreadyInSync? ==>
      IsCommitPlan(outcome.plan, SourceCounts(weeks), ExistingCommitCounts(log)) && outcome.plan != []
    ensures outcome.DryRun? <==> !outcome.AlreadyInSync? && config.dryRun
    ensures outcome.Cancelled? <==> !outcome.AlreadyInSync? && !config.dryRun && !config.ci && !confirmed
    ensures outcome.Synced? ==>
      && |outcome.commits| == TotalCommits(outcome.plan)
      && (forall k :: 0 <= k < |outcome.commits| ==>
            outcome.commits[k] == BackdatedCommit(Schedule(outcome.plan)[k]))
      && outcome.pushed == config.autoPush
  {
    var days := FetchContributions(weeks);
    var source := SourceMap(days);
    var existing := ExistingCommitCounts(log);
    var plan := CalculateCommitPlan(source, existing);
    if plan == [] {
      return AlreadyInSync;
    }
    if config.dryRun {
      return DryRun(plan);
    }
    if !config.ci && !confirmed {
      return Cancelled(plan);
    }
    var reqs, created := WriteCommits(plan);
    var commits := seq(|reqs|, k requires 0 <= k < |reqs| => BackdatedCommit(reqs[k]));
    return Synced(plan, commits, config.autoPush);
  }

  // ---------------------------------------------------------------------
  // Running again
  // ---------------------------------------------------------------------

  /** Once the scheduled commits are in the history, the counts are those
      of the applied plan. */
  lemma HistoryAfterSchedule(history: seq<string>, plan: seq<PlanEntry>, d: string)
    ensures Get(Tally(history + Dates(Schedule(plan))), d) == Get(Apply(Tally(history), plan), d)
  {
    TallyCounts(history + Dates(Schedule(plan)));
    TallyCounts(history);
  }

  /** Re-running the planner on a history that now includes the commits
      the run created gives the empty plan: a completed run leaves the
      repository in sync. */
  lemma ResyncAfterRunIsEmpty(source: Counts, history: seq<string>, plan: seq<PlanEntry>)
    requires IsCommitPlan(plan, source, Tally(history))
    ensures IsCommitPlan([], source, Tally(history + Dates(Schedule(plan))))
  {
    var after := Tally(history + Dates(Schedule(plan)));
    var applied := Apply(Tally(history), plan);
    ReplanAfterApplyIsEmpty(plan, source, Tally(history));
    forall date | Behind(source, after, date)
      ensures false
    {
      HistoryAfterSchedule(history, plan, date);
      assert Behind(source, applied, date);
    }
  }

  /** Every date the run commits on is a source date. */
  lemma ScheduledDatesFromSource(plan: seq<PlanEntry>, source: Counts, existing: Counts, k: nat)
    requires IsCommitPlan(plan, source, existing)
    requires k < |Dates(Schedule(plan))|
    ensures Dates(Schedule(plan))[k] in source
  {
    var created := Dates(Schedule(plan));
    var d := created[k];
    assert d in multiset(created);
    if forall m :: 0 <= m < |plan| ==> plan[m].date != d {
      PlannedForAbsent(plan, d);
    }
    var m :| 0 <= m < |plan| && plan[m].date == d;
    assert plan[m] in plan;
  }

  /** Reordering a list of printed dates keeps them printed. */
  lemma PrintedReordered(a: seq<string>, b: seq<string>)
    requires multiset(a) == multiset(b)
    requires forall k :: 0 <= k < |b| ==> IsPrintedDate(b[k])
    ensures forall k :: 0 <= k < |a| ==> IsPrintedDate(a[k])
  {
    forall k | 0 <= k < |a|
      ensures IsPrintedDate(a[k])
    {
      assert a[k] in multiset(b);
      var j :| 0 <= j < |b| && b[j] == a[k];
    }
  }

  /** The history followed by the run's dates is printed when the history
      and the source dates are. */
  lemma PrintedAfterRun(history: seq<string>, plan: seq<PlanEntry>, source: Counts, existing: Counts)
    requires forall k :: 0 <= k < |history| ==> IsPrintedDate(history[k])
    requires forall date :: date in source ==> IsPrintedDate(date)
    requires IsCommitPlan(plan, source, existing)
    ensures var appended := history + Dates(Schedule(plan));
      forall k :: 0 <= k < |appended| ==> IsPrintedDate(appended[k])
  {
    var created := Dates(Schedule(plan));
    var appended := history + created;
    forall k | 0 <= k < |appended|
      ensures IsPrintedDate(appended[k])
    {
      if k < |history| {
        assert appended[k] == history[k];
      } else {
        assert appended[k] == created[k - |history|];
        ScheduledDatesFromSource(plan, source, existing, k - |history|);
      }
    }
  }

  /** The same, starting from the log output git prints. Git lists the
      commits in its own order (the run's commits, newest first, ahead of
      the older history), so the log after the run may list the old
      history and the created dates in any order. Every date involved is
      printed as a single token. */
  lemma RerunAfterSyncIsNoOp(weeks: seq<Week>, history: seq<string>, plan: seq<PlanEntry>, after: seq<string>)
    requires forall k :: 0 <= k < |history| ==> IsPrintedDate(history[k])
    requires forall date :: date in SourceCounts(weeks) ==> IsPrintedDate(date)
    requires IsCommitPlan(plan, SourceCounts(weeks), ExistingCommitCounts(Some(LogOutput(history))))
    requires multiset(after) == multiset(history + Dates(Schedule(plan)))
    ensures IsCommitPlan([], SourceCounts(weeks), ExistingCommitCounts(Some(LogOutput(after))))
  {
    var source := SourceCounts(weeks);
    var appended := history + Dates(Schedule(plan));
    InventoryOfHistory(history);
    PrintedAfterRun(history, plan, source, Tally(history));
    PrintedReordered(after, appended);
    InventoryOfHistory(after);
    TallySameMultiset(after, appended);
    ResyncAfterRunIsEmpty(source, history, plan);
  }
}
