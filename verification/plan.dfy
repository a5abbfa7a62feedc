/** The commit plan calculator (src/index.ts, `calculateCommitPlan`): for
    every date of the source counts, how many commits the target repository
    still lacks, keeping only the dates that lack some, sorted by date. */
module Plan {
  import opened Text
  import opened Tallies

  /** `{ date, needed, existing, toCreate }`. */
  datatype PlanEntry = PlanEntry(date: string, needed: nat, existing: nat, toCreate: nat)

  /** `Math.max(0, needed - existing)`. */
  function Deficit(needed: nat, existing: nat): (r: nat)
    ensures r >= needed - existing
    ensures r == 0 || r == needed - existing
  {
    if needed > existing then needed - existing else 0
  }

  /** The entry the calculator builds for a source date. */
  function EntryFor(source: Counts, existing: Counts, date: string): (e: PlanEntry)
    requires date in source
    ensures e.date == date && e.needed == source[date] && e.existing == Get(existing, date)
    ensures e.toCreate == Deficit(e.needed, e.existing)
  {
    var have := Get(existing, date);
    PlanEntry(date, source[date], have, Deficit(source[date], have))
  }

  /** A date the target repository has fewer commits on than the source. */
  predicate Behind(source: Counts, existing: Counts, date: string) {
    date in source && source[date] > Get(existing, date)
  }

  // ---------------------------------------------------------------------
  // What a plan is
  // ---------------------------------------------------------------------

  /** Every entry is the exact deficit of a source date, and is positive. */
  ghost predicate Exact(plan: seq<PlanEntry>, source: Counts, existing: Counts) {
    forall e :: e in plan ==>
      e.date in source && e == EntryFor(source, existing, e.date) && e.toCreate > 0
  }

  /** Every date the repository is behind on has its entry. */
  ghost predicate Complete(plan: seq<PlanEntry>, source: Counts, existing: Counts) {
    forall date :: Behind(source, existing, date) ==> EntryFor(source, existing, date) in plan
  }

  predicate Sorted(plan: seq<PlanEntry>) {
    forall i, j :: 0 <= i < j < |plan| ==> !Less(plan[j].date, plan[i].date)
  }

  /** Strictly ascending dates, hence each date at most once. */
  ghost predicate StrictlySorted(plan: seq<PlanEntry>) {
    forall i, j :: 0 <= i < j < |plan| ==> Less(plan[i].date, plan[j].date)
  }

  /** The one plan for these counts: exact, complete, strictly sorted. */
  ghost predicate IsCommitPlan(plan: seq<PlanEntry>, source: Counts, existing: Counts) {
    Exact(plan, source, existing) && Complete(plan, source, existing) && StrictlySorted(plan)
  }

  // ---------------------------------------------------------------------
  // Sorting by date
  // ---------------------------------------------------------------------

  function Insert(e: PlanEntry, s: seq<PlanEntry>): (r: seq<PlanEntry>)
    requires Sorted(s)
    ensures multiset(r) == multiset(s) + multiset{e}
    ensures Sorted(r)
  {
    if |s| == 0 then [e]
    else if !Less(s[0].date, e.date) then
      InsertFront(e, s);
      [e] + s
    else
      var rest := Insert(e, s[1..]);
      assert s == [s[0]] + s[1..];
      InsertBehind(e, s, rest);
      [s[0]] + rest
  }

  lemma InsertFront(e: PlanEntry, s: seq<PlanEntry>)
    requires Sorted(s) && |s| > 0 && !Less(s[0].date, e.date)
    ensures Sorted([e] + s)
  {
    var r := [e] + s;
    forall i, j | 0 <= i < j < |r|
      ensures !Less(r[j].date, r[i].date)
    {
      if i == 0 {
        if j > 1 {
          NotLessTransitive(e.date, s[0].date, s[j - 1].date);
        }
      }
    }
  }

  lemma InsertBehind(e: PlanEntry, s: seq<PlanEntry>, rest: seq<PlanEntry>)
    requires Sorted(s) && |s| > 0 && Less(s[0].date, e.date)
    requires Sorted(rest) && multiset(rest) == multiset(s[1..]) + multiset{e}
    ensures Sorted([s[0]] + rest)
  {
    var r := [s[0]] + rest;
    forall i, j | 0 <= i < j < |r|
      ensures !Less(r[j].date, r[i].date)
    {
      if i == 0 {
        var x := rest[j - 1];
        assert x in multiset(rest);
        if x == e {
          LessAsymmetric(s[0].date, e.date);
        } else {
          assert x in multiset(s[1..]);
          var k :| 0 <= k < |s[1..]| && s[1..][k] == x;
          assert s[k + 1] == x;
        }
      }
    }
  }

  /** `plan.sort((a, b) => a.date.localeCompare(b.date))`, as insertion
      sort. */
  function SortByDate(s: seq<PlanEntry>): (r: seq<PlanEntry>)
    ensures multiset(r) == multiset(s)
    ensures Sorted(r)
  {
    if |s| == 0 then []
    else
      assert s == [s[0]] + s[1..];
      Insert(s[0], SortByDate(s[1..]))
  }

  // ---------------------------------------------------------------------
  // The calculator
  // ---------------------------------------------------------------------

  /** No two entries share a date. */
  ghost predicate DistinctDates(s: seq<PlanEntry>) {
    forall i, j :: 0 <= i < j < |s| ==> s[i].date != s[j].date
  }

  lemma {:induction false} DistinctOccursOnce(s: seq<PlanEntry>, x: PlanEntry)
    requires DistinctDates(s)
    ensures multiset(s)[x] <= 1
  {
    if |s| > 0 {
      var rest := s[1..];
      assert s == [s[0]] + rest;
      assert DistinctDates(rest) by {
        forall i, j | 0 <= i < j < |rest|
          ensures rest[i].date != rest[j].date
        {
          assert rest[i] == s[i + 1] && rest[j] == s[j + 1];
        }
      }
      DistinctOccursOnce(rest, x);
    }
  }

  lemma OccursTwice(s: seq<PlanEntry>, i: nat, j: nat)
    requires i < j < |s| && s[i] == s[j]
    ensures multiset(s)[s[i]] >= 2
  {
    assert s == s[..i] + [s[i]] + s[i + 1..j] + [s[j]] + s[j + 1..];
  }

  /** A sorted arrangement of the same entries, whose entries are each
      determined by their date, keeps each date once and in strict order. */
  lemma SortedDistinct(found: seq<PlanEntry>, plan: seq<PlanEntry>, source: Counts, existing: Counts)
    requires DistinctDates(found) && Exact(found, source, existing)
    requires multiset(plan) == multiset(found) && Sorted(plan)
    ensures StrictlySorted(plan)
  {
    forall i, j | 0 <= i < j < |plan|
      ensures Less(plan[i].date, plan[j].date)
    {
      assert plan[i] in multiset(found) && plan[j] in multiset(found);
      assert plan[i] in found && plan[j] in found;
      if plan[i].date == plan[j].date {
        assert plan[i] == plan[j];
        OccursTwice(plan, i, j);
        DistinctOccursOnce(found, plan[i]);
      }
      LessTotal(plan[i].date, plan[j].date);
    }
  }

  /** `calculateCommitPlan(sourceContributions, existingCommits)`. The
      source visits the `Map` in insertion order; the model allows any
      order, and the result does not depend on it (`PlanIsUnique`). */
  method CalculateCommitPlan(source: Counts, existing: Counts) returns (plan: seq<PlanEntry>)
    ensures Exact(plan, source, existing)
    ensures Complete(plan, source, existing)
    ensures StrictlySorted(plan)
  {
    var remaining := source.Keys;
    var found: seq<PlanEntry> := [];
    while remaining != {}
      invariant remaining <= source.Keys
      invariant Exact(found, source, existing)
      invariant DistinctDates(found)
      invariant forall e :: e in found ==> e.date !in remaining
      invariant forall date :: date !in remaining && Behind(source, existing, date) ==>
        EntryFor(source, existing, date) in found
      decreases remaining
    {
      var date :| date in remaining;
      var needed := source[date];
      var have := Get(existing, date);
      var toCreate := Deficit(needed, have);
      if toCreate > 0 {
        found := found + [PlanEntry(date, needed, have, toCreate)];
      }
      remaining := remaining - {date};
    }
    plan := SortByDate(found);
    SortedDistinct(found, plan, source, existing);
    assert forall e :: e in plan <==> e in found by {
      forall e
        ensures e in plan <==> e in found
      {
        assert e in plan <==> e in multiset(plan);
      }
    }
  }

  // ---------------------------------------------------------------------
  // Determinism
  // ---------------------------------------------------------------------

  lemma FirstIsLeast(s: seq<PlanEntry>, x: PlanEntry)
    requires StrictlySorted(s) && x in s && x != s[0]
    ensures Less(s[0].date, x.date)
  {
    var i :| 0 <= i < |s| && s[i] == x;
  }

  /** Strictly sorted sequences holding the same entries are equal. */
  lemma {:induction false} SameEntriesSorted(a: seq<PlanEntry>, b: seq<PlanEntry>)
    requires StrictlySorted(a) && StrictlySorted(b)
    requires forall x :: x in a <==> x in b
    ensures a == b
  {
    if |a| > 0 {
      assert a[0] in a;
    }
    if |b| > 0 {
      assert b[0] in b;
    }
    if |a| > 0 && |b| > 0 {
      assert a[0] in a && b[0] in b;
      if a[0] != b[0] {
        FirstIsLeast(b, a[0]);
        FirstIsLeast(a, b[0]);
        LessAsymmetric(a[0].date, b[0].date);
      }
      assert a == [a[0]] + a[1..] && b == [b[0]] + b[1..];
      forall x
        ensures x in a[1..] <==> x in b[1..]
      {
        if x in a[1..] {
          var i :| 0 <= i < |a[1..]| && a[1..][i] == x;
          assert Less(a[0].date, a[i + 1].date);
          LessIrreflexive(x.date);
          assert x in b;
        }
        if x in b[1..] {
          var i :| 0 <= i < |b[1..]| && b[1..][i] == x;
          assert Less(b[0].date, b[i + 1].date);
          LessIrreflexive(x.date);
          assert x in a;
        }
      }
      SameEntriesSorted(a[1..], b[1..]);
    }
  }

  /** The plan is determined by the two count maps alone: whatever order the
      source map is visited in, the result is the same. */
  lemma PlanIsUnique(p1: seq<PlanEntry>, p2: seq<PlanEntry>, source: Counts, existing: Counts)
    requires IsCommitPlan(p1, source, existing) && IsCommitPlan(p2, source, existing)
    ensures p1 == p2
  {
    forall x
      ensures x in p1 <==> x in p2
    {
      if x in p1 {
        assert Behind(source, existing, x.date);
      }
      if x in p2 {
        assert Behind(source, existing, x.date);
      }
    }
    SameEntriesSorted(p1, p2);
  }

  // ---------------------------------------------------------------------
  // Applying a plan
  // ---------------------------------------------------------------------

  /** How many commits `plan` adds on `date`. */
  function PlannedFor(plan: seq<PlanEntry>, date: string): nat
  {
    if |plan| == 0 then 0
    else (if plan[0].date == date then plan[0].toCreate else 0) + PlannedFor(plan[1..], date)
  }

  /** The counts once every planned commit exists: each entry adds
      `toCreate` commits on its date, and nothing is taken away. */
  function Apply(existing: Counts, plan: seq<PlanEntry>): (after: Counts)
    ensures forall date :: Get(after, date) == Get(existing, date) + PlannedFor(plan, date)
    ensures forall date :: date in after <==> date in existing || PlannedFor(plan, date) > 0
    decreases |plan|
  {
    if |plan| == 0 then existing
    else
      var e := plan[0];
      var next := if e.toCreate == 0 then existing else existing[e.date := Get(existing, e.date) + e.toCreate];
      Apply(next, plan[1..])
  }

  lemma {:induction false} PlannedForAbsent(plan: seq<PlanEntry>, date: string)
    requires forall k :: 0 <= k < |plan| ==> plan[k].date != date
    ensures PlannedFor(plan, date) == 0
  {
    if |plan| > 0 {
      PlannedForAbsent(plan[1..], date);
    }
  }

  lemma {:induction false} PlannedForPresent(plan: seq<PlanEntry>, i: nat)
    requires StrictlySorted(plan) && i < |plan|
    ensures PlannedFor(plan, plan[i].date) == plan[i].toCreate
  {
    var rest := plan[1..];
    if i == 0 {
      forall k | 0 <= k < |rest|
        ensures rest[k].date != plan[0].date
      {
        assert Less(plan[0].date, plan[k + 1].date);
        LessIrreflexive(plan[0].date);
      }
      PlannedForAbsent(rest, plan[0].date);
    } else {
      assert Less(plan[0].date, plan[i].date);
      LessIrreflexive(plan[0].date);
      assert rest[i - 1] == plan[i];
      PlannedForPresent(rest, i - 1);
    }
  }

  /** Once the plan is applied, every source date has exactly as many
      commits as the source, or more when it already had more: the deficit is
      closed and no excess is removed. */
  lemma ApplyingPlanCloses(plan: seq<PlanEntry>, source: Counts, existing: Counts, date: string)
    requires IsCommitPlan(plan, source, existing)
    requires date in source
    ensures Get(Apply(existing, plan), date) ==
      if source[date] > Get(existing, date) then source[date] else Get(existing, date)
  {
    if Behind(source, existing, date) {
      var e := EntryFor(source, existing, date);
      assert e in plan;
      var i :| 0 <= i < |plan| && plan[i] == e;
      PlannedForPresent(plan, i);
    } else {
      forall k | 0 <= k < |plan|
        ensures plan[k].date != date
      {
        assert plan[k] in plan;
      }
      PlannedForAbsent(plan, date);
    }
  }

  /** Idempotence: planning again against the counts the plan produces
      yields the empty plan. */
  lemma ReplanAfterApplyIsEmpty(plan: seq<PlanEntry>, source: Counts, existing: Counts)
    requires IsCommitPlan(plan, source, existing)
    ensures IsCommitPlan([], source, Apply(existing, plan))
  {
    forall date | Behind(source, Apply(existing, plan), date)
      ensures false
    {
      ApplyingPlanCloses(plan, source, existing, date);
    }
  }

  /** The tool only ever adds commits: when no source date is behind (in
      particular when the source is empty), the plan is empty. */
  lemma NothingBehindPlansNothing(plan: seq<PlanEntry>, source: Counts, existing: Counts)
    requires IsCommitPlan(plan, source, existing)
    requires forall date :: date in source ==> source[date] <= Get(existing, date)
    ensures plan == []
  {
    PlanIsUnique(plan, [], source, existing);
  }

  // ---------------------------------------------------------------------
  // Worked examples
  // ---------------------------------------------------------------------

  /** Two consecutive days are in date order. */
  lemma NewYearsDayFirst()
    ensures StrictlySorted([PlanEntry("2024-01-01", 3, 0, 3), PlanEntry("2024-01-02", 1, 0, 1)])
  {
    assert Less("2024-01-01", "2024-01-02");
  }

  /** Two missing days, nothing in the repository yet. */
  lemma ExampleFreshRepository()
    ensures IsCommitPlan(
      [PlanEntry("2024-01-01", 3, 0, 3), PlanEntry("2024-01-02", 1, 0, 1)],
      map["2024-01-01" := 3, "2024-01-02" := 1], map[])
  {
    NewYearsDayFirst();
  }

  /** A day partly present gets only the remainder. */
  lemma ExamplePartialDay()
    ensures IsCommitPlan([PlanEntry("2024-03-05", 4, 1, 3)], map["2024-03-05" := 4], map["2024-03-05" := 1])
  {
  }

  /** A day already in sync, or with excess commits, gets nothing. */
  lemma ExampleInSync(plan: seq<PlanEntry>)
    requires IsCommitPlan(plan, map["2024-01-01" := 2], map["2024-01-01" := 2])
      || IsCommitPlan(plan, map["2024-01-01" := 1], map["2024-01-01" := 5])
    ensures plan == []
  {
    if IsCommitPlan(plan, map["2024-01-01" := 2], map["2024-01-01" := 2]) {
      NothingBehindPlansNothing(plan, map["2024-01-01" := 2], map["2024-01-01" := 2]);
    } else {
      NothingBehindPlansNothing(plan, map["2024-01-01" := 1], map["2024-01-01" := 5]);
    }
  }
}
