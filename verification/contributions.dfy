/** The contribution fetcher (src/github.ts, `fetchContributions`): the
    contribution calendar the GraphQL query returns, as weeks of days, is
    flattened into the days that have at least one contribution. The query
    itself is outside the model; the already-parsed calendar is the input. */
module Contributions {

  /** One calendar cell of the response: `{ date, contributionCount }`. */
  datatype CalendarDay = CalendarDay(date: string, contributionCount: int)

  /** One calendar column: `{ contributionDays }`. */
  datatype Week = Week(contributionDays: seq<CalendarDay>)

  /** One day of the fetcher's result: `{ date, count }`. */
  datatype ContributionDay = ContributionDay(date: string, count: nat)

  /** Every calendar cell, week after week and day after day. */
  function AllDays(weeks: seq<Week>): seq<CalendarDay>
  {
    if |weeks| == 0 then []
    else weeks[0].contributionDays + AllDays(weeks[1..])
  }

  /** The cells with a positive count, in order, as result days. */
  function Positive(cells: seq<CalendarDay>): (days: seq<ContributionDay>)
    ensures |days| <= |cells|
    ensures forall k :: 0 <= k < |days| ==> days[k].count > 0
  {
    if |cells| == 0 then []
    else
      var c := cells[0];
      var rest := Positive(cells[1..]);
      if c.contributionCount > 0 then [ContributionDay(c.date, c.contributionCount)] + rest
      else rest
  }

  /** A cell is kept exactly when its count is positive, and its date and
      count are copied unchanged. */
  lemma {:induction false} PositiveMembers(cells: seq<CalendarDay>, date: string, count: int)
    ensures count > 0 && CalendarDay(date, count) in cells <==>
      count > 0 && ContributionDay(date, count) in Positive(cells)
  {
    if |cells| > 0 {
      PositiveMembers(cells[1..], date, count);
      assert cells == [cells[0]] + cells[1..];
    }
  }

  /** Filtering distributes over concatenation: the relative order of the
      kept cells is their order in the input. */
  lemma {:induction false} PositiveAppend(a: seq<CalendarDay>, b: seq<CalendarDay>)
    ensures Positive(a + b) == Positive(a) + Positive(b)
  {
    if |a| > 0 {
      assert (a + b)[1..] == a[1..] + b;
      PositiveAppend(a[1..], b);
    } else {
      assert a + b == b;
    }
  }

  /** Filtering one more cell adds its day exactly when its count is
      positive. */
  lemma PositiveSnoc(seen: seq<CalendarDay>, c: CalendarDay)
    ensures Positive(seen + [c]) ==
      Positive(seen) + if c.contributionCount > 0 then [ContributionDay(c.date, c.contributionCount)] else []
  {
    PositiveAppend(seen, [c]);
    assert [c][1..] == [];
  }

  function TotalDays(weeks: seq<Week>): nat
  {
    if |weeks| == 0 then 0 else |weeks[0].contributionDays| + TotalDays(weeks[1..])
  }

  lemma {:induction false} AllDaysLength(weeks: seq<Week>)
    ensures |AllDays(weeks)| == TotalDays(weeks)
  {
    if |weeks| > 0 {
      AllDaysLength(weeks[1..]);
    }
  }

  lemma {:induction false} AllDaysAppend(weeks: seq<Week>, w: Week)
    ensures AllDays(weeks + [w]) == AllDays(weeks) + w.contributionDays
  {
    if |weeks| > 0 {
      assert (weeks + [w])[1..] == weeks[1..] + [w];
      AllDaysAppend(weeks[1..], w);
    }
  }

  /** Filtering the days of one more week appends that week's kept days. */
  lemma PositivePrefixStep(weeks: seq<Week>, w: nat)
    requires w < |weeks|
    ensures Positive(AllDays(weeks[..w + 1])) ==
      Positive(AllDays(weeks[..w])) + Positive(weeks[w].contributionDays)
  {
    var before, after := weeks[..w], weeks[..w + 1];
    assert after == before + [weeks[w]];
    AllDaysAppend(before, weeks[w]);
    assert AllDays(after) == AllDays(before) + weeks[w].contributionDays;
    PositiveAppend(AllDays(before), weeks[w].contributionDays);
  }

  /** The inner loop of `fetchContributions`: one week's days with a
      positive count, in order. */
  method KeepPositive(cells: seq<CalendarDay>) returns (kept: seq<ContributionDay>)
    ensures kept == Positive(cells)
  {
    kept := [];
    var i := 0;
    while i < |cells|
      invariant 0 <= i <= |cells|
      invariant kept == Positive(cells[..i])
    {
      var day := cells[i];
      PositiveSnoc(cells[..i], day);
      assert cells[..i + 1] == cells[..i] + [day];
      if day.contributionCount > 0 {
        kept := kept + [ContributionDay(day.date, day.contributionCount)];
      }
      i := i + 1;
    }
    assert cells[..i] == cells;
  }

  /** `fetchContributions` after the query: the loop over the weeks,
      keeping each week's days whose count is positive. */
  method FetchContributions(weeks: seq<Week>) returns (days: seq<ContributionDay>)
    ensures days == Positive(AllDays(weeks))
    ensures |days| <= TotalDays(weeks)
    ensures forall k :: 0 <= k < |days| ==> days[k].count > 0
  {
    days := [];
    var w := 0;
    while w < |weeks|
      invariant 0 <= w <= |weeks|
      invariant days == Positive(AllDays(weeks[..w]))
    {
      var kept := KeepPositive(weeks[w].contributionDays);
      PositivePrefixStep(weeks, w);
      days := days + kept;
      w := w + 1;
    }
    assert weeks[..w] == weeks;
    AllDaysLength(weeks);
  }
}
