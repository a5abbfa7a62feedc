/** The commit inventory of the target repository (src/git.ts,
    `getExistingCommitCounts`): the output of
    `git log --format=%ad --date=short`, one `YYYY-MM-DD` line per commit,
    tallied into a count per date. Running git is outside the model; its
    outcome is a parameter, `None` when the command failed (for instance on
    a repository with no commits yet). */
module Inventory {
  import opened Results
  import opened Text
  import opened Tallies

  /** The dates in a log output: trimmed, split at line feeds, empty lines
      dropped. */
  function LogLines(output: string): (lines: seq<string>)
    ensures forall d :: d in lines ==> d != "" && '\n' !in d
  {
    var parts := Split(Trim(output), '\n');
    var lines := NonEmpty(parts);
    assert forall d :: d in parts ==> '\n' !in d by {
      forall d | d in parts
        ensures '\n' !in d
      {
        var k :| 0 <= k < |parts| && parts[k] == d;
      }
    }
    lines
  }

  /** One date per line, each line ended by a line feed: what git prints for
      a history whose commits fall on `dates`. */
  function LogOutput(dates: seq<string>): string
  {
    if |dates| == 0 then "" else dates[0] + "\n" + LogOutput(dates[1..])
  }

  /** Counting the lines in order, each adding one to its date's count
      (`counts.set(date, (counts.get(date) || 0) + 1)`). What the counts are
      is stated by `TallyCounts`. */
  function Tally(dates: seq<string>): (counts: Counts)
    ensures |counts| <= |dates|
  {
    if |dates| == 0 then map[]
    else
      var before := Tally(dates[..|dates| - 1]);
      var d := dates[|dates| - 1];
      before[d := Get(before, d) + 1]
  }

  /** The tallied dates are exactly the listed ones, and each is counted as
      often as it is listed. */
  lemma {:induction false} TallyCounts(dates: seq<string>)
    ensures forall d :: d in Tally(dates) <==> d in dates
    ensures forall d :: Get(Tally(dates), d) == multiset(dates)[d]
  {
    if |dates| > 0 {
      var init := dates[..|dates| - 1];
      var last := dates[|dates| - 1];
      TallyCounts(init);
      assert dates == init + [last];
    }
  }

  /** The tally ignores the order of the lines. */
  lemma TallySameMultiset(a: seq<string>, b: seq<string>)
    requires multiset(a) == multiset(b)
    ensures Tally(a) == Tally(b)
  {
    TallyCounts(a);
    TallyCounts(b);
    forall d
      ensures d in Tally(a) <==> d in Tally(b)
    {
      assert d in a <==> d in multiset(a);
      assert d in b <==> d in multiset(b);
    }
    forall d | d in Tally(a)
      ensures Tally(a)[d] == Tally(b)[d]
    {
      assert Get(Tally(a), d) == Get(Tally(b), d);
    }
  }

  /** Every line adds exactly one commit to the total. */
  lemma {:induction false} TallyTotal(dates: seq<string>)
    ensures SumValues(Tally(dates)) == |dates|
  {
    if |dates| > 0 {
      var init := dates[..|dates| - 1];
      var d := dates[|dates| - 1];
      TallyTotal(init);
      SumValuesBump(Tally(init), d);
    }
  }

  /** `getExistingCommitCounts`: the tally of the log, or the empty map when
      reading the log failed. */
  function ExistingCommitCounts(log: Option<string>): (counts: Counts)
    ensures log.None? ==> counts == map[]
    ensures forall d :: d in counts ==> d != "" && counts[d] >= 1
    ensures log.Some? ==> forall d :: d in counts <==> d in LogLines(log.value)
    ensures log.Some? ==> forall d :: Get(counts, d) == multiset(LogLines(log.value))[d]
    ensures log.Some? ==> SumValues(counts) == |LogLines(log.value)|
  {
    match log
    case None => map[]
    case Some(output) =>
      var lines := LogLines(output);
      TallyCounts(lines);
      TallyTotal(lines);
      var counts := Tally(lines);
      assert forall d :: d in counts ==> counts[d] >= 1 by {
        forall d | d in counts
          ensures counts[d] >= 1
        {
          assert Get(counts, d) == counts[d] && d in multiset(lines);
        }
      }
      counts
  }

  // ---------------------------------------------------------------------
  // Reading back a log
  // ---------------------------------------------------------------------

  /** A date as git prints it: non-empty, without white space. */
  predicate IsPrintedDate(d: string) {
    |d| > 0 && forall k :: 0 <= k < |d| ==> !IsWhitespace(d[k])
  }

  lemma {:induction false} LogOutputIsJoin(dates: seq<string>)
    requires |dates| >= 1
    ensures LogOutput(dates) == Join(dates, '\n') + "\n"
  {
    if |dates| > 1 {
      LogOutputIsJoin(dates[1..]);
    }
  }

  lemma {:induction false} JoinEnds(dates: seq<string>)
    requires |dates| >= 1
    requires forall k :: 0 <= k < |dates| ==> IsPrintedDate(dates[k])
    ensures var s := Join(dates, '\n');
      |s| > 0 && !IsWhitespace(s[0]) && !IsWhitespace(s[|s| - 1])
  {
    assert IsPrintedDate(dates[0]);
    if |dates| > 1 {
      assert IsPrintedDate(dates[1..][0]);
      JoinEnds(dates[1..]);
    }
  }

  lemma PrintedDatesAreLines(dates: seq<string>)
    requires forall k :: 0 <= k < |dates| ==> IsPrintedDate(dates[k])
    ensures forall k :: 0 <= k < |dates| ==> dates[k] != "" && '\n' !in dates[k]
  {
    forall k | 0 <= k < |dates|
      ensures dates[k] != "" && '\n' !in dates[k]
    {
      assert IsPrintedDate(dates[k]);
      assert IsWhitespace('\n');
    }
  }

  lemma {:induction false} NonEmptyKeepsAll(xs: seq<string>)
    requires forall k :: 0 <= k < |xs| ==> xs[k] != ""
    ensures NonEmpty(xs) == xs
  {
    if |xs| > 0 {
      NonEmptyKeepsAll(xs[1..]);
      assert xs == [xs[0]] + xs[1..];
    }
  }

  /** Reading the log of a history gives back its commit dates, in order. */
  lemma {:induction false} ReadBackLog(dates: seq<string>)
    requires forall k :: 0 <= k < |dates| ==> IsPrintedDate(dates[k])
    ensures LogLines(LogOutput(dates)) == dates
  {
    if |dates| == 0 {
      assert Trim("") == "";
      assert Split("", '\n') == [""];
    } else {
      LogOutputIsJoin(dates);
      var joined := Join(dates, '\n');
      JoinEnds(dates);
      TrimDropsFinalNewline(joined);
      assert Trim(LogOutput(dates)) == joined;
      PrintedDatesAreLines(dates);
      SplitJoin(dates, '\n');
      NonEmptyKeepsAll(dates);
    }
  }

  /** Hence the inventory of a readable history counts each of its dates. */
  lemma InventoryOfHistory(dates: seq<string>)
    requires forall k :: 0 <= k < |dates| ==> IsPrintedDate(dates[k])
    ensures ExistingCommitCounts(Some(LogOutput(dates))) == Tally(dates)
  {
    ReadBackLog(dates);
  }
}
