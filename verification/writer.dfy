/** The commit writer (src/git.ts, `createBackdatedCommit` and
    `createCommitsForDay`): each request becomes one empty commit whose
    author and committer dates are both noon of the requested day. The git
    process itself is outside the model; what is modelled is the exact
    invocation each request produces. */
module Writer {
  import opened Results
  import opened Text

  /** One call of `createBackdatedCommit(repoPath, date, message)`. */
  datatype CommitRequest = CommitRequest(date: string, message: string)

  /** The `git commit --allow-empty -m <message> --date <dateFlag>` invocation
      with `GIT_AUTHOR_DATE` and `GIT_COMMITTER_DATE` set in its environment. */
  datatype EmptyCommit = EmptyCommit(message: string, dateFlag: string, authorDate: string, committerDate: string)

  const Noon := "T12:00:00"

  /** `${date}T12:00:00`. */
  function Timestamp(date: string): (t: string)
    ensures |t| == |date| + |Noon| && t[..|date|] == date && t[|date|..] == Noon
  {
    date + Noon
  }

  /** The day a noon timestamp falls on; the inverse of `Timestamp`. */
  function DayOf(timestamp: string): (r: Option<string>)
    ensures r.Some? ==> Timestamp(r.value) == timestamp
  {
    if |timestamp| >= |Noon| && timestamp[|timestamp| - |Noon|..] == Noon
    then Some(timestamp[..|timestamp| - |Noon|])
    else None
  }

  lemma DayOfTimestamp(date: string)
    ensures DayOf(Timestamp(date)) == Some(date)
  {
    var t := Timestamp(date);
    assert t[|t| - |Noon|..] == Noon;
    assert t[..|t| - |Noon|] == date;
  }

  /** `createBackdatedCommit`: the commit is stamped at noon of `date`, by
      the `--date` flag and both environment variables alike. */
  function BackdatedCommit(request: CommitRequest): (c: EmptyCommit)
    ensures c.message == request.message
    ensures c.dateFlag == c.authorDate == c.committerDate
    ensures DayOf(c.authorDate) == Some(request.date)
  {
    DayOfTimestamp(request.date);
    var stamp := Timestamp(request.date);
    EmptyCommit(request.message, stamp, stamp, stamp)
  }

  // ---------------------------------------------------------------------
  // Commit messages
  // ---------------------------------------------------------------------

  const MessagePrefix := "Contribution sync: "

  /** `Contribution sync: ${date} (${ordinal}/${count})`. */
  function Message(date: string, ordinal: nat, count: nat): (m: string)
    ensures |m| > |MessagePrefix| + |date| && m[..|MessagePrefix|] == MessagePrefix
    ensures m[|MessagePrefix|..|MessagePrefix| + |date|] == date && m[|m| - 1] == ')'
  {
    MessagePrefix + date + " (" + NatToString(ordinal) + "/" + NatToString(count) + ")"
  }

  /** Recovers date, ordinal and count from a sync message: the inverse of
      `Message`. The date is whatever lies before the last " (", so any date
      string is recovered. */
  function ParseMessage(m: string): Option<(string, nat, nat)>
  {
    match Unframe(m)
    case None => None
    case Some(body) =>
      match SplitAtLastParen(body)
      case None => None
      case Some((date, ratio)) =>
        match ParseRatio(ratio)
        case None => None
        case Some((ordinal, count)) => Some((date, ordinal, count))
  }

  /** The text between the message prefix and the closing parenthesis. */
  function Unframe(m: string): Option<string>
  {
    if |m| < |MessagePrefix| + 1 || m[..|MessagePrefix|] != MessagePrefix || m[|m| - 1] != ')' then None
    else Some(m[|MessagePrefix|..|m| - 1])
  }

  /** Splits `<date> (<ratio>` at the last opening parenthesis. */
  function SplitAtLastParen(body: string): Option<(string, string)>
  {
    match LastIndexOf(body, '(')
    case None => None
    case Some(open) =>
      if open == 0 || body[open - 1] != ' ' then None
      else Some((body[..open - 1], body[open + 1..]))
  }

  /** Reads `<ordinal>/<count>`. */
  function ParseRatio(ratio: string): Option<(nat, nat)>
  {
    match IndexOf(ratio, '/')
    case None => None
    case Some(slash) =>
      match (ParseNat(ratio[..slash]), ParseNat(ratio[slash + 1..]))
      case (Some(ordinal), Some(count)) => Some((ordinal, count))
      case _ => None
  }

  lemma UnframeRoundTrip(body: string)
    ensures Unframe(MessagePrefix + body + ")") == Some(body)
  {
    var m := MessagePrefix + body + ")";
    assert m[..|MessagePrefix|] == MessagePrefix;
    assert m[|MessagePrefix|..|m| - 1] == body;
  }

  lemma SplitAtLastParenRoundTrip(date: string, ratio: string)
    requires '(' !in ratio
    ensures SplitAtLastParen(date + " (" + ratio) == Some((date, ratio))
  {
    var body := date + " (" + ratio;
    assert body == (date + " ") + ['('] + ratio;
    LastIndexOfAt(date + " ", '(', ratio);
    assert body[..|date|] == date;
    assert body[|date| + 2..] == ratio;
  }

  lemma ParseRatioRoundTrip(ordinal: nat, count: nat)
    ensures ParseRatio(NatToString(ordinal) + "/" + NatToString(count)) == Some((ordinal, count))
  {
    var i := NatToString(ordinal);
    var n := NatToString(count);
    var ratio := i + "/" + n;
    DigitsHaveNo(i, '/');
    assert ratio == i + ['/'] + n;
    IndexOfAt(i, '/', n);
    assert ratio[..|i|] == i;
    assert ratio[|i| + 1..] == n;
    ParseNatToString(ordinal);
    ParseNatToString(count);
  }

  lemma DigitsHaveNo(s: string, c: char)
    requires AllDigits(s) && !IsDigit(c)
    ensures c !in s
  {
  }

  lemma ParseMessageRoundTrip(date: string, ordinal: nat, count: nat)
    ensures ParseMessage(Message(date, ordinal, count)) == Some((date, ordinal, count))
  {
    var i := NatToString(ordinal);
    var n := NatToString(count);
    var ratio := i + "/" + n;
    var body := date + " (" + ratio;
    assert Message(date, ordinal, count) == MessagePrefix + body + ")";
    UnframeRoundTrip(body);
    DigitsHaveNo(i, '(');
    DigitsHaveNo(n, '(');
    SplitAtLastParenRoundTrip(date, ratio);
    ParseRatioRoundTrip(ordinal, count);
  }

  /** Messages with different dates or ordinals differ. */
  lemma MessageInjective(d1: string, i1: nat, n1: nat, d2: string, i2: nat, n2: nat)
    requires Message(d1, i1, n1) == Message(d2, i2, n2)
    ensures d1 == d2 && i1 == i2 && n1 == n2
  {
    ParseMessageRoundTrip(d1, i1, n1);
    ParseMessageRoundTrip(d2, i2, n2);
  }

  // ---------------------------------------------------------------------
  // The commits of one day
  // ---------------------------------------------------------------------

  /** The first `made` of the `count` requests for one day, numbered from 1. */
  function Numbered(date: string, made: nat, count: nat): (reqs: seq<CommitRequest>)
    ensures |reqs| == made
    ensures forall k :: 0 <= k < made ==> reqs[k] == CommitRequest(date, Message(date, k + 1, count))
  {
    if made == 0 then []
    else Numbered(date, made - 1, count) + [CommitRequest(date, Message(date, made, count))]
  }

  /** All `count` requests for one day. */
  function DayCommits(date: string, count: nat): seq<CommitRequest>
  {
    Numbered(date, count, count)
  }

  /** The `k`-th request of a day (from 0) carries that day and the ordinal
      `k + 1` out of `count`. */
  lemma DayCommitNumbered(date: string, count: nat, k: nat)
    requires k < count
    ensures |DayCommits(date, count)| == count
    ensures DayCommits(date, count)[k].date == date
    ensures ParseMessage(DayCommits(date, count)[k].message) == Some((date, k + 1, count))
  {
    assert DayCommits(date, count)[k].message == Message(date, k + 1, count);
    ParseMessageRoundTrip(date, k + 1, count);
  }

  /** `createCommitsForDay`: the requests the loop issues, in order. */
  method CreateCommitsForDay(date: string, count: nat) returns (reqs: seq<CommitRequest>)
    ensures reqs == DayCommits(date, count)
    ensures |reqs| == count
  {
    reqs := [];
    var i := 0;
    while i < count
      invariant 0 <= i <= count
      invariant reqs == Numbered(date, i, count)
    {
      reqs := reqs + [CommitRequest(date, Message(date, i + 1, count))];
      i := i + 1;
    }
  }
}
