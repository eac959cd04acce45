/**
 * One repository's synchronisation (`同步仓库` in sync.py): pull with rebase,
 * look at the porcelain status, stage and commit when something changed,
 * push, and log one header line per repository plus the lines of the tool's
 * diagnostics on failure. Each git invocation is replaced by the reply it
 * would give (exit code, standard output, standard error).
 */
module Sync {
  import opened Wrappers
  import opened Text
  import opened Logging

  // ---------------------------------------------------------------- git as an oracle

  /** The git invocations `同步仓库` makes. */
  datatype GitCommand = Pull | Status | Add | Commit(message: string) | Push

  /** What a finished `git` process reports. */
  datatype GitReply = GitReply(code: int, stdout: string, stderr: string)

  /** `if res.returncode:` -- any non-zero exit code (a signal gives a negative one) is failure. */
  predicate Fails(reply: GitReply) {
    reply.code != 0
  }

  /** Local wall-clock time to the minute, as `datetime.now()` gives it. */
  datatype Moment = Moment(year: nat, month: nat, day: nat, hour: nat, minute: nat)

  /** The replies the repository would give to each invocation, and the clock
      reading taken when the commit message is built. A reply is only looked
      at when its command is actually invoked. */
  datatype GitReplies = GitReplies(
    pull: GitReply, status: GitReply, add: GitReply, commit: GitReply, push: GitReply,
    now: Moment)

  function ReplyOf(r: GitReplies, c: GitCommand): GitReply {
    match c
    case Pull => r.pull
    case Status => r.status
    case Add => r.add
    case Commit(_) => r.commit
    case Push => r.push
  }

  /** `res.stdout.strip()` is non-empty: the working copy has uncommitted changes. */
  predicate HasChanges(status: GitReply) {
    Strip(status.stdout) != ""
  }

  // ---------------------------------------------------------------- commit message

  predicate ValidMoment(t: Moment) {
    1000 <= t.year <= 9999 && 1 <= t.month <= 12 && 1 <= t.day <= 31
    && t.hour <= 23 && t.minute <= 59
  }

  /** `f"auto-sync {datetime.now():%Y-%m-%d_%H%M}"`. */
  function CommitMessage(t: Moment): string {
    "auto-sync " + Padded(t.year, 4) + "-" + Padded(t.month, 2) + "-" + Padded(t.day, 2)
    + "_" + Padded(t.hour, 2) + Padded(t.minute, 2)
  }

  /** Reads the time stamp back out of an `auto-sync` commit message. */
  function ParseCommitMessage(m: string): Option<Moment> {
    if |m| == 25 && m[..10] == "auto-sync " && m[14] == '-' && m[17] == '-' && m[20] == '_'
      && AllDigits(m[10..14]) && AllDigits(m[15..17]) && AllDigits(m[18..20])
      && AllDigits(m[21..23]) && AllDigits(m[23..25])
    then Some(Moment(DigitsValue(m[10..14]), DigitsValue(m[15..17]), DigitsValue(m[18..20]),
                     DigitsValue(m[21..23]), DigitsValue(m[23..25])))
    else None
  }

  /** Where each field sits in a message of the shape `auto-sync YYYY-MM-DD_HHMM`. */
  lemma MessageFields(y: string, mo: string, d: string, h: string, mi: string)
    requires |y| == 4 && |mo| == 2 && |d| == 2 && |h| == 2 && |mi| == 2
    ensures var m := "auto-sync " + y + "-" + mo + "-" + d + "_" + h + mi;
      |m| == 25 && m[..10] == "auto-sync " && m[14] == '-' && m[17] == '-' && m[20] == '_'
      && m[10..14] == y && m[15..17] == mo && m[18..20] == d && m[21..23] == h && m[23..25] == mi
  {
  }

  /** The commit message records the minute it was made: it is 25 characters
      long and the time stamp can be read back from it. */
  lemma CommitMessageRoundTrip(t: Moment)
    requires ValidMoment(t)
    ensures |CommitMessage(t)| == 25
    ensures ParseCommitMessage(CommitMessage(t)) == Some(t)
  {
    assert Pow10(4) == 10000 && Pow10(2) == 100;
    PaddedValue(t.year, 4);
    PaddedValue(t.month, 2);
    PaddedValue(t.day, 2);
    PaddedValue(t.hour, 2);
    PaddedValue(t.minute, 2);
    MessageFields(Padded(t.year, 4), Padded(t.month, 2), Padded(t.day, 2),
      Padded(t.hour, 2), Padded(t.minute, 2));
  }

  // ---------------------------------------------------------------- diagnostic lines

  /** Strips each piece and keeps the non-empty results, in order. */
  function NonBlank(parts: seq<string>): seq<string> {
    if parts == [] then []
    else
      var t := Strip(parts[0]);
      (if t == "" then [] else [t]) + NonBlank(parts[1..])
  }

  /** `[line.strip() for line in res.stderr.strip().split('\n') if line.strip()]`. */
  function ErrorLines(stderr: string): seq<string> {
    NonBlank(Split(Strip(stderr), '\n'))
  }

  /** Every kept line is non-empty, already stripped, and a single line. */
  lemma {:induction false} NonBlankSpec(parts: seq<string>, sep: char)
    requires forall k | 0 <= k < |parts| :: sep !in parts[k]
    ensures |NonBlank(parts)| <= |parts|
    ensures forall k | 0 <= k < |NonBlank(parts)| ::
      NonBlank(parts)[k] != "" && Strip(NonBlank(parts)[k]) == NonBlank(parts)[k]
      && sep !in NonBlank(parts)[k]
  {
    if parts != [] {
      var t := Strip(parts[0]);
      NonBlankSpec(parts[1..], sep);
      StripIdempotent(parts[0]);
      StripStartSpec(parts[0]);
      StripEndSpec(StripStart(parts[0]));
      assert sep !in t by {
        assert forall c | c in t :: c in parts[0];
      }
      var head := if t == "" then [] else [t];
      assert NonBlank(parts) == head + NonBlank(parts[1..]);
    }
  }

  /** The extracted lines are the non-blank lines of standard error, each
      stripped, none empty and none spanning a line break. */
  lemma ErrorLinesSpec(stderr: string)
    ensures forall k | 0 <= k < |ErrorLines(stderr)| ::
      ErrorLines(stderr)[k] != "" && Strip(ErrorLines(stderr)[k]) == ErrorLines(stderr)[k]
      && '\n' !in ErrorLines(stderr)[k]
  {
    SplitSpec(Strip(stderr), '\n');
    NonBlankSpec(Split(Strip(stderr), '\n'), '\n');
  }

  lemma {:induction false} NonBlankAppend(a: seq<string>, b: seq<string>)
    ensures NonBlank(a + b) == NonBlank(a) + NonBlank(b)
  {
    if a != [] {
      assert (a + b)[0] == a[0];
      assert (a + b)[1..] == a[1..] + b;
      NonBlankAppend(a[1..], b);
    } else {
      assert a + b == b;
    }
  }

  /** White space in front of standard error changes no extracted line. */
  lemma {:induction false} NonBlankSkipsLeadingSpace(w: string, t: string)
    requires AllSpace(w)
    ensures NonBlank(Split(w + t, '\n')) == NonBlank(Split(t, '\n'))
    decreases |w|
  {
    if w == [] {
      assert w + t == t;
    } else {
      var u := w[1..] + t;
      assert (w + t)[1..] == u && (w + t)[0] == w[0];
      assert AllSpace(w[1..]) by {
        forall k | 0 <= k < |w| - 1 ensures IsSpace(w[1..][k]) {
          assert w[1..][k] == w[k + 1];
        }
      }
      NonBlankSkipsLeadingSpace(w[1..], t);
      var rest := Split(u, '\n');
      SplitSpec(u, '\n');
      if w[0] == '\n' {
        assert Split(w + t, '\n') == [""] + rest;
        assert ([""] + rest)[1..] == rest;
      } else {
        assert Split(w + t, '\n') == [[w[0]] + rest[0]] + rest[1..];
        StripSkipsLeadingSpace([w[0]], rest[0]);
        assert ([[w[0]] + rest[0]] + rest[1..])[1..] == rest[1..];
        assert rest == [rest[0]] + rest[1..];
        assert NonBlank(rest) == NonBlank([rest[0]] + rest[1..]);
      }
    }
  }

  lemma {:induction false} JoinAppend(ps: seq<string>, q: string, sep: char)
    requires |ps| >= 1
    ensures Join(ps + [q], sep) == Join(ps, sep) + [sep] + q
  {
    if |ps| > 1 {
      assert (ps + [q])[1..] == ps[1..] + [q];
      JoinAppend(ps[1..], q, sep);
    }
  }

  lemma {:induction false} JoinExtendLast(ps: seq<string>, c: char, sep: char)
    requires |ps| >= 1
    ensures Join(ps[..|ps| - 1] + [ps[|ps| - 1] + [c]], sep) == Join(ps, sep) + [c]
  {
    var n := |ps|;
    var qs := ps[..n - 1] + [ps[n - 1] + [c]];
    if n == 1 {
      assert qs == [ps[0] + [c]];
    } else {
      var tail := ps[1..];
      assert qs[0] == ps[0];
      assert qs[1..] == tail[..n - 2] + [tail[n - 2] + [c]];
      JoinExtendLast(tail, c, sep);
      calc {
        Join(qs, sep);
        qs[0] + [sep] + Join(qs[1..], sep);
        ps[0] + [sep] + (Join(tail, sep) + [c]);
        (ps[0] + [sep] + Join(tail, sep)) + [c];
      }
    }
  }

  /** Splitting after one more character either opens a new empty piece (a
      separator) or extends the last piece. */
  lemma SplitAppendChar(t: string, c: char, sep: char)
    ensures var ps := Split(t, sep);
      Split(t + [c], sep) ==
        if c == sep then ps + [""] else ps[..|ps| - 1] + [ps[|ps| - 1] + [c]]
  {
    var ps := Split(t, sep);
    SplitSpec(t, sep);
    if c == sep {
      JoinAppend(ps, "", sep);
      assert ps + [""] == ps + [""];
      forall k | 0 <= k < |ps + [""]| ensures sep !in (ps + [""])[k] {
        if k < |ps| {
          assert (ps + [""])[k] == ps[k];
        }
      }
      SplitUnique(t + [c], sep, ps + [""]);
    } else {
      var qs := ps[..|ps| - 1] + [ps[|ps| - 1] + [c]];
      JoinExtendLast(ps, c, sep);
      forall k | 0 <= k < |qs| ensures sep !in qs[k] {
        if k < |ps| - 1 {
          assert qs[k] == ps[k];
        } else {
          assert qs[k] == ps[|ps| - 1] + [c];
        }
      }
      SplitUnique(t + [c], sep, qs);
    }
  }

  /** White space after standard error changes no extracted line. */
  lemma {:induction false} NonBlankSkipsTrailingSpace(t: string, w: string)
    requires AllSpace(w)
    ensures NonBlank(Split(t + w, '\n')) == NonBlank(Split(t, '\n'))
    decreases |w|
  {
    if w == [] {
      assert t + w == t;
    } else {
      var v := w[..|w| - 1];
      var c := w[|w| - 1];
      assert t + w == (t + v) + [c];
      assert AllSpace(v) by {
        forall k | 0 <= k < |v| ensures IsSpace(v[k]) {
          assert v[k] == w[k];
        }
      }
      NonBlankSkipsTrailingSpace(t, v);
      var ps := Split(t + v, '\n');
      assert |ps| >= 1;
      SplitAppendChar(t + v, c, '\n');
      var n := |ps|;
      var init := ps[..n - 1];
      if c == '\n' {
        calc {
          NonBlank(Split(t + w, '\n'));
          NonBlank(ps + [""]);
          { NonBlankAppend(ps, [""]); }
          NonBlank(ps) + NonBlank([""]);
          NonBlank(ps);
        }
      } else {
        assert ps == init + [ps[n - 1]];
        calc {
          NonBlank(Split(t + w, '\n'));
          NonBlank(init + [ps[n - 1] + [c]]);
          { NonBlankAppend(init, [ps[n - 1] + [c]]); }
          NonBlank(init) + NonBlank([ps[n - 1] + [c]]);
          { StripSkipsTrailingSpace(ps[n - 1], c); }
          NonBlank(init) + NonBlank([ps[n - 1]]);
          { NonBlankAppend(init, [ps[n - 1]]); }
          NonBlank(ps);
        }
      }
    }
  }

  /** White space around standard error changes no extracted line: only the
      part between the leading and the trailing white space matters. */
  lemma NonBlankIgnoresOuterSpace(s: string, i: nat, j: nat)
    requires i <= j <= |s| && AllSpace(s[..i]) && AllSpace(s[j..])
    ensures NonBlank(Split(s, '\n')) == NonBlank(Split(s[i..j], '\n'))
  {
    var m := s[i..j];
    ThreeParts(s, i, j);
    NonBlankSkipsLeadingSpace(s[..i], m + s[j..]);
    NonBlankSkipsTrailingSpace(m, s[j..]);
  }

  lemma ThreeParts(s: string, i: nat, j: nat)
    requires i <= j <= |s|
    ensures s == s[..i] + (s[i..j] + s[j..])
  {
    assert s[i..] == s[i..j] + s[j..];
    assert s == s[..i] + s[i..];
  }

  /** The outer `strip()` before `split('\n')` is redundant: the extracted lines
      are the stripped non-blank lines of standard error as it came. */
  lemma ErrorLinesIgnoreOuterStrip(stderr: string)
    ensures ErrorLines(stderr) == NonBlank(Split(stderr, '\n'))
  {
    StripSpec(stderr);
    var i: nat, j: nat :| i <= j <= |stderr| && Strip(stderr) == stderr[i..j]
      && AllSpace(stderr[..i]) && AllSpace(stderr[j..]);
    NonBlankIgnoresOuterSpace(stderr, i, j);
  }

  lemma {:induction false} NonBlankEmptyIff(parts: seq<string>)
    ensures NonBlank(parts) == [] <==> forall k | 0 <= k < |parts| :: AllSpace(parts[k])
  {
    if parts != [] {
      NonBlankEmptyIff(parts[1..]);
      StripEmptyIff(parts[0]);
      assert forall k | 1 <= k < |parts| :: parts[k] == parts[1..][k - 1];
    }
  }

  lemma {:induction false} JoinAllSpace(parts: seq<string>, sep: char)
    requires |parts| >= 1 && IsSpace(sep)
    ensures AllSpace(Join(parts, sep)) <==> forall k | 0 <= k < |parts| :: AllSpace(parts[k])
  {
    if |parts| > 1 {
      JoinAllSpace(parts[1..], sep);
      var j := Join(parts, sep);
      var a := parts[0];
      var b := Join(parts[1..], sep);
      assert j == a + [sep] + b;
      assert forall k | 1 <= k < |parts| :: parts[k] == parts[1..][k - 1];
      if AllSpace(j) {
        assert forall k | 0 <= k < |a| :: a[k] == j[k];
        assert forall k | 0 <= k < |b| :: b[k] == j[|a| + 1 + k];
      }
    }
  }

  /** Nothing is extracted exactly when standard error is blank; then only the
      header line is logged. */
  lemma ErrorLinesEmptyIff(stderr: string)
    ensures ErrorLines(stderr) == [] <==> AllSpace(stderr)
  {
    var m := Strip(stderr);
    var ps := Split(m, '\n');
    SplitSpec(m, '\n');
    NonBlankEmptyIff(ps);
    JoinAllSpace(ps, '\n');
    StripEmptyIff(stderr);
    StripEmptyIff(m);
    StripIdempotent(stderr);
  }

  // ---------------------------------------------------------------- outcome and log lines

  datatype Stage = PullStage | CommitStage | PushStage

  /** The result of syncing one repository. */
  datatype Outcome =
    | PulledCleanAndPushed
    | CommittedAndPushed
    | Failed(stage: Stage, detail: seq<string>)

  /** The word the failure header uses for each stage. */
  function StageLabel(s: Stage): string {
    match s
    case PullStage => "拉取失败"
    case CommitStage => "提交失败"
    case PushStage => "推送失败"
  }

  /** The continuation lines `  └─ <line>` for the second and later details. */
  function LaterDetailLines(rest: seq<string>): seq<string> {
    if rest == [] then [] else ["  └─ " + rest[0]] + LaterDetailLines(rest[1..])
  }

  /** The nested lines under a failure header: `  ├─ ` before the first
      extracted line, `  └─ ` before each later one. */
  function DetailLines(detail: seq<string>): seq<string> {
    if detail == [] then [] else ["  ├─ " + detail[0]] + LaterDetailLines(detail[1..])
  }

  /** Reading the detail lines back: drop the five-character marker. */
  function DetailsOf(lines: seq<string>): seq<string>
    requires forall k | 0 <= k < |lines| :: |lines[k]| >= 5
  {
    seq(|lines|, k requires 0 <= k < |lines| => lines[k][5..])
  }

  lemma {:induction false} LaterDetailLinesSpec(rest: seq<string>)
    ensures |LaterDetailLines(rest)| == |rest|
    ensures forall k | 0 <= k < |rest| :: LaterDetailLines(rest)[k] == "  └─ " + rest[k]
  {
    if rest != [] {
      LaterDetailLinesSpec(rest[1..]);
      var r := LaterDetailLines(rest);
      forall k | 0 <= k < |rest| ensures r[k] == "  └─ " + rest[k] {
        if k > 0 {
          assert r[k] == LaterDetailLines(rest[1..])[k - 1];
        }
      }
    }
  }

  /** One nested line per extracted line, in order, each marked so that the
      extracted line can be read back from it. */
  lemma DetailLinesRoundTrip(detail: seq<string>)
    ensures |DetailLines(detail)| == |detail|
    ensures forall k | 0 <= k < |detail| :: |DetailLines(detail)[k]| >= 5
    ensures forall k | 0 <= k < |detail| ::
      StartsWith(DetailLines(detail)[k], if k == 0 then "  ├─ " else "  └─ ")
    ensures DetailsOf(DetailLines(detail)) == detail
  {
    if detail != [] {
      LaterDetailLinesSpec(detail[1..]);
      var r := DetailLines(detail);
      forall k | 0 <= k < |detail|
        ensures r[k] == (if k == 0 then "  ├─ " else "  └─ ") + detail[k]
      {
        if k > 0 {
          assert r[k] == LaterDetailLines(detail[1..])[k - 1];
        }
      }
    }
  }

  /** The log lines `同步仓库` writes for a repository named `name`. */
  function RepoLines(name: string, outcome: Outcome): seq<string> {
    match outcome
    case CommittedAndPushed => ["- " + name + " ✅ 已提交并推送"]
    case PulledCleanAndPushed => ["- " + name + " ✅ 已同步（无改动）"]
    case Failed(stage, detail) => [FailureHeader(name, stage)] + DetailLines(detail)
  }

  function FailureHeader(name: string, stage: Stage): string {
    "- " + name + " ❌ " + StageLabel(stage)
  }

  lemma {:induction false} LaterDetailLinesSnoc(rest: seq<string>, x: string)
    ensures LaterDetailLines(rest + [x]) == LaterDetailLines(rest) + ["  └─ " + x]
  {
    if rest != [] {
      assert (rest + [x])[1..] == rest[1..] + [x];
      LaterDetailLinesSnoc(rest[1..], x);
    } else {
      assert LaterDetailLines([x]) == ["  └─ " + x] + LaterDetailLines([]);
    }
  }

  /** A header line, as opposed to a nested detail line. */
  predicate IsHeader(line: string) {
    StartsWith(line, "- ")
  }

  /** Each repository gets exactly one header line, first, naming it; the
      other lines are the nested diagnostics, 1 + |detail| lines in all. */
  lemma RepoLinesShape(name: string, outcome: Outcome)
    ensures var lines := RepoLines(name, outcome);
      |lines| == 1 + (if outcome.Failed? then |outcome.detail| else 0)
      && StartsWith(lines[0], "- " + name + " ")
      && forall k | 0 <= k < |lines| :: IsHeader(lines[k]) <==> k == 0
  {
    var lines := RepoLines(name, outcome);
    var prefix := "- " + name + " ";
    assert lines[0][..|prefix|] == prefix;
    if outcome.Failed? {
      DetailLinesRoundTrip(outcome.detail);
      var d := DetailLines(outcome.detail);
      forall k | 1 <= k < |lines| ensures !IsHeader(lines[k]) {
        assert lines[k] == d[k - 1];
        assert StartsWith(d[k - 1], if k == 1 then "  ├─ " else "  └─ ");
        assert lines[k][0] == ' ';
      }
    }
  }

  // ---------------------------------------------------------------- the state machine

  /** The commands invoked and the outcome of one run of `同步仓库`. */
  datatype SyncRun = SyncRun(trace: seq<GitCommand>, outcome: Outcome)

  function StageOf(c: GitCommand): Stage {
    match c
    case Commit(_) => CommitStage
    case Push => PushStage
    case _ => PullStage
  }

  /** `同步仓库` with its git calls answered by `r`. */
  function SyncPlan(r: GitReplies): SyncRun
  {
    var c := Commit(CommitMessage(r.now));
    if Fails(r.pull) then
      SyncRun([Pull], Failed(PullStage, ErrorLines(r.pull.stderr)))
    else if HasChanges(r.status) then
      if Fails(r.commit) then
        SyncRun([Pull, Status, Add, c], Failed(CommitStage, ErrorLines(r.commit.stderr)))
      else if Fails(r.push) then
        SyncRun([Pull, Status, Add, c, Push], Failed(PushStage, ErrorLines(r.push.stderr)))
      else
        SyncRun([Pull, Status, Add, c, Push], CommittedAndPushed)
    else if Fails(r.push) then
      SyncRun([Pull, Status, Push], Failed(PushStage, ErrorLines(r.push.stderr)))
    else
      SyncRun([Pull, Status, Push], PulledCleanAndPushed)
  }

  lemma SyncPlanSpec(r: GitReplies)
    // the only command sequences that can occur
    ensures var c := Commit(CommitMessage(r.now));
      SyncPlan(r).trace in {[Pull], [Pull, Status, Push], [Pull, Status, Add, c], [Pull, Status, Add, c, Push]}
    // a failed pull ends the run before anything else
    ensures SyncPlan(r).trace == [Pull] <==> Fails(r.pull)
    // staging and committing happen exactly when the pull worked and there are changes
    ensures Add in SyncPlan(r).trace <==> !Fails(r.pull) && HasChanges(r.status)
    // push is attempted unless the pull or the commit failed
    ensures Push in SyncPlan(r).trace <==> !Fails(r.pull) && (!HasChanges(r.status) || !Fails(r.commit))
    // every command before the last succeeded, except `status` and `add`, whose
    // exit codes are never looked at
    ensures forall k | 0 <= k < |SyncPlan(r).trace| - 1 ::
      SyncPlan(r).trace[k] == Status || SyncPlan(r).trace[k] == Add || !Fails(ReplyOf(r, SyncPlan(r).trace[k]))
    // the outcome is a failure exactly when the last command failed, and then
    // it carries that command's stage and extracted diagnostics
    ensures var last := SyncPlan(r).trace[|SyncPlan(r).trace| - 1];
      (SyncPlan(r).outcome.Failed? <==> Fails(ReplyOf(r, last)))
      && (SyncPlan(r).outcome.Failed? ==>
            SyncPlan(r).outcome == Failed(StageOf(last), ErrorLines(ReplyOf(r, last).stderr)))
    // a success says whether a commit was made
    ensures SyncPlan(r).outcome == CommittedAndPushed <==> Push in SyncPlan(r).trace && Add in SyncPlan(r).trace && !Fails(r.push)
    ensures SyncPlan(r).outcome == PulledCleanAndPushed <==> Push in SyncPlan(r).trace && Add !in SyncPlan(r).trace && !Fails(r.push)
  {
  }

  /** The nested lines of a failure branch: the first extracted line after
      `  ├─ `, then the later ones. */
  method LogDetails(log: Log, detail: seq<string>)
    modifies log
    ensures log.entries == old(log.entries) + DetailLines(detail)
  {
    if detail == [] {
      return;
    }
    log.Append("  ├─ " + detail[0]);
    LogLaterDetails(log, detail[1..]);
  }

  /** The loop over the extracted lines after the first: each after `  └─ `. */
  method LogLaterDetails(log: Log, rest: seq<string>)
    modifies log
    ensures log.entries == old(log.entries) + LaterDetailLines(rest)
  {
    ghost var later: seq<string> := [];
    for i := 0 to |rest|
      invariant later == LaterDetailLines(rest[..i])
      invariant log.entries == old(log.entries) + later
    {
      var line := "  └─ " + rest[i];
      assert later + [line] == LaterDetailLines(rest[..i + 1]) by {
        LaterDetailLinesSnoc(rest[..i], rest[i]);
        assert rest[..i + 1] == rest[..i] + [rest[i]];
      }
      log.Append(line);
      later := later + [line];
    }
    assert rest[..|rest|] == rest;
  }

  /** The failure branch written out four times in `同步仓库`: the header, then
      the nested lines. */
  method LogFailure(log: Log, name: string, stage: Stage, detail: seq<string>)
    modifies log
    ensures log.entries == old(log.entries) + [FailureHeader(name, stage)] + DetailLines(detail)
  {
    log.Append(FailureHeader(name, stage));
    LogDetails(log, detail);
  }

  /** Writes the lines for an outcome: one header, and for a failure the
      nested diagnostics. */
  method LogOutcome(log: Log, name: string, outcome: Outcome)
    modifies log
    ensures log.entries == old(log.entries) + RepoLines(name, outcome)
  {
    match outcome
    case CommittedAndPushed =>
      log.Append("- " + name + " ✅ 已提交并推送");
    case PulledCleanAndPushed =>
      log.Append("- " + name + " ✅ 已同步（无改动）");
    case Failed(stage, detail) =>
      LogFailure(log, name, stage, detail);
  }

  /** `同步仓库`: runs the steps in order, returns early on failure, and logs
      the repository's lines. */
  method SyncRepo(log: Log, name: string, r: GitReplies)
    returns (trace: seq<GitCommand>, outcome: Outcome)
    modifies log
    ensures SyncRun(trace, outcome) == SyncPlan(r)
    ensures log.entries == old(log.entries) + RepoLines(name, outcome)
  {
    // 1. pull
    var res := r.pull;
    trace := [Pull];
    if Fails(res) {
      outcome := Failed(PullStage, ErrorLines(res.stderr));
      LogOutcome(log, name, outcome);
      return;
    }
    // 2. uncommitted changes?
    res := r.status;
    if Strip(res.stdout) != "" {
      // stage everything (exit code not looked at), then commit
      var message := CommitMessage(r.now);
      res := r.commit;
      trace := [Pull, Status, Add, Commit(message)];
      if Fails(res) {
        outcome := Failed(CommitStage, ErrorLines(res.stderr));
        LogOutcome(log, name, outcome);
        return;
      }
      // 3. push
      res := r.push;
      trace := [Pull, Status, Add, Commit(message), Push];
      if Fails(res) {
        outcome := Failed(PushStage, ErrorLines(res.stderr));
        LogOutcome(log, name, outcome);
        return;
      }
      outcome := CommittedAndPushed;
    } else {
      // 3. push
      res := r.push;
      trace := [Pull, Status, Push];
      if Fails(res) {
        outcome := Failed(PushStage, ErrorLines(res.stderr));
        LogOutcome(log, name, outcome);
        return;
      }
      outcome := PulledCleanAndPushed;
    }
    LogOutcome(log, name, outcome);
  }
}
