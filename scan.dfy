/**
 * The directory scan (`扫描并同步仓库` in sync.py) and the entry point
 * (`主函数`): every first-level child of the configured directory that is a
 * visible directory holding a `.git` directory is synchronised, in the order
 * the directory listing yields it, and a summary line reports how many were.
 * The file system is replaced by what it would report for each child.
 */
module Scan {
  import opened Wrappers
  import opened Text
  import opened Logging
  import opened Config
  import opened Sync

  // ---------------------------------------------------------------- the directory

  /** One entry of `基础路径.iterdir()`: whether it is a directory, its name,
      whether `<entry>/.git` is a directory, and the replies git would give
      inside it. */
  datatype Child = Child(isDir: bool, name: string, hasGitDir: bool, git: GitReplies)

  /** How the listing can end early: `PermissionError`, or any other exception
      with its message. */
  datatype EnumStop = PermissionDenied | ScanFailed(message: string)

  /** The scan directory as the program sees it: its resolved path, whether it
      exists, the children the listing yields, and whether the listing then
      stops with an exception. */
  datatype BaseDir = BaseDir(resolved: string, present: bool, children: seq<Child>, stop: Option<EnumStop>)

  /** The test inside the loop: a directory, not hidden, with a `.git` directory. */
  predicate Qualifies(c: Child) {
    c.isDir && !StartsWith(c.name, ".") && c.hasGitDir
  }

  /** The names of the repositories synchronised, in listing order. */
  function Repos(cs: seq<Child>): seq<string>
    decreases |cs|
  {
    if cs == [] then []
    else
      var last := cs[|cs| - 1];
      Repos(cs[..|cs| - 1]) + (if Qualifies(last) then [last.name] else [])
  }

  /** The log lines of the repositories synchronised, in listing order. */
  function SyncLines(cs: seq<Child>): seq<string>
    decreases |cs|
  {
    if cs == [] then []
    else
      var last := cs[|cs| - 1];
      SyncLines(cs[..|cs| - 1]) + ChildLines(last)
  }

  /** The lines one child contributes: those of its synchronisation if it
      qualifies, none otherwise. */
  function ChildLines(c: Child): seq<string> {
    if Qualifies(c) then RepoLines(c.name, SyncPlan(c.git).outcome) else []
  }

  /** The line logged when the listing stops with an exception. */
  function StopLines(base: BaseDir): seq<string> {
    match base.stop
    case None => []
    case Some(PermissionDenied) => ["❌ 路径访问被拒绝：" + base.resolved]
    case Some(ScanFailed(m)) => ["❌ 扫描失败：" + m]
  }

  /** The closing line, which reports the count. */
  function SummaryLine(count: nat): string {
    if count == 0 then "❌ 未发现 Git 仓库" else "✅ 完成，共处理 " + Decimal(count) + " 个仓库"
  }

  /** Everything `扫描并同步仓库` logs. A missing directory ends the scan
      before the summary; an exception in the listing does not. */
  function ScanLog(base: BaseDir): seq<string> {
    if !base.present then ["❌ 扫描路径不存在：" + base.resolved]
    else SyncLines(base.children) + StopLines(base) + [SummaryLine(|Repos(base.children)|)]
  }

  // ---------------------------------------------------------------- the scan

  /** `扫描并同步仓库`: walks the children once, counting and synchronising each
      repository, then logs the exception (if any) and the summary. */
  method ScanAndSync(log: Log, base: BaseDir) returns (count: nat, synced: seq<string>)
    modifies log
    ensures synced == if base.present then Repos(base.children) else []
    ensures count == |synced|
    ensures log.entries == old(log.entries) + ScanLog(base)
  {
    if !base.present {
      log.Append("❌ 扫描路径不存在：" + base.resolved);
      return 0, [];
    }
    count, synced := SyncChildren(log, base.children);
    LogScanEnd(log, base, count);
  }

  /** The loop over `iterdir()`: the counter goes up by one and the repository
      is synchronised for each qualifying child, in listing order. */
  method SyncChildren(log: Log, children: seq<Child>) returns (count: nat, synced: seq<string>)
    modifies log
    ensures synced == Repos(children) && count == |synced|
    ensures log.entries == old(log.entries) + SyncLines(children)
  {
    count := 0;
    synced := [];
    for i := 0 to |children|
      invariant count == |synced| && synced == Repos(children[..i])
      invariant log.entries == old(log.entries) + SyncLines(children[..i])
    {
      var child := children[i];
      OneMoreChild(children, i);
      AppendAssoc(old(log.entries), SyncLines(children[..i]), ChildLines(child));
      var repo := VisitChild(log, child);
      if repo {
        count := count + 1;
        synced := synced + [child.name];
      }
    }
    assert children[..|children|] == children;
  }

  /** One iteration: the child is tested and, when it qualifies, synchronised. */
  method VisitChild(log: Log, child: Child) returns (repo: bool)
    modifies log
    ensures repo == Qualifies(child)
    ensures log.entries == old(log.entries) + ChildLines(child)
  {
    repo := false;
    if child.isDir && !StartsWith(child.name, ".") {
      if child.hasGitDir {
        repo := true;
        var trace, outcome := SyncRepo(log, child.name, child.git);
      }
    }
  }

  lemma AppendAssoc<T>(a: seq<T>, b: seq<T>, c: seq<T>)
    ensures a + (b + c) == (a + b) + c
  {
  }

  lemma OneMoreChild(cs: seq<Child>, i: nat)
    requires i < |cs|
    ensures var c := cs[i];
      Repos(cs[..i + 1]) == Repos(cs[..i]) + (if Qualifies(c) then [c.name] else [])
      && SyncLines(cs[..i + 1]) == SyncLines(cs[..i]) + ChildLines(c)
  {
    assert cs[..i + 1][..i] == cs[..i];
  }

  /** After the loop: the exception's line, if the listing stopped with one,
      then the summary. */
  method LogScanEnd(log: Log, base: BaseDir, count: nat)
    modifies log
    ensures log.entries == old(log.entries) + StopLines(base) + [SummaryLine(count)]
  {
    match base.stop {
      case None =>
      case Some(PermissionDenied) =>
        log.Append("❌ 路径访问被拒绝：" + base.resolved);
      case Some(ScanFailed(m)) =>
        log.Append("❌ 扫描失败：" + m);
    }
    if count == 0 {
      log.Append("❌ 未发现 Git 仓库");
    } else {
      log.Append("✅ 完成，共处理 " + Decimal(count) + " 个仓库");
    }
  }

  // ---------------------------------------------------------------- which children

  lemma {:induction false} ReposAppend(a: seq<Child>, b: seq<Child>)
    ensures Repos(a + b) == Repos(a) + Repos(b)
    decreases |b|
  {
    if b == [] {
      assert a + b == a;
    } else {
      var ab := a + b;
      assert ab[..|ab| - 1] == a + b[..|b| - 1];
      ReposAppend(a, b[..|b| - 1]);
    }
  }

  /** A name is synchronised exactly when some child with that name qualifies. */
  lemma {:induction false} ReposMember(cs: seq<Child>, name: string)
    ensures name in Repos(cs) <==> exists k | 0 <= k < |cs| :: Qualifies(cs[k]) && cs[k].name == name
    decreases |cs|
  {
    if cs != [] {
      var init := cs[..|cs| - 1];
      ReposMember(init, name);
      assert forall k | 0 <= k < |init| :: init[k] == cs[k];
    }
  }

  /** The qualifying child at index `i` is synchronised as the one after all
      qualifying children before it: the listing order is kept. */
  lemma ReposPosition(cs: seq<Child>, i: nat)
    requires i < |cs| && Qualifies(cs[i])
    ensures |Repos(cs[..i])| < |Repos(cs)|
    ensures Repos(cs)[|Repos(cs[..i])|] == cs[i].name
  {
    assert cs == cs[..i] + ([cs[i]] + cs[i + 1..]);
    ReposAppend(cs[..i], [cs[i]] + cs[i + 1..]);
    ReposAppend([cs[i]], cs[i + 1..]);
    assert |[cs[i]][..0]| == 0;
  }

  /** Children later in the listing are synchronised later. */
  lemma ReposPrefixGrows(cs: seq<Child>, i: nat, j: nat)
    requires i < j <= |cs| && Qualifies(cs[i])
    ensures |Repos(cs[..i])| < |Repos(cs[..j])|
  {
    var p := cs[..j];
    assert p[..i] == cs[..i] && p[i] == cs[i];
    ReposPosition(p, i);
  }

  /** Directory entries have distinct names, so no repository is synchronised twice. */
  lemma {:induction false} ReposDistinct(cs: seq<Child>)
    requires forall k, l | 0 <= k < l < |cs| :: cs[k].name != cs[l].name
    ensures forall p, q | 0 <= p < q < |Repos(cs)| :: Repos(cs)[p] != Repos(cs)[q]
    decreases |cs|
  {
    if cs != [] {
      var init := cs[..|cs| - 1];
      var last := cs[|cs| - 1];
      ReposDistinct(init);
      if Qualifies(last) {
        var r := Repos(cs);
        assert r == Repos(init) + [last.name];
        assert last.name !in Repos(init) by {
          ReposMember(init, last.name);
          assert forall k | 0 <= k < |init| :: init[k] == cs[k];
        }
        forall p, q | 0 <= p < q < |r| ensures r[p] != r[q] {
          if q == |r| - 1 {
            assert r[p] == Repos(init)[p];
          } else {
            assert r[p] == Repos(init)[p] && r[q] == Repos(init)[q];
          }
        }
      }
    }
  }

  // ---------------------------------------------------------------- header lines

  /** How many lines of a log are repository header lines `- <name> …`. */
  function CountHeaders(lines: seq<string>): nat
    decreases |lines|
  {
    if lines == [] then 0
    else CountHeaders(lines[..|lines| - 1]) + (if IsHeader(lines[|lines| - 1]) then 1 else 0)
  }

  lemma {:induction false} CountHeadersAppend(a: seq<string>, b: seq<string>)
    ensures CountHeaders(a + b) == CountHeaders(a) + CountHeaders(b)
    decreases |b|
  {
    if b == [] {
      assert a + b == a;
    } else {
      var ab := a + b;
      assert ab[..|ab| - 1] == a + b[..|b| - 1];
      assert ab[|ab| - 1] == b[|b| - 1];
      CountHeadersAppend(a, b[..|b| - 1]);
    }
  }

  /** A block whose only header is its first line counts once. */
  lemma {:induction false} CountHeadersFirstOnly(lines: seq<string>)
    requires |lines| >= 1
    requires forall k | 0 <= k < |lines| :: IsHeader(lines[k]) <==> k == 0
    ensures CountHeaders(lines) == 1
    decreases |lines|
  {
    if |lines| > 1 {
      var init := lines[..|lines| - 1];
      assert forall k | 0 <= k < |init| :: init[k] == lines[k];
      CountHeadersFirstOnly(init);
    }
  }

  /** The synchronisation lines hold exactly one header per repository synchronised. */
  lemma {:induction false} SyncLinesHeaders(cs: seq<Child>)
    ensures CountHeaders(SyncLines(cs)) == |Repos(cs)|
    decreases |cs|
  {
    if cs != [] {
      var init := cs[..|cs| - 1];
      var last := cs[|cs| - 1];
      SyncLinesHeaders(init);
      if Qualifies(last) {
        var block := RepoLines(last.name, SyncPlan(last.git).outcome);
        RepoLinesShape(last.name, SyncPlan(last.git).outcome);
        CountHeadersFirstOnly(block);
        CountHeadersAppend(SyncLines(init), block);
      } else {
        assert SyncLines(init) + [] == SyncLines(init);
        assert Repos(init) + [] == Repos(init);
      }
    }
  }

  /** A log without header lines counts none. */
  lemma {:induction false} CountHeadersNone(lines: seq<string>)
    requires forall k | 0 <= k < |lines| :: !IsHeader(lines[k])
    ensures CountHeaders(lines) == 0
    decreases |lines|
  {
    if lines != [] {
      var init := lines[..|lines| - 1];
      assert forall k | 0 <= k < |init| :: init[k] == lines[k];
      CountHeadersNone(init);
    }
  }

  /** The exception line and the summary are not repository headers. */
  lemma ClosingLinesNoHeader(base: BaseDir, n: nat)
    ensures forall k | 0 <= k < |StopLines(base) + [SummaryLine(n)]| ::
      !IsHeader((StopLines(base) + [SummaryLine(n)])[k])
  {
    var tail := StopLines(base) + [SummaryLine(n)];
    forall k | 0 <= k < |tail| ensures !IsHeader(tail[k]) {
      assert tail[k][0] == '❌' || tail[k][0] == '✅';
    }
  }

  /** A whole scan log: one header per repository synchronised and the summary
      last, also after the listing stopped with an exception. */
  lemma ScanLogShape(base: BaseDir)
    requires base.present
    ensures CountHeaders(ScanLog(base)) == |Repos(base.children)|
    ensures ScanLog(base)[|ScanLog(base)| - 1] == SummaryLine(|Repos(base.children)|)
  {
    var n := |Repos(base.children)|;
    var sync := SyncLines(base.children);
    var tail := StopLines(base) + [SummaryLine(n)];
    AppendAssoc(sync, StopLines(base), [SummaryLine(n)]);
    assert ScanLog(base) == sync + tail;
    SyncLinesHeaders(base.children);
    ClosingLinesNoHeader(base, n);
    CountHeadersNone(tail);
    CountHeadersAppend(sync, tail);
  }

  // ---------------------------------------------------------------- the summary

  /** Reads the count back from a summary line. */
  function ParseSummary(line: string): Option<nat> {
    var pre := "✅ 完成，共处理 ";
    var suf := " 个仓库";
    if line == "❌ 未发现 Git 仓库" then Some(0)
    else if |pre| + |suf| < |line| && line[..|pre|] == pre && line[|line| - |suf|..] == suf
      && AllDigits(line[|pre|..|line| - |suf|]) && line[|pre|] != '0'
    then Some(DigitsValue(line[|pre|..|line| - |suf|]))
    else None
  }

  /** The summary line states the count in decimal, which reads back as the count. */
  lemma SummaryRoundTrip(count: nat)
    ensures ParseSummary(SummaryLine(count)) == Some(count)
  {
    if count > 0 {
      var pre := "✅ 完成，共处理 ";
      var suf := " 个仓库";
      var d := Decimal(count);
      var line := pre + d + suf;
      DecimalValue(count);
      assert line[..|pre|] == pre;
      assert line[|line| - |suf|..] == suf;
      assert line[|pre|..|line| - |suf|] == d;
      assert line[0] != "❌ 未发现 Git 仓库"[0];
    }
  }

  // ---------------------------------------------------------------- the entry point

  /** How `主函数` ends: it exits with a message, or the scan ran. */
  datatype RunEnd = Exited(message: string) | Scanned(count: nat)

  /** `主函数`: read the configured path, exit when there is none (or it is
      empty), otherwise scan the directory `resolve` reports for it. */
  method Run(log: Log, envPath: string, file: EnvFile, system: string, resolve: string -> BaseDir)
    returns (end: RunEnd)
    modifies log
    ensures var path := EnvResult(file, PlatformOf(system));
      end == if !Usable(path) then Exited("未找到有效的扫描路径配置，请检查 .env 文件。")
        else Scanned(if resolve(path.value).present then |Repos(resolve(path.value).children)| else 0)
    ensures var path := EnvResult(file, PlatformOf(system));
      log.entries == old(log.entries) + [EnvMessage(envPath, file, PlatformOf(system))]
        + (if Usable(path) then ScanLog(resolve(path.value)) else [])
  {
    var path := ReadEnvFile(log, envPath, file, system);
    if !(path.Some? && path.value != "") {
      return Exited("未找到有效的扫描路径配置，请检查 .env 文件。");
    }
    var count, _ := ScanAndSync(log, resolve(path.value));
    return Scanned(count);
  }
}
