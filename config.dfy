/**
 * Configuration lookup (`获取系统类型` and `读取env文件` in sync.py): the
 * platform family is derived from the operating-system name, and the scan
 * directory is the value of the first `.env` line whose key is that
 * platform's path key.
 */
module Config {
  import opened Wrappers
  import opened Text
  import opened Logging

  /** The closed set of platform families `获取系统类型` distinguishes. */
  datatype Platform = MacOS | Windows | Unknown

  /** The name `获取系统类型` returns, which also appears in log lines. */
  function PlatformName(p: Platform): string {
    match p
    case MacOS => "macos"
    case Windows => "windows"
    case Unknown => "unknown"
  }

  /** `获取系统类型` applied to the result of `platform.system()`. */
  function PlatformOf(system: string): Platform {
    var s := Lower(system);
    if s == "darwin" then MacOS else if s == "windows" then Windows else Unknown
  }

  /** Platform detection ignores letter case, and the three names the
      operating system reports map as expected. */
  lemma PlatformOfIgnoresCase(system: string)
    ensures PlatformOf(Upper(system)) == PlatformOf(system)
    ensures PlatformOf("Darwin") == MacOS && PlatformOf("Windows") == Windows
    ensures PlatformOf("Linux") == Unknown
  {
    LowerOfUpper(system);
    assert Lower("Darwin") == "darwin";
    assert Lower("Windows") == "windows";
    assert Lower("Linux") != "darwin";
  }

  /** The key comparison inside the `.env` loop: only the current platform's
      path key is accepted, and nothing is accepted on an unknown platform. */
  predicate KeyMatches(p: Platform, key: string) {
    (p == MacOS && key == "MACOS_PATH") || (p == Windows && key == "WINDOWS_PATH")
  }

  /** The key named in the "not found" message, `{系统类型.upper()}_PATH`, is
      the key the loop accepts, except on an unknown platform where no key is. */
  lemma KeyMatchesNamedKey(p: Platform, key: string)
    ensures KeyMatches(p, key) <==> p != Unknown && key == Upper(PlatformName(p)) + "_PATH"
  {
    assert Upper("macos") == "MACOS";
    assert Upper("windows") == "WINDOWS";
  }

  // ---------------------------------------------------------------- one line

  /** How one `.env` line is read. */
  datatype EnvLine =
    | Blank                                      // nothing but white space
    | Comment                                    // starts with `#` after stripping
    | NoAssignment                               // no `=`: silently ignored
    | Assignment(key: string, value: string)     // `key=value`

  /** Position of the first occurrence of `c` in `s`. */
  function FirstIndex(s: string, c: char): (i: nat)
    requires c in s
    ensures i < |s| && s[i] == c && c !in s[..i]
  {
    if s[0] == c then 0
    else
      var i := 1 + FirstIndex(s[1..], c);
      assert s[..i] == [s[0]] + s[1..][..i - 1];
      i
  }

  /** One iteration of the `.env` loop before the key test: strip the line,
      skip blanks and comments, ignore lines without `=`, otherwise split at
      the first `=`, strip and upper-case the key and strip the value. */
  function ParseLine(raw: string): EnvLine {
    var line := Strip(raw);
    if line == "" then Blank
    else if line[0] == '#' then Comment
    else if '=' !in line then NoAssignment
    else
      var i := FirstIndex(line, '=');
      Assignment(Upper(Strip(line[..i])), Strip(line[i + 1..]))
  }

  /** Which lines count as blank, comment or assignment, and that an
      assignment is cut at its first `=` only. */
  lemma ParseLineSpec(raw: string)
    ensures ParseLine(raw) == Blank <==> Strip(raw) == ""
    ensures ParseLine(raw) == Comment <==> Strip(raw) != "" && Strip(raw)[0] == '#'
    ensures ParseLine(raw).Assignment? <==> Strip(raw) != "" && Strip(raw)[0] != '#' && '=' in Strip(raw)
    ensures ParseLine(raw).Assignment? ==>
      var line := Strip(raw);
      exists i | 0 <= i < |line| ::
        line[i] == '=' && '=' !in line[..i]
        && ParseLine(raw).key == Upper(Strip(line[..i])) && ParseLine(raw).value == Strip(line[i + 1..])
  {
    var line := Strip(raw);
    if line != "" && line[0] != '#' && '=' in line {
      var i := FirstIndex(line, '=');
      assert ParseLine(raw) == Assignment(Upper(Strip(line[..i])), Strip(line[i + 1..]));
      CutAtFirstEquals(line, ParseLine(raw).key, ParseLine(raw).value);
    }
  }

  lemma CutAtFirstEquals(line: string, key: string, value: string)
    requires '=' in line
    requires var i := FirstIndex(line, '=');
      key == Upper(Strip(line[..i])) && value == Strip(line[i + 1..])
    ensures exists i | 0 <= i < |line| ::
      line[i] == '=' && '=' !in line[..i]
      && key == Upper(Strip(line[..i])) && value == Strip(line[i + 1..])
  {
    var i := FirstIndex(line, '=');
    assert line[i] == '=';
  }

  /** A line `k=v` is cut right after `k` when `k` holds no `=` and does not
      start with `#` once stripped: the key is `k` stripped and upper-cased,
      the value is `v` stripped and keeps every later `=`. */
  lemma AssignmentLine(k: string, v: string)
    requires '=' !in k && !StartsWith(Strip(k), "#")
    ensures ParseLine(k + "=" + v) == Assignment(Upper(Strip(k)), Strip(v))
  {
    var a := StripStart(k);
    var b := StripEnd(v);
    var line := a + "=" + b;
    assert Strip(k + "=" + v) == line by {
      StripStartBeforeMark(k, '=', v);
      StripEndAfterMark(a, '=', v);
      assert k + "=" + v == k + ['='] + v && a + ['='] + v == a + "=" + v;
    }
    assert '=' !in a by {
      StripStartSpec(k);
      forall m | 0 <= m < |a| ensures a[m] != '=' {
        assert a[m] == k[|k| - |a| + m];
      }
    }
    assert a == [] || a[0] != '#' by {
      if a != [] {
        StripStartSpec(k);
        StripEndSpec(a);
        assert StripEnd(a) != [] && StripEnd(a)[0] == a[0];
        assert Strip(k)[..1] == [a[0]];
      }
    }
    assert line[|a|] == '=';
    var i := FirstIndex(line, '=');
    assert i == |a|;
    assert line[..i] == a && line[i + 1..] == b;
    assert Strip(a) == Strip(k) by {
      StripStartSpec(k);
      assert StripStart(a) == a;
    }
    assert Strip(b) == Strip(v) by {
      StripEndSpec(v);
      assert v == b + v[|b|..];
      StripSkipsTrailingSpaces(b, v[|b|..]);
    }
  }

  /** The line decides the search on platform `p`. */
  predicate Selects(p: Platform, raw: string) {
    var l := ParseLine(raw);
    l.Assignment? && KeyMatches(p, l.key)
  }

  // ---------------------------------------------------------------- the loop

  /** The value the `.env` loop settles on: that of the first selecting line. */
  function FirstMatch(lines: seq<string>, p: Platform): Option<string> {
    if lines == [] then None
    else if Selects(p, lines[0]) then Some(ParseLine(lines[0]).value)
    else FirstMatch(lines[1..], p)
  }

  /** `FirstMatch` finds nothing exactly when no line selects. */
  lemma {:induction false} FirstMatchNone(lines: seq<string>, p: Platform)
    ensures FirstMatch(lines, p).None? <==> forall i | 0 <= i < |lines| :: !Selects(p, lines[i])
  {
    if lines != [] && !Selects(p, lines[0]) {
      FirstMatchNone(lines[1..], p);
      assert forall i | 1 <= i < |lines| :: lines[i] == lines[1..][i - 1];
    }
  }

  /** When `FirstMatch` finds a value, it is the value of the earliest
      selecting line. */
  lemma {:induction false} FirstMatchSome(lines: seq<string>, p: Platform)
    requires FirstMatch(lines, p).Some?
    ensures exists i | 0 <= i < |lines| ::
      Selects(p, lines[i]) && FirstMatch(lines, p).value == ParseLine(lines[i]).value
      && forall j | 0 <= j < i :: !Selects(p, lines[j])
  {
    if Selects(p, lines[0]) {
      assert Selects(p, lines[0]) && FirstMatch(lines, p).value == ParseLine(lines[0]).value;
    } else {
      var rest := lines[1..];
      FirstMatchSome(rest, p);
      var i :| 0 <= i < |rest| &&
        Selects(p, rest[i]) && FirstMatch(rest, p).value == ParseLine(rest[i]).value
        && forall j | 0 <= j < i :: !Selects(p, rest[j]);
      assert lines[i + 1] == rest[i];
      assert forall j | 1 <= j < i + 1 :: lines[j] == rest[j - 1];
      assert Selects(p, lines[i + 1]) && FirstMatch(lines, p).value == ParseLine(lines[i + 1]).value
        && forall j | 0 <= j < i + 1 :: !Selects(p, lines[j]);
    }
  }

  /** On an unknown platform no line is ever accepted. */
  lemma {:induction false} FirstMatchUnknown(lines: seq<string>)
    ensures FirstMatch(lines, Unknown) == None
  {
    if lines != [] {
      FirstMatchUnknown(lines[1..]);
    }
  }

  /** Once a line has selected a value, later lines are never read (`break`). */
  lemma {:induction false} FirstMatchIgnoresLaterLines(lines: seq<string>, more: seq<string>, p: Platform)
    requires FirstMatch(lines, p).Some?
    ensures FirstMatch(lines + more, p) == FirstMatch(lines, p)
  {
    assert (lines + more)[0] == lines[0];
    if !Selects(p, lines[0]) {
      assert (lines + more)[1..] == lines[1..] + more;
      FirstMatchIgnoresLaterLines(lines[1..], more, p);
    }
  }

  /** The loop of `读取env文件`: lines are examined in order and the first one
      that selects ends the loop with its value. */
  method ScanEnvLines(lines: seq<string>, p: Platform) returns (path: Option<string>)
    ensures path == FirstMatch(lines, p)
  {
    path := None;
    var i := 0;
    while i < |lines|
      invariant 0 <= i <= |lines|
      invariant FirstMatch(lines, p) == FirstMatch(lines[i..], p)
    {
      var line := ParseLine(lines[i]);
      if line.Assignment? && KeyMatches(p, line.key) {
        path := Some(line.value);
        break;
      }
      assert lines[i..][1..] == lines[i + 1..];
      i := i + 1;
    }
  }

  // ---------------------------------------------------------------- the file

  /** What reading `.env` yields: the file is absent, or it yields these lines
      and then possibly fails with an error message (a decoding error, say). */
  datatype EnvFile =
    | Missing
    | Present(lines: seq<string>, readError: Option<string>)

  /** The value `读取env文件` returns. A read error can only surface while the
      loop is still looking, so it leaves the result at `None`. */
  function EnvResult(file: EnvFile, p: Platform): Option<string> {
    match file
    case Missing => None
    case Present(lines, _) => FirstMatch(lines, p)
  }

  /** The single line `读取env文件` logs. */
  function EnvMessage(envPath: string, file: EnvFile, p: Platform): string {
    match file
    case Missing => "❌ .env 文件不存在：" + envPath
    case Present(lines, err) =>
      var found := FirstMatch(lines, p);
      if found.None? && err.Some? then "❌ 读取 .env 文件失败：" + err.value
      else if found.Some? && found.value != "" then
        "✅ 已加载 " + PlatformName(p) + " 系统路径配置：" + found.value
      else "❌ .env 文件中未找到 " + Upper(PlatformName(p)) + "_PATH 配置"
  }

  /** `主函数` goes on only with a non-empty path (`if not 扫描路径`). */
  predicate Usable(path: Option<string>) {
    path.Some? && path.value != ""
  }

  /** The log reports success exactly when the caller goes on to scan: an
      empty value (`MACOS_PATH=`) is reported as missing and stops the run. */
  lemma EnvMessageAgreesWithCaller(envPath: string, file: EnvFile, p: Platform)
    ensures StartsWith(EnvMessage(envPath, file, p), "✅") <==> Usable(EnvResult(file, p))
  {
    var m := EnvMessage(envPath, file, p);
    if Usable(EnvResult(file, p)) {
      assert m[..1] == "✅";
    } else {
      assert m[0] == '❌';
    }
  }

  /** `读取env文件`: logs exactly one line and returns the configured path. */
  method ReadEnvFile(log: Log, envPath: string, file: EnvFile, system: string)
    returns (path: Option<string>)
    modifies log
    ensures path == EnvResult(file, PlatformOf(system))
    ensures log.entries == old(log.entries) + [EnvMessage(envPath, file, PlatformOf(system))]
  {
    if file.Missing? {
      log.Append("❌ .env 文件不存在：" + envPath);
      return None;
    }
    var p := PlatformOf(system);
    path := ScanEnvLines(file.lines, p);
    if path.None? && file.readError.Some? {
      log.Append("❌ 读取 .env 文件失败：" + file.readError.value);
      return;
    }
    if path.Some? && path.value != "" {
      log.Append("✅ 已加载 " + PlatformName(p) + " 系统路径配置：" + path.value);
    } else {
      log.Append("❌ .env 文件中未找到 " + Upper(PlatformName(p)) + "_PATH 配置");
    }
  }

  /** A line `KEY=value` with a key in capitals decides the search when `KEY`
      is this platform's key, even when the value is empty (`MACOS_PATH=`
      gives `Some("")`); any other key is passed over and the search goes on
      with the next line. */
  lemma FirstLineDecides(key: string, v: string, rest: seq<string>, err: Option<string>, p: Platform)
    requires key != [] && forall k | 0 <= k < |key| :: 'A' <= key[k] <= 'Z' || key[k] == '_'
    ensures EnvResult(Present([key + "=" + v] + rest, err), p) ==
      if KeyMatches(p, key) then Some(Strip(v)) else EnvResult(Present(rest, err), p)
  {
    assert '=' !in key by {
      forall k | 0 <= k < |key| ensures key[k] != '=' {
      }
    }
    assert Strip(key) == key by {
      assert StripStart(key) == key;
      assert StripEnd(key) == key;
    }
    assert key[..1] != "#";
    AssignmentLine(key, v);
    KeyWordFixed(key);
    var lines := [key + "=" + v] + rest;
    assert lines[0] == key + "=" + v && lines[1..] == rest;
  }

  /** A key written in capitals without white space parses as itself. */
  lemma KeyWordFixed(key: string)
    requires forall k | 0 <= k < |key| :: 'A' <= key[k] <= 'Z' || key[k] == '_'
    ensures Upper(Strip(key)) == key
  {
    if key != [] {
      assert StripStart(key) == key;
      assert StripEnd(key) == key;
    }
  }
}
