# OneClickGitSync in Dafny

This is a verified model of the decision logic in `sync.py`. The script synchronises every git working copy found directly under one configured directory. For each repository it pulls with rebase, commits pending changes as `auto-sync YYYY-MM-DD_HHMM`, pushes, and logs one line per repository. When a git command fails, the lines of its standard error are nested under that repository's line.

The model replaces each piece of plumbing with the value it would produce:
- Each git invocation is replaced by the reply it would give: exit code, standard output and standard error (`Sync.GitReplies`).
- The clock is replaced by a given `Sync.Moment`.
- `platform.system()` is replaced by a given string.
- The `.env` file is replaced by its lines, plus an optional read error (`Config.EnvFile`).
- The scanned directory is replaced by its resolved path, whether it exists, its children, and an optional exception that ends the listing (`Scan.BaseDir`, `Scan.Child`).
- The log is an object whose `entries` only grow (`Logging.Log`).

Modules, in dependency order:

| file | module | models |
|---|---|---|
| `wrappers.dfy` | `Wrappers` | `Option` |
| `text.dfy` | `Text` | Python's `strip()` with the `str.isspace` character set, `split` on one character and its inverse, ASCII `upper()`/`lower()`, zero-padded and plain decimal numbers |
| `logging.dfy` | `Logging` | `记录日志` as an append to a sequence of lines |
| `config.dfy` | `Config` | `获取系统类型` and `读取env文件` |
| `sync.dfy` | `Sync` | `同步仓库`: the commit message, the extraction of diagnostic lines, the log lines, and the pull → status → add/commit → push sequence |
| `scan.dfy` | `Scan` | `扫描并同步仓库` and `主函数` |

Each function that computes a value (the `.env` search, the extraction of standard-error lines, the run of one repository, the scan log) has lemmas relating it to an independent description. Each loop or step sequence of the script is a `method` proved to produce exactly that value and to append exactly the corresponding log lines.

Behaviour worth noting:
- A `.env` line without `=` is skipped silently. A line with several `=` is cut at the first one.
- Failure details are all the stripped, non-blank lines of standard error, in order.
- A missing scan directory is logged, and the run then ends normally without a summary line.
- When no repository is found, the summary line is `❌ 未发现 Git 仓库`, and the run ends normally.
- The exit codes of `git status` and `git add` are never looked at.

## Model

| member | source | states |
|---|---|---|
| Text.StripSpec | sync.py:46 | `strip()` removes only white space, from both ends. What remains is a contiguous piece of the line that neither starts nor ends with white space. |
| Text.StripIdempotent | sync.py:124 | Stripping a stripped line changes nothing. |
| Text.StripEmptyIff | sync.py:47 | A line is empty after stripping exactly when all of it is white space. |
| Text.SplitSpec | sync.py:124 | `split('\n')` yields at least one piece. No piece contains a line break. Joining the pieces with `\n` gives the string back. |
| Text.SplitUnique | sync.py:124 | The pieces `split('\n')` yields are the only `\n`-free pieces that join back to the string. |
| Text.PaddedValue | sync.py:142 | A number rendered in `w` zero-padded digits reads back as the number, whenever it fits in `w` digits. |
| Text.DecimalValue | sync.py:101 | A count rendered in decimal reads back as the count and has no superfluous leading zero. |
| Config.PlatformOfIgnoresCase | sync.py:23-31 | The platform family ignores letter case. `Darwin` maps to macos, `Windows` to windows, anything else (e.g. `Linux`) to unknown. |
| Config.KeyMatchesNamedKey | sync.py:56-66 | A key is accepted exactly when the platform is not unknown and the key is `<PLATFORM>_PATH`, the key the "not found" message names. |
| Config.ParseLineSpec | sync.py:46-53 | A line is blank, a comment, ignored or an assignment, each with an exact condition. An assignment is cut at the first `=`. Its key is stripped and upper-cased and its value is stripped. |
| Config.AssignmentLine | sync.py:46-53 | For any key `k` that holds no `=` and does not start with `#` once stripped, and any value `v`, the line `k=v` parses to the assignment of `k` stripped and upper-cased and `v` stripped. Any later `=` stays in the value, e.g. ` MACOS_PATH=/a=b ` gives key `MACOS_PATH` and value `/a=b`. |
| Config.FirstMatchNone | sync.py:45-61 | The search finds nothing exactly when no line is an assignment of the platform's key. |
| Config.FirstMatchSome | sync.py:45-61 | A value found is the value of the earliest line that selects, and no earlier line selects. |
| Config.FirstMatchUnknown | sync.py:56-61 | On an unknown platform no line is ever accepted. |
| Config.FirstMatchIgnoresLaterLines | sync.py:57-58 | Once a line has selected a value, lines after it cannot change the result (`break`). |
| Config.FirstLineDecides | sync.py:56-61 | For a non-empty key made of capital letters and `_` and any value, a first line `KEY=value` decides the result when `KEY` is the platform's key: the value stripped, also when it is empty (`MACOS_PATH=` gives the empty string). Any other key, such as `WINDOWS_PATH` on macOS, is passed over. |
| Config.ScanEnvLines | sync.py:45-61 | The `for` loop with its early `break` returns exactly the first selected value, or none. |
| Config.EnvMessageAgreesWithCaller | sync.py:63-66 | The log reports a loaded path (`✅`) exactly when the path is non-empty, which is when `主函数` goes on. An empty value is reported as missing. |
| Config.ReadEnvFile | sync.py:34-71 | `读取env文件` returns the first selected value, or none if the file is missing or a read error interrupts the search. It logs exactly one line: missing file, read error, loaded path, or key not found. |
| Sync.CommitMessageRoundTrip | sync.py:142 | The commit message is 25 characters long, and the minute it was made can be read back from it. |
| Sync.ErrorLinesSpec | sync.py:124 | Every extracted diagnostic line is non-empty, already stripped, and free of line breaks. |
| Sync.ErrorLinesIgnoreOuterStrip | sync.py:124 | The outer `strip()` changes nothing. The extracted lines are the stripped, non-blank lines of standard error as it came, in order. |
| Sync.ErrorLinesEmptyIff | sync.py:124-131 | Nothing is extracted exactly when standard error is all white space. Then only the header line is logged. |
| Sync.DetailLinesRoundTrip | sync.py:127-129 | There is one nested line per extracted line: `  ├─ ` before the first and `  └─ ` before each later one. Removing the marker gives back the extracted lines. |
| Sync.RepoLinesShape | sync.py:125-181 | A repository's lines are one header `- <name> …`, first, followed by one nested line per extracted line. |
| Sync.SyncPlanSpec | sync.py:119-181 | The commands run are [pull], [pull, status, push], [pull, status, add, commit] or [pull, status, add, commit, push], each under its exact condition. Every command before the last succeeded, except status and add. The outcome is a failure exactly when the last command failed, and then carries that command's stage and diagnostics. |
| Sync.LogDetails | sync.py:126-129 | Exactly the nested lines of the extracted diagnostics are appended: the first after `  ├─ `, then each later one after `  └─ `, in order. Nothing is appended when nothing was extracted. |
| Sync.LogLaterDetails | sync.py:128-129 | The loop over the extracted lines after the first appends each of them after `  └─ `, in order, and nothing else. |
| Sync.LogFailure | sync.py:125-131 | A failure appends the stage's header, then the nested diagnostic lines. |
| Sync.LogOutcome | sync.py:125-181 | Exactly the lines of the outcome are appended. |
| Sync.SyncRepo | sync.py:119-181 | `同步仓库` invokes exactly the planned commands, reaches the planned outcome, and appends exactly that outcome's lines. |
| Scan.ReposMember | sync.py:85-91 | A name is synchronised exactly when a child with that name is a directory, is not hidden, and contains a `.git` directory. |
| Scan.ReposPosition | sync.py:85-91 | Each qualifying child is synchronised right after the qualifying children listed before it. |
| Scan.ReposPrefixGrows | sync.py:85-91 | A qualifying child is synchronised before every child listed after it. |
| Scan.ReposDistinct | sync.py:85-91 | Since directory entries have distinct names, no repository is synchronised twice. |
| Scan.SyncLinesHeaders | sync.py:85-91 | The synchronisation lines hold exactly one header per repository synchronised. |
| Scan.ScanLogShape | sync.py:83-101 | The scan log of an existing directory holds one header per repository counted and ends with the summary line. This holds also after the listing stopped with an exception. |
| Scan.SummaryRoundTrip | sync.py:98-101 | The count can be read back from the summary line: `❌ 未发现 Git 仓库` for zero, `✅ 完成，共处理 N 个仓库` otherwise. |
| Scan.SyncChildren | sync.py:85-91 | The loop counts, and synchronises in listing order, exactly the qualifying children. |
| Scan.VisitChild | sync.py:86-91 | One step of the loop reports whether the child qualifies (a directory, not hidden, with a `.git` directory). It appends exactly that repository's lines when the child qualifies, and nothing otherwise. |
| Scan.LogScanEnd | sync.py:93-101 | After the loop, the exception's line (permission denied, or any other failure with its message) is appended if there is one, followed by the summary. |
| Scan.ScanAndSync | sync.py:74-101 | A missing directory gives its one line and no count. Otherwise the count is the number of qualifying children and the whole scan log is appended. |
| Scan.Run | sync.py:184-194 | `主函数` exits with its message exactly when no non-empty path is configured. Otherwise it scans the directory resolved from the path. The log holds the `.env` line and then the scan log. |
| Logging.Log.Append | sync.py:104-109 | Logging appends exactly one line and keeps every earlier one. |

## Left out

- Running `git` (`执行git命令`, a subprocess): its replies are inputs. No exception from a missing executable or undecodable output is modelled.
- An exception raised inside `同步仓库` during the scan is not modelled. In the program it ends the loop, and the repository has already been counted (sync.py:90 runs before sync.py:91), so the summary includes it. A `PermissionError`, for instance from a `git` that cannot be executed, is caught at sync.py:93 and logs `❌ 路径访问被拒绝：<base path>`. Any other exception logs `❌ 扫描失败：…`. A failure of `记录日志` itself to write the log file is not modelled either: it fails again inside the handler (sync.py:94, sync.py:96), and the exception leaves `扫描并同步仓库`.
- `记录日志`'s `[MM-DD HH:MM:SS]` time stamp, the console copy, the `end` argument and the day-named log file are left out. Only the message lines are kept, in order.
- The clock (`datetime.now()`, `date.today()`) is replaced by a given time.
- `platform.system()` is replaced by a given string.
- File-system calls are replaced by inputs: `exists`, `iterdir`, `is_dir`, `expanduser().resolve()` and the creation of the log directory.
- Decoding `.env` as UTF-8 and splitting it into lines with universal newlines are left out. The file comes as its lines, and a read error is taken to happen after them.
- `upper()` and `lower()` act on ASCII letters only. Python's Unicode case mappings are left out. They only matter for keys or platform names with non-ASCII letters.
- `sys.exit` becomes the result `Exited(message)`. The process exit status and the Windows "press Enter" pause are left out.
- Sync.CommitMessageRoundTrip: stated only for years 1000 to 9999. For earlier years `%Y` does not give four digits on every platform, and later years do not exist in Python's `datetime`.
