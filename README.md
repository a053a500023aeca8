# Fleet controller bookkeeping of sigasync, in Dafny

This project models the operator side of the sigasync spool fleet
controller, `sigasync/spool_control.py`. Producers drop job files into a
spool queue's incoming directory. One worker process per processing
directory claims and runs them. The controller starts workers, stops them
through their pid files, and prints a status table that cross-checks the
processing directories against the pid files.

The filesystem is reduced to the two directories the controller touches.
The pid directory `<base>/run` is a map from file name to contents plus an
"exists" flag. The processing root is a map from instance name to the
creation times of that instance directory's entries. Both live in the
class `Fleet.Host`. Its methods `GetPids`, `Status`, `Stop` and
`WritePidFile` read or update them the way `getpids`, `status`, `stop` and
`start_daemonized` do. The filesystem's listing order is unspecified.
So the methods take files and directories in an arbitrary order, and every
contract holds whatever that order is. The status table is returned as
data (rows and orphaned pid files), not as printed text.

Process liveness (`_isprocessrunning`) is a parameter `alive: int -> bool`.
What `os.kill` does for a pid is a parameter `kill: int -> KillOutcome`:
the signal is delivered, it raises OSError (which `stop` catches), or it
raises anything else (which ends `stop`).
The clock (`time.time()`) is an integer parameter `now`.
The Python import machinery used by `named` is a value `Resolve.Env`.
It says which dotted names import, which top-level package an import
returns, and which attributes exist.

Modules, one per concern:

- `Strings` (strings.dfy): `rfind`.
- `Paths` (paths.dfy): `os.path.basename`, `os.path.join`, `os.path.splitext(...)[0]`, and the pid-file name.
- `Decimal` (decimal.dfy): `'%s' % pid` and Python 2's `int(...)` on a pid file.
- `DottedNames` (dotted.dfy): `split('.')`, `'.'.join`, and the prefixes `named` tries.
- `Resolve` (resolve.dfy): `named` and the per-process spooler cache `Spooler.__new__`.
- `Fleet` (fleet.dfy): `getpids`, `status`, `stop`, the pid-file write, and the max-age fold.
- `Command` (command.dfy): `main`'s command dispatch.

Three facts about the code shape the model:

- The status age is `reduce(max, ages, 0)`. If every job's creation time
  lies after `now`, this is 0, not "now minus the oldest creation time".
  `Fleet.MaxAgeIsAgeOfOldest` states the exact relation.
- The graceful interrupt mode never takes effect. `GRACEFULINT` is never
  set true, and in the handler `DO_PROCESS = False` only binds a local
  name. So no graceful shutdown is modelled.
- The liveness check is exact. `ps -p PID` lists only that pid, and for a
  dead pid only the header comes back, which holds no digits. The model
  treats liveness as the abstract `alive`.

## Model

| member | source | states |
|---|---|---|
| `Fleet.Host.GetPids` | sigasync/spool_control.py:113-123 | with no `<base>/run` nothing is listed; otherwise every pid file exactly once, each with the pid its contents parse to; a file `int()` rejects is reported, and that happens exactly when some file's contents are not a number |
| `Fleet.ListPidFiles` | sigasync/spool_control.py:119-123 | the listing loop yields every file of the directory exactly once with its parsed pid, or stops at a file `int()` rejects, which happens exactly when such a file exists |
| `Fleet.Host.Status` | sigasync/spool_control.py:140-165 | the pid dict has one key per pid-file stem, each mapped to the pid of a file with that stem; one row per processing directory except the caller's own, none repeated; each row is correct (see `ClassifyInstances`); orphans are exactly the dict entries whose key names no other processing directory; an unparsable pid file makes `status` fail exactly when one exists |
| `Fleet.ClassifyInstances` | sigasync/spool_control.py:147-165 | rows cover every instance but the scratch one, once each; job count is the number of entries; the status is `running` iff the key is in the pid dict and its pid is alive, `crashed - no process` iff it is in the dict and not alive, `crashed - no pidfile` iff it is absent; what is left of the dict is the dict minus the listed instances |
| `Fleet.RowsCoverAppend` | sigasync/spool_control.py:147-160 | adding a row for a new, non-scratch instance keeps "each listed instance exactly once" |
| `Fleet.MaxAge` | sigasync/spool_control.py:150-154 | the fold of `max` over `now - ctime` seeded with 0 is never negative, is at least every job's age, and is 0 or the age of some job (so 0 for an empty directory) |
| `Fleet.Oldest` | sigasync/spool_control.py:150-154 | the oldest creation time is at most every job's and is some job's |
| `Fleet.MaxAgeIsAgeOfOldest` | sigasync/spool_control.py:154 | the max age equals now minus the oldest job's creation time, floored at 0 |
| `Fleet.DictOfKeys` | sigasync/spool_control.py:143 | `dict(pairs)` has every key of the pairs, each value comes from a pair with that key, and a key's last pair wins |
| `Fleet.DictOfListing` | sigasync/spool_control.py:143 | building the dict from the (stem, pid) pairs of any listing of the pid directory yields every file's stem as a key, mapped to the pid of some file with that stem |
| `Fleet.KeyedPidsUnique` | sigasync/spool_control.py:143 | a pid file whose stem no other pid file shares contributes its own pid to the dict |
| `Fleet.StartedWorkerRow` | sigasync/spool_control.py:155-160 | for a worker whose pid file is the only one with its instance name, the status row for its directory says running exactly when its pid is alive |
| `Fleet.Host.Stop` | sigasync/spool_control.py:126-134 | each enumerated pid file is signalled once and reported as killed or not (OSError), then removed either way; the directory ends empty iff every file parses and no kill raises anything but OSError; an empty directory yields no signals; a file `int()` rejects, or whose kill raises something else (a pid beyond a C `int`, pid 0 reaching the controller's own SIGINT handler), stops the walk and stays, with the files not yet reached, and the failure says which case it was |
| `Fleet.SignalAll` | sigasync/spool_control.py:128-134 | each file handled is signalled once with the pid it parses to and dropped whether the kill was delivered or raised OSError; the files left are exactly those not handled; all are handled iff every file parses and no kill raises anything but OSError; otherwise the walk stops at a file that does not parse or whose kill raised, which is left, and the failure names the file and, for a raised kill, its pid |
| `Fleet.Host.StopTwice` | sigasync/spool_control.py:126-134 | after a stop that got through every pid file, a second stop sends no signal and leaves the pid directory empty |
| `Fleet.Host.WritePidFile` | sigasync/spool_control.py:173-179 | the pid directory exists afterwards (created empty if missing) and holds `<basename(processing)>.pid` with the decimal pid, other files untouched |
| `Fleet.Host.StartThenStatus` | sigasync/spool_control.py:140-179 | after a worker writes its pid file, an operator's status lists the worker's directory, as running exactly when the written pid is alive, provided no other pid file claims that instance name |
| `Paths.Basename` | sigasync/spool_control.py:143 | the basename is the slash-free suffix of the path that starts right after its last slash, the whole path when it has no slash |
| `Paths.PathJoin` | sigasync/spool_control.py:116-120 | `join(dir, name)` ends with `name`; an absolute `name` is the whole result; otherwise the result is `dir`, then at most one added slash, then `name`, with a slash right before `name` whenever `dir` is non-empty, no added slash when `dir` already ends in one, and `name` alone when `dir` is empty |
| `Paths.PidKeyOfListedName` | sigasync/spool_control.py:143 | the key `status` derives for a file listed in the pid directory is the stem of the file's own name, whatever the directory |
| `Paths.BasenameOfJoin` | sigasync/spool_control.py:120 | a listed file name joined under the pid directory has itself as basename |
| `Paths.Stem` | sigasync/spool_control.py:143 | `splitext(p)[0]` is a prefix of p; when it drops anything, what it drops is one dot followed by a dot-free, slash-free extension |
| `Paths.StemDropsExactlyExtension` | sigasync/spool_control.py:143 | `splitext` drops an extension exactly when, after the last slash, some dot has a non-dot before it |
| `Paths.StemOfPidName` | sigasync/spool_control.py:178 | the stem of `<inst>.pid` is `inst` if and only if `inst` has a character other than a dot |
| `Paths.PidKeyOfPidFileName` | sigasync/spool_control.py:143 | the key `status` derives from the file `start_daemonized` writes is the basename of the worker's processing directory |
| `Paths.PidFileName` | sigasync/spool_control.py:178 | the pid-file name is non-empty and has no slash |
| `Decimal.ParseFormat` | sigasync/spool_control.py:179 | `int('%s' % pid) == pid` for every integer |
| `Decimal.ParseIntOfNumeral` | sigasync/spool_control.py:123 | `int()` on a pid file reads every numeral as its value: digits, optionally signed, with whitespace around them and between sign and digits |
| `Decimal.ParseIntSpaceAfterSign` | sigasync/spool_control.py:123 | `int('- 5') == -5`: whitespace after the sign is skipped |
| `Decimal.ParseIntShape` | sigasync/spool_control.py:122-123 | contents that are blank once stripped are rejected; accepted contents end in a digit; a negative pid is read only after a minus sign |
| `Decimal.Digits` | sigasync/spool_control.py:179 | the decimal text of a pid is non-empty, all digits, without a leading zero |
| `Decimal.DigitsValueOfDigits` | sigasync/spool_control.py:123 | reading back the digits of n gives n |
| `DottedNames.JoinSplit` | sigasync/spool_control.py:80 | joining the segments of a name gives the name back |
| `DottedNames.SplitJoin` | sigasync/spool_control.py:80 | splitting a join of dot-free segments gives the segments back |
| `DottedNames.DropLastSegmentIsJoinOfInit` | sigasync/spool_control.py:80 | dropping the last segment equals `'.'.join(name.split('.')[:-1])` |
| `DottedNames.DropLastSegment` | sigasync/spool_control.py:80 | the shortened name is a prefix, strictly shorter unless empty, so the loop terminates |
| `DottedNames.ChainLength` | sigasync/spool_control.py:74-80 | no more prefixes are tried than the name has segments |
| `DottedNames.ChainAt` | sigasync/spool_control.py:74-80 | the i-th name tried is a non-empty prefix of the full name with i trailing segments dropped and the same first segment; each is the previous one minus its last segment |
| `Resolve.FirstImportable` | sigasync/spool_control.py:74-80 | nothing is found iff no tried prefix imports; otherwise the result is the first importable prefix in try order |
| `Resolve.Walk` | sigasync/spool_control.py:83-90 | the attribute walk never raises ImportError; an AttributeError names a segment of the walk |
| `Resolve.Named` | sigasync/spool_control.py:61-91 | `named` imports the longest importable prefix and then walks the second and later segments of the full name |
| `Resolve.NamedSpec` | sigasync/spool_control.py:61-91 | the reference meaning of `named`: ImportError exactly when no prefix imports; an AttributeError names a second or later segment |
| `Resolve.NamedFromTopLevel` | sigasync/spool_control.py:76-85 | whichever prefix imports, the result is the walk from the top-level package over the second and later segments |
| `Resolve.SpoolerCache.Get` | sigasync/spool_control.py:107-111 | the first successful resolution is cached and returned by every later call whatever its options; a failed one caches nothing |
| `Resolve.SpoolerCache.constructor` | sigasync/spool_control.py:106-108 | a process starts with no cached spooler |
| `Resolve.GetTwice` | sigasync/spool_control.py:107-111 | once a lookup has resolved, a second lookup returns the same object even for other options |
| `Command.Dispatch` | sigasync/spool_control.py:190-206 | usage iff there is no first positional argument or it is not exactly stop, status or start; start daemonizes iff `-D` is absent; start carries the `-m`, `-e`, `-o` settings and the sleep of `-s` read as a number, the corrected reading from "## Findings" |
| `Command.DispatchIgnoresLaterArguments` | sigasync/spool_control.py:196-200 | only the first positional argument matters |
| `Command.DispatchReadsOnlyForegroundFlag` | sigasync/spool_control.py:196-206 | apart from the start settings, only the presence of `-D` matters |
| `Command.SleepSeconds` | sigasync/spool_control.py:180 | corrected `-s`: 1 second when the option is absent |
| `Command.SleepSecondsOfNumber` | sigasync/spool_control.py:184 | corrected `-s`: the number written after `-s` is the sleep |
| `Command.SleepOptionRejectedAsWritten` | sigasync/spool_control.py:180-184 | as written, `-s 5` hands `time.sleep` a string it rejects, while the default is accepted |

## Left out

- `become_daemon` (fork, setsid, umask, dup2), `setup_environment` (Django and configuration imports) and the `--nodjango` test: process and environment plumbing.
- `run` and the worker loop, `time.sleep`, `spool.process()`: I/O drivers. The queue's claim-by-rename protocol lives in `sigasync.sigasync_spooler`, which is not part of this model.
- The SIGINT handler and the `GRACEFULINT` / `DO_PROCESS` flags: signal handling only. As written, graceful mode never takes effect.
- `remove_proc_dir` and its `atexit` registration: exit-time filesystem effects.
- `_isprocessrunning` and `os.kill`: OS queries, replaced by the parameters `alive` and `kill`. The kill's outcome is taken as fixed per pid: when two pid files hold the same pid (a stale file whose pid a later worker reuses), the first SIGINT may end that process so that the second `os.kill` raises OSError, which the model does not capture.
- `getopt` itself and its `GetoptError`: `main` is modelled from the options dict and positional arguments getopt returns. The accepted `-l` flag is unused by the code. Python 2's `getopt.getopt` stops at the first positional argument, so options written after the command (`start -D`, `start -s 5`) are not options at all: `start -D` still daemonizes.
- Printed text: headers, tabs and the usage message are returned as data (`Table`, `KillReport`, `Usage`).
- `sigasync/dispatcher.py`: a wrapper over Django's dispatcher and a handler that is not part of this model.
- Fleet.Host.Status: ages are integers and one `now` serves every job, whereas the code reads the float clock afresh per job.
- Fleet.Host.Status: the processing root is read as one snapshot. In the source, a job or instance directory that a worker removes between the listing and the later `os.listdir`/`os.stat` calls makes `status` raise OSError; the model does not capture that interleaving.
- Fleet.Host.Status: the processing root is assumed to exist, as the caller's own spooler creates its directory there; `os.walk` on a missing root would end `status` with StopIteration.
- Fleet.Host.GetPids: the pid directory is assumed to hold only files; `open` on a subdirectory would raise IOError.
- Fleet.Host.Stop: `os.remove` is assumed to succeed.
- Fleet.Host.WritePidFile: `os.mkdir` is assumed to succeed. In the source the directory test and its creation are two steps, so when two workers start together both may find no `<base>/run` and the second `mkdir` raises OSError (EEXIST); `mkdir` also raises when `<base>` itself is missing. Either way that worker exits without writing a pid file.
- Decimal.ParseInt: accepts surrounding whitespace, one sign, whitespace after the sign and ASCII digits. Python 2's `int()` on a `str` also reads digit runs that overflow a machine word as a long, which the model covers by unbounded integers; no other form is modelled.
- Resolve.Named: `named` catches only ImportError, but Python 2's `__import__` raises ValueError ("Empty module name") for a name with an empty segment before its last one, such as `.x` or `a..b` once the prefix reaching the empty segment is tried. That error escapes `named`; the model's `importable` is a plain yes/no, so it reports ImportFailure or moves on to the next prefix instead.
- Resolve.Named: importing a submodule can add it as an attribute of its package; attribute lookup here is a fixed function of the object and name.

## Findings

| source | as written | input that shows it | evidently intended | confidence | as-written member | corrected member |
|---|---|---|---|---|---|---|
| sigasync/spool_control.py:180-184 | `opts.get('-s', 1)` passes the option's text to `time.sleep`, which takes only numbers in Python 2 | `-s 5 start` (getopt stops at the first positional argument, so the options come first): the worker raises TypeError at its first sleep | `-s <num>` sets the idle sleep to that many seconds; the correction reads whole seconds only, so `-s 0.5` is rejected | medium, not executed | `Command.SleepOptionRejectedAsWritten` | `Command.SleepSecondsOfNumber` |
