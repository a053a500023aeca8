/**
 * Command dispatch in `main` (sigasync/spool_control.py): after `getopt`
 * has split the command line into an options dict and positional
 * arguments, the first positional argument picks the action.
 */
module Command {
  import opened Wrappers
  import opened Decimal
  import Resolve

  const DevNull: string := "/dev/null"

  /** What a worker start needs from the options: the spooler reference
      (`-m`), the idle sleep (`-s`), and for a daemon its log files
      (`-e`, `-o`). */
  datatype StartSettings = StartSettings(spooler: string, sleepSeconds: Option<int>, errLog: string, outLog: string)

  datatype Action =
    | StopAll
    | ShowStatus
    | StartDaemonized(settings: StartSettings)
    | StartForeground(settings: StartSettings)
    | Usage

  function OptOr(opts: map<string, string>, key: string, default: string): string {
    if key in opts then opts[key] else default
  }

  /** A value handed to `time.sleep`: a number, or an option's raw text. */
  datatype SleepArg = Seconds(n: int) | Text(s: string)

  /** As written, `opts.get('-s', 1)` passes the text after `-s` unconverted. */
  function SleepArgAsWritten(opts: map<string, string>): SleepArg {
    if "-s" in opts then Text(opts["-s"]) else Seconds(1)
  }

  /** Python 2's `time.sleep` takes a number; a string raises TypeError. */
  predicate SleepAccepts(a: SleepArg) {
    a.Seconds?
  }

  /** Counterexample: `-s 5 start` (options first, as getopt requires) makes
      the worker's first sleep raise. */
  lemma SleepOptionRejectedAsWritten()
    ensures !SleepAccepts(SleepArgAsWritten(map["-s" := "5"]))
    ensures SleepAccepts(SleepArgAsWritten(map[]))
  {
  }

  /** Corrected reading of `-s <num>`: the number of seconds, 1 when the
      option is absent, None when its text is not a number. */
  function SleepSeconds(opts: map<string, string>): (r: Option<int>)
    ensures "-s" !in opts ==> r == Some(1)
  {
    if "-s" in opts then ParseInt(opts["-s"]) else Some(1)
  }

  /** The corrected reading gives back the number written after `-s`. */
  lemma SleepSecondsOfNumber(opts: map<string, string>, n: int)
    requires "-s" in opts && opts["-s"] == FormatInt(n)
    ensures SleepSeconds(opts) == Some(n)
  {
    ParseFormat(n);
  }

  function Settings(opts: map<string, string>): StartSettings {
    StartSettings(Resolve.SpoolerRef(opts), SleepSeconds(opts), OptOr(opts, "-e", DevNull), OptOr(opts, "-o", DevNull))
  }

  /**
   * `main`'s choice: `'stop' in args[0:1]` and so on, so only an exact
   * first positional argument counts; `start` daemonizes unless `-D` was
   * given; anything else is a usage error.
   */
  function Dispatch(opts: map<string, string>, args: seq<string>): (a: Action)
    ensures a == Usage <==> (args == [] || args[0] !in {"stop", "status", "start"})
    ensures a == StopAll <==> (args != [] && args[0] == "stop")
    ensures a == ShowStatus <==> (args != [] && args[0] == "status")
    ensures a.StartDaemonized? <==> (args != [] && args[0] == "start" && "-D" !in opts)
    ensures a.StartForeground? <==> (args != [] && args[0] == "start" && "-D" in opts)
    ensures (a.StartDaemonized? || a.StartForeground?) ==> a.settings == Settings(opts)
  {
    var first := if args == [] then [] else args[..1];
    if "stop" in first then StopAll
    else if "status" in first then ShowStatus
    else if "start" in first then
      if "-D" !in opts then StartDaemonized(Settings(opts)) else StartForeground(Settings(opts))
    else Usage
  }

  /** Positional arguments after the first are ignored. */
  lemma DispatchIgnoresLaterArguments(opts: map<string, string>, args: seq<string>)
    requires args != []
    ensures Dispatch(opts, args) == Dispatch(opts, [args[0]])
  {
  }

  /** Stop and status ignore every option; start reads only its settings and `-D`. */
  lemma DispatchReadsOnlyForegroundFlag(opts1: map<string, string>, opts2: map<string, string>, args: seq<string>)
    requires ("-D" in opts1) == ("-D" in opts2) && Settings(opts1) == Settings(opts2)
    ensures Dispatch(opts1, args) == Dispatch(opts2, args)
  {
  }
}
