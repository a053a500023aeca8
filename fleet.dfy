/**
 * The operator side of the fleet controller (sigasync/spool_control.py):
 * listing pid files (`getpids`), signalling and removing them (`stop`),
 * the status table (`status`) and the pid file a daemonized worker writes
 * (`start_daemonized`). The filesystem is abstracted to the two
 * directories these operations touch.
 */
module Fleet {
  import opened Wrappers
  import opened Strings
  import opened Paths
  import opened Decimal

  /** The spooler's directories: `_base`, `_processing_base` and this
      process's own `_processing` directory inside it. */
  datatype Spooler = Spooler(base: string, processingBase: string, processing: string)

  /** `<base>/run`, where pid files live. */
  function PidDirPath(sp: Spooler): string {
    PathJoin(sp.base, "run")
  }

  /** The instance name of the caller's own (scratch) processing directory. */
  function Scratch(sp: Spooler): string {
    Basename(sp.processing)
  }

  datatype InstanceStatus = Running | CrashedNoProcess | CrashedNoPidfile

  /** One line of the status table. */
  datatype Row = Row(name: string, jobs: nat, maxAge: int, status: InstanceStatus)

  /** One item `getpids` yields: a pid file (by its name in `<base>/run`) and its pid. */
  datatype PidFile = PidFile(name: string, pid: int)

  datatype Listing = Listed(files: seq<PidFile>) | ListValueError(badFile: string)

  /** What `status` prints: the rows and the orphaned pid files; or the
      pid file whose contents made `int()` raise. */
  datatype StatusResult =
    | Table(rows: seq<Row>, orphans: map<string, int>)
    | StatusValueError(badFile: string)

  /** What `stop` prints for one pid: "killing process" or "couldn't kill process". */
  datatype KillReport = KillReport(pid: int, killed: bool)

  function Max(a: int, b: int): int {
    if a >= b then a else b
  }

  /**
   * `reduce(max, (now - ctime for each job), 0)`: the age of the oldest
   * job, never below 0, and 0 for an empty directory.
   */
  function MaxAge(now: int, ctimes: seq<int>): (r: int)
    ensures r >= 0
    ensures forall i :: 0 <= i < |ctimes| ==> r >= now - ctimes[i]
    ensures r == 0 || exists i :: 0 <= i < |ctimes| && r == now - ctimes[i]
  {
    if ctimes == [] then 0
    else
      var init := ctimes[..|ctimes| - 1];
      var r := Max(MaxAge(now, init), now - ctimes[|ctimes| - 1]);
      assert forall i :: 0 <= i < |init| ==> init[i] == ctimes[i];
      r
  }

  /** The creation time of the oldest job. */
  function Oldest(ctimes: seq<int>): (r: int)
    requires ctimes != []
    ensures forall i :: 0 <= i < |ctimes| ==> r <= ctimes[i]
    ensures exists i :: 0 <= i < |ctimes| && r == ctimes[i]
  {
    if |ctimes| == 1 then ctimes[0]
    else
      var m := Oldest(ctimes[1..]);
      assert forall i :: 1 <= i < |ctimes| ==> ctimes[i] == ctimes[1..][i - 1];
      if ctimes[0] <= m then ctimes[0] else m
  }

  /** The fold agrees with "now minus the oldest job's creation time",
      floored at 0 (a job stamped after `now` has no positive age). */
  lemma MaxAgeIsAgeOfOldest(now: int, ctimes: seq<int>)
    requires ctimes != []
    ensures MaxAge(now, ctimes) == Max(0, now - Oldest(ctimes))
  {
    var o := Oldest(ctimes);
    var k :| 0 <= k < |ctimes| && o == ctimes[k];
    assert MaxAge(now, ctimes) >= now - ctimes[k];
  }

  /** `dict(pairs)`: later pairs overwrite earlier ones. */
  function DictOf<K, V>(pairs: seq<(K, V)>): map<K, V> {
    if pairs == [] then map[] else DictOf(pairs[..|pairs| - 1])[pairs[|pairs| - 1].0 := pairs[|pairs| - 1].1]
  }

  /** The dict has every key of `pairs`, each value comes from a pair with
      that key, and a key whose pair is the last with that key gets its value. */
  lemma {:induction false} DictOfKeys<K, V>(pairs: seq<(K, V)>)
    ensures forall i :: 0 <= i < |pairs| ==> pairs[i].0 in DictOf(pairs)
    ensures forall k :: k in DictOf(pairs) ==> exists i :: 0 <= i < |pairs| && pairs[i] == (k, DictOf(pairs)[k])
    ensures forall i :: 0 <= i < |pairs| ==>
      ((forall j :: i < j < |pairs| ==> pairs[j].0 != pairs[i].0) ==> DictOf(pairs)[pairs[i].0] == pairs[i].1)
  {
    if pairs != [] {
      var n := |pairs| - 1;
      var init := pairs[..n];
      DictOfKeys(init);
      var m := DictOf(pairs);
      assert m == DictOf(init)[pairs[n].0 := pairs[n].1];
      forall i | 0 <= i < n ensures init[i] == pairs[i] && pairs[i].0 in m {
      }
      forall k | k in m ensures exists i :: 0 <= i < |pairs| && pairs[i] == (k, m[k]) {
        if k == pairs[n].0 {
          assert pairs[n] == (k, m[k]);
        } else {
          var i :| 0 <= i < n && init[i] == (k, DictOf(init)[k]);
          assert pairs[i] == (k, m[k]);
        }
      }
      forall i | 0 <= i < |pairs| && (forall j :: i < j < |pairs| ==> pairs[j].0 != pairs[i].0)
        ensures m[pairs[i].0] == pairs[i].1
      {
        if i < n {
          assert init[i] == pairs[i];
          assert forall j :: i < j < n ==> init[j].0 != init[i].0 by {
            forall j | i < j < n ensures init[j].0 != init[i].0 {
              assert init[j] == pairs[j];
            }
          }
        }
      }
    }
  }

  /** The (key, pid) pairs `status` feeds to `dict`, key being the stem of the pid file. */
  function PidPairs(dirPath: string, files: seq<PidFile>): seq<(string, int)> {
    seq(|files|, i requires 0 <= i < |files| => (PidKey(dirPath, files[i].name), files[i].pid))
  }

  /** `files` is one listing of the pid directory: every file exactly once,
      each with the pid its contents parse to. */
  ghost predicate ListsPidDir(files: seq<PidFile>, dir: map<string, string>) {
    && (forall i :: 0 <= i < |files| ==>
          files[i].name in dir && ParseInt(dir[files[i].name]) == Some(files[i].pid))
    && (forall i, j :: 0 <= i < j < |files| ==> files[i].name != files[j].name)
    && (forall fn :: fn in dir ==> exists i :: 0 <= i < |files| && files[i].name == fn)
  }

  /** `pids` is the dict `status` builds from the pid directory `dir`
      (found at `dirPath`): one key per distinct stem, each mapped to the
      pid in some file with that stem. */
  ghost predicate KeyedPids(dirPath: string, dir: map<string, string>, pids: map<string, int>) {
    && (forall fn :: fn in dir ==> PidKey(dirPath, fn) in pids)
    && (forall k :: k in pids ==>
          exists fn :: fn in dir && PidKey(dirPath, fn) == k && ParseInt(dir[fn]) == Some(pids[k]))
  }

  /** Building the dict from one listing of the directory gives KeyedPids. */
  lemma DictOfListing(dirPath: string, files: seq<PidFile>, dir: map<string, string>)
    requires ListsPidDir(files, dir)
    ensures KeyedPids(dirPath, dir, DictOf(PidPairs(dirPath, files)))
  {
    var pairs := PidPairs(dirPath, files);
    DictOfKeys(pairs);
    ListingKeys(dirPath, files, dir);
    ListingValues(dirPath, files, dir);
  }

  /** Every listed file's stem is a key of the dict. */
  lemma ListingKeys(dirPath: string, files: seq<PidFile>, dir: map<string, string>)
    requires ListsPidDir(files, dir)
    ensures forall fn :: fn in dir ==> PidKey(dirPath, fn) in DictOf(PidPairs(dirPath, files))
  {
    var pairs := PidPairs(dirPath, files);
    DictOfKeys(pairs);
    forall fn | fn in dir ensures PidKey(dirPath, fn) in DictOf(pairs) {
      var i :| 0 <= i < |files| && files[i].name == fn;
      assert pairs[i] == (PidKey(dirPath, fn), files[i].pid);
    }
  }

  /** Every key of the dict maps to the pid of a file with that stem. */
  lemma ListingValues(dirPath: string, files: seq<PidFile>, dir: map<string, string>)
    requires ListsPidDir(files, dir)
    ensures var m := DictOf(PidPairs(dirPath, files));
      forall k :: k in m ==>
        exists fn :: fn in dir && PidKey(dirPath, fn) == k && ParseInt(dir[fn]) == Some(m[k])
  {
    var pairs := PidPairs(dirPath, files);
    var m := DictOf(pairs);
    DictOfKeys(pairs);
    forall k | k in m
      ensures exists fn :: fn in dir && PidKey(dirPath, fn) == k && ParseInt(dir[fn]) == Some(m[k])
    {
      var i :| 0 <= i < |pairs| && pairs[i] == (k, m[k]);
      assert pairs[i] == (PidKey(dirPath, files[i].name), files[i].pid);
      assert files[i].name in dir;
    }
  }

  /** A pid file whose stem no other pid file shares gives its own pid. */
  lemma KeyedPidsUnique(dirPath: string, dir: map<string, string>, pids: map<string, int>, fn: string)
    requires KeyedPids(dirPath, dir, pids)
    requires fn in dir
    requires forall g :: g in dir && g != fn ==> PidKey(dirPath, g) != PidKey(dirPath, fn)
    ensures PidKey(dirPath, fn) in pids && ParseInt(dir[fn]) == Some(pids[PidKey(dirPath, fn)])
  {
    var k := PidKey(dirPath, fn);
    var g :| g in dir && PidKey(dirPath, g) == k && ParseInt(dir[g]) == Some(pids[k]);
  }

  /** A status row as `status` prints it for instance directory `row.name`. */
  ghost predicate RowIsCorrect(row: Row, ctimes: seq<int>, now: int, pids: map<string, int>, alive: int -> bool) {
    && row.jobs == |ctimes|
    && row.maxAge == MaxAge(now, ctimes)
    && (row.status == Running <==> row.name in pids && alive(pids[row.name]))
    && (row.status == CrashedNoProcess <==> row.name in pids && !alive(pids[row.name]))
    && (row.status == CrashedNoPidfile <==> row.name !in pids)
  }

  /** The rows cover every instance directory but the scratch one, once each. */
  ghost predicate RowsCoverInstances(rows: seq<Row>, instances: set<string>, scratch: string) {
    && (forall i, j :: 0 <= i < j < |rows| ==> rows[i].name != rows[j].name)
    && (forall i :: 0 <= i < |rows| ==> rows[i].name in instances && rows[i].name != scratch)
    && (forall n :: n in instances && n != scratch ==> exists i :: 0 <= i < |rows| && rows[i].name == n)
  }

  lemma RowsCoverAppend(rows: seq<Row>, row: Row, done: set<string>, scratch: string)
    requires RowsCoverInstances(rows, done, scratch)
    requires row.name !in done && row.name != scratch
    ensures RowsCoverInstances(rows + [row], done + {row.name}, scratch)
  {
    var rows' := rows + [row];
    forall n | n in done + {row.name} && n != scratch
      ensures exists i :: 0 <= i < |rows'| && rows'[i].name == n
    {
      if n == row.name {
        assert rows'[|rows|].name == n;
      } else {
        var i :| 0 <= i < |rows| && rows[i].name == n;
        assert rows'[i].name == n;
      }
    }
  }

  /**
   * The loop of `status` over the processing root's subdirectories:
   * skip the caller's own, count each other's jobs and their maximum age,
   * classify it against the pid dict, deleting each key it matches. What
   * is left of the dict is the orphaned pid files.
   */
  method ClassifyInstances(root: map<string, seq<int>>, scratch: string, now: int,
                           pids: map<string, int>, alive: int -> bool)
    returns (rows: seq<Row>, orphans: map<string, int>)
    ensures RowsCoverInstances(rows, root.Keys, scratch)
    ensures forall i :: 0 <= i < |rows| ==> RowIsCorrect(rows[i], root[rows[i].name], now, pids, alive)
    ensures orphans == pids - (root.Keys - {scratch})
  {
    var remaining := pids;
    var todo := root.Keys;
    ghost var done: set<string> := {};
    rows := [];
    while todo != {}
      invariant todo !! done && todo + done == root.Keys
      invariant RowsCoverInstances(rows, done, scratch)
      invariant forall i :: 0 <= i < |rows| ==> RowIsCorrect(rows[i], root[rows[i].name], now, pids, alive)
      invariant remaining == pids - (done - {scratch})
      decreases todo
    {
      var spool :| spool in todo;
      todo := todo - {spool};
      if spool == scratch {
        done := done + {spool};
        continue;
      }
      var jobs := root[spool];
      var status: InstanceStatus;
      if spool in remaining {
        status := if alive(remaining[spool]) then Running else CrashedNoProcess;
        remaining := remaining - {spool};
      } else {
        status := CrashedNoPidfile;
      }
      var row := Row(spool, |jobs|, MaxAge(now, jobs), status);
      RowsCoverAppend(rows, row, done, scratch);
      rows := rows + [row];
      done := done + {spool};
    }
    orphans := remaining;
  }

  /** A worker's pid file, the only one with its instance name, puts that
      worker's pid under its instance name in the dict. */
  lemma StartedWorkerPid(dirPath: string, dir: map<string, string>, pids: map<string, int>,
                         processing: string, pid: int)
    requires PidFileName(processing) in dir && dir[PidFileName(processing)] == FormatInt(pid)
    requires forall fn :: fn in dir && fn != PidFileName(processing) ==>
      PidKey(dirPath, fn) != Basename(processing)
    requires KeyedPids(dirPath, dir, pids)
    requires !AllDots(Basename(processing))
    ensures Basename(processing) in pids && pids[Basename(processing)] == pid
  {
    PidKeyOfPidFileName(dirPath, processing);
    ParseFormat(pid);
    KeyedPidsUnique(dirPath, dir, pids, PidFileName(processing));
  }

  /**
   * The row `status` prints for a worker whose pid file is the only one
   * with its instance name says running exactly when that worker's pid is
   * alive.
   */
  lemma StartedWorkerRow(dirPath: string, dir: map<string, string>, pids: map<string, int>,
                         processing: string, pid: int, rows: seq<Row>, root: map<string, seq<int>>,
                         scratch: string, now: int, alive: int -> bool)
    requires PidFileName(processing) in dir && dir[PidFileName(processing)] == FormatInt(pid)
    requires forall fn :: fn in dir && fn != PidFileName(processing) ==>
      PidKey(dirPath, fn) != Basename(processing)
    requires KeyedPids(dirPath, dir, pids)
    requires !AllDots(Basename(processing))
    requires Basename(processing) in root && Basename(processing) != scratch
    requires RowsCoverInstances(rows, root.Keys, scratch)
    requires forall i :: 0 <= i < |rows| ==> RowIsCorrect(rows[i], root[rows[i].name], now, pids, alive)
    ensures exists i :: (0 <= i < |rows| && rows[i].name == Basename(processing)
      && (rows[i].status == Running <==> alive(pid)))
  {
    var name := Basename(processing);
    StartedWorkerPid(dirPath, dir, pids, processing, pid);
    var i :| 0 <= i < |rows| && rows[i].name == name;
    assert RowIsCorrect(rows[i], root[name], now, pids, alive);
  }

  /** What `int()` makes of each file of `dir`. */
  ghost function Parsed(dir: map<string, string>): map<string, Option<int>> {
    map fn | fn in dir :: ParseInt(dir[fn])
  }

  /** The files listed so far: each once, with its parsed pid, and every
      file of `parsed` not in `todo` among them. */
  ghost predicate ListedExcept(files: seq<PidFile>, parsed: map<string, Option<int>>, todo: set<string>) {
    && todo <= parsed.Keys
    && (forall i :: 0 <= i < |files| ==>
          files[i].name in parsed && files[i].name !in todo && parsed[files[i].name] == Some(files[i].pid))
    && (forall i, j :: 0 <= i < j < |files| ==> files[i].name != files[j].name)
    && (forall fn :: fn in parsed && fn !in todo ==> exists i :: 0 <= i < |files| && files[i].name == fn)
  }

  lemma ListedExceptStep(files: seq<PidFile>, parsed: map<string, Option<int>>, todo: set<string>, fn: string, pid: int)
    requires ListedExcept(files, parsed, todo)
    requires fn in todo && parsed[fn] == Some(pid)
    ensures ListedExcept(files + [PidFile(fn, pid)], parsed, todo - {fn})
  {
    var files' := files + [PidFile(fn, pid)];
    assert forall i :: 0 <= i < |files| ==> files'[i] == files[i];
    assert files'[|files|].name == fn;
  }

  lemma ListedAll(files: seq<PidFile>, dir: map<string, string>)
    requires ListedExcept(files, Parsed(dir), {})
    ensures ListsPidDir(files, dir)
  {
    var parsed := Parsed(dir);
    forall i | 0 <= i < |files| ensures files[i].name in dir && ParseInt(dir[files[i].name]) == Some(files[i].pid) {
      assert files[i].name in parsed && parsed[files[i].name] == ParseInt(dir[files[i].name]);
    }
    forall fn | fn in dir ensures exists i :: 0 <= i < |files| && files[i].name == fn {
      assert fn in parsed;
    }
  }

  /**
   * The listing loop of `getpids`: the files of the pid directory, in an
   * order the file system chooses, each with the pid `int()` reads from it;
   * the first file whose contents `int()` rejects ends the listing with
   * its ValueError.
   */
  method ListPidFiles(dir: map<string, string>) returns (r: Listing)
    ensures r.Listed? ==> ListsPidDir(r.files, dir)
    ensures r.ListValueError? ==> r.badFile in dir && ParseInt(dir[r.badFile]).None?
    ensures r.ListValueError? <==> exists fn :: fn in dir && ParseInt(dir[fn]).None?
  {
    ghost var parsed := Parsed(dir);
    var todo := dir.Keys;
    var files: seq<PidFile> := [];
    while todo != {}
      invariant ListedExcept(files, parsed, todo)
      decreases todo
    {
      var fn :| fn in todo;
      var pid := ParseInt(dir[fn]);
      if pid.None? {
        return ListValueError(fn);
      }
      ListedExceptStep(files, parsed, todo, fn, pid.value);
      files := files + [PidFile(fn, pid.value)];
      todo := todo - {fn};
    }
    ListedAll(files, dir);
    r := Listed(files);
  }

  /**
   * What `os.kill(pid, SIGINT)` does for one pid: the signal is sent; it
   * raises OSError, which `stop` catches and reports; or it raises anything
   * else, which ends `stop` on the spot (OverflowError for a pid beyond a C
   * `int`, SystemExit when the signal reaches the controller's own SIGINT
   * handler, as pid 0 does).
   */
  datatype KillOutcome = Delivered | Refused | Raised

  /** Why `stop` ended before the last pid file: `int()` rejected a file's
      contents, or `os.kill` raised something other than OSError. */
  datatype StopFailure = Unparsable(file: string) | KillRaised(file: string, pid: int)
  {
    function File(): string {
      match this
      case Unparsable(f) => f
      case KillRaised(f, _) => f
    }
  }

  /** `stop` gets past a pid file with these contents: `int()` reads a pid
      and `os.kill` on it returns or raises OSError. */
  ghost predicate StopsCleanly(contents: string, kill: int -> KillOutcome) {
    ParseInt(contents).Some? && kill(ParseInt(contents).value) != Raised
  }

  /** The kill reports for the pid files handled so far, in the order
      handled, each file once: each parsed to a pid whose kill returned
      (reported as killed) or raised OSError (reported as not killed). */
  ghost predicate Signalled(parsed: map<string, Option<int>>, order: seq<string>, reports: seq<KillReport>, kill: int -> KillOutcome) {
    && |reports| == |order|
    && (forall i, j :: 0 <= i < j < |order| ==> order[i] != order[j])
    && (forall i :: 0 <= i < |order| ==> (order[i] in parsed
          && parsed[order[i]].Some?
          && kill(parsed[order[i]].value) != Raised
          && reports[i] == KillReport(parsed[order[i]].value, kill(parsed[order[i]].value) == Delivered)))
  }

  lemma SignalledStep(parsed: map<string, Option<int>>, order: seq<string>, reports: seq<KillReport>, kill: int -> KillOutcome, fn: string)
    requires Signalled(parsed, order, reports, kill)
    requires fn in parsed && fn !in order && parsed[fn].Some? && kill(parsed[fn].value) != Raised
    ensures Signalled(parsed, order + [fn], reports + [KillReport(parsed[fn].value, kill(parsed[fn].value) == Delivered)], kill)
  {
    var order' := order + [fn];
    assert forall i :: 0 <= i < |order| ==> order'[i] == order[i];
  }

  /** `rest` is what is left of `dir` once the files in `order` are gone. */
  ghost predicate Unhandled(dir: map<string, string>, order: seq<string>, rest: map<string, string>) {
    && (forall fn :: fn in rest ==> fn in dir && rest[fn] == dir[fn])
    && (forall fn :: fn in dir ==> (fn in rest <==> fn !in order))
  }

  lemma UnhandledIsDifference(dir: map<string, string>, order: seq<string>, rest: map<string, string>)
    requires Unhandled(dir, order, rest)
    ensures rest == dir - (set fn | fn in order)
  {
  }

  /**
   * The loop of `stop` over the pid directory `dir`: for each pid file in
   * listing order, signal its pid, report whether that worked, and drop
   * the file whatever the outcome. A file whose contents `int()` rejects,
   * or whose pid makes `os.kill` raise something other than OSError, ends
   * the walk before its removal, leaving it and the files not yet reached
   * in `rest`. `order` is the listing order of the files handled.
   */
  method SignalAll(dir: map<string, string>, kill: int -> KillOutcome)
    returns (reports: seq<KillReport>, failed: Option<StopFailure>, ghost order: seq<string>, rest: map<string, string>)
    ensures Signalled(Parsed(dir), order, reports, kill)
    ensures rest == dir - (set fn | fn in order)
    ensures failed.None? <==> forall fn :: fn in dir ==> StopsCleanly(dir[fn], kill)
    ensures failed.None? ==> rest == map[]
    ensures dir == map[] ==> reports == [] && failed.None?
    ensures failed.Some? ==> failed.value.File() in rest && !StopsCleanly(rest[failed.value.File()], kill)
    ensures failed.Some? ==> (failed.value.Unparsable? <==> ParseInt(rest[failed.value.File()]).None?)
    ensures failed.Some? && failed.value.KillRaised? ==>
      ParseInt(rest[failed.value.file]) == Some(failed.value.pid) && kill(failed.value.pid) == Raised
  {
    reports, failed, order, rest := [], None, [], dir;
    ghost var parsed := Parsed(dir);
    while rest != map[]
      invariant Unhandled(dir, order, rest)
      invariant dir == map[] ==> order == []
      invariant Signalled(parsed, order, reports, kill)
      decreases rest.Keys
    {
      var fn :| fn in rest;
      var pid := ParseInt(rest[fn]);
      if pid.None? {
        failed := Some(Unparsable(fn));
        UnhandledIsDifference(dir, order, rest);
        return;
      }
      var outcome := kill(pid.value);
      if outcome == Raised {
        failed := Some(KillRaised(fn, pid.value));
        UnhandledIsDifference(dir, order, rest);
        return;
      }
      SignalledStep(parsed, order, reports, kill, fn);
      reports := reports + [KillReport(pid.value, outcome == Delivered)];
      rest := rest - {fn};
      order := order + [fn];
    }
    UnhandledIsDifference(dir, order, rest);
    forall fn | fn in dir ensures StopsCleanly(dir[fn], kill) {
      var i :| 0 <= i < |order| && order[i] == fn;
    }
  }

  /** The host's filesystem as seen by the fleet controller. */
  class Host {
    /** Whether `<base>/run` exists. */
    var pidDirExists: bool
    /** The files of `<base>/run`: name to contents. */
    var pidDir: map<string, string>
    /** The subdirectories of `<processing_base>`: instance name to the
        creation times of its entries. */
    var processingRoot: map<string, seq<int>>

    ghost predicate Valid()
      reads this
    {
      && (!pidDirExists ==> pidDir == map[])
      && (forall fn :: fn in pidDir ==> fn != [] && '/' !in fn)
    }

    constructor (pidDirExists: bool, pidDir: map<string, string>, processingRoot: map<string, seq<int>>)
      requires !pidDirExists ==> pidDir == map[]
      requires forall fn :: fn in pidDir ==> fn != [] && '/' !in fn
      ensures Valid()
      ensures this.pidDirExists == pidDirExists && this.pidDir == pidDir
      ensures this.processingRoot == processingRoot
    {
      this.pidDirExists := pidDirExists;
      this.pidDir := pidDir;
      this.processingRoot := processingRoot;
    }

    /**
     * `getpids`, consumed to the end: every pid file once, in listing
     * order, with its parsed pid; nothing when `<base>/run` is missing;
     * the first file whose contents `int()` rejects ends the listing.
     */
    method GetPids() returns (r: Listing)
      requires Valid()
      ensures !pidDirExists ==> r == Listed([])
      ensures r.Listed? ==> ListsPidDir(r.files, pidDir)
      ensures r.ListValueError? ==> r.badFile in pidDir && ParseInt(pidDir[r.badFile]).None?
      ensures r.ListValueError? <==> exists fn :: fn in pidDir && ParseInt(pidDir[fn]).None?
    {
      if !pidDirExists {
        return Listed([]);
      }
      r := ListPidFiles(pidDir);
    }

    /**
     * `status`: one row per processing directory except the caller's own,
     * classified against the pid-file dict, whose matched keys are deleted;
     * the keys left over are the orphaned pid files. `pids` is the dict as
     * built, before any deletion.
     */
    method Status(sp: Spooler, now: int, alive: int -> bool) returns (r: StatusResult, ghost pids: map<string, int>)
      requires Valid()
      ensures r.StatusValueError? <==> exists fn :: fn in pidDir && ParseInt(pidDir[fn]).None?
      ensures r.StatusValueError? ==> r.badFile in pidDir && ParseInt(pidDir[r.badFile]).None?
      ensures r.Table? ==> KeyedPids(PidDirPath(sp), pidDir, pids)
      ensures r.Table? ==> RowsCoverInstances(r.rows, processingRoot.Keys, Scratch(sp))
      ensures r.Table? ==> forall i :: 0 <= i < |r.rows| ==>
        RowIsCorrect(r.rows[i], processingRoot[r.rows[i].name], now, pids, alive)
      ensures r.Table? ==> r.orphans == pids - (processingRoot.Keys - {Scratch(sp)})
    {
      var listing := GetPids();
      if listing.ListValueError? {
        return StatusValueError(listing.badFile), map[];
      }
      var dirPath := PidDirPath(sp);
      var remaining := DictOf(PidPairs(dirPath, listing.files));
      DictOfListing(dirPath, listing.files, pidDir);
      pids := remaining;
      var rows, orphans := ClassifyInstances(processingRoot, Scratch(sp), now, remaining, alive);
      r := Table(rows, orphans);
    }

    /**
     * `stop`: for each pid file in listing order, signal its pid, report
     * whether that worked, and remove the file whatever the outcome. A file
     * whose contents `int()` rejects, or whose pid makes `os.kill` raise
     * something other than OSError, ends the walk, leaving it and the files
     * not yet reached. `order` is the listing order of the files handled.
     */
    method Stop(kill: int -> KillOutcome) returns (reports: seq<KillReport>, failed: Option<StopFailure>, ghost order: seq<string>)
      requires Valid()
      modifies this
      ensures Valid()
      ensures pidDirExists == old(pidDirExists) && processingRoot == old(processingRoot)
      ensures Signalled(Parsed(old(pidDir)), order, reports, kill)
      ensures pidDir == old(pidDir) - (set fn | fn in order)
      ensures failed.None? <==> forall fn :: fn in old(pidDir) ==> StopsCleanly(old(pidDir)[fn], kill)
      ensures failed.None? ==> pidDir == map[]
      ensures old(pidDir) == map[] ==> reports == [] && failed.None?
      ensures failed.Some? ==> failed.value.File() in pidDir && !StopsCleanly(pidDir[failed.value.File()], kill)
      ensures failed.Some? ==> (failed.value.Unparsable? <==> ParseInt(pidDir[failed.value.File()]).None?)
      ensures failed.Some? && failed.value.KillRaised? ==>
        ParseInt(pidDir[failed.value.file]) == Some(failed.value.pid) && kill(failed.value.pid) == Raised
    {
      var rest;
      reports, failed, order, rest := SignalAll(pidDir, kill);
      assert rest.Keys <= pidDir.Keys;
      pidDir := rest;
    }

    /** Repeated `stop` converges: once a stop has got through every pid
        file, a second one signals nothing and finds nothing to remove. */
    method StopTwice(kill: int -> KillOutcome) returns (first: seq<KillReport>, second: seq<KillReport>, failed: Option<StopFailure>)
      requires Valid()
      modifies this
      ensures Valid()
      ensures failed.None? ==> second == [] && pidDir == map[]
    {
      ghost var order;
      first, failed, order := Stop(kill);
      ghost var between := pidDir;
      var failedAgain;
      second, failedAgain, order := Stop(kill);
      if failed.None? {
        assert between == map[];
      }
    }

    /**
     * The pid-file write of `start_daemonized`: create `<base>/run` if it
     * is missing, then (over)write `<basename(processing)>.pid` with the
     * decimal pid.
     */
    method WritePidFile(sp: Spooler, pid: int)
      requires Valid()
      modifies this
      ensures Valid() && pidDirExists && processingRoot == old(processingRoot)
      ensures pidDir == old(pidDir)[PidFileName(sp.processing) := FormatInt(pid)]
    {
      if !pidDirExists {
        pidDirExists := true;
        pidDir := map[];
      }
      pidDir := pidDir[PidFileName(sp.processing) := FormatInt(pid)];
    }

    /**
     * Start-then-status round trip: after a worker has written its pid
     * file, an operator's `status` lists the worker's processing directory
     * as running exactly when the pid it wrote is alive, provided no other
     * pid file claims the same instance name.
     */
    method StartThenStatus(worker: Spooler, pid: int, operator: Spooler, now: int, alive: int -> bool)
      returns (r: StatusResult)
      requires Valid()
      requires !AllDots(Scratch(worker))
      requires Scratch(worker) in processingRoot && Scratch(worker) != Scratch(operator)
      requires forall fn :: fn in pidDir ==> ParseInt(pidDir[fn]).Some?
      requires forall fn :: fn in pidDir && fn != PidFileName(worker.processing) ==>
        PidKey(PidDirPath(operator), fn) != Scratch(worker)
      modifies this
      ensures r.Table?
      ensures exists i :: (0 <= i < |r.rows| && r.rows[i].name == Scratch(worker)
        && (r.rows[i].status == Running <==> alive(pid)))
    {
      WritePidFile(worker, pid);
      ParseFormat(pid);
      assert forall fn :: fn in pidDir ==> ParseInt(pidDir[fn]).Some?;
      ghost var pids;
      r, pids := Status(operator, now, alive);
      StartedWorkerRow(PidDirPath(operator), pidDir, pids, worker.processing, pid,
                       r.rows, processingRoot, Scratch(operator), now, alive);
    }
  }
}
