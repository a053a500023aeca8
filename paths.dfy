/**
 * POSIX path operations the fleet controller uses on pid files, with
 * Python's `posixpath` semantics, and the pid-file naming convention
 * (sigasync/spool_control.py, start_daemonized and status).
 */
module Paths {
  import opened Strings

  /** `os.path.basename(p)`: everything after the last slash. */
  function Basename(p: string): (r: string)
    ensures '/' !in r
    ensures |r| <= |p| && p[|p| - |r|..] == r
    ensures |r| < |p| ==> p[|p| - |r| - 1] == '/'
    ensures '/' !in p ==> r == p
  {
    p[LastIndexOf(p, '/') + 1..]
  }

  /** `os.path.join(dir, name)`: an absolute `name` replaces `dir`;
      otherwise `name` follows `dir` after exactly one separating slash
      (none when `dir` is empty). */
  function PathJoin(dir: string, name: string): (r: string)
    ensures |name| <= |r| && r[|r| - |name|..] == name
    ensures name != [] && name[0] == '/' ==> r == name
    ensures (name == [] || name[0] != '/') ==>
      && |dir| <= |r| - |name| <= |dir| + 1 && r[..|dir|] == dir
      && (dir != [] ==> r[|r| - |name| - 1] == '/')
      && (dir == [] ==> r == name)
    ensures (name == [] || name[0] != '/') && dir != [] && dir[|dir| - 1] == '/' ==> r == dir + name
  {
    if name != [] && name[0] == '/' then name
    else if dir == [] || dir[|dir| - 1] == '/' then dir + name
    else dir + "/" + name
  }

  /** The last slash of `head + name` is the one ending `head` when
      `name` has none. */
  lemma LastSlashBeforeName(head: string, name: string)
    requires head != [] && head[|head| - 1] == '/' && '/' !in name
    ensures LastIndexOf(head + name, '/') == |head| - 1
  {
    var p := head + name;
    assert p[|head| - 1] == '/';
    assert forall k :: |head| <= k < |p| ==> p[k] == name[k - |head|];
  }

  /** A file name with no directory part keeps its own name as basename
      once joined under any directory, as `os.listdir` names are. */
  lemma BasenameOfJoin(dir: string, name: string)
    requires '/' !in name && name != []
    ensures Basename(PathJoin(dir, name)) == name
  {
    assert name[0] != '/';
    if dir != [] {
      var head := if dir[|dir| - 1] == '/' then dir else dir + "/";
      assert PathJoin(dir, name) == head + name;
      LastSlashBeforeName(head, name);
      assert (head + name)[|head|..] == name;
    }
  }

  /**
   * Where `os.path.splitext(p)` cuts: the last dot after the last slash,
   * unless everything between that slash and that dot is dots (so
   * ".bashrc" and "..pid" have no extension); `|p|` when nothing is cut.
   */
  function ExtensionStart(p: string): (i: int)
    ensures 0 <= i <= |p|
    ensures i < |p| ==> (p[i] == '.'
      && (forall k :: i < k < |p| ==> p[k] != '.')
      && (forall k :: i <= k < |p| ==> p[k] != '/'))
  {
    var sep := LastIndexOf(p, '/');
    var dot := LastIndexOf(p, '.');
    if dot > sep && !AllDots(p[sep + 1..dot]) then dot else |p|
  }

  /** `os.path.splitext(p)[0]`: `p` without its extension. */
  function Stem(p: string): (r: string)
    ensures |r| <= |p| && p[..|r|] == r
    ensures |r| < |p| ==> (p[|r|] == '.'
      && (forall k :: |r| < k < |p| ==> p[k] != '.')
      && (forall k :: |r| <= k < |p| ==> p[k] != '/'))
  {
    p[..ExtensionStart(p)]
  }

  /** `p` has an extension in the sense of `splitext`: some dot after the
      last slash has a character other than a dot between that slash and it. */
  ghost predicate HasExtension(p: string) {
    exists j, d :: 0 <= j < d < |p| && p[j] != '.' && p[d] == '.' && (forall k :: j <= k < |p| ==> p[k] != '/')
  }

  /** `splitext` cuts something off exactly when the name has an extension. */
  lemma StemDropsExactlyExtension(p: string)
    ensures |Stem(p)| < |p| <==> HasExtension(p)
  {
    if ExtensionStart(p) < |p| {
      CutIsExtension(p);
    }
    if HasExtension(p) {
      ExtensionIsCut(p);
    }
  }

  lemma CutIsExtension(p: string)
    requires ExtensionStart(p) < |p|
    ensures HasExtension(p)
  {
    var sep := LastIndexOf(p, '/');
    var dot := LastIndexOf(p, '.');
    var name := p[sep + 1..dot];
    assert dot > sep && !AllDots(name);
    var i :| 0 <= i < |name| && name[i] != '.';
    ExtensionWitness(p, sep + 1 + i, dot);
  }

  lemma ExtensionWitness(p: string, j: int, d: int)
    requires 0 <= j < d < |p| && p[j] != '.' && p[d] == '.'
    requires forall k :: LastIndexOf(p, '/') < k < |p| ==> p[k] != '/'
    requires LastIndexOf(p, '/') < j
    ensures HasExtension(p)
  {
    assert forall k :: j <= k < |p| ==> p[k] != '/';
  }

  lemma ExtensionIsCut(p: string)
    requires HasExtension(p)
    ensures ExtensionStart(p) < |p|
  {
    var j, d :| 0 <= j < d < |p| && p[j] != '.' && p[d] == '.' && (forall k :: j <= k < |p| ==> p[k] != '/');
    var sep := LastIndexOf(p, '/');
    var dot := LastIndexOf(p, '.');
    assert sep < j by {
      LastIndexBefore(p, '/', j);
    }
    assert d <= dot;
    assert !AllDots(p[sep + 1..dot]) by {
      assert p[sep + 1..dot][j - sep - 1] == p[j];
    }
  }

  /** The last `c` lies before `j` when no `c` comes at or after `j`. */
  lemma LastIndexBefore(s: string, c: char, j: int)
    requires 0 <= j && forall k :: j <= k < |s| ==> s[k] != c
    ensures LastIndexOf(s, c) < j
  {
  }

  /** The key of a file listed in the pid directory is the stem of its own
      name, whatever the directory is. */
  lemma PidKeyOfListedName(pidDir: string, name: string)
    requires '/' !in name && name != []
    ensures PidKey(pidDir, name) == Stem(name)
  {
    BasenameOfJoin(pidDir, name);
  }

  /** The pid file a daemonized worker writes: `<basename(processing)>.pid`. */
  function PidFileName(processing: string): (r: string)
    ensures '/' !in r && r != []
  {
    Basename(processing) + ".pid"
  }

  /** The key `status` derives from a pid file listed in `pidDir`:
      `splitext(basename(join(pidDir, name)))[0]`. */
  function PidKey(pidDir: string, name: string): string {
    Stem(Basename(PathJoin(pidDir, name)))
  }

  /**
   * The stem of `<inst>.pid` is `inst` exactly when `inst` has a character
   * other than a dot; an all-dot name (such as "") keeps the whole file name.
   */
  lemma {:induction false} StemOfPidName(inst: string)
    requires '/' !in inst
    ensures Stem(inst + ".pid") == inst <==> !AllDots(inst)
  {
    var p := inst + ".pid";
    assert '/' !in p by {
      forall k | 0 <= k < |p| ensures p[k] != '/' {
        if k < |inst| { assert p[k] == inst[k]; }
      }
    }
    var dot := LastIndexOf(p, '.');
    assert p[|inst|] == '.';
    assert dot == |inst| by {
      assert dot >= |inst|;
      assert p[|inst| + 1] == 'p' && p[|inst| + 2] == 'i' && p[|inst| + 3] == 'd';
    }
    assert p[..|inst|] == inst;
    assert p[0..|inst|] == inst;
  }

  /**
   * Pid-file naming round trip: the key `status` reads back from the file
   * `start_daemonized` wrote is the basename of the worker's processing
   * directory, provided that basename is not made of dots only.
   */
  lemma PidKeyOfPidFileName(pidDir: string, processing: string)
    requires !AllDots(Basename(processing))
    ensures PidKey(pidDir, PidFileName(processing)) == Basename(processing)
  {
    BasenameOfJoin(pidDir, PidFileName(processing));
    StemOfPidName(Basename(processing));
  }
}
