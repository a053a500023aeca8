/**
 * Dotted names such as "sigasync.sigasync_spooler.SPOOLER": Python's
 * `str.split('.')` and `'.'.join(...)`, and the sequence of ever shorter
 * prefixes that `named` tries to import (sigasync/spool_control.py).
 */
module DottedNames {
  import opened Strings

  /** `s.split('.')`: always at least one segment, none holding a dot. */
  function Split(s: string): (r: seq<string>)
    ensures |r| >= 1
    ensures forall i :: 0 <= i < |r| ==> '.' !in r[i]
    decreases |s|
  {
    var j := LastIndexOf(s, '.');
    if j < 0 then [s] else Split(s[..j]) + [s[j + 1..]]
  }

  /** `'.'.join(xs)`. */
  function Join(xs: seq<string>): string {
    if xs == [] then ""
    else if |xs| == 1 then xs[0]
    else Join(xs[..|xs| - 1]) + "." + xs[|xs| - 1]
  }

  /** Joining the segments of a name gives the name back. */
  lemma {:induction false} JoinSplit(s: string)
    ensures Join(Split(s)) == s
    decreases |s|
  {
    var j := LastIndexOf(s, '.');
    if j >= 0 {
      var init := Split(s[..j]);
      JoinSplit(s[..j]);
      assert Split(s) == init + [s[j + 1..]];
      assert (init + [s[j + 1..]])[..|init|] == init;
      assert s == s[..j] + "." + s[j + 1..];
    }
  }

  /** A dot-free segment after a dot adds one segment to the split. */
  lemma SplitAfterDot(u: string, last: string)
    requires '.' !in last
    ensures Split(u + "." + last) == Split(u) + [last]
  {
    var s := u + "." + last;
    var v := "." + last;
    assert forall k :: 0 < k < |v| ==> v[k] == last[k - 1];
    assert v[0] == '.';
    assert LastIndexOf(v, '.') == 0;
    LastIndexOfAppend(u, v, '.');
    assert u + v == s;
    assert s[..|u|] == u;
    assert s[|u| + 1..] == last;
  }

  /** Splitting undoes joining dot-free segments: together with JoinSplit,
      `Split` is the unique dot-free decomposition of a name. */
  lemma {:induction false} SplitJoin(xs: seq<string>)
    requires |xs| >= 1
    requires forall i :: 0 <= i < |xs| ==> '.' !in xs[i]
    ensures Split(Join(xs)) == xs
  {
    if |xs| > 1 {
      var init := xs[..|xs| - 1];
      SplitJoin(init);
      SplitAfterDot(Join(init), xs[|xs| - 1]);
      assert Join(xs) == Join(init) + "." + xs[|xs| - 1];
      assert xs == init + [xs[|xs| - 1]];
    }
  }

  /** `'.'.join(t.split('.')[:-1])`: `t` without its last segment. */
  function DropLastSegment(t: string): (r: string)
    ensures |r| <= |t| && t[..|r|] == r
    ensures t != [] ==> |r| < |t|
  {
    var j := LastIndexOf(t, '.');
    if j < 0 then "" else t[..j]
  }

  /** DropLastSegment is the source's split-drop-join. */
  lemma DropLastSegmentIsJoinOfInit(t: string)
    ensures DropLastSegment(t) == Join(Split(t)[..|Split(t)| - 1])
  {
    var j := LastIndexOf(t, '.');
    if j >= 0 {
      JoinSplit(t[..j]);
      assert Split(t)[..|Split(t)| - 1] == Split(t[..j]);
    }
  }

  /** The names `named` tries to import, in order: the full name, then one
      trailing segment fewer each time, until nothing is left. */
  function Chain(t: string): seq<string>
    decreases |t|
  {
    if t == [] then [] else [t] + Chain(DropLastSegment(t))
  }

  /** One segment fewer after each step of the chain. */
  lemma SplitOfDropLast(t: string)
    requires LastIndexOf(t, '.') >= 0
    ensures |Split(DropLastSegment(t))| == |Split(t)| - 1
    ensures Split(DropLastSegment(t))[0] == Split(t)[0]
  {
    var j := LastIndexOf(t, '.');
    assert Split(t) == Split(t[..j]) + [t[j + 1..]];
  }

  /** The chain never has more entries than the name has segments. */
  lemma {:induction false} ChainLength(t: string)
    ensures |Chain(t)| <= |Split(t)|
    decreases |t|
  {
    if t != [] {
      ChainLength(DropLastSegment(t));
      if LastIndexOf(t, '.') >= 0 {
        SplitOfDropLast(t);
      }
    }
  }

  /**
   * The i-th name tried is a non-empty prefix of `t` with i trailing
   * segments dropped and the same first segment as `t`.
   */
  lemma {:induction false} ChainAt(t: string, i: nat)
    requires i < |Chain(t)|
    ensures 0 < |Chain(t)[i]| <= |t| && t[..|Chain(t)[i]|] == Chain(t)[i]
    ensures |Split(Chain(t)[i])| == |Split(t)| - i
    ensures Split(Chain(t)[i])[0] == Split(t)[0]
    ensures i > 0 ==> Chain(t)[i] == DropLastSegment(Chain(t)[i - 1])
    decreases |t|
  {
    var d := DropLastSegment(t);
    if i > 0 {
      var c := Chain(d)[i - 1];
      assert Chain(t)[i] == c;
      ChainAt(d, i - 1);
      assert t[..|c|] == c by {
        assert d == t[..|d|];
      }
      assert LastIndexOf(t, '.') >= 0 by {
        assert d != [];
      }
      SplitOfDropLast(t);
      if i > 1 {
        assert Chain(t)[i - 1] == Chain(d)[i - 2];
      }
    }
  }
}
