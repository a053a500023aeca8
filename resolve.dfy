/**
 * `named` resolves a dotted name to an object by importing the longest
 * importable prefix and walking attributes; `Spooler.__new__` caches the
 * first spooler it resolves for the life of the process
 * (sigasync/spool_control.py).
 */
module Resolve {
  import opened Wrappers
  import opened DottedNames

  /**
   * What the Python runtime answers: which dotted names import, the
   * top-level package an import returns (`__import__("a.b")` returns
   * package `a`), and attribute lookup, None standing for AttributeError.
   */
  datatype Env<!O> = Env(
    importable: string -> bool,
    topLevel: string -> O,
    attr: (O, string) -> Option<O>)

  datatype Resolution<O> =
    | Resolved(obj: O)
    | ImportFailure(name: string)
    | AttributeFailure(segment: string, name: string)

  /** The object `__import__(p)` returns: the package named by p's first segment. */
  function Import<O>(env: Env<O>, p: string): O {
    env.topLevel(Split(p)[0])
  }

  /** The first name of `chain` that imports. */
  function FirstImportable<O>(env: Env<O>, chain: seq<string>): (r: Option<string>)
    ensures r.None? <==> forall i :: 0 <= i < |chain| ==> !env.importable(chain[i])
    ensures r.Some? ==> exists i :: (0 <= i < |chain| && chain[i] == r.value
      && env.importable(chain[i]) && forall j :: 0 <= j < i ==> !env.importable(chain[j]))
  {
    if chain == [] then None
    else if env.importable(chain[0]) then Some(chain[0])
    else
      var r := FirstImportable(env, chain[1..]);
      assert forall i :: 0 < i < |chain| ==> chain[i] == chain[1..][i - 1];
      r
  }

  /** `getattr` along `segs` from `obj`; the first missing attribute fails. */
  function Walk<O>(env: Env<O>, obj: O, segs: seq<string>, name: string): (r: Resolution<O>)
    ensures !r.ImportFailure?
    ensures r.AttributeFailure? ==> r.segment in segs && r.name == name
  {
    if segs == [] then Resolved(obj)
    else match env.attr(obj, segs[0])
      case None => AttributeFailure(segs[0], name)
      case Some(next) => Walk(env, next, segs[1..], name)
  }

  /** What `named(name)` returns or raises: ImportError exactly when no
      prefix of the name imports, otherwise the result of the attribute walk
      over the second and later segments. */
  function NamedSpec<O>(env: Env<O>, name: string): (r: Resolution<O>)
    ensures r.ImportFailure? <==>
      forall i :: 0 <= i < |Chain(name)| ==> !env.importable(Chain(name)[i])
    ensures r.AttributeFailure? ==> r.segment in Split(name)[1..]
  {
    match FirstImportable(env, Chain(name))
    case None => ImportFailure(name)
    case Some(p) => Walk(env, Import(env, p), Split(name)[1..], name)
  }

  /** `named`: try prefixes longest first, then walk the attributes named
      by the second and later segments of the full name. */
  method Named<O>(env: Env<O>, name: string) returns (r: Resolution<O>)
    ensures r == NamedSpec(env, name)
  {
    var toimport := name;
    var obj: Option<O> := None;
    while toimport != []
      invariant obj.None? ==> FirstImportable(env, Chain(name)) == FirstImportable(env, Chain(toimport))
      invariant obj.Some? ==> exists p :: FirstImportable(env, Chain(name)) == Some(p) && obj.value == Import(env, p)
      decreases |toimport|, obj.None?
    {
      if env.importable(toimport) {
        obj := Some(Import(env, toimport));
        break;
      }
      toimport := DropLastSegment(toimport);
    }
    if obj.None? {
      return ImportFailure(name);
    }
    var segs := Split(name)[1..];
    var o := obj.value;
    ghost var start := o;
    for i := 0 to |segs|
      invariant Walk(env, o, segs[i..], name) == Walk(env, start, segs, name)
    {
      assert segs[i..][1..] == segs[i + 1..];
      match env.attr(o, segs[i])
      case None =>
        return AttributeFailure(segs[i], name);
      case Some(next) =>
        o := next;
    }
    r := Resolved(o);
  }

  /**
   * Whichever prefix imports, the walk starts from the top-level package
   * named by the first segment and follows the second and later segments
   * of the full name, so the result does not depend on the prefix.
   */
  lemma NamedFromTopLevel<O>(env: Env<O>, name: string, k: nat)
    requires k < |Chain(name)| && env.importable(Chain(name)[k])
    ensures NamedSpec(env, name) ==
      Walk(env, env.topLevel(Split(name)[0]), Split(name)[1..], name)
  {
    var first := FirstImportable(env, Chain(name));
    assert first.Some?;
    var i :| 0 <= i < |Chain(name)| && Chain(name)[i] == first.value;
    ChainAt(name, i);
  }

  const DefaultSpooler: string := "sigasync.sigasync_spooler.SPOOLER"

  /** `opts.get('-m', DefaultSpooler)`. */
  function SpoolerRef(opts: map<string, string>): string {
    if "-m" in opts then opts["-m"] else DefaultSpooler
  }

  /** `Spooler`: the per-process cache of the resolved spooler. */
  class SpoolerCache<O> {
    var spooler: Option<O>

    constructor ()
      ensures spooler == None
    {
      spooler := None;
    }

    /**
     * `Spooler(opts)`: resolve `-m` (or the default) on the first call and
     * cache it; every later call returns the cached object whatever its
     * opts. A failed resolution caches nothing.
     */
    method Get(env: Env<O>, opts: map<string, string>) returns (r: Resolution<O>)
      modifies this
      ensures old(spooler).Some? ==> r == Resolved(old(spooler).value) && spooler == old(spooler)
      ensures old(spooler).None? ==> r == NamedSpec(env, SpoolerRef(opts))
      ensures old(spooler).None? ==> spooler == if r.Resolved? then Some(r.obj) else None
    {
      if spooler.None? {
        r := Named(env, SpoolerRef(opts));
        if r.Resolved? {
          spooler := Some(r.obj);
        }
      } else {
        r := Resolved(spooler.value);
      }
    }
  }

  /** Two lookups in one process agree once the first has resolved, even
      when the second asks for another spooler. */
  method GetTwice<O>(cache: SpoolerCache<O>, env: Env<O>, opts1: map<string, string>,
                     opts2: map<string, string>) returns (r1: Resolution<O>, r2: Resolution<O>)
    modifies cache
    ensures r1.Resolved? ==> r2 == r1
    ensures old(cache.spooler).None? ==> r1 == NamedSpec(env, SpoolerRef(opts1))
  {
    r1 := cache.Get(env, opts1);
    r2 := cache.Get(env, opts2);
  }
}
