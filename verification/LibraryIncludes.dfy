/** Which libraries are loaded when a crate includes some and re-exports some. */
module LibraryIncludes {
  import opened Wrappers
  import opened Collections

  type Lib = string

  /** The libraries on the load path, and what adding the source of one gives: an error, or the
      libraries that it includes itself, if it says so. */
  datatype LoadPath = LoadPath(found: set<Lib>, source: Lib -> Result<Option<set<Lib>>, string>) {

    /** The source of `l` can be added and names `m`. */
    predicate Includes(l: Lib, m: Lib) {
      source(l).Ok? && source(l).value.Some? && m in source(l).value.value
    }

    function NewIncludes(l: Lib): (libs: set<Lib>)
      ensures forall m :: m in libs <==> Includes(l, m)
    {
      match source(l)
      case Ok(Some(libs)) => libs
      case _ => {}
    }

    /** A chain of found libraries from one of `roots`, each including the next. */
    ghost predicate Path(roots: set<Lib>, p: seq<Lib>) {
      && p != [] && p[0] in roots
      && (forall i :: 0 <= i < |p| ==> p[i] in found)
      && (forall i :: 0 < i < |p| ==> Includes(p[i - 1], p[i]))
    }

    ghost predicate Reachable(roots: set<Lib>, l: Lib) {
      exists p :: Path(roots, p) && p[|p| - 1] == l
    }

    ghost function Reach(roots: set<Lib>): set<Lib> {
      set l | l in found && Reachable(roots, l)
    }

    /** Whatever the libraries in `s` include is in `t`, as far as it is found. */
    ghost predicate Covers(s: set<Lib>, t: set<Lib>) {
      forall l, m :: l in s && Includes(l, m) && m in found ==> m in t
    }

    lemma ReachIsClosed(roots: set<Lib>)
      ensures roots * found <= Reach(roots) && Covers(Reach(roots), Reach(roots))
    {
      forall l | l in roots * found ensures l in Reach(roots) {
        assert Path(roots, [l]);
      }
      forall l, m | l in Reach(roots) && Includes(l, m) && m in found ensures m in Reach(roots) {
        var p :| Path(roots, p) && p[|p| - 1] == l;
        assert Path(roots, p + [m]);
      }
    }

    lemma ReachMonotone(roots: set<Lib>, more: set<Lib>)
      requires roots <= more
      ensures Reach(roots) <= Reach(more)
    {
      forall l | l in Reach(roots) ensures l in Reach(more) {
        var p :| Path(roots, p) && p[|p| - 1] == l;
        assert Path(more, p);
      }
    }

    lemma {:induction false} PathStaysInside(roots: set<Lib>, s: set<Lib>, p: seq<Lib>)
      requires Path(roots, p) && roots * found <= s && Covers(s, s)
      ensures p[|p| - 1] in s
    {
      if |p| > 1 {
        var q := p[..|p| - 1];
        assert forall i | 0 < i < |q| :: Includes(q[i - 1], q[i]) by {
          forall i | 0 < i < |q| ensures Includes(q[i - 1], q[i]) { assert Includes(p[i - 1], p[i]); }
        }
        PathStaysInside(roots, s, q);
        assert Includes(p[|p| - 1 - 1], p[|p| - 1]);
      }
    }

    /** A set closed under including contains everything reachable from the roots in it. */
    lemma ClosedContainsReach(roots: set<Lib>, s: set<Lib>)
      requires roots * found <= s && Covers(s, s)
      ensures Reach(roots) <= s
    {
      forall l | l in Reach(roots) ensures l in s {
        var p :| Path(roots, p) && p[|p| - 1] == l;
        PathStaysInside(roots, s, p);
      }
    }
  }

  /** The registry that library sources are added to; `loaded` lists them in order. */
  class ShimRegistry {
    var loaded: seq<Lib>

    constructor ()
      ensures loaded == []
    {
      loaded := [];
    }

    method AddSource(lp: LoadPath, l: Lib) returns (r: Result<Option<set<Lib>>, string>)
      modifies this
      ensures r == lp.source(l)
      ensures loaded == if r.Ok? then old(loaded) + [l] else old(loaded)
    {
      r := lp.source(l);
      if r.Ok? {
        loaded := loaded + [l];
      }
    }
  }

  ghost predicate ListsOnce(s: seq<Lib>, libs: set<Lib>) {
    NoDuplicates(s) && forall l :: l in s <==> l in libs
  }

  lemma ListsOneMore(s: seq<Lib>, libs: set<Lib>, l: Lib)
    requires ListsOnce(s, libs) && l !in libs
    ensures ListsOnce(s + [l], libs + {l})
  {
  }

  ghost predicate AllLoad(lp: LoadPath, libs: set<Lib>) {
    forall l :: l in libs ==> lp.source(l).Ok?
  }

  /** The error is one that loading a reachable library gives. */
  ghost predicate IsLoadError(lp: LoadPath, libs: set<Lib>, error: string) {
    exists l :: l in libs && lp.source(l) == Err(error)
  }

  /** A loop that leaves out what is `included` already has dealt with `exported`, and `exports` are
      still due. All of it is in `reach`. */
  ghost predicate Loading(lp: LoadPath, included: set<Lib>, exports0: set<Lib>, reach: set<Lib>, exports: set<Lib>,
                          exported: set<Lib>) {
    && exports !! exported && exported <= reach
    && exports * lp.found <= reach
    && exports0 * lp.found <= exported + exports
    && (exported + exports) * included <= exports0
    && lp.Covers(exported - included, included + exported + exports)
  }

  /** What is left to do after `l`: nothing more if it is missing or already loaded, else its includes. */
  ghost function DueAfter(lp: LoadPath, included: set<Lib>, exports: set<Lib>, exported: set<Lib>, l: Lib): set<Lib> {
    if l !in lp.found || l in included then exports - {l}
    else exports - {l} + (lp.NewIncludes(l) - included - (exported + {l}))
  }

  lemma LoadingStep(lp: LoadPath, included: set<Lib>, exports0: set<Lib>, reach: set<Lib>, exports: set<Lib>,
                    exported: set<Lib>, l: Lib)
    requires Loading(lp, included, exports0, reach, exports, exported) && l in exports
    requires lp.Covers(reach, reach)
    ensures Loading(lp, included, exports0, reach, DueAfter(lp, included, exports, exported, l),
                      if l in lp.found then exported + {l} else exported)
  {
    if l in lp.found {
      assert lp.NewIncludes(l) * lp.found <= reach;
    }
  }

  /** The first loop: `includes` and what they include. */
  method LoadIncludes(lp: LoadPath, includes0: set<Lib>, registry: ShimRegistry) returns (r: Result<set<Lib>, string>)
    requires registry.loaded == []
    modifies registry
    ensures r.Ok? ==> r.value == lp.Reach(includes0) && ListsOnce(registry.loaded, r.value) && AllLoad(lp, r.value)
    ensures r.Err? ==> IsLoadError(lp, lp.Reach(includes0), r.error)
  {
    var includes := includes0;
    var included: set<Lib> := {};
    lp.ReachIsClosed(includes0);
    while includes != {}
      invariant Loading(lp, {}, includes0, lp.Reach(includes0), includes, included)
      invariant ListsOnce(registry.loaded, included) && AllLoad(lp, included)
      decreases lp.found - included, includes
    {
      var incl :| incl in includes;
      LoadingStep(lp, {}, includes0, lp.Reach(includes0), includes, included, incl);
      includes := includes - {incl};
      if incl !in lp.found { continue; }
      ListsOneMore(registry.loaded, included, incl);
      included := included + {incl};
      var added := registry.AddSource(lp, incl);
      if added.Err? { return Err(added.error); }
      if added.value.Some? {
        includes := includes + (added.value.value - included);
        assert added.value.value - {} - included == added.value.value - included;
      }
    }
    lp.ClosedContainsReach(includes0, included);
    r := Ok(included);
  }

  /** The second loop: `exports` and what they include, leaving out what the first loop loaded. */
  method LoadExports(lp: LoadPath, included: set<Lib>, exports0: set<Lib>, registry: ShimRegistry)
    returns (r: Result<set<Lib>, string>)
    requires lp.Covers(included, included) && included <= lp.found
    requires ListsOnce(registry.loaded, included)
    modifies registry
    ensures r.Ok? ==>
              && r.value == exports0 * lp.found + (lp.Reach(exports0) - included)
              && ListsOnce(registry.loaded, included + r.value)
              && AllLoad(lp, r.value - included)
    ensures r.Err? ==> IsLoadError(lp, lp.Reach(exports0), r.error)
  {
    var exports := exports0;
    var exported: set<Lib> := {};
    assert included + exported == included;
    lp.ReachIsClosed(exports0);
    while exports != {}
      invariant Loading(lp, included, exports0, lp.Reach(exports0), exports, exported)
      invariant ListsOnce(registry.loaded, included + exported) && AllLoad(lp, exported - included)
      decreases lp.found - exported, exports
    {
      var incl :| incl in exports;
      LoadingStep(lp, included, exports0, lp.Reach(exports0), exports, exported, incl);
      exports := exports - {incl};
      if incl !in lp.found { continue; }
      var skip := incl in included;
      ghost var before := included + exported;
      exported := exported + {incl};
      assert included + exported == before + {incl};
      if skip {
        assert before + {incl} == before;
        continue;
      }
      ListsOneMore(registry.loaded, before, incl);
      var added := registry.AddSource(lp, incl);
      if added.Err? { return Err(added.error); }
      if added.value.Some? {
        exports := exports + (added.value.value - included - exported);
      }
    }
    lp.ClosedContainsReach(exports0, included + exported);
    r := Ok(exported);
  }

  /** Both loops. Every reachable library is loaded exactly once, cycles and missing libraries
      notwithstanding, and the run fails exactly when one of the reachable libraries fails to load. */
  method LoadLibraries(lp: LoadPath, includes: set<Lib>, exports: set<Lib>, registry: ShimRegistry)
    returns (r: Result<(set<Lib>, set<Lib>), string>)
    requires registry.loaded == []
    modifies registry
    ensures r.Ok? <==> AllLoad(lp, lp.Reach(includes + exports))
    ensures r.Ok? ==>
              && r.value.0 == lp.Reach(includes)
              && r.value.1 == exports * lp.found + (lp.Reach(exports) - lp.Reach(includes))
              && ListsOnce(registry.loaded, lp.Reach(includes + exports))
    ensures r.Err? ==> IsLoadError(lp, lp.Reach(includes + exports), r.error)
  {
    lp.ReachMonotone(includes, includes + exports);
    lp.ReachMonotone(exports, includes + exports);
    var first := LoadIncludes(lp, includes, registry);
    if first.Err? { return Err(first.error); }
    var included := first.value;
    lp.ReachIsClosed(includes);
    var second := LoadExports(lp, included, exports, registry);
    if second.Err? { return Err(second.error); }
    ReachOfBoth(lp, includes, exports);
    r := Ok((included, second.value));
  }

  /** What is reachable from two sets of roots is what is reachable from either. */
  lemma ReachOfBoth(lp: LoadPath, roots: set<Lib>, more: set<Lib>)
    ensures lp.Reach(roots + more) == lp.Reach(roots) + lp.Reach(more)
    ensures lp.Reach(roots + more) == lp.Reach(roots) + (more * lp.found + (lp.Reach(more) - lp.Reach(roots)))
  {
    lp.ReachMonotone(roots, roots + more);
    lp.ReachMonotone(more, roots + more);
    var s := lp.Reach(roots) + lp.Reach(more);
    lp.ReachIsClosed(roots);
    lp.ReachIsClosed(more);
    lp.ClosedContainsReach(roots + more, s);
  }
}
