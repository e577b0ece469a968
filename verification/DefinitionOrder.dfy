/** The layered topological order in which type definitions are emitted. */
module DefinitionOrder {
  import opened Wrappers
  import opened Collections
  import opened RustTypes

  /** Each key with the definitions it refers to; those need not be keys themselves. */
  type Dependencies = map<DefId, set<DefId>>

  /** `x` refers to `p`, so `p` has to come first. */
  ghost predicate Edge(deps: Dependencies, p: DefId, x: DefId) {
    x in deps && p in deps[x]
  }

  /** A sequence of definitions, each referred to by the next one. */
  ghost predicate Chain(deps: Dependencies, c: seq<DefId>) {
    c != [] && forall i :: 0 < i < |c| ==> Edge(deps, c[i - 1], c[i])
  }

  ghost predicate Cycle(deps: Dependencies, c: seq<DefId>) {
    Chain(deps, c) && |c| > 1 && c[0] == c[|c| - 1]
  }

  /** The longest chain that ends in `x` has `rank` references. */
  ghost predicate HasRank(deps: Dependencies, x: DefId, rank: nat) {
    && (exists c :: Chain(deps, c) && c[|c| - 1] == x && |c| == rank + 1)
    && (forall c :: Chain(deps, c) && c[|c| - 1] == x ==> |c| <= rank + 1)
  }

  // ----- sort_by on the path hash -----

  function InsertByHash(hash: DefId -> nat, x: DefId, s: seq<DefId>): (r: seq<DefId>)
    ensures forall y :: y in r <==> y == x || y in s
  {
    if s == [] || hash(x) <= hash(s[0]) then [x] + s else
      var r := InsertByHash(hash, x, s[1..]);
      assert s == [s[0]] + s[1..];
      [s[0]] + r
  }

  function SortByHash(hash: DefId -> nat, s: seq<DefId>): (r: seq<DefId>)
    ensures forall y :: y in r <==> y in s
  {
    if s == [] then [] else
      assert s == [s[0]] + s[1..];
      InsertByHash(hash, s[0], SortByHash(hash, s[1..]))
  }

  ghost predicate SortedByHash(hash: DefId -> nat, s: seq<DefId>) {
    forall i, j :: 0 <= i < j < |s| ==> hash(s[i]) <= hash(s[j])
  }

  lemma HeadIsLeast(hash: DefId -> nat, s: seq<DefId>)
    requires s != [] && SortedByHash(hash, s) && NoDuplicates(s)
    ensures SortedByHash(hash, s[1..]) && NoDuplicates(s[1..])
    ensures forall y :: y in s[1..] ==> hash(s[0]) <= hash(y) && s[0] != y
  {
  }

  lemma PrependKeepsOrder(hash: DefId -> nat, x: DefId, r: seq<DefId>)
    requires SortedByHash(hash, r) && NoDuplicates(r)
    requires forall y :: y in r ==> hash(x) <= hash(y) && x != y
    ensures SortedByHash(hash, [x] + r) && NoDuplicates([x] + r)
  {
  }

  lemma {:induction false} InsertKeepsOrder(hash: DefId -> nat, x: DefId, s: seq<DefId>)
    requires SortedByHash(hash, s) && NoDuplicates(s) && x !in s
    ensures SortedByHash(hash, InsertByHash(hash, x, s)) && NoDuplicates(InsertByHash(hash, x, s))
  {
    if s == [] {
    } else if hash(x) <= hash(s[0]) {
      HeadIsLeast(hash, s);
      PrependKeepsOrder(hash, x, s);
    } else {
      HeadIsLeast(hash, s);
      InsertKeepsOrder(hash, x, s[1..]);
      PrependKeepsOrder(hash, s[0], InsertByHash(hash, x, s[1..]));
    }
  }

  lemma {:induction false} SortIsSorted(hash: DefId -> nat, s: seq<DefId>)
    requires NoDuplicates(s)
    ensures SortedByHash(hash, SortByHash(hash, s)) && NoDuplicates(SortByHash(hash, s))
  {
    if s != [] {
      SortIsSorted(hash, s[1..]);
      assert s[0] !in s[1..];
      InsertKeepsOrder(hash, s[0], SortByHash(hash, s[1..]));
    }
  }

  // ----- the sorter -----

  function Sources(items: set<DefId>, edges: set<(DefId, DefId)>): set<DefId> {
    set x | x in items && forall p | p in items :: (p, x) !in edges
  }

  /** The contract of the `topological_sort` crate: items, and precedence between them. */
  class TopologicalSort {
    var items: set<DefId>
    var edges: set<(DefId, DefId)>

    constructor ()
      ensures items == {} && edges == {}
    {
      items, edges := {}, {};
    }

    method Insert(x: DefId)
      modifies this
      ensures items == old(items) + {x} && edges == old(edges)
    {
      items := items + {x};
    }

    method AddDependency(prec: DefId, succ: DefId)
      modifies this
      ensures items == old(items) + {prec, succ} && edges == old(edges) + {(prec, succ)}
    {
      items, edges := items + {prec, succ}, edges + {(prec, succ)};
    }

    /** Takes out all items without a remaining predecessor, in no particular order. */
    method PopAll() returns (next: seq<DefId>)
      modifies this
      ensures edges == old(edges)
      ensures NoDuplicates(next)
      ensures forall x :: x in next <==> x in Sources(old(items), edges)
      ensures items == old(items) - Sources(old(items), edges)
    {
      next := [];
      var todo := Sources(items, edges);
      while todo != {}
        invariant NoDuplicates(next)
        invariant todo <= Sources(items, edges)
        invariant forall x :: x in next <==> x in Sources(items, edges) - todo
      {
        var x :| x in todo;
        assert x !in next;
        todo := todo - {x};
        next := next + [x];
      }
      items := items - Sources(items, edges);
    }
  }

  // ----- the order -----

  function Items(deps: Dependencies): set<DefId> {
    deps.Keys + set x, p | x in deps && p in deps[x] :: p
  }

  function Edges(deps: Dependencies): set<(DefId, DefId)> {
    set x, p | x in deps && p in deps[x] :: (p, x)
  }

  /** Enters one key and all that it refers to. */
  method EnterDefinition(topo: TopologicalSort, did: DefId, referenced: set<DefId>)
    modifies topo
    ensures topo.items == old(topo.items) + {did} + referenced
    ensures topo.edges == old(topo.edges) + set p | p in referenced :: (p, did)
  {
    topo.Insert(did);
    var todo := referenced;
    ghost var added := {};
    while todo != {}
      invariant todo !! added && todo + added == referenced
      invariant topo.items == old(topo.items) + {did} + added
      invariant topo.edges == old(topo.edges) + set p | p in added :: (p, did)
    {
      var did2 :| did2 in todo;
      topo.AddDependency(did2, did);
      todo, added := todo - {did2}, added + {did2};
    }
  }

  method BuildSorter(deps: Dependencies) returns (topo: TopologicalSort)
    ensures fresh(topo) && topo.items == Items(deps) && topo.edges == Edges(deps)
  {
    topo := new TopologicalSort();
    var todo := deps.Keys;
    ghost var done: set<DefId> := {};
    while todo != {}
      invariant fresh(topo) && todo !! done && todo + done == deps.Keys
      invariant topo.items == done + set x, p | x in done && p in deps[x] :: p
      invariant topo.edges == set x, p | x in done && p in deps[x] :: (p, x)
    {
      var did :| did in todo;
      EnterDefinition(topo, did, deps[did]);
      todo, done := todo - {did}, done + {did};
    }
  }

  function KeepKeys(deps: Dependencies, s: seq<DefId>): (r: seq<DefId>)
    ensures forall x :: x in r <==> x in s && x in deps
  {
    if s == [] then [] else
      assert s == [s[0]] + s[1..];
      (if s[0] in deps then [s[0]] else []) + KeepKeys(deps, s[1..])
  }

  lemma {:induction false} KeepKeysKeepsOrder(deps: Dependencies, hash: DefId -> nat, s: seq<DefId>)
    requires SortedByHash(hash, s) && NoDuplicates(s)
    ensures SortedByHash(hash, KeepKeys(deps, s)) && NoDuplicates(KeepKeys(deps, s))
  {
    if s != [] {
      HeadIsLeast(hash, s);
      KeepKeysKeepsOrder(deps, hash, s[1..]);
      if s[0] in deps {
        PrependKeepsOrder(hash, s[0], KeepKeys(deps, s[1..]));
      }
    }
  }

  /** `level` has every definition outside `remaining` placed above all it refers to, and witnessed by
      a chain; what remains sits on chains of `k` references. */
  ghost predicate Layered(deps: Dependencies, remaining: set<DefId>, level: map<DefId, nat>, k: nat) {
    && remaining <= Items(deps)
    && level.Keys == Items(deps) - remaining
    && LevelsRise(deps, level)
    && (forall x :: x in level ==> level[x] < k && ChainTo(deps, x, level[x] + 1))
    && (forall x :: x in remaining ==> ChainTo(deps, x, k + 1))
  }

  ghost predicate LevelsRise(deps: Dependencies, level: map<DefId, nat>) {
    forall p, x :: x in level && Edge(deps, p, x) ==> p in level && level[p] < level[x]
  }

  ghost predicate ChainTo(deps: Dependencies, x: DefId, length: nat) {
    exists c :: Chain(deps, c) && c[|c| - 1] == x && |c| == length
  }

  lemma ChainExtends(deps: Dependencies, p: DefId, x: DefId, length: nat)
    requires ChainTo(deps, p, length) && Edge(deps, p, x)
    ensures ChainTo(deps, x, length + 1)
  {
    var c :| Chain(deps, c) && c[|c| - 1] == p && |c| == length;
    assert Chain(deps, c + [x]);
  }

  lemma EveryItemIsAChain(deps: Dependencies, x: DefId)
    ensures ChainTo(deps, x, 1)
  {
    assert Chain(deps, [x]);
  }

  function AddLevel(level: map<DefId, nat>, next: set<DefId>, k: nat): map<DefId, nat> {
    level + map x | x in next :: k
  }

  lemma AddedLevelRises(deps: Dependencies, remaining: set<DefId>, level: map<DefId, nat>, k: nat)
    requires Layered(deps, remaining, level, k)
    ensures LevelsRise(deps, AddLevel(level, Sources(remaining, Edges(deps)), k))
  {
    var next := Sources(remaining, Edges(deps));
    var level' := AddLevel(level, next, k);
    forall p, x | x in level' && Edge(deps, p, x) ensures p in level' && level'[p] < level'[x] {
      assert (p, x) in Edges(deps) && p in Items(deps);
      if x in next { assert p !in remaining; }
    }
  }

  lemma RemainingHasLongerChain(deps: Dependencies, remaining: set<DefId>, level: map<DefId, nat>, k: nat, x: DefId)
    requires Layered(deps, remaining, level, k) && x in remaining && x !in Sources(remaining, Edges(deps))
    ensures ChainTo(deps, x, k + 2)
  {
    var p :| p in remaining && (p, x) in Edges(deps);
    ChainExtends(deps, p, x, k + 1);
  }

  /** Taking out the sources puts them on the next level. */
  lemma LayerStep(deps: Dependencies, remaining: set<DefId>, level: map<DefId, nat>, k: nat)
    requires Layered(deps, remaining, level, k)
    ensures var next := Sources(remaining, Edges(deps));
            Layered(deps, remaining - next, AddLevel(level, next, k), k + 1)
  {
    var next := Sources(remaining, Edges(deps));
    var level' := AddLevel(level, next, k);
    assert level'.Keys == Items(deps) - (remaining - next);
    AddedLevelRises(deps, remaining, level, k);
    forall x | x in remaining - next ensures ChainTo(deps, x, k + 2) {
      RemainingHasLongerChain(deps, remaining, level, k, x);
    }
  }

  lemma {:induction false} LevelsRiseAlongChains(deps: Dependencies, level: map<DefId, nat>, c: seq<DefId>, i: nat)
    requires LevelsRise(deps, level)
    requires Chain(deps, c) && i < |c| && c[|c| - 1] in level
    ensures c[i] in level && level[c[i]] + (|c| - 1 - i) <= level[c[|c| - 1]]
    decreases |c| - i
  {
    if i < |c| - 1 {
      LevelsRiseAlongChains(deps, level, c, i + 1);
      assert Edge(deps, c[i + 1 - 1], c[i + 1]);
    }
  }

  // ----- a graph without sources has a cycle -----

  lemma {:induction false} WalkBack(deps: Dependencies, stuck: set<DefId>, n: nat) returns (c: seq<DefId>)
    requires stuck != {} && Sources(stuck, Edges(deps)) == {}
    ensures Chain(deps, c) && |c| == n + 1 && forall x :: x in c ==> x in stuck
  {
    if n == 0 {
      var x :| x in stuck;
      c := [x];
    } else {
      var rest := WalkBack(deps, stuck, n - 1);
      assert rest[0] in stuck && rest[0] !in Sources(stuck, Edges(deps));
      var p :| p in stuck && (p, rest[0]) in Edges(deps);
      c := [p] + rest;
      forall i | 0 < i < |c| ensures Edge(deps, c[i - 1], c[i]) {
        if i > 1 { assert Edge(deps, rest[i - 1 - 1], rest[i - 1]); }
      }
    }
  }

  lemma {:induction false} Pigeonhole(c: seq<DefId>, s: set<DefId>)
    requires (forall x :: x in c ==> x in s) && NoDuplicates(c)
    ensures |c| <= |s|
  {
    if c != [] {
      var last := c[|c| - 1];
      assert last in s;
      var front := c[..|c| - 1];
      forall x | x in front ensures x in s - {last} {
        var i :| 0 <= i < |front| && front[i] == x;
        assert c[i] == x && c[i] != last;
      }
      Pigeonhole(front, s - {last});
    }
  }

  lemma StuckMeansCycle(deps: Dependencies, stuck: set<DefId>)
    requires stuck != {} && Sources(stuck, Edges(deps)) == {}
    ensures exists c :: Cycle(deps, c)
  {
    var c := WalkBack(deps, stuck, |stuck|);
    if NoDuplicates(c) { Pigeonhole(c, stuck); }
    var i, j :| 0 <= i < j < |c| && c[i] == c[j];
    var d := c[i..j + 1];
    forall k | 0 < k < |d| ensures Edge(deps, d[k - 1], d[k]) {
      assert Edge(deps, c[i + k - 1], c[i + k]);
    }
    assert Cycle(deps, d);
  }

  lemma LevelsExcludeCycles(deps: Dependencies, level: map<DefId, nat>, k: nat)
    requires Layered(deps, {}, level, k)
    ensures !exists c :: Cycle(deps, c)
  {
    forall c | Cycle(deps, c) ensures false {
      assert Edge(deps, c[|c| - 1 - 1], c[|c| - 1]);
      LevelsRiseAlongChains(deps, level, c, 0);
    }
  }

  lemma LevelIsRank(deps: Dependencies, level: map<DefId, nat>, k: nat, x: DefId)
    requires Layered(deps, {}, level, k) && x in level
    ensures HasRank(deps, x, level[x])
  {
    forall c | Chain(deps, c) && c[|c| - 1] == x ensures |c| <= level[x] + 1 {
      LevelsRiseAlongChains(deps, level, c, 0);
    }
  }

  // ----- what the order promises -----

  ghost predicate SortedByLevel(order: seq<DefId>, level: map<DefId, nat>, hash: DefId -> nat)
    requires forall x :: x in order ==> x in level
  {
    forall i, j :: 0 <= i < j < |order| ==>
      level[order[i]] < level[order[j]] || (level[order[i]] == level[order[j]] && hash(order[i]) <= hash(order[j]))
  }

  lemma AppendLayer(order: seq<DefId>, layer: seq<DefId>, level: map<DefId, nat>, next: set<DefId>, k: nat,
                    hash: DefId -> nat)
    requires (forall x :: x in order ==> x in level && x !in next) && (forall x :: x in layer ==> x in next)
    requires (forall x :: x in level ==> level[x] < k) && next !! level.Keys
    requires SortedByLevel(order, level, hash) && NoDuplicates(order)
    requires SortedByHash(hash, layer) && NoDuplicates(layer)
    ensures forall x :: x in order + layer ==> x in AddLevel(level, next, k)
    ensures SortedByLevel(order + layer, AddLevel(level, next, k), hash) && NoDuplicates(order + layer)
  {
    var all, n := order + layer, |order|;
    forall i | 0 <= i < |all| ensures all[i] == if i < n then order[i] else layer[i - n] {}
    forall i | 0 <= i < n ensures order[i] in level && order[i] !in next {}
    forall i | 0 <= i < |layer| ensures layer[i] in next {}
  }

  /** `None` stands for the panic about mutually recursive types. `rank` is the length of the longest
      chain of references that ends in a definition. */
  method OrderDefsWithDeps(deps: Dependencies, hash: DefId -> nat) returns (order: Option<seq<DefId>>,
                           ghost rank: map<DefId, nat>)
    ensures order == None <==> exists c :: Cycle(deps, c)
    ensures order.Some? ==> (forall x :: x in order.value <==> x in deps) && NoDuplicates(order.value)
    ensures order.Some? ==> (forall x :: x in deps ==> x in rank && HasRank(deps, x, rank[x]))
    ensures order.Some? ==> SortedByLevel(order.value, rank, hash)
  {
    var topo := BuildSorter(deps);
    var defnOrder: seq<DefId> := [];
    ghost var k: nat := 0;
    rank := map[];
    forall x | x in topo.items ensures ChainTo(deps, x, 1) { EveryItemIsAChain(deps, x); }
    while topo.items != {}
      invariant fresh(topo) && topo.edges == Edges(deps)
      invariant Layered(deps, topo.items, rank, k)
      invariant forall x :: x in defnOrder <==> x in deps && x in rank
      invariant NoDuplicates(defnOrder) && SortedByLevel(defnOrder, rank, hash)
      decreases topo.items
    {
      ghost var remaining := topo.items;
      var next := topo.PopAll();
      SortIsSorted(hash, next);
      next := SortByHash(hash, next);
      if next == [] {
        assert forall x :: x in Sources(remaining, Edges(deps)) ==> x in next;
        StuckMeansCycle(deps, remaining);
        return None, rank;
      }
      assert next[0] in Sources(remaining, Edges(deps));
      KeepKeysKeepsOrder(deps, hash, next);
      LayerStep(deps, remaining, rank, k);
      AppendLayer(defnOrder, KeepKeys(deps, next), rank, Sources(remaining, Edges(deps)), k, hash);
      defnOrder := defnOrder + KeepKeys(deps, next);
      rank, k := AddLevel(rank, Sources(remaining, Edges(deps)), k), k + 1;
    }
    LevelsExcludeCycles(deps, rank, k);
    forall x | x in deps ensures x in rank && HasRank(deps, x, rank[x]) { LevelIsRank(deps, rank, k, x); }
    order := Some(defnOrder);
  }

  /** Each key comes after all keys that it refers to, directly or through others. */
  lemma DependenciesComeFirst(deps: Dependencies, hash: DefId -> nat, order: seq<DefId>, rank: map<DefId, nat>,
                              c: seq<DefId>, i: nat, j: nat)
    requires forall x :: x in order ==> x in rank && HasRank(deps, x, rank[x])
    requires SortedByLevel(order, rank, hash)
    requires Chain(deps, c) && |c| > 1 && i < |order| && j < |order| && c[0] == order[i] && c[|c| - 1] == order[j]
    ensures i < j
  {
    RankRises(deps, c, rank[order[i]], rank[order[j]]);
  }

  lemma RankRises(deps: Dependencies, c: seq<DefId>, r: nat, s: nat)
    requires Chain(deps, c) && |c| > 1 && HasRank(deps, c[0], r) && HasRank(deps, c[|c| - 1], s)
    ensures r < s
  {
    var b :| Chain(deps, b) && b[|b| - 1] == c[0] && |b| == r + 1;
    var d := b + c[1..];
    forall i | 0 < i < |d| ensures Edge(deps, d[i - 1], d[i]) {
      if i < |b| {
        assert Edge(deps, b[i - 1], b[i]);
      } else {
        assert Edge(deps, c[i - |b|], c[i - |b| + 1]) by { assert Edge(deps, c[i - |b| + 1 - 1], c[i - |b| + 1]); }
      }
    }
    assert Chain(deps, d) && d[|d| - 1] == c[|c| - 1];
  }

  /** `s` lists `keys` without repetition, by rank and then by hash. */
  ghost predicate ListsInOrder(keys: set<DefId>, hash: DefId -> nat, rank: map<DefId, nat>, s: seq<DefId>) {
    (forall x :: x in s <==> x in keys) && keys <= rank.Keys && NoDuplicates(s) && SortedByLevel(s, rank, hash)
  }

  /** Hashes tell the keys apart, which rustc guarantees for path hashes. */
  ghost predicate HashIdentifies(keys: set<DefId>, hash: DefId -> nat) {
    forall x, y :: x in keys && y in keys && hash(x) == hash(y) ==> x == y
  }

  /** When hashes tell the keys apart, the order is the only one sorted by rank and then hash. */
  lemma OrderIsDetermined(deps: Dependencies, hash: DefId -> nat, rank: map<DefId, nat>, a: seq<DefId>, b: seq<DefId>)
    requires HashIdentifies(deps.Keys, hash)
    requires ListsInOrder(deps.Keys, hash, rank, a) && ListsInOrder(deps.Keys, hash, rank, b)
    ensures a == b
  {
    SortedListsAgree(deps.Keys, hash, rank, a, b);
  }

  lemma HeadsAgree(keys: set<DefId>, hash: DefId -> nat, rank: map<DefId, nat>, a: seq<DefId>, b: seq<DefId>)
    requires HashIdentifies(keys, hash) && a != [] && b != []
    requires ListsInOrder(keys, hash, rank, a) && ListsInOrder(keys, hash, rank, b)
    ensures a[0] == b[0]
  {
    assert a[0] in keys && b[0] in keys;
    var i :| 0 <= i < |b| && b[i] == a[0];
    var j :| 0 <= j < |a| && a[j] == b[0];
  }

  lemma NothingListed(keys: set<DefId>, hash: DefId -> nat, rank: map<DefId, nat>, s: seq<DefId>)
    requires ListsInOrder(keys, hash, rank, s)
    ensures s == [] <==> keys == {}
  {
    if s != [] { assert s[0] in keys; }
  }

  lemma FirstAndRestAgree<T>(a: seq<T>, b: seq<T>)
    requires a != [] && b != [] && a[0] == b[0] && a[1..] == b[1..]
    ensures a == b
  {
    assert a == [a[0]] + a[1..] && b == [b[0]] + b[1..];
  }

  lemma {:induction false} SortedListsAgree(keys: set<DefId>, hash: DefId -> nat, rank: map<DefId, nat>,
                                            a: seq<DefId>, b: seq<DefId>)
    requires HashIdentifies(keys, hash)
    requires ListsInOrder(keys, hash, rank, a) && ListsInOrder(keys, hash, rank, b)
    ensures a == b
    decreases |a|
  {
    NothingListed(keys, hash, rank, a);
    NothingListed(keys, hash, rank, b);
    if a != [] && b != [] {
      HeadsAgree(keys, hash, rank, a, b);
      TailIsListed(keys, hash, rank, a);
      TailIsListed(keys, hash, rank, b);
      FewerHashesIdentify(keys, hash, a[0]);
      SortedListsAgree(keys - {a[0]}, hash, rank, a[1..], b[1..]);
      FirstAndRestAgree(a, b);
    }
  }

  lemma FewerHashesIdentify(keys: set<DefId>, hash: DefId -> nat, x: DefId)
    requires HashIdentifies(keys, hash)
    ensures HashIdentifies(keys - {x}, hash)
  {
  }

  lemma TailIsListed(keys: set<DefId>, hash: DefId -> nat, rank: map<DefId, nat>, s: seq<DefId>)
    requires ListsInOrder(keys, hash, rank, s) && s != []
    ensures ListsInOrder(keys - {s[0]}, hash, rank, s[1..])
  {
    forall x ensures x in s[1..] <==> x in keys - {s[0]} {
      assert s == [s[0]] + s[1..];
    }
  }
}
