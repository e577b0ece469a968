/** What the laws of the domain buy: leastness, independence of the visiting order, a bound on the
    number of visits, and soundness for concrete executions. The laws are hypotheses about an
    arbitrary analysis; each theorem names the ones it needs. */
module FixpointTheorems {
  import opened Wrappers
  import opened Collections
  import opened Mir
  import opened AbstractInterpretation

  // ----- laws -----

  /** The abstract states of one body and their order. The type `S` may have more values than the
      lattice has elements, as sets of locals have that the body does not declare. */
  datatype Lattice<!S> = Lattice(contains: S -> bool, le: (S, S) -> bool)

  ghost predicate PartialOrder<S(!new)>(lat: Lattice<S>) {
    && (forall x {:trigger lat.le(x, x)} :: lat.contains(x) ==> lat.le(x, x))
    && (forall x, y {:trigger lat.le(x, y), lat.le(y, x)} ::
          lat.contains(x) && lat.contains(y) && lat.le(x, y) && lat.le(y, x) ==> x == y)
    && (forall x, y, z {:trigger lat.le(x, y), lat.le(y, z)} ::
          lat.contains(x) && lat.contains(y) && lat.contains(z) && lat.le(x, y) && lat.le(y, z) ==> lat.le(x, z))
  }

  ghost predicate JoinIsLeastUpperBound<S(!new)>(lat: Lattice<S>, join: (S, S) -> S) {
    && (forall x, y {:trigger join(x, y)} :: lat.contains(x) && lat.contains(y) ==>
          lat.contains(join(x, y)) && lat.le(x, join(x, y)) && lat.le(y, join(x, y)))
    && (forall x, y, z {:trigger lat.le(join(x, y), z)} ::
          lat.contains(x) && lat.contains(y) && lat.contains(z) && lat.le(x, z) && lat.le(y, z) ==> lat.le(join(x, y), z))
  }

  ghost predicate BottomIsLeast<S(!new)>(lat: Lattice<S>, bottom: S) {
    lat.contains(bottom) && forall x {:trigger lat.le(bottom, x)} :: lat.contains(x) ==> lat.le(bottom, x)
  }

  /** Where entry states start: a partial order with joins that has the start states among its elements. */
  ghost predicate JoinLaws<S(!new)>(a: Analysis<S>, lat: Lattice<S>) {
    && a.body.WellFormed()
    && PartialOrder(lat)
    && JoinIsLeastUpperBound(lat, a.join)
    && lat.contains(a.bottom) && lat.contains(a.initial)
  }

  ghost predicate StatesInside<S>(lat: Lattice<S>, r: Result<seq<(BasicBlock, S)>, AnalysisError>) {
    r.Ok? ==> forall k :: 0 <= k < |r.value| ==> lat.contains(r.value[k].1)
  }

  /** The transformers do not lead out of the lattice. */
  ghost predicate ClosedTransformers<S(!new)>(a: Analysis<S>, lat: Lattice<S>) {
    && (forall x, l {:trigger a.statementEffect(x, l)} ::
          lat.contains(x) && a.body.IsStatement(l) ==> lat.contains(a.statementEffect(x, l)))
    && (forall x, l {:trigger StatesInside(lat, a.terminatorEffect(x, l))} ::
          lat.contains(x) && a.body.IsTerminator(l) ==> StatesInside(lat, a.terminatorEffect(x, l)))
  }

  /** `z` is above all states that are sent to `t`. */
  ghost predicate AboveAllSent<S>(lat: Lattice<S>, nexts: seq<(BasicBlock, S)>, t: BasicBlock, z: S) {
    forall k :: 0 <= k < |nexts| && nexts[k].0 == t ==> lat.le(nexts[k].1, z)
  }

  /** Where both send a state to `t`, whatever is above what `r'` sends there is above what `r` sends. */
  ghost predicate SendsLess<S(!new)>(lat: Lattice<S>, r: Result<seq<(BasicBlock, S)>, AnalysisError>,
                                     r': Result<seq<(BasicBlock, S)>, AnalysisError>) {
    r.Ok? && r'.Ok? ==>
      forall t, z :: HasTarget(r.value, t) && HasTarget(r'.value, t) && lat.contains(z) && AboveAllSent(lat, r'.value, t, z) ==>
                       AboveAllSent(lat, r.value, t, z)
  }

  ghost predicate MonotoneTransformers<S(!new)>(a: Analysis<S>, lat: Lattice<S>) {
    && (forall x, y, l {:trigger lat.le(a.statementEffect(x, l), a.statementEffect(y, l))} ::
          lat.contains(x) && lat.contains(y) && a.body.IsStatement(l) && lat.le(x, y) ==>
            lat.le(a.statementEffect(x, l), a.statementEffect(y, l)))
    && (forall x, y, l {:trigger SendsLess(lat, a.terminatorEffect(x, l), a.terminatorEffect(y, l))} ::
          lat.contains(x) && lat.contains(y) && a.body.IsTerminator(l) && lat.le(x, y) ==>
            SendsLess(lat, a.terminatorEffect(x, l), a.terminatorEffect(y, l)))
  }

  ghost predicate Laws<S(!new)>(a: Analysis<S>, lat: Lattice<S>) {
    && JoinLaws(a, lat)
    && BottomIsLeast(lat, a.bottom)
    && ClosedTransformers(a, lat)
    && MonotoneTransformers(a, lat)
  }

  // ----- the state on an edge is a least upper bound -----

  ghost predicate AllInside<S>(lat: Lattice<S>, states: seq<S>) {
    forall k :: 0 <= k < |states| ==> lat.contains(states[k])
  }

  lemma {:induction false} JoinAllIsUpperBound<S(!new)>(a: Analysis<S>, lat: Lattice<S>, states: seq<S>)
    requires JoinLaws(a, lat) && states != [] && AllInside(lat, states)
    ensures lat.contains(JoinAll(a, states))
    ensures forall k :: 0 <= k < |states| ==> lat.le(states[k], JoinAll(a, states))
  {
    var n := |states| - 1;
    if n > 0 {
      var front := states[..n];
      JoinAllIsUpperBound(a, lat, front);
      assert lat.le(JoinAll(a, front), JoinAll(a, states)) && lat.le(states[n], JoinAll(a, states));
      forall k | 0 <= k < |states| ensures lat.le(states[k], JoinAll(a, states)) {
        if k < n { assert lat.le(front[k], JoinAll(a, front)); }
      }
    }
  }

  lemma {:induction false} JoinAllIsLeast<S(!new)>(a: Analysis<S>, lat: Lattice<S>, states: seq<S>, z: S)
    requires JoinLaws(a, lat) && states != [] && AllInside(lat, states) && lat.contains(z)
    requires forall k :: 0 <= k < |states| ==> lat.le(states[k], z)
    ensures lat.le(JoinAll(a, states), z)
  {
    var n := |states| - 1;
    if n > 0 {
      JoinAllIsLeast(a, lat, states[..n], z);
      JoinAllIsUpperBound(a, lat, states[..n]);
    }
  }

  lemma SentStatesInside<S>(lat: Lattice<S>, nexts: seq<(BasicBlock, S)>, t: BasicBlock)
    requires StatesInside(lat, Ok(nexts))
    ensures AllInside(lat, StatesFor(nexts, t))
  {
    StatesForMembers(nexts, t);
    forall k | 0 <= k < |StatesFor(nexts, t)| ensures lat.contains(StatesFor(nexts, t)[k]) {
      assert Sends(nexts, t, StatesFor(nexts, t)[k]);
    }
  }

  /** What the states sent to `t` join to is above each of them. */
  lemma MergedIsUpperBound<S(!new)>(a: Analysis<S>, lat: Lattice<S>, nexts: seq<(BasicBlock, S)>, t: BasicBlock)
    requires JoinLaws(a, lat) && StatesInside(lat, Ok(nexts)) && HasTarget(nexts, t)
    ensures lat.contains(JoinAll(a, StatesFor(nexts, t)))
    ensures AboveAllSent(lat, nexts, t, JoinAll(a, StatesFor(nexts, t)))
  {
    var states := StatesFor(nexts, t);
    SentStatesInside(lat, nexts, t);
    JoinAllIsUpperBound(a, lat, states);
    StatesForMembers(nexts, t);
    forall k | 0 <= k < |nexts| && nexts[k].0 == t ensures lat.le(nexts[k].1, JoinAll(a, states)) {
      var j :| 0 <= j < |states| && states[j] == nexts[k].1;
    }
  }

  /** And it is below everything that is above all of them. */
  lemma MergedIsLeast<S(!new)>(a: Analysis<S>, lat: Lattice<S>, nexts: seq<(BasicBlock, S)>, t: BasicBlock, z: S)
    requires JoinLaws(a, lat) && StatesInside(lat, Ok(nexts)) && HasTarget(nexts, t)
    requires lat.contains(z) && AboveAllSent(lat, nexts, t, z)
    ensures lat.le(JoinAll(a, StatesFor(nexts, t)), z)
  {
    var states := StatesFor(nexts, t);
    SentStatesInside(lat, nexts, t);
    StatesForMembers(nexts, t);
    forall k | 0 <= k < |states| ensures lat.le(states[k], z) {
      assert Sends(nexts, t, states[k]);
    }
    JoinAllIsLeast(a, lat, states, z);
  }

  /** The state that the loop over the outgoing states leaves for `t` is their least upper bound. */
  lemma MergedStateIsLeastUpperBound<S(!new)>(a: Analysis<S>, lat: Lattice<S>, nexts: seq<(BasicBlock, S)>, t: BasicBlock)
    requires JoinLaws(a, lat) && StatesInside(lat, Ok(nexts)) && HasTarget(nexts, t)
    ensures t in Merge(a, nexts)
    ensures forall k :: 0 <= k < |nexts| && nexts[k].0 == t ==> lat.le(nexts[k].1, Merge(a, nexts)[t])
    ensures forall z :: lat.contains(z) && AboveAllSent(lat, nexts, t, z) ==> lat.le(Merge(a, nexts)[t], z)
  {
    MergedTargets(a, nexts, t);
    MergedIsUpperBound(a, lat, nexts, t);
    forall z | lat.contains(z) && AboveAllSent(lat, nexts, t, z) ensures lat.le(Merge(a, nexts)[t], z) {
      MergedIsLeast(a, lat, nexts, t, z);
    }
  }

  // ----- reachable states stay inside the lattice -----

  ghost predicate EdgesInside<S>(lat: Lattice<S>, after: map<BasicBlock, map<BasicBlock, S>>) {
    forall b, s :: b in after && s in after[b] ==> lat.contains(after[b][s])
  }

  ghost predicate Inside<S>(lat: Lattice<S>, st: States<S>) {
    (forall l :: l in st.before ==> lat.contains(st.before[l])) && EdgesInside(lat, st.after)
  }

  lemma {:induction false} EntryInside<S(!new)>(a: Analysis<S>, lat: Lattice<S>, after: map<BasicBlock, map<BasicBlock, S>>,
                                                b: BasicBlock, n: nat)
    requires b < |a.body.predecessors| && n <= |a.body.predecessors[b]|
    requires JoinLaws(a, lat) && EdgesInside(lat, after)
    ensures lat.contains(Entry(a, after, b, n))
  {
    if n > 0 { EntryInside(a, lat, after, b, n - 1); }
  }

  lemma {:induction false} StateAtInside<S(!new)>(a: Analysis<S>, lat: Lattice<S>, x: S, b: BasicBlock, i: nat)
    requires ClosedTransformers(a, lat) && lat.contains(x) && a.body.IsBlock(b) && i <= a.body.blocks[b].statements
    ensures lat.contains(StateAt(a, x, b, i))
  {
    if i > 0 { StateAtInside(a, lat, x, b, i - 1); }
  }

  lemma BlockBeforeInside<S(!new)>(a: Analysis<S>, lat: Lattice<S>, entry: S, b: BasicBlock, l: Location)
    requires ClosedTransformers(a, lat) && lat.contains(entry) && a.body.IsBlock(b)
    requires l in BlockBefore(a, entry, b, a.body.blocks[b].statements + 1)
    ensures lat.contains(BlockBefore(a, entry, b, a.body.blocks[b].statements + 1)[l])
  {
    var n := a.body.blocks[b].statements;
    BlockBeforeKeys(a, entry, b, n + 1);
    BlockBeforeAt(a, entry, b, n + 1, l.statementIndex);
    StateAtInside(a, lat, entry, b, l.statementIndex);
  }

  lemma MergedInside<S(!new)>(a: Analysis<S>, lat: Lattice<S>, exit: S, b: BasicBlock, merged: map<BasicBlock, S>)
    requires JoinLaws(a, lat) && ClosedTransformers(a, lat) && lat.contains(exit) && a.body.IsBlock(b)
    requires TerminatorStates(a, exit, b) == Ok(merged)
    ensures forall t :: t in merged ==> lat.contains(merged[t])
  {
    var l := a.body.TerminatorLocation(b);
    assert StatesInside(lat, a.terminatorEffect(exit, l));
    forall t | t in merged ensures lat.contains(merged[t]) {
      var nexts := a.terminatorEffect(exit, l).value;
      MergedTargets(a, nexts, t);
      MergedIsUpperBound(a, lat, nexts, t);
    }
  }

  lemma VisitStaysInside<S(!new)>(a: Analysis<S>, lat: Lattice<S>, snap: Snapshot<S>, b: BasicBlock, next: Snapshot<S>)
    requires Laws(a, lat) && a.body.IsBlock(b) && Inside(lat, snap.states) && Visit(a, snap, b) == Next(next)
    ensures Inside(lat, next.states)
  {
    var entry, merged := VisitCommits(a, snap, b);
    var stored := BlockBefore(a, entry, b, a.body.blocks[b].statements + 1);
    EntryInside(a, lat, snap.states.after, b, |a.body.predecessors[b]|);
    StateAtInside(a, lat, entry, b, a.body.blocks[b].statements);
    MergedInside(a, lat, ExitState(a, entry, b), b, merged);
    forall l | l in next.states.before ensures lat.contains(next.states.before[l]) {
      if l in stored { BlockBeforeInside(a, lat, entry, b, l); }
    }
  }

  /** Along every run, finished or not, whatever is stored belongs to the lattice. */
  lemma {:induction false} RunStaysInside<S(!new)>(a: Analysis<S>, lat: Lattice<S>, picks: seq<BasicBlock>,
                                                   snap: Snapshot<S>)
    requires Laws(a, lat) && Reaches(a, picks, snap)
    ensures Inside(lat, snap.states)
    decreases |picks|
  {
    if picks == [] {
      EmptyRun(a, snap);
    } else {
      var before, prev, b := LastVisit(a, picks, snap);
      RunStaysInside(a, lat, before, prev);
      VisitStaysInside(a, lat, prev, b, snap);
    }
  }

  // ----- the entry state is a least upper bound -----

  lemma {:induction false} EntryIsUpperBound<S(!new)>(a: Analysis<S>, lat: Lattice<S>,
                                                      after: map<BasicBlock, map<BasicBlock, S>>,
                                                      b: BasicBlock, n: nat)
    requires b < |a.body.predecessors| && n <= |a.body.predecessors[b]|
    requires JoinLaws(a, lat) && EdgesInside(lat, after)
    ensures lat.le(Start(a, b), Entry(a, after, b, n))
    ensures forall i :: 0 <= i < n && Incoming(a, after, b, i).Some? ==>
                          lat.le(Incoming(a, after, b, i).value, Entry(a, after, b, n))
  {
    if n > 0 {
      EntryIsUpperBound(a, lat, after, b, n - 1);
      EntryInside(a, lat, after, b, n - 1);
      EntryInside(a, lat, after, b, n);
      assert lat.le(Entry(a, after, b, n - 1), Entry(a, after, b, n));
    }
  }

  lemma {:induction false} EntryIsLeast<S(!new)>(a: Analysis<S>, lat: Lattice<S>, after: map<BasicBlock, map<BasicBlock, S>>,
                                                 b: BasicBlock, n: nat, z: S)
    requires b < |a.body.predecessors| && n <= |a.body.predecessors[b]|
    requires JoinLaws(a, lat) && EdgesInside(lat, after) && lat.contains(z)
    requires lat.le(Start(a, b), z)
    requires forall i :: 0 <= i < n && Incoming(a, after, b, i).Some? ==> lat.le(Incoming(a, after, b, i).value, z)
    ensures lat.le(Entry(a, after, b, n), z)
  {
    if n > 0 {
      EntryIsLeast(a, lat, after, b, n - 1, z);
      EntryInside(a, lat, after, b, n - 1);
    }
  }

  lemma {:induction false} StateAtMonotone<S(!new)>(a: Analysis<S>, lat: Lattice<S>, x: S, y: S, b: BasicBlock, i: nat)
    requires ClosedTransformers(a, lat) && MonotoneTransformers(a, lat) && lat.contains(x) && lat.contains(y) && lat.le(x, y)
    requires a.body.IsBlock(b) && i <= a.body.blocks[b].statements
    ensures lat.le(StateAt(a, x, b, i), StateAt(a, y, b, i))
  {
    if i > 0 {
      StateAtMonotone(a, lat, x, y, b, i - 1);
      StateAtInside(a, lat, x, b, i - 1);
      StateAtInside(a, lat, y, b, i - 1);
    }
  }

  // ----- leastness -----

  ghost predicate StatementBound<S>(a: Analysis<S>, lat: Lattice<S>, p: States<S>, b: BasicBlock, i: nat) {
    && Location(b, i) in p.before
    && Location(b, i + 1) in p.before
    && lat.le(a.statementEffect(p.before[Location(b, i)], Location(b, i)), p.before[Location(b, i + 1)])
  }

  ghost predicate EdgeBound<S>(lat: Lattice<S>, p: States<S>, b: BasicBlock, s: BasicBlock, x: S) {
    b in p.after && s in p.after[b] && lat.le(x, p.after[b][s])
  }

  /** The state that `p` has on an edge is above all states that `nexts` sends along it. */
  ghost predicate SentBound<S>(lat: Lattice<S>, p: States<S>, b: BasicBlock, s: BasicBlock, nexts: seq<(BasicBlock, S)>) {
    b in p.after && s in p.after[b] && AboveAllSent(lat, nexts, s, p.after[b][s])
  }

  ghost predicate BlockBound<S>(a: Analysis<S>, lat: Lattice<S>, p: States<S>, b: BasicBlock)
    requires a.body.WellFormed() && a.body.IsBlock(b)
  {
    var n := a.body.blocks[b].statements;
    && (forall i: nat :: i <= n ==> Location(b, i) in p.before)
    && lat.le(Start(a, b), p.before[Location(b, 0)])
    && (forall i: nat :: i < n ==> StatementBound(a, lat, p, b, i))
    && (forall q :: q in a.body.predecessors[b] ==>
          q in p.after && b in p.after[q] && lat.le(p.after[q][b], p.before[Location(b, 0)]))
    && var effect := a.terminatorEffect(p.before[Location(b, n)], a.body.TerminatorLocation(b));
    && effect.Ok?
    && forall s :: s in a.body.blocks[b].successors ==> HasTarget(effect.value, s) && SentBound(lat, p, b, s, effect.value)
  }

  /** `p` has elements of the lattice and over-approximates one application of every equation. */
  ghost predicate PostFixpoint<S>(a: Analysis<S>, lat: Lattice<S>, p: States<S>)
    requires a.body.WellFormed()
  {
    Inside(lat, p) && forall b: BasicBlock :: a.body.IsBlock(b) ==> BlockBound(a, lat, p, b)
  }

  /** Everything stored in `st` is below what `p` has at the same place. */
  ghost predicate Below<S>(lat: Lattice<S>, st: States<S>, p: States<S>) {
    && (forall l :: l in st.before ==> l in p.before && lat.le(st.before[l], p.before[l]))
    && (forall b, s :: b in st.after && s in st.after[b] ==> EdgeBound(lat, p, b, s, st.after[b][s]))
  }

  lemma {:induction false} BlockStatesBelow<S(!new)>(a: Analysis<S>, lat: Lattice<S>, p: States<S>, entry: S,
                                                     b: BasicBlock, i: nat)
    requires Laws(a, lat) && PostFixpoint(a, lat, p) && a.body.IsBlock(b)
    requires i <= a.body.blocks[b].statements
    requires lat.contains(entry) && Location(b, 0) in p.before && lat.le(entry, p.before[Location(b, 0)])
    ensures Location(b, i) in p.before && lat.le(StateAt(a, entry, b, i), p.before[Location(b, i)])
  {
    if i > 0 {
      BlockStatesBelow(a, lat, p, entry, b, i - 1);
      StateAtInside(a, lat, entry, b, i - 1);
      StateAtInside(a, lat, entry, b, i);
      assert BlockBound(a, lat, p, b) && StatementBound(a, lat, p, b, i - 1);
      var l := Location(b, i - 1);
      assert lat.le(a.statementEffect(StateAt(a, entry, b, i - 1), l), a.statementEffect(p.before[l], l));
    }
  }

  lemma EntryBelow<S(!new)>(a: Analysis<S>, lat: Lattice<S>, st: States<S>, p: States<S>, b: BasicBlock)
    requires Laws(a, lat) && PostFixpoint(a, lat, p) && a.body.IsBlock(b)
    requires Inside(lat, st) && Below(lat, st, p)
    ensures lat.contains(EntryState(a, st.after, b))
    ensures Location(b, 0) in p.before && lat.le(EntryState(a, st.after, b), p.before[Location(b, 0)])
  {
    assert BlockBound(a, lat, p, b);
    forall i | 0 <= i < |a.body.predecessors[b]| && Incoming(a, st.after, b, i).Some?
      ensures lat.le(Incoming(a, st.after, b, i).value, p.before[Location(b, 0)])
    {
      var q := a.body.predecessors[b][i];
      assert q in a.body.predecessors[b];
      assert EdgeBound(lat, p, q, b, st.after[q][b]);
    }
    EntryInside(a, lat, st.after, b, |a.body.predecessors[b]|);
    EntryIsLeast(a, lat, st.after, b, |a.body.predecessors[b]|, p.before[Location(b, 0)]);
  }

  lemma MergedEdgesBelow<S(!new)>(a: Analysis<S>, lat: Lattice<S>, p: States<S>, b: BasicBlock, entry: S,
                                  merged: map<BasicBlock, S>, s: BasicBlock)
    requires Laws(a, lat) && PostFixpoint(a, lat, p) && a.body.IsBlock(b)
    requires lat.contains(entry) && Location(b, 0) in p.before && lat.le(entry, p.before[Location(b, 0)])
    requires TerminatorStates(a, ExitState(a, entry, b), b) == Ok(merged)
    requires s in a.body.blocks[b].successors && s in merged
    ensures EdgeBound(lat, p, b, s, merged[s])
  {
    var n := a.body.blocks[b].statements;
    assert BlockBound(a, lat, p, b);
    BlockStatesBelow(a, lat, p, entry, b, n);
    StateAtInside(a, lat, entry, b, n);
    var l := a.body.TerminatorLocation(b);
    var nexts, nexts' := a.terminatorEffect(ExitState(a, entry, b), l).value, a.terminatorEffect(p.before[l], l).value;
    MergedTargets(a, nexts, s);
    assert StatesInside(lat, a.terminatorEffect(ExitState(a, entry, b), l));
    assert SentBound(lat, p, b, s, nexts');
    assert SendsLess(lat, Ok(nexts), Ok(nexts'));
    MergedIsLeast(a, lat, nexts, s, p.after[b][s]);
  }

  lemma StoredStateBelow<S(!new)>(a: Analysis<S>, lat: Lattice<S>, snap: Snapshot<S>, p: States<S>, b: BasicBlock,
                                  entry: S, l: Location)
    requires Laws(a, lat) && PostFixpoint(a, lat, p) && a.body.IsBlock(b)
    requires lat.contains(entry) && Location(b, 0) in p.before && lat.le(entry, p.before[Location(b, 0)])
    requires l in BlockBefore(a, entry, b, a.body.blocks[b].statements + 1)
    ensures l in p.before && lat.le(BlockBefore(a, entry, b, a.body.blocks[b].statements + 1)[l], p.before[l])
  {
    var n := a.body.blocks[b].statements + 1;
    BlockBeforeKeys(a, entry, b, n);
    BlockBeforeAt(a, entry, b, n, l.statementIndex);
    BlockStatesBelow(a, lat, p, entry, b, l.statementIndex);
  }

  lemma VisitStaysBelow<S(!new)>(a: Analysis<S>, lat: Lattice<S>, snap: Snapshot<S>, p: States<S>, b: BasicBlock,
                                 next: Snapshot<S>)
    requires Laws(a, lat) && PostFixpoint(a, lat, p) && a.body.IsBlock(b)
    requires Inside(lat, snap.states) && Below(lat, snap.states, p) && Visit(a, snap, b) == Next(next)
    ensures Below(lat, next.states, p)
  {
    var entry, merged := VisitCommits(a, snap, b);
    var stored := BlockBefore(a, entry, b, a.body.blocks[b].statements + 1);
    var st' := next.states;
    EntryBelow(a, lat, snap.states, p, b);
    forall l | l in st'.before ensures l in p.before && lat.le(st'.before[l], p.before[l]) {
      if l in stored {
        StoredStateBelow(a, lat, snap, p, b, entry, l);
      }
    }
    forall c, s | c in st'.after && s in st'.after[c] ensures EdgeBound(lat, p, c, s, st'.after[c][s]) {
      if c == b && s in a.body.blocks[b].successors {
        MergedEdgesBelow(a, lat, p, b, entry, merged, s);
      } else {
        assert EdgeBound(lat, p, c, s, snap.states.after[c][s]);
      }
    }
  }

  /** Along every run, finished or not, whatever is stored stays below every post-fixpoint. */
  lemma {:induction false} RunStaysBelow<S(!new)>(a: Analysis<S>, lat: Lattice<S>, picks: seq<BasicBlock>,
                                                  snap: Snapshot<S>, p: States<S>)
    requires Laws(a, lat) && Reaches(a, picks, snap) && PostFixpoint(a, lat, p)
    ensures Below(lat, snap.states, p)
    decreases |picks|
  {
    if picks == [] {
      EmptyRun(a, snap);
    } else {
      var before, prev, b := LastVisit(a, picks, snap);
      RunStaysBelow(a, lat, before, prev, p);
      RunStaysInside(a, lat, before, prev);
      VisitStaysBelow(a, lat, prev, p, b, snap);
    }
  }

  lemma IncomingEdgesBelowEntry<S(!new)>(a: Analysis<S>, lat: Lattice<S>, st: States<S>, b: BasicBlock, q: BasicBlock)
    requires JoinLaws(a, lat) && EdgesInside(lat, st.after)
    requires a.body.IsBlock(b) && q in a.body.predecessors[b] && a.body.IsBlock(q) && Consistent(a, st, q)
    ensures b in st.after[q] && lat.le(st.after[q][b], EntryState(a, st.after, b))
  {
    var i :| 0 <= i < |a.body.predecessors[b]| && a.body.predecessors[b][i] == q;
    EntryIsUpperBound(a, lat, st.after, b, |a.body.predecessors[b]|);
    assert Incoming(a, st.after, b, i) == Some(st.after[q][b]);
  }

  lemma SolvedEdgesAreBound<S(!new)>(a: Analysis<S>, lat: Lattice<S>, st: States<S>, b: BasicBlock)
    requires JoinLaws(a, lat) && ClosedTransformers(a, lat) && a.body.IsBlock(b) && Consistent(a, st, b)
    requires lat.contains(st.before[a.body.TerminatorLocation(b)])
    ensures var l := a.body.TerminatorLocation(b);
            var effect := a.terminatorEffect(st.before[l], l);
            forall s :: s in a.body.blocks[b].successors ==> SentBound(lat, st, b, s, effect.value)
  {
    var l := a.body.TerminatorLocation(b);
    var nexts := a.terminatorEffect(st.before[l], l).value;
    assert StatesInside(lat, a.terminatorEffect(st.before[l], l));
    forall s | s in a.body.blocks[b].successors ensures SentBound(lat, st, b, s, nexts) {
      assert EdgeEquation(a, nexts, s, st.after[b][s]);
      MergedIsUpperBound(a, lat, nexts, s);
    }
  }

  lemma SolvedBlockIsBound<S(!new)>(a: Analysis<S>, lat: Lattice<S>, st: States<S>, b: BasicBlock)
    requires a.body.WellFormed() && a.body.IsBlock(b) && Consistent(a, st, b) && EntrySettled(a, st, b)
    requires Inside(lat, st) && JoinLaws(a, lat) && ClosedTransformers(a, lat)
    requires lat.le(Start(a, b), EntryState(a, st.after, b))
    requires forall q :: q in a.body.predecessors[b] ==>
               q in st.after && b in st.after[q] && lat.le(st.after[q][b], EntryState(a, st.after, b))
    ensures BlockBound(a, lat, st, b)
  {
    forall i: nat | i < a.body.blocks[b].statements ensures StatementBound(a, lat, st, b, i) {
      assert StatementEquation(a, st, b, i);
    }
    SolvedEdgesAreBound(a, lat, st, b);
  }

  lemma SolvedEntryIsUpperBound<S(!new)>(a: Analysis<S>, lat: Lattice<S>, st: States<S>, b: BasicBlock)
    requires JoinLaws(a, lat) && EdgesInside(lat, st.after) && Solution(a, st) && a.body.IsBlock(b)
    ensures lat.le(Start(a, b), EntryState(a, st.after, b))
    ensures forall q :: q in a.body.predecessors[b] ==>
               q in st.after && b in st.after[q] && lat.le(st.after[q][b], EntryState(a, st.after, b))
  {
    forall q | q in a.body.predecessors[b]
      ensures q in st.after && b in st.after[q] && lat.le(st.after[q][b], EntryState(a, st.after, b))
    {
      assert a.body.IsEdge(q, b);
      assert a.body.IsBlock(q) && Consistent(a, st, q);
      IncomingEdgesBelowEntry(a, lat, st, b, q);
    }
    EntryIsUpperBound(a, lat, st.after, b, |a.body.predecessors[b]|);
  }

  lemma SolutionIsPostFixpoint<S(!new)>(a: Analysis<S>, lat: Lattice<S>, st: States<S>)
    requires JoinLaws(a, lat) && ClosedTransformers(a, lat) && Inside(lat, st) && Solution(a, st)
    ensures PostFixpoint(a, lat, st)
  {
    forall b: BasicBlock | a.body.IsBlock(b) ensures BlockBound(a, lat, st, b) {
      SolvedEntryIsUpperBound(a, lat, st, b);
      SolvedBlockIsBound(a, lat, st, b);
    }
  }

  /** A run that empties its work set computes the least post-fixpoint. */
  lemma CompleteRunIsLeast<S(!new)>(a: Analysis<S>, lat: Lattice<S>, picks: seq<BasicBlock>, snap: Snapshot<S>)
    requires Laws(a, lat) && Reaches(a, picks, snap) && snap.work == {}
    ensures PostFixpoint(a, lat, snap.states)
    ensures forall p :: PostFixpoint(a, lat, p) ==> Below(lat, snap.states, p)
  {
    CompleteRunSolvesEquations(a, picks, snap);
    RunStaysInside(a, lat, picks, snap);
    SolutionIsPostFixpoint(a, lat, snap.states);
    forall p | PostFixpoint(a, lat, p) ensures Below(lat, snap.states, p) {
      RunStaysBelow(a, lat, picks, snap, p);
    }
  }

  lemma MutuallyBelowStatesAgree<S(!new)>(lat: Lattice<S>, st: States<S>, st': States<S>)
    requires PartialOrder(lat) && Inside(lat, st) && Inside(lat, st')
    requires Below(lat, st, st') && Below(lat, st', st)
    requires st.after.Keys == st'.after.Keys
    ensures st == st'
  {
    assert st.before.Keys == st'.before.Keys;
    assert st.before == st'.before;
    forall b | b in st.after ensures st.after[b] == st'.after[b] {
      forall s | s in st.after[b] ensures s in st'.after[b] && st.after[b][s] == st'.after[b][s] {
        assert EdgeBound(lat, st', b, s, st.after[b][s]);
        assert EdgeBound(lat, st, b, s, st'.after[b][s]);
      }
      forall s | s in st'.after[b] ensures s in st.after[b] {
        assert EdgeBound(lat, st, b, s, st'.after[b][s]);
      }
      assert st.after[b].Keys == st'.after[b].Keys;
    }
    assert st.after == st'.after;
  }

  /** The answer does not depend on the order in which blocks are picked. */
  lemma CompleteRunsAgree<S(!new)>(a: Analysis<S>, lat: Lattice<S>, picks: seq<BasicBlock>, snap: Snapshot<S>,
                                   picks': seq<BasicBlock>, snap': Snapshot<S>)
    requires Laws(a, lat)
    requires Reaches(a, picks, snap) && snap.work == {}
    requires Reaches(a, picks', snap') && snap'.work == {}
    ensures snap.states == snap'.states
  {
    CompleteRunSolvesEquations(a, picks, snap);
    CompleteRunSolvesEquations(a, picks', snap');
    RunStaysInside(a, lat, picks, snap);
    RunStaysInside(a, lat, picks', snap');
    SolutionIsPostFixpoint(a, lat, snap.states);
    SolutionIsPostFixpoint(a, lat, snap'.states);
    RunStaysBelow(a, lat, picks, snap, snap'.states);
    RunStaysBelow(a, lat, picks', snap', snap.states);
    MutuallyBelowStatesAgree(lat, snap.states, snap'.states);
  }

  // ----- errors -----

  /** The terminator of `b` can be left from `exit` without an error or a failing debug assertion. */
  ghost predicate TerminatorAccepted<S>(a: Analysis<S>, exit: S, b: BasicBlock)
    requires a.body.IsBlock(b)
  {
    var effect := a.terminatorEffect(exit, a.body.TerminatorLocation(b));
    && effect.Ok?
    && (forall s :: s in a.body.blocks[b].successors ==> HasTarget(effect.value, s))
    && (a.debugAssertions ==> forall t :: HasTarget(effect.value, t) ==> t in a.body.blocks[b].successors)
  }

  /** A larger abstract state is never accepted where a smaller one is rejected. */
  ghost predicate RejectionIsUpwardClosed<S(!new)>(a: Analysis<S>, lat: Lattice<S>) {
    forall x, y, b {:trigger TerminatorAccepted(a, y, b), TerminatorAccepted(a, x, b)} ::
      lat.contains(x) && lat.contains(y) && a.body.IsBlock(b) && lat.le(x, y) && TerminatorAccepted(a, y, b) ==>
        TerminatorAccepted(a, x, b)
  }

  lemma SolvedTerminatorAccepted<S>(a: Analysis<S>, st: States<S>, b: BasicBlock)
    requires a.body.IsBlock(b) && Consistent(a, st, b)
    ensures TerminatorAccepted(a, st.before[a.body.TerminatorLocation(b)], b)
  {
    var effect := a.terminatorEffect(st.before[a.body.TerminatorLocation(b)], a.body.TerminatorLocation(b));
    forall s | s in a.body.blocks[b].successors ensures HasTarget(effect.value, s) {
      assert EdgeEquation(a, effect.value, s, st.after[b][s]);
    }
  }

  lemma AcceptedVisitGoesThrough<S>(a: Analysis<S>, snap: Snapshot<S>, b: BasicBlock)
    requires a.body.WellFormed() && a.body.IsBlock(b)
    requires TerminatorAccepted(a, ExitState(a, EntryState(a, snap.states.after, b), b), b)
    ensures Visit(a, snap, b).Next?
  {
    var exit := ExitState(a, EntryState(a, snap.states.after, b), b);
    var merged := TerminatorStates(a, exit, b).value;
    MergedEdgeEquations(a, exit, b, merged);
    FirstMissingSpec(a.body.blocks[b].successors, merged);
  }

  /** Where the states stored so far are below a solution, the exit state of a visit is as well. */
  lemma ExitBelowSolution<S(!new)>(a: Analysis<S>, lat: Lattice<S>, st: States<S>, p: States<S>, b: BasicBlock)
    requires Laws(a, lat) && PostFixpoint(a, lat, p) && a.body.IsBlock(b) && Inside(lat, st) && Below(lat, st, p)
    ensures var exit := ExitState(a, EntryState(a, st.after, b), b);
            var l := a.body.TerminatorLocation(b);
            lat.contains(exit) && l in p.before && lat.contains(p.before[l]) && lat.le(exit, p.before[l])
  {
    var n := a.body.blocks[b].statements;
    var entry := EntryState(a, st.after, b);
    EntryBelow(a, lat, st, p, b);
    BlockStatesBelow(a, lat, p, entry, b, n);
    StateAtInside(a, lat, entry, b, n);
  }

  /** If one visiting order succeeds then no other order can run into an error. */
  lemma CompleteRunRulesOutErrors<S(!new)>(a: Analysis<S>, lat: Lattice<S>, picks: seq<BasicBlock>, snap: Snapshot<S>,
                                           picks': seq<BasicBlock>, snap': Snapshot<S>, b: BasicBlock)
    requires Laws(a, lat) && RejectionIsUpwardClosed(a, lat)
    requires Reaches(a, picks, snap) && snap.work == {}
    requires Reaches(a, picks', snap') && b in snap'.work
    ensures a.body.IsBlock(b) && Visit(a, snap', b).Next?
  {
    InvariantOfEveryRun(a, picks', snap');
    CompleteRunSolvesEquations(a, picks, snap);
    CompleteRunIsLeast(a, lat, picks, snap);
    RunStaysInside(a, lat, picks', snap');
    RunStaysBelow(a, lat, picks', snap', snap.states);
    ExitBelowSolution(a, lat, snap'.states, snap.states, b);
    SolvedTerminatorAccepted(a, snap.states, b);
    AcceptedVisitGoesThrough(a, snap', b);
  }

  // ----- edge states only rise -----

  ghost predicate Rising<S>(a: Analysis<S>, lat: Lattice<S>, st: States<S>)
    requires a.body.WellFormed()
  {
    forall b :: b in st.after && a.body.IsBlock(b) && Location(b, 0) in st.before ==>
                  lat.le(st.before[Location(b, 0)], EntryState(a, st.after, b))
  }

  /** Every edge with a state in `st` has one at least as large in `st'`. */
  ghost predicate EdgesRose<S>(lat: Lattice<S>, st: States<S>, st': States<S>) {
    forall b, s :: b in st.after && s in st.after[b] ==> EdgeBound(lat, st', b, s, st.after[b][s])
  }

  lemma {:induction false} ConsistentStates<S>(a: Analysis<S>, st: States<S>, b: BasicBlock, i: nat)
    requires a.body.IsBlock(b) && Consistent(a, st, b) && i <= a.body.blocks[b].statements
    ensures Location(b, i) in st.before && Location(b, 0) in st.before
    ensures st.before[Location(b, i)] == StateAt(a, st.before[Location(b, 0)], b, i)
  {
    if i > 0 {
      ConsistentStates(a, st, b, i - 1);
      assert StatementEquation(a, st, b, i - 1);
    }
  }

  lemma MergedMonotone<S(!new)>(a: Analysis<S>, lat: Lattice<S>, x: S, y: S, b: BasicBlock, s: BasicBlock)
    requires Laws(a, lat) && a.body.IsBlock(b) && lat.contains(x) && lat.contains(y) && lat.le(x, y)
    requires var l := a.body.TerminatorLocation(b);
             && a.terminatorEffect(x, l).Ok? && HasTarget(a.terminatorEffect(x, l).value, s)
             && a.terminatorEffect(y, l).Ok? && HasTarget(a.terminatorEffect(y, l).value, s)
    ensures var l := a.body.TerminatorLocation(b);
            lat.le(JoinAll(a, StatesFor(a.terminatorEffect(x, l).value, s)),
                   JoinAll(a, StatesFor(a.terminatorEffect(y, l).value, s)))
  {
    var l := a.body.TerminatorLocation(b);
    var r, r' := a.terminatorEffect(x, l), a.terminatorEffect(y, l);
    assert StatesInside(lat, r) && StatesInside(lat, r') && SendsLess(lat, r, r');
    MergedIsUpperBound(a, lat, r'.value, s);
    MergedIsLeast(a, lat, r.value, s, JoinAll(a, StatesFor(r'.value, s)));
  }

  /** The edge states of a visited block only rise, because its entry state has. */
  lemma RevisitRaisesEdge<S(!new)>(a: Analysis<S>, lat: Lattice<S>, st: States<S>, b: BasicBlock, s: BasicBlock,
                                   entry: S, merged: map<BasicBlock, S>)
    requires Laws(a, lat) && a.body.IsBlock(b) && Inside(lat, st) && Consistent(a, st, b)
    requires lat.contains(entry) && lat.le(st.before[Location(b, 0)], entry)
    requires TerminatorStates(a, ExitState(a, entry, b), b) == Ok(merged)
    requires s in a.body.blocks[b].successors && s in merged
    ensures s in st.after[b] && lat.le(st.after[b][s], merged[s])
  {
    var n := a.body.blocks[b].statements;
    ConsistentStates(a, st, b, n);
    StateAtMonotone(a, lat, st.before[Location(b, 0)], entry, b, n);
    StateAtInside(a, lat, entry, b, n);
    assert EdgeEquation(a, a.terminatorEffect(st.before[Location(b, n)], Location(b, n)).value, s, st.after[b][s]);
    MergedMonotone(a, lat, st.before[Location(b, n)], ExitState(a, entry, b), b, s);
  }

  lemma RoseFromBlock<S(!new)>(lat: Lattice<S>, st: States<S>, st': States<S>, b: BasicBlock)
    requires PartialOrder(lat) && EdgesInside(lat, st.after)
    requires forall c :: c in st.after && c != b ==> c in st'.after && st'.after[c] == st.after[c]
    requires b in st.after ==> forall s :: s in st.after[b] ==> EdgeBound(lat, st', b, s, st.after[b][s])
    ensures EdgesRose(lat, st, st')
  {
  }

  lemma RevisitRaisesEdges<S(!new)>(a: Analysis<S>, lat: Lattice<S>, st: States<S>, b: BasicBlock, entry: S,
                                    merged: map<BasicBlock, S>)
    requires Laws(a, lat) && a.body.IsBlock(b) && Inside(lat, st) && b in st.after && Consistent(a, st, b)
    requires Rising(a, lat, st) && entry == EntryState(a, st.after, b)
    requires TerminatorStates(a, ExitState(a, entry, b), b) == Ok(merged)
    requires forall s :: s in a.body.blocks[b].successors ==> s in merged
    ensures forall s :: s in st.after[b] ==> s in a.body.blocks[b].successors && lat.le(st.after[b][s], merged[s])
  {
    EntryInside(a, lat, st.after, b, |a.body.predecessors[b]|);
    forall s | s in st.after[b] ensures lat.le(st.after[b][s], merged[s]) {
      RevisitRaisesEdge(a, lat, st, b, s, entry, merged);
    }
  }

  /** What a visit does to the edge states: the map of `b` is replaced where `b` has successors. */
  lemma VisitStoresEdges<S>(a: Analysis<S>, snap: Snapshot<S>, b: BasicBlock, entry: S, merged: map<BasicBlock, S>)
    requires a.body.IsBlock(b) && forall s | s in a.body.blocks[b].successors :: s in merged
    ensures var after, after' := snap.states.after, Commit(a, snap, b, entry, merged).states.after;
            && (forall c :: c in after && c != b ==> c in after' && after'[c] == after[c])
            && b in after'
            && (forall s :: s in a.body.blocks[b].successors ==> s in after'[b] && after'[b][s] == merged[s])
  {
  }

  lemma VisitRaisesEdges<S(!new)>(a: Analysis<S>, lat: Lattice<S>, snap: Snapshot<S>, b: BasicBlock, next: Snapshot<S>)
    requires Laws(a, lat) && a.body.IsBlock(b) && WorklistInvariant(a, snap)
    requires Inside(lat, snap.states) && Rising(a, lat, snap.states) && Visit(a, snap, b) == Next(next)
    ensures EdgesRose(lat, snap.states, next.states)
  {
    var entry, merged := VisitCommits(a, snap, b);
    VisitStoresEdges(a, snap, b, entry, merged);
    if b in snap.states.after {
      RevisitRaisesEdges(a, lat, snap.states, b, entry, merged);
    }
    RoseFromBlock(lat, snap.states, next.states, b);
  }

  lemma EntryRises<S(!new)>(a: Analysis<S>, lat: Lattice<S>, st: States<S>, st': States<S>, b: BasicBlock)
    requires Laws(a, lat) && a.body.IsBlock(b) && EdgesRose(lat, st, st')
    requires EdgesInside(lat, st.after) && EdgesInside(lat, st'.after)
    ensures lat.le(EntryState(a, st.after, b), EntryState(a, st'.after, b))
  {
    var n := |a.body.predecessors[b]|;
    EntryIsUpperBound(a, lat, st'.after, b, n);
    EntryInside(a, lat, st'.after, b, n);
    forall i | 0 <= i < n && Incoming(a, st.after, b, i).Some?
      ensures lat.le(Incoming(a, st.after, b, i).value, EntryState(a, st'.after, b))
    {
      var q := a.body.predecessors[b][i];
      assert EdgeBound(lat, st', q, b, st.after[q][b]);
      assert Incoming(a, st'.after, b, i).Some?;
    }
    EntryIsLeast(a, lat, st.after, b, n, EntryState(a, st'.after, b));
  }

  /** A visit of `b` stores its entry state, and no other entry state. */
  lemma VisitStoresEntry<S>(a: Analysis<S>, snap: Snapshot<S>, b: BasicBlock, next: Snapshot<S>, c: BasicBlock)
    requires a.body.WellFormed() && a.body.IsBlock(b) && Visit(a, snap, b) == Next(next)
    requires c in next.states.after && Location(c, 0) in next.states.before
    ensures c == b ==> next.states.before[Location(c, 0)] == EntryState(a, snap.states.after, b)
    ensures c != b ==> c in snap.states.after && Location(c, 0) in snap.states.before &&
                       next.states.before[Location(c, 0)] == snap.states.before[Location(c, 0)]
  {
    var entry, merged := VisitCommits(a, snap, b);
    BlockBeforeKeys(a, entry, b, a.body.blocks[b].statements + 1);
    BlockBeforeAt(a, entry, b, a.body.blocks[b].statements + 1, 0);
  }

  lemma VisitKeepsRising<S(!new)>(a: Analysis<S>, lat: Lattice<S>, snap: Snapshot<S>, b: BasicBlock, next: Snapshot<S>)
    requires Laws(a, lat) && a.body.IsBlock(b) && WorklistInvariant(a, snap)
    requires Inside(lat, snap.states) && Rising(a, lat, snap.states) && Visit(a, snap, b) == Next(next)
    ensures Rising(a, lat, next.states)
  {
    VisitRaisesEdges(a, lat, snap, b, next);
    VisitStaysInside(a, lat, snap, b, next);
    forall c | c in next.states.after && a.body.IsBlock(c) && Location(c, 0) in next.states.before
      ensures lat.le(next.states.before[Location(c, 0)], EntryState(a, next.states.after, c))
    {
      EntryRises(a, lat, snap.states, next.states, c);
      EntryInside(a, lat, snap.states.after, c, |a.body.predecessors[c]|);
      EntryInside(a, lat, next.states.after, c, |a.body.predecessors[c]|);
      VisitStoresEntry(a, snap, b, next, c);
    }
  }

  lemma {:induction false} RunIsRising<S(!new)>(a: Analysis<S>, lat: Lattice<S>, picks: seq<BasicBlock>, snap: Snapshot<S>)
    requires Laws(a, lat) && Reaches(a, picks, snap)
    ensures WorklistInvariant(a, snap) && Rising(a, lat, snap.states)
    decreases |picks|
  {
    InvariantOfEveryRun(a, picks, snap);
    if picks == [] {
      EmptyRun(a, snap);
    } else {
      var before, prev, b := LastVisit(a, picks, snap);
      RunIsRising(a, lat, before, prev);
      RunStaysInside(a, lat, before, prev);
      VisitKeepsRising(a, lat, prev, b, snap);
    }
  }

  // ----- the number of visits -----

  /** `rank` witnesses that ascending chains have at most `h + 1` elements. */
  ghost predicate FiniteHeight<S(!new)>(lat: Lattice<S>, rank: S -> nat, h: nat) {
    && (forall x :: lat.contains(x) ==> rank(x) <= h)
    && (forall x, y :: lat.contains(x) && lat.contains(y) && lat.le(x, y) && x != y ==> rank(x) < rank(y))
  }

  ghost predicate ListsEdges(body: Body, edges: seq<(BasicBlock, BasicBlock)>) {
    forall p: BasicBlock, s: BasicBlock :: body.IsEdge(p, s) ==> (p, s) in edges
  }

  /** How often the state on the edge `e` can still change. */
  ghost function Remaining<S>(st: States<S>, rank: S -> nat, h: nat, e: (BasicBlock, BasicBlock)): int {
    if e.0 in st.after && e.1 in st.after[e.0] then h - rank(st.after[e.0][e.1]) else h + 1
  }

  ghost function RemainingSum<S>(st: States<S>, rank: S -> nat, h: nat, edges: seq<(BasicBlock, BasicBlock)>, n: nat): int
    requires n <= |edges|
  {
    if n == 0 then 0 else RemainingSum(st, rank, h, edges, n - 1) + Remaining(st, rank, h, edges[n - 1])
  }

  /** Decreases with every visit. */
  ghost function Potential<S>(snap: Snapshot<S>, rank: S -> nat, h: nat, edges: seq<(BasicBlock, BasicBlock)>): int {
    |snap.work| + RemainingSum(snap.states, rank, h, edges, |edges|)
  }

  lemma {:induction false} RemainingSumBounds<S(!new)>(lat: Lattice<S>, st: States<S>, rank: S -> nat, h: nat,
                                                       edges: seq<(BasicBlock, BasicBlock)>, n: nat)
    requires n <= |edges| && FiniteHeight(lat, rank, h) && EdgesInside(lat, st.after)
    ensures 0 <= RemainingSum(st, rank, h, edges, n) <= n * (h + 1)
    ensures st.after == map[] ==> RemainingSum(st, rank, h, edges, n) == n * (h + 1)
  {
    if n > 0 {
      RemainingSumBounds(lat, st, rank, h, edges, n - 1);
      assert n * (h + 1) == (n - 1) * (h + 1) + (h + 1);
    }
  }

  /** The changed targets of `b` among the first `n` listed edges cost at least one step each. */
  lemma {:induction false} ChangesArePaid<S(!new)>(lat: Lattice<S>, rank: S -> nat, h: nat, st: States<S>, st': States<S>,
                                                   b: BasicBlock, changed: set<BasicBlock>, edges: seq<(BasicBlock, BasicBlock)>, n: nat)
    returns (paid: set<BasicBlock>)
    requires FiniteHeight(lat, rank, h) && EdgesRose(lat, st, st') && n <= |edges|
    requires EdgesInside(lat, st.after) && EdgesInside(lat, st'.after)
    requires forall s :: s in changed ==> b in st'.after && s in st'.after[b] &&
                                          !(b in st.after && s in st.after[b] && st.after[b][s] == st'.after[b][s])
    ensures paid <= changed
    ensures forall i :: 0 <= i < n && edges[i].0 == b && edges[i].1 in changed ==> edges[i].1 in paid
    ensures RemainingSum(st', rank, h, edges, n) + |paid| <= RemainingSum(st, rank, h, edges, n)
  {
    if n == 0 {
      paid := {};
    } else {
      paid := ChangesArePaid(lat, rank, h, st, st', b, changed, edges, n - 1);
      var e := edges[n - 1];
      assert e.0 in st.after && e.1 in st.after[e.0] ==> EdgeBound(lat, st', e.0, e.1, st.after[e.0][e.1]);
      if e.0 == b && e.1 in changed {
        paid := paid + {e.1};
      }
    }
  }

  /** What a visit makes due are successors whose edge state it changed. */
  lemma VisitMakesDue<S>(a: Analysis<S>, snap: Snapshot<S>, b: BasicBlock,
                         next: Snapshot<S>) returns (changed: set<BasicBlock>)
    requires a.body.WellFormed() && a.body.IsBlock(b) && Visit(a, snap, b) == Next(next)
    ensures next.work == (snap.work - {b}) + changed
    ensures forall s :: s in changed ==>
              && s in a.body.blocks[b].successors && b in next.states.after && s in next.states.after[b]
              && !(b in snap.states.after && s in snap.states.after[b] && snap.states.after[b][s] == next.states.after[b][s])
  {
    var entry, merged := VisitCommits(a, snap, b);
    changed := Changed(a.body.blocks[b].successors, EdgesOf(snap.states.after, b), merged);
  }

  lemma VisitLowersPotential<S(!new)>(a: Analysis<S>, lat: Lattice<S>, rank: S -> nat, h: nat,
                                      edges: seq<(BasicBlock, BasicBlock)>,
                                      snap: Snapshot<S>, b: BasicBlock, next: Snapshot<S>)
    requires Laws(a, lat) && FiniteHeight(lat, rank, h) && ListsEdges(a.body, edges)
    requires a.body.IsBlock(b) && b in snap.work && WorklistInvariant(a, snap)
    requires Inside(lat, snap.states) && Rising(a, lat, snap.states) && Visit(a, snap, b) == Next(next)
    ensures Potential(next, rank, h, edges) < Potential(snap, rank, h, edges)
  {
    var changed := VisitMakesDue(a, snap, b, next);
    VisitRaisesEdges(a, lat, snap, b, next);
    VisitStaysInside(a, lat, snap, b, next);
    ChangedEdgesArePaid(a, lat, rank, h, edges, snap.states, next.states, b, changed);
    CardinalityOfUnion(snap.work - {b}, changed);
  }

  lemma ChangedEdgesArePaid<S(!new)>(a: Analysis<S>, lat: Lattice<S>, rank: S -> nat, h: nat,
                                     edges: seq<(BasicBlock, BasicBlock)>,
                                     st: States<S>, st': States<S>, b: BasicBlock, changed: set<BasicBlock>)
    requires FiniteHeight(lat, rank, h) && ListsEdges(a.body, edges) && EdgesRose(lat, st, st') && a.body.IsBlock(b)
    requires EdgesInside(lat, st.after) && EdgesInside(lat, st'.after)
    requires forall s :: s in changed ==> s in a.body.blocks[b].successors && b in st'.after && s in st'.after[b] &&
                                          !(b in st.after && s in st.after[b] && st.after[b][s] == st'.after[b][s])
    ensures RemainingSum(st', rank, h, edges, |edges|) + |changed| <= RemainingSum(st, rank, h, edges, |edges|)
  {
    var paid := ChangesArePaid(lat, rank, h, st, st', b, changed, edges, |edges|);
    forall s | s in changed ensures s in paid {
      assert a.body.IsEdge(b, s);
      var i :| 0 <= i < |edges| && edges[i] == (b, s);
    }
    assert paid == changed;
  }

  lemma CardinalityOfUnion<T>(x: set<T>, y: set<T>)
    ensures |x + y| <= |x| + |y|
  {
    assert x + y == x + (y - x);
    assert |x + (y - x)| == |x| + |y - x|;
    assert |y| == |y - x| + |y * x| by { assert y == (y - x) + (y * x); }
  }

  lemma CountBlocks(body: Body)
    ensures |AllBlocks(body)| == |body.blocks|
  {
    forall b: BasicBlock ensures b in AllBlocks(body) <==> b in NatsBelow(|body.blocks|) {
      assert body.IsBlock(b) <==> IsNatBelow(b, |body.blocks|);
    }
    assert AllBlocks(body) == NatsBelow(|body.blocks|);
    CountNatsBelow(|body.blocks|);
  }

  /** Under monotone transformers and finite height no run, in whatever order, makes more than
      blocks + edges * (h + 1) visits. `edges` is any list of the control-flow edges. */
  lemma {:induction false} VisitBound<S(!new)>(a: Analysis<S>, lat: Lattice<S>, rank: S -> nat, h: nat,
                                               edges: seq<(BasicBlock, BasicBlock)>, picks: seq<BasicBlock>, snap: Snapshot<S>)
    requires Laws(a, lat) && FiniteHeight(lat, rank, h) && ListsEdges(a.body, edges)
    requires Reaches(a, picks, snap)
    ensures |picks| + Potential(snap, rank, h, edges) <= |a.body.blocks| + |edges| * (h + 1)
    ensures |picks| <= |a.body.blocks| + |edges| * (h + 1)
    decreases |picks|
  {
    RunStaysInside(a, lat, picks, snap);
    RemainingSumBounds(lat, snap.states, rank, h, edges, |edges|);
    if picks == [] {
      EmptyRun(a, snap);
      CountBlocks(a.body);
    } else {
      var before, prev, b := LastVisit(a, picks, snap);
      VisitBound(a, lat, rank, h, edges, before, prev);
      RunIsRising(a, lat, before, prev);
      RunStaysInside(a, lat, before, prev);
      VisitLowersPotential(a, lat, rank, h, edges, prev, b, snap);
    }
  }

  // ----- soundness for concrete executions -----

  /** A concrete semantics: what a statement and a terminator may do to a concrete state. */
  datatype Semantics<!C> = Semantics(
    statementStep: (C, Location, C) -> bool,
    terminatorStep: (C, Location, C, BasicBlock) -> bool)

  ghost predicate JoinCovers<S(!new), C(!new)>(a: Analysis<S>, gamma: (S, C) -> bool) {
    forall x, y, c :: gamma(x, c) || gamma(y, c) ==> gamma(a.join(x, y), c)
  }

  ghost predicate StatementsSound<S(!new), C(!new)>(a: Analysis<S>, sem: Semantics<C>, gamma: (S, C) -> bool) {
    forall x, l, c, c' :: gamma(x, c) && sem.statementStep(c, l, c') ==> gamma(a.statementEffect(x, l), c')
  }

  ghost predicate Covered<S(!new), C>(nexts: seq<(BasicBlock, S)>, gamma: (S, C) -> bool, s: BasicBlock, c: C) {
    exists k :: 0 <= k < |nexts| && nexts[k].0 == s && gamma(nexts[k].1, c)
  }

  ghost predicate TerminatorsSound<S(!new), C(!new)>(a: Analysis<S>, sem: Semantics<C>, gamma: (S, C) -> bool) {
    forall x, l, c, c', s :: gamma(x, c) && sem.terminatorStep(c, l, c', s) && a.terminatorEffect(x, l).Ok? ==>
                               Covered(a.terminatorEffect(x, l).value, gamma, s, c')
  }

  ghost predicate ConcreteStep<C>(body: Body, sem: Semantics<C>, l: Location, c: C, l': Location, c': C) {
    && body.IsLocation(l)
    && if l.statementIndex < body.blocks[l.block].statements then
      l' == Location(l.block, l.statementIndex + 1) && sem.statementStep(c, l, c')
    else
      l'.statementIndex == 0 && l'.block in body.blocks[l.block].successors && sem.terminatorStep(c, l, c', l'.block)
  }

  /** A finite concrete execution from the start of the body. */
  ghost predicate Execution<C>(body: Body, sem: Semantics<C>, trace: seq<(Location, C)>) {
    && |trace| > 0 && |body.blocks| > 0
    && trace[0].0 == Location(START_BLOCK, 0)
    && forall i :: 0 < i < |trace| ==> ConcreteStep(body, sem, trace[i - 1].0, trace[i - 1].1, trace[i].0, trace[i].1)
  }

  lemma {:induction false} EntryCovers<S(!new), C(!new)>(a: Analysis<S>, gamma: (S, C) -> bool,
                                                         after: map<BasicBlock, map<BasicBlock, S>>,
                                                         b: BasicBlock, n: nat, c: C)
    requires b < |a.body.predecessors| && n <= |a.body.predecessors[b]| && JoinCovers(a, gamma)
    requires gamma(Start(a, b), c) ||
             exists i :: 0 <= i < n && Incoming(a, after, b, i).Some? && gamma(Incoming(a, after, b, i).value, c)
    ensures gamma(Entry(a, after, b, n), c)
  {
    if n > 0 && !(Incoming(a, after, b, n - 1).Some? && gamma(Incoming(a, after, b, n - 1).value, c)) {
      EntryCovers(a, gamma, after, b, n - 1, c);
    }
  }

  lemma {:induction false} JoinAllCovers<S(!new), C(!new)>(a: Analysis<S>, gamma: (S, C) -> bool, states: seq<S>, k: nat, c: C)
    requires JoinCovers(a, gamma) && k < |states| && gamma(states[k], c)
    ensures gamma(JoinAll(a, states), c)
  {
    var n := |states| - 1;
    if k < n { JoinAllCovers(a, gamma, states[..n], k, c); }
  }

  lemma SentIsCovered<S(!new), C(!new)>(a: Analysis<S>, gamma: (S, C) -> bool, nexts: seq<(BasicBlock, S)>, s: BasicBlock, c: C)
    requires JoinCovers(a, gamma) && Covered(nexts, gamma, s, c)
    ensures HasTarget(nexts, s) && gamma(JoinAll(a, StatesFor(nexts, s)), c)
  {
    var k :| 0 <= k < |nexts| && nexts[k].0 == s && gamma(nexts[k].1, c);
    StatesForMembers(nexts, s);
    var j :| 0 <= j < |StatesFor(nexts, s)| && StatesFor(nexts, s)[j] == nexts[k].1;
    JoinAllCovers(a, gamma, StatesFor(nexts, s), j, c);
  }

  lemma EdgeIsCovered<S(!new), C(!new)>(a: Analysis<S>, sem: Semantics<C>, gamma: (S, C) -> bool, st: States<S>,
                                        b: BasicBlock, s: BasicBlock, x: S, c: C, c': C)
    requires a.body.WellFormed() && JoinCovers(a, gamma) && TerminatorsSound(a, sem, gamma)
    requires a.body.IsBlock(b) && s in a.body.blocks[b].successors && b in st.after && s in st.after[b]
    requires var effect := a.terminatorEffect(x, a.body.TerminatorLocation(b));
             effect.Ok? && EdgeEquation(a, effect.value, s, st.after[b][s])
    requires gamma(x, c) && sem.terminatorStep(c, a.body.TerminatorLocation(b), c', s)
    ensures gamma(EntryState(a, st.after, s), c')
  {
    SentIsCovered(a, gamma, a.terminatorEffect(x, a.body.TerminatorLocation(b)).value, s, c');
    assert a.body.IsEdge(b, s) && b in a.body.predecessors[s];
    var i :| 0 <= i < |a.body.predecessors[s]| && a.body.predecessors[s][i] == b;
    assert Incoming(a, st.after, s, i) == Some(st.after[b][s]);
    EntryCovers(a, gamma, st.after, s, |a.body.predecessors[s]|, c');
  }

  lemma StatementIsCovered<S(!new), C(!new)>(a: Analysis<S>, sem: Semantics<C>, gamma: (S, C) -> bool, st: States<S>,
                                             b: BasicBlock, i: nat, c: C, c': C)
    requires a.body.IsBlock(b) && Consistent(a, st, b) && i < a.body.blocks[b].statements
    requires StatementsSound(a, sem, gamma)
    requires Location(b, i) in st.before && gamma(st.before[Location(b, i)], c) && sem.statementStep(c, Location(b, i), c')
    ensures Location(b, i + 1) in st.before && gamma(st.before[Location(b, i + 1)], c')
  {
    assert StatementEquation(a, st, b, i);
  }

  lemma TerminatorIsCovered<S(!new), C(!new)>(a: Analysis<S>, sem: Semantics<C>, gamma: (S, C) -> bool, st: States<S>,
                                              b: BasicBlock, s: BasicBlock, c: C, c': C)
    requires a.body.WellFormed() && JoinCovers(a, gamma) && TerminatorsSound(a, sem, gamma)
    requires a.body.IsBlock(b) && Consistent(a, st, b) && a.body.IsBlock(s) && EntrySettled(a, st, s)
    requires s in a.body.blocks[b].successors
    requires var l := a.body.TerminatorLocation(b);
             l in st.before && gamma(st.before[l], c) && sem.terminatorStep(c, l, c', s)
    ensures gamma(st.before[Location(s, 0)], c')
  {
    EdgeIsCovered(a, sem, gamma, st, b, s, st.before[a.body.TerminatorLocation(b)], c, c');
  }

  lemma StepIsCovered<S(!new), C(!new)>(a: Analysis<S>, sem: Semantics<C>, gamma: (S, C) -> bool, st: States<S>,
                                        l: Location, c: C, l': Location, c': C)
    requires a.body.WellFormed() && Solution(a, st)
    requires JoinCovers(a, gamma) && StatementsSound(a, sem, gamma) && TerminatorsSound(a, sem, gamma)
    requires a.body.IsLocation(l) && gamma(st.before[l], c) && ConcreteStep(a.body, sem, l, c, l', c')
    ensures a.body.IsLocation(l') && gamma(st.before[l'], c')
  {
    var b := l.block;
    assert Consistent(a, st, b) && l == Location(b, l.statementIndex);
    if l.statementIndex < a.body.blocks[b].statements {
      StatementIsCovered(a, sem, gamma, st, b, l.statementIndex, c, c');
      assert l' == Location(b, l.statementIndex + 1);
    } else {
      assert l == a.body.TerminatorLocation(b) && l' == Location(l'.block, 0);
      TerminatorIsCovered(a, sem, gamma, st, b, l'.block, c, c');
    }
  }

  /** Whatever concrete state an execution has at a location is covered by the solution there. */
  lemma {:induction false} SolutionIsSound<S(!new), C(!new)>(a: Analysis<S>, sem: Semantics<C>,
          gamma: (S, C) -> bool, st: States<S>,
                                                             trace: seq<(Location, C)>, i: nat)
    requires a.body.WellFormed() && Solution(a, st)
    requires JoinCovers(a, gamma) && StatementsSound(a, sem, gamma) && TerminatorsSound(a, sem, gamma)
    requires Execution(a.body, sem, trace) && gamma(a.initial, trace[0].1) && i < |trace|
    ensures a.body.IsLocation(trace[i].0) && gamma(st.before[trace[i].0], trace[i].1)
  {
    if i == 0 {
      assert a.body.IsBlock(START_BLOCK);
      assert EntrySettled(a, st, START_BLOCK);
      EntryCovers(a, gamma, st.after, START_BLOCK, |a.body.predecessors[START_BLOCK]|, trace[0].1);
    } else {
      SolutionIsSound(a, sem, gamma, st, trace, i - 1);
      StepIsCovered(a, sem, gamma, st, trace[i - 1].0, trace[i - 1].1, trace[i].0, trace[i].1);
    }
  }

  /** Soundness over whole runs: only the join and the transformers have to over-approximate;
      neither monotonicity nor a partial order is needed. */
  lemma CompleteRunIsSound<S(!new), C(!new)>(a: Analysis<S>, sem: Semantics<C>, gamma: (S, C) -> bool,
                                             picks: seq<BasicBlock>, snap: Snapshot<S>, trace: seq<(Location, C)>, i: nat)
    requires a.body.WellFormed() && Reaches(a, picks, snap) && snap.work == {}
    requires JoinCovers(a, gamma) && StatementsSound(a, sem, gamma) && TerminatorsSound(a, sem, gamma)
    requires Execution(a.body, sem, trace) && gamma(a.initial, trace[0].1) && i < |trace|
    ensures trace[i].0 in snap.states.before && gamma(snap.states.before[trace[i].0], trace[i].1)
  {
    CompleteRunSolvesEquations(a, picks, snap);
    SolutionIsSound(a, sem, gamma, snap.states, trace, i);
  }
}
