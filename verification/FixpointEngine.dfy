/** The worklist solver and the maps it updates in place, proved against `AbstractInterpretation`. */
module FixpointEngine {
  import opened Wrappers
  import opened Mir
  import opened AbstractInterpretation
  import opened FixpointTheorems

  class PointwiseState<S> {
    var stateBefore: map<Location, S>
    var stateAfterBlock: map<BasicBlock, map<BasicBlock, S>>
    const body: Body

    ghost function States(): States<S>
      reads this
    {
      AbstractInterpretation.States(stateBefore, stateAfterBlock)
    }

    constructor (body: Body)
      ensures stateBefore == map[] && stateAfterBlock == map[]
      ensures this.body == body
    {
      stateBefore, stateAfterBlock := map[], map[];
      this.body := body;
    }

    function LookupBefore(location: Location): Option<S>
      reads this
    {
      if location in stateBefore then Some(stateBefore[location]) else None
    }

    /** The state after a statement; the source asserts that `location` is not a terminator. */
    function LookupAfter(location: Location): Option<S>
      requires body.IsBlock(location.block) && location.statementIndex < body.blocks[location.block].statements
      reads this
    {
      LookupBefore(Location(location.block, location.statementIndex + 1))
    }

    function LookupAfterBlock(block: BasicBlock): Option<map<BasicBlock, S>>
      reads this
    {
      if block in stateAfterBlock then Some(stateAfterBlock[block]) else None
    }

    /** The map that `lookup_mut_after_block` hands out exists afterwards. */
    method EnsureAfterBlock(block: BasicBlock)
      modifies this
      ensures stateBefore == old(stateBefore)
      ensures stateAfterBlock == old(stateAfterBlock)[block := EdgesOf(old(stateAfterBlock), block)]
    {
      if block !in stateAfterBlock {
        stateAfterBlock := stateAfterBlock[block := map[]];
      }
    }

    /** An insertion into the map of `block`, which gives back the state it replaces. */
    method InsertAfterBlock(block: BasicBlock, next: BasicBlock, state: S) returns (prev: Option<S>)
      requires block in stateAfterBlock
      modifies this
      ensures stateBefore == old(stateBefore)
      ensures var edges: map<BasicBlock, S> := old(stateAfterBlock)[block][next := state];
              stateAfterBlock == old(stateAfterBlock)[block := edges]
      ensures prev == if next in old(stateAfterBlock)[block] then Some(old(stateAfterBlock)[block][next]) else None
    {
      var edges := stateAfterBlock[block];
      prev := if next in edges then Some(edges[next]) else None;
      edges := edges[next := state];
      stateAfterBlock := stateAfterBlock[block := edges];
    }

    method SetBefore(location: Location, state: S)
      modifies this
      ensures stateBefore == old(stateBefore)[location := state]
      ensures stateAfterBlock == old(stateAfterBlock)
    {
      stateBefore := stateBefore[location := state];
    }
  }

  /** In a solution, looking up the state after a statement gives the effect of that statement on the state
      before it. */
  lemma LookupAfterIsEffect<S>(a: Analysis<S>, ps: PointwiseState<S>, l: Location)
    requires a.body.WellFormed() && Solution(a, ps.States()) && a.body.IsStatement(l) && ps.body == a.body
    ensures ps.LookupBefore(l).Some? && ps.LookupAfter(l) == Some(a.statementEffect(ps.LookupBefore(l).value, l))
  {
    assert Consistent(a, ps.States(), l.block) && l == Location(l.block, l.statementIndex);
    assert StatementEquation(a, ps.States(), l.block, l.statementIndex);
  }

  /** `visits` is at most blocks + edges * (h + 1), for every way to list the edges. */
  ghost predicate VisitsBounded(body: Body, h: nat, visits: nat) {
    forall edges :: ListsEdges(body, edges) ==> visits <= |body.blocks| + |edges| * (h + 1)
  }

  /** Some block that was due makes the engine stop with `status`. */
  ghost predicate StoppedBy<S>(a: Analysis<S>, at: Snapshot<S>, status: Status)
    requires a.body.WellFormed()
  {
    exists bb :: && bb in at.work && a.body.IsBlock(bb)
                 && match Visit(a, at, bb)
                    case Next(_) => false
                    case Failed(e) => status == Failure(e)
                    case Panicked => status == Panic
  }

  datatype Status = Done | Failure(error: AnalysisError) | Panic

  lemma {:induction false} LeastBlock(work: set<BasicBlock>, x: BasicBlock)
    requires x in work
    ensures exists b :: b in work && forall c :: c in work ==> b <= c
    decreases x
  {
    if exists y :: y in work && y < x {
      var y :| y in work && y < x;
      LeastBlock(work, y);
    }
  }

  /** `statementEffect` and the rest of the hooks come in through `a`. */
  class FixpointEngine<S(==, !new)> {
    const a: Analysis<S>

    constructor (a: Analysis<S>)
      ensures this.a == a
    {
      this.a := a;
    }

    method JoinPredecessors(ps: PointwiseState<S>, bb: BasicBlock) returns (state: S)
      requires a.body.WellFormed() && a.body.IsBlock(bb)
      requires forall p :: p in a.body.predecessors[bb] && p in ps.stateAfterBlock ==> bb in ps.stateAfterBlock[p]
      ensures state == EntryState(a, ps.stateAfterBlock, bb)
    {
      state := if bb == START_BLOCK then a.initial else a.bottom;
      var preds := a.body.predecessors[bb];
      for i := 0 to |preds|
        invariant state == Entry(a, ps.stateAfterBlock, bb, i)
      {
        var edges := ps.LookupAfterBlock(preds[i]);
        if edges.Some? {
          // the `unwrap` of the source: the key is there
          state := a.join(state, edges.value[bb]);
        }
      }
    }

    method RunStatements(ps: PointwiseState<S>, bb: BasicBlock, entry: S) returns (state: S)
      requires a.body.IsBlock(bb)
      modifies ps
      ensures state == ExitState(a, entry, bb)
      ensures ps.stateAfterBlock == old(ps.stateAfterBlock)
      ensures ps.stateBefore == old(ps.stateBefore) + BlockBefore(a, entry, bb, a.body.blocks[bb].statements + 1)
    {
      state := entry;
      var n := a.body.blocks[bb].statements;
      for i := 0 to n
        invariant state == StateAt(a, entry, bb, i)
        invariant ps.stateAfterBlock == old(ps.stateAfterBlock)
        invariant ps.stateBefore == old(ps.stateBefore) + BlockBefore(a, entry, bb, i)
      {
        ps.SetBefore(Location(bb, i), state);
        state := a.statementEffect(state, Location(bb, i));
      }
      ps.SetBefore(a.body.TerminatorLocation(bb), state);
    }

    method MergeNextStates(nexts: seq<(BasicBlock, S)>) returns (newMap: map<BasicBlock, S>)
      ensures newMap == Merge(a, nexts)
      ensures forall t :: t in newMap <==> HasTarget(nexts, t)
      ensures forall t :: t in newMap ==> EdgeEquation(a, nexts, t, newMap[t])
    {
      newMap := map[];
      for i := 0 to |nexts|
        invariant newMap == Merge(a, nexts[..i])
      {
        assert nexts[..i + 1] == nexts[..i] + [nexts[i]];
        MergeOneMore(a, nexts[..i], nexts[i].0, nexts[i].1);
        var (next, state) := nexts[i];
        if next in newMap {
          newMap := newMap[next := a.join(newMap[next], state)];
        } else {
          newMap := newMap[next := state];
        }
      }
      assert nexts[..|nexts|] == nexts;
      forall t ensures t in newMap <==> HasTarget(nexts, t) { MergedTargets(a, nexts, t); }
    }

    method FindMissingSuccessor(successors: seq<BasicBlock>,
                                newMap: map<BasicBlock, S>) returns (missing: Option<BasicBlock>)
      ensures missing == FirstMissing(successors, newMap)
    {
      for i := 0 to |successors|
        invariant FirstMissing(successors, newMap) == FirstMissing(successors[i..], newMap)
      {
        if successors[i] !in newMap {
          return Some(successors[i]);
        }
        assert successors[i..][1..] == successors[i + 1..];
      }
      missing := None;
    }

    method StoreEdge(ps: PointwiseState<S>, bb: BasicBlock, next: BasicBlock, s: S,
                     ghost after0: map<BasicBlock, map<BasicBlock, S>>, ghost edges: map<BasicBlock, S>)
      returns (changed: bool)
      requires ps.stateAfterBlock == after0[bb := edges]
      modifies ps
      ensures ps.stateBefore == old(ps.stateBefore)
      ensures ps.stateAfterBlock == after0[bb := edges[next := s]]
      ensures changed <==> !(next in edges && edges[next] == s)
    {
      var prev := ps.InsertAfterBlock(bb, next, s);
      changed := !(prev.Some? && prev.value == ps.stateAfterBlock[bb][next]);
    }

    /** The body of the loop over the successors, for the one at `i`. The ghost parameters are what the
        loop started from. */
    method StoreSuccessor(ps: PointwiseState<S>, bb: BasicBlock, successors: seq<BasicBlock>, i: nat, newMap: map<BasicBlock, S>,
                          work: set<BasicBlock>, ghost after0: map<BasicBlock, map<BasicBlock, S>>,
                          ghost stored: map<BasicBlock, S>, ghost merged: map<BasicBlock, S>, ghost work0: set<BasicBlock>)
      returns (newMap': map<BasicBlock, S>, work': set<BasicBlock>)
      requires i < |successors| && forall s | s in successors :: s in merged
      requires newMap == merged - ToSet(successors[..i])
      requires ps.stateAfterBlock == after0[bb := stored + Select(merged, successors[..i])]
      requires work == work0 + Changed(successors[..i], stored, merged)
      modifies ps
      ensures ps.stateBefore == old(ps.stateBefore)
      ensures newMap' == merged - ToSet(successors[..i + 1])
      ensures ps.stateAfterBlock == after0[bb := stored + Select(merged, successors[..i + 1])]
      ensures work' == work0 + Changed(successors[..i + 1], stored, merged)
    {
      newMap', work' := newMap, work;
      var next := successors[i];
      PrefixGrows(successors, i, stored, merged);
      if next in newMap {
        var s := newMap[next];
        newMap' := newMap - {next};
        var changed := StoreEdge(ps, bb, next, s, after0, stored + Select(merged, successors[..i]));
        if changed {
          // input state has changed
          work' := work + {next};
        }
      }
    }

    method StoreEdges(ps: PointwiseState<S>, bb: BasicBlock, merged: map<BasicBlock, S>, work: set<BasicBlock>)
      returns (work': set<BasicBlock>)
      requires a.body.IsBlock(bb)
      requires forall s | s in a.body.blocks[bb].successors :: s in merged
      modifies ps
      ensures ps.stateBefore == old(ps.stateBefore)
      ensures var stored := EdgesOf(old(ps.stateAfterBlock), bb);
              var successors := a.body.blocks[bb].successors;
              && ps.stateAfterBlock == old(ps.stateAfterBlock)[bb := stored + Select(merged, successors)]
              && work' == work + Changed(successors, stored, merged)
    {
      ghost var after0 := ps.stateAfterBlock;
      ghost var stored := EdgesOf(after0, bb);
      var successors := a.body.blocks[bb].successors;
      ps.EnsureAfterBlock(bb);
      var newMap := merged;
      work' := work;
      assert stored + Select(merged, successors[..0]) == stored;
      for i := 0 to |successors|
        invariant ps.stateBefore == old(ps.stateBefore)
        invariant newMap == merged - ToSet(successors[..i])
        invariant ps.stateAfterBlock == after0[bb := stored + Select(merged, successors[..i])]
        invariant work' == work + Changed(successors[..i], stored, merged)
      {
        newMap, work' := StoreSuccessor(ps, bb, successors, i, newMap, work', after0, stored, merged, work);
      }
      assert successors[..|successors|] == successors;
    }

    /** One iteration of the loop: exactly `Visit`. No law about the domain is needed. */
    method ProcessBlock(ps: PointwiseState<S>, work: set<BasicBlock>, bb: BasicBlock)
      returns (status: Status, work': set<BasicBlock>)
      requires a.body.WellFormed() && a.body.IsBlock(bb)
      requires WorklistInvariant(a, Snapshot(ps.States(), work))
      modifies ps
      ensures match Visit(a, Snapshot(old(ps.States()), work), bb)
              case Next(next) => status == Done && next == Snapshot(ps.States(), work')
              case Failed(e) => status == Failure(e)
              case Panicked => status == Panic
    {
      work' := work - {bb};
      forall p | p in a.body.predecessors[bb] && p in ps.stateAfterBlock ensures bb in ps.stateAfterBlock[p] {
        assert Consistent(a, ps.States(), p);
      }
      var entry := JoinPredecessors(ps, bb);
      var exit := RunStatements(ps, bb, entry);
      var nextStates := a.terminatorEffect(exit, a.body.TerminatorLocation(bb));
      if nextStates.Err? {
        return Failure(nextStates.error), work';
      }
      var merged := MergeNextStates(nextStates.value);
      var successors := a.body.blocks[bb].successors;
      var missing := FindMissingSuccessor(successors, merged);
      if missing.Some? {
        return Failure(NoStateAfterSuccessor(bb, missing.value)), work';
      }
      FirstMissingSpec(successors, merged);
      if a.debugAssertions && exists t | t in merged.Keys :: t !in successors {
        return Panic, work';
      }
      work' := StoreEdges(ps, bb, merged, work');
      status := Done;
    }

    /** Pick the least block and process it: the run grows by one visit, or the engine stops. */
    method ProcessNext(ps: PointwiseState<S>, work: set<BasicBlock>, ghost lat: Lattice<S>, ghost rank: S -> nat,
                       ghost h: nat,
                       ghost edges: seq<(BasicBlock, BasicBlock)>, ghost picks: seq<BasicBlock>)
      returns (status: Status, bb: BasicBlock, work': set<BasicBlock>)
      requires Laws(a, lat) && FiniteHeight(lat, rank, h) && ListsEdges(a.body, edges) && work != {}
      requires Reaches(a, picks, Snapshot(ps.States(), work))
      modifies ps
      ensures bb in work && forall c :: c in work ==> bb <= c
      ensures status == Done ==>
                && Reaches(a, picks + [bb], Snapshot(ps.States(), work'))
                && 0 <= Potential(Snapshot(ps.States(), work'), rank, h, edges)
                     < Potential(Snapshot(old(ps.States()), work), rank, h, edges)
      ensures status != Done ==> StoppedBy(a, Snapshot(old(ps.States()), work), status)
    {
      ghost var at := Snapshot(ps.States(), work);
      ghost var x :| x in work;
      LeastBlock(work, x);
      bb :| bb in work && forall c :: c in work ==> bb <= c;
      InvariantOfEveryRun(a, picks, at);
      status, work' := ProcessBlock(ps, work, bb);
      if status == Done {
        VisitExtendsRun(a, lat, rank, h, edges, picks, at, bb, Snapshot(ps.States(), work'));
      }
    }

    /** The whole analysis. Monotone transformers and finite height are what makes it terminate.
        `picks` are the visited blocks in order; on a failure `at` is where the run stood. */
    method RunFwdAnalysis(ghost lat: Lattice<S>, ghost rank: S -> nat, ghost h: nat)
      returns (status: Status, ps: PointwiseState<S>, ghost picks: seq<BasicBlock>, ghost at: Snapshot<S>)
      requires Laws(a, lat) && FiniteHeight(lat, rank, h)
      ensures fresh(ps)
      ensures Reaches(a, picks, at)
      ensures VisitsBounded(a.body, h, |picks|)
      ensures status == Done ==> at == Snapshot(ps.States(), {}) && Solution(a, ps.States())
      ensures status != Done ==> StoppedBy(a, at, status)
    {
      ps := new PointwiseState(a.body);
      var work := AllBlocks(a.body);
      var counters: map<BasicBlock, nat> := map[];
      picks, at, status := [], Snapshot(ps.States(), work), Done;
      ghost var edges := AllEdges(a.body, |a.body.blocks|);
      AllEdgesListed(a.body);
      RunStarts(a);
      while work != {} && status == Done
        invariant fresh(ps)
        invariant Reaches(a, picks, at)
        invariant status == Done ==> at == Snapshot(ps.States(), work)
        invariant status != Done ==> StoppedBy(a, at, status)
        decreases status == Done, Potential(at, rank, h, edges)
      {
        var bb, work';
        status, bb, work' := ProcessNext(ps, work, lat, rank, h, edges, picks);
        counters := counters[bb := 1 + if bb in counters then counters[bb] else 0];
        if status == Done {
          work := work';
          picks, at := picks + [bb], Snapshot(ps.States(), work');
        }
      }
      VisitBoundForAll(a, lat, rank, h, picks, at);
      if status == Done {
        CompleteRunSolvesEquations(a, picks, at);
      }
    }
  }

  lemma PrefixGrows<S>(successors: seq<BasicBlock>, i: nat, stored: map<BasicBlock, S>, merged: map<BasicBlock, S>)
    requires i < |successors| && forall s | s in successors :: s in merged
    ensures var next, done := successors[i], successors[..i];
            && (next in merged - ToSet(done) <==> next !in done)
            && (next in done ==>
                  && merged - ToSet(successors[..i + 1]) == merged - ToSet(done)
                  && stored + Select(merged, successors[..i + 1]) == stored + Select(merged, done)
                  && Changed(successors[..i + 1], stored, merged) == Changed(done, stored, merged))
            && (next !in done ==>
                  var edges := stored + Select(merged, done);
                  && merged - ToSet(successors[..i + 1]) == merged - ToSet(done) - {next}
                  && stored + Select(merged, successors[..i + 1]) == edges[next := merged[next]]
                  && Changed(successors[..i + 1], stored, merged) == Changed(done, stored, merged) +
                       if next in edges && edges[next] == merged[next] then {} else {next})
  {
    assert successors[..i + 1] == successors[..i] + [successors[i]];
  }

  lemma VisitExtendsRun<S(!new)>(a: Analysis<S>, lat: Lattice<S>, rank: S -> nat, h: nat,
                                 edges: seq<(BasicBlock, BasicBlock)>,
                                 picks: seq<BasicBlock>, snap: Snapshot<S>, b: BasicBlock, next: Snapshot<S>)
    requires Laws(a, lat) && FiniteHeight(lat, rank, h) && ListsEdges(a.body, edges)
    requires Reaches(a, picks, snap) && b in snap.work && a.body.IsBlock(b) && Visit(a, snap, b) == Next(next)
    ensures Reaches(a, picks + [b], next)
    ensures 0 <= Potential(next, rank, h, edges) < Potential(snap, rank, h, edges)
  {
    RunIsRising(a, lat, picks, snap);
    RunStaysInside(a, lat, picks, snap);
    VisitLowersPotential(a, lat, rank, h, edges, snap, b, next);
    VisitStaysInside(a, lat, snap, b, next);
    RemainingSumBounds(lat, next.states, rank, h, edges, |edges|);
    RunExtends(a, picks, snap, b, next);
  }

  lemma VisitBoundForAll<S(!new)>(a: Analysis<S>, lat: Lattice<S>, rank: S -> nat, h: nat, picks: seq<BasicBlock>,
                                  snap: Snapshot<S>)
    requires Laws(a, lat) && FiniteHeight(lat, rank, h) && Reaches(a, picks, snap)
    ensures VisitsBounded(a.body, h, |picks|)
  {
    forall edges | ListsEdges(a.body, edges) ensures |picks| <= |a.body.blocks| + |edges| * (h + 1) {
      VisitBound(a, lat, rank, h, edges, picks, snap);
    }
  }

  ghost function AllEdges(body: Body, n: nat): seq<(BasicBlock, BasicBlock)>
    requires n <= |body.blocks|
  {
    if n == 0 then [] else
      var successors := body.blocks[n - 1].successors;
      AllEdges(body, n - 1) + seq(|successors|, i requires 0 <= i < |successors| => (n - 1, successors[i]))
  }

  lemma {:induction false} EdgeListed(body: Body, n: nat, p: BasicBlock, s: BasicBlock)
    requires p < n <= |body.blocks| && s in body.blocks[p].successors
    ensures (p, s) in AllEdges(body, n)
  {
    if p < n - 1 {
      EdgeListed(body, n - 1, p, s);
    } else {
      var i :| 0 <= i < |body.blocks[p].successors| && body.blocks[p].successors[i] == s;
      assert AllEdges(body, n)[|AllEdges(body, n - 1)| + i] == (p, s);
    }
  }

  lemma AllEdgesListed(body: Body)
    ensures ListsEdges(body, AllEdges(body, |body.blocks|))
  {
    forall p: BasicBlock, s: BasicBlock | body.IsEdge(p, s) ensures (p, s) in AllEdges(body, |body.blocks|) {
      EdgeListed(body, |body.blocks|, p, s);
    }
  }
}
