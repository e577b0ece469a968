/** One analysis, the effect of visiting one block, and the runs that a worklist allows.
    Nothing here assumes a law about the domain. */
module AbstractInterpretation {
  import opened Wrappers
  import opened Mir

  datatype AnalysisError =
    | UnsupportedStatement(location: Location)
    | NoStateAfterSuccessor(src: BasicBlock, dst: BasicBlock)

  /** The hooks of the engine. `debugAssertions` says whether `debug_assert_eq!` is compiled in. */
  datatype Analysis<!S> = Analysis(
    body: Body,
    bottom: S,
    initial: S,
    join: (S, S) -> S,
    statementEffect: (S, Location) -> S,
    terminatorEffect: (S, Location) -> Result<seq<(BasicBlock, S)>, AnalysisError>,
    debugAssertions: bool)

  /** The contents of a `PointwiseState`: a state before every location, a state on every edge. */
  datatype States<S> = States(before: map<Location, S>, after: map<BasicBlock, map<BasicBlock, S>>)

  /** The engine between two iterations of its loop. */
  datatype Snapshot<S> = Snapshot(states: States<S>, work: set<BasicBlock>)

  datatype Outcome<S> = Next(snapshot: Snapshot<S>) | Failed(error: AnalysisError) | Panicked

  // ----- the effect of one visit -----

  /** The edge state from the `i`-th predecessor of `b`, if that predecessor was ever visited. */
  function Incoming<S>(a: Analysis<S>, after: map<BasicBlock, map<BasicBlock, S>>, b: BasicBlock, i: nat): Option<S>
    requires b < |a.body.predecessors| && i < |a.body.predecessors[b]|
  {
    var p := a.body.predecessors[b][i];
    if p in after && b in after[p] then Some(after[p][b]) else None
  }

  /** The state of `b` before any predecessor is joined in. */
  function Start<S>(a: Analysis<S>, b: BasicBlock): S {
    if b == START_BLOCK then a.initial else a.bottom
  }

  /** The state on entry to `b`, after joining its first `n` predecessors. */
  function Entry<S>(a: Analysis<S>, after: map<BasicBlock, map<BasicBlock, S>>, b: BasicBlock, n: nat): S
    requires b < |a.body.predecessors| && n <= |a.body.predecessors[b]|
  {
    if n == 0 then Start(a, b)
    else
      match Incoming(a, after, b, n - 1)
      case Some(s) => a.join(Entry(a, after, b, n - 1), s)
      case None => Entry(a, after, b, n - 1)
  }

  function EntryState<S>(a: Analysis<S>, after: map<BasicBlock, map<BasicBlock, S>>, b: BasicBlock): S
    requires b < |a.body.predecessors|
  {
    Entry(a, after, b, |a.body.predecessors[b]|)
  }

  /** The state before statement `i` of `b` when the block is entered with `entry`. */
  function StateAt<S>(a: Analysis<S>, entry: S, b: BasicBlock, i: nat): S {
    if i == 0 then entry else a.statementEffect(StateAt(a, entry, b, i - 1), Location(b, i - 1))
  }

  ghost predicate HasTarget<S>(nexts: seq<(BasicBlock, S)>, t: BasicBlock) {
    exists k :: 0 <= k < |nexts| && nexts[k].0 == t
  }

  function Targets<S>(nexts: seq<(BasicBlock, S)>): set<BasicBlock> {
    set k | 0 <= k < |nexts| :: nexts[k].0
  }

  /** The states that are sent to `t`, in order. */
  function StatesFor<S>(nexts: seq<(BasicBlock, S)>, t: BasicBlock): (states: seq<S>)
    ensures states != [] <==> HasTarget(nexts, t)
  {
    if nexts == [] then [] else
      var front, last := nexts[..|nexts| - 1], nexts[|nexts| - 1];
      assert nexts == front + [last];
      assert HasTarget(nexts, t) ==> HasTarget(front, t) || last.0 == t;
      assert forall k :: 0 <= k < |front| ==> front[k] == nexts[k];
      StatesFor(front, t) + if last.0 == t then [last.1] else []
  }

  /** One state stays as it is; several are joined in order. */
  function JoinAll<S>(a: Analysis<S>, states: seq<S>): S
    requires states != []
  {
    if |states| == 1 then states[0] else a.join(JoinAll(a, states[..|states| - 1]), states[|states| - 1])
  }

  /** The outgoing states, those with one destination joined. */
  function Merge<S>(a: Analysis<S>, nexts: seq<(BasicBlock, S)>): map<BasicBlock, S> {
    map t | t in Targets(nexts) :: JoinAll(a, StatesFor(nexts, t))
  }

  /** The edge states that the terminator of `b` gives from the state before it. */
  function TerminatorStates<S>(a: Analysis<S>, exit: S, b: BasicBlock): Result<map<BasicBlock, S>, AnalysisError>
    requires a.body.IsBlock(b)
  {
    match a.terminatorEffect(exit, a.body.TerminatorLocation(b))
    case Err(e) => Err(e)
    case Ok(nexts) => Ok(Merge(a, nexts))
  }

  function ExitState<S>(a: Analysis<S>, entry: S, b: BasicBlock): S
    requires a.body.IsBlock(b)
  {
    StateAt(a, entry, b, a.body.blocks[b].statements)
  }

  // ----- what ends up on an edge -----

  lemma MergedTargets<S>(a: Analysis<S>, nexts: seq<(BasicBlock, S)>, t: BasicBlock)
    ensures t in Merge(a, nexts) <==> HasTarget(nexts, t)
  {
    if HasTarget(nexts, t) {
      var k :| 0 <= k < |nexts| && nexts[k].0 == t;
      assert t in Targets(nexts);
    }
  }

  /** One more state is joined to what its destination has, and changes no other destination. */
  lemma MergeOneMore<S>(a: Analysis<S>, nexts: seq<(BasicBlock, S)>, t: BasicBlock, x: S)
    ensures var merged := Merge(a, nexts);
            Merge(a, nexts + [(t, x)]) == merged[t := if t in merged then a.join(merged[t], x) else x]
  {
    var merged, more := Merge(a, nexts), nexts + [(t, x)];
    assert more[..|more| - 1] == nexts && more[|more| - 1] == (t, x);
    forall u ensures u in Merge(a, more) <==> u in merged || u == t {
      MergedTargets(a, nexts, u);
      MergedTargets(a, more, u);
      if HasTarget(nexts, u) {
        var k :| 0 <= k < |nexts| && nexts[k].0 == u;
        assert more[k].0 == u;
      }
      assert more[|nexts|].0 == t;
    }
    forall u | u in merged && u != t ensures Merge(a, more)[u] == merged[u] {
      assert StatesFor(more, u) == StatesFor(nexts, u);
    }
    var states := StatesFor(nexts, t);
    assert StatesFor(more, t) == states + [x] && (states + [x])[..|states|] == states;
    MergedTargets(a, nexts, t);
  }

  /** A state that no other one shares its destination with arrives there unchanged. */
  lemma SingleStateArrives<S>(a: Analysis<S>, nexts: seq<(BasicBlock, S)>, k: nat)
    requires k < |nexts| && forall j :: 0 <= j < |nexts| && j != k ==> nexts[j].0 != nexts[k].0
    ensures nexts[k].0 in Merge(a, nexts) && Merge(a, nexts)[nexts[k].0] == nexts[k].1
  {
    MergedTargets(a, nexts, nexts[k].0);
    SingleStateFor(nexts, k);
  }

  lemma {:induction false} SingleStateFor<S>(nexts: seq<(BasicBlock, S)>, k: nat)
    requires k < |nexts| && forall j :: 0 <= j < |nexts| && j != k ==> nexts[j].0 != nexts[k].0
    ensures StatesFor(nexts, nexts[k].0) == [nexts[k].1]
  {
    var n := |nexts| - 1;
    if k < n { SingleStateFor(nexts[..n], k); }
  }

  /** The states sent to `t` are those of the pairs that name `t`. */
  lemma {:induction false} StatesForMembers<S>(nexts: seq<(BasicBlock, S)>, t: BasicBlock)
    ensures forall x :: x in StatesFor(nexts, t) ==> Sends(nexts, t, x)
    ensures forall k :: 0 <= k < |nexts| && nexts[k].0 == t ==> nexts[k].1 in StatesFor(nexts, t)
  {
    if nexts != [] {
      var n := |nexts| - 1;
      StatesForMembers(nexts[..n], t);
      forall x | x in StatesFor(nexts, t) ensures Sends(nexts, t, x) {
        if Sends(nexts[..n], t, x) {
          var k :| 0 <= k < n && nexts[..n][k] == (t, x);
          assert nexts[k] == (t, x);
        } else {
          assert nexts[n] == (t, x);
        }
      }
      forall k | 0 <= k < |nexts| && nexts[k].0 == t ensures nexts[k].1 in StatesFor(nexts, t) {
        if k < n { assert nexts[..n][k] == nexts[k]; }
      }
    }
  }

  ghost predicate Sends<S>(nexts: seq<(BasicBlock, S)>, t: BasicBlock, x: S) {
    exists k :: 0 <= k < |nexts| && nexts[k] == (t, x)
  }

  /** The first of `successors` without a state. */
  function FirstMissing<S>(successors: seq<BasicBlock>, merged: map<BasicBlock, S>): Option<BasicBlock> {
    if successors == [] then None
    else if successors[0] !in merged then Some(successors[0])
    else FirstMissing(successors[1..], merged)
  }

  function ToSet<T(==)>(s: seq<T>): set<T> {
    set x | x in s
  }

  function EdgesOf<S>(after: map<BasicBlock, map<BasicBlock, S>>, b: BasicBlock): map<BasicBlock, S> {
    if b in after then after[b] else map[]
  }

  function Select<S>(merged: map<BasicBlock, S>, successors: seq<BasicBlock>): map<BasicBlock, S>
    requires forall s | s in successors :: s in merged
  {
    map s | s in successors :: merged[s]
  }

  /** The successors of `b` whose edge state differs between `stored` and `merged`. */
  function Changed<S(==)>(successors: seq<BasicBlock>, stored: map<BasicBlock, S>,
                          merged: map<BasicBlock, S>): set<BasicBlock>
    requires forall s | s in successors :: s in merged
  {
    set s | s in successors && !(s in stored && stored[s] == merged[s])
  }

  /** The states stored before the first `n` locations of `b`. */
  function BlockBefore<S>(a: Analysis<S>, entry: S, b: BasicBlock, n: nat): map<Location, S> {
    if n == 0 then map[] else BlockBefore(a, entry, b, n - 1)[Location(b, n - 1) := StateAt(a, entry, b, n - 1)]
  }

  lemma {:induction false} BlockBeforeKeys<S>(a: Analysis<S>, entry: S, b: BasicBlock, n: nat)
    ensures forall l :: l in BlockBefore(a, entry, b, n) <==> l.block == b && l.statementIndex < n
  {
    if n > 0 { BlockBeforeKeys(a, entry, b, n - 1); }
  }

  lemma {:induction false} BlockBeforeAt<S>(a: Analysis<S>, entry: S, b: BasicBlock, n: nat, i: nat)
    requires i < n
    ensures Location(b, i) in BlockBefore(a, entry, b, n)
    ensures BlockBefore(a, entry, b, n)[Location(b, i)] == StateAt(a, entry, b, i)
  {
    if i < n - 1 { BlockBeforeAt(a, entry, b, n - 1, i); }
  }

  /** The snapshot after a visit of `b` that got as far as storing its edge states. */
  function Commit<S(==)>(a: Analysis<S>, snap: Snapshot<S>, b: BasicBlock, entry: S, merged: map<BasicBlock, S>): Snapshot<S>
    requires a.body.IsBlock(b)
    requires forall s | s in a.body.blocks[b].successors :: s in merged
  {
    var successors := a.body.blocks[b].successors;
    var stored := EdgesOf(snap.states.after, b);
    Snapshot(
      States(
        snap.states.before + BlockBefore(a, entry, b, a.body.blocks[b].statements + 1),
        snap.states.after[b := stored + Select(merged, successors)]),
      (snap.work - {b}) + Changed(successors, stored, merged))
  }

  /** What one iteration of the loop makes of `snap` when it picks `b`. */
  function Visit<S(==)>(a: Analysis<S>, snap: Snapshot<S>, b: BasicBlock): Outcome<S>
    requires a.body.IsBlock(b) && |a.body.predecessors| == |a.body.blocks|
  {
    var entry := EntryState(a, snap.states.after, b);
    var successors := a.body.blocks[b].successors;
    match TerminatorStates(a, ExitState(a, entry, b), b)
    case Err(e) => Failed(e)
    case Ok(merged) =>
      match FirstMissing(successors, merged)
      case Some(s) => Failed(NoStateAfterSuccessor(b, s))
      case None =>
        FirstMissingSpec(successors, merged);
        if a.debugAssertions && exists t | t in merged.Keys :: t !in successors then
          Panicked
        else
          Next(Commit(a, snap, b, entry, merged))
  }

  lemma {:induction false} FirstMissingSpec<S>(successors: seq<BasicBlock>, merged: map<BasicBlock, S>)
    ensures match FirstMissing(successors, merged)
            case None => forall s | s in successors :: s in merged
            case Some(t) => exists i :: 0 <= i < |successors| && successors[i] == t && t !in merged &&
                                        forall j | 0 <= j < i :: successors[j] in merged
  {
    if successors != [] && successors[0] in merged {
      FirstMissingSpec(successors[1..], merged);
      match FirstMissing(successors[1..], merged)
      case None =>
      case Some(t) =>
        var i :| 0 <= i < |successors[1..]| && successors[1..][i] == t && t !in merged &&
                 forall j | 0 <= j < i :: successors[1..][j] in merged;
        assert successors[i + 1] == t;
        forall j | 0 <= j < i + 1 ensures successors[j] in merged {
          if j > 0 { assert successors[j] == successors[1..][j - 1]; }
        }
    }
  }

  // ----- runs -----

  function AllBlocks(body: Body): set<BasicBlock> {
    set b: BasicBlock | b < |body.blocks| && body.IsBlock(b)
  }

  function Init<S>(a: Analysis<S>): Snapshot<S> {
    Snapshot(States(map[], map[]), AllBlocks(a.body))
  }

  /** A visit of `b`, which is due, leads from `snap` to `next`. */
  ghost predicate VisitLeadsTo<S>(a: Analysis<S>, snap: Snapshot<S>, b: BasicBlock, next: Snapshot<S>) {
    a.body.WellFormed() && a.body.IsBlock(b) && b in snap.work && Visit(a, snap, b) == Next(next)
  }

  ghost predicate StepOfRun<S>(a: Analysis<S>, picks: seq<BasicBlock>, trace: seq<Snapshot<S>>, i: nat) {
    i < |picks| && i + 1 < |trace| && VisitLeadsTo(a, trace[i], picks[i], trace[i + 1])
  }

  ghost predicate IsRun<S>(a: Analysis<S>, picks: seq<BasicBlock>, trace: seq<Snapshot<S>>) {
    && |trace| == |picks| + 1 && trace[0] == Init(a)
    && forall i: nat :: i < |picks| ==> StepOfRun(a, picks, trace, i)
  }

  /** `snap` is what the engine reaches when it visits the blocks `picks`, one after the other and
      each taken from the work set. The order of picks is left open. */
  ghost predicate Reaches<S(!new)>(a: Analysis<S>, picks: seq<BasicBlock>, snap: Snapshot<S>) {
    exists trace :: IsRun(a, picks, trace) && trace[|picks|] == snap
  }

  lemma RunStarts<S(!new)>(a: Analysis<S>)
    ensures Reaches(a, [], Init(a))
  {
    assert IsRun(a, [], [Init(a)]);
  }

  lemma RunExtends<S(!new)>(a: Analysis<S>, picks: seq<BasicBlock>, snap: Snapshot<S>, b: BasicBlock, next: Snapshot<S>)
    requires Reaches(a, picks, snap) && VisitLeadsTo(a, snap, b, next)
    ensures Reaches(a, picks + [b], next)
  {
    var n := |picks|;
    var trace :| IsRun(a, picks, trace) && trace[n] == snap;
    var picks', trace' := picks + [b], trace + [next];
    forall i: nat | i < n + 1 ensures StepOfRun(a, picks', trace', i) {
      if i < n { assert StepOfRun(a, picks, trace, i); }
    }
    assert IsRun(a, picks', trace');
  }

  lemma PrefixIsRun<S>(a: Analysis<S>, picks: seq<BasicBlock>, trace: seq<Snapshot<S>>, n: nat)
    requires IsRun(a, picks, trace) && n <= |picks|
    ensures IsRun(a, picks[..n], trace[..n + 1])
  {
    var front, prefix := picks[..n], trace[..n + 1];
    forall i: nat | i < n ensures StepOfRun(a, front, prefix, i) {
      assert StepOfRun(a, picks, trace, i);
    }
  }

  lemma LastVisit<S(!new)>(a: Analysis<S>, picks: seq<BasicBlock>, snap: Snapshot<S>)
    returns (before: seq<BasicBlock>, prev: Snapshot<S>, b: BasicBlock)
    requires picks != [] && Reaches(a, picks, snap)
    ensures picks == before + [b] && Reaches(a, before, prev) && VisitLeadsTo(a, prev, b, snap)
  {
    var n := |picks| - 1;
    var trace :| IsRun(a, picks, trace) && trace[|picks|] == snap;
    before, prev, b := picks[..n], trace[n], picks[n];
    PrefixIsRun(a, picks, trace, n);
    assert trace[..n + 1][n] == prev;
    assert StepOfRun(a, picks, trace, n);
  }

  lemma EmptyRun<S(!new)>(a: Analysis<S>, snap: Snapshot<S>)
    requires Reaches(a, [], snap)
    ensures snap == Init(a)
  {
  }

  // ----- the worklist invariant -----

  ghost predicate StatementEquation<S>(a: Analysis<S>, st: States<S>, b: BasicBlock, i: nat) {
    && Location(b, i) in st.before
    && Location(b, i + 1) in st.before
    && st.before[Location(b, i + 1)] == a.statementEffect(st.before[Location(b, i)], Location(b, i))
  }

  /** The stored states of `b` follow from its stored entry state, and its stored edge states
      from its stored exit state. */
  ghost predicate Consistent<S>(a: Analysis<S>, st: States<S>, b: BasicBlock)
    requires a.body.IsBlock(b)
  {
    var n := a.body.blocks[b].statements;
    && b in st.after
    && (forall i: nat :: i <= n ==> Location(b, i) in st.before)
    && (forall i: nat :: i < n ==> StatementEquation(a, st, b, i))
    && var effect := a.terminatorEffect(st.before[Location(b, n)], a.body.TerminatorLocation(b));
    && effect.Ok?
    && st.after[b].Keys == (set s | s in a.body.blocks[b].successors)
    && (forall s :: s in a.body.blocks[b].successors ==> EdgeEquation(a, effect.value, s, st.after[b][s]))
    && (a.debugAssertions ==> forall t :: HasTarget(effect.value, t) ==> t in a.body.blocks[b].successors)
  }

  /** `x` is what the states sent to `s` join to, and there is one. */
  ghost predicate EdgeEquation<S>(a: Analysis<S>, nexts: seq<(BasicBlock, S)>, s: BasicBlock, x: S) {
    HasTarget(nexts, s) && x == JoinAll(a, StatesFor(nexts, s))
  }

  /** The stored entry state of `b` is the join over the current incoming edges. */
  ghost predicate EntrySettled<S>(a: Analysis<S>, st: States<S>, b: BasicBlock)
    requires b < |a.body.predecessors|
  {
    Location(b, 0) in st.before && st.before[Location(b, 0)] == EntryState(a, st.after, b)
  }

  ghost predicate WorklistInvariant<S>(a: Analysis<S>, snap: Snapshot<S>)
    requires a.body.WellFormed()
  {
    && (forall b :: b in snap.work ==> a.body.IsBlock(b))
    && (forall b :: b in snap.states.after ==> a.body.IsBlock(b))
    && (forall l :: l in snap.states.before ==> a.body.IsLocation(l))
    && (forall b :: b in snap.states.after ==> Consistent(a, snap.states, b))
    && (forall b :: a.body.IsBlock(b) && b !in snap.work ==>
          b in snap.states.after && EntrySettled(a, snap.states, b))
  }

  /** All dataflow equations hold exactly, at every location and on every edge. */
  ghost predicate Solution<S>(a: Analysis<S>, st: States<S>)
    requires a.body.WellFormed()
  {
    && st.after.Keys == AllBlocks(a.body)
    && (forall l :: l in st.before <==> a.body.IsLocation(l))
    && forall b :: a.body.IsBlock(b) ==> Consistent(a, st, b) && EntrySettled(a, st, b)
  }

  lemma {:induction false} EntryDependsOnIncoming<S>(a: Analysis<S>, after: map<BasicBlock, map<BasicBlock, S>>,
                                                     after': map<BasicBlock, map<BasicBlock, S>>, b: BasicBlock, n: nat)
    requires b < |a.body.predecessors| && n <= |a.body.predecessors[b]|
    requires forall i | 0 <= i < n :: Incoming(a, after, b, i) == Incoming(a, after', b, i)
    ensures Entry(a, after, b, n) == Entry(a, after', b, n)
  {
    if n > 0 {
      EntryDependsOnIncoming(a, after, after', b, n - 1);
      assert Incoming(a, after, b, n - 1) == Incoming(a, after', b, n - 1);
    }
  }

  /** A visit that goes through has a state for every successor and commits it. */
  lemma VisitCommits<S>(a: Analysis<S>, snap: Snapshot<S>, b: BasicBlock) returns (entry: S, merged: map<BasicBlock, S>)
    requires a.body.WellFormed() && a.body.IsBlock(b) && Visit(a, snap, b).Next?
    ensures entry == EntryState(a, snap.states.after, b)
    ensures TerminatorStates(a, ExitState(a, entry, b), b) == Ok(merged)
    ensures forall s :: s in a.body.blocks[b].successors ==> s in merged
    ensures a.debugAssertions ==> forall t :: t in merged ==> t in a.body.blocks[b].successors
    ensures Visit(a, snap, b) == Next(Commit(a, snap, b, entry, merged))
  {
    entry := EntryState(a, snap.states.after, b);
    merged := TerminatorStates(a, ExitState(a, entry, b), b).value;
    FirstMissingSpec(a.body.blocks[b].successors, merged);
  }

  lemma CommittedBlockIsConsistent<S>(a: Analysis<S>, snap: Snapshot<S>, b: BasicBlock, entry: S, merged: map<BasicBlock, S>)
    requires a.body.IsBlock(b)
    requires forall s | s in a.body.blocks[b].successors :: s in merged
    requires TerminatorStates(a, ExitState(a, entry, b), b) == Ok(merged)
    requires EdgesOf(snap.states.after, b).Keys <= (set s | s in a.body.blocks[b].successors)
    requires a.debugAssertions ==> forall t | t in merged :: t in a.body.blocks[b].successors
    ensures Consistent(a, Commit(a, snap, b, entry, merged).states, b)
  {
    var next := Commit(a, snap, b, entry, merged).states;
    var n := a.body.blocks[b].statements;
    forall i: nat | i <= n
      ensures Location(b, i) in next.before && next.before[Location(b, i)] == StateAt(a, entry, b, i)
    {
      BlockBeforeAt(a, entry, b, n + 1, i);
    }
    forall i: nat | i < n ensures StatementEquation(a, next, b, i) {
      assert Location(b, i + 1) in next.before;
    }
    MergedEdgeEquations(a, next.before[Location(b, n)], b, merged);
  }

  lemma MergedEdgeEquations<S>(a: Analysis<S>, exit: S, b: BasicBlock, merged: map<BasicBlock, S>)
    requires a.body.IsBlock(b) && TerminatorStates(a, exit, b) == Ok(merged)
    ensures var effect := a.terminatorEffect(exit, a.body.TerminatorLocation(b));
            && effect.Ok?
            && (forall t :: t in merged <==> HasTarget(effect.value, t))
            && (forall t :: t in merged ==> EdgeEquation(a, effect.value, t, merged[t]))
  {
    var nexts := a.terminatorEffect(exit, a.body.TerminatorLocation(b)).value;
    forall t ensures t in merged <==> HasTarget(nexts, t) {
      MergedTargets(a, nexts, t);
    }
  }

  lemma OtherBlocksStayConsistent<S>(a: Analysis<S>, snap: Snapshot<S>, b: BasicBlock, c: BasicBlock, entry: S,
                                     merged: map<BasicBlock, S>)
    requires a.body.IsBlock(b) && a.body.IsBlock(c) && c != b
    requires forall s | s in a.body.blocks[b].successors :: s in merged
    requires Consistent(a, snap.states, c)
    ensures Consistent(a, Commit(a, snap, b, entry, merged).states, c)
  {
    var next := Commit(a, snap, b, entry, merged).states;
    BlockBeforeKeys(a, entry, b, a.body.blocks[b].statements + 1);
    forall i: nat | i <= a.body.blocks[c].statements
      ensures Location(c, i) in next.before && next.before[Location(c, i)] == snap.states.before[Location(c, i)]
    {
    }
    forall i: nat | i < a.body.blocks[c].statements ensures StatementEquation(a, next, c, i) {
      assert StatementEquation(a, snap.states, c, i);
    }
  }

  /** A block that a visit does not put back into the work set still sees the same incoming edges. */
  lemma IncomingKept<S>(a: Analysis<S>, snap: Snapshot<S>, b: BasicBlock, c: BasicBlock, entry: S,
                        merged: map<BasicBlock, S>)
    requires a.body.WellFormed() && a.body.IsBlock(b) && a.body.IsBlock(c)
    requires forall s | s in a.body.blocks[b].successors :: s in merged
    requires c !in Changed(a.body.blocks[b].successors, EdgesOf(snap.states.after, b), merged)
    ensures EntryState(a, snap.states.after, c) == EntryState(a, Commit(a, snap, b, entry, merged).states.after, c)
  {
    var next := Commit(a, snap, b, entry, merged);
    forall i | 0 <= i < |a.body.predecessors[c]|
      ensures Incoming(a, snap.states.after, c, i) == Incoming(a, next.states.after, c, i)
    {
      var p := a.body.predecessors[c][i];
      assert p in a.body.predecessors[c];
      if p == b {
        assert c in a.body.blocks[b].successors;
      }
    }
    EntryDependsOnIncoming(a, snap.states.after, next.states.after, c, |a.body.predecessors[c]|);
  }

  lemma EntryKept<S>(a: Analysis<S>, snap: Snapshot<S>, b: BasicBlock, c: BasicBlock, entry: S, merged: map<BasicBlock, S>)
    requires a.body.WellFormed() && a.body.IsBlock(b) && a.body.IsBlock(c)
    requires c != b && c !in snap.work ==> c in snap.states.after && EntrySettled(a, snap.states, c)
    requires entry == EntryState(a, snap.states.after, b)
    requires forall s | s in a.body.blocks[b].successors :: s in merged
    requires c !in Commit(a, snap, b, entry, merged).work
    ensures c in Commit(a, snap, b, entry, merged).states.after
    ensures EntrySettled(a, Commit(a, snap, b, entry, merged).states, c)
  {
    IncomingKept(a, snap, b, c, entry, merged);
    var n := a.body.blocks[b].statements + 1;
    if c != b {
      BlockBeforeKeys(a, entry, b, n);
      assert Location(c, 0) !in BlockBefore(a, entry, b, n);
    } else {
      BlockBeforeAt(a, entry, b, n, 0);
    }
  }

  lemma VisitKeepsConsistency<S>(a: Analysis<S>, snap: Snapshot<S>, b: BasicBlock, c: BasicBlock, entry: S,
                                 merged: map<BasicBlock, S>)
    requires a.body.WellFormed() && a.body.IsBlock(b) && WorklistInvariant(a, snap)
    requires forall s | s in a.body.blocks[b].successors :: s in merged
    requires TerminatorStates(a, ExitState(a, entry, b), b) == Ok(merged)
    requires a.debugAssertions ==> forall t | t in merged :: t in a.body.blocks[b].successors
    requires c in Commit(a, snap, b, entry, merged).states.after
    ensures a.body.IsBlock(c) && Consistent(a, Commit(a, snap, b, entry, merged).states, c)
  {
    if c != b {
      OtherBlocksStayConsistent(a, snap, b, c, entry, merged);
    } else {
      assert b in snap.states.after ==> Consistent(a, snap.states, b);
      CommittedBlockIsConsistent(a, snap, b, entry, merged);
    }
  }

  lemma VisitKeepsLocations<S>(a: Analysis<S>, snap: Snapshot<S>, b: BasicBlock, entry: S, merged: map<BasicBlock, S>)
    requires a.body.WellFormed() && a.body.IsBlock(b) && WorklistInvariant(a, snap)
    requires forall s | s in a.body.blocks[b].successors :: s in merged
    ensures var next := Commit(a, snap, b, entry, merged);
            && (forall c :: c in next.work ==> a.body.IsBlock(c))
            && (forall l :: l in next.states.before ==> a.body.IsLocation(l))
  {
    BlockBeforeKeys(a, entry, b, a.body.blocks[b].statements + 1);
  }

  /** The worklist invariant holds before and after every visit, whatever the domain. */
  lemma VisitKeepsInvariant<S>(a: Analysis<S>, snap: Snapshot<S>, b: BasicBlock, next: Snapshot<S>)
    requires a.body.WellFormed() && a.body.IsBlock(b)
    requires WorklistInvariant(a, snap) && Visit(a, snap, b) == Next(next)
    ensures WorklistInvariant(a, next)
  {
    var entry, merged := VisitCommits(a, snap, b);
    VisitKeepsLocations(a, snap, b, entry, merged);
    forall c | c in next.states.after ensures a.body.IsBlock(c) && Consistent(a, next.states, c) {
      VisitKeepsConsistency(a, snap, b, c, entry, merged);
    }
    forall c | a.body.IsBlock(c) && c !in next.work
      ensures c in next.states.after && EntrySettled(a, next.states, c)
    {
      EntryKept(a, snap, b, c, entry, merged);
    }
  }

  lemma {:induction false} InvariantOfEveryRun<S(!new)>(a: Analysis<S>, picks: seq<BasicBlock>, snap: Snapshot<S>)
    requires a.body.WellFormed() && Reaches(a, picks, snap)
    ensures WorklistInvariant(a, snap)
    decreases |picks|
  {
    if picks == [] {
      EmptyRun(a, snap);
    } else {
      var before, prev, b := LastVisit(a, picks, snap);
      InvariantOfEveryRun(a, before, prev);
      VisitKeepsInvariant(a, prev, b, snap);
    }
  }

  /** Every run that empties its work set ends in an exact solution of the dataflow equations. */
  lemma CompleteRunSolvesEquations<S(!new)>(a: Analysis<S>, picks: seq<BasicBlock>, snap: Snapshot<S>)
    requires a.body.WellFormed() && Reaches(a, picks, snap) && snap.work == {}
    ensures Solution(a, snap.states)
  {
    InvariantOfEveryRun(a, picks, snap);
    forall l | a.body.IsLocation(l) ensures l in snap.states.before {
      assert Consistent(a, snap.states, l.block);
      assert Location(l.block, l.statementIndex) == l;
    }
  }

  /** In every reachable state the map stored for a predecessor of `b` has an entry for `b`,
      so looking it up there cannot fail. */
  lemma PredecessorMapsContainBlock<S(!new)>(a: Analysis<S>, picks: seq<BasicBlock>, snap: Snapshot<S>,
                                             b: BasicBlock, p: BasicBlock)
    requires a.body.WellFormed() && Reaches(a, picks, snap) && a.body.IsBlock(b)
    requires p in a.body.predecessors[b] && p in snap.states.after
    ensures b in snap.states.after[p]
  {
    InvariantOfEveryRun(a, picks, snap);
    assert Consistent(a, snap.states, p);
  }

  /** A visit reports a missing successor exactly when the terminator effect reports it, or when that
      effect succeeds and `t` is the first successor to which it gives no state. */
  lemma MissingSuccessorIff<S>(a: Analysis<S>, snap: Snapshot<S>, b: BasicBlock, t: BasicBlock)
    requires a.body.WellFormed() && a.body.IsBlock(b)
    ensures
      var effect := a.terminatorEffect(ExitState(a, EntryState(a, snap.states.after, b), b), a.body.TerminatorLocation(b));
      var successors := a.body.blocks[b].successors;
      Visit(a, snap, b) == Failed(NoStateAfterSuccessor(b, t)) <==>
        match effect
        case Err(e) => e == NoStateAfterSuccessor(b, t)
        case Ok(nexts) =>
          && !HasTarget(nexts, t)
          && exists i :: 0 <= i < |successors| && successors[i] == t &&
                         forall j | 0 <= j < i :: HasTarget(nexts, successors[j])
  {
    var effect := a.terminatorEffect(ExitState(a, EntryState(a, snap.states.after, b), b), a.body.TerminatorLocation(b));
    if effect.Ok? {
      var successors := a.body.blocks[b].successors;
      var merged := Merge(a, effect.value);
      forall s ensures s in merged <==> HasTarget(effect.value, s) {
        MergedTargets(a, effect.value, s);
      }
      FirstMissingSpec(successors, merged);
      forall i | 0 <= i < |successors| && successors[i] == t && t !in merged && forall j | 0 <= j < i :: successors[j] in merged
        ensures FirstMissing(successors, merged) == Some(t)
      {
        FirstMissingUnique(successors, merged, i);
      }
    }
  }

  /** What the terminator effect gives when `b` is visited. */
  function EffectOfVisit<S>(a: Analysis<S>, snap: Snapshot<S>, b: BasicBlock): Result<seq<(BasicBlock, S)>, AnalysisError>
    requires a.body.IsBlock(b) && |a.body.predecessors| == |a.body.blocks|
  {
    a.terminatorEffect(ExitState(a, EntryState(a, snap.states.after, b), b), a.body.TerminatorLocation(b))
  }

  /** An unsupported terminator is reported exactly when the effect reports it, and the debug assertion
      fails exactly when it is compiled in, every successor has a state, and something else has one too. */
  lemma VisitStopsIff<S>(a: Analysis<S>, snap: Snapshot<S>, b: BasicBlock, l: Location)
    requires a.body.WellFormed() && a.body.IsBlock(b)
    ensures Visit(a, snap, b) == Failed(UnsupportedStatement(l)) <==> EffectOfVisit(a, snap, b) == Err(UnsupportedStatement(l))
    ensures var effect := EffectOfVisit(a, snap, b);
            Visit(a, snap, b) == Panicked <==>
              && a.debugAssertions && effect.Ok?
              && (forall s :: s in a.body.blocks[b].successors ==> HasTarget(effect.value, s))
              && exists t :: HasTarget(effect.value, t) && t !in a.body.blocks[b].successors
  {
    var effect := EffectOfVisit(a, snap, b);
    if effect.Ok? {
      forall t ensures t in Merge(a, effect.value) <==> HasTarget(effect.value, t) {
        MergedTargets(a, effect.value, t);
      }
      FirstMissingSpec(a.body.blocks[b].successors, Merge(a, effect.value));
    }
  }

  lemma {:induction false} FirstMissingUnique<S>(successors: seq<BasicBlock>, merged: map<BasicBlock, S>, i: nat)
    requires i < |successors| && successors[i] !in merged && forall j | 0 <= j < i :: successors[j] in merged
    ensures FirstMissing(successors, merged) == Some(successors[i])
  {
    if i > 0 { FirstMissingUnique(successors[1..], merged, i - 1); }
  }
}
