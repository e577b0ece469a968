/** The domain of definitely allocated locals: a lattice on which the solver terminates without an
    error, and the exact meaning of what it computes there. */
module DefinitelyAllocated {
  import opened Wrappers
  import opened Collections
  import opened Mir
  import opened AbstractInterpretation
  import opened FixpointTheorems
  import opened FixpointEngine

  type Local = nat

  datatype StatementKind = StorageLive(local: Local) | StorageDead(local: Local) | Other

  /** A body with its statements. Local 0 is the return place, then come `args` arguments. */
  datatype MirBody = MirBody(body: Body, statements: seq<seq<StatementKind>>, args: nat, locals: nat) {

    ghost predicate WellFormed() {
      && body.WellFormed()
      && |statements| == |body.blocks|
      && (forall b: BasicBlock :: b < |statements| ==> |statements[b]| == body.blocks[b].statements)
      && (forall b: BasicBlock, i: nat :: b < |statements| && i < |statements[b]| ==> Declares(statements[b][i]))
    }

    predicate Declares(kind: StatementKind) {
      kind.Other? || IsLocal(kind.local)
    }

    predicate IsLocal(x: Local) {
      IsNatBelow(x, locals)
    }

    function AllLocals(): set<Local> {
      NatsBelow(locals)
    }

    predicate HasStatement(l: Location) {
      l.block < |statements| && l.statementIndex < |statements[l.block]|
    }
  }

  predicate Names(kind: StatementKind, x: Local) {
    !kind.Other? && kind.local == x
  }

  /** The locals that the statements allocate or free. */
  function NamedIn(statements: seq<StatementKind>): set<Local> {
    set k | k in statements && !k.Other? :: k.local
  }

  function NamedInBlocks(blocks: seq<seq<StatementKind>>): set<Local> {
    set statements, k | statements in blocks && k in statements && !k.Other? :: k.local
  }

  // ----- the domain -----

  function KindEffect(s: set<Local>, kind: StatementKind): set<Local> {
    match kind
    case StorageLive(x) => s + {x}
    case StorageDead(x) => s - {x}
    case Other => s
  }

  function StatementEffect(m: MirBody, s: set<Local>, l: Location): set<Local> {
    if m.HasStatement(l) then KindEffect(s, m.statements[l.block][l.statementIndex]) else s
  }

  function ForAll(successors: seq<BasicBlock>, s: set<Local>): seq<(BasicBlock, set<Local>)> {
    seq(|successors|, i requires 0 <= i < |successors| => (successors[i], s))
  }

  function TerminatorEffect(m: MirBody, s: set<Local>, l: Location): Result<seq<(BasicBlock, set<Local>)>, AnalysisError> {
    Ok(if m.body.IsBlock(l.block) then ForAll(m.body.blocks[l.block].successors, s) else [])
  }

  /** Variables and temporaries that no statement allocates or frees. */
  function InitialLocals(m: MirBody): set<Local> {
    (set x: Local | m.args < x < m.locals && m.IsLocal(x)) - NamedInBlocks(m.statements)
  }

  function AllocatedAnalysis(m: MirBody, debugAssertions: bool): Analysis<set<Local>> {
    Analysis(m.body, m.AllLocals(), InitialLocals(m), (x, y) => x * y, (s, l) => StatementEffect(m, s, l),
             (s, l) => TerminatorEffect(m, s, l), debugAssertions)
  }

  /** A set of locals, updated in place. */
  class DefinitelyAllocatedState {
    var defAllocatedLocals: set<Local>
    const mir: MirBody

    constructor (mir: MirBody, locals: set<Local>)
      ensures this.mir == mir && defAllocatedLocals == locals
    {
      this.mir := mir;
      defAllocatedLocals := locals;
    }

    method ApplyStatementEffect(location: Location)
      requires mir.HasStatement(location)
      modifies this
      ensures defAllocatedLocals == StatementEffect(mir, old(defAllocatedLocals), location)
      ensures forall x :: x in defAllocatedLocals <==>
                AllocatesAt(mir, location, x) || (x in old(defAllocatedLocals) && !NamesAt(mir, location, x))
    {
      match mir.statements[location.block][location.statementIndex]
      case StorageLive(local) => defAllocatedLocals := defAllocatedLocals + {local};
      case StorageDead(local) => defAllocatedLocals := defAllocatedLocals - {local};
      case Other =>
    }

    method ApplyTerminatorEffect(location: Location) returns (res: seq<(BasicBlock, set<Local>)>)
      requires mir.body.IsBlock(location.block)
      ensures Ok(res) == TerminatorEffect(mir, defAllocatedLocals, location)
    {
      res := [];
      var successors := mir.body.blocks[location.block].successors;
      for i := 0 to |successors|
        invariant res == ForAll(successors[..i], defAllocatedLocals)
      {
        assert successors[..i + 1] == successors[..i] + [successors[i]];
        res := res + [(successors[i], defAllocatedLocals)];
      }
      assert successors[..|successors|] == successors;
    }

    /** Keeps the locals that the other state has too. */
    method Join(other: set<Local>)
      modifies this
      ensures defAllocatedLocals == old(defAllocatedLocals) * other
    {
      var todo := defAllocatedLocals;
      while todo != {}
        invariant todo <= old(defAllocatedLocals)
        invariant defAllocatedLocals == todo + (old(defAllocatedLocals) - todo) * other
      {
        var local :| local in todo;
        todo := todo - {local};
        if local !in other {
          defAllocatedLocals := defAllocatedLocals - {local};
        }
      }
    }
  }

  ghost predicate MentionedAt(m: MirBody, b: BasicBlock, i: nat, x: Local) {
    b < |m.statements| && i < |m.statements[b]| && Names(m.statements[b][i], x)
  }

  /** Some statement of the body allocates or frees `x`. */
  ghost predicate Mentioned(m: MirBody, x: Local) {
    exists b, i :: MentionedAt(m, b, i, x)
  }

  lemma MentionedIffNamed(m: MirBody, x: Local)
    ensures x in NamedInBlocks(m.statements) <==> Mentioned(m, x)
  {
    if x in NamedInBlocks(m.statements) {
      var statements, k :| statements in m.statements && k in statements && !k.Other? && k.local == x;
      var b :| 0 <= b < |m.statements| && m.statements[b] == statements;
      var i :| 0 <= i < |statements| && statements[i] == k;
      assert MentionedAt(m, b, i, x);
    }
    if b: BasicBlock, i: nat :| MentionedAt(m, b, i, x) {
      assert m.statements[b] in m.statements && m.statements[b][i] in m.statements[b];
    }
  }

  /** Allocated at the start are exactly the variables and temporaries that no statement names. */
  lemma InitialLocalsIff(m: MirBody, x: Local)
    ensures x in InitialLocals(m) <==> m.args < x < m.locals && !Mentioned(m, x)
  {
    MentionedIffNamed(m, x);
  }

  method NewInitial(m: MirBody) returns (locals: set<Local>)
    ensures locals == InitialLocals(m)
    ensures forall x :: x in locals <==> m.args < x < m.locals && !Mentioned(m, x)
  {
    forall x: Local ensures x in InitialLocals(m) <==> m.args < x < m.locals && !Mentioned(m, x) { InitialLocalsIff(m, x); }
    locals := set x: Local | m.args < x < m.locals && m.IsLocal(x);
    ghost var candidates := locals;
    for b := 0 to |m.statements|
      invariant locals == candidates - NamedInBlocks(m.statements[..b])
    {
      ghost var before := locals;
      var statements := m.statements[b];
      for i := 0 to |statements|
        invariant locals == before - NamedIn(statements[..i])
      {
        if !statements[i].Other? {
          locals := locals - {statements[i].local};
        }
        assert statements[..i + 1] == statements[..i] + [statements[i]];
      }
      assert statements[..|statements|] == statements;
      assert m.statements[..b + 1] == m.statements[..b] + [statements];
    }
    assert m.statements[..|m.statements|] == m.statements;
  }

  // ----- the laws -----

  /** The larger state is the one that promises less. */
  ghost function AllocatedLattice(m: MirBody): Lattice<set<Local>> {
    Lattice(s => s <= m.AllLocals(), (x, y) => y <= x)
  }

  ghost function Rank(m: MirBody): set<Local> -> nat {
    s => if |s| <= m.locals then m.locals - |s| else 0
  }

  /** Every successor, and nothing else, is sent the state before the terminator. */
  lemma TerminatorPassesOn(m: MirBody, debugAssertions: bool, s: set<Local>, b: BasicBlock)
    requires m.body.IsBlock(b)
    ensures var r := AllocatedAnalysis(m, debugAssertions).terminatorEffect(s, m.body.TerminatorLocation(b));
            && r.Ok?
            && (forall t :: HasTarget(r.value, t) <==> t in m.body.blocks[b].successors)
            && forall k :: 0 <= k < |r.value| ==> r.value[k].1 == s
  {
    var successors := m.body.blocks[b].successors;
    var nexts := ForAll(successors, s);
    assert AllocatedAnalysis(m, debugAssertions).terminatorEffect(s, m.body.TerminatorLocation(b)) == Ok(nexts);
    forall t | t in successors ensures HasTarget(nexts, t) {
      var k :| 0 <= k < |successors| && successors[k] == t;
      assert nexts[k].0 == t;
    }
  }

  lemma AllocatedJoinLaws(m: MirBody, debugAssertions: bool)
    requires m.WellFormed()
    ensures JoinLaws(AllocatedAnalysis(m, debugAssertions), AllocatedLattice(m))
  {
    var a, lat := AllocatedAnalysis(m, debugAssertions), AllocatedLattice(m);
    forall x, y | lat.contains(x) && lat.contains(y) && lat.le(x, y) && lat.le(y, x) ensures x == y {
      assert x <= y && y <= x;
    }
  }

  lemma AllocatedTransformers(m: MirBody, debugAssertions: bool)
    requires m.WellFormed()
    ensures ClosedTransformers(AllocatedAnalysis(m, debugAssertions), AllocatedLattice(m))
    ensures MonotoneTransformers(AllocatedAnalysis(m, debugAssertions), AllocatedLattice(m))
  {
    var a, lat := AllocatedAnalysis(m, debugAssertions), AllocatedLattice(m);
    forall x, l | lat.contains(x) && a.body.IsTerminator(l) ensures StatesInside(lat, a.terminatorEffect(x, l)) {
      assert l == m.body.TerminatorLocation(l.block);
      TerminatorPassesOn(m, debugAssertions, x, l.block);
    }
    forall x, y, l | lat.contains(x) && lat.contains(y) && a.body.IsTerminator(l) && lat.le(x, y)
      ensures SendsLess(lat, a.terminatorEffect(x, l), a.terminatorEffect(y, l))
    {
      assert l == m.body.TerminatorLocation(l.block);
      TerminatorPassesOn(m, debugAssertions, x, l.block);
      TerminatorPassesOn(m, debugAssertions, y, l.block);
    }
    forall x, l | lat.contains(x) && a.body.IsStatement(l) ensures lat.contains(a.statementEffect(x, l)) {
      assert m.Declares(m.statements[l.block][l.statementIndex]);
    }
  }

  /** The laws that the theorems about the solver ask for hold of this domain. */
  lemma AllocatedLaws(m: MirBody, debugAssertions: bool)
    requires m.WellFormed()
    ensures Laws(AllocatedAnalysis(m, debugAssertions), AllocatedLattice(m))
    ensures FiniteHeight(AllocatedLattice(m), Rank(m), m.locals)
  {
    AllocatedJoinLaws(m, debugAssertions);
    AllocatedTransformers(m, debugAssertions);
    AllocatedHeight(m);
  }

  lemma AllocatedHeight(m: MirBody)
    ensures FiniteHeight(AllocatedLattice(m), Rank(m), m.locals)
  {
    var lat, rank := AllocatedLattice(m), Rank(m);
    forall x, y | lat.contains(x) && lat.contains(y) && lat.le(x, y) && x != y ensures rank(x) < rank(y) {
      SubsetSize(y, x);
      SubsetSize(x, m.AllLocals());
      CountNatsBelow(m.locals);
    }
  }

  lemma SubsetSize(x: set<Local>, y: set<Local>)
    requires x <= y
    ensures |x| <= |y| && (x != y ==> |x| < |y|)
  {
    assert y == x + (y - x);
    assert |y| == |x| + |y - x|;
    if x != y { assert y - x != {}; }
  }

  /** No visit runs into an error or a failing debug assertion. */
  lemma AllocatedNeverFails(m: MirBody, debugAssertions: bool, snap: Snapshot<set<Local>>, b: BasicBlock)
    requires m.WellFormed() && m.body.IsBlock(b)
    ensures Visit(AllocatedAnalysis(m, debugAssertions), snap, b).Next?
  {
    var a := AllocatedAnalysis(m, debugAssertions);
    TerminatorPassesOn(m, debugAssertions, ExitState(a, EntryState(a, snap.states.after, b), b), b);
    AcceptedVisitGoesThrough(a, snap, b);
  }

  // ----- what the analysis computes -----

  /** Control passes from `l` to `l'`. */
  ghost predicate Follows(body: Body, l: Location, l': Location) {
    && body.IsLocation(l)
    && if l.statementIndex < body.blocks[l.block].statements then l' == Location(l.block, l.statementIndex + 1)
       else l'.statementIndex == 0 && l'.block in body.blocks[l.block].successors
  }

  /** A control-flow path from the first location of some block. */
  ghost predicate Walk(m: MirBody, w: seq<Location>) {
    && w != [] && m.body.IsBlock(w[0].block) && w[0].statementIndex == 0
    && forall i: nat :: 0 < i < |w| ==> FollowsAt(m, w, i)
  }

  ghost predicate FollowsAt(m: MirBody, w: seq<Location>, i: nat)
    requires 0 < i < |w|
  {
    Follows(m.body, w[i - 1], w[i])
  }

  ghost predicate WalkTo(m: MirBody, w: seq<Location>, l: Location) {
    Walk(m, w) && w[|w| - 1] == l
  }

  predicate NamesAt(m: MirBody, l: Location, x: Local) {
    m.HasStatement(l) && Names(m.statements[l.block][l.statementIndex], x)
  }

  predicate AllocatesAt(m: MirBody, l: Location, x: Local) {
    m.HasStatement(l) && m.statements[l.block][l.statementIndex] == StorageLive(x)
  }

  /** At the start of the body the variables and temporaries that no statement names are taken to be
      allocated, at the start of any other block all locals. */
  ghost predicate AllocatedAtStart(m: MirBody, b: BasicBlock, x: Local) {
    if b == START_BLOCK then m.args < x < m.locals && !Mentioned(m, x) else m.IsLocal(x)
  }

  /** No statement of `w` from the `from`-th on, up to where it ends, names `x`. */
  ghost predicate NotNamedFrom(m: MirBody, w: seq<Location>, from: nat, x: Local) {
    forall k: nat :: from <= k < |w| - 1 ==> !NamesAt(m, w[k], x)
  }

  ghost predicate LastAllocatedAt(m: MirBody, w: seq<Location>, j: nat, x: Local) {
    j < |w| - 1 && AllocatesAt(m, w[j], x) && NotNamedFrom(m, w, j + 1, x)
  }

  /** Where `w` ends, the last statement on it that names `x` allocates it; or none names it and it is
      allocated where `w` begins. */
  ghost predicate AllocatedAfter(m: MirBody, w: seq<Location>, x: Local)
    requires w != []
  {
    (exists j :: LastAllocatedAt(m, w, j, x)) || (AllocatedAtStart(m, w[0].block, x) && NotNamedFrom(m, w, 0, x))
  }

  /** `x` is allocated at the end of every path to `l`. */
  ghost predicate AllocatedOnAllPaths(m: MirBody, l: Location, x: Local) {
    m.IsLocal(x) && forall w :: WalkTo(m, w, l) ==> AllocatedAfter(m, w, x)
  }

  /** One more step matters only if the statement passed names `x`. */
  lemma HistoryStep(m: MirBody, w: seq<Location>, l: Location, x: Local)
    requires w != []
    ensures var last := w[|w| - 1];
            AllocatedAfter(m, w + [l], x) <==>
              AllocatesAt(m, last, x) || (!NamesAt(m, last, x) && AllocatedAfter(m, w, x))
  {
    var n, longer := |w| - 1, w + [l];
    assert longer[n] == w[n];
    if AllocatesAt(m, w[n], x) {
      assert LastAllocatedAt(m, longer, n, x);
    } else if NamesAt(m, w[n], x) {
      forall j: nat | j <= n ensures !NotNamedFrom(m, longer, j, x) {
        assert NamesAt(m, longer[n], x);
      }
    } else {
      forall j: nat ensures NotNamedFrom(m, longer, j, x) <==> NotNamedFrom(m, w, j, x) {
        UnnamedStep(m, w, l, j, x);
      }
      forall j: nat ensures LastAllocatedAt(m, longer, j, x) <==> LastAllocatedAt(m, w, j, x) {
      }
    }
  }

  lemma UnnamedStep(m: MirBody, w: seq<Location>, l: Location, j: nat, x: Local)
    requires w != [] && !NamesAt(m, w[|w| - 1], x)
    ensures NotNamedFrom(m, w + [l], j, x) <==> NotNamedFrom(m, w, j, x)
  {
    var longer := w + [l];
    forall k: nat | j <= k < |w| - 1 ensures longer[k] == w[k] {
    }
    if NotNamedFrom(m, longer, j, x) {
      forall k: nat | j <= k < |w| - 1 ensures !NamesAt(m, w[k], x) {
        assert !NamesAt(m, longer[k], x);
      }
    }
  }

  /** The locals allocated along `w`, by the transformer of the domain. */
  ghost function StateAlong(m: MirBody, w: seq<Location>): set<Local>
    requires w != []
  {
    var n := |w| - 1;
    if n == 0 then (if w[0].block == START_BLOCK then InitialLocals(m) else m.AllLocals())
    else StatementEffect(m, StateAlong(m, w[..n]), w[n - 1])
  }

  /** The transformer keeps exactly the history of allocations. */
  lemma {:induction false} StateAlongIsHistory(m: MirBody, w: seq<Location>, x: Local)
    requires w != []
    ensures x in StateAlong(m, w) <==> AllocatedAfter(m, w, x)
    decreases |w|
  {
    var n := |w| - 1;
    if n == 0 {
      InitialLocalsIff(m, x);
    } else {
      var front := w[..n];
      StateAlongIsHistory(m, front, x);
      HistoryStep(m, front, w[n], x);
      assert w == front + [w[n]] && front[n - 1] == w[n - 1];
    }
  }

  lemma WalkExtends(m: MirBody, w: seq<Location>, l: Location, l': Location)
    requires WalkTo(m, w, l) && Follows(m.body, l, l')
    ensures WalkTo(m, w + [l'], l')
    ensures StateAlong(m, w + [l']) == StatementEffect(m, StateAlong(m, w), l)
  {
    var longer := w + [l'];
    assert longer[..|w|] == w && longer[|w| - 1] == l;
    forall i: nat | 0 < i < |longer| ensures FollowsAt(m, longer, i) {
      if i < |w| { assert FollowsAt(m, w, i); }
    }
  }

  lemma WalkPrefix(m: MirBody, w: seq<Location>, n: nat)
    requires Walk(m, w) && 0 < n <= |w|
    ensures WalkTo(m, w[..n], w[n - 1])
  {
    var front := w[..n];
    forall i: nat | 0 < i < n ensures FollowsAt(m, front, i) {
      assert FollowsAt(m, w, i);
    }
  }

  /** Every location of a block lies on the path that begins at the block. */
  lemma {:induction false} SomeWalkReaches(m: MirBody, b: BasicBlock, i: nat) returns (w: seq<Location>)
    requires m.body.IsBlock(b) && i <= m.body.blocks[b].statements
    ensures WalkTo(m, w, Location(b, i))
  {
    if i == 0 {
      w := [Location(b, 0)];
    } else {
      w := SomeWalkReaches(m, b, i - 1);
      WalkExtends(m, w, Location(b, i - 1), Location(b, i));
      w := w + [Location(b, i)];
    }
  }

  // ----- the result has at least what all paths have -----

  ghost function MeetOverPaths(m: MirBody, l: Location): set<Local> {
    set x: Local | x < m.locals && AllocatedOnAllPaths(m, l, x)
  }

  ghost function Locations(body: Body): set<Location> {
    set b: BasicBlock, i: nat | b < |body.blocks| && i <= body.blocks[b].statements :: Location(b, i)
  }

  /** The states that hold exactly what is allocated on all paths. */
  ghost function PathStates(m: MirBody): States<set<Local>> {
    States(map l | l in Locations(m.body) :: MeetOverPaths(m, l),
           map b | b in AllBlocks(m.body) ::
             map s | s in m.body.blocks[b].successors :: MeetOverPaths(m, m.body.TerminatorLocation(b)))
  }

  lemma PathStatementBound(m: MirBody, b: BasicBlock, i: nat, x: Local)
    requires m.WellFormed() && m.body.IsBlock(b) && i < m.body.blocks[b].statements
    requires AllocatedOnAllPaths(m, Location(b, i + 1), x)
    ensures x in StatementEffect(m, MeetOverPaths(m, Location(b, i)), Location(b, i))
  {
    var l, l' := Location(b, i), Location(b, i + 1);
    forall w | WalkTo(m, w, l) ensures AllocatesAt(m, l, x) || (!NamesAt(m, l, x) && AllocatedAfter(m, w, x)) {
      WalkExtends(m, w, l, l');
      HistoryStep(m, w, l', x);
    }
    var w := SomeWalkReaches(m, b, i);
    if !AllocatesAt(m, l, x) { assert AllocatedOnAllPaths(m, l, x); }
  }

  lemma PathEdgeBound(m: MirBody, b: BasicBlock, s: BasicBlock, x: Local)
    requires m.WellFormed() && m.body.IsEdge(b, s)
    requires AllocatedOnAllPaths(m, Location(s, 0), x)
    ensures AllocatedOnAllPaths(m, m.body.TerminatorLocation(b), x)
  {
    var l := m.body.TerminatorLocation(b);
    assert !m.HasStatement(l);
    forall w | WalkTo(m, w, l) ensures AllocatedAfter(m, w, x) {
      WalkExtends(m, w, l, Location(s, 0));
      HistoryStep(m, w, Location(s, 0), x);
    }
  }

  lemma PathStatementsBound(m: MirBody, debugAssertions: bool, b: BasicBlock)
    requires m.WellFormed() && m.body.IsBlock(b)
    ensures var a, lat, p := AllocatedAnalysis(m, debugAssertions), AllocatedLattice(m), PathStates(m);
            forall i: nat :: i < m.body.blocks[b].statements ==> StatementBound(a, lat, p, b, i)
  {
    var a, lat, p := AllocatedAnalysis(m, debugAssertions), AllocatedLattice(m), PathStates(m);
    forall i: nat | i < m.body.blocks[b].statements ensures StatementBound(a, lat, p, b, i) {
      forall x | x in p.before[Location(b, i + 1)] ensures x in a.statementEffect(p.before[Location(b, i)], Location(b, i)) {
        PathStatementBound(m, b, i, x);
      }
    }
  }

  lemma PathStartBound(m: MirBody, debugAssertions: bool, b: BasicBlock, x: Local)
    requires m.body.IsBlock(b) && AllocatedOnAllPaths(m, Location(b, 0), x)
    ensures x in Start(AllocatedAnalysis(m, debugAssertions), b)
  {
    var w := [Location(b, 0)];
    assert WalkTo(m, w, Location(b, 0));
    StateAlongIsHistory(m, w, x);
  }

  lemma PathEntryBound(m: MirBody, debugAssertions: bool, b: BasicBlock)
    requires m.WellFormed() && m.body.IsBlock(b)
    ensures var p := PathStates(m);
            && p.before[Location(b, 0)] <= Start(AllocatedAnalysis(m, debugAssertions), b)
            && forall q :: q in m.body.predecessors[b] ==>
                 q in p.after && b in p.after[q] && p.before[Location(b, 0)] <= p.after[q][b]
  {
    var p := PathStates(m);
    forall x | x in p.before[Location(b, 0)] ensures x in Start(AllocatedAnalysis(m, debugAssertions), b) {
      PathStartBound(m, debugAssertions, b, x);
    }
    forall q | q in m.body.predecessors[b]
      ensures q in p.after && b in p.after[q] && p.before[Location(b, 0)] <= p.after[q][b]
    {
      assert m.body.IsEdge(q, b);
      forall x | x in p.before[Location(b, 0)] ensures x in p.after[q][b] {
        PathEdgeBound(m, q, b, x);
      }
    }
  }

  lemma PathStatesAreBound(m: MirBody, debugAssertions: bool, b: BasicBlock)
    requires m.WellFormed() && m.body.IsBlock(b)
    ensures BlockBound(AllocatedAnalysis(m, debugAssertions), AllocatedLattice(m), PathStates(m), b)
  {
    PathStatementsBound(m, debugAssertions, b);
    PathEntryBound(m, debugAssertions, b);
    PathEdgesBound(m, debugAssertions, b);
  }

  lemma PathEdgesBound(m: MirBody, debugAssertions: bool, b: BasicBlock)
    requires m.WellFormed() && m.body.IsBlock(b)
    ensures var a, lat, p := AllocatedAnalysis(m, debugAssertions), AllocatedLattice(m), PathStates(m);
            var l := m.body.TerminatorLocation(b);
            var effect := a.terminatorEffect(p.before[l], l);
            && effect.Ok?
            && forall s :: s in m.body.blocks[b].successors ==> HasTarget(effect.value, s) && SentBound(lat, p, b, s, effect.value)
  {
    var p, l := PathStates(m), m.body.TerminatorLocation(b);
    TerminatorPassesOn(m, debugAssertions, p.before[l], b);
    forall s | s in m.body.blocks[b].successors ensures p.after[b][s] == p.before[l] {
    }
  }

  lemma PathStatesArePostFixpoint(m: MirBody, debugAssertions: bool)
    requires m.WellFormed()
    ensures PostFixpoint(AllocatedAnalysis(m, debugAssertions), AllocatedLattice(m), PathStates(m))
  {
    var a, lat, p := AllocatedAnalysis(m, debugAssertions), AllocatedLattice(m), PathStates(m);
    forall l ensures lat.contains(MeetOverPaths(m, l)) {
      assert MeetOverPaths(m, l) <= m.AllLocals();
    }
    forall b: BasicBlock | m.body.IsBlock(b) ensures BlockBound(a, lat, p, b) {
      PathStatesAreBound(m, debugAssertions, b);
    }
  }

  // ----- and at most that -----

  /** What happens to the allocated locals when control passes through the body. */
  ghost function AllocationSemantics(m: MirBody): Semantics<set<Local>> {
    Semantics((c, l: Location, c') => c' == StatementEffect(m, c, l),
              (c, l: Location, c', s: BasicBlock) => m.body.IsEdge(l.block, s) && c' == c)
  }

  /** What a state stands for: every set of allocated locals that has at least those of the state. */
  ghost function Concretise(): (set<Local>, set<Local>) -> bool {
    (x, c) => x <= c
  }

  lemma AllocatedIsSound(m: MirBody, debugAssertions: bool)
    requires m.WellFormed()
    ensures var a, sem := AllocatedAnalysis(m, debugAssertions), AllocationSemantics(m);
            JoinCovers(a, Concretise()) && StatementsSound(a, sem, Concretise()) && TerminatorsSound(a, sem, Concretise())
  {
    var a, sem, gamma := AllocatedAnalysis(m, debugAssertions), AllocationSemantics(m), Concretise();
    forall x, l, c, c', s | gamma(x, c) && sem.terminatorStep(c, l, c', s) && a.terminatorEffect(x, l).Ok?
      ensures Covered(a.terminatorEffect(x, l).value, gamma, s, c')
    {
      var k :| 0 <= k < |m.body.blocks[l.block].successors| && m.body.blocks[l.block].successors[k] == s;
      assert a.terminatorEffect(x, l).value[k] == (s, x);
    }
  }

  lemma BlockStartIsCovered(m: MirBody, debugAssertions: bool, st: States<set<Local>>, b: BasicBlock)
    requires m.WellFormed() && m.body.IsBlock(b) && EntrySettled(AllocatedAnalysis(m, debugAssertions), st, b)
    ensures st.before[Location(b, 0)] <= Start(AllocatedAnalysis(m, debugAssertions), b)
  {
    var a := AllocatedAnalysis(m, debugAssertions);
    AllocatedIsSound(m, debugAssertions);
    EntryCovers(a, Concretise(), st.after, b, |m.body.predecessors[b]|, Start(a, b));
  }

  ghost predicate Covers(st: States<set<Local>>, l: Location, c: set<Local>) {
    l in st.before && st.before[l] <= c
  }

  /** What `st` has at a location is allocated there on every path: this holds at the first location of
      each block and is kept by each step. */
  ghost predicate CoversStarts(m: MirBody, st: States<set<Local>>) {
    forall b: BasicBlock :: m.body.IsBlock(b) ==> Covers(st, Location(b, 0), StateAlong(m, [Location(b, 0)]))
  }

  ghost predicate StepKeepsCover(m: MirBody, st: States<set<Local>>, l: Location, c: set<Local>, l': Location) {
    Covers(st, l, c) && Follows(m.body, l, l') ==> Covers(st, l', StatementEffect(m, c, l))
  }

  ghost predicate StepsKeepCover(m: MirBody, st: States<set<Local>>) {
    forall l, c, l' :: StepKeepsCover(m, st, l, c, l')
  }

  lemma SolutionCoversPaths(m: MirBody, debugAssertions: bool, st: States<set<Local>>)
    requires m.WellFormed() && Solution(AllocatedAnalysis(m, debugAssertions), st)
    ensures CoversStarts(m, st) && StepsKeepCover(m, st)
  {
    var a, sem := AllocatedAnalysis(m, debugAssertions), AllocationSemantics(m);
    forall b: BasicBlock | m.body.IsBlock(b) ensures Covers(st, Location(b, 0), StateAlong(m, [Location(b, 0)])) {
      BlockStartIsCovered(m, debugAssertions, st, b);
    }
    AllocatedIsSound(m, debugAssertions);
    forall l, c, l' | Covers(st, l, c) && Follows(m.body, l, l') ensures Covers(st, l', StatementEffect(m, c, l)) {
      StepIsCovered(a, sem, Concretise(), st, l, c, l', StatementEffect(m, c, l));
    }
  }

  lemma {:induction false} WalkIsCovered(m: MirBody, st: States<set<Local>>, w: seq<Location>)
    requires CoversStarts(m, st) && StepsKeepCover(m, st) && Walk(m, w)
    ensures Covers(st, w[|w| - 1], StateAlong(m, w))
    decreases |w|
  {
    var n := |w| - 1;
    if n == 0 {
      assert w == [Location(w[0].block, 0)];
    } else {
      WalkPrefix(m, w, n);
      WalkIsCovered(m, st, w[..n]);
      assert FollowsAt(m, w, n);
      assert StepKeepsCover(m, st, w[n - 1], StateAlong(m, w[..n]), w[n]);
    }
  }

  lemma ResultIsAllocated(m: MirBody, st: States<set<Local>>, l: Location, x: Local)
    requires CoversStarts(m, st) && StepsKeepCover(m, st)
    requires l in st.before && x in st.before[l] && m.IsLocal(x)
    ensures AllocatedOnAllPaths(m, l, x)
  {
    forall w | WalkTo(m, w, l) ensures AllocatedAfter(m, w, x) {
      WalkIsCovered(m, st, w);
      StateAlongIsHistory(m, w, x);
    }
  }

  lemma BelowPathStates(m: MirBody, st: States<set<Local>>, l: Location, x: Local)
    requires Below(AllocatedLattice(m), st, PathStates(m))
    requires l in st.before && AllocatedOnAllPaths(m, l, x)
    ensures x in st.before[l]
  {
    assert x in MeetOverPaths(m, l) && PathStates(m).before[l] <= st.before[l];
  }

  lemma RunStaysBelowPathStates(m: MirBody, debugAssertions: bool, picks: seq<BasicBlock>, snap: Snapshot<set<Local>>)
    requires m.WellFormed() && Reaches(AllocatedAnalysis(m, debugAssertions), picks, snap)
    ensures Below(AllocatedLattice(m), snap.states, PathStates(m))
  {
    AllocatedLaws(m, debugAssertions);
    PathStatesArePostFixpoint(m, debugAssertions);
    RunStaysBelow(AllocatedAnalysis(m, debugAssertions), AllocatedLattice(m), picks, snap, PathStates(m));
  }

  /** The result is exact: a complete run, in whatever order, finds precisely the locals that are
      allocated at the end of every control-flow path. */
  lemma AllocatedExactly(m: MirBody, debugAssertions: bool, picks: seq<BasicBlock>, snap: Snapshot<set<Local>>,
                         l: Location, x: Local)
    requires m.WellFormed() && m.body.IsLocation(l)
    requires Reaches(AllocatedAnalysis(m, debugAssertions), picks, snap) && snap.work == {}
    ensures l in snap.states.before
    ensures x in snap.states.before[l] <==> AllocatedOnAllPaths(m, l, x)
  {
    var a, lat := AllocatedAnalysis(m, debugAssertions), AllocatedLattice(m);
    AllocatedLaws(m, debugAssertions);
    CompleteRunSolvesEquations(a, picks, snap);
    RunStaysInside(a, lat, picks, snap);
    SolutionCoversPaths(m, debugAssertions, snap.states);
    assert lat.contains(snap.states.before[l]);
    if x in snap.states.before[l] { ResultIsAllocated(m, snap.states, l, x); }
    RunStaysBelowPathStates(m, debugAssertions, picks, snap);
    if AllocatedOnAllPaths(m, l, x) { BelowPathStates(m, snap.states, l, x); }
  }

  // ----- on executions only -----

  /** A path to `l` from the start of the body. */
  ghost predicate ExecutionTo(m: MirBody, w: seq<Location>, l: Location) {
    WalkTo(m, w, l) && w[0].block == START_BLOCK
  }

  ghost predicate Reachable(m: MirBody, l: Location) {
    exists w :: ExecutionTo(m, w, l)
  }

  lemma EffectMonotone(m: MirBody, c: set<Local>, d: set<Local>, l: Location)
    requires c <= d
    ensures StatementEffect(m, c, l) <= StatementEffect(m, d, l)
  {
  }

  lemma {:induction false} StateAlongInside(m: MirBody, w: seq<Location>)
    requires m.WellFormed() && w != []
    ensures StateAlong(m, w) <= m.AllLocals()
    decreases |w|
  {
    var n := |w| - 1;
    if n > 0 {
      StateAlongInside(m, w[..n]);
      var l := w[n - 1];
      if m.HasStatement(l) { assert m.Declares(m.statements[l.block][l.statementIndex]); }
    }
  }

  /** Whatever block a path begins at, if that block is reachable then some execution ends where the
      path ends, with at most the locals of the path allocated. */
  lemma {:induction false} ExecutionBelowWalk(m: MirBody, w: seq<Location>) returns (u: seq<Location>)
    requires m.WellFormed() && Walk(m, w) && Reachable(m, w[0])
    ensures ExecutionTo(m, u, w[|w| - 1]) && StateAlong(m, u) <= StateAlong(m, w)
    decreases |w|
  {
    var n := |w| - 1;
    if n == 0 {
      if w[0].block == START_BLOCK {
        u := w;
      } else {
        u :| ExecutionTo(m, u, w[0]);
        StateAlongInside(m, u);
      }
    } else {
      WalkPrefix(m, w, n);
      u := ExecutionBelowWalk(m, w[..n]);
      assert FollowsAt(m, w, n);
      WalkExtends(m, u, w[n - 1], w[n]);
      EffectMonotone(m, StateAlong(m, u), StateAlong(m, w[..n]), w[n - 1]);
      u := u + [w[n]];
    }
  }

  /** If all blocks are reachable, the result is precisely what every execution has allocated. */
  lemma AllocatedExactlyOnExecutions(m: MirBody, debugAssertions: bool, picks: seq<BasicBlock>, snap: Snapshot<set<Local>>,
                                     l: Location, x: Local)
    requires m.WellFormed() && m.body.IsLocation(l)
    requires Reaches(AllocatedAnalysis(m, debugAssertions), picks, snap) && snap.work == {}
    requires forall b: BasicBlock :: m.body.IsBlock(b) ==> Reachable(m, Location(b, 0))
    ensures l in snap.states.before
    ensures x in snap.states.before[l] <==> m.IsLocal(x) && forall w :: ExecutionTo(m, w, l) ==> AllocatedAfter(m, w, x)
  {
    AllocatedExactly(m, debugAssertions, picks, snap, l, x);
    if m.IsLocal(x) && forall w :: ExecutionTo(m, w, l) ==> AllocatedAfter(m, w, x) {
      forall w: seq<Location> | WalkTo(m, w, l) ensures AllocatedAfter(m, w, x) {
        assert w[0] == Location(w[0].block, 0);
        var u := ExecutionBelowWalk(m, w);
        StateAlongIsHistory(m, u, x);
        StateAlongIsHistory(m, w, x);
      }
    }
  }

  /** The initial state leaves out the return place and the arguments, so the result has none of them
      where control can get to, unless a statement names it. */
  lemma ArgumentsAreLeftOut(m: MirBody, debugAssertions: bool, picks: seq<BasicBlock>, snap: Snapshot<set<Local>>,
                            l: Location, x: Local)
    requires m.WellFormed() && m.body.IsLocation(l) && Reachable(m, l)
    requires Reaches(AllocatedAnalysis(m, debugAssertions), picks, snap) && snap.work == {}
    requires x <= m.args && !Mentioned(m, x)
    ensures l in snap.states.before && x !in snap.states.before[l]
  {
    AllocatedExactly(m, debugAssertions, picks, snap, l, x);
    var w: seq<Location> :| ExecutionTo(m, w, l);
    forall k: nat | LastAllocatedAt(m, w, k, x) ensures Mentioned(m, x) {
      assert MentionedAt(m, w[k].block, w[k].statementIndex, x);
    }
  }

  /** The analysis as its callers run it: it always succeeds and is exact. */
  method AnalyseAllocated(m: MirBody, debugAssertions: bool) returns (ps: PointwiseState<set<Local>>)
    requires m.WellFormed()
    ensures fresh(ps)
    ensures forall l :: m.body.IsLocation(l) ==> l in ps.stateBefore
    ensures forall l, x :: m.body.IsLocation(l) ==> (x in ps.stateBefore[l] <==> AllocatedOnAllPaths(m, l, x))
  {
    AllocatedLaws(m, debugAssertions);
    var engine := new FixpointEngine(AllocatedAnalysis(m, debugAssertions));
    var status;
    ghost var picks, at;
    status, ps, picks, at := engine.RunFwdAnalysis(AllocatedLattice(m), Rank(m), m.locals);
    forall b | b in at.work && m.body.IsBlock(b) ensures Visit(engine.a, at, b).Next? {
      AllocatedNeverFails(m, debugAssertions, at, b);
    }
    forall l, x | m.body.IsLocation(l)
      ensures l in ps.stateBefore && (x in ps.stateBefore[l] <==> AllocatedOnAllPaths(m, l, x))
    {
      AllocatedExactly(m, debugAssertions, picks, at, l, x);
    }
  }
}
