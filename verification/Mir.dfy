/** The part of a MIR body that the fixpoint engine looks at: blocks, how many
    statements each has, and the control-flow edges between them. */
module Mir {

  type BasicBlock = nat

  const START_BLOCK: BasicBlock := 0

  /** `statementIndex == statements` denotes the terminator of the block. */
  datatype Location = Location(block: BasicBlock, statementIndex: nat)

  /** `successors` may name a block more than once, as a switch terminator does. */
  datatype BlockData = BlockData(statements: nat, successors: seq<BasicBlock>)

  datatype Body = Body(blocks: seq<BlockData>, predecessors: seq<seq<BasicBlock>>) {

    /** What rustc guarantees: successors are blocks of the body, and `predecessors` is the
        transposed edge relation (in any order, with any multiplicity). */
    ghost predicate WellFormed() {
      && |predecessors| == |blocks|
      && (forall b: BasicBlock, s :: b < |blocks| && s in blocks[b].successors ==> s < |blocks|)
      && (forall b: BasicBlock, p: BasicBlock :: b < |blocks| ==> (p in predecessors[b] <==> IsEdge(p, b)))
    }

    predicate IsBlock(b: BasicBlock) {
      b < |blocks|
    }

    function TerminatorLocation(b: BasicBlock): Location
      requires IsBlock(b)
    {
      Location(b, blocks[b].statements)
    }

    ghost predicate IsLocation(l: Location) {
      IsBlock(l.block) && l.statementIndex <= blocks[l.block].statements
    }

    ghost predicate IsStatement(l: Location) {
      IsBlock(l.block) && l.statementIndex < blocks[l.block].statements
    }

    ghost predicate IsTerminator(l: Location) {
      IsBlock(l.block) && l.statementIndex == blocks[l.block].statements
    }

    ghost predicate IsEdge(p: BasicBlock, s: BasicBlock) {
      IsBlock(p) && s in blocks[p].successors
    }
  }
}
