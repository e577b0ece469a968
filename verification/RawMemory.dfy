/** Blocks of memory slots, initialised or not, and the allocation and copy primitives on them. The
    preconditions of the methods are the obligations whose violation is undefined behaviour. */
module RawMemory {

  datatype Slot<T> = Uninit | Init(value: T)

  type BlockId = nat

  function Uninitialised<T>(n: nat): seq<Slot<T>> {
    seq(n, _ => Uninit)
  }

  /** The contents of one block after moving `n` slots from `src` to `dst`, which may overlap. */
  function CopyResult<T>(s: seq<Slot<T>>, src: nat, dst: nat, n: nat): seq<Slot<T>>
    requires src + n <= |s| && dst + n <= |s|
  {
    s[..dst] + s[src..src + n] + s[dst + n..]
  }

  class Heap<T> {
    var blocks: map<BlockId, seq<Slot<T>>>
    var nextId: BlockId

    ghost predicate Valid()
      reads this
    {
      forall b :: b in blocks ==> b < nextId
    }

    constructor ()
      ensures Valid() && blocks == map[]
    {
      blocks, nextId := map[], 0;
    }

    method Alloc(n: nat) returns (b: BlockId)
      requires Valid() && n > 0
      modifies this
      ensures Valid() && b !in old(blocks)
      ensures blocks == old(blocks)[b := Uninitialised(n)]
    {
      b := nextId;
      blocks, nextId := blocks[b := Uninitialised(n)], nextId + 1;
    }

    method Dealloc(b: BlockId, n: nat)
      requires Valid() && b in blocks && |blocks[b]| == n
      modifies this
      ensures Valid() && blocks == old(blocks) - {b}
    {
      blocks := blocks - {b};
    }

    method CopyNonoverlapping(src: BlockId, dst: BlockId, n: nat)
      requires Valid() && src in blocks && dst in blocks && src != dst
      requires n <= |blocks[src]| && n <= |blocks[dst]|
      modifies this
      ensures Valid() && blocks == old(blocks)[dst := old(blocks)[src][..n] + old(blocks)[dst][n..]]
    {
      blocks := blocks[dst := blocks[src][..n] + blocks[dst][n..]];
    }

    method Copy(b: BlockId, src: nat, dst: nat, n: nat)
      requires Valid() && b in blocks && src + n <= |blocks[b]| && dst + n <= |blocks[b]|
      modifies this
      ensures Valid() && blocks == old(blocks)[b := CopyResult(old(blocks)[b], src, dst, n)]
    {
      blocks := blocks[b := CopyResult(blocks[b], src, dst, n)];
    }

    function Read(b: BlockId, i: nat): T
      requires b in blocks && i < |blocks[b]| && blocks[b][i].Init?
      reads this
    {
      blocks[b][i].value
    }

    method Write(b: BlockId, i: nat, x: T)
      requires Valid() && b in blocks && i < |blocks[b]|
      modifies this
      ensures Valid() && blocks == old(blocks)[b := old(blocks)[b][i := Init(x)]]
    {
      blocks := blocks[b := blocks[b][i := Init(x)]];
    }

    /** Allocate, copy what fits, free. One block is live before and after, every other one is untouched. */
    method Realloc(oldSize: nat, newSize: nat, ptr: BlockId) returns (newPtr: BlockId)
      requires Valid() && ptr in blocks && |blocks[ptr]| == oldSize && newSize > 0
      modifies this
      ensures Valid() && newPtr !in old(blocks)
      ensures blocks - {newPtr} == old(blocks) - {ptr} && newPtr in blocks && |blocks[newPtr]| == newSize
      ensures forall i :: 0 <= i < newSize ==>
                            blocks[newPtr][i] == if i < oldSize then old(blocks)[ptr][i] else Uninit
    {
      newPtr := Alloc(newSize);
      CopyNonoverlapping(ptr, newPtr, if oldSize <= newSize then oldSize else newSize);
      Dealloc(ptr, oldSize);
    }
  }
}
