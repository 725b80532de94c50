/**
 * The two allocators of neat_allocators.hpp.  Memory is abstract: a pointer
 * handed out by an arena is the index of its slot, and a pointer handed out
 * by a bump allocator is a block number and a byte offset in that block.
 * Whether `malloc` or `realloc` succeeds is an input of the operation that
 * calls it.
 */
module Allocators {
  import opened Wrappers

  /** `arena<T>`: room for `count` values of `T`, handed out one after the
      other.  `current` is the next free slot, `None` standing for the null
      pointer the arena switches to once it is exhausted or never got its
      memory; `failure` is the sticky failure flag. */
  class Arena {
    const count: nat
    var current: Option<nat>
    var failure: bool

    ghost predicate Valid()
      reads this
    {
      && (current.Some? ==> current.value <= count)
      && (current.None? <==> failure)
    }

    /** `arena(count)`: `mallocOk` says whether the allocation of `count`
        slots succeeded. */
    constructor (count: nat, mallocOk: bool)
      ensures Valid() && this.count == count
      ensures mallocOk ==> current == Some(0) && !failure
      ensures !mallocOk ==> current == None && failure
    {
      this.count := count;
      if mallocOk {
        current, failure := Some(0), false;
      } else {
        current, failure := None, true;
      }
    }

    /** `failure()`: the flag is up exactly when the arena has switched
        to the null pointer. */
    function Failure(): (r: bool)
      reads this
      requires Valid()
      ensures r <==> current.None?
    {
      failure
    }

    /** `allocate()`: hands out the current slot and moves to the next one;
        at the end of the slots it switches to the null pointer, and from
        then on every call fails and sets the flag. */
    method Allocate() returns (p: Option<nat>)
      requires Valid()
      modifies this
      ensures Valid()
      ensures old(current).Some? && old(current).value < count ==>
                p == old(current) && current == Some(old(current).value + 1) && failure == old(failure)
      ensures !(old(current).Some? && old(current).value < count) ==>
                p == None && current == None && failure
      ensures old(failure) ==> p.None? && failure
    {
      if current == Some(count) {
        current := None;
      }
      if current.None? {
        failure := true;
        return None;
      }
      p := current;
      current := Some(current.value + 1);
    }
  }

  /** The arena test of the repository: four slots, four allocations at
      consecutive slots without failure, then a fifth that fails. */
  method ArenaSmallInts() returns (a: Option<nat>, b: Option<nat>, c: Option<nat>, d: Option<nat>,
                                   failedAfterFour: bool, e: Option<nat>, failedAfterFive: bool)
    ensures a == Some(0) && b == Some(1) && c == Some(2) && d == Some(3)
    ensures !failedAfterFour
    ensures e == None && failedAfterFive
  {
    var arena := new Arena(4, true);
    a := arena.Allocate();
    b := arena.Allocate();
    c := arena.Allocate();
    d := arena.Allocate();
    failedAfterFour := arena.Failure();
    e := arena.Allocate();
    failedAfterFive := arena.Failure();
  }

  /** Draining an arena: successive calls hand out every slot once, in
      order, and fail from then on. */
  method DrainArena(count: nat, calls: nat) returns (ps: seq<Option<nat>>, failed: bool)
    ensures |ps| == calls
    ensures forall i :: 0 <= i < calls ==> ps[i] == (if i < count then Some(i) else None)
    ensures failed <==> calls > count
  {
    var arena := new Arena(count, true);
    ps := [];
    while |ps| < calls
      invariant |ps| <= calls
      invariant arena.Valid() && arena.count == count
      invariant forall i :: 0 <= i < |ps| ==> ps[i] == (if i < count then Some(i) else None)
      invariant |ps| <= count ==> arena.current == Some(|ps|) && !arena.failure
      invariant |ps| > count ==> arena.current == None && arena.failure
    {
      var p := arena.Allocate();
      ps := ps + [p];
    }
    failed := arena.Failure();
  }

  /** One block of a bump allocator: `offset` is how far `current` has
      moved from the start of the block's data, `remaining` how many bytes
      are left after it. */
  datatype Block = Block(offset: nat, remaining: nat)

  /** A pointer into a bump allocator's block. */
  datatype Addr = Addr(block: nat, offset: nat)

  /** 0, 1, 2, 4, 8, ...: the capacities the block table goes through. */
  ghost predicate IsTableCapacity(n: nat) {
    n == 0 || n == 1 || (n % 2 == 0 && IsTableCapacity(n / 2))
  }

  /** The earliest block with at least `size` bytes left. */
  function FirstFit(blocks: seq<Block>, size: nat): (r: Option<nat>)
    ensures r.Some? ==> r.value < |blocks| && blocks[r.value].remaining >= size &&
                        forall j :: 0 <= j < r.value ==> blocks[j].remaining < size
    ensures r.None? ==> forall j :: 0 <= j < |blocks| ==> blocks[j].remaining < size
  {
    if blocks == [] then None
    else if blocks[0].remaining >= size then Some(0)
    else match FirstFit(blocks[1..], size)
      case None => None
      case Some(i) => Some(i + 1)
  }

  /** `bump`: blocks of `blockSize` bytes, each filled from its start.  The
      block table `blocks` has `blockCount` blocks in use; its length is the
      table's capacity, which is 0 or doubles when the table is full. */
  class Bump {
    const blockSize: nat
    var blocks: array<Block>
    var blockCount: nat

    ghost predicate Valid()
      reads this, blocks
    {
      && blockCount <= blocks.Length
      && IsTableCapacity(blocks.Length)
      && forall i :: 0 <= i < blockCount ==> blocks[i].offset + blocks[i].remaining == blockSize
    }

    /** The blocks in use. */
    ghost function Blocks(): seq<Block>
      reads this, blocks
      requires blockCount <= blocks.Length
    {
      blocks[..blockCount]
    }

    /** `bump(block_size)`: no blocks and an empty table. */
    constructor (blockSize: nat)
      ensures Valid() && this.blockSize == blockSize
      ensures Blocks() == [] && blocks.Length == 0 && fresh(blocks)
    {
      this.blockSize := blockSize;
      blocks := new Block[0];
      blockCount := 0;
    }

    /** `block_count()`: the number of blocks in use, never more than the
        table's capacity. */
    function BlockCount(): (n: nat)
      reads this, blocks
      requires Valid()
      ensures n == |Blocks()| && n <= blocks.Length
    {
      blockCount
    }

    /** `add_block()`: grows the table (0 to 1, then doubling) while it is
        full, then allocates the data of a fresh block.  `reallocOk` and
        `mallocOk` say whether `realloc` and `malloc` succeed. */
    method AddBlock(reallocOk: bool, mallocOk: bool) returns (added: bool)
      requires Valid()
      modifies this, blocks
      ensures Valid()
      ensures blocks == old(blocks) || fresh(blocks)
      ensures old(blockCount) < old(blocks.Length) ==> blocks == old(blocks)
      ensures old(blockCount) == old(blocks.Length) && reallocOk ==>
                blocks.Length == (if old(blocks.Length) == 0 then 1 else 2 * old(blocks.Length))
      ensures old(blockCount) == old(blocks.Length) && !reallocOk ==> blocks == old(blocks)
      ensures added == ((old(blockCount) < old(blocks.Length) || reallocOk) && mallocOk)
      ensures added ==> Blocks() == old(Blocks()) + [Block(0, blockSize)]
      ensures !added ==> Blocks() == old(Blocks())
    {
      while blockCount >= blocks.Length
        invariant Valid()
        invariant blockCount == old(blockCount) && Blocks() == old(Blocks())
        invariant old(blockCount) < old(blocks.Length) ==> blocks == old(blocks)
        invariant blocks == old(blocks) || (reallocOk && blocks.Length == (if old(blocks.Length) == 0 then 1 else 2 * old(blocks.Length)))
        invariant blocks == old(blocks) || fresh(blocks)
        invariant blocks != old(blocks) ==> blockCount < blocks.Length
        decreases blockCount + 1 - blocks.Length
      {
        var newCapacity := if blocks.Length == 0 then 1 else blocks.Length * 2;
        if !reallocOk {
          return false;
        }
        var table := new Block[newCapacity];
        forall i | 0 <= i < blocks.Length {
          table[i] := blocks[i];
        }
        blocks := table;
        assert IsTableCapacity(newCapacity) by {
          if newCapacity != 1 { assert newCapacity / 2 == old(blocks.Length); }
        }
      }
      if !mallocOk {
        return false;
      }
      blocks[blockCount] := Block(0, blockSize);
      blockCount := blockCount + 1;
      assert Blocks() == old(Blocks()) + [Block(0, blockSize)];
      return true;
    }

    /** `allocate(size)`: refuses sizes above the block size; otherwise
        carves `size` bytes from the earliest block with enough room, or
        from a block added for the purpose. */
    method Allocate(size: nat, reallocOk: bool, mallocOk: bool) returns (p: Option<Addr>)
      requires Valid()
      modifies this, blocks
      ensures Valid()
      ensures blocks == old(blocks) || fresh(blocks)
      ensures size > blockSize ==> p == None && Blocks() == old(Blocks()) && blocks == old(blocks)
      ensures size <= blockSize && FirstFit(old(Blocks()), size).Some? ==>
                var i := FirstFit(old(Blocks()), size).value;
                var b := old(Blocks())[i];
                && p == Some(Addr(i, b.offset))
                && Blocks() == old(Blocks())[i := Block(b.offset + size, b.remaining - size)]
                && blocks == old(blocks)
      ensures size <= blockSize && FirstFit(old(Blocks()), size).None? ==>
                if (old(blockCount) < old(blocks.Length) || reallocOk) && mallocOk then
                  && p == Some(Addr(old(blockCount), 0))
                  && Blocks() == old(Blocks()) + [Block(size, blockSize - size)]
                else
                  p == None && Blocks() == old(Blocks())
    {
      if size > blockSize {
        return None;
      }
      var found := FindBlock(size);
      if found.Some? {
        var i := found.value;
        p := Some(Addr(i, blocks[i].offset));
        Carve(i, size);
        return;
      }
      var added := AddBlock(reallocOk, mallocOk);
      if !added {
        return None;
      }
      var k := blockCount - 1;
      p := Some(Addr(k, blocks[k].offset));
      Carve(k, size);
    }

    /** The first-fit scan of `allocate`: the earliest block in use with
        `size` bytes left. */
    method FindBlock(size: nat) returns (r: Option<nat>)
      requires Valid()
      ensures r == FirstFit(Blocks(), size)
    {
      var i := 0;
      while i < blockCount
        invariant 0 <= i <= blockCount
        invariant forall j :: 0 <= j < i ==> blocks[j].remaining < size
      {
        if blocks[i].remaining >= size {
          FirstFitAt(Blocks(), size, i);
          return Some(i);
        }
        i := i + 1;
      }
      return None;
    }

    /** Moves block `i`'s current pointer `size` bytes on. */
    method Carve(i: nat, size: nat)
      requires Valid() && i < blockCount && blocks[i].remaining >= size
      modifies blocks
      ensures Valid()
      ensures Blocks() == old(Blocks())[i := Block(old(blocks[i].offset) + size, old(blocks[i].remaining) - size)]
    {
      blocks[i] := Block(blocks[i].offset + size, blocks[i].remaining - size);
    }
  }

  /** The first block with room is found where the scan stops. */
  lemma FirstFitAt(blocks: seq<Block>, size: nat, i: nat)
    requires i < |blocks| && blocks[i].remaining >= size
    requires forall j :: 0 <= j < i ==> blocks[j].remaining < size
    ensures FirstFit(blocks, size) == Some(i)
  {
  }

  /** The bump test of the repository, first part: 4-byte values in blocks
      of 5 bytes take one block each. */
  method BumpOneBlockEach() returns (ptrs: seq<Option<Addr>>, count: nat)
    ensures |ptrs| == 5 && forall j :: 0 <= j < 5 ==> ptrs[j] == Some(Addr(j, 0))
    ensures count == 5
  {
    var bump := new Bump(5);
    ptrs := [];
    while |ptrs| < 5
      invariant |ptrs| <= 5
      invariant bump.Valid() && bump.blockSize == 5 && fresh(bump.blocks)
      invariant bump.blockCount == |ptrs|
      invariant forall j :: 0 <= j < |ptrs| ==> bump.Blocks()[j] == Block(4, 1) && ptrs[j] == Some(Addr(j, 0))
    {
      ghost var before := bump.Blocks();
      var p := bump.Allocate(4, true, true);
      assert FirstFit(before, 4).None?;
      ptrs := ptrs + [p];
    }
    count := bump.BlockCount();
  }


  /** Second part: in blocks of 3 bytes, three 4-byte values are refused
      and add no block; then three 1-byte values share a single block. */
  method BumpSmallChars() returns (refused: seq<Option<Addr>>, countAfterRefusals: nat,
                                   ptrs: seq<Option<Addr>>, count: nat)
    ensures refused == [None, None, None] && countAfterRefusals == 0
    ensures ptrs == [Some(Addr(0, 0)), Some(Addr(0, 1)), Some(Addr(0, 2))]
    ensures count == 1
  {
    var bump := new Bump(3);
    var f := bump.Allocate(4, true, true);
    var g := bump.Allocate(4, true, true);
    var h := bump.Allocate(4, true, true);
    refused := [f, g, h];
    countAfterRefusals := bump.BlockCount();
    assert bump.Blocks() == [];
    var c1 := bump.Allocate(1, true, true);
    assert bump.Blocks() == [Block(1, 2)];
    var c2 := bump.Allocate(1, true, true);
    assert bump.Blocks() == [Block(2, 1)];
    var c3 := bump.Allocate(1, true, true);
    ptrs := [c1, c2, c3];
    count := bump.BlockCount();
  }

}
