/**
  The fixed-block allocator: a linked list of free blocks behind a header node,
  and the wrapper that owns either a block of the pool or memory of the heap.
 */
module MemoryPools {

  type Memory = array<char>

  class MemoryBlock {
    var memory: array?<char>
    var next: MemoryBlock?

    constructor ()
      ensures memory == null && next == null
    {
      memory, next := null, null;
    }
  }

  class MemoryPool {
    const numBlocks: nat
    const blockSize: nat
    const blocks: MemoryBlock  // the list's header

    ghost var nodes: seq<MemoryBlock>   // the list, header first
    ghost var free: seq<Memory>         // the memory of its nodes
    ghost var outstanding: set<Memory>  // what clients hold
    ghost var all: set<Memory>          // what the constructor made

    /** The links: an acyclic list without a repeated node that ends in null. */
    ghost predicate Linked()
      reads this, nodes
    {
      && |nodes| == |free| + 1 && nodes[0] == blocks
      && (forall i, j :: 0 <= i < j < |nodes| ==> nodes[i] != nodes[j])
      && (forall i :: 0 <= i < |free| ==> nodes[i].next == nodes[i + 1])
      && nodes[|free|].next == null
      && (forall i :: 0 <= i < |free| ==> nodes[i + 1].memory == free[i])
    }

    /** Each block is on the free list once or outstanding, never both and never neither. */
    ghost predicate Partition()
      reads this
    {
      multiset(free) + multiset(outstanding) == multiset(all) && |all| == numBlocks
    }

    ghost predicate Valid()
      reads this, nodes
    {
      Linked() && Partition() && forall m :: m in all ==> m.Length == blockSize
    }

    constructor (numBlocks: nat, blockSize: nat)
      ensures Valid() && outstanding == {} && |free| == numBlocks
      ensures this.numBlocks == numBlocks && this.blockSize == blockSize && fresh(all) && fresh(nodes)
    {
      this.numBlocks, this.blockSize := numBlocks, blockSize;
      var header := new MemoryBlock();
      blocks := header;
      nodes, free, outstanding, all := [header], [], {}, {};
      new;
      var block := header;
      for i := 0 to numBlocks
        invariant Linked() && block == nodes[|free|] && |free| == |all| == i && outstanding == {}
        invariant multiset(free) + multiset(outstanding) == multiset(all)
        invariant forall m :: m in all ==> m.Length == blockSize
        invariant fresh(all) && fresh(nodes)
      {
        ghost var m;
        ghost var blocksFree := free;
        block, m := AppendBlock(block);
        NewBlock(blocksFree, outstanding, all, m);
        all := all + {m};
      }
    }

    /** One round of the constructor's loop. */
    method AppendBlock(block: MemoryBlock) returns (b: MemoryBlock, ghost m: Memory)
      requires Linked() && block == nodes[|free|]
      modifies this`nodes, this`free, block
      ensures Linked() && fresh(b) && nodes == old(nodes) + [b] && b == nodes[|free|]
      ensures fresh(m) && free == old(free) + [m] && m.Length == blockSize
    {
      b := new MemoryBlock();
      var memory := new char[blockSize];
      block.next := b;
      b.memory := memory;
      m := memory;
      ghost var ns := nodes;
      nodes, free := nodes + [b], free + [m];
      assert forall i :: 0 <= i < |ns| ==> nodes[i] == ns[i];
    }

    method AllocateBlock() returns (memory: array?<char>)
      requires Valid()
      modifies this, blocks
      ensures Valid() && all == old(all)
      ensures (memory == null) == (old(free) == [])
      ensures memory == null ==> free == old(free) && outstanding == old(outstanding)
      ensures memory != null ==> [memory] + free == old(free) && memory !in old(outstanding)
      ensures memory != null ==> outstanding == old(outstanding) + {memory} && memory.Length == blockSize
    {
      var block := blocks.next;
      assert free != [] ==> nodes[0].next == nodes[1];
      if block == null { return null; }
      FrontIsFree(free, outstanding, all);
      blocks.next := block.next;
      memory := block.memory;
      ghost var ns, fs := nodes, free;
      nodes, free, outstanding := [blocks] + nodes[2..], free[1..], outstanding + {memory};
      assert forall i :: 1 <= i < |nodes| ==> nodes[i] == ns[i + 1];
      assert forall i :: 0 <= i < |free| ==> free[i] == fs[i + 1];
    }

    /** Fails exactly if the request is larger than a block or no block is free. */
    method Allocate(n: nat) returns (memory: array?<char>)
      requires Valid()
      modifies this, blocks
      ensures Valid() && all == old(all)
      ensures memory == null <==> n > blockSize || old(free) == []
      ensures memory == null ==> free == old(free) && outstanding == old(outstanding)
      ensures memory != null ==> [memory] + free == old(free) && memory !in old(outstanding)
      ensures memory != null ==> outstanding == old(outstanding) + {memory} && n <= memory.Length == blockSize
    {
      if n > blockSize { return null; }
      memory := AllocateBlock();
    }

    method Free(memory: Memory)
      requires Valid() && memory in outstanding
      modifies this, blocks
      ensures Valid() && all == old(all)
      ensures free == [memory] + old(free) && outstanding == old(outstanding) - {memory}
    {
      BackToFree(free, outstanding, all, memory);
      PushBlock(memory);
      outstanding := outstanding - {memory};
    }

    /** A new node for the memory goes behind the header. */
    method PushBlock(memory: Memory)
      requires Linked()
      modifies this`nodes, this`free, blocks
      ensures Linked() && free == [memory] + old(free)
    {
      var block := new MemoryBlock();
      block.memory := memory;
      block.next := blocks.next;
      blocks.next := block;
      ghost var ns, fs := nodes, free;
      nodes, free := [blocks, block] + nodes[1..], [memory] + free;
      assert forall i :: 2 <= i < |nodes| ==> nodes[i] == ns[i - 1];
      assert forall i :: 1 <= i < |free| ==> free[i] == fs[i - 1];
    }
  }

  /** The wrapper: a block of the pool if there is one that fits, memory of the heap if not. */
  class MemoryWrapper {
    const pool: MemoryPool
    var ptr: array?<char>
    var success: bool

    constructor (pool: MemoryPool, n: nat)
      requires pool.Valid()
      modifies pool, pool.blocks
      ensures pool.Valid() && this.pool == pool && pool.all == old(pool.all) && ptr != null && n <= ptr.Length
      ensures success <==> n <= pool.blockSize && old(pool.free) != []
      ensures success ==> [ptr] + pool.free == old(pool.free)
      ensures success ==> ptr !in old(pool.outstanding) && pool.outstanding == old(pool.outstanding) + {ptr}
      ensures !success ==> fresh(ptr) && pool.free == old(pool.free) && pool.outstanding == old(pool.outstanding)
    {
      this.pool := pool;
      success := true;
      var p := pool.Allocate(n);
      if p == null {
        success := false;
        p := new char[n];
      }
      ptr := p;
    }

    /** The destructor. */
    method Destroy()
      requires pool.Valid() && ptr != null && (success ==> ptr in pool.outstanding)
      modifies this, pool, pool.blocks
      ensures pool.Valid() && pool.all == old(pool.all)
      ensures old(success) ==> pool.free == [old(ptr)] + old(pool.free)
      ensures old(success) ==> pool.outstanding == old(pool.outstanding) - {old(ptr)}
      ensures !old(success) ==> pool.free == old(pool.free) && pool.outstanding == old(pool.outstanding)
    {
      if success { pool.Free(ptr); }
      ptr := null;
    }
  }

  /** Nested lifetimes, of any sizes and to any depth, leave the pool as they found it. */
  method NestedLifetimes(pool: MemoryPool, sizes: seq<nat>)
    requires pool.Valid()
    modifies pool, pool.blocks
    ensures pool.Valid() && pool.all == old(pool.all)
    ensures pool.free == old(pool.free) && pool.outstanding == old(pool.outstanding)
    decreases |sizes|
  {
    if sizes == [] { return; }
    var wrapper := new MemoryWrapper(pool, sizes[0]);
    NestedLifetimes(pool, sizes[1..]);
    wrapper.Destroy();
  }

  // ----- every interleaving of allocations and frees

  datatype Op = Alloc(n: nat) | Release(k: nat)

  datatype Books = Books(free: seq<Memory>, held: seq<Memory>)

  /** The free list is a stack; a client may give back what it holds in any order. */
  ghost function Booked(blockSize: nat, b: Books, op: Op): Books {
    match op
    case Alloc(n) => if n > blockSize || b.free == [] then b else Books(b.free[1..], b.held + [b.free[0]])
    case Release(k) => if k >= |b.held| then b else Books([b.held[k]] + b.free, b.held[..k] + b.held[k + 1..])
  }

  ghost function AllBooked(blockSize: nat, b: Books, ops: seq<Op>): Books
    decreases ops
  {
    if ops == [] then b else AllBooked(blockSize, Booked(blockSize, b, ops[0]), ops[1..])
  }

  /** The blocks that a client holds are outstanding and distinct; `others` are the rest of those outstanding. */
  ghost predicate Holds(held: seq<Memory>, others: set<Memory>, outstanding: set<Memory>) {
    multiset(held) + multiset(others) == multiset(outstanding)
  }

  lemma HoldsMore(held: seq<Memory>, others: set<Memory>, outstanding: set<Memory>, m: Memory)
    requires Holds(held, others, outstanding) && m !in outstanding
    ensures Holds(held + [m], others, outstanding + {m})
  {
    assert multiset(held + [m]) == multiset(held) + multiset{m};
    assert multiset(outstanding + {m}) == multiset(outstanding) + multiset{m};
  }

  lemma HoldsLess(held: seq<Memory>, others: set<Memory>, outstanding: set<Memory>, k: nat)
    requires Holds(held, others, outstanding) && k < |held|
    ensures held[k] in outstanding && Holds(held[..k] + held[k + 1..], others, outstanding - {held[k]})
  {
    var m := held[k];
    assert held == held[..k] + [m] + held[k + 1..];
    assert multiset(held) == multiset(held[..k] + held[k + 1..]) + multiset{m};
    assert multiset(held)[m] >= 1;
    assert multiset(outstanding)[m] >= 1;
    var h, o, p := multiset(held[..k] + held[k + 1..]), multiset(others), multiset(outstanding - {m});
    assert multiset(outstanding) == p + multiset{m};
    assert h + o == h + multiset{m} + o - multiset{m};
    assert p == p + multiset{m} - multiset{m};
  }

  method Operate(pool: MemoryPool, op: Op, held: seq<Memory>, ghost others: set<Memory>) returns (held': seq<Memory>)
    requires pool.Valid() && Holds(held, others, pool.outstanding)
    modifies pool, pool.blocks
    ensures pool.Valid() && pool.all == old(pool.all) && Holds(held', others, pool.outstanding)
    ensures Books(pool.free, held') == Booked(pool.blockSize, Books(old(pool.free), held), op)
  {
    held' := held;
    match op {
      case Alloc(n) =>
        ghost var outstanding := pool.outstanding;
        var m := pool.Allocate(n);
        if m != null {
          HoldsMore(held, others, outstanding, m);
          held' := held + [m];
        }
      case Release(k) =>
        if k < |held| {
          HoldsLess(held, others, pool.outstanding, k);
          pool.Free(held[k]);
          held' := held[..k] + held[k + 1..];
        }
    }
  }

  /**
    Over every run of allocations and frees: the pool and its client hold what the stack of
    free blocks says, each block is free or outstanding, and what others hold is untouched.
   */
  method RunPool(pool: MemoryPool, ops: seq<Op>, held: seq<Memory>, ghost others: set<Memory>)
    returns (held': seq<Memory>)
    requires pool.Valid() && Holds(held, others, pool.outstanding)
    modifies pool, pool.blocks
    ensures pool.Valid() && pool.all == old(pool.all) && Holds(held', others, pool.outstanding)
    ensures Books(pool.free, held') == AllBooked(pool.blockSize, Books(old(pool.free), held), ops)
    decreases |ops|
  {
    if ops == [] { return held; }
    held' := Operate(pool, ops[0], held, others);
    held' := RunPool(pool, ops[1..], held', others);
  }

  /** The partition in numbers. */
  lemma PartitionCounts(free: seq<Memory>, outstanding: set<Memory>, all: set<Memory>)
    requires multiset(free) + multiset(outstanding) == multiset(all)
    ensures |free| + |outstanding| == |all|
    ensures forall i, j :: 0 <= i < j < |free| ==> free[i] != free[j]
  {
    assert |multiset(free)| == |free| && |multiset(outstanding)| == |outstanding| && |multiset(all)| == |all|;
    forall i, j | 0 <= i < j < |free| ensures free[i] != free[j] {
      var m := free[i];
      assert free == free[..i] + [m] + free[i + 1..];
      assert multiset(all)[m] <= 1;
      assert free[j] in free[i + 1..] by { assert free[i + 1..][j - i - 1] == free[j]; }
    }
  }

  lemma BackToFree(free: seq<Memory>, outstanding: set<Memory>, all: set<Memory>, m: Memory)
    requires multiset(free) + multiset(outstanding) == multiset(all) && m in outstanding
    ensures multiset([m] + free) + multiset(outstanding - {m}) == multiset(all)
  {
  }

  lemma NewBlock(free: seq<Memory>, outstanding: set<Memory>, all: set<Memory>, m: Memory)
    requires multiset(free) + multiset(outstanding) == multiset(all) && m !in all
    ensures multiset(free + [m]) + multiset(outstanding) == multiset(all + {m})
  {
    assert multiset(free + [m]) == multiset(free) + multiset{m};
    assert multiset(all + {m}) == multiset(all) + multiset{m};
  }

  lemma FrontIsFree(free: seq<Memory>, outstanding: set<Memory>, all: set<Memory>)
    requires free != [] && multiset(free) + multiset(outstanding) == multiset(all)
    ensures free[0] in all && free[0] !in outstanding
    ensures multiset(free[1..]) + multiset(outstanding + {free[0]}) == multiset(all)
  {
    var m := free[0];
    assert free == [m] + free[1..];
    assert multiset(free)[m] >= 1;
    assert multiset(all)[m] <= 1;
    assert multiset(outstanding)[m] == 0;
    assert multiset(outstanding + {m}) == multiset(outstanding) + multiset{m};
  }
}
