/** `MemPoolT`: blocks of equal chunks, the unused ones chained into a free list through their own memory. */
module MemPools {

  const NULL: int := -1

  /** Chunk `i` of block `b` has the address `b * count + i`. */
  class MemPool {
    const count: nat
    var blocks: nat
    /** The memory of the chunks, as far as the pool looks at it: the link a free chunk holds. */
    var memory: seq<int>
    var root: int
    var currentAllocs: nat
    var nAllocs: nat
    var maxAllocs: nat

    ghost var free: seq<nat>
    ghost var live: set<nat>

    /** The free list is acyclic and apart from the live chunks; together they are all the chunks.
    Nothing is said about the memory of a live chunk. */
    ghost predicate Valid()
      reads this
    {
      0 < count && |memory| == blocks * count &&
      root == Link(free, 0) &&
      (forall i :: 0 <= i < |free| ==> free[i] < |memory| && memory[free[i]] == Link(free, i + 1)) &&
      (forall i, j :: 0 <= i < j < |free| ==> free[i] != free[j]) &&
      (forall c :: c in live ==> c < |memory|) &&
      (forall c: nat :: c < |memory| ==> (c in live <==> c !in free)) &&
      currentAllocs == |live| <= maxAllocs && currentAllocs <= nAllocs
    }

    /** The address of the `i`th free chunk, or null behind the last. */
    static ghost function Link(free: seq<nat>, i: nat): int {
      if i < |free| then free[i] else NULL
    }

    constructor (count: nat)
      requires 0 < count
      ensures Valid() && live == {} && this.count == count && currentAllocs == 0
    {
      this.count := count;
      blocks, memory, root := 0, [], NULL;
      currentAllocs, nAllocs, maxAllocs := 0, 0, 0;
      free, live := [], {};
    }

    /** Chains the chunks of a new block and makes them the free list. */
    method NewBlock()
      requires Valid() && root == NULL
      modifies this
      ensures Valid() && root != NULL && live == old(live) && currentAllocs == old(currentAllocs)
      ensures nAllocs == old(nAllocs) && maxAllocs == old(maxAllocs)
    {
      var base := |memory|;
      var block := seq(count, i => NULL);
      var i := 0;
      while i < count - 1
        invariant 0 <= i <= count - 1 && |block| == count
        invariant forall k :: 0 <= k < i ==> block[k] == base + k + 1
        invariant forall k :: i <= k < count ==> block[k] == NULL
      {
        block := block[i := base + i + 1];
        i := i + 1;
      }
      assert free == [];
      memory := memory + block;
      blocks := blocks + 1;
      root := base;
      free := seq(count, (k: nat) => base + k);
      assert forall c :: c in free <==> base <= c < base + count by {
        forall c: nat | base <= c < base + count ensures c in free { assert free[c - base] == c; }
      }
    }

    /** Hands out a chunk that is not live. */
    method Alloc() returns (result: nat)
      requires Valid()
      modifies this
      ensures Valid() && result !in old(live) && live == old(live) + {result}
      ensures currentAllocs == old(currentAllocs) + 1 && nAllocs == old(nAllocs) + 1
    {
      if root == NULL {
        NewBlock();
      }
      result := Unchain();
    }

    /** Takes the first chunk off the free list. */
    method Unchain() returns (result: nat)
      requires Valid() && root != NULL
      modifies this
      ensures Valid() && result !in old(live) && live == old(live) + {result}
      ensures currentAllocs == old(currentAllocs) + 1 && nAllocs == old(nAllocs) + 1
    {
      HeadApart(free);
      result := root;
      root := memory[root];
      currentAllocs := currentAllocs + 1;
      if currentAllocs > maxAllocs { maxAllocs := currentAllocs; }
      nAllocs := nAllocs + 1;
      live := live + {result};
      free := free[1..];
    }

    /** Takes back a live chunk; the null pointer is ignored. */
    method Free(mem: int)
      requires Valid() && (mem == NULL || (0 <= mem && mem in live))
      modifies this
      ensures Valid() && live == old(live) - {mem}
      ensures currentAllocs == if mem == NULL then old(currentAllocs) else old(currentAllocs) - 1
    {
      if mem == NULL {
        assert NULL !in live;
        return;
      }
      currentAllocs := currentAllocs - 1;
      memory := memory[mem := root];
      root := mem;
      assert free == ([mem] + free)[1..];
      free, live := [mem] + free, live - {mem};
    }

    /** The owner of a chunk may write what it likes into it. */
    method Write(chunk: nat, value: int)
      requires Valid() && chunk in live
      modifies this
      ensures Valid() && live == old(live) && free == old(free) && memory == old(memory)[chunk := value]
      ensures currentAllocs == old(currentAllocs)
    {
      memory := memory[chunk := value];
    }
  }

  lemma HeadApart(free: seq<nat>)
    requires free != [] && forall i, j :: 0 <= i < j < |free| ==> free[i] != free[j]
    ensures forall c :: c in free[1..] <==> c in free && c != free[0]
  {
    assert free == [free[0]] + free[1..];
  }

  /** Live and free chunks together are COUNT times the blocks. */
  lemma ChunksAccounted(pool: MemPool)
    requires pool.Valid()
    ensures pool.currentAllocs + |pool.free| == pool.count * pool.blocks
  {
    var unused := Elements(pool.free);
    Partition(Below(|pool.memory|), pool.live, unused);
  }

  lemma Partition(all: set<nat>, a: set<nat>, b: set<nat>)
    requires forall c: nat :: c in all <==> c in a || c in b
    requires a !! b
    ensures |all| == |a| + |b|
  {
    assert all == a + b;
  }

  function Below(n: nat): (r: set<nat>)
    ensures |r| == n && forall c: nat :: c in r <==> c < n
  {
    if n == 0 then {} else Below(n - 1) + {n - 1}
  }

  function Elements(s: seq<nat>): (r: set<nat>)
    requires forall i, j :: 0 <= i < j < |s| ==> s[i] != s[j]
    ensures |r| == |s| && forall c :: c in r <==> c in s
  {
    if s == [] then {}
    else
      HeadApart(s);
      Elements(s[1..]) + {s[0]}
  }
}
