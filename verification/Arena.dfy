/**
  * The arena: a list of blocks, each handed out from the front, freed all at once. Allocation of
  * memory is assumed to succeed and sizes not to overflow.
  */
module Arena {

  const ARENA_BLOCK_SIZE := 65536

  /** The header of a block is 24 bytes, so its data is as aligned as the allocation itself. */
  class Block {
    var next: Block?
    var used: nat
    const capacity: nat
    const data: array<bv8>
    /** Not yet given back to the system. */
    ghost var live: bool

    constructor (size: nat)
      ensures next == null && used == 0 && capacity == size && live
      ensures data.Length == size && fresh(data)
    {
      next, used, capacity, live := null, 0, size, true;
      data := new bv8[size];
    }

    /** Moves the end of the used part and zeroes what it passes. */
    method Bump(size: nat) returns (start: nat)
      requires used + size <= capacity == data.Length
      modifies `used, data
      ensures start == old(used) && used == start + size
      ensures forall i :: start <= i < used ==> data[i] == 0
      ensures forall i :: 0 <= i < start ==> data[i] == old(data[i])
    {
      start := used;
      used := used + size;
      forall i | start <= i < used {
        data[i] := 0;
      }
    }

    /** The C function free: giving a block back a second time is an error. */
    ghost method Release()
      requires live
      modifies `live
      ensures !live
    {
      live := false;
    }
  }

  /** A pointer returned by the arena, with the rounded size it stands for. */
  datatype Region = Region(block: Block, start: nat, size: nat)

  /** (size + 7) & ~7. */
  function RoundUp(size: nat): (r: nat)
    ensures size <= r < size + 8 && r % 8 == 0
  {
    (size + 7) / 8 * 8
  }

  ghost predicate Disjoint(p: Region, q: Region) {
    p.block != q.block || p.start + p.size <= q.start || q.start + q.size <= p.start
  }

  ghost predicate PairwiseDisjoint(regions: seq<Region>) {
    forall i, j :: 0 <= i < j < |regions| ==> Disjoint(regions[i], regions[j])
  }

  ghost function SizeSum(regions: seq<Region>): nat {
    if |regions| == 0 then 0 else SizeSum(regions[..|regions| - 1]) + regions[|regions| - 1].size
  }

  lemma SizeSumMore(regions: seq<Region>, p: Region)
    ensures SizeSum(regions + [p]) == SizeSum(regions) + p.size
  {
    assert (regions + [p])[..|regions|] == regions;
  }

  ghost function CapacitySum(blocks: seq<Block>): nat {
    if |blocks| == 0 then 0 else blocks[0].capacity + CapacitySum(blocks[1..])
  }

  ghost function Contents(p: Region): seq<bv8>
    requires p.start + p.size <= p.block.data.Length
    reads p.block.data
  {
    p.block.data[p.start..p.start + p.size]
  }

  function BlockAt(blocks: seq<Block>, i: nat): Block? {
    if i < |blocks| then blocks[i] else null
  }

  ghost predicate Linked(blocks: seq<Block>)
    reads blocks
  {
    forall i :: 0 <= i < |blocks| ==> blocks[i].next == BlockAt(blocks, i + 1)
  }

  /** `blocks` is the list that starts at `head`. */
  ghost predicate Chain(head: Block?, blocks: seq<Block>)
    reads blocks
  {
    && head == BlockAt(blocks, 0)
    && Linked(blocks)
    && (forall i, j :: 0 <= i < j < |blocks| ==> blocks[i] != blocks[j])
  }

  ghost predicate BlockOk(b: Block)
    reads b
  {
    b.live && b.used <= b.capacity == b.data.Length && b.used % 8 == 0
  }

  ghost predicate RegionOk(p: Region)
    reads p.block
  {
    p.start % 8 == 0 && p.size % 8 == 0 && p.start + p.size <= p.block.used
  }

  lemma ChainCons(b: Block, rest: seq<Block>)
    requires Chain(b.next, rest) && b !in rest
    ensures Chain(b, [b] + rest)
  {
    var all := [b] + rest;
    forall i | 0 <= i < |all|
      ensures all[i].next == BlockAt(all, i + 1)
    {
      if i > 0 {
        assert rest[i - 1].next == BlockAt(rest, i);
      }
    }
  }

  ghost predicate OwnData(space: set<Block>) {
    forall b, c :: b in space && c in space && b != c ==> b.data != c.data
  }

  ghost function BlockSet(blocks: seq<Block>): set<Block> {
    if |blocks| == 0 then {} else {blocks[0]} + BlockSet(blocks[1..])
  }

  lemma {:induction false} InBlockSet(blocks: seq<Block>, b: Block)
    ensures b in BlockSet(blocks) <==> b in blocks
  {
    if |blocks| == 0 {
    } else {
      InBlockSet(blocks[1..], b);
    }
  }

  ghost predicate SpaceOk(space: set<Block>)
    reads space
  {
    OwnData(space) && forall b :: b in space ==> BlockOk(b)
  }

  lemma SpaceMore(space: set<Block>, b: Block)
    requires SpaceOk(space) && BlockOk(b) && forall c :: c in space ==> c.data != b.data
    ensures SpaceOk(space + {b})
  {
  }

  class Arena {
    var head: Block?
    /** The blocks from the newest to the oldest, and the same as a set. */
    ghost var blocks: seq<Block>
    ghost var space: set<Block>
    /** Everything handed out, in order. */
    ghost var regions: seq<Region>

    ghost predicate BlocksOk()
      reads this, blocks, space
    {
      && |blocks| > 0 && Chain(head, blocks)
      && (forall i :: 0 <= i < |blocks| ==> blocks[i] in space)
      && SpaceOk(space)
    }

    /** The regions lie in the used parts of the blocks, aligned and disjoint. */
    ghost predicate RegionsOk()
      reads this, space
    {
      && (forall i :: 0 <= i < |regions| ==> regions[i].block in space && RegionOk(regions[i]))
      && PairwiseDisjoint(regions)
    }

    /** Closed blocks cost at most twice what was handed out; only the newest may be mostly empty. */
    ghost predicate Budget()
      requires |blocks| > 0
      reads this, blocks
    {
      && CapacitySum(blocks[1..]) + blocks[0].used <= 2 * SizeSum(regions)
      && (blocks[0].capacity <= ARENA_BLOCK_SIZE || blocks[0].capacity <= blocks[0].used)
    }

    ghost predicate Valid()
      reads this, blocks, space
    {
      BlocksOk() && RegionsOk() && Budget() && space == BlockSet(blocks)
    }

    constructor ()
      ensures Valid() && fresh(space) && regions == []
      ensures blocks == [blocks[0]] && fresh(blocks[0].data)
    {
      var b := new Block(ARENA_BLOCK_SIZE);
      head, blocks, space, regions := b, [b], {b}, [];
    }

    /** The memory footprint: the space taken from the system is bounded by what was asked for. */
    lemma Footprint()
      requires Valid()
      ensures PairwiseDisjoint(regions)
      ensures CapacitySum(blocks) <= 2 * SizeSum(regions) + ARENA_BLOCK_SIZE
    {
    }

    /** A new block in front of the list. */
    method AddBlock(cap: nat)
      requires BlocksOk()
      modifies this`head, this`blocks, this`space
      ensures BlocksOk() && fresh(blocks[0]) && fresh(blocks[0].data)
      ensures blocks[1..] == old(blocks) && space == old(space) + {blocks[0]}
      ensures blocks[0].used == 0 && blocks[0].capacity == cap
    {
      ghost var before := blocks;
      var b := new Block(cap);
      b.next := head;
      head := b;
      blocks := [b] + blocks;
      space := space + {b};
      assert blocks[1..] == before;
      assert Chain(b, blocks) by {
        ChainCons(b, before);
      }
      SpaceMore(old(space), b);
    }

    /** The newest block has room, if need be because it is new: the old one was then too full. */
    method MakeRoom(size: nat)
      requires Valid()
      modifies this`head, this`blocks, this`space
      ensures BlocksOk() && RegionsOk() && blocks[0].used + size <= blocks[0].capacity
      ensures blocks == old(blocks) || (fresh(blocks[0]) && fresh(blocks[0].data) && blocks[1..] == old(blocks))
      ensures CapacitySum(blocks[1..]) + blocks[0].used <= 2 * SizeSum(regions) + size
      ensures space == BlockSet(blocks)
      ensures blocks[0].capacity <= ARENA_BLOCK_SIZE || blocks[0].capacity <= blocks[0].used + size
    {
      if head.used + size > head.capacity {
        AddBlock(if size > ARENA_BLOCK_SIZE then size else ARENA_BLOCK_SIZE);
      }
    }

    /** The used part of the newest block grows; nothing that was handed out changes. */
    method Extend(size: nat) returns (start: nat)
      requires BlocksOk() && RegionsOk() && size % 8 == 0 && blocks[0].used + size <= blocks[0].capacity
      modifies blocks[0], blocks[0].data
      ensures BlocksOk() && RegionsOk()
      ensures start == old(blocks[0].used) && blocks[0].used == start + size
      ensures forall i :: start <= i < start + size ==> blocks[0].data[i] == 0
      ensures forall i :: 0 <= i < |regions| ==> Contents(regions[i]) == old(Contents(regions[i]))
    {
      ghost var b: Block := head;
      start := head.Bump(size);
      assert Chain(head, blocks);
      forall i | 0 <= i < |regions|
        ensures Contents(regions[i]) == old(Contents(regions[i]))
      {
        var p := regions[i];
        if p.block == b {
          assert p.start + p.size <= start;
        } else {
          assert p.block.data != b.data;
        }
      }
    }

    /** The front of the unused part of the newest block, zeroed. */
    method Take(size: nat) returns (ptr: Region)
      requires BlocksOk() && RegionsOk() && size % 8 == 0 && blocks[0].used + size <= blocks[0].capacity
      modifies this`regions, blocks[0], blocks[0].data
      ensures BlocksOk() && RegionsOk() && regions == old(regions) + [ptr]
      ensures ptr == Region(blocks[0], old(blocks[0].used), size) && blocks[0].used == old(blocks[0].used) + size
      ensures ptr.start + ptr.size <= ptr.block.data.Length && Contents(ptr) == seq(size, _ => 0)
      ensures forall i :: 0 <= i < |old(regions)| ==> Contents(regions[i]) == old(Contents(regions[i]))
    {
      AfterUsed(Region(head, head.used, size));
      var start := Extend(size);
      ptr := Region(head, start, size);
      regions := regions + [ptr];
    }

    /** A region that starts where the used part ends is disjoint from all earlier ones. */
    lemma AfterUsed(ptr: Region)
      requires RegionsOk() && ptr.start == ptr.block.used
      ensures PairwiseDisjoint(regions + [ptr])
    {
    }

    /** What was paid ahead for room is covered by the region that takes it. */
    lemma BudgetKept(given: seq<Region>, ptr: Region)
      requires |blocks| > 0 && regions == given + [ptr] && ptr.size <= blocks[0].used
      requires CapacitySum(blocks[1..]) + (blocks[0].used - ptr.size) <= 2 * SizeSum(given) + ptr.size
      requires blocks[0].capacity <= ARENA_BLOCK_SIZE || blocks[0].capacity <= blocks[0].used
      ensures Budget()
    {
      SizeSumMore(given, ptr);
    }

    /**
      * `arena_alloc`. The region is inside its block, aligned, zeroed, disjoint from every earlier one
      * and of the rounded size; the bytes of the earlier ones are as they were.
      */
    method Alloc(size: nat) returns (ptr: Region)
      requires Valid()
      modifies this, blocks, set b | b in blocks :: b.data
      ensures Valid() && regions == old(regions) + [ptr]
      ensures ptr.size == RoundUp(size)
      ensures ptr.start + ptr.size <= ptr.block.data.Length && Contents(ptr) == seq(ptr.size, _ => 0)
      ensures blocks == old(blocks) || (fresh(blocks[0]) && fresh(blocks[0].data) && blocks[1..] == old(blocks))
      ensures forall i :: 0 <= i < |old(regions)| ==> Contents(regions[i]) == old(Contents(regions[i]))
    {
      var rounded := RoundUp(size);
      MakeRoom(rounded);
      ghost var given := regions;
      ptr := Take(rounded);
      BudgetKept(given, ptr);
    }

    /** `arena_free`: every block is given back, once, and its link is read before that. */
    method Free()
      requires Valid()
      modifies this, blocks
      ensures head == null
      ensures forall b :: b in old(blocks) ==> !b.live
      ensures forall i :: 0 <= i < |regions| ==> !regions[i].block.live
    {
      var b := head;
      ghost var n, all, handed, whole := 0, blocks, regions, space;
      while b != null
        invariant regions == handed
        invariant 0 <= n <= |all| && b == BlockAt(all, n) && Linked(all)
        invariant forall i :: 0 <= i < n ==> !all[i].live
        invariant forall i :: n <= i < |all| ==> all[i].live
        decreases |all| - n
      {
        var next := b.next;
        b.Release();
        b := next;
        n := n + 1;
      }
      head := null;
      forall i | 0 <= i < |regions|
        ensures !regions[i].block.live
      {
        assert handed[i].block in whole;
        InBlockSet(all, handed[i].block);
      }
    }
  }

  /** A whole run: one region per request, in order and disjoint, in boundedly much space. */
  method Run(sizes: seq<nat>) returns (a: Arena)
    ensures fresh(a) && a.Valid() && |a.regions| == |sizes|
    ensures forall k :: 0 <= k < |a.blocks| ==> fresh(a.blocks[k]) && fresh(a.blocks[k].data)
    ensures forall i :: 0 <= i < |sizes| ==> a.regions[i].size == RoundUp(sizes[i])
  {
    if |sizes| == 0 {
      a := new Arena();
    } else {
      a := Run(sizes[..|sizes| - 1]);
      var ptr := a.Alloc(sizes[|sizes| - 1]);
    }
  }
}
