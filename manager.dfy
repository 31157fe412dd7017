/**
 * `mreg::MemoryRegionManager` (MemoryRegion.hpp, MemoryRegion.cpp) as a class whose fields
 * are the manager's: the chains starting at `head.next` and at `released`, the `tail`
 * pointer and `memblockSizeReserve`. `Allocate` and `Emplace` move the abstract `State()` as
 * `Region.Allocate` does, `Release` as `Region.Release`, and the loop steps `ReuseReleased`,
 * `LinkFresh` and `BumpTail` as `Region.Pop`, `Region.Fresh` and `Region.Bump`; the
 * constructors start from `Region.Empty`. `AllocateBlock`, `Info`, `Destroy` and the move
 * constructors are specified directly on the fields.
 */
module Manager {
  import opened Units
  import opened R = Region
  import opened RegionProperties

  /** Where `tail` points: a manager's own sentinel `head`, a block, or nowhere (`nullptr`). */
  datatype BlockRef = HeadOf(owner: MemoryRegionManager) | BlockAt(handle: Handle) | NoBlock

  class MemoryRegionManager {
    /** The blocks this manager obtained from `malloc`, by handle. */
    var blocks: seq<MemoryBlock>
    /** The chain `head.next -> ... -> tail` of blocks requests are served from. */
    var active: seq<Handle>
    /** The chain of blocks given back by `release()`, reused before any new `malloc`. */
    var released: seq<Handle>
    var tail: BlockRef
    var memblockSizeReserve: U64
    /** The blocks passed to `free`, in the order of the calls. */
    ghost var freeLog: seq<Handle>

    function State(): R.Region
      reads this
    {
      R.Region(blocks, active, released, memblockSizeReserve)
    }

    /** The block `tail` must point at: the last block of the active chain, else the sentinel. */
    function Tail(): BlockRef
      reads this
    {
      if active == [] then HeadOf(this) else BlockAt(Last(active))
    }

    ghost predicate Valid()
      reads this
    {
      R.Valid(State()) && tail == Tail() && freeLog == []
    }

    /** What is left of a manager whose chains were moved into another one. */
    ghost predicate MovedFrom()
      reads this
    {
      blocks == [] && active == [] && released == [] && tail == NoBlock && freeLog == []
    }

    /** `MemoryRegionManager() = default`: no blocks, the default reserve of 64 KiB. */
    constructor ()
      ensures Valid() && State() == Empty(DEFAULT_BLOCK_RESERVE)
    {
      blocks, active, released := [], [], [];
      memblockSizeReserve := DEFAULT_BLOCK_RESERVE;
      freeLog := [];
      tail := NoBlock;
      new;
      tail := HeadOf(this);
    }

    /** `MemoryRegionManager(memblockSizeReserve)`: no blocks, the given reserve. */
    constructor WithReserve(memblockSizeReserve: U64)
      ensures Valid() && State() == Empty(memblockSizeReserve)
    {
      blocks, active, released := [], [], [];
      this.memblockSizeReserve := memblockSizeReserve;
      freeLog := [];
      tail := NoBlock;
      new;
      tail := HeadOf(this);
    }

    /**
     * The move constructor as written: it takes over both chains and copies `rval.tail`,
     * leaves `rval` with null chains and a null tail, and keeps the default reserve rather
     * than `rval`'s. When `rval`'s active chain is empty, its tail is `rval`'s own sentinel,
     * so the new manager's tail points into `rval` and the new manager is not valid.
     */
    constructor MoveAsWritten(rval: MemoryRegionManager)
      requires rval.Valid()
      modifies rval
      ensures blocks == old(rval.blocks) && active == old(rval.active) && released == old(rval.released)
      ensures memblockSizeReserve == DEFAULT_BLOCK_RESERVE && freeLog == [] && rval.MovedFrom()
      ensures old(rval.active) != [] ==> Valid()
      ensures old(rval.active) == [] ==> tail == HeadOf(rval) && !Valid()
    {
      blocks, active, released := rval.blocks, rval.active, rval.released;
      tail := rval.tail;
      memblockSizeReserve := DEFAULT_BLOCK_RESERVE;
      freeLog := [];
      new;
      rval.blocks, rval.active, rval.released := [], [], [];
      rval.tail := NoBlock;
    }

    /**
     * The move constructor with `tail` pointing at the new manager's own sentinel when the
     * moved chain is empty: the new manager owns exactly the blocks `rval` owned and is valid.
     * Moving from a manager that was itself moved from yields another moved-from manager.
     */
    constructor Move(rval: MemoryRegionManager)
      requires rval.Valid() || rval.MovedFrom()
      modifies rval
      ensures blocks == old(rval.blocks) && active == old(rval.active) && released == old(rval.released)
      ensures memblockSizeReserve == DEFAULT_BLOCK_RESERVE && rval.MovedFrom()
      ensures old(rval.Valid()) ==> Valid()
      ensures old(rval.MovedFrom()) ==> MovedFrom()
    {
      blocks, active, released := rval.blocks, rval.active, rval.released;
      memblockSizeReserve := DEFAULT_BLOCK_RESERVE;
      freeLog := [];
      tail := rval.tail;
      new;
      tail := if rval.tail == HeadOf(rval) then HeadOf(this) else rval.tail;
      rval.blocks, rval.active, rval.released := [], [], [];
      rval.tail := NoBlock;
    }

    /**
     * `allocateBlock(bytes)`: `malloc` a block of `bytes + sizeof(MemoryBlock)` bytes and
     * write its header; `grant` is whether `malloc` succeeded, else `bad_alloc` is thrown.
     * The new block is not on any chain yet.
     */
    method AllocateBlock(bytes: U64, grant: bool) returns (res: Result<Handle>)
      requires bytes + HEADER_SIZE < U64_LIMIT
      modifies this
      ensures grant ==> res == Ok(|old(blocks)|) && blocks == old(blocks) + [NewBlock(bytes)]
      ensures !grant ==> res == BadAlloc && blocks == old(blocks)
      ensures active == old(active) && released == old(released) && tail == old(tail)
      ensures memblockSizeReserve == old(memblockSizeReserve) && freeLog == old(freeLog)
    {
      var size: U64 := bytes + HEADER_SIZE;
      if !grant {
        return BadAlloc;
      }
      res := Ok(|blocks|);
      blocks := blocks + [MemoryBlock(size, HEADER_SIZE)];
    }

    /**
     * The reuse branch of `allocate`'s loop: link the front released block, its cursor reset
     * to just past its header, as the new tail.
     */
    method ReuseReleased()
      requires WellFormed(State()) && released != []
      modifies this
      ensures State() == Pop(old(State())) && tail == Tail() && freeLog == old(freeLog)
    {
      var h := released[0];
      blocks := blocks[h := blocks[h].(free := HEADER_SIZE)];
      released := released[1..];
      active := active + [h];
      tail := BlockAt(h);
    }

    /**
     * The other branch of `allocate`'s loop: link a fresh block of `memblockSizeReserve + bytes`
     * as the new tail, or report that `malloc` failed, with nothing changed.
     */
    method LinkFresh(bytes: U64, grant: bool) returns (linked: bool)
      requires WellFormed(State()) && released == [] && tail == Tail()
      requires memblockSizeReserve + bytes + HEADER_SIZE < U64_LIMIT
      modifies this
      ensures linked == grant
      ensures linked ==> State() == Fresh(old(State()), bytes)
      ensures !linked ==> State() == old(State())
      ensures tail == Tail() && freeLog == old(freeLog)
    {
      var block := AllocateBlock(memblockSizeReserve + bytes, grant);
      if block.BadAlloc? {
        return false;
      }
      active := active + [block.value];
      tail := BlockAt(block.value);
      linked := true;
    }

    /** The bump step of `allocate`: hand out `tail->free` and move it past `bytes`. */
    method BumpTail(bytes: U64) returns (memory: Addr)
      requires WellFormed(State()) && Fits(State(), bytes) && tail == Tail()
      modifies this
      ensures (State(), memory) == Bump(old(State()), bytes)
      ensures tail == Tail() && freeLog == old(freeLog)
    {
      match tail {
        case BlockAt(t) =>
          memory := At(t, blocks[t].free);
          blocks := blocks[t := blocks[t].(free := blocks[t].free + bytes)];
        case _ =>
          memory := Null;
      }
    }

    /**
     * `allocate(bytes)`: while the tail cannot hold `bytes`, link the front released block
     * or, with no released block left, a fresh one as the new tail; then hand out the tail's
     * cursor. The new state and the result are those of `Region.Allocate`.
     */
    method Allocate(bytes: U64, grant: bool) returns (res: Result<Addr>)
      requires Valid() && memblockSizeReserve + bytes + HEADER_SIZE < U64_LIMIT
      modifies this
      ensures (State(), res) == R.Allocate(old(State()), bytes, grant)
      ensures Valid()
    {
      ghost var s0 := State();
      AllocateValid(s0, bytes, grant);
      while !Fits(State(), bytes)
        invariant WellFormed(State()) && tail == Tail() && freeLog == []
        invariant memblockSizeReserve == s0.reserve
        invariant Grow(State(), bytes, grant) == Grow(s0, bytes, grant)
        decreases |released| + (if Fits(State(), bytes) then 0 else 1)
      {
        if released == [] {
          var linked := LinkFresh(bytes, grant);
          if !linked {
            return BadAlloc;
          }
        } else {
          ReuseReleased();
        }
      }
      GrowIdleIffFits(State(), bytes, grant);
      var memory := BumpTail(bytes);
      res := Ok(memory);
    }

    /** `emplace<T>(args...)`: `allocate(sizeof(T))`, then construct a `T` in place. */
    method Emplace(size: U64, grant: bool) returns (res: Result<Addr>)
      requires Valid() && memblockSizeReserve + size + HEADER_SIZE < U64_LIMIT
      modifies this
      ensures (State(), res) == R.Allocate(old(State()), size, grant)
      ensures Valid()
    {
      res := Allocate(size, grant);
    }

    /** `release()`: the active chain goes in front of the pool, the sentinel is the tail again. */
    method Release()
      requires Valid()
      modifies this
      ensures State() == R.Release(old(State()))
      ensures Valid()
    {
      ReleaseValid(State());
      released := active + released;
      active := [];
      tail := HeadOf(this);
    }

    /**
     * `info()`: for each block of the active chain, its payload size and the bytes handed out
     * of it, and the number of released blocks.
     */
    method Info() returns (stats: seq<BlockStats>, releasedBlocks: nat)
      requires Valid()
      ensures |stats| == |active|
      ensures forall i :: 0 <= i < |active| ==>
                && stats[i].capacity == Capacity(blocks[active[i]])
                && stats[i].used == Used(blocks[active[i]])
                && stats[i].used <= stats[i].capacity
      ensures releasedBlocks == |released|
    {
      stats := [];
      var i := 0;
      while i < |active|
        invariant 0 <= i <= |active|
        invariant |stats| == i
        invariant forall j :: 0 <= j < i ==>
                    && stats[j].capacity == Capacity(blocks[active[j]])
                    && stats[j].used == Used(blocks[active[j]])
      {
        var b := blocks[active[i]];
        assert BlockValid(b);
        var size := b.end - HEADER_SIZE;
        var free := b.end - b.free;
        stats := stats + [BlockStats(size, size - free)];
        i := i + 1;
      }
      var iter := released;
      releasedBlocks := 0;
      while iter != []
        invariant releasedBlocks + |iter| == |released|
        decreases |iter|
      {
        releasedBlocks := releasedBlocks + 1;
        iter := iter[1..];
      }
    }

    /**
     * `~MemoryRegionManager()`: `free` every released block, then every block of the active
     * chain, each in chain order. Every block the manager owns is freed exactly once; a
     * moved-from manager frees nothing.
     */
    method Destroy()
      requires Valid() || MovedFrom()
      modifies this
      ensures freeLog == old(released) + old(active)
      ensures NoDup(freeLog) && Elements(freeLog) == Handles(|old(blocks)|)
      ensures released == [] && tail == NoBlock
    {
      ghost var s0 := State();
      while released != []
        invariant freeLog + released == s0.released
        invariant active == s0.active && blocks == s0.blocks
        decreases |released|
      {
        var next := released[1..];
        assert released == [released[0]] + next;
        freeLog := freeLog + [released[0]];
        released := next;
      }
      assert freeLog == s0.released;
      var rest := active;
      tail := if rest == [] then NoBlock else BlockAt(rest[0]);
      while tail != NoBlock
        invariant tail == (if rest == [] then NoBlock else BlockAt(rest[0]))
        invariant freeLog + rest == s0.released + s0.active
        invariant released == [] && blocks == s0.blocks
        decreases |rest|
      {
        assert rest == [rest[0]] + rest[1..];
        freeLog := freeLog + [rest[0]];
        rest := rest[1..];
        tail := if rest == [] then NoBlock else BlockAt(rest[0]);
      }
      assert freeLog == s0.released + s0.active;
      ChainsSwapped(s0);
    }
  }
}
