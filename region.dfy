/**
 * The state and the operations of `mreg::MemoryRegionManager` (MemoryRegion.cpp) as values.
 *
 * Memory blocks live in an arena indexed by `Handle`. A handle stands for the address of a
 * block obtained from `malloc`; a block header keeps `end` and `free` as byte offsets from
 * that address, so a fresh block's cursor `HEADER_SIZE` is the first byte past its header.
 * The active chain `head.next ... tail` and the `released` pool are sequences of handles in
 * `next`-link order; the sentinel `head` is not in the arena: an empty active chain means
 * that `tail` is the sentinel, whose `free` and `end` are both null.
 */
module Region {

  /** `sizeof(MemoryBlock)`: three 64-bit pointers. */
  const HEADER_SIZE: nat := 24

  type Handle = nat

  /** A block header: its `next` link is given by the position of its handle in a chain. */
  datatype MemoryBlock = MemoryBlock(end: nat, free: nat)

  /** `free <= end`, and the cursor never moves back into the header. */
  predicate BlockValid(b: MemoryBlock)
  {
    HEADER_SIZE <= b.free <= b.end
  }

  /**
   * Payload bytes handed out since the block's cursor was last placed after its header. For a
   * block with `free <= end` it is what `info` prints: the payload size less the bytes left.
   */
  function Used(b: MemoryBlock): (n: nat)
    requires HEADER_SIZE <= b.free
    ensures b.free <= b.end ==> n == (b.end - HEADER_SIZE) - (b.end - b.free)
  {
    b.free - HEADER_SIZE
  }

  /**
   * Payload bytes the block can hand out, `end - block - sizeof(MemoryBlock)`: a valid block
   * never has used more, and a block whose cursor reached its end has used exactly that.
   */
  function Capacity(b: MemoryBlock): (n: nat)
    requires HEADER_SIZE <= b.end
    ensures BlockValid(b) ==> Used(b) <= n
    ensures Used(b.(free := b.end)) == n
  {
    b.end - HEADER_SIZE
  }

  /** The header `allocateBlock(bytes)` writes into a successful `malloc(bytes + sizeof(MemoryBlock))`. */
  function NewBlock(bytes: nat): (b: MemoryBlock)
    ensures BlockValid(b) && Capacity(b) == bytes && Used(b) == 0
  {
    MemoryBlock(HEADER_SIZE + bytes, HEADER_SIZE)
  }

  /** A pointer handed out by `allocate`: null, or a byte offset inside a block. */
  datatype Addr = Null | At(block: Handle, offset: nat)

  /** `allocate` either yields a pointer or throws `std::bad_alloc`. */
  datatype Result<T> = Ok(value: T) | BadAlloc

  /** The fields of a manager: the arena, both chains and `memblockSizeReserve`. */
  datatype Region = Region(blocks: seq<MemoryBlock>, active: seq<Handle>, released: seq<Handle>, reserve: nat)

  /** Every block the manager owns, active chain first. */
  function Chains(r: Region): seq<Handle>
  {
    r.active + r.released
  }

  predicate NoDup(s: seq<Handle>)
  {
    forall i, j :: 0 <= i < j < |s| ==> s[i] != s[j]
  }

  /** Both chains name blocks of the arena, so following them never leaves it. */
  predicate WellFormed(r: Region)
  {
    && (forall i :: 0 <= i < |r.active| ==> r.active[i] < |r.blocks|)
    && (forall i :: 0 <= i < |r.released| ==> r.released[i] < |r.blocks|)
  }

  /**
   * The manager's invariant: every block keeps `free <= end`, and the two chains together
   * hold as many distinct blocks as the arena has, all of them from the arena, so every block
   * is on exactly one chain (`ChainsCoverArena`) and the chains are disjoint (`ChainsDisjoint`).
   */
  predicate Valid(r: Region)
  {
    && WellFormed(r)
    && (forall h :: 0 <= h < |r.blocks| ==> BlockValid(r.blocks[h]))
    && NoDup(Chains(r))
    && |Chains(r)| == |r.blocks|
  }

  /** A default-constructed manager (or one built with an explicit reserve). */
  function Empty(reserve: nat): (r: Region)
    ensures Valid(r) && Chains(r) == [] && r.reserve == reserve
  {
    Region([], [], [], reserve)
  }

  function Last(s: seq<Handle>): Handle
    requires s != []
  {
    s[|s| - 1]
  }

  /**
   * The negation of `allocate`'s loop condition: `tail->free + bytes <= tail->end`.
   * On the sentinel both pointers are null, so only a zero-byte request fits.
   */
  predicate Fits(r: Region, bytes: nat)
    requires WellFormed(r)
    ensures r.active == [] ==> (Fits(r, bytes) <==> bytes == 0)
    ensures bytes == 0 && (r.active != [] ==> BlockValid(r.blocks[Last(r.active)])) ==> Fits(r, bytes)
  {
    if r.active == [] then bytes == 0
    else r.blocks[Last(r.active)].free + bytes <= r.blocks[Last(r.active)].end
  }

  /** `tail->free`: what the bump step hands out next. */
  function Cursor(r: Region): (c: Addr)
    requires WellFormed(r)
    ensures c == Null <==> r.active == []
    ensures c.At? ==> c.block == Last(r.active) && c.block < |r.blocks| && c.offset == r.blocks[c.block].free
  {
    if r.active == [] then Null else At(Last(r.active), r.blocks[Last(r.active)].free)
  }

  /**
   * One slow-path step with a non-empty pool: the front released block gets its cursor reset
   * to just past its header and is linked as the new tail.
   */
  function Pop(r: Region): (p: Region)
    requires WellFormed(r) && r.released != []
    ensures WellFormed(p) && Chains(p) == Chains(r)
    ensures |p.released| == |r.released| - 1 && r.active <= p.active
    ensures Cursor(p) == At(r.released[0], HEADER_SIZE)
  {
    var h := r.released[0];
    var p := r.(blocks := r.blocks[h := r.blocks[h].(free := HEADER_SIZE)],
                active := r.active + [h],
                released := r.released[1..]);
    assert Chains(p) == Chains(r) by {
      assert r.released == [h] + p.released;
    }
    p
  }

  /**
   * One slow-path step with an empty pool: `allocateBlock(memblockSizeReserve + bytes)`
   * succeeded and the new block is linked as the tail.
   */
  function Fresh(r: Region, bytes: nat): (f: Region)
    requires WellFormed(r) && r.released == []
    ensures WellFormed(f) && Chains(f) == Chains(r) + [|r.blocks|]
    ensures Fits(f, bytes) && Cursor(f) == At(|r.blocks|, HEADER_SIZE)
    ensures r.active <= f.active && f.released == []
  {
    r.(blocks := r.blocks + [NewBlock(r.reserve + bytes)], active := r.active + [|r.blocks|])
  }

  /**
   * The `while` loop of `allocate`: grow the active chain one block at a time until the tail
   * fits `bytes`, preferring released blocks over fresh ones. The flag is false when `malloc`
   * fails (`grant` is the system allocator's answer), which throws out of the loop with the
   * steps already taken kept.
   */
  function Grow(r: Region, bytes: nat, grant: bool): (res: (Region, bool))
    requires WellFormed(r)
    ensures WellFormed(res.0) && res.0.reserve == r.reserve
    ensures res.1 ==> Fits(res.0, bytes)
    ensures !res.1 ==> !grant && res.0.released == [] && |res.0.blocks| == |r.blocks|
    ensures r.active <= res.0.active && |res.0.released| <= |r.released|
    ensures |r.blocks| <= |res.0.blocks| <= |r.blocks| + 1
    decreases |r.released|
  {
    if Fits(r, bytes) then (r, true)
    else if r.released == [] then (if grant then (Fresh(r, bytes), true) else (r, false))
    else Grow(Pop(r), bytes, grant)
  }

  /** The bump step after the loop: hand out `tail->free` and advance it by `bytes`. */
  function Bump(r: Region, bytes: nat): (res: (Region, Addr))
    requires WellFormed(r) && Fits(r, bytes)
    ensures WellFormed(res.0) && res.0.active == r.active && res.0.released == r.released
    ensures res.1 == Cursor(r)
    ensures r.active != [] ==> Cursor(res.0) == At(Last(r.active), r.blocks[Last(r.active)].free + bytes)
    ensures r.active == [] ==> res.0 == r
    ensures |res.0.blocks| == |r.blocks|
    ensures forall h :: 0 <= h < |r.blocks| && (r.active == [] || h != Last(r.active)) ==> res.0.blocks[h] == r.blocks[h]
    ensures r.active != [] ==> res.0.blocks[Last(r.active)].end == r.blocks[Last(r.active)].end
  {
    if r.active == [] then (r, Null)
    else
      var h := Last(r.active);
      var b := r.blocks[h];
      (r.(blocks := r.blocks[h := b.(free := b.free + bytes)]), At(h, b.free))
  }

  /** `allocate(bytes)`: the new state and the pointer returned (or the exception thrown). */
  function Allocate(r: Region, bytes: nat, grant: bool): (res: (Region, Result<Addr>))
    requires WellFormed(r)
    ensures WellFormed(res.0) && res.0.reserve == r.reserve
    ensures res.1 == Ok(Null) <==> r.active == [] && bytes == 0
    ensures res.1.Ok? && res.1.value.At? ==>
              && res.0.active != []
              && res.1.value.block == Last(res.0.active)
              && res.1.value.offset + bytes == res.0.blocks[res.1.value.block].free
    ensures res.1.BadAlloc? ==> !grant
  {
    var g := Grow(r, bytes, grant);
    if g.1 then
      var b := Bump(g.0, bytes);
      (b.0, Ok(b.1))
    else (g.0, BadAlloc)
  }

  /**
   * `release()`: splice the active chain in front of the pool and make the sentinel the tail
   * again. No block is freed and no cursor is reset.
   */
  function Release(r: Region): (r': Region)
    requires WellFormed(r)
    ensures WellFormed(r') && Chains(r') == Chains(r) && r'.blocks == r.blocks
    ensures Cursor(r') == Null && r'.reserve == r.reserve
  {
    r.(active := [], released := r.active + r.released)
  }

  /** One line of `info()`: a block's payload size and the bytes handed out of it. */
  datatype BlockStats = BlockStats(capacity: nat, used: nat)
}
