/**
 * What a whole `allocate(bytes)` call of MemoryRegion.cpp guarantees: which block serves the
 * request, where in it the pointer lies, what happens when `malloc` fails, and that pointers
 * handed out since the last `release` never overlap.
 */
module AllocateProperties {
  import opened Region
  import opened RegionProperties

  /** A request that fits the tail is served from it without touching the pool. */
  lemma AllocateFastPath(r: Region, bytes: nat, grant: bool)
    requires WellFormed(r) && Fits(r, bytes)
    ensures var (r', res) := Allocate(r, bytes, grant);
            && res == Ok(Cursor(r))
            && r'.active == r.active && r'.released == r.released && r'.reserve == r.reserve
            && (r.active == [] ==> r' == r)
            && (r.active != [] ==>
                  var t := Last(r.active);
                  r'.blocks == r.blocks[t := r.blocks[t].(free := r.blocks[t].free + bytes)])
  {
    GrowIdleIffFits(r, bytes, grant);
  }

  /** A zero-byte request always fits: it returns the tail's cursor and changes nothing. */
  lemma AllocateZeroBytes(r: Region, grant: bool)
    requires Valid(r)
    ensures Allocate(r, 0, grant) == (r, Ok(Cursor(r)))
  {
    if r.active != [] {
      var t := Last(r.active);
      assert r.blocks[t := r.blocks[t].(free := r.blocks[t].free)] == r.blocks;
    }
    AllocateFastPath(r, 0, grant);
  }

  /**
   * With an empty pool and a tail that does not fit, `allocate` asks `malloc` for one block of
   * payload `memblockSizeReserve + bytes` and serves the request from its start; if `malloc`
   * fails nothing changes.
   */
  lemma AllocateFreshBlock(r: Region, bytes: nat, grant: bool)
    requires WellFormed(r) && r.released == [] && !Fits(r, bytes)
    ensures var (r', res) := Allocate(r, bytes, grant);
            && (grant ==>
                  && res == Ok(At(|r.blocks|, HEADER_SIZE))
                  && r'.active == r.active + [|r.blocks|] && r'.released == []
                  && r'.blocks == r.blocks + [NewBlock(r.reserve + bytes).(free := HEADER_SIZE + bytes)]
                  && Capacity(r'.blocks[|r.blocks|]) == r.reserve + bytes)
            && (!grant ==> (r', res) == (r, BadAlloc))
  {
    if grant {
      var f := Fresh(r, bytes);
      assert Grow(r, bytes, grant) == (f, true);
      assert Last(f.active) == |r.blocks|;
    }
  }

  /**
   * A `bad_alloc` only comes from `malloc`, after the loop has linked every released block
   * (each reset, each too small for the request) behind the old tail; the arena keeps its size.
   */
  lemma AllocateFailure(r: Region, bytes: nat, grant: bool)
    requires WellFormed(r)
    ensures var (r', res) := Allocate(r, bytes, grant);
            res.BadAlloc? ==>
              && !grant && !Fits(r, bytes)
              && r'.active == r.active + r.released && r'.released == []
              && |r'.blocks| == |r.blocks|
              && PoolFrontTooSmall(r, |r.released|, bytes)
              && (forall i :: 0 <= i < |r.released| ==>
                    r'.blocks[r.released[i]] == r.blocks[r.released[i]].(free := HEADER_SIZE))
  {
    var g := Grow(r, bytes, grant);
    if !g.1 {
      GrowChains(r, bytes, grant);
      GrowPassesSmallBlocks(r, bytes, grant);
      GrowResetsReusedBlocks(r, bytes, grant);
      GrowIdleIffFits(r, bytes, grant);
      assert Taken(r, g.0) == |r.released|;
      assert r.released[..|r.released|] == r.released;
    }
  }

  /** When the loop linked nothing, it left the state as it was. */
  lemma GrowCursorIdle(r: Region, bytes: nat, grant: bool)
    requires WellFormed(r)
    requires var g := Grow(r, bytes, grant).0; Taken(r, g) == 0 && |g.blocks| == |r.blocks|
    ensures Grow(r, bytes, grant).0 == r
  {
    GrowChains(r, bytes, grant);
    GrowBlocks(r, bytes, grant);
    assert r.released[..0] == [];
  }

  /** When the loop stopped on a reused block, the cursor is at the start of that block. */
  lemma GrowCursorReused(r: Region, bytes: nat, grant: bool)
    requires WellFormed(r)
    requires var g := Grow(r, bytes, grant).0; 0 < Taken(r, g) && |g.blocks| == |r.blocks|
    ensures var g := Grow(r, bytes, grant).0;
            Cursor(g) == At(r.released[Taken(r, g) - 1], HEADER_SIZE)
  {
    var g := Grow(r, bytes, grant).0;
    GrowChains(r, bytes, grant);
    assert Last(g.active) == r.released[Taken(r, g) - 1];
    GrowResetsReusedBlocks(r, bytes, grant);
  }

  /** When the loop linked a fresh block, the cursor is at the start of that block. */
  lemma GrowCursorFresh(r: Region, bytes: nat, grant: bool)
    requires WellFormed(r)
    requires |Grow(r, bytes, grant).0.blocks| > |r.blocks|
    ensures var g := Grow(r, bytes, grant).0;
            Cursor(g) == At(|r.blocks|, HEADER_SIZE) && Taken(r, g) == |r.released|
  {
    var g := Grow(r, bytes, grant).0;
    GrowChains(r, bytes, grant);
    GrowFreshOnlyWhenPoolEmpty(r, bytes, grant);
    assert Last(g.active) == |r.blocks|;
  }

  /**
   * The three ways a non-null pointer is served: from the old tail's cursor when nothing had
   * to be linked, from the start of the `k`-th released block when the `k - 1` before it were
   * too small, or from the start of a fresh block when the whole pool was too small.
   */
  lemma AllocateServedFrom(r: Region, bytes: nat, grant: bool)
    requires WellFormed(r)
    ensures var (r', res) := Allocate(r, bytes, grant);
            var g := Grow(r, bytes, grant).0;
            var k := Taken(r, g);
            res.Ok? && res.value.At? ==>
              || (k == 0 && |g.blocks| == |r.blocks| && res.value == Cursor(r))
              || (0 < k && |g.blocks| == |r.blocks| && res.value == At(r.released[k - 1], HEADER_SIZE)
                  && PoolFrontTooSmall(r, k - 1, bytes))
              || (k == |r.released| && |g.blocks| == |r.blocks| + 1 && res.value == At(|r.blocks|, HEADER_SIZE)
                  && PoolFrontTooSmall(r, k, bytes))
  {
    var g := Grow(r, bytes, grant);
    if g.1 {
      GrowPassesSmallBlocks(r, bytes, grant);
      var k := Taken(r, g.0);
      if |g.0.blocks| > |r.blocks| {
        GrowCursorFresh(r, bytes, grant);
      } else if k == 0 {
        GrowCursorIdle(r, bytes, grant);
      } else {
        GrowCursorReused(r, bytes, grant);
      }
    }
  }

  /**
   * `n` bytes at offset `o` of block `h` are handed out and not yet given back: the block is
   * active and the range lies between its header and its cursor.
   */
  ghost predicate Live(r: Region, h: Handle, o: nat, n: nat)
    requires WellFormed(r)
  {
    h in r.active && HEADER_SIZE <= o && o + n <= r.blocks[h].free
  }

  /** The bump step only ever moves the tail's cursor forward, and no block's `end`. */
  lemma BumpMovesCursorForward(r: Region, bytes: nat, h: Handle)
    requires WellFormed(r) && Fits(r, bytes) && h < |r.blocks|
    ensures var b := Bump(r, bytes).0;
            b.blocks[h].free >= r.blocks[h].free && b.blocks[h].end == r.blocks[h].end
  {
  }

  /**
   * A served request gets the `bytes` just below the new tail's cursor, inside the payload of
   * an active block; from then on that range is live.
   */
  lemma AllocateInPayload(r: Region, bytes: nat, grant: bool)
    requires Valid(r)
    ensures var (r', res) := Allocate(r, bytes, grant);
            res.Ok? && res.value.At? ==>
              && res.value.block == Last(r'.active)
              && Live(r', res.value.block, res.value.offset, bytes)
              && res.value.offset + bytes <= r'.blocks[res.value.block].end
  {
    AllocateValid(r, bytes, grant);
    GrowValid(r, bytes, grant);
  }

  /**
   * Until the next `release`, what was handed out stays handed out and is never handed out
   * again: a live range stays live through `allocate`, and the pointer returned for the same
   * block starts at or after the range's end.
   */
  lemma AllocateKeepsLive(r: Region, bytes: nat, grant: bool, h: Handle, o: nat, n: nat)
    requires Valid(r) && Live(r, h, o, n)
    ensures var (r', res) := Allocate(r, bytes, grant);
            && Live(r', h, o, n)
            && (res.Ok? && res.value.At? && res.value.block == h ==> o + n <= res.value.offset)
  {
    var g := Grow(r, bytes, grant);
    ChainsDisjoint(r);
    GrowKeepsOtherBlocks(r, bytes, grant);
    assert h !in r.released[..Taken(r, g.0)];
    assert g.0.blocks[h] == r.blocks[h];
    if g.1 {
      BumpMovesCursorForward(g.0, bytes, h);
      AllocateServedFrom(r, bytes, grant);
      var k := Taken(r, g.0);
      if 0 < k && |g.0.blocks| == |r.blocks| {
        assert r.released[k - 1] in r.released;
      }
    }
  }

  /**
   * Two requests in a row served from the same block get adjacent ranges: the second starts
   * exactly where the first ends.
   */
  lemma AllocateAdjacent(r: Region, b1: nat, g1: bool, b2: nat, g2: bool)
    requires Valid(r)
    ensures var (r1, x) := Allocate(r, b1, g1);
            var (r2, y) := Allocate(r1, b2, g2);
            x.Ok? && x.value.At? && y.Ok? && y.value.At? && y.value.block == x.value.block ==>
              y.value.offset == x.value.offset + b1
  {
    var (r1, x) := Allocate(r, b1, g1);
    if x.Ok? && x.value.At? {
      AllocateValid(r, b1, g1);
      ChainsDisjoint(r1);
      AllocateServedFrom(r1, b2, g2);
      var g := Grow(r1, b2, g2).0;
      var k := Taken(r1, g);
      if 0 < k && |g.blocks| == |r1.blocks| {
        assert r1.released[k - 1] in r1.released;
      }
    }
  }
}
