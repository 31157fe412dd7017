/**
 * What `release()` of MemoryRegion.cpp guarantees: nothing is freed, every block goes back to
 * the pool, and the memory is reused by the next requests, first block first.
 */
module ReleaseProperties {
  import opened Region
  import opened RegionProperties
  import opened AllocateProperties

  /** Releasing twice is releasing once: the second call only relinks the sentinel. */
  lemma ReleaseIdempotent(r: Region)
    requires WellFormed(r)
    ensures Release(Release(r)) == Release(r)
    ensures r.active == [] ==> Release(r) == r
  {
    assert [] + r.released == r.released;
    assert [] + (r.active + r.released) == r.active + r.released;
  }

  /** After `release` nothing handed out before is live any more. */
  lemma ReleaseEndsLiveRanges(r: Region, h: Handle, o: nat, n: nat)
    requires WellFormed(r)
    ensures !Live(Release(r), h, o, n)
  {
  }

  /** After `release`, the loop stops at the first block of the old chain if that one fits. */
  lemma ReleaseThenGrow(r: Region, bytes: nat, grant: bool)
    requires WellFormed(r) && r.active != [] && HEADER_SIZE <= r.blocks[r.active[0]].end
    requires 0 < bytes <= Capacity(r.blocks[r.active[0]])
    ensures var h := r.active[0];
            var p := Pop(Release(r));
            && Grow(Release(r), bytes, grant) == (p, true)
            && p.active == [h] && p.released == r.active[1..] + r.released
            && p.blocks == r.blocks[h := r.blocks[h].(free := HEADER_SIZE)]
  {
    var h := r.active[0];
    var q := Release(r);
    assert q.released[0] == h;
    var p := Pop(q);
    PopShape(q);
    assert p.active == [h];
    assert Fits(p, bytes);
    assert q.released[1..] == r.active[1..] + r.released;
  }

  /**
   * After `release`, a request the first block of the old active chain can hold is served
   * from the start of that block: its cursor is reset, it becomes the only active block, and
   * the rest of the old chain is kept, in order, in front of the old pool.
   */
  lemma ReleaseThenAllocate(r: Region, bytes: nat, grant: bool)
    requires WellFormed(r) && r.active != [] && HEADER_SIZE <= r.blocks[r.active[0]].end
    requires 0 < bytes <= Capacity(r.blocks[r.active[0]])
    ensures var h := r.active[0];
            Allocate(Release(r), bytes, grant)
              == (r.(blocks := r.blocks[h := r.blocks[h].(free := HEADER_SIZE + bytes)],
                     active := [h],
                     released := r.active[1..] + r.released),
                  Ok(At(h, HEADER_SIZE)))
  {
    var h := r.active[0];
    ReleaseThenGrow(r, bytes, grant);
    var p := Pop(Release(r));
    assert Last(p.active) == h;
    var b := p.blocks[h];
    assert Bump(p, bytes) == (p.(blocks := p.blocks[h := b.(free := HEADER_SIZE + bytes)]), At(h, HEADER_SIZE));
    assert p.blocks[h := b.(free := HEADER_SIZE + bytes)]
        == r.blocks[h := r.blocks[h].(free := HEADER_SIZE + bytes)];
  }

  /**
   * A manager with a reserve of 1 KiB: a 100-byte request gets a block of 1124 payload bytes,
   * a 2000-byte request that does not fit what is left gets a second block of 3024, and after
   * `release` both blocks are in the pool, in chain order, and the next request reuses the first.
   */
  lemma ReserveScenario()
    ensures var r0 := Empty(1024);
            var (r1, a) := Allocate(r0, 100, true);
            var (r2, b) := Allocate(r1, 2000, true);
            var r3 := Release(r2);
            var (r4, c) := Allocate(r3, 50, true);
            && a == Ok(At(0, HEADER_SIZE)) && b == Ok(At(1, HEADER_SIZE)) && c == Ok(At(0, HEADER_SIZE))
            && |r2.blocks| == 2
            && Capacity(r2.blocks[0]) == 1124 && Used(r2.blocks[0]) == 100
            && Capacity(r2.blocks[1]) == 3024 && Used(r2.blocks[1]) == 2000
            && r3.active == [] && r3.released == [0, 1]
            && r4.active == [0] && r4.released == [1] && Used(r4.blocks[0]) == 50
  {
    var r0 := Empty(1024);
    AllocateFreshBlock(r0, 100, true);
    var (r1, a) := Allocate(r0, 100, true);
    assert r1.blocks == [MemoryBlock(HEADER_SIZE + 1124, HEADER_SIZE + 100)];
    assert !Fits(r1, 2000);
    AllocateFreshBlock(r1, 2000, true);
    var (r2, b) := Allocate(r1, 2000, true);
    assert r2.active == [0, 1];
    ReleaseThenAllocate(r2, 50, true);
  }
}
