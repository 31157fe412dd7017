/** What `allocate` and `release` of MemoryRegion.cpp guarantee, proved about the `Region` model. */
module RegionProperties {
  import opened Region

  /** The active chain and the released pool never share a block. */
  lemma ChainsDisjoint(r: Region)
    requires Valid(r)
    ensures forall h :: h in r.active ==> h !in r.released
  {
    forall i, j | 0 <= i < |r.active| && 0 <= j < |r.released|
      ensures r.active[i] != r.released[j]
    {
      assert Chains(r)[i] == r.active[i];
      assert Chains(r)[|r.active| + j] == r.released[j];
    }
  }

  function Elements(s: seq<Handle>): set<Handle>
  {
    set x | x in s
  }

  /** The handles of an arena of `n` blocks. */
  function Handles(n: nat): (s: set<Handle>)
    ensures forall h: Handle :: h in s <==> h < n
    ensures |s| == n
  {
    if n == 0 then {} else Handles(n - 1) + {n - 1}
  }

  lemma {:induction false} DistinctElements(s: seq<Handle>)
    requires NoDup(s)
    ensures |Elements(s)| == |s|
  {
    if s != [] {
      var init := s[..|s| - 1];
      assert NoDup(init);
      DistinctElements(init);
      assert s == init + [s[|s| - 1]];
      assert Elements(s) == Elements(init) + {s[|s| - 1]};
      assert s[|s| - 1] !in Elements(init);
    }
  }

  lemma {:induction false} SubsetSize(a: set<Handle>, b: set<Handle>)
    requires a <= b
    ensures |a| <= |b|
  {
    if a != {} {
      var x :| x in a;
      SubsetSize(a - {x}, b - {x});
    }
  }

  lemma SubsetOfSameSize(a: set<Handle>, b: set<Handle>)
    requires a <= b && |a| == |b|
    ensures a == b
  {
    if x :| x in b && x !in a {
      SubsetSize(a, b - {x});
    }
  }

  /** Every block of the arena is on one of the two chains: nothing leaks. */
  lemma ChainsCoverArena(r: Region)
    requires Valid(r)
    ensures Elements(Chains(r)) == Handles(|r.blocks|)
  {
    DistinctElements(Chains(r));
    forall x | x in Elements(Chains(r))
      ensures x in Handles(|r.blocks|)
    {
      var i :| 0 <= i < |Chains(r)| && Chains(r)[i] == x;
      if i >= |r.active| {
        assert x == r.released[i - |r.active|];
      }
    }
    SubsetOfSameSize(Elements(Chains(r)), Handles(|r.blocks|));
  }

  /**
   * The pool followed by the active chain (the order the destructor frees them in) also names
   * every block of the arena exactly once; so does the empty chain of an empty arena.
   */
  lemma ChainsSwapped(r: Region)
    requires Valid(r) || (r.blocks == [] && r.active == [] && r.released == [])
    ensures NoDup(r.released + r.active)
    ensures Elements(r.released + r.active) == Handles(|r.blocks|)
  {
    if !Valid(r) {
      assert Elements([]) == {};
      return;
    }
    var s := r.released + r.active;
    var c := Chains(r);
    var a, p := |r.active|, |r.released|;
    forall i, j | 0 <= i < j < |s|
      ensures s[i] != s[j]
    {
      var ci := if i < p then a + i else i - p;
      var cj := if j < p then a + j else j - p;
      assert s[i] == c[ci] && s[j] == c[cj] && ci != cj;
      if ci < cj {
        assert c[ci] != c[cj];
      } else {
        assert c[cj] != c[ci];
      }
    }
    ChainsCoverArena(r);
    assert Elements(s) == Elements(c);
  }

  lemma PrefixStep(a: seq<Handle>, s: seq<Handle>, k: nat, x: seq<Handle>, g: seq<Handle>)
    requires 1 <= k <= |s|
    requires g == (a + [s[0]]) + s[1..][..k - 1] + x
    ensures g == a + s[..k] + x
  {
    assert s[..k] == [s[0]] + s[1..][..k - 1];
  }

  lemma SuffixStep(s: seq<Handle>, k: nat)
    requires 1 <= k <= |s|
    ensures s[1..][k - 1..] == s[k..]
  {
  }

  /** What one pop does to the chains. */
  lemma PopShape(r: Region)
    requires WellFormed(r) && r.released != []
    ensures Pop(r).active == r.active + [r.released[0]] && Pop(r).released == r.released[1..]
    ensures |Pop(r).blocks| == |r.blocks| && Pop(r).reserve == r.reserve
  {
  }

  /** How many blocks the loop took from the pool to get from `r` to `g`. */
  function Taken(r: Region, g: Region): nat
    requires |g.released| <= |r.released|
  {
    |r.released| - |g.released|
  }

  /** The fresh block the loop linked to get from `r` to `g`, if it needed one. */
  function Appended(r: Region, g: Region): seq<Handle>
  {
    if |g.blocks| > |r.blocks| then [|r.blocks|] else []
  }

  /**
   * The chains of `g` are those of `r` after the first `Taken(r, g)` blocks of the pool were
   * appended, in pool order, to the active chain, followed by at most one fresh block.
   */
  ghost predicate ChainsAfter(r: Region, g: Region)
    requires |g.released| <= |r.released|
  {
    && g.active == r.active + r.released[..Taken(r, g)] + Appended(r, g)
    && g.released == r.released[Taken(r, g)..]
  }

  /** A state reached from `Pop(r)` in the way `ChainsAfter` describes is reached so from `r`. */
  lemma ChainsAfterPop(r: Region, g: Region)
    requires WellFormed(r) && r.released != [] && |g.released| < |r.released|
    requires ChainsAfter(Pop(r), g)
    ensures ChainsAfter(r, g)
  {
    var p := Pop(r);
    PopShape(r);
    assert Appended(p, g) == Appended(r, g);
    assert Taken(p, g) == Taken(r, g) - 1;
    PrefixStep(r.active, r.released, Taken(r, g), Appended(r, g), g.active);
    SuffixStep(r.released, Taken(r, g));
  }

  /**
   * The loop of `allocate` only takes blocks from the front of the pool, and links them, in
   * pool order, behind the old tail, followed by at most one fresh block.
   */
  lemma {:induction false} GrowChains(r: Region, bytes: nat, grant: bool)
    requires WellFormed(r)
    ensures ChainsAfter(r, Grow(r, bytes, grant).0)
    decreases |r.released|
  {
    if !Fits(r, bytes) && r.released != [] {
      var p := Pop(r);
      GrowChains(p, bytes, grant);
      assert Grow(p, bytes, grant).0 == Grow(r, bytes, grant).0;
      ChainsAfterPop(r, Grow(r, bytes, grant).0);
    }
  }

  /** The loop body runs at most `|released| + 1` times: one step per block it appends. */
  lemma GrowSteps(r: Region, bytes: nat, grant: bool)
    requires WellFormed(r)
    ensures |Grow(r, bytes, grant).0.active| <= |r.active| + |r.released| + 1
  {
    GrowChains(r, bytes, grant);
  }

  /**
   * A fresh block is acquired only once the pool is exhausted, and its payload is
   * `memblockSizeReserve + bytes`.
   */
  lemma {:induction false} GrowFreshOnlyWhenPoolEmpty(r: Region, bytes: nat, grant: bool)
    requires WellFormed(r)
    ensures var g := Grow(r, bytes, grant);
            |g.0.blocks| > |r.blocks| ==>
              && g.1 && grant && g.0.released == []
              && g.0.blocks[|r.blocks|] == NewBlock(r.reserve + bytes)
    decreases |r.released|
  {
    if !Fits(r, bytes) && r.released != [] {
      PopShape(r);
      GrowFreshOnlyWhenPoolEmpty(Pop(r), bytes, grant);
    }
  }

  /** A tail that fits already is left alone, and only then does the loop do nothing. */
  lemma GrowIdleIffFits(r: Region, bytes: nat, grant: bool)
    requires WellFormed(r)
    ensures Fits(r, bytes) <==> Grow(r, bytes, grant) == (r, true)
  {
  }

  /** Popping a released block keeps the invariant. */
  lemma PopValid(r: Region)
    requires Valid(r) && r.released != []
    ensures Valid(Pop(r))
  {
    var h := r.released[0];
    assert h == Chains(r)[|r.active|];
  }

  /** Linking a fresh block keeps the invariant: its handle is new to both chains. */
  lemma FreshValid(r: Region, bytes: nat)
    requires Valid(r) && r.released == []
    ensures Valid(Fresh(r, bytes))
  {
    var c := Chains(r);
    var f := Fresh(r, bytes);
    forall i, j | 0 <= i < j < |Chains(f)|
      ensures Chains(f)[i] != Chains(f)[j]
    {
      if j == |c| {
        assert Chains(f)[i] == c[i];
        assert c[i] == r.active[i];
      } else {
        assert Chains(f)[i] == c[i] && Chains(f)[j] == c[j];
      }
    }
  }

  /** The loop of `allocate` keeps every block valid and every block on exactly one chain. */
  lemma {:induction false} GrowValid(r: Region, bytes: nat, grant: bool)
    requires Valid(r)
    ensures Valid(Grow(r, bytes, grant).0)
    decreases |r.released|
  {
    if Fits(r, bytes) {
    } else if r.released == [] {
      if grant {
        FreshValid(r, bytes);
      }
    } else {
      PopValid(r);
      GrowValid(Pop(r), bytes, grant);
    }
  }

  /** `allocate` keeps `free <= end` for every block, and the chains disjoint and complete. */
  lemma AllocateValid(r: Region, bytes: nat, grant: bool)
    requires Valid(r)
    ensures Valid(Allocate(r, bytes, grant).0)
  {
    GrowValid(r, bytes, grant);
  }

  /** `release` keeps the invariant, and the number of blocks is unchanged. */
  lemma ReleaseValid(r: Region)
    requires Valid(r)
    ensures Valid(Release(r)) && |Chains(Release(r))| == |Chains(r)| == |r.blocks|
  {
  }

  /** The arena after the cursors of the blocks `hs` have been reset one after the other. */
  function ResetCursors(blocks: seq<MemoryBlock>, hs: seq<Handle>): (b: seq<MemoryBlock>)
    requires forall i :: 0 <= i < |hs| ==> hs[i] < |blocks|
    ensures |b| == |blocks|
    decreases |hs|
  {
    if hs == [] then blocks
    else ResetCursors(blocks[hs[0] := blocks[hs[0]].(free := HEADER_SIZE)], hs[1..])
  }

  /** A block named in `hs` ends up with its cursor reset; the others are untouched. */
  lemma {:induction false} ResetCursorsAt(blocks: seq<MemoryBlock>, hs: seq<Handle>, h: Handle)
    requires forall i :: 0 <= i < |hs| ==> hs[i] < |blocks|
    requires h < |blocks|
    ensures ResetCursors(blocks, hs)[h] == if h in hs then blocks[h].(free := HEADER_SIZE) else blocks[h]
    decreases |hs|
  {
    if hs != [] {
      var b1 := blocks[hs[0] := blocks[hs[0]].(free := HEADER_SIZE)];
      ResetCursorsAt(b1, hs[1..], h);
      assert h in hs <==> h == hs[0] || h in hs[1..];
    }
  }

  /** Resetting the first `k` handles of `s` is resetting `s[0]`, then the next `k - 1`. */
  lemma ResetCursorsStep(blocks: seq<MemoryBlock>, s: seq<Handle>, k: nat)
    requires 1 <= k <= |s|
    requires forall i :: 0 <= i < |s| ==> s[i] < |blocks|
    ensures ResetCursors(blocks, s[..k])
            == ResetCursors(blocks[s[0] := blocks[s[0]].(free := HEADER_SIZE)], s[1..][..k - 1])
  {
    assert s[..k][0] == s[0] && s[..k][1..] == s[1..][..k - 1];
  }

  /**
   * The arena `g` is `r`'s after the pool's first `Taken(r, g)` blocks got their cursors reset
   * and at most one fresh block of payload `memblockSizeReserve + bytes` was added.
   */
  ghost predicate ArenaAfter(r: Region, g: Region, bytes: nat)
    requires WellFormed(r) && |g.released| <= |r.released|
  {
    g.blocks == ResetCursors(r.blocks, r.released[..Taken(r, g)])
                + (if |g.blocks| > |r.blocks| then [NewBlock(r.reserve + bytes)] else [])
  }

  /** A state reached from `Pop(r)` in the way `ArenaAfter` describes is reached so from `r`. */
  lemma ArenaAfterPop(r: Region, g: Region, bytes: nat)
    requires WellFormed(r) && r.released != [] && |g.released| < |r.released|
    requires ArenaAfter(Pop(r), g, bytes)
    ensures ArenaAfter(r, g, bytes)
  {
    var p := Pop(r);
    PopShape(r);
    var k := Taken(r, g);
    assert Taken(p, g) == k - 1;
    var h := r.released[0];
    assert p.blocks == r.blocks[h := r.blocks[h].(free := HEADER_SIZE)];
    ResetCursorsStep(r.blocks, r.released, k);
  }

  /**
   * What the loop does to the arena: the blocks taken from the pool get their cursors reset,
   * at most one fresh block is added, and nothing else changes.
   */
  lemma {:induction false} GrowBlocks(r: Region, bytes: nat, grant: bool)
    requires WellFormed(r)
    ensures ArenaAfter(r, Grow(r, bytes, grant).0, bytes)
    decreases |r.released|
  {
    if !Fits(r, bytes) && r.released != [] {
      var p := Pop(r);
      GrowBlocks(p, bytes, grant);
      assert Grow(p, bytes, grant).0 == Grow(r, bytes, grant).0;
      ArenaAfterPop(r, Grow(r, bytes, grant).0, bytes);
    }
  }

  /** Each block taken from the pool has its cursor reset to just past its header, nothing else. */
  lemma GrowResetsReusedBlocks(r: Region, bytes: nat, grant: bool)
    requires WellFormed(r)
    ensures var g := Grow(r, bytes, grant).0;
            forall i :: 0 <= i < Taken(r, g) ==>
              g.blocks[r.released[i]] == r.blocks[r.released[i]].(free := HEADER_SIZE)
  {
    GrowBlocks(r, bytes, grant);
    var g := Grow(r, bytes, grant).0;
    var taken := r.released[..Taken(r, g)];
    forall i | 0 <= i < Taken(r, g)
      ensures g.blocks[r.released[i]] == r.blocks[r.released[i]].(free := HEADER_SIZE)
    {
      assert taken[i] == r.released[i];
      ResetCursorsAt(r.blocks, taken, r.released[i]);
    }
  }

  /** Blocks the loop does not take from the pool are left exactly as they were. */
  lemma GrowKeepsOtherBlocks(r: Region, bytes: nat, grant: bool)
    requires WellFormed(r)
    ensures var g := Grow(r, bytes, grant).0;
            forall h :: 0 <= h < |r.blocks| && h !in r.released[..Taken(r, g)] ==> g.blocks[h] == r.blocks[h]
  {
    GrowBlocks(r, bytes, grant);
    var g := Grow(r, bytes, grant).0;
    var taken := r.released[..Taken(r, g)];
    forall h | 0 <= h < |r.blocks| && h !in taken
      ensures g.blocks[h] == r.blocks[h]
    {
      ResetCursorsAt(r.blocks, taken, h);
    }
  }

  /** The first `n` blocks of the pool each have a payload smaller than `bytes`. */
  ghost predicate PoolFrontTooSmall(r: Region, n: nat, bytes: nat)
    requires WellFormed(r) && n <= |r.released|
  {
    forall i :: 0 <= i < n ==> r.blocks[r.released[i]].end < HEADER_SIZE + bytes
  }

  /**
   * How many of the blocks the loop took were passed over as too small: all of them, except
   * the last one when the loop stopped on a reused block that fits.
   */
  function Skipped(r: Region, g: (Region, bool)): nat
    requires |g.0.released| <= |r.released|
  {
    var k := Taken(r, g.0);
    if k > 0 && g.1 && |g.0.blocks| == |r.blocks| then k - 1 else k
  }

  /** A block popped and found too small extends the too-small front of the pool by one. */
  lemma PoolFrontTooSmallPop(r: Region, n: nat, bytes: nat)
    requires WellFormed(r) && r.released != [] && 1 <= n <= |r.released|
    requires PoolFrontTooSmall(Pop(r), n - 1, bytes) && !Fits(Pop(r), bytes)
    ensures PoolFrontTooSmall(r, n, bytes)
  {
    var p := Pop(r);
    PopShape(r);
    forall i | 0 <= i < n
      ensures r.blocks[r.released[i]].end < HEADER_SIZE + bytes
    {
      if i > 0 {
        assert r.released[i] == p.released[i - 1];
      }
    }
  }

  /**
   * Every block the loop takes from the pool is too small for the request (its payload is
   * less than `bytes`), except the last one when the loop stopped because that block fits.
   */
  lemma {:induction false} GrowPassesSmallBlocks(r: Region, bytes: nat, grant: bool)
    requires WellFormed(r)
    ensures var g := Grow(r, bytes, grant);
            PoolFrontTooSmall(r, Skipped(r, g), bytes)
    decreases |r.released|
  {
    if !Fits(r, bytes) && r.released != [] {
      var p := Pop(r);
      GrowPassesSmallBlocks(p, bytes, grant);
      var g := Grow(p, bytes, grant);
      assert Grow(r, bytes, grant) == g;
      PopShape(r);
      assert Taken(p, g.0) == Taken(r, g.0) - 1;
      if Skipped(r, g) > 0 {
        GrowIdleIffFits(p, bytes, grant);
        PoolFrontTooSmallPop(r, Skipped(r, g), bytes);
      }
    }
  }
}
