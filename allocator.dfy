/**
 * `mreg::RegionAllocator<T>` (MemoryRegion.hpp): an allocator object that forwards to a
 * `MemoryRegionManager` it does not own. `elemSize` stands for `sizeof(T)`.
 */
module Adapter {
  import opened Units
  import opened R = Region
  import opened Manager
  import opened AllocateProperties

  /**
   * `sizeof(T) * n` computed in `size_t`: the product wraps around modulo 2^64, so a large
   * `n` can ask the manager for far fewer bytes than `n` objects occupy.
   */
  function RequestSize(elemSize: nat, n: U64): (bytes: U64)
    ensures (elemSize * n - bytes) % U64_LIMIT == 0
    ensures elemSize * n < U64_LIMIT ==> bytes == elemSize * n
    ensures bytes < elemSize * n ==> U64_LIMIT <= elemSize * n
  {
    (elemSize * n) % U64_LIMIT
  }

  /**
   * `allocate(n)` for 16-byte objects and `n = 2^60` asks the manager for zero bytes: the
   * manager changes nothing and returns its tail's cursor, as if room for all of them had
   * been reserved there.
   */
  lemma WrappedRequestReservesNothing(r: R.Region, grant: bool)
    requires R.Valid(r)
    ensures RequestSize(16, 0x1000_0000_0000_0000) == 0
    ensures R.Allocate(r, RequestSize(16, 0x1000_0000_0000_0000), grant) == (r, Ok(Cursor(r)))
  {
    AllocateZeroBytes(r, grant);
  }

  /**
   * The request size with the overflow checked: none when `n` objects of `elemSize` bytes do
   * not fit `size_t` (where `std::allocator` would throw `std::bad_array_new_length`).
   */
  function CheckedRequestSize(elemSize: nat, n: U64): (bytes: Result<U64>)
    ensures bytes.Ok? <==> elemSize * n < U64_LIMIT
    ensures bytes.Ok? ==> bytes.value == elemSize * n
  {
    if elemSize * n < U64_LIMIT then Ok(elemSize * n) else BadAlloc
  }

  class RegionAllocator {
    var mreg: MemoryRegionManager?
    /** `sizeof(T)`. */
    const elemSize: nat

    /** `RegionAllocator(mregAllocator)`: share the given manager. */
    constructor (mreg: MemoryRegionManager?, elemSize: nat)
      ensures this.mreg == mreg && this.elemSize == elemSize
    {
      this.mreg := mreg;
      this.elemSize := elemSize;
    }

    /** The defaulted copy constructor: the copy forwards to the same manager. */
    constructor Copy(cref: RegionAllocator)
      ensures mreg == cref.mreg && elemSize == cref.elemSize
    {
      mreg := cref.mreg;
      elemSize := cref.elemSize;
    }

    /** The move constructor: take over `rval`'s manager and leave `rval` with none. */
    constructor Move(rval: RegionAllocator)
      modifies rval
      ensures mreg == old(rval.mreg) && elemSize == rval.elemSize && rval.mreg == null
    {
      mreg := rval.mreg;
      elemSize := rval.elemSize;
      new;
      rval.mreg := null;
    }

    /**
     * `allocate(n)`: ask the manager for `sizeof(T) * n` bytes, the product wrapped to
     * `size_t`. Only the manager changes.
     */
    method Allocate(n: U64, grant: bool) returns (res: Result<Addr>)
      requires mreg != null && mreg.Valid()
      requires mreg.memblockSizeReserve + RequestSize(elemSize, n) + HEADER_SIZE < U64_LIMIT
      modifies mreg
      ensures (mreg.State(), res) == R.Allocate(old(mreg.State()), RequestSize(elemSize, n), grant)
      ensures mreg.Valid()
    {
      res := mreg.Allocate(RequestSize(elemSize, n), grant);
    }

    /**
     * `allocate(n)` with the size checked: a product that does not fit `size_t` fails
     * without touching the manager, any other request is served for all `n` objects.
     */
    method AllocateChecked(n: U64, grant: bool) returns (res: Result<Addr>)
      requires mreg != null && mreg.Valid()
      requires elemSize * n < U64_LIMIT ==> mreg.memblockSizeReserve + elemSize * n + HEADER_SIZE < U64_LIMIT
      modifies mreg
      ensures elemSize * n >= U64_LIMIT ==> res == BadAlloc && mreg.State() == old(mreg.State())
      ensures elemSize * n < U64_LIMIT ==>
                (mreg.State(), res) == R.Allocate(old(mreg.State()), elemSize * n, grant)
      ensures mreg.Valid()
    {
      var bytes := CheckedRequestSize(elemSize, n);
      if bytes.BadAlloc? {
        return BadAlloc;
      }
      res := mreg.Allocate(bytes.value, grant);
    }

    /** `deallocate(data, size)`: does nothing; memory goes back only through `release()`. */
    method Deallocate(data: Addr, size: U64)
      ensures mreg != null ==> mreg.State() == old(mreg.State())
    {
    }
  }
}
