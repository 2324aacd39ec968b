/** The slab: an arena carved into equal slots, with a ring as the list of free ones.  Here its
    operations run one after the other; SlabRing follows them step by step. */
module Slab {
  import opened Bits
  import opened Arena
  import opened RingBuffer

  const SLAB_STRUCT := 40                   // sizeof(struct nkit_slab_s): five words
  const RING_STRUCT := 384                  // sizeof(nkit_ring_t): three lines of 128 bytes
  const CELL_STRUCT := 16
  const RING_LIMIT := 0x1000_0000_0000_0000 // 2^60 cells take 2^64 bytes

  // ---------------------------------------------------------------------------
  // Slots
  // ---------------------------------------------------------------------------

  /** The addresses of the first `n` slots. */
  ghost function Slots(base: nat, size: nat, n: nat): (s: set<Pointer>)
    ensures |s| <= n
  {
    if n == 0 then {} else Slots(base, size, n - 1) + {base + (n - 1) * size}
  }

  lemma {:induction false} SlotIndex(base: nat, size: nat, n: nat, p: Pointer) returns (i: nat)
    requires p in Slots(base, size, n)
    ensures i < n && p == base + i * size
  {
    if p == base + (n - 1) * size { i := n - 1; } else { i := SlotIndex(base, size, n - 1, p); }
  }

  lemma {:induction false} SlotsCount(base: nat, size: nat, n: nat)
    requires size > 0
    ensures |Slots(base, size, n)| == n
  {
    if n > 0 {
      SlotsCount(base, size, n - 1);
      var last := base + (n - 1) * size;
      if last in Slots(base, size, n - 1) {
        var i := SlotIndex(base, size, n - 1, last);
        Stride(i, n - 1, size);
        assert false;
      }
    }
  }

  lemma Stride(i: nat, j: nat, size: nat)
    requires i < j
    ensures i * size + size <= j * size
  {
    assert j * size == (j - i - 1) * size + i * size + size;
  }

  /** Slots lie on cache lines inside the region, and no two overlap. */
  lemma SlotsApart(base: nat, size: nat, n: nat, p: Pointer, q: Pointer)
    requires p in Slots(base, size, n) && q in Slots(base, size, n)
    requires size % LINE == 0 && base % LINE == 0
    ensures p % LINE == 0 && base <= p && p + size <= base + n * size
    ensures p != q ==> p + size <= q || q + size <= p
  {
    var i := SlotIndex(base, size, n, p);
    var j := SlotIndex(base, size, n, q);
    Stride(i, n, size);
    if i < j { Stride(i, j, size); }
    if j < i { Stride(j, i, size); }
    LinesTimes(size, i);
    MultipleSum(base, i * size, LINE);
  }

  lemma LinesTimes(size: nat, k: nat)
    requires size % LINE == 0
    ensures (size * k) % LINE == 0 && (k * size) % LINE == 0
    ensures size > 0 && k > 0 ==> size * k > 0
  {
    var q := size / LINE;
    assert size * k == LINE * (q * k) && k * size == size * k;
    ModuloUnique(size * k, LINE, q * k, 0);
  }

  /** The free list and the held slots: every slot in exactly one of them, once. */
  ghost predicate Partition(free: seq<Pointer>, held: set<Pointer>, slots: set<Pointer>) {
    && (forall i, j :: 0 <= i < j < |free| ==> free[i] != free[j])
    && (forall i :: 0 <= i < |free| ==> free[i] in slots && free[i] !in held)
    && held <= slots && (forall p :: p in slots ==> p in free || p in held)
    && |free| + |held| == |slots|
  }

  lemma Taken(free: seq<Pointer>, held: set<Pointer>, slots: set<Pointer>)
    requires Partition(free, held, slots) && free != []
    ensures free[0] in slots && free[0] !in held
    ensures Partition(free[1..], held + {free[0]}, slots)
  {
    assert free == [free[0]] + free[1..];
  }

  lemma PutBack(free: seq<Pointer>, held: set<Pointer>, slots: set<Pointer>, p: Pointer)
    requires Partition(free, held, slots) && p in held
    ensures Partition(free + [p], held - {p}, slots)
  {}

  ghost function SlotSeq(base: nat, size: nat, n: nat): seq<Pointer> {
    seq(n, i requires 0 <= i => base + i * size)
  }

  lemma {:induction false} AllFree(base: nat, size: nat, n: nat)
    requires size > 0
    ensures Partition(SlotSeq(base, size, n), {}, Slots(base, size, n))
  {
    SlotsCount(base, size, n);
    var free, slots := SlotSeq(base, size, n), Slots(base, size, n);
    forall i, j | 0 <= i < j < n ensures free[i] != free[j] { Stride(i, j, size); }
    forall i | 0 <= i < n ensures free[i] in slots { SlotIn(base, size, n, i); }
    forall p | p in slots ensures p in free {
      var i := SlotIndex(base, size, n, p);
      assert free[i] == p;
    }
  }

  lemma {:induction false} SlotIn(base: nat, size: nat, n: nat, i: nat)
    requires i < n
    ensures base + i * size in Slots(base, size, n)
  {
    if i < n - 1 { SlotIn(base, size, n - 1, i); }
  }

  // ---------------------------------------------------------------------------
  // Byte counts in 64 bits
  // ---------------------------------------------------------------------------

  /** The bytes of all slots, as creation computes them. */
  function DataBytes(objSize: nat, capacity: nat): nat {
    (AlignUp(objSize, LINE) * capacity) % WORD
  }

  /** The bytes mapped for a slab. */
  function Extent(objSize: nat, capacity: nat): nat {
    AlignUp(SLAB_STRUCT + DataBytes(objSize, capacity), HUGE)
  }

  /** The bytes of a ring, as its creation computes them. */
  function RingBytes(capacity: nat): nat {
    (RING_STRUCT + CELL_STRUCT * capacity) % WORD
  }

  /** Neither the rounding of the object size nor the product with the capacity leaves 64 bits. */
  predicate Fits(objSize: nat, capacity: nat) {
    objSize <= WORD - LINE && AlignUp(objSize, LINE) * capacity < WORD
  }

  lemma RingLimitIsPower()
    ensures PowerOfTwo(RING_LIMIT) && CELL_STRUCT * RING_LIMIT == WORD
  {
    PowerThirty();
    PowerFiveMore(30); PowerFiveMore(35); PowerFiveMore(40);
    PowerFiveMore(45); PowerFiveMore(50); PowerFiveMore(55);
    PowerIsPowerOfTwo(60);
  }

  /** The byte count of a ring covers its cells exactly below 2^60 of them. */
  lemma RingBytesExactlyWhen(capacity: nat)
    requires PowerOfTwo(capacity) && capacity < WORD
    ensures RING_STRUCT <= RingBytes(capacity) <= WORD - HUGE
    ensures RING_STRUCT + CELL_STRUCT * capacity <= RingBytes(capacity) <==> capacity < RING_LIMIT
  {
    RingLimitIsPower();
    var bytes := RING_STRUCT + CELL_STRUCT * capacity;
    if capacity < RING_LIMIT {
      PowersDivide(capacity, RING_LIMIT);
      ModuloUnique(capacity, capacity, 1, 0);
      MultipleDifference(RING_LIMIT, capacity, capacity);
      ModuloUnique(bytes, WORD, 0, bytes);
    } else {
      PowersDivide(RING_LIMIT, capacity);
      var q := capacity / RING_LIMIT;
      assert CELL_STRUCT * capacity == WORD * q;
      ModuloUnique(bytes, WORD, q, RING_STRUCT);
    }
  }

  class Slab {
    const ring: RingBuffer
    const base: nat
    const objSize: nat
    const capacity: nat
    ghost var held: set<Pointer>

    ghost function AllSlots(): set<Pointer> {
      Slots(base, objSize, capacity)
    }

    ghost predicate Valid()
      reads this, ring, ring.cells
    {
      && ring.Valid() && ring.capacity == capacity && |AllSlots()| == capacity
      && 0 < base && base % LINE == 0 && 0 < objSize && objSize % LINE == 0
      && Partition(ring.queue, held, AllSlots())
    }

    constructor (ring: RingBuffer, base: nat, objSize: nat, capacity: nat)
      requires ring.Valid() && ring.capacity == capacity && ring.queue == SlotSeq(base, objSize, capacity)
      requires 0 < base && base % LINE == 0 && objSize % LINE == 0
      ensures (0 < objSize ==> Valid()) && held == {} && this.ring == ring
      ensures this.base == base && this.objSize == objSize && this.capacity == capacity
    {
      if objSize > 0 { AllFree(base, objSize, capacity); }
      this.ring, this.base, this.objSize, this.capacity := ring, base, objSize, capacity;
      held := {};
    }

    /** The loop that fills the free list. */
    static method Populate(ring: RingBuffer, base: nat, aligned: nat, capacity: nat)
      requires ring.Valid() && ring.capacity == capacity && ring.queue == []
      modifies ring, ring.cells
      ensures ring.Valid() && ring.queue == SlotSeq(base, aligned, capacity)
    {
      for i := 0 to capacity
        invariant ring.Valid() && ring.queue == SlotSeq(base, aligned, i)
      {
        var pushed := ring.Push(base + i * aligned, 0);
        assert SlotSeq(base, aligned, i + 1) == SlotSeq(base, aligned, i) + [base + i * aligned];
      }
    }

    static lemma RoomForBoth(size: nat, dataBytes: nat)
      requires size % LINE == 0 && dataBytes % LINE == 0 && SLAB_STRUCT + dataBytes <= size
      ensures LINE + dataBytes <= size
    {}

    /** The two blocks of a slab, in an arena sized for their plain sum: they always fit, although
        the first is rounded up. */
    static method Carve(arena: Arena, dataBytes: nat) returns (base: nat)
      requires arena.Valid() && arena.used == 0 && arena.live == []
      requires dataBytes % LINE == 0 && SLAB_STRUCT + dataBytes <= arena.size
      modifies arena
      ensures arena.Valid() && base == arena.base + LINE
      ensures arena.live == [Block(arena.base, SLAB_STRUCT), Block(base, dataBytes)]
    {
      RoomForBoth(arena.size, dataBytes);
      var slab := arena.Alloc(SLAB_STRUCT);
      assert arena.used == LINE;
      base := arena.Alloc(dataBytes);
    }

    /** The arena of a slab and, in it, the block for its slots. */
    static method CarveNew(dataBytes: nat, mapping: Mapping, sysPage: nat) returns (arena: Arena?, base: nat)
      requires dataBytes % LINE == 0 && SLAB_STRUCT + dataBytes < WORD
      requires MappingOk(mapping, SLAB_STRUCT + dataBytes, sysPage)
      ensures arena == null <==> mapping.Failed?
      ensures arena != null ==>
                && fresh(arena) && arena.Valid() && 0 < base && base % LINE == 0
                && arena.base == mapping.base && arena.size == AlignUp(SLAB_STRUCT + dataBytes, HUGE)
                && base == arena.base + LINE && LINE + dataBytes <= arena.size
                && Block(base, dataBytes) in arena.live
    {
      arena := Arena.Create(SLAB_STRUCT + dataBytes, mapping, sysPage);
      base := 0;
      if arena != null {
        RoomForBoth(arena.size, dataBytes);
        base := Carve(arena, dataBytes);
        assert arena.live[1] == Block(base, dataBytes);
      }
    }

    static lemma DataInLines(objSize: nat, capacity: nat, aligned: nat)
      requires aligned % LINE == 0 && aligned == AlignUp(objSize, LINE)
      ensures DataBytes(objSize, capacity) % LINE == 0 && DataBytes(objSize, capacity) <= WORD - LINE
    {
      LinesTimes(aligned, capacity);
      WrappedLines(aligned * capacity);
    }

    static lemma WrappedLines(x: nat)
      requires x % LINE == 0
      ensures (x % WORD) % LINE == 0 && x % WORD <= WORD - LINE
    {
      WrapThenReduce(x, LINE, WORD);
      MultipleDifference(WORD, x % WORD, LINE);
    }

    /** The slots lie in the arena exactly when no product or rounding has left 64 bits. */
    static lemma InsideExactlyWhen(objSize: nat, capacity: nat, aligned: nat, size: nat)
      requires 0 < objSize < WORD && 0 < capacity && size < WORD - HUGE
      requires aligned == AlignUp(objSize, LINE) && LINE + DataBytes(objSize, capacity) <= size
      requires if objSize <= WORD - LINE then objSize <= aligned else aligned == 0
      ensures LINE + aligned * capacity <= size && objSize <= aligned <==> Fits(objSize, capacity)
      ensures Fits(objSize, capacity) ==> DataBytes(objSize, capacity) == aligned * capacity
    {
      if aligned * capacity < WORD { ModuloUnique(aligned * capacity, WORD, 0, aligned * capacity); }
    }

    /** `nkit_slab_create`, on any 64-bit sizes: given memory, it refuses exactly a capacity that is not a
        power of two above 1 and an object size of 0.  What it returns is a slab of free slots of the
        size asked for, inside its arena, exactly when the byte count fits 64 bits. */
    static method Create(objSize: nat, capacity: nat, mapping: Mapping, ringMapping: Mapping, sysPage: nat)
      returns (slab: Slab?, ghost arena: Arena?)
      requires objSize < WORD && capacity < WORD
      requires MappingOk(mapping, SLAB_STRUCT + DataBytes(objSize, capacity), sysPage)
      requires MappingOk(ringMapping, RingBytes(capacity), sysPage)
      ensures slab == null <==>
                !PowerOfTwo(capacity) || capacity < 2 || objSize == 0 || mapping.Failed? || ringMapping.Failed?
      ensures slab != null ==>
                && fresh(slab) && fresh(slab.ring) && fresh(slab.ring.cells) && slab.capacity == capacity
                && arena != null && arena.Valid() && slab.base == arena.base + LINE && mapping.base == arena.base
                && (LINE + slab.objSize * capacity <= arena.size && objSize <= slab.objSize <==> Fits(objSize, capacity))
      ensures slab != null && Fits(objSize, capacity) ==>
                && slab.Valid() && slab.held == {} && objSize <= slab.objSize < objSize + LINE
                && slab.ring.queue == SlotSeq(slab.base, slab.objSize, capacity)
                && arena.size == Extent(objSize, capacity) && Block(slab.base, slab.objSize * capacity) in arena.live
    {
      arena := null;
      if capacity < 2 { return null, null; }
      SingleBit(capacity);
      if BitAnd(capacity, capacity - 1) != 0 { return null, null; }
      if objSize == 0 { return null, null; }
      var aligned := LineUp(objSize);
      DataInLines(objSize, capacity, aligned);
      var dataBytes := (aligned * capacity) % WORD;
      var a, base := CarveNew(dataBytes, mapping, sysPage);
      if a == null { return null, null; }
      var ring, ringArena := NewRing(capacity, ringMapping, sysPage);
      if ring == null { return null, null; }
      Populate(ring, base, aligned, capacity);
      InsideExactlyWhen(objSize, capacity, aligned, a.size);
      slab := new Slab(ring, base, aligned, capacity);
      arena := a;
    }

    /** `nkit_ring_create`: its one block is always had, and holds the cells exactly below 2^60 of them. */
    static method NewRing(capacity: nat, mapping: Mapping, sysPage: nat)
      returns (ring: RingBuffer?, ghost arena: Arena?)
      requires capacity < WORD && MappingOk(mapping, RingBytes(capacity), sysPage)
      ensures ring == null <==> !PowerOfTwo(capacity) || capacity < 2 || mapping.Failed?
      ensures ring != null ==>
                && fresh(ring) && fresh(ring.cells) && ring.Valid() && ring.queue == [] && ring.capacity == capacity
                && arena != null && arena.Valid() && arena.live == [Block(arena.base, RingBytes(capacity))]
                && (RING_STRUCT + CELL_STRUCT * capacity <= RingBytes(capacity) <==> capacity < RING_LIMIT)
    {
      arena := null;
      if capacity < 2 { return null, null; }
      SingleBit(capacity);
      if BitAnd(capacity, capacity - 1) != 0 { return null, null; }
      RingBytesExactlyWhen(capacity);
      var total := (RING_STRUCT + CELL_STRUCT * capacity) % WORD;
      var a := Arena.Create(total, mapping, sysPage);
      if a == null { return null, null; }
      var block := a.Alloc(total);
      if block == NULL { return null, null; }
      ring := new RingBuffer(capacity);
      arena := a;
    }

    /** `nkit_slab_alloc`: null exactly when every slot is held. */
    method Alloc(spurious: nat) returns (p: Pointer)
      requires Valid()
      modifies this`held, ring`tail, ring`queue, ring.cells
      ensures Valid() && (p == NULL <==> |old(held)| == capacity)
      ensures p == NULL ==> held == old(held)
      ensures p != NULL ==> p in AllSlots() && p !in old(held) && held == old(held) + {p}
      ensures p != NULL ==> old(ring.queue) != [] && p == old(ring.queue)[0] && ring.queue == old(ring.queue)[1..]
    {
      ghost var free := ring.queue;
      var ok;
      ok, p := ring.Pop(spurious);
      if !ok { return NULL; }
      Taken(free, held, AllSlots());
      held := held + {p};
      ghost var i := SlotIndex(base, objSize, capacity, p);
    }

    /** `nkit_slab_free` of a slot the caller holds; the push it does not check always works. */
    method Free(p: Pointer, spurious: nat)
      requires Valid() && (p == NULL || p in held)
      modifies this`held, ring`head, ring`queue, ring.cells
      ensures Valid() && held == old(held) - {p}
      ensures ring.queue == if p == NULL then old(ring.queue) else old(ring.queue) + [p]
    {
      if p == NULL {
        NullIsNoSlot();
        return;
      }
      PutBack(ring.queue, held, AllSlots(), p);
      var ok := ring.Push(p, spurious);
      assert ok;
      held := held - {p};
    }

    lemma NullIsNoSlot()
      requires Valid()
      ensures NULL !in held
    {
      if NULL in held { var i := SlotIndex(base, objSize, capacity, NULL); }
    }

    /** `nkit_slab_available`. */
    method Available() returns (n: nat)
      requires Valid()
      ensures n == capacity - |held|
    {
      var head, tail := ring.head, ring.tail;
      n := 0;
      if head >= tail { n := head - tail; }
    }
  }
}
