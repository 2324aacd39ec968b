/** The memory pool: per memory node one slab for each of ten size classes.  A block carries, in the
    word before the caller's bytes, the slab it came from. */
module Mempool {
  import opened Bits
  import opened Arena
  import opened RingBuffer
  import opened Slab

  const NUM_SIZE_CLASSES := 10
  const SIZE_CLASSES: seq<nat> := [32, 64, 128, 256, 512, 1024, 2048, 4096, 8192, 16384]
  const INITIAL_CAPACITY := 1024
  const MAX_NODES := 64
  const HEADER := 8                         // sizeof(nkit_mempool_header_t)

  /** A block with a caller: the slab it is from and the bytes asked for. */
  datatype Loan = Loan(slab: nat, bytes: nat)

  /** The bytes of an object of slab `i`, header included. */
  function ObjectBytes(i: nat): nat {
    HEADER + SIZE_CLASSES[i % NUM_SIZE_CLASSES]
  }

  /** The sizes the pool serves. */
  predicate Served(size: nat) {
    0 < size <= SIZE_CLASSES[NUM_SIZE_CLASSES - 1]
  }

  /** The smallest class large enough. */
  predicate FirstClass(size: nat, sc: nat) {
    sc < NUM_SIZE_CLASSES && size <= SIZE_CLASSES[sc] && forall c :: 0 <= c < sc ==> SIZE_CLASSES[c] < size
  }

  lemma ClassIsPower(c: nat)
    requires c < NUM_SIZE_CLASSES
    ensures SIZE_CLASSES[c] == 32 * Power(c)
  {
    if c > 0 { ClassIsPower(c - 1); }
  }

  /** The pool serves 1 to 16384 bytes, each from a class of 32 bytes doubled: above 32 bytes less than
      half of the block is unused. */
  lemma ClassesServe(size: nat, sc: nat)
    ensures Served(size) <==> 0 < size <= 16384
    ensures FirstClass(size, sc) ==>
      && sc < 10 && size <= SIZE_CLASSES[sc] == 32 * Power(sc) <= 16384
      && (size > 32 ==> SIZE_CLASSES[sc] < 2 * size)
  {
    if FirstClass(size, sc) {
      ClassIsPower(sc);
      if sc > 0 { ClassIsPower(sc - 1); }
    }
  }

  /** Where slab `i` may lie: its mapping. */
  ghost predicate Within(slab: Slab, i: nat, mapping: Mapping) {
    && mapping.Mapped? && ObjectBytes(i) <= slab.objSize && mapping.base <= slab.base
    && slab.base + slab.capacity * slab.objSize <= mapping.base + Extent(ObjectBytes(i), INITIAL_CAPACITY)
  }

  /** What the operating system may answer for slab `i` and its ring, and that regions mapped at the
      same time do not overlap. */
  ghost predicate MappingsOk(maps: nat -> Mapping, rings: nat -> Mapping, sysPage: nat, n: nat) {
    && (forall i :: 0 <= i < n ==>
          && MappingOk(maps(i), SLAB_STRUCT + DataBytes(ObjectBytes(i), INITIAL_CAPACITY), sysPage)
          && MappingOk(rings(i), RingBytes(INITIAL_CAPACITY), sysPage))
    && (forall i, j :: 0 <= i < n && 0 <= j < n && i != j && maps(i).Mapped? && maps(j).Mapped? ==>
          || maps(i).base + Extent(ObjectBytes(i), INITIAL_CAPACITY) <= maps(j).base
          || maps(j).base + Extent(ObjectBytes(j), INITIAL_CAPACITY) <= maps(i).base)
  }

  /** The held slots are the blocks with callers, and their headers name their slabs. */
  ghost predicate Booked(slabs: seq<Slab>, owner: map<Pointer, Slab>, loans: map<Pointer, Loan>,
                         helds: seq<set<Pointer>>) {
    && |helds| == |slabs|
    && (forall q :: q in loans ==> loans[q].slab < |slabs| && q in helds[loans[q].slab])
    && (forall q :: q in loans ==>
          && q in owner && owner[q] == slabs[loans[q].slab]
          && 0 < loans[q].bytes && HEADER + loans[q].bytes <= slabs[loans[q].slab].objSize)
    && (forall i, q :: 0 <= i < |slabs| && q in helds[i] ==> q in loans && loans[q].slab == i)
  }

  lemma BookedLent(slabs: seq<Slab>, owner: map<Pointer, Slab>, loans: map<Pointer, Loan>, helds: seq<set<Pointer>>,
                   q: Pointer, i: nat, bytes: nat)
    requires Booked(slabs, owner, loans, helds) && q !in loans && i < |slabs|
    requires 0 < bytes && HEADER + bytes <= slabs[i].objSize
    ensures Booked(slabs, owner[q := slabs[i]], loans[q := Loan(i, bytes)], helds[i := helds[i] + {q}])
  {}

  lemma BookedReturned(slabs: seq<Slab>, owner: map<Pointer, Slab>, loans: map<Pointer, Loan>, helds: seq<set<Pointer>>,
                       q: Pointer)
    requires Booked(slabs, owner, loans, helds) && q in loans
    ensures var i := loans[q].slab; Booked(slabs, owner, loans - {q}, helds[i := helds[i] - {q}])
  {}

  class Mempool {
    const numNodes: nat
    const slabs: seq<Slab>                   // node by node, class by class
    ghost const repr: set<object>
    var owner: map<Pointer, Slab>            // the header words
    ghost var helds: seq<set<Pointer>>       // the slots held from each slab
    ghost var loans: map<Pointer, Loan>      // the blocks with callers, by header address

    /** Each slab has 1024 slots with room for its class. */
    ghost predicate Sized() {
      forall i :: 0 <= i < |slabs| ==> ObjectBytes(i) <= slabs[i].objSize && slabs[i].capacity == 1024
    }

    /** What creation fixes: the slabs and their regions. */
    ghost predicate Fixed() {
      && this !in repr && |slabs| == numNodes * NUM_SIZE_CLASSES
      && (forall i :: 0 <= i < |slabs| ==>
            slabs[i] in repr && slabs[i].ring in repr && slabs[i].ring.cells in repr)
      && (forall i, j :: 0 <= i < |slabs| && 0 <= j < |slabs| && i != j ==> Apart(slabs[i], slabs[j]))
    }

    static ghost predicate Apart(a: Slab, b: Slab) {
      && a != b && a.ring != b.ring && a.ring.cells != b.ring.cells
      && (a.base + a.capacity * a.objSize <= b.base || b.base + b.capacity * b.objSize <= a.base)
    }

    ghost predicate SlabsOk()
      requires Fixed()
      reads this, repr
    {
      |helds| == |slabs| && forall i :: 0 <= i < |slabs| ==> slabs[i].Valid() && slabs[i].held == helds[i]
    }

    ghost predicate Valid()
      requires Fixed()
      reads this, repr
    {
      SlabsOk() && Booked(slabs, owner, loans, helds)
    }

    constructor (numNodes: nat, slabs: seq<Slab>, ghost repr: set<object>)
      requires |slabs| == numNodes * NUM_SIZE_CLASSES
      requires forall i :: 0 <= i < |slabs| ==>
                 && slabs[i] in repr && slabs[i].ring in repr && slabs[i].ring.cells in repr
                 && ObjectBytes(i) <= slabs[i].objSize && slabs[i].capacity == 1024
                 && slabs[i].Valid() && slabs[i].held == {}
      requires forall i, j :: 0 <= i < |slabs| && 0 <= j < |slabs| && i != j ==> Apart(slabs[i], slabs[j])
      ensures Fixed() && Sized() && Valid() && loans == map[]
      ensures this.numNodes == numNodes && this.slabs == slabs && this.repr == repr
    {
      this.numNodes, this.slabs, this.repr := numNodes, slabs, repr;
      owner, loans := map[], map[];
      helds := seq(|slabs|, _ => {});
    }

    /** The slab of one node and class. */
    static method NewSlab(i: nat, mapping: Mapping, ringMapping: Mapping, sysPage: nat) returns (slab: Slab?)
      requires MappingOk(mapping, SLAB_STRUCT + DataBytes(ObjectBytes(i), INITIAL_CAPACITY), sysPage)
      requires MappingOk(ringMapping, RingBytes(INITIAL_CAPACITY), sysPage)
      ensures slab == null <==> mapping.Failed? || ringMapping.Failed?
      ensures slab != null ==>
                && fresh(slab) && fresh(slab.ring) && fresh(slab.ring.cells)
                && slab.Valid() && slab.held == {} && Within(slab, i, mapping) && slab.capacity == 1024
    {
      PowerIsPowerOfTwo(10);
      ClassesSmall(i);
      ghost var arena;
      slab, arena := Slab.Create(ObjectBytes(i), INITIAL_CAPACITY, mapping, ringMapping, sysPage);
    }

    static lemma ClassesSmall(i: nat)
      ensures 0 < ObjectBytes(i) && AlignUp(ObjectBytes(i), LINE) <= 0x8000
    {
      LineIsPower();
      AlignUpExactlyWhen(ObjectBytes(i), LINE);
    }

    /** The slabs made so far. */
    static ghost predicate Made(slabs: seq<Slab>, maps: nat -> Mapping, repr: set<object>)
      reads repr
    {
      && (forall i :: 0 <= i < |slabs| ==> slabs[i] in repr && slabs[i].ring in repr && slabs[i].ring.cells in repr)
      && (forall i :: 0 <= i < |slabs| ==> slabs[i].Valid() && slabs[i].held == {})
      && (forall i :: 0 <= i < |slabs| ==> Within(slabs[i], i, maps(i)))
      && (forall i, j :: 0 <= i < |slabs| && 0 <= j < |slabs| && i != j ==> Apart(slabs[i], slabs[j]))
    }

    /** The body of the creation loop: one more slab beside those made so far. */
    static method AddSlab(slabs: seq<Slab>, maps: nat -> Mapping, rings: nat -> Mapping, sysPage: nat,
                          ghost repr: set<object>, ghost n: nat)
      returns (slab: Slab?)
      requires |slabs| < n && MappingsOk(maps, rings, sysPage, n) && Made(slabs, maps, repr)
      ensures slab == null <==> maps(|slabs|).Failed? || rings(|slabs|).Failed?
      ensures slab != null ==>
                && fresh(slab) && fresh(slab.ring) && fresh(slab.ring.cells) && slab.capacity == 1024
                && Made(slabs + [slab], maps, repr + {slab, slab.ring, slab.ring.cells})
    {
      var i := |slabs|;
      slab := NewSlab(i, maps(i), rings(i), sysPage);
      if slab != null { OneMore(slabs, slab, maps, repr); }
    }

    /** The slabs made so far, all from memory that could be had. */
    static ghost predicate AllHad(slabs: seq<Slab>, maps: nat -> Mapping, rings: nat -> Mapping) {
      forall i :: 0 <= i < |slabs| ==> maps(i).Mapped? && rings(i).Mapped? && slabs[i].capacity == 1024
    }

    /** The inner loop of creation: the slabs of one node. */
    static method AddNode(before: seq<Slab>, maps: nat -> Mapping, rings: nat -> Mapping, sysPage: nat,
                          ghost repr0: set<object>, ghost n: nat)
      returns (ok: bool, slabs: seq<Slab>, ghost repr: set<object>)
      requires |before| + NUM_SIZE_CLASSES <= n && MappingsOk(maps, rings, sysPage, n)
      requires Made(before, maps, repr0) && AllHad(before, maps, rings)
      ensures ok ==> |slabs| == |before| + NUM_SIZE_CLASSES && AllHad(slabs, maps, rings)
      ensures ok ==> repr0 <= repr && fresh(repr - repr0) && Made(slabs, maps, repr)
      ensures !ok ==> exists i :: 0 <= i < |before| + NUM_SIZE_CLASSES && (maps(i).Failed? || rings(i).Failed?)
    {
      slabs, repr := before, repr0;
      for sc := 0 to NUM_SIZE_CLASSES
        invariant |slabs| == |before| + sc && repr0 <= repr && fresh(repr - repr0) && Made(slabs, maps, repr)
        invariant AllHad(slabs, maps, rings)
      {
        var slab := AddSlab(slabs, maps, rings, sysPage, repr, n);
        if slab == null { return false, slabs, repr; }
        slabs := slabs + [slab];
        repr := repr + {slab, slab.ring, slab.ring.cells};
      }
      ok := true;
    }

    /** `nkit_mempool_create`: nothing before the library is initialised or without memory for the pool;
        slabs for at most 64 nodes, or nothing when one cannot be had. */
    static method Create(initialised: bool, gotPool: bool, reported: nat, maps: nat -> Mapping,
                         rings: nat -> Mapping, sysPage: nat)
      returns (pool: Mempool?)
      requires MappingsOk(maps, rings, sysPage, reported * NUM_SIZE_CLASSES)
      ensures var n := if reported > 64 then 64 else reported;
        && (pool != null <==>
              initialised && gotPool
              && forall i :: 0 <= i < n * NUM_SIZE_CLASSES ==> maps(i).Mapped? && rings(i).Mapped?)
        && (pool != null ==>
              && fresh(pool) && fresh(pool.repr) && pool.Fixed() && pool.Sized() && pool.Valid()
              && pool.loans == map[] && pool.numNodes == n)
    {
      if !initialised || !gotPool { return null; }
      var numNodes := if reported > MAX_NODES then MAX_NODES else reported;
      var slabs: seq<Slab> := [];
      ghost var repr: set<object> := {};
      for node := 0 to numNodes
        invariant |slabs| == node * NUM_SIZE_CLASSES && fresh(repr) && Made(slabs, maps, repr)
        invariant AllHad(slabs, maps, rings)
      {
        var ok;
        ok, slabs, repr := AddNode(slabs, maps, rings, sysPage, repr, reported * NUM_SIZE_CLASSES);
        if !ok { return null; }
      }
      pool := new Mempool(numNodes, slabs, repr);
    }

    static lemma OneMore(slabs: seq<Slab>, slab: Slab, maps: nat -> Mapping, repr: set<object>)
      requires Made(slabs, maps, repr) && slab !in repr && slab.ring !in repr && slab.ring.cells !in repr
      requires slab.Valid() && slab.held == {} && Within(slab, |slabs|, maps(|slabs|))
      requires forall i :: 0 <= i < |slabs| ==>
                 || maps(i).base + Extent(ObjectBytes(i), INITIAL_CAPACITY) <= maps(|slabs|).base
                 || maps(|slabs|).base + Extent(ObjectBytes(|slabs|), INITIAL_CAPACITY) <= maps(i).base
      ensures Made(slabs + [slab], maps, repr + {slab, slab.ring, slab.ring.cells})
    {
      forall i | 0 <= i < |slabs| ensures Apart(slabs[i], slab) && Apart(slab, slabs[i]) {
        assert Within(slabs[i], i, maps(i)) && slabs[i] in repr;
      }
      var all := slabs + [slab];
      assert forall i :: 0 <= i < |slabs| ==> all[i] == slabs[i];
    }

    /** A block with a caller, header and all the bytes asked for, meets no other slot of any slab:
        no other caller's bytes and no other header, in use or not. */
    lemma BlocksApart(q: Pointer, j: nat, r: Pointer)
      requires Fixed() && Valid() && q in loans && j < |slabs| && r in slabs[j].AllSlots() && r != q
      ensures q + HEADER + loans[q].bytes <= r || r + slabs[j].objSize <= q
      ensures r in loans && loans[r].slab == j ==> HEADER + loans[r].bytes <= slabs[j].objSize
    {
      var i := loans[q].slab;
      var a, b := slabs[i], slabs[j];
      SlotsApart(a.base, a.objSize, a.capacity, q, if i == j then r else q);
      SlotsApart(b.base, b.objSize, b.capacity, r, r);
    }

    /** The class loop: the first class large enough. */
    static method FindClass(size: nat) returns (sc: nat)
      requires Served(size)
      ensures FirstClass(size, sc)
    {
      sc := 0;
      while size > SIZE_CLASSES[sc]
        invariant sc < NUM_SIZE_CLASSES && forall c :: 0 <= c < sc ==> SIZE_CLASSES[c] < size
        decreases NUM_SIZE_CLASSES - sc
      {
        sc := sc + 1;
      }
    }

    /** Allocation in one slab leaves the others alone. */
    method TakeFrom(i: nat, spurious: nat) returns (q: Pointer)
      requires Fixed() && SlabsOk() && i < |slabs|
      modifies this`helds, slabs[i], slabs[i].ring, slabs[i].ring.cells
      ensures SlabsOk() && (q == NULL <==> Full(i, old(helds)))
      ensures q == NULL ==> helds == old(helds)
      ensures q != NULL ==>
                && q in slabs[i].AllSlots() && q !in old(helds)[i]
                && helds == old(helds)[i := old(helds)[i] + {q}]
    {
      q := slabs[i].Alloc(spurious);
      forall j | 0 <= j < |slabs| && j != i ensures slabs[j].Valid() && slabs[j].held == helds[j] {
        assert Apart(slabs[i], slabs[j]) && old(slabs[j].Valid());
      }
      helds := helds[i := slabs[i].held];
    }

    /** So does release. */
    method GiveTo(slab: Slab, q: Pointer, spurious: nat, ghost i: nat)
      requires Fixed() && SlabsOk() && i < |slabs| && slab == slabs[i] && q in helds[i]
      modifies this`helds, slab, slab.ring, slab.ring.cells
      ensures SlabsOk() && helds == old(helds)[i := old(helds)[i] - {q}]
    {
      slab.Free(q, spurious);
      forall j | 0 <= j < |slabs| && j != i ensures slabs[j].Valid() && slabs[j].held == helds[j] {
        assert Apart(slabs[i], slabs[j]) && old(slabs[j].Valid());
      }
      helds := helds[i := slab.held];
    }

    /** `nodes[n].slabs[sc]`. */
    static function Index(n: nat, sc: nat): nat {
      n * NUM_SIZE_CLASSES + sc
    }

    /** Every slot of slab `i` is held. */
    ghost predicate Full(i: nat, helds: seq<set<Pointer>>) {
      i < |slabs| == |helds| && |helds[i]| == slabs[i].capacity
    }

    /** The class has no free slot on any node. */
    ghost predicate FullEverywhere(sc: nat, helds: seq<set<Pointer>>) {
      forall n :: 0 <= n < numNodes ==> Full(Index(n, sc), helds)
    }

    /** The local node and every node before `node` have no free slot of the class. */
    ghost predicate FullBefore(sc: nat, local: nat, node: nat, helds: seq<set<Pointer>>) {
      Full(Index(local, sc), helds) && forall m :: 0 <= m < node ==> Full(Index(m, sc), helds)
    }

    /** What an attempt on slab `i` does to the held slots. */
    ghost predicate Took(i: nat, q: Pointer, was: seq<set<Pointer>>, now: seq<set<Pointer>>) {
      && i < |slabs| == |was| && !Full(i, was) && q in slabs[i].AllSlots() && q !in was[i]
      && now == was[i := was[i] + {q}]
    }

    method TryNode(n: nat, sc: nat, spurious: nat) returns (q: Pointer)
      requires Fixed() && SlabsOk() && sc < NUM_SIZE_CLASSES && n < numNodes
      modifies this`helds, repr
      ensures SlabsOk()
      ensures q == NULL ==> helds == old(helds) && Full(Index(n, sc), helds)
      ensures q != NULL ==> Took(Index(n, sc), q, old(helds), helds)
    {
      q := TakeFrom(Index(n, sc), spurious);
    }

    /** The local slab first, then the other nodes in order. */
    method Search(sc: nat, cur: nat, spurious: nat) returns (q: Pointer, node: nat)
      requires Fixed() && SlabsOk() && sc < NUM_SIZE_CLASSES && (cur < numNodes || numNodes == 0)
      modifies this`helds, repr
      ensures SlabsOk() && (q != NULL ==> node < numNodes)
      ensures q == NULL ==>
                helds == old(helds) && FullEverywhere(sc, helds)
      ensures q != NULL ==>
                && Took(Index(node, sc), q, old(helds), helds)
                && (node == cur || FullBefore(sc, cur, node, old(helds)))
    {
      node, q := cur, NULL;
      if numNodes == 0 { return; }             // the slab pointer of node 0 is null
      q := TryNode(cur, sc, spurious);
      if q != NULL { return; }
      var n := 0;
      while n < numNodes
        invariant n <= numNodes && node < numNodes
        invariant SlabsOk() && helds == old(helds) && q == NULL && Full(Index(cur, sc), helds)
        invariant forall m :: 0 <= m < n ==> Full(Index(m, sc), helds)
      {
        if n != cur {
          node := n;
          q := TryNode(n, sc, spurious);
          if q != NULL { return; }
        }
        n := n + 1;
      }
    }

    /** A slot just taken was with no caller, on this slab or another. */
    lemma NotOnLoan(q: Pointer, i: nat, was: seq<set<Pointer>>)
      requires Fixed() && SlabsOk() && Booked(slabs, owner, loans, was) && i < |slabs| && q in slabs[i].AllSlots()
      requires q !in was[i] && helds == was[i := was[i] + {q}]
      ensures q !in loans
    {
      if q in loans {
        var a, b := slabs[i], slabs[loans[q].slab];
        SlotsApart(a.base, a.objSize, a.capacity, q, q);
        SlotsApart(b.base, b.objSize, b.capacity, q, q);
        assert false;
      }
    }

    /** On every node the class has room for the header and `size` bytes. */
    ghost predicate Suits(size: nat, sc: nat) {
      forall n :: 0 <= n < numNodes ==> Index(n, sc) < |slabs| && HEADER + size <= slabs[Index(n, sc)].objSize
    }

    lemma ClassSuits(size: nat, sc: nat)
      requires Fixed() && Sized() && FirstClass(size, sc)
      ensures Suits(size, sc)
    {
      forall n | 0 <= n < numNodes
        ensures Index(n, sc) < |slabs| && HEADER + size <= slabs[Index(n, sc)].objSize
      {
        assert Index(n, sc) % NUM_SIZE_CLASSES == sc && ObjectBytes(Index(n, sc)) == HEADER + SIZE_CLASSES[sc];
      }
    }

    /** The block at `p` is lent: from the local node unless its slab was full, and then from the first
        other node with a free slot. */
    ghost predicate Lent(p: Pointer, size: nat, sc: nat, local: nat, node: nat,
                         helds0: seq<set<Pointer>>, helds1: seq<set<Pointer>>,
                         loans0: map<Pointer, Loan>, loans1: map<Pointer, Loan>) {
      var q, i := p - HEADER, Index(node, sc);
      && node < numNodes && (node == local || FullBefore(sc, local, node, helds0)) && Took(i, q, helds0, helds1)
      && q !in loans0 && loans1 == loans0[q := Loan(i, size)]
    }

    /** A block of the class, wherever it is found, with its header written. */
    method Lend(size: nat, sc: nat, cur: nat, spurious: nat) returns (p: Pointer, ghost node: nat)
      requires Fixed() && Valid() && sc < NUM_SIZE_CLASSES && 0 < size && Suits(size, sc)
      requires cur < numNodes || numNodes == 0
      modifies this`owner, this`loans, this`helds, repr
      ensures Valid()
      ensures p == NULL ==>
                && helds == old(helds) && loans == old(loans) && owner == old(owner)
                && FullEverywhere(sc, helds)
      ensures p != NULL ==> Lent(p, size, sc, cur, node, old(helds), helds, old(loans), loans)
    {
      var q, n := Search(sc, cur, spurious);
      node := n;
      if q == NULL { return NULL, node; }
      p := HandOut(q, n, sc, size, cur, old(helds));
    }

    /** The header is written and the caller gets what follows it. */
    method HandOut(q: Pointer, node: nat, sc: nat, size: nat, ghost local: nat, ghost was: seq<set<Pointer>>)
      returns (p: Pointer)
      requires Fixed() && SlabsOk() && Booked(slabs, owner, loans, was) && Took(Index(node, sc), q, was, helds)
      requires node < numNodes && (node == local || FullBefore(sc, local, node, was)) && 0 < size && Suits(size, sc)
      modifies this`owner, this`loans
      ensures Valid() && p != NULL && Lent(p, size, sc, local, node, was, helds, old(loans), loans)
    {
      var i := Index(node, sc);
      NotOnLoan(q, i, was);
      NotNull(q, i);
      BookedLent(slabs, owner, loans, was, q, i, size);
      owner := owner[q := slabs[i]];
      loans := loans[q := Loan(i, size)];
      p := q + HEADER;
    }

    /** `nkit_mempool_alloc`; `currentNode` is what the scheduler reports.  Null exactly for a size of
        0, a size above the largest class, or a class full on every node. */
    method Alloc(size: nat, currentNode: int, spurious: nat)
      returns (p: Pointer, ghost sc: nat, ghost local: nat, ghost node: nat)
      requires Fixed() && Sized() && Valid()
      modifies this`owner, this`loans, this`helds, repr
      ensures Valid()
      ensures local == if 0 <= currentNode < numNodes then currentNode else 0
      ensures Served(size) ==> FirstClass(size, sc)
      ensures p == NULL ==>
                && helds == old(helds) && loans == old(loans) && owner == old(owner)
                && (!Served(size) || FullEverywhere(sc, old(helds)))
      ensures p != NULL ==>
                && Served(size)
                && Lent(p, size, sc, local, node, old(helds), helds, old(loans), loans)
    {
      var cur := if currentNode < 0 || currentNode >= numNodes then 0 else currentNode;
      sc, local, node := 0, cur, 0;
      if size == 0 || size > SIZE_CLASSES[NUM_SIZE_CLASSES - 1] { return NULL, 0, cur, 0; }
      var idx := FindClass(size);
      sc := idx;
      ClassSuits(size, idx);
      p, node := Lend(size, idx, cur, spurious);
    }

    lemma NotNull(q: Pointer, i: nat)
      requires Fixed() && SlabsOk() && i < |slabs| && q in slabs[i].AllSlots()
      ensures q > 0
    {
      var k := SlotIndex(slabs[i].base, slabs[i].objSize, slabs[i].capacity, q);
    }

    /** `nkit_mempool_free` of a block with a caller: its header leads to the slab it came from, the
        local one or not. */
    method Free(p: Pointer, spurious: nat)
      requires Fixed() && Valid() && (p == NULL || p - HEADER in loans)
      modifies this`loans, this`helds, repr
      ensures Valid()
      ensures p == NULL ==> loans == old(loans) && helds == old(helds)
      ensures p != NULL ==>
                var q, i := p - HEADER, old(loans)[p - HEADER].slab;
                loans == old(loans) - {q} && helds == old(helds)[i := old(helds)[i] - {q}]
    {
      if p == NULL { return; }
      var q := p - HEADER;
      BookedReturned(slabs, owner, loans, helds, q);
      GiveTo(owner[q], q, spurious, loans[q].slab);
      loans := loans - {q};
    }

    /** A block lent and released at once, wherever it was found: the pool is as before. */
    method RoundTrip(size: nat, currentNode: int, spurious: nat) returns (p: Pointer)
      requires Fixed() && Sized() && Valid()
      modifies this`owner, this`loans, this`helds, repr
      ensures Valid() && loans == old(loans) && helds == old(helds)
    {
      ghost var sc, local, node;
      p, sc, local, node := Alloc(size, currentNode, spurious);
      ghost var lent := helds;
      Free(p, spurious);
      if p != NULL { Returned(Index(node, sc), p - HEADER, old(helds), lent); }
    }

    lemma Returned(i: nat, q: Pointer, was: seq<set<Pointer>>, now: seq<set<Pointer>>)
      requires Took(i, q, was, now)
      ensures now[i := now[i] - {q}] == was
    {
      assert now[i] - {q} == was[i];
    }
  }
}
