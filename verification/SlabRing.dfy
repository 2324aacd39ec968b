/** The slab's free list under concurrency: allocation is a ring pop, release is a ring push
    whose answer `nkit_slab_free` ignores.  The model runs the ring protocol step by step and
    follows every slot: in the ring, on its way in or out, with a caller, or lost. */
module SlabRing {
  import opened Bits
  import opened Ring
  import opened Sets

  /** Where a slot is.  `Entering` and `Leaving` name the thread inside push or pop. */
  datatype Place = Queued(i: nat) | Entering(id: Tid) | Leaving(id: Tid) | Held | Lost

  datatype Slab = Slab(ring: State, place: map<Pointer, Place>)

  /** Callers release only slots they hold. */
  predicate Permitted(b: Slab, id: Tid, st: Step) {
    && Enabled(b.ring, id, st)
    && (st.PushBegin? ==> st.x in b.place && b.place[st.x].Held?)
  }

  function PlaceAfter(b: Slab, id: Tid, st: Step): map<Pointer, Place>
    requires Permitted(b, id, st)
  {
    var s, pc := b.ring, PcOf(b.ring, id);
    match st
    case PushBegin(x) => b.place[x := Entering(id)]
    case PushLoadSeq =>
      if CellAt(s, pc.h).sequence < pc.h then b.place[pc.x := Lost] else b.place
    case PushTryCas(works) =>
      if works && s.head == pc.h then b.place[pc.x := Queued(pc.h)] else b.place
    case PopTryCas(works) =>
      if works && s.tail == pc.t && pc.t < |s.pushed|
      then b.place[s.pushed[pc.t] := Leaving(id)] else b.place
    case PopStoreSeq => b.place[pc.y := Held]
    case _ => b.place
  }

  function Apply(b: Slab, id: Tid, st: Step): Slab
    requires Permitted(b, id, st)
  {
    Slab(Ring.Apply(b.ring, id, st), PlaceAfter(b, id, st))
  }

  /** The slot a thread is putting back or taking out. */
  ghost predicate InTransit(b: Slab, id: Tid, pc: Pc)
    requires Shape(b.ring)
  {
    match pc
    case PushLoop(x, _) => x in b.place && b.place[x] == Entering(id)
    case PushReload(x) => x in b.place && b.place[x] == Entering(id)
    case PushCas(x, _) => x in b.place && b.place[x] == Entering(id)
    case PopRead(t) =>
      t < b.ring.head && b.ring.pushed[t] in b.place && b.place[b.ring.pushed[t]] == Leaving(id)
    case PopCommit(t, y) => y in b.place && b.place[y] == Leaving(id)
    case _ => true
  }

  /** The capacity slots, each in one place; the ring's contents are the slots marked so. */
  ghost predicate Inv(b: Slab) {
    && Ring.Inv(b.ring)
    && |b.place| == b.ring.capacity
    && (forall i :: b.ring.tail <= i < b.ring.head ==>
          b.ring.pushed[i] in b.place && b.place[b.ring.pushed[i]] == Queued(i))
    && (forall x :: x in b.place && b.place[x].Queued? ==>
          b.ring.tail <= b.place[x].i < b.ring.head && b.ring.pushed[b.place[x].i] == x)
    && (forall id :: id in b.ring.pcs ==> InTransit(b, id, b.ring.pcs[id]))
  }

  lemma FreeBeginsKeeps(b: Slab, id: Tid, st: Step)
    requires Inv(b) && Permitted(b, id, st)
    requires st.PushBegin? || st.PushReloadHead?
    ensures Inv(Apply(b, id, st))
  {
    var b' := Apply(b, id, st);
    InvKept(b.ring, id, st);
    assert InTransit(b, id, PcOf(b.ring, id)) && ThreadOk(b.ring, id, PcOf(b.ring, id));
    assert b'.place.Keys == b.place.Keys;
    assert forall j :: j in b.ring.pcs ==> InTransit(b, j, b.ring.pcs[j]);
  }

  lemma FreeMayDropKeeps(b: Slab, id: Tid, st: Step)
    requires Inv(b) && Permitted(b, id, st)
    requires st.PushLoadSeq?
    ensures Inv(Apply(b, id, st))
  {
    var b' := Apply(b, id, st);
    InvKept(b.ring, id, st);
    assert InTransit(b, id, PcOf(b.ring, id)) && ThreadOk(b.ring, id, PcOf(b.ring, id));
    assert b'.place.Keys == b.place.Keys;
    assert forall j :: j in b.ring.pcs ==> InTransit(b, j, b.ring.pcs[j]);
  }

  lemma FreeClaimsKeeps(b: Slab, id: Tid, st: Step)
    requires Inv(b) && Permitted(b, id, st)
    requires st.PushTryCas?
    ensures Inv(Apply(b, id, st))
  {
    var b' := Apply(b, id, st);
    InvKept(b.ring, id, st);
    assert InTransit(b, id, PcOf(b.ring, id)) && ThreadOk(b.ring, id, PcOf(b.ring, id));
    assert b'.place.Keys == b.place.Keys;
    assert forall j :: j in b.ring.pcs ==> InTransit(b, j, b.ring.pcs[j]);
  }

  lemma PopCasKeeps(b: Slab, id: Tid, works: bool)
    requires Inv(b) && Permitted(b, id, PopTryCas(works))
    ensures Inv(Apply(b, id, PopTryCas(works)))
  {
    var b' := Apply(b, id, PopTryCas(works));
    InvKept(b.ring, id, PopTryCas(works));
    assert b'.place.Keys == b.place.Keys;
    assert forall j :: j in b.ring.pcs ==> InTransit(b, j, b.ring.pcs[j]) && ThreadOk(b.ring, j, b.ring.pcs[j]);
  }

  lemma StoreKeeps(b: Slab, id: Tid, st: Step)
    requires Inv(b) && Permitted(b, id, st)
    requires st.PushStoreData? || st.PushStoreSeq? || st.PopBegin? || st.PopLoadSeq? || st.PopReloadTail?
    ensures Inv(Apply(b, id, st))
  {
    var b' := Apply(b, id, st);
    InvKept(b.ring, id, st);
    assert b'.place == b.place;
    assert forall j :: j in b.ring.pcs ==> InTransit(b, j, b.ring.pcs[j]);
  }

  lemma PopEndsKeeps(b: Slab, id: Tid, st: Step)
    requires Inv(b) && Permitted(b, id, st) && (st.PopLoadData? || st.PopStoreSeq?)
    ensures Inv(Apply(b, id, st))
  {
    var b' := Apply(b, id, st);
    InvKept(b.ring, id, st);
    assert InTransit(b, id, PcOf(b.ring, id)) && ThreadOk(b.ring, id, PcOf(b.ring, id));
    if st.PopLoadData? { HoldsPushed(b.ring, PcOf(b.ring, id).t); }
    assert b'.place.Keys == b.place.Keys;
    assert forall j :: j in b.ring.pcs ==> InTransit(b, j, b.ring.pcs[j]) && ThreadOk(b.ring, j, b.ring.pcs[j]);
  }

  lemma InvKeptBySlab(b: Slab, id: Tid, st: Step)
    requires Inv(b) && Permitted(b, id, st)
    ensures Inv(Apply(b, id, st))
  {
    match st
    case PushBegin(_) => FreeBeginsKeeps(b, id, st);
    case PushReloadHead => FreeBeginsKeeps(b, id, st);
    case PushLoadSeq => FreeMayDropKeeps(b, id, st);
    case PushTryCas(_) => FreeClaimsKeeps(b, id, st);
    case PopTryCas(works) => PopCasKeeps(b, id, works);
    case PopLoadData => PopEndsKeeps(b, id, st);
    case PopStoreSeq => PopEndsKeeps(b, id, st);
    case _ => StoreKeeps(b, id, st);
  }

  /** The thread is putting `x` back, respectively taking it out. */
  predicate PutsBack(pc: Pc, x: Pointer) {
    (pc.PushLoop? || pc.PushReload? || pc.PushCas?) && pc.x == x
  }

  predicate TakesOut(s: State, pc: Pc, x: Pointer) {
    || (pc.PopRead? && pc.t < |s.pushed| && s.pushed[pc.t] == x)
    || (pc.PopCommit? && pc.y == x)
  }

  /** A slot on its way in or out is in the hands of the thread named. */
  ghost predicate HandOk(b: Slab, x: Pointer)
    requires x in b.place
  {
    && (b.place[x].Entering? ==> PutsBack(PcOf(b.ring, b.place[x].id), x))
    && (b.place[x].Leaving? ==> TakesOut(b.ring, PcOf(b.ring, b.place[x].id), x))
  }

  ghost predicate InHands(b: Slab) {
    forall x :: x in b.place ==> HandOk(b, x)
  }

  lemma HandKeptByPush(b: Slab, id: Tid, st: Step, x: Pointer)
    requires Inv(b) && Permitted(b, id, st) && x in b.place && HandOk(b, x)
    requires st.PushBegin? || st.PushLoadSeq? || st.PushReloadHead? || st.PushTryCas?
    ensures x in Apply(b, id, st).place && HandOk(Apply(b, id, st), x)
  {
    assert InTransit(b, id, PcOf(b.ring, id));
  }

  lemma HandKeptByPop(b: Slab, id: Tid, st: Step, x: Pointer)
    requires Inv(b) && Permitted(b, id, st) && x in b.place && HandOk(b, x)
    requires st.PopTryCas? || st.PopLoadData? || st.PopStoreSeq?
    ensures x in Apply(b, id, st).place && HandOk(Apply(b, id, st), x)
  {
    var pc := PcOf(b.ring, id);
    assert InTransit(b, id, pc) && ThreadOk(b.ring, id, pc);
    if st.PopLoadData? { HoldsPushed(b.ring, pc.t); }
    if st.PopTryCas? && st.works && b.ring.tail == pc.t { HoldsPushed(b.ring, pc.t); }
  }

  lemma HandKeptElse(b: Slab, id: Tid, st: Step, x: Pointer)
    requires Inv(b) && Permitted(b, id, st) && x in b.place && HandOk(b, x)
    requires st.PushStoreData? || st.PushStoreSeq? || st.PopBegin? || st.PopLoadSeq? || st.PopReloadTail?
    ensures x in Apply(b, id, st).place && HandOk(Apply(b, id, st), x)
  {
    assert Apply(b, id, st).place == b.place;
  }

  lemma HandKept(b: Slab, id: Tid, st: Step, x: Pointer)
    requires Inv(b) && Permitted(b, id, st) && x in b.place && HandOk(b, x)
    ensures x in Apply(b, id, st).place && HandOk(Apply(b, id, st), x)
  {
    if st.PushBegin? || st.PushLoadSeq? || st.PushReloadHead? || st.PushTryCas? { HandKeptByPush(b, id, st, x); }
    else if st.PopTryCas? || st.PopLoadData? || st.PopStoreSeq? { HandKeptByPop(b, id, st, x); }
    else { HandKeptElse(b, id, st, x); }
  }

  /** Every step keeps each slot in exactly one place, and the place true. */
  lemma PlacesKept(b: Slab, id: Tid, st: Step)
    requires Inv(b) && InHands(b) && Permitted(b, id, st)
    ensures Inv(Apply(b, id, st)) && InHands(Apply(b, id, st))
  {
    var b' := Apply(b, id, st);
    InvKeptBySlab(b, id, st);
    assert b'.place.Keys == b.place.Keys by {
      assert InTransit(b, id, PcOf(b.ring, id)) && ThreadOk(b.ring, id, PcOf(b.ring, id));
    }
    forall x | x in b'.place ensures HandOk(b', x) { HandKept(b, id, st, x); }
  }

  ghost predicate LegalRun(b: Slab, moves: seq<Move>)
    decreases |moves|
  {
    moves == [] ||
    (Permitted(b, moves[0].id, moves[0].st) && LegalRun(Apply(b, moves[0].id, moves[0].st), moves[1..]))
  }

  ghost function Run(b: Slab, moves: seq<Move>): Slab
    requires LegalRun(b, moves)
    decreases |moves|
  {
    if moves == [] then b else Run(Apply(b, moves[0].id, moves[0].st), moves[1..])
  }

  lemma {:induction false} InvAlwaysInSlab(b: Slab, moves: seq<Move>)
    requires Inv(b) && InHands(b) && LegalRun(b, moves)
    ensures Inv(Run(b, moves)) && InHands(Run(b, moves))
    decreases |moves|
  {
    if moves != [] {
      PlacesKept(b, moves[0].id, moves[0].st);
      InvAlwaysInSlab(Apply(b, moves[0].id, moves[0].st), moves[1..]);
    }
  }

  /** The slot a pop is about to hand out is in no other place. */
  ghost predicate Exclusive(b: Slab, id: Tid, y: Pointer) {
    && y in b.place && b.place[y] == Leaving(id) && y !in Queue(b.ring)
    && (forall j :: j in b.ring.pcs && j != id ==>
          && (b.ring.pcs[j].PopCommit? ==> b.ring.pcs[j].y != y)
          && (b.ring.pcs[j].PushLoop? || b.ring.pcs[j].PushReload? || b.ring.pcs[j].PushCas? ==>
                b.ring.pcs[j].x != y))
  }

  lemma HandsOutExclusive(b: Slab, id: Tid)
    requires Inv(b) && PcOf(b.ring, id).PopCommit?
    ensures Exclusive(b, id, PcOf(b.ring, id).y)
  {
    assert InTransit(b, id, PcOf(b.ring, id));
    forall j | j in b.ring.pcs ensures InTransit(b, j, b.ring.pcs[j]) {}
  }

  /** In every interleaving an allocation hands out a slot that no caller holds, that is not
      in the ring, and that no other thread is putting in or taking out. */
  lemma AllocExclusive(b: Slab, moves: seq<Move>, id: Tid)
    requires Inv(b) && InHands(b) && LegalRun(b, moves)
    requires PcOf(Run(b, moves).ring, id).PopCommit?
    ensures Exclusive(Run(b, moves), id, PcOf(Run(b, moves).ring, id).y)
  {
    InvAlwaysInSlab(b, moves);
    HandsOutExclusive(Run(b, moves), id);
  }

  // ---------------------------------------------------------------------------
  // When a release is dropped
  // ---------------------------------------------------------------------------

  /** The first `n` items of a stretch of the pushes. */
  ghost function Stretch(pushed: seq<Pointer>, tail: nat, n: nat): set<Pointer>
    requires tail + n <= |pushed|
  {
    set i | tail <= i < tail + n :: pushed[i]
  }

  lemma {:induction false} StretchSize(pushed: seq<Pointer>, tail: nat, n: nat)
    requires tail + n <= |pushed| && forall i, j :: tail <= i < j < tail + n ==> pushed[i] != pushed[j]
    ensures |Stretch(pushed, tail, n)| == n
  {
    if n > 0 {
      StretchSize(pushed, tail, n - 1);
      assert Stretch(pushed, tail, n) == Stretch(pushed, tail, n - 1) + {pushed[tail + n - 1]};
    }
  }

  /** A ring that is short of a slot has a spare cell. */
  lemma NotFull(b: Slab, x: Pointer)
    requires Inv(b) && x in b.place && !b.place[x].Queued?
    ensures b.ring.head - b.ring.tail < b.ring.capacity
  {
    var n := b.ring.head - b.ring.tail;
    StretchSize(b.ring.pushed, b.ring.tail, n);
    assert Stretch(b.ring.pushed, b.ring.tail, n) <= b.place.Keys - {x};
    SubsetSize(Stretch(b.ring.pushed, b.ring.tail, n), b.place.Keys - {x});
  }

  /** A release is dropped exactly when its head is current and the allocation that claimed
      index `head - capacity` has not committed yet. */
  lemma DroppedExactlyWhen(b: Slab, id: Tid)
    requires Inv(b) && PcOf(b.ring, id).PushLoop?
    ensures var s, pc := b.ring, PcOf(b.ring, id);
      Ring.Apply(s, id, PushLoadSeq).pcs[id].Idle? <==>
      (pc.h == s.head && s.head >= s.capacity && s.head - s.capacity < s.tail && Reading(s, s.head - s.capacity))
  {
    assert InTransit(b, id, PcOf(b.ring, id));
    NotFull(b, PcOf(b.ring, id).x);
    FullTruthful(b.ring, id);
  }

  /** A slot is lost exactly at that step of its own release, and for ever. */
  lemma LostExactlyWhen(b: Slab, id: Tid, st: Step, x: Pointer)
    requires Inv(b) && Permitted(b, id, st) && x in b.place
    ensures x in Apply(b, id, st).place
    ensures var s, pc := b.ring, PcOf(b.ring, id);
      Apply(b, id, st).place[x].Lost? <==>
      || b.place[x].Lost?
      || (&& st.PushLoadSeq? && pc.x == x
          && pc.h == s.head && s.head >= s.capacity && s.head - s.capacity < s.tail
          && Reading(s, s.head - s.capacity))
  {
    var pc := PcOf(b.ring, id);
    assert InTransit(b, id, pc) && ThreadOk(b.ring, id, pc);
    if st.PushLoadSeq? { DroppedExactlyWhen(b, id); }
  }

  // ---------------------------------------------------------------------------
  // The slab as created, and a run that loses a slot
  // ---------------------------------------------------------------------------

  function CellsAfter(slots: seq<Pointer>, m: nat): seq<Cell>
    requires m <= |slots|
  {
    seq(|slots|, (j: nat) requires j < |slots| => if j < m then Cell(j + 1, slots[j]) else Cell(j, NULL))
  }

  /** The free list after the first `m` pushes of `nkit_slab_create`. */
  function RingAfter(slots: seq<Pointer>, m: nat): State
    requires m <= |slots|
  {
    State(|slots|, m, 0, CellsAfter(slots, m), if m == 0 then map[] else map[0 := Idle],
          slots[..m], seq(m, _ => 0), [], [])
  }

  lemma PopulateOne(slots: seq<Pointer>, m: nat, rest: seq<Move>) returns (moves: seq<Move>)
    requires 2 <= |slots| && m < |slots| && Legal(RingAfter(slots, m + 1), rest)
    ensures Legal(RingAfter(slots, m), moves)
    ensures Exec(RingAfter(slots, m), moves) == Exec(RingAfter(slots, m + 1), rest)
  {
    ModuloUnique(m, |slots|, 0, m);
    var s := RingAfter(slots, m);
    var s1 := Ring.Apply(s, 0, PushBegin(slots[m]));
    var s2 := Ring.Apply(s1, 0, PushLoadSeq);
    var s3 := Ring.Apply(s2, 0, PushTryCas(true));
    var s4 := Ring.Apply(s3, 0, PushStoreData);
    var s5 := Ring.Apply(s4, 0, PushStoreSeq);
    assert s5.cells == CellsAfter(slots, m + 1);
    assert s5.pusher == seq(m + 1, _ => 0);
    assert s5 == RingAfter(slots, m + 1);
    Prepend(s4, 0, PushStoreSeq, rest);
    moves := [Move(0, PushStoreSeq)] + rest;
    Prepend(s3, 0, PushStoreData, moves);
    moves := [Move(0, PushStoreData)] + moves;
    Prepend(s2, 0, PushTryCas(true), moves);
    moves := [Move(0, PushTryCas(true))] + moves;
    Prepend(s1, 0, PushLoadSeq, moves);
    moves := [Move(0, PushLoadSeq)] + moves;
    Prepend(s, 0, PushBegin(slots[m]), moves);
    moves := [Move(0, PushBegin(slots[m]))] + moves;
  }

  /** The populate loop reaches the full free list from a new ring. */
  lemma {:induction false} PopulateRun(slots: seq<Pointer>, m: nat) returns (moves: seq<Move>)
    requires 2 <= |slots| && m <= |slots|
    ensures Legal(RingAfter(slots, m), moves)
    ensures Exec(RingAfter(slots, m), moves) == RingAfter(slots, |slots|)
    ensures RingAfter(slots, 0) == Init(|slots|)
    decreases |slots| - m
  {
    assert CellsAfter(slots, 0) == Init(|slots|).cells;
    if m == |slots| {
      moves := [];
    } else {
      var rest := PopulateRun(slots, m + 1);
      moves := PopulateOne(slots, m, rest);
    }
  }

  /** `nkit_slab_create`: every slot address pushed once, in order. */
  function Populated(slots: seq<Pointer>): Slab
    requires forall i, j :: 0 <= i < j < |slots| ==> slots[i] != slots[j]
  {
    Slab(RingAfter(slots, |slots|),
         map x | x in slots :: Queued(IndexOf(slots, x)))
  }

  function IndexOf(slots: seq<Pointer>, x: Pointer): (i: nat)
    requires x in slots
    ensures i < |slots| && slots[i] == x
  {
    if slots[0] == x then 0 else 1 + IndexOf(slots[1..], x)
  }

  lemma {:induction false} DistinctCount(slots: seq<Pointer>)
    requires forall i, j :: 0 <= i < j < |slots| ==> slots[i] != slots[j]
    ensures |set x | x in slots| == |slots|
  {
    if slots != [] {
      var n := |slots| - 1;
      DistinctCount(slots[..n]);
      assert slots == slots[..n] + [slots[n]];
      assert (set x | x in slots) == (set x | x in slots[..n]) + {slots[n]};
    }
  }

  lemma PopulatedCells(slots: seq<Pointer>)
    requires 2 <= |slots| && forall i, j :: 0 <= i < j < |slots| ==> slots[i] != slots[j]
    ensures Ring.Inv(Populated(slots).ring)
  {
    var s, n := Populated(slots).ring, |slots|;
    forall k | 0 <= k < n ensures CellOk(s, k) {
      ModuloUnique(k, n, 0, k);
      DistinctSlots(k, k + 1, n);
    }
  }

  lemma PopulatedPlaces(slots: seq<Pointer>)
    requires forall i, j :: 0 <= i < j < |slots| ==> slots[i] != slots[j]
    ensures |Populated(slots).place| == |slots|
    ensures forall i :: 0 <= i < |slots| ==> slots[i] in Populated(slots).place
                                             && Populated(slots).place[slots[i]] == Queued(i)
    ensures forall x :: x in Populated(slots).place ==>
              exists i :: 0 <= i < |slots| && slots[i] == x && Populated(slots).place[x] == Queued(i)
  {
    var place := Populated(slots).place;
    assert place.Keys == set x | x in slots;
    DistinctCount(slots);
    forall i | 0 <= i < |slots| ensures slots[i] in place && place[slots[i]] == Queued(i) {
      assert IndexOf(slots, slots[i]) == i;
    }
  }

  lemma PopulatedHands(slots: seq<Pointer>)
    requires forall i, j :: 0 <= i < j < |slots| ==> slots[i] != slots[j]
    ensures InHands(Populated(slots))
  {
    PopulatedPlaces(slots);
  }

  lemma AllQueued(b: Slab, slots: seq<Pointer>)
    requires Ring.Inv(b.ring) && b.ring.tail == 0 && b.ring.head == b.ring.capacity == |slots|
    requires b.ring.pushed == slots && |b.place| == |slots| && forall id :: id in b.ring.pcs ==> b.ring.pcs[id].Idle?
    requires forall i :: 0 <= i < |slots| ==> slots[i] in b.place && b.place[slots[i]] == Queued(i)
    requires forall x :: x in b.place ==> exists i :: 0 <= i < |slots| && slots[i] == x && b.place[x] == Queued(i)
    ensures Inv(b)
  {}

  lemma PopulatedOk(slots: seq<Pointer>)
    requires 2 <= |slots| && forall i, j :: 0 <= i < j < |slots| ==> slots[i] != slots[j]
    ensures Inv(Populated(slots)) && InHands(Populated(slots))
  {
    PopulatedCells(slots);
    PopulatedPlaces(slots);
    PopulatedHands(slots);
    AllQueued(Populated(slots), slots);
  }

  lemma PrependMove(b: Slab, id: Tid, st: Step, rest: seq<Move>)
    requires Permitted(b, id, st) && LegalRun(Apply(b, id, st), rest)
    ensures LegalRun(b, [Move(id, st)] + rest)
    ensures Run(b, [Move(id, st)] + rest) == Run(Apply(b, id, st), rest)
  {
    assert ([Move(id, st)] + rest)[1..] == rest;
  }

  /** An idle thread's pop, undisturbed up to its claim. */
  function Claimed(b: Slab, id: Tid): Slab
    requires b.ring.tail < |b.ring.pushed|
  {
    var s := b.ring;
    Slab(s.(pcs := s.pcs[id := PopRead(s.tail)], tail := s.tail + 1, popper := s.popper + [id]),
         b.place[s.pushed[s.tail] := Leaving(id)])
  }

  lemma Claims(b: Slab, id: Tid, rest: seq<Move>) returns (moves: seq<Move>)
    requires PcOf(b.ring, id).Idle? && b.ring.tail < |b.ring.pushed|
    requires CellAt(b.ring, b.ring.tail).sequence == b.ring.tail + 1
    requires LegalRun(Claimed(b, id), rest)
    ensures LegalRun(b, moves) && Run(b, moves) == Run(Claimed(b, id), rest)
  {
    var b1 := Apply(b, id, PopBegin);
    var b2 := Apply(b1, id, PopLoadSeq);
    assert Apply(b2, id, PopTryCas(true)).ring == Claimed(b, id).ring;
    PrependMove(b2, id, PopTryCas(true), rest);
    moves := [Move(id, PopTryCas(true))] + rest;
    PrependMove(b1, id, PopLoadSeq, moves);
    moves := [Move(id, PopLoadSeq)] + moves;
    PrependMove(b, id, PopBegin, moves);
    moves := [Move(id, PopBegin)] + moves;
  }

  /** The rest of that pop. */
  function Finished(b: Slab, id: Tid, t: nat): Slab {
    var s, y := b.ring, CellAt(b.ring, t).data;
    Slab(s.(pcs := s.pcs[id := Idle],
            cells := WithCell(s, t, CellAt(s, t).(sequence := t + s.capacity)),
            results := s.results + [Result(t, y)]),
         b.place[y := Held])
  }

  lemma Finishes(b: Slab, id: Tid, t: nat, rest: seq<Move>) returns (moves: seq<Move>)
    requires PcOf(b.ring, id) == PopRead(t) && LegalRun(Finished(b, id, t), rest)
    ensures LegalRun(b, moves) && Run(b, moves) == Run(Finished(b, id, t), rest)
  {
    var b1 := Apply(b, id, PopLoadData);
    assert Apply(b1, id, PopStoreSeq).ring == Finished(b, id, t).ring;
    PrependMove(b1, id, PopStoreSeq, rest);
    moves := [Move(id, PopStoreSeq)] + rest;
    PrependMove(b, id, PopLoadData, moves);
    moves := [Move(id, PopLoadData)] + moves;
  }

  lemma Drops(b: Slab, id: Tid, x: Pointer) returns (moves: seq<Move>)
    requires PcOf(b.ring, id).Idle? && x in b.place && b.place[x].Held?
    requires CellAt(b.ring, b.ring.head).sequence < b.ring.head
    ensures LegalRun(b, moves)
    ensures var e := Run(b, moves); x in e.place && e.place[x] == Lost
  {
    var b1 := Apply(b, id, PushBegin(x));
    var b2 := Apply(b1, id, PushLoadSeq);
    assert LegalRun(b2, []) && Run(b2, []) == b2;
    PrependMove(b1, id, PushLoadSeq, []);
    PrependMove(b, id, PushBegin(x), [Move(id, PushLoadSeq)] + []);
    moves := [Move(id, PushBegin(x))] + ([Move(id, PushLoadSeq)] + []);
  }

  /** Two slots, 64 and 128.  Thread 1 claims 64 and does not commit; thread 2 allocates 128 and
      gives it straight back: the release is dropped and the slot is gone. */
  lemma ReleaseLost() returns (moves: seq<Move>)
    ensures LegalRun(Populated([64, 128]), moves)
    ensures var e := Run(Populated([64, 128]), moves); 128 in e.place && e.place[128] == Lost
  {
    var b := Populated([64, 128]);
    var b1 := Claimed(b, 1);
    var b2 := Claimed(b1, 2);
    var b3 := Finished(b2, 2, 1);
    moves := Drops(b3, 2, 128);
    moves := Finishes(b2, 2, 1, moves);
    moves := Claims(b1, 2, moves);
    moves := Claims(b, 1, moves);
  }
}
