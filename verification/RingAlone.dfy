/** A thread of the ring that is left alone finishes: from every reachable state, wherever in
    push or pop it stands and however stale its local index is, six steps of its own end the
    call, with the answer and the effect the queue calls for. */
module RingAlone {
  import opened Bits
  import opened Ring

  predicate InPush(pc: Pc) { pc.PushLoop? || pc.PushReload? || pc.PushCas? }

  predicate InPop(pc: Pc) { pc.PopLoop? || pc.PopReload? || pc.PopCas? }

  /** The step a thread inside a call takes next; alone, its CAS is not disturbed. */
  function Next(pc: Pc): Step
    requires !pc.Idle?
  {
    match pc
    case PushLoop(_, _) => PushLoadSeq
    case PushReload(_) => PushReloadHead
    case PushCas(_, _) => PushTryCas(true)
    case PushWrite(_, _) => PushStoreData
    case PushCommit(_, _) => PushStoreSeq
    case PopLoop(_) => PopLoadSeq
    case PopReload => PopReloadTail
    case PopCas(_) => PopTryCas(true)
    case PopRead(_) => PopLoadData
    case PopCommit(_, _) => PopStoreSeq
  }

  /** At most `n` steps of thread `id`, until its call returns. */
  function Alone(s: State, id: Tid, n: nat): State
    decreases n
  {
    if n == 0 || PcOf(s, id).Idle? then s else Alone(Apply(s, id, Next(PcOf(s, id))), id, n - 1)
  }

  /** The call of thread `id` has returned and no other thread has moved. */
  ghost predicate Back(s: State, e: State, id: Tid) {
    && PcOf(e, id).Idle? && (forall j :: j != id ==> PcOf(e, j) == PcOf(s, j))
    && e.capacity == s.capacity
  }

  // ---------------------------------------------------------------------------
  // Push
  // ---------------------------------------------------------------------------

  /** Nothing changed but the program counter of `id`. */
  ghost predicate Refused(s: State, e: State, id: Tid) {
    Back(s, e, id) && e == s.(pcs := e.pcs)
  }

  /** `x` is the newest item, and it lies committed in its cell. */
  ghost predicate Pushed(s: State, e: State, id: Tid, x: Pointer) {
    && Back(s, e, id)
    && Queue(e) == Queue(s) + [x] && e.pushed == s.pushed + [x] && e.pusher == s.pusher + [id]
    && CellAt(e, s.head) == Cell(s.head + 1, x)
    && e.tail == s.tail && e.popper == s.popper && e.results == s.results
  }

  /** The item of a claimed push lies in its cell; nothing else changed. */
  ghost predicate Committed(s: State, e: State, id: Tid, h: nat, x: Pointer) {
    Back(s, e, id) && CellAt(e, h) == Cell(h + 1, x) && e == s.(pcs := e.pcs, cells := e.cells)
  }

  lemma PushStores(s: State, id: Tid, n: nat)
    requires Inv(s) && PcOf(s, id).PushCommit? && n >= 1
    ensures Committed(s, Alone(s, id, n), id, PcOf(s, id).h, PcOf(s, id).x)
  {
    assert ThreadOk(s, id, PcOf(s, id));
    assert Alone(s, id, n) == Alone(Apply(s, id, PushStoreSeq), id, n - 1);
  }

  lemma PushWrites(s: State, id: Tid, n: nat)
    requires Inv(s) && PcOf(s, id).PushWrite? && n >= 2
    ensures Committed(s, Alone(s, id, n), id, PcOf(s, id).h, PcOf(s, id).x)
  {
    PushStoreDataKeeps(s, id);
    PushStores(Apply(s, id, PushStoreData), id, n - 1);
  }

  /** With its index current, the CAS succeeds. */
  lemma PushClaims(s: State, id: Tid, n: nat)
    requires Inv(s) && PcOf(s, id).PushCas? && PcOf(s, id).h == s.head && n >= 3
    ensures Pushed(s, Alone(s, id, n), id, PcOf(s, id).x)
  {
    PushCasKeeps(s, id, true);
    PushWrites(Apply(s, id, PushTryCas(true)), id, n - 1);
  }

  ghost predicate PushEnds(s: State, e: State, id: Tid, x: Pointer)
    requires Shape(s)
  {
    if Full(s) then Refused(s, e, id) else Pushed(s, e, id, x)
  }

  lemma PushLooks(s: State, id: Tid, n: nat)
    requires Inv(s) && PcOf(s, id).PushLoop? && PcOf(s, id).h == s.head && n >= 4
    ensures PushEnds(s, Alone(s, id, n), id, PcOf(s, id).x)
  {
    var s1 := Apply(s, id, PushLoadSeq);
    FullTruthful(s, id);
    PushLoadKeeps(s, id, PushLoadSeq);
    if !Full(s) {
      HeadIsReady(s);
      PushClaims(s1, id, n - 1);
    }
  }

  /** The cell of the head waits for its push, or still belongs to the lap before. */
  lemma HeadIsReady(s: State)
    requires Inv(s)
    ensures CellAt(s, s.head).sequence <= s.head
  {
    var h, n := s.head, s.capacity;
    var q := CellAt(s, h).sequence;
    assert CellOk(s, h % n);
    if Free(s, h % n) && h < q { DistinctSlots(h, q, n); }
  }

  /** Moving a thread that has no claim does not matter to how its push ends. */
  lemma PushSameEnd(s: State, id: Tid, pc: Pc, e: State, x: Pointer)
    requires Inv(s) && !Claims(PcOf(s, id)) && !Claims(pc)
    requires PushEnds(At(s, id, pc), e, id, x)
    ensures PushEnds(s, e, id, x)
  {
    var s1 := At(s, id, pc);
    assert forall i :: 0 <= i < |s.popper| ==> Reading(s1, i) == Reading(s, i);
    assert forall j :: j != id ==> PcOf(s1, j) == PcOf(s, j);
  }

  lemma PushReloads(s: State, id: Tid, n: nat)
    requires Inv(s) && PcOf(s, id).PushReload? && n >= 5
    ensures PushEnds(s, Alone(s, id, n), id, PcOf(s, id).x)
  {
    var x := PcOf(s, id).x;
    PushLoadKeeps(s, id, PushReloadHead);
    PushLooks(Apply(s, id, PushReloadHead), id, n - 1);
    PushSameEnd(s, id, PushLoop(x, s.head), Alone(s, id, n), x);
  }

  lemma PushTries(s: State, id: Tid, n: nat)
    requires Inv(s) && PcOf(s, id).PushCas? && n >= 5
    ensures PushEnds(s, Alone(s, id, n), id, PcOf(s, id).x)
  {
    var x := PcOf(s, id).x;
    assert ThreadOk(s, id, PcOf(s, id));
    if PcOf(s, id).h == s.head {
      if Full(s) { NotFreed(s); }
      PushClaims(s, id, n);
    } else {
      PushCasKeeps(s, id, true);
      PushLooks(Apply(s, id, PushTryCas(true)), id, n - 1);
      PushSameEnd(s, id, PushLoop(x, s.head), Alone(s, id, n), x);
    }
  }

  lemma PushLooksStale(s: State, id: Tid, n: nat)
    requires Inv(s) && PcOf(s, id).PushLoop? && PcOf(s, id).h != s.head && n >= 6
    ensures PushEnds(s, Alone(s, id, n), id, PcOf(s, id).x)
  {
    var x, s1 := PcOf(s, id).x, Apply(s, id, PushLoadSeq);
    FullTruthful(s, id);
    PushLoadKeeps(s, id, PushLoadSeq);
    if s1.pcs[id].PushCas? { PushTries(s1, id, n - 1); } else { PushReloads(s1, id, n - 1); }
    PushSameEnd(s, id, s1.pcs[id], Alone(s, id, n), x);
  }

  /** A push that is left alone ends within six steps: it answers full exactly when the ring is
      full, and otherwise its argument is the newest item. */
  lemma PushFinishes(s: State, id: Tid)
    requires Inv(s) && InPush(PcOf(s, id))
    ensures PushEnds(s, Alone(s, id, 6), id, PcOf(s, id).x)
  {
    var pc := PcOf(s, id);
    if pc.PushCas? { PushTries(s, id, 6); }
    else if pc.PushReload? { PushReloads(s, id, 6); }
    else if pc.h == s.head { PushLooks(s, id, 6); }
    else { PushLooksStale(s, id, 6); }
  }

  /** A push claimed by this thread is committed. */
  lemma PushCommits(s: State, id: Tid)
    requires Inv(s) && (PcOf(s, id).PushWrite? || PcOf(s, id).PushCommit?)
    ensures Committed(s, Alone(s, id, 2), id, PcOf(s, id).h, PcOf(s, id).x)
    ensures s.pushed[PcOf(s, id).h] == PcOf(s, id).x && s.pusher[PcOf(s, id).h] == id
  {
    assert ThreadOk(s, id, PcOf(s, id));
    if PcOf(s, id).PushWrite? { PushWrites(s, id, 2); } else { PushStores(s, id, 2); }
  }

  /** A whole push, undisturbed. */
  lemma PushAlone(s: State, id: Tid, x: Pointer)
    requires Inv(s) && PcOf(s, id).Idle?
    ensures PushEnds(s, Alone(Apply(s, id, PushBegin(x)), id, 4), id, x)
  {
    PushLoadKeeps(s, id, PushBegin(x));
    PushLooks(Apply(s, id, PushBegin(x)), id, 4);
    PushSameEnd(s, id, PushLoop(x, s.head), Alone(Apply(s, id, PushBegin(x)), id, 4), x);
  }

  // ---------------------------------------------------------------------------
  // Pop
  // ---------------------------------------------------------------------------

  /** The item of index `t` is handed out and its cell is free for the next lap; nothing else
      changed. */
  ghost predicate HandedOut(s: State, e: State, id: Tid, t: nat)
    requires t < |s.pushed|
  {
    && Back(s, e, id) && e.results == s.results + [Result(t, s.pushed[t])]
    && CellAt(e, t).sequence == t + s.capacity
    && e == s.(pcs := e.pcs, cells := e.cells, results := e.results)
  }

  lemma PopStores(s: State, id: Tid, n: nat)
    requires Inv(s) && PcOf(s, id).PopCommit? && PcOf(s, id).t < s.head && n >= 1
    ensures HandedOut(s, Alone(s, id, n), id, PcOf(s, id).t)
  {
    assert ThreadOk(s, id, PcOf(s, id));
    assert Alone(s, id, n) == Alone(Apply(s, id, PopStoreSeq), id, n - 1);
  }

  lemma PopReads(s: State, id: Tid, n: nat)
    requires Inv(s) && PcOf(s, id).PopRead? && PcOf(s, id).t < s.head && n >= 2
    ensures HandedOut(s, Alone(s, id, n), id, PcOf(s, id).t)
  {
    PopLoadDataKeeps(s, id);
    PopStores(Apply(s, id, PopLoadData), id, n - 1);
  }

  /** The oldest item is handed out and gone. */
  ghost predicate Popped(s: State, e: State, id: Tid) {
    && Back(s, e, id) && Queue(s) != []
    && Queue(e) == Queue(s)[1..] && e.results == s.results + [Result(s.tail, Queue(s)[0])]
    && e.popper == s.popper + [id] && CellAt(e, s.tail).sequence == s.tail + s.capacity
    && e.head == s.head && e.pushed == s.pushed && e.pusher == s.pusher
  }

  lemma PopClaims(s: State, id: Tid, n: nat)
    requires Inv(s) && PcOf(s, id).PopCas? && PcOf(s, id).t == s.tail && n >= 3
    ensures Popped(s, Alone(s, id, n), id)
  {
    assert ThreadOk(s, id, PcOf(s, id));
    HoldsPushed(s, s.tail);
    PopCasKeeps(s, id, true);
    PopReads(Apply(s, id, PopTryCas(true)), id, n - 1);
  }

  ghost predicate PopEnds(s: State, e: State, id: Tid)
    requires Shape(s)
  {
    if Empty(s) then Refused(s, e, id) else Popped(s, e, id)
  }

  lemma PopLooks(s: State, id: Tid, n: nat)
    requires Inv(s) && PcOf(s, id).PopLoop? && PcOf(s, id).t == s.tail && n >= 4
    ensures PopEnds(s, Alone(s, id, n), id)
  {
    EmptyTruthful(s, id);
    PopLoadKeeps(s, id, PopLoadSeq);
    if !Empty(s) {
      StoredOrWriting(s, s.tail);
      PopClaims(Apply(s, id, PopLoadSeq), id, n - 1);
    }
  }

  lemma PopSameEnd(s: State, id: Tid, pc: Pc, e: State)
    requires Inv(s) && !Claims(PcOf(s, id)) && !Claims(pc)
    requires PopEnds(At(s, id, pc), e, id)
    ensures PopEnds(s, e, id)
  {
    var s1 := At(s, id, pc);
    assert forall i :: 0 <= i < |s.pusher| ==> Writing(s1, i) == Writing(s, i);
    assert forall j :: j != id ==> PcOf(s1, j) == PcOf(s, j);
  }

  lemma PopReloads(s: State, id: Tid, n: nat)
    requires Inv(s) && PcOf(s, id).PopReload? && n >= 5
    ensures PopEnds(s, Alone(s, id, n), id)
  {
    PopLoadKeeps(s, id, PopReloadTail);
    PopLooks(Apply(s, id, PopReloadTail), id, n - 1);
    PopSameEnd(s, id, PopLoop(s.tail), Alone(s, id, n));
  }

  lemma PopTries(s: State, id: Tid, n: nat)
    requires Inv(s) && PcOf(s, id).PopCas? && n >= 5
    ensures PopEnds(s, Alone(s, id, n), id)
  {
    assert ThreadOk(s, id, PcOf(s, id));
    if PcOf(s, id).t == s.tail {
      if Empty(s) { NotFilled(s); }
      PopClaims(s, id, n);
    } else {
      PopCasKeeps(s, id, true);
      PopLooks(Apply(s, id, PopTryCas(true)), id, n - 1);
      PopSameEnd(s, id, PopLoop(s.tail), Alone(s, id, n));
    }
  }

  lemma PopLooksStale(s: State, id: Tid, n: nat)
    requires Inv(s) && PcOf(s, id).PopLoop? && PcOf(s, id).t != s.tail && n >= 6
    ensures PopEnds(s, Alone(s, id, n), id)
  {
    var s1 := Apply(s, id, PopLoadSeq);
    EmptyTruthful(s, id);
    PopLoadKeeps(s, id, PopLoadSeq);
    if s1.pcs[id].PopCas? { PopTries(s1, id, n - 1); } else { PopReloads(s1, id, n - 1); }
    PopSameEnd(s, id, s1.pcs[id], Alone(s, id, n));
  }

  /** A pop that is left alone ends within six steps: it answers empty exactly when the ring is
      empty, and otherwise hands out the oldest item. */
  lemma PopFinishes(s: State, id: Tid)
    requires Inv(s) && InPop(PcOf(s, id))
    ensures PopEnds(s, Alone(s, id, 6), id)
  {
    var pc := PcOf(s, id);
    if pc.PopCas? { PopTries(s, id, 6); }
    else if pc.PopReload? { PopReloads(s, id, 6); }
    else if pc.t == s.tail { PopLooks(s, id, 6); }
    else { PopLooksStale(s, id, 6); }
  }

  /** A pop claimed by this thread hands out its item. */
  lemma PopCommits(s: State, id: Tid)
    requires Inv(s) && (PcOf(s, id).PopRead? || PcOf(s, id).PopCommit?)
    ensures PcOf(s, id).t < s.head && s.popper[PcOf(s, id).t] == id
    ensures HandedOut(s, Alone(s, id, 2), id, PcOf(s, id).t)
  {
    assert ThreadOk(s, id, PcOf(s, id));
    if PcOf(s, id).PopRead? { PopReads(s, id, 2); } else { PopStores(s, id, 2); }
  }

  /** A whole pop, undisturbed. */
  lemma PopAlone(s: State, id: Tid)
    requires Inv(s) && PcOf(s, id).Idle?
    ensures PopEnds(s, Alone(Apply(s, id, PopBegin), id, 4), id)
  {
    PopLoadKeeps(s, id, PopBegin);
    PopLooks(Apply(s, id, PopBegin), id, 4);
    PopSameEnd(s, id, PopLoop(s.tail), Alone(Apply(s, id, PopBegin), id, 4));
  }
}
