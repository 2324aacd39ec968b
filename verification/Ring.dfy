/** The bounded multi-producer multi-consumer ring.  Each cell carries a sequence number
    that separates claiming a slot (a CAS on `head` or `tail`) from committing it (the store
    of the next sequence number).

    The model is a state machine with one step per access to shared memory, any number of
    threads, stale local copies of `head` and `tail`, and weak CAS that may fail for no
    reason. */
module Ring {
  import opened Bits

  type Pointer = int
  const NULL: Pointer := 0
  type Tid = nat

  datatype Cell = Cell(sequence: nat, data: Pointer)

  /** Where a thread stands inside push or pop, with its locals. */
  datatype Pc =
    | Idle
    | PushLoop(x: Pointer, h: nat)
    | PushReload(x: Pointer)
    | PushCas(x: Pointer, h: nat)
    | PushWrite(x: Pointer, h: nat)
    | PushCommit(x: Pointer, h: nat)
    | PopLoop(t: nat)
    | PopReload
    | PopCas(t: nat)
    | PopRead(t: nat)
    | PopCommit(t: nat, y: Pointer)

  /** A completed pop: the index it claimed and what it handed out. */
  datatype Result = Result(t: nat, data: Pointer)

  /** Shared memory, thread locals and history.  History: `pushed[i]` and `pusher[i]` are the
      item and the thread of the push that claimed index `i`, `popper[i]` the thread of the
      pop that claimed it, `results` the completed pops.  No step reads them to decide. */
  datatype State = State(
    capacity: nat,
    head: nat,
    tail: nat,
    cells: seq<Cell>,
    pcs: map<Tid, Pc>,
    pushed: seq<Pointer>,
    pusher: seq<Tid>,
    popper: seq<Tid>,
    results: seq<Result>)

  /** `works` says whether a weak CAS that could succeed does. */
  datatype Step =
    | PushBegin(x: Pointer)
    | PushLoadSeq
    | PushReloadHead
    | PushTryCas(works: bool)
    | PushStoreData
    | PushStoreSeq
    | PopBegin
    | PopLoadSeq
    | PopReloadTail
    | PopTryCas(works: bool)
    | PopLoadData
    | PopStoreSeq

  function PcOf(s: State, id: Tid): Pc {
    if id in s.pcs then s.pcs[id] else Idle
  }

  /** `cells[i & mask]`. */
  function CellAt(s: State, i: nat): Cell {
    if 0 < s.capacity == |s.cells| then s.cells[i % s.capacity] else Cell(0, NULL)
  }

  function WithCell(s: State, i: nat, c: Cell): seq<Cell> {
    if 0 < s.capacity == |s.cells| then s.cells[i % s.capacity := c] else s.cells
  }

  function At(s: State, id: Tid, pc: Pc): State {
    s.(pcs := s.pcs[id := pc])
  }

  predicate Enabled(s: State, id: Tid, st: Step) {
    var pc := PcOf(s, id);
    match st
    case PushBegin(_) => pc.Idle?
    case PushLoadSeq => pc.PushLoop?
    case PushReloadHead => pc.PushReload?
    case PushTryCas(_) => pc.PushCas?
    case PushStoreData => pc.PushWrite?
    case PushStoreSeq => pc.PushCommit?
    case PopBegin => pc.Idle?
    case PopLoadSeq => pc.PopLoop?
    case PopReloadTail => pc.PopReload?
    case PopTryCas(_) => pc.PopCas?
    case PopLoadData => pc.PopRead?
    case PopStoreSeq => pc.PopCommit?
  }

  /** One atomic step of thread `id`. */
  function Apply(s: State, id: Tid, st: Step): State
    requires Enabled(s, id, st)
  {
    var pc := PcOf(s, id);
    match st
    case PushBegin(x) => At(s, id, PushLoop(x, s.head))
    case PushLoadSeq =>
      var q := CellAt(s, pc.h).sequence;
      At(s, id, if q == pc.h then PushCas(pc.x, pc.h)
                else if q < pc.h then Idle           // full
                else PushReload(pc.x))
    case PushReloadHead => At(s, id, PushLoop(pc.x, s.head))
    case PushTryCas(works) =>
      if works && s.head == pc.h
      then At(s, id, PushWrite(pc.x, pc.h)).(
             head := s.head + 1, pushed := s.pushed + [pc.x], pusher := s.pusher + [id])
      else At(s, id, PushLoop(pc.x, s.head))
    case PushStoreData =>
      At(s, id, PushCommit(pc.x, pc.h)).(
        cells := WithCell(s, pc.h, CellAt(s, pc.h).(data := pc.x)))
    case PushStoreSeq =>
      At(s, id, Idle).(cells := WithCell(s, pc.h, CellAt(s, pc.h).(sequence := pc.h + 1)))
    case PopBegin => At(s, id, PopLoop(s.tail))
    case PopLoadSeq =>
      var q := CellAt(s, pc.t).sequence;
      At(s, id, if q == pc.t + 1 then PopCas(pc.t)
                else if q < pc.t + 1 then Idle       // empty
                else PopReload)
    case PopReloadTail => At(s, id, PopLoop(s.tail))
    case PopTryCas(works) =>
      if works && s.tail == pc.t
      then At(s, id, PopRead(pc.t)).(tail := s.tail + 1, popper := s.popper + [id])
      else At(s, id, PopLoop(s.tail))
    case PopLoadData =>
      At(s, id, PopCommit(pc.t, CellAt(s, pc.t).data))
    case PopStoreSeq =>
      At(s, id, Idle).(
        cells := WithCell(s, pc.t, CellAt(s, pc.t).(sequence := pc.t + s.capacity)),
        results := s.results + [Result(pc.t, pc.y)])
  }

  // ---------------------------------------------------------------------------
  // Invariant
  // ---------------------------------------------------------------------------

  ghost predicate Shape(s: State) {
    && 2 <= s.capacity == |s.cells|
    && s.tail <= s.head <= s.tail + s.capacity
    && |s.pushed| == |s.pusher| == s.head && |s.popper| == s.tail
  }

  /** Cell `k` waits for the push of index `sequence`; otherwise it holds the item of index
      `sequence - 1`. */
  predicate Free(s: State, k: nat)
    requires k < |s.cells| == s.capacity
  {
    s.cells[k].sequence % s.capacity == k
  }

  ghost predicate CellOk(s: State, k: nat)
    requires Shape(s) && k < s.capacity
  {
    var q := s.cells[k].sequence;
    if Free(s, k) then
      && s.tail <= q < s.tail + s.capacity && s.head <= q + s.capacity
      && (q < s.head ==> Writing(s, q))
    else
      && 1 <= q <= s.head && (q - 1) % s.capacity == k
      && s.head < q + s.capacity && q <= s.tail + s.capacity
      && s.cells[k].data == s.pushed[q - 1]
      && (q <= s.tail ==> Reading(s, q - 1))
  }

  /** The push that claimed index `i` has not committed. */
  ghost predicate Writing(s: State, i: nat)
    requires i < |s.pusher|
  {
    var pc := PcOf(s, s.pusher[i]);
    (pc.PushWrite? || pc.PushCommit?) && pc.h == i
  }

  /** The pop that claimed index `i` has not committed. */
  ghost predicate Reading(s: State, i: nat)
    requires i < |s.popper|
  {
    var pc := PcOf(s, s.popper[i]);
    (pc.PopRead? || pc.PopCommit?) && pc.t == i
  }

  ghost predicate CellsOk(s: State)
    requires Shape(s)
  {
    forall k :: 0 <= k < s.capacity ==> CellOk(s, k)
  }

  ghost predicate ThreadOk(s: State, id: Tid, pc: Pc)
    requires Shape(s)
  {
    match pc
    case Idle => true
    case PushLoop(_, h) => h <= s.head
    case PushReload(_) => true
    case PushCas(_, h) => h <= s.head && (h == s.head ==> CellAt(s, h).sequence == h)
    case PushWrite(x, h) =>
      h < s.head && CellAt(s, h).sequence == h && s.pusher[h] == id && s.pushed[h] == x
    case PushCommit(x, h) =>
      && h < s.head && CellAt(s, h) == Cell(h, x)
      && s.pusher[h] == id && s.pushed[h] == x
    case PopLoop(t) => t <= s.tail
    case PopReload => true
    case PopCas(t) => t <= s.tail && (t == s.tail ==> CellAt(s, t).sequence == t + 1)
    case PopRead(t) => t < s.tail && CellAt(s, t).sequence == t + 1 && s.popper[t] == id
    case PopCommit(t, y) =>
      && t < s.tail && CellAt(s, t).sequence == t + 1 && s.popper[t] == id && y == s.pushed[t]
  }

  ghost predicate ThreadsOk(s: State)
    requires Shape(s)
  {
    forall id :: id in s.pcs ==> ThreadOk(s, id, s.pcs[id])
  }

  ghost predicate Inv(s: State) {
    Shape(s) && CellsOk(s) && ThreadsOk(s)
  }

  predicate Claims(pc: Pc) {
    pc.PushWrite? || pc.PushCommit? || pc.PopRead? || pc.PopCommit?
  }

  /** A step that only moves a thread without a claim. */
  lemma LocalKeeps(s: State, id: Tid, pc: Pc)
    requires Inv(s) && ThreadOk(s, id, pc) && !Claims(PcOf(s, id))
    ensures Inv(At(s, id, pc))
  {
    var s' := At(s, id, pc);
    forall k | 0 <= k < s.capacity ensures CellOk(s', k) { assert CellOk(s, k); }
    forall j | j in s'.pcs ensures ThreadOk(s', j, s'.pcs[j]) {
      if j != id { assert ThreadOk(s, j, s.pcs[j]); }
    }
  }

  lemma PushLoadKeeps(s: State, id: Tid, st: Step)
    requires Inv(s) && Enabled(s, id, st)
    requires st.PushBegin? || st.PushReloadHead? || st.PushLoadSeq?
    ensures Inv(Apply(s, id, st))
  {
    assert ThreadOk(s, id, PcOf(s, id));
    LocalKeeps(s, id, Apply(s, id, st).pcs[id]);
  }

  lemma PopLoadKeeps(s: State, id: Tid, st: Step)
    requires Inv(s) && Enabled(s, id, st)
    requires st.PopBegin? || st.PopReloadTail? || st.PopLoadSeq?
    ensures Inv(Apply(s, id, st))
  {
    assert ThreadOk(s, id, PcOf(s, id));
    LocalKeeps(s, id, Apply(s, id, st).pcs[id]);
  }

  lemma PopLoadDataKeeps(s: State, id: Tid)
    requires Inv(s) && Enabled(s, id, PopLoadData)
    ensures Inv(Apply(s, id, PopLoadData))
  {
    var s' := Apply(s, id, PopLoadData);
    assert ThreadOk(s, id, PcOf(s, id));
    HoldsPushed(s, PcOf(s, id).t);
    forall k | 0 <= k < s.capacity ensures CellOk(s', k) { assert CellOk(s, k); }
    forall j | j in s'.pcs ensures ThreadOk(s', j, s'.pcs[j]) {
      if j != id { assert ThreadOk(s, j, s.pcs[j]); }
    }
  }

  /** A cell that shows `t + 1` holds the item of the push that claimed `t`. */
  lemma HoldsPushed(s: State, t: nat)
    requires Inv(s) && CellAt(s, t).sequence == t + 1
    ensures t < s.head && !Free(s, t % s.capacity) && CellAt(s, t).data == s.pushed[t]
  {
    DistinctSlots(t, t + 1, s.capacity);
    assert CellOk(s, t % s.capacity);
  }

  lemma PushCasKeeps(s: State, id: Tid, works: bool)
    requires Inv(s) && Enabled(s, id, PushTryCas(works))
    ensures Inv(Apply(s, id, PushTryCas(works)))
  {
    var s' := Apply(s, id, PushTryCas(works));
    var h := PcOf(s, id).h;
    assert ThreadOk(s, id, PcOf(s, id)) && CellOk(s, h % s.capacity);
    forall k | 0 <= k < s.capacity ensures CellOk(s', k) {
      assert CellOk(s, k);
      WrapOnce(s.cells[k].sequence, s.capacity);
      WrapOnce(s.cells[k].sequence - 1, s.capacity);
    }
    assert forall j :: j in s.pcs ==> ThreadOk(s, j, s.pcs[j]);
  }

  lemma PopCasKeeps(s: State, id: Tid, works: bool)
    requires Inv(s) && Enabled(s, id, PopTryCas(works))
    ensures Inv(Apply(s, id, PopTryCas(works)))
  {
    var s' := Apply(s, id, PopTryCas(works));
    var t := PcOf(s, id).t;
    assert ThreadOk(s, id, PcOf(s, id));
    if works && s.tail == t { HoldsPushed(s, t); }
    forall k | 0 <= k < s.capacity ensures CellOk(s', k) {
      assert CellOk(s, k);
    }
    assert forall j :: j in s.pcs ==> ThreadOk(s, j, s.pcs[j]);
  }

  /** Nobody else has a claim on the cell of an uncommitted push. */
  lemma PushOwnsCell(s: State, id: Tid, j: Tid)
    requires Inv(s) && id in s.pcs && j in s.pcs && j != id
    requires s.pcs[id].PushWrite? || s.pcs[id].PushCommit?
    ensures var h, n, pc := s.pcs[id].h, s.capacity, s.pcs[j];
      && (pc.PushWrite? || pc.PushCommit? ==> pc.h % n != h % n)
      && (pc.PopRead? || pc.PopCommit? ==> pc.t % n != h % n)
      && (pc.PushCas? && pc.h == s.head ==> pc.h % n != h % n)
      && (pc.PopCas? && pc.t == s.tail ==> pc.t % n != h % n)
  {
    var h, n, pc := s.pcs[id].h, s.capacity, s.pcs[j];
    assert ThreadOk(s, id, s.pcs[id]) && ThreadOk(s, j, pc);
    if pc.PopRead? || pc.PopCommit? || pc.PopCas? { DistinctSlots(pc.t, pc.t + 1, n); }
  }

  /** Nobody else has a claim on the cell of an uncommitted pop. */
  lemma PopOwnsCell(s: State, id: Tid, j: Tid)
    requires Inv(s) && id in s.pcs && j in s.pcs && j != id
    requires s.pcs[id].PopRead? || s.pcs[id].PopCommit?
    ensures var t, n, pc := s.pcs[id].t, s.capacity, s.pcs[j];
      && (pc.PushWrite? || pc.PushCommit? ==> pc.h % n != t % n)
      && (pc.PopRead? || pc.PopCommit? ==> pc.t % n != t % n)
      && (pc.PushCas? && pc.h == s.head ==> pc.h % n != t % n)
      && (pc.PopCas? && pc.t == s.tail ==> pc.t % n != t % n)
  {
    var t, n, pc := s.pcs[id].t, s.capacity, s.pcs[j];
    assert ThreadOk(s, id, s.pcs[id]) && ThreadOk(s, j, pc);
    DistinctSlots(t, t + 1, n);
  }

  /** A claimed cell is not overwritten before its claimant commits: no step of another thread
      changes it. */
  lemma ClaimedCellStable(s: State, id: Tid, j: Tid, st: Step)
    requires Inv(s) && j != id && Enabled(s, j, st)
    requires var pc := PcOf(s, id); pc.PushWrite? || pc.PushCommit? || pc.PopRead? || pc.PopCommit?
    ensures var pc := PcOf(s, id);
      var i := if pc.PushWrite? || pc.PushCommit? then pc.h else pc.t;
      CellAt(Apply(s, j, st), i) == CellAt(s, i)
  {
    if j in s.pcs {
      if PcOf(s, id).PushWrite? || PcOf(s, id).PushCommit? { PushOwnsCell(s, id, j); }
      else { PopOwnsCell(s, id, j); }
    }
  }

  lemma PushStoreDataCells(s: State, id: Tid)
    requires Inv(s) && Enabled(s, id, PushStoreData)
    ensures Shape(Apply(s, id, PushStoreData)) && CellsOk(Apply(s, id, PushStoreData))
  {
    var s' := Apply(s, id, PushStoreData);
    assert ThreadOk(s, id, PcOf(s, id));
    forall k | 0 <= k < s.capacity ensures CellOk(s', k) { assert CellOk(s, k); }
  }

  lemma PushStoreDataKeeps(s: State, id: Tid)
    requires Inv(s) && Enabled(s, id, PushStoreData)
    ensures Inv(Apply(s, id, PushStoreData))
  {
    var s' := Apply(s, id, PushStoreData);
    PushStoreDataCells(s, id);
    assert ThreadOk(s, id, PcOf(s, id));
    forall j | j in s'.pcs ensures ThreadOk(s', j, s'.pcs[j]) {
      if j != id {
        assert ThreadOk(s, j, s.pcs[j]);
        PushOwnsCell(s, id, j);
      }
    }
  }

  lemma PushStoreSeqCells(s: State, id: Tid)
    requires Inv(s) && Enabled(s, id, PushStoreSeq)
    ensures Shape(Apply(s, id, PushStoreSeq)) && CellsOk(Apply(s, id, PushStoreSeq))
  {
    var s', h := Apply(s, id, PushStoreSeq), PcOf(s, id).h;
    assert ThreadOk(s, id, PcOf(s, id));
    DistinctSlots(h, h + 1, s.capacity);
    forall k | 0 <= k < s.capacity ensures CellOk(s', k) {
      assert CellOk(s, k);
      if k != h % s.capacity { assert s'.cells[k] == s.cells[k]; }
      else { assert s'.cells[k] == Cell(h + 1, s.pushed[h]) && !Free(s', k); }
    }
  }

  lemma PushStoreSeqKeeps(s: State, id: Tid)
    requires Inv(s) && Enabled(s, id, PushStoreSeq)
    ensures Inv(Apply(s, id, PushStoreSeq))
  {
    var s' := Apply(s, id, PushStoreSeq);
    PushStoreSeqCells(s, id);
    assert ThreadOk(s, id, PcOf(s, id));
    forall j | j in s'.pcs ensures ThreadOk(s', j, s'.pcs[j]) {
      if j != id {
        assert ThreadOk(s, j, s.pcs[j]);
        PushOwnsCell(s, id, j);
      }
    }
  }

  lemma PopStoreCells(s: State, id: Tid)
    requires Inv(s) && Enabled(s, id, PopStoreSeq)
    ensures Shape(Apply(s, id, PopStoreSeq)) && CellsOk(Apply(s, id, PopStoreSeq))
  {
    var s' := Apply(s, id, PopStoreSeq);
    assert ThreadOk(s, id, PcOf(s, id));
    HoldsPushed(s, PcOf(s, id).t);
    WrapOnce(PcOf(s, id).t, s.capacity);
    forall k | 0 <= k < s.capacity ensures CellOk(s', k) { assert CellOk(s, k); }
  }

  lemma PopStoreKeeps(s: State, id: Tid)
    requires Inv(s) && Enabled(s, id, PopStoreSeq)
    ensures Inv(Apply(s, id, PopStoreSeq))
  {
    var s' := Apply(s, id, PopStoreSeq);
    PopStoreCells(s, id);
    assert ThreadOk(s, id, PcOf(s, id));
    forall j | j in s'.pcs ensures ThreadOk(s', j, s'.pcs[j]) {
      if j != id {
        assert ThreadOk(s, j, s.pcs[j]);
        PopOwnsCell(s, id, j);
      }
    }
  }

  lemma InvKept(s: State, id: Tid, st: Step)
    requires Inv(s) && Enabled(s, id, st)
    ensures Inv(Apply(s, id, st))
  {
    match st
    case PushBegin(_) => PushLoadKeeps(s, id, st);
    case PushLoadSeq => PushLoadKeeps(s, id, st);
    case PushReloadHead => PushLoadKeeps(s, id, st);
    case PushTryCas(works) => PushCasKeeps(s, id, works);
    case PushStoreData => PushStoreDataKeeps(s, id);
    case PushStoreSeq => PushStoreSeqKeeps(s, id);
    case PopBegin => PopLoadKeeps(s, id, st);
    case PopLoadSeq => PopLoadKeeps(s, id, st);
    case PopReloadTail => PopLoadKeeps(s, id, st);
    case PopTryCas(works) => PopCasKeeps(s, id, works);
    case PopLoadData => PopLoadDataKeeps(s, id);
    case PopStoreSeq => PopStoreKeeps(s, id);
  }

  // ---------------------------------------------------------------------------
  // Results
  // ---------------------------------------------------------------------------

  /** Every result is the item of the push that claimed the same index, once per index; the
      cell of a returned index has moved on. */
  ghost predicate ResultsOk(s: State)
    requires Shape(s)
  {
    && (forall k :: 0 <= k < |s.results| ==>
          && s.results[k].t < s.tail && s.results[k].data == s.pushed[s.results[k].t]
          && CellAt(s, s.results[k].t).sequence > s.results[k].t + 1)
    && (forall j, k :: 0 <= j < k < |s.results| ==> s.results[j].t != s.results[k].t)
  }

  /** The sequence number of a cell never falls. */
  lemma SequencesGrow(s: State, id: Tid, st: Step, i: nat)
    requires Inv(s) && Enabled(s, id, st)
    ensures CellAt(s, i).sequence <= CellAt(Apply(s, id, st), i).sequence
  {
    assert ThreadOk(s, id, PcOf(s, id));
  }

  lemma ResultsKept(s: State, id: Tid, st: Step)
    requires Inv(s) && ResultsOk(s) && Enabled(s, id, st) && Shape(Apply(s, id, st))
    ensures ResultsOk(Apply(s, id, st))
  {
    var s' := Apply(s, id, st);
    assert ThreadOk(s, id, PcOf(s, id));
    forall k | 0 <= k < |s.results|
      ensures CellAt(s', s.results[k].t).sequence > s.results[k].t + 1
    {
      SequencesGrow(s, id, st, s.results[k].t);
    }
  }

  /** Some completed pop has handed out index `i`. */
  ghost predicate Returned(s: State, i: nat) {
    exists k :: 0 <= k < |s.results| && s.results[k].t == i
  }

  /** An index that was claimed by a pop is still with it or has been handed out. */
  ghost predicate Delivered(s: State)
    requires Shape(s)
  {
    forall i :: 0 <= i < s.tail ==> Reading(s, i) || Returned(s, i)
  }

  lemma DeliveredOne(s: State, id: Tid, st: Step, i: nat)
    requires Inv(s) && Delivered(s) && Enabled(s, id, st) && Shape(Apply(s, id, st))
    requires i < Apply(s, id, st).tail
    ensures Reading(Apply(s, id, st), i) || Returned(Apply(s, id, st), i)
  {
    var s' := Apply(s, id, st);
    assert ThreadOk(s, id, PcOf(s, id));
    if i < s.tail {
      assert s'.popper[i] == s.popper[i];
      if Returned(s, i) {
        var k :| 0 <= k < |s.results| && s.results[k].t == i;
        assert s'.results[k].t == i;
      } else if st.PopStoreSeq? && s.popper[i] == id {
        assert s'.results[|s.results|].t == i;
      }
    }
  }

  lemma DeliveredKept(s: State, id: Tid, st: Step)
    requires Inv(s) && Delivered(s) && Enabled(s, id, st) && Shape(Apply(s, id, st))
    ensures Delivered(Apply(s, id, st))
  {
    forall i | 0 <= i < Apply(s, id, st).tail
      ensures Reading(Apply(s, id, st), i) || Returned(Apply(s, id, st), i)
    {
      DeliveredOne(s, id, st, i);
    }
  }

  /** An index claimed by a push and by no pop is still being written or lies in its cell. */
  lemma StoredOrWriting(s: State, i: nat)
    requires Inv(s) && s.tail <= i < s.head
    ensures Writing(s, i) || CellAt(s, i) == Cell(i + 1, s.pushed[i])
  {
    var n, k := s.capacity, i % s.capacity;
    var q: int := s.cells[k].sequence;
    assert CellOk(s, k);
    var j := if Free(s, k) then q else q - 1;
    if j < i { DistinctSlots(j, i, n); } else if i < j { DistinctSlots(i, j, n); }
  }

  // ---------------------------------------------------------------------------
  // Refinement of a queue
  // ---------------------------------------------------------------------------

  /** The items claimed by a push and not yet by a pop, oldest first. */
  function Queue(s: State): seq<Pointer> {
    if s.tail <= s.head <= |s.pushed| then s.pushed[s.tail..s.head] else []
  }

  datatype QueueOp = Nothing | Enqueue(x: Pointer) | Dequeue(x: Pointer)

  predicate Allowed(q: seq<Pointer>, op: QueueOp) {
    op.Dequeue? ==> q != [] && q[0] == op.x
  }

  function After(q: seq<Pointer>, op: QueueOp): seq<Pointer>
    requires Allowed(q, op)
  {
    match op
    case Nothing => q
    case Enqueue(x) => q + [x]
    case Dequeue(_) => q[1..]
  }

  /** An operation takes effect at its successful CAS; a pop's answer is what the cell holds. */
  function Effect(s: State, id: Tid, st: Step): QueueOp
    requires Enabled(s, id, st)
  {
    var pc := PcOf(s, id);
    match st
    case PushTryCas(works) => if works && s.head == pc.h then Enqueue(pc.x) else Nothing
    case PopTryCas(works) => if works && s.tail == pc.t then Dequeue(CellAt(s, pc.t).data) else Nothing
    case _ => Nothing
  }

  lemma StepRefines(s: State, id: Tid, st: Step)
    requires Inv(s) && Enabled(s, id, st)
    ensures Allowed(Queue(s), Effect(s, id, st))
    ensures Queue(Apply(s, id, st)) == After(Queue(s), Effect(s, id, st))
  {
    assert ThreadOk(s, id, PcOf(s, id));
    if Effect(s, id, st).Dequeue? { HoldsPushed(s, PcOf(s, id).t); }
    if Effect(s, id, st).Enqueue? { assert CellOk(s, PcOf(s, id).h % s.capacity); }
  }

  // ---------------------------------------------------------------------------
  // Refusals
  // ---------------------------------------------------------------------------

  /** The item of index `head - capacity` has not left its cell: the ring holds `capacity` items,
      or the pop that claimed that index has not committed. */
  ghost predicate Full(s: State)
    requires Shape(s)
  {
    s.capacity <= s.head && (s.head == s.tail + s.capacity || Reading(s, s.head - s.capacity))
  }

  /** The push of index `tail` was not claimed or has not committed. */
  ghost predicate Empty(s: State)
    requires Shape(s)
  {
    s.tail == s.head || Writing(s, s.tail)
  }

  /** Push reports full exactly when its local head is the real one and the ring is full. */
  lemma FullTruthful(s: State, id: Tid)
    requires Inv(s) && Enabled(s, id, PushLoadSeq)
    ensures Apply(s, id, PushLoadSeq).pcs[id].Idle? <==> PcOf(s, id).h == s.head && Full(s)
  {
    var h, n := PcOf(s, id).h, s.capacity;
    assert ThreadOk(s, id, PcOf(s, id)) && CellOk(s, h % n);
    var q := CellAt(s, h).sequence;
    if q < h { LapApart(if Free(s, h % n) then q else q - 1, h, n); }
    if h == s.head && Full(s) { NotFreed(s); }
  }

  /** The cell of a full ring's head still belongs to the lap before. */
  lemma NotFreed(s: State)
    requires Inv(s) && Full(s)
    ensures CellAt(s, s.head).sequence < s.head
  {
    var i, n := s.head - s.capacity, s.capacity;
    WrapOnce(i, n);
    if i < s.tail { assert ThreadOk(s, s.popper[i], PcOf(s, s.popper[i])); }
    else {
      StoredOrWriting(s, i);
      if Writing(s, i) { WritingCell(s, i); }
    }
  }

  lemma WritingCell(s: State, i: nat)
    requires Inv(s) && i < s.head && Writing(s, i)
    ensures CellAt(s, i).sequence == i
  {
    assert ThreadOk(s, s.pusher[i], PcOf(s, s.pusher[i]));
  }

  /** Pop reports empty exactly when its local tail is the real one and the push of that index was
      not claimed or not committed. */
  lemma EmptyTruthful(s: State, id: Tid)
    requires Inv(s) && Enabled(s, id, PopLoadSeq)
    ensures Apply(s, id, PopLoadSeq).pcs[id].Idle? <==> PcOf(s, id).t == s.tail && Empty(s)
  {
    var t, n := PcOf(s, id).t, s.capacity;
    assert ThreadOk(s, id, PcOf(s, id)) && CellOk(s, t % n);
    if CellAt(s, t).sequence < t + 1 && !Free(s, t % n) { LapApart(CellAt(s, t).sequence - 1, t, n); }
    if t == s.tail && Empty(s) { NotFilled(s); }
  }

  /** The cell of an empty ring's tail has not been filled in this lap. */
  lemma NotFilled(s: State)
    requires Inv(s) && Empty(s)
    ensures CellAt(s, s.tail).sequence < s.tail + 1
  {
    var t, n := s.tail, s.capacity;
    var q := CellAt(s, t).sequence;
    if t < s.head {
      WritingCell(s, t);
    } else {
      assert CellOk(s, t % n);
      if Free(s, t % n) && t < q { DistinctSlots(t, q, n); }
    }
  }

  // ---------------------------------------------------------------------------
  // Whole runs
  // ---------------------------------------------------------------------------

  /** `nkit_ring_create`: slot `i` starts with sequence `i`. */
  function Init(capacity: nat): State {
    State(capacity, 0, 0, seq(capacity, (i: nat) => Cell(i, NULL)), map[], [], [], [], [])
  }

  lemma InvInitially(capacity: nat)
    requires capacity >= 2
    ensures Inv(Init(capacity)) && ResultsOk(Init(capacity)) && Delivered(Init(capacity))
  {
    var s := Init(capacity);
    forall k | 0 <= k < capacity ensures CellOk(s, k) {
      ModuloUnique(k, capacity, 0, k);
    }
  }

  datatype Move = Move(id: Tid, st: Step)

  ghost predicate Legal(s: State, moves: seq<Move>)
    decreases |moves|
  {
    moves == [] ||
    (Enabled(s, moves[0].id, moves[0].st) && Legal(Apply(s, moves[0].id, moves[0].st), moves[1..]))
  }

  ghost function Exec(s: State, moves: seq<Move>): State
    requires Legal(s, moves)
    decreases |moves|
  {
    if moves == [] then s else Exec(Apply(s, moves[0].id, moves[0].st), moves[1..])
  }

  lemma Prepend(s: State, id: Tid, st: Step, rest: seq<Move>)
    requires Enabled(s, id, st) && Legal(Apply(s, id, st), rest)
    ensures Legal(s, [Move(id, st)] + rest)
    ensures Exec(s, [Move(id, st)] + rest) == Exec(Apply(s, id, st), rest)
  {
    assert ([Move(id, st)] + rest)[1..] == rest;
  }

  lemma {:induction false} InvAlways(s: State, moves: seq<Move>)
    requires Inv(s) && ResultsOk(s) && Delivered(s) && Legal(s, moves)
    ensures Inv(Exec(s, moves)) && ResultsOk(Exec(s, moves)) && Delivered(Exec(s, moves))
    decreases |moves|
  {
    if moves != [] {
      InvKept(s, moves[0].id, moves[0].st);
      ResultsKept(s, moves[0].id, moves[0].st);
      DeliveredKept(s, moves[0].id, moves[0].st);
      InvAlways(Apply(s, moves[0].id, moves[0].st), moves[1..]);
    }
  }

  /** The arguments of the pushes that claimed an index, in the order of their claims: `args` is
      what each thread last called push with. */
  ghost function ClaimedArgs(s: State, moves: seq<Move>, args: map<Tid, Pointer>): seq<Pointer>
    requires Legal(s, moves)
    decreases |moves|
  {
    if moves == [] then []
    else
      var id, st := moves[0].id, moves[0].st;
      var s' := Apply(s, id, st);
      (if s.head < s'.head && id in args then [args[id]] else []) +
      ClaimedArgs(s', moves[1..], Called(args, id, st))
  }

  function Called(args: map<Tid, Pointer>, id: Tid, st: Step): map<Tid, Pointer> {
    if st.PushBegin? then args[id := st.x] else args
  }

  /** A thread inside push still has the item it was called with. */
  ghost predicate Carries(s: State, args: map<Tid, Pointer>) {
    forall id :: id in s.pcs && HasItem(s.pcs[id]) ==> id in args && args[id] == s.pcs[id].x
  }

  predicate HasItem(pc: Pc) {
    pc.PushLoop? || pc.PushReload? || pc.PushCas? || pc.PushWrite? || pc.PushCommit?
  }

  lemma CarriesKept(s: State, id: Tid, st: Step, args: map<Tid, Pointer>)
    requires Carries(s, args) && Enabled(s, id, st)
    ensures var s' := Apply(s, id, st);
      && Carries(s', Called(args, id, st))
      && s'.pushed == s.pushed + if s.head < s'.head && id in args then [args[id]] else []
  {}

  /** What the ring takes in is what the callers pushed. */
  lemma {:induction false} PushedAreArguments(s: State, moves: seq<Move>, args: map<Tid, Pointer>)
    requires Carries(s, args) && Legal(s, moves)
    ensures Exec(s, moves).pushed == s.pushed + ClaimedArgs(s, moves, args)
    decreases |moves|
  {
    if moves != [] {
      var id, st := moves[0].id, moves[0].st;
      CarriesKept(s, id, st, args);
      PushedAreArguments(Apply(s, id, st), moves[1..], Called(args, id, st));
    }
  }

  /** In every run what the ring took in are the arguments of the pushes in the order of their
      claims, the pop that claims index `t` hands out the item of the push that claimed
      `t`, no index is handed out twice, and the ring never holds more than its capacity.  And
      nothing is lost: an index below `tail` has been handed out or its pop is still reading, one
      from `tail` to `head` lies in its cell or its push is still writing. */
  lemma NoLossNoDuplication(capacity: nat, moves: seq<Move>)
    requires capacity >= 2 && Legal(Init(capacity), moves)
    ensures var s := Exec(Init(capacity), moves);
      && s.tail <= s.head <= s.tail + s.capacity
      && s.capacity == capacity && |s.pushed| == |s.pusher| == s.head && |s.popper| == s.tail
      && (forall k :: 0 <= k < |s.results| ==>
            s.results[k].t < s.tail && s.results[k].data == s.pushed[s.results[k].t])
      && (forall j, k :: 0 <= j < k < |s.results| ==> s.results[j].t != s.results[k].t)
      && s.pushed == ClaimedArgs(Init(capacity), moves, map[])
      && (forall i :: 0 <= i < s.tail ==> Reading(s, i) || Returned(s, i))
      && (forall i :: s.tail <= i < s.head ==> Writing(s, i) || CellAt(s, i) == Cell(i + 1, s.pushed[i]))
  {
    InvInitially(capacity);
    InvAlways(Init(capacity), moves);
    CapacityFixed(Init(capacity), moves);
    PushedAreArguments(Init(capacity), moves, map[]);
    var s := Exec(Init(capacity), moves);
    forall i | s.tail <= i < s.head ensures Writing(s, i) || CellAt(s, i) == Cell(i + 1, s.pushed[i]) {
      StoredOrWriting(s, i);
    }
  }

  lemma {:induction false} CapacityFixed(s: State, moves: seq<Move>)
    requires Legal(s, moves)
    ensures Exec(s, moves).capacity == s.capacity
    decreases |moves|
  {
    if moves != [] { CapacityFixed(Apply(s, moves[0].id, moves[0].st), moves[1..]); }
  }

  ghost function Effects(s: State, moves: seq<Move>): seq<QueueOp>
    requires Legal(s, moves)
    decreases |moves|
  {
    if moves == [] then []
    else [Effect(s, moves[0].id, moves[0].st)] + Effects(Apply(s, moves[0].id, moves[0].st), moves[1..])
  }

  ghost predicate Replays(q: seq<Pointer>, ops: seq<QueueOp>, q': seq<Pointer>)
    decreases |ops|
  {
    if ops == [] then q' == q
    else Allowed(q, ops[0]) && Replays(After(q, ops[0]), ops[1..], q')
  }

  /** Every run is, in the order of the successful CASes, a run of a first-in first-out queue. */
  lemma {:induction false} RunRefines(s: State, moves: seq<Move>)
    requires Inv(s) && Legal(s, moves)
    ensures Replays(Queue(s), Effects(s, moves), Queue(Exec(s, moves)))
    decreases |moves|
  {
    if moves != [] {
      var s' := Apply(s, moves[0].id, moves[0].st);
      StepRefines(s, moves[0].id, moves[0].st);
      InvKept(s, moves[0].id, moves[0].st);
      RunRefines(s', moves[1..]);
      assert Effects(s, moves)[1..] == Effects(s', moves[1..]);
    }
  }
}
