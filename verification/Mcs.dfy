/** The MCS queue lock.  Threads queue up by exchanging the tail pointer, link themselves to
    their predecessor afterwards, and spin on a flag in their own node.

    One step per shared access, any number of threads in any interleaving; the node of a thread
    is named by the thread.  Accesses to the plain `next` pointer count as atomic. */
module Mcs {
  type Tid = nat

  datatype Option<T> = None | Some(value: T)

  /** Where a thread stands inside lock, its critical section or unlock. */
  datatype Pc =
    | Outside
    | SetsLocked
    | Exchanges
    | Links(prev: Tid)
    | Spins
    | Critical
    | TriesCas
    | AwaitsNext
    | HandsOver

  datatype Node = Node(next: Option<Tid>, locked: bool)

  /** Shared memory, thread locals and history.  History: `order` lists the threads in the order
      of their tail exchanges, the first `released` of them have left, `ticket[id]` is where
      thread `id` stands in `order`, `entered` lists the entries to the critical section. */
  datatype State = State(
    tail: Option<Tid>,
    nodes: map<Tid, Node>,
    pcs: map<Tid, Pc>,
    order: seq<Tid>,
    released: nat,
    ticket: map<Tid, nat>,
    entered: seq<Tid>)

  datatype Step =
    | LockClearNext
    | LockSetLocked
    | LockExchange
    | LockLink
    | LockSpin
    | UnlockCheckNext
    | UnlockCas
    | UnlockAwait
    | UnlockHandOver

  function PcOf(s: State, id: Tid): Pc {
    if id in s.pcs then s.pcs[id] else Outside
  }

  function NodeOf(s: State, id: Tid): Node {
    if id in s.nodes then s.nodes[id] else Node(None, false)
  }

  function WithNode(s: State, id: Tid, n: Node): State {
    s.(nodes := s.nodes[id := n])
  }

  function At(s: State, id: Tid, pc: Pc): State {
    s.(pcs := s.pcs[id := pc])
  }

  function Enter(s: State, id: Tid): State {
    At(s, id, Critical).(entered := s.entered + [id])
  }

  predicate Enabled(s: State, id: Tid, st: Step) {
    var pc := PcOf(s, id);
    match st
    case LockClearNext => pc.Outside?
    case LockSetLocked => pc.SetsLocked?
    case LockExchange => pc.Exchanges?
    case LockLink => pc.Links?
    case LockSpin => pc.Spins?
    case UnlockCheckNext => pc.Critical?
    case UnlockCas => pc.TriesCas?
    case UnlockAwait => pc.AwaitsNext?
    case UnlockHandOver => pc.HandsOver?
  }

  /** One atomic step of thread `id`. */
  function Apply(s: State, id: Tid, st: Step): State
    requires Enabled(s, id, st)
  {
    var n := NodeOf(s, id);
    match st
    case LockClearNext => At(WithNode(s, id, n.(next := None)), id, SetsLocked)
    case LockSetLocked => At(WithNode(s, id, n.(locked := true)), id, Exchanges)
    case LockExchange =>
      var s1 := s.(tail := Some(id), order := s.order + [id], ticket := s.ticket[id := |s.order|]);
      if s.tail.None? then Enter(s1, id) else At(s1, id, Links(s.tail.value))
    case LockLink =>
      var p := PcOf(s, id).prev;
      At(WithNode(s, p, NodeOf(s, p).(next := Some(id))), id, Spins)
    case LockSpin => if n.locked then s else Enter(s, id)
    case UnlockCheckNext => At(s, id, if n.next.None? then TriesCas else HandsOver)
    case UnlockCas =>
      if s.tail == Some(id)
      then At(s, id, Outside).(tail := None, released := s.released + 1)
      else At(s, id, AwaitsNext)
    case UnlockAwait => if n.next.None? then s else At(s, id, HandsOver)
    case UnlockHandOver =>
      if n.next.None? then s                          // a null dereference: excluded below
      else At(WithNode(s, n.next.value, NodeOf(s, n.next.value).(locked := false)), id, Outside).(
             released := s.released + 1)
  }

  // ---------------------------------------------------------------------------
  // Invariant
  // ---------------------------------------------------------------------------

  predicate Queued(pc: Pc) {
    !(pc.Outside? || pc.SetsLocked? || pc.Exchanges?)
  }

  predicate Holds(pc: Pc) {
    pc.Critical? || pc.TriesCas? || pc.AwaitsNext? || pc.HandsOver?
  }

  ghost predicate Shape(s: State) {
    && s.released <= |s.order|
    && s.tail == (if s.released == |s.order| then None else Some(s.order[|s.order| - 1]))
  }

  /** The thread at position `p` of the queue. */
  ghost predicate MemberOk(s: State, p: nat)
    requires Shape(s) && s.released <= p < |s.order|
  {
    var id := s.order[p];
    var pc, n := PcOf(s, id), NodeOf(s, id);
    && id in s.ticket && s.ticket[id] == p
    && (if p == s.released then Holds(pc) || (pc.Spins? && !n.locked)
        else n.locked && (pc.Spins? || pc == Links(s.order[p - 1])))
    && (if p + 1 == |s.order| then n.next.None? && !pc.AwaitsNext? && !pc.HandsOver?
        else n.next == if PcOf(s, s.order[p + 1]).Links? then None else Some(s.order[p + 1]))
    && (pc.HandsOver? ==> n.next.Some?)
  }

  ghost predicate ThreadOk(s: State, id: Tid)
    requires Shape(s)
  {
    var pc := PcOf(s, id);
    && (pc.SetsLocked? || pc.Exchanges? ==> NodeOf(s, id).next.None?)
    && (pc.Exchanges? ==> NodeOf(s, id).locked)
    && (Queued(pc) ==>
          id in s.ticket && s.released <= s.ticket[id] < |s.order| && s.order[s.ticket[id]] == id)
  }

  ghost predicate MembersOk(s: State)
    requires Shape(s)
  {
    forall p :: s.released <= p < |s.order| ==> MemberOk(s, p)
  }

  ghost predicate ThreadsOk(s: State)
    requires Shape(s)
  {
    forall id :: id in s.pcs ==> ThreadOk(s, id)
  }

  /** The entries so far are a prefix of the tail exchanges. */
  ghost predicate EnteredOk(s: State)
    requires Shape(s)
  {
    var e := if s.released < |s.order| && Holds(PcOf(s, s.order[s.released])) then s.released + 1 else s.released;
    s.entered == s.order[..e]
  }

  ghost predicate Core(s: State) {
    Shape(s) && MembersOk(s) && ThreadsOk(s)
  }

  ghost predicate Inv(s: State) {
    Core(s) && EnteredOk(s)
  }

  lemma InitStepsKeep(s: State, id: Tid, st: Step)
    requires Core(s) && Enabled(s, id, st) && (st.LockClearNext? || st.LockSetLocked?)
    ensures Core(Apply(s, id, st))
  {
    var s' := Apply(s, id, st);
    forall p | s'.released <= p < |s'.order| ensures MemberOk(s', p) {
      assert MemberOk(s, p);
      if p + 1 < |s.order| { assert MemberOk(s, p + 1); }
    }
    forall j | j in s'.pcs ensures ThreadOk(s', j) {
      if j in s.pcs { assert ThreadOk(s, j); }
    }
  }

  lemma ExchangeKeeps(s: State, id: Tid)
    requires Core(s) && Enabled(s, id, LockExchange)
    ensures Core(Apply(s, id, LockExchange))
  {
    var s' := Apply(s, id, LockExchange);
    assert ThreadOk(s, id);
    forall p | s'.released <= p < |s'.order| ensures MemberOk(s', p) {
      if p < |s.order| { assert MemberOk(s, p); }
      if p + 1 < |s.order| { assert MemberOk(s, p + 1); }
    }
    forall j | j in s'.pcs ensures ThreadOk(s', j) {
      if j in s.pcs { assert ThreadOk(s, j); }
    }
  }

  lemma LinkKeeps(s: State, id: Tid)
    requires Core(s) && Enabled(s, id, LockLink)
    ensures Core(Apply(s, id, LockLink))
  {
    var s' := Apply(s, id, LockLink);
    assert ThreadOk(s, id);
    var q := s.ticket[id];
    assert MemberOk(s, q);
    assert MemberOk(s, q - 1);
    forall p | s'.released <= p < |s'.order| ensures MemberOk(s', p) {
      assert MemberOk(s, p);
      if p + 1 < |s.order| { assert MemberOk(s, p + 1); }
    }
    forall j | j in s'.pcs ensures ThreadOk(s', j) {
      assert ThreadOk(s, j);
    }
  }

  lemma SpinKeeps(s: State, id: Tid)
    requires Core(s) && Enabled(s, id, LockSpin)
    ensures Core(Apply(s, id, LockSpin))
  {
    var s' := Apply(s, id, LockSpin);
    assert ThreadOk(s, id);
    assert MemberOk(s, s.ticket[id]);
    forall p | s'.released <= p < |s'.order| ensures MemberOk(s', p) {
      assert MemberOk(s, p);
      if p + 1 < |s.order| { assert MemberOk(s, p + 1); }
    }
    forall j | j in s'.pcs ensures ThreadOk(s', j) {
      assert ThreadOk(s, j);
    }
  }

  lemma ReadNextKeeps(s: State, id: Tid, st: Step)
    requires Core(s) && Enabled(s, id, st)
    requires st.UnlockCheckNext? || st.UnlockAwait?
    ensures Core(Apply(s, id, st))
  {
    var s' := Apply(s, id, st);
    assert ThreadOk(s, id);
    assert MemberOk(s, s.ticket[id]);
    forall p | s'.released <= p < |s'.order| ensures MemberOk(s', p) {
      assert MemberOk(s, p);
      if p + 1 < |s.order| { assert MemberOk(s, p + 1); }
    }
    forall j | j in s'.pcs ensures ThreadOk(s', j) {
      assert ThreadOk(s, j);
    }
  }

  lemma CasKeeps(s: State, id: Tid)
    requires Core(s) && Enabled(s, id, UnlockCas)
    ensures Core(Apply(s, id, UnlockCas))
  {
    var s' := Apply(s, id, UnlockCas);
    assert ThreadOk(s, id);
    assert MemberOk(s, s.ticket[id]);
    assert MemberOk(s, |s.order| - 1);
    forall p | s'.released <= p < |s'.order| ensures MemberOk(s', p) {
      assert MemberOk(s, p);
      if p + 1 < |s.order| { assert MemberOk(s, p + 1); }
    }
    forall j | j in s'.pcs ensures ThreadOk(s', j) {
      assert ThreadOk(s, j);
    }
  }

  lemma HandOverKeeps(s: State, id: Tid)
    requires Core(s) && Enabled(s, id, UnlockHandOver)
    ensures Core(Apply(s, id, UnlockHandOver))
  {
    var s' := Apply(s, id, UnlockHandOver);
    assert ThreadOk(s, id);
    assert MemberOk(s, s.ticket[id]);
    assert MemberOk(s, s.released + 1);
    forall p | s'.released <= p < |s'.order| ensures MemberOk(s', p) {
      assert MemberOk(s, p);
      if p + 1 < |s.order| { assert MemberOk(s, p + 1); }
    }
    forall j | j in s'.pcs ensures ThreadOk(s', j) {
      assert ThreadOk(s, j);
      if Queued(PcOf(s, j)) { assert MemberOk(s, s.ticket[j]); }
    }
  }

  lemma CoreKept(s: State, id: Tid, st: Step)
    requires Core(s) && Enabled(s, id, st)
    ensures Core(Apply(s, id, st))
  {
    match st
    case LockClearNext => InitStepsKeep(s, id, st);
    case LockSetLocked => InitStepsKeep(s, id, st);
    case LockExchange => ExchangeKeeps(s, id);
    case LockLink => LinkKeeps(s, id);
    case LockSpin => SpinKeeps(s, id);
    case UnlockCheckNext => ReadNextKeeps(s, id, st);
    case UnlockCas => CasKeeps(s, id);
    case UnlockAwait => ReadNextKeeps(s, id, st);
    case UnlockHandOver => HandOverKeeps(s, id);
  }

  lemma EnteredByEntry(s: State, id: Tid, st: Step)
    requires Inv(s) && Enabled(s, id, st) && Shape(Apply(s, id, st))
    requires st.LockExchange? || st.LockSpin?
    ensures EnteredOk(Apply(s, id, st))
  {
    assert ThreadOk(s, id);
    if st.LockSpin? { assert MemberOk(s, s.ticket[id]); }
    if s.released < |s.order| { assert MemberOk(s, s.released); }
  }

  lemma EnteredByRelease(s: State, id: Tid, st: Step)
    requires Inv(s) && Enabled(s, id, st) && Shape(Apply(s, id, st))
    requires st.UnlockCas? || st.UnlockHandOver?
    ensures EnteredOk(Apply(s, id, st))
  {
    assert ThreadOk(s, id) && MemberOk(s, s.ticket[id]);
    if s.released + 1 < |s.order| { assert MemberOk(s, s.released + 1); }
  }

  lemma EnteredElse(s: State, id: Tid, st: Step)
    requires Inv(s) && Enabled(s, id, st) && Shape(Apply(s, id, st))
    requires st.LockClearNext? || st.LockSetLocked? || st.LockLink? || st.UnlockCheckNext? || st.UnlockAwait?
    ensures EnteredOk(Apply(s, id, st))
  {
    assert ThreadOk(s, id);
    if s.released < |s.order| { assert MemberOk(s, s.released); }
  }

  lemma EnteredKept(s: State, id: Tid, st: Step)
    requires Inv(s) && Enabled(s, id, st) && Shape(Apply(s, id, st))
    ensures EnteredOk(Apply(s, id, st))
  {
    match st
    case LockExchange => EnteredByEntry(s, id, st);
    case LockSpin => EnteredByEntry(s, id, st);
    case UnlockCas => EnteredByRelease(s, id, st);
    case UnlockHandOver => EnteredByRelease(s, id, st);
    case _ => EnteredElse(s, id, st);
  }

  // ---------------------------------------------------------------------------
  // Safety over whole runs
  // ---------------------------------------------------------------------------

  /** `nkit_mcs_init`. */
  function Init(): State {
    State(None, map[], map[], [], 0, map[], [])
  }

  datatype Move = Move(id: Tid, st: Step)

  ghost predicate Legal(s: State, moves: seq<Move>)
    decreases |moves|
  {
    moves == [] ||
    (Enabled(s, moves[0].id, moves[0].st) && Legal(Apply(s, moves[0].id, moves[0].st), moves[1..]))
  }

  ghost function Exec(s: State, moves: seq<Move>): State
    requires Legal(s, moves)
    decreases |moves|
  {
    if moves == [] then s else Exec(Apply(s, moves[0].id, moves[0].st), moves[1..])
  }

  lemma {:induction false} InvAlways(s: State, moves: seq<Move>)
    requires Inv(s) && Legal(s, moves)
    ensures Inv(Exec(s, moves))
    decreases |moves|
  {
    if moves != [] {
      CoreKept(s, moves[0].id, moves[0].st);
      EnteredKept(s, moves[0].id, moves[0].st);
      InvAlways(Apply(s, moves[0].id, moves[0].st), moves[1..]);
    }
  }

  /** In every reachable state at most one thread is past its acquisition and not yet done
      releasing, and threads have entered in the order of their tail exchanges. */
  lemma MutualExclusionInOrder(moves: seq<Move>)
    requires Legal(Init(), moves)
    ensures var s := Exec(Init(), moves);
      && (forall i, j :: Holds(PcOf(s, i)) && Holds(PcOf(s, j)) ==> i == j)
      && s.entered <= s.order
  {
    InvAlways(Init(), moves);
    var s := Exec(Init(), moves);
    forall i, j | Holds(PcOf(s, i)) && Holds(PcOf(s, j)) ensures i == j {
      assert ThreadOk(s, i) && ThreadOk(s, j);
      assert MemberOk(s, s.ticket[i]) && MemberOk(s, s.ticket[j]);
    }
  }

  lemma LinkHitsQueued(s: State, id: Tid)
    requires Core(s) && Enabled(s, id, LockLink)
    ensures PcOf(s, id).prev != id && Queued(PcOf(s, PcOf(s, id).prev))
  {
    assert ThreadOk(s, id);
    var q := s.ticket[id];
    assert MemberOk(s, q);
    if q > s.released { assert MemberOk(s, q - 1); }
  }

  lemma HandOverHitsSpinning(s: State, id: Tid)
    requires Core(s) && Enabled(s, id, UnlockHandOver)
    ensures NodeOf(s, id).next.Some? && NodeOf(s, id).next.value != id
    ensures PcOf(s, NodeOf(s, id).next.value).Spins?
  {
    assert ThreadOk(s, id);
    var q := s.ticket[id];
    assert MemberOk(s, q);
    if q + 1 < |s.order| { assert MemberOk(s, q + 1); }
  }

  /** Every store into another thread's node hits a node whose owner is inside lock, the critical
      section or unlock; the hand-over never follows a null pointer. */
  lemma NodesAlive(s: State, id: Tid, st: Step)
    requires Core(s) && Enabled(s, id, st)
    ensures st.LockLink? ==> PcOf(s, id).prev != id && Queued(PcOf(s, PcOf(s, id).prev))
    ensures st.UnlockHandOver? ==>
      && NodeOf(s, id).next.Some? && NodeOf(s, id).next.value != id
      && PcOf(s, NodeOf(s, id).next.value).Spins?
    ensures forall j :: j != id && NodeOf(Apply(s, id, st), j) != NodeOf(s, j) ==> Queued(PcOf(s, j))
  {
    if st.LockLink? { LinkHitsQueued(s, id); }
    if st.UnlockHandOver? { HandOverHitsSpinning(s, id); }
  }

  // ---------------------------------------------------------------------------
  // Progress
  // ---------------------------------------------------------------------------

  predicate Waits(pc: Pc) {
    pc.Links? || pc.Spins?
  }

  /** The thread's next step does something: it is not a turn of a spin loop. */
  predicate Moves(s: State, id: Tid) {
    var pc, n := PcOf(s, id), NodeOf(s, id);
    pc.Links? || pc.TriesCas? || pc.HandsOver? || pc.Critical?
    || (pc.Spins? && !n.locked) || (pc.AwaitsNext? && n.next.Some?)
  }

  /** No lost hand-off: while a thread waits, it or some thread ahead of it is in its critical
      section or can take a step that is not spinning. */
  lemma SomebodyMoves(s: State, w: Tid) returns (j: Tid)
    requires Core(s) && Waits(PcOf(s, w))
    ensures Queued(PcOf(s, j)) && w in s.ticket && j in s.ticket && s.ticket[j] <= s.ticket[w]
    ensures Moves(s, j)
  {
    assert ThreadOk(s, w);
    assert MemberOk(s, s.ticket[w]);
    assert MemberOk(s, s.released);
    j := s.order[s.released];
    if PcOf(s, j).AwaitsNext? && NodeOf(s, j).next.None? {
      assert MemberOk(s, s.released + 1);
      j := s.order[s.released + 1];
    }
  }

  ghost function Unlinked(s: State, lo: nat, p: nat): nat
    requires p < |s.order|
    decreases p
  {
    if p <= lo then 0
    else Unlinked(s, lo, p - 1) + (if PcOf(s, s.order[p]).Links? then 1 else 0)
  }

  function HeadCost(pc: Pc): nat {
    match pc
    case Spins => 5
    case Critical => 4
    case TriesCas => 3
    case AwaitsNext => 2
    case HandsOver => 1
    case _ => 0
  }

  /** An upper bound on the useful steps left before position `p` has entered. */
  ghost function Rank(s: State, p: nat): nat
    requires s.released <= p < |s.order|
  {
    6 * (p - s.released) + HeadCost(PcOf(s, s.order[s.released])) + Unlinked(s, s.released, p)
  }

  lemma {:induction false} UnlinkedSame(s: State, s': State, lo: nat, p: nat)
    requires p < |s.order| && s.order <= s'.order
    requires forall q :: lo < q <= p ==> PcOf(s, s.order[q]).Links? == PcOf(s', s.order[q]).Links?
    ensures Unlinked(s', lo, p) == Unlinked(s, lo, p)
    decreases p
  {
    if p > lo { UnlinkedSame(s, s', lo, p - 1); }
  }

  lemma {:induction false} UnlinkedDrops(s: State, s': State, lo: nat, q: nat, p: nat)
    requires lo < q <= p < |s.order| && s'.order == s.order
    requires PcOf(s, s.order[q]).Links? && !PcOf(s', s.order[q]).Links?
    requires forall k :: lo < k <= p && k != q ==> PcOf(s, s.order[k]).Links? == PcOf(s', s.order[k]).Links?
    ensures Unlinked(s', lo, p) + 1 == Unlinked(s, lo, p)
    decreases p
  {
    if p > q { UnlinkedDrops(s, s', lo, q, p - 1); }
    else { UnlinkedSame(s, s', lo, p - 1); }
  }

  lemma {:induction false} UnlinkedShift(s: State, lo: nat, p: nat)
    requires lo + 1 <= p < |s.order| && !PcOf(s, s.order[lo + 1]).Links?
    ensures Unlinked(s, lo + 1, p) == Unlinked(s, lo, p)
    decreases p
  {
    if p > lo + 1 { UnlinkedShift(s, lo, p - 1); }
  }

  /** The step concerns thread `w` waiting in line: a useful step of `w` or of a thread ahead. */
  predicate Useful(s: State, w: Tid, id: Tid) {
    && Queued(PcOf(s, id)) && Moves(s, id)
    && w in s.ticket && id in s.ticket && s.ticket[id] <= s.ticket[w]
  }

  lemma LinkRank(s: State, id: Tid, p: nat)
    requires Core(s) && Enabled(s, id, LockLink) && s.released <= p < |s.order|
    ensures id in s.ticket
    ensures Rank(Apply(s, id, LockLink), p) == Rank(s, p) - (if s.ticket[id] <= p then 1 else 0)
  {
    var s' := Apply(s, id, LockLink);
    assert ThreadOk(s, id);
    var q := s.ticket[id];
    assert MemberOk(s, q);
    forall k | s.released < k < |s.order| && k != q ensures s.order[k] != id { assert MemberOk(s, k); }
    assert MemberOk(s, s.released);
    if q <= p { UnlinkedDrops(s, s', s.released, q, p); } else { UnlinkedSame(s, s', s.released, p); }
  }

  lemma HandOverRank(s: State, id: Tid, p: nat)
    requires Core(s) && Enabled(s, id, UnlockHandOver) && s.released < p < |s.order|
    ensures var s' := Apply(s, id, UnlockHandOver); s'.released <= p && Rank(s', p) < Rank(s, p)
  {
    var s' := Apply(s, id, UnlockHandOver);
    assert ThreadOk(s, id);
    assert MemberOk(s, s.ticket[id]);
    assert MemberOk(s, s.released + 1);
    forall k | s.released < k < |s.order| ensures s.order[k] != id { assert MemberOk(s, k); }
    UnlinkedSame(s, s', s.released + 1, p);
    UnlinkedShift(s, s.released, p);
  }

  lemma HeadRank(s: State, id: Tid, st: Step, p: nat)
    requires Core(s) && Enabled(s, id, st) && s.released <= p < |s.order|
    requires st.LockSpin? || st.UnlockCheckNext? || st.UnlockAwait? || (st.UnlockCas? && p > s.released)
    ensures Apply(s, id, st).released == s.released
    ensures Rank(Apply(s, id, st), p) <= Rank(s, p)
    ensures Moves(s, id) ==> Rank(Apply(s, id, st), p) < Rank(s, p)
  {
    var s' := Apply(s, id, st);
    assert ThreadOk(s, id);
    assert MemberOk(s, s.ticket[id]);
    assert MemberOk(s, |s.order| - 1);
    UnlinkedSame(s, s', s.released, p);
  }

  lemma OutsideRank(s: State, id: Tid, st: Step, p: nat)
    requires Core(s) && Enabled(s, id, st) && s.released <= p < |s.order|
    requires st.LockClearNext? || st.LockSetLocked? || st.LockExchange?
    ensures Apply(s, id, st).released == s.released && s.order <= Apply(s, id, st).order
    ensures Rank(Apply(s, id, st), p) == Rank(s, p)
  {
    var s' := Apply(s, id, st);
    forall k | s.released <= k < |s.order| ensures s.order[k] != id { assert MemberOk(s, k); }
    UnlinkedSame(s, s', s.released, p);
  }

  /** Every useful step brings a waiting thread closer; no step sets it back. */
  lemma RankFalls(s: State, w: Tid, id: Tid, st: Step)
    requires Core(s) && Waits(PcOf(s, w)) && Enabled(s, id, st)
    ensures var s', p := Apply(s, id, st), s.ticket[w];
      && w in s.ticket && w in s'.ticket && s'.ticket[w] == p
      && s.released <= p < |s.order| && s'.released <= p < |s'.order|
      && Rank(s', p) <= Rank(s, p)
      && (Useful(s, w, id) ==> Rank(s', p) < Rank(s, p))
  {
    assert ThreadOk(s, w);
    var p := s.ticket[w];
    assert MemberOk(s, p);
    assert ThreadOk(s, id);
    if Queued(PcOf(s, id)) { assert MemberOk(s, s.ticket[id]); }
    match st
    case LockLink => LinkRank(s, id, p);
    case UnlockHandOver => HandOverRank(s, id, p);
    case LockClearNext => OutsideRank(s, id, st, p);
    case LockSetLocked => OutsideRank(s, id, st, p);
    case LockExchange => OutsideRank(s, id, st, p);
    case _ => HeadRank(s, id, st, p);
  }

  ghost predicate WaitsThroughout(s: State, w: Tid, moves: seq<Move>)
    requires Legal(s, moves)
    decreases |moves|
  {
    Waits(PcOf(s, w)) &&
    (moves == [] || WaitsThroughout(Apply(s, moves[0].id, moves[0].st), w, moves[1..]))
  }

  /** How many moves of the run are useful to `w`. */
  ghost function UsefulMoves(s: State, w: Tid, moves: seq<Move>): nat
    requires Legal(s, moves)
    decreases |moves|
  {
    if moves == [] then 0
    else (if Useful(s, w, moves[0].id) then 1 else 0)
         + UsefulMoves(Apply(s, moves[0].id, moves[0].st), w, moves[1..])
  }

  /** Bounded waiting: in any run during which a thread waits, the useful moves of the threads
      ahead of it and of itself number at most its rank, which is at most seven per thread
      ahead plus five. */
  lemma {:induction false} BoundedWaiting(s: State, w: Tid, moves: seq<Move>)
    requires Core(s) && Legal(s, moves) && WaitsThroughout(s, w, moves)
    ensures w in s.ticket && s.released <= s.ticket[w] < |s.order|
    ensures UsefulMoves(s, w, moves) <= Rank(s, s.ticket[w])
    ensures Rank(s, s.ticket[w]) <= 7 * (s.ticket[w] - s.released) + 5
    decreases |moves|
  {
    assert ThreadOk(s, w);
    UnlinkedBound(s, s.released, s.ticket[w]);
    if moves != [] {
      var s' := Apply(s, moves[0].id, moves[0].st);
      RankFalls(s, w, moves[0].id, moves[0].st);
      CoreKept(s, moves[0].id, moves[0].st);
      BoundedWaiting(s', w, moves[1..]);
    }
  }

  lemma {:induction false} UnlinkedBound(s: State, lo: nat, p: nat)
    requires lo <= p < |s.order|
    ensures Unlinked(s, lo, p) <= p - lo
    decreases p
  {
    if p > lo { UnlinkedBound(s, lo, p - 1); }
  }
}
