/** The ticket lock with its two wrapping 32-bit counters.

    One step per access to shared memory, at most 2^32 threads, runs of any length.  History keeps
    the tickets unbounded: `order` lists the threads in the order of their fetch-and-adds, and
    the first `served` of them have released. */
module TicketLock {
  import opened Bits
  import opened Sets

  type Tid = nat

  const WORD := 0x1_0000_0000

  datatype Pc = Out | Waits(my: nat) | Critical

  datatype State = State(
    ticket: nat,
    serving: nat,
    pcs: map<Tid, Pc>,
    order: seq<Tid>,
    served: nat,
    turn: map<Tid, nat>,
    entered: seq<Tid>)

  datatype Step = TakeTicket | LoadServing | Unlock

  predicate Enabled(s: State, id: Tid, st: Step) {
    id in s.pcs &&
    match st
    case TakeTicket => s.pcs[id].Out?
    case LoadServing => s.pcs[id].Waits?
    case Unlock => s.pcs[id].Critical?
  }

  /** One atomic step of thread `id`. */
  function Apply(s: State, id: Tid, st: Step): State
    requires Enabled(s, id, st)
  {
    match st
    case TakeTicket =>
      s.(ticket := (s.ticket + 1) % WORD, pcs := s.pcs[id := Waits(s.ticket)],
         order := s.order + [id], turn := s.turn[id := |s.order|])
    case LoadServing =>
      if s.serving == s.pcs[id].my
      then s.(pcs := s.pcs[id := Critical], entered := s.entered + [id])
      else s
    case Unlock =>
      s.(serving := (s.serving + 1) % WORD, pcs := s.pcs[id := Out], served := s.served + 1)
  }

  /** The pauses of one turn of the spin loop: `my_ticket - current` in 32 bits. */
  function Distance(s: State, id: Tid): nat
    requires Enabled(s, id, LoadServing)
  {
    (s.pcs[id].my - s.serving) % WORD
  }

  // ---------------------------------------------------------------------------
  // Invariant
  // ---------------------------------------------------------------------------

  ghost predicate Shape(s: State) {
    && s.served <= |s.order|
    && s.ticket == |s.order| % WORD && s.serving == s.served % WORD
    && |s.pcs.Keys| <= WORD
  }

  ghost predicate ThreadOk(s: State, id: Tid)
    requires id in s.pcs
  {
    !s.pcs[id].Out? ==>
      && id in s.turn && s.served <= s.turn[id] < |s.order| && s.order[s.turn[id]] == id
      && (s.pcs[id].Waits? ==> s.pcs[id].my == s.turn[id] % WORD)
      && (s.pcs[id].Critical? ==> s.turn[id] == s.served)
  }

  ghost predicate MemberOk(s: State, p: nat)
    requires p < |s.order|
  {
    var id := s.order[p];
    id in s.pcs && !s.pcs[id].Out? && id in s.turn && s.turn[id] == p
  }

  /** The entries so far are a prefix of the tickets. */
  ghost predicate EnteredOk(s: State)
    requires s.served <= |s.order|
  {
    var busy := s.served < |s.order| && s.order[s.served] in s.pcs && s.pcs[s.order[s.served]].Critical?;
    s.entered == s.order[..if busy then s.served + 1 else s.served]
  }

  ghost predicate Inv(s: State) {
    && Shape(s) && EnteredOk(s)
    && (forall id :: id in s.pcs ==> ThreadOk(s, id))
    && (forall p :: s.served <= p < |s.order| ==> MemberOk(s, p))
  }

  ghost function Outstanding(s: State, n: nat): set<Tid>
    requires s.served + n <= |s.order|
  {
    set p | s.served <= p < s.served + n :: s.order[p]
  }

  lemma {:induction false} OutstandingSize(s: State, n: nat)
    requires s.served + n <= |s.order| && forall p :: s.served <= p < |s.order| ==> MemberOk(s, p)
    ensures |Outstanding(s, n)| == n && Outstanding(s, n) <= s.pcs.Keys
  {
    if n > 0 {
      OutstandingSize(s, n - 1);
      var id := s.order[s.served + n - 1];
      assert MemberOk(s, s.served + n - 1);
      forall p | s.served <= p < s.served + n - 1 ensures s.order[p] != id { assert MemberOk(s, p); }
      assert Outstanding(s, n) == Outstanding(s, n - 1) + {id};
    }
  }

  /** At most 2^32 tickets are out, since each thread holds at most one. */
  lemma FewOutstanding(s: State)
    requires Inv(s)
    ensures |s.order| - s.served <= |s.pcs.Keys|
  {
    var n := |s.order| - s.served;
    OutstandingSize(s, n);
    SubsetSize(Outstanding(s, n), s.pcs.Keys);
  }

  lemma NextNumber(n: nat)
    ensures (n % WORD + 1) % WORD == (n + 1) % WORD
  {}

  /** The 32-bit comparison and subtraction see through wrap-around. */
  lemma ServingExact(s: State, id: Tid)
    requires Inv(s) && Enabled(s, id, LoadServing)
    ensures id in s.turn
    ensures s.serving == s.pcs[id].my <==> s.turn[id] == s.served
    ensures Distance(s, id) == s.turn[id] - s.served
  {
    assert ThreadOk(s, id);
    FewOutstanding(s);
    var d := s.turn[id] - s.served;
    if d > 0 { DistinctSlots(s.served, s.turn[id], WORD); }
    WrappedDifference(s.turn[id], s.served, WORD);
  }

  lemma TakeTicketKeeps(s: State, id: Tid)
    requires Inv(s) && Enabled(s, id, TakeTicket)
    ensures Inv(Apply(s, id, TakeTicket))
  {
    var s' := Apply(s, id, TakeTicket);
    NextNumber(|s.order|);
    assert s'.pcs.Keys == s.pcs.Keys;
    forall j | j in s'.pcs ensures ThreadOk(s', j) { assert ThreadOk(s, j); }
    forall p | s'.served <= p < |s'.order| ensures MemberOk(s', p) {
      if p < |s.order| { assert MemberOk(s, p); }
    }
  }

  lemma LoadServingKeeps(s: State, id: Tid)
    requires Inv(s) && Enabled(s, id, LoadServing)
    ensures Inv(Apply(s, id, LoadServing))
  {
    var s' := Apply(s, id, LoadServing);
    ServingExact(s, id);
    assert s'.pcs.Keys == s.pcs.Keys;
    assert ThreadOk(s, id);
    forall j | j in s'.pcs ensures ThreadOk(s', j) { assert ThreadOk(s, j); }
    forall p | s'.served <= p < |s'.order| ensures MemberOk(s', p) { assert MemberOk(s, p); }
  }

  lemma UnlockKeeps(s: State, id: Tid)
    requires Inv(s) && Enabled(s, id, Unlock)
    ensures Inv(Apply(s, id, Unlock))
  {
    var s' := Apply(s, id, Unlock);
    NextNumber(s.served);
    assert s'.pcs.Keys == s.pcs.Keys;
    assert ThreadOk(s, id);
    forall j | j in s'.pcs ensures ThreadOk(s', j) { assert ThreadOk(s, j); }
    forall p | s'.served <= p < |s'.order| ensures MemberOk(s', p) { assert MemberOk(s, p); }
    if s'.served < |s'.order| {
      var next := s'.order[s'.served];
      assert MemberOk(s, s'.served) && ThreadOk(s, next);
    }
  }

  lemma InvKept(s: State, id: Tid, st: Step)
    requires Inv(s) && Enabled(s, id, st)
    ensures Inv(Apply(s, id, st))
  {
    match st
    case TakeTicket => TakeTicketKeeps(s, id);
    case LoadServing => LoadServingKeeps(s, id);
    case Unlock => UnlockKeeps(s, id);
  }

  // ---------------------------------------------------------------------------
  // Whole runs
  // ---------------------------------------------------------------------------

  /** `nkit_ticket_init`, with a fixed set of threads. */
  function Init(threads: set<Tid>): State {
    State(0, 0, map id | id in threads :: Out, [], 0, map[], [])
  }

  datatype Move = Move(id: Tid, st: Step)

  ghost predicate Legal(s: State, moves: seq<Move>)
    decreases |moves|
  {
    moves == [] ||
    (Enabled(s, moves[0].id, moves[0].st) && Legal(Apply(s, moves[0].id, moves[0].st), moves[1..]))
  }

  ghost function Exec(s: State, moves: seq<Move>): State
    requires Legal(s, moves)
    decreases |moves|
  {
    if moves == [] then s else Exec(Apply(s, moves[0].id, moves[0].st), moves[1..])
  }

  lemma {:induction false} InvAlways(s: State, moves: seq<Move>)
    requires Inv(s) && Legal(s, moves)
    ensures Inv(Exec(s, moves))
    decreases |moves|
  {
    if moves != [] {
      InvKept(s, moves[0].id, moves[0].st);
      InvAlways(Apply(s, moves[0].id, moves[0].st), moves[1..]);
    }
  }

  /** At most one thread is in the critical section. */
  ghost predicate Exclusive(s: State) {
    forall i, j :: i in s.pcs && j in s.pcs && s.pcs[i].Critical? && s.pcs[j].Critical? ==> i == j
  }

  /** However often the counters have wrapped, at most one thread is in the critical section,
      threads enter in the order of their tickets, and a spinning thread's back-off distance is
      the number of threads ahead of it. */
  lemma FairExclusion(threads: set<Tid>, moves: seq<Move>)
    requires |threads| <= WORD && Legal(Init(threads), moves)
    ensures var s := Exec(Init(threads), moves);
      && Exclusive(s)
      && s.entered <= s.order && s.served <= |s.order|
      && (forall id :: Enabled(s, id, LoadServing) ==>
            id in s.turn && Distance(s, id) == s.turn[id] - s.served)
  {
    var s0 := Init(threads);
    assert s0.pcs.Keys == threads;
    InvAlways(s0, moves);
    var s := Exec(s0, moves);
    forall i, j | i in s.pcs && j in s.pcs && s.pcs[i].Critical? && s.pcs[j].Critical? ensures i == j {
      assert ThreadOk(s, i) && ThreadOk(s, j);
    }
    forall id | Enabled(s, id, LoadServing)
      ensures id in s.turn && Distance(s, id) == s.turn[id] - s.served
    {
      ServingExact(s, id);
    }
  }

  // ---------------------------------------------------------------------------
  // Progress
  // ---------------------------------------------------------------------------

  /** The thread whose ticket is served is inside. */
  predicate Busy(s: State) {
    s.served < |s.order| && s.order[s.served] in s.pcs && s.pcs[s.order[s.served]].Critical?
  }

  /** No lost turn: while a thread waits, the thread served is inside or enters at its next look. */
  lemma SomebodyEnters(s: State, w: Tid)
    requires Inv(s) && w in s.pcs && s.pcs[w].Waits?
    ensures s.served < |s.order|
    ensures var j := s.order[s.served];
      Busy(s) || (Enabled(s, j, LoadServing) && Apply(s, j, LoadServing).pcs[j].Critical?)
  {
    assert ThreadOk(s, w);
    var j := s.order[s.served];
    assert MemberOk(s, s.served) && ThreadOk(s, j);
    if s.pcs[j].Waits? { ServingExact(s, j); }
  }

  /** A lock nobody has a ticket for is entered in two steps. */
  lemma LockFree(s: State, id: Tid)
    requires Inv(s) && Enabled(s, id, TakeTicket) && s.served == |s.order|
    ensures var s1 := Apply(s, id, TakeTicket);
      && Enabled(s1, id, LoadServing)
      && Apply(s1, id, LoadServing).pcs == s.pcs[id := Critical]
      && Apply(s1, id, LoadServing).entered == s.entered + [id]
  {
    var s1 := Apply(s, id, TakeTicket);
    InvKept(s, id, TakeTicket);
    ServingExact(s1, id);
    assert s.pcs[id := s1.pcs[id]][id := Critical] == s.pcs[id := Critical];
  }

  /** An entry or a release; the other steps take a ticket or look in vain. */
  predicate Useful(s: State, id: Tid, st: Step)
    requires Enabled(s, id, st)
  {
    st.Unlock? || (st.LoadServing? && s.serving == s.pcs[id].my)
  }

  /** One entry and one release for each thread ahead, and the waiting thread's own entry. */
  function Rank(s: State, w: Tid): int
    requires w in s.turn
  {
    2 * (s.turn[w] - s.served) + if Busy(s) then 0 else 1
  }

  /** Every entry and every release is one the waiting thread waits for, and nothing else is. */
  lemma RankFalls(s: State, w: Tid, id: Tid, st: Step)
    requires Inv(s) && w in s.pcs && s.pcs[w].Waits? && Enabled(s, id, st)
    ensures w in s.turn
    ensures var s' := Apply(s, id, st);
      w in s'.pcs && s'.pcs[w].Waits? ==>
        w in s'.turn && Rank(s', w) == Rank(s, w) - if Useful(s, id, st) then 1 else 0
  {
    assert ThreadOk(s, w) && ThreadOk(s, id);
    assert MemberOk(s, s.served);
    if st.LoadServing? { ServingExact(s, id); }
    if st.Unlock? && s.served + 1 < |s.order| {
      assert MemberOk(s, s.served + 1) && ThreadOk(s, s.order[s.served + 1]);
    }
  }

  ghost predicate WaitsThroughout(s: State, w: Tid, moves: seq<Move>)
    requires Legal(s, moves)
    decreases |moves|
  {
    && w in s.pcs && s.pcs[w].Waits?
    && (moves == [] || WaitsThroughout(Apply(s, moves[0].id, moves[0].st), w, moves[1..]))
  }

  ghost function UsefulMoves(s: State, moves: seq<Move>): nat
    requires Legal(s, moves)
    decreases |moves|
  {
    if moves == [] then 0
    else (if Useful(s, moves[0].id, moves[0].st) then 1 else 0)
         + UsefulMoves(Apply(s, moves[0].id, moves[0].st), moves[1..])
  }

  /** Bounded waiting: in any run during which a thread waits there are at most two entries and
      releases for each thread ahead of it, and one more. */
  lemma {:induction false} BoundedWaiting(s: State, w: Tid, moves: seq<Move>)
    requires Inv(s) && Legal(s, moves) && WaitsThroughout(s, w, moves)
    ensures w in s.turn && s.served <= s.turn[w]
    ensures UsefulMoves(s, moves) <= Rank(s, w) <= 2 * (s.turn[w] - s.served) + 1
    decreases |moves|
  {
    assert ThreadOk(s, w);
    if moves != [] {
      RankFalls(s, w, moves[0].id, moves[0].st);
      InvKept(s, moves[0].id, moves[0].st);
      BoundedWaiting(Apply(s, moves[0].id, moves[0].st), w, moves[1..]);
    }
  }

  // ---------------------------------------------------------------------------
  // How many threads the 32-bit counters bear
  // ---------------------------------------------------------------------------

  lemma {:induction false} ExecSnoc(s: State, moves: seq<Move>, m: Move)
    requires Legal(s, moves) && Enabled(Exec(s, moves), m.id, m.st)
    ensures Legal(s, moves + [m]) && Exec(s, moves + [m]) == Apply(Exec(s, moves), m.id, m.st)
    decreases |moves|
  {
    if moves == [] {
      assert [m][1..] == [];
    } else {
      ExecSnoc(Apply(s, moves[0].id, moves[0].st), moves[1..], m);
      assert (moves + [m])[1..] == moves[1..] + [m];
    }
  }

  /** The first `n` threads of `q` have taken their tickets and nobody has looked at `serving`. */
  ghost predicate Lined(s: State, q: seq<Tid>, n: nat) {
    && n <= |q| && s.ticket == n % WORD && s.serving == 0
    && (forall i :: 0 <= i < |q| ==> q[i] in s.pcs && s.pcs[q[i]] == if i < n then Waits(i % WORD) else Out)
  }

  lemma {:induction false} LineUp(threads: set<Tid>, q: seq<Tid>, n: nat) returns (moves: seq<Move>)
    requires n <= |q| && (forall x :: x in q ==> x in threads)
    requires forall i, j :: 0 <= i < j < |q| ==> q[i] != q[j]
    ensures Legal(Init(threads), moves) && Lined(Exec(Init(threads), moves), q, n)
  {
    if n == 0 {
      moves := [];
    } else {
      moves := LineUp(threads, q, n - 1);
      var s, m := Exec(Init(threads), moves), Move(q[n - 1], TakeTicket);
      ExecSnoc(Init(threads), moves, m);
      NextNumber(n - 1);
      moves := moves + [m];
    }
  }

  /** Two threads whose tickets are 2^32 apart both see their number served. */
  lemma BothEnter(threads: set<Tid>, q: seq<Tid>) returns (moves: seq<Move>)
    requires |q| > WORD && (forall x :: x in q ==> x in threads)
    requires forall i, j :: 0 <= i < j < |q| ==> q[i] != q[j]
    ensures Legal(Init(threads), moves) && !Exclusive(Exec(Init(threads), moves))
  {
    var first, last := q[0], q[WORD];
    moves := LineUp(threads, q, WORD + 1);
    var s := Exec(Init(threads), moves);
    assert s.pcs[first] == Waits(0) && s.pcs[last] == Waits(0);
    ExecSnoc(Init(threads), moves, Move(first, LoadServing));
    moves := moves + [Move(first, LoadServing)];
    ExecSnoc(Init(threads), moves, Move(last, LoadServing));
    moves := moves + [Move(last, LoadServing)];
    var e := Exec(Init(threads), moves);
    assert e.pcs[first].Critical? && e.pcs[last].Critical?;
  }

  /** The lock excludes in every run exactly when there are at most 2^32 threads. */
  lemma ExclusionExactlyWhen(threads: set<Tid>)
    ensures (forall moves :: Legal(Init(threads), moves) ==> Exclusive(Exec(Init(threads), moves))) <==>
            |threads| <= 0x1_0000_0000
  {
    if |threads| <= WORD {
      forall moves | Legal(Init(threads), moves) ensures Exclusive(Exec(Init(threads), moves)) {
        FairExclusion(threads, moves);
      }
    } else {
      var q := Listed(threads);
      var moves := BothEnter(threads, q);
    }
  }
}
