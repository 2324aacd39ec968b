/** Calls of the MCS lock that nobody disturbs: how a thread joins the queue, and the ways the lock
    changes hands. */
module McsAlone {
  import opened Mcs

  lemma Follow(s: State, id: Tid, st: Step, rest: seq<Move>)
    requires Enabled(s, id, st) && Legal(Apply(s, id, st), rest)
    ensures Legal(s, [Move(id, st)] + rest)
    ensures Exec(s, [Move(id, st)] + rest) == Exec(Apply(s, id, st), rest)
  {
    assert ([Move(id, st)] + rest)[1..] == rest;
  }

  /** Thread `id` and its node are the only ones touched. */
  ghost predicate OthersSame(s: State, e: State, id: Tid) {
    forall j :: j != id ==> PcOf(e, j) == PcOf(s, j) && NodeOf(e, j) == NodeOf(s, j)
  }

  function LockMoves(id: Tid): seq<Move> {
    [Move(id, LockClearNext)] + ([Move(id, LockSetLocked)] + ([Move(id, LockExchange)] + []))
  }

  function Prepared(s: State, id: Tid): State
    requires PcOf(s, id).Outside?
  {
    Apply(Apply(s, id, LockClearNext), id, LockSetLocked)
  }

  lemma LockRuns(s: State, id: Tid)
    requires PcOf(s, id).Outside?
    ensures Enabled(Prepared(s, id), id, LockExchange) && Legal(s, LockMoves(id))
    ensures Exec(s, LockMoves(id)) == Apply(Prepared(s, id), id, LockExchange)
  {
    var s1 := Apply(s, id, LockClearNext);
    Follow(Prepared(s, id), id, LockExchange, []);
    Follow(s1, id, LockSetLocked, [Move(id, LockExchange)] + []);
    Follow(s, id, LockClearNext, [Move(id, LockSetLocked)] + ([Move(id, LockExchange)] + []));
  }

  lemma ReadyToJoin(s: State, id: Tid)
    requires Core(s) && PcOf(s, id).Outside?
    ensures var s2 := Prepared(s, id);
      && Core(s2) && PcOf(s2, id).Exchanges? && OthersSame(s, s2, id) && NodeOf(s2, id) == Node(None, true)
      && s2 == s.(pcs := s2.pcs, nodes := s2.nodes)
  {
    CoreKept(s, id, LockClearNext);
    CoreKept(Apply(s, id, LockClearNext), id, LockSetLocked);
  }

  lemma Joins(s: State, id: Tid)
    requires Core(s) && PcOf(s, id).Exchanges?
    ensures var e := Apply(s, id, LockExchange);
      && OthersSame(s, e, id) && NodeOf(e, id) == NodeOf(s, id)
      && e.order == s.order + [id] && e.tail == Some(id) && e.released == s.released
      && (if s.released == |s.order| then PcOf(e, id).Critical? && e.entered == s.entered + [id]
          else PcOf(e, id) == Links(s.order[|s.order| - 1]) && e.entered == s.entered)
  {}

  /** Three steps put a caller of lock at the end of the queue: it holds a lock nobody was queued for,
      and otherwise knows its predecessor. */
  lemma LockStarts(s: State, id: Tid)
    requires Core(s) && PcOf(s, id).Outside?
    ensures Legal(s, LockMoves(id))
    ensures var e := Exec(s, LockMoves(id));
      && OthersSame(s, e, id) && NodeOf(e, id) == Node(None, true)
      && e.order == s.order + [id] && e.tail == Some(id) && e.released == s.released
      && (if s.released == |s.order| then PcOf(e, id).Critical? && e.entered == s.entered + [id]
          else PcOf(e, id) == Links(s.order[|s.order| - 1]) && e.entered == s.entered)
  {
    LockRuns(s, id);
    ReadyToJoin(s, id);
    Joins(Prepared(s, id), id);
  }

  function UnlockLast(id: Tid): seq<Move> {
    [Move(id, UnlockCheckNext)] + ([Move(id, UnlockCas)] + [])
  }

  /** With nobody behind, unlock empties the queue in two steps. */
  lemma UnlockEmpties(s: State, id: Tid)
    requires Core(s) && PcOf(s, id).Critical? && s.tail == Some(id)
    ensures Legal(s, UnlockLast(id))
    ensures var e := Exec(s, UnlockLast(id));
      && e.tail == None && e.released == |e.order| == |s.order| && PcOf(e, id).Outside? && OthersSame(s, e, id)
  {
    var s1 := Apply(s, id, UnlockCheckNext);
    assert ThreadOk(s, id);
    assert MemberOk(s, s.ticket[id]) && MemberOk(s, |s.order| - 1);
    CoreKept(s, id, UnlockCheckNext);
    CoreKept(s1, id, UnlockCas);
    Follow(s1, id, UnlockCas, []);
    Follow(s, id, UnlockCheckNext, [Move(id, UnlockCas)] + []);
  }

  /** The lock went from `id` to `j`, the next in the order of the tail exchanges. */
  ghost predicate PassedOn(s: State, e: State, id: Tid, j: Tid) {
    && PcOf(e, id).Outside? && PcOf(e, j).Critical?
    && e.entered == s.entered + [j] && e.released == s.released + 1
    && e.order == s.order && e.released < |e.order| && e.order[e.released] == j && e.tail == s.tail
  }

  /** Thread `j` is next and has linked itself. */
  predicate LinkedNext(s: State, id: Tid, j: Tid) {
    NodeOf(s, id).next == Some(j)
  }

  lemma NextInOrder(s: State, id: Tid, j: Tid)
    requires Core(s) && Holds(PcOf(s, id)) && LinkedNext(s, id, j)
    ensures s.released + 1 < |s.order| && s.order[s.released] == id && s.order[s.released + 1] == j
    ensures PcOf(s, j).Spins? && NodeOf(s, j).locked && j != id
  {
    assert ThreadOk(s, id);
    assert MemberOk(s, s.ticket[id]);
    assert MemberOk(s, s.released + 1);
  }

  function HandOff(id: Tid, j: Tid): seq<Move> {
    [Move(id, UnlockHandOver)] + ([Move(j, LockSpin)] + [])
  }

  lemma HandsOff(s: State, id: Tid, j: Tid)
    requires Core(s) && PcOf(s, id).HandsOver? && LinkedNext(s, id, j)
    ensures Legal(s, HandOff(id, j)) && PassedOn(s, Exec(s, HandOff(id, j)), id, j)
  {
    NextInOrder(s, id, j);
    Follow(Apply(s, id, UnlockHandOver), j, LockSpin, []);
    Follow(s, id, UnlockHandOver, [Move(j, LockSpin)] + []);
  }

  function UnlockLinked(id: Tid, j: Tid): seq<Move> {
    [Move(id, UnlockCheckNext)] + HandOff(id, j)
  }

  /** With the next thread linked, unlock hands the lock to it in two steps. */
  lemma UnlockPasses(s: State, id: Tid, j: Tid)
    requires Core(s) && PcOf(s, id).Critical? && LinkedNext(s, id, j)
    ensures Legal(s, UnlockLinked(id, j)) && PassedOn(s, Exec(s, UnlockLinked(id, j)), id, j)
  {
    CoreKept(s, id, UnlockCheckNext);
    HandsOff(Apply(s, id, UnlockCheckNext), id, j);
    Follow(s, id, UnlockCheckNext, HandOff(id, j));
  }

  /** The window in which the next thread has exchanged the tail but not linked itself. */
  function UnlockLate(id: Tid, j: Tid): seq<Move> {
    [Move(id, UnlockCheckNext)] + ([Move(id, UnlockCas)] +
      ([Move(j, LockLink)] + ([Move(id, UnlockAwait)] + HandOff(id, j))))
  }

  lemma LateLinks(s: State, id: Tid, j: Tid)
    requires Core(s) && PcOf(s, id).AwaitsNext? && PcOf(s, j) == Links(id)
    ensures var moves := [Move(j, LockLink)] + ([Move(id, UnlockAwait)] + HandOff(id, j));
      Legal(s, moves) && PassedOn(s, Exec(s, moves), id, j)
  {
    var s1 := Apply(s, j, LockLink);
    var s2 := Apply(s1, id, UnlockAwait);
    CoreKept(s, j, LockLink);
    CoreKept(s1, id, UnlockAwait);
    HandsOff(s2, id, j);
    Follow(s1, id, UnlockAwait, HandOff(id, j));
    Follow(s, j, LockLink, [Move(id, UnlockAwait)] + HandOff(id, j));
  }

  /** The release that finds no next thread although one is queued does not lose it: it waits for the
      link and then hands over. */
  lemma UnlockWaitsForLink(s: State, id: Tid, j: Tid)
    requires Core(s) && PcOf(s, id).Critical? && PcOf(s, j) == Links(id)
    ensures Legal(s, UnlockLate(id, j)) && PassedOn(s, Exec(s, UnlockLate(id, j)), id, j)
  {
    var s1 := Apply(s, id, UnlockCheckNext);
    LinkingIsNext(s, id, j);
    var s2 := Apply(s1, id, UnlockCas);
    CoreKept(s, id, UnlockCheckNext);
    CoreKept(s1, id, UnlockCas);
    LateLinks(s2, id, j);
    Follow(s1, id, UnlockCas, [Move(j, LockLink)] + ([Move(id, UnlockAwait)] + HandOff(id, j)));
    Follow(s, id, UnlockCheckNext,
           [Move(id, UnlockCas)] + ([Move(j, LockLink)] + ([Move(id, UnlockAwait)] + HandOff(id, j))));
  }

  lemma LinkingIsNext(s: State, id: Tid, j: Tid)
    requires Core(s) && PcOf(s, id).Critical? && PcOf(s, j) == Links(id)
    ensures NodeOf(s, id).next.None? && s.tail != Some(id)
  {
    assert ThreadOk(s, id) && ThreadOk(s, j);
    assert MemberOk(s, s.ticket[id]) && MemberOk(s, s.ticket[j]);
    assert MemberOk(s, s.ticket[j] - 1);
    assert MemberOk(s, |s.order| - 1);
  }
}
