/** Who gets into the reader-writer lock: a thread left alone gets in exactly when the lock is free
    for it, a lock call returns only with the lock, and no reachable state is stuck. */
module RwLockProgress {
  import opened RwLock
  import opened Sets

  predicate WantsRead(pc: Pc) { pc.ReadLoads? || pc.ReadCas? }

  predicate WantsWrite(pc: Pc) { pc.WriteAnnounces? || pc.WriteLoads? || pc.WriteCas? }

  /** The step a thread inside a lock call takes next; alone, its CAS is not disturbed. */
  function Next(pc: Pc): Step
    requires WantsRead(pc) || WantsWrite(pc)
  {
    match pc
    case ReadLoads => ReadLoad
    case ReadCas(_) => ReadTryCas(true)
    case WriteAnnounces => WriteAnnounce
    case WriteLoads => WriteLoad
    case WriteCas(_) => WriteTryCas(true)
  }

  /** At most `n` steps of thread `id`, until its lock call returns. */
  function Alone(s: State, id: Tid, n: nat): State
    requires id in s.pcs
    ensures id in Alone(s, id, n).pcs
    decreases n
  {
    if n == 0 || !(WantsRead(s.pcs[id]) || WantsWrite(s.pcs[id])) then s
    else Alone(Apply(s, id, Next(s.pcs[id])), id, n - 1)
  }

  ghost predicate Free(s: State) { Readers(s) == {} && Writers(s) == {} }

  /** For a thread that does not read, an empty reader field means that nobody reads. */
  lemma FieldZero(s: State, id: Tid)
    requires Inv(s) && id in s.pcs && id !in Readers(s)
    ensures s.word.readers == 0 <==> Readers(s) == {}
  {
    SubsetSize(Readers(s), s.pcs.Keys - {id});
  }

  // ---------------------------------------------------------------------------
  // Writers
  // ---------------------------------------------------------------------------

  /** The load of a writer lets it try exactly when nobody holds the lock. */
  lemma WriteLoadPasses(s: State, id: Tid)
    requires Inv(s) && Enabled(s, id, WriteLoad)
    ensures Apply(s, id, WriteLoad) == if Free(s) then At(s, id, WriteCas(s.word)) else s
  {
    FieldZero(s, id);
  }

  lemma WriteLoadsAlone(s: State, id: Tid, n: nat)
    requires Inv(s) && Enabled(s, id, WriteLoad) && Free(s) && n >= 2
    ensures Alone(s, id, n).pcs[id].Writing?
  {
    WriteLoadPasses(s, id);
    var s1 := Apply(s, id, WriteLoad);
    assert Alone(s, id, n) == Alone(s1, id, n - 1) == Alone(Apply(s1, id, WriteTryCas(true)), id, n - 2);
  }

  lemma WriteGetsIn(s: State, id: Tid)
    requires Inv(s) && id in s.pcs && WantsWrite(s.pcs[id]) && Free(s)
    ensures Alone(s, id, 3).pcs[id].Writing?
  {
    var st := Next(s.pcs[id]);
    SetStep(s, id, st);
    InvKept(s, id, st);
    if s.pcs[id].WriteLoads? {
      WriteLoadsAlone(s, id, 3);
    } else if !Acquires(s, id, st) {
      WriteLoadsAlone(Apply(s, id, st), id, 2);
    }
  }

  lemma {:induction false} WriteKeepsWaiting(s: State, id: Tid, n: nat)
    requires Inv(s) && id in s.pcs && WantsWrite(s.pcs[id]) && !Free(s)
    ensures WantsWrite(Alone(s, id, n).pcs[id])
    decreases n
  {
    if n > 0 {
      var st := Next(s.pcs[id]);
      SetStep(s, id, st);
      InvKept(s, id, st);
      FieldZero(s, id);
      assert CasOk(s.pcs[id]);
      WriteKeepsWaiting(Apply(s, id, st), id, n - 1);
    }
  }

  /** A writer left alone is in after three steps exactly when nobody holds the lock, wherever in its
      call it stands and however old the word it has seen is; otherwise it waits for ever. */
  lemma WriterGetsInExactlyWhen(s: State, id: Tid, n: nat)
    requires Inv(s) && id in s.pcs && WantsWrite(s.pcs[id]) && n >= 3
    ensures id in Writers(Alone(s, id, 3)) <==> Readers(s) == {} && Writers(s) == {}
    ensures !(Readers(s) == {} && Writers(s) == {}) ==> WantsWrite(Alone(s, id, n).pcs[id])
  {
    if Free(s) {
      WriteGetsIn(s, id);
    } else {
      WriteKeepsWaiting(s, id, 3);
      WriteKeepsWaiting(s, id, n);
    }
  }

  // ---------------------------------------------------------------------------
  // Readers
  // ---------------------------------------------------------------------------

  ghost predicate Open(s: State) { Writers(s) == {} && !s.announced }

  lemma ReadGetsIn(s: State, id: Tid)
    requires Inv(s) && id in s.pcs && WantsRead(s.pcs[id]) && Open(s)
    ensures Alone(s, id, 3).pcs[id].Reading?
  {
    var st := Next(s.pcs[id]);
    var s1 := Apply(s, id, st);
    if !Admits(s, id, st) {
      var s2 := Apply(s1, id, Next(s1.pcs[id]));
      assert Alone(s, id, 3) == Alone(s1, id, 2) == Alone(s2, id, 1);
      if s2.pcs[id].ReadCas? { assert Alone(s2, id, 1) == Alone(Apply(s2, id, ReadTryCas(true)), id, 0); }
    }
  }

  lemma {:induction false} ReadKeepsWaiting(s: State, id: Tid, n: nat)
    requires Inv(s) && id in s.pcs && WantsRead(s.pcs[id]) && !Open(s)
    ensures WantsRead(Alone(s, id, n).pcs[id])
    decreases n
  {
    if n > 0 {
      var st := Next(s.pcs[id]);
      SetStep(s, id, st);
      InvKept(s, id, st);
      assert CasOk(s.pcs[id]);
      ReadKeepsWaiting(Apply(s, id, st), id, n - 1);
    }
  }

  /** A reader left alone is in after three steps exactly when nobody writes and no writer is
      announced; otherwise it waits for ever. */
  lemma ReaderGetsInExactlyWhen(s: State, id: Tid, n: nat)
    requires Inv(s) && id in s.pcs && WantsRead(s.pcs[id]) && n >= 3
    ensures id in Readers(Alone(s, id, 3)) <==> Writers(s) == {} && !s.announced
    ensures !(Writers(s) == {} && !s.announced) ==> WantsRead(Alone(s, id, n).pcs[id])
  {
    if Open(s) {
      ReadGetsIn(s, id);
    } else {
      ReadKeepsWaiting(s, id, 3);
      ReadKeepsWaiting(s, id, n);
    }
  }

  // ---------------------------------------------------------------------------
  // Whole runs
  // ---------------------------------------------------------------------------

  /** A lock call returns only with the lock, an unlock returns at once, and a step moves no other
      thread. */
  lemma ReturnsHolding(s: State, id: Tid, st: Step)
    requires Enabled(s, id, st)
    ensures var pc, pc' := s.pcs[id], Apply(s, id, st).pcs[id];
      && (WantsRead(pc) ==> WantsRead(pc') || pc'.Reading?)
      && (WantsWrite(pc) ==> WantsWrite(pc') || pc'.Writing?)
      && (pc.Out? ==> if st.ReadBegin? then WantsRead(pc') else WantsWrite(pc'))
      && (pc.Reading? || pc.Writing? ==> pc'.Out?)
    ensures forall j :: j in s.pcs && j != id ==> j in Apply(s, id, st).pcs && Apply(s, id, st).pcs[j] == s.pcs[j]
  {}

  /** An announcement is somebody's: a writer is still waiting. */
  ghost predicate Answered(s: State) {
    s.announced ==> Waiters(s) != {}
  }

  lemma {:induction false} AnsweredAlways(s: State, moves: seq<Move>)
    requires Answered(s) && Legal(s, moves)
    ensures Answered(Exec(s, moves))
    decreases |moves|
  {
    if moves != [] {
      WaitersStep(s, moves[0].id, moves[0].st);
      AnsweredAlways(Apply(s, moves[0].id, moves[0].st), moves[1..]);
    }
  }

  /** The call of thread `id` can return by steps of its own. */
  ghost predicate CanEnter(s: State, id: Tid) {
    && id in s.pcs && (WantsRead(s.pcs[id]) || WantsWrite(s.pcs[id]))
    && id in Readers(Alone(s, id, 3)) + Writers(Alone(s, id, 3))
  }

  /** The lock is never stuck: in every reachable state in which nobody holds it and some thread wants
      it, some thread can enter. */
  lemma NeverStuck(threads: set<Tid>, moves: seq<Move>, id: Tid)
    requires |threads| <= MAX_READERS && Legal(Init(threads), moves)
    requires var s := Exec(Init(threads), moves);
      && Readers(s) == {} && Writers(s) == {}
      && id in s.pcs && (WantsRead(s.pcs[id]) || WantsWrite(s.pcs[id]))
    ensures exists j :: CanEnter(Exec(Init(threads), moves), j)
  {
    var s := Exec(Init(threads), moves);
    InvInitially(threads);
    InvAlways(Init(threads), moves);
    AnsweredAlways(Init(threads), moves);
    if WantsWrite(s.pcs[id]) {
      WriterGetsInExactlyWhen(s, id, 3);
      assert CanEnter(s, id);
    } else if s.announced {
      var j :| j in Waiters(s);
      WriterGetsInExactlyWhen(s, j, 3);
      assert CanEnter(s, j);
    } else {
      ReaderGetsInExactlyWhen(s, id, 3);
      assert CanEnter(s, id);
    }
  }
}
