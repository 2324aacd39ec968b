/** The reader-writer spinlock: one 32-bit word, bit 0 an active writer, bit 1 an announced
    writer, the rest the number of readers.

    One step per access to the word, at most 2^30 threads in any interleaving, weak CAS that
    may fail for no reason.  The steps work on the word cut into its three fields; `Encode` is
    the 32-bit number, and `CountOperations`, `TestOperations` and `MaskOperations` give the
    source's wrap-around and mask arithmetic for each operation. */
module RwLock {
  import opened Bits
  import opened Sets

  type Tid = nat

  const ACTIVE := 1
  const WAITING := 2
  const READER_INCR := 4
  const WORD := 0x1_0000_0000
  const MAX_READERS := 0x4000_0000

  /** The word, field by field. */
  datatype Word = Word(readers: nat, waiting: bool, active: bool)

  /** `state + RWS_READER_INCR`. */
  function AddReader(w: Word): Word {
    w.(readers := if w.readers == MAX_READERS - 1 then 0 else w.readers + 1)
  }

  /** `state - RWS_READER_INCR`. */
  function DropReader(w: Word): Word {
    w.(readers := if w.readers == 0 then MAX_READERS - 1 else w.readers - 1)
  }

  /** `state & (ACTIVE | WAITING)`. */
  predicate WriterAround(w: Word) { w.active || w.waiting }

  /** `(state & READER_MASK) == 0 && !(state & ACTIVE)`. */
  predicate WriterMayTake(w: Word) { w.readers == 0 && !w.active }

  /** `state | WAITING`. */
  function Announced(w: Word): Word { w.(waiting := true) }

  /** `(state & ~WAITING) | ACTIVE`. */
  function Taken(w: Word): Word { w.(waiting := false, active := true) }

  /** `state & ~ACTIVE`. */
  function Released(w: Word): Word { w.(active := false) }

  datatype Pc = Out | ReadLoads | ReadCas(w: Word) | Reading
              | WriteAnnounces | WriteLoads | WriteCas(w: Word) | Writing

  /** `announced` is history: some writer announced itself since the last write acquisition. */
  datatype State = State(word: Word, pcs: map<Tid, Pc>, announced: bool)

  datatype Step =
    | ReadBegin | ReadLoad | ReadTryCas(works: bool) | ReadUnlock
    | WriteBegin | WriteAnnounce | WriteLoad | WriteTryCas(works: bool) | WriteUnlock

  predicate Enabled(s: State, id: Tid, st: Step) {
    id in s.pcs &&
    match st
    case ReadBegin => s.pcs[id].Out?
    case ReadLoad => s.pcs[id].ReadLoads?
    case ReadTryCas(_) => s.pcs[id].ReadCas?
    case ReadUnlock => s.pcs[id].Reading?
    case WriteBegin => s.pcs[id].Out?
    case WriteAnnounce => s.pcs[id].WriteAnnounces?
    case WriteLoad => s.pcs[id].WriteLoads?
    case WriteTryCas(_) => s.pcs[id].WriteCas?
    case WriteUnlock => s.pcs[id].Writing?
  }

  function At(s: State, id: Tid, pc: Pc): State {
    s.(pcs := s.pcs[id := pc])
  }

  /** One atomic step of thread `id`. */
  function Apply(s: State, id: Tid, st: Step): State
    requires Enabled(s, id, st)
  {
    match st
    case ReadBegin => At(s, id, ReadLoads)
    case ReadLoad => if WriterAround(s.word) then s else At(s, id, ReadCas(s.word))
    case ReadTryCas(works) =>
      var w := s.pcs[id].w;
      if works && s.word == w then At(s, id, Reading).(word := AddReader(w))
      else At(s, id, ReadLoads)
    case ReadUnlock => At(s, id, Out).(word := DropReader(s.word))
    case WriteBegin => At(s, id, WriteAnnounces)
    case WriteAnnounce => At(s, id, WriteLoads).(word := Announced(s.word), announced := true)
    case WriteLoad => if WriterMayTake(s.word) then At(s, id, WriteCas(s.word)) else s
    case WriteTryCas(works) =>
      var w := s.pcs[id].w;
      if works && s.word == w then At(s, id, Writing).(word := Taken(w), announced := false)
      else At(s, id, WriteLoads)
    case WriteUnlock => At(s, id, Out).(word := Released(s.word))
  }

  // ---------------------------------------------------------------------------
  // The packed word
  // ---------------------------------------------------------------------------

  function Bit(b: bool): nat {
    if b then 1 else 0
  }

  /** The 32-bit number. */
  function Encode(w: Word): nat {
    READER_INCR * w.readers + WAITING * Bit(w.waiting) + ACTIVE * Bit(w.active)
  }

  /** Every 32-bit number is one word, so comparing words is comparing numbers. */
  lemma EncodeIsExact(v: Word, w: Word)
    ensures Encode(v) == Encode(w) <==> v == w
  {
    assert READER_INCR * v.readers - READER_INCR * w.readers == READER_INCR * (v.readers - w.readers);
  }

  /** `&` and `|` of a packed word, field by field. */
  lemma {:induction false} AndFields(w: Word, m: Word)
    ensures BitAnd(Encode(w), Encode(m)) ==
            Encode(Word(BitAnd(w.readers, m.readers), w.waiting && m.waiting, w.active && m.active))
  {
    AndByBit(w.readers, m.readers, Bit(w.waiting), Bit(m.waiting));
    AndByBit(2 * w.readers + Bit(w.waiting), 2 * m.readers + Bit(m.waiting), Bit(w.active), Bit(m.active));
  }

  lemma {:induction false} OrFields(w: Word, m: Word)
    requires m.readers == 0
    ensures BitOr(Encode(w), Encode(m)) ==
            Encode(Word(w.readers, w.waiting || m.waiting, w.active || m.active))
  {
    var hi, low := 2 * w.readers + Bit(w.waiting), Bit(m.waiting);
    OrZero(w.readers);
    OrByBit(w.readers, 0, Bit(w.waiting), Bit(m.waiting));
    assert BitOr(hi, low) == 2 * w.readers + Bit(w.waiting || m.waiting);
    OrByBit(hi, low, Bit(w.active), Bit(m.active));
    assert Encode(w) == 2 * hi + Bit(w.active) && Encode(m) == 2 * low + Bit(m.active);
  }

  lemma {:induction false} ReadersMask(r: nat)
    requires r < MAX_READERS
    ensures BitAnd(r, MAX_READERS - 1) == r
  {
    var n := Power(30);
    PowerIsPowerOfTwo(30);
    MaskIsModulo(r, n);
    PowerThirty();
  }

  /** Adding and removing a reader is adding and subtracting 4 modulo 2^32. */
  lemma CountOperations(w: Word)
    requires w.readers < MAX_READERS
    ensures Encode(w) < WORD
    ensures Encode(AddReader(w)) == (Encode(w) + READER_INCR) % WORD
    ensures Encode(DropReader(w)) == (Encode(w) - READER_INCR) % WORD
  {
    var e := Encode(w);
    var more, less := Encode(AddReader(w)), Encode(DropReader(w));
    assert e < WORD && more < WORD && less < WORD;
    ModuloUnique(e + READER_INCR, WORD, if w.readers == MAX_READERS - 1 then 1 else 0, more);
    ModuloUnique(e - READER_INCR, WORD, if w.readers == 0 then -1 else 0, less);
  }

  /** Every test of the source on the 32-bit number reads its own field and no other. */
  lemma {:induction false} TestOperations(w: Word)
    requires w.readers < MAX_READERS
    ensures WriterAround(w) <==> BitAnd(Encode(w), ACTIVE + WAITING) != 0
    ensures WriterMayTake(w) <==>
            BitAnd(Encode(w), WORD - 1 - (ACTIVE + WAITING)) == 0 && BitAnd(Encode(w), ACTIVE) == 0
  {
    ReadersMask(w.readers);
    AndFields(w, Word(0, true, true));
    AndFields(w, Word(0, false, true));
    AndFields(w, Word(MAX_READERS - 1, false, false));
  }

  lemma {:induction false} AnnounceOperation(w: Word)
    ensures Encode(Announced(w)) == BitOr(Encode(w), WAITING)
  {
    OrFields(w, Word(0, true, false));
  }

  lemma {:induction false} TakeOperation(w: Word)
    requires w.readers < MAX_READERS
    ensures Encode(Taken(w)) == BitOr(BitAnd(Encode(w), WORD - 1 - WAITING), ACTIVE)
  {
    ReadersMask(w.readers);
    AndFields(w, Word(MAX_READERS - 1, false, true));
    OrFields(Word(w.readers, false, w.active), Word(0, false, true));
  }

  lemma {:induction false} ReleaseOperation(w: Word)
    requires w.readers < MAX_READERS
    ensures Encode(Released(w)) == BitAnd(Encode(w), WORD - 1 - ACTIVE)
  {
    ReadersMask(w.readers);
    AndFields(w, Word(MAX_READERS - 1, true, false));
  }

  /** Every update of the source on the 32-bit number writes its own field and no other. */
  lemma {:induction false} MaskOperations(w: Word)
    requires w.readers < MAX_READERS
    ensures Encode(Announced(w)) == BitOr(Encode(w), WAITING)
    ensures Encode(Taken(w)) == BitOr(BitAnd(Encode(w), WORD - 1 - WAITING), ACTIVE)
    ensures Encode(Released(w)) == BitAnd(Encode(w), WORD - 1 - ACTIVE)
  {
    AnnounceOperation(w);
    TakeOperation(w);
    ReleaseOperation(w);
  }

  // ---------------------------------------------------------------------------
  // Invariant
  // ---------------------------------------------------------------------------

  function Readers(s: State): set<Tid> {
    set id | id in s.pcs && s.pcs[id].Reading?
  }

  function Writers(s: State): set<Tid> {
    set id | id in s.pcs && s.pcs[id].Writing?
  }

  /** The reader field when `n` threads read. */
  function Field(n: nat): nat {
    if n == MAX_READERS then 0 else n
  }

  /** The word decodes to the true number of readers, the announcement and the active writer; when
      2^30 threads read, the field has wrapped to 0. */
  ghost predicate Inv(s: State) {
    && |s.pcs.Keys| <= MAX_READERS
    && s.word == Word(Field(|Readers(s)|), s.announced, Writers(s) != {})
    && (forall i, j :: i in Writers(s) && j in Writers(s) ==> i == j)
    && (Writers(s) != {} ==> Readers(s) == {})
    && (forall id :: id in s.pcs ==> CasOk(s.pcs[id]))
  }

  /** What a thread saw before its CAS. */
  predicate CasOk(pc: Pc) {
    && (pc.ReadCas? ==> !WriterAround(pc.w))
    && (pc.WriteCas? ==> WriterMayTake(pc.w))
  }

  /** A CAS that succeeds admits a reader, respectively a writer. */
  predicate Admits(s: State, id: Tid, st: Step)
    requires Enabled(s, id, st)
  {
    st.ReadTryCas? && st.works && s.word == s.pcs[id].w
  }

  predicate Acquires(s: State, id: Tid, st: Step)
    requires Enabled(s, id, st)
  {
    st.WriteTryCas? && st.works && s.word == s.pcs[id].w
  }

  /** What a step does to the readers and the writers. */
  lemma SetStep(s: State, id: Tid, st: Step)
    requires Enabled(s, id, st)
    ensures var s' := Apply(s, id, st);
      && s'.pcs.Keys == s.pcs.Keys
      && Readers(s') == (if Admits(s, id, st) then Readers(s) + {id}
                         else if st.ReadUnlock? then Readers(s) - {id} else Readers(s))
      && Writers(s') == (if Acquires(s, id, st) then Writers(s) + {id}
                         else if st.WriteUnlock? then Writers(s) - {id} else Writers(s))
      && (id in Readers(s) <==> st.ReadUnlock?)
      && (id in Writers(s) <==> st.WriteUnlock?)
  {}

  lemma LoadsKeep(s: State, id: Tid, st: Step)
    requires Inv(s) && Enabled(s, id, st)
    requires st.ReadBegin? || st.ReadLoad? || st.WriteBegin? || st.WriteLoad?
    ensures Inv(Apply(s, id, st))
  {
    SetStep(s, id, st);
  }

  lemma ReadCasKeeps(s: State, id: Tid, works: bool)
    requires Inv(s) && Enabled(s, id, ReadTryCas(works))
    ensures Inv(Apply(s, id, ReadTryCas(works)))
  {
    SetStep(s, id, ReadTryCas(works));
    SubsetSize(Readers(Apply(s, id, ReadTryCas(works))), s.pcs.Keys);
    assert CasOk(s.pcs[id]);
  }

  lemma ReadUnlockKeeps(s: State, id: Tid)
    requires Inv(s) && Enabled(s, id, ReadUnlock)
    ensures Inv(Apply(s, id, ReadUnlock))
  {
    SetStep(s, id, ReadUnlock);
    SubsetSize(Readers(s), s.pcs.Keys);
  }

  lemma AnnounceKeeps(s: State, id: Tid)
    requires Inv(s) && Enabled(s, id, WriteAnnounce)
    ensures Inv(Apply(s, id, WriteAnnounce))
  {
    SetStep(s, id, WriteAnnounce);
  }

  lemma WriteCasKeeps(s: State, id: Tid, works: bool)
    requires Inv(s) && Enabled(s, id, WriteTryCas(works))
    ensures Inv(Apply(s, id, WriteTryCas(works)))
  {
    SetStep(s, id, WriteTryCas(works));
    assert CasOk(s.pcs[id]);
    SubsetSize(Readers(s), s.pcs.Keys - {id});
  }

  lemma WriteUnlockKeeps(s: State, id: Tid)
    requires Inv(s) && Enabled(s, id, WriteUnlock)
    ensures Inv(Apply(s, id, WriteUnlock))
  {
    SetStep(s, id, WriteUnlock);
  }

  lemma InvKept(s: State, id: Tid, st: Step)
    requires Inv(s) && Enabled(s, id, st)
    ensures Inv(Apply(s, id, st))
  {
    match st
    case ReadBegin => LoadsKeep(s, id, st);
    case ReadLoad => LoadsKeep(s, id, st);
    case WriteBegin => LoadsKeep(s, id, st);
    case WriteLoad => LoadsKeep(s, id, st);
    case ReadTryCas(works) => ReadCasKeeps(s, id, works);
    case ReadUnlock => ReadUnlockKeeps(s, id);
    case WriteAnnounce => AnnounceKeeps(s, id);
    case WriteTryCas(works) => WriteCasKeeps(s, id, works);
    case WriteUnlock => WriteUnlockKeeps(s, id);
  }

  // ---------------------------------------------------------------------------
  // Whole runs
  // ---------------------------------------------------------------------------

  /** `nkit_rws_init`, with a fixed set of threads. */
  function Init(threads: set<Tid>): State {
    State(Word(0, false, false), map id | id in threads :: Out, false)
  }

  datatype Move = Move(id: Tid, st: Step)

  ghost predicate Legal(s: State, moves: seq<Move>)
    decreases |moves|
  {
    moves == [] ||
    (Enabled(s, moves[0].id, moves[0].st) && Legal(Apply(s, moves[0].id, moves[0].st), moves[1..]))
  }

  ghost function Exec(s: State, moves: seq<Move>): State
    requires Legal(s, moves)
    decreases |moves|
  {
    if moves == [] then s else Exec(Apply(s, moves[0].id, moves[0].st), moves[1..])
  }

  lemma {:induction false} InvAlways(s: State, moves: seq<Move>)
    requires Inv(s) && Legal(s, moves)
    ensures Inv(Exec(s, moves))
    decreases |moves|
  {
    if moves != [] {
      InvKept(s, moves[0].id, moves[0].st);
      InvAlways(Apply(s, moves[0].id, moves[0].st), moves[1..]);
    }
  }

  /** A writer is alone. */
  ghost predicate Exclusive(s: State) {
    forall i, j :: i in Writers(s) && j in Readers(s) + Writers(s) ==> i == j
  }

  /** The number in memory is the encoding of the true reader count, announcement and writer flag. */
  ghost predicate Exact(s: State) {
    Encode(s.word) == 4 * |Readers(s)| + 2 * Bit(s.announced) + Bit(Writers(s) != {})
  }

  lemma InvInitially(threads: set<Tid>)
    requires |threads| <= MAX_READERS
    ensures Inv(Init(threads))
  {
    var s := Init(threads);
    assert s.pcs.Keys == threads;
    assert Readers(s) == {} && Writers(s) == {};
  }

  /** In every reachable state a writer is alone, and with fewer than 2^30 threads the number in
      memory is exact. */
  lemma Exclusion(threads: set<Tid>, moves: seq<Move>)
    requires |threads| <= 0x4000_0000 && Legal(Init(threads), moves)
    ensures Exclusive(Exec(Init(threads), moves))
    ensures |threads| < 0x4000_0000 ==> Exact(Exec(Init(threads), moves))
  {
    InvInitially(threads);
    InvAlways(Init(threads), moves);
    var s := Exec(Init(threads), moves);
    SameThreads(Init(threads), moves);
    assert Init(threads).pcs.Keys == threads;
    SubsetSize(Readers(s), s.pcs.Keys);
  }

  lemma {:induction false} SameThreads(s: State, moves: seq<Move>)
    requires Legal(s, moves)
    ensures Exec(s, moves).pcs.Keys == s.pcs.Keys
    decreases |moves|
  {
    if moves != [] {
      SetStep(s, moves[0].id, moves[0].st);
      SameThreads(Apply(s, moves[0].id, moves[0].st), moves[1..]);
    }
  }

  /** No write acquisition happens during the run. */
  ghost predicate NobodyAcquires(s: State, moves: seq<Move>)
    requires Legal(s, moves)
    decreases |moves|
  {
    moves == [] ||
    (&& !Acquires(s, moves[0].id, moves[0].st)
     && NobodyAcquires(Apply(s, moves[0].id, moves[0].st), moves[1..]))
  }

  /** Read releases during the run. */
  ghost function Releases(s: State, moves: seq<Move>): nat
    requires Legal(s, moves)
    decreases |moves|
  {
    if moves == [] then 0
    else (if moves[0].st.ReadUnlock? then 1 else 0) + Releases(Apply(s, moves[0].id, moves[0].st), moves[1..])
  }

  /** From an announcement until the next write acquisition no reader is admitted: the readers
      only leave, and each release is by one of those present at the start. */
  lemma {:induction false} AnnouncementBlocksReaders(s: State, moves: seq<Move>)
    requires Inv(s) && s.announced && Legal(s, moves) && NobodyAcquires(s, moves)
    ensures Exec(s, moves).announced
    ensures Readers(Exec(s, moves)) <= Readers(s)
    ensures Releases(s, moves) + |Readers(Exec(s, moves))| == |Readers(s)|
    decreases |moves|
  {
    if moves != [] {
      var id, st := moves[0].id, moves[0].st;
      SetStep(s, id, st);
      InvKept(s, id, st);
      assert CasOk(s.pcs[id]);
      AnnouncementBlocksReaders(Apply(s, id, st), moves[1..]);
    }
  }

  // ---------------------------------------------------------------------------
  // Writer preference
  // ---------------------------------------------------------------------------

  /** The writers that have announced themselves and not got in yet. */
  function Waiters(s: State): set<Tid> {
    set id | id in s.pcs && (s.pcs[id].WriteLoads? || s.pcs[id].WriteCas?)
  }

  /** Whoever waits, the bit that holds readers back is set. */
  ghost predicate Preferred(s: State) {
    Waiters(s) != {} ==> s.announced
  }

  /** An acquisition that leaves another writer waiting: it clears the bit they share. */
  predicate Crowded(s: State, id: Tid, st: Step)
    requires Enabled(s, id, st)
  {
    Acquires(s, id, st) && Waiters(s) - {id} != {}
  }

  lemma WaitersStep(s: State, id: Tid, st: Step)
    requires Enabled(s, id, st)
    ensures Waiters(Apply(s, id, st)) ==
            (if st.WriteAnnounce? then Waiters(s) + {id}
             else if Acquires(s, id, st) then Waiters(s) - {id} else Waiters(s))
  {}

  /** A step ends the preference of waiting writers exactly when it is a crowded acquisition; as long
      as they are preferred no reader gets past one. */
  lemma PreferredExactlyWhen(s: State, id: Tid, st: Step)
    requires Inv(s) && Preferred(s) && Enabled(s, id, st)
    ensures Preferred(Apply(s, id, st)) <==> !Crowded(s, id, st)
    ensures Admits(s, id, st) ==> Waiters(s) == {}
  {
    WaitersStep(s, id, st);
    assert CasOk(s.pcs[id]);
  }

  /** Some reader of the run is admitted while a writer waits. */
  ghost predicate Overtaken(s: State, moves: seq<Move>)
    requires Legal(s, moves)
    decreases |moves|
  {
    moves != [] &&
    (|| (Admits(s, moves[0].id, moves[0].st) && Waiters(s) != {})
     || Overtaken(Apply(s, moves[0].id, moves[0].st), moves[1..]))
  }

  ghost predicate NeverCrowded(s: State, moves: seq<Move>)
    requires Legal(s, moves)
    decreases |moves|
  {
    moves == [] ||
    (!Crowded(s, moves[0].id, moves[0].st) && NeverCrowded(Apply(s, moves[0].id, moves[0].st), moves[1..]))
  }

  /** Writers are preferred in every run without a crowded acquisition. */
  lemma {:induction false} NobodyOvertakes(s: State, moves: seq<Move>)
    requires Inv(s) && Preferred(s) && Legal(s, moves) && NeverCrowded(s, moves)
    ensures !Overtaken(s, moves) && Preferred(Exec(s, moves))
    decreases |moves|
  {
    if moves != [] {
      PreferredExactlyWhen(s, moves[0].id, moves[0].st);
      InvKept(s, moves[0].id, moves[0].st);
      NobodyOvertakes(Apply(s, moves[0].id, moves[0].st), moves[1..]);
    }
  }

  /** So from the start: no reader of such a run gets past a waiting writer. */
  lemma WritersPreferred(threads: set<Tid>, moves: seq<Move>)
    requires |threads| <= MAX_READERS && Legal(Init(threads), moves) && NeverCrowded(Init(threads), moves)
    ensures !Overtaken(Init(threads), moves)
  {
    InvInitially(threads);
    assert Waiters(Init(threads)) == {};
    NobodyOvertakes(Init(threads), moves);
  }

  lemma {:induction false} UncrowdedWithoutAcquisition(s: State, moves: seq<Move>)
    requires Legal(s, moves) && NobodyAcquires(s, moves)
    ensures NeverCrowded(s, moves)
    decreases |moves|
  {
    if moves != [] { UncrowdedWithoutAcquisition(Apply(s, moves[0].id, moves[0].st), moves[1..]); }
  }

  /** Before the next acquisition a reader may get past a writer that waits now. */
  ghost predicate MayBeOvertaken(s: State) {
    exists moves :: Legal(s, moves) && NobodyAcquires(s, moves) && Overtaken(s, moves)
  }

  /** The writer that got in leaves, comes back as a reader, and is admitted. */
  lemma ComesBackReading(s: State, id: Tid) returns (moves: seq<Move>)
    requires Inv(s) && id in Writers(s) && !s.announced && Waiters(s) != {}
    ensures Legal(s, moves) && NobodyAcquires(s, moves) && Overtaken(s, moves)
  {
    var s1 := Apply(s, id, WriteUnlock);
    var s2 := Apply(s1, id, ReadBegin);
    var s3 := Apply(s2, id, ReadLoad);
    SetStep(s, id, WriteUnlock);
    WaitersStep(s, id, WriteUnlock);
    WaitersStep(s1, id, ReadBegin);
    WaitersStep(s2, id, ReadLoad);
    var last := [Move(id, ReadTryCas(true))];
    assert Legal(Apply(s3, id, ReadTryCas(true)), []) && last[1..] == [];
    assert Admits(s3, id, ReadTryCas(true));
    assert Legal(s3, last) && Overtaken(s3, last) && NobodyAcquires(s3, last);
    var more := [Move(id, ReadLoad)] + last;
    assert more[1..] == last;
    assert Legal(s2, more) && Overtaken(s2, more) && NobodyAcquires(s2, more);
    var most := [Move(id, ReadBegin)] + more;
    assert most[1..] == more;
    assert Legal(s1, most) && Overtaken(s1, most) && NobodyAcquires(s1, most);
    moves := [Move(id, WriteUnlock)] + most;
    assert moves[1..] == most;
  }

  /** An acquisition opens the way for a reader past a waiting writer exactly when it is crowded. */
  lemma OvertakenExactlyWhen(s: State, id: Tid, st: Step)
    requires Inv(s) && Enabled(s, id, st) && Acquires(s, id, st)
    ensures MayBeOvertaken(Apply(s, id, st)) <==> Waiters(s) - {id} != {}
  {
    var s' := Apply(s, id, st);
    SetStep(s, id, st);
    InvKept(s, id, st);
    WaitersStep(s, id, st);
    if Waiters(s) - {id} != {} {
      var moves := ComesBackReading(s', id);
    } else {
      forall moves | Legal(s', moves) && NobodyAcquires(s', moves) ensures !Overtaken(s', moves) {
        UncrowdedWithoutAcquisition(s', moves);
        NobodyOvertakes(s', moves);
      }
    }
  }

  lemma Prepend(s: State, id: Tid, st: Step, rest: seq<Move>)
    requires Enabled(s, id, st) && Legal(Apply(s, id, st), rest)
    ensures Legal(s, [Move(id, st)] + rest)
    ensures Exec(s, [Move(id, st)] + rest) == Exec(Apply(s, id, st), rest)
  {
    assert ([Move(id, st)] + rest)[1..] == rest;
  }

  lemma TwoAnnounce(rest: seq<Move>) returns (moves: seq<Move>)
    requires Legal(State(Word(0, true, false), map[1 := WriteLoads, 2 := WriteLoads, 3 := Out], true), rest)
    ensures Legal(Init({1, 2, 3}), moves)
    ensures Exec(Init({1, 2, 3}), moves) ==
            Exec(State(Word(0, true, false), map[1 := WriteLoads, 2 := WriteLoads, 3 := Out], true), rest)
  {
    var s := Init({1, 2, 3});
    var s1 := Apply(s, 1, WriteBegin);
    var s2 := Apply(s1, 1, WriteAnnounce);
    var s3 := Apply(s2, 2, WriteBegin);
    assert Apply(s3, 2, WriteAnnounce).pcs == map[1 := WriteLoads, 2 := WriteLoads, 3 := Out];
    Prepend(s3, 2, WriteAnnounce, rest);
    Prepend(s2, 2, WriteBegin, [Move(2, WriteAnnounce)] + rest);
    Prepend(s1, 1, WriteAnnounce, [Move(2, WriteBegin)] + ([Move(2, WriteAnnounce)] + rest));
    moves := [Move(1, WriteAnnounce)] + ([Move(2, WriteBegin)] + ([Move(2, WriteAnnounce)] + rest));
    Prepend(s, 1, WriteBegin, moves);
    moves := [Move(1, WriteBegin)] + moves;
  }

  lemma FirstWrites(rest: seq<Move>) returns (moves: seq<Move>)
    requires Legal(State(Word(0, false, false), map[1 := Out, 2 := WriteLoads, 3 := Out], false), rest)
    ensures var s := State(Word(0, true, false), map[1 := WriteLoads, 2 := WriteLoads, 3 := Out], true);
      && Legal(s, moves)
      && Exec(s, moves) == Exec(State(Word(0, false, false), map[1 := Out, 2 := WriteLoads, 3 := Out], false), rest)
  {
    var s := State(Word(0, true, false), map[1 := WriteLoads, 2 := WriteLoads, 3 := Out], true);
    var s1 := Apply(s, 1, WriteLoad);
    var s2 := Apply(s1, 1, WriteTryCas(true));
    assert Apply(s2, 1, WriteUnlock).pcs == map[1 := Out, 2 := WriteLoads, 3 := Out];
    Prepend(s2, 1, WriteUnlock, rest);
    Prepend(s1, 1, WriteTryCas(true), [Move(1, WriteUnlock)] + rest);
    moves := [Move(1, WriteTryCas(true))] + ([Move(1, WriteUnlock)] + rest);
    Prepend(s, 1, WriteLoad, moves);
    moves := [Move(1, WriteLoad)] + moves;
  }

  /** Writers are not preferred when two wait: the first to acquire clears the shared bit, and a
      reader overtakes the second, which has announced itself and still waits. */
  lemma ReaderOvertakesWriter() returns (moves: seq<Move>)
    ensures Legal(Init({1, 2, 3}), moves)
    ensures var e := Exec(Init({1, 2, 3}), moves);
      3 in Readers(e) && 2 in e.pcs && e.pcs[2] == WriteLoads
  {
    var s := State(Word(0, false, false), map[1 := Out, 2 := WriteLoads, 3 := Out], false);
    var s1 := Apply(s, 3, ReadBegin);
    var s2 := Apply(s1, 3, ReadLoad);
    var s3 := Apply(s2, 3, ReadTryCas(true));
    assert Legal(s3, []) && Exec(s3, []) == s3;
    Prepend(s2, 3, ReadTryCas(true), []);
    Prepend(s1, 3, ReadLoad, [Move(3, ReadTryCas(true))] + []);
    moves := [Move(3, ReadLoad)] + ([Move(3, ReadTryCas(true))] + []);
    Prepend(s, 3, ReadBegin, moves);
    moves := [Move(3, ReadBegin)] + moves;
    moves := FirstWrites(moves);
    moves := TwoAnnounce(moves);
  }
}
