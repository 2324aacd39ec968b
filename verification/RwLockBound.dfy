/** How many threads the packed word of the reader-writer lock bears: the 30-bit reader field wraps
    when 2^30 of them read, and one more thread can then write beside them. */
module RwLockBound {
  import opened RwLock
  import opened Sets

  /** The threads `done` read, the others are outside. */
  function Pile(threads: set<Tid>, done: set<Tid>): State {
    State(Word(Field(|done|), false, false), map id | id in threads :: if id in done then Reading else Out, false)
  }

  lemma OneMoreReads(threads: set<Tid>, done: set<Tid>, id: Tid, rest: seq<Move>) returns (moves: seq<Move>)
    requires done <= threads && id in threads - done && |done| < MAX_READERS
    requires Legal(Pile(threads, done + {id}), rest)
    ensures Legal(Pile(threads, done), moves)
    ensures Exec(Pile(threads, done), moves) == Exec(Pile(threads, done + {id}), rest)
  {
    var s := Pile(threads, done);
    var s1 := Apply(s, id, ReadBegin);
    var s2 := Apply(s1, id, ReadLoad);
    var s3 := Apply(s2, id, ReadTryCas(true));
    assert s3.pcs == Pile(threads, done + {id}).pcs && |done + {id}| == |done| + 1;
    Prepend(s2, id, ReadTryCas(true), rest);
    moves := [Move(id, ReadTryCas(true))] + rest;
    Prepend(s1, id, ReadLoad, moves);
    moves := [Move(id, ReadLoad)] + moves;
    Prepend(s, id, ReadBegin, moves);
    moves := [Move(id, ReadBegin)] + moves;
  }

  lemma {:induction false} AllRead(threads: set<Tid>, done: set<Tid>, target: set<Tid>, rest: seq<Move>)
    returns (moves: seq<Move>)
    requires done <= target <= threads && |target| <= MAX_READERS && Legal(Pile(threads, target), rest)
    ensures Legal(Pile(threads, done), moves)
    ensures Exec(Pile(threads, done), moves) == Exec(Pile(threads, target), rest)
    decreases |target - done|
  {
    if target - done == {} {
      assert done == target;
      moves := rest;
    } else {
      var id :| id in target - done;
      assert |done + {id}| == |done| + 1;
      SubsetSize(done + {id}, target);
      assert target - (done + {id}) == target - done - {id};
      moves := AllRead(threads, done + {id}, target, rest);
      moves := OneMoreReads(threads, done, id, moves);
    }
  }

  /** With the field wrapped to 0 a writer gets in. */
  lemma WriterJoins(threads: set<Tid>, readers: set<Tid>, w: Tid) returns (moves: seq<Move>)
    requires readers <= threads && |readers| == MAX_READERS && w in threads - readers
    ensures Legal(Pile(threads, readers), moves) && !Exclusive(Exec(Pile(threads, readers), moves))
  {
    var s := Pile(threads, readers);
    var s1 := Apply(s, w, WriteBegin);
    var s2 := Apply(s1, w, WriteAnnounce);
    var s3 := Apply(s2, w, WriteLoad);
    var s4 := Apply(s3, w, WriteTryCas(true));
    assert Legal(s4, []) && Exec(s4, []) == s4;
    Prepend(s3, w, WriteTryCas(true), []);
    moves := [Move(w, WriteTryCas(true))] + [];
    Prepend(s2, w, WriteLoad, moves);
    moves := [Move(w, WriteLoad)] + moves;
    Prepend(s1, w, WriteAnnounce, moves);
    moves := [Move(w, WriteAnnounce)] + moves;
    Prepend(s, w, WriteBegin, moves);
    moves := [Move(w, WriteBegin)] + moves;
    var r :| r in readers;
    assert s4.pcs[w] == Writing && s4.pcs[r] == Reading;
    assert w in Writers(s4) && r in Readers(s4) + Writers(s4) && r != w;
  }

  lemma NobodyReadsYet(threads: set<Tid>)
    ensures Pile(threads, {}) == Init(threads)
  {
    assert Pile(threads, {}).pcs == Init(threads).pcs;
  }

  /** Writers are alone in every run exactly when there are at most 2^30 threads. */
  lemma ExclusionExactlyWhen(threads: set<Tid>)
    ensures (forall moves :: Legal(Init(threads), moves) ==> Exclusive(Exec(Init(threads), moves))) <==>
            |threads| <= 0x4000_0000
  {
    if |threads| <= MAX_READERS {
      forall moves | Legal(Init(threads), moves) ensures Exclusive(Exec(Init(threads), moves)) {
        Exclusion(threads, moves);
      }
    } else {
      var readers := SubsetOfSize(threads, MAX_READERS);
      assert |threads - readers| == |threads| - |readers|;
      var w :| w in threads - readers;
      var moves := WriterJoins(threads, readers, w);
      moves := AllRead(threads, {}, readers, moves);
      NobodyReadsYet(threads);
      assert Legal(Init(threads), moves) && !Exclusive(Exec(Init(threads), moves));
    }
  }

  /** The number in memory is exact in every run exactly when there are fewer. */
  lemma ExactExactlyWhen(threads: set<Tid>)
    ensures (forall moves :: Legal(Init(threads), moves) ==> Exact(Exec(Init(threads), moves))) <==>
            |threads| < 0x4000_0000
  {
    if |threads| < MAX_READERS {
      forall moves | Legal(Init(threads), moves) ensures Exact(Exec(Init(threads), moves)) {
        Exclusion(threads, moves);
      }
    } else {
      var readers := SubsetOfSize(threads, MAX_READERS);
      var s := Pile(threads, readers);
      assert Readers(s) == readers && Writers(s) == {};
      assert Legal(s, []) && Exec(s, []) == s;
      var moves := AllRead(threads, {}, readers, []);
      NobodyReadsYet(threads);
      assert Legal(Init(threads), moves) && !Exact(Exec(Init(threads), moves));
    }
  }
}
