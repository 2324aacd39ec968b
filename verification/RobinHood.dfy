/** Robin Hood hashing on a circular sequence of buckets: what a table must satisfy for the
    early-exit search to be right, and why insertion with displacement and backward-shift deletion
    keep it so, one loop turn at a time. */
module RobinHood {
  import opened KeyedMap

  /** A bucket; a stored hash of 0 marks an empty one. */
  datatype Bucket = Empty | Entry(hash: nat, key: Key, value: Value)

  /** The hash word of a bucket in memory. */
  function Marker(b: Bucket): nat {
    if b.Empty? then 0 else b.hash
  }

  // ---------------------------------------------------------------------------
  // Circular slots
  // ---------------------------------------------------------------------------

  /** `(slot + 1) & mask`. */
  function Next(i: nat, n: nat): nat
    requires i < n
  {
    if i == n - 1 then 0 else i + 1
  }

  function Prev(i: nat, n: nat): nat
    requires i < n
  {
    if i == 0 then n - 1 else i - 1
  }

  /** How far slot `i` lies after slot `from`, going round. */
  function Gap(from: nat, i: nat, n: nat): (d: nat)
    requires from < n && i < n
    ensures d < n
    ensures d == 0 <==> i == from
  {
    if i >= from then i - from else i - from + n
  }

  /** `_probe_distance`: how far slot `i` lies after the ideal slot of `hash`. */
  function Dist(hash: nat, i: nat, n: nat): nat
    requires i < n
  {
    Gap(hash % n, i, n)
  }

  // ---------------------------------------------------------------------------
  // Tables
  // ---------------------------------------------------------------------------

  /** An entry away from its ideal slot follows an entry at most one step closer to its own. */
  ghost predicate Chained(b: seq<Bucket>, i: nat)
    requires i < |b|
  {
    var n := |b|;
    b[i].Entry? && Dist(b[i].hash, i, n) > 0 ==>
      b[Prev(i, n)].Entry? && Dist(b[Prev(i, n)].hash, Prev(i, n), n) + 1 >= Dist(b[i].hash, i, n)
  }

  ghost predicate RobinHood(b: seq<Bucket>) {
    forall i :: 0 <= i < |b| ==> Chained(b, i)
  }

  /** `where` maps each key to the slot of its only entry, except that slot `hole` is ignored. */
  ghost predicate Indexed(b: seq<Bucket>, where: map<Key, nat>, hole: int) {
    && (forall i :: 0 <= i < |b| && i != hole && b[i].Entry? ==> b[i].key in where && where[b[i].key] == i)
    && (forall k :: k in where ==>
          0 <= where[k] < |b| && where[k] != hole && b[where[k]].Entry? && b[where[k]].key == k)
  }

  const NO_HOLE := -1

  ghost predicate Hashed(b: seq<Bucket>, h: Key -> nat) {
    forall i :: 0 <= i < |b| && b[i].Entry? ==> b[i].hash == h(b[i].key)
  }

  /** A hash that is never the marker of an empty bucket. */
  type Hash = h: Key -> nat | forall k :: h(k) > 0 witness (k: Key) => 1

  /** Since no key hashes to 0, the marker tells empty buckets apart. */
  lemma MarkerExact(b: seq<Bucket>, h: Hash, i: nat)
    requires Hashed(b, h) && i < |b|
    ensures Marker(b[i]) == 0 <==> b[i].Empty?
  {}

  ghost predicate Table(b: seq<Bucket>, where: map<Key, nat>, h: Key -> nat) {
    2 <= |b| && RobinHood(b) && Indexed(b, where, NO_HOLE) && Hashed(b, h)
  }

  /** Nothing to shift back from slot `i`. */
  predicate AtHome(b: seq<Bucket>, i: nat)
    requires i < |b|
  {
    b[i].Empty? || Dist(b[i].hash, i, |b|) == 0
  }

  /** The map a table stands for. */
  ghost function Contents(b: seq<Bucket>, where: map<Key, nat>, hole: int): map<Key, Value>
    requires Indexed(b, where, hole)
  {
    map k | k in where :: b[where[k]].value
  }

  lemma ContentsSize(b: seq<Bucket>, where: map<Key, nat>, hole: int)
    requires Indexed(b, where, hole)
    ensures Contents(b, where, hole).Keys == where.Keys && |Contents(b, where, hole)| == |where|
  {
    assert Contents(b, where, hole).Keys == where.Keys;
    assert |where| == |where.Keys| && |Contents(b, where, hole)| == |Contents(b, where, hole).Keys|;
  }

  lemma EmptyTable(b: seq<Bucket>, h: Key -> nat)
    requires 2 <= |b| && forall i :: 0 <= i < |b| ==> b[i].Empty?
    ensures Table(b, map[], h) && Contents(b, map[], NO_HOLE) == map[]
    ensures AtHome(b, 0)
  {}

  // ---------------------------------------------------------------------------
  // Search
  // ---------------------------------------------------------------------------

  /** Every slot on the way from the ideal slot of an entry to the entry is occupied by an entry at
      least as far from home, so a search may stop at the first that is not. */
  lemma {:induction false} NeverMisses(b: seq<Bucket>, p: nat, i: nat)
    requires RobinHood(b) && p < |b| && i < |b| && b[p].Entry?
    requires Dist(b[p].hash, i, |b|) <= Dist(b[p].hash, p, |b|)
    ensures b[i].Entry? && Dist(b[i].hash, i, |b|) >= Dist(b[p].hash, i, |b|)
    decreases Dist(b[p].hash, p, |b|) - Dist(b[p].hash, i, |b|)
  {
    if i != p {
      NeverMisses(b, p, Next(i, |b|));
      assert Chained(b, Next(i, |b|));
    }
  }

  /** A search for `key` that has come `dist` slots from its ideal one, to `slot`, and not passed it,
      nor any empty slot. */
  ghost predicate Searching(b: seq<Bucket>, where: map<Key, nat>, hash: nat, key: Key, slot: nat, dist: nat) {
    && slot < |b| && dist <= |b| && (dist < |b| ==> Dist(hash, slot, |b|) == dist)
    && (key in where ==> where[key] < |b| && dist <= Dist(hash, where[key], |b|))
    && (forall z :: 0 <= z < |b| && b[z].Empty? ==> dist <= Dist(hash, z, |b|))
  }

  lemma SearchGoesOn(b: seq<Bucket>, where: map<Key, nat>, h: Key -> nat, key: Key, slot: nat, dist: nat)
    requires Table(b, where, h) && Searching(b, where, h(key), key, slot, dist)
    requires b[slot].Entry? && Dist(b[slot].hash, slot, |b|) >= dist && b[slot].key != key
    ensures dist < |b| && Searching(b, where, h(key), key, Next(slot, |b|), dist + 1)
  {}

  lemma SearchStops(b: seq<Bucket>, where: map<Key, nat>, h: Key -> nat, key: Key, slot: nat, dist: nat)
    requires Table(b, where, h) && Searching(b, where, h(key), key, slot, dist)
    ensures b[slot].Empty? || Dist(b[slot].hash, slot, |b|) < dist ==> key !in where
    ensures b[slot].Entry? && b[slot].key == key ==> key in where && where[key] == slot && b[slot].hash == h(key)
  {
    if key in where { NeverMisses(b, where[key], slot); }
  }

  /** No entry has been carried across an empty slot. */
  lemma {:induction false} NoneCrosses(b: seq<Bucket>, z: nat, i: nat)
    requires RobinHood(b) && z < |b| && i < |b| && b[z].Empty? && b[i].Entry?
    ensures Dist(b[i].hash, i, |b|) < Gap(z, i, |b|)
    decreases Gap(z, i, |b|)
  {
    assert Chained(b, i);
    if Dist(b[i].hash, i, |b|) > 0 { NoneCrosses(b, z, Prev(i, |b|)); }
  }

  // ---------------------------------------------------------------------------
  // Insertion
  // ---------------------------------------------------------------------------

  /** The state of the insertion loop: the buckets, the entry being carried, the slot under
      inspection and how far that is from the entry's ideal slot. */
  datatype Carry = Carry(b: seq<Bucket>, e: Bucket, slot: nat, dist: nat)

  datatype Outcome = Placed(b: seq<Bucket>) | Updated(b: seq<Bucket>) | Onward(c: Carry)

  predicate InRange(c: Carry) {
    c.slot < |c.b| && c.e.Entry?
  }

  /** One turn of `_nkit_hash_put_internal`. */
  function InsertStep(c: Carry, rehash: bool): Outcome
    requires InRange(c)
  {
    var n, r := |c.b|, c.b[c.slot];
    if r.Empty? then Placed(c.b[c.slot := c.e])
    else if !rehash && r.hash == c.e.hash && r.key == c.e.key
    then Updated(c.b[c.slot := r.(value := c.e.value)])
    else if c.dist > Dist(r.hash, c.slot, n)
    then Onward(Carry(c.b[c.slot := c.e], r, Next(c.slot, n), Dist(r.hash, c.slot, n) + 1))
    else Onward(c.(slot := Next(c.slot, n), dist := c.dist + 1))
  }

  /** The table without the carried entry is in order, and the carried entry could be put down at
      the current slot. */
  ghost predicate Carrying(c: Carry, where: map<Key, nat>, h: Key -> nat) {
    && InRange(c) && Table(c.b, where, h) && c.e.hash == h(c.e.key)
    && Dist(c.e.hash, c.slot, |c.b|) == c.dist
    && (c.dist > 0 ==>
          var p := Prev(c.slot, |c.b|);
          c.b[p].Entry? && Dist(c.b[p].hash, p, |c.b|) + 1 >= c.dist)
    && (c.e.key in where ==> c.dist <= Dist(c.e.hash, where[c.e.key], |c.b|))
  }

  /** What the table stands for once the carried entry is in. */
  ghost function Target(c: Carry, where: map<Key, nat>): map<Key, Value>
    requires InRange(c) && Indexed(c.b, where, NO_HOLE)
  {
    Contents(c.b, where, NO_HOLE)[c.e.key := c.e.value]
  }

  lemma CarriedIsNew(c: Carry, where: map<Key, nat>, h: Key -> nat)
    requires Carrying(c, where, h)
    requires c.b[c.slot].Empty? || c.dist > Dist(c.b[c.slot].hash, c.slot, |c.b|)
    ensures c.e.key !in where
  {
    if c.e.key in where { NeverMisses(c.b, where[c.e.key], c.slot); }
  }

  /** Putting the entry into an empty slot. */
  lemma PlacedOk(c: Carry, where: map<Key, nat>, h: Key -> nat, rehash: bool)
    requires Carrying(c, where, h) && InsertStep(c, rehash).Placed?
    ensures c.e.key !in where
    ensures var b', where' := InsertStep(c, rehash).b, where[c.e.key := c.slot];
      && Table(b', where', h) && Contents(b', where', NO_HOLE) == Target(c, where)
      && AtHome(b', Next(c.slot, |c.b|))
  {
    CarriedIsNew(c, where, h);
    var b' := InsertStep(c, rehash).b;
    forall i | 0 <= i < |b'| ensures Chained(b', i) { assert Chained(c.b, i); }
    assert Chained(c.b, Next(c.slot, |c.b|));
  }

  /** Overwriting the value of a key that is present. */
  lemma UpdatedOk(c: Carry, where: map<Key, nat>, h: Key -> nat, rehash: bool)
    requires Carrying(c, where, h) && InsertStep(c, rehash).Updated?
    ensures c.e.key in where
    ensures var b' := InsertStep(c, rehash).b;
      && Table(b', where, h) && Contents(b', where, NO_HOLE) == Target(c, where)
      && (forall i :: 0 <= i < |b'| && AtHome(c.b, i) ==> AtHome(b', i))
  {
    var b' := InsertStep(c, rehash).b;
    forall i | 0 <= i < |b'| ensures Chained(b', i) { assert Chained(c.b, i); }
  }

  /** The index after a swap. */
  ghost function Reindexed(c: Carry, where: map<Key, nat>): map<Key, nat>
    requires InRange(c) && c.b[c.slot].Entry?
  {
    where[c.e.key := c.slot] - {c.b[c.slot].key}
  }

  /** Swapping the carried entry for a resident closer to home keeps the table in order. */
  lemma SwappedOk(c: Carry, where: map<Key, nat>, h: Key -> nat, rehash: bool)
    requires Carrying(c, where, h) && InsertStep(c, rehash).Onward?
    requires c.dist > Dist(c.b[c.slot].hash, c.slot, |c.b|)
    ensures c.e.key !in where
    ensures Carrying(InsertStep(c, rehash).c, Reindexed(c, where), h)
    ensures InsertStep(c, rehash).c.e.key !in Reindexed(c, where)
  {
    CarriedIsNew(c, where, h);
    var c' := InsertStep(c, rehash).c;
    forall i | 0 <= i < |c'.b| ensures Chained(c'.b, i) { assert Chained(c.b, i); }
    assert Indexed(c'.b, Reindexed(c, where), NO_HOLE);
  }

  /** A swap changes nothing in what the table will stand for. */
  lemma SwappedSame(c: Carry, where: map<Key, nat>, rehash: bool)
    requires InRange(c) && Indexed(c.b, where, NO_HOLE) && InsertStep(c, rehash).Onward?
    requires c.dist > Dist(c.b[c.slot].hash, c.slot, |c.b|) && c.e.key !in where
    requires Indexed(InsertStep(c, rehash).c.b, Reindexed(c, where), NO_HOLE)
    ensures Target(InsertStep(c, rehash).c, Reindexed(c, where)) == Target(c, where)
    ensures |Reindexed(c, where)| == |where|
  {
    var where' := Reindexed(c, where);
    assert where'.Keys == where.Keys + {c.e.key} - {c.b[c.slot].key};
    assert |where'.Keys| == |where.Keys|;
  }

  /** Walking on past a resident at least as far from home. */
  lemma WalkedOk(c: Carry, where: map<Key, nat>, h: Key -> nat, rehash: bool)
    requires Carrying(c, where, h) && InsertStep(c, rehash).Onward?
    requires c.dist <= Dist(c.b[c.slot].hash, c.slot, |c.b|) && c.dist + 1 < |c.b|
    requires rehash ==> c.e.key !in where
    ensures var c' := InsertStep(c, rehash).c;
      && Carrying(c', where, h) && Target(c', where) == Target(c, where)
  {}

  /** While some slot is empty the carried entry has not come round to it. */
  lemma RoomAhead(c: Carry, where: map<Key, nat>, h: Key -> nat, z: nat)
    requires Carrying(c, where, h) && z < |c.b| && c.b[z].Empty? && c.slot != z
    ensures c.dist < Gap(z, c.slot, |c.b|)
  {
    if c.dist > 0 { NoneCrosses(c.b, z, Prev(c.slot, |c.b|)); }
  }

  /** The insertion of one key into a table, part way: `before` is the index at the start, `z` a
      slot that is still empty when the key was not there, `goal` the map aimed at. */
  ghost predicate Inserting(c: Carry, where: map<Key, nat>, h: Key -> nat,
                            b0: seq<Bucket>, before: map<Key, nat>, key: Key, z: nat, goal: map<Key, Value>) {
    && Carrying(c, where, h) && |c.b| == |b0| && Target(c, where) == goal && |where| == |before|
    && (if key in before then where == before && c.e.key == key && c.b == b0
        else c.e.key !in where && z < |c.b| && c.b[z].Empty?)
  }

  /** The turns left. */
  ghost function TurnsLeft(c: Carry, before: map<Key, nat>, h: Key -> nat, key: Key, z: nat): int
    requires InRange(c) && z < |c.b| && (key in before ==> before[key] < |c.b|)
  {
    if key in before then Dist(h(key), before[key], |c.b|) - c.dist else Gap(c.slot, z, |c.b|)
  }

  lemma InsertStarts(b: seq<Bucket>, where: map<Key, nat>, h: Key -> nat, key: Key, value: Value) returns (z: nat)
    requires Table(b, where, h)
    requires key in where || exists z :: 0 <= z < |b| && b[z].Empty?
    ensures z < |b|
    ensures Inserting(Carry(b, Entry(h(key), key, value), h(key) % |b|, 0), where, h, b, where, key, z,
                      Contents(b, where, NO_HOLE)[key := value])
  {
    z := 0;
    if key !in where { z :| 0 <= z < |b| && b[z].Empty?; }
  }

  /** The last turn leaves the map aimed at; `anchor` is at home before, `anchor'` after. */
  lemma TurnEnds(c: Carry, where: map<Key, nat>, h: Key -> nat, rehash: bool, anchor: nat,
                 b0: seq<Bucket>, before: map<Key, nat>, key: Key, z: nat, goal: map<Key, Value>)
    returns (where': map<Key, nat>, anchor': nat)
    requires Inserting(c, where, h, b0, before, key, z, goal) && !InsertStep(c, rehash).Onward?
    requires anchor < |b0| && AtHome(b0, anchor)
    ensures var b' := InsertStep(c, rehash).b;
      && |b'| == |b0| && Table(b', where', h) && Contents(b', where', NO_HOLE) == goal
      && anchor' < |b'| && AtHome(b', anchor')
    ensures InsertStep(c, rehash).Placed? <==> key !in before
    ensures |where'| == |before| + (if key in before then 0 else 1)
  {
    if InsertStep(c, rehash).Placed? {
      PlacedOk(c, where, h, rehash);
      where', anchor' := where[c.e.key := c.slot], Next(c.slot, |c.b|);
    } else {
      UpdatedOk(c, where, h, rehash);
      where', anchor' := where, anchor;
    }
  }

  /** One turn of the loop goes on with less to go, and `where'` indexes what it leaves. */
  lemma TurnGoesOn(c: Carry, where: map<Key, nat>, h: Key -> nat, rehash: bool,
                   b0: seq<Bucket>, before: map<Key, nat>, key: Key, z: nat, goal: map<Key, Value>)
    returns (where': map<Key, nat>)
    requires Inserting(c, where, h, b0, before, key, z, goal) && InsertStep(c, rehash).Onward?
    requires z < |b0| && (rehash ==> key !in before)
    ensures var c' := InsertStep(c, rehash).c;
      && Inserting(c', where', h, b0, before, key, z, goal)
      && (key in before ==> before[key] < |c.b|)
      && 0 <= TurnsLeft(c', before, h, key, z) < TurnsLeft(c, before, h, key, z)
  {
    if key in before { NeverMisses(c.b, where[key], c.slot); } else { RoomAhead(c, where, h, z); }
    if c.dist > Dist(c.b[c.slot].hash, c.slot, |c.b|) {
      SwappedOk(c, where, h, rehash);
      SwappedSame(c, where, rehash);
      where' := Reindexed(c, where);
    } else {
      WalkedOk(c, where, h, rehash);
      where' := where;
    }
  }

  // ---------------------------------------------------------------------------
  // When insertion ends
  // ---------------------------------------------------------------------------

  /** `k` turns of the insertion loop. */
  ghost function Turns(c: Carry, rehash: bool, k: nat): Outcome
    requires InRange(c)
    decreases k
  {
    if k == 0 then Onward(c)
    else match InsertStep(c, rehash)
         case Onward(c') => Turns(c', rehash, k - 1)
         case done => done
  }

  ghost predicate Ends(c: Carry, rehash: bool)
    requires InRange(c)
  {
    exists k :: !Turns(c, rehash, k).Onward?
  }

  /** A full table into which a new key is being put. */
  ghost predicate Hopeless(c: Carry, where: map<Key, nat>) {
    && InRange(c) && Indexed(c.b, where, NO_HOLE) && c.e.key !in where
    && (forall i :: 0 <= i < |c.b| ==> c.b[i].Entry?)
  }

  lemma HopelessStep(c: Carry, where: map<Key, nat>, rehash: bool)
    requires Hopeless(c, where)
    ensures InsertStep(c, rehash).Onward?
    ensures Hopeless(InsertStep(c, rehash).c,
                     if c.dist > Dist(c.b[c.slot].hash, c.slot, |c.b|) then Reindexed(c, where) else where)
  {}

  lemma {:induction false} HopelessForever(c: Carry, where: map<Key, nat>, rehash: bool, k: nat)
    requires Hopeless(c, where)
    ensures Turns(c, rehash, k).Onward?
    decreases k
  {
    if k > 0 {
      HopelessStep(c, where, rehash);
      HopelessForever(InsertStep(c, rehash).c,
                      if c.dist > Dist(c.b[c.slot].hash, c.slot, |c.b|) then Reindexed(c, where) else where,
                      rehash, k - 1);
    }
  }

  /** With an empty slot `z` ahead the loop ends within the turns it takes to get there. */
  lemma {:induction false} EndsAtRoom(c: Carry, where: map<Key, nat>, h: Key -> nat, rehash: bool, z: nat)
    requires Carrying(c, where, h) && z < |c.b| && c.b[z].Empty? && (rehash ==> c.e.key !in where)
    ensures !Turns(c, rehash, Gap(c.slot, z, |c.b|) + 1).Onward?
    decreases Gap(c.slot, z, |c.b|)
  {
    if InsertStep(c, rehash).Onward? {
      var c' := InsertStep(c, rehash).c;
      RoomAhead(c, where, h, z);
      if c.dist > Dist(c.b[c.slot].hash, c.slot, |c.b|) {
        SwappedOk(c, where, h, rehash);
        EndsAtRoom(c', Reindexed(c, where), h, rehash, z);
      } else {
        WalkedOk(c, where, h, rehash);
        EndsAtRoom(c', where, h, rehash, z);
      }
    }
  }

  /** A key that is present is found where it is, full table or not. */
  lemma {:induction false} EndsAtKey(c: Carry, where: map<Key, nat>, h: Key -> nat)
    requires Carrying(c, where, h) && c.e.key in where
    ensures !Turns(c, false, Dist(c.e.hash, where[c.e.key], |c.b|) - c.dist + 1).Onward?
    decreases Dist(c.e.hash, where[c.e.key], |c.b|) - c.dist
  {
    NeverMisses(c.b, where[c.e.key], c.slot);
    if InsertStep(c, false).Onward? {
      WalkedOk(c, where, h, false);
      EndsAtKey(InsertStep(c, false).c, where, h);
    }
  }

  /** Put on a table ends exactly when the key is there or a slot is free, and then within
      `capacity` turns. */
  lemma PutEndsExactlyWhen(c: Carry, where: map<Key, nat>, h: Key -> nat)
    requires Carrying(c, where, h)
    ensures Ends(c, false) <==> c.e.key in where || exists z :: 0 <= z < |c.b| && c.b[z].Empty?
    ensures Ends(c, false) ==> exists k :: 0 <= k <= |c.b| && !Turns(c, false, k).Onward?
  {
    if c.e.key in where {
      EndsAtKey(c, where, h);
    } else if exists z :: 0 <= z < |c.b| && c.b[z].Empty? {
      var z :| 0 <= z < |c.b| && c.b[z].Empty?;
      EndsAtRoom(c, where, h, false, z);
    } else {
      forall k: nat ensures Turns(c, false, k).Onward? { HopelessForever(c, where, false, k); }
    }
  }

  // ---------------------------------------------------------------------------
  // Backward-shift deletion
  // ---------------------------------------------------------------------------

  /** The loop shifts the bucket after the hole into it unless that bucket is empty or at home. */
  predicate ShiftStops(b: seq<Bucket>, hole: nat)
    requires hole < |b|
  {
    AtHome(b, Next(hole, |b|))
  }

  /** A table with a stale copy at `hole`. */
  ghost predicate Holed(b: seq<Bucket>, where: map<Key, nat>, h: Key -> nat, hole: nat) {
    && 2 <= |b| && hole < |b| && b[hole].Entry?
    && RobinHood(b) && Indexed(b, where, hole) && Hashed(b, h)
  }

  /** Taking a key out of the index leaves its slot stale. */
  lemma HoleOpens(b: seq<Bucket>, where: map<Key, nat>, h: Key -> nat, k: Key)
    requires Table(b, where, h) && k in where
    ensures Holed(b, where - {k}, h, where[k])
    ensures Contents(b, where - {k}, where[k]) == Contents(b, where, NO_HOLE) - {k}
    ensures |where - {k}| == |where| - 1
  {
    assert (where - {k}).Keys == where.Keys - {k};
    assert |(where - {k}).Keys| == |where.Keys| - 1;
  }

  /** The index after a shift. */
  ghost function Shifted(b: seq<Bucket>, where: map<Key, nat>, hole: nat): map<Key, nat>
    requires hole < |b| && b[Next(hole, |b|)].Entry?
  {
    where[b[Next(hole, |b|)].key := hole]
  }

  /** One shift moves the hole, and a slot at home stays so. */
  lemma ShiftOk(b: seq<Bucket>, where: map<Key, nat>, h: Key -> nat, hole: nat)
    requires Holed(b, where, h, hole) && !ShiftStops(b, hole)
    ensures var next := Next(hole, |b|);
      var b' := b[hole := b[next]];
      && Holed(b', Shifted(b, where, hole), h, next)
      && (forall a :: 0 <= a < |b| && AtHome(b, a) ==> AtHome(b', a))
  {
    var n, next := |b|, Next(hole, |b|);
    var b' := b[hole := b[next]];
    assert Chained(b, next) && Chained(b, hole);
    forall i | 0 <= i < n ensures Chained(b', i) { assert Chained(b, i); }
  }

  /** One shift changes nothing in the map. */
  lemma ShiftSame(b: seq<Bucket>, where: map<Key, nat>, h: Key -> nat, hole: nat)
    requires Holed(b, where, h, hole) && !ShiftStops(b, hole)
    requires Indexed(b[hole := b[Next(hole, |b|)]], Shifted(b, where, hole), Next(hole, |b|))
    ensures Contents(b[hole := b[Next(hole, |b|)]], Shifted(b, where, hole), Next(hole, |b|)) ==
            Contents(b, where, hole)
  {}

  /** A deletion part way: `goal` is the map aimed at, slot `anchor` is where shifting must stop. */
  ghost predicate Shifting(b: seq<Bucket>, where: map<Key, nat>, h: Key -> nat, hole: nat,
                           anchor: nat, goal: map<Key, Value>) {
    && Holed(b, where, h, hole) && Contents(b, where, hole) == goal
    && anchor < |b| && AtHome(b, anchor)
  }

  lemma ShiftGoesOn(b: seq<Bucket>, where: map<Key, nat>, h: Key -> nat, hole: nat,
                    anchor: nat, goal: map<Key, Value>)
    requires Shifting(b, where, h, hole, anchor, goal) && !ShiftStops(b, hole)
    ensures var next := Next(hole, |b|);
      && Shifting(b[hole := b[next]], Shifted(b, where, hole), h, next, anchor, goal)
      && Gap(Next(next, |b|), anchor, |b|) < Gap(next, anchor, |b|)
  {
    ShiftOk(b, where, h, hole);
    ShiftSame(b, where, h, hole);
  }

  /** Clearing the stale slot ends the deletion. */
  lemma HoleCloses(b: seq<Bucket>, where: map<Key, nat>, h: Key -> nat, hole: nat)
    requires Holed(b, where, h, hole) && ShiftStops(b, hole)
    ensures Table(b[hole := Empty], where, h)
    ensures Contents(b[hole := Empty], where, NO_HOLE) == Contents(b, where, hole)
  {
    var b' := b[hole := Empty];
    forall i | 0 <= i < |b'| ensures Chained(b', i) { assert Chained(b, i); }
  }

  // ---------------------------------------------------------------------------
  // Counting
  // ---------------------------------------------------------------------------

  ghost function FirstKeys(b: seq<Bucket>, m: nat): set<Key>
    requires m <= |b|
  {
    set i | 0 <= i < m && b[i].Entry? :: b[i].key
  }

  lemma {:induction false} FullHasManyKeys(b: seq<Bucket>, where: map<Key, nat>, m: nat)
    requires Indexed(b, where, NO_HOLE) && m <= |b| && forall i :: 0 <= i < m ==> b[i].Entry?
    ensures |FirstKeys(b, m)| == m && FirstKeys(b, m) <= where.Keys
  {
    if m > 0 {
      FullHasManyKeys(b, where, m - 1);
      assert FirstKeys(b, m) == FirstKeys(b, m - 1) + {b[m - 1].key};
    }
  }

  lemma FullHasAsMany(b: seq<Bucket>, where: map<Key, nat>)
    requires Indexed(b, where, NO_HOLE)
    ensures (forall i :: 0 <= i < |b| ==> b[i].Entry?) ==> |b| <= |where|
  {
    if forall i :: 0 <= i < |b| ==> b[i].Entry? {
      FullHasManyKeys(b, where, |b|);
      assert where.Keys == FirstKeys(b, |b|) + (where.Keys - FirstKeys(b, |b|));
      assert |where.Keys| == |where|;
    }
  }

  /** Fewer keys than slots leave an empty slot. */
  lemma FreeSlot(b: seq<Bucket>, where: map<Key, nat>) returns (z: nat)
    requires Indexed(b, where, NO_HOLE) && |where| < |b|
    ensures z < |b| && b[z].Empty?
  {
    FullHasAsMany(b, where);
    z :| 0 <= z < |b| && b[z].Empty?;
  }

  /** As many keys as slots leave none. */
  lemma AllTaken(b: seq<Bucket>, where: map<Key, nat>)
    requires Indexed(b, where, NO_HOLE) && |where| == |b|
    ensures forall i :: 0 <= i < |b| ==> b[i].Entry?
  {
    forall i | 0 <= i < |b| ensures b[i].Entry? {
      if b[i].Empty? {
        GatheredPast(b, where, i, |b|);
        GatheredAll(b, where);
        ContentsSize(b, where, NO_HOLE);
        assert false;
      }
    }
  }

  lemma {:induction false} GatheredPast(b: seq<Bucket>, where: map<Key, nat>, i: nat, m: nat)
    requires Indexed(b, where, NO_HOLE) && i < m <= |b| && b[i].Empty?
    ensures |Gathered(b, m)| < m
  {
    if m - 1 == i { GatheredKeys(b, where, i); } else { GatheredPast(b, where, i, m - 1); }
  }

  /** The entries of the first `m` slots, as a map. */
  ghost function Gathered(b: seq<Bucket>, m: nat): map<Key, Value>
    requires m <= |b|
  {
    if m == 0 then map[]
    else if b[m - 1].Entry? then Gathered(b, m - 1)[b[m - 1].key := b[m - 1].value]
    else Gathered(b, m - 1)
  }

  lemma {:induction false} GatheredKeys(b: seq<Bucket>, where: map<Key, nat>, m: nat)
    requires Indexed(b, where, NO_HOLE) && m <= |b|
    ensures forall k :: k in Gathered(b, m) <==> k in where && where[k] < m
    ensures forall k :: k in Gathered(b, m) ==> Gathered(b, m)[k] == b[where[k]].value
    ensures |Gathered(b, m)| <= m
  {
    if m > 0 { GatheredKeys(b, where, m - 1); }
  }

  lemma GatheredAll(b: seq<Bucket>, where: map<Key, nat>)
    requires Indexed(b, where, NO_HOLE)
    ensures Gathered(b, |b|) == Contents(b, where, NO_HOLE)
    ensures |where| <= |b|
  {
    GatheredKeys(b, where, |b|);
    assert Gathered(b, |b|).Keys == where.Keys;
    assert |where| == |where.Keys| && |Gathered(b, |b|)| == |Gathered(b, |b|).Keys|;
  }

  /** Part way through moving its entries to a larger table there is room for the next. */
  lemma RoomToMove(b0: seq<Bucket>, w0: map<Key, nat>, m: nat, b: seq<Bucket>, w: map<Key, nat>)
    requires Indexed(b0, w0, NO_HOLE) && m < |b0| < |b| && Indexed(b, w, NO_HOLE)
    requires Contents(b, w, NO_HOLE) == Gathered(b0, m) && b0[m].Entry?
    ensures b0[m].key !in w
    ensures exists z :: 0 <= z < |b| && b[z].Empty?
  {
    GatheredKeys(b0, w0, m);
    assert Contents(b, w, NO_HOLE).Keys == w.Keys;
    assert |w| == |w.Keys| && |Gathered(b0, m)| == |Gathered(b0, m).Keys|;
    var z := FreeSlot(b, w);
  }
}
