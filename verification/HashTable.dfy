/** The hash table: an array of buckets changed in place, with Robin Hood insertion,
    early-exit search, backward-shift deletion and doubling.  The lock that serialises the
    operations is left to the MCS model. */
module HashTable {
  import opened Bits
  import opened KeyedMap
  import opened RobinHood
  import opened Rounding

  const MIN_CAPACITY := 16
  const BUCKET_STRUCT := 32                 // sizeof(nkit_bucket_t): four words

  /** `hash |= (hash == 0)`: whatever the byte hash is, the stored hash is never the empty marker. */
  function NeverZero(raw: Key -> nat): (h: Hash)
    ensures forall k :: h(k) == if raw(k) == 0 then 1 else raw(k)
  {
    (k: Key) => if raw(k) == 0 then 1 else raw(k)
  }

  lemma SmallFits()
    ensures MIN_CAPACITY <= Power(58) < Power(64)
  {
    PowerFiveMore(0);
    PowerGrows(5, 58);
    PowerFiveMore(58);
    PowerGrows(63, 64);
  }

  class HashTable {
    const h: Hash
    var buckets: array<Bucket>
    var count: nat
    ghost var where: map<Key, nat>
    ghost var anchor: nat

    /** The buckets are a Robin Hood table with some slot empty or at home. */
    ghost predicate TableOk()
      reads this, buckets
    {
      && MIN_CAPACITY <= buckets.Length && PowerOfTwo(buckets.Length)
      && Table(buckets[..], where, h)
      && anchor < buckets.Length && AtHome(buckets[..], anchor)
    }

    ghost predicate Valid()
      reads this, buckets
    {
      TableOk() && count == |where|
    }

    /** The map the table stands for. */
    ghost function Map(): map<Key, Value>
      requires TableOk()
      reads this, buckets
    {
      Contents(buckets[..], where, NO_HOLE)
    }

    constructor (raw: Key -> nat, size: nat)
      requires PowerOfTwo(size) && MIN_CAPACITY <= size
      ensures Valid() && Map() == map[] && count == 0 && buckets.Length == size
      ensures h == NeverZero(raw) && fresh(buckets)
    {
      h := NeverZero(raw);
      var a := new Bucket[size](_ => Empty);
      buckets := a;
      count := 0;
      where := map[];
      anchor := 0;
      new;
      EmptyTable(a[..], h);
    }

    /** `nkit_hash_create`, for any byte hash and any 64-bit capacity: above 2^58 buckets the byte count
        wraps to 0 and there is no table. */
    static method Create(raw: Key -> nat, capacity: nat, available: bool, gotHandle: bool, gotBuckets: bool)
      returns (t: HashTable?)
      requires capacity < Power(64)
      ensures t != null <==> available && gotHandle && gotBuckets && capacity <= Power(58)
      ensures t != null ==>
                && fresh(t) && fresh(t.buckets) && t.Valid() && t.Map() == map[] && t.count == 0
                && t.buckets.Length == NextPowerOfTwo(if capacity < 16 then 16 else capacity) && t.h == NeverZero(raw)
    {
      if !available { return null; }
      SmallFits();
      var want := if capacity < MIN_CAPACITY then MIN_CAPACITY else capacity;
      var size, bytes := Sizes(want);
      if !gotHandle { return null; }
      if bytes == 0 || !gotBuckets { return null; }
      t := new HashTable(raw, size);
    }

    /** The rounded capacity and its byte count, in 64 bits. */
    static method Sizes(want: nat) returns (size: nat, bytes: nat)
      requires 1 <= want < Power(64)
      ensures bytes == 0 <==> want > Power(58)
      ensures bytes != 0 ==> size == NextPowerOfTwo(want)
    {
      size := RoundUp(want);
      BytesVanishExactlyWhen(want, size, 58);
      bytes := (BUCKET_STRUCT * size) % Power(64);
    }

    /** One turn of the loop that does not store: swap when the resident is closer to home, walk on. */
    method WalkOn(cur: Bucket, slot: nat, dist: nat, rehash: bool, ghost c: Carry)
      returns (cur': Bucket, slot': nat, dist': nat)
      requires PowerOfTwo(buckets.Length) && InRange(c) && c == Carry(buckets[..], cur, slot, dist)
      requires InsertStep(c, rehash).Onward?
      modifies buckets
      ensures slot' < buckets.Length && InsertStep(c, rehash).c == Carry(buckets[..], cur', slot', dist')
    {
      var n, r := buckets.Length, buckets[slot];
      var d := Probe(r.hash, slot, n);
      cur', dist' := cur, dist;
      if dist > d {
        buckets[slot] := cur;
        cur', dist' := r, d;
      }
      slot' := StepOn(slot, n);
      dist' := dist' + 1;
    }

    /** Such a turn, and what it does to the table and the entry on its way. */
    method Turn(cur: Bucket, slot: nat, dist: nat, rehash: bool, ghost c: Carry, ghost w: map<Key, nat>,
                ghost b0: seq<Bucket>, ghost key: Key, ghost z: nat, ghost goal: map<Key, Value>)
      returns (cur': Bucket, slot': nat, dist': nat, ghost c': Carry, ghost w': map<Key, nat>)
      requires PowerOfTwo(buckets.Length) && c == Carry(buckets[..], cur, slot, dist)
      requires Inserting(c, w, h, b0, where, key, z, goal) && InsertStep(c, rehash).Onward?
      requires z < |b0| && (rehash ==> key !in where)
      modifies buckets
      ensures c' == InsertStep(c, rehash).c == Carry(buckets[..], cur', slot', dist')
      ensures Inserting(c', w', h, b0, where, key, z, goal)
      ensures slot' < buckets.Length && (Marker(buckets[slot']) == 0 <==> buckets[slot'].Empty?)
      ensures key in where ==> where[key] < |c.b|
      ensures 0 <= TurnsLeft(c', where, h, key, z) < TurnsLeft(c, where, h, key, z)
    {
      c' := InsertStep(c, rehash).c;
      w' := TurnGoesOn(c, w, h, rehash, b0, where, key, z, goal);
      cur', slot', dist' := WalkOn(cur, slot, dist, rehash, c);
      MarkerExact(c'.b, h, slot');
    }

    /** The loop of `_nkit_hash_put_internal` up to its last turn: walk, swapping the carried entry
        for residents closer to home, until a slot is empty or holds the key; `turns` turns, fewer
        than the capacity. */
    method Displace(hash: nat, key: Key, value: Value, rehash: bool)
      returns (cur: Bucket, slot: nat, ghost c: Carry, ghost w: map<Key, nat>, ghost z: nat, ghost turns: nat)
      requires TableOk() && hash == h(key)
      requires rehash ==> key !in where
      requires key in where || exists z :: 0 <= z < buckets.Length && buckets[z].Empty?
      modifies buckets
      ensures c.b == buckets[..] && c.e == cur && c.slot == slot
      ensures Inserting(c, w, h, old(buckets[..]), where, key, z, old(Map())[key := value])
      ensures !InsertStep(c, rehash).Onward? && turns < buckets.Length
      ensures slot < buckets.Length && (Marker(buckets[slot]) == 0 <==> buckets[slot].Empty?)
    {
      var n, dist: nat := buckets.Length, 0;
      cur := Entry(hash, key, value);
      slot := Home(hash, n);
      ghost var b0, goal := buckets[..], Map()[key := value];
      w := where;
      z := InsertStarts(b0, where, h, key, value);
      c := Carry(b0, cur, slot, dist);
      turns := 0;
      MarkerExact(b0, h, slot);
      while Marker(buckets[slot]) != 0 &&
            (rehash || buckets[slot].hash != cur.hash || buckets[slot].key != cur.key)
        invariant n == |b0| && z < n && slot < n && (key in where ==> where[key] < n)
        invariant c == Carry(buckets[..], cur, slot, dist)
        invariant Inserting(c, w, h, b0, where, key, z, goal)
        invariant Marker(buckets[slot]) == 0 <==> buckets[slot].Empty?
        invariant turns + TurnsLeft(c, where, h, key, z) < n && (turns > 0 ==> TurnsLeft(c, where, h, key, z) >= 0)
        decreases TurnsLeft(c, where, h, key, z)
      {
        cur, slot, dist, c, w := Turn(cur, slot, dist, rehash, c, w, b0, key, z, goal);
        turns := turns + 1;
      }
    }

    /** The last turn: `b'` is what the buckets become when the carried entry is stored at `slot`. */
    method Locate(hash: nat, key: Key, value: Value, rehash: bool)
      returns (cur: Bucket, slot: nat, ghost b': seq<Bucket>, ghost w: map<Key, nat>, ghost a: nat)
      requires TableOk() && hash == h(key)
      requires rehash ==> key !in where
      requires key in where || exists z :: 0 <= z < buckets.Length && buckets[z].Empty?
      modifies buckets
      ensures slot < buckets.Length && cur.Entry? && (buckets[slot].Empty? <==> key !in where)
      ensures Marker(buckets[slot]) == 0 <==> buckets[slot].Empty?
      ensures b' == buckets[..][slot := if buckets[slot].Empty? then cur else buckets[slot].(value := cur.value)]
      ensures Table(b', w, h) && a < |b'| && AtHome(b', a)
      ensures Contents(b', w, NO_HOLE) == old(Map())[key := value]
      ensures |w| == |where| + (if key in where then 0 else 1)
    {
      ghost var b0, goal := buckets[..], Map()[key := value];
      ghost var c, z, turns;
      cur, slot, c, w, z, turns := Displace(hash, key, value, rehash);
      b' := InsertStep(c, rehash).b;
      w, a := TurnEnds(c, w, h, rehash, anchor, b0, where, key, z, goal);
    }

    /** `_nkit_hash_put_internal`: needs a free slot, or the key to be there already. */
    method PutInternal(hash: nat, key: Key, value: Value, rehash: bool)
      requires TableOk() && hash == h(key)
      requires rehash ==> key !in where
      requires key in where || exists z :: 0 <= z < buckets.Length && buckets[z].Empty?
      modifies this`count, this`where, this`anchor, buckets
      ensures TableOk() && buckets == old(buckets)
      ensures Map() == old(Map())[key := value]
      ensures |where| == |old(where)| + (if key in old(where) then 0 else 1)
      ensures count == old(count) + (if rehash || key in old(where) then 0 else 1)
    {
      var cur, slot, b', w, a := Locate(hash, key, value, rehash);
      if Marker(buckets[slot]) == 0 {
        buckets[slot] := cur;
        if !rehash { count := count + 1; }
      } else {
        buckets[slot] := buckets[slot].(value := cur.value);
      }
      where, anchor := w, a;
      assert buckets[..] == b';
    }

    /** The body of the copying loop: slot `i` of the old array goes into the new one. */
    method MoveOne(oldBuckets: array<Bucket>, i: nat, ghost w0: map<Key, nat>)
      requires TableOk() && i < oldBuckets.Length < buckets.Length && oldBuckets != buckets
      requires Table(oldBuckets[..], w0, h) && Map() == Gathered(oldBuckets[..], i)
      modifies this`count, this`where, this`anchor, buckets
      ensures TableOk() && buckets == old(buckets) && count == old(count)
      ensures Map() == Gathered(oldBuckets[..], i + 1)
    {
      var e := oldBuckets[i];
      MarkerExact(oldBuckets[..], h, i);
      if Marker(e) != 0 {
        RoomToMove(oldBuckets[..], w0, i, buckets[..], where);
        PutInternal(e.hash, e.key, e.value, true);
      }
    }

    /** The copying half of `_nkit_hash_resize`: every entry goes into a new array of twice the
        size. */
    method Rehash()
      requires TableOk()
      modifies this`buckets, this`count, this`where, this`anchor
      ensures TableOk() && Map() == old(Map()) && count == old(count)
      ensures buckets.Length == 2 * old(buckets.Length) && fresh(buckets)
    {
      var oldBuckets, n := buckets, buckets.Length;
      ghost var w0 := where;
      buckets := new Bucket[2 * n](_ => Empty);
      where, anchor := map[], 0;
      EmptyTable(buckets[..], h);
      for i := 0 to n
        invariant fresh(buckets) && buckets.Length == 2 * n && oldBuckets[..] == old(buckets[..])
        invariant TableOk() && count == old(count)
        invariant Map() == Gathered(oldBuckets[..], i)
      {
        MoveOne(oldBuckets, i, w0);
      }
      GatheredAll(oldBuckets[..], w0);
    }

    /** `_nkit_hash_resize`: an allocation that fails leaves the table as it was. */
    method Resize(granted: bool)
      requires Valid()
      modifies this`buckets, this`count, this`where, this`anchor
      ensures Valid() && Map() == old(Map()) && count == old(count)
      ensures buckets.Length == if granted then 2 * old(buckets.Length) else old(buckets.Length)
      ensures if granted then fresh(buckets) else buckets == old(buckets)
    {
      if granted {
        ContentsSize(buckets[..], where, NO_HOLE);
        Rehash();
        ContentsSize(buckets[..], where, NO_HOLE);
      }
    }

    /** A key that is new to a table that is not full finds an empty bucket. */
    lemma RoomFor(key: Key)
      requires Valid() && (key in where || count < buckets.Length)
      ensures key in where || exists z :: 0 <= z < buckets.Length && buckets[z].Empty?
    {
      if key !in where {
        ContentsSize(buckets[..], where, NO_HOLE);
        var z := FreeSlot(buckets[..], where);
      }
    }

    /** The load check of `nkit_hash_put`: at three quarters or more, try to double. */
    method MakeRoom(key: Key, granted: bool)
      requires Valid()
      requires key in Map() || count < buckets.Length || granted
      modifies this`buckets, this`count, this`where, this`anchor
      ensures Valid() && Map() == old(Map()) && count == old(count)
      ensures key in where || exists z :: 0 <= z < buckets.Length && buckets[z].Empty?
      ensures buckets.Length == if 4 * count >= 3 * old(buckets.Length) && granted
                                then 2 * old(buckets.Length) else old(buckets.Length)
      ensures buckets == old(buckets) || fresh(buckets)
    {
      GatheredAll(buckets[..], where);
      if count * 4 >= buckets.Length * 3 { Resize(granted); }
      RoomFor(key);
    }

    /** `nkit_hash_put`.  A full table whose doubling fails has no place for a new key, and the
        source then never returns (`RobinHood.PutEndsExactlyWhen`); callers are asked to rule that
        out. */
    method Put(key: Key, value: Value, granted: bool) returns (status: int)
      requires Valid()
      requires key == [] || key in Map() || count < buckets.Length || granted
      modifies this`buckets, this`count, this`where, this`anchor, buckets
      ensures Valid() && count == |Map()|
      ensures status == if key == [] then -1 else 0
      ensures Map() == if key == [] then old(Map()) else old(Map())[key := value]
      ensures buckets.Length == if key != [] && 4 * old(count) >= 3 * old(buckets.Length) && granted
                                then 2 * old(buckets.Length) else old(buckets.Length)
      ensures buckets == old(buckets) || fresh(buckets)
    {
      if key == [] {
        status := -1;
      } else {
        MakeRoom(key, granted);
        PutInternal(h(key), key, value, false);
        status := 0;
      }
      ContentsSize(buckets[..], where, NO_HOLE);
    }

    /** The search loop shared by get and remove: stops at an empty slot, at a resident closer to
        home than the search, or at the key.  It takes at most as many turns as there are slots, one
        more when none is empty. */
    method Find(key: Key) returns (found: bool, slot: nat, ghost turns: nat)
      requires Valid()
      ensures found <==> key in where
      ensures found ==> slot < buckets.Length && where[key] == slot
      ensures turns <= buckets.Length + 1
      ensures (exists z :: 0 <= z < buckets.Length && buckets[z].Empty?) ==> turns <= buckets.Length
    {
      var n, hash := buckets.Length, h(key);
      var dist: nat := 0;
      slot := Home(hash, n);
      turns := 1;
      while true
        invariant Searching(buckets[..], where, hash, key, slot, dist) && turns == dist + 1
        decreases n - dist
      {
        SearchStops(buckets[..], where, h, key, slot, dist);
        MarkerExact(buckets[..], h, slot);
        var r := buckets[slot];
        if Marker(r) == 0 { return false, slot, turns; }
        var d := Probe(r.hash, slot, n);
        if d < dist { return false, slot, turns; }
        if r.hash == hash && r.key == key { return true, slot, turns; }
        SearchGoesOn(buckets[..], where, h, key, slot, dist);
        slot := StepOn(slot, n);
        dist := dist + 1;
        turns := turns + 1;
      }
    }

    /** `nkit_hash_get`. */
    method Get(key: Key) returns (value: Value)
      requires Valid()
      ensures value == if key != [] && key in Map() then Map()[key] else NULL
    {
      if key == [] { return NULL; }
      var found, slot, turns := Find(key);
      value := if found then buckets[slot].value else NULL;
    }

    /** `nkit_hash_remove`. */
    method Remove(key: Key) returns (status: int)
      requires Valid()
      modifies this`count, this`where, this`anchor, buckets
      ensures Valid() && buckets == old(buckets)
      ensures status == if key != [] && key in old(Map()) then 0 else -1
      ensures Map() == if key != [] then old(Map()) - {key} else old(Map())
      ensures count == |Map()|
    {
      ContentsSize(buckets[..], where, NO_HOLE);
      if key == [] { return -1; }
      var found, slot, turns := Find(key);
      if !found { return -1; }
      turns := ShiftBack(key, slot);
      count := count - 1;
      status := 0;
      ContentsSize(buckets[..], where, NO_HOLE);
    }

    /** Backward-shift deletion of the entry at `slot`, in fewer turns than there are slots. */
    method ShiftBack(key: Key, slot: nat) returns (ghost turns: nat)
      requires TableOk() && key in where && where[key] == slot
      modifies this`where, this`anchor, buckets
      ensures TableOk() && buckets == old(buckets)
      ensures Map() == old(Map()) - {key} && turns < buckets.Length
    {
      var n := buckets.Length;
      var hole: nat := slot;
      ghost var w, goal := where - {key}, Map() - {key};
      HoleOpens(buckets[..], where, h, key);
      turns := 0;
      while true
        invariant n == buckets.Length && hole < n && anchor < n
        invariant Shifting(buckets[..], w, h, hole, anchor, goal)
        invariant turns + Gap(Next(hole, n), anchor, n) < n
        decreases Gap(Next(hole, n), anchor, n)
      {
        var next := StepOn(hole, n);
        var nb := buckets[next];
        MarkerExact(buckets[..], h, next);
        if Marker(nb) == 0 { break; }
        var d := Probe(nb.hash, next, n);
        if d == 0 { break; }
        ShiftGoesOn(buckets[..], w, h, hole, anchor, goal);
        ghost var b := buckets[..];
        w := Shifted(b, w, hole);
        buckets[hole] := nb;
        assert buckets[..] == b[hole := b[next]];
        hole := next;
        turns := turns + 1;
      }
      HoleCloses(buckets[..], w, h, hole);
      ghost var b := buckets[..];
      buckets[hole] := Empty;
      assert buckets[..] == b[hole := Empty];
      where, anchor := w, hole;
    }

    /** Any sequence of calls, each of which can end, answers as a plain map would, whichever of its
        doublings succeed. */
    method Replay(calls: seq<Call>) returns (answers: seq<int>)
      requires Valid() && AllEnd(Map(), buckets.Length, calls)
      modifies this`buckets, this`count, this`where, this`anchor, buckets
      ensures Valid() && count == |Map()|
      ensures Map() == MapAfterAll(false, old(Map()), calls)
      ensures answers == Answers(false, old(Map()), calls)
      ensures buckets.Length == CapacityAfterAll(old(Map()), old(buckets.Length), calls)
    {
      answers := [];
      ghost var m0, cap0 := Map(), buckets.Length;
      ContentsSize(buckets[..], where, NO_HOLE);
      for i := 0 to |calls|
        invariant Valid() && count == |Map()|
        invariant buckets == old(buckets) || fresh(buckets)
        invariant Map() == MapAfterAll(false, m0, calls[..i])
        invariant buckets.Length == CapacityAfterAll(m0, cap0, calls[..i])
        invariant answers == Answers(false, m0, calls[..i])
      {
        assert calls[..i + 1][..i] == calls[..i];
        assert CanEnd(Map(), buckets.Length, calls[i]);
        var a := Perform(calls[i]);
        answers := answers + [a];
      }
      assert calls[..|calls|] == calls;
    }

    /** When every doubling succeeds, any sequence of calls at all is answered as by a plain map, and
        the load stays at three quarters or less. */
    method ReplayGranted(calls: seq<Call>) returns (answers: seq<int>)
      requires Valid() && 4 * count <= 3 * buckets.Length
      requires forall i :: 0 <= i < |calls| && calls[i].CallPut? ==> calls[i].granted
      modifies this`buckets, this`count, this`where, this`anchor, buckets
      ensures Valid() && count == |Map()| && 4 * count <= 3 * buckets.Length
      ensures Map() == MapAfterAll(false, old(Map()), calls)
      ensures answers == Answers(false, old(Map()), calls)
    {
      LargePowerDivisible(buckets.Length);
      ContentsSize(buckets[..], where, NO_HOLE);
      GrantedRunsEnd(Map(), buckets.Length, calls);
      answers := Replay(calls);
    }

    method PerformPut(c: Call) returns (a: int)
      requires Valid() && count == |Map()| && c.CallPut? && CanEnd(Map(), buckets.Length, c)
      modifies this`buckets, this`count, this`where, this`anchor, buckets
      ensures Valid() && count == |Map()|
      ensures Map() == MapAfter(false, old(Map()), c) && a == Answer(false, old(Map()), c)
      ensures buckets.Length == CapacityAfter(old(Map()), old(buckets.Length), c)
      ensures buckets == old(buckets) || fresh(buckets)
    {
      a := Put(c.key, c.value, c.granted);
    }

    method PerformRemove(c: Call) returns (a: int)
      requires Valid() && count == |Map()| && c.CallRemove?
      modifies this`count, this`where, this`anchor, buckets
      ensures Valid() && count == |Map()| && buckets == old(buckets)
      ensures Map() == MapAfter(false, old(Map()), c) && a == Answer(false, old(Map()), c)
    {
      a := Remove(c.key);
    }

    method Perform(c: Call) returns (a: int)
      requires Valid() && count == |Map()| && CanEnd(Map(), buckets.Length, c)
      modifies this`buckets, this`count, this`where, this`anchor, buckets
      ensures Valid() && count == |Map()|
      ensures Map() == MapAfter(false, old(Map()), c) && a == Answer(false, old(Map()), c)
      ensures buckets.Length == CapacityAfter(old(Map()), old(buckets.Length), c)
      ensures buckets == old(buckets) || fresh(buckets)
    {
      match c
      case CallPut(_, _, _) => a := PerformPut(c);
      case CallGet(k) => a := Get(k);
      case CallRemove(_) => a := PerformRemove(c);
    }
  }

  // ---------------------------------------------------------------------------
  // Runs
  // ---------------------------------------------------------------------------

  /** A put doubles the table exactly at three quarters or more, when the memory can be had. */
  function CapacityAfter(m: map<Key, Value>, cap: nat, c: Call): nat {
    if c.CallPut? && c.key != [] && 4 * |m| >= 3 * cap && c.granted then 2 * cap else cap
  }

  function CapacityAfterAll(m: map<Key, Value>, cap: nat, calls: seq<Call>): nat
    decreases |calls|
  {
    if calls == [] then cap
    else
      var init := calls[..|calls| - 1];
      CapacityAfter(MapAfterAll(false, m, init), CapacityAfterAll(m, cap, init), calls[|calls| - 1])
  }

  /** A put ends unless its key is new, the table full and the doubling fails. */
  predicate CanEnd(m: map<Key, Value>, cap: nat, c: Call) {
    c.CallPut? ==> c.key == [] || c.key in m || |m| < cap || c.granted
  }

  ghost predicate AllEnd(m: map<Key, Value>, cap: nat, calls: seq<Call>) {
    forall i :: 0 <= i < |calls| ==>
      CanEnd(MapAfterAll(false, m, calls[..i]), CapacityAfterAll(m, cap, calls[..i]), calls[i])
  }

  lemma SizeAfter(m: map<Key, Value>, c: Call)
    ensures |MapAfter(false, m, c)| <= |m| + if c.CallPut? && c.key != [] then 1 else 0
  {
    var m' := MapAfter(false, m, c);
    assert |m'| == |m'.Keys| && |m| == |m.Keys|;
    if c.CallPut? && c.key != [] { assert m'.Keys == m.Keys + {c.key}; }
    if c.CallRemove? && c.key != [] { assert m'.Keys == m.Keys - {c.key}; }
  }

  lemma LoadAfter(m: map<Key, Value>, cap: nat, c: Call)
    requires cap >= 4 && cap % 4 == 0 && 4 * |m| <= 3 * cap && (c.CallPut? ==> c.granted)
    ensures var m', cap' := MapAfter(false, m, c), CapacityAfter(m, cap, c);
      cap' >= 4 && cap' % 4 == 0 && 4 * |m'| <= 3 * cap'
  {
    SizeAfter(m, c);
  }

  /** When every doubling succeeds, every call ends and the load stays at three quarters or less. */
  lemma {:induction false} GrantedRunsEnd(m: map<Key, Value>, cap: nat, calls: seq<Call>)
    requires cap >= 4 && cap % 4 == 0 && 4 * |m| <= 3 * cap
    requires forall i :: 0 <= i < |calls| && calls[i].CallPut? ==> calls[i].granted
    ensures AllEnd(m, cap, calls)
    ensures var m', cap' := MapAfterAll(false, m, calls), CapacityAfterAll(m, cap, calls);
      cap' >= 4 && cap' % 4 == 0 && 4 * |m'| <= 3 * cap'
    decreases |calls|
  {
    if calls != [] {
      var n := |calls| - 1;
      GrantedRunsEnd(m, cap, calls[..n]);
      LoadAfter(MapAfterAll(false, m, calls[..n]), CapacityAfterAll(m, cap, calls[..n]), calls[n]);
      forall i | 0 <= i < |calls|
        ensures CanEnd(MapAfterAll(false, m, calls[..i]), CapacityAfterAll(m, cap, calls[..i]), calls[i])
      {
        if i < n { assert calls[..n][..i] == calls[..i]; }
      }
    }
  }

  // ---------------------------------------------------------------------------
  // A put that never ends
  // ---------------------------------------------------------------------------

  /** A table filled while its doublings fail: put of one more key never ends. */
  method FilledUp(raw: Key -> nat) returns (t: HashTable, ghost c: Carry)
    ensures fresh(t) && t.Valid() && t.count == t.buckets.Length == 16
    ensures [16] !in t.Map() && c == Carry(t.buckets[..], Entry(t.h([16]), [16], 7), t.h([16]) % 16, 0)
    ensures forall k: nat :: Turns(c, false, k).Onward?
  {
    assert PowerOfTwo(16);
    t := new HashTable(raw, 16);
    for i := 0 to 16
      invariant fresh(t) && fresh(t.buckets) && t.Valid() && t.buckets.Length == 16 && t.count == i == |t.Map()|
      invariant forall k :: k in t.Map() ==> |k| == 1 && 0 <= k[0] < i
    {
      var status := t.Put([i], 7, false);
    }
    ContentsSize(t.buckets[..], t.where, NO_HOLE);
    AllTaken(t.buckets[..], t.where);
    c := Carry(t.buckets[..], Entry(t.h([16]), [16], 7), t.h([16]) % 16, 0);
    forall k: nat ensures Turns(c, false, k).Onward? { HopelessForever(c, t.where, false, k); }
  }
}
