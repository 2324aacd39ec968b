/** The skip list as callers see it: one shard per memory node, each key hashed to its shard. */
module SkipList {
  import opened KeyedMap
  import opened SkipShard

  // ---------------------------------------------------------------------------
  // Many maps as one
  // ---------------------------------------------------------------------------

  ghost function Union(maps: seq<map<Key, Value>>): map<Key, Value> {
    if maps == [] then map[] else Union(maps[..|maps| - 1]) + maps[|maps| - 1]
  }

  ghost function Sizes(maps: seq<map<Key, Value>>): nat {
    if maps == [] then 0 else Sizes(maps[..|maps| - 1]) + |maps[|maps| - 1]|
  }

  /** Every key is in the map of its own shard only. */
  ghost predicate Sharded(maps: seq<map<Key, Value>>, hash: Key -> nat, n: nat) {
    n > 0 && forall s, k :: 0 <= s < |maps| && k in maps[s] ==> s == hash(k) % n
  }

  /** What the shards hold together is what each key's shard holds. */
  lemma {:induction false} UnionAt(maps: seq<map<Key, Value>>, hash: Key -> nat, n: nat, k: Key)
    requires Sharded(maps, hash, n)
    ensures var s := hash(k) % n;
      && (k in Union(maps) <==> s < |maps| && k in maps[s])
      && (k in Union(maps) ==> Union(maps)[k] == maps[s][k])
  {
    if maps != [] { UnionAt(maps[..|maps| - 1], hash, n, k); }
  }

  /** No key is counted twice. */
  lemma {:induction false} UnionSize(maps: seq<map<Key, Value>>, hash: Key -> nat, n: nat)
    requires Sharded(maps, hash, n)
    ensures |Union(maps)| == Sizes(maps)
  {
    if maps != [] {
      var init, last := maps[..|maps| - 1], maps[|maps| - 1];
      UnionSize(init, hash, n);
      forall k | k in Union(init) ensures k !in last { UnionAt(init, hash, n, k); }
      var u := Union(init) + last;
      assert u.Keys == Union(init).Keys + last.Keys && Union(init).Keys !! last.Keys;
      assert |u| == |u.Keys| && |last| == |last.Keys| && |Union(init)| == |Union(init).Keys|;
    }
  }

  /** One key changed in its shard is that key changed in the whole. */
  lemma UnionPut(maps: seq<map<Key, Value>>, hash: Key -> nat, k: Key, v: Value)
    requires Sharded(maps, hash, |maps|)
    ensures var s := hash(k) % |maps|;
      var maps' := maps[s := maps[s][k := v]];
      Sharded(maps', hash, |maps|) && Union(maps') == Union(maps)[k := v]
  {
    var s := hash(k) % |maps|;
    var maps' := maps[s := maps[s][k := v]];
    forall x: Key ensures x in Union(maps') <==> x in Union(maps)[k := v] {
      UnionAt(maps, hash, |maps|, x);
      UnionAt(maps', hash, |maps|, x);
    }
    forall x: Key | x in Union(maps') ensures Union(maps')[x] == Union(maps)[k := v][x] {
      UnionAt(maps, hash, |maps|, x);
      UnionAt(maps', hash, |maps|, x);
    }
  }

  lemma UnionRemove(maps: seq<map<Key, Value>>, hash: Key -> nat, k: Key)
    requires Sharded(maps, hash, |maps|)
    ensures var s := hash(k) % |maps|;
      var maps' := maps[s := maps[s] - {k}];
      Sharded(maps', hash, |maps|) && Union(maps') == Union(maps) - {k}
  {
    var s := hash(k) % |maps|;
    var maps' := maps[s := maps[s] - {k}];
    forall x: Key ensures x in Union(maps') <==> x in Union(maps) - {k} {
      UnionAt(maps, hash, |maps|, x);
      UnionAt(maps', hash, |maps|, x);
    }
    forall x: Key | x in Union(maps') ensures Union(maps')[x] == (Union(maps) - {k})[x] {
      UnionAt(maps, hash, |maps|, x);
      UnionAt(maps', hash, |maps|, x);
    }
  }

  lemma {:induction false} NothingIn(n: nat)
    ensures Union(seq(n, _ => map[])) == map[]
  {
    if n > 0 {
      NothingIn(n - 1);
      assert seq<map<Key, Value>>(n, _ => map[])[..n - 1] == seq<map<Key, Value>>(n - 1, _ => map[]);
    }
  }

  // ---------------------------------------------------------------------------
  // The list
  // ---------------------------------------------------------------------------

  class SkipList {
    const hash: Key -> nat
    const shards: seq<Shard>
    ghost var maps: seq<map<Key, Value>>     // what each shard holds
    ghost var repr: set<SkipNode>            // all their nodes

    /** Empty shards that share no node. */
    static ghost predicate Made(shards: seq<Shard>, repr: set<SkipNode>)
      reads shards, repr
    {
      && (forall s :: 0 <= s < |shards| ==> shards[s].nodes <= repr)
      && (forall s :: 0 <= s < |shards| ==> shards[s].Valid() && shards[s].Map() == map[])
      && (forall s, t :: 0 <= s < |shards| && 0 <= t < |shards| && s != t ==>
            shards[s] != shards[t] && shards[s].nodes !! shards[t].nodes)
    }

    /** What creation fixes. */
    ghost predicate Fixed() {
      1 <= |shards| && forall s, t :: 0 <= s < |shards| && 0 <= t < |shards| && s != t ==> shards[s] != shards[t]
    }

    /** Besides, each holds only keys that hash to it. */
    ghost predicate Valid()
      requires Fixed()
      reads this, shards, repr
    {
      Holding(shards, maps, repr) && Sharded(maps, hash, |shards|)
    }

    ghost function Map(): map<Key, Value>
      reads this
    {
      Union(maps)
    }

    constructor (hash: Key -> nat, shards: seq<Shard>, ghost repr: set<SkipNode>)
      requires 1 <= |shards| && Made(shards, repr)
      ensures Fixed() && Valid() && Map() == map[] && this.shards == shards && this.repr == repr
      ensures this.hash == hash
    {
      this.hash, this.shards, this.repr := hash, shards, repr;
      maps := seq(|shards|, _ => map[]);
      new;
      NothingIn(|shards|);
    }

    /** The body of the creation loop: one more empty shard beside those made so far. */
    static method AddShard(made: seq<Shard>, maxLevel: nat, ghost all: set<SkipNode>) returns (shard: Shard)
      requires maxLevel >= 1 && Made(made, all)
      ensures fresh(shard) && fresh(shard.nodes) && Made(made + [shard], all + shard.nodes)
      ensures shard.maxLevel == maxLevel
    {
      shard := new Shard(maxLevel);
      OneMore(made, shard, all);
    }

    static lemma OneMore(made: seq<Shard>, shard: Shard, all: set<SkipNode>)
      requires Made(made, all) && shard !in made && shard.nodes !! all && shard.Valid() && shard.Map() == map[]
      ensures Made(made + [shard], all + shard.nodes)
    {
      var more := made + [shard];
      assert forall s :: 0 <= s < |made| ==> more[s] == made[s] && more[s].nodes <= all;
    }

    /** `nkit_skip_create`: a list of empty shards, or nothing when the library has no memory nodes to
        work on or a head node cannot be had. */
    static method Create(hash: Key -> nat, maxLevel: nat, numShards: nat, available: bool, gotHead: nat -> bool)
      returns (list: SkipList?)
      requires maxLevel >= 1 && numShards >= 1
      ensures list != null <==> available && forall i :: 0 <= i < numShards ==> gotHead(i)
      ensures list != null ==>
                && fresh(list) && fresh(list.repr) && fresh(list.shards)
                && list.Fixed() && list.Valid() && list.Map() == map[] && |list.shards| == numShards
                && list.hash == hash && forall s :: 0 <= s < numShards ==> list.shards[s].maxLevel == maxLevel
    {
      if !available { return null; }
      var made: seq<Shard> := [];
      ghost var all: set<SkipNode> := {};
      for i := 0 to numShards
        invariant |made| == i && fresh(made) && fresh(all) && Made(made, all)
        invariant forall j :: 0 <= j < i ==> gotHead(j) && made[j].maxLevel == maxLevel
      {
        if !gotHead(i) { return null; }
        var shard := AddShard(made, maxLevel, all);
        made := made + [shard];
        all := all + shard.nodes;
      }
      list := new SkipList(hash, made, all);
    }

    /** `nkit_skip_count`. */
    method Count() returns (total: nat)
      requires Fixed() && Valid()
      ensures total == |Map()|
    {
      total := 0;
      for i := 0 to |shards|
        invariant total == Sizes(maps[..i])
      {
        assert shards[i].Valid() && shards[i].Map() == maps[i];
        shards[i].CountIsSize();
        assert maps[..i + 1][..i] == maps[..i];
        total := total + shards[i].count;
      }
      assert maps[..|shards|] == maps;
      UnionSize(maps, hash, |shards|);
    }

    /** `nkit_skip_get`. */
    method Get(key: Key) returns (value: Value)
      requires Fixed() && Valid()
      ensures value == if key != [] && key in Map() then Map()[key] else NULL
    {
      if key == [] { return NULL; }
      var s := hash(key) % |shards|;
      UnionAt(maps, hash, |shards|, key);
      value := shards[s].Get(key);
    }

    /** Put in one shard leaves the others alone. */
    method PutOne(s: nat, key: Key, value: Value, coins: nat -> bool, gotNode: bool) returns (ok: bool)
      requires Fixed() && Holding(shards, maps, repr) && s < |shards|
      modifies shards, repr
      ensures fresh(shards[s].nodes - old(shards[s].nodes)) && ok == (key in old(maps)[s] || gotNode)
      ensures Holding(shards, if ok then maps[s := maps[s][key := value]] else maps, repr + shards[s].nodes)
    {
      ok := shards[s].Put(key, value, coins, gotNode);
      forall t | 0 <= t < |shards| && t != s
        ensures shards[t].nodes == old(shards[t].nodes) && shards[t].Valid() == old(shards[t].Valid())
        ensures shards[t].keys == old(shards[t].keys) && shards[t].values == old(shards[t].values)
        ensures shards[t].nodes !! shards[s].nodes
      {
        assert shards[t] != shards[s] && old(shards[t].nodes) !! old(shards[s].nodes);
      }
    }

    method PutIn(s: nat, key: Key, value: Value, coins: nat -> bool, gotNode: bool) returns (ok: bool)
      requires Fixed() && Holding(shards, maps, repr) && s < |shards|
      modifies this`maps, this`repr, shards, repr
      ensures Holding(shards, maps, repr) && fresh(repr - old(repr)) && ok == (key in old(maps)[s] || gotNode)
      ensures maps == if ok then old(maps)[s := old(maps)[s][key := value]] else old(maps)
    {
      ok := PutOne(s, key, value, coins, gotNode);
      ghost var r, m := repr + shards[s].nodes, if ok then maps[s := maps[s][key := value]] else maps;
      repr, maps := r, m;
    }

    method RemoveIn(s: nat, key: Key) returns (ok: bool)
      requires Fixed() && Holding(shards, maps, repr) && s < |shards|
      modifies this`maps, shards, repr
      ensures Holding(shards, maps, repr) && ok == (key in old(maps)[s])
      ensures maps == old(maps)[s := old(maps)[s] - {key}]
    {
      ok := shards[s].Remove(key);
      maps := maps[s := maps[s] - {key}];
      forall t | 0 <= t < |shards| && t != s
        ensures shards[t].nodes == old(shards[t].nodes) && shards[t].Valid() == old(shards[t].Valid())
        ensures shards[t].keys == old(shards[t].keys) && shards[t].values == old(shards[t].values)
      {
        assert shards[t] != shards[s] && old(shards[t].nodes) !! old(shards[s].nodes);
      }
    }

    /** `nkit_skip_put`. */
    method Put(key: Key, value: Value, coins: nat -> bool, gotNode: bool) returns (r: int)
      requires Fixed() && Valid()
      modifies this`maps, this`repr, shards, repr
      ensures Valid() && fresh(repr - old(repr))
      ensures r == 0 || r == -1
      ensures r == 0 <==> key != [] && (key in old(Map()) || gotNode)
      ensures Map() == if r == 0 then old(Map())[key := value] else old(Map())
    {
      if key == [] { return -1; }
      UnionAt(maps, hash, |shards|, key);
      UnionPut(maps, hash, key, value);
      var ok := PutIn(hash(key) % |shards|, key, value, coins, gotNode);
      return if ok then 0 else -1;
    }

    /** `nkit_skip_remove`. */
    method Remove(key: Key) returns (r: int)
      requires Fixed() && Valid()
      modifies this`maps, shards, repr
      ensures Valid() && repr == old(repr)
      ensures r == if key != [] && key in old(Map()) then 0 else -1
      ensures Map() == if key != [] then old(Map()) - {key} else old(Map())
    {
      if key == [] { return -1; }
      var s := hash(key) % |shards|;
      UnionAt(maps, hash, |shards|, key);
      UnionRemove(maps, hash, key);
      var ok := RemoveIn(s, key);
      return if ok then 0 else -1;
    }

    /** Any sequence of calls answers, and leaves behind, exactly what a plain map would that turns
        down a new key when no node can be had; `coins` gives the heights drawn for each call. */
    method Replay(calls: seq<Call>, coins: nat -> nat -> bool) returns (answers: seq<int>)
      requires Fixed() && Valid()
      modifies this`maps, this`repr, shards, repr
      ensures Valid() && Map() == MapAfterAll(true, old(Map()), calls)
      ensures answers == Answers(true, old(Map()), calls)
    {
      answers := [];
      ghost var m0 := Map();
      for i := 0 to |calls|
        invariant Valid() && fresh(repr - old(repr)) && Map() == MapAfterAll(true, m0, calls[..i])
        invariant answers == Answers(true, m0, calls[..i])
      {
        assert calls[..i + 1][..i] == calls[..i];
        var a := Perform(calls[i], coins(i));
        answers := answers + [a];
      }
      assert calls[..|calls|] == calls;
    }

    method Perform(c: Call, coins: nat -> bool) returns (a: int)
      requires Fixed() && Valid()
      modifies this`maps, this`repr, shards, repr
      ensures Valid() && fresh(repr - old(repr))
      ensures Map() == MapAfter(true, old(Map()), c) && a == Answer(true, old(Map()), c)
    {
      match c
      case CallPut(k, v, granted) => a := Put(k, v, coins, granted);
      case CallGet(k) => a := Get(k);
      case CallRemove(k) => a := Remove(k);
    }
  }
}
