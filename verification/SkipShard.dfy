/** One shard of the skip list: nodes linked in place on several levels.  The lock of the shard is
    left to the MCS model. */
module SkipShard {
  import opened KeyedMap
  import opened SkipLevels

  class SkipNode {
    const key: Key
    var value: Value
    var next: seq<SkipNode?>

    constructor (key: Key, value: Value, level: nat)
      ensures this.key == key && this.value == value
      ensures |next| == level && forall i :: 0 <= i < level ==> next[i] == null
    {
      this.key := key;
      this.value := value;
      this.next := seq(level, _ => null);
    }
  }

  /** The node at a position, or null past the end. */
  ghost function NodeAt(order: seq<SkipNode>, q: nat): SkipNode? {
    if q < |order| then order[q] else null
  }

  ghost predicate Distinct(order: seq<SkipNode>) {
    forall p, q :: 0 <= p < q < |order| ==> order[p] != order[q]
  }

  ghost predicate Sorted(keys: seq<Key>) {
    forall p, q :: 1 <= p < q < |keys| ==> KeyLess(keys[p], keys[q])
  }

  /** The map holds exactly the keys and values at the positions after the head. */
  ghost predicate Holds(keys: seq<Key>, values: seq<Value>, m: map<Key, Value>) {
    && 1 <= |keys| == |values| && |m| == |keys| - 1
    && (forall p :: 1 <= p < |keys| ==> keys[p] in m && m[keys[p]] == values[p])
    && (forall k :: k in m ==> k in keys[1..])
  }

  /** The map of the keys and values at the positions after the head. */
  ghost function ToMap(keys: seq<Key>, values: seq<Value>): map<Key, Value>
    requires 1 <= |keys| == |values|
  {
    var n := |keys| - 1;
    if n == 0 then map[] else ToMap(keys[..n], values[..n])[keys[n] := values[n]]
  }

  lemma {:induction false} ToMapHolds(keys: seq<Key>, values: seq<Value>)
    requires 1 <= |keys| == |values| && Sorted(keys)
    ensures Holds(keys, values, ToMap(keys, values))
  {
    var n := |keys| - 1;
    if n > 0 {
      ToMapHolds(keys[..n], values[..n]);
      KeysApart(keys, n);
      HoldsInserted(keys[..n], values[..n], ToMap(keys[..n], values[..n]), n, keys[n], values[n]);
      assert Inserted(keys[..n], n, keys[n]) == keys && Inserted(values[..n], n, values[n]) == values;
    }
  }

  lemma HoldsOnly(keys: seq<Key>, values: seq<Value>, m: map<Key, Value>, m': map<Key, Value>)
    requires Holds(keys, values, m) && Holds(keys, values, m')
    ensures m == m'
  {}

  /** A node put in, overwritten or taken out, as the map sees it. */
  lemma MapInserted(keys: seq<Key>, values: seq<Value>, at: nat, key: Key, value: Value)
    requires 1 <= at <= |keys| == |values| && Sorted(keys) && Sorted(Inserted(keys, at, key))
    requires key !in ToMap(keys, values)
    ensures ToMap(Inserted(keys, at, key), Inserted(values, at, value)) == ToMap(keys, values)[key := value]
  {
    var keys', values' := Inserted(keys, at, key), Inserted(values, at, value);
    ToMapHolds(keys, values);
    HoldsInserted(keys, values, ToMap(keys, values), at, key, value);
    ToMapHolds(keys', values');
    HoldsOnly(keys', values', ToMap(keys', values'), ToMap(keys, values)[key := value]);
  }

  lemma MapUpdated(keys: seq<Key>, values: seq<Value>, at: nat, value: Value)
    requires 1 <= at < |keys| == |values| && Sorted(keys)
    ensures ToMap(keys, values[at := value]) == ToMap(keys, values)[keys[at] := value]
  {
    ToMapHolds(keys, values);
    HoldsUpdated(keys, values, ToMap(keys, values), at, value);
    ToMapHolds(keys, values[at := value]);
    HoldsOnly(keys, values[at := value], ToMap(keys, values[at := value]), ToMap(keys, values)[keys[at] := value]);
  }

  lemma MapRemoved(keys: seq<Key>, values: seq<Value>, at: nat)
    requires 1 <= at < |keys| == |values| && Sorted(keys) && Sorted(Removed(keys, at))
    ensures ToMap(Removed(keys, at), Removed(values, at)) == ToMap(keys, values) - {keys[at]}
  {
    var keys', values' := Removed(keys, at), Removed(values, at);
    ToMapHolds(keys, values);
    HoldsRemoved(keys, values, ToMap(keys, values), at);
    ToMapHolds(keys', values');
    HoldsOnly(keys', values', ToMap(keys', values'), ToMap(keys, values) - {keys[at]});
  }

  lemma SortedRemoved(keys: seq<Key>, at: nat)
    requires 1 <= at < |keys| && Sorted(keys)
    ensures Sorted(Removed(keys, at))
  {}

  lemma HoldsInserted(keys: seq<Key>, values: seq<Value>, m: map<Key, Value>, at: nat, key: Key, value: Value)
    requires Holds(keys, values, m) && 0 < at <= |keys| && key !in m
    ensures Holds(Inserted(keys, at, key), Inserted(values, at, value), m[key := value])
  {
    var keys', values', m' := Inserted(keys, at, key), Inserted(values, at, value), m[key := value];
    forall p | 1 <= p < |keys'| ensures keys'[p] in m' && m'[keys'[p]] == values'[p] {
      if p != at { assert keys'[p] == keys[if p < at then p else p - 1]; }
    }
    forall k | k in m' ensures k in keys'[1..] { InsertedIn(keys, at, key, k); }
  }

  lemma KeysApart(keys: seq<Key>, at: nat)
    requires Sorted(keys) && 1 <= at < |keys|
    ensures forall p :: 1 <= p < |keys| && p != at ==> keys[p] != keys[at]
  {
    KeyOrder(keys[at], keys[at], keys[at]);
  }

  lemma HoldsUpdated(keys: seq<Key>, values: seq<Value>, m: map<Key, Value>, at: nat, value: Value)
    requires Holds(keys, values, m) && Sorted(keys) && 1 <= at < |keys|
    ensures Holds(keys, values[at := value], m[keys[at] := value])
  {
    var m' := m[keys[at] := value];
    assert m'.Keys == m.Keys && |m'| == |m'.Keys| && |m| == |m.Keys|;
    KeysApart(keys, at);
  }

  lemma HoldsRemoved(keys: seq<Key>, values: seq<Value>, m: map<Key, Value>, at: nat)
    requires Holds(keys, values, m) && Sorted(keys) && 1 <= at < |keys|
    ensures Holds(Removed(keys, at), Removed(values, at), m - {keys[at]})
  {
    var keys', m' := Removed(keys, at), m - {keys[at]};
    assert m'.Keys == m.Keys - {keys[at]} && |m'| == |m'.Keys| && |m| == |m.Keys|;
    KeysApart(keys, at);
    forall p | 1 <= p < |keys'| ensures keys'[p] in m' && m'[keys'[p]] == Removed(values, at)[p] {
      assert keys'[p] == keys[if p < at then p else p + 1];
    }
    forall k | k in m' ensures k in keys'[1..] { RemovedIn(keys, at, k); }
  }

  /** Position `p` is the last on level `i` before `key`. */
  ghost predicate Before(keys: seq<Key>, heights: seq<nat>, key: Key, i: nat, p: nat)
    requires |keys| == |heights|
  {
    && p < |keys| && heights[p] > i && (p == 0 || KeyLess(keys[p], key))
    && var q := NextPos(heights, p, i);
       q == |keys| || !KeyLess(keys[q], key)
  }

  /** The predecessor on level 0 splits the keys: everything up to it is smaller, nothing after it
      is, and the key can only be right after it. */
  lemma SplitsAt(keys: seq<Key>, heights: seq<nat>, key: Key, u0: nat)
    requires |keys| == |heights| && Sorted(keys) && Before(keys, heights, key, 0, u0)
    requires forall p :: 0 <= p < |heights| ==> heights[p] >= 1
    ensures NextPos(heights, u0, 0) == u0 + 1
    ensures forall p :: 1 <= p <= u0 ==> KeyLess(keys[p], key)
    ensures forall p :: u0 < p < |keys| ==> !KeyLess(keys[p], key)
    ensures forall p :: 1 <= p < |keys| && keys[p] == key ==> p == u0 + 1
  {
    forall p | 1 <= p <= u0 ensures KeyLess(keys[p], key) { KeyOrder(keys[p], keys[u0], key); }
    forall p | u0 < p < |keys| ensures !KeyLess(keys[p], key) { KeyOrder(keys[u0 + 1], keys[p], key); }
    KeyOrder(key, key, key);
  }

  /** The predecessors of `key` on every level below `level`, all before position `at`. */
  ghost predicate Predecessors(keys: seq<Key>, heights: seq<nat>, key: Key, u: seq<nat>, at: nat) {
    && |keys| == |heights| && 0 < at <= |keys|
    && (forall p :: 1 <= p < at ==> KeyLess(keys[p], key))
    && (forall p :: at <= p < |keys| ==> !KeyLess(keys[p], key))
    && (forall i :: 0 <= i < |u| ==> Before(keys, heights, key, i, u[i]))
  }

  /** On level `i` only `u[i]` links across position `at`. */
  lemma OnlyPredecessor(keys: seq<Key>, heights: seq<nat>, key: Key, u: seq<nat>, at: nat, p: nat, i: nat)
    requires Predecessors(keys, heights, key, u, at) && i < |u| && p < at && heights[p] > i
    ensures u[i] < at <= NextPos(heights, u[i], i)
    ensures NextPos(heights, p, i) >= at <==> p == u[i]
  {
    assert Before(keys, heights, key, i, u[i]);
  }

  /** Where the links of a node lead once `node` of height `level` is in at position `at`. */
  lemma LinksAfterInsert(order: seq<SkipNode>, keys: seq<Key>, heights: seq<nat>, key: Key, u: seq<nat>,
                         at: nat, node: SkipNode, level: nat, p: nat, i: nat)
    requires Predecessors(keys, heights, key, u, at) && |order| == |keys| && level <= |u|
    requires p < |order| && i < heights[p]
    ensures var order', h' := Inserted(order, at, node), Inserted(heights, at, level);
      NodeAt(order', NextPos(h', if p < at then p else p + 1, i)) ==
      (if i < level && p == u[i] then node else NodeAt(order, NextPos(heights, p, i)))
  {
    InsertedNext(heights, at, level, p, i);
    if p < at && i < |u| { OnlyPredecessor(keys, heights, key, u, at, p, i); }
    if p >= at && i < level { assert Before(keys, heights, key, i, u[i]); }
  }

  /** Where the links of the new node lead. */
  lemma OwnLinksAfterInsert(order: seq<SkipNode>, keys: seq<Key>, heights: seq<nat>, key: Key, u: seq<nat>,
                            at: nat, node: SkipNode, level: nat, i: nat)
    requires Predecessors(keys, heights, key, u, at) && |order| == |keys| && i < level <= |u|
    ensures u[i] < |heights|
    ensures NodeAt(Inserted(order, at, node), NextPos(Inserted(heights, at, level), at, i)) ==
            NodeAt(order, NextPos(heights, u[i], i))
  {
    assert Before(keys, heights, key, i, u[i]);
    OnlyPredecessor(keys, heights, key, u, at, u[i], i);
    InsertedOwnNext(heights, at, level, u[i], i);
    NodeShifted(order, at, node, NextPos(heights, u[i], i));
  }

  lemma NodeShifted(order: seq<SkipNode>, at: nat, node: SkipNode, q: nat)
    requires at <= q && at <= |order|
    ensures NodeAt(Inserted(order, at, node), q + 1) == NodeAt(order, q)
  {}

  lemma SortedInsert(keys: seq<Key>, heights: seq<nat>, key: Key, u: seq<nat>, at: nat)
    requires Predecessors(keys, heights, key, u, at) && Sorted(keys)
    requires at < |keys| ==> keys[at] != key
    ensures Sorted(Inserted(keys, at, key))
  {
    forall p | at <= p < |keys| ensures KeyLess(key, keys[p]) {
      KeyOrder(key, keys[at], keys[p]);
    }
  }

  lemma NodeKept(order: seq<SkipNode>, at: nat, q: nat)
    requires at < |order| && q != at
    ensures NodeAt(Removed(order, at), if q < at then q else q - 1) == NodeAt(order, q)
  {}

  /** Where a link leads once the node at `at` is out, when on level `i` only `w` links across it. */
  lemma TargetAfterRemove(order: seq<SkipNode>, heights: seq<nat>, at: nat, w: nat, p: nat, i: nat)
    requires |order| == |heights| && 0 < at < |order| && p < |order| && p != at && i < heights[p]
    requires w < at && (p < at ==> (NextPos(heights, p, i) >= at <==> p == w))
    ensures var order', h' := Removed(order, at), Removed(heights, at);
      NodeAt(order', NextPos(h', if p < at then p else p - 1, i)) ==
      (if i < heights[at] && p == w then NodeAt(order, NextPos(heights, at, i))
       else NodeAt(order, NextPos(heights, p, i)))
  {
    RemovedNext(heights, at, p, i);
    var q := NextPos(heights, p, i);
    NodeKept(order, at, if q == at then NextPos(heights, at, i) else q);
  }

  /** Where the links of a node lead once the node at position `at` is out. */
  lemma LinksAfterRemove(order: seq<SkipNode>, keys: seq<Key>, heights: seq<nat>, key: Key, u: seq<nat>,
                         at: nat, p: nat, i: nat)
    requires Predecessors(keys, heights, key, u, at) && |order| == |keys| && at < |order|
    requires p < |order| && p != at && i < heights[p] <= |u|
    ensures var order', h' := Removed(order, at), Removed(heights, at);
      NodeAt(order', NextPos(h', if p < at then p else p - 1, i)) ==
      (if i < heights[at] && p == u[i] then NodeAt(order, NextPos(heights, at, i))
       else NodeAt(order, NextPos(heights, p, i)))
  {
    assert Before(keys, heights, key, i, u[i]);
    if p < at { OnlyPredecessor(keys, heights, key, u, at, p, i); }
    TargetAfterRemove(order, heights, at, u[i], p, i);
  }

  /** A key that can only be at `at` is there exactly when the map has it. */
  lemma FoundAt(keys: seq<Key>, values: seq<Value>, key: Key, at: nat)
    requires 1 <= |keys| == |values| && Sorted(keys) && at >= 1
    requires forall p :: 1 <= p < |keys| && keys[p] == key ==> p == at
    ensures key in ToMap(keys, values) <==> at < |keys| && keys[at] == key
    ensures key in ToMap(keys, values) ==> ToMap(keys, values)[key] == values[at]
  {
    ToMapHolds(keys, values);
  }

  lemma FoundNowhere(keys: seq<Key>, values: seq<Value>, key: Key, p: nat)
    requires 1 <= |keys| == |values| && Sorted(keys) && key !in ToMap(keys, values) && 1 <= p < |keys|
    ensures keys[p] != key
  {
    ToMapHolds(keys, values);
  }

  /** `links[p]` are the links of position `p`: level `i` chains exactly the nodes taller than `i`. */
  ghost predicate Chains(order: seq<SkipNode>, heights: seq<nat>, links: seq<seq<SkipNode?>>) {
    && |order| == |heights| == |links|
    && (forall p :: 0 <= p < |links| ==> |links[p]| == heights[p])
    && (forall p, i :: 0 <= p < |links| && 0 <= i < |links[p]| ==>
          links[p][i] == NodeAt(order, NextPos(heights, p, i)))
  }

  /** The records of a list: sorted, chained level by level, the head on every level, no other node
      taller than the mark. */
  ghost predicate Levels(top: nat, mark: nat, order: seq<SkipNode>, keys: seq<Key>, heights: seq<nat>,
                         links: seq<seq<SkipNode?>>) {
    && 1 <= |order| == |keys| && Chains(order, heights, links) && Sorted(keys)
    && 1 <= mark <= top && heights[0] == top
    && (forall p :: 1 <= p < |heights| ==> 1 <= heights[p] <= mark)
  }

  /** The nodes hold what is recorded of them. */
  ghost predicate Mirrors(nodes: set<SkipNode>, order: seq<SkipNode>, keys: seq<Key>, values: seq<Value>,
                          links: seq<seq<SkipNode?>>)
    reads nodes
  {
    && |order| == |keys| == |values| == |links| && Distinct(order)
    && (forall p :: 0 <= p < |order| ==> order[p] in nodes)
    && (forall p :: 0 <= p < |order| ==>
          order[p].key == keys[p] && order[p].value == values[p] && order[p].next == links[p])
  }

  lemma MirrorsInserted(nodes: set<SkipNode>, order: seq<SkipNode>, keys: seq<Key>, values: seq<Value>,
                        links: seq<seq<SkipNode?>>, at: nat, node: SkipNode)
    requires Mirrors(nodes, order, keys, values, links) && at <= |order| && node !in nodes
    ensures Mirrors(nodes + {node}, Inserted(order, at, node), Inserted(keys, at, node.key),
                    Inserted(values, at, node.value), Inserted(links, at, node.next))
  {}

  lemma MirrorsRemoved(nodes: set<SkipNode>, order: seq<SkipNode>, keys: seq<Key>, values: seq<Value>,
                       links: seq<seq<SkipNode?>>, at: nat)
    requires Mirrors(nodes, order, keys, values, links) && at < |order|
    ensures Mirrors(nodes, Removed(order, at), Removed(keys, at), Removed(values, at), Removed(links, at))
  {}

  /** `now` is `was`, except that below level `i` position `u[j]` leads to `to[j]` on level `j`. */
  ghost predicate Patched(was: seq<seq<SkipNode?>>, now: seq<seq<SkipNode?>>, u: seq<nat>, to: seq<SkipNode?>, i: nat) {
    && |now| == |was| && i <= |u| && i <= |to|
    && (forall p :: 0 <= p < |was| ==> |now[p]| == |was[p]|)
    && (forall p, j :: 0 <= p < |was| && 0 <= j < |was[p]| ==>
          now[p][j] == if j < i && p == u[j] then to[j] else was[p][j])
  }

  /** One patched link, in terms of where the chains went before. */
  lemma PatchedLink(o: seq<SkipNode>, h: seq<nat>, was: seq<seq<SkipNode?>>, now: seq<seq<SkipNode?>>,
                    u: seq<nat>, to: seq<SkipNode?>, level: nat, p: nat, i: nat)
    requires Chains(o, h, was) && Patched(was, now, u, to, level) && p < |o| && i < h[p]
    ensures i < |now[p]|
    ensures now[p][i] == if i < level && p == u[i] then to[i] else NodeAt(o, NextPos(h, p, i))
  {}

  /** One old link once `node` is in. */
  lemma LinkInserted(o: seq<SkipNode>, k: seq<Key>, h: seq<nat>, was: seq<seq<SkipNode?>>, now: seq<seq<SkipNode?>>,
                     node: SkipNode, level: nat, key: Key, u: seq<nat>, at: nat, p: nat, i: nat)
    requires Chains(o, h, was) && |k| == |o| && Predecessors(k, h, key, u, at) && level <= |u|
    requires Patched(was, now, u, seq(level, _ => node), level) && p < |o| && i < h[p]
    ensures i < |now[p]|
    ensures now[p][i] == NodeAt(Inserted(o, at, node),
                                NextPos(Inserted(h, at, level), if p < at then p else p + 1, i))
  {
    PatchedLink(o, h, was, now, u, seq(level, _ => node), level, p, i);
    LinksAfterInsert(o, k, h, key, u, at, node, level, p, i);
  }

  /** The chains once `node` is in, its predecessors lead to it and it leads where they did. */
  lemma ChainsInserted(o: seq<SkipNode>, k: seq<Key>, h: seq<nat>, was: seq<seq<SkipNode?>>, now: seq<seq<SkipNode?>>,
                       node: SkipNode, own: seq<SkipNode?>, key: Key, u: seq<nat>, at: nat)
    requires Chains(o, h, was) && |k| == |o| && Predecessors(k, h, key, u, at) && |own| <= |u|
    requires Patched(was, now, u, seq(|own|, _ => node), |own|)
    requires forall i :: 0 <= i < |own| ==> u[i] < |was| && i < |was[u[i]]| && own[i] == was[u[i]][i]
    ensures Chains(Inserted(o, at, node), Inserted(h, at, |own|), Inserted(now, at, own))
  {
    var o', h', l' := Inserted(o, at, node), Inserted(h, at, |own|), Inserted(now, at, own);
    assert forall p :: 0 <= p < |l'| ==> |l'[p]| == h'[p];
    forall p, i | 0 <= p < |l'| && 0 <= i < |l'[p]| ensures l'[p][i] == NodeAt(o', NextPos(h', p, i)) {
      if p == at {
        OwnLinksAfterInsert(o, k, h, key, u, at, node, |own|, i);
      } else {
        LinkInserted(o, k, h, was, now, node, |own|, key, u, at, if p < at then p else p - 1, i);
      }
    }
  }

  lemma LevelsInserted(top: nat, mark: nat, o: seq<SkipNode>, k: seq<Key>, h: seq<nat>, was: seq<seq<SkipNode?>>,
                       now: seq<seq<SkipNode?>>, node: SkipNode, own: seq<SkipNode?>, key: Key, u: seq<nat>, at: nat)
    requires Levels(top, mark, o, k, h, was) && Predecessors(k, h, key, u, at) && (at < |k| ==> k[at] != key)
    requires 1 <= |own| <= mark && |own| <= |u| && Patched(was, now, u, seq(|own|, _ => node), |own|)
    requires forall i :: 0 <= i < |own| ==> u[i] < |was| && i < |was[u[i]]| && own[i] == was[u[i]][i]
    ensures Levels(top, mark, Inserted(o, at, node), Inserted(k, at, key), Inserted(h, at, |own|), Inserted(now, at, own))
  {
    ChainsInserted(o, k, h, was, now, node, own, key, u, at);
    SortedInsert(k, h, key, u, at);
  }

  lemma BypassedLink(o: seq<SkipNode>, h: seq<nat>, was: seq<seq<SkipNode?>>, now: seq<seq<SkipNode?>>,
                     u: seq<nat>, at: nat, p: nat, i: nat)
    requires Chains(o, h, was) && at < |o| && Patched(was, now, u, was[at], h[at]) && p < |o| && i < h[p] <= |u|
    ensures i < |now[p]|
    ensures now[p][i] == if i < h[at] && p == u[i] then NodeAt(o, NextPos(h, at, i)) else NodeAt(o, NextPos(h, p, i))
  {
    PatchedLink(o, h, was, now, u, was[at], h[at], p, i);
    if i < h[at] { assert was[at][i] == NodeAt(o, NextPos(h, at, i)); }
  }

  /** One link left once the node at `at` is out. */
  lemma LinkRemoved(o: seq<SkipNode>, k: seq<Key>, h: seq<nat>, was: seq<seq<SkipNode?>>, now: seq<seq<SkipNode?>>,
                    key: Key, u: seq<nat>, at: nat, p: nat, i: nat)
    requires Chains(o, h, was) && |k| == |o| && Predecessors(k, h, key, u, at) && at < |o|
    requires Patched(was, now, u, was[at], h[at]) && p < |o| && p != at && i < h[p] <= |u|
    ensures i < |now[p]|
    ensures now[p][i] == NodeAt(Removed(o, at), NextPos(Removed(h, at), if p < at then p else p - 1, i))
  {
    BypassedLink(o, h, was, now, u, at, p, i);
    LinksAfterRemove(o, k, h, key, u, at, p, i);
  }

  /** The chains once the node at `at` is out and its predecessors lead where it did. */
  lemma ChainsRemoved(o: seq<SkipNode>, k: seq<Key>, h: seq<nat>, was: seq<seq<SkipNode?>>, now: seq<seq<SkipNode?>>,
                      key: Key, u: seq<nat>, at: nat)
    requires Chains(o, h, was) && |k| == |o| && Predecessors(k, h, key, u, at) && at < |o|
    requires (forall p :: 0 <= p < |h| ==> h[p] <= |u|) && Patched(was, now, u, was[at], h[at])
    ensures Chains(Removed(o, at), Removed(h, at), Removed(now, at))
  {
    var o', h', l' := Removed(o, at), Removed(h, at), Removed(now, at);
    assert forall p :: 0 <= p < |l'| ==> |l'[p]| == h'[p];
    forall p, i | 0 <= p < |l'| && 0 <= i < |l'[p]| ensures l'[p][i] == NodeAt(o', NextPos(h', p, i)) {
      LinkRemoved(o, k, h, was, now, key, u, at, if p < at then p else p + 1, i);
    }
  }

  lemma LevelsRemoved(top: nat, mark: nat, o: seq<SkipNode>, k: seq<Key>, h: seq<nat>, was: seq<seq<SkipNode?>>,
                      now: seq<seq<SkipNode?>>, key: Key, u: seq<nat>, at: nat)
    requires Levels(top, mark, o, k, h, was) && Predecessors(k, h, key, u, at) && at < |o| && top <= |u|
    requires Patched(was, now, u, was[at], h[at])
    ensures Levels(top, mark, Removed(o, at), Removed(k, at), Removed(h, at), Removed(now, at))
  {
    ChainsRemoved(o, k, h, was, now, key, u, at);
    SortedRemoved(k, at);
  }

  /** On every level of the node at `at`, the predecessor leads to it. */
  lemma LeadsTo(o: seq<SkipNode>, k: seq<Key>, h: seq<nat>, links: seq<seq<SkipNode?>>, key: Key, u: seq<nat>, at: nat)
    requires Chains(o, h, links) && |k| == |o| && Predecessors(k, h, key, u, at) && at < |o| && h[at] <= |u|
    ensures forall i :: 0 <= i < |u| ==> u[i] < at && i < |links[u[i]]|
    ensures forall i :: 0 <= i < h[at] ==> links[u[i]][i] == o[at]
  {
    forall i | 0 <= i < |u| ensures u[i] < at && i < |links[u[i]]| { assert Before(k, h, key, i, u[i]); }
    forall i | 0 <= i < h[at] ensures links[u[i]][i] == o[at] {
      assert Before(k, h, key, i, u[i]);
      OnlyPredecessor(k, h, key, u, at, u[i], i);
      NextPosIs(h, u[i], i, at);
    }
  }

  class Shard {
    var head: SkipNode
    const maxLevel: nat
    var currentLevel: nat
    var count: nat

    ghost var nodes: set<SkipNode>           // the nodes made so far
    ghost var order: seq<SkipNode>           // the head, then the nodes in key order
    ghost var keys: seq<Key>                 // what the nodes hold, position by position
    ghost var values: seq<Value>
    ghost var links: seq<seq<SkipNode?>>
    ghost var heights: seq<nat>              // how many levels each has

    /** The records agree with the nodes. */
    ghost predicate Recorded()
      reads this, nodes
    {
      Mirrors(nodes, order, keys, values, links)
    }

    ghost predicate Shaped()
      reads this
    {
      1 <= |order| == |values| && order[0] == head && Levels(maxLevel, currentLevel, order, keys, heights, links)
    }

    ghost predicate Valid()
      reads this, nodes
    {
      Shaped() && Recorded() && count == |keys| - 1
    }

    /** The map the shard stands for. */
    ghost function Map(): map<Key, Value>
      requires 1 <= |keys| == |values|
      reads this
    {
      ToMap(keys, values)
    }

    constructor (maxLevel: nat)
      requires maxLevel >= 1
      ensures Valid() && Map() == map[] && fresh(nodes) && this.maxLevel == maxLevel
    {
      var h := new SkipNode([], NULL, maxLevel);
      head := h;
      this.maxLevel := maxLevel;
      currentLevel := 1;
      count := 0;
      nodes := {h};
      order, keys, values, links, heights := [h], [[]], [NULL], [h.next], [maxLevel];
      new;
      assert forall i :: 0 <= i < maxLevel ==> NextPos(heights, 0, i) == 1;
    }

    /** The counter is the number of keys. */
    lemma CountIsSize()
      requires Valid()
      ensures count == |Map()|
    {
      ToMapHolds(keys, values);
    }

    /** On level `i` the node is the last whose key is smaller, or the head when none is. */
    ghost predicate LastBefore(node: SkipNode, key: Key, i: nat)
      reads this, nodes
    {
      && node in nodes && i < |node.next| && (node == head || KeyLess(node.key, key))
      && (node.next[i] != null ==> node.next[i] in nodes && !KeyLess(node.next[i].key, key))
    }

    /** Walk along level `i` while the next key is smaller. */
    method Advance(from: SkipNode, key: Key, i: nat, ghost p0: nat) returns (curr: SkipNode, ghost p: nat)
      requires Valid() && p0 < |order| && from == order[p0] && heights[p0] > i
      requires p0 == 0 || KeyLess(keys[p0], key)
      ensures Before(keys, heights, key, i, p) && curr == order[p] && LastBefore(curr, key, i)
    {
      curr, p := from, p0;
      while curr.next[i] != null && KeyLess(curr.next[i].key, key)
        invariant p < |order| && curr == order[p] && heights[p] > i
        invariant p == 0 || KeyLess(keys[p], key)
        decreases |order| - p
      {
        curr := curr.next[i];
        p := NextPos(heights, p, i);
      }
    }

    /** The level-by-level search: `update[i]` is the last node on level `i` before `key`. */
    method FindPredecessors(key: Key) returns (update: seq<SkipNode>, ghost u: seq<nat>)
      requires Valid()
      ensures |update| == |u| == maxLevel
      ensures forall i :: 0 <= i < maxLevel ==>
                Before(keys, heights, key, i, u[i]) && update[i] == order[u[i]]
      ensures forall i :: 0 <= i < maxLevel ==> LastBefore(update[i], key, i)
    {
      var curr := head;
      ghost var p: nat := 0;
      update, u := seq(maxLevel, _ => curr), seq(maxLevel, _ => 0);
      var i := maxLevel;
      while i > 0
        invariant 0 <= i <= maxLevel && |update| == |u| == maxLevel
        invariant p < |order| && curr == order[p] && heights[p] >= i
        invariant p == 0 || KeyLess(keys[p], key)
        invariant forall j :: i <= j < maxLevel ==>
                    Before(keys, heights, key, j, u[j]) && update[j] == order[u[j]]
        invariant forall j :: i <= j < maxLevel ==> LastBefore(update[j], key, j)
      {
        i := i - 1;
        curr, p := Advance(curr, key, i, p);
        update, u := update[i := curr], u[i := p];
      }
    }

    /** What the source keeps in `update[]`: the predecessors of `key` on every level. */
    ghost predicate Located(key: Key, update: seq<SkipNode>, u: seq<nat>, at: nat)
      reads this
    {
      && |order| == |keys| == |heights| && |update| == |u| == maxLevel
      && Predecessors(keys, heights, key, u, at)
      && (forall i :: 0 <= i < maxLevel ==> u[i] < |order| && update[i] == order[u[i]] && heights[u[i]] > i)
    }

    /** The search of put, get and remove: `curr` is the first node not before `key`. */
    method Locate(key: Key) returns (update: seq<SkipNode>, curr: SkipNode?, ghost u: seq<nat>, ghost at: nat)
      requires Valid()
      ensures Located(key, update, u, at) && curr == NodeAt(order, at)
      ensures curr != null && curr.key == key <==> key in Map()
      ensures key in Map() ==> at < |order| && keys[at] == key && Map()[key] == values[at]
    {
      update, u := FindPredecessors(key);
      at := u[0] + 1;
      SplitsAt(keys, heights, key, u[0]);
      FoundAt(keys, values, key, at);
      curr := update[0].next[0];
    }

    /** `nkit_skip_get`, inside the shard. */
    method Get(key: Key) returns (value: Value)
      requires Valid()
      ensures value == if key in Map() then Map()[key] else NULL
    {
      var update, curr, u, at := Locate(key);
      value := if curr != null && curr.key == key then curr.value else NULL;
    }

    /** One store into a node, with its record. */
    method SetLink(node: SkipNode, i: nat, target: SkipNode?, ghost p: nat)
      requires Recorded() && p < |order| && node == order[p] && i < |links[p]|
      modifies node`next, this`links
      ensures Recorded() && links == old(links)[p := old(links)[p][i := target]]
    {
      node.next := node.next[i := target];
      links := links[p := links[p][i := target]];
    }

    /** The branch of put that finds the key. */
    method Overwrite(curr: SkipNode, value: Value, ghost at: nat)
      requires Valid() && 1 <= at < |order| && curr == order[at]
      modifies this`values, curr`value
      ensures Valid() && Map() == old(Map())[curr.key := value]
    {
      MapUpdated(keys, values, at, value);
      curr.value := value;
      values := values[at := value];
    }

    /** The linking loop of put: on every level of the new node, splice it in after `update[i]`. */
    method Splice(node: SkipNode, update: seq<SkipNode>, ghost u: seq<nat>)
      requires Recorded() && node !in nodes && |node.next| <= |update| == |u|
      requires forall i :: 0 <= i < |u| ==> u[i] < |order| && update[i] == order[u[i]] && i < |links[u[i]]|
      modifies nodes`next, node`next, this`links
      ensures Recorded() && |node.next| == old(|node.next|)
      ensures Patched(old(links), links, u, seq(|node.next|, _ => node), |node.next|)
      ensures forall i :: 0 <= i < |node.next| ==> node.next[i] == old(links)[u[i]][i]
    {
      var level := |node.next|;
      ghost var was, to := links, seq(level, _ => node);
      for i := 0 to level
        invariant Recorded() && |node.next| == level && Patched(was, links, u, to, i)
        invariant forall j :: 0 <= j < i ==> node.next[j] == was[u[j]][j]
      {
        node.next := node.next[i := update[i].next[i]];
        SetLink(update[i], i, node, u[i]);
      }
    }

    /** The geometric height: one more level per head in a row, up to the limit. */
    method RandomLevel(coins: nat -> bool) returns (level: nat)
      requires maxLevel >= 1
      ensures 1 <= level <= maxLevel
      ensures forall j: nat :: j < level - 1 ==> coins(j)
      ensures level < maxLevel ==> !coins(level - 1)
      ensures level == Drawn(coins, 1, maxLevel)
    {
      level := 1;
      while coins(level - 1) && level < maxLevel
        invariant 1 <= level <= maxLevel
        invariant forall j: nat :: j < level - 1 ==> coins(j)
        invariant Drawn(coins, level, maxLevel) == Drawn(coins, 1, maxLevel)
        decreases maxLevel - level
      {
        level := level + 1;
      }
    }

    /** The records once the spliced node is counted in. */
    ghost method Adopt(node: SkipNode, was: seq<seq<SkipNode?>>, u: seq<nat>, at: nat)
      requires Recorded() && node !in nodes && 1 <= |order| && order[0] == head
      requires Levels(maxLevel, currentLevel, order, keys, heights, was)
      requires Predecessors(keys, heights, node.key, u, at) && (at < |keys| ==> keys[at] != node.key)
      requires 1 <= |node.next| <= currentLevel && |node.next| <= |u|
      requires Patched(was, links, u, seq(|node.next|, _ => node), |node.next|)
      requires forall i :: 0 <= i < |node.next| ==>
                 u[i] < |was| && i < |was[u[i]]| && node.next[i] == was[u[i]][i]
      modifies this`nodes, this`order, this`keys, this`values, this`links, this`heights
      ensures Shaped() && Recorded() && nodes == old(nodes) + {node} && order == Inserted(old(order), at, node)
      ensures keys == Inserted(old(keys), at, node.key) && values == Inserted(old(values), at, node.value)
      ensures heights == Inserted(old(heights), at, |node.next|)
    {
      LevelsInserted(maxLevel, currentLevel, order, keys, heights, was, links, node, node.next, node.key, u, at);
      MirrorsInserted(nodes, order, keys, values, links, at, node);
      nodes := nodes + {node};
      order, links := Inserted(order, at, node), Inserted(links, at, node.next);
      keys, values := Inserted(keys, at, node.key), Inserted(values, at, node.value);
      heights := Inserted(heights, at, |node.next|);
    }

    /** A new node, linked in on its levels. */
    method LinkIn(node: SkipNode, update: seq<SkipNode>, ghost u: seq<nat>, ghost at: nat)
      requires Shaped() && Recorded() && Located(node.key, update, u, at) && (at < |keys| ==> keys[at] != node.key)
      requires node !in nodes && 1 <= |node.next| <= currentLevel
      modifies nodes, node, this`nodes, this`order, this`keys, this`values, this`links, this`heights
      ensures Shaped() && Recorded() && nodes == old(nodes) + {node}
      ensures node.value == old(node.value) && |node.next| == old(|node.next|)
      ensures keys == Inserted(old(keys), at, node.key) && values == Inserted(old(values), at, node.value)
      ensures at < |keys| == |heights| && keys[at] == node.key && heights[at] == |node.next|
    {
      ghost var was := links;
      Splice(node, update, u);
      Adopt(node, was, u, at);
    }

    /** The node of `key` is on the lowest `h` levels. */
    ghost predicate Stands(key: Key, h: nat)
      reads this
    {
      exists p :: 0 < p < |keys| == |heights| && keys[p] == key && heights[p] == h
    }

    /** A new node, linked in and counted. */
    method Attach(node: SkipNode, update: seq<SkipNode>, ghost u: seq<nat>, ghost at: nat)
      requires Valid() && Located(node.key, update, u, at) && (at < |keys| ==> keys[at] != node.key)
      requires node.key !in Map() && node !in nodes && 1 <= |node.next| <= currentLevel
      modifies nodes, node, this
      ensures Valid() && nodes == old(nodes) + {node} && Map() == old(Map())[node.key := old(node.value)]
      ensures currentLevel == old(currentLevel) && Stands(node.key, old(|node.next|))
    {
      LinkIn(node, update, u, at);
      MapInserted(old(keys), old(values), at, node.key, node.value);
      count := count + 1;
    }

    /** The branch of put that adds a node. */
    method Insert(key: Key, value: Value, level: nat, update: seq<SkipNode>, ghost u: seq<nat>, ghost at: nat)
      requires Valid() && Located(key, update, u, at) && key !in Map() && 1 <= level <= currentLevel
      modifies this, nodes
      ensures Valid() && Map() == old(Map())[key := value]
      ensures fresh(nodes - old(nodes)) && currentLevel == old(currentLevel) && Stands(key, level)
    {
      if at < |keys| { FoundNowhere(keys, values, key, at); }
      var node := new SkipNode(key, value, level);
      Attach(node, update, u, at);
    }

    /** The rest of put once the key was not found: the level mark rises before the node is asked for. */
    method AddNew(key: Key, value: Value, coins: nat -> bool, gotNode: bool, update: seq<SkipNode>,
                  ghost u: seq<nat>, ghost at: nat)
      requires Valid() && Located(key, update, u, at) && key !in Map() && maxLevel >= 1
      modifies this, nodes
      ensures Valid() && Map() == (if gotNode then old(Map())[key := value] else old(Map()))
      ensures fresh(nodes - old(nodes)) && (gotNode ==> Stands(key, Drawn(coins, 1, maxLevel)))
      ensures currentLevel == Max(old(currentLevel), Drawn(coins, 1, maxLevel))
    {
      var level := RandomLevel(coins);
      if level > currentLevel {
        currentLevel := level;
      }
      if gotNode { Insert(key, value, level, update, u, at); }
    }

    /** `nkit_skip_put`, inside the shard; `gotNode` says whether the new node could be had. */
    method Put(key: Key, value: Value, coins: nat -> bool, gotNode: bool) returns (ok: bool)
      requires Valid()
      modifies this, nodes
      ensures Valid() && ok == (key in old(Map()) || gotNode)
      ensures Map() == if ok then old(Map())[key := value] else old(Map())
      ensures fresh(nodes - old(nodes)) && maxLevel >= 1
      ensures ok && key !in old(Map()) ==> Stands(key, Drawn(coins, 1, maxLevel))
      ensures currentLevel == if key in old(Map()) then old(currentLevel)
                              else Max(old(currentLevel), Drawn(coins, 1, maxLevel))
    {
      var update, curr, u, at := Locate(key);
      if curr != null && curr.key == key {
        Overwrite(curr, value, at);
        return true;
      }
      AddNew(key, value, coins, gotNode, update, u, at);
      return gotNode;
    }

    /** The unlinking loop of remove.  It runs over all the levels of the node: its early exit is
        never taken, since the predecessor on each of them leads to the node. */
    method Bypass(curr: SkipNode, update: seq<SkipNode>, ghost u: seq<nat>, ghost at: nat)
      requires Recorded() && at < |order| && curr == order[at] && |links[at]| <= |update| == |u|
      requires forall i :: 0 <= i < |u| ==> u[i] < at && update[i] == order[u[i]] && i < |links[u[i]]|
      requires forall i :: 0 <= i < |links[at]| ==> links[u[i]][i] == curr
      modifies nodes`next, this`links
      ensures Recorded() && Patched(old(links), links, u, old(links[at]), |old(links[at])|)
    {
      ghost var was, to := links, links[at];
      var i := 0;
      while i < |curr.next|
        invariant i <= |to| && Recorded() && Patched(was, links, u, to, i)
      {
        if update[i].next[i] != curr { break; }
        SetLink(update[i], i, curr.next[i], u[i]);
        i := i + 1;
      }
    }

    /** The records once the bypassed node is counted out. */
    ghost method Forget(key: Key, was: seq<seq<SkipNode?>>, u: seq<nat>, at: nat)
      requires Recorded() && 1 <= at < |order| && order[0] == head
      requires Levels(maxLevel, currentLevel, order, keys, heights, was) && Predecessors(keys, heights, key, u, at)
      requires maxLevel <= |u| && Patched(was, links, u, was[at], heights[at])
      modifies this`order, this`keys, this`values, this`links, this`heights
      ensures Shaped() && Recorded() && order == Removed(old(order), at)
      ensures keys == Removed(old(keys), at) && values == Removed(old(values), at)
    {
      LevelsRemoved(maxLevel, currentLevel, order, keys, heights, was, links, key, u, at);
      MirrorsRemoved(nodes, order, keys, values, links, at);
      order, links := Removed(order, at), Removed(links, at);
      keys, values := Removed(keys, at), Removed(values, at);
      heights := Removed(heights, at);
    }

    /** A node, unlinked on all its levels. */
    method LinkOut(key: Key, curr: SkipNode, update: seq<SkipNode>, ghost u: seq<nat>, ghost at: nat)
      requires Shaped() && Recorded() && Located(key, update, u, at) && at < |order| && curr == order[at]
      modifies nodes, this`order, this`keys, this`values, this`links, this`heights
      ensures Shaped() && Recorded()
      ensures keys == Removed(old(keys), at) && values == Removed(old(values), at)
    {
      LeadsTo(order, keys, heights, links, key, u, at);
      ghost var was := links;
      Bypass(curr, update, u, at);
      Forget(key, was, u, at);
    }

    /** The branch of remove that finds the key. */
    method Unlink(key: Key, curr: SkipNode, update: seq<SkipNode>, ghost u: seq<nat>, ghost at: nat)
      requires Valid() && Located(key, update, u, at) && at < |order| && curr == order[at] && keys[at] == key
      modifies this, nodes
      ensures Valid() && Map() == old(Map()) - {key}
      ensures nodes == old(nodes) && currentLevel == old(currentLevel)
    {
      LinkOut(key, curr, update, u, at);
      MapRemoved(old(keys), old(values), at);
      count := count - 1;
    }

    /** `nkit_skip_remove`, inside the shard. */
    method Remove(key: Key) returns (ok: bool)
      requires Valid()
      modifies this, nodes
      ensures Valid() && ok == (key in old(Map()))
      ensures Map() == old(Map()) - {key}
      ensures nodes == old(nodes) && currentLevel == old(currentLevel)
    {
      var update, curr, u, at := Locate(key);
      if curr != null && curr.key == key {
        Unlink(key, curr, update, u, at);
        return true;
      }
      return false;
    }
  }

  /** Shards that hold `maps` in the nodes `repr`, and share no node. */
  ghost predicate Holding(shards: seq<Shard>, maps: seq<map<Key, Value>>, repr: set<SkipNode>)
    reads shards, repr
  {
    && |shards| == |maps|
    && (forall s :: 0 <= s < |shards| ==> shards[s].nodes <= repr)
    && (forall s :: 0 <= s < |shards| ==> shards[s].Valid() && shards[s].Map() == maps[s])
    && (forall s, t :: 0 <= s < |shards| && 0 <= t < |shards| && s != t ==> shards[s].nodes !! shards[t].nodes)
  }
}
