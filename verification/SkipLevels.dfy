/** Keys and levels of a skip list, without pointers: the key order, where each level's chain goes
    next, and how both change when a node is put in or taken out. */
module SkipLevels {
  import opened KeyedMap

  // ---------------------------------------------------------------------------
  // Key order
  // ---------------------------------------------------------------------------

  /** `memcmp(a, b, len) < 0` on byte strings of one length. */
  predicate BytesLess(a: Key, b: Key)
    requires |a| == |b|
  {
    a != [] && (a[0] < b[0] || (a[0] == b[0] && BytesLess(a[1..], b[1..])))
  }

  /** Shorter keys first, then byte order. */
  predicate KeyLess(a: Key, b: Key) {
    |a| < |b| || (|a| == |b| && BytesLess(a, b))
  }

  lemma {:induction false} LessDiffers(a: Key, b: Key)
    requires |a| == |b| && BytesLess(a, b)
    ensures exists i :: 0 <= i < |a| && a[i] < b[i] && a[..i] == b[..i]
  {
    if a[0] < b[0] {
      assert a[..0] == b[..0];
    } else {
      LessDiffers(a[1..], b[1..]);
      var i :| 0 <= i < |a| - 1 && a[1..][i] < b[1..][i] && a[1..][..i] == b[1..][..i];
      assert a[..i + 1] == [a[0]] + a[1..][..i] && b[..i + 1] == [b[0]] + b[1..][..i];
      assert a[i + 1] < b[i + 1];
    }
  }

  lemma {:induction false} DiffersLess(a: Key, b: Key, i: nat)
    requires i < |a| == |b| && a[i] < b[i] && a[..i] == b[..i]
    ensures BytesLess(a, b)
  {
    if i > 0 {
      assert a[0] == a[..i][0] == b[..i][0] == b[0];
      assert a[1..][..i - 1] == a[..i][1..] && b[1..][..i - 1] == b[..i][1..];
      DiffersLess(a[1..], b[1..], i - 1);
    }
  }

  /** Shorter first, and among keys of one length the first byte that differs decides. */
  lemma KeyLessExactlyWhen(a: Key, b: Key)
    ensures KeyLess(a, b) <==>
      |a| < |b| || (|a| == |b| && exists i :: 0 <= i < |a| && a[i] < b[i] && a[..i] == b[..i])
  {
    if |a| == |b| {
      if BytesLess(a, b) { LessDiffers(a, b); }
      forall i | 0 <= i < |a| && a[i] < b[i] && a[..i] == b[..i] ensures BytesLess(a, b) { DiffersLess(a, b, i); }
    }
  }

  lemma {:induction false} BytesTotal(a: Key, b: Key)
    requires |a| == |b|
    ensures BytesLess(a, b) || a == b || BytesLess(b, a)
    ensures !(BytesLess(a, b) && BytesLess(b, a))
    ensures a == b ==> !BytesLess(a, b)
  {
    if a != [] {
      BytesTotal(a[1..], b[1..]);
      if a[0] == b[0] && a[1..] == b[1..] { assert a == [a[0]] + a[1..] && b == [b[0]] + b[1..]; }
    }
  }

  lemma {:induction false} BytesTransitive(a: Key, b: Key, c: Key)
    requires |a| == |b| == |c| && BytesLess(a, b) && BytesLess(b, c)
    ensures BytesLess(a, c)
  {
    if a[0] == b[0] && b[0] == c[0] { BytesTransitive(a[1..], b[1..], c[1..]); }
  }

  /** The order is a strict total order. */
  lemma KeyOrder(a: Key, b: Key, c: Key)
    ensures KeyLess(a, b) || a == b || KeyLess(b, a)
    ensures !(KeyLess(a, b) && KeyLess(b, a)) && !KeyLess(a, a)
    ensures KeyLess(a, b) && KeyLess(b, c) ==> KeyLess(a, c)
  {
    if |a| == |b| { BytesTotal(a, b); }
    BytesTotal(a, a);
    if KeyLess(a, b) && KeyLess(b, c) && |a| == |b| == |c| { BytesTransitive(a, b, c); }
  }

  // ---------------------------------------------------------------------------
  // Levels
  // ---------------------------------------------------------------------------

  function Max(a: nat, b: nat): nat { if a > b then a else b }

  /** The level drawn: one more for each head in a row, up to the limit. */
  function Drawn(coins: nat -> bool, level: nat, max: nat): (r: nat)
    requires 1 <= level <= max
    ensures level <= r <= max
    decreases max - level
  {
    if level < max && coins(level - 1) then Drawn(coins, level + 1, max) else level
  }

  /** The next position after `p` whose node is taller than `i`, or the end. */
  function NextPos(heights: seq<nat>, p: nat, i: nat): (q: nat)
    requires p < |heights|
    ensures p < q <= |heights|
    ensures q < |heights| ==> heights[q] > i
    ensures forall r :: p < r < q ==> heights[r] <= i
    decreases |heights| - p
  {
    if p + 1 == |heights| || heights[p + 1] > i then p + 1 else NextPos(heights, p + 1, i)
  }

  lemma NextPosIs(heights: seq<nat>, p: nat, i: nat, q: nat)
    requires p < q <= |heights|
    requires q < |heights| ==> heights[q] > i
    requires forall r :: p < r < q ==> heights[r] <= i
    ensures NextPos(heights, p, i) == q
  {}

  function Inserted<T>(s: seq<T>, at: nat, x: T): seq<T>
    requires at <= |s|
  {
    s[..at] + [x] + s[at..]
  }

  function Removed<T>(s: seq<T>, at: nat): seq<T>
    requires at < |s|
  {
    s[..at] + s[at + 1..]
  }

  /** What is in the list after the first place. */
  lemma InsertedIn<T>(s: seq<T>, at: nat, x: T, y: T)
    requires 1 <= at <= |s|
    ensures y in Inserted(s, at, x)[1..] <==> y == x || y in s[1..]
  {
    assert Inserted(s, at, x)[1..] == s[1..at] + [x] + s[at..];
    assert s[1..] == s[1..at] + s[at..];
  }

  lemma RemovedIn<T>(s: seq<T>, at: nat, y: T)
    requires 1 <= at < |s| && y != s[at] && y in s[1..]
    ensures y in Removed(s, at)[1..]
  {
    assert Removed(s, at)[1..] == s[1..at] + s[at + 1..];
    assert s[1..] == s[1..at] + [s[at]] + s[at + 1..];
  }

  /** The chains after a node of height `l` is put in at position `at`: it takes its place in the
      levels below `l`, and the other chains keep their nodes. */
  lemma InsertedNext(heights: seq<nat>, at: nat, l: nat, p: nat, i: nat)
    requires 0 < at <= |heights| && p < |heights|
    ensures var h', q := Inserted(heights, at, l), NextPos(heights, p, i);
      if p < at then NextPos(h', p, i) == (if q < at then q else if l > i then at else q + 1)
      else NextPos(h', p + 1, i) == q + 1
  {
    var h', q := Inserted(heights, at, l), NextPos(heights, p, i);
    if p < at {
      NextPosIs(h', p, i, if q < at then q else if l > i then at else q + 1);
    } else {
      NextPosIs(h', p + 1, i, q + 1);
    }
  }

  /** The new node goes on where its predecessor on that level did. */
  lemma InsertedOwnNext(heights: seq<nat>, at: nat, l: nat, u: nat, i: nat)
    requires u < at <= |heights| && NextPos(heights, u, i) >= at
    ensures NextPos(Inserted(heights, at, l), at, i) == NextPos(heights, u, i) + 1
  {
    NextPosIs(Inserted(heights, at, l), at, i, NextPos(heights, u, i) + 1);
  }

  /** The chains after the node at `at` is taken out. */
  lemma RemovedNext(heights: seq<nat>, at: nat, p: nat, i: nat)
    requires 0 < at < |heights| && p < |heights| && p != at
    ensures var h', q := Removed(heights, at), NextPos(heights, p, i);
      if p < at then
        NextPos(h', p, i) == (if q < at then q else if q == at then NextPos(heights, at, i) - 1 else q - 1)
      else NextPos(h', p - 1, i) == q - 1
  {
    var h', q := Removed(heights, at), NextPos(heights, p, i);
    if p < at {
      NextPosIs(h', p, i, if q < at then q else if q == at then NextPos(heights, at, i) - 1 else q - 1);
    } else {
      NextPosIs(h', p - 1, i, q - 1);
    }
  }
}
