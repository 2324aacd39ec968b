/** What push, pop and steal answer when they run without interruption, from any state the others may
    have left behind; and why a steal that loses its CAS does. */
module ChaseLevAlone {
  import opened ChaseLev

  lemma Follow(s: State, st: Step, rest: seq<Step>)
    requires Enabled(s, st) && Legal(Apply(s, st), rest)
    ensures Legal(s, [st] + rest) && Exec(s, [st] + rest) == Exec(Apply(s, st), rest)
  {
    assert ([st] + rest)[1..] == rest;
  }

  lemma Two(s: State, a: Step, b: Step, rest: seq<Step>)
    requires Enabled(s, a) && Enabled(Apply(s, a), b) && Legal(Apply(Apply(s, a), b), rest)
    ensures Legal(s, [a, b] + rest) && Exec(s, [a, b] + rest) == Exec(Apply(Apply(s, a), b), rest)
  {
    Follow(Apply(s, a), b, rest);
    Follow(s, a, [b] + rest);
    assert [a] + ([b] + rest) == [a, b] + rest;
  }

  // ---------------------------------------------------------------------------
  // Steal
  // ---------------------------------------------------------------------------

  function StealSteps(id: Tid, junk: Pointer): seq<Step> {
    [StealReadTop(id), StealReadBottom(id)] + ([StealReadArray(id)] + ([StealReadItem(id, junk), StealCas(id)] + []))
  }

  /** The first three loads, undisturbed. */
  function Looked(s: State, id: Tid): State {
    s.(thieves := s.thieves[id := SawArray(s.top, s.cur)])
  }

  lemma StealLooks(s: State, id: Tid, rest: seq<Step>)
    requires ThiefAt(s, id).Away? && s.top < s.bottom && Legal(Looked(s, id), rest)
    ensures Legal(s, [StealReadTop(id), StealReadBottom(id)] + ([StealReadArray(id)] + rest))
    ensures Exec(s, [StealReadTop(id), StealReadBottom(id)] + ([StealReadArray(id)] + rest)) ==
            Exec(Looked(s, id), rest)
  {
    var s1 := Apply(s, StealReadTop(id));
    var s2 := Apply(s1, StealReadBottom(id));
    assert Apply(s2, StealReadArray(id)).thieves == Looked(s, id).thieves;
    Follow(s2, StealReadArray(id), rest);
    Two(s, StealReadTop(id), StealReadBottom(id), [StealReadArray(id)] + rest);
  }

  /** A steal that is not interrupted takes the oldest item, whatever the owner and the other thieves
      are in the middle of. */
  lemma StealAlone(s: State, id: Tid, junk: Pointer)
    requires Control(s) && ThiefAt(s, id).Away? && s.top < s.bottom
    ensures Items(s) != [] && Items(s)[0] < |s.pushes| && Legal(s, StealSteps(id, junk))
    ensures var e := Exec(s, StealSteps(id, junk));
      && e.taken == s.taken + [Taken(Items(s)[0], s.pushes[Items(s)[0]], AThief(false))]
      && Items(e) == Items(s)[1..] && e.pushes == s.pushes && e.owner == s.owner && ThiefAt(e, id).Away?
  {
    var s3 := Looked(s, id);
    OldestIsThere(s);
    StealTakes(s3, id, junk);
    Two(s3, StealReadItem(id, junk), StealCas(id), []);
    StealLooks(s, id, [StealReadItem(id, junk), StealCas(id)] + []);
  }

  lemma OldestIsThere(s: State)
    requires Control(s) && s.top < s.bottom
    ensures Items(s) != [] && Items(s)[0] < |s.pushes| && SerialAt(s, s.top) == Items(s)[0]
    ensures Slot(s, s.cur, s.top) == s.pushes[Items(s)[0]] && s.cur !in s.freed
  {
    assert Holds(s, s.cur, s.top);
  }

  lemma StealTakes(s: State, id: Tid, junk: Pointer)
    requires ThiefAt(s, id) == SawArray(s.top, s.cur) && s.cur !in s.freed && s.top < |s.log|
    ensures var e := Steal(s, id, junk);
      && e.taken == s.taken + [Taken(SerialAt(s, s.top), Slot(s, s.cur, s.top), AThief(false))]
      && e.top == s.top + 1 && e.log == s.log && e.pushes == s.pushes && e.owner == s.owner && ThiefAt(e, id).Away?
  {}

  /** On a deque without items below `bottom` it takes nothing and changes nothing. */
  lemma StealEmptyAlone(s: State, id: Tid)
    requires ThiefAt(s, id).Away? && s.top >= s.bottom
    ensures Legal(s, [StealReadTop(id), StealReadBottom(id)] + [])
    ensures Exec(s, [StealReadTop(id), StealReadBottom(id)] + []) == s.(thieves := s.thieves[id := Away])
  {
    var s2 := Apply(Apply(s, StealReadTop(id)), StealReadBottom(id));
    assert s2.thieves == s.thieves[id := Away] && s2 == s.(thieves := s2.thieves);
    assert Legal(s2, []) && Exec(s2, []) == s2;
    Two(s, StealReadTop(id), StealReadBottom(id), []);
  }

  /** The thief does not begin a new steal in the run. */
  predicate OneSteal(steps: seq<Step>, id: Tid) {
    forall k :: 0 <= k < |steps| ==> steps[k] != StealReadTop(id)
  }

  lemma {:induction false} KeepsItsTop(s: State, id: Tid, t: nat, steps: seq<Step>)
    requires Legal(s, steps) && OneSteal(steps, id) && (ThiefAt(s, id).Away? || ThiefAt(s, id).t == t)
    ensures ThiefAt(Exec(s, steps), id).Away? || ThiefAt(Exec(s, steps), id).t == t
    decreases |steps|
  {
    if steps != [] { KeepsItsTop(Apply(s, steps[0]), id, t, steps[1..]); }
  }

  /** However a steal is interrupted, its CAS fails exactly when `top` has moved since its own first
      load; either way it is over. */
  lemma CasFailsExactlyWhen(s: State, id: Tid, steps: seq<Step>)
    requires Enabled(s, StealReadTop(id)) && Legal(Apply(s, StealReadTop(id)), steps) && OneSteal(steps, id)
    requires ThiefAt(Exec(Apply(s, StealReadTop(id)), steps), id).SawItem?
    ensures var e := Exec(Apply(s, StealReadTop(id)), steps);
      var e' := Apply(e, StealCas(id));
      && s.top <= e.top && ThiefAt(e', id).Away?
      && (e.top > s.top ==> e'.taken == e.taken && e'.top == e.top)
      && (e.top == s.top ==> |e'.taken| == |e.taken| + 1 && e'.taken[|e.taken|].data == ThiefAt(e, id).x)
  {
    var s1 := Apply(s, StealReadTop(id));
    KeepsItsTop(s1, id, s.top, steps);
    TopGrows(s1, steps);
  }

  // ---------------------------------------------------------------------------
  // Pop
  // ---------------------------------------------------------------------------

  function PopSteps(n: nat): seq<Step> {
    if n == 0 then [BeginPop, PopReadTop] + ([PopRestore] + [])
    else if n == 1 then [BeginPop, PopReadTop] + ([PopReadLast, PopCas] + ([PopRestore] + []))
    else [BeginPop, PopReadTop] + ([PopTakeItem] + [])
  }

  lemma PopEmptyAlone(s: State)
    requires Control(s) && s.owner.Idle? && Items(s) == []
    ensures Legal(s, PopSteps(0)) && Exec(s, PopSteps(0)) == s
  {
    var s2 := Apply(Apply(s, BeginPop), PopReadTop);
    Follow(s2, PopRestore, []);
    Two(s, BeginPop, PopReadTop, [PopRestore] + []);
  }

  lemma PopLastAlone(s: State)
    requires Control(s) && s.owner.Idle? && |Items(s)| == 1
    ensures Items(s)[0] < |s.pushes| && Legal(s, PopSteps(1))
    ensures var e := Exec(s, PopSteps(1));
      && e.taken == s.taken + [Taken(Items(s)[0], s.pushes[Items(s)[0]], TheOwner)]
      && Items(e) == [] && e.pushes == s.pushes && e.owner.Idle? && e.thieves == s.thieves
  {
    assert Holds(s, s.cur, s.top);
    LastTaken(AtLast(s));
    Two(s, BeginPop, PopReadTop, [PopReadLast, PopCas] + ([PopRestore] + []));
  }

  /** A pop that has seen one item left. */
  function AtLast(s: State): State {
    s.(bottom := s.bottom - 1, owner := PopReadsLast(s.bottom - 1, s.cur))
  }

  lemma LastTaken(s: State)
    requires s.owner == PopReadsLast(s.bottom, s.cur) && s.bottom == s.top == |s.log| - 1
    ensures var steps := [PopReadLast, PopCas] + ([PopRestore] + []);
      Legal(s, steps) &&
      var e := Exec(s, steps);
      && e.taken == s.taken + [Taken(s.log[s.top], Slot(s, s.cur, s.top), TheOwner)]
      && e.top == e.bottom == |e.log| && e.pushes == s.pushes && e.owner.Idle? && e.thieves == s.thieves
  {
    var s2 := Apply(Apply(s, PopReadLast), PopCas);
    Follow(s2, PopRestore, []);
    Two(s, PopReadLast, PopCas, [PopRestore] + []);
  }

  lemma PopManyAlone(s: State)
    requires Control(s) && s.owner.Idle? && |Items(s)| > 1
    ensures var n := Items(s)[|Items(s)| - 1];
      n < |s.pushes| && Legal(s, PopSteps(2)) &&
      var e := Exec(s, PopSteps(2));
      && e.taken == s.taken + [Taken(n, s.pushes[n], TheOwner)]
      && Items(e) == Items(s)[..|Items(s)| - 1] && e.pushes == s.pushes && e.owner.Idle? && e.thieves == s.thieves
  {
    assert Holds(s, s.cur, s.bottom - 1);
    var s2 := Apply(Apply(s, BeginPop), PopReadTop);
    Follow(s2, PopTakeItem, []);
    Two(s, BeginPop, PopReadTop, [PopTakeItem] + []);
  }

  /** A pop that is not interrupted takes the newest item, or nothing from an empty deque. */
  lemma PopAlone(s: State)
    requires Control(s) && s.owner.Idle?
    ensures Legal(s, PopSteps(|Items(s)|))
    ensures var e := Exec(s, PopSteps(|Items(s)|));
      && e.pushes == s.pushes && e.owner.Idle? && e.thieves == s.thieves
      && if Items(s) == [] then e.taken == s.taken && Items(e) == []
         else var n := Items(s)[|Items(s)| - 1];
              && n < |s.pushes| && e.taken == s.taken + [Taken(n, s.pushes[n], TheOwner)]
              && Items(e) == Items(s)[..|Items(s)| - 1]
  {
    if Items(s) == [] { PopEmptyAlone(s); }
    else if |Items(s)| == 1 { PopLastAlone(s); }
    else { PopManyAlone(s); }
  }

  // ---------------------------------------------------------------------------
  // Push
  // ---------------------------------------------------------------------------

  function Copies(n: nat): seq<Step> {
    if n == 0 then [] else [CopyOne] + Copies(n - 1)
  }

  /** The steps of a push on an array with room, and on a full one that is or is not replaced. */
  function PushSteps(x: Pointer): seq<Step> {
    [BeginPush(x), StoreItem] + ([PublishPush] + [])
  }

  function GrowSteps(x: Pointer, n: nat, grows: bool): seq<Step> {
    [BeginPush(x), BeginResize(true)] + (Copies(n) + RestOfPush(grows))
  }

  function RestOfPush(grows: bool): seq<Step> {
    [PublishArray, Retire(grows)] + ([StoreItem, PublishPush] + [])
  }

  function RefusedSteps(x: Pointer): seq<Step> {
    [BeginPush(x), BeginResize(false)] + ([RefusePush] + [])
  }

  /** What a completed push leaves. */
  ghost predicate PushedOn(s: State, e: State, x: Pointer) {
    && e.pushes == s.pushes + [x] && Items(e) == Items(s) + [|s.pushes|]
    && e.taken == s.taken && e.owner.Idle? && e.thieves == s.thieves
  }

  /** A push that is not interrupted adds its argument at the bottom when the array has room. */
  lemma PushRoomAlone(s: State, x: Pointer)
    requires s.owner.Idle? && s.top <= s.bottom == |s.log| && s.bottom - s.top < Size(s, s.cur)
    ensures Legal(s, PushSteps(x)) && PushedOn(s, Exec(s, PushSteps(x)), x)
  {
    var s2 := Apply(Apply(s, BeginPush(x)), StoreItem);
    Follow(s2, PublishPush, []);
    Two(s, BeginPush(x), StoreItem, [PublishPush] + []);
  }

  /** On a full array, and without a larger one, it leaves the deque as it was. */
  lemma PushRefusedAlone(s: State, x: Pointer)
    requires s.owner.Idle? && s.bottom - s.top >= Size(s, s.cur)
    ensures Legal(s, RefusedSteps(x)) && Exec(s, RefusedSteps(x)) == s
  {
    var s2 := Apply(Apply(s, BeginPush(x)), BeginResize(false));
    Follow(s2, RefusePush, []);
    Two(s, BeginPush(x), BeginResize(false), [RefusePush] + []);
  }

  /** Where the copy loop ends. */
  function CopyEnd(s: State): State
    requires s.owner.Copying?
    decreases s.owner.b - s.owner.i
  {
    if s.owner.i < s.owner.b then CopyEnd(Apply(s, CopyOne)) else s
  }

  /** The copy loop changes nothing but the new array. */
  lemma {:induction false} CopyAlone(s: State)
    requires Control(s) && s.owner.Copying?
    ensures Control(CopyEnd(s)) && CopyEnd(s) == s.(arrays := CopyEnd(s).arrays, owner := s.owner.(i := s.owner.b))
    decreases s.owner.b - s.owner.i
  {
    if s.owner.i < s.owner.b {
      ControlKept(s, CopyOne);
      CopyAlone(Apply(s, CopyOne));
    }
  }

  lemma {:induction false} CopyRuns(s: State, rest: seq<Step>)
    requires s.owner.Copying? && s.owner.i <= s.owner.b && Legal(CopyEnd(s), rest)
    ensures Legal(s, Copies(s.owner.b - s.owner.i) + rest)
    ensures Exec(s, Copies(s.owner.b - s.owner.i) + rest) == Exec(CopyEnd(s), rest)
    decreases s.owner.b - s.owner.i
  {
    var n := s.owner.b - s.owner.i;
    if n == 0 {
      assert Copies(n) + rest == rest;
    } else {
      assert Copies(n) + rest == [CopyOne] + (Copies(n - 1) + rest);
      CopyRuns(Apply(s, CopyOne), rest);
      Follow(s, CopyOne, Copies(n - 1) + rest);
    }
  }

  /** From a room that is there to the end of the push. */
  lemma PushEndsAlone(s: State)
    requires Control(s) && s.owner.PushRechecks? && s.owner.b - s.owner.t < Size(s, s.cur)
    ensures Legal(s, [StoreItem, PublishPush] + [])
    ensures PushedOn(s, Exec(s, [StoreItem, PublishPush] + []), s.owner.x)
  {
    Two(s, StoreItem, PublishPush, []);
  }

  /** From the end of the copy to the end of the push. */
  lemma PushAfterCopy(s: State, grows: bool)
    requires Control(s) && s.owner.Copying? && s.owner.i == s.owner.b
    ensures Legal(s, [PublishArray, Retire(grows)] + ([StoreItem, PublishPush] + []))
    ensures PushedOn(s, Exec(s, [PublishArray, Retire(grows)] + ([StoreItem, PublishPush] + [])), s.owner.x)
  {
    var s1 := Apply(s, PublishArray);
    var s2 := Apply(s1, Retire(grows));
    RetiredReady(s, grows);
    PushEndsAlone(s2);
    Two(s, PublishArray, Retire(grows), [StoreItem, PublishPush] + []);
  }

  lemma RetiredReady(s: State, grows: bool)
    requires Control(s) && s.owner.Copying? && s.owner.i == s.owner.b
    ensures var s2 := Apply(Apply(s, PublishArray), Retire(grows));
      && Control(s2) && s2.owner == PushRechecks(s.owner.x, s.owner.b, s.owner.t, true)
      && s2.owner.b - s2.owner.t < Size(s2, s2.cur)
      && s2.pushes == s.pushes && Items(s2) == Items(s) && s2.taken == s.taken && s2.thieves == s.thieves
  {
    ControlKept(s, PublishArray);
    ControlKept(Apply(s, PublishArray), Retire(grows));
  }

  /** A push that has begun to copy. */
  function Resizing(s: State, x: Pointer): State
    requires s.owner.Idle? && s.bottom - s.top >= Size(s, s.cur)
  {
    Apply(Apply(s, BeginPush(x)), BeginResize(true))
  }

  lemma ResizeRuns(s: State, x: Pointer, rest: seq<Step>)
    requires s.owner.Idle? && s.bottom - s.top >= Size(s, s.cur) && Legal(Resizing(s, x), rest)
    ensures Legal(s, [BeginPush(x), BeginResize(true)] + rest)
    ensures Exec(s, [BeginPush(x), BeginResize(true)] + rest) == Exec(Resizing(s, x), rest)
  {
    Two(s, BeginPush(x), BeginResize(true), rest);
  }

  /** With the larger array it copies the items over and adds its argument, whether or not the retired
      list can grow. */
  lemma PushGrowsAlone(s: State, x: Pointer, grows: bool)
    requires Control(s) && s.owner.Idle? && s.bottom - s.top >= Size(s, s.cur)
    ensures var steps := GrowSteps(x, s.bottom - s.top, grows);
      Legal(s, steps) && PushedOn(s, Exec(s, steps), x)
  {
    PushFromResize(s, x, grows);
    ResizeRuns(s, x, Copies(s.bottom - s.top) + RestOfPush(grows));
  }

  lemma PushFromResize(s: State, x: Pointer, grows: bool)
    requires Control(s) && s.owner.Idle? && s.bottom - s.top >= Size(s, s.cur)
    ensures var s2, rest := Resizing(s, x), Copies(s.bottom - s.top) + RestOfPush(grows);
      Legal(s2, rest) && PushedOn(s, Exec(s2, rest), x)
  {
    var s2, rest := Resizing(s, x), Copies(s.bottom - s.top) + RestOfPush(grows);
    ResizeBegun(s, x);
    PushFromCopy(s2, grows);
    PushedAllTheSame(s, s2, Exec(s2, rest), x);
  }

  lemma PushedAllTheSame(s: State, s2: State, e: State, x: Pointer)
    requires PushedOn(s2, e, x)
    requires s2.pushes == s.pushes && Items(s2) == Items(s) && s2.taken == s.taken && s2.thieves == s.thieves
    ensures PushedOn(s, e, x)
  {}

  /** From the start of the copy to the end of the push. */
  lemma PushFromCopy(s: State, grows: bool)
    requires Control(s) && s.owner.Copying?
    ensures var steps := Copies(s.owner.b - s.owner.i) + RestOfPush(grows);
      Legal(s, steps) && PushedOn(s, Exec(s, steps), s.owner.x)
  {
    CopyAlone(s);
    PushAfterCopy(CopyEnd(s), grows);
    CopyRuns(s, RestOfPush(grows));
  }

  lemma ResizeBegun(s: State, x: Pointer)
    requires Control(s) && s.owner.Idle? && s.bottom - s.top >= Size(s, s.cur)
    ensures var s2 := Resizing(s, x);
      && Control(s2) && s2.owner == Copying(x, s.bottom, s.top, s.top, s.top) && s.top <= s.bottom
      && s2.pushes == s.pushes && Items(s2) == Items(s) && s2.taken == s.taken && s2.thieves == s.thieves
  {
    ControlKept(s, BeginPush(x));
    ControlKept(Apply(s, BeginPush(x)), BeginResize(true));
  }
}
