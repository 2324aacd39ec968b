/** The Chase-Lev work-stealing deque: one owner pushing and popping at the bottom,
    any number of thieves taking from the top, and an owner that may swap in a
    doubled array while thieves still hold an older one.

    The model is a state machine with one step per access to shared memory, taken in
    an arbitrary interleaving.  Locals that only their own thread can change
    (`bottom` and `array` as the owner reads them) are loaded together with the next
    shared access. */
module ChaseLev {
  import opened Bits

  type Pointer = int
  const NULL: Pointer := 0
  type Tid = nat

  /** Where the owner stands inside push, resize or pop, with its locals. */
  datatype Owner =
    | Idle
    | PushChecks(x: Pointer, b: int, t: nat, a: nat)
    | Copying(x: Pointer, b: int, t: nat, lo: nat, i: nat)
    | Retiring(x: Pointer, b: int, t: nat, old_: nat)
    | PushRechecks(x: Pointer, b: int, t: nat, grown: bool)
    | PushPublishes(x: Pointer, b: int)
    | PopReadsTop(pb: int, a: nat)
    | PopTakes(pb: int, a: nat, serial: nat)
    | PopReadsLast(pb: int, a: nat)
    | PopCasTop(pb: int, y: Pointer)
    | PopRestores(pb: int)

  /** Where a thief stands inside steal, with its locals.  `stale` is history: the array was freed
      when the item was loaded from it. */
  datatype Thief =
    | Away
    | SawTop(t: nat)
    | SawBottom(t: nat)
    | SawArray(t: nat, a: nat)
    | SawItem(t: nat, a: nat, x: Pointer, stale: bool)

  /** What became of a completed push: at an index of the deque, claimed by the owner's pop
      that is about to read it, or the k-th result handed out. */
  datatype Fate = Inside(i: nat) | Claimed | Out(k: nat)

  /** Who a result went to; for a thief, whether it loaded the item from a freed array. */
  datatype Taker = TheOwner | AThief(stale: bool)

  /** A successful pop or steal: which push it answered, what it handed out and to whom. */
  datatype Taken = Taken(serial: nat, data: Pointer, taker: Taker)

  /** Shared memory, thread locals and history.
      `arrays` are all circular buffers ever allocated, `cur` the published one.
      History: `pushes[s]` is the argument of the s-th completed push, `log[i]` the
      serial of the push that index `i` currently stands for, `taken` the successful
      pops and steals in order, `fate[s]` what became of push `s`.  No step reads them
      to decide what to do. */
  datatype State = State(
    bottom: int,
    top: nat,
    arrays: seq<seq<Pointer>>,
    cur: nat,
    retired: seq<nat>,
    retiredRoom: nat,
    freed: set<nat>,
    owner: Owner,
    thieves: map<Tid, Thief>,
    pushes: seq<Pointer>,
    log: seq<nat>,
    taken: seq<Taken>,
    fate: seq<Fate>)

  datatype Step =
    | BeginPush(x: Pointer)
    | BeginResize(granted: bool)
    | CopyOne
    | PublishArray
    | Retire(grows: bool)
    | StoreItem
    | RefusePush
    | PublishPush
    | BeginPop
    | PopReadTop
    | PopTakeItem
    | PopReadLast
    | PopCas
    | PopRestore
    | StealReadTop(id: Tid)
    | StealReadBottom(id: Tid)
    | StealReadArray(id: Tid)
    | StealReadItem(id: Tid, junk: Pointer)
    | StealCas(id: Tid)

  function ThiefAt(s: State, id: Tid): Thief {
    if id in s.thieves then s.thieves[id] else Away
  }

  function Size(s: State, a: nat): nat {
    if a < |s.arrays| then |s.arrays[a]| else 0
  }

  /** `buffer[i & mask]` of array `a`. */
  function Slot(s: State, a: nat, i: int): Pointer {
    if Size(s, a) > 0 then s.arrays[a][i % Size(s, a)] else NULL
  }

  function WithSlot(s: State, a: nat, i: int, x: Pointer): State {
    if Size(s, a) > 0
    then s.(arrays := s.arrays[a := s.arrays[a][i % Size(s, a) := x]])
    else s
  }

  /** A store through `dq->array`: push re-reads the pointer, which only it writes. */
  function StoreAt(s: State, x: Pointer, b: int): State {
    WithSlot(s, s.cur, b, x).(owner := PushPublishes(x, b))
  }

  /** History only: the push that index `i` stands for, and the log without `b` and above. */
  function SerialAt(s: State, i: int): nat {
    if 0 <= i < |s.log| then s.log[i] else 0
  }

  function LogBelow(s: State, b: int): seq<nat> {
    if 0 <= b <= |s.log| then s.log[..b] else s.log
  }

  function WithFate(s: State, n: nat, f: Fate): seq<Fate> {
    if n < |s.fate| then s.fate[n := f] else s.fate
  }

  /** The outcome of a CAS on `top` that succeeds: index `top` is handed out as `x`. */
  function TakeTop(s: State, x: Pointer, taker: Taker): State {
    var n := SerialAt(s, s.top);
    s.(top := s.top + 1, taken := s.taken + [Taken(n, x, taker)], fate := WithFate(s, n, Out(|s.taken|)))
  }

  predicate Enabled(s: State, st: Step) {
    match st
    case BeginPush(_) => s.owner.Idle?
    case BeginResize(_) => s.owner.PushChecks? && s.owner.b - s.owner.t >= Size(s, s.owner.a)
    case CopyOne => s.owner.Copying? && s.owner.i < s.owner.b
    case PublishArray => s.owner.Copying? && s.owner.i >= s.owner.b
    case Retire(_) => s.owner.Retiring?
    case StoreItem =>
      || (s.owner.PushChecks? && s.owner.b - s.owner.t < Size(s, s.owner.a))
      || (s.owner.PushRechecks? && s.owner.b - s.owner.t < Size(s, s.cur))
    case RefusePush => s.owner.PushRechecks? && s.owner.b - s.owner.t >= Size(s, s.cur)
    case PublishPush => s.owner.PushPublishes?
    case BeginPop => s.owner.Idle?
    case PopReadTop => s.owner.PopReadsTop?
    case PopTakeItem => s.owner.PopTakes?
    case PopReadLast => s.owner.PopReadsLast?
    case PopCas => s.owner.PopCasTop?
    case PopRestore => s.owner.PopRestores?
    case StealReadTop(id) => ThiefAt(s, id).Away?
    case StealReadBottom(id) => ThiefAt(s, id).SawTop?
    case StealReadArray(id) => ThiefAt(s, id).SawBottom?
    case StealReadItem(id, _) => ThiefAt(s, id).SawArray?
    case StealCas(id) => ThiefAt(s, id).SawItem?
  }

  function Apply(s: State, st: Step): State
    requires Enabled(s, st)
  {
    match st
    case BeginPush(x) =>
      s.(owner := PushChecks(x, s.bottom, s.top, s.cur))
    case BeginResize(granted) =>
      var o := s.owner;
      if granted
      then s.(arrays := s.arrays + [seq(2 * Size(s, s.cur), _ => NULL)],
              owner := Copying(o.x, o.b, o.t, s.top, s.top))
      else s.(owner := PushRechecks(o.x, o.b, o.t, false))
    case CopyOne =>
      var o := s.owner;
      WithSlot(s, s.cur + 1, o.i, Slot(s, s.cur, o.i)).(owner := o.(i := o.i + 1))
    case PublishArray =>
      var o := s.owner;
      s.(cur := s.cur + 1, owner := Retiring(o.x, o.b, o.t, s.cur))
    case Retire(grows) =>
      var o := s.owner;
      var next := PushRechecks(o.x, o.b, o.t, true);
      if |s.retired| != s.retiredRoom
      then s.(retired := s.retired + [o.old_], owner := next)
      else if grows
      then s.(retired := s.retired + [o.old_], retiredRoom := 2 * s.retiredRoom, owner := next)
      else s.(freed := s.freed + {o.old_}, owner := next)
    case StoreItem =>
      StoreAt(s, s.owner.x, s.owner.b)
    case RefusePush =>
      s.(owner := Idle)
    case PublishPush =>
      s.(bottom := s.owner.b + 1, owner := Idle,
         pushes := s.pushes + [s.owner.x], log := s.log + [|s.pushes|],
         fate := s.fate + [Inside(|s.log|)])
    case BeginPop =>
      s.(bottom := s.bottom - 1, owner := PopReadsTop(s.bottom - 1, s.cur))
    case PopReadTop =>
      var b := s.owner.pb;
      if s.top > b then s.(owner := PopRestores(b))
      else if s.top < b
      then s.(owner := PopTakes(b, s.owner.a, SerialAt(s, b)), log := LogBelow(s, b),
              fate := WithFate(s, SerialAt(s, b), Claimed))
      else s.(owner := PopReadsLast(b, s.owner.a))
    case PopTakeItem =>
      s.(owner := Idle,
         taken := s.taken + [Taken(s.owner.serial, Slot(s, s.owner.a, s.owner.pb), TheOwner)],
         fate := WithFate(s, s.owner.serial, Out(|s.taken|)))
    case PopReadLast =>
      s.(owner := PopCasTop(s.owner.pb, Slot(s, s.owner.a, s.owner.pb)))
    case PopCas =>
      var b := s.owner.pb;
      if s.top == b
      then TakeTop(s, s.owner.y, TheOwner).(owner := PopRestores(b))
      else s.(owner := PopRestores(b))
    case PopRestore =>
      s.(bottom := s.owner.pb + 1, owner := Idle)
    case StealReadTop(id) =>
      s.(thieves := s.thieves[id := SawTop(s.top)])
    case StealReadBottom(id) =>
      var t := ThiefAt(s, id).t;
      s.(thieves := s.thieves[id := if t < s.bottom then SawBottom(t) else Away])
    case StealReadArray(id) =>
      s.(thieves := s.thieves[id := SawArray(ThiefAt(s, id).t, s.cur)])
    case StealReadItem(id, junk) =>
      var th := ThiefAt(s, id);
      var x := if th.a in s.freed then junk else Slot(s, th.a, th.t);
      s.(thieves := s.thieves[id := SawItem(th.t, th.a, x, th.a in s.freed)])
    case StealCas(id) =>
      var th := ThiefAt(s, id);
      if s.top == th.t
      then TakeTop(s, th.x, AThief(th.stale)).(thieves := s.thieves[id := Away])
      else s.(thieves := s.thieves[id := Away])
  }

  // ---------------------------------------------------------------------------
  // Invariant
  // ---------------------------------------------------------------------------

  ghost predicate Shape(s: State) {
    && |s.arrays| == s.cur + (if s.owner.Copying? then 2 else 1)
    && (forall a :: 0 <= a < |s.arrays| ==> |s.arrays[a]| > 0)
    && (s.owner.Copying? ==> |s.arrays[s.cur + 1]| == 2 * |s.arrays[s.cur]|)
    && s.top <= |s.log| <= s.top + Size(s, s.cur)
    && (forall a :: a in s.freed ==> a < s.cur)
  }

  /** Index `i` stands for a push whose item is in slot `i & mask` of array `a`. */
  ghost predicate Holds(s: State, a: nat, i: int) {
    0 <= i < |s.log| && s.log[i] < |s.pushes| && Slot(s, a, i) == s.pushes[s.log[i]]
  }

  ghost predicate Live(s: State) {
    forall i :: s.top <= i < |s.log| ==> Holds(s, s.cur, i)
  }

  ghost predicate Copied(s: State, a: nat, lo: nat, hi: nat) {
    forall j :: lo <= j < hi && s.top <= j ==> Holds(s, a, j)
  }

  ghost predicate OwnerOk(s: State) {
    match s.owner
    case Idle => s.bottom == |s.log|
    case PushChecks(x, b, t, a) =>
      b == s.bottom == |s.log| && t <= s.top && a == s.cur && b - t <= Size(s, s.cur)
    case Copying(x, b, t, lo, i) =>
      && b == s.bottom == |s.log| && t <= lo <= s.top && lo <= i <= b
      && b - t <= Size(s, s.cur)
      && Copied(s, s.cur + 1, lo, i)
    case Retiring(x, b, t, old_) =>
      b == s.bottom == |s.log| && t <= s.top && b - t < Size(s, s.cur) && old_ + 1 == s.cur
    case PushRechecks(x, b, t, grown) =>
      b == s.bottom == |s.log| && t <= s.top && (grown ==> b - t < Size(s, s.cur))
    case PushPublishes(x, b) =>
      b == s.bottom == |s.log| && b < s.top + Size(s, s.cur) && Slot(s, s.cur, b) == x
    case PopReadsTop(b, a) => s.bottom == b && |s.log| == b + 1 && a == s.cur
    case PopTakes(b, a, serial) =>
      && s.bottom == b && |s.log| == b && a == s.cur
      && serial < |s.pushes| && Slot(s, a, b) == s.pushes[serial]
    case PopReadsLast(b, a) => s.bottom == b && |s.log| == b + 1 && a == s.cur && b <= s.top
    case PopCasTop(b, y) =>
      && s.bottom == b && |s.log| == b + 1 && b <= s.top
      && (s.top == b ==> s.log[b] < |s.pushes| && y == s.pushes[s.log[b]])
    case PopRestores(b) => s.bottom == b && |s.log| == b + 1 && s.top == b + 1
  }

  /** A thief whose CAS can still succeed looks at a live index, and whichever array it
      holds shows the item pushed there unless the owner had to free that array. */
  ghost predicate ThiefOk(s: State, th: Thief) {
    match th
    case Away => true
    case SawTop(t) => t <= s.top
    case SawBottom(t) => t <= s.top && (t == s.top ==> t < |s.log|)
    case SawArray(t, a) =>
      && t <= s.top && a <= s.cur && (t == s.top ==> t < |s.log|)
      && (t == s.top && a !in s.freed ==> Holds(s, a, t))
    case SawItem(t, a, x, stale) =>
      && t <= s.top && (t == s.top ==> t < |s.log|) && (stale ==> a in s.freed)
      && (t == s.top && !stale ==> s.log[t] < |s.pushes| && x == s.pushes[s.log[t]])
  }

  ghost predicate ThievesOk(s: State) {
    forall id :: id in s.thieves ==> ThiefOk(s, s.thieves[id])
  }

  ghost predicate Control(s: State) {
    Shape(s) && Live(s) && OwnerOk(s) && ThievesOk(s)
  }

  lemma ReadTopKeeps(s: State, id: Tid)
    requires Control(s) && Enabled(s, StealReadTop(id))
    ensures Control(Apply(s, StealReadTop(id)))
  {
    var s' := Apply(s, StealReadTop(id));
    assert forall a: nat, i :: Holds(s, a, i) ==> Holds(s', a, i);
  }

  lemma ReadBottomKeeps(s: State, id: Tid)
    requires Control(s) && Enabled(s, StealReadBottom(id))
    ensures Control(Apply(s, StealReadBottom(id)))
  {
    var s' := Apply(s, StealReadBottom(id));
    assert forall a: nat, i :: Holds(s, a, i) ==> Holds(s', a, i);
    assert ThiefOk(s, ThiefAt(s, id)) && ThiefOk(s', s'.thieves[id]);
  }

  lemma ThiefItemKeeps(s: State, st: Step)
    requires Control(s) && Enabled(s, st) && (st.StealReadArray? || st.StealReadItem?)
    ensures Control(Apply(s, st))
  {
    var s' := Apply(s, st);
    assert forall a: nat, i :: Holds(s, a, i) ==> Holds(s', a, i);
    assert ThiefOk(s, ThiefAt(s, st.id)) && ThiefOk(s', s'.thieves[st.id]);
  }

  lemma StealCasKeeps(s: State, id: Tid)
    requires Control(s) && Enabled(s, StealCas(id))
    ensures Control(Apply(s, StealCas(id)))
  {
    var s' := Apply(s, StealCas(id));
    assert forall a: nat, i :: Holds(s, a, i) ==> Holds(s', a, i);
    assert ThiefOk(s, ThiefAt(s, id));
  }

  lemma PushEndsKeep(s: State, st: Step)
    requires Control(s) && Enabled(s, st)
    requires st.BeginPush? || st.Retire? || st.RefusePush?
    ensures Control(Apply(s, st))
  {
    var s' := Apply(s, st);
    assert forall a: nat, i :: Holds(s, a, i) ==> Holds(s', a, i);
  }

  lemma PopEndsKeep(s: State, st: Step)
    requires Control(s) && Enabled(s, st)
    requires st.BeginPop? || st.PopTakeItem? || st.PopReadLast? || st.PopRestore?
    ensures Control(Apply(s, st))
  {
    var s' := Apply(s, st);
    assert forall a: nat, i :: Holds(s, a, i) ==> Holds(s', a, i);
    if st.PopReadLast? && s.top == s.owner.pb { assert Holds(s, s.cur, s.top); }
  }

  lemma PopReadTopKeeps(s: State)
    requires Control(s) && Enabled(s, PopReadTop)
    ensures Control(Apply(s, PopReadTop))
  {
    var s' := Apply(s, PopReadTop);
    assert forall a: nat, i :: i < |s'.log| && Holds(s, a, i) ==> Holds(s', a, i);
    if s.top < s.owner.pb { assert Holds(s, s.cur, s.owner.pb); }
  }

  lemma PopCasKeeps(s: State)
    requires Control(s) && Enabled(s, PopCas)
    ensures Control(Apply(s, PopCas))
  {
    var s' := Apply(s, PopCas);
    assert forall a: nat, i :: Holds(s, a, i) ==> Holds(s', a, i);
  }

  lemma StoreKeeps(s: State)
    requires Control(s) && Enabled(s, StoreItem)
    ensures Control(Apply(s, StoreItem))
  {
    var s' := Apply(s, StoreItem);
    var n, b := Size(s, s.cur), s.owner.b;
    forall i | s.top <= i < |s.log| ensures i % n != b % n {
      DistinctSlots(i, b, n);
    }
    assert forall a: nat, i :: (a != s.cur || s.top <= i) && Holds(s, a, i) ==> Holds(s', a, i);
  }

  lemma PublishPushKeeps(s: State)
    requires Control(s) && Enabled(s, PublishPush)
    ensures Control(Apply(s, PublishPush))
  {
    var s' := Apply(s, PublishPush);
    assert forall a: nat, i :: Holds(s, a, i) ==> Holds(s', a, i);
  }

  lemma BeginResizeKeeps(s: State, ok: bool)
    requires Control(s) && Enabled(s, BeginResize(ok))
    ensures Control(Apply(s, BeginResize(ok)))
  {
    var s' := Apply(s, BeginResize(ok));
    assert forall a: nat, i :: a <= s.cur && Holds(s, a, i) ==> Holds(s', a, i);
  }

  lemma CopyOneKeeps(s: State)
    requires Control(s) && Enabled(s, CopyOne)
    ensures Control(Apply(s, CopyOne))
  {
    var s' := Apply(s, CopyOne);
    var next, k := s.cur + 1, s.owner.i;
    var n := Size(s, next);
    assert forall a: nat, i :: a <= s.cur && Holds(s, a, i) ==> Holds(s', a, i);
    forall j | s.owner.lo <= j < k + 1 && s.top <= j ensures Holds(s', next, j) {
      if j < k {
        assert Holds(s, next, j);
        DistinctSlots(j, k, n);
      } else {
        assert Holds(s, s.cur, k);
      }
    }
    assert Copied(s', next, s.owner.lo, k + 1);
  }

  lemma PublishArrayKeeps(s: State)
    requires Control(s) && Enabled(s, PublishArray)
    ensures Control(Apply(s, PublishArray))
  {
    var s' := Apply(s, PublishArray);
    assert forall a: nat, i :: Holds(s, a, i) ==> Holds(s', a, i);
    assert Copied(s, s.cur + 1, s.owner.lo, s.owner.i);
  }

  lemma ControlKept(s: State, st: Step)
    requires Control(s) && Enabled(s, st)
    ensures Control(Apply(s, st))
  {
    match st
    case BeginPush(_) => PushEndsKeep(s, st);
    case BeginResize(ok) => BeginResizeKeeps(s, ok);
    case CopyOne => CopyOneKeeps(s);
    case PublishArray => PublishArrayKeeps(s);
    case Retire(_) => PushEndsKeep(s, st);
    case StoreItem => StoreKeeps(s);
    case RefusePush => PushEndsKeep(s, st);
    case PublishPush => PublishPushKeeps(s);
    case BeginPop => PopEndsKeep(s, st);
    case PopReadTop => PopReadTopKeeps(s);
    case PopTakeItem => PopEndsKeep(s, st);
    case PopReadLast => PopEndsKeep(s, st);
    case PopCas => PopCasKeeps(s);
    case PopRestore => PopEndsKeep(s, st);
    case StealReadTop(id) => ReadTopKeeps(s, id);
    case StealReadBottom(id) => ReadBottomKeeps(s, id);
    case StealReadArray(_) => ThiefItemKeeps(s, st);
    case StealReadItem(_, _) => ThiefItemKeeps(s, st);
    case StealCas(id) => StealCasKeeps(s, id);
  }

  // ---------------------------------------------------------------------------
  // Refinement of a sequential deque
  // ---------------------------------------------------------------------------

  /** The sequential deque: serials of the pushes still inside, oldest first. */
  function Items(s: State): seq<nat> {
    if s.top <= |s.log| then s.log[s.top..] else []
  }

  datatype SeqOp = Nothing | PushBottom(n: nat) | PopBottom(n: nat) | PopEmpty | StealTop(n: nat)

  /** When each operation may answer as it does on a plain sequence, and what it leaves. */
  predicate Allowed(q: seq<nat>, op: SeqOp) {
    match op
    case Nothing => true
    case PushBottom(_) => true
    case PopBottom(n) => q != [] && q[|q| - 1] == n
    case PopEmpty => q == []
    case StealTop(n) => q != [] && q[0] == n
  }

  function After(q: seq<nat>, op: SeqOp): seq<nat>
    requires Allowed(q, op)
  {
    match op
    case Nothing => q
    case PushBottom(n) => q + [n]
    case PopBottom(_) => q[..|q| - 1]
    case PopEmpty => q
    case StealTop(_) => q[1..]
  }

  /** The operation that takes effect at a step.  A pop that finds more than one item takes
      effect when it reads `top`, without a CAS. */
  function Effect(s: State, st: Step): SeqOp
    requires Enabled(s, st)
  {
    match st
    case PublishPush => PushBottom(|s.pushes|)
    case PopReadTop =>
      if s.top < s.owner.pb then PopBottom(SerialAt(s, s.owner.pb))
      else if s.top > s.owner.pb then PopEmpty
      else Nothing
    case PopCas => if s.top == s.owner.pb then PopBottom(SerialAt(s, s.top)) else PopEmpty
    case StealCas(id) => if s.top == ThiefAt(s, id).t then StealTop(SerialAt(s, s.top)) else Nothing
    case _ => Nothing
  }

  lemma PublishRefines(s: State)
    requires Control(s) && Enabled(s, PublishPush)
    ensures Items(Apply(s, PublishPush)) == After(Items(s), Effect(s, PublishPush))
  {}

  lemma PopRefines(s: State, st: Step)
    requires Control(s) && Enabled(s, st) && (st.PopReadTop? || st.PopCas?)
    ensures Allowed(Items(s), Effect(s, st))
    ensures Items(Apply(s, st)) == After(Items(s), Effect(s, st))
  {
    var b := s.owner.pb;
    if s.top <= b {
      assert |s.log| == b + 1 && s.log[s.top..][b - s.top] == s.log[b];
      assert s.log[..b][s.top..] == s.log[s.top..][..b - s.top];
    }
  }

  /** Every step of every interleaving is a step of the sequential deque. */
  lemma StepRefines(s: State, st: Step)
    requires Control(s) && Enabled(s, st)
    ensures Allowed(Items(s), Effect(s, st))
    ensures Items(Apply(s, st)) == After(Items(s), Effect(s, st))
  {
    if st.PublishPush? {
      PublishRefines(s);
    } else if st.PopReadTop? || st.PopCas? {
      PopRefines(s, st);
    } else if st.StealCas? {
      assert ThiefOk(s, ThiefAt(s, st.id));
    } else {
      assert Apply(s, st).top == s.top && Apply(s, st).log == s.log;
    }
  }

  // ---------------------------------------------------------------------------
  // Exactly-once
  // ---------------------------------------------------------------------------

  ghost predicate FateOk(s: State, n: nat)
    requires n < |s.fate|
  {
    match s.fate[n]
    case Inside(i) => s.top <= i < |s.log| && s.log[i] == n
    case Claimed => s.owner.PopTakes? && s.owner.serial == n
    case Out(k) => k < |s.taken| && s.taken[k].serial == n
  }

  /** Every completed push is inside, claimed or handed out, and only once. */
  ghost predicate Accounted(s: State) {
    && |s.fate| == |s.pushes|
    && (forall n :: 0 <= n < |s.fate| ==> FateOk(s, n))
    && (forall i :: s.top <= i < |s.log| ==> s.log[i] < |s.fate| && s.fate[s.log[i]] == Inside(i))
    && (forall k :: 0 <= k < |s.taken| ==>
          s.taken[k].serial < |s.fate| && s.fate[s.taken[k].serial] == Out(k))
    && (s.owner.PopTakes? ==> s.owner.serial < |s.fate| && s.fate[s.owner.serial] == Claimed)
  }

  /** What was handed out is what was pushed, except for items loaded from a freed array. */
  ghost predicate Truthful(s: State) {
    forall k :: 0 <= k < |s.taken| ==>
      && s.taken[k].serial < |s.pushes|
      && (s.taken[k].taker == AThief(true) ==> s.freed != {})
      && (s.taken[k].taker != AThief(true) ==> s.taken[k].data == s.pushes[s.taken[k].serial])
  }

  predicate HandsOver(st: Step) {
    st.PublishPush? || st.PopReadTop? || st.PopTakeItem? || st.PopCas? || st.StealCas?
  }

  lemma AccountedByQuiet(s: State, st: Step)
    requires Accounted(s) && Enabled(s, st) && !HandsOver(st)
    ensures Accounted(Apply(s, st))
  {
    var s' := Apply(s, st);
    assert s'.pushes == s.pushes && s'.log == s.log && s'.top == s.top;
    assert s'.taken == s.taken && s'.fate == s.fate;
    assert s.owner.PopTakes? || s'.owner.PopTakes? ==> s'.owner == s.owner;
    forall n | 0 <= n < |s'.fate| ensures FateOk(s', n) { assert FateOk(s, n); }
  }

  lemma AccountedByPush(s: State)
    requires Control(s) && Accounted(s) && Enabled(s, PublishPush)
    ensures Accounted(Apply(s, PublishPush))
  {
    var s' := Apply(s, PublishPush);
    forall n | 0 <= n < |s'.fate| ensures FateOk(s', n) {
      if n < |s.fate| { assert FateOk(s, n); }
    }
  }

  lemma AccountedByPop(s: State, st: Step)
    requires Control(s) && Accounted(s) && Enabled(s, st) && (st.PopReadTop? || st.PopTakeItem?)
    ensures Accounted(Apply(s, st))
  {
    var s' := Apply(s, st);
    forall n | 0 <= n < |s'.fate| ensures FateOk(s', n) { assert FateOk(s, n); }
  }

  /** A successful CAS on `top` hands out the oldest item inside. */
  lemma AccountedByTake(s: State, x: Pointer, taker: Taker)
    requires Accounted(s) && s.top < |s.log| && !s.owner.PopTakes?
    ensures Accounted(TakeTop(s, x, taker))
  {
    var s' := TakeTop(s, x, taker);
    forall n | 0 <= n < |s'.fate| ensures FateOk(s', n) { assert FateOk(s, n); }
  }

  lemma AccountedByPopCas(s: State)
    requires Control(s) && Accounted(s) && Enabled(s, PopCas)
    ensures Accounted(Apply(s, PopCas))
  {
    var s1 := s;
    if s.top == s.owner.pb {
      AccountedByTake(s, s.owner.y, TheOwner);
      s1 := TakeTop(s, s.owner.y, TheOwner);
    }
    var s' := Apply(s, PopCas);
    forall n | 0 <= n < |s'.fate| ensures FateOk(s', n) { assert FateOk(s1, n); }
  }

  lemma AccountedByStealCas(s: State, id: Tid)
    requires Control(s) && Accounted(s) && Enabled(s, StealCas(id))
    ensures Accounted(Apply(s, StealCas(id)))
  {
    var s', th := Apply(s, StealCas(id)), ThiefAt(s, id);
    assert ThiefOk(s, th);
    forall n | 0 <= n < |s'.fate| ensures FateOk(s', n) { assert FateOk(s, n); }
  }

  lemma AccountedKept(s: State, st: Step)
    requires Control(s) && Accounted(s) && Enabled(s, st)
    ensures Accounted(Apply(s, st))
  {
    if !HandsOver(st) { AccountedByQuiet(s, st); }
    else if st.PopCas? { AccountedByPopCas(s); }
    else if st.StealCas? { AccountedByStealCas(s, st.id); }
    else if st.PublishPush? { AccountedByPush(s); }
    else { AccountedByPop(s, st); }
  }

  lemma TruthfulBySteal(s: State, id: Tid)
    requires Control(s) && Truthful(s) && Enabled(s, StealCas(id))
    ensures Truthful(Apply(s, StealCas(id)))
  {
    var th := ThiefAt(s, id);
    assert ThiefOk(s, th);
    if th.t == s.top { assert Holds(s, s.cur, s.top); }
  }

  lemma TruthfulKept(s: State, st: Step)
    requires Control(s) && Truthful(s) && Enabled(s, st)
    ensures Truthful(Apply(s, st))
  {
    if st.StealCas? {
      TruthfulBySteal(s, st.id);
    } else {
      assert s.freed <= Apply(s, st).freed && s.pushes <= Apply(s, st).pushes;
    }
  }

  // ---------------------------------------------------------------------------
  // Retired arrays
  // ---------------------------------------------------------------------------

  /** Arrays below this index have been disposed of. */
  function Disposed(s: State): nat {
    if s.owner.Retiring? && s.cur > 0 then s.cur - 1 else s.cur
  }

  /** A superseded array is on the retired list once or was freed early, never both;
      nothing is freed early in the first eight growths. */
  ghost predicate RetiredOk(s: State) {
    && 8 <= s.retiredRoom && |s.retired| <= s.retiredRoom && |s.retired| <= Disposed(s)
    && (forall j, k :: 0 <= j < k < |s.retired| ==> s.retired[j] < s.retired[k])
    && (forall a :: a in s.retired || a in s.freed ==> a < Disposed(s))
    && (forall a :: a in s.retired ==> a !in s.freed)
    && (forall a :: 0 <= a < Disposed(s) ==> a in s.retired || a in s.freed)
    && (s.freed != {} ==> Disposed(s) > 8)
  }

  /** Every size is a power of two, so `& mask` is reduction modulo the size. */
  ghost predicate SizesOk(s: State) {
    forall a :: 0 <= a < |s.arrays| ==> PowerOfTwo(|s.arrays[a]|)
  }

  lemma RetireKeeps(s: State, grows: bool)
    requires RetiredOk(s) && OwnerOk(s) && Enabled(s, Retire(grows))
    ensures RetiredOk(Apply(s, Retire(grows)))
  {
    forall j | 0 <= j < |s.retired| ensures s.retired[j] < s.owner.old_ {
      assert s.retired[j] in s.retired;
    }
  }

  lemma RetiredKept(s: State, st: Step)
    requires RetiredOk(s) && OwnerOk(s) && Enabled(s, st)
    ensures RetiredOk(Apply(s, st))
  {
    if st.Retire? {
      RetireKeeps(s, st.grows);
    } else {
      var s' := Apply(s, st);
      assert s'.retired == s.retired && s'.freed == s.freed && s'.retiredRoom == s.retiredRoom;
      assert Disposed(s') == Disposed(s);
    }
  }

  lemma {:induction false} SizesKept(s: State, st: Step)
    requires SizesOk(s) && Shape(s) && Enabled(s, st)
    ensures SizesOk(Apply(s, st))
  {
    var s' := Apply(s, st);
    if st.BeginResize? {
      if st.granted { assert PowerOfTwo(2 * |s.arrays[s.cur]|); }
    } else {
      assert |s'.arrays| == |s.arrays|;
      assert forall a :: 0 <= a < |s.arrays| ==> |s'.arrays[a]| == |s.arrays[a]|;
    }
  }

  /** The pointers `nkit_deque_destroy` releases. */
  function FreedByDestroy(s: State): seq<nat> {
    [s.cur] + s.retired
  }

  // ---------------------------------------------------------------------------
  // Whole runs
  // ---------------------------------------------------------------------------

  /** `nkit_deque_create` with a power-of-two capacity. */
  function Init(capacity: nat): State {
    State(0, 0, [seq(capacity, _ => NULL)], 0, [], 8, {}, Idle, map[], [], [], [], [])
  }

  ghost predicate Legal(s: State, steps: seq<Step>)
    decreases |steps|
  {
    steps == [] || (Enabled(s, steps[0]) && Legal(Apply(s, steps[0]), steps[1..]))
  }

  ghost function Exec(s: State, steps: seq<Step>): State
    requires Legal(s, steps)
    decreases |steps|
  {
    if steps == [] then s else Exec(Apply(s, steps[0]), steps[1..])
  }

  ghost predicate Inv(s: State) {
    Control(s) && Accounted(s) && Truthful(s) && RetiredOk(s) && SizesOk(s)
  }

  lemma InvKept(s: State, st: Step)
    requires Inv(s) && Enabled(s, st)
    ensures Inv(Apply(s, st))
  {
    ControlKept(s, st);
    AccountedKept(s, st);
    TruthfulKept(s, st);
    RetiredKept(s, st);
    SizesKept(s, st);
  }

  lemma ControlInitially(capacity: nat)
    requires capacity > 0
    ensures Control(Init(capacity))
  {}

  lemma {:induction false} InvInitially(capacity: nat)
    requires PowerOfTwo(capacity)
    ensures Inv(Init(capacity))
  {
    ControlInitially(capacity);
    var s := Init(capacity);
    assert |s.arrays| == 1 && |s.arrays[0]| == capacity;
    assert Accounted(s) && Truthful(s) && RetiredOk(s);
  }

  lemma {:induction false} InvAlways(s: State, steps: seq<Step>)
    requires Inv(s) && Legal(s, steps)
    ensures Inv(Exec(s, steps))
    decreases |steps|
  {
    if steps != [] {
      InvKept(s, steps[0]);
      InvAlways(Apply(s, steps[0]), steps[1..]);
    }
  }

  /** The arguments of the completed pushes, read off the steps alone; `x` is the argument of the push
      that is under way. */
  function PushedArgs(steps: seq<Step>, x: Pointer): seq<Pointer>
    decreases |steps|
  {
    if steps == [] then []
    else match steps[0]
         case BeginPush(y) => PushedArgs(steps[1..], y)
         case PublishPush => [x] + PushedArgs(steps[1..], x)
         case _ => PushedArgs(steps[1..], x)
  }

  /** An owner inside push works on `x`. */
  predicate Carries(o: Owner, x: Pointer) {
    o.PushChecks? || o.Copying? || o.Retiring? || o.PushRechecks? || o.PushPublishes? ==> o.x == x
  }

  /** What is recorded as pushed is what the callers passed. */
  lemma {:induction false} PushesAreArguments(s: State, steps: seq<Step>, x: Pointer)
    requires Legal(s, steps) && Carries(s.owner, x)
    ensures Exec(s, steps).pushes == s.pushes + PushedArgs(steps, x)
    decreases |steps|
  {
    if steps != [] {
      var s' := Apply(s, steps[0]);
      var x' := if steps[0].BeginPush? then steps[0].x else x;
      assert Carries(s'.owner, x');
      PushesAreArguments(s', steps[1..], x');
    }
  }

  /** In every run each pushed item is handed out at most once; between two operations of the
      owner the items not handed out are exactly those at indices top .. bottom-1; and every
      result, the owner's in any case, is the pointer that was pushed, unless a thief loaded it
      from an array already freed.  `pushes` are the arguments the callers passed. */
  lemma ExactlyOnce(capacity: nat, steps: seq<Step>)
    requires PowerOfTwo(capacity) && Legal(Init(capacity), steps)
    ensures var s := Exec(Init(capacity), steps);
      && s.pushes == PushedArgs(steps, NULL)
      && (forall k :: 0 <= k < |s.taken| ==> s.taken[k].serial < |s.pushes|)
      && (forall j, k :: 0 <= j < k < |s.taken| ==> s.taken[j].serial != s.taken[k].serial)
      && (forall k :: 0 <= k < |s.taken| && s.taken[k].taker != AThief(true) ==>
            s.taken[k].data == s.pushes[s.taken[k].serial])
      && (s.owner.Idle? ==>
            && s.top <= s.bottom == |s.log|
            && forall n :: 0 <= n < |s.pushes| ==>
                 (n in s.log[s.top..s.bottom] <==>
                  !exists k :: 0 <= k < |s.taken| && s.taken[k].serial == n))
  {
    InvInitially(capacity);
    InvAlways(Init(capacity), steps);
    PushesAreArguments(Init(capacity), steps, NULL);
    var s := Exec(Init(capacity), steps);
    forall n | s.owner.Idle? && 0 <= n < |s.pushes|
      ensures n in s.log[s.top..s.bottom] <==>
              !exists k :: 0 <= k < |s.taken| && s.taken[k].serial == n
    {
      assert FateOk(s, n);
      if s.fate[n].Inside? { assert s.log[s.top..s.bottom][s.fate[n].i - s.top] == n; }
    }
  }

  ghost function Effects(s: State, steps: seq<Step>): seq<SeqOp>
    requires Legal(s, steps)
    decreases |steps|
  {
    if steps == [] then [] else [Effect(s, steps[0])] + Effects(Apply(s, steps[0]), steps[1..])
  }

  ghost predicate Replays(q: seq<nat>, ops: seq<SeqOp>, q': seq<nat>)
    decreases |ops|
  {
    if ops == [] then q' == q
    else Allowed(q, ops[0]) && Replays(After(q, ops[0]), ops[1..], q')
  }

  /** Every run of the concurrent deque is, in the order its operations take effect, a run of
      the sequential one. */
  lemma {:induction false} RunRefines(s: State, steps: seq<Step>)
    requires Control(s) && Legal(s, steps)
    ensures Replays(Items(s), Effects(s, steps), Items(Exec(s, steps)))
    decreases |steps|
  {
    if steps != [] {
      StepRefines(s, steps[0]);
      ControlKept(s, steps[0]);
      RunRefines(Apply(s, steps[0]), steps[1..]);
      assert Effects(s, steps)[1..] == Effects(Apply(s, steps[0]), steps[1..]);
    }
  }

  /** Growth is invisible to thieves: whichever array a thief loaded, and whatever became of it
      since the load, a CAS about to succeed hands out the item of the push its index stands for. */
  lemma GrowthInvisible(capacity: nat, steps: seq<Step>, id: Tid)
    requires PowerOfTwo(capacity) && Legal(Init(capacity), steps)
    requires var s := Exec(Init(capacity), steps);
      ThiefAt(s, id).SawItem? && ThiefAt(s, id).t == s.top && !ThiefAt(s, id).stale
    ensures var s := Exec(Init(capacity), steps);
      Items(s) != [] && Items(s)[0] < |s.pushes| && ThiefAt(s, id).x == s.pushes[Items(s)[0]]
  {
    InvInitially(capacity);
    InvAlways(Init(capacity), steps);
    var s := Exec(Init(capacity), steps);
    assert ThiefOk(s, ThiefAt(s, id));
  }

  /** Whether the last resize of the steps was granted its array; `g` if there was none. */
  function LastGrant(steps: seq<Step>, g: bool): bool
    decreases |steps|
  {
    if steps == [] then g
    else LastGrant(steps[1..], if steps[0].BeginResize? then steps[0].granted else g)
  }

  lemma {:induction false} GrownAsGranted(s: State, steps: seq<Step>, g: bool)
    requires Legal(s, steps) && !s.owner.Retiring? && !s.owner.Copying?
    requires s.owner.PushRechecks? ==> s.owner.grown == g
    ensures Exec(s, steps).owner.PushRechecks? ==> Exec(s, steps).owner.grown == LastGrant(steps, g)
    decreases |steps|
  {
    if steps != [] {
      var s' := Apply(s, steps[0]);
      if s'.owner.Copying? { GrowingIsGranted(s', steps[1..]); }
      else { GrownAsGranted(s', steps[1..], if steps[0].BeginResize? then steps[0].granted else g); }
    }
  }

  lemma {:induction false} GrowingIsGranted(s: State, steps: seq<Step>)
    requires Legal(s, steps) && (s.owner.Retiring? || s.owner.Copying?)
    ensures Exec(s, steps).owner.PushRechecks? ==> Exec(s, steps).owner.grown == LastGrant(steps, true)
    decreases |steps|
  {
    if steps != [] {
      var s' := Apply(s, steps[0]);
      if s'.owner.Retiring? || s'.owner.Copying? { GrowingIsGranted(s', steps[1..]); }
      else { GrownAsGranted(s', steps[1..], true); }
    }
  }

  /** A push is refused only when the larger array its resize asked for was not granted. */
  lemma RefusalTruthful(capacity: nat, steps: seq<Step>)
    requires PowerOfTwo(capacity) && Legal(Init(capacity), steps)
    requires Enabled(Exec(Init(capacity), steps), RefusePush)
    ensures !LastGrant(steps, true)
  {
    InvInitially(capacity);
    InvAlways(Init(capacity), steps);
    GrownAsGranted(Init(capacity), steps, true);
  }

  /** A steal that finds nothing met an empty deque, or one whose last item the owner is
      already popping. */
  lemma MissTruthful(s: State, id: Tid)
    requires Control(s) && Enabled(s, StealReadBottom(id)) && ThiefAt(s, id).t >= s.bottom
    ensures Items(s) == [] ||
            (|Items(s)| == 1 && (s.owner.PopReadsTop? || s.owner.PopReadsLast? || s.owner.PopCasTop?))
  {
    assert ThiefOk(s, ThiefAt(s, id));
  }

  /** `nkit_deque_destroy` releases every array not freed already, and each once. */
  lemma DestroyFreesEachOnce(s: State)
    requires Inv(s) && s.owner.Idle?
    ensures var f := FreedByDestroy(s);
      && (forall j, k :: 0 <= j < k < |f| ==> f[j] != f[k])
      && (forall a :: 0 <= a < |s.arrays| ==> (a in f <==> a !in s.freed))
  {
    forall k | 0 <= k < |s.retired| ensures s.retired[k] < s.cur {
      assert s.retired[k] in s.retired;
    }
  }

  /** Every retire step has room on the list or manages to grow it. */
  ghost predicate NeverFreesEarly(s: State, steps: seq<Step>)
    requires Legal(s, steps)
    decreases |steps|
  {
    steps == [] ||
    (&& (steps[0].Retire? ==> |s.retired| != s.retiredRoom || steps[0].grows)
     && NeverFreesEarly(Apply(s, steps[0]), steps[1..]))
  }

  /** Arrays are freed under the thieves exactly in runs where a full retired list could not grow. */
  lemma {:induction false} FreedExactlyWhen(s: State, steps: seq<Step>)
    requires Legal(s, steps)
    ensures s.freed <= Exec(s, steps).freed
    ensures s.freed == {} ==> (Exec(s, steps).freed == {} <==> NeverFreesEarly(s, steps))
    decreases |steps|
  {
    if steps != [] { FreedExactlyWhen(Apply(s, steps[0]), steps[1..]); }
  }

  /** As long as the retired list can grow, every result of the run is the pointer that was pushed. */
  lemma AllRightWhenRetired(capacity: nat, steps: seq<Step>)
    requires PowerOfTwo(capacity) && Legal(Init(capacity), steps) && NeverFreesEarly(Init(capacity), steps)
    ensures var s := Exec(Init(capacity), steps);
      forall k :: 0 <= k < |s.taken| ==>
        s.taken[k].serial < |s.pushes| && s.taken[k].data == s.pushes[s.taken[k].serial]
  {
    InvInitially(capacity);
    InvAlways(Init(capacity), steps);
    FreedExactlyWhen(Init(capacity), steps);
  }

  /** The last two accesses of a steal, undisturbed. */
  function Steal(s: State, id: Tid, junk: Pointer): State
    requires Enabled(s, StealReadItem(id, junk))
  {
    Apply(Apply(s, StealReadItem(id, junk)), StealCas(id))
  }

  lemma StealHandsOut(s: State, id: Tid, junk: Pointer)
    requires Enabled(s, StealReadItem(id, junk)) && ThiefAt(s, id).t == s.top
    ensures var th := ThiefAt(s, id);
      Steal(s, id, junk).taken ==
      s.taken + [Taken(SerialAt(s, s.top), if th.a in s.freed then junk else Slot(s, th.a, th.t), AThief(th.a in s.freed))]
  {}

  /** A thief at the current `top` hands out the pushed item, whatever a freed array may show, exactly
      when its array is not freed as it loads the item. */
  lemma StealRightExactlyWhen(s: State, id: Tid)
    requires Inv(s) && ThiefAt(s, id).SawArray? && ThiefAt(s, id).t == s.top
    ensures Items(s) != [] && Items(s)[0] < |s.pushes|
    ensures forall junk :: |Steal(s, id, junk).taken| == |s.taken| + 1
    ensures (forall junk :: Steal(s, id, junk).taken[|s.taken|].data == s.pushes[Items(s)[0]]) <==>
            ThiefAt(s, id).a !in s.freed
  {
    assert ThiefOk(s, ThiefAt(s, id)) && Holds(s, s.cur, s.top);
    var pushed := s.pushes[s.log[s.top]];
    forall junk ensures Steal(s, id, junk).taken == s.taken + [Steal(s, id, junk).taken[|s.taken|]]
                     && (Steal(s, id, junk).taken[|s.taken|].data == if ThiefAt(s, id).a in s.freed then junk else pushed)
    {
      StealHandsOut(s, id, junk);
    }
    if ThiefAt(s, id).a in s.freed {
      assert Steal(s, id, pushed + 1).taken[|s.taken|].data != pushed;
    }
  }

  // ---------------------------------------------------------------------------
  // Size
  // ---------------------------------------------------------------------------

  lemma {:induction false} TopGrows(s: State, steps: seq<Step>)
    requires Legal(s, steps)
    ensures s.top <= Exec(s, steps).top
    decreases |steps|
  {
    if steps != [] { TopGrows(Apply(s, steps[0]), steps[1..]); }
  }

  /** `nkit_deque_size`, from the two loads. */
  function Reported(b: int, t: nat): nat {
    if b > t then b - t else 0
  }

  /** Whatever happens between its two loads, the size reported is never more than the deque held
      at the first; between two operations of the owner it is exactly that, less what was taken
      before the second. */
  lemma SizeTruthful(s: State, steps: seq<Step>)
    requires Control(s) && Legal(s, steps)
    ensures var n, t := Reported(s.bottom, Exec(s, steps).top), Exec(s, steps).top - s.top;
      && n <= |Items(s)|
      && (s.owner.Idle? ==> n == if t <= |Items(s)| then |Items(s)| - t else 0)
  {
    TopGrows(s, steps);
  }
}
