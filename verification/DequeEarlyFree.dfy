/** The resize branch that frees the superseded array because the full retired list could
    not grow (deque.c:144-150) does hand out wrong pointers: a reachable run, built here, in
    which a thief reads the freed array and wins its CAS. */
module ChaseLevEarlyFree {
  import opened Bits
  import opened ChaseLev

  ghost predicate Reachable(s: State) {
    exists capacity: nat, steps ::
      PowerOfTwo(capacity) && Legal(Init(capacity), steps) && Exec(Init(capacity), steps) == s
  }

  lemma {:induction false} ExecSnoc(s: State, steps: seq<Step>, st: Step)
    requires Legal(s, steps) && Enabled(Exec(s, steps), st)
    ensures Legal(s, steps + [st]) && Exec(s, steps + [st]) == Apply(Exec(s, steps), st)
    decreases |steps|
  {
    if steps == [] {
      assert [st][1..] == [];
    } else {
      ExecSnoc(Apply(s, steps[0]), steps[1..], st);
      assert (steps + [st])[1..] == steps[1..] + [st];
    }
  }

  lemma ReachableInv(s: State)
    requires Reachable(s)
    ensures Inv(s)
  {
    var capacity: nat, steps :|
      PowerOfTwo(capacity) && Legal(Init(capacity), steps) && Exec(Init(capacity), steps) == s;
    InvInitially(capacity);
    InvAlways(Init(capacity), steps);
  }

  /** One more step of a reachable state. */
  lemma Go(s: State, st: Step) returns (s': State)
    requires Reachable(s) && Enabled(s, st)
    ensures Reachable(s') && s' == Apply(s, st) && Inv(s')
  {
    var capacity: nat, steps :|
      PowerOfTwo(capacity) && Legal(Init(capacity), steps) && Exec(Init(capacity), steps) == s;
    ExecSnoc(Init(capacity), steps, st);
    s' := Apply(s, st);
    assert Reachable(s');
    ReachableInv(s');
  }

  /** After `k` growths, nothing taken, nobody stealing, the retired list never enlarged. */
  ghost predicate Quiet(s: State, k: nat) {
    && Reachable(s) && Inv(s)
    && s.owner.Idle? && s.top == 0 && s.cur == k && |s.retired| == k && s.retiredRoom == 8
    && s.freed == {} && s.thieves == map[] && s.taken == []
  }

  lemma {:induction false} FillUp(s: State, k: nat) returns (s': State)
    requires Quiet(s, k)
    ensures Quiet(s', k) && s'.bottom == Size(s', k) && Size(s', k) == Size(s, k)
    decreases Size(s, k) - s.bottom
  {
    if s.bottom == Size(s, k) {
      s' := s;
    } else {
      var s1 := Go(s, BeginPush(7));
      var s2 := Go(s1, StoreItem);
      var s3 := Go(s2, PublishPush);
      s' := FillUp(s3, k);
    }
  }

  /** The copy loop run to its end: only the new array changes. */
  lemma {:induction false} CopyAll(s: State) returns (s': State)
    requires Reachable(s) && Inv(s) && s.owner.Copying?
    ensures Reachable(s') && Inv(s')
    ensures s'.owner == s.owner.(i := s.owner.b)
    ensures s' == s.(owner := s'.owner, arrays := s'.arrays)
    decreases s.owner.b - s.owner.i
  {
    if s.owner.i == s.owner.b {
      s' := s;
    } else {
      var s1 := Go(s, CopyOne);
      s' := CopyAll(s1);
    }
  }

  /** A push on a full array, up to and including a retire whose list cannot grow. */
  lemma Resize(s: State) returns (s': State)
    requires Reachable(s) && Inv(s) && s.owner.Idle? && s.top == 0 && s.bottom == Size(s, s.cur)
    ensures Reachable(s') && Inv(s') && s'.owner.PushRechecks? && s'.owner.grown
    ensures s'.cur == s.cur + 1
    ensures s' == s.(owner := s'.owner, cur := s'.cur, arrays := s'.arrays,
                     retired := s'.retired, freed := s'.freed)
    ensures if |s.retired| != s.retiredRoom
            then s'.retired == s.retired + [s.cur] && s'.freed == s.freed
            else s'.retired == s.retired && s'.freed == s.freed + {s.cur}
  {
    var s1 := Go(s, BeginPush(7));
    var s2 := Go(s1, BeginResize(true));
    var s3 := CopyAll(s2);
    var s4 := Go(s3, PublishArray);
    s' := Go(s4, Retire(false));
  }

  lemma GrowOnce(s: State, k: nat) returns (s': State)
    requires Quiet(s, k) && s.bottom == Size(s, k) && k < 8
    ensures Quiet(s', k + 1)
  {
    var s1 := Resize(s);
    var s2 := Go(s1, StoreItem);
    s' := Go(s2, PublishPush);
  }

  lemma {:induction false} GrowTo(k: nat) returns (s: State)
    requires k <= 8
    ensures Quiet(s, k) && s.bottom == Size(s, k)
  {
    if k == 0 {
      InvInitially(1);
      assert Legal(Init(1), []) && Exec(Init(1), []) == Init(1);
      assert Reachable(Init(1));
      s := FillUp(Init(1), 0);
    } else {
      var s0 := GrowTo(k - 1);
      var s1 := GrowOnce(s0, k - 1);
      s := FillUp(s1, k);
    }
  }

  lemma ThiefReadsIndices(s: State) returns (s': State)
    requires Reachable(s) && s.top == 0 < s.bottom && s.thieves == map[]
    ensures Reachable(s') && s' == s.(thieves := s'.thieves)
    ensures Enabled(s', StealReadArray(0))
    ensures Apply(s', StealReadArray(0)) == s.(thieves := map[0 := SawArray(0, s.cur)])
  {
    var s1 := Go(s, StealReadTop(0));
    s' := Go(s1, StealReadBottom(0));
  }

  /** A thief gets as far as loading the array pointer. */
  lemma ThiefLoadsArray(s: State) returns (s': State)
    requires Reachable(s) && s.top == 0 < s.bottom && s.thieves == map[]
    ensures Reachable(s') && Inv(s') && s' == s.(thieves := map[0 := SawArray(0, s.cur)])
  {
    var s1 := ThiefReadsIndices(s);
    s' := Go(s1, StealReadArray(0));
  }

  /** A thief that holds a freed array and whose index is still `top`. */
  lemma ThiefReadsJunk(s: State) returns (s': State)
    requires Reachable(s) && Inv(s) && s.top == 0 && s.taken == []
    requires ThiefAt(s, 0).SawArray? && ThiefAt(s, 0).t == 0 && ThiefAt(s, 0).a in s.freed
    ensures Reachable(s') && s'.freed != {} && |s'.taken| == 1
    ensures s'.taken[0].serial < |s'.pushes|
    ensures s'.taken[0].data != s'.pushes[s'.taken[0].serial]
  {
    assert ThiefOk(s, ThiefAt(s, 0)) && Holds(s, s.cur, 0);
    var s1 := Go(s, StealReadItem(0, s.pushes[s.log[0]] + 1));
    s' := Go(s1, StealCas(0));
  }

  /** Without room to retire the array, a thief is handed a pointer nobody pushed. */
  lemma EarlyFreeHandsOutJunk() returns (s: State)
    ensures Reachable(s) && s.freed != {} && |s.taken| == 1
    ensures s.taken[0].serial < |s.pushes|
    ensures s.taken[0].data != s.pushes[s.taken[0].serial]
  {
    var s0 := GrowTo(8);
    var s1 := ThiefLoadsArray(s0);
    var s2 := Resize(s1);
    s := ThiefReadsJunk(s2);
  }
}
