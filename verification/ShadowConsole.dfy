/**
 * The shadow console (APIConsole.cpp).  Freezing forks the console output into
 * a shadow that API calls use instead; unfreezing takes the shadow back, waits
 * until no call uses it, and joins (deletes) it.  Calls find the shadow through
 * an atomic pointer, between an increment and a decrement of a use count.
 *
 * Every atomic access is one step; any number of threads take steps in any order.
 */
module ShadowConsole {
  import opened Basics

  // Where an API call on the default console stands.
  datatype Call =
    | Counted               // has incremented the use count
    | SawNone               // has read a null pointer and not yet decremented
    | UsingMain             // has decremented; uses the main console
    | UsingShadow(s: nat)   // uses shadow s until its destructor decrements

  // Where a FreezeConsoleOutput or UnfreezeConsoleOutput stands.
  datatype Control =
    | FreezeChecked             // has seen a null pointer
    | FreezeForked(s: nat)      // has made a new shadow
    | FreezeDisplaced(s: nat)   // has swapped a shadow out by swapping its own in
    | UnfreezeTaken(s: nat)     // has swapped the shadow for null; waits for the count
    | UnfreezeClear(s: nat)     // has seen the count at zero

  datatype State = State(shadow: Option<nat>, useCount: int, calls: map<nat, Call>, controls: map<nat, Control>,
                         live: set<nat>, next: nat)

  predicate Init(s: State) {
    s.shadow == None && s.useCount == 0 && s.calls == map[] && s.controls == map[] && s.live == {} && s.next == 0
  }

  // ---------------------------------------------------------------- steps of a call

  ghost predicate Enter(s: State, r: State, t: nat) {
    t !in s.calls && r == s.(useCount := s.useCount + 1, calls := s.calls[t := Counted])
  }

  ghost predicate Load(s: State, r: State, t: nat) {
    && t in s.calls && s.calls[t] == Counted
    && r == s.(calls := s.calls[t := if s.shadow.None? then SawNone else UsingShadow(s.shadow.value)])
  }

  ghost predicate Withdraw(s: State, r: State, t: nat) {
    && t in s.calls && s.calls[t] == SawNone
    && r == s.(useCount := s.useCount - 1, calls := s.calls[t := UsingMain])
  }

  ghost predicate Leave(s: State, r: State, t: nat) {
    && t in s.calls
    && (s.calls[t].UsingMain? || s.calls[t].UsingShadow?)
    && r == s.(useCount := if s.calls[t].UsingShadow? then s.useCount - 1 else s.useCount, calls := s.calls - {t})
  }

  // ---------------------------------------------------------------- steps of freeze and unfreeze

  ghost predicate FreezeCheck(s: State, r: State, c: nat) {
    c !in s.controls && s.shadow == None && r == s.(controls := s.controls[c := FreezeChecked])
  }

  ghost predicate FreezeFork(s: State, r: State, c: nat) {
    && c in s.controls && s.controls[c] == FreezeChecked
    && r == s.(controls := s.controls[c := FreezeForked(s.next)], live := s.live + {s.next}, next := s.next + 1)
  }

  // Forking threw: the freeze call is over.
  ghost predicate FreezeFail(s: State, r: State, c: nat) {
    c in s.controls && s.controls[c] == FreezeChecked && r == s.(controls := s.controls - {c})
  }

  ghost predicate FreezeSwap(s: State, r: State, c: nat) {
    && c in s.controls && s.controls[c].FreezeForked?
    && r == s.(shadow := Some(s.controls[c].s),
               controls := if s.shadow.None? then s.controls - {c}
                   else s.controls[c := FreezeDisplaced(s.shadow.value)])
  }

  ghost predicate FreezeJoin(s: State, r: State, c: nat) {
    && c in s.controls && s.controls[c].FreezeDisplaced?
    && r == s.(controls := s.controls - {c}, live := s.live - {s.controls[c].s})
  }

  ghost predicate UnfreezeTake(s: State, r: State, c: nat) {
    && c !in s.controls && s.shadow.Some?
    && r == s.(shadow := None, controls := s.controls[c := UnfreezeTaken(s.shadow.value)])
  }

  ghost predicate UnfreezeSeeZero(s: State, r: State, c: nat) {
    && c in s.controls && s.controls[c].UnfreezeTaken? && s.useCount == 0
    && r == s.(controls := s.controls[c := UnfreezeClear(s.controls[c].s)])
  }

  ghost predicate UnfreezeJoin(s: State, r: State, c: nat) {
    && c in s.controls && s.controls[c].UnfreezeClear?
    && r == s.(controls := s.controls - {c}, live := s.live - {s.controls[c].s})
  }

  ghost predicate CallStep(s: State, r: State, t: nat) {
    Enter(s, r, t) || Load(s, r, t) || Withdraw(s, r, t) || Leave(s, r, t)
  }

  ghost predicate ControlStep(s: State, r: State, c: nat) {
    || FreezeCheck(s, r, c) || FreezeFork(s, r, c) || FreezeFail(s, r, c) || FreezeSwap(s, r, c) || FreezeJoin(s, r, c)
    || UnfreezeTake(s, r, c) || UnfreezeSeeZero(s, r, c) || UnfreezeJoin(s, r, c)
  }

  ghost predicate Next(s: State, r: State) {
    (exists t :: CallStep(s, r, t)) || (exists c :: ControlStep(s, r, c))
  }

  ghost predicate IsRun(run: seq<State>) {
    && |run| > 0 && Init(run[0])
    && forall i :: 0 <= i < |run| - 1 ==> Next(run[i], run[i + 1])
  }

  predicate IsFreeze(c: Control) { c.FreezeChecked? || c.FreezeForked? || c.FreezeDisplaced? }

  // At most one freeze call is under way, next to any number of unfreeze calls.
  ghost predicate FreezesApart(s: State) {
    forall c, d :: c in s.controls && d in s.controls && IsFreeze(s.controls[c]) && IsFreeze(s.controls[d]) ==> c == d
  }

  // ---------------------------------------------------------------- the use count

  predicate Counts(c: Call) { !c.UsingMain? }

  function Counting(calls: map<nat, Call>): set<nat> {
    set t | t in calls && Counts(calls[t])
  }

  // The count is the number of calls between their increment and their decrement.
  ghost predicate CountInv(s: State) {
    s.useCount == |Counting(s.calls)|
  }

  lemma CountingUpdate(calls: map<nat, Call>, t: nat, c: Call)
    ensures Counting(calls[t := c]) == if Counts(c) then Counting(calls) + {t} else Counting(calls) - {t}
    ensures Counting(calls - {t}) == Counting(calls) - {t}
  {
  }

  lemma CallKeepsCount(s: State, r: State, t: nat)
    requires CountInv(s) && CallStep(s, r, t)
    ensures CountInv(r)
  {
    assert t in s.calls ==> (t in Counting(s.calls) <==> Counts(s.calls[t]));
    if t in r.calls {
      CountingUpdate(s.calls, t, r.calls[t]);
    } else {
      CountingUpdate(s.calls, t, UsingMain);
    }
  }

  lemma NextKeepsCount(s: State, r: State)
    requires CountInv(s) && Next(s, r)
    ensures CountInv(r)
  {
    if t :| CallStep(s, r, t) {
      CallKeepsCount(s, r, t);
    }
  }

  // The count is exact in every state of every run, however freeze and
  // unfreeze calls overlap.
  lemma {:induction false} CountIsExact(run: seq<State>, n: nat)
    requires IsRun(run) && n < |run|
    ensures CountInv(run[n])
  {
    if n > 0 {
      CountIsExact(run, n - 1);
      assert Next(run[n - 1], run[n]);
      NextKeepsCount(run[n - 1], run[n]);
    }
  }

  // ---------------------------------------------------------------- safety

  // No call uses a deleted shadow, and none can come by one.
  ghost predicate Safe(s: State) {
    && (forall t :: t in s.calls && s.calls[t].UsingShadow? ==> s.calls[t].s in s.live)
    && (s.shadow.Some? ==> s.shadow.value in s.live)
  }

  // The shadow a control call owns.
  function Owned(c: Control): set<nat> {
    if c.FreezeChecked? then {} else {c.s}
  }

  ghost predicate Uses(s: State, i: nat) {
    exists t :: t in s.calls && s.calls[t] == UsingShadow(i)
  }

  ghost predicate Held(s: State, i: nat) {
    exists c :: c in s.controls && i in Owned(s.controls[c])
  }

  // Control call c has made shadow i unreachable, but has not seen it unused.
  predicate Retires(s: State, c: nat, i: nat) {
    c in s.controls && (s.controls[c] == UnfreezeTaken(i) || s.controls[c] == FreezeDisplaced(i))
  }

  ghost predicate NoneLeaks(s: State) {
    forall i :: i in s.live ==> s.shadow == Some(i) || Held(s, i)
  }

  // Whatever is published or owned is live, and has one owner.
  ghost predicate OneOwner(s: State) {
    && (forall i :: i in s.live ==> i < s.next)
    && (s.shadow.Some? ==> s.shadow.value in s.live)
    && (forall c :: c in s.controls ==> OwnsApart(s, s.controls[c]))
    && (forall c, d :: c in s.controls && d in s.controls && c != d ==> Owned(s.controls[c]) !! Owned(s.controls[d]))
  }

  predicate OwnsApart(s: State, c: Control) {
    Owned(c) <= s.live && (s.shadow.Some? ==> s.shadow.value !in Owned(c))
  }

  // Which shadows there are, in any run: the published one and those owned by a
  // control call, each by one only, so that none leaks.
  ghost predicate OwnersInv(s: State) { CountInv(s) && NoneLeaks(s) && OneOwner(s) }

  // A live shadow that is in use is published, or has been taken by an unfreeze
  // call that still waits, or has been displaced by a freeze call.
  ghost predicate UsersInv(s: State) {
    forall t :: t in s.calls && s.calls[t].UsingShadow? ==>
      var i := s.calls[t].s;
      && i < s.next
      && (i in s.live ==>
           s.shadow == Some(i) || exists c :: Retires(s, c, i))
  }

  lemma CallKeepsOwners(s: State, r: State, t: nat)
    requires OwnersInv(s) && UsersInv(s) && CallStep(s, r, t)
    ensures OwnersInv(r) && UsersInv(r)
  {
    CallKeepsCount(s, r, t);
    hide CountInv;
    assert forall i :: Held(r, i) <==> Held(s, i);
    assert forall c, i :: Retires(r, c, i) <==> Retires(s, c, i);
  }

  // A count of zero means that no call uses any shadow.
  lemma ZeroMeansUnused(s: State)
    requires CountInv(s) && s.useCount == 0
    ensures forall t :: t in s.calls ==> !s.calls[t].UsingShadow?
  {
    forall t | t in s.calls
      ensures !s.calls[t].UsingShadow?
    {
      assert s.calls[t].UsingShadow? ==> t in Counting(s.calls);
    }
  }

  lemma ControlKeepsOwners(s: State, r: State, c: nat)
    requires OwnersInv(s) && ControlStep(s, r, c)
    ensures OwnersInv(r)
  {
    ControlLeaksNone(s, r, c);
    ControlKeepsOneOwner(s, r, c);
    hide NoneLeaks, OneOwner;
  }

  lemma ControlKeepsOneOwner(s: State, r: State, c: nat)
    requires OneOwner(s) && ControlStep(s, r, c)
    ensures OneOwner(r)
  {
    forall d | d in r.controls ensures OwnsApart(r, r.controls[d]) {
      assert d != c ==> r.controls[d] == s.controls[d];
    }
  }

  lemma ControlLeaksNone(s: State, r: State, c: nat)
    requires NoneLeaks(s) && ControlStep(s, r, c)
    ensures NoneLeaks(r)
  {
    forall i | i in r.live ensures r.shadow == Some(i) || Held(r, i) {
      if i in s.live && Held(s, i) {
        var d :| d in s.controls && i in Owned(s.controls[d]);
        assert d != c ==> d in r.controls && r.controls[d] == s.controls[d];
      }
      assert c in r.controls && i in Owned(r.controls[c]) ==> Held(r, i);
    }
  }

  lemma ControlKeepsUsers(s: State, r: State, c: nat)
    requires OwnersInv(s) && UsersInv(s) && ControlStep(s, r, c)
    ensures UsersInv(r)
  {
    if s.useCount == 0 {
      ZeroMeansUnused(s);
    }
    hide CountInv, OwnersInv, Retires;
    forall t | t in r.calls && r.calls[t].UsingShadow?
      ensures r.calls[t].s < r.next
      ensures r.calls[t].s in r.live ==>
                r.shadow == Some(r.calls[t].s) || exists d :: Retires(r, d, r.calls[t].s)
    {
      var i := r.calls[t].s;
      assert t in s.calls && s.calls[t] == r.calls[t] && i < s.next;
      if i in r.live {
        if s.shadow == Some(i) {
          PublishedIsRetired(s, r, c, i);
        } else {
          var d :| Retires(s, d, i);
          StillRetired(s, r, c, d, i);
        }
      }
    }
  }

  // What a control call takes out of circulation it retires.
  lemma PublishedIsRetired(s: State, r: State, c: nat, i: nat)
    requires s.shadow == Some(i) && ControlStep(s, r, c)
    ensures r.shadow == Some(i) || Retires(r, c, i)
  {
  }

  // A retired shadow stays so until it is joined, or until the count is zero.
  lemma StillRetired(s: State, r: State, c: nat, d: nat, i: nat)
    requires Retires(s, d, i) && ControlStep(s, r, c) && s.useCount != 0 && i in r.live
    ensures Retires(r, d, i)
  {
  }

  lemma StepKeepsOwners(s: State, r: State)
    requires OwnersInv(s) && UsersInv(s) && Next(s, r)
    ensures OwnersInv(r) && UsersInv(r)
  {
    hide OwnersInv, UsersInv, CallStep, ControlStep;
    if t :| CallStep(s, r, t) {
      CallKeepsOwners(s, r, t);
    } else {
      var c :| ControlStep(s, r, c);
      ControlKeepsOwners(s, r, c);
      ControlKeepsUsers(s, r, c);
    }
  }

  lemma {:induction false} RunKeepsOwners(run: seq<State>, n: nat)
    requires IsRun(run) && n < |run|
    ensures OwnersInv(run[n]) && UsersInv(run[n])
  {
    if n == 0 {
      assert CountInv(run[0]) by { CountIsExact(run, 0); }
    } else {
      RunKeepsOwners(run, n - 1);
      StepKeepsOwners(run[n - 1], run[n]);
    }
  }

  // ---------------------------------------------------------------- when a run is safe

  // A freeze call deletes, without looking, a shadow that some call uses.
  ghost predicate DeletesInUse(s: State, r: State) {
    exists c :: FreezeJoin(s, r, c) && Uses(s, s.controls[c].s)
  }

  // Nothing else can put a call in danger: unfreeze calls never do.
  lemma StepIsSafe(s: State, r: State)
    requires OwnersInv(s) && UsersInv(s) && OwnersInv(r) && Safe(s) && Next(s, r)
    requires !DeletesInUse(s, r)
    ensures Safe(r)
  {
    hide CountInv, UsersInv;
    forall t | t in r.calls && r.calls[t].UsingShadow? ensures r.calls[t].s in r.live {
      var i := r.calls[t].s;
      if i !in r.live {
        assert i in s.live;
        UnusedWhenDeleted(s, r, i, t);
      }
    }
  }

  lemma CallKeepsLive(s: State, r: State, t: nat)
    requires CallStep(s, r, t)
    ensures r.live == s.live
  {
  }

  // A shadow that an unfreeze call deletes is used by no one.
  lemma UnusedWhenDeleted(s: State, r: State, i: nat, t: nat)
    requires OwnersInv(s) && UsersInv(s) && Next(s, r) && i in s.live && i !in r.live
    requires !DeletesInUse(s, r)
    ensures s.calls == r.calls && !(t in s.calls && s.calls[t] == UsingShadow(i))
  {
    hide CountInv, CallStep;
    if u :| CallStep(s, r, u) { CallKeepsLive(s, r, u); }
    var c :| ControlStep(s, r, c);
    assert s.controls[c] == FreezeDisplaced(i) || s.controls[c] == UnfreezeClear(i);
    assert Retires(s, c, i) || forall d :: !Retires(s, d, i);
    assert t in s.calls && s.calls[t] == UsingShadow(i) ==> Uses(s, i);
    assert FreezeJoin(s, r, c) ==> !Uses(s, i);
  }

  // Every state of a run up to step n.
  ghost predicate SafeUpTo(run: seq<State>, n: nat) { forall i :: 0 <= i <= n && i < |run| ==> Safe(run[i]) }

  ghost predicate DeletesNoneInUse(run: seq<State>, n: nat) {
    forall i :: 0 <= i < n && i < |run| - 1 ==> !DeletesInUse(run[i], run[i + 1])
  }

  lemma {:induction false} SafeWithoutDeletion(run: seq<State>, n: nat)
    requires IsRun(run) && n < |run| && DeletesNoneInUse(run, n)
    ensures SafeUpTo(run, n)
  {
    hide Safe;
    if n == 0 {
      assert Safe(run[0]) by { SafeAtStart(run[0]); }
    } else {
      SafeWithoutDeletion(run, n - 1);
      RunKeepsOwners(run, n - 1);
      RunKeepsOwners(run, n);
      hide OwnersInv, UsersInv, Next, DeletesInUse;
      StepIsSafe(run[n - 1], run[n]);
    }
  }

  lemma SafeAtStart(s: State)
    requires Init(s)
    ensures Safe(s)
  {
  }

  // A run is safe throughout exactly if no freeze call that was overtaken by
  // another deletes the displaced shadow while some call uses it.
  lemma RunIsSafeIff(run: seq<State>)
    requires IsRun(run)
    ensures SafeUpTo(run, |run| - 1) <==> DeletesNoneInUse(run, |run| - 1)
  {
    var n := |run| - 1;
    if DeletesNoneInUse(run, n) {
      SafeWithoutDeletion(run, n);
    } else {
      var i :| 0 <= i < n && DeletesInUse(run[i], run[i + 1]);
      var c :| FreezeJoin(run[i], run[i + 1], c) && Uses(run[i], run[i].controls[c].s);
      var t :| t in run[i].calls && run[i].calls[t] == UsingShadow(run[i].controls[c].s);
      assert t in run[i + 1].calls && !Safe(run[i + 1]);
    }
  }

  // Freeze calls apart from each other never find a shadow to displace.
  ghost predicate ApartInv(s: State) {
    forall c :: c in s.controls && IsFreeze(s.controls[c]) ==> s.shadow == None && !s.controls[c].FreezeDisplaced?
  }

  lemma NextKeepsApart(s: State, r: State)
    requires ApartInv(s) && FreezesApart(s) && FreezesApart(r) && Next(s, r)
    ensures ApartInv(r)
  {
  }

  lemma {:induction false} RunKeepsApart(run: seq<State>, n: nat)
    requires IsRun(run) && n < |run| && forall i :: 0 <= i < |run| ==> FreezesApart(run[i])
    ensures ApartInv(run[n])
  {
    if n > 0 {
      RunKeepsApart(run, n - 1);
      hide FreezesApart, ApartInv, Next;
      assert Next(run[n - 1], run[n]);
      NextKeepsApart(run[n - 1], run[n]);
    }
  }

  // In every run in which freeze calls are apart from each other, whatever the
  // unfreeze calls do, every state is safe and the use count is exact.
  lemma RunIsSafe(run: seq<State>)
    requires IsRun(run) && forall i :: 0 <= i < |run| ==> FreezesApart(run[i])
    ensures forall i :: 0 <= i < |run| ==> Safe(run[i]) && CountInv(run[i])
  {
    forall i | 0 <= i < |run| - 1 ensures !DeletesInUse(run[i], run[i + 1]) {
      RunKeepsApart(run, i);
    }
    RunIsSafeIff(run);
    forall i | 0 <= i < |run| ensures CountInv(run[i]) {
      CountIsExact(run, i);
    }
  }

  // In any run: a shadow that has been joined is never live or published again,
  // and in a safe run no call uses it.
  lemma {:induction false} JoinedStaysGone(run: seq<State>, i: nat, j: nat, id: nat)
    requires IsRun(run) && i <= j < |run| && id < run[i].next && id !in run[i].live
    ensures id < run[j].next && id !in run[j].live && run[j].shadow != Some(id)
    ensures Safe(run[j]) ==> !Uses(run[j], id)
    decreases j
  {
    hide OwnersInv, UsersInv, Safe, Uses, Next;
    if i < j {
      JoinedStaysGone(run, i, j - 1, id);
      assert Next(run[j - 1], run[j]);
      StepRevivesNone(run[j - 1], run[j], id);
    }
    RunKeepsOwners(run, j);
    GoneIsUnreachable(run[j], id);
  }

  lemma StepRevivesNone(s: State, r: State, id: nat)
    requires Next(s, r) && id < s.next && id !in s.live
    ensures id < r.next && id !in r.live
  {
  }

  lemma GoneIsUnreachable(s: State, id: nat)
    requires OwnersInv(s) && id !in s.live
    ensures s.shadow != Some(id) && (Safe(s) ==> !Uses(s, id))
  {
  }

  lemma Extended(run: seq<State>, r: State) returns (longer: seq<State>)
    requires IsRun(run) && Next(run[|run| - 1], r)
    ensures IsRun(longer) && run <= longer && |longer| == |run| + 1 && longer[|longer| - 1] == r
  {
    hide Next;
    longer := run + [r];
  }

  // There is always room for one more call.
  lemma {:induction false} FreshCall(keys: set<nat>) returns (t: nat)
    ensures forall k :: k in keys ==> k < t
    decreases |keys|
  {
    t := 0;
    if keys != {} {
      var k :| k in keys;
      var rest := keys - {k};
      t := FreshCall(rest);
      assert forall j :: j in keys ==> j == k || j in rest;
      t := if t <= k then k + 1 else t;
    }
  }

  // A freeze call that has seen a null pointer can make its shadow.
  lemma CanFork(run: seq<State>, c: nat) returns (longer: seq<State>)
    requires IsRun(run) && c in run[|run| - 1].controls
    requires var f := run[|run| - 1].controls[c]; f.FreezeChecked? || f.FreezeForked?
    ensures IsRun(longer) && run <= longer
    ensures var s, r := run[|run| - 1], longer[|longer| - 1];
            && c in r.controls && r.controls[c].FreezeForked?
            && r.controls == s.controls[c := r.controls[c]]
  {
    var s := run[|run| - 1];
    longer := run;
    if s.controls[c].FreezeChecked? {
      var r := s.(controls := s.controls[c := FreezeForked(s.next)], live := s.live + {s.next}, next := s.next + 1);
      assert FreezeFork(s, r, c) && ControlStep(s, r, c);
      longer := Extended(run, r);
    } else {
      assert s.controls == s.controls[c := s.controls[c]];
    }
  }

  // Two freeze calls that both have seen a null pointer and not yet published their
  // shadows always make for an unsafe continuation: the first publishes, a call comes
  // by its shadow, the second displaces it and deletes it.
  lemma OverlappingFreezesAreUnsafe(run: seq<State>, c: nat, d: nat) returns (longer: seq<State>)
    requires IsRun(run) && c != d && c in run[|run| - 1].controls && d in run[|run| - 1].controls
    requires var s := run[|run| - 1]; IsFreeze(s.controls[c]) && !s.controls[c].FreezeDisplaced?
    requires var s := run[|run| - 1]; IsFreeze(s.controls[d]) && !s.controls[d].FreezeDisplaced?
    ensures IsRun(longer) && run <= longer && !Safe(longer[|longer| - 1])
  {
    hide IsRun, Safe;
    longer := CanFork(run, c);
    longer := CanFork(longer, d);
    longer := ForkedFreezesAreUnsafe(longer, c, d);
  }

  lemma ForkedFreezesAreUnsafe(run: seq<State>, c: nat, d: nat) returns (longer: seq<State>)
    requires IsRun(run) && c != d && c in run[|run| - 1].controls && d in run[|run| - 1].controls
    requires run[|run| - 1].controls[c].FreezeForked? && run[|run| - 1].controls[d].FreezeForked?
    ensures IsRun(longer) && run <= longer && !Safe(longer[|longer| - 1])
  {
    hide IsRun, Safe;
    var s, r, t;
    longer, r := CanPublish(run, c);
    longer, s, t := CanEnter(longer);
    longer, r := CanPublish(longer, d);
    var i := s.shadow.value;
    assert r.controls[d] == FreezeDisplaced(i) && r.calls[t] == UsingShadow(i);
    var last := r.(controls := r.controls - {d}, live := r.live - {i});
    assert FreezeJoin(r, last, d);
    assert ControlStep(r, last, d) by { hide FreezeJoin; }
    longer := Extended(longer, last);
    UsesDeleted(last, t, i);
  }

  lemma UsesDeleted(s: State, t: nat, i: nat)
    requires t in s.calls && s.calls[t] == UsingShadow(i) && i !in s.live
    ensures !Safe(s)
  {
  }

  // A freeze call that has its shadow can publish it, displacing the one before.
  lemma CanPublish(run: seq<State>, c: nat) returns (longer: seq<State>, r: State)
    requires IsRun(run) && c in run[|run| - 1].controls && run[|run| - 1].controls[c].FreezeForked?
    ensures IsRun(longer) && run <= longer && longer[|longer| - 1] == r
    ensures var s := run[|run| - 1];
            && r.shadow == Some(s.controls[c].s) && r.calls == s.calls && r.live == s.live
            && (s.shadow.Some? ==> c in r.controls && r.controls[c] == FreezeDisplaced(s.shadow.value))
            && forall d :: d in s.controls && d != c ==> d in r.controls && r.controls[d] == s.controls[d]
  {
    var s := run[|run| - 1];
    r := s.(shadow := Some(s.controls[c].s),
            controls := if s.shadow.None? then s.controls - {c}
                        else s.controls[c := FreezeDisplaced(s.shadow.value)]);
    assert FreezeSwap(s, r, c);
    assert ControlStep(s, r, c) by { hide FreezeSwap; }
    longer := Extended(run, r);
  }

  // A call can come by the published shadow.
  lemma CanEnter(run: seq<State>) returns (longer: seq<State>, r: State, t: nat)
    requires IsRun(run) && run[|run| - 1].shadow.Some?
    ensures IsRun(longer) && run <= longer && longer[|longer| - 1] == r
    ensures var s := run[|run| - 1];
            && r.shadow == s.shadow && r.controls == s.controls && r.live == s.live
            && t in r.calls && r.calls[t] == UsingShadow(s.shadow.value)
  {
    var s := run[|run| - 1];
    t := FreshCall(s.calls.Keys);
    var m := s.(useCount := s.useCount + 1, calls := s.calls[t := Counted]);
    assert Enter(s, m, t) && CallStep(s, m, t);
    longer := Extended(run, m);
    r := m.(calls := m.calls[t := UsingShadow(s.shadow.value)]);
    assert Load(m, r, t) && CallStep(m, r, t);
    longer := Extended(longer, r);
  }

  // Such states there are.
  lemma FreezesCanOverlap() returns (run: seq<State>, c: nat, d: nat)
    ensures IsRun(run) && c != d && c in run[|run| - 1].controls && d in run[|run| - 1].controls
    ensures run[|run| - 1].controls[c] == run[|run| - 1].controls[d] == FreezeChecked
  {
    c, d := 1, 2;
    var s0 := State(None, 0, map[], map[], {}, 0);
    var s1 := s0.(controls := map[1 := FreezeChecked]);
    var s2 := s1.(controls := map[1 := FreezeChecked, 2 := FreezeChecked]);
    assert FreezeCheck(s0, s1, 1) && ControlStep(s0, s1, 1);
    assert FreezeCheck(s1, s2, 2) && ControlStep(s1, s2, 2);
    run := Extended([s0], s1);
    run := Extended(run, s2);
  }

  // ---------------------------------------------------------------- what freezing is for

  // Undisturbed, a freeze call publishes a new shadow, and an unfreeze call takes it away
  // again: all is as it was before.
  lemma FreezeThenUnfreeze(run: seq<State>, c: nat) returns (longer: seq<State>, frozen: nat)
    requires IsRun(run)
    requires var s := run[|run| - 1]; s.shadow == None && s.useCount == 0 && c !in s.controls
    ensures IsRun(longer) && run <= longer && |run| <= frozen < |longer|
    ensures var s, f := run[|run| - 1], longer[frozen];
            && f.shadow == Some(s.next) && s.next in f.live && f.controls == s.controls && f.calls == s.calls
            && longer[|longer| - 1] == s.(next := s.next + 1)
  {
    var s := run[|run| - 1];
    var n := s.next;
    RunKeepsOwners(run, |run| - 1);
    assert n !in s.live;
    var checked := s.(controls := s.controls[c := FreezeChecked]);
    var forked := s.(controls := s.controls[c := FreezeForked(n)], live := s.live + {n}, next := n + 1);
    var published := s.(shadow := Some(n), live := s.live + {n}, next := n + 1);
    var taken := s.(controls := s.controls[c := UnfreezeTaken(n)], live := s.live + {n}, next := n + 1);
    var clear := s.(controls := s.controls[c := UnfreezeClear(n)], live := s.live + {n}, next := n + 1);
    var joined := s.(next := n + 1);
    ForkAndPublish(s, c, checked, forked, published);
    TakeAndJoin(s, c, published, taken, clear, joined);
    hide IsRun, ControlStep;
    var until := ThreeMore(run, c, checked, forked, published);
    frozen := |until| - 1;
    longer := ThreeMore(until, c, taken, clear, joined);
    assert longer[..|until|][frozen] == published;
  }

  lemma ThreeMore(run: seq<State>, c: nat, x: State, y: State, z: State) returns (longer: seq<State>)
    requires IsRun(run) && ControlStep(run[|run| - 1], x, c) && ControlStep(x, y, c) && ControlStep(y, z, c)
    ensures IsRun(longer) && run <= longer && |longer| == |run| + 3 && longer[|longer| - 1] == z
  {
    assert |run| > 0;
    assert Next(run[|run| - 1], x) && Next(x, y) && Next(y, z) by { hide ControlStep; }
    hide IsRun, Next, ControlStep;
    longer := Extended(run, x);
    longer := Extended(longer, y);
    longer := Extended(longer, z);
  }

  lemma ForkAndPublish(s: State, c: nat, checked: State, forked: State, published: State)
    requires s.shadow == None && c !in s.controls
    requires checked == s.(controls := s.controls[c := FreezeChecked])
    requires forked == s.(controls := s.controls[c := FreezeForked(s.next)], live := s.live + {s.next},
                          next := s.next + 1)
    requires published == s.(shadow := Some(s.next), live := s.live + {s.next}, next := s.next + 1)
    ensures ControlStep(s, checked, c) && ControlStep(checked, forked, c) && ControlStep(forked, published, c)
  {
    assert FreezeCheck(s, checked, c) && FreezeFork(checked, forked, c);
    assert forked.controls - {c} == s.controls;
    assert FreezeSwap(forked, published, c);
  }

  lemma TakeAndJoin(s: State, c: nat, published: State, taken: State, clear: State, joined: State)
    requires s.shadow == None && c !in s.controls && s.useCount == 0 && s.next !in s.live
    requires published == s.(shadow := Some(s.next), live := s.live + {s.next}, next := s.next + 1)
    requires taken == s.(controls := s.controls[c := UnfreezeTaken(s.next)], live := s.live + {s.next},
                         next := s.next + 1)
    requires clear == s.(controls := s.controls[c := UnfreezeClear(s.next)], live := s.live + {s.next},
                         next := s.next + 1)
    requires joined == s.(next := s.next + 1)
    ensures ControlStep(published, taken, c) && ControlStep(taken, clear, c) && ControlStep(clear, joined, c)
  {
    assert UnfreezeTake(published, taken, c) && UnfreezeSeeZero(taken, clear, c);
    assert clear.controls - {c} == s.controls && clear.live - {s.next} == s.live;
    assert UnfreezeJoin(clear, joined, c);
  }
}
