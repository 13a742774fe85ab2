/**
 * The console input queue (ConsoleInput.cpp), and the API calls that drain it
 * (APIConsole.cpp).
 */
module ConsoleInputs {
  import opened Basics

  datatype Event =
    | Key(virtualKey: nat, down: bool)
    | Mouse
    | Callback(function_: nat, context: nat)
    | Noop
    | Other(kind: nat)

  // What a reader is handed in place of the event.
  function Delivered(e: Event): Event { if e.Callback? then Noop else e }

  function DeliveredAll(s: seq<Event>): (r: seq<Event>)
    ensures |r| == |s|
  {
    seq(|s|, i requires 0 <= i < |s| => Delivered(s[i]))
  }

  // The callbacks among the events, in order.
  function Callbacks(s: seq<Event>): seq<Event> {
    if s == [] then [] else Callbacks(s[..|s| - 1]) + if s[|s| - 1].Callback? then [s[|s| - 1]] else []
  }

  lemma {:induction false} CallbacksConcat(a: seq<Event>, b: seq<Event>)
    ensures Callbacks(a + b) == Callbacks(a) + Callbacks(b)
    decreases |b|
  {
    if b == [] {
      assert a + b == a;
    } else {
      var n := |b| - 1;
      assert (a + b)[..|a| + n] == a + b[..n];
      CallbacksConcat(a, b[..n]);
    }
  }

  // Current priority: the largest one raised and not lowered, or 0.
  ghost predicate IsCurrent(priorities: set<nat>, p: nat) {
    if priorities == {} then p == 0 else p in priorities && forall q :: q in priorities ==> q <= p
  }

  lemma CurrentExists(priorities: set<nat>)
    ensures exists p :: IsCurrent(priorities, p)
    decreases |priorities|
  {
    if priorities == {} {
      assert IsCurrent(priorities, 0);
    } else {
      var x :| x in priorities;
      var rest := priorities - {x};
      CurrentExists(rest);
      var p :| IsCurrent(rest, p);
      var m := if rest == {} || p < x then x else p;
      assert IsCurrent(priorities, m) by {
        forall q | q in priorities
          ensures q <= m
        {
          assert q == x || q in rest;
        }
      }
    }
  }

  ghost function Current(priorities: set<nat>): (p: nat)
    ensures IsCurrent(priorities, p)
  {
    CurrentExists(priorities);
    var p :| IsCurrent(priorities, p);
    p
  }

  // Flags of CheckForKeyPress.
  datatype KeepFlags = KeepFlags(matched: bool, unmatched: bool, mouse: bool, other: bool)

  class ConsoleInput {
    var pending: seq<Event>
    var priorities: set<nat>
    // The callbacks invoked so far, in order.
    ghost var invoked: seq<Event>
    // How often waiters have been notified.
    ghost var notifications: nat

    constructor ()
      ensures pending == [] && priorities == {} && invoked == [] && notifications == 0
    {
      pending, priorities, invoked, notifications := [], {}, [], 0;
    }

    method CurrentPriority() returns (p: nat)
      ensures p == Current(priorities)
    {
      if priorities == {} {
        return 0;
      }
      CurrentExists(priorities);
      p :| p in priorities && forall q :: q in priorities ==> q <= p;
    }

    method Enqueue(data: array<Event>, size: nat)
      requires size <= data.Length
      modifies this
      ensures pending == old(pending) + data[..size]
      ensures priorities == old(priorities) && invoked == old(invoked)
      ensures notifications == old(notifications) + if size > 0 then 1 else 0
    {
      if size != 0 {
        var i := 0;
        while i < size
          invariant 0 <= i <= size
          invariant pending == old(pending) + data[..i]
          invariant priorities == old(priorities) && invoked == old(invoked) && notifications == old(notifications)
        {
          pending := pending + [data[i]];
          i := i + 1;
        }
        notifications := notifications + 1;
      }
    }

    // Turns callback events into no-ops, running them if asked to.
    method InspectCallbacks(data: array<Event>, size: nat, invoke: bool)
      requires size <= data.Length
      modifies data, this`invoked
      ensures data[..size] == DeliveredAll(old(data[..size])) && data[size..] == old(data[size..])
      ensures invoked == if invoke then old(invoked) + Callbacks(old(data[..size])) else old(invoked)
    {
      hide Callbacks;
      ghost var was := data[..size];
      NoCallbacks(was, invoked);
      var i := 0;
      while i < size
        invariant 0 <= i <= size
        invariant data[..i] == DeliveredAll(was)[..i]
        invariant data[i..] == old(data[i..])
        invariant invoked == if invoke then old(invoked) + Callbacks(was[..i]) else old(invoked)
      {
        assert data[i] == was[i];
        CallbacksStep(was, i);
        if data[i].Callback? {
          if invoke {
            invoked := invoked + [data[i]];
          }
          data[i] := Noop;
        }
        i := i + 1;
      }
      assert was[..size] == was;
    }

    lemma NoCallbacks(s: seq<Event>, before: seq<Event>)
      ensures before + Callbacks(s[..0]) == before
    {
    }

    lemma CallbacksStep(s: seq<Event>, i: nat)
      requires i < |s|
      ensures Callbacks(s[..i + 1]) == Callbacks(s[..i]) + if s[i].Callback? then [s[i]] else []
    {
      assert s[..i + 1][..i] == s[..i];
    }

    /** Copies up to size events without taking them; callbacks are not run. */
    method Peek(data: array<Event>, size: nat, priority: nat) returns (n: nat)
      requires size <= data.Length
      modifies data, this`invoked
      ensures n == if priority < Current(priorities) then 0 else Min(size, |pending|)
      ensures n <= data.Length && data[..n] == DeliveredAll(pending[..n]) && data[n..] == old(data[n..])
      ensures invoked == old(invoked)
    {
      var current := CurrentPriority();
      if priority < current {
        return 0;
      }
      n := 0;
      while n < size && n < |pending|
        invariant n <= size && n <= |pending|
        invariant data[..n] == pending[..n] && data[n..] == old(data[n..]) && invoked == old(invoked)
      {
        data[n] := pending[n];
        n := n + 1;
      }
      assert data[..n] == pending[..n];
      InspectCallbacks(data, n, false);
    }

    /** Takes up to size events off the front and runs their callbacks. */
    method Dequeue(data: array<Event>, size: nat, priority: nat) returns (n: nat)
      requires size <= data.Length
      modifies data, this`pending, this`invoked
      ensures n == if priority < Current(priorities) then 0 else Min(size, |old(pending)|)
      ensures pending == old(pending)[n..] && n <= data.Length
      ensures data[..n] == DeliveredAll(old(pending)[..n]) && data[n..] == old(data[n..])
      ensures invoked == old(invoked) + Callbacks(old(pending)[..n])
    {
      var current := CurrentPriority();
      if priority < current {
        return 0;
      }
      n := 0;
      while n < size && pending != []
        invariant n <= size && n <= |old(pending)| && pending == old(pending)[n..]
        invariant data[..n] == old(pending)[..n] && data[n..] == old(data[n..])
        invariant invoked == old(invoked)
        decreases |pending|
      {
        data[n] := pending[0];
        pending := pending[1..];
        n := n + 1;
      }
      assert data[..n] == old(pending)[..n];
      InspectCallbacks(data, n, true);
    }

    method Flush(priority: nat) returns (n: nat)
      modifies this`pending
      ensures n == if priority < Current(priorities) then 0 else |old(pending)|
      ensures pending == if priority < Current(priorities) then old(pending) else []
    {
      var current := CurrentPriority();
      if priority < current {
        return 0;
      }
      n := |pending|;
      pending := [];
    }

    // WaitForNonEmptyWithTimeout with no time left: does not wait.
    method Ready(priority: nat) returns (ready: bool)
      ensures ready <==> pending != [] && Current(priorities) <= priority
    {
      var current := CurrentPriority();
      ready := pending != [] && priority >= current;
    }

    method RaiseRequestorPriority() returns (p: nat)
      modifies this`priorities
      ensures p == Current(old(priorities)) + 1 && priorities == old(priorities) + {p}
      ensures Current(priorities) == p
    {
      var current := CurrentPriority();
      p := current + 1;
      priorities := priorities + {p};
    }

    method LowerRequestorPriority(released: nat)
      requires released in priorities
      modifies this`priorities, this`notifications
      ensures priorities == old(priorities) - {released}
      ensures notifications == old(notifications) + if pending != [] then 1 else 0
    {
      priorities := priorities - {released};
      if pending != [] {
        notifications := notifications + 1;
      }
    }

    /** Takes over the events of a forked queue, in their order. */
    method JoinConsoleInput(ci: ConsoleInput)
      requires ci != this
      modifies this`pending, this`notifications
      ensures pending == old(pending) + ci.pending
      ensures notifications == old(notifications) + if ci.pending != [] then 1 else 0
    {
      if ci.pending != [] {
        var i := 0;
        while i < |ci.pending|
          invariant 0 <= i <= |ci.pending| && pending == old(pending) + ci.pending[..i]
          invariant ci.pending == old(ci.pending) && notifications == old(notifications)
        {
          pending := pending + [ci.pending[i]];
          i := i + 1;
        }
        notifications := notifications + 1;
      }
    }

    /**
     * Drains the queue, looking for the first press of one of the keys, and puts
     * back the events it was told to keep.  Without the priority for it, it
     * touches nothing.
     */
    method CheckForKeyPress(keyCodes: seq<nat>, flags: KeepFlags) returns (out: nat)
      modifies this
      ensures priorities == old(priorities)
      ensures Current(priorities) > 0 ==> out == 0 && pending == old(pending) && invoked == old(invoked)
      ensures Current(priorities) == 0 ==>
                && pending == Kept(old(pending), keyCodes, flags)
                && out == FirstPress(old(pending), keyCodes)
                && invoked == old(invoked) + Callbacks(old(pending))
    {
      hide Kept, FirstPress, Callbacks, Current;
      var backlog: seq<Event> := [];
      out := 0;
      var rec := new Event[1](_ => Noop);
      var ready := Ready(0);
      ghost var k, all := 0, pending;
      DrainStart(all, keyCodes, flags);
      while ready
        invariant 0 <= k <= |all| && pending == all[k..] && priorities == old(priorities)
        invariant ready <==> pending != [] && Current(priorities) <= 0
        invariant Current(priorities) > 0 ==> k == 0
        invariant backlog == Kept(all[..k], keyCodes, flags)
        invariant out == FirstPress(all[..k], keyCodes)
        invariant invoked == old(invoked) + Callbacks(all[..k])
        decreases |pending|
      {
        DrainStep(all, k, keyCodes, flags);
        assert pending[..1] == [all[k]];
        var n := Dequeue(rec, 1, 0);
        if n == 0 {
          break;
        }
        assert rec[..1][0] == Delivered(all[k]);
        var keep;
        keep, out := Judge(rec[0], keyCodes, flags, out);
        if keep {
          backlog := backlog + [rec[0]];
        }
        k := k + 1;
        ready := Ready(0);
      }
      if Current(priorities) == 0 {
        assert all[..k] == all;
      } else {
        assert all[k..] == all && all[..k] == [];
      }
      if backlog != [] {
        var data := new Event[|backlog|](i requires 0 <= i < |backlog| => backlog[i]);
        assert data[..] == backlog;
        Enqueue(data, |backlog|);
      }
    }

    // What CheckForKeyPress makes of one event.
    static method Judge(r: Event, keyCodes: seq<nat>, flags: KeepFlags, out0: nat) returns (keep: bool, out: nat)
      ensures keep == IsKept(r, keyCodes, flags)
      ensures out == if out0 == 0 && IsPress(r, keyCodes) then KeyIndex(keyCodes, r.virtualKey) + 1 else out0
    {
      keep, out := false, out0;
      match r {
        case Key(vk, down) =>
          var i := IndexOf(keyCodes, vk);
          if i != |keyCodes| && down && out == 0 {
            out := i + 1;
          }
          if i == |keyCodes| && flags.unmatched {
            keep := true;
          }
          if i != |keyCodes| && flags.matched {
            keep := true;
          }
        case Mouse =>
          keep := flags.mouse;
        case _ =>
          keep := flags.other;
      }
    }

    lemma DrainStart(all: seq<Event>, keyCodes: seq<nat>, flags: KeepFlags)
      ensures Kept(all[..0], keyCodes, flags) == [] && FirstPress(all[..0], keyCodes) == 0 && Callbacks(all[..0]) == []
    {
    }

    lemma DrainStep(all: seq<Event>, k: nat, keyCodes: seq<nat>, flags: KeepFlags)
      requires k < |all|
      ensures var e := all[k];
              && Kept(all[..k + 1], keyCodes, flags)
                 == Kept(all[..k], keyCodes, flags) + (if IsKept(e, keyCodes, flags) then [Delivered(e)] else [])
              && FirstPress(all[..k + 1], keyCodes)
                 == (var before := FirstPress(all[..k], keyCodes);
                     if before == 0 && IsPress(e, keyCodes) then KeyIndex(keyCodes, e.virtualKey) + 1 else before)
              && Callbacks(all[..k + 1]) == Callbacks(all[..k]) + Callbacks([e])
    {
      assert all[..k + 1][..k] == all[..k];
      assert all[..k + 1] == all[..k] + [all[k]];
      CallbacksConcat(all[..k], [all[k]]);
    }

    // The key-code loop: the first index holding the key, or the length.
    static method IndexOf(keyCodes: seq<nat>, vk: nat) returns (i: nat)
      ensures i == KeyIndex(keyCodes, vk)
    {
      i := 0;
      while i != |keyCodes|
        invariant i <= |keyCodes|
        invariant KeyIndex(keyCodes, vk) == i + KeyIndex(keyCodes[i..], vk)
        decreases |keyCodes| - i
      {
        if keyCodes[i] == vk {
          break;
        }
        assert keyCodes[i..][1..] == keyCodes[i + 1..];
        i := i + 1;
      }
    }
  }

  function KeyIndex(keyCodes: seq<nat>, vk: nat): (i: nat)
    ensures i <= |keyCodes|
    ensures i < |keyCodes| ==> keyCodes[i] == vk
    ensures forall j :: 0 <= j < i ==> keyCodes[j] != vk
  {
    if keyCodes == [] || keyCodes[0] == vk then 0 else 1 + KeyIndex(keyCodes[1..], vk)
  }

  predicate IsKept(e: Event, keyCodes: seq<nat>, flags: KeepFlags) {
    match e
    case Key(vk, _) => if vk in keyCodes then flags.matched else flags.unmatched
    case Mouse => flags.mouse
    case _ => flags.other
  }

  // The events put back, in order.  A callback has been run and comes back as a no-op.
  function Kept(s: seq<Event>, keyCodes: seq<nat>, flags: KeepFlags): seq<Event> {
    if s == [] then []
    else
      var n := |s| - 1;
      Kept(s[..n], keyCodes, flags) + if IsKept(s[n], keyCodes, flags) then [Delivered(s[n])] else []
  }

  predicate IsPress(e: Event, keyCodes: seq<nat>) { e.Key? && e.down && e.virtualKey in keyCodes }

  // One plus the index of the key of the first matching press, or 0.
  function FirstPress(s: seq<Event>, keyCodes: seq<nat>): nat {
    if s == [] then 0
    else
      var n := |s| - 1;
      var before := FirstPress(s[..n], keyCodes);
      if before != 0 then before
      else if IsPress(s[n], keyCodes) then KeyIndex(keyCodes, s[n].virtualKey) + 1
      else 0
  }

  // Event i is the earliest press of a listed key, and out reports that key.
  ghost predicate IsEarliestPress(s: seq<Event>, keyCodes: seq<nat>, i: int, out: nat) {
    && 0 <= i < |s| && IsPress(s[i], keyCodes)
    && 0 < out <= |keyCodes| && keyCodes[out - 1] == s[i].virtualKey && s[i].virtualKey !in keyCodes[..out - 1]
    && forall j :: 0 <= j < i ==> !IsPress(s[j], keyCodes)
  }

  lemma {:induction false} FirstPressIsEarliest(s: seq<Event>, keyCodes: seq<nat>)
    ensures var out := FirstPress(s, keyCodes);
            if out == 0 then forall i :: 0 <= i < |s| ==> !IsPress(s[i], keyCodes)
            else exists i :: IsEarliestPress(s, keyCodes, i, out)
  {
    if s != [] {
      var n := |s| - 1;
      FirstPressIsEarliest(s[..n], keyCodes);
      assert forall i :: 0 <= i < n ==> s[..n][i] == s[i];
      var before, out := FirstPress(s[..n], keyCodes), FirstPress(s, keyCodes);
      if before != 0 {
        var i :| IsEarliestPress(s[..n], keyCodes, i, before);
        assert IsEarliestPress(s, keyCodes, i, out);
      } else if IsPress(s[n], keyCodes) {
        assert IsEarliestPress(s, keyCodes, n, out);
      }
    }
  }

  // Which events are put back, one after the other in their order: a key if it is listed
  // and matched ones are kept, or is not and unmatched ones are, whether pressed or
  // released; a mouse event if those are kept; and any other with the others, a callback
  // as a no-op.
  lemma KeptOneByOne(s: seq<Event>, e: Event, keyCodes: seq<nat>, flags: KeepFlags)
    ensures Kept([], keyCodes, flags) == []
    ensures Kept(s + [e], keyCodes, flags) == Kept(s, keyCodes, flags)
              + (if e.Key? && e.virtualKey in keyCodes then (if flags.matched then [e] else [])
                 else if e.Key? then (if flags.unmatched then [e] else [])
                 else if e == Mouse then (if flags.mouse then [Mouse] else [])
                 else if !flags.other then [] else if e.Callback? then [Noop] else [e])
  {
    assert (s + [e])[..|s|] == s;
  }

  // A listed key stays as often as it came, or not at all; so does an unlisted one.
  lemma {:induction false} KeysKept(s: seq<Event>, keyCodes: seq<nat>, flags: KeepFlags, vk: nat, down: bool)
    ensures multiset(Kept(s, keyCodes, flags))[Key(vk, down)]
            == if (if vk in keyCodes then flags.matched else flags.unmatched) then multiset(s)[Key(vk, down)] else 0
  {
    if s != [] {
      var n := |s| - 1;
      KeysKept(s[..n], keyCodes, flags, vk, down);
      KeptOneByOne(s[..n], s[n], keyCodes, flags);
      assert s[..n] + [s[n]] == s;
    }
  }
}
