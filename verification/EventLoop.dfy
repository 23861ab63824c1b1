/** The event loop's list of delayed actions (kernel/yloop/yloop.c), in the order they fall due. */
module EventLoop {
  import opened Common

  datatype Action = ClearConnected | SetReconnect | Advertise
  datatype Timer = Timer(due: int, action: Action)

  ghost predicate Sorted(ts: seq<Timer>) { forall i, j :: 0 <= i < j < |ts| ==> ts[i].due <= ts[j].due }

  ghost function Inserted(ts: seq<Timer>, t: Timer): seq<Timer> {
    if ts == [] || t.due < ts[0].due then [t] + ts else [ts[0]] + Inserted(ts[1..], t)
  }

  /** Only the first match goes. */
  ghost function Cancelled(ts: seq<Timer>, a: Action): seq<Timer> {
    if ts == [] then [] else if ts[0].action == a then ts[1..] else [ts[0]] + Cancelled(ts[1..], a)
  }

  ghost function Count(ts: seq<Timer>, a: Action): nat {
    if ts == [] then 0 else Count(ts[1..], a) + if ts[0].action == a then 1 else 0
  }

  /** When the first `a` falls due. */
  ghost function DueOf(ts: seq<Timer>, a: Action): Option<int> {
    if ts == [] then None else if ts[0].action == a then Some(ts[0].due) else DueOf(ts[1..], a)
  }

  lemma {:induction false} InsertedDue(ts: seq<Timer>, t: Timer, a: Action)
    requires t.action == a ==> Count(ts, a) == 0
    ensures DueOf(Inserted(ts, t), a) == if t.action == a then Some(t.due) else DueOf(ts, a)
  {
    if ts != [] && ts[0].due <= t.due {
      InsertedDue(ts[1..], t, a);
    }
  }

  lemma {:induction false} DueAfterHead(ts: seq<Timer>, a: Action)
    requires Sorted(ts) && DueOf(ts, a).Some?
    ensures ts != [] && ts[0].due <= DueOf(ts, a).value
  {
    if ts[0].action != a {
      DueAfterHead(ts[1..], a);
    }
  }

  lemma {:induction false} NoneDue(ts: seq<Timer>, a: Action)
    ensures DueOf(ts, a).None? <==> Count(ts, a) == 0
  {
    if ts != [] {
      NoneDue(ts[1..], a);
    }
  }

  /** Some `a` falls due no later than `limit`. */
  ghost predicate Pending(ts: seq<Timer>, a: Action, limit: int) {
    ts != [] && ((ts[0].action == a && ts[0].due <= limit) || Pending(ts[1..], a, limit))
  }

  /** Measures what is left to do until a deadline. */
  ghost function Work(ts: seq<Timer>, until: int): nat {
    if ts == [] then 0 else Work(ts[1..], until) + if ts[0].due <= until then until + 1 - ts[0].due else 0
  }

  lemma {:induction false} InsertedKeeps(ts: seq<Timer>, t: Timer)
    requires Sorted(ts)
    ensures Sorted(Inserted(ts, t)) && multiset(Inserted(ts, t)) == multiset(ts) + multiset{t}
  {
    if ts != [] && ts[0].due <= t.due {
      hide Sorted;
      SortedTail(ts);
      InsertedKeeps(ts[1..], t);
      var rest := Inserted(ts[1..], t);
      assert ts == [ts[0]] + ts[1..];
      forall j | 0 <= j < |rest| ensures ts[0].due <= rest[j].due {
        assert rest[j] in multiset(rest);
      }
      SortedPush(ts[0], rest);
    }
  }

  lemma SortedTail(ts: seq<Timer>)
    requires Sorted(ts) && ts != []
    ensures Sorted(ts[1..]) && forall t :: t in multiset(ts[1..]) ==> ts[0].due <= t.due
  {
  }

  lemma SortedPush(t: Timer, ts: seq<Timer>)
    requires Sorted(ts) && forall j :: 0 <= j < |ts| ==> t.due <= ts[j].due
    ensures Sorted([t] + ts)
  {
  }

  lemma {:induction false} InsertedCounts(ts: seq<Timer>, t: Timer, a: Action)
    ensures Count(Inserted(ts, t), a) == Count(ts, a) + if t.action == a then 1 else 0
  {
    if ts != [] && ts[0].due <= t.due {
      InsertedCounts(ts[1..], t, a);
    }
  }

  lemma {:induction false} InsertedWorks(ts: seq<Timer>, t: Timer, until: int)
    ensures Work(Inserted(ts, t), until) == Work(ts, until) + if t.due <= until then until + 1 - t.due else 0
  {
    if ts != [] && ts[0].due <= t.due {
      InsertedWorks(ts[1..], t, until);
    }
  }

  lemma {:induction false} InsertedPends(ts: seq<Timer>, t: Timer, a: Action, limit: int)
    ensures Pending(Inserted(ts, t), a, limit) <==> Pending(ts, a, limit) || (t.action == a && t.due <= limit)
  {
    if ts != [] && ts[0].due <= t.due {
      InsertedPends(ts[1..], t, a, limit);
    }
  }

  lemma {:induction false} CancelledKeeps(ts: seq<Timer>, a: Action)
    requires Sorted(ts)
    ensures Sorted(Cancelled(ts, a)) && forall t :: t in Cancelled(ts, a) ==> t in ts
  {
    hide Sorted;
    if ts != [] {
      SortedTail(ts);
      if ts[0].action != a {
        CancelledKeeps(ts[1..], a);
        var rest := Cancelled(ts[1..], a);
        forall j | 0 <= j < |rest| ensures ts[0].due <= rest[j].due {
          assert rest[j] in ts[1..];
        }
        SortedPush(ts[0], rest);
      }
    }
  }

  lemma {:induction false} CancelledCounts(ts: seq<Timer>, a: Action, b: Action)
    ensures Count(Cancelled(ts, a), b) == if a == b && Count(ts, b) > 0 then Count(ts, b) - 1 else Count(ts, b)
  {
    if ts != [] && ts[0].action != a {
      CancelledCounts(ts[1..], a, b);
    }
  }

  lemma {:induction false} CancelledPends(ts: seq<Timer>, a: Action, b: Action, limit: int)
    requires a != b
    ensures Pending(Cancelled(ts, a), b, limit) <==> Pending(ts, b, limit)
  {
    if ts != [] && ts[0].action != a {
      CancelledPends(ts[1..], a, b, limit);
    }
  }

  lemma {:induction false} PendsLater(ts: seq<Timer>, a: Action, limit: int, later: int)
    requires limit <= later && Pending(ts, a, limit)
    ensures Pending(ts, a, later) && Count(ts, a) > 0
  {
    if ts[0].action != a || ts[0].due > limit {
      PendsLater(ts[1..], a, limit, later);
    }
  }

  lemma {:induction false} NothingDue(ts: seq<Timer>, a: Action, limit: int)
    requires Sorted(ts) && (ts == [] || limit < ts[0].due)
    ensures !Pending(ts, a, limit)
  {
    if ts != [] {
      NothingDue(ts[1..], a, limit);
    }
  }

  lemma {:induction false} InsertedAt(ts: seq<Timer>, t: Timer, i: nat)
    requires i <= |ts| && (forall j :: 0 <= j < i ==> ts[j].due <= t.due) && (i < |ts| ==> t.due < ts[i].due)
    ensures Inserted(ts, t) == ts[..i] + [t] + ts[i..]
  {
    if i > 0 {
      InsertedAt(ts[1..], t, i - 1);
    }
  }

  lemma {:induction false} CancelledAt(ts: seq<Timer>, a: Action, i: nat)
    requires i <= |ts| && (forall j :: 0 <= j < i ==> ts[j].action != a) && (i < |ts| ==> ts[i].action == a)
    ensures Cancelled(ts, a) == if i < |ts| then ts[..i] + ts[i + 1..] else ts
  {
    if i > 0 {
      CancelledAt(ts[1..], a, i - 1);
    }
  }

  class Loop {
    var now: int
    var timers: seq<Timer>

    constructor ()
      ensures now == 0 && timers == []
    {
      now, timers := 0, [];
    }

    /** aos_post_delayed_action: behind everything due no later. */
    method Post(ms: nat, action: Action)
      requires Sorted(timers)
      modifies this`timers
      ensures Sorted(timers) && timers == Inserted(old(timers), Timer(now + ms, action))
    {
      hide Sorted, Inserted;
      var t := Timer(now + ms, action);
      var i := 0;
      while i < |timers| && timers[i].due <= t.due
        invariant 0 <= i <= |timers|
        invariant forall j {:trigger timers[j]} :: 0 <= j < i ==> timers[j].due <= t.due
      {
        i := i + 1;
      }
      InsertedKeeps(timers, t);
      InsertedAt(timers, t, i);
      timers := timers[..i] + [t] + timers[i..];
    }

    /** aos_cancel_delayed_action with -1 for the delay. */
    method Cancel(action: Action)
      requires Sorted(timers)
      modifies this`timers
      ensures Sorted(timers) && timers == Cancelled(old(timers), action)
    {
      hide Sorted, Cancelled;
      CancelledKeeps(timers, action);
      var i := 0;
      while i < |timers| && timers[i].action != action
        invariant 0 <= i <= |timers|
        invariant forall j {:trigger timers[j]} :: 0 <= j < i ==> timers[j].action != action
      {
        i := i + 1;
      }
      CancelledAt(timers, action, i);
      if i < |timers| {
        timers := timers[..i] + timers[i + 1..];
      }
    }
  }
}
