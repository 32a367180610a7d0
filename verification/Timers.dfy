/** The fixed-slot timer queue of the two state machines. */
module Timers {
  import opened Wrappers
  import opened Fields

  datatype TimerKind = AliveRefresh | InitialAlive | SearchReply | SearchRetransmit | CacheExpiry

  datatype Timer = Timer(fireAt: Nanos, kind: TimerKind)

  type Slot = Option<Timer>

  // ---------- the queue as a value ----------

  predicate Holds(x: Slot, k: TimerKind) {
    x.Some? && x.value.kind == k
  }

  // The first slot that holds kind `k`, or |s|.
  function SlotOf(s: seq<Slot>, k: TimerKind): (i: nat)
    ensures i <= |s|
    ensures forall j | 0 <= j < i :: !Holds(s[j], k)
    ensures i < |s| ==> Holds(s[i], k)
  {
    if s == [] || Holds(s[0], k) then 0 else 1 + SlotOf(s[1..], k)
  }

  // The first empty slot, or |s|.
  function FreeSlot(s: seq<Slot>): (i: nat)
    ensures i <= |s|
    ensures forall j | 0 <= j < i :: s[j].Some?
    ensures i < |s| ==> s[i].None?
  {
    if s == [] || s[0].None? then 0 else 1 + FreeSlot(s[1..])
  }

  // The last of the slots that fire furthest in the future.
  function FurthestSlot(s: seq<Slot>): (i: nat)
    requires |s| > 0 && forall j | 0 <= j < |s| :: s[j].Some?
    ensures i < |s|
    ensures forall j | 0 <= j < |s| :: s[j].value.fireAt <= s[i].value.fireAt
    ensures forall j | i < j < |s| :: s[j].value.fireAt < s[i].value.fireAt
  {
    var n := |s| - 1;
    if n == 0 then 0
    else
      var i := FurthestSlot(s[..n]);
      if s[i].value.fireAt <= s[n].value.fireAt then n else i
  }

  function SetTimer(s: seq<Slot>, t: Timer): (r: seq<Slot>)
    ensures |r| == |s|
  {
    var i := SlotOf(s, t.kind);
    var j := FreeSlot(s);
    if i < |s| then s[i := Some(t)]
    else if j < |s| then s[j := Some(t)]
    else if |s| > 0 then s[FurthestSlot(s) := Some(t)]
    else s
  }

  function CancelTimer(s: seq<Slot>, k: TimerKind): (r: seq<Slot>)
    ensures |r| == |s|
  {
    seq(|s|, i requires 0 <= i < |s| => if Holds(s[i], k) then None else s[i])
  }

  predicate Due(x: Slot, now: Nanos) {
    x.Some? && x.value.fireAt <= now
  }

  // The due kinds, in slot order.
  function DueKinds(s: seq<Slot>, now: Nanos): (r: seq<TimerKind>)
    ensures |r| <= |s|
  {
    if s == [] then []
    else (if Due(s[0], now) then [s[0].value.kind] else []) + DueKinds(s[1..], now)
  }

  function ClearDue(s: seq<Slot>, now: Nanos): (r: seq<Slot>)
    ensures |r| == |s|
  {
    seq(|s|, i requires 0 <= i < |s| => if Due(s[i], now) then None else s[i])
  }

  // ---------- what the queue means: at most one deadline per kind ----------

  function Deadline(s: seq<Slot>, k: TimerKind): Option<Nanos> {
    var i := SlotOf(s, k);
    if i < |s| then Some(s[i].value.fireAt) else None
  }

  ghost predicate OnePerKind(s: seq<Slot>) {
    forall i, j | 0 <= i < j < |s| && s[i].Some? && s[j].Some? :: s[i].value.kind != s[j].value.kind
  }

  ghost predicate KindsWithin(s: seq<Slot>, kinds: set<TimerKind>) {
    forall i | 0 <= i < |s| && s[i].Some? :: s[i].value.kind in kinds
  }

  lemma DeadlineAt(s: seq<Slot>, i: nat)
    requires OnePerKind(s) && i < |s| && s[i].Some?
    ensures Deadline(s, s[i].value.kind) == Some(s[i].value.fireAt)
  {
    hide SlotOf;
    var j := SlotOf(s, s[i].value.kind);
  }

  function KindsOf(s: seq<Slot>): set<TimerKind> {
    if s == [] then {} else KindsOf(s[1..]) + if s[0].Some? then {s[0].value.kind} else {}
  }

  // Full queues hold as many kinds as slots.
  lemma {:induction false} FullQueue(s: seq<Slot>)
    requires OnePerKind(s) && forall i | 0 <= i < |s| :: s[i].Some?
    ensures |KindsOf(s)| == |s|
    ensures forall k :: k in KindsOf(s) <==> exists i :: 0 <= i < |s| && Holds(s[i], k)
  {
    if s != [] {
      FullQueue(s[1..]);
      forall k
        ensures k in KindsOf(s) <==> exists i :: 0 <= i < |s| && Holds(s[i], k)
      {
        if i :| 0 <= i < |s| && Holds(s[i], k) {
          assert i > 0 ==> Holds(s[1..][i - 1], k);
        }
        if k in KindsOf(s[1..]) {
          var j :| 0 <= j < |s[1..]| && Holds(s[1..][j], k);
          assert Holds(s[j + 1], k);
        }
      }
      assert s[0].value.kind !in KindsOf(s[1..]);
    }
  }

  lemma SubsetSize(a: set<TimerKind>, b: set<TimerKind>)
    requires a <= b
    ensures |a| <= |b|
  {
    assert b == a + (b - a);
  }

  // With a slot for every kind in use, a new kind always finds an empty one.
  lemma RoomForKind(s: seq<Slot>, kinds: set<TimerKind>, k: TimerKind)
    requires OnePerKind(s) && KindsWithin(s, kinds) && k in kinds && |kinds| <= |s|
    ensures SlotOf(s, k) < |s| || FreeSlot(s) < |s|
  {
    hide SlotOf, FreeSlot, KindsOf;
    if SlotOf(s, k) == |s| && FreeSlot(s) == |s| {
      FullQueue(s);
      assert KindsOf(s) <= kinds - {k};
      SubsetSize(KindsOf(s), kinds - {k});
    }
  }

  /** Setting a timer replaces that kind's deadline and no other: nothing is ever evicted. */
  lemma SetTimerMeans(s: seq<Slot>, kinds: set<TimerKind>, t: Timer, k: TimerKind)
    requires OnePerKind(s) && KindsWithin(s, kinds) && t.kind in kinds && |kinds| <= |s|
    ensures OnePerKind(SetTimer(s, t)) && KindsWithin(SetTimer(s, t), kinds)
    ensures Deadline(SetTimer(s, t), k) == if k == t.kind then Some(t.fireAt) else Deadline(s, k)
  {
    hide SlotOf, FreeSlot;
    RoomForKind(s, kinds, t.kind);
    var r := SetTimer(s, t);
    var i := SlotOf(r, k);
    var j := SlotOf(s, k);
    if k == t.kind {
      var at := if SlotOf(s, k) < |s| then SlotOf(s, k) else FreeSlot(s);
      assert Holds(r[at], k);
    } else if j < |s| {
      assert r[j] == s[j];
      DeadlineAt(r, j);
    }
  }

  lemma CancelTimerMeans(s: seq<Slot>, kinds: set<TimerKind>, k: TimerKind, other: TimerKind)
    requires OnePerKind(s) && KindsWithin(s, kinds)
    ensures OnePerKind(CancelTimer(s, k)) && KindsWithin(CancelTimer(s, k), kinds)
    ensures Deadline(CancelTimer(s, k), other) == if other == k then None else Deadline(s, other)
  {
    hide SlotOf;
    var r := CancelTimer(s, k);
    var i, j := SlotOf(r, other), SlotOf(s, other);
    if j < |s| && other != k {
      assert r[j] == s[j];
      DeadlineAt(r, j);
    }
  }

  /** Cancelling clears every slot of the kind and no other, whatever the queue holds. */
  lemma CancelTimerClears(s: seq<Slot>, k: TimerKind, i: nat)
    requires i < |s|
    ensures CancelTimer(s, k)[i] == if s[i].Some? && s[i].value.kind == k then None else s[i]
  {
  }

  lemma {:induction false} DueKindsAre(s: seq<Slot>, now: Nanos, k: TimerKind)
    ensures k in DueKinds(s, now) <==> exists i :: 0 <= i < |s| && Due(s[i], now) && s[i].value.kind == k
  {
    if s != [] {
      DueKindsAre(s[1..], now, k);
      if i :| 0 <= i < |s| && Due(s[i], now) && s[i].value.kind == k {
        assert i > 0 ==> s[1..][i - 1] == s[i];
      }
      if j :| 0 <= j < |s[1..]| && Due(s[1..][j], now) && s[1..][j].value.kind == k {
        assert s[1..][j] == s[j + 1];
      }
    }
  }

  lemma {:induction false} DueKindsDistinct(s: seq<Slot>, now: Nanos)
    requires OnePerKind(s)
    ensures forall i, j | 0 <= i < j < |DueKinds(s, now)| :: DueKinds(s, now)[i] != DueKinds(s, now)[j]
  {
    if s != [] {
      DueKindsDistinct(s[1..], now);
      if Due(s[0], now) {
        DueKindsAre(s[1..], now, s[0].value.kind);
      }
    }
  }

  /** Draining yields exactly the due kinds, each once, and leaves every other deadline, all later than now. */
  lemma DrainMeans(s: seq<Slot>, kinds: set<TimerKind>, now: Nanos, k: TimerKind)
    requires OnePerKind(s) && KindsWithin(s, kinds)
    ensures OnePerKind(ClearDue(s, now)) && KindsWithin(ClearDue(s, now), kinds)
    ensures forall i, j | 0 <= i < j < |DueKinds(s, now)| :: DueKinds(s, now)[i] != DueKinds(s, now)[j]
    ensures k in DueKinds(s, now) <==> Deadline(s, k).Some? && Deadline(s, k).value <= now
    ensures Deadline(ClearDue(s, now), k) == if k in DueKinds(s, now) then None else Deadline(s, k)
  {
    hide SlotOf, DueKinds;
    DueKindsDistinct(s, now);
    DueKindsAre(s, now, k);
    var r := ClearDue(s, now);
    var i, j := SlotOf(r, k), SlotOf(s, k);
    if j < |s| {
      assert Holds(s[j], k);
      DeadlineAt(s, j);
      if !Due(s[j], now) {
        assert r[j] == s[j];
        DeadlineAt(r, j);
      }
    }
    if i < |s| {
      assert r[i] == s[i];
    }
  }

  /** Due kinds come in the order of their slots, every due slot once. */
  lemma {:induction false} DueInOrder(s: seq<Slot>, now: Nanos) returns (at: seq<nat>)
    ensures |at| == |DueKinds(s, now)|
    ensures forall j | 0 <= j < |at| :: at[j] < |s| && Due(s[at[j]], now) && DueKinds(s, now)[j] == s[at[j]].value.kind
    ensures forall i, j | 0 <= i < j < |at| :: at[i] < at[j]
    ensures forall i | 0 <= i < |s| && Due(s[i], now) :: i in at
  {
    at := [];
    if s != [] {
      var n := |s| - 1;
      at := DueInOrder(s[..n], now);
      DueSnoc(s[..n], s[n], now);
      assert s == s[..n] + [s[n]];
      if Due(s[n], now) {
        at := at + [n];
      }
    }
  }

  lemma {:induction false} DueSnoc(s: seq<Slot>, x: Slot, now: Nanos)
    ensures DueKinds(s + [x], now) == DueKinds(s, now) + if Due(x, now) then [x.value.kind] else []
  {
    hide Due;
    if s == [] {
      assert s + [x] == [x];
      DueAlone(x, now);
    } else {
      var rest := s[1..];
      assert s + [x] == [s[0]] + (rest + [x]) && s == [s[0]] + rest;
      DueSnoc(rest, x, now);
      DueCons(s[0], rest, now);
      DueCons(s[0], rest + [x], now);
    }
  }

  lemma DueAlone(x: Slot, now: Nanos)
    ensures DueKinds([x], now) == if Due(x, now) then [x.value.kind] else []
  {
  }

  lemma DueCons(x: Slot, s: seq<Slot>, now: Nanos)
    ensures DueKinds([x] + s, now) == (if Due(x, now) then [x.value.kind] else []) + DueKinds(s, now)
  {
    hide Due;
    assert ([x] + s)[0] == x && ([x] + s)[1..] == s;
  }

  /** Were there ever too few slots, the timer furthest in the future would make way, the last of equals. */
  lemma FullQueueEvicts(s: seq<Slot>, t: Timer) returns (i: nat)
    requires s != [] && forall j | 0 <= j < |s| :: s[j].Some? && s[j].value.kind != t.kind
    ensures i < |s| && SetTimer(s, t) == s[i := Some(t)]
    ensures forall j | 0 <= j < |s| :: s[j].value.fireAt <= s[i].value.fireAt
    ensures forall j | i < j < |s| :: s[j].value.fireAt < s[i].value.fireAt
  {
    hide SlotOf, FreeSlot;
    i := FurthestSlot(s);
  }

  // ---------- the earliest deadline ----------

  function NextTimeout(s: seq<Slot>): (r: Option<Nanos>)
    ensures r.None? <==> forall i | 0 <= i < |s| :: s[i].None?
    ensures r.Some? ==> forall i | 0 <= i < |s| && s[i].Some? :: r.value <= s[i].value.fireAt
    ensures r.Some? ==> exists i :: 0 <= i < |s| && s[i].Some? && s[i].value.fireAt == r.value
  {
    if s == [] then None
    else
      var rest := NextTimeout(s[1..]);
      assert forall i | 1 <= i < |s| :: s[i] == s[1..][i - 1];
      assert forall i | 0 <= i < |s| - 1 :: s[1..][i] == s[i + 1];
      if s[0].None? then rest
      else if rest.None? || s[0].value.fireAt <= rest.value then Some(s[0].value.fireAt)
      else rest
  }

  lemma NextTimeoutAfterDrain(s: seq<Slot>, now: Nanos)
    ensures NextTimeout(ClearDue(s, now)).Some? ==> NextTimeout(ClearDue(s, now)).value > now
  {
    hide NextTimeout;
  }

  lemma NextTimeoutIsEarliest(s: seq<Slot>, k: TimerKind)
    ensures Deadline(s, k).Some? ==> NextTimeout(s).Some? && NextTimeout(s).value <= Deadline(s, k).value
  {
    hide NextTimeout, SlotOf;
  }

  // ---------- the queue as an object ----------

  class TimerQueue {
    const entries: array<Slot>

    constructor (n: nat)
      ensures fresh(entries) && entries.Length == n
      ensures forall i | 0 <= i < n :: entries[i] == None
    {
      entries := new Slot[n](_ => None);
    }

    method Set(t: Timer)
      modifies entries
      ensures entries[..] == SetTimer(old(entries[..]), t)
    {
      hide SlotOf, FreeSlot, FurthestSlot;
      // Replace an existing entry of the same kind.
      for i := 0 to entries.Length
        invariant unchanged(entries)
        invariant forall j | 0 <= j < i :: !Holds(entries[j], t.kind)
      {
        if entries[i].Some? && entries[i].value.kind == t.kind {
          entries[i] := Some(t);
          return;
        }
      }
      // Use the first empty slot.
      for i := 0 to entries.Length
        invariant unchanged(entries)
        invariant forall j | 0 <= j < i :: entries[j].Some?
      {
        if entries[i].None? {
          entries[i] := Some(t);
          return;
        }
      }
      // No room: overwrite the least urgent timer.
      if entries.Length > 0 {
        var best := 0;
        for i := 1 to entries.Length
          invariant unchanged(entries)
          invariant best < i
          invariant forall j | 0 <= j < i :: entries[j].value.fireAt <= entries[best].value.fireAt
          invariant forall j | best < j < i :: entries[j].value.fireAt < entries[best].value.fireAt
        {
          if entries[best].value.fireAt <= entries[i].value.fireAt {
            best := i;
          }
        }
        assert best == FurthestSlot(entries[..]);
        entries[best] := Some(t);
      }
    }

    method Cancel(k: TimerKind)
      modifies entries
      ensures entries[..] == CancelTimer(old(entries[..]), k)
    {
      for i := 0 to entries.Length
        invariant forall j | 0 <= j < i :: entries[j] == if Holds(old(entries[j]), k) then None else old(entries[j])
        invariant forall j | i <= j < entries.Length :: entries[j] == old(entries[j])
      {
        if entries[i].Some? && entries[i].value.kind == k {
          entries[i] := None;
        }
      }
    }

    method NextDeadline() returns (r: Option<Nanos>)
      ensures r == NextTimeout(entries[..])
    {
      hide NextTimeout;
      r := None;
      for i := 0 to entries.Length
        invariant r.None? ==> forall j | 0 <= j < i :: entries[j].None?
        invariant r.Some? ==> forall j | 0 <= j < i && entries[j].Some? :: r.value <= entries[j].value.fireAt
        invariant r.Some? ==> exists j :: 0 <= j < i && entries[j].Some? && entries[j].value.fireAt == r.value
      {
        if entries[i].Some? && (r.None? || entries[i].value.fireAt < r.value) {
          r := Some(entries[i].value.fireAt);
        }
      }
    }

    // Removes the first due timer, if there is one.
    method TakeDue(now: Nanos) returns (k: Option<TimerKind>)
      modifies entries
      ensures k.None? ==>
        unchanged(entries) && DueKinds(entries[..], now) == [] && ClearDue(entries[..], now) == entries[..]
      ensures k.Some? ==>
        && old(DueKinds(entries[..], now)) == [k.value] + DueKinds(entries[..], now)
        && old(ClearDue(entries[..], now)) == ClearDue(entries[..], now)
        && Timers(entries[..]) < old(Timers(entries[..]))
    {
      for i := 0 to entries.Length
        invariant unchanged(entries)
        invariant forall j | 0 <= j < i :: !Due(entries[j], now)
      {
        if entries[i].Some? && entries[i].value.fireAt <= now {
          var kind := entries[i].value.kind;
          TakeFirst(entries[..], now, i);
          entries[i] := None;
          assert entries[..] == old(entries[..])[i := None];
          return Some(kind);
        }
      }
      NothingDue(entries[..], now);
      return None;
    }

    /** Removes and returns the kinds of all due timers. */
    method DrainExpired(now: Nanos) returns (kinds: seq<TimerKind>)
      modifies entries
      ensures kinds == DueKinds(old(entries[..]), now)
      ensures entries[..] == ClearDue(old(entries[..]), now)
    {
      kinds := [];
      while true
        invariant kinds + DueKinds(entries[..], now) == old(DueKinds(entries[..], now))
        invariant ClearDue(entries[..], now) == old(ClearDue(entries[..], now))
        decreases Timers(entries[..])
      {
        ghost var before := entries[..];
        var k := TakeDue(now);
        if k.None? {
          assert entries[..] == before;
          assert kinds + [] == kinds;
          return;
        }
        kinds := kinds + [k.value];
      }
    }
  }

  // The number of timers set.
  function Timers(s: seq<Slot>): nat {
    if s == [] then 0 else (if s[0].Some? then 1 else 0) + Timers(s[1..])
  }

  lemma {:induction false} TakeFirst(s: seq<Slot>, now: Nanos, i: nat)
    requires i < |s| && Due(s[i], now) && forall j | 0 <= j < i :: !Due(s[j], now)
    ensures DueKinds(s, now) == [s[i].value.kind] + DueKinds(s[i := None], now)
    ensures ClearDue(s, now) == ClearDue(s[i := None], now)
    ensures Timers(s[i := None]) < Timers(s)
  {
    if i == 0 {
      assert s[0 := None][1..] == s[1..];
    } else {
      TakeFirst(s[1..], now, i - 1);
      assert s[i := None][1..] == s[1..][i - 1 := None];
    }
  }

  lemma NothingDue(s: seq<Slot>, now: Nanos)
    requires forall j | 0 <= j < |s| :: !Due(s[j], now)
    ensures DueKinds(s, now) == [] && ClearDue(s, now) == s
  {
  }
}
