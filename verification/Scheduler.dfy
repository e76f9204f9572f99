/** The API client's event queue: at most one event of each kind, kept in a vector whose
    order a removal scrambles, and popped soonest first. Times are milliseconds. */
module Scheduler {
  import opened Prelude

  datatype EventKind = PollStatus | PollCurrentCook | PollRecipes | ApiStart | ApiStop | ApiNextStage {
    predicate IsCommand() { ApiStart? || ApiStop? || ApiNextStage? }

    /** Lower sorts first; commands outrank polls. */
    function Priority(): nat { if IsCommand() then 0 else 1 }
  }

  datatype ScheduledEvent = ScheduledEvent(kind: EventKind, executionTime: nat, priority: nat)

  datatype EnqueueMode = PreferEarlier | Replace

  const EVENT_QUEUE_CAPACITY: nat := 16

  /** What the queue stands for: when each pending kind is due. */
  type Schedule = map<EventKind, nat>

  function Enqueued(m: Schedule, kind: EventKind, time: nat, mode: EnqueueMode): Schedule {
    if kind in m && mode == PreferEarlier then m[kind := Min(m[kind], time)] else m[kind := time]
  }

  /** Enqueuing moves only its own kind: to the time asked, or in the one mode to the earlier
      of that and the time it had. */
  lemma EnqueuedMeans(m: Schedule, kind: EventKind, time: nat, mode: EnqueueMode)
    ensures var m' := Enqueued(m, kind, time, mode);
      && m'.Keys == m.Keys + {kind} && (forall k <- m :: k != kind ==> m'[k] == m[k])
      && (mode == Replace || kind !in m ==> m'[kind] == time)
      && (mode == PreferEarlier && kind in m ==>
            m'[kind] <= time && m'[kind] <= m[kind] && (m'[kind] == time || m'[kind] == m[kind]))
  {
  }

  /** No pending event comes before `kind`: none is due earlier, and if it is a poll, no
      command is due even at the same instant. */
  ghost predicate Soonest(m: Schedule, kind: EventKind) {
    && kind in m && (forall k <- m :: m[kind] <= m[k])
    && (!kind.IsCommand() ==> forall k <- m :: k.IsCommand() ==> m[kind] < m[k])
  }

  // ---- The vector ----

  ghost predicate Distinct(events: seq<ScheduledEvent>) {
    forall i, j :: 0 <= i < j < |events| ==> events[i].kind != events[j].kind
  }

  predicate Holds(events: seq<ScheduledEvent>, kind: EventKind) {
    exists i :: 0 <= i < |events| && events[i].kind == kind
  }

  /** The vector lists exactly the schedule. */
  ghost predicate Lists(events: seq<ScheduledEvent>, m: Schedule) {
    && Distinct(events)
    && (forall e <- events :: e.kind in m && m[e.kind] == e.executionTime && e.priority == e.kind.Priority())
    && (forall k <- m :: Holds(events, k))
  }

  lemma KindsBounded(events: seq<ScheduledEvent>)
    requires Distinct(events)
    ensures |events| <= 6
  {
    KindsCounted(events);
    SixKinds(Kinds(events));
  }

  lemma SixKinds(kinds: set<EventKind>)
    ensures |kinds| <= 6
  {
    var all := {PollStatus, PollCurrentCook, PollRecipes, ApiStart, ApiStop, ApiNextStage};
    forall k | k in kinds ensures k in all {
      match k
      case PollStatus =>
      case PollCurrentCook =>
      case PollRecipes =>
      case ApiStart =>
      case ApiStop =>
      case ApiNextStage =>
    }
    SubsetSize(kinds, all);
  }

  ghost function Kinds(events: seq<ScheduledEvent>): set<EventKind> {
    set i | 0 <= i < |events| :: events[i].kind
  }

  lemma {:induction false} KindsCounted(events: seq<ScheduledEvent>)
    requires Distinct(events)
    ensures |Kinds(events)| == |events|
  {
    if events == [] {
      assert Kinds(events) == {};
    } else {
      var (init, last) := (events[..|events| - 1], events[|events| - 1]);
      KindsCounted(init);
      assert Kinds(events) == Kinds(init) + {last.kind};
      assert last.kind !in Kinds(init);
    }
  }

  lemma {:induction false} SubsetSize<T>(a: set<T>, b: set<T>)
    requires a <= b
    ensures |a| <= |b|
    decreases a
  {
    if a != {} {
      var x :| x in a;
      SubsetSize(a - {x}, b - {x});
    }
  }

  lemma Replaced(events: seq<ScheduledEvent>, m: Schedule, i: nat, time: nat)
    requires Lists(events, m) && i < |events|
    ensures Lists(events[i := events[i].(executionTime := time)], m[events[i].kind := time])
  {
    var events' := events[i := events[i].(executionTime := time)];
    var m' := m[events[i].kind := time];
    forall k | k in m' ensures Holds(events', k) {
      assert Holds(events, k);
      var j :| 0 <= j < |events| && events[j].kind == k;
      assert events'[j].kind == k;
    }
    forall e | e in events' ensures e.kind in m' && m'[e.kind] == e.executionTime && e.priority == e.kind.Priority() {
      var j :| 0 <= j < |events'| && events'[j] == e;
      assert events[j] in events;
    }
  }

  lemma Pushed(events: seq<ScheduledEvent>, m: Schedule, kind: EventKind, time: nat)
    requires Lists(events, m) && !Holds(events, kind)
    ensures Lists(events + [ScheduledEvent(kind, time, kind.Priority())], m[kind := time])
  {
    var events' := events + [ScheduledEvent(kind, time, kind.Priority())];
    forall k | k in m[kind := time] ensures Holds(events', k) {
      if k == kind {
        assert events'[|events|].kind == k;
      } else {
        assert Holds(events, k);
        var j :| 0 <= j < |events| && events[j].kind == k;
        assert events'[j].kind == k;
      }
    }
    forall e | e in events ensures e.kind != kind {
      var j :| 0 <= j < |events| && events[j] == e;
    }
  }

  /** The vector with entry `i` gone and the last entry in its place. */
  function SwapRemoved(events: seq<ScheduledEvent>, i: nat): seq<ScheduledEvent>
    requires i < |events|
  {
    events[i := events[|events| - 1]][..|events| - 1]
  }

  lemma SwapRemovedLists(events: seq<ScheduledEvent>, m: Schedule, i: nat)
    requires Lists(events, m) && i < |events|
    ensures Lists(SwapRemoved(events, i), m - {events[i].kind})
  {
    var events', last := SwapRemoved(events, i), |events| - 1;
    forall j | 0 <= j < |events'| ensures events'[j] == events[if j == i then last else j] {
    }
    forall e | e in events' ensures e in events && e.kind != events[i].kind {
      var j :| 0 <= j < |events'| && events'[j] == e;
      assert e == events[if j == i then last else j];
    }
    forall k | k in m - {events[i].kind} ensures Holds(events', k) {
      assert Holds(events, k);
      var j :| 0 <= j < |events| && events[j].kind == k;
      assert events'[if j == last then i else j].kind == k;
    }
  }

  class EventQueue {
    var events: seq<ScheduledEvent>
    /** What the vector stands for. */
    ghost var schedule: Schedule

    ghost predicate Valid() reads this { Lists(events, schedule) }

    constructor ()
      ensures Valid() && schedule == map[]
    {
      events, schedule := [], map[];
    }

    method Find(kind: EventKind) returns (idx: Option<nat>)
      requires Valid()
      ensures idx.None? ==> !Holds(events, kind) && kind !in schedule
      ensures idx.Some? ==> idx.value < |events| && events[idx.value].kind == kind && kind in schedule
      ensures idx.Some? ==> events[idx.value].executionTime == schedule[kind]
    {
      for i := 0 to |events|
        invariant forall j :: 0 <= j < i ==> events[j].kind != kind
      {
        if events[i].kind == kind {
          assert events[i] in events;
          return Some(i);
        }
      }
      idx := None;
    }

    /** Insert, or update the entry of that kind. With distinct kinds there is always room,
        so the overflow the source reports cannot happen. */
    method Enqueue(kind: EventKind, executionTime: nat, mode: EnqueueMode) returns (overflow: bool)
      requires Valid()
      modifies this
      ensures Valid() && !overflow
      ensures schedule == Enqueued(old(schedule), kind, executionTime, mode)
    {
      var existing := Find(kind);
      if existing.Some? {
        var i := existing.value;
        var time := match mode
          case PreferEarlier => Min(events[i].executionTime, executionTime)
          case Replace => executionTime;
        Replaced(events, schedule, i, time);
        events := events[i := events[i].(executionTime := time)];
        schedule := schedule[kind := time];
        return false;
      }
      KindsBounded(events);
      overflow := |events| == EVENT_QUEUE_CAPACITY;
      if !overflow {
        Pushed(events, schedule, kind, executionTime);
        events := events + [ScheduledEvent(kind, executionTime, kind.Priority())];
        schedule := schedule[kind := executionTime];
      }
    }

    static predicate Before(a: ScheduledEvent, b: ScheduledEvent) {
      a.executionTime < b.executionTime || (a.executionTime == b.executionTime && a.priority < b.priority)
    }

    /** The first of the soonest entries in vector order. */
    method SoonestIndex() returns (idx: Option<nat>)
      requires Valid()
      ensures idx.None? <==> schedule == map[]
      ensures idx.Some? ==> idx.value < |events| && Soonest(schedule, events[idx.value].kind)
      ensures idx.Some? ==> forall j :: 0 <= j < idx.value ==> Before(events[idx.value], events[j])
    {
      if events == [] {
        return None;
      }
      var best := 0;
      for i := 1 to |events|
        invariant best < |events|
        invariant forall j :: 0 <= j < i ==> !Before(events[j], events[best])
        invariant forall j :: 0 <= j < best ==> Before(events[best], events[j])
      {
        if Before(events[i], events[best]) {
          best := i;
        }
      }
      assert events[best] in events;
      forall k | k in schedule
        ensures var kind := events[best].kind;
          schedule[kind] <= schedule[k] && (!kind.IsCommand() && k.IsCommand() ==> schedule[kind] < schedule[k])
      {
        assert Holds(events, k);
        var j :| 0 <= j < |events| && events[j].kind == k;
        assert events[j] in events && !Before(events[j], events[best]);
      }
      idx := Some(best);
    }

    method NextDueAt() returns (at: Option<nat>)
      requires Valid()
      ensures at.None? <==> schedule == map[]
      ensures at.Some? ==>
        (forall k <- schedule :: at.value <= schedule[k]) && exists k <- schedule :: schedule[k] == at.value
    {
      var idx := SoonestIndex();
      if idx.None? {
        return None;
      }
      assert events[idx.value] in events;
      at := Some(events[idx.value].executionTime);
    }

    method HasPending(kind: EventKind) returns (b: bool)
      requires Valid()
      ensures b <==> kind in schedule
    {
      b := exists i :: 0 <= i < |events| && events[i].kind == kind;
      assert b == Holds(events, kind);
      if b {
        var i :| 0 <= i < |events| && events[i].kind == kind;
        assert events[i] in events;
      }
    }

    /** Take out the soonest event, if it is due. */
    method PopDue(now: nat) returns (popped: Option<ScheduledEvent>)
      requires Valid()
      modifies this
      ensures Valid()
      ensures popped.None? <==> forall k <- old(schedule) :: old(schedule)[k] > now
      ensures popped.None? ==> schedule == old(schedule)
      ensures popped.Some? ==>
        var e := popped.value;
        && Soonest(old(schedule), e.kind) && old(schedule)[e.kind] == e.executionTime <= now
        && schedule == old(schedule) - {e.kind}
    {
      var idx := SoonestIndex();
      if idx.None? {
        return None;
      }
      var e := events[idx.value];
      assert e in events;
      if e.executionTime > now {
        return None;
      }
      SwapRemovedLists(events, schedule, idx.value);
      events := SwapRemoved(events, idx.value);
      schedule := schedule - {e.kind};
      popped := Some(e);
    }
  }
}
