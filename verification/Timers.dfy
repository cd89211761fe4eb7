/** Starting, stopping and expiring timers. */
module Timers {
  import opened Evt
  import opened TimerHeap
  import opened PendingQueue

  // ---- deadlines ----

  /** Advance a deadline by whole periods until it lies after `now`. */
  function NextDue(ts: int, repeat: int, now: int): (due: int)
    requires repeat > 0
    ensures due > now
    decreases now - ts
  {
    if ts > now then ts else NextDue(ts + repeat, repeat, now)
  }

  /** It is the old deadline plus the least multiple of the period that lies after `now`. */
  lemma {:induction false} NextDueIsLeast(ts: int, repeat: int, now: int) returns (k: nat)
    requires repeat > 0
    ensures NextDue(ts, repeat, now) == ts + k * repeat
    ensures forall m: nat :: m < k ==> ts + m * repeat <= now
    decreases now - ts
  {
    if ts > now {
      k := 0;
    } else {
      var j := NextDueIsLeast(ts + repeat, repeat, now);
      k := j + 1;
      assert k * repeat == j * repeat + repeat;
      forall m: nat | m < k ensures ts + m * repeat <= now {
        if m > 0 {
          assert ts + repeat + (m - 1) * repeat <= now;
          assert m * repeat == (m - 1) * repeat + repeat;
        }
      }
    }
  }

  // ---- a measure for the expiry loop ----

  /** How much expiry work a timer still causes. */
  function Lateness(ts: int, repeat: int, now: int): nat {
    if ts > now then 0 else if repeat > 0 then now - ts + 1 else 1
  }

  function Sum(w: seq<nat>): nat {
    if w == [] then 0 else w[0] + Sum(w[1..])
  }

  lemma {:induction false} SumDrops(w: seq<nat>, j: nat)
    requires j < |w| && w[j] > 0
    ensures Sum(w[j := w[j] - 1]) < Sum(w)
  {
    if j > 0 {
      SumDrops(w[1..], j - 1);
      assert w[j := w[j] - 1][1..] == w[1..][j - 1 := w[j] - 1];
    } else {
      assert w[0 := w[0] - 1][1..] == w[1..];
    }
  }

  /** The expiry work that each timer still causes. */
  ghost function Work(s: set<Event>, now: int): (w: map<Event, nat>)
    reads s`timestamp, s`repeat
    ensures w.Keys == s
  {
    map e: Event | e in s :: Lateness(e.timestamp, e.repeat, now)
  }

  /** Each entry of `work` bounds the work of the timer in the same place of `order`. */
  ghost predicate Budget(order: seq<Event?>, work: seq<nat>, w: map<Event, nat>) {
    && |order| == |work|
    && (forall e :: e in w.Keys ==> e in order)
    && (forall i :: 0 <= i < |order| && order[i] in w ==> w[order[i]] <= work[i])
  }

  lemma BudgetDrops(order: seq<Event?>, work: seq<nat>, w: map<Event, nat>, w': map<Event, nat>, x: Event)
    returns (work': seq<nat>)
    requires Budget(order, work, w) && x in w && w[x] > 0 && w'.Keys <= w.Keys
    requires forall e :: e in w' ==> if e == x then w'[e] < w[e] else w'[e] == w[e]
    ensures Budget(order, work', w') && Sum(work') < Sum(work)
  {
    var j :| 0 <= j < |order| && order[j] == x;
    SumDrops(work, j);
    work' := work[j := work[j] - 1];
  }

  /** The longest wait for events, in microseconds. */
  const INIT_POLL_US := 30000000

  // ---- the timers of a loop ----

  class TimerSet {
    var heap: array<Event?>
    var cnt: nat
    ghost var timers: set<Event>

    constructor (size: nat)
      requires size > 0
      ensures cnt == 0 && timers == {} && fresh(heap) && Heap(heap, cnt, timers)
    {
      heap := new Event?[size];
      cnt, timers := 0, {};
    }

    /** The heap holds the running timers; every event of the loop knows whether it is in it. */
    ghost predicate Valid(pend: Pending)
      reads this, heap, timers`timestamp, timers`heap_pos, timers`active, timers`priority, pend`queues, pend`known
      reads pend.known`pendpos, pend.known`priority, pend.known`active, pend.known`heap_pos
    {
      ValidFrom(pend, {}, 0, 0)
    }

    /**
     * Valid, except that the events in `ex` need not be marked active; while the pending queues are being
     * executed, what lies before slot `j` of priority `p` is done.
     */
    ghost predicate ValidFrom(pend: Pending, ex: set<Event>, p: nat, j: nat)
      reads this, heap, timers`timestamp, timers`heap_pos, timers`active, timers`priority, pend`queues, pend`known
      reads pend.known`pendpos, pend.known`priority, pend.known`active, pend.known`heap_pos
    {
      && pend.ValidFrom(p, j) && Heap(heap, cnt, timers) && timers <= pend.known
      && Running(timers - ex, |pend.queues|) && Tracked(pend.known) && pend.ActiveBut(ex)
    }

    static ghost predicate Running(s: set<Event>, n: int)
      reads s`active, s`priority
    {
      forall e :: e in s ==> e.active && e.priority < n
    }

    ghost predicate Tracked(known: set<Event>)
      reads this`timers, known`heap_pos
    {
      forall e :: e in known && e.heap_pos > 0 ==> e in timers
    }

    /** Make room for `need` slots, doubling the array. */
    method Reserve(need: nat)
      requires Heap(heap, cnt, timers)
      modifies this`heap
      ensures Heap(heap, cnt, timers) && heap.Length >= need && (heap == old(heap) || fresh(heap))
    {
      if need > heap.Length {
        var size := heap.Length;
        while size < need
          invariant size >= heap.Length
          decreases need - size
        {
          size := if size == 0 then 1 else 2 * size;
        }
        var bigger := new Event?[size](_ => null);
        for i := 0 to heap.Length
          invariant heap == old(heap)
          invariant forall j :: 0 <= j < i ==> bigger[j] == heap[j]
        {
          bigger[i] := heap[i];
        }
        SameOrder(heap[..], bigger[..], TimesOf(timers), cnt);
        heap := bigger;
      }
    }

    lemma SameOrder(s: Slots, t: Slots, key: Times, n: int)
      requires |s| <= |t| && n < |s| && (forall j :: 0 <= j < |s| ==> t[j] == s[j]) && HeapOrder(s, key, n)
      ensures HeapOrder(t, key, n)
    {
      forall j | 2 <= j <= n ensures AfterParent(t, key, j) {
        assert AfterParent(s, key, j);
      }
    }

    /** Start a timer, perhaps from a callback: its timestamp, relative until now, becomes absolute. */
    method Start(ev: Event, now: int, pend: Pending, ghost p: nat, ghost j: nat)
      requires ValidFrom(pend, if ev.active then {} else {ev}, p, j) && ev in pend.known
      requires ev.active || ev !in timers
      modifies this, heap, timers`heap_pos, ev`active, ev`priority, ev`timestamp, ev`heap_pos
      ensures ValidFrom(pend, {}, p, j) && (heap == old(heap) || fresh(heap)) && ev.active
      ensures if old(ev.active) then timers == old(timers) && ev.timestamp == old(ev.timestamp)
              else timers == old(timers) + {ev} && ev.timestamp == old(ev.timestamp) + now
      ensures ev.priority == if old(ev.active) || old(ev.priority) < |pend.queues| then old(ev.priority)
                             else |pend.queues| - 1
    {
      hide Heap, Pending.ValidFrom;
      if ev.active {
        return;
      }
      pend.StartEvent(ev, p, j);
      ev.timestamp := ev.timestamp + now;
      Enter(ev, pend, p, j);
    }

    method Enter(ev: Event, ghost pend: Pending, ghost p: nat, ghost j: nat)
      requires ValidFrom(pend, {ev}, p, j) && ev !in timers && ev in pend.known
      requires ev.active && ev.priority < |pend.queues|
      modifies this, heap, timers`heap_pos, ev`heap_pos
      ensures ValidFrom(pend, {}, p, j) && (heap == old(heap) || fresh(heap))
      ensures timers == old(timers) + {ev}
    {
      hide Heap, Pending.ValidFrom;
      EnterHeap(ev);
    }

    /** Push a timer, growing the array when it is full. */
    method EnterHeap(ev: Event)
      requires Heap(heap, cnt, timers) && ev !in timers
      modifies this, heap, timers`heap_pos, ev`heap_pos
      ensures Heap(heap, cnt, timers) && (heap == old(heap) || fresh(heap))
      ensures timers == old(timers) + {ev}
    {
      hide Heap;
      Reserve(cnt + 2);
      Push(heap, cnt, ev, timers);
      cnt := cnt + 1;
      timers := timers + {ev};
    }

    method Leave(ev: Event, ghost pend: Pending, ghost p: nat, ghost j: nat)
      requires ValidFrom(pend, {ev}, p, j) && ev in timers
      modifies this`cnt, this`timers, heap, timers`heap_pos
      ensures ValidFrom(pend, {ev}, p, j) && timers == old(timers) - {ev} && ev.heap_pos == 0
    {
      hide Heap, Pending.ValidFrom;
      LeaveHeap(ev);
    }

    method LeaveHeap(ev: Event)
      requires Heap(heap, cnt, timers) && ev in timers
      modifies this`cnt, this`timers, heap, timers`heap_pos
      ensures Heap(heap, cnt, timers) && timers == old(timers) - {ev} && ev.heap_pos == 0
    {
      assert 1 <= ev.heap_pos <= cnt && heap[ev.heap_pos] == ev;
      hide Heap;
      Delete(heap, ev.heap_pos, cnt, timers);
      cnt := cnt - 1;
      timers := timers - {ev};
    }

    /** Stop a timer, perhaps from a callback: take it out of the pending queue and out of the heap. */
    method Stop(ev: Event, pend: Pending, ghost p: nat, ghost j: nat)
      requires ValidFrom(pend, {}, p, j) && ev in pend.known
      modifies this`cnt, this`timers, heap, timers`heap_pos, pend`queues, ev`pendpos, ev`active
      ensures ValidFrom(pend, {}, p, j) && !ev.active && ev !in timers
      ensures ev.pendpos == 0 && timers == old(timers) - {ev}
      ensures pend.Holed(old(pend.queues), {ev}, p, j) && pend.SameBefore(old(pend.queues), p)
    {
      assert ev in timers ==> ev.heap_pos > 0;
      hide Heap, Pending.ValidFrom;
      if !ev.active {
        pend.InactiveNotQueued(ev, p, j);
        return;
      }
      StopActive(ev, pend, p, j);
    }

    method StopActive(ev: Event, pend: Pending, ghost p: nat, ghost j: nat)
      requires ValidFrom(pend, {}, p, j) && ev in pend.known && ev.active && (ev in timers ==> ev.heap_pos > 0)
      modifies this`cnt, this`timers, heap, timers`heap_pos, pend`queues, ev`pendpos, ev`active
      ensures ValidFrom(pend, {}, p, j) && !ev.active && ev.pendpos == 0 && timers == old(timers) - {ev}
      ensures pend.Holed(old(pend.queues), {ev}, p, j) && pend.SameBefore(old(pend.queues), p)
    {
      hide Heap, Pending.ValidFrom, Pending.Holed;
      pend.StopEvent(ev, p, j);
      if ev.heap_pos > 0 {
        Leave(ev, pend, p, j);
      }
    }

    /** The earliest timer is in the first slot. */
    lemma RootIsFirst()
      requires Heap(heap, cnt, timers) && cnt > 0
      ensures heap.Length > 1 && heap[1] != null && heap[1] in timers
      ensures forall e :: e in timers ==> heap[1].timestamp <= e.timestamp
    {
      forall e | e in timers ensures heap[1].timestamp <= e.timestamp {
        RootIsEarliest(heap[..], TimesOf(timers), cnt, e.heap_pos);
      }
    }

    /** How long to wait for events: no longer than any running timer allows. */
    method PollTime(now: int) returns (us: int)
      requires Heap(heap, cnt, timers)
      ensures 0 <= us <= 30000000
      ensures forall e :: e in timers ==> us <= if e.timestamp > now then e.timestamp - now else 0
      ensures us == 30000000 || exists e :: e in timers && us == if e.timestamp > now then e.timestamp - now else 0
    {
      us := INIT_POLL_US;
      if cnt > 0 {
        RootIsFirst();
        if heap[1].timestamp - now < us {
          us := heap[1].timestamp - now;
          if us < 0 {
            us := 0;
          }
        }
      }
    }

    /** Of the timers `was`, `evtm` is queued and runs on only if it repeats; no other has changed. */
    twostate predicate Fired(evtm: Event, was: set<Event>)
      reads this`timers, was
    {
      && was == old(timers) && evtm in was && evtm.pendpos > 0 && evtm.active && evtm.priority == old(evtm.priority)
      && timers == (if evtm.repeat > 0 then old(timers) else old(timers) - {evtm})
      && evtm.timestamp == (if evtm.repeat > 0 then old(evtm.timestamp) + evtm.repeat else old(evtm.timestamp))
      && forall e :: e in old(timers) && e != evtm ==>
           && e.timestamp == old(e.timestamp) && e.pendpos == old(e.pendpos) && e.active == old(e.active)
           && e.priority == old(e.priority)
    }

    /** Queue the earliest timer, take it out of the heap, and start it again when it repeats. */
    method ExpireFirst(now: int, pend: Pending) returns (evtm: Event)
      requires Valid(pend) && cnt > 0 && heap[1] != null && heap[1].timestamp <= now
      modifies this, heap, pend`queues
      modifies timers`heap_pos, timers`pendpos, timers`active, timers`priority, timers`timestamp
      ensures Valid(pend) && (heap == old(heap) || fresh(heap))
      ensures evtm == old(heap[1]) && Fired(evtm, old(timers))
      ensures Extends(old(pend.queues), pend.queues)
    {
      hide Heap, Pending.ValidFrom;
      evtm := QueueFirst(pend);
      if evtm.repeat > 0 {
        Restart(evtm, now, pend);
      }
    }

    /** How far the expiry loop has got with a timer that was due at `ts` and at position `pos`. */
    ghost predicate Stage(e: Event, ts: int, pos: nat, now: int)
      reads this`timers, e`timestamp, e`repeat, e`pendpos, e`active
    {
      e.active &&
      if ts > now then e in timers && e.timestamp == ts && e.pendpos == pos
      else if e.repeat > 0 then
        && e in timers && NextDue(e.timestamp, e.repeat, now) == NextDue(ts, e.repeat, now)
        && (e.timestamp == ts || e.pendpos > 0)
      else e.timestamp == ts && (e in timers || e.pendpos > 0)
    }

    /** What expiry does to a timer: nothing, a queued event and a new deadline, or a queued event and no deadline. */
    ghost predicate Expired(e: Event, ts: int, pos: nat, now: int)
      reads this`timers, e`timestamp, e`repeat, e`pendpos, e`active
    {
      e.active &&
      if ts > now then e in timers && e.timestamp == ts && e.pendpos == pos
      else if e.repeat > 0 then e in timers && e.timestamp == NextDue(ts, e.repeat, now) && e.pendpos > 0
      else e !in timers && e.timestamp == ts && e.pendpos > 0
    }

    /** Queue every timer that is due, and move the deadlines of the repeating ones past `now`. */
    method Expire(now: int, pend: Pending)
      requires Valid(pend)
      modifies this, heap, pend`queues
      modifies timers`heap_pos, timers`pendpos, timers`active, timers`priority, timers`timestamp
      ensures Valid(pend) && (heap == old(heap) || fresh(heap)) && timers <= old(timers)
      ensures forall e :: e in timers ==> e.timestamp > now
      ensures forall e :: e in old(timers) ==> Expired(e, old(e.timestamp), old(e.pendpos), now)
      ensures forall e :: e in old(timers) ==> e.priority == old(e.priority)
      ensures Extends(old(pend.queues), pend.queues)
    {
      ExpireLoop(now, pend);
      forall e | e in old(timers) ensures Expired(e, old(e.timestamp), old(e.pendpos), now) {
        assert Stage(e, old(e.timestamp), old(e.pendpos), now);
      }
    }

    method ExpireLoop(now: int, pend: Pending)
      requires Valid(pend)
      modifies this, heap, pend`queues
      modifies timers`heap_pos, timers`pendpos, timers`active, timers`priority, timers`timestamp
      ensures Valid(pend) && (heap == old(heap) || fresh(heap)) && timers <= old(timers)
      ensures forall e :: e in timers ==> e.timestamp > now
      ensures forall e :: e in old(timers) ==> Stage(e, old(e.timestamp), old(e.pendpos), now)
      ensures forall e :: e in old(timers) ==> e.priority == old(e.priority)
      ensures Extends(old(pend.queues), pend.queues)
    {
      hide Heap, TimerSet.Stage, Budget, Work, Extends, Pending.ValidFrom, Sum;
      StagesBegin(now);
      StillExtends(pend.queues);
      ghost var order, work := InitialBudget(now);
      while cnt > 0
        invariant Valid(pend) && (heap == old(heap) || fresh(heap)) && timers <= old(timers)
        invariant forall e :: e in old(timers) ==> Stage(e, old(e.timestamp), old(e.pendpos), now)
        invariant forall e :: e in old(timers) ==> e.priority == old(e.priority)
        invariant Extends(old(pend.queues), pend.queues) && Budget(order, work, Work(timers, now))
        decreases Sum(work)
      {
        RootIsFirst();
        if heap[1].timestamp > now {
          break;
        }
        ghost var queues := pend.queues;
        work := ExpireCounted(now, pend, order, work);
        ExtendsFurther(old(pend.queues), queues, pend.queues);
      }
      NoneWithout();
    }

    lemma NoneWithout()
      requires Heap(heap, cnt, timers)
      ensures cnt == 0 ==> timers == {}
    {
    }

    lemma StagesBegin(now: int)
      requires forall e :: e in timers ==> e.active
      ensures forall e :: e in timers ==> Stage(e, e.timestamp, e.pendpos, now)
    {
    }

    lemma InitialBudget(now: int) returns (order: seq<Event?>, work: seq<nat>)
      requires Heap(heap, cnt, timers)
      ensures Budget(order, work, Work(timers, now))
    {
      order := heap[1..cnt + 1];
      work := WorkOf(order, now);
      forall e | e in timers ensures e in order {
        assert order[e.heap_pos - 1] == e;
      }
    }

    static ghost function WorkOf(s: seq<Event?>, now: int): (w: seq<nat>)
      reads s
      ensures |w| == |s|
      ensures forall i :: 0 <= i < |s| && s[i] != null ==> w[i] == Lateness(s[i].timestamp, s[i].repeat, now)
    {
      if s == [] then []
      else [if s[0] == null then 0 else Lateness(s[0].timestamp, s[0].repeat, now)] + WorkOf(s[1..], now)
    }

    method ExpireCounted(now: int, pend: Pending, ghost order: seq<Event?>, ghost work: seq<nat>)
      returns (ghost work': seq<nat>)
      requires Valid(pend) && cnt > 0 && heap[1] != null && heap[1].timestamp <= now
      requires Budget(order, work, Work(timers, now))
      modifies this, heap, pend`queues
      modifies timers`heap_pos, timers`pendpos, timers`active, timers`priority, timers`timestamp
      ensures Valid(pend) && (heap == old(heap) || fresh(heap)) && timers <= old(timers)
      ensures forall e, ts, pos :: e in pend.known && old(Stage(e, ts, pos, now)) ==> Stage(e, ts, pos, now)
      ensures forall e :: e in old(timers) ==> e.priority == old(e.priority)
      ensures Extends(old(pend.queues), pend.queues)
      ensures Budget(order, work', Work(timers, now)) && Sum(work') < Sum(work)
    {
      hide TimerSet.ValidFrom, Heap, Extends, TimerSet.Stage;
      ghost var w := Work(timers, now);
      var evtm := ExpireStep(now, pend);
      work' := BudgetDrops(order, work, w, Work(timers, now), evtm);
    }

    /** One round of the loop: every timer keeps its stage. */
    method ExpireStep(now: int, pend: Pending) returns (evtm: Event)
      requires Valid(pend) && cnt > 0 && heap[1] != null && heap[1].timestamp <= now
      modifies this, heap, pend`queues
      modifies timers`heap_pos, timers`pendpos, timers`active, timers`priority, timers`timestamp
      ensures Valid(pend) && (heap == old(heap) || fresh(heap))
      ensures evtm == old(heap[1]) && Fired(evtm, old(timers))
      ensures forall e, ts, pos :: e in pend.known && old(Stage(e, ts, pos, now)) ==> Stage(e, ts, pos, now)
      ensures Extends(old(pend.queues), pend.queues)
    {
      hide TimerSet.ValidFrom, Heap, Extends;
      evtm := ExpireFirst(now, pend);
      forall e, ts, pos | e in pend.known && old(Stage(e, ts, pos, now)) ensures Stage(e, ts, pos, now) {
        if e == evtm {
          assert e.timestamp == if e.repeat > 0 then old(e.timestamp) + e.repeat else old(e.timestamp);
        } else {
          assert e.timestamp == old(e.timestamp) && e.pendpos == old(e.pendpos);
        }
      }
    }

    method QueueFirst(pend: Pending) returns (evtm: Event)
      requires Valid(pend) && cnt > 0 && heap[1] != null
      modifies this`cnt, this`timers, heap, timers`heap_pos, timers`pendpos, pend`queues
      ensures ValidFrom(pend, {}, 0, 0) && evtm == old(heap[1]) && evtm in old(timers) && evtm in pend.known
      ensures timers == old(timers) - {evtm} && evtm.pendpos > 0 && evtm.active && evtm.priority < |pend.queues|
      ensures forall e :: e in old(timers) && e != evtm ==> e.pendpos == old(e.pendpos)
      ensures Extends(old(pend.queues), pend.queues)
    {
      hide Heap, Pending.ValidFrom, Extends;
      RootIsFirst();
      evtm := heap[1];
      Queue(evtm, pend);
      Leave(evtm, pend, 0, 0);
    }

    method Queue(ev: Event, pend: Pending)
      requires Valid(pend) && ev in timers
      modifies ev`pendpos, pend`queues
      ensures Valid(pend) && ev.pendpos > 0 && Extends(old(pend.queues), pend.queues)
    {
      hide Heap, Pending.ValidFrom;
      pend.Append(ev);
    }

    /** The next deadline is one period after the last; the timestamp is made relative for the start. */
    method Restart(evtm: Event, now: int, pend: Pending)
      requires ValidFrom(pend, {}, 0, 0) && evtm in pend.known && evtm !in timers && evtm.priority < |pend.queues|
      modifies this, heap, timers`heap_pos, evtm`active, evtm`priority, evtm`timestamp, evtm`heap_pos
      ensures Valid(pend) && (heap == old(heap) || fresh(heap)) && evtm.active
      ensures timers == old(timers) + {evtm} && evtm.timestamp == old(evtm.timestamp) + evtm.repeat
      ensures evtm.priority == old(evtm.priority)
    {
      hide Heap, Pending.ValidFrom;
      evtm.active := false;
      evtm.timestamp := evtm.timestamp - now + evtm.repeat;
      Start(evtm, now, pend, 0, 0);
    }
  }
}
