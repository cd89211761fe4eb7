/** Handing events to a running loop from other threads: a locked list and a wakeup counter. */
module Async {
  import opened Basics

  /** An event. `next` links the list it is on, and the walk over a list that the loop has taken. */
  class AsyncEvent {
    var next: AsyncEvent?
    var active: bool
    // what has happened to it so far
    ghost var started: nat
    ghost var stopped: nat    // how often a stop took it off a list
    ghost var called: nat
    ghost var cleaned: nat
    ghost var dropped: nat    // cleaned by destroy, without a call

    constructor ()
      ensures next == null && !active && started == stopped == called == cleaned == dropped == 0
    {
      next, active := null, false;
      started, stopped, called, cleaned, dropped := 0, 0, 0, 0, 0;
    }
  }

  // ---- linked lists ----

  /** The list that starts at `first` runs through exactly the events of `s`. */
  ghost predicate Threaded(first: AsyncEvent?, s: seq<AsyncEvent>)
    reads s`next
  {
    && first == (if s == [] then null else s[0])
    && forall i :: 0 <= i < |s| ==> ThreadedAt(s, i)
  }

  ghost predicate ThreadedAt(s: seq<AsyncEvent>, i: int)
    requires 0 <= i < |s|
    reads s`next
  {
    s[i].next == if i + 1 < |s| then s[i + 1] else null
  }

  lemma ThreadedRest(first: AsyncEvent?, s: seq<AsyncEvent>, i: nat)
    requires Threaded(first, s) && i < |s|
    ensures Threaded(s[i].next, s[i + 1..])
  {
    assert ThreadedAt(s, i);
    var rest := s[i + 1..];
    forall k | 0 <= k < |rest| ensures ThreadedAt(rest, k) {
      assert ThreadedAt(s, i + 1 + k);
    }
  }

  /** A pointer is the start of one list only. */
  lemma {:induction false} ThreadedOnce(first: AsyncEvent?, s: seq<AsyncEvent>, t: seq<AsyncEvent>)
    requires Threaded(first, s) && Threaded(first, t)
    ensures s == t
  {
    if s != [] && t != [] {
      ThreadedRest(first, s, 0);
      ThreadedRest(first, t, 0);
      ThreadedOnce(s[0].next, s[1..], t[1..]);
      assert s == [s[0]] + s[1..] && t == [t[0]] + t[1..];
    }
  }

  lemma Consed(first: AsyncEvent, s: seq<AsyncEvent>)
    requires Threaded(first.next, s)
    ensures Threaded(first, [first] + s)
  {
    forall i | 0 <= i < |s| + 1 ensures ThreadedAt([first] + s, i) {
      if i > 0 { assert ThreadedAt(s, i - 1); }
    }
  }

  /** A list in front of another one. */
  lemma Appended(first: AsyncEvent?, s: seq<AsyncEvent>, t: seq<AsyncEvent>)
    requires s != [] && first == s[0] && (forall i :: 0 <= i < |s| - 1 ==> s[i].next == s[i + 1])
    requires Threaded(s[|s| - 1].next, t)
    ensures Threaded(first, s + t)
  {
    forall i | 0 <= i < |s + t| ensures ThreadedAt(s + t, i) {
      if i >= |s| { assert ThreadedAt(t, i - |s|); }
    }
  }

  // ---- the loop ----

  /** Where the loop is while it serves a wakeup. `HasRead` is between reading the counter and taking the list. */
  datatype Phase = Idle | HasRead | Draining

  /** One step of some thread. A step that is not possible in the current state does nothing. */
  datatype Step =
    | Start(ev: AsyncEvent)   // add under the lock; the starter's wakeup is still to come
    | Write                   // that wakeup
    | Wake                    // a wakeup by anyone else
    | Stop(ev: AsyncEvent)
    | Read                    // the loop sees the counter and reads it
    | Swap                    // the loop takes the list under the lock
    | Call                    // the loop calls the next event
    | Clean                   // and cleans it
    | Finish                  // all taken events are done
    | Quit
    | Destroy

  /** The loop without its links. */
  datatype State = State(listed: seq<AsyncEvent>, batch: seq<AsyncEvent>, now: AsyncEvent?, evtfd: nat, starting: nat,
                         phase: Phase, quiting: bool, destroyed: bool, active: set<AsyncEvent>)

  /** The event in front of `ev`, if any. */
  function Before(s: seq<AsyncEvent>, ev: AsyncEvent): AsyncEvent? {
    if |s| < 2 || s[0] == ev then null else if s[1] == ev then s[0] else Before(s[1..], ev)
  }

  lemma {:induction false} BeforeAt(s: seq<AsyncEvent>, ev: AsyncEvent, m: nat)
    requires m <= |s| && ev !in s[..m] && (m < |s| ==> s[m] == ev)
    ensures Before(s, ev) == if 0 < m < |s| then s[m - 1] else null
  {
    if |s| >= 2 && m > 0 {
      assert s[1..][..m - 1] == s[..m][1..] && s[..m][0] == s[0];
      BeforeAt(s[1..], ev, m - 1);
    }
  }

  /** The walk loses a stopped event when the link to it, from the event listed in front of it, is one of its own. */
  function StillCalled(listed: seq<AsyncEvent>, batch: seq<AsyncEvent>, ev: AsyncEvent): seq<AsyncEvent> {
    var prev := Before(listed, ev);
    if prev != null && prev in batch then Unlinked(batch, ev) else batch
  }

  /** What a step does, unless it leads the walk astray. */
  function Next(s: State, step: Step): State {
    match step
    case Start(ev) =>
      if s.destroyed || ev in s.active then s
      else s.(listed := [ev] + s.listed, starting := s.starting + 1, active := s.active + {ev})
    case Write => if s.starting > 0 then s.(starting := s.starting - 1, evtfd := s.evtfd + 1) else s
    case Wake => s.(evtfd := s.evtfd + 1)
    case Stop(ev) =>
      if ev !in s.active then s
      else s.(listed := Unlinked(s.listed, ev), batch := StillCalled(s.listed, s.batch, ev), active := s.active - {ev})
    case Read =>
      if !s.destroyed && s.phase == Idle && s.evtfd > 0 && !s.quiting then s.(evtfd := 0, phase := HasRead) else s
    case Swap => if s.phase == HasRead then s.(batch := s.listed, listed := [], phase := Draining) else s
    case Call =>
      if s.phase == Draining && s.batch != [] && s.now == null then s.(now := s.batch[0], batch := s.batch[1..]) else s
    case Clean => if s.phase == Draining then s.(now := null) else s
    case Finish => if s.phase == Draining && s.batch == [] && s.now == null then s.(phase := Idle) else s
    case Quit => s.(quiting := true, evtfd := s.evtfd + 1)
    case Destroy =>
      if !s.destroyed && s.quiting && s.phase == Idle then s.(listed := [], destroyed := true) else s
  }

  /** What a schedule does. */
  function AfterAll(s: State, schedule: seq<Step>): State {
    if schedule == [] then s
    else Next(AfterAll(s, schedule[..|schedule| - 1]), schedule[|schedule| - 1])
  }

  class Loop {
    var async_evtq: AsyncEvent?        // the list
    var evtfd: nat                     // the wakeup counter
    var starting: nat                  // starters between their add and their write
    var phase: Phase
    var async_head: AsyncEvent?        // where the walk over the taken list has got to
    var async_now: AsyncEvent?         // called, still to be cleaned
    var quiting: bool
    var destroyed: bool
    ghost var known: set<AsyncEvent>
    ghost var listed: seq<AsyncEvent>  // what is on the list
    ghost var batch: seq<AsyncEvent>   // taken from the list, still to be called

    constructor (ghost known: set<AsyncEvent>)
      requires forall ev :: ev in known ==>
                 !ev.active && ev.started == ev.stopped == ev.called == ev.cleaned == ev.dropped == 0
      ensures Valid() && this.known == known && listed == [] && !quiting && !destroyed
    {
      async_evtq, evtfd, starting, phase, async_head, async_now := null, 0, 0, Idle, null, null;
      quiting, destroyed, this.known, listed, batch := false, false, known, [], [];
    }

    ghost function View(): State
      reads this, known`active
    {
      State(listed, batch, async_now, evtfd, starting, phase, quiting, destroyed, Active())
    }

    ghost function Active(): set<AsyncEvent>
      reads this`known, known`active
    {
      set ev | ev in known && ev.active
    }

    lemma ActiveIs(ev: AsyncEvent)
      requires ev in known
      ensures ev in Active() <==> ev.active
    {
    }

    /** How often the event is listed, taken, or between its call and its clean. */
    ghost function Held(ev: AsyncEvent): nat
      reads this`listed, this`batch, this`async_now
    {
      On(listed, ev) + On(batch, ev) + Now(ev)
    }

    static function On(s: seq<AsyncEvent>, ev: AsyncEvent): nat {
      if ev in s then 1 else 0
    }

    ghost function Now(ev: AsyncEvent): nat
      reads this`async_now
    {
      if async_now == ev then 1 else 0
    }

    ghost predicate Valid()
      reads this, known
    {
      && Linked() && Accounted() && Woken() && (forall ev :: ev in listed ==> ev.active)
      && (phase != Draining ==> batch == [] && async_now == null)
      && (destroyed ==> listed == [] && phase == Idle)
    }

    /** The links say what is listed and what is still to be called; the two lists may share their tails. */
    ghost predicate Linked()
      reads this`async_evtq, this`async_head, this`async_now, this`listed, this`batch, this`known, known`next
    {
      && OnList() && (forall ev :: ev in batch ==> ev in known) && NoDup(batch) && Threaded(async_head, batch)
      && (async_now != null ==> async_now in known)
    }

    ghost predicate OnList()
      reads this`async_evtq, this`listed, this`known, known`next
    {
      (forall ev :: ev in listed ==> ev in known) && NoDup(listed) && Threaded(async_evtq, listed)
    }

    /** No wakeup is lost. */
    ghost predicate Woken()
      reads this`listed, this`evtfd, this`starting, this`phase
    {
      listed != [] ==> evtfd > 0 || starting > 0 || phase == HasRead
    }

    ghost predicate Accounted()
      reads this`listed, this`batch, this`async_now, this`known
      reads known`started, known`stopped, known`called, known`cleaned, known`dropped
    {
      forall ev :: ev in known ==> AccountOf(ev)
    }

    /**
     * Every start of an event ends in a stop, in a call and then a clean, or in a clean at destroy: in one
     * of them, once.
     */
    ghost predicate AccountOf(ev: AsyncEvent)
      reads this`listed, this`batch, this`async_now, ev`started, ev`stopped, ev`called, ev`cleaned, ev`dropped
    {
      && ev.dropped <= ev.cleaned
      && ev.started == Held(ev) + ev.stopped + ev.cleaned
      && ev.called + ev.dropped == Now(ev) + ev.cleaned
    }

    // ---- other threads ----

    /** The events that are to be called after `ev`. */
    ghost function Behind(ev: AsyncEvent): seq<AsyncEvent>
      reads this`batch
    {
      After(batch, ev)
    }

    /**
     * Starting this event leaves the walk of the loop as it is: the event is not one that the loop still
     * has to call, or what is to be called after it is just what is on the list.
     */
    ghost predicate Harmless(ev: AsyncEvent)
      reads this`batch, this`listed
    {
      ev in batch ==> Behind(ev) == listed
    }

    /**
     * Start an event. It is refused while active, but an event can be stopped, and so started again, while
     * the loop still has to call it. The walk over the taken list then continues into the new list: what
     * was to be called after the event is lost, and what is on the list is called by this walk.
     */
    method StartAsync(ev: AsyncEvent)
      requires Valid() && !destroyed && ev in known
      modifies `async_evtq, `listed, `starting, ev`next, ev`active, ev`started
      ensures if old(ev.active) then listed == old(listed) && starting == old(starting) && Valid()
              else listed == [ev] + old(listed) && starting == old(starting) + 1
      ensures ev.active && Active() == old(Active()) + {ev}
      ensures View() == Next(old(View()), Start(ev))
      ensures !old(ev.active) ==> OnList() && Accounted() && Woken()
      ensures !old(ev.active) ==> (Valid() <==> old(Harmless(ev)))
      ensures !old(ev.active) && ev in batch ==> Threaded(async_head, UpTo(batch, ev) + old(listed))
    {
      hide Threaded, NoDup, UpTo, After, Loop.AccountOf, Loop.Held;
      if ev.active {
        return;
      }
      ghost var rest := listed;
      WalkIs();
      CountStart(ev);
      forall k | 0 <= k < |batch| && batch[k] != ev ensures ThreadedAt(batch, k) {
        assert old(ThreadedAt(batch, k));
      }
      WalkAfter(ev, rest);
    }

    /** An event that is not active goes to the head of the list, and is accounted for. */
    method CountStart(ev: AsyncEvent)
      requires OnList() && Accounted() && ev in known && ev !in listed && !ev.active
      modifies `async_evtq, `listed, `starting, ev`next, ev`active, ev`started
      ensures OnList() && Accounted() && listed == [ev] + old(listed) && Threaded(ev.next, old(listed))
      ensures starting == old(starting) + 1 && ev.active && Active() == old(Active()) + {ev}
    {
      hide Threaded, NoDup;
      Link(ev);
      ev.started := ev.started + 1;
      forall x | x in known ensures AccountOf(x) { assert old(AccountOf(x)); }
    }

    /** Put the event at the head of the list. The link of no other event changes. */
    method Link(ev: AsyncEvent)
      requires OnList() && ev in known && ev !in listed && !ev.active
      modifies this`async_evtq, this`starting, this`listed, ev`next, ev`active
      ensures OnList() && listed == [ev] + old(listed) && Threaded(ev.next, old(listed)) && async_evtq == ev
      ensures starting == old(starting) + 1 && ev.active
    {
      ghost var s := listed;
      ev.active := true;
      ev.next := async_evtq;
      async_evtq := ev;
      starting := starting + 1;
      listed := [ev] + s;
      forall k | 0 <= k < |s| ensures ThreadedAt(s, k) {
        assert old(ThreadedAt(s, k));
      }
      Consed(ev, s);
    }

    lemma WalkIs()
      requires Threaded(async_head, batch)
      ensures (batch == [] ==> async_head == null) && (batch != [] ==> async_head == batch[0])
      ensures forall k :: 0 <= k < |batch| ==> ThreadedAt(batch, k)
    {
    }

    /** Where the walk goes when the event has been put in front of `rest`. */
    lemma WalkAfter(ev: AsyncEvent, rest: seq<AsyncEvent>)
      requires NoDup(batch) && (batch == [] ==> async_head == null) && (batch != [] ==> async_head == batch[0])
      requires forall k :: 0 <= k < |batch| && batch[k] != ev ==> ThreadedAt(batch, k)
      requires Threaded(ev.next, rest)
      ensures ev in batch ==> Threaded(async_head, UpTo(batch, ev) + rest)
      ensures Threaded(async_head, batch) <==> (ev in batch ==> Behind(ev) == rest)
    {
      if ev in batch {
        var i := Place(batch, ev);
        var s := batch[..i + 1];
        forall k | 0 <= k < i ensures s[k].next == s[k + 1] {
          assert ThreadedAt(batch, k);
        }
        Appended(async_head, s, rest);
        if Behind(ev) == rest {
          assert batch == s + rest;
        }
        if Threaded(async_head, batch) {
          ThreadedOnce(async_head, batch, s + rest);
          assert (s + rest)[i + 1..] == rest;
        }
      }
    }

    /**
     * Stop an event. That prevents a call exactly when the event is on the list; one that only the loop has
     * still to call is called.
     */
    method StopAsync(ev: AsyncEvent)
      requires Valid() && ev in known && ev.active
      modifies `async_evtq, `listed, `batch, known`next, ev`active, ev`stopped
      ensures Valid() && !ev.active && listed == Unlinked(old(listed), ev) && ev !in listed
      ensures batch == StillCalled(old(listed), old(batch), ev)
      ensures batch == old(batch) || (ev in old(listed) && ev in old(batch) && batch == Unlinked(old(batch), ev))
      ensures ev.stopped == old(ev.stopped) + old(Held(ev)) - Held(ev)
      ensures Held(ev) < old(Held(ev)) <==> ev in old(listed)
      ensures Active() == old(Active()) - {ev}
      ensures View() == Next(old(View()), Stop(ev))
    {
      hide Unlinked, Linked, StillCalled, Loop.AccountOf, Loop.Held;
      ev.active := false;
      CountStop(ev);
    }

    /** An event goes from the list, if it is there, and is accounted for. */
    method CountStop(ev: AsyncEvent)
      requires Linked() && Accounted() && ev in known
      modifies `async_evtq, `listed, `batch, known`next, ev`stopped
      ensures Linked() && Accounted() && listed == Unlinked(old(listed), ev)
      ensures batch == StillCalled(old(listed), old(batch), ev)
      ensures forall x :: x in listed <==> x in old(listed) && x != ev
      ensures batch == old(batch) || (ev in old(listed) && ev in old(batch) && batch == Unlinked(old(batch), ev))
      ensures (old(listed) == [] ==> listed == []) && (old(batch) == [] ==> batch == [])
      ensures ev.stopped == old(ev.stopped) + old(Held(ev)) - Held(ev)
      ensures Held(ev) < old(Held(ev)) <==> ev in old(listed)
    {
      hide Unlinked, Linked, StillCalled;
      ghost var held := Held(ev);
      TakeOff(ev);
      ev.stopped := ev.stopped + held - Held(ev);
      forall x | x in known ensures AccountOf(x) { assert old(AccountOf(x)); }
    }

    method TakeOff(ev: AsyncEvent)
      requires Linked()
      modifies `async_evtq, `listed, `batch, known`next
      ensures Linked() && listed == Unlinked(old(listed), ev)
      ensures forall x :: x in listed <==> x in old(listed) && x != ev
      ensures batch == StillCalled(old(listed), old(batch), ev)
      ensures batch == old(batch) || (ev in old(listed) && ev in old(batch) && batch == Unlinked(old(batch), ev))
      ensures forall x :: x != ev ==> (x in batch <==> x in old(batch))
      ensures (old(listed) == [] ==> listed == []) && (old(batch) == [] ==> batch == [])
    {
      hide Unlinked, Threaded, NoDup;
      UnlinkedSet(listed, ev);
      UnlinkedSet(batch, ev);
      ghost var prev := Unlink(ev);
      if prev != null && prev in batch {
        batch := Unlinked(batch, ev);
      }
    }

    /** Walk to the link that leads to the event, and lead it past the event. */
    method Unlink(ev: AsyncEvent) returns (ghost prev: AsyncEvent?)
      requires Linked()
      modifies `async_evtq, `listed, known`next
      ensures OnList() && listed == Unlinked(old(listed), ev)
      ensures prev == Before(old(listed), ev) && (prev != null ==> ev in old(listed))
      ensures if prev != null && prev in batch
              then ev in batch && Threaded(async_head, Unlinked(batch, ev)) else Threaded(async_head, batch)
    {
      hide Unlinked;
      ghost var m := 0;
      prev := null;
      var last: AsyncEvent?, cur := null, async_evtq;
      while cur != null && cur != ev
        invariant 0 <= m <= |listed| && cur == (if m < |listed| then listed[m] else null)
        invariant last == (if m == 0 then null else listed[m - 1]) && ev !in listed[..m]
        decreases |listed| - m
      {
        assert ThreadedAt(listed, m);
        last, cur := cur, cur.next;
        m := m + 1;
      }
      UnlinkedAt(listed, ev, m);
      BeforeAt(listed, ev, m);
      if cur != null {
        prev := last;
        Bypass(ev, last, m);
      }
    }

    /** The event in place m of the list goes. */
    method Bypass(ev: AsyncEvent, last: AsyncEvent?, ghost m: nat)
      requires Linked() && m < |listed| && listed[m] == ev && last == (if m == 0 then null else listed[m - 1])
      modifies this`async_evtq, this`listed, known`next
      ensures OnList() && listed == RemoveAt(old(listed), m)
      ensures if last != null && last in batch
              then ev in batch && Threaded(async_head, Unlinked(batch, ev)) else Threaded(async_head, batch)
    {
      hide Unlinked;
      ghost var s, b := listed, batch;
      assert ThreadedAt(s, m) && (m > 0 ==> ThreadedAt(s, m - 1));
      if last == null {
        async_evtq := ev.next;
      } else {
        last.next := ev.next;
      }
      listed := RemoveAt(s, m);
      forall k | 0 <= k < |listed| ensures ThreadedAt(listed, k) {
        assert old(ThreadedAt(s, if k < m then k else k + 1));
      }
      if last != null && last in b {
        ghost var j :| 0 <= j < |b| && b[j] == last;
        assert old(ThreadedAt(b, j));
        assert b[j + 1] == ev;
        UnlinkedAt(b, ev, j + 1);
        ghost var b' := RemoveAt(b, j + 1);
        forall k | 0 <= k < |b'| ensures ThreadedAt(b', k) {
          assert old(ThreadedAt(b, if k <= j then k else k + 1)) && old(ThreadedAt(b, j + 1));
        }
      } else {
        forall k | 0 <= k < |b| ensures ThreadedAt(b, k) {
          assert old(ThreadedAt(b, k));
        }
      }
    }

    // ---- the loop ----

    /** The loop sees the counter: unless it is quitting, it resets it. */
    method ReadFd()
      requires Valid() && !destroyed && phase == Idle && evtfd > 0
      modifies this`evtfd, this`phase
      ensures Valid()
      ensures if quiting then evtfd == old(evtfd) && phase == Idle else evtfd == 0 && phase == HasRead
      ensures View() == Next(old(View()), Read)
    {
      if quiting {
        return;
      }
      evtfd := 0;
      phase := HasRead;
    }

    /** Take the whole list. */
    method SwapList()
      requires Valid() && phase == HasRead
      modifies this`async_evtq, this`async_head, this`listed, this`batch, this`phase
      ensures Valid() && batch == old(listed) && listed == [] && phase == Draining
      ensures View() == Next(old(View()), Swap)
    {
      hide Threaded, NoDup;
      NoList();
      async_head := async_evtq;
      async_evtq := null;
      batch, listed := listed, [];
      phase := Draining;
      forall x | x in known ensures AccountOf(x) { assert old(AccountOf(x)); }
    }

    /** Call the next taken event. The walk has moved on before the call. */
    method CallNext()
      requires Valid() && phase == Draining && async_head != null && async_now == null
      modifies `async_head, `async_now, `batch, async_head`called
      ensures Valid() && async_now == old(async_head) && old(batch) == [async_now] + batch
      ensures async_now.called == old(async_head.called) + 1
      ensures View() == Next(old(View()), Call)
    {
      hide Threaded, NoDup, Loop.On;
      OneLess(batch);
      FirstOf(async_head, batch);
      ThreadedRest(async_head, batch, 0);
      async_now := async_head;
      async_head := async_head.next;
      batch := batch[1..];
      async_now.called := async_now.called + 1;
      forall x | x in known ensures AccountOf(x) { assert old(AccountOf(x)); }
    }

    /** Clean the event that was called. */
    method CleanNow()
      requires Valid() && phase == Draining && async_now != null
      modifies `async_now, async_now`cleaned
      ensures Valid() && async_now == null && old(async_now).cleaned == old(async_now.cleaned) + 1
      ensures View() == Next(old(View()), Clean)
    {
      async_now.cleaned := async_now.cleaned + 1;
      async_now := null;
      forall x | x in known ensures AccountOf(x) { assert old(AccountOf(x)); }
    }

    /** After the loop has ended, what is still listed is cleaned without a call. */
    method DestroyLoop()
      requires Valid() && !destroyed && quiting && phase == Idle
      modifies `async_evtq, `listed, `destroyed
      modifies (set ev | ev in listed)`cleaned, (set ev | ev in listed)`dropped
      ensures Valid() && destroyed && listed == []
      ensures forall ev :: ev in old(listed) ==>
                ev.cleaned == old(ev.cleaned) + 1 && ev.dropped == old(ev.dropped) + 1
      ensures View() == Next(old(View()), Destroy)
    {
      hide Threaded, NoDup, Loop.AccountOf, Woken, Loop.Held;
      while async_evtq != null
        invariant Valid() && !destroyed && phase == Idle
        invariant forall ev :: ev in listed ==> ev in old(listed)
        invariant forall ev :: ev in old(listed) ==>
                    var n := On(old(listed), ev) - On(listed, ev);
                    ev.cleaned == old(ev.cleaned) + n && ev.dropped == old(ev.dropped) + n
        decreases |listed|
      {
        FirstOf(async_evtq, listed);
        DropFirst();
      }
      destroyed := true;
      FirstOf(async_evtq, listed);
    }

    method DropFirst()
      requires Valid() && !destroyed && phase == Idle && async_evtq != null && async_evtq in listed
      modifies `async_evtq, `listed, async_evtq`cleaned, async_evtq`dropped
      ensures Valid() && old(listed) == [old(async_evtq)] + listed && old(async_evtq) !in listed
      ensures old(async_evtq).cleaned == old(async_evtq.cleaned) + 1
      ensures old(async_evtq).dropped == old(async_evtq.dropped) + 1
    {
      hide Threaded, NoDup, Loop.On;
      var ev := async_evtq;
      OneLess(listed);
      FirstOf(ev, listed);
      ThreadedRest(ev, listed, 0);
      async_evtq := ev.next;
      listed := listed[1..];
      ev.dropped, ev.cleaned := ev.dropped + 1, ev.cleaned + 1;
      forall x | x in known ensures AccountOf(x) { assert old(AccountOf(x)); }
    }

    // ---- any interleaving ----

    /** Whether starting the event would lead the walk astray, from the links alone. */
    method Strays(ev: AsyncEvent) returns (strays: bool)
      requires Linked() && ev in known
      ensures strays <==> !Harmless(ev)
    {
      hide NoDup;
      var cur := async_head;
      ghost var i := 0;
      while cur != null && cur != ev
        invariant 0 <= i <= |batch| && cur == (if i < |batch| then batch[i] else null) && ev !in batch[..i]
        decreases |batch| - i
      {
        assert ThreadedAt(batch, i);
        cur := cur.next;
        i := i + 1;
      }
      strays := cur != null && ev.next != async_evtq;
      if cur != null {
        PlaceIs(batch, ev, i);
        ThreadedRest(async_head, batch, i);
        if !strays {
          ThreadedOnce(async_evtq, listed, batch[i + 1..]);
        }
      }
    }

    method Perform(step: Step)
      requires Valid() && (step.Start? || step.Stop? ==> step.ev in known)
      requires step.Start? && !step.ev.active && !destroyed ==> Harmless(step.ev)
      modifies this, known
      ensures Valid() && known == old(known) && View() == Next(old(View()), step)
      ensures step.Start? && !old(destroyed || step.ev.active) ==>
                step.ev.active && listed == [step.ev] + old(listed) && starting == old(starting) + 1
      ensures step.Write? && old(starting) > 0 ==> starting == old(starting) - 1 && evtfd == old(evtfd) + 1
      ensures step.Wake? ==> evtfd == old(evtfd) + 1
      ensures step.Stop? && old(step.ev.active) ==> !step.ev.active && listed == Unlinked(old(listed), step.ev)
      ensures step.Read? && old(!destroyed && phase == Idle && evtfd > 0 && !quiting) ==> evtfd == 0 && phase == HasRead
      ensures step.Swap? && old(phase) == HasRead ==> phase == Draining && batch == old(listed) && listed == []
      ensures step.Call? && old(phase == Draining && batch != [] && async_now == null) ==>
                && async_now == old(batch)[0] && batch == old(batch)[1..]
                && old(batch)[0].called == old(batch[0].called) + 1
      ensures step.Clean? && old(phase == Draining && async_now != null) ==>
                async_now == null && old(async_now).cleaned == old(async_now.cleaned) + 1
      ensures step.Finish? && old(phase == Draining && batch == [] && async_now == null) ==> phase == Idle
      ensures step.Quit? ==> quiting && evtfd == old(evtfd) + 1
      ensures step.Destroy? && old(!destroyed && quiting && phase == Idle) ==> destroyed && listed == []
    {
      hide Valid, Harmless, Unlinked, StillCalled, Active, Linked, Loop.Held;
      Parts();
      if step.Start? || step.Stop? { ActiveIs(step.ev); }
      match step
      case Start(ev) => if !destroyed { StartAsync(ev); }
      case Write => if starting > 0 { WriteFd(); }
      case Wake => MoreWakeups();
      case Stop(ev) => if ev.active { StopAsync(ev); }
      case Read => if !destroyed && phase == Idle && evtfd > 0 { ReadFd(); }
      case Swap => if phase == HasRead { SwapList(); }
      case Call => if phase == Draining && async_head != null && async_now == null { CallNext(); }
      case Clean => if phase == Draining && async_now != null { CleanNow(); }
      case Finish => if phase == Draining && async_head == null && async_now == null { BackToPoll(); }
      case Quit => StartQuit();
      case Destroy => if !destroyed && quiting && phase == Idle { DestroyLoop(); }
    }

    lemma Parts()
      requires Valid()
      ensures Linked() && (forall ev :: ev in listed ==> ev in known)
      ensures (async_head == null <==> batch == []) && (async_head != null ==> async_head in known)
      ensures async_now != null ==> async_now in known
    {
      if batch != [] { assert batch[0] in batch; }
    }

    method WriteFd()
      requires Valid() && starting > 0
      modifies `starting, `evtfd
      ensures Valid() && starting == old(starting) - 1 && evtfd == old(evtfd) + 1
      ensures View() == Next(old(View()), Write)
    {
      starting := starting - 1;
      evtfd := evtfd + 1;
    }

    method MoreWakeups()
      requires Valid()
      modifies `evtfd
      ensures Valid() && evtfd == old(evtfd) + 1
      ensures View() == Next(old(View()), Wake)
    {
      evtfd := evtfd + 1;
    }

    method BackToPoll()
      requires Valid() && phase == Draining && async_head == null && async_now == null
      modifies `phase
      ensures Valid() && phase == Idle
      ensures View() == Next(old(View()), Finish)
    {
      Parts();
      phase := Idle;
    }

    /** Quitting from another thread also wakes the loop. */
    method StartQuit()
      requires Valid()
      modifies `quiting, `evtfd
      ensures Valid() && quiting && evtfd == old(evtfd) + 1
      ensures View() == Next(old(View()), Quit)
    {
      quiting, evtfd := true, evtfd + 1;
    }

    /**
     * Every interleaving keeps the invariant, up to a start that leads the walk astray, if there is one;
     * that the invariant is lost by such a start is part of the contract of StartAsync.
     */
    method Run(schedule: seq<Step>) returns (n: nat)
      requires Valid() && forall i :: 0 <= i < |schedule| && (schedule[i].Start? || schedule[i].Stop?) ==>
                            schedule[i].ev in known
      modifies this, known
      ensures Valid() && n <= |schedule| && View() == AfterAll(old(View()), schedule[..n])
      ensures n < |schedule| ==>
                schedule[n].Start? && !schedule[n].ev.active && !destroyed && !Harmless(schedule[n].ev)
    {
      hide Valid, Harmless, Next, View;
      n := 0;
      while n < |schedule|
        invariant Valid() && n <= |schedule| && known == old(known)
        invariant View() == AfterAll(old(View()), schedule[..n])
      {
        assert schedule[..n + 1][..n] == schedule[..n];
        if schedule[n].Start? && !schedule[n].ev.active && !destroyed {
          Parts();
          var strays := Strays(schedule[n].ev);
          if strays {
            return;
          }
        }
        Perform(schedule[n]);
        n := n + 1;
      }
    }

    // ---- what the invariant means ----

    /** No wakeup is lost: when nothing more happens by itself, every start has been stopped or served. */
    lemma Quiescent(ev: AsyncEvent)
      requires Valid() && phase == Idle && starting == 0 && evtfd == 0 && ev in known
      ensures listed == [] && ev.started == ev.stopped + ev.cleaned
    {
      assert AccountOf(ev);
    }

    /**
     * An event that was started once and never taken off the list is cleaned at most once; it is called
     * at most once, before its clean, and not if destroy drops it. In the end it is cleaned.
     */
    lemma CalledThenCleaned(ev: AsyncEvent)
      requires Valid() && ev in known && ev.started == 1 && ev.stopped == 0
      ensures ev.cleaned <= 1 && ev.called <= 1 && ev.cleaned <= ev.called + ev.dropped <= 1
      ensures ev.dropped == 1 ==> ev.called == 0 && ev.cleaned == 1
      ensures ev.called == 1 ==> ev.dropped == 0 && (ev.cleaned == 0 ==> async_now == ev)
      ensures destroyed ==> ev.cleaned == 1 && ev.called + ev.dropped == 1
    {
      assert AccountOf(ev);
    }
  }

  /** Stopping an event that the loop has already taken does not prevent its call. */
  method StopTooLate(loop: Loop, ev: AsyncEvent)
    requires loop.Valid() && loop.phase == Draining && loop.async_now == null && ev in loop.known
    requires loop.batch != [] && loop.batch[0] == ev && ev.active && ev !in loop.listed
    modifies loop, loop.known
    ensures loop.Valid() && !ev.active
    ensures ev.called == old(ev.called) + 1 && ev.stopped == old(ev.stopped)
  {
    hide Loop.Linked, Unlinked;
    loop.Parts();
    loop.StopAsync(ev);
    loop.Parts();
    loop.CallNext();
  }

  /**
   * Started again while the loop still has to call it, and another event after it: the walk ends with the
   * event, which stays listed, and the other one is called neither by this walk nor by a later one.
   */
  method LostByRestart(loop: Loop, ev: AsyncEvent, other: AsyncEvent)
    requires loop.Valid() && loop.phase == Draining && !loop.destroyed && {ev, other} <= loop.known
    requires loop.batch == [ev, other] && loop.listed == [] && ev.active
    modifies loop, loop.known
    ensures Threaded(loop.async_head, [ev]) && Threaded(loop.async_evtq, [ev]) && !loop.Valid()
  {
    hide Loop.Linked, Unlinked;
    Absent([], ev);
    loop.StopAsync(ev);
    loop.StartAsync(ev);
    assert UpTo([ev, other], ev) + [] == [ev] && After([ev, other], ev) == [other];
  }

  /** The event that is being called can be started again: the walk has moved past it. */
  method RestartCurrent(loop: Loop, ev: AsyncEvent)
    requires loop.Valid() && !loop.destroyed && loop.async_now == ev && ev.active && ev !in loop.batch
    requires ev !in loop.listed
    modifies loop, loop.known
    ensures loop.Valid() && loop.batch == old(loop.batch) && loop.listed == [ev] + old(loop.listed)
  {
    hide Loop.Linked;
    loop.Parts();
    Absent(loop.listed, ev);
    loop.StopAsync(ev);
    loop.StartAsync(ev);
  }

  lemma {:induction false} Absent(s: seq<AsyncEvent>, ev: AsyncEvent)
    requires ev !in s
    ensures Unlinked(s, ev) == s
  {
    if s != [] {
      Absent(s[1..], ev);
    }
  }

  lemma PlaceIs(s: seq<AsyncEvent>, ev: AsyncEvent, i: nat)
    requires i < |s| && s[i] == ev && ev !in s[..i]
    ensures ev in s && After(s, ev) == s[i + 1..]
  {
    if i > 0 {
      assert s[0] in s[..i] && s[1..][..i - 1] == s[..i][1..];
      PlaceIs(s[1..], ev, i - 1);
    }
  }

  lemma FirstOf(first: AsyncEvent?, s: seq<AsyncEvent>)
    requires Threaded(first, s)
    ensures (first == null <==> s == []) && (s != [] ==> s[0] == first && s == [s[0]] + s[1..])
  {
  }

  lemma NoList()
    ensures Threaded(null, []) && NoDup<AsyncEvent>([])
  {
  }

  lemma OneLess(s: seq<AsyncEvent>)
    requires NoDup(s)
    ensures s != [] ==> NoDup(s[1..]) && s[0] !in s[1..]
    ensures s != [] ==> forall x :: Loop.On(s, x) == Loop.On(s[1..], x) + if x == s[0] then 1 else 0
  {
  }

  /** Up to an event and behind it. */
  lemma {:induction false} Place(s: seq<AsyncEvent>, ev: AsyncEvent) returns (i: nat)
    requires ev in s && NoDup(s)
    ensures i < |s| && s[i] == ev && UpTo(s, ev) == s[..i + 1] && After(s, ev) == s[i + 1..]
  {
    if s[0] == ev {
      i := 0;
    } else {
      i := Place(s[1..], ev);
      i := i + 1;
    }
  }

  /** The part of the sequence behind the event. */
  function After(s: seq<AsyncEvent>, ev: AsyncEvent): seq<AsyncEvent> {
    if s == [] then [] else if s[0] == ev then s[1..] else After(s[1..], ev)
  }

  /** The sequence up to and with the event. */
  function UpTo(s: seq<AsyncEvent>, ev: AsyncEvent): seq<AsyncEvent> {
    if s == [] then [] else if s[0] == ev then [ev] else [s[0]] + UpTo(s[1..], ev)
  }

  lemma {:induction false} UnlinkedAt(s: seq<AsyncEvent>, ev: AsyncEvent, m: nat)
    requires m <= |s| && ev !in s[..m] && (m < |s| ==> s[m] == ev)
    ensures Unlinked(s, ev) == if m < |s| then RemoveAt(s, m) else s
  {
    hide RemoveAt;
    if s != [] && m > 0 {
      NotInRest(s, ev, m);
      UnlinkedAt(s[1..], ev, m - 1);
      RemoveRest(s, m);
    } else {
      RemoveFirst(s);
    }
  }

  lemma NotInRest(s: seq<AsyncEvent>, ev: AsyncEvent, m: nat)
    requires 0 < m <= |s| && ev !in s[..m]
    ensures s[0] != ev && ev !in s[1..][..m - 1]
  {
    assert s[1..][..m - 1] == s[..m][1..] && s[..m][0] == s[0];
  }

  lemma RemoveRest(s: seq<AsyncEvent>, m: nat)
    requires 0 < m
    ensures m < |s| ==> RemoveAt(s, m) == [s[0]] + RemoveAt(s[1..], m - 1)
  {
  }

  lemma RemoveFirst(s: seq<AsyncEvent>)
    ensures s != [] ==> RemoveAt(s, 0) == s[1..]
  {
  }

  lemma {:induction false} UnlinkedSet(s: seq<AsyncEvent>, ev: AsyncEvent)
    requires NoDup(s)
    ensures NoDup(Unlinked(s, ev)) && (s == [] ==> Unlinked(s, ev) == [])
    ensures forall x :: x in Unlinked(s, ev) <==> x in s && x != ev
    ensures forall i :: 0 <= i < |Unlinked(s, ev)| ==> Unlinked(s, ev)[i] in s
  {
    if s != [] {
      assert s == [s[0]] + s[1..] && s[0] !in s[1..];
      UnlinkedSet(s[1..], ev);
    }
  }
}
