/** One round of the event loop, with callbacks that start and stop events of every kind. */
module EventLoop {
  import opened Basics
  import opened Evt
  import opened TimerHeap
  import opened PendingQueue
  import opened Timers
  import opened IoSync

  // ---- a loop as a value ----

  /** An event: whether it is started, whether it is a running timer, its deadline, period and priority. */
  datatype Status = Status(active: bool, timing: bool, stamp: int, repeat: int, priority: nat)

  /** The events of a loop, and its lists of hooks. */
  datatype Roster = Roster(status: map<Event, Status>, befores: seq<Event>, afters: seq<Event>)

  /**
   * One start or stop at the time `now`, with so many priorities. Starting an active event changes nothing, nor
   * does stopping an inactive one.
   */
  function Acted(act: Action, now: int, levels: nat, r: Roster): Roster {
    if act.ev !in r.status || r.status[act.ev].active == act.Start? then r
    else
      match act
      case Start(ev) =>
        Roster(r.status[ev := Begun(ev.kind, r.status[ev], now, levels)],
               if ev.kind == Before then [ev] + r.befores else r.befores,
               if ev.kind == After then [ev] + r.afters else r.afters)
      case Stop(ev) =>
        Roster(r.status[ev := r.status[ev].(active := false, timing := false)],
               if ev.kind == Before then Unlinked(r.befores, ev) else r.befores,
               if ev.kind == After then Unlinked(r.afters, ev) else r.afters)
  }

  /** A timer counts from now on; a priority that is too low becomes the lowest. */
  function Begun(kind: Kind, s: Status, now: int, levels: nat): Status {
    Status(true, s.timing || kind == Kind.Timer, if kind == Kind.Timer then s.stamp + now else s.stamp, s.repeat,
           if s.priority < levels || levels == 0 then s.priority else levels - 1)
  }

  /** The time matters only to a timer. */
  lemma NowIsForTimers(act: Action, now: int, levels: nat, r: Roster)
    ensures act.ev.kind != Kind.Timer || act.Stop? ==> Acted(act, now, levels, r) == Acted(act, 0, levels, r)
  {
  }

  function ActedAll(acts: seq<Action>, now: int, levels: nat, r: Roster): Roster {
    if acts == [] then r else Acted(acts[|acts| - 1], now, levels, ActedAll(acts[..|acts| - 1], now, levels, r))
  }

  /** What the callbacks of a pass have started and stopped. */
  function AfterCalls(calls: seq<Event>, script: Script, now: int, levels: nat, r: Roster): Roster {
    if calls == [] then r
    else
      var n := |calls| - 1;
      ActedAll(script(n, calls[n]), now, levels, AfterCalls(calls[..n], script, now, levels, r))
  }

  lemma OneMoreAct(acts: seq<Action>, k: nat, now: int, levels: nat, r: Roster)
    requires k <= |acts|
    ensures ActedAll(acts[..0], now, levels, r) == r && acts[..|acts|] == acts
    ensures k < |acts| ==>
              ActedAll(acts[..k + 1], now, levels, r) ==
              Acted(acts[k], now, levels, ActedAll(acts[..k], now, levels, r))
  {
    if k < |acts| {
      assert acts[..k + 1][..k] == acts[..k];
    }
  }

  lemma OneMoreCall(calls: seq<Event>, eb: Event, script: Script, now: int, levels: nat, r: Roster)
    ensures AfterCalls([], script, now, levels, r) == r
    ensures AfterCalls(calls + [eb], script, now, levels, r) ==
            ActedAll(script(|calls|, eb), now, levels, AfterCalls(calls, script, now, levels, r))
  {
    assert (calls + [eb])[..|calls|] == calls;
  }

  /** The running watchers. */
  function WatchersIn(r: Roster): set<Event> {
    set e | e in r.status && r.status[e].active && e.kind == Kind.Io
  }

  function PrioritiesIn(r: Roster): map<Event, nat> {
    map e | e in r.status :: r.status[e].priority
  }

  /** The timers that are due at the time `now`. */
  function DueIn(r: Roster, now: int): set<Event> {
    set e | e in r.status && r.status[e].timing && r.status[e].stamp <= now
  }

  /** The timers that are due have fired: those that repeat go on, and the others are no longer running. */
  function Elapsed(now: int, r: Roster): Roster {
    r.(status := map e | e in r.status :: Fired(now, r.status[e]))
  }

  function Fired(now: int, s: Status): Status {
    if !s.timing || s.stamp > now then s
    else if s.repeat > 0 then s.(stamp := NextDue(s.stamp, s.repeat, now))
    else s.(timing := false)
  }

  lemma ActedIs(r: Roster, s: Roster, act: Action, now: int, levels: nat)
    requires act.ev in r.status && s.status.Keys == r.status.Keys
    requires forall e :: e in r.status && e != act.ev ==> s.status[e] == r.status[e]
    requires var same := r.status[act.ev].active == act.Start?;
             && s.status[act.ev] == (if same then r.status[act.ev]
                                     else if act.Start? then Begun(act.ev.kind, r.status[act.ev], now, levels)
                                     else r.status[act.ev].(active := false, timing := false))
             && s.befores == (if same || act.ev.kind != Before then r.befores
                              else if act.Start? then [act.ev] + r.befores else Unlinked(r.befores, act.ev))
             && s.afters == (if same || act.ev.kind != After then r.afters
                             else if act.Start? then [act.ev] + r.afters else Unlinked(r.afters, act.ev))
    ensures s == Acted(act, now, levels, r)
  {
  }

  /** A loop at one moment: its events, the masks recorded for descriptors, the registrations, and what is queued. */
  datatype Moment = Moment(roster: Roster, masks: map<nat, Mask>, kernel: map<nat, Mask>, queued: set<Event>)

  class Loop {
    const pend: Pending
    const timers: TimerSet
    const io: IoTable
    var befores: seq<Event>
    var afters: seq<Event>

    /** A loop for the events `known`, none of which has been started. */
    constructor (empty: Event, priorities: nat, fds: nat, slots: nat, ghost known: set<Event>)
      requires priorities > 0 && slots > 0 && empty !in known
      requires forall e :: e in known ==> !e.active && e.pendpos == 0 && e.heap_pos == 0
      ensures Valid() && Idle() && pend.known == known && pend.empty == empty && |pend.queues| == priorities
      ensures fresh(pend) && fresh(timers) && fresh(timers.heap) && fresh(io)
    {
      hide IoTable.Valid, Heap, Active, Pending.ValidFrom, Loop.ValidFrom, TimerSet.ValidFrom, Idle;
      pend := new Pending(empty, priorities);
      timers := new TimerSet(slots);
      io := new IoTable(fds);
      befores, afters := [], [];
      new;
      pend.known := known;
      NothingStarted();
    }

    lemma NothingStarted()
      requires forall e :: e in pend.known ==> !e.active && e.pendpos == 0 && e.heap_pos == 0
      requires pend.empty !in pend.known && |pend.queues| > 0
      requires forall p :: 0 <= p < |pend.queues| ==> pend.queues[p] == []
      requires timers.timers == {} && Heap(timers.heap, timers.cnt, timers.timers)
      requires io.Valid() && io.watchers == {} && befores == afters == []
      ensures Valid() && Idle()
    {
      hide IoTable.Valid, Heap;
      assert Active(Kind.Io) == {} && Active(Kind.Timer) == {} && Active(Before) == {} && Active(After) == {};
    }

    /** Nothing is queued. */
    ghost predicate Idle()
      reads pend`queues, pend`known, pend.known`pendpos
    {
      && (forall p :: 0 <= p < |pend.queues| ==> pend.queues[p] == [])
      && (forall e :: e in pend.known ==> e.pendpos == 0)
    }

    /** The active events of one kind. */
    ghost function Active(kind: Kind): set<Event>
      reads pend`known, pend.known`active
    {
      set e | e in pend.known && e.kind == kind && e.active
    }

    /** A list of hooks holds exactly the active ones of its kind, each once. */
    ghost predicate Listed(evq: seq<Event>, kind: Kind)
      reads pend`known, pend`queues, pend.known`active, pend.known`priority
    {
      && NoDup(evq) && Elements(evq) == Active(kind)
      && InQueueRange(kind)
    }

    /** The timers in the heap and the watchers in the descriptor table are the active ones. */
    ghost predicate Registered()
      reads pend`known, pend.known`active, timers`timers, io`watchers
    {
      timers.timers <= Active(Kind.Timer) && io.watchers == Active(Kind.Io)
    }

    /** All parts agree; in a pass over the pending queues, what lies before slot `j` of priority `p` is done. */
    ghost predicate ValidFrom(p: nat, j: nat)
      reads this, pend, timers, timers.heap, io, pend.known`pendpos, pend.known`priority, pend.known`active
      reads pend.known`heap_pos, timers.timers`timestamp, timers.timers`heap_pos, timers.timers`active
      reads timers.timers`priority, io.watchers`active, io.watchers`priority
    {
      && timers.ValidFrom(pend, {}, p, j) && io.Valid() && io.Running(pend)
      && Registered() && Listed(befores, Before) && Listed(afters, After)
    }

    ghost predicate Valid()
      reads this, pend, timers, timers.heap, io, pend.known`pendpos, pend.known`priority, pend.known`active
      reads pend.known`heap_pos, timers.timers`timestamp, timers.timers`heap_pos, timers.timers`active
      reads timers.timers`priority, io.watchers`active, io.watchers`priority
    {
      ValidFrom(0, 0)
    }

    lemma Known(p: nat, j: nat)
      requires ValidFrom(p, j)
      ensures timers.timers <= pend.known && io.watchers <= pend.known && pend.ValidFrom(p, j) && pend.ActiveBut({})
      ensures io.Valid() && io.Running(pend) && timers.ValidFrom(pend, {}, p, j)
    {
    }

    ghost function StatusOf(e: Event): (s: Status)
      reads timers`timers, e`active, e`timestamp, e`repeat, e`priority
    {
      Status(e.active, e in timers.timers, e.timestamp, e.repeat, e.priority)
    }

    ghost function Enrolled(): Roster
      reads `befores, `afters, pend`known, timers`timers
      reads pend.known`active, pend.known`timestamp, pend.known`repeat, pend.known`priority
    {
      Roster(map e | e in pend.known :: StatusOf(e), befores, afters)
    }

    lemma EnrolledIs()
      ensures var r := Enrolled();
              && r.status.Keys == pend.known && r.befores == befores && r.afters == afters
              && forall e :: e in pend.known ==> r.status[e] == StatusOf(e)
    {
    }

    /** What is queued. */
    ghost function Waiting(): set<Event>
      reads pend`known, pend.known`pendpos
    {
      set e | e in pend.known && Queued(e)
    }

    ghost function Present(): Moment
      reads `befores, `afters, pend`known, timers`timers, io`fds, io`kernel, pend.known`pendpos
      reads pend.known`active, pend.known`timestamp, pend.known`repeat, pend.known`priority
    {
      Moment(Enrolled(), io.Recorded(), io.kernel, Waiting())
    }

    // ---- what a callback can do ----

    method StartIo(ev: Event, ghost p: nat, ghost j: nat)
      requires ValidFrom(p, j) && ev in pend.known && ev.kind == Kind.Io
      modifies io, ev`active, ev`priority
      ensures ValidFrom(p, j) && ev.active
      ensures Enrolled() == Acted(Start(ev), 0, |pend.queues|, old(Enrolled()))
      ensures io.kernel == old(io.kernel) && io.Recorded() == old(io.Recorded())
    {
      hide Loop.ValidFrom, Loop.Enrolled, Acted, Unlinked, IoTable.Recorded;
      EnrolledIs();
      ghost var r := Enrolled();
      Watch(ev, p, j);
      EnrolledIs();
      ActedIs(r, Enrolled(), Start(ev), 0, |pend.queues|);
    }

    method Watch(ev: Event, ghost p: nat, ghost j: nat)
      requires ValidFrom(p, j) && ev in pend.known && ev.kind == Kind.Io
      modifies io, ev`active, ev`priority
      ensures ValidFrom(p, j) && ev.active
      ensures ev.priority == if old(ev.active) || old(ev.priority) < |pend.queues| then old(ev.priority)
                             else |pend.queues| - 1
      ensures io.kernel == old(io.kernel) && io.Recorded() == old(io.Recorded())
    {
      hide IoTable.Valid, Pending.ValidFrom, Heap, IoTable.Recorded;
      io.IoStart(ev, pend, p, j);
      io.SameMasks();
    }

    method Unwatch(ev: Event, ghost p: nat, ghost j: nat)
      requires ValidFrom(p, j) && ev in pend.known && ev.kind == Kind.Io
      modifies io, ev`active, ev`pendpos, pend`queues
      ensures ValidFrom(p, j) && !ev.active
      ensures pend.Holed(old(pend.queues), {ev}, p, j) && pend.SameBefore(old(pend.queues), p)
      ensures io.kernel == old(io.kernel) && io.Recorded() == old(io.Recorded())
    {
      hide IoTable.Recorded, IoTable.Valid, Pending.ValidFrom, Heap, Pending.Holed;
      io.IoStop(ev, pend, p, j);
      io.SameMasks();
    }

    method StopIo(ev: Event, ghost p: nat, ghost j: nat)
      requires ValidFrom(p, j) && ev in pend.known && ev.kind == Kind.Io
      modifies io, ev`active, ev`pendpos, pend`queues
      ensures ValidFrom(p, j) && !ev.active
      ensures pend.Holed(old(pend.queues), {ev}, p, j) && pend.SameBefore(old(pend.queues), p)
      ensures Enrolled() == Acted(Stop(ev), 0, |pend.queues|, old(Enrolled()))
      ensures io.kernel == old(io.kernel) && io.Recorded() == old(io.Recorded())
    {
      hide Loop.ValidFrom, Loop.Enrolled, Acted, Unlinked, IoTable.Recorded, Pending.Holed;
      EnrolledIs();
      NotTiming(ev, p, j);
      ghost var r := Enrolled();
      Unwatch(ev, p, j);
      EnrolledIs();
      ActedIs(r, Enrolled(), Stop(ev), 0, |pend.queues|);
    }

    method StartTimer(ev: Event, now: int, ghost p: nat, ghost j: nat)
      requires ValidFrom(p, j) && ev in pend.known && ev.kind == Kind.Timer
      modifies timers, timers.heap, timers.timers`heap_pos, ev`active, ev`priority, ev`timestamp, ev`heap_pos
      ensures ValidFrom(p, j) && ev.active && (timers.heap == old(timers.heap) || fresh(timers.heap))
      ensures Enrolled() == Acted(Start(ev), now, |pend.queues|, old(Enrolled()))
    {
      hide Loop.ValidFrom, Loop.Enrolled, Acted, Unlinked, IoTable.Recorded;
      EnrolledIs();
      TimersKnown(p, j);
      ghost var r := Enrolled();
      Schedule(ev, now, p, j);
      EnrolledIs();
      ActedIs(r, Enrolled(), Start(ev), now, |pend.queues|);
    }

    method Schedule(ev: Event, now: int, ghost p: nat, ghost j: nat)
      requires ValidFrom(p, j) && ev in pend.known && ev.kind == Kind.Timer
      modifies timers, timers.heap, timers.timers`heap_pos, ev`active, ev`priority, ev`timestamp, ev`heap_pos
      ensures ValidFrom(p, j) && ev.active && (timers.heap == old(timers.heap) || fresh(timers.heap))
      ensures if old(ev.active) then timers.timers == old(timers.timers) && ev.timestamp == old(ev.timestamp)
              else timers.timers == old(timers.timers) + {ev} && ev.timestamp == old(ev.timestamp) + now
      ensures ev.priority == if old(ev.active) || old(ev.priority) < |pend.queues| then old(ev.priority)
                             else |pend.queues| - 1
    {
      hide IoTable.Valid, Pending.ValidFrom, Heap;
      timers.Start(ev, now, pend, p, j);
      assert Active(Before) == old(Active(Before)) && Active(After) == old(Active(After));
    }

    lemma TimersKnown(p: nat, j: nat)
      requires ValidFrom(p, j)
      ensures timers.timers <= pend.known && |pend.queues| > 0 && forall e :: e in timers.timers ==> e.active
    {
    }

    method Unschedule(ev: Event, ghost p: nat, ghost j: nat)
      requires ValidFrom(p, j) && ev in pend.known && ev.kind == Kind.Timer
      modifies timers`cnt, timers`timers, timers.heap, timers.timers`heap_pos, pend`queues, ev`pendpos, ev`active
      ensures ValidFrom(p, j) && !ev.active
      ensures pend.Holed(old(pend.queues), {ev}, p, j) && pend.SameBefore(old(pend.queues), p)
      ensures timers.timers == old(timers.timers) - {ev}
    {
      hide IoTable.Valid, Pending.ValidFrom, Heap, Pending.Holed;
      timers.Stop(ev, pend, p, j);
    }

    method StopTimer(ev: Event, ghost p: nat, ghost j: nat)
      requires ValidFrom(p, j) && ev in pend.known && ev.kind == Kind.Timer
      modifies timers`cnt, timers`timers, timers.heap, timers.timers`heap_pos, pend`queues, ev`pendpos, ev`active
      ensures ValidFrom(p, j) && !ev.active
      ensures pend.Holed(old(pend.queues), {ev}, p, j) && pend.SameBefore(old(pend.queues), p)
      ensures Enrolled() == Acted(Stop(ev), 0, |pend.queues|, old(Enrolled()))
    {
      hide Loop.ValidFrom, Loop.Enrolled, Acted, Unlinked, IoTable.Recorded, Pending.Holed;
      EnrolledIs();
      TimersKnown(p, j);
      ghost var r := Enrolled();
      Unschedule(ev, p, j);
      EnrolledIs();
      ActedIs(r, Enrolled(), Stop(ev), 0, |pend.queues|);
    }

    /** Mark a hook as started; it is still to be listed. */
    method Activate(ev: Event, ghost p: nat, ghost j: nat)
      requires ValidFrom(p, j) && ev in pend.known && (ev.kind == Before || ev.kind == After) && !ev.active
      modifies ev`active, ev`priority
      ensures timers.ValidFrom(pend, {}, p, j) && io.Valid() && io.Running(pend) && Registered() && ev.active
      ensures ev.priority == if old(ev.priority) < |pend.queues| then old(ev.priority) else |pend.queues| - 1
      ensures Active(ev.kind) == old(Active(ev.kind)) + {ev}
      ensures forall kind: Kind :: kind != ev.kind ==> Active(kind) == old(Active(kind))
      ensures forall kind: Kind :: old(InQueueRange(kind)) ==> InQueueRange(kind)
    {
      hide IoTable.Valid, Pending.ValidFrom, Heap, NoDup, Elements;
      pend.StartEvent(ev, p, j);
    }

    /** The active events of the kind have queues. */
    ghost predicate InQueueRange(kind: Kind)
      reads pend`known, pend`queues, pend.known`active, pend.known`priority
    {
      forall e :: e in Active(kind) ==> e.priority < |pend.queues|
    }

    lemma Inactive(ev: Event, p: nat, j: nat)
      requires ValidFrom(p, j) && !ev.active
      ensures ev !in Elements(befores) && ev !in Elements(afters)
    {
    }

    lemma NotTiming(ev: Event, p: nat, j: nat)
      requires ValidFrom(p, j) && ev.kind != Kind.Timer
      ensures ev !in timers.timers
    {
    }

    /** Stop a hook; it is still listed. */
    method Deactivate(ev: Event, ghost p: nat, ghost j: nat)
      requires ValidFrom(p, j) && ev in pend.known && (ev.kind == Before || ev.kind == After) && ev.active
      modifies pend`queues, ev`pendpos, ev`active
      ensures timers.ValidFrom(pend, {}, p, j) && io.Valid() && io.Running(pend) && Registered() && !ev.active
      ensures Active(ev.kind) == old(Active(ev.kind)) - {ev}
      ensures forall kind: Kind :: kind != ev.kind ==> Active(kind) == old(Active(kind))
      ensures forall kind: Kind :: old(InQueueRange(kind)) ==> InQueueRange(kind)
      ensures pend.Holed(old(pend.queues), {ev}, p, j) && pend.SameBefore(old(pend.queues), p)
    {
      hide IoTable.Valid, Pending.ValidFrom, Heap, NoDup, Elements;
      pend.StopEvent(ev, p, j);
    }

    method AddBefore(ev: Event, ghost p: nat, ghost j: nat)
      requires ValidFrom(p, j) && ev in pend.known && ev.kind == Before
      modifies `befores, ev`active, ev`priority
      ensures ValidFrom(p, j) && ev.active
      ensures befores == if old(ev.active) then old(befores) else [ev] + old(befores)
      ensures ev.priority == if old(ev.active) || old(ev.priority) < |pend.queues| then old(ev.priority)
                             else |pend.queues| - 1
    {
      hide IoTable.Valid, Pending.ValidFrom, Heap, NoDup, Elements, TimerSet.ValidFrom, Active;
      if ev.active {
        return;
      }
      Inactive(ev, p, j);
      Joined(ev, befores);
      Activate(ev, p, j);
      befores := [ev] + befores;
    }

    method StartBefore(ev: Event, ghost p: nat, ghost j: nat)
      requires ValidFrom(p, j) && ev in pend.known && ev.kind == Before
      modifies `befores, ev`active, ev`priority
      ensures ValidFrom(p, j) && ev.active
      ensures Enrolled() == Acted(Start(ev), 0, |pend.queues|, old(Enrolled()))
    {
      hide Loop.ValidFrom, Loop.Enrolled, Acted, Unlinked, IoTable.Recorded, Pending.Holed;
      EnrolledIs();
      TimersKnown(p, j);
      ghost var r := Enrolled();
      AddBefore(ev, p, j);
      EnrolledIs();
      ActedIs(r, Enrolled(), Start(ev), 0, |pend.queues|);
    }

    method DropBefore(ev: Event, ghost p: nat, ghost j: nat)
      requires ValidFrom(p, j) && ev in pend.known && ev.kind == Before
      modifies `befores, pend`queues, ev`pendpos, ev`active
      ensures ValidFrom(p, j) && !ev.active
      ensures pend.Holed(old(pend.queues), {ev}, p, j) && pend.SameBefore(old(pend.queues), p)
      ensures befores == if old(ev.active) then Unlinked(old(befores), ev) else old(befores)
    {
      hide IoTable.Valid, Pending.ValidFrom, Heap, Pending.Holed, NoDup, Elements, TimerSet.ValidFrom, Active;
      Known(p, j);
      if !ev.active {
        pend.InactiveNotQueued(ev, p, j);
        return;
      }
      Deactivate(ev, p, j);
      UnlinkedElements(befores, ev);
      befores := Unlinked(befores, ev);
    }

    method StopBefore(ev: Event, ghost p: nat, ghost j: nat)
      requires ValidFrom(p, j) && ev in pend.known && ev.kind == Before
      modifies `befores, pend`queues, ev`pendpos, ev`active
      ensures ValidFrom(p, j) && !ev.active
      ensures pend.Holed(old(pend.queues), {ev}, p, j) && pend.SameBefore(old(pend.queues), p)
      ensures Enrolled() == Acted(Stop(ev), 0, |pend.queues|, old(Enrolled()))
    {
      hide Loop.ValidFrom, Loop.Enrolled, Acted, Unlinked, IoTable.Recorded, Pending.Holed;
      EnrolledIs();
      NotTiming(ev, p, j);
      ghost var r := Enrolled();
      DropBefore(ev, p, j);
      EnrolledIs();
      ActedIs(r, Enrolled(), Stop(ev), 0, |pend.queues|);
    }

    method AddAfter(ev: Event, ghost p: nat, ghost j: nat)
      requires ValidFrom(p, j) && ev in pend.known && ev.kind == After
      modifies `afters, ev`active, ev`priority
      ensures ValidFrom(p, j) && ev.active
      ensures afters == if old(ev.active) then old(afters) else [ev] + old(afters)
      ensures ev.priority == if old(ev.active) || old(ev.priority) < |pend.queues| then old(ev.priority)
                             else |pend.queues| - 1
    {
      hide IoTable.Valid, Pending.ValidFrom, Heap, NoDup, Elements, TimerSet.ValidFrom, Active;
      if ev.active {
        return;
      }
      Inactive(ev, p, j);
      Joined(ev, afters);
      Activate(ev, p, j);
      afters := [ev] + afters;
    }

    method StartAfter(ev: Event, ghost p: nat, ghost j: nat)
      requires ValidFrom(p, j) && ev in pend.known && ev.kind == After
      modifies `afters, ev`active, ev`priority
      ensures ValidFrom(p, j) && ev.active
      ensures Enrolled() == Acted(Start(ev), 0, |pend.queues|, old(Enrolled()))
    {
      hide Loop.ValidFrom, Loop.Enrolled, Acted, Unlinked, IoTable.Recorded, Pending.Holed;
      EnrolledIs();
      TimersKnown(p, j);
      ghost var r := Enrolled();
      AddAfter(ev, p, j);
      EnrolledIs();
      ActedIs(r, Enrolled(), Start(ev), 0, |pend.queues|);
    }

    method DropAfter(ev: Event, ghost p: nat, ghost j: nat)
      requires ValidFrom(p, j) && ev in pend.known && ev.kind == After
      modifies `afters, pend`queues, ev`pendpos, ev`active
      ensures ValidFrom(p, j) && !ev.active
      ensures pend.Holed(old(pend.queues), {ev}, p, j) && pend.SameBefore(old(pend.queues), p)
      ensures afters == if old(ev.active) then Unlinked(old(afters), ev) else old(afters)
    {
      hide IoTable.Valid, Pending.ValidFrom, Heap, Pending.Holed, NoDup, Elements, TimerSet.ValidFrom, Active;
      Known(p, j);
      if !ev.active {
        pend.InactiveNotQueued(ev, p, j);
        return;
      }
      Deactivate(ev, p, j);
      UnlinkedElements(afters, ev);
      afters := Unlinked(afters, ev);
    }

    method StopAfter(ev: Event, ghost p: nat, ghost j: nat)
      requires ValidFrom(p, j) && ev in pend.known && ev.kind == After
      modifies `afters, pend`queues, ev`pendpos, ev`active
      ensures ValidFrom(p, j) && !ev.active
      ensures pend.Holed(old(pend.queues), {ev}, p, j) && pend.SameBefore(old(pend.queues), p)
      ensures Enrolled() == Acted(Stop(ev), 0, |pend.queues|, old(Enrolled()))
    {
      hide Loop.ValidFrom, Loop.Enrolled, Acted, Unlinked, IoTable.Recorded, Pending.Holed;
      EnrolledIs();
      NotTiming(ev, p, j);
      ghost var r := Enrolled();
      DropAfter(ev, p, j);
      EnrolledIs();
      ActedIs(r, Enrolled(), Stop(ev), 0, |pend.queues|);
    }

    /** One start or stop. */
    method Do(act: Action, now: int, ghost p: nat, ghost j: nat)
      requires ValidFrom(p, j) && act.ev in pend.known
      modifies `befores, `afters, io, timers, timers.heap, pend`queues, pend.known`pendpos, pend.known`active
      modifies pend.known`priority, pend.known`timestamp, pend.known`heap_pos
      ensures ValidFrom(p, j) && (timers.heap == old(timers.heap) || fresh(timers.heap))
      ensures act.ev.active <==> act.Start?
      ensures Enrolled() == Acted(act, now, |pend.queues|, old(Enrolled()))
      ensures io.kernel == old(io.kernel) && io.Recorded() == old(io.Recorded())
      ensures pend.Holed(old(pend.queues), Stopped([act]), p, j) && pend.SameBefore(old(pend.queues), p)
    {
      hide Loop.ValidFrom, Loop.Enrolled, Acted, IoTable.Recorded;
      NowIsForTimers(act, now, |pend.queues|, Enrolled());
      Known(p, j);
      assert Stopped([act]) == if act.Stop? then {act.ev} else {} by {
        assert [act][0] == act;
      }
      match act
      case Start(ev) =>
        match ev.kind {
          case Io => StartIo(ev, p, j);
          case Timer => StartTimer(ev, now, p, j);
          case Before => StartBefore(ev, p, j);
          case After => StartAfter(ev, p, j);
        }
      case Stop(ev) =>
        match ev.kind {
          case Io => StopIo(ev, p, j);
          case Timer => StopTimer(ev, p, j);
          case Before => StopBefore(ev, p, j);
          case After => StopAfter(ev, p, j);
        }
    }

    /** The body of one callback. */
    method Perform(acts: seq<Action>, now: int, ghost p: nat, ghost j: nat)
      requires ValidFrom(p, j) && forall k :: 0 <= k < |acts| ==> acts[k].ev in pend.known
      modifies `befores, `afters, io, timers, timers.heap, pend`queues, pend.known`pendpos, pend.known`active
      modifies pend.known`priority, pend.known`timestamp, pend.known`heap_pos
      ensures ValidFrom(p, j) && (timers.heap == old(timers.heap) || fresh(timers.heap))
      ensures Enrolled() == ActedAll(acts, now, |pend.queues|, old(Enrolled()))
      ensures io.kernel == old(io.kernel) && io.Recorded() == old(io.Recorded())
      ensures pend.Holed(old(pend.queues), Stopped(acts), p, j) && pend.SameBefore(old(pend.queues), p)
    {
      hide Loop.ValidFrom, Loop.Enrolled, Acted, ActedAll, IoTable.Recorded;
      assert Stopped(acts[..0]) == {};
      OneMoreAct(acts, 0, now, |pend.queues|, Enrolled());
      for k := 0 to |acts|
        invariant ValidFrom(p, j) && (timers.heap == old(timers.heap) || fresh(timers.heap))
        invariant Enrolled() == ActedAll(acts[..k], now, |pend.queues|, old(Enrolled()))
        invariant io.kernel == old(io.kernel) && io.Recorded() == old(io.Recorded())
        invariant pend.Holed(old(pend.queues), Stopped(acts[..k]), p, j) && pend.SameBefore(old(pend.queues), p)
      {
        ghost var queues := pend.queues;
        OneMoreAct(acts, k, now, |pend.queues|, old(Enrolled()));
        Do(acts[k], now, p, j);
        StoppedSnoc(acts, k);
        Pending.ThinnedFurther(old(pend.queues), queues, pend.queues, pend.empty, Stopped(acts[..k]),
                               Stopped([acts[k]]), p, j);
      }
      assert acts[..|acts|] == acts;
    }

    // ---- executing the pending queues ----

    /** The event of the slot about to be executed counts as queued no longer. */
    method ClearSlot(i: nat, j: nat) returns (eb: Event)
      requires i < |pend.queues| && j < |pend.queues[i]| && ValidFrom(i, j)
      modifies pend.known`pendpos, pend.empty`pendpos
      ensures ValidFrom(i, j + 1) && eb == pend.queues[i][j] && (eb == pend.empty || eb in pend.known)
    {
      hide IoTable.Valid, Heap, NoDup, Elements;
      eb := pend.queues[i][j];
      pend.QueuedHere(i, j);
      pend.ClearPosition(eb, i, j);
    }

    /** Clear the slot's event and run its callback. */
    method ExecuteSlot(i: nat, j: nat, script: Script, now: int, calls: seq<Event>, ghost qs: seq<seq<Event>>,
                       ghost done: seq<Event>, ghost r: Roster)
        returns (calls': seq<Event>)
      requires i < |pend.queues| == |qs| && j < |pend.queues[i]| == |qs[i]| && ValidFrom(i, j)
      requires pend.Progress(qs, done, script, calls, i, j) && pend.KnownScript(script)
      requires Enrolled() == AfterCalls(calls, script, now, |qs|, r)
      modifies `befores, `afters, io, timers, timers.heap, pend`queues, pend.known`pendpos, pend.known`active
      modifies pend.known`priority, pend.known`timestamp, pend.known`heap_pos, pend.empty`pendpos
      ensures ValidFrom(i, j + 1) && (timers.heap == old(timers.heap) || fresh(timers.heap))
      ensures pend.Progress(qs, done + [qs[i][j]], script, calls', i, j + 1)
      ensures pend.SameBefore(old(pend.queues), i)
      ensures Enrolled() == AfterCalls(calls', script, now, |qs|, r)
      ensures io.kernel == old(io.kernel) && io.Recorded() == old(io.Recorded())
    {
      hide Loop.Enrolled, AfterCalls, ActedAll, IoTable.Recorded;
      hide Loop.ValidFrom, Calls, Gone, Pending.Thinned, Pending.ValidFrom, Pending.ActiveBut, Stopped;
      CallsExtend(done, qs[i][j], script, pend.empty);
      pend.SlotOutcome(qs, done, script, calls, i, j);
      ghost var mid, gone := pend.queues, Gone(done, script, pend.empty, 0, {});
      Known(i, j);
      var eb := ClearSlot(i, j);
      calls' := calls;
      if eb != pend.empty {
        calls' := calls + [eb];
        OneMoreCall(calls, eb, script, now, |qs|, r);
        Perform(script(|calls|, eb), now, i, j + 1);
        Pending.ThinnedFurther(qs, mid, pend.queues, pend.empty, gone, Stopped(script(|calls|, eb)), i, j + 1);
      }
      Known(i, j + 1);
    }

    /** Execute the queue of one priority and clear it. */
    method ExecuteQueue(i: nat, script: Script, now: int, calls: seq<Event>, ghost qs: seq<seq<Event>>,
                        ghost r: Roster)
        returns (calls': seq<Event>)
      requires i < |pend.queues| == |qs| && ValidFrom(i, 0)
      requires pend.Progress(qs, Flatten(qs[..i]), script, calls, i, 0) && pend.KnownScript(script)
      requires Enrolled() == AfterCalls(calls, script, now, |qs|, r)
      modifies `befores, `afters, io, timers, timers.heap, pend`queues, pend.known`pendpos, pend.known`active
      modifies pend.known`priority, pend.known`timestamp, pend.known`heap_pos, pend.empty`pendpos
      ensures ValidFrom(i + 1, 0) && (timers.heap == old(timers.heap) || fresh(timers.heap))
      ensures |pend.queues| == |qs| && pend.Progress(qs, Flatten(qs[..i + 1]), script, calls', i + 1, 0)
      ensures pend.queues[i] == [] && pend.SameBefore(old(pend.queues), i)
      ensures Enrolled() == AfterCalls(calls', script, now, |qs|, r)
      ensures io.kernel == old(io.kernel) && io.Recorded() == old(io.Recorded())
    {
      hide Loop.Enrolled, AfterCalls, IoTable.Recorded;
      hide Loop.ValidFrom, Calls, Gone, Pending.Progress;
      ghost var before := Flatten(qs[..i]);
      calls' := calls;
      pend.ProgressSize(qs, before, script, calls, i, 0);
      assert before + qs[i][..0] == before;
      for j := 0 to |pend.queues[i]|
        invariant |pend.queues| == |qs| && |pend.queues[i]| == |qs[i]|
        invariant ValidFrom(i, j) && (timers.heap == old(timers.heap) || fresh(timers.heap))
        invariant pend.Progress(qs, before + qs[i][..j], script, calls', i, j)
        invariant pend.SameBefore(old(pend.queues), i)
        invariant Enrolled() == AfterCalls(calls', script, now, |qs|, r)
        invariant io.kernel == old(io.kernel) && io.Recorded() == old(io.Recorded())
      {
        pend.ProgressSize(qs, before + qs[i][..j], script, calls', i, j);
        calls' := ExecuteSlot(i, j, script, now, calls', qs, before + qs[i][..j], r);
        pend.ProgressSize(qs, before + qs[i][..j] + [qs[i][j]], script, calls', i, j + 1);
        assert before + qs[i][..j] + [qs[i][j]] == before + qs[i][..j + 1];
      }
      FlattenSnoc(qs, i);
      assert qs[i][..|qs[i]|] == qs[i];
      ClearQueue(i, qs, Flatten(qs[..i + 1]), script, calls');
    }

    method ClearQueue(i: nat, ghost qs: seq<seq<Event>>, ghost done: seq<Event>, ghost script: Script,
                      ghost calls: seq<Event>)
      requires i < |pend.queues| == |qs| && ValidFrom(i, |pend.queues[i]|)
      requires pend.Progress(qs, done, script, calls, i, |pend.queues[i]|)
      modifies pend`queues
      ensures pend.queues == old(pend.queues)[i := []]
      ensures ValidFrom(i + 1, 0) && pend.Progress(qs, done, script, calls, i + 1, 0)
    {
      hide IoTable.Valid, Heap, NoDup, Elements, Calls, Gone;
      pend.ClearQueue(i);
    }

    /**
     * Execute all queues, highest priority first, and leave them empty. The callbacks act on timers,
     * watchers and hooks, which agree with each other whenever one of them runs.
     */
    method Execute(script: Script, now: int) returns (calls: seq<Event>)
      requires Valid() && pend.KnownScript(script)
      modifies `befores, `afters, io, timers, timers.heap, pend`queues, pend.known`pendpos, pend.known`active
      modifies pend.known`priority, pend.known`timestamp, pend.known`heap_pos, pend.empty`pendpos
      ensures Valid() && Idle() && (timers.heap == old(timers.heap) || fresh(timers.heap))
      ensures |pend.queues| == |old(pend.queues)|
      ensures calls == Calls(Flatten(old(pend.queues)), script, pend.empty, 0, {})
      ensures Enrolled() == AfterCalls(calls, script, now, |pend.queues|, old(Enrolled()))
      ensures io.kernel == old(io.kernel) && io.Recorded() == old(io.Recorded())
    {
      hide Loop.Enrolled, AfterCalls, IoTable.Recorded;
      hide Loop.ValidFrom, Calls, Gone;
      Known(0, 0);
      ghost var qs, r := pend.queues, Enrolled();
      OneMoreCall([], pend.empty, script, now, |qs|, r);
      calls := [];
      pend.NothingDone(script);
      for i := 0 to |pend.queues|
        invariant |pend.queues| == |qs|
        invariant ValidFrom(i, 0) && (timers.heap == old(timers.heap) || fresh(timers.heap))
        invariant pend.Progress(qs, Flatten(qs[..i]), script, calls, i, 0)
        invariant Enrolled() == AfterCalls(calls, script, now, |qs|, r)
        invariant io.kernel == old(io.kernel) && io.Recorded() == old(io.Recorded())
        invariant forall p :: 0 <= p < i ==> pend.queues[p] == []
      {
        calls := ExecuteQueue(i, script, now, calls, qs, r);
      }
      assert qs[..|qs|] == qs;
      AllDone();
    }

    lemma AllDone()
      requires ValidFrom(|pend.queues|, 0) && forall p :: 0 <= p < |pend.queues| ==> pend.queues[p] == []
      ensures Valid() && Idle()
    {
    }

    // ---- queueing ----

    ghost predicate Queued(e: Event)
      reads e`pendpos
    {
      e.pendpos > 0
    }

    method QueueHook(ev: Event)
      requires Valid() && ev in pend.known && ev.active && ev.priority < |pend.queues|
      modifies pend`queues, ev`pendpos
      ensures Valid() && Queued(ev) && Extends(old(pend.queues), pend.queues)
    {
      hide IoTable.Valid, Heap, NoDup, Elements, Pending.ValidFrom;
      pend.Append(ev);
    }

    /** Queue all hooks of one kind. */
    method QueueHooks(evq: seq<Event>, ghost kind: Kind)
      requires Valid() && Listed(evq, kind)
      modifies pend`queues, pend.known`pendpos
      ensures Valid() && Extends(old(pend.queues), pend.queues)
      ensures Waiting() == old(Waiting()) + Elements(evq)
    {
      hide Loop.ValidFrom, Extends;
      StillExtends(pend.queues);
      for k := 0 to |evq|
        invariant Valid() && Extends(old(pend.queues), pend.queues) && |pend.queues| == |old(pend.queues)|
        invariant forall e :: e in pend.known ==> (Queued(e) <==> old(Queued(e)) || e in evq[..k])
      {
        assert evq[k] in Elements(evq);
        ghost var queues := pend.queues;
        QueueHook(evq[k]);
        SameLevels(queues, pend.queues);
        ExtendsFurther(old(pend.queues), queues, pend.queues);
        assert evq[..k + 1] == evq[..k] + [evq[k]];
      }
      assert evq[..|evq|] == evq;
      assert forall e :: e in Elements(evq) ==> e in pend.known;
    }

    /** Queue the watchers of what epoll reports. */
    method QueueReported(reports: seq<Report>)
      requires Valid() && io.Reportable(reports)
      modifies io`kernel, pend`queues, pend.known`pendpos
      ensures Valid() && Extends(old(pend.queues), pend.queues)
      ensures Waiting() == old(Waiting()) + HitIn(io.watchers, reports)
      ensures io.kernel == old(io.kernel) - Stale(reports, io.Recorded())
    {
      hide IoTable.Valid, Heap, NoDup, Elements, Pending.ValidFrom, Extends, IoTable.MaskAt, IoTable.Recorded;
      io.RecordedAt();
      ghost var queues := pend.queues;
      io.Dispatch(reports, pend);
      SameLevels(queues, pend.queues);
      assert forall e :: e in io.watchers ==>
               (Queued(e) <==> old(Queued(e)) || exists k :: 0 <= k < |reports| && Hits(e, reports[k]));
    }

    /** Queue the timers that are due. */
    method QueueDue(now: int)
      requires Valid()
      modifies timers, timers.heap, pend`queues
      modifies pend.known`pendpos, pend.known`active, pend.known`priority, pend.known`timestamp, pend.known`heap_pos
      ensures Valid() && (timers.heap == old(timers.heap) || fresh(timers.heap))
      ensures forall e :: e in timers.timers ==> e.timestamp > now
      ensures Waiting() == old(Waiting() + DueIn(Enrolled(), now)) && Extends(old(pend.queues), pend.queues)
      ensures Enrolled() == Elapsed(now, old(Enrolled()))
    {
      hide Loop.ValidFrom, Loop.Enrolled, Extends, Fired;
      EnrolledIs();
      TimersKnown(0, 0);
      ghost var r := Enrolled();
      Expire(now);
      EnrolledIs();
      ElapsedIs(r, Enrolled(), now);
    }

    method Expire(now: int)
      requires Valid()
      modifies timers, timers.heap, pend`queues
      modifies pend.known`pendpos, pend.known`active, pend.known`priority, pend.known`timestamp, pend.known`heap_pos
      ensures Valid() && (timers.heap == old(timers.heap) || fresh(timers.heap))
      ensures forall e :: e in timers.timers ==> e.timestamp > now
      ensures forall e :: e in pend.known ==>
                (Queued(e) <==> old(Queued(e)) || (e in old(timers.timers) && old(e.timestamp) <= now))
      ensures forall e :: e in pend.known ==> StatusOf(e) == Fired(now, old(StatusOf(e)))
      ensures Extends(old(pend.queues), pend.queues)
    {
      hide IoTable.Valid, Heap, NoDup, Elements, Pending.ValidFrom, Extends, NextDue;
      timers.Expire(now, pend);
    }

    /** What was queued at an earlier time comes first among those of its priority. */
    lemma First(early: seq<seq<Event>>, first: set<Event>)
      requires Valid() && Extends(early, pend.queues)
      requires forall e :: e in pend.known ==> (e in Flatten(early) <==> e in first)
      ensures Precedes(Flatten(pend.queues), pend.empty, pend.Priorities(), first)
    {
      hide Heap, NoDup, Elements, IoTable.Valid, Extends;
      QueueIs();
      pend.QueuedFirst(early, 0);
      assert pend.queues[0..] == pend.queues;
    }

    lemma QueueIs()
      requires Valid()
      ensures NoRepeat(Flatten(pend.queues), pend.empty)
      ensures InOrder(Flatten(pend.queues), pend.empty, pend.Priorities())
      ensures forall e :: e in pend.known ==> (e in Waiting() <==> e in Flatten(pend.queues))
    {
      hide Heap, NoDup, Elements, IoTable.Valid;
      var q := Flatten(pend.queues);
      pend.QueuedOnce(0);
      pend.QueuedInOrder(0);
      assert pend.queues[0..] == pend.queues;
      forall e | e in pend.known ensures e in Waiting() <==> e in q {
        if Queued(e) {
          pend.InQueues(e);
        }
      }
    }

    lemma Parts()
      requires Valid()
      ensures Listed(befores, Before) && Listed(afters, After)
      ensures Heap(timers.heap, timers.cnt, timers.timers) && timers.timers <= pend.known
    {
    }

    // ---- a round ----

    /** The hooks before the poll. What was left over from the last round comes before them. */
    method Prepare(script: Script, now: int) returns (calls: seq<Event>, ghost order: seq<Event>)
      requires Valid() && pend.KnownScript(script)
      modifies `befores, `afters, io, timers, timers.heap, pend`queues, pend.known`pendpos, pend.known`active
      modifies pend.known`priority, pend.known`timestamp, pend.known`heap_pos, pend.empty`pendpos
      ensures Valid() && Idle() && (timers.heap == old(timers.heap) || fresh(timers.heap))
      ensures calls == Calls(order, script, pend.empty, 0, {}) && NoRepeat(order, pend.empty)
      ensures InOrder(order, pend.empty, old(pend.Priorities()))
      ensures forall e :: e in pend.known ==> (e in order <==> e in old(Waiting()) || e in old(befores))
      ensures Precedes(order, pend.empty, old(pend.Priorities()), old(Waiting()))
      ensures Enrolled() == AfterCalls(calls, script, now, |pend.queues|, old(Enrolled()))
      ensures |pend.queues| == |old(pend.queues)|
      ensures io.kernel == old(io.kernel) && io.Recorded() == old(io.Recorded())
    {
      hide Loop.ValidFrom, Listed, Calls, InOrder, NoRepeat, Precedes, Extends, Loop.Enrolled, AfterCalls;
      hide IoTable.Recorded, Loop.Waiting, Loop.Idle;
      Parts();
      QueueIs();
      ghost var early := pend.queues;
      QueueHooks(befores, Before);
      SameLevels(early, pend.queues);
      First(early, old(Waiting()));
      order := Flatten(pend.queues);
      QueueIs();
      calls := Execute(script, now);
    }

    /** Before the poll: the registrations, then, by a clock read anew, how long to wait. */
    method Settle(now: int) returns (us: int)
      requires Valid() && Idle()
      modifies io`fds, io`changes, io`kernel
      ensures Valid() && Idle() && 0 <= us <= 30000000
      ensures forall fd: nat :: io.MaskAt(fd) == MaskOf(io.watchers, fd)
      ensures forall fd: nat :: io.MaskAt(fd) != {} ==> fd in io.kernel && io.kernel[fd] == io.MaskAt(fd)
      ensures forall fd: nat :: io.MaskAt(fd) == {} ==> SameAt(old(io.kernel), io.kernel, fd)
      ensures forall e :: e in timers.timers ==> us <= if e.timestamp > now then e.timestamp - now else 0
      ensures us == 30000000
              || exists e :: e in timers.timers && us == if e.timestamp > now then e.timestamp - now else 0
    {
      hide Loop.ValidFrom, Listed, MaskOf, IoTable.MaskAt, SameAt;
      Synchronise();
      Parts();
      us := timers.PollTime(now);
    }

    method Synchronise()
      requires Valid() && Idle()
      modifies io`fds, io`changes, io`kernel
      ensures Valid() && Idle()
      ensures forall fd: nat :: io.MaskAt(fd) == MaskOf(io.watchers, fd)
      ensures forall fd: nat :: io.MaskAt(fd) != {} ==> fd in io.kernel && io.kernel[fd] == io.MaskAt(fd)
      ensures forall fd: nat :: io.MaskAt(fd) == {} ==> SameAt(old(io.kernel), io.kernel, fd)
    {
      hide Heap, NoDup, Elements, Pending.ValidFrom, IoTable.Valid, MaskOf, SameAt, IoTable.MaskAt, Wanted;
      ghost var kern := io.kernel;
      io.UpdateFdChanges();
      io.Elsewhere(kern);
      io.Synchronised();
      io.InSync();
    }

    /** What epoll reports, then the timers that are due and the hooks after the poll, each in that order. */
    method Serve(reports: seq<Report>, script: Script, now: int) returns (calls: seq<Event>, ghost order: seq<Event>)
      requires Valid() && pend.KnownScript(script) && io.Reportable(reports)
      modifies `befores, `afters, io, timers, timers.heap, pend`queues, pend.known`pendpos, pend.known`active
      modifies pend.known`priority, pend.known`timestamp, pend.known`heap_pos, pend.empty`pendpos
      ensures Valid() && Idle() && (timers.heap == old(timers.heap) || fresh(timers.heap))
      ensures calls == Calls(order, script, pend.empty, 0, {}) && NoRepeat(order, pend.empty)
      ensures InOrder(order, pend.empty, old(pend.Priorities()))
      ensures var hit, due := old(Waiting() + HitIn(io.watchers, reports)), old(DueIn(Enrolled(), now));
              && (forall e :: e in pend.known ==> (e in order <==> e in hit || e in due || e in old(afters)))
              && Precedes(order, pend.empty, old(pend.Priorities()), old(Waiting()))
              && Precedes(order, pend.empty, old(pend.Priorities()), hit)
              && Precedes(order, pend.empty, old(pend.Priorities()), hit + due)
      ensures Enrolled() == AfterCalls(calls, script, now, |pend.queues|, Elapsed(now, old(Enrolled())))
      ensures |pend.queues| == |old(pend.queues)|
      ensures io.kernel == old(io.kernel) - Stale(reports, old(io.Recorded())) && io.Recorded() == old(io.Recorded())
    {
      hide Loop.ValidFrom, Listed, Calls, InOrder, NoRepeat, Precedes, Extends, Loop.Enrolled, AfterCalls, Elapsed;
      hide IoTable.Recorded, Loop.Waiting, HitIn, DueIn, Stale, IoTable.Reportable, Loop.Idle, Pending.Priorities;
      QueueAll(reports, now);
      order := Flatten(pend.queues);
      QueueIs();
      calls := Execute(script, now);
    }

    /** Queue what a poll has brought. */
    method QueueAll(reports: seq<Report>, now: int)
      requires Valid() && io.Reportable(reports)
      modifies io`kernel, timers, timers.heap, pend`queues
      modifies pend.known`pendpos, pend.known`active, pend.known`priority, pend.known`timestamp, pend.known`heap_pos
      ensures Valid() && (timers.heap == old(timers.heap) || fresh(timers.heap))
      ensures pend.Priorities() == old(pend.Priorities()) && |pend.queues| == |old(pend.queues)|
      ensures var hit, due := old(Waiting() + HitIn(io.watchers, reports)), old(DueIn(Enrolled(), now));
              && Waiting() == hit + due + Elements(old(afters))
              && Precedes(Flatten(pend.queues), pend.empty, pend.Priorities(), old(Waiting()))
              && Precedes(Flatten(pend.queues), pend.empty, pend.Priorities(), hit)
              && Precedes(Flatten(pend.queues), pend.empty, pend.Priorities(), hit + due)
      ensures Enrolled() == Elapsed(now, old(Enrolled()))
      ensures io.kernel == old(io.kernel) - Stale(reports, io.Recorded())
    {
      hide Loop.ValidFrom, Listed, Precedes, Extends, Loop.Enrolled, Elapsed, IoTable.Recorded, Loop.Waiting, HitIn;
      hide DueIn, Stale, IoTable.Reportable, Pending.Priorities;
      ghost var q0 := pend.queues;
      QueueIs();
      ghost var q1 := QueueEvents(reports, now);
      ghost var q2 := pend.queues;
      QueueIs();
      Parts();
      QueueHooks(afters, After);
      ExtendsFurther(q1, q2, pend.queues);
      ExtendsFurther(q0, q1, pend.queues);
      SameLevels(q0, pend.queues);
      First(q0, old(Waiting()));
      First(q1, old(Waiting() + HitIn(io.watchers, reports)));
      First(q2, old(Waiting() + HitIn(io.watchers, reports) + DueIn(Enrolled(), now)));
    }

    /** The watchers, and then the timers; `early` is what is queued in between. */
    method QueueEvents(reports: seq<Report>, now: int) returns (ghost early: seq<seq<Event>>)
      requires Valid() && io.Reportable(reports)
      modifies io`kernel, timers, timers.heap, pend`queues
      modifies pend.known`pendpos, pend.known`active, pend.known`priority, pend.known`timestamp, pend.known`heap_pos
      ensures Valid() && (timers.heap == old(timers.heap) || fresh(timers.heap))
      ensures pend.Priorities() == old(pend.Priorities())
      ensures Extends(old(pend.queues), early) && Extends(early, pend.queues)
      ensures forall e :: e in pend.known ==>
                (e in Flatten(early) <==> e in old(Waiting() + HitIn(io.watchers, reports)))
      ensures Waiting() == old(Waiting() + HitIn(io.watchers, reports) + DueIn(Enrolled(), now))
      ensures Enrolled() == Elapsed(now, old(Enrolled()))
      ensures io.kernel == old(io.kernel) - Stale(reports, io.Recorded())
    {
      hide Loop.ValidFrom, Listed, Precedes, Extends, Loop.Enrolled, Elapsed, IoTable.Recorded, Loop.Waiting, HitIn;
      hide DueIn, Stale, IoTable.Reportable, Pending.Priorities;
      PrioritiesAre();
      QueueReported(reports);
      early := pend.queues;
      QueueIs();
      QueueDue(now);
      SamePriorities(old(Enrolled()), now);
    }

    lemma PrioritiesAre()
      ensures pend.Priorities() == PrioritiesIn(Enrolled())
    {
    }

    /** Firing changes no priority. */
    lemma SamePriorities(r: Roster, now: int)
      requires Enrolled() == Elapsed(now, r)
      ensures pend.Priorities() == PrioritiesIn(r)
    {
      PrioritiesAre();
    }

    /** Until the poll. */
    method Open(round: Round) returns (ghost first: Pass)
      requires Valid() && RoundOk(round)
      modifies `befores, `afters, io, timers, timers.heap, pend`queues, pend.known`pendpos, pend.known`active
      modifies pend.known`priority, pend.known`timestamp, pend.known`heap_pos, pend.empty`pendpos
      ensures Valid() && Idle() && (timers.heap == old(timers.heap) || fresh(timers.heap))
      ensures |pend.queues| == |old(pend.queues)|
      ensures Hooked(old(Present()), first, Present(), round, pend.empty, |pend.queues|)
    {
      hide Loop.ValidFrom, Calls, Precedes, InOrder, NoRepeat, Loop.Enrolled, AfterCalls, IoTable.Recorded;
      PrioritiesAre();
      EnrolledIs();
      var calls, order := Prepare(round.before, round.now);
      first := Pass(round.before, old(pend.Priorities()), order, calls);
      NothingWaits();
    }

    lemma NothingWaits()
      requires Idle()
      ensures Waiting() == {}
    {
    }

    /** The poll itself. */
    method Poll(round: Round) returns (us: int, ms: int, reports: seq<Report>)
      requires Valid() && Idle() && RoundOk(round)
      modifies io`fds, io`changes, io`kernel
      ensures Valid() && Idle() && io.Reportable(reports) && reports == round.poll(io.kernel, ms)
      ensures Polled(old(Present()), Present(), us, ms, round)
    {
      hide Loop.ValidFrom, MaskOf, IoTable.MaskAt, IoTable.Recorded;
      us := Settle(round.timed);
      ms := WaitMs(us);
      WaitIsRoundedUp(us);
      assert Answers(round.poll, io.kernel, ms);
      reports := round.poll(io.kernel, ms);
      WatchersAre();
      io.RecordedAt();
      RecordedMasks();
      NothingWaits();
      EnrolledIs();
    }

    lemma WatchersAre()
      requires Valid()
      ensures io.watchers == WatchersIn(Enrolled()) && timers.timers <= pend.known
    {
      hide IoTable.Valid, Heap, Pending.ValidFrom;
    }

    lemma RecordedMasks()
      ensures forall fd: nat :: fd in io.Recorded() ==> io.Recorded()[fd] == io.MaskAt(fd)
    {
    }

    /** From the poll on. */
    method Close(round: Round, reports: seq<Report>) returns (ghost second: Pass)
      requires Valid() && Idle() && RoundOk(round) && io.Reportable(reports)
      modifies `befores, `afters, io, timers, timers.heap, pend`queues, pend.known`pendpos, pend.known`active
      modifies pend.known`priority, pend.known`timestamp, pend.known`heap_pos, pend.empty`pendpos
      ensures Valid() && Idle() && (timers.heap == old(timers.heap) || fresh(timers.heap))
      ensures |pend.queues| == |old(pend.queues)|
      ensures Served(old(Present()), second, Present(), reports, round, pend.empty, |pend.queues|)
    {
      hide Loop.ValidFrom, Calls, Precedes, InOrder, NoRepeat, Loop.Enrolled, AfterCalls, IoTable.Recorded, Elapsed;
      hide HitIn, DueIn, Stale, IoTable.Reportable;
      PrioritiesAre();
      EnrolledIs();
      WatchersAre();
      NothingWaits();
      var calls, order := Serve(reports, round.after, round.woken);
      second := Pass(round.after, old(pend.Priorities()), order, calls);
      NothingWaits();
      assert {} + HitIn(WatchersIn(old(Enrolled())), reports) == HitIn(WatchersIn(old(Enrolled())), reports);
    }

    /**
     * The loop until its rounds are over or a callback has asked it to quit; when it quits after a poll,
     * what is queued stays queued. Every round makes a pass over the queues before the poll and, unless it
     * quits, one after it; in between, every descriptor is registered for what its watchers want. `trips` says
     * of every round what the loop was like in the course of it, starting where the round before has ended.
     */
    method Run(rounds: seq<Round>) returns (ghost trips: seq<Trip>)
      requires Valid() && forall i :: 0 <= i < |rounds| ==> RoundOk(rounds[i])
      modifies `befores, `afters, io, timers, timers.heap, pend`queues, pend.known`pendpos, pend.known`active
      modifies pend.known`priority, pend.known`timestamp, pend.known`heap_pos, pend.empty`pendpos
      ensures Valid() && |trips| <= |rounds|
      ensures forall i :: 0 <= i < |trips| ==> TripOk(trips[i], rounds[i], pend.empty, |pend.queues|)
      ensures if trips == [] then Present() == old(Present())
              else trips[0].start == old(Present()) && trips[|trips| - 1].finish == Present()
      ensures forall i :: 1 <= i < |trips| ==> trips[i].start == trips[i - 1].finish
      ensures forall i :: 0 <= i < |trips| - 1 ==> !Quits(rounds[i])
      ensures |trips| < |rounds| ==> trips != [] && Quits(rounds[|trips| - 1])
      ensures trips != [] && !QuitsWaiting(rounds[|trips| - 1]) ==> Idle()
    {
      hide Loop.ValidFrom, Idle, TripOk, Loop.Present;
      trips := [];
      var quit := false;
      for i := 0 to |rounds|
        invariant Valid() && (timers.heap == old(timers.heap) || fresh(timers.heap)) && !quit
        invariant |trips| == i && |pend.queues| == |old(pend.queues)|
        invariant forall k :: 0 <= k < i ==> TripOk(trips[k], rounds[k], pend.empty, |pend.queues|)
        invariant if i == 0 then Present() == old(Present())
                  else trips[0].start == old(Present()) && trips[i - 1].finish == Present() && Idle()
        invariant forall k :: 1 <= k < i ==> trips[k].start == trips[k - 1].finish
        invariant forall k :: 0 <= k < i ==> !Quits(rounds[k])
      {
        ghost var trip;
        trip, quit := Turn(rounds[i]);
        trips := trips + [trip];
        if quit {
          return;
        }
      }
    }

    /** One round. */
    method Turn(round: Round) returns (ghost trip: Trip, quit: bool)
      requires Valid() && RoundOk(round)
      modifies `befores, `afters, io, timers, timers.heap, pend`queues, pend.known`pendpos, pend.known`active
      modifies pend.known`priority, pend.known`timestamp, pend.known`heap_pos, pend.empty`pendpos
      ensures Valid() && (timers.heap == old(timers.heap) || fresh(timers.heap))
      ensures |pend.queues| == |old(pend.queues)|
      ensures quit == Quits(round) && (!QuitsWaiting(round) ==> Idle())
      ensures TripOk(trip, round, pend.empty, |pend.queues|)
      ensures trip.start == old(Present()) && trip.finish == Present()
    {
      hide Loop.ValidFrom, Loop.Idle, Loop.Enrolled, Hooked, Polled, Served, IoTable.Recorded, HitIn, Stale, Extends;
      ghost var start := Present();
      ghost var first := Open(round);
      ghost var hooked := Present();
      trip := Trip(start, first, hooked, hooked, 0, 0, first, hooked);
      if round.quitBefore {
        return trip, true;
      }
      var us, ms, reports := Poll(round);
      ghost var ready := Present();
      trip := Trip(start, first, hooked, ready, us, ms, first, hooked);
      if round.quitWaiting {
        WatchersAre();
        NothingWaits();
        ghost var queues := pend.queues;
        QueueReported(reports);
        SameLevels(queues, pend.queues);
        assert {} + HitIn(io.watchers, reports) == HitIn(io.watchers, reports);
        return trip.(finish := Present()), true;
      }
      ghost var second := Close(round, reports);
      trip := trip.(second := second, finish := Present());
      quit := false;
    }

    ghost predicate RoundOk(round: Round)
      reads pend`known
    {
      && pend.KnownScript(round.before) && pend.KnownScript(round.after)
      && forall kernel, ms :: Answers(round.poll, kernel, ms)
    }
  }

  /**
   * What happens in one round: the callbacks, the clock at its start, before the poll and after it, and what
   * epoll reports when it waits so many milliseconds.
   */
  datatype Round = Round(before: Script, now: int, quitBefore: bool, timed: int,
                         poll: (map<nat, Mask>, int) -> seq<Report>, quitWaiting: bool, woken: int, after: Script)

  /** One pass over the queues: the callbacks, what was queued, by what priorities, and what was called. */
  datatype Pass = Pass(script: Script, priorities: map<Event, nat>, order: seq<Event>, calls: seq<Event>)

  /** What was queued is called in the order of the priorities, except for what a callback stops before. */
  ghost predicate PassOk(pass: Pass, hole: Event) {
    && pass.calls == Calls(pass.order, pass.script, hole, 0, {})
    && NoRepeat(pass.order, hole) && InOrder(pass.order, hole, pass.priorities)
  }

  predicate Quits(round: Round) {
    round.quitBefore || round.quitWaiting
  }

  /** The loop quits between a poll and the pass after it. */
  predicate QuitsWaiting(round: Round) {
    !round.quitBefore && round.quitWaiting
  }

  /** Only registered descriptors are reported, each once. */
  ghost predicate Answers(poll: (map<nat, Mask>, int) -> seq<Report>, kernel: map<nat, Mask>, ms: int) {
    Distinct(poll(kernel, ms)) && forall k :: 0 <= k < |poll(kernel, ms)| ==> poll(kernel, ms)[k].fd in kernel
  }

  /** The watchers that wait for something that is reported. */
  ghost function HitIn(w: set<Event>, reports: seq<Report>): set<Event> {
    set e | e in w && exists k :: 0 <= k < |reports| && Hits(e, reports[k])
  }

  /** The descriptors that something is reported of and that nobody wants. */
  ghost function Stale(reports: seq<Report>, masks: map<nat, Mask>): set<nat> {
    set k | 0 <= k < |reports| && reports[k].fd !in masks &&
            (reports[k].readable || reports[k].writable || reports[k].broken)
      :: reports[k].fd
  }

  /**
   * A round: how it starts, the pass over the hooks before the poll and what that leaves, the moment of the
   * poll, how long it may wait, the pass after the poll, and how the round ends.
   */
  datatype Trip = Trip(start: Moment, first: Pass, hooked: Moment, ready: Moment, us: int, ms: int, second: Pass,
                       finish: Moment)

  /** The round is made up of its parts, up to where it quits. */
  ghost predicate TripOk(t: Trip, round: Round, hole: Event, levels: nat) {
    && Hooked(t.start, t.first, t.hooked, round, hole, levels)
    && if round.quitBefore then t.finish == t.hooked
       else
         var reports := round.poll(t.ready.kernel, t.ms);
         && Polled(t.hooked, t.ready, t.us, t.ms, round)
         && if round.quitWaiting then
              t.finish == t.ready.(kernel := t.ready.kernel - Stale(reports, t.ready.masks),
                                   queued := HitIn(WatchersIn(t.ready.roster), reports))
            else
              Served(t.ready, t.second, t.finish, reports, round, hole, levels)
  }

  /** The first pass is over what was left over and the hooks before the poll, in that order. */
  ghost predicate Hooked(start: Moment, first: Pass, hooked: Moment, round: Round, hole: Event, levels: nat) {
    && PassOk(first, hole) && first.script == round.before && first.priorities == PrioritiesIn(start.roster)
    && (forall e :: e in start.roster.status ==>
          (e in first.order <==> e in start.queued || e in start.roster.befores))
    && Precedes(first.order, hole, first.priorities, start.queued)
    && hooked == start.(roster := AfterCalls(first.calls, round.before, round.now, levels, start.roster), queued := {})
  }

  /**
   * When the loop polls, the mask of every descriptor is what its running watchers want, and epoll has it if it
   * is not empty. The wait is the least remaining time of a running timer, or 30 seconds, in milliseconds rounded
   * up.
   */
  ghost predicate Polled(hooked: Moment, ready: Moment, us: int, ms: int, round: Round) {
    && ready.roster == hooked.roster && ready.queued == {}
    && (forall fd: nat ::
          var mask := MaskOf(WatchersIn(ready.roster), fd);
          if mask == {} then fd !in ready.masks && SameAt(hooked.kernel, ready.kernel, fd)
          else fd in ready.masks && ready.masks[fd] == mask && fd in ready.kernel && ready.kernel[fd] == mask)
    && 0 <= us <= 30000000
    && (forall e :: e in ready.roster.status && ready.roster.status[e].timing ==>
          us <= Remaining(ready.roster.status[e], round.timed))
    && (us == 30000000 || exists e ::
          e in ready.roster.status && ready.roster.status[e].timing
          && us == Remaining(ready.roster.status[e], round.timed))
    && (if us == 0 then ms == 0 else us < 1000 * ms <= us + 1000)
  }

  function Remaining(s: Status, now: int): int {
    if s.stamp > now then s.stamp - now else 0
  }

  /**
   * The pass after the poll is over the running watchers of what is reported, the timers that are due, and the
   * hooks after the poll, in that order. A registration that nobody wants goes when something is reported of it.
   */
  ghost predicate Served(ready: Moment, second: Pass, finish: Moment, reports: seq<Report>, round: Round,
                         hole: Event, levels: nat) {
    var r := ready.roster;
    var hit, due := HitIn(WatchersIn(r), reports), DueIn(r, round.woken);
    && PassOk(second, hole) && second.script == round.after && second.priorities == PrioritiesIn(r)
    && (forall e :: e in r.status ==> (e in second.order <==> e in hit || e in due || e in r.afters))
    && Precedes(second.order, hole, second.priorities, hit)
    && Precedes(second.order, hole, second.priorities, hit + due)
    && finish == Moment(AfterCalls(second.calls, round.after, round.woken, levels, Elapsed(round.woken, r)),
                        ready.masks, ready.kernel - Stale(reports, ready.masks), {})
  }

  lemma ElapsedIs(r: Roster, s: Roster, now: int)
    requires s.status.Keys == r.status.Keys && s.befores == r.befores && s.afters == r.afters
    requires forall e :: e in r.status ==> s.status[e] == Fired(now, r.status[e])
    ensures s == Elapsed(now, r)
  {
    hide Fired;
  }

  lemma SameLevels(qs: seq<seq<Event>>, qs': seq<seq<Event>>)
    requires Extends(qs, qs')
    ensures |qs| == |qs'|
  {
  }

  lemma Joined(ev: Event, evq: seq<Event>)
    requires NoDup(evq) && ev !in Elements(evq)
    ensures NoDup([ev] + evq) && Elements([ev] + evq) == Elements(evq) + {ev}
  {
  }
}
