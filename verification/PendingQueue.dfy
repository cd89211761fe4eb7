/** The pending queues of an event loop, one per priority, and the pass that executes them. */
module PendingQueue {
  import opened Evt

  /** What a callback may do to events. */
  datatype Action = Start(ev: Event) | Stop(ev: Event)

  /** What the n-th callback of a pass does, given the event it runs for. */
  type Script = (nat, Event) -> seq<Action>

  // ---- the order of calls, stated on the queued events alone ----

  function Stopped(acts: seq<Action>): set<Event> {
    set k | 0 <= k < |acts| && acts[k].Stop? :: acts[k].ev
  }

  /** The queues in priority order, as one sequence. */
  function Flatten(qs: seq<seq<Event>>): seq<Event> {
    if qs == [] then [] else qs[0] + Flatten(qs[1..])
  }

  /**
   * The events called when the queue `q` is executed: every slot that is not a hole and whose event no
   * earlier callback of the pass has stopped. `n` callbacks ran before, and stopped `gone`.
   */
  function Calls(q: seq<Event>, script: Script, hole: Event, n: nat, gone: set<Event>): seq<Event> {
    if q == [] then []
    else if q[0] == hole || q[0] in gone then Calls(q[1..], script, hole, n, gone)
    else [q[0]] + Calls(q[1..], script, hole, n + 1, gone + Stopped(script(n, q[0])))
  }

  /** What all callbacks of a pass have stopped. */
  function Gone(q: seq<Event>, script: Script, hole: Event, n: nat, gone: set<Event>): set<Event> {
    if q == [] then gone
    else if q[0] == hole || q[0] in gone then Gone(q[1..], script, hole, n, gone)
    else Gone(q[1..], script, hole, n + 1, gone + Stopped(script(n, q[0])))
  }

  /** Executing two queues is executing one after the other. */
  lemma {:induction false} CallsSplit(q: seq<Event>, r: seq<Event>, script: Script, hole: Event, n: nat,
                                      gone: set<Event>)
    ensures var a := Calls(q, script, hole, n, gone);
            Calls(q + r, script, hole, n, gone) == a + Calls(r, script, hole, n + |a|, Gone(q, script, hole, n, gone))
    ensures Gone(q + r, script, hole, n, gone) ==
            Gone(r, script, hole, n + |Calls(q, script, hole, n, gone)|, Gone(q, script, hole, n, gone))
  {
    if q == [] {
      assert q + r == r;
    } else {
      assert (q + r)[1..] == q[1..] + r && (q + r)[0] == q[0];
      if q[0] == hole || q[0] in gone {
        CallsSplit(q[1..], r, script, hole, n, gone);
      } else {
        CallsSplit(q[1..], r, script, hole, n + 1, gone + Stopped(script(n, q[0])));
      }
    }
  }

  /** One more slot at the end of what has been executed. */
  lemma CallsExtend(q: seq<Event>, e: Event, script: Script, hole: Event)
    ensures var a, g := Calls(q, script, hole, 0, {}), Gone(q, script, hole, 0, {});
            var run := e != hole && e !in g;
            && Calls(q + [e], script, hole, 0, {}) == (if run then a + [e] else a)
            && Gone(q + [e], script, hole, 0, {}) == (if run then g + Stopped(script(|a|, e)) else g)
  {
    CallsSplit(q, [e], script, hole, 0, {});
    var a, g := Calls(q, script, hole, 0, {}), Gone(q, script, hole, 0, {});
    assert Calls([], script, hole, |a|, g) == [];
    assert [e][1..] == [];
  }

  /**
   * A queued event is called exactly when no callback before its slot stopped it; the calls keep the
   * order of the slots, and with distinct events nothing is called twice.
   */
  lemma {:induction false} CalledIff(q: seq<Event>, script: Script, hole: Event, k: nat)
    requires k < |q| && q[k] != hole && NoRepeat(q, hole)
    ensures var a := Calls(q, script, hole, 0, {});
            var b := Calls(q[..k], script, hole, 0, {});
            if q[k] in Gone(q[..k], script, hole, 0, {}) then q[k] !in a
            else |b| < |a| && a[|b|] == q[k] && forall j :: 0 <= j < |a| && j != |b| ==> a[j] != q[k]
  {
    var pre, e, post := q[..k], q[k], q[k + 1..];
    assert q == pre + [e] + post;
    CallsSplit(pre + [e], post, script, hole, 0, {});
    CallsExtend(pre, e, script, hole);
    var g, n := Gone(pre + [e], script, hole, 0, {}), |Calls(pre + [e], script, hole, 0, {})|;
    CallsAreQueued(pre, script, hole, 0, {});
    CallsAreQueued(post, script, hole, n, g);
    assert e !in pre && e !in post;
  }

  /** Apart from holes, no event is queued twice. */
  predicate NoRepeat(q: seq<Event>, hole: Event) {
    forall i, j :: 0 <= i < j < |q| && q[i] == q[j] ==> q[i] == hole
  }

  /** Apart from holes, the events are in the order of their priorities. */
  ghost predicate InOrder(q: seq<Event>, hole: Event, priority: map<Event, nat>) {
    forall i, j :: 0 <= i < j < |q| && q[i] != hole && q[j] != hole ==>
      q[i] in priority && q[j] in priority && priority[q[i]] <= priority[q[j]]
  }

  /** Among those of one priority, the events in `first` come before the others. */
  ghost predicate Precedes(q: seq<Event>, hole: Event, priority: map<Event, nat>, first: set<Event>) {
    forall i, j :: 0 <= i < j < |q| && q[i] != hole && q[j] != hole && q[j] in first ==>
      q[i] in priority && q[j] in priority && (priority[q[i]] == priority[q[j]] ==> q[i] in first)
  }

  lemma PrecedenceJoins(a: seq<Event>, r: seq<Event>, hole: Event, priority: map<Event, nat>, p: nat, n: nat,
                        first: set<Event>)
    requires Precedes(r, hole, priority, first)
    requires forall i :: 0 <= i < |a| && a[i] != hole ==>
               a[i] in priority && priority[a[i]] == p && (a[i] in first <==> i < n)
    requires forall i :: 0 <= i < |r| && r[i] != hole ==> r[i] in priority && priority[r[i]] > p
    ensures Precedes(a + r, hole, priority, first)
  {
  }

  lemma OrderJoins(a: seq<Event>, r: seq<Event>, hole: Event, priority: map<Event, nat>, p: nat)
    requires InOrder(r, hole, priority)
    requires forall i :: 0 <= i < |a| && a[i] != hole ==> a[i] in priority && priority[a[i]] == p
    requires forall i :: 0 <= i < |r| && r[i] != hole ==> r[i] in priority && priority[r[i]] > p
    ensures InOrder(a + r, hole, priority)
  {
  }

  lemma {:induction false} CallsAreQueued(q: seq<Event>, script: Script, hole: Event, n: nat, gone: set<Event>)
    ensures forall j :: 0 <= j < |Calls(q, script, hole, n, gone)| ==> Calls(q, script, hole, n, gone)[j] in q
  {
    if q != [] {
      if q[0] == hole || q[0] in gone {
        CallsAreQueued(q[1..], script, hole, n, gone);
      } else {
        CallsAreQueued(q[1..], script, hole, n + 1, gone + Stopped(script(n, q[0])));
      }
    }
  }

  /** Every queue has only grown at its end. */
  predicate Extends(qs: seq<seq<Event>>, qs': seq<seq<Event>>) {
    |qs| == |qs'| && forall p :: 0 <= p < |qs| ==> ExtendsAt(qs, qs', p)
  }

  predicate ExtendsAt(qs: seq<seq<Event>>, qs': seq<seq<Event>>, p: int)
    requires 0 <= p < |qs| == |qs'|
  {
    qs[p] <= qs'[p]
  }

  lemma StillExtends(qs: seq<seq<Event>>)
    ensures Extends(qs, qs)
  {
  }

  lemma ExtendsFurther(a: seq<seq<Event>>, b: seq<seq<Event>>, c: seq<seq<Event>>)
    requires Extends(a, b) && Extends(b, c)
    ensures Extends(a, c)
  {
    forall p | 0 <= p < |a| ensures ExtendsAt(a, c, p) {
      assert ExtendsAt(a, b, p) && ExtendsAt(b, c, p);
    }
  }

  // ---- the queues ----

  class Pending {
    const empty: Event            // does nothing; fills the slot of a stopped event
    var queues: seq<seq<Event>>   // by priority
    ghost var known: set<Event>   // the events that use this loop

    constructor (empty: Event, priorities: nat)
      requires priorities > 0
      ensures Valid() && this.empty == empty && known == {} && |queues| == priorities
      ensures forall p :: 0 <= p < |queues| ==> queues[p] == []
    {
      this.empty, known := empty, {};
      queues := seq(priorities, _ => []);
    }

    /**
     * Slots and positions are inverse to each other, from slot `j` of priority `p` on; what lies before
     * has been executed.
     */
    ghost predicate ValidFrom(p: nat, j: nat)
      reads this`queues, this`known, known`pendpos, known`priority
    {
      && empty !in known && |queues| > 0
      && (forall q, i :: 0 <= q < |queues| && 0 <= i < |queues[q]| && Ahead(q, i, p, j) ==> SlotOk(q, i))
      && (forall e :: e in known ==> PositionOk(e, p, j))
    }

    static predicate Ahead(q: int, i: int, p: int, j: int) {
      q > p || (q == p && i >= j)
    }

    ghost predicate SlotOk(q: int, i: int)
      requires 0 <= q < |queues| && 0 <= i < |queues[q]|
      reads this`queues, this`known, known`pendpos, known`priority
    {
      var e := queues[q][i];
      e == empty || (e in known && e.priority == q && e.pendpos == i + 1)
    }

    ghost predicate PositionOk(e: Event, p: nat, j: nat)
      reads this`queues, e`pendpos, e`priority
    {
      e.pendpos > 0 ==>
        && e.priority < |queues| && e.pendpos <= |queues[e.priority]|
        && queues[e.priority][e.pendpos - 1] == e && Ahead(e.priority, e.pendpos - 1, p, j)
    }

    /** Queued events are active, except for those in `ex`. */
    ghost predicate ActiveBut(ex: set<Event>)
      reads this`known, known`pendpos, known`active
    {
      forall e :: e in known && e !in ex && e.pendpos > 0 ==> e.active
    }

    ghost predicate Valid()
      reads this`queues, this`known, known`pendpos, known`priority
    {
      ValidFrom(0, 0)
    }

    /** Queue an event unless it is queued already. */
    method Append(ev: Event)
      requires Valid() && ev in known && ev.priority < |queues|
      modifies this`queues, ev`pendpos
      ensures Valid() && ev.pendpos > 0
      ensures if old(ev.pendpos) > 0 then queues == old(queues) && ev.pendpos == old(ev.pendpos)
              else queues == old(queues)[ev.priority := old(queues)[ev.priority] + [ev]]
    {
      if ev.pendpos == 0 {
        queues := queues[ev.priority := queues[ev.priority] + [ev]];
        ev.pendpos := |queues[ev.priority]|;
      }
    }

    lemma NotQueued(ev: Event, p: nat, j: nat)
      requires ValidFrom(p, j) && ev in known && ev.pendpos == 0
      ensures Holed(queues, {ev}, p, j)
    {
      forall q, i | 0 <= q < |queues| && 0 <= i < |queues[q]| && Ahead(q, i, p, j) ensures queues[q][i] != ev {
        assert SlotOk(q, i);
      }
    }

    lemma OnlySlot(ev: Event, p: nat, j: nat)
      requires ValidFrom(p, j) && ev in known && ev.pendpos > 0
      ensures PositionOk(ev, p, j)
      ensures forall q, i :: 0 <= q < |queues| && 0 <= i < |queues[q]| && Ahead(q, i, p, j) && queues[q][i] == ev ==>
                q == ev.priority && i == ev.pendpos - 1
    {
      forall q, i | 0 <= q < |queues| && 0 <= i < |queues[q]| && Ahead(q, i, p, j) && queues[q][i] == ev
        ensures q == ev.priority && i == ev.pendpos - 1
      {
        assert SlotOk(q, i);
      }
    }

    /** What stopping an event does to the queues: its slot becomes a hole. */
    method Cancel(ev: Event, ghost p: nat, ghost j: nat)
      requires ValidFrom(p, j) && ev in known
      modifies this`queues, ev`pendpos
      ensures ValidFrom(p, j) && ev.pendpos == 0
      ensures if old(ev.pendpos) == 0 then queues == old(queues)
              else var q, i := ev.priority, old(ev.pendpos) - 1;
                   && q < |old(queues)| && i < |old(queues)[q]|
                   && queues == old(queues)[q := old(queues)[q][i := empty]] && Ahead(q, i, p, j)
      ensures Holed(old(queues), {ev}, p, j) && SameBefore(old(queues), p)
    {
      if ev.pendpos > 0 {
        OnlySlot(ev, p, j);
        queues := queues[ev.priority := queues[ev.priority][ev.pendpos - 1 := empty]];
        ev.pendpos := 0;
      } else {
        NotQueued(ev, p, j);
      }
    }

    /** Positions being inverse to slots, no event is queued twice. */
    lemma {:induction false} QueuedOnce(p: nat)
      requires Valid() && p <= |queues|
      ensures NoRepeat(Flatten(queues[p..]), empty)
      ensures forall i :: 0 <= i < |Flatten(queues[p..])| ==> QueuedAt(Flatten(queues[p..])[i], p)
      decreases |queues| - p
    {
      if p < |queues| {
        QueuedOnce(p + 1);
        var a, f, r := queues[p], Flatten(queues[p..]), Flatten(queues[p + 1..]);
        assert queues[p..][1..] == queues[p + 1..] && f == a + r;
        forall i | 0 <= i < |f| ensures QueuedAt(f[i], p) {
          if i < |a| {
            assert Ahead(p, i, 0, 0) && SlotOk(p, i);
          } else {
            assert f[i] == r[i - |a|] && QueuedAt(r[i - |a|], p + 1);
          }
        }
        forall i, j | 0 <= i < j < |f| && f[i] == f[j] ensures f[i] == empty {
          assert i < |a| ==> Ahead(p, i, 0, 0) && SlotOk(p, i);
          assert j < |a| ==> Ahead(p, j, 0, 0) && SlotOk(p, j);
          assert i >= |a| ==> f[i] == r[i - |a|];
          assert j >= |a| ==> f[j] == r[j - |a|] && QueuedAt(r[j - |a|], p + 1);
        }
      }
    }

    /** The priorities of the events. */
    ghost function Priorities(): map<Event, nat>
      reads this`known, known`priority
    {
      map e | e in known :: e.priority
    }

    /** The events of all queues, one queue after the other, are in the order of their priorities. */
    lemma {:induction false} QueuedInOrder(p: nat)
      requires Valid() && p <= |queues|
      ensures InOrder(Flatten(queues[p..]), empty, Priorities())
      decreases |queues| - p
    {
      if p < |queues| {
        QueuedInOrder(p + 1);
        QueuedOnce(p + 1);
        var a, r := queues[p], Flatten(queues[p + 1..]);
        assert queues[p..][1..] == queues[p + 1..] && Flatten(queues[p..]) == a + r;
        assert forall i :: 0 <= i < |r| ==> QueuedAt(r[i], p + 1);
        forall i | 0 <= i < |a| && a[i] != empty ensures a[i] in Priorities() && Priorities()[a[i]] == p {
          assert Ahead(p, i, 0, 0) && SlotOk(p, i);
        }
        OrderJoins(a, r, empty, Priorities(), p);
      }
    }

    /** What was queued at an earlier time comes first among those of its priority. */
    lemma {:induction false} QueuedFirst(early: seq<seq<Event>>, p: nat)
      requires Valid() && p <= |queues| && Extends(early, queues)
      ensures Precedes(Flatten(queues[p..]), empty, Priorities(), set e | e in Flatten(early))
      decreases |queues| - p
    {
      if p < |queues| {
        QueuedFirst(early, p + 1);
        QueuedOnce(p + 1);
        var a, r := queues[p], Flatten(queues[p + 1..]);
        assert queues[p..][1..] == queues[p + 1..] && Flatten(queues[p..]) == a + r;
        assert forall i :: 0 <= i < |r| ==> QueuedAt(r[i], p + 1);
        forall i | 0 <= i < |a| && a[i] != empty
          ensures a[i] in Priorities() && Priorities()[a[i]] == p && (a[i] in Flatten(early) <==> i < |early[p]|)
        {
          assert Ahead(p, i, 0, 0) && SlotOk(p, i);
          EarlySlot(early, p, i);
        }
        PrecedenceJoins(a, r, empty, Priorities(), p, |early[p]|, set e | e in Flatten(early));
      }
    }

    lemma EarlySlot(early: seq<seq<Event>>, p: nat, i: nat)
      requires Valid() && Extends(early, queues) && p < |queues| && i < |queues[p]| && queues[p][i] != empty
      ensures queues[p][i] in Flatten(early) <==> i < |early[p]|
    {
      var e := queues[p][i];
      assert Ahead(p, i, 0, 0) && SlotOk(p, i) && ExtendsAt(early, queues, p);
      if i < |early[p]| {
        FlattenHas(early, p, i);
      }
      if e in Flatten(early) {
        var q, k := FlattenFrom(early, e);
        assert ExtendsAt(early, queues, q);
        assert Ahead(q, k, 0, 0) && SlotOk(q, k);
      }
    }

    /** And every event with a position is queued. */
    lemma InQueues(e: Event)
      requires Valid() && e in known && e.pendpos > 0
      ensures e in Flatten(queues)
    {
      assert PositionOk(e, 0, 0);
      FlattenHas(queues, e.priority, e.pendpos - 1);
    }

    ghost predicate QueuedAt(e: Event, p: nat)
      reads this`queues, this`known, known`pendpos, known`priority
    {
      e == empty || (e in known && p <= e.priority && e.pendpos > 0)
    }

    /** Slots from (p, j) on are as before, except that those of the events in `gone` are holes. */
    ghost predicate Holed(qs: seq<seq<Event>>, gone: set<Event>, p: nat, j: nat)
      reads this`queues
    {
      Thinned(qs, queues, empty, gone, p, j)
    }

    static predicate Thinned(qs: seq<seq<Event>>, qs': seq<seq<Event>>, hole: Event, gone: set<Event>, p: nat, j: nat) {
      && |qs'| == |qs|
      && (forall q :: 0 <= q < |qs| ==> |qs'[q]| == |qs[q]| || q < p)
      && (forall q, i :: 0 <= q < |qs| && 0 <= i < |qs[q]| && i < |qs'[q]| && Ahead(q, i, p, j) ==>
            qs'[q][i] == if qs[q][i] in gone then hole else qs[q][i])
    }

    static lemma ThinnedFurther(qs: seq<seq<Event>>, qs': seq<seq<Event>>, qs'': seq<seq<Event>>, hole: Event,
                                gone: set<Event>, more: set<Event>, p: nat, j: nat)
      requires Thinned(qs, qs', hole, gone, p, j) && Thinned(qs', qs'', hole, more, p, j)
      ensures Thinned(qs, qs'', hole, gone + more, p, j)
    {
    }

    ghost predicate SameBefore(qs: seq<seq<Event>>, p: nat)
      reads this`queues
    {
      |queues| == |qs| && forall q :: 0 <= q < p && q < |qs| ==> queues[q] == qs[q]
    }

    /** Start an event: nothing is queued. */
    method StartEvent(ev: Event, ghost p: nat, ghost j: nat)
      requires ValidFrom(p, j) && ev in known
      modifies ev`active, ev`priority
      ensures ValidFrom(p, j) && ev.active
      ensures ev.priority == if old(ev.active) || old(ev.priority) < |queues| then old(ev.priority) else |queues| - 1
    {
      if !ev.active {
        ev.active := true;
        if ev.priority > |queues| - 1 {
          ev.priority := |queues| - 1;
        }
      }
    }

    lemma InactiveNotQueued(ev: Event, p: nat, j: nat)
      requires ValidFrom(p, j) && ActiveBut({}) && ev in known && !ev.active
      ensures ev.pendpos == 0 && Holed(queues, {ev}, p, j)
    {
      NotQueued(ev, p, j);
    }

    /** Stop an event: if it is queued its slot becomes a hole. */
    method StopEvent(ev: Event, ghost p: nat, ghost j: nat)
      requires ValidFrom(p, j) && ev in known && ActiveBut({})
      modifies this`queues, ev`pendpos, ev`active
      ensures ValidFrom(p, j) && !ev.active && ev.pendpos == 0 && ActiveBut({})
      ensures Holed(old(queues), {ev}, p, j) && SameBefore(old(queues), p)
    {
      hide Pending.ValidFrom, Pending.Holed;
      if ev.active {
        Cancel(ev, p, j);
        ev.active := false;
      } else {
        InactiveNotQueued(ev, p, j);
      }
    }

    /** What the executed slots `done` called and stopped describes the rest of the queues. */
    ghost predicate Progress(qs: seq<seq<Event>>, done: seq<Event>, script: Script, calls: seq<Event>, p: nat, j: nat)
      reads this`queues, this`known, known`pendpos, known`priority, known`active
    {
      && ValidFrom(p, j) && ActiveBut({})
      && Holed(qs, Gone(done, script, empty, 0, {}), p, j)
      && calls == Calls(done, script, empty, 0, {})
    }

    lemma ProgressSize(qs: seq<seq<Event>>, done: seq<Event>, script: Script, calls: seq<Event>, p: nat, j: nat)
      requires Progress(qs, done, script, calls, p, j)
      ensures |queues| == |qs| && (p < |qs| ==> |queues[p]| == |qs[p]|)
    {
    }

    /** A slot still holds its event unless a callback has stopped it. */
    lemma SlotOutcome(qs: seq<seq<Event>>, done: seq<Event>, script: Script, calls: seq<Event>, p: nat, j: nat)
      requires Progress(qs, done, script, calls, p, j) && p < |qs| && j < |qs[p]| && j < |queues[p]|
      ensures var gone := Gone(done, script, empty, 0, {});
              && queues[p][j] == (if qs[p][j] in gone then empty else qs[p][j])
              && Thinned(qs, queues, empty, gone, p, j + 1)
    {
      assert Ahead(p, j, p, j);
      assert forall q, i :: Ahead(q, i, p, j + 1) ==> Ahead(q, i, p, j);
    }

    lemma NothingDone(script: Script)
      requires Valid() && ActiveBut({})
      ensures queues[..0] == [] && Progress(queues, Flatten(queues[..0]), script, [], 0, 0)
    {
    }

    lemma QueuedHere(i: nat, j: nat)
      requires i < |queues| && j < |queues[i]| && ValidFrom(i, j)
      ensures queues[i][j] == empty || queues[i][j] in known
    {
      assert Ahead(i, j, i, j) && SlotOk(i, j);
    }

    ghost predicate KnownScript(script: Script)
      reads this`known
    {
      forall n: nat, e, k :: e in known && 0 <= k < |script(n, e)| ==> script(n, e)[k].ev in known
    }

    /** The event of the slot about to be executed counts as queued no longer. */
    method ClearPosition(eb: Event, ghost i: nat, ghost j: nat)
      requires i < |queues| && j < |queues[i]| && eb == queues[i][j] && ValidFrom(i, j)
      modifies eb`pendpos
      ensures ValidFrom(i, j + 1) && eb.pendpos == 0
    {
      assert Ahead(i, j, i, j) && SlotOk(i, j);
      eb.pendpos := 0;
      forall q, k | 0 <= q < |queues| && 0 <= k < |queues[q]| && Ahead(q, k, i, j + 1) ensures SlotOk(q, k) {
        assert Ahead(q, k, i, j) && old(SlotOk(q, k));
      }
      forall e | e in known ensures PositionOk(e, i, j + 1) {
        assert old(PositionOk(e, i, j));
      }
    }

    method ClearQueue(i: nat)
      requires i < |queues| && ValidFrom(i, |queues[i]|)
      modifies this`queues
      ensures queues == old(queues)[i := []] && ValidFrom(i + 1, 0)
    {
      ghost var n := |queues[i]|;
      queues := queues[i := []];
      forall q, k | 0 <= q < |queues| && 0 <= k < |queues[q]| && Ahead(q, k, i + 1, 0) ensures SlotOk(q, k) {
        assert Ahead(q, k, i, n) && old(SlotOk(q, k));
      }
      forall e | e in known ensures PositionOk(e, i + 1, 0) {
        assert old(PositionOk(e, i, n));
      }
    }
  }

  lemma {:induction false} FlattenSnoc(qs: seq<seq<Event>>, i: nat)
    requires i < |qs|
    ensures Flatten(qs[..i + 1]) == Flatten(qs[..i]) + qs[i]
  {
    if i > 0 {
      FlattenSnoc(qs[1..], i - 1);
      assert qs[..i + 1][1..] == qs[1..][..i] && qs[..i][1..] == qs[1..][..i - 1];
    } else {
      assert qs[..1] == [qs[0]] && Flatten(qs[..1][1..]) == [];
    }
  }

  lemma {:induction false} FlattenHas(qs: seq<seq<Event>>, p: nat, i: nat)
    requires p < |qs| && i < |qs[p]|
    ensures qs[p][i] in Flatten(qs)
  {
    if p > 0 {
      FlattenHas(qs[1..], p - 1, i);
    }
  }

  lemma {:induction false} FlattenFrom(qs: seq<seq<Event>>, e: Event) returns (p: nat, i: nat)
    requires e in Flatten(qs)
    ensures p < |qs| && i < |qs[p]| && qs[p][i] == e
  {
    if e in qs[0] {
      p := 0;
      i :| i < |qs[0]| && qs[0][i] == e;
    } else {
      p, i := FlattenFrom(qs[1..], e);
      p := p + 1;
    }
  }

  lemma StoppedSnoc(acts: seq<Action>, k: nat)
    requires k < |acts|
    ensures Stopped(acts[..k + 1]) == Stopped(acts[..k]) + Stopped([acts[k]])
  {
    assert [acts[k]][0] == acts[k];
    var a, b := acts[..k + 1], acts[..k];
    assert forall i :: 0 <= i < k ==> a[i] == b[i];
    assert a[k] == acts[k];
  }
}
