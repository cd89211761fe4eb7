/** The bounded job queue of a thread pool, and its worker threads as interleaved locked steps. */
module ThreadPool {
  import opened Basics

  /** A queued job; `id` stands for its functions and argument. */
  datatype Job = Job(id: int)

  /**
   * Where a worker is: about to take the lock (at the top of its loop, or woken), waiting on the
   * condition, or, outside the lock, about to run or to clean a job.
   */
  datatype Worker = Ready | Waiting | Running(job: Job) | Cleaning(job: Job)

  function AwakeOf(w: Worker): nat {
    if w.Waiting? then 0 else 1
  }

  function RunOf(w: Worker): multiset<Job> {
    if w.Running? then multiset{w.job} else multiset{}
  }

  function CleanOf(w: Worker): multiset<Job> {
    if w.Cleaning? then multiset{w.job} else multiset{}
  }

  /** Workers that are not waiting. */
  function Awake(ws: seq<Worker>): nat {
    if ws == [] then 0 else AwakeOf(ws[0]) + Awake(ws[1..])
  }

  /** Jobs that were taken and have not been run. */
  function ToRun(ws: seq<Worker>): multiset<Job> {
    if ws == [] then multiset{} else RunOf(ws[0]) + ToRun(ws[1..])
  }

  /** Jobs that were run and have not been cleaned. */
  function ToClean(ws: seq<Worker>): multiset<Job> {
    if ws == [] then multiset{} else CleanOf(ws[0]) + ToClean(ws[1..])
  }

  lemma Remainder(a: nat, n: nat)
    requires a < 2 * n
    ensures a % n == if a < n then a else a - n
  {
    if a >= n {
      assert a == n + (a - n);
    }
  }

  /** What changes in the counts when one worker moves. */
  lemma {:induction false} Moved(ws: seq<Worker>, w: nat, s: Worker)
    requires w < |ws|
    ensures Awake(ws[w := s]) + AwakeOf(ws[w]) == Awake(ws) + AwakeOf(s)
    ensures ToRun(ws[w := s]) + RunOf(ws[w]) == ToRun(ws) + RunOf(s)
    ensures ToClean(ws[w := s]) + CleanOf(ws[w]) == ToClean(ws) + CleanOf(s)
  {
    hide RunOf, CleanOf, AwakeOf;
    if w == 0 {
      assert ws[w := s][1..] == ws[1..];
      Added(multiset{}, RunOf(s) + ToRun(ws[1..]), RunOf(ws[0]), RunOf(ws[0]) + ToRun(ws[1..]), RunOf(s));
    } else {
      var rest, rest' := ws[1..], ws[1..][w - 1 := s];
      assert ws[w := s][1..] == rest';
      Moved(rest, w - 1, s);
      Added(RunOf(ws[0]), ToRun(rest'), RunOf(ws[w]), ToRun(rest), RunOf(s));
      Added(CleanOf(ws[0]), ToClean(rest'), CleanOf(ws[w]), ToClean(rest), CleanOf(s));
    }
  }

  lemma Added(a: multiset<Job>, t': multiset<Job>, o: multiset<Job>, t: multiset<Job>, n: multiset<Job>)
    requires t' + o == t + n
    ensures (a + t') + o == (a + t) + n
  {
    assert (a + t') + o == a + (t' + o);
    assert (a + t) + n == a + (t + n);
  }

  lemma Wakes(ws: seq<Worker>, w: nat)
    requires w < |ws| && ws[w].Waiting?
    ensures Awake(ws[w := Ready]) == Awake(ws) + 1
    ensures ToRun(ws[w := Ready]) == ToRun(ws) && ToClean(ws[w := Ready]) == ToClean(ws)
  {
    hide ToRun, ToClean, Awake;
    Moved(ws, w, Ready);
    Same(ToRun(ws[w := Ready]), ToRun(ws));
    Same(ToClean(ws[w := Ready]), ToClean(ws));
  }

  lemma Waits(ws: seq<Worker>, w: nat)
    requires w < |ws| && ws[w].Ready?
    ensures Awake(ws[w := Waiting]) == Awake(ws) - 1
    ensures ToRun(ws[w := Waiting]) == ToRun(ws) && ToClean(ws[w := Waiting]) == ToClean(ws)
  {
    hide ToRun, ToClean, Awake;
    Moved(ws, w, Waiting);
    Same(ToRun(ws[w := Waiting]), ToRun(ws));
    Same(ToClean(ws[w := Waiting]), ToClean(ws));
  }

  lemma Takes(ws: seq<Worker>, w: nat, job: Job)
    requires w < |ws| && ws[w].Ready?
    ensures Awake(ws[w := Running(job)]) == Awake(ws)
    ensures ToRun(ws[w := Running(job)]) == ToRun(ws) + multiset{job}
    ensures ToClean(ws[w := Running(job)]) == ToClean(ws)
  {
    hide ToRun, ToClean, Awake;
    Moved(ws, w, Running(job));
    Same(ToRun(ws[w := Running(job)]), ToRun(ws) + multiset{job});
    Same(ToClean(ws[w := Running(job)]), ToClean(ws));
  }

  lemma Runs(ws: seq<Worker>, w: nat)
    requires w < |ws| && ws[w].Running?
    ensures Awake(ws[w := Cleaning(ws[w].job)]) == Awake(ws)
    ensures ToRun(ws[w := Cleaning(ws[w].job)]) + multiset{ws[w].job} == ToRun(ws)
    ensures ToClean(ws[w := Cleaning(ws[w].job)]) == ToClean(ws) + multiset{ws[w].job}
  {
    hide ToRun, ToClean, Awake;
    var job := ws[w].job;
    Moved(ws, w, Cleaning(job));
    Same(ToRun(ws[w := Cleaning(job)]) + multiset{job}, ToRun(ws));
    Same(ToClean(ws[w := Cleaning(job)]), ToClean(ws) + multiset{job});
  }

  lemma Cleans(ws: seq<Worker>, w: nat)
    requires w < |ws| && ws[w].Cleaning?
    ensures Awake(ws[w := Ready]) == Awake(ws)
    ensures ToClean(ws[w := Ready]) + multiset{ws[w].job} == ToClean(ws)
    ensures ToRun(ws[w := Ready]) == ToRun(ws)
  {
    hide ToRun, ToClean, Awake;
    var job := ws[w].job;
    Moved(ws, w, Ready);
    Same(ToClean(ws[w := Ready]) + multiset{job}, ToClean(ws));
    Same(ToRun(ws[w := Ready]), ToRun(ws));
  }

  lemma Same(a: multiset<Job>, b: multiset<Job>)
    requires a + multiset{} == b + multiset{}
    ensures a == b
  {
    assert a + multiset{} == a && b + multiset{} == b;
  }

  lemma TakenOne(accepted: seq<Job>, k: nat, toRun: multiset<Job>, ran: multiset<Job>)
    requires k < |accepted| && multiset(accepted[..k]) == toRun + ran
    ensures multiset(accepted[..k + 1]) == toRun + multiset{accepted[k]} + ran
  {
    assert accepted[..k + 1] == accepted[..k] + [accepted[k]];
  }

  lemma HeadOf(s: seq<Job>, k: nat, x: Job, rest: seq<Job>)
    requires k <= |s| && s[k..] == [x] + rest
    ensures k < |s| && s[k] == x && rest == s[k + 1..]
  {
    assert s[k..][0] == x && s[k..][1..] == rest;
  }

  /** With every worker waiting, nothing is in flight; with any other, somebody is awake. */
  lemma {:induction false} AllWaiting(ws: seq<Worker>)
    ensures Awake(ws) <= |ws|
    ensures Awake(ws) == 0 <==> forall i :: 0 <= i < |ws| ==> ws[i].Waiting?
    ensures Awake(ws) == |ws| <==> forall i :: 0 <= i < |ws| ==> !ws[i].Waiting?
    ensures Awake(ws) == 0 ==> ToRun(ws) == ToClean(ws) == multiset{}
  {
    if ws != [] {
      AllWaiting(ws[1..]);
      assert forall i :: 1 <= i < |ws| ==> ws[i] == ws[1..][i - 1];
      assert forall i :: 0 <= i < |ws| - 1 ==> ws[1..][i] == ws[i + 1];
    }
  }

  /** One step of some thread. A step that is not possible in the current state does nothing. */
  datatype Step =
    | Push(job: Job)      // a producer's locked section
    | Signal(w: nat)      // its signal, after unlocking; w is the worker the system picks
    | Spurious(w: nat)    // a worker returns from its wait unasked
    | Enter(w: nat)       // a worker takes the lock: it takes a job, or waits
    | Execute(w: nat)
    | Clean(w: nat)

  /**
   * The pool without its ring: a bounded first-in first-out queue, the workers, the signals to come, the
   * jobs accepted so far and how many of them were taken, and the jobs that were run and cleaned.
   */
  datatype State = State(queue: seq<Job>, workers: seq<Worker>, signals: nat, accepted: seq<Job>, taken: nat,
                         ran: multiset<Job>, cleaned: multiset<Job>)

  predicate NoneWaits(ws: seq<Worker>) {
    forall i :: 0 <= i < |ws| ==> !ws[i].Waiting?
  }

  /** What a step does. */
  function Next(size: nat, s: State, step: Step): State {
    match step
    case Push(job) =>
      if |s.queue| == size then s
      else s.(queue := s.queue + [job], accepted := s.accepted + [job], signals := s.signals + 1)
    case Signal(w) =>
      if s.signals == 0 then s
      else if w < |s.workers| && s.workers[w].Waiting? then
        s.(signals := s.signals - 1, workers := s.workers[w := Ready])
      else if NoneWaits(s.workers) then s.(signals := s.signals - 1)
      else s
    case Spurious(w) =>
      if w < |s.workers| && s.workers[w].Waiting? then s.(workers := s.workers[w := Ready]) else s
    case Enter(w) =>
      if w >= |s.workers| || !s.workers[w].Ready? then s
      else if s.queue == [] then s.(workers := s.workers[w := Waiting])
      else s.(queue := s.queue[1..], taken := s.taken + 1, workers := s.workers[w := Running(s.queue[0])])
    case Execute(w) =>
      if w >= |s.workers| || !s.workers[w].Running? then s
      else
        var job := s.workers[w].job;
        s.(workers := s.workers[w := Cleaning(job)], ran := s.ran + multiset{job})
    case Clean(w) =>
      if w >= |s.workers| || !s.workers[w].Cleaning? then s
      else
        var job := s.workers[w].job;
        s.(workers := s.workers[w := Ready], cleaned := s.cleaned + multiset{job})
  }

  /** What a schedule does. */
  function AfterAll(size: nat, s: State, schedule: seq<Step>): State {
    if schedule == [] then s
    else Next(size, AfterAll(size, s, schedule[..|schedule| - 1]), schedule[|schedule| - 1])
  }

  class Pool {
    const size: nat
    const q: array<Job>
    var rind: nat
    var wind: nat
    var used: nat
    var workers: seq<Worker>
    var signals: nat                // producers between unlock and signal
    ghost var accepted: seq<Job>    // jobs whose push succeeded, in order
    ghost var taken: nat            // how many of them were dequeued
    ghost var ran: multiset<Job>
    ghost var cleaned: multiset<Job>

    constructor (size: nat, threads: nat)
      requires size >= 1 && threads >= 1
      ensures Valid() && this.size == size && |workers| == threads && accepted == [] && fresh(q)
    {
      this.size := size;
      q := new Job[size](_ => Job(0));
      rind, wind, used := 0, 0, 0;
      workers := seq(threads, _ => Ready);
      signals, accepted, taken, ran, cleaned := 0, [], 0, multiset{}, multiset{};
      new;
      NoneBusy(threads);
    }

    /** The queued jobs, oldest first. */
    ghost function Queue(): (s: seq<Job>)
      requires size == q.Length >= 1 && rind < size && used <= size
      reads this`rind, this`used, q
      ensures |s| == used
    {
      if rind + used <= size then q[rind..rind + used] else q[rind..] + q[..rind + used - size]
    }

    /** The pool without its ring. */
    ghost function View(): State
      requires size == q.Length >= 1 && rind < size && used <= size
      reads this, q
    {
      State(Queue(), workers, signals, accepted, taken, ran, cleaned)
    }

    ghost predicate Ring()
      reads this`rind, this`wind, this`used
    {
      size == q.Length >= 1 && rind < size && used <= size && wind == (rind + used) % size
    }

    ghost predicate Valid()
      reads this, q
    {
      && Ring()
      && taken <= |accepted| && Queue() == accepted[taken..]
      && multiset(accepted[..taken]) == ToRun(workers) + ran
      && ran == ToClean(workers) + cleaned
      && |workers| >= 1
      && signals + Awake(workers) >= Min(used, |workers|)
    }

    // ---- the ring ----

    /** The next position, wrapping at the end of the array. */
    lemma Wrapped(k: nat)
      requires size >= 1 && rind < size && k <= size
      ensures (rind + k) % size == if rind + k < size then rind + k else rind + k - size
    {
      Remainder(rind + k, size);
    }

    /** Append a job, unless the ring is full. */
    method Enqueue(job: Job) returns (r: int)
      requires Ring()
      modifies this`wind, this`used, q
      ensures Ring() && r == (if old(used) == size then -1 else 0)
      ensures Queue() == if r == 0 then old(Queue()) + [job] else old(Queue())
    {
      if used == size {
        return -1;
      }
      Wrapped(used);
      Wrapped(used + 1);
      q[wind] := job;
      wind := wind + 1;
      used := used + 1;
      if wind == size {
        wind := 0;
      }
      r := 0;
    }

    /** Remove the oldest job. */
    method Dequeue() returns (elem: Job)
      requires Ring() && used > 0
      modifies this`rind, this`used
      ensures Ring() && used == old(used) - 1 && old(Queue()) == [elem] + Queue()
    {
      Wrapped(used);
      elem := q[rind];
      rind := rind + 1;
      if rind == size {
        rind := 0;
      }
      used := used - 1;
      Wrapped(used);
    }

    // ---- the steps ----

    /** A producer's locked section; on success its signal is still to come. */
    method PushJob(job: Job) returns (r: int)
      requires Valid()
      modifies this`wind, this`used, this`signals, this`accepted, q
      ensures Valid() && r == (if old(used) == size then -1 else 0)
      ensures accepted == (if r == 0 then old(accepted) + [job] else old(accepted))
      ensures signals == old(signals) + if r == 0 then 1 else 0
      ensures View() == Next(size, old(View()), Push(job))
    {
      hide ToRun, ToClean, Awake, Queue, RunOf, CleanOf, AwakeOf;
      r := Enqueue(job);
      if r == 0 {
        accepted := accepted + [job];
        signals := signals + 1;
        assert accepted[..taken] == old(accepted)[..taken];
      }
    }

    /** The signal wakes a waiting worker of the system's choice; it is lost if there is none. */
    method SignalOne(w: nat)
      requires Valid()
      modifies this`workers, this`signals
      ensures Valid() && |workers| == |old(workers)| && View() == Next(size, old(View()), Signal(w))
      ensures old(signals) > 0 && w < |old(workers)| && old(workers)[w].Waiting? ==>
                signals == old(signals) - 1 && workers == old(workers)[w := Ready]
      ensures old(signals) > 0 && (forall i :: 0 <= i < |old(workers)| ==> !old(workers)[i].Waiting?) ==>
                signals == old(signals) - 1 && workers == old(workers)
    {
      hide ToRun, ToClean, Awake, Queue, RunOf, CleanOf, AwakeOf;
      AllWaiting(workers);
      if signals > 0 {
        if w < |workers| && workers[w].Waiting? {
          Wake(w);
          signals := signals - 1;
        } else if forall i :: 0 <= i < |workers| ==> !workers[i].Waiting? {
          signals := signals - 1;
        }
      }
    }

    method Wake(w: nat)
      requires Valid() && w < |workers| && workers[w].Waiting?
      modifies this`workers
      ensures Valid() && workers == old(workers)[w := Ready] && Awake(workers) == Awake(old(workers)) + 1
      ensures ToRun(workers) == ToRun(old(workers)) && ToClean(workers) == ToClean(old(workers))
      ensures View() == old(View()).(workers := workers)
    {
      hide ToRun, ToClean, Awake, Queue, RunOf, CleanOf, AwakeOf;
      Wakes(workers, w);
      workers := workers[w := Ready];
    }

    /** A worker holds the lock: with nothing queued it waits, otherwise it takes the oldest job. */
    method EnterLock(w: nat)
      requires Valid() && w < |workers| && workers[w].Ready?
      modifies this`workers, this`rind, this`used, this`taken
      ensures Valid() && View() == Next(size, old(View()), Enter(w))
      ensures old(used) == 0 ==> workers == old(workers)[w := Waiting] && taken == old(taken)
      ensures old(used) > 0 ==>
                && taken == old(taken) + 1 <= |accepted|
                && workers == old(workers)[w := Running(accepted[old(taken)])]
    {
      hide ToRun, ToClean, Awake, Queue, RunOf, CleanOf, AwakeOf;
      if used == 0 {
        Waits(workers, w);
        workers := workers[w := Waiting];
      } else {
        TakeJob(w);
      }
    }

    method TakeJob(w: nat)
      requires Valid() && w < |workers| && workers[w].Ready? && used > 0
      modifies this`workers, this`rind, this`used, this`taken
      ensures Valid() && taken == old(taken) + 1 <= |accepted|
      ensures workers == old(workers)[w := Running(accepted[old(taken)])]
      ensures old(Queue()) == [accepted[old(taken)]] + Queue()
    {
      hide ToRun, ToClean, Awake, Queue, RunOf, CleanOf, AwakeOf, Ring;
      var elem := Oldest();
      TakenOne(accepted, taken, ToRun(workers), ran);
      Takes(workers, w, elem);
      taken := taken + 1;
      workers := workers[w := Running(elem)];
    }

    /** The oldest job leaves the ring. */
    method Oldest() returns (elem: Job)
      requires Ring() && used > 0 && taken <= |accepted| && Queue() == accepted[taken..]
      modifies this`rind, this`used
      ensures Ring() && used == old(used) - 1 && taken < |accepted| && elem == accepted[taken]
      ensures Queue() == accepted[taken + 1..] && old(Queue()) == [elem] + Queue()
    {
      hide Queue, Ring;
      elem := Dequeue();
      HeadOf(accepted, taken, elem, Queue());
    }

    /** Outside the lock, a taken job is run and then cleaned. */
    method Proceed(w: nat)
      requires Valid() && w < |workers| && (workers[w].Running? || workers[w].Cleaning?)
      modifies this`workers, this`ran, this`cleaned
      ensures Valid()
      ensures View() == old(View()).(workers := workers, ran := ran, cleaned := cleaned)
      ensures old(workers)[w].Running? ==>
                && workers == old(workers)[w := Cleaning(old(workers)[w].job)]
                && ran == old(ran) + multiset{old(workers)[w].job} && cleaned == old(cleaned)
      ensures old(workers)[w].Cleaning? ==>
                && workers == old(workers)[w := Ready]
                && ran == old(ran) && cleaned == old(cleaned) + multiset{old(workers)[w].job}
    {
      hide ToRun, ToClean, Awake, Queue, RunOf, CleanOf, AwakeOf;
      var job := workers[w].job;
      if workers[w].Running? {
        Runs(workers, w);
        workers := workers[w := Cleaning(job)];
        ran := ran + multiset{job};
      } else {
        Cleans(workers, w);
        workers := workers[w := Ready];
        cleaned := cleaned + multiset{job};
      }
    }

    method Perform(step: Step)
      requires Valid()
      modifies this, q
      ensures Valid() && View() == Next(size, old(View()), step)
      ensures step.Push? ==>
                if old(used) == size then accepted == old(accepted) && signals == old(signals)
                else accepted == old(accepted) + [step.job] && signals == old(signals) + 1
      ensures step.Signal? && old(signals) > 0 && step.w < |old(workers)| && old(workers)[step.w].Waiting? ==>
                signals == old(signals) - 1 && workers == old(workers)[step.w := Ready]
      ensures step.Spurious? && step.w < |old(workers)| && old(workers)[step.w].Waiting? ==>
                workers == old(workers)[step.w := Ready]
      ensures step.Enter? && step.w < |old(workers)| && old(workers)[step.w].Ready? ==>
                if old(used) == 0 then workers == old(workers)[step.w := Waiting]
                else
                  && taken == old(taken) + 1 <= |accepted|
                  && workers == old(workers)[step.w := Running(accepted[old(taken)])]
      ensures step.Execute? && step.w < |old(workers)| && old(workers)[step.w].Running? ==>
                var job := old(workers)[step.w].job;
                workers == old(workers)[step.w := Cleaning(job)] && ran == old(ran) + multiset{job}
      ensures step.Clean? && step.w < |old(workers)| && old(workers)[step.w].Cleaning? ==>
                var job := old(workers)[step.w].job;
                workers == old(workers)[step.w := Ready] && cleaned == old(cleaned) + multiset{job}
    {
      hide Valid, Queue;
      InRing();
      match step
      case Push(job) =>
        var _ := PushJob(job);
      case Signal(w) =>
        SignalOne(w);
      case Spurious(w) =>
        if w < |workers| && workers[w].Waiting? { Wake(w); }
      case Enter(w) =>
        if w < |workers| && workers[w].Ready? { EnterLock(w); }
      case Execute(w) =>
        if w < |workers| && workers[w].Running? { Proceed(w); }
      case Clean(w) =>
        if w < |workers| && workers[w].Cleaning? { Proceed(w); }
    }

    lemma InRing()
      requires Valid()
      ensures Ring()
    {
    }

    /** Any interleaving of the steps keeps the invariant, and does what it does to a queue without a ring. */
    method Run(schedule: seq<Step>)
      requires Valid()
      modifies this, q
      ensures Valid() && View() == AfterAll(size, old(View()), schedule)
      ensures old(accepted) <= accepted && old(taken) <= taken && |workers| == |old(workers)|
    {
      hide Valid, View, Next;
      InRing();
      Seen();
      for i := 0 to |schedule|
        invariant Valid() && Ring() && View() == AfterAll(size, old(View()), schedule[..i])
      {
        assert schedule[..i + 1][..i] == schedule[..i];
        Perform(schedule[i]);
        InRing();
      }
      assert schedule[..|schedule|] == schedule;
      Onwards(size, old(View()), schedule);
      Seen();
    }

    lemma Seen()
      requires Ring()
      ensures View().accepted == accepted && View().taken == taken && View().workers == workers
    {
    }

    // ---- what the invariant means ----

    /** No wakeup is lost: workers may all wait beside a queued job only while a signal is on its way. */
    lemma NoLostWakeup()
      requires Valid() && used > 0 && forall i :: 0 <= i < |workers| ==> workers[i].Waiting?
      ensures signals > 0
    {
      AllWaiting(workers);
    }

    /** When nothing more can happen by itself, every accepted job has been run and cleaned exactly once. */
    lemma Quiescent()
      requires Valid() && signals == 0 && forall i :: 0 <= i < |workers| ==> workers[i].Waiting?
      ensures used == 0 && taken == |accepted| && ran == cleaned == multiset(accepted)
    {
      AllWaiting(workers);
      assert accepted[taken..] == [] && accepted[..taken] == accepted;
    }

    /** Unless everything is done, some thread can get on by itself. */
    lemma NotStuck()
      requires Valid()
      ensures (used == 0 && ran == cleaned == multiset(accepted)) || exists step :: GetsOn(size, View(), step)
    {
      if signals == 0 && forall i :: 0 <= i < |workers| ==> workers[i].Waiting? {
        Quiescent();
      } else {
        var step := SomeStep();
        assert GetsOn(size, View(), step);
      }
    }

    lemma SomeStep() returns (step: Step)
      requires Valid() && !(signals == 0 && forall i :: 0 <= i < |workers| ==> workers[i].Waiting?)
      ensures GetsOn(size, View(), step)
    {
      hide ToRun, ToClean, Awake;
      if forall i :: 0 <= i < |workers| ==> workers[i].Waiting? {
        step := Signal(0);
      } else {
        var w :| 0 <= w < |workers| && !workers[w].Waiting?;
        step := if workers[w].Ready? then Enter(w) else if workers[w].Running? then Execute(w) else Clean(w);
        assert View().workers[w] != Next(size, View(), step).workers[w];
      }
    }

    /** Jobs are taken in the order they were accepted, and each is queued, in a worker's hands, or done. */
    lemma NoneLostOrDoubled()
      requires Valid()
      ensures accepted == accepted[..taken] + Queue()
      ensures multiset(accepted) == multiset(Queue()) + ToRun(workers) + ToClean(workers) + cleaned
    {
      assert accepted == accepted[..taken] + accepted[taken..];
    }
  }

  // ---- getting on ----

  /** A step that some thread takes by itself and that changes something: no push, and no unasked wakeup. */
  ghost predicate GetsOn(size: nat, s: State, step: Step) {
    !step.Push? && !step.Spurious? && Next(size, s, step) != s
  }

  function Rank(w: Worker): nat {
    match w
    case Waiting => 0
    case Ready => 1
    case Cleaning(_) => 2
    case Running(_) => 3
  }

  function Ranks(ws: seq<Worker>): nat {
    if ws == [] then 0 else Rank(ws[0]) + Ranks(ws[1..])
  }

  /** How many such steps can follow. */
  function Work(s: State): nat {
    3 * |s.queue| + 2 * s.signals + Ranks(s.workers)
  }

  lemma {:induction false} Ranked(ws: seq<Worker>, w: nat, x: Worker)
    requires w < |ws|
    ensures Ranks(ws[w := x]) + Rank(ws[w]) == Ranks(ws) + Rank(x)
  {
    if w == 0 {
      assert ws[w := x][1..] == ws[1..];
    } else {
      assert ws[w := x][1..] == ws[1..][w - 1 := x];
      Ranked(ws[1..], w - 1, x);
    }
  }

  lemma WorkDrops(size: nat, s: State, step: Step)
    requires GetsOn(size, s, step)
    ensures Work(Next(size, s, step)) < Work(s)
  {
    hide Ranks;
    if !step.Signal? || step.w < |s.workers| {
      Ranked(s.workers, step.w, Next(size, s, step).workers[step.w]);
    }
  }

  /**
   * Without further pushes and unasked wakeups the threads come to an end, whichever of them gets on: the work
   * left bounds the number of steps.
   */
  lemma {:induction false} ComesToRest(size: nat, s: State, schedule: seq<Step>)
    requires forall i :: 0 <= i < |schedule| ==> GetsOn(size, AfterAll(size, s, schedule[..i]), schedule[i])
    ensures |schedule| + Work(AfterAll(size, s, schedule)) <= Work(s)
  {
    if schedule != [] {
      hide Next, Work, GetsOn;
      var init, n := schedule[..|schedule| - 1], |schedule| - 1;
      forall i | 0 <= i < |init| ensures GetsOn(size, AfterAll(size, s, init[..i]), init[i]) {
        assert init[..i] == schedule[..i];
      }
      ComesToRest(size, s, init);
      WorkDrops(size, AfterAll(size, s, init), schedule[n]);
    }
  }

  /** Nothing that was accepted or taken is undone. */
  lemma {:induction false} Onwards(size: nat, s: State, schedule: seq<Step>)
    ensures var t := AfterAll(size, s, schedule);
            s.accepted <= t.accepted && s.taken <= t.taken && |s.workers| == |t.workers|
  {
    if schedule != [] {
      hide Next;
      var init, last := schedule[..|schedule| - 1], schedule[|schedule| - 1];
      Onwards(size, s, init);
      StepOnwards(size, AfterAll(size, s, init), last);
    }
  }

  lemma StepOnwards(size: nat, s: State, step: Step)
    ensures var t := Next(size, s, step);
            s.accepted <= t.accepted && s.taken <= t.taken && |s.workers| == |t.workers|
  {
  }

  lemma {:induction false} NoneBusy(n: nat)
    ensures ToRun(seq(n, _ => Ready)) == ToClean(seq(n, _ => Ready)) == multiset{} && Awake(seq(n, _ => Ready)) == n
  {
    if n > 0 {
      assert seq(n, _ => Ready)[1..] == seq(n - 1, _ => Ready);
      NoneBusy(n - 1);
    }
  }
}
