/** Io watchers, the list of changed descriptors, and the registrations kept by epoll. */
module IoSync {
  import opened Basics
  import opened Evt
  import opened PendingQueue

  // ---- what the watchers of a descriptor ask for ----

  function Wanted(evq: seq<Event>): (m: Mask)
    ensures forall i :: i in m <==> exists k :: 0 <= k < |evq| && i in evq[k].interest
  {
    if evq == [] then {}
    else
      var m := evq[0].interest + Wanted(evq[1..]);
      assert forall i :: i in Wanted(evq[1..]) ==> exists k :: 0 <= k < |evq| && i in evq[k].interest by {
        forall i | i in Wanted(evq[1..]) ensures exists k :: 0 <= k < |evq| && i in evq[k].interest {
          var j :| 0 <= j < |evq[1..]| && i in evq[1..][j].interest;
          assert evq[j + 1] == evq[1..][j];
        }
      }
      assert forall k :: 1 <= k < |evq| ==> evq[k] == evq[1..][k - 1];
      m
  }

  function Elements(evq: seq<Event>): set<Event> {
    set e | e in evq
  }

  function WatchersOf(w: set<Event>, fd: int): set<Event> {
    set e | e in w && e.fd == fd
  }

  lemma {:induction false} UnlinkedElements(evq: seq<Event>, ev: Event)
    requires NoDup(evq)
    ensures NoDup(Unlinked(evq, ev)) && Elements(Unlinked(evq, ev)) == Elements(evq) - {ev}
  {
    if evq != [] {
      assert evq == [evq[0]] + evq[1..];
      assert evq[0] !in evq[1..];
      if evq[0] != ev {
        UnlinkedElements(evq[1..], ev);
        var u := Unlinked(evq[1..], ev);
        assert evq[0] !in Elements(u);
        assert Elements([evq[0]] + u) == {evq[0]} + Elements(u);
      }
    }
  }

  datatype FdInfo = FdInfo(evq: seq<Event>, event: Mask, changed: bool)

  /**
   * The list holds the running watchers of the descriptor, each once. Unless it is flagged, the recorded
   * mask is what they want. A nonzero recorded mask is exactly what epoll has registered.
   */
  ghost predicate FdOk(info: FdInfo, fd: int, w: set<Event>, kernel: map<nat, Mask>) {
    && NoDup(info.evq) && Elements(info.evq) == WatchersOf(w, fd)
    && (info.changed || info.event == Wanted(info.evq))
    && (info.event != {} ==> fd in kernel && kernel[fd] == info.event)
  }

  /** Only known descriptors are registered or watched. */
  ghost predicate InRange(n: int, kernel: map<nat, Mask>, w: set<Event>) {
    && (forall fd :: fd in kernel ==> fd < n)
    && (forall ev :: ev in w ==> ev.fd < n)
  }

  /** Starting a watcher keeps every descriptor in order; its own is to be flagged. */
  lemma StartOk(info: FdInfo, fd: int, w: set<Event>, kernel: map<nat, Mask>, ev: Event)
    requires FdOk(info, fd, w, kernel) && ev !in w
    ensures if fd == ev.fd then FdOk(info.(evq := [ev] + info.evq, changed := true), fd, w + {ev}, kernel)
            else FdOk(info, fd, w + {ev}, kernel)
  {
    if fd == ev.fd {
      assert Elements([ev] + info.evq) == {ev} + Elements(info.evq);
      assert WatchersOf(w + {ev}, fd) == WatchersOf(w, fd) + {ev};
      assert ev !in Elements(info.evq);
    } else {
      assert WatchersOf(w + {ev}, fd) == WatchersOf(w, fd);
    }
  }

  lemma StopOk(info: FdInfo, fd: int, w: set<Event>, kernel: map<nat, Mask>, ev: Event)
    requires FdOk(info, fd, w, kernel)
    ensures if fd == ev.fd then FdOk(info.(evq := Unlinked(info.evq, ev), changed := true), fd, w - {ev}, kernel)
            else FdOk(info, fd, w - {ev}, kernel)
  {
    if fd == ev.fd {
      UnlinkedElements(info.evq, ev);
      assert WatchersOf(w - {ev}, fd) == WatchersOf(w, fd) - {ev};
    } else {
      assert WatchersOf(w - {ev}, fd) == WatchersOf(w, fd);
    }
  }

  // ---- the kernel ----

  datatype Op = Add | Mod | Del
  datatype Errno = Ok | ENOENT | EEXIST

  class IoTable {
    var fds: seq<FdInfo>
    var changes: seq<nat>
    var kernel: map<nat, Mask>    // the registrations of the epoll descriptor
    ghost var watchers: set<Event>

    constructor (size: nat)
      ensures Valid() && |fds| == size && changes == [] && kernel == map[] && watchers == {}
    {
      fds := seq(size, _ => FdInfo([], {}, false));
      changes, kernel, watchers := [], map[], {};
    }

    /** epoll_ctl on an open descriptor. */
    method EpollCtl(op: Op, fd: nat, mask: Mask) returns (err: Errno)
      modifies this`kernel
      ensures err == match op case Add => (if fd in old(kernel) then EEXIST else Ok)
                              case _ => (if fd in old(kernel) then Ok else ENOENT)
      ensures kernel == if err != Ok then old(kernel)
                        else if op == Del then old(kernel) - {fd} else old(kernel)[fd := mask]
    {
      err := Ok;
      match op {
        case Add => if fd in kernel { return EEXIST; }
        case _ => if fd !in kernel { return ENOENT; }
      }
      kernel := if op == Del then kernel - {fd} else kernel[fd := mask];
    }

    /** A descriptor is flagged exactly when it is in the change list, and it is there once. */
    ghost predicate Flagged()
      reads this`fds, this`changes
    {
      && (forall k :: 0 <= k < |changes| ==> changes[k] < |fds| && fds[changes[k]].changed)
      && (forall fd :: 0 <= fd < |fds| && fds[fd].changed ==> fd in changes)
      && (forall i, j :: 0 <= i < j < |changes| ==> changes[i] != changes[j])
    }

    ghost predicate Valid()
      reads this
    {
      && Flagged() && InRange(|fds|, kernel, watchers)
      && forall fd :: 0 <= fd < |fds| ==> FdOk(fds[fd], fd, watchers, kernel)
    }

    ghost predicate Running(pend: Pending)
      reads this`watchers, watchers`active, watchers`priority, pend`known, pend`queues
    {
      && watchers <= pend.known
      && forall ev :: ev in watchers ==> ev.active && ev.priority < |pend.queues|
    }

    /** The mask recorded for a descriptor. */
    function MaskAt(fd: nat): Mask
      reads this`fds
    {
      if fd < |fds| then fds[fd].event else {}
    }

    // ---- starting and stopping watchers ----

    method ExpandFds(need: nat)
      requires Valid()
      modifies this`fds
      ensures Valid() && |fds| >= need && old(fds) <= fds
      ensures forall fd :: |old(fds)| <= fd < |fds| ==> fds[fd] == FdInfo([], {}, false)
      ensures forall fd: nat :: MaskAt(fd) == old(MaskAt(fd))
    {
      if need > |fds| {
        var size := |fds|;
        while size < need
          invariant size >= |fds|
          decreases need - size
        {
          size := if size == 0 then 1 else 2 * size;
        }
        ghost var f := fds;
        fds := fds + seq(size - |fds|, _ => FdInfo([], {}, false));
        forall fd | 0 <= fd < |fds| ensures FdOk(fds[fd], fd, watchers, kernel) {
          if fd < |f| {
            assert fds[fd] == f[fd];
          } else {
            assert WatchersOf(watchers, fd) == {};
          }
        }
      }
    }

    /** Put a descriptor into the change list unless it is there. */
    method FdChange(fd: nat)
      requires fd < |fds| && Flagged()
      modifies this`fds, this`changes
      ensures Flagged() && |fds| == |old(fds)| && fds == old(fds)[fd := old(fds)[fd].(changed := true)]
    {
      if !fds[fd].changed {
        changes := changes + [fd];
        fds := fds[fd := fds[fd].(changed := true)];
      }
    }

    /** Start a watcher, perhaps from a callback of the pass that has got to slot `j` of priority `p`. */
    method IoStart(ev: Event, pend: Pending, ghost p: nat, ghost j: nat)
      requires Valid() && Running(pend) && pend.ValidFrom(p, j) && ev in pend.known && (ev.active <==> ev in watchers)
      modifies this, ev`active, ev`priority
      ensures Valid() && Running(pend) && pend.ValidFrom(p, j) && watchers == old(watchers) + {ev} && ev.active
      ensures kernel == old(kernel) && forall fd: nat :: MaskAt(fd) == old(MaskAt(fd))
      ensures ev.priority == if old(ev.active) || old(ev.priority) < |pend.queues| then old(ev.priority)
                             else |pend.queues| - 1
    {
      hide IoTable.Valid, Pending.ValidFrom;
      if ev.active {
        return;
      }
      pend.StartEvent(ev, p, j);
      ExpandFds(ev.fd + 1);
      LinkWatcher(ev);
    }

    method LinkWatcher(ev: Event)
      requires Valid() && ev.fd < |fds| && ev !in watchers
      modifies this`fds, this`changes, this`watchers
      ensures Valid() && watchers == old(watchers) + {ev} && forall fd: nat :: MaskAt(fd) == old(MaskAt(fd))
    {
      ghost var f, w := fds, watchers;
      fds := fds[ev.fd := fds[ev.fd].(evq := [ev] + fds[ev.fd].evq)];
      FdChange(ev.fd);
      watchers := watchers + {ev};
      forall fd | 0 <= fd < |fds| ensures FdOk(fds[fd], fd, watchers, kernel) {
        StartOk(f[fd], fd, w, kernel, ev);
      }
    }

    /** Stop a watcher, perhaps from a callback. */
    method IoStop(ev: Event, pend: Pending, ghost p: nat, ghost j: nat)
      requires Valid() && Running(pend) && pend.ValidFrom(p, j) && pend.ActiveBut({})
      requires ev in pend.known && (ev.active <==> ev in watchers)
      modifies this, ev`active, ev`pendpos, pend`queues
      ensures Valid() && Running(pend) && pend.ValidFrom(p, j) && pend.ActiveBut({})
      ensures watchers == old(watchers) - {ev} && !ev.active && ev.pendpos == 0
      ensures kernel == old(kernel) && forall fd: nat :: MaskAt(fd) == old(MaskAt(fd))
      ensures pend.Holed(old(pend.queues), {ev}, p, j) && pend.SameBefore(old(pend.queues), p)
    {
      hide IoTable.Valid, Pending.ValidFrom, Pending.Holed;
      if !ev.active {
        pend.InactiveNotQueued(ev, p, j);
        return;
      }
      pend.StopEvent(ev, p, j);
      UnlinkWatcher(ev);
    }

    method UnlinkWatcher(ev: Event)
      requires Valid() && ev in watchers
      modifies this`fds, this`changes, this`watchers
      ensures Valid() && watchers == old(watchers) - {ev} && forall fd: nat :: MaskAt(fd) == old(MaskAt(fd))
    {
      ghost var f, w := fds, watchers;
      fds := fds[ev.fd := fds[ev.fd].(evq := Unlinked(fds[ev.fd].evq, ev))];
      FdChange(ev.fd);
      watchers := watchers - {ev};
      forall fd | 0 <= fd < |fds| ensures FdOk(fds[fd], fd, watchers, kernel) {
        StopOk(f[fd], fd, w, kernel, ev);
      }
    }

    // ---- synchronising epoll ----

    /** Register a nonzero mask; the fallbacks cover a stale or a missing registration. */
    method PollUpdate(fd: nat, oev: Mask, nev: Mask) returns (r: int)
      modifies this`kernel
      ensures r == 0 && kernel == if nev == {} then old(kernel) else old(kernel)[fd := nev]
    {
      if nev == {} {
        return 0;
      }
      var err := EpollCtl(if nev != {} then (if oev != {} then Mod else Add) else Del, fd, nev);
      if err != Ok {
        if err == ENOENT {
          var err2 := EpollCtl(Add, fd, nev);
          return if err2 == Ok then 0 else -1;
        } else {
          var err2 := EpollCtl(Mod, fd, nev);
          return if err2 == Ok then 0 else -1;
        }
      }
      r := 0;
    }

    /** Halfway through the change list: the first i descriptors are done and no longer flagged. */
    ghost predicate Updating(f: seq<FdInfo>, kern: map<nat, Mask>, i: int)
      reads this
    {
      && 0 <= i <= |changes| && |fds| == |f| && InRange(|fds|, kernel, watchers)
      && (forall k :: 0 <= k < |changes| ==> changes[k] < |fds| && (fds[changes[k]].changed <==> k >= i))
      && (forall fd :: 0 <= fd < |fds| && fds[fd].changed ==> fd in changes)
      && (forall j, k :: 0 <= j < k < |changes| ==> changes[j] != changes[k])
      && (forall fd :: 0 <= fd < |fds| ==> FdOk(fds[fd], fd, watchers, kernel) && fds[fd].evq == f[fd].evq)
      && (forall fd: nat :: fd !in changes[..i] || MaskAt(fd) == {} ==> SameAt(kern, kernel, fd))
    }

    /** Bring recorded masks and registrations up to date and empty the change list. */
    method UpdateFdChanges()
      requires Valid()
      modifies this`fds, this`changes, this`kernel
      ensures Valid() && changes == []
      ensures |fds| == |old(fds)| && forall fd :: 0 <= fd < |fds| ==>
                && !fds[fd].changed && fds[fd].evq == old(fds)[fd].evq && fds[fd].event == Wanted(fds[fd].evq)
      ensures kernel == old(kernel) + map fd: nat | fd < |fds| && fds[fd].event != {} :: fds[fd].event
    {
      ghost var f := fds;
      for i := 0 to |changes|
        invariant changes == old(changes) && Updating(f, old(kernel), i)
      {
        UpdateFd(i, f, old(kernel));
      }
      Updated(f, old(kernel));
      changes := [];
    }

    /** A registration changes exactly where a mask is recorded. */
    lemma Updated(f: seq<FdInfo>, kern: map<nat, Mask>)
      requires Updating(f, kern, |changes|)
      ensures kernel == kern + map fd: nat | fd < |fds| && fds[fd].event != {} :: fds[fd].event
    {
      var k := kern + map fd: nat | fd < |fds| && fds[fd].event != {} :: fds[fd].event;
      forall fd: nat ensures SameAt(k, kernel, fd) {
        if MaskAt(fd) == {} {
          assert SameAt(kern, kernel, fd);
        } else {
          assert FdOk(fds[fd], fd, watchers, kernel);
        }
      }
      SameMaps(k, kernel);
    }

    /** Where no mask is recorded the registration is as it was. */
    lemma Elsewhere(kern: map<nat, Mask>)
      requires kernel == kern + map fd: nat | fd < |fds| && fds[fd].event != {} :: fds[fd].event
      ensures forall fd: nat :: MaskAt(fd) == {} ==> SameAt(kern, kernel, fd)
    {
    }

    method UpdateFd(i: nat, ghost f: seq<FdInfo>, ghost kern: map<nat, Mask>)
      requires i < |changes| && Updating(f, kern, i)
      modifies this`fds, this`kernel
      ensures Updating(f, kern, i + 1)
    {
      ghost var fd, g, before := changes[i], fds, kernel;
      UpdateMask(changes[i]);
      forall d | 0 <= d < |fds| ensures FdOk(fds[d], d, watchers, kernel) && fds[d].evq == f[d].evq {
        assert FdOk(g[d], d, watchers, before);
      }
      assert changes[..i + 1] == changes[..i] + [fd];
      forall d: nat | d !in changes[..i + 1] || MaskAt(d) == {} ensures SameAt(kern, kernel, d) {
        assert d == fd ==> d !in changes[..i];
        assert SameAt(kern, before, d);
      }
    }

    /** Record what the watchers of one descriptor want; a mask that is new and not empty goes to epoll. */
    method UpdateMask(fd: nat)
      requires fd < |fds|
      modifies this`fds, this`kernel
      ensures fds == old(fds)[fd := old(fds)[fd].(changed := false, event := Wanted(old(fds)[fd].evq))]
      ensures kernel == if fds[fd].event == old(fds)[fd].event || fds[fd].event == {} then old(kernel)
                        else old(kernel)[fd := fds[fd].event]
    {
      fds := fds[fd := fds[fd].(changed := false)];
      var oev := fds[fd].event;
      var nev := Wanted(fds[fd].evq);
      if oev != nev {
        fds := fds[fd := fds[fd].(event := nev)];
        var r := PollUpdate(fd, oev, nev);
      }
    }

    // ---- dispatching ----

    /** Only registered descriptors are reported, each once. */
    predicate Reportable(reports: seq<Report>)
      reads this`kernel
    {
      Distinct(reports) && forall k :: 0 <= k < |reports| ==> reports[k].fd in kernel
    }

    /**
     * Take what epoll reports: delete a registration that nobody wants any more once anything happens on
     * it, and queue the watchers that wait for what happened. Errors and hang-ups count as both conditions.
     */
    method Dispatch(reports: seq<Report>, pend: Pending)
      requires Valid() && Running(pend) && pend.Valid()
      requires forall k :: 0 <= k < |reports| ==> reports[k].fd in kernel
      requires forall i, j :: 0 <= i < j < |reports| ==> reports[i].fd != reports[j].fd
      modifies this`kernel, pend`queues, watchers`pendpos
      ensures Valid() && Running(pend) && pend.Valid() && Extends(old(pend.queues), pend.queues)
      ensures kernel == old(kernel) - set k | 0 <= k < |reports| && MaskAt(reports[k].fd) == {} &&
                                                (reports[k].readable || reports[k].writable || reports[k].broken)
                                        :: reports[k].fd
      ensures forall ev :: ev in watchers ==>
                (ev.pendpos > 0 <==>
                  || old(ev.pendpos) > 0
                  || exists k ::
                       && 0 <= k < |reports| && reports[k].fd == ev.fd
                       && ((Read in ev.interest && (reports[k].readable || reports[k].broken))
                           || (Write in ev.interest && (reports[k].writable || reports[k].broken))))
    {
      hide IoTable.Valid, Pending.ValidFrom, Extends, IoTable.Running, IoTable.MaskAt;
      StillExtends(pend.queues);
      for i := 0 to |reports|
        invariant Valid() && Running(pend) && pend.Valid() && Extends(old(pend.queues), pend.queues)
        invariant kernel == old(kernel) - Unwanted(reports[..i])
        invariant forall ev :: ev in watchers ==>
                    (ev.pendpos > 0 <==> old(ev.pendpos) > 0 || exists k :: 0 <= k < i && Hits(ev, reports[k]))
      {
        ghost var queues := pend.queues;
        UnwantedMore(reports, i, old(kernel));
        DispatchOne(reports[i], pend);
        ExtendsFurther(old(pend.queues), queues, pend.queues);
      }
      assert reports[..|reports|] == reports;
    }

    /** The descriptors that something is reported of and that nobody wants. */
    ghost function Unwanted(reports: seq<Report>): set<nat>
      reads this`fds
    {
      set k | 0 <= k < |reports| && MaskAt(reports[k].fd) == {} &&
              (reports[k].readable || reports[k].writable || reports[k].broken)
        :: reports[k].fd
    }

    lemma UnwantedMore(reports: seq<Report>, i: nat, k: map<nat, Mask>)
      requires i < |reports| && forall l :: 0 <= l < i ==> reports[l].fd != reports[i].fd
      ensures Unwanted(reports[..0]) == {}
      ensures k - Unwanted(reports[..i + 1]) == k - Unwanted(reports[..i]) - Unwanted([reports[i]])
      ensures reports[i].fd in k ==> reports[i].fd in k - Unwanted(reports[..i])
    {
      var a, b, c := reports[..i + 1], reports[..i], [reports[i]];
      assert a == b + c;
      assert forall l :: 0 <= l < i ==> a[l] == b[l];
      assert a[i] == c[0];
      assert Unwanted(a) == Unwanted(b) + Unwanted(c);
    }

    method DispatchOne(r: Report, pend: Pending)
      requires Valid() && Running(pend) && pend.Valid() && r.fd in kernel
      modifies this`kernel, pend`queues, watchers`pendpos
      ensures Valid() && Running(pend) && pend.Valid() && Extends(old(pend.queues), pend.queues)
      ensures kernel == old(kernel) - Unwanted([r])
      ensures forall ev :: ev in watchers ==> (ev.pendpos > 0 <==> old(ev.pendpos) > 0 || Hits(ev, r))
    {
      hide Pending.ValidFrom, Extends;
      assert [r][0] == r;
      Repair(r);
      Notify(r, pend);
    }

    /** A registration that nobody wants goes with the first report; a wanted one stays as it is. */
    method Repair(r: Report)
      requires Valid() && r.fd in kernel
      modifies this`kernel
      ensures Valid()
      ensures kernel == if MaskAt(r.fd) == {} && (r.readable || r.writable || r.broken) then old(kernel) - {r.fd}
                        else old(kernel)
    {
      ghost var kern := kernel;
      var want := fds[r.fd].event;
      if r.Rev() - want != {} {
        var err := EpollCtl(if want != {} then Mod else Del, r.fd, want);
      }
      assert FdOk(fds[r.fd], r.fd, watchers, kern);
      forall d | 0 <= d < |fds| ensures FdOk(fds[d], d, watchers, kernel) {
        assert FdOk(fds[d], d, watchers, kern);
      }
    }

    /** Queue a watcher of the reported descriptor if the report concerns it. */
    method NotifyOne(ev: Event, r: Report, pend: Pending)
      requires Valid() && Running(pend) && pend.Valid() && ev in watchers && ev.fd == r.fd
      modifies pend`queues, watchers`pendpos
      ensures Valid() && Running(pend) && pend.Valid() && Extends(old(pend.queues), pend.queues)
      ensures forall w :: w in watchers ==>
                (w.pendpos > 0 <==> old(w.pendpos) > 0 || (w == ev && Hits(ev, r)))
    {
      hide IoTable.Valid, Pending.ValidFrom;
      StillExtends(pend.queues);
      if ev.interest * r.Rev() != {} {
        pend.Append(ev);
      }
    }

    method Notify(r: Report, pend: Pending)
      requires Valid() && Running(pend) && pend.Valid() && r.fd < |fds|
      modifies pend`queues, watchers`pendpos
      ensures Valid() && Running(pend) && pend.Valid() && Extends(old(pend.queues), pend.queues)
      ensures forall ev :: ev in watchers ==> (ev.pendpos > 0 <==> old(ev.pendpos) > 0 || Hits(ev, r))
    {
      var evq := fds[r.fd].evq;
      assert FdOk(fds[r.fd], r.fd, watchers, kernel);
      assert forall k :: 0 <= k < |evq| ==> evq[k] in Elements(evq);
      hide IoTable.Valid, Pending.ValidFrom, Extends;
      for k := 0 to |evq|
        invariant Valid() && Running(pend) && pend.Valid() && Extends(old(pend.queues), pend.queues)
        invariant forall ev :: ev in watchers ==>
                    (ev.pendpos > 0 <==> old(ev.pendpos) > 0 || (ev in evq[..k] && Hits(ev, r)))
      {
        ghost var queues := pend.queues;
        NotifyOne(evq[k], r, pend);
        ExtendsFurther(old(pend.queues), queues, pend.queues);
      }
      forall ev | ev in watchers && Hits(ev, r) ensures ev in evq {
        assert ev in WatchersOf(watchers, r.fd);
      }
    }

    // ---- whole runs ----

    /**
     * Any interleaving of starts, stops, updates and polls. Afterwards the watchers are those started and
     * not stopped since, the mask recorded for a descriptor is what its watchers wanted at the last
     * update, and a nonzero mask is exactly what epoll has.
     */
    method Run(steps: seq<Step>, pend: Pending)
      requires Valid() && Running(pend) && pend.Valid() && pend.ActiveBut({}) && Aware(pend)
      requires forall k :: 0 <= k < |steps| && (steps[k].StartIo? || steps[k].StopIo?) ==> steps[k].ev in pend.known
      modifies this, pend`queues, pend.known`active, pend.known`priority, pend.known`pendpos
      ensures Valid() && Running(pend) && pend.Valid() && pend.ActiveBut({}) && Aware(pend)
      ensures watchers == WatchersAfter(steps, old(watchers)) && View(pend) == AfterAll(steps, old(View(pend)))
      ensures forall fd: nat :: MaskAt(fd) == MaskAfter(steps, old(watchers), old(MaskAt(fd)), fd)
      ensures forall fd: nat :: MaskAt(fd) != {} ==> fd in kernel && kernel[fd] == MaskAt(fd)
      ensures forall fd :: 0 <= fd < |fds| && !fds[fd].changed ==> fds[fd].event == Wanted(fds[fd].evq)
    {
      hide IoTable.Valid, IoTable.Running, Pending.ValidFrom, Pending.ActiveBut, Extends, Pending.Holed, MaskOf, Aware;
      hide MaskAt, IoTable.View, Next;
      for i := 0 to |steps|
        invariant Valid() && Running(pend) && pend.Valid() && pend.ActiveBut({}) && Aware(pend)
        invariant watchers == WatchersAfter(steps[..i], old(watchers))
        invariant View(pend) == AfterAll(steps[..i], old(View(pend)))
        invariant forall fd: nat :: MaskAt(fd) == MaskAfter(steps[..i], old(watchers), old(MaskAt(fd)), fd)
      {
        assert steps[..i + 1][..i] == steps[..i];
        Perform(steps[i], pend);
      }
      assert steps[..|steps|] == steps;
      InSync();
    }

    /** Among the events of the loop, the active ones are the running watchers. */
    ghost predicate Aware(pend: Pending)
      reads this`watchers, pend`known, pend.known`active
    {
      forall ev :: ev in pend.known ==> (ev.active <==> ev in watchers)
    }

    /** The nonzero masks that are recorded. */
    function Recorded(): map<nat, Mask>
      reads this`fds
    {
      map fd: nat | fd < |fds| && fds[fd].event != {} :: fds[fd].event
    }

    ghost function View(pend: Pending): Table
      reads this`watchers, this`kernel, this`fds, pend`known, pend.known`pendpos
    {
      Table(watchers, Recorded(), kernel, set ev | ev in pend.known && ev.pendpos > 0)
    }

    method Perform(step: Step, pend: Pending)
      requires Valid() && Running(pend) && pend.Valid() && pend.ActiveBut({}) && Aware(pend)
      requires step.StartIo? || step.StopIo? ==> step.ev in pend.known
      modifies this, pend`queues, pend.known`active, pend.known`priority, pend.known`pendpos
      ensures Valid() && Running(pend) && pend.Valid() && pend.ActiveBut({}) && Aware(pend)
      ensures watchers == Stepped(step, old(watchers)) && View(pend) == Next(step, old(View(pend)))
      ensures forall fd: nat :: MaskAt(fd) == if step.Update? then MaskOf(watchers, fd) else old(MaskAt(fd))
      ensures step.StartIo? ==> watchers == old(watchers) + {step.ev}
      ensures step.StopIo? ==> watchers == old(watchers) - {step.ev} && step.ev.pendpos == 0
      ensures step.Poll? && old(Reportable(step.reports)) ==>
                kernel == old(kernel) - set k | 0 <= k < |step.reports| && step.reports[k].fd !in Recorded() &&
                                                (step.reports[k].readable || step.reports[k].writable
                                                 || step.reports[k].broken)
                                          :: step.reports[k].fd
      ensures step.Poll? && old(Reportable(step.reports)) ==>
                forall ev :: ev in watchers ==>
                  (ev.pendpos > 0 <==>
                    old(ev.pendpos) > 0 || exists k :: 0 <= k < |step.reports| && Hits(ev, step.reports[k]))
    {
      hide IoTable.Valid, Pending.ValidFrom, Extends, Pending.Holed, MaskOf, IoTable.Recorded;
      match step
      case StartIo(ev) =>
        IoStart(ev, pend, 0, 0);
        SameMasks();
      case StopIo(ev) =>
        IoStop(ev, pend, 0, 0);
        SameMasks();
      case Update =>
        UpdateFdChanges();
        Synchronised();
        RecordedIs();
      case Poll(reports) =>
        if Reportable(reports) {
          Take(reports, pend);
        }
    }

    method Take(reports: seq<Report>, pend: Pending)
      requires Valid() && Running(pend) && pend.Valid() && pend.ActiveBut({}) && Aware(pend)
      requires Reportable(reports)
      modifies this`kernel, pend`queues, watchers`pendpos
      ensures Valid() && Running(pend) && pend.Valid() && pend.ActiveBut({}) && Aware(pend)
      ensures watchers == old(watchers) && View(pend) == Next(Poll(reports), old(View(pend)))
      ensures kernel == old(kernel) - set k | 0 <= k < |reports| && reports[k].fd !in Recorded() &&
                                              (reports[k].readable || reports[k].writable || reports[k].broken)
                                        :: reports[k].fd
      ensures forall ev :: ev in watchers ==>
                (ev.pendpos > 0 <==> old(ev.pendpos) > 0 || exists k :: 0 <= k < |reports| && Hits(ev, reports[k]))
    {
      hide IoTable.Valid, Pending.ValidFrom, Extends, IoTable.MaskAt, IoTable.Recorded;
      RecordedAt();
      ghost var v := View(pend);
      Dispatch(reports, pend);
      assert forall ev :: ev in watchers ==>
               (ev.pendpos > 0 <==> ev in v.queued || exists k :: 0 <= k < |reports| && Hits(ev, reports[k]));
      assert View(pend).queued == Next(Poll(reports), v).queued;
    }

    lemma RecordedAt()
      ensures forall fd: nat :: fd in Recorded() <==> MaskAt(fd) != {}
    {
    }

    twostate lemma SameMasks()
      requires forall fd: nat :: MaskAt(fd) == old(MaskAt(fd))
      ensures Recorded() == old(Recorded())
    {
      forall fd: nat ensures SameAt(old(Recorded()), Recorded(), fd) {
        assert MaskAt(fd) == old(MaskAt(fd));
      }
      SameMaps(old(Recorded()), Recorded());
    }

    lemma RecordedIs()
      requires Valid() && forall fd: nat :: MaskAt(fd) == MaskOf(watchers, fd)
      ensures Recorded() == MasksOf(watchers)
      ensures Recorded() == map fd: nat | fd < |fds| && fds[fd].event != {} :: fds[fd].event
    {
      forall fd: nat ensures SameAt(MasksOf(watchers), Recorded(), fd) {
        assert MaskAt(fd) == MaskOf(watchers, fd);
      }
      SameMaps(MasksOf(watchers), Recorded());
    }

    /** With nothing flagged, every mask is what the watchers want. */
    lemma Synchronised()
      requires Valid() && forall fd :: 0 <= fd < |fds| ==> !fds[fd].changed
      ensures forall fd: nat :: MaskAt(fd) == MaskOf(watchers, fd)
    {
      forall fd: nat ensures MaskAt(fd) == MaskOf(watchers, fd) {
        if fd < |fds| {
          assert FdOk(fds[fd], fd, watchers, kernel);
          WantedMask(fds[fd].evq, watchers, fd);
        }
      }
    }

    lemma InSync()
      requires Valid()
      ensures forall fd: nat :: MaskAt(fd) != {} ==> fd in kernel && kernel[fd] == MaskAt(fd)
      ensures forall fd :: 0 <= fd < |fds| && !fds[fd].changed ==> fds[fd].event == Wanted(fds[fd].evq)
    {
      assert forall fd :: 0 <= fd < |fds| ==> FdOk(fds[fd], fd, watchers, kernel);
    }
  }

  /** What the user and the loop do. A poll reports registered descriptors, each once. */
  datatype Step = StartIo(ev: Event) | StopIo(ev: Event) | Update | Poll(reports: seq<Report>)

  /** The watchers, the nonzero masks recorded for descriptors, what epoll has registered, and what is queued. */
  datatype Table = Table(watchers: set<Event>, masks: map<nat, Mask>, kernel: map<nat, Mask>, queued: set<Event>)

  /** What a step does. A poll of what is not registered, or of anything twice, does not happen. */
  ghost function Next(step: Step, t: Table): Table {
    match step
    case StartIo(ev) => t.(watchers := t.watchers + {ev})
    case StopIo(ev) => t.(watchers := t.watchers - {ev}, queued := t.queued - {ev})
    case Update => t.(masks := MasksOf(t.watchers), kernel := t.kernel + MasksOf(t.watchers))
    case Poll(reports) =>
      if (forall k :: 0 <= k < |reports| ==> reports[k].fd in t.kernel) && Distinct(reports) then
        t.(kernel := t.kernel - set k | 0 <= k < |reports| && reports[k].fd !in t.masks &&
                                        (reports[k].readable || reports[k].writable || reports[k].broken)
                                :: reports[k].fd,
           queued := t.queued + set ev | ev in t.watchers && exists k :: 0 <= k < |reports| && Hits(ev, reports[k]))
      else t
  }

  ghost function AfterAll(steps: seq<Step>, t: Table): Table {
    if steps == [] then t else Next(steps[|steps| - 1], AfterAll(steps[..|steps| - 1], t))
  }

  /** What the watchers want of each descriptor of which they want anything. */
  function MasksOf(w: set<Event>): map<nat, Mask> {
    map fd | fd in (set ev | ev in w :: ev.fd) && MaskOf(w, fd) != {} :: MaskOf(w, fd)
  }

  function Stepped(step: Step, w: set<Event>): set<Event> {
    if step.StartIo? then w + {step.ev} else if step.StopIo? then w - {step.ev} else w
  }

  /** The watchers that run after the steps. */
  function WatchersAfter(steps: seq<Step>, w: set<Event>): set<Event> {
    if steps == [] then w else Stepped(steps[|steps| - 1], WatchersAfter(steps[..|steps| - 1], w))
  }

  /** What the watchers want of a descriptor. */
  function MaskOf(w: set<Event>, fd: nat): Mask {
    set ev, i | ev in w && ev.fd == fd && i in ev.interest :: i
  }

  /** What the watchers wanted of a descriptor at the last update, if there was one. */
  function MaskAfter(steps: seq<Step>, w: set<Event>, mask: Mask, fd: nat): Mask {
    if steps == [] then mask
    else
      var init := steps[..|steps| - 1];
      if steps[|steps| - 1].Update? then MaskOf(WatchersAfter(init, w), fd) else MaskAfter(init, w, mask, fd)
  }

  lemma WantedMask(evq: seq<Event>, w: set<Event>, fd: nat)
    requires Elements(evq) == WatchersOf(w, fd)
    ensures Wanted(evq) == MaskOf(w, fd)
  {
    forall i | i in Wanted(evq) ensures i in MaskOf(w, fd) {
      var k :| 0 <= k < |evq| && i in evq[k].interest;
      assert evq[k] in Elements(evq);
    }
    forall i | i in MaskOf(w, fd) ensures i in Wanted(evq) {
      var ev :| ev in w && ev.fd == fd && i in ev.interest;
      assert ev in WatchersOf(w, fd);
    }
  }

  predicate SameAt(k: map<nat, Mask>, k': map<nat, Mask>, fd: nat) {
    (fd in k <==> fd in k') && (fd in k ==> k[fd] == k'[fd])
  }

  lemma SameMaps(k: map<nat, Mask>, k': map<nat, Mask>)
    requires forall fd: nat :: SameAt(k, k', fd)
    ensures k' == k
  {
    assert forall fd :: fd in k ==> SameAt(k, k', fd);
    assert forall fd :: fd in k' ==> SameAt(k, k', fd);
  }

  predicate Distinct(reports: seq<Report>) {
    forall i, j :: 0 <= i < j < |reports| ==> reports[i].fd != reports[j].fd
  }

  /** What epoll says happened on a descriptor. */
  datatype Report = Report(fd: nat, readable: bool, writable: bool, broken: bool) {
    /** Errors and hang-ups count as both conditions. */
    function Rev(): Mask {
      (if readable || broken then {Read} else {}) + (if writable || broken then {Write} else {})
    }
  }

  /** The watcher waits for something that the report says happened. */
  predicate Hits(ev: Event, r: Report) {
    && r.fd == ev.fd
    && ((Read in ev.interest && (r.readable || r.broken)) || (Write in ev.interest && (r.writable || r.broken)))
  }

  /** The wait is rounded up to whole milliseconds: longer than asked, by at most 1 ms. Negative means no limit. */
  lemma WaitIsRoundedUp(us: int)
    ensures us > 0 ==> us < 1000 * WaitMs(us) <= us + 1000
    ensures (us == 0 ==> WaitMs(us) == 0) && (us < 0 ==> WaitMs(us) == -1)
  {
  }

  function WaitMs(us: int): int {
    if us < 0 then -1 else if us > 0 then us / 1000 + 1 else 0
  }
}
