/** TCP connections on a single loop: sending, the two watchers, and closing. */
module Tcp {
  import opened Basics
  import opened ObjPool
  import opened ByteBuffer

  /** The outcome of one direct write call: it takes some bytes, would block, or fails for good. */
  datatype SysWrite = Took(n: nat) | Again | Broken

  /** What a connecting socket reports when its write watcher fires. */
  datatype Connecting = InProgress | Success | Failed

  /** What user code may do with a connection, inside a callback or outside. */
  datatype Act =
    | Send(src: seq<byte>, sys: SysWrite, onWrite: seq<Act>)
    | Delay(src: seq<byte>, lowmask: int)
    | Flush

  /** User code that never leaves bytes in the write buffer without starting the write watcher. */
  predicate Eager(acts: seq<Act>) {
    forall i :: 0 <= i < |acts| ==> EagerAct(acts[i])
  }

  predicate EagerAct(act: Act) {
    match act
    case Send(_, _, onWrite) => Eager(onWrite)
    case Delay(_, lowmask) => lowmask == 0
    case Flush => true
  }

  /** The bytes waiting in the write buffer after user code that starts with `waiting` in it. */
  function Waiting(acts: seq<Act>, waiting: seq<byte>): seq<byte> {
    if acts == [] then waiting else WaitingAfter(acts[|acts| - 1], Waiting(acts[..|acts| - 1], waiting))
  }

  function WaitingAfter(act: Act, waiting: seq<byte>): seq<byte> {
    match act
    case Send(src, sys, onWrite) =>
      if waiting != [] || sys.Again? then waiting + src
      else if sys.Broken? then []
      else if sys.n < |src| then src[sys.n..]
      else Waiting(onWrite, [])
    case Delay(src, _) => waiting + src
    case Flush => waiting
  }

  /** User code is run act by act. */
  lemma WaitingSteps(acts: seq<Act>, i: nat, waiting: seq<byte>)
    requires i <= |acts|
    ensures Waiting(acts[..0], waiting) == waiting && acts[..|acts|] == acts
    ensures i < |acts| ==> Waiting(acts[..i + 1], waiting) == WaitingAfter(acts[i], Waiting(acts[..i], waiting))
  {
    if i < |acts| {
      assert acts[..i + 1][..i] == acts[..i];
    }
  }

  /** User code whose every byte the kernel takes at once when nothing was waiting before. */
  predicate AllTaken(acts: seq<Act>) {
    forall i :: 0 <= i < |acts| ==> Taken(acts[i])
  }

  predicate Taken(act: Act) {
    match act
    case Send(src, Took(n), onWrite) => n >= |src| && AllTaken(onWrite)
    case Send(src, Again, _) => src == []
    case Send(_, Broken, _) => true
    case Delay(src, _) => src == []
    case Flush => true
  }

  /** User code takes nothing back, and leaves nothing exactly when all of it is taken at once. */
  lemma {:induction false} WaitingEmpty(acts: seq<Act>, waiting: seq<byte>)
    ensures waiting <= Waiting(acts, waiting)
    ensures Waiting(acts, waiting) == [] <==> waiting == [] && AllTaken(acts)
    decreases acts
  {
    if acts != [] {
      var init, last := acts[..|acts| - 1], acts[|acts| - 1];
      WaitingEmpty(init, waiting);
      WaitingAfterEmpty(last, Waiting(init, waiting));
      assert forall i :: 0 <= i < |init| ==> acts[i] == init[i];
      assert AllTaken(acts) <==> AllTaken(init) && Taken(last);
    }
  }

  lemma {:induction false} WaitingAfterEmpty(act: Act, waiting: seq<byte>)
    ensures waiting <= WaitingAfter(act, waiting)
    ensures WaitingAfter(act, waiting) == [] <==> waiting == [] && Taken(act)
    decreases act
  {
    if act.Send? {
      WaitingEmpty(act.onWrite, []);
    }
  }

  /** User code that sends no bytes, in its callbacks either. */
  predicate Silent(acts: seq<Act>) {
    forall i :: 0 <= i < |acts| ==> SilentAct(acts[i])
  }

  predicate SilentAct(act: Act) {
    match act
    case Send(src, _, onWrite) => src == [] && Silent(onWrite)
    case Delay(src, _) => src == []
    case Flush => true
  }

  /** The same user code, with other answers of the kernel to its write calls. */
  predicate SameCode(acts: seq<Act>, other: seq<Act>) {
    |acts| == |other| && forall i :: 0 <= i < |acts| ==> SameAct(acts[i], other[i])
  }

  predicate SameAct(act: Act, other: Act) {
    match act
    case Send(src, _, onWrite) => other.Send? && other.src == src && SameCode(onWrite, other.onWrite)
    case _ => other == act
  }

  /** The answers by which nothing that can be left is taken. */
  function Refused(acts: seq<Act>): (other: seq<Act>)
    ensures |other| == |acts| && forall i :: 0 <= i < |acts| ==> other[i] == RefusedAct(acts[i])
    decreases acts
  {
    if acts == [] then [] else Refused(acts[..|acts| - 1]) + [RefusedAct(acts[|acts| - 1])]
  }

  function RefusedAct(act: Act): Act
    decreases act
  {
    match act
    case Send(src, _, onWrite) => Send(src, if src == [] then Took(0) else Again, Refused(onWrite))
    case _ => act
  }

  /** Whatever the kernel answers, nothing is left exactly when nothing is sent. */
  lemma SilentIff(acts: seq<Act>)
    ensures Silent(acts) <==> forall other :: SameCode(acts, other) ==> AllTaken(other)
  {
    if Silent(acts) {
      forall other | SameCode(acts, other) ensures AllTaken(other) {
        SilentIsTaken(acts, other);
      }
    } else {
      RefusedIsLost(acts);
      assert SameCode(acts, Refused(acts));
    }
  }

  lemma {:induction false} SilentIsTaken(acts: seq<Act>, other: seq<Act>)
    requires Silent(acts) && SameCode(acts, other)
    ensures AllTaken(other)
    decreases acts
  {
    forall i | 0 <= i < |other| ensures Taken(other[i]) {
      assert SilentAct(acts[i]) && SameAct(acts[i], other[i]);
      if acts[i].Send? {
        SilentIsTaken(acts[i].onWrite, other[i].onWrite);
      }
    }
  }

  lemma {:induction false} RefusedIsLost(acts: seq<Act>)
    ensures SameCode(acts, Refused(acts)) && (AllTaken(Refused(acts)) ==> Silent(acts))
    decreases acts
  {
    var other := Refused(acts);
    forall i | 0 <= i < |acts| ensures SameAct(acts[i], other[i]) && (Taken(other[i]) ==> SilentAct(acts[i])) {
      if acts[i].Send? {
        RefusedIsLost(acts[i].onWrite);
      }
    }
  }

  /** What can happen to a connection, with the kernel's answers and the user code it runs. */
  datatype Event =
    | Readable(rkernel: seq<ReadResult>, onRead: seq<Act>, onClose: seq<Act>)
    | Writable(error: Connecting, wkernel: seq<WriteResult>, acts: seq<Act>, onClose: seq<Act>)
    | User(acts: seq<Act>)
    | Shut(onClose: seq<Act>)

  /** Read calls deliver at least one byte. */
  predicate WellFormed(ev: Event) {
    ev.Readable? ==> forall i :: 0 <= i < |ev.rkernel| && ev.rkernel[i].Data? ==> ev.rkernel[i].bytes != []
  }

  /** Why a connection is closed. */
  datatype Cause = NotClosed | Drained | ReadFailed | WriteFailed | ByUser

  /** The event that closes a connection for that cause. */
  ghost predicate Closing(cause: Cause, ev: Event) {
    match cause
    case NotClosed => false
    case Drained => ev.Writable? || (ev.Readable? && Ending(ev.rkernel) == Eof)
    case ReadFailed => ev.Readable? && Ending(ev.rkernel) == ReadResult.Fail(true)
    case WriteFailed => ev.Writable? && exists i :: Rejected(ev.wkernel, i)
    case ByUser => ev.Shut?
  }

  predicate EagerEvent(ev: Event) {
    match ev
    case Readable(_, onRead, _) => Eager(onRead)
    case Writable(_, _, acts, _) => Eager(acts)
    case User(acts) => Eager(acts)
    case Shut(_) => true
  }

  /** The user callbacks of a connection. */
  datatype Notice = OnAccept | OnConnect | OnRead | OnWrite | OnClose

  // ---- a connection as a value ----

  /**
   * What is visible of a connection: its two watchers, its flags, its bytes, the callbacks it made, and how the
   * bytes lie in the units of its buffers, which have room for `wsize` and `rsize` bytes.
   */
  datatype Conn = Conn(reading: bool, writing: bool, conning: bool, conned: bool, connfail: bool, waitcls: bool,
                       closed: bool, unsent: seq<byte>, outgoing: seq<byte>, dropped: seq<byte>,
                       notices: seq<Notice>, wsize: nat, offset: nat, rsize: nat, input: Content)

  function Delayed(c: Conn, src: seq<byte>, lowmask: int): Conn {
    c.(unsent := c.unsent + src, outgoing := c.outgoing + src,
       writing := c.writing || (lowmask >= 0 && |c.unsent + src| > lowmask))
  }

  /** The connection after user code. */
  function Ran(acts: seq<Act>, c: Conn): Conn
    decreases acts
  {
    if acts == [] then c else Did(acts[|acts| - 1], Ran(acts[..|acts| - 1], c))
  }

  function Did(act: Act, c: Conn): Conn
    decreases act
  {
    match act
    case Send(src, sys, onWrite) =>
      if c.unsent != [] || sys.Again? then Delayed(c, src, 0)
      else if sys.Broken? then c
      else if sys.n < |src| then Delayed(c.(outgoing := c.outgoing + src[..sys.n]), src[sys.n..], 0)
      else Ran(onWrite, c.(outgoing := c.outgoing + src, notices := c.notices + [OnWrite]))
    case Delay(src, lowmask) => Delayed(c, src, lowmask)
    case Flush => c.(writing := true)
  }

  lemma RanSteps(acts: seq<Act>, i: nat, c: Conn)
    requires i <= |acts|
    ensures Ran(acts[..0], c) == c && acts[..|acts|] == acts
    ensures i < |acts| ==> Ran(acts[..i + 1], c) == Did(acts[i], Ran(acts[..i], c))
  {
    if i < |acts| {
      assert acts[..i + 1][..i] == acts[..i];
    }
  }

  /** The bytes of the sends that succeed, in order: each is sent whole or, on a broken connection, not at all. */
  function SentBy(acts: seq<Act>, waiting: seq<byte>): seq<byte>
    decreases acts, 0
  {
    if acts == [] then []
    else
      var init := acts[..|acts| - 1];
      SentBy(init, waiting) + SentAct(acts[|acts| - 1], Waiting(init, waiting))
  }

  function SentAct(act: Act, waiting: seq<byte>): seq<byte>
    decreases act, 1
  {
    match act
    case Send(src, sys, onWrite) =>
      if waiting == [] && sys.Broken? then []
      else if waiting == [] && sys.Took? && sys.n >= |src| then src + SentBy(onWrite, [])
      else src
    case Delay(src, _) => src
    case Flush => []
  }

  /** Bytes were sent, and nothing else has changed but the callbacks made and the watching for writing. */
  predicate Grew(c: Conn, d: Conn, unsent: seq<byte>, sent: seq<byte>) {
    && d.unsent == unsent && d.outgoing == c.outgoing + sent && c.notices <= d.notices && (c.writing ==> d.writing)
    && d == c.(unsent := d.unsent, outgoing := d.outgoing, notices := d.notices, writing := d.writing)
  }

  /** User code adds what it sends, and leaves `Waiting` in the buffer. */
  lemma {:induction false} RanEffect(acts: seq<Act>, c: Conn)
    ensures Grew(c, Ran(acts, c), Waiting(acts, c.unsent), SentBy(acts, c.unsent))
    decreases acts
  {
    if acts != [] {
      hide Did, WaitingAfter, SentAct;
      var init, last := acts[..|acts| - 1], acts[|acts| - 1];
      RanEffect(init, c);
      DidEffect(last, Ran(init, c));
      Regrouped(c.outgoing, SentBy(init, c.unsent), SentAct(last, Waiting(init, c.unsent)));
    }
  }

  lemma {:induction false} DidEffect(act: Act, c: Conn)
    ensures Grew(c, Did(act, c), WaitingAfter(act, c.unsent), SentAct(act, c.unsent))
    decreases act
  {
    hide Ran, Waiting, SentBy, Grew, Delayed;
    match act
    case Send(src, sys, onWrite) =>
      DelayedGrew(c, src, 0);
      NothingGrew(c);
      if c.unsent == [] && sys.Took? {
        if sys.n < |src| {
          PartGrew(c, src, sys.n);
        } else {
          RanEffect(onWrite, c.(outgoing := c.outgoing + src, notices := c.notices + [OnWrite]));
          WholeGrew(c, src, onWrite);
        }
      }
    case Delay(src, lowmask) =>
      DelayedGrew(c, src, lowmask);
    case Flush =>
      FlushGrew(c);
  }

  lemma DelayedGrew(c: Conn, src: seq<byte>, lowmask: int)
    ensures Grew(c, Delayed(c, src, lowmask), c.unsent + src, src)
  {
  }

  lemma NothingGrew(c: Conn)
    ensures Grew(c, c, c.unsent, [])
  {
  }

  lemma FlushGrew(c: Conn)
    ensures Grew(c, c.(writing := true), c.unsent, [])
  {
  }

  lemma PartGrew(c: Conn, src: seq<byte>, n: nat)
    requires c.unsent == [] && n < |src|
    ensures Grew(c, Delayed(c.(outgoing := c.outgoing + src[..n]), src[n..], 0), src[n..], src)
  {
    Rejoined(c.outgoing, src, n);
  }

  lemma WholeGrew(c: Conn, src: seq<byte>, onWrite: seq<Act>)
    requires c.unsent == []
    requires var mid := c.(outgoing := c.outgoing + src, notices := c.notices + [OnWrite]);
             Grew(mid, Ran(onWrite, mid), Waiting(onWrite, []), SentBy(onWrite, []))
    ensures var mid := c.(outgoing := c.outgoing + src, notices := c.notices + [OnWrite]);
            Grew(c, Ran(onWrite, mid), Waiting(onWrite, []), src + SentBy(onWrite, []))
  {
    hide Ran, Waiting, SentBy;
    Regrouped(c.outgoing, src, SentBy(onWrite, []));
  }

  lemma Rejoined(s: seq<byte>, t: seq<byte>, n: nat)
    requires n <= |t|
    ensures (s + t[..n]) + t[n..] == s + t && [] + t[n..] == t[n..]
  {
  }

  lemma Regrouped(s: seq<byte>, t: seq<byte>, u: seq<byte>)
    ensures (s + t) + u == s + (t + u)
  {
  }

  /** A callback and the user code in it. */
  function Called(kind: Notice, acts: seq<Act>, c: Conn): Conn {
    Ran(acts, c.(notices := c.notices + [kind]))
  }

  function Stopped(c: Conn): Conn {
    c.(reading := false, writing := false)
  }

  /** The watchers are off, and what is unsent or unread is gone. */
  function Released(c: Conn): Conn {
    c.(reading := false, writing := false, closed := true, dropped := c.unsent, unsent := [], offset := 0,
       input := Content([], 0, 0))
  }

  /** The close callback runs before the buffers are released. */
  function Closed(onClose: seq<Act>, c: Conn): Conn {
    Released(Called(OnClose, onClose, c))
  }

  /** What has arrived is in the read buffer. */
  function Arrived(got: seq<byte>, onRead: seq<Act>, c: Conn): Conn
    requires c.rsize >= 1
  {
    if got == [] then c else Called(OnRead, onRead, Supplied(got, c))
  }

  function Supplied(got: seq<byte>, c: Conn): Conn
    requires c.rsize >= 1
  {
    c.(input := Content(c.input.bytes + got, c.input.offset, Place(c.input.fill + |got|, c.rsize)))
  }

  /** And reading has come to the end of it. */
  function AtEnd(end: ReadResult, onClose: seq<Act>, c: Conn): Conn {
    match end
    case Data(_) => c
    case Eof =>
      if c.unsent == [] then Closed(onClose, Stopped(c)) else c.(reading := false, writing := true, waitcls := true)
    case Fail(hard) => if hard then Closed(onClose, Stopped(c)) else c
  }

  /** The outcome of connecting is known. */
  function Joined(error: Connecting, onConnect: seq<Act>, c: Conn): Conn {
    if error.InProgress? then c
    else
      Called(OnConnect, onConnect,
             c.(writing := c.writing && error.Success? && c.unsent != [], reading := c.reading || error.Success?,
                conning := false, connfail := c.connfail || error.Failed?, conned := c.conned || error.Success?))
  }

  /** The first pieces are read, and after the last one perhaps the end. */
  ghost function Got(kernel: seq<ReadResult>, pieces: nat, ended: bool, onRead: seq<Act>, onClose: seq<Act>,
                     c: Conn): Conn
    requires c.rsize >= 1 && pieces <= |kernel|
  {
    var mid := Arrived(Stream(kernel[..pieces]), onRead, c);
    if ended then AtEnd(Ending(kernel), onClose, mid) else mid
  }

  ghost predicate GotSome(kernel: seq<ReadResult>, onRead: seq<Act>, onClose: seq<Act>, c: Conn, d: Conn) {
    exists pieces: nat, ended: bool ::
      ReadsUpTo(kernel, pieces, ended, c.rsize, c.input.fill) && d == Got(kernel, pieces, ended, onRead, onClose, c)
  }

  /** Everything that was waiting has been written. */
  function Emptied(onWrite: seq<Act>, onClose: seq<Act>, c: Conn): Conn {
    DrainedNow(onClose, Called(OnWrite, onWrite, c))
  }

  function DrainedNow(onClose: seq<Act>, c: Conn): Conn {
    if c.unsent != [] then c
    else if c.waitcls then Closed(onClose, c.(writing := false)) else c.(writing := false)
  }

  /** The first k of the waiting bytes are gone. */
  function Sent(k: nat, c: Conn): Conn
    requires k <= |c.unsent| && c.wsize >= 1
  {
    c.(unsent := c.unsent[k..], offset := Onward(c.wsize, c.offset, k, |c.unsent| - k))
  }

  /** The kernel has taken k of the waiting bytes. */
  ghost function Wrote(k: nat, kernel: seq<WriteResult>, onWrite: seq<Act>, onClose: seq<Act>, c: Conn): Conn
    requires k <= |c.unsent| && c.wsize >= 1
  {
    if k == |c.unsent| then Emptied(onWrite, onClose, Sent(k, c))
    else if exists i :: Rejected(kernel, i) then Closed(onClose, Stopped(Sent(k, c)))
    else Sent(k, c)
  }

  ghost predicate WroteSome(kernel: seq<WriteResult>, onWrite: seq<Act>, onClose: seq<Act>, c: Conn, d: Conn) {
    exists amounts: seq<nat> ::
      && Handed(kernel, amounts, c.wsize, c.offset, |c.unsent|) && Over(kernel, amounts, |c.unsent|)
      && Sum(amounts) <= |c.unsent| && d == Wrote(Sum(amounts), kernel, onWrite, onClose, c)
  }

  /**
   * What one event does. How much a readiness event reads or writes follows from what the kernel is ready to
   * give or take. A closed connection sees no more events.
   */
  ghost predicate Step(c: Conn, ev: Event, d: Conn) {
    if c.closed then d == c
    else
      match ev
      case Readable(kernel, onRead, onClose) =>
        if c.reading then GotSome(kernel, onRead, onClose, c, d) else d == c
      case Writable(error, kernel, acts, onClose) =>
        if !c.writing then d == c
        else if c.conning then d == Joined(error, acts, c)
        else WroteSome(kernel, acts, onClose, c, d)
      case User(acts) => d == Ran(acts, c)
      case Shut(onClose) => d == Closed(onClose, Stopped(c))
  }

  /** An event has one outcome. */
  lemma StepOnce(c: Conn, ev: Event, d: Conn, d': Conn)
    requires Step(c, ev, d) && Step(c, ev, d')
    ensures d == d'
  {
    hide Handed, Over, ReadsUpTo, Got, Wrote, Joined, Ran, Closed, Sum;
    match ev
    case Readable(kernel, onRead, onClose) =>
      if !c.closed && c.reading {
        ReadOneWay(kernel, onRead, onClose, c, d, d');
      }
    case Writable(error, kernel, acts, onClose) =>
      if !c.closed && c.writing && !c.conning {
        WroteOneWay(kernel, acts, onClose, c, d, d');
      }
    case User(acts) =>
    case Shut(onClose) =>
  }

  lemma ReadOneWay(kernel: seq<ReadResult>, onRead: seq<Act>, onClose: seq<Act>, c: Conn, d: Conn, d': Conn)
    requires GotSome(kernel, onRead, onClose, c, d) && GotSome(kernel, onRead, onClose, c, d')
    ensures d == d'
  {
    hide Got;
    var p: nat, ended: bool :|
      ReadsUpTo(kernel, p, ended, c.rsize, c.input.fill) && d == Got(kernel, p, ended, onRead, onClose, c);
    var q: nat, ended': bool :|
      ReadsUpTo(kernel, q, ended', c.rsize, c.input.fill) && d' == Got(kernel, q, ended', onRead, onClose, c);
    ReadsOnce(kernel, p, ended, q, ended', c.rsize, c.input.fill);
  }

  lemma WroteOneWay(kernel: seq<WriteResult>, onWrite: seq<Act>, onClose: seq<Act>, c: Conn, d: Conn, d': Conn)
    requires WroteSome(kernel, onWrite, onClose, c, d) && WroteSome(kernel, onWrite, onClose, c, d')
    ensures d == d'
  {
    hide Wrote, Over, Sum;
    var a: seq<nat> :|
      && Handed(kernel, a, c.wsize, c.offset, |c.unsent|) && Over(kernel, a, |c.unsent|)
      && Sum(a) <= |c.unsent| && d == Wrote(Sum(a), kernel, onWrite, onClose, c);
    var b: seq<nat> :|
      && Handed(kernel, b, c.wsize, c.offset, |c.unsent|) && Over(kernel, b, |c.unsent|)
      && Sum(b) <= |c.unsent| && d' == Wrote(Sum(b), kernel, onWrite, onClose, c);
    HandedOnce(kernel, a, b, c.wsize, c.offset, |c.unsent|);
  }

  /** Once a writable event leaves nothing unsent, writing is watched no longer. */
  predicate Rested(c: Conn, ev: Event, d: Conn) {
    ev.Writable? && !c.conning && !d.closed ==> d.unsent != [] || !d.writing
  }

  lemma Steps(c: Conn, ev: Event)
    requires !c.closed
    ensures (ev.Readable? ==> !c.reading) && (ev.Writable? ==> !c.writing) && !ev.User? && !ev.Shut? ==> Step(c, ev, c)
    ensures ev.User? ==> Step(c, ev, Ran(ev.acts, c))
    ensures ev.Shut? ==> Step(c, ev, Closed(ev.onClose, Stopped(c)))
  {
  }

  /** What a run of events does. */
  ghost predicate Reaches(c: Conn, events: seq<Event>, d: Conn)
    decreases |events|, 0
  {
    if events == [] then d == c else ReachesBefore(c, events[..|events| - 1], events[|events| - 1], d)
  }

  ghost predicate ReachesBefore(c: Conn, events: seq<Event>, last: Event, d: Conn)
    decreases |events|, 1
  {
    exists mid :: Reaches(c, events, mid) && Step(mid, last, d)
  }

  lemma ReachesNone(c: Conn)
    ensures Reaches(c, [], c)
  {
  }

  lemma ReachesMore(c: Conn, events: seq<Event>, mid: Conn, ev: Event, d: Conn)
    requires Reaches(c, events, mid) && Step(mid, ev, d)
    ensures Reaches(c, events + [ev], d)
  {
    assert (events + [ev])[..|events|] == events;
  }

  /** A connection before, between and after the first n events. */
  ghost predicate Traced(views: seq<Conn>, events: seq<Event>, n: nat, d: Conn) {
    && |views| == n + 1 <= |events| + 1 && views[n] == d
    && forall i :: 0 <= i < n ==> Step(views[i], events[i], views[i + 1]) && Rested(views[i], events[i], views[i + 1])
  }

  lemma TraceOpens(c: Conn, events: seq<Event>)
    ensures Traced([c], events, 0, c)
  {
  }

  lemma TraceGoesOn(views: seq<Conn>, events: seq<Event>, n: nat, c: Conn, d: Conn)
    requires n < |events| && Traced(views, events, n, c) && Step(c, events[n], d) && Rested(c, events[n], d)
    ensures Traced(views + [d], events, n + 1, d) && (views + [d])[0] == views[0]
  {
    hide Step, Rested;
  }

  lemma TraceCloses(views: seq<Conn>, events: seq<Event>, n: nat, d: Conn)
    requires Traced(views, events, n, d)
    ensures |views| == n + 1 <= |events| + 1 && views[n] == d
    ensures forall i :: 0 <= i < n ==> Step(views[i], events[i], views[i + 1])
    ensures forall i :: 0 <= i < n && events[i].Writable? && !views[i].conning && !views[i + 1].closed ==>
              views[i + 1].unsent != [] || !views[i + 1].writing
    ensures Reaches(views[0], events[..n], d)
  {
    hide Step;
    TraceReaches(views, events, n);
  }

  lemma {:induction false} TraceReaches(views: seq<Conn>, events: seq<Event>, n: nat)
    requires |views| >= n + 1 && n <= |events|
    requires forall i :: 0 <= i < n ==> Step(views[i], events[i], views[i + 1])
    ensures Reaches(views[0], events[..n], views[n])
  {
    hide Step;
    if n > 0 {
      TraceReaches(views, events, n - 1);
      assert events[..n][..n - 1] == events[..n - 1];
    }
  }

  /** And a run of events has one outcome. */
  lemma {:induction false} ReachesOnce(c: Conn, events: seq<Event>, d: Conn, d': Conn)
    requires Reaches(c, events, d) && Reaches(c, events, d')
    ensures d == d'
    decreases |events|
  {
    hide Step;
    if events != [] {
      var init, last := events[..|events| - 1], events[|events| - 1];
      var mid :| Reaches(c, init, mid) && Step(mid, last, d);
      var mid' :| Reaches(c, init, mid') && Step(mid', last, d');
      ReachesOnce(c, init, mid, mid');
      StepOnce(mid, last, d, d');
    }
  }

  /** After the close nothing happens any more. */
  lemma {:induction false} ReachesClosed(c: Conn, events: seq<Event>, n: nat, d: Conn)
    requires n <= |events| && Reaches(c, events[..n], d) && d.closed
    ensures Reaches(c, events, d)
    decreases |events| - n
  {
    if n < |events| {
      assert events[..n + 1][..n] == events[..n];
      ReachesClosed(c, events, n + 1, d);
    } else {
      assert events[..n] == events;
    }
  }

  class TcpServer {
    var conn_cnt: int
    ghost var live: set<TcpClient>
    ghost var gone: set<TcpClient>

    constructor ()
      ensures Counted() && live == {} && gone == {}
    {
      conn_cnt, live, gone := 0, {}, {};
    }

    /** The counter is the number of accepted clients less the number of closed ones. */
    ghost predicate Counted()
      reads this
    {
      live !! gone && conn_cnt == |live|
    }

    method Enter(client: TcpClient)
      requires Counted() && client !in live && client !in gone
      modifies this
      ensures Counted() && live == old(live) + {client} && gone == old(gone)
    {
      conn_cnt := conn_cnt + 1;
      live := live + {client};
    }

    method Leave(client: TcpClient)
      requires Counted() && client in live
      modifies this
      ensures Counted() && live == old(live) - {client} && gone == old(gone) + {client}
    {
      conn_cnt := conn_cnt - 1;
      live, gone := live - {client}, gone + {client};
    }
  }

  class TcpClient {
    const peer: TcpServer?          // null for a connection this side opened
    const rbuf: Buffer
    const wbuf: Buffer
    var conning: bool
    var conned: bool
    var connfail: bool
    var waitcls: bool
    var readActive: bool
    var writeActive: bool
    var closed: nat                 // how often the connection was closed
    ghost var dropped: seq<byte>    // what was unsent when its buffers were released
    ghost var accepted: seq<byte>   // what the kernel took
    ghost var outgoing: seq<byte>   // the bytes of all successful sends
    ghost var notices: seq<Notice>  // the callbacks that were called

    constructor (peer: TcpServer?, rbuf: Buffer, wbuf: Buffer)
      ensures this.peer == peer && this.rbuf == rbuf && this.wbuf == wbuf
      ensures !conning && !conned && !connfail && !waitcls && !readActive && !writeActive
      ensures closed == 0 && accepted == outgoing == dropped == [] && notices == []
    {
      this.peer, this.rbuf, this.wbuf := peer, rbuf, wbuf;
      conning, conned, connfail, waitcls := false, false, false, false;
      readActive, writeActive := false, false;
      closed, accepted, outgoing, dropped, notices := 0, [], [], [], [];
    }

    /** How often the close callback was called. */
    ghost function Closes(): nat
      reads this`notices
    {
      multiset(notices)[OnClose]
    }

    /** A connection is closed at most once, and a closed one is no longer watched. */
    ghost predicate Valid()
      reads this, wbuf, wbuf.pool`users, wbuf.chain`rptr, wbuf.chain`wptr, wbuf.chain`data, peer
    {
      && Closes() == closed
      && if closed == 0 then Open() else closed == 1 && !readActive && !writeActive && accepted + dropped == outgoing
    }

    /** The two buffers are buffers of one pool. */
    ghost predicate Attached()
      reads wbuf.pool`users
    {
      rbuf.pool == wbuf.pool && rbuf != wbuf && {rbuf, wbuf} <= wbuf.pool.users
    }

    /** What holds while the connection is open. No byte is lost, added or reordered. */
    ghost predicate Open()
      reads this`accepted, this`outgoing, this`waitcls, this`readActive, this`conned, this`conning
      reads wbuf, wbuf.pool`users, wbuf.chain`rptr, wbuf.chain`wptr, wbuf.chain`data, peer
    {
      && Attached()
      && accepted + Bytes(wbuf.chain) == outgoing
      && (waitcls ==> !readActive)
      && (peer == null && (readActive || waitcls) ==> conned)
      && (conning ==> peer == null && !conned)
      && (peer != null ==> this in peer.live)
    }

    /** Between events, a connection that waits to close is watched for writing. */
    ghost predicate Settled()
      reads this
    {
      closed == 0 && waitcls ==> writeActive
    }

    /** Unsent bytes are being watched for, unless connecting has failed. */
    ghost predicate Armed()
      reads this, wbuf, wbuf.chain`rptr, wbuf.chain`wptr, wbuf.chain`data
    {
      Bytes(wbuf.chain) != [] && (connfail ==> conned || conning) ==> writeActive
    }

    /** The connection as a value, while it is open. */
    ghost function Live(): Conn
      reads this, wbuf, wbuf.chain`rptr, wbuf.chain`wptr, wbuf.chain`data
      reads rbuf, rbuf.chain`rptr, rbuf.chain`wptr, rbuf.chain`data
    {
      Conn(readActive, writeActive, conning, conned, connfail, waitcls, false, Bytes(wbuf.chain), outgoing, dropped,
           notices, wbuf.unit_size, Offset(wbuf.chain), rbuf.unit_size, ContentOf(rbuf))
    }

    ghost function View(): Conn
      reads this, wbuf, wbuf.chain`rptr, wbuf.chain`wptr, wbuf.chain`data
      reads rbuf, rbuf.chain`rptr, rbuf.chain`wptr, rbuf.chain`data
    {
      if closed == 0 then Live()
      else Live().(closed := true, unsent := [], offset := 0, input := Content([], 0, 0))
    }

    lemma Fields()
      ensures Live() == Conn(readActive, writeActive, conning, conned, connfail, waitcls, false, Bytes(wbuf.chain),
                             outgoing, dropped, notices, wbuf.unit_size, Offset(wbuf.chain), rbuf.unit_size,
                             ContentOf(rbuf))
      ensures closed != 0 ==> View() == Conn(readActive, writeActive, conning, conned, connfail, waitcls, true, [],
                                             outgoing, dropped, notices, wbuf.unit_size, 0, rbuf.unit_size,
                                             Content([], 0, 0))
      ensures closed == 0 ==> View() == Live()
    {
    }

    lemma ViewClosed()
      ensures View().closed <==> closed != 0
    {
    }

    ghost function Server(): set<TcpServer> {
      if peer == null then {} else {peer}
    }

    ghost method Note(kind: Notice)
      modifies this`notices
      ensures notices == old(notices) + [kind] && Closes() == old(Closes()) + if kind == OnClose then 1 else 0
    {
      notices := notices + [kind];
    }

    // ---- sending ----

    /** Buffer the bytes; the write watcher starts only above the mark, never for a negative one. */
    method SendDelay(src: seq<byte>, lowmask: int) returns (sz: nat)
      requires Ready(wbuf.pool) && Open()
      modifies this`writeActive, this`outgoing, wbuf.pool, wbuf, wbuf.pool.Footprint(wbuf)
      ensures Open() && Kept(wbuf) && sz == |src|
      ensures outgoing == old(outgoing) + src && Bytes(wbuf.chain) == old(Bytes(wbuf.chain)) + src
      ensures writeActive == (old(writeActive) || (lowmask >= 0 && |Bytes(wbuf.chain)| > lowmask))
      ensures Live() == Delayed(old(Live()), src, lowmask)
    {
      hide Ready, Bytes, Buffer.Chained, Pool.Footprint, Closes, Offset, ContentOf, Preimage;
      Regrouped(accepted, Bytes(wbuf.chain), src);
      sz := Write(wbuf, src);
      outgoing := outgoing + src;
      var used := Unsent();
      if lowmask >= 0 && used > lowmask {
        writeActive := true;
      }
    }

    ghost method TakenDirectly(bytes: seq<byte>)
      requires Open() && Bytes(wbuf.chain) == []
      modifies this`accepted, this`outgoing
      ensures Open() && accepted == old(accepted) + bytes && outgoing == old(outgoing) + bytes
    {
      hide Bytes;
      accepted := accepted + bytes;
      outgoing := outgoing + bytes;
    }

    /** With nothing waiting, the kernel takes n bytes at once; what it leaves is buffered. */
    method SendDirect(src: seq<byte>, n: nat, onWrite: seq<Act>) returns (len: int)
      requires Ready(wbuf.pool) && Open() && Bytes(wbuf.chain) == []
      modifies this`writeActive, this`accepted, this`outgoing, this`notices, wbuf.pool, wbuf, wbuf.pool.Footprint(wbuf)
      ensures Kept(wbuf) && Open() && len == |src|
      ensures old(outgoing) + src <= outgoing && old(accepted) + src[..Min(n, |src|)] <= accepted
      ensures n < |src| ==> outgoing == old(outgoing) + src && accepted == old(accepted) + src[..n]
      ensures if n < |src| then notices == old(notices) else old(notices) + [OnWrite] <= notices
      ensures Closes() == old(Closes())
      ensures Bytes(wbuf.chain) == if n < |src| then src[n..] else Waiting(onWrite, [])
      ensures Live() == Did(Send(src, Took(n), onWrite), old(Live()))
      ensures Eager(onWrite) ==> Armed()
      ensures old(writeActive) ==> writeActive
      decreases onWrite, 2
    {
      hide Ready, Bytes, Buffer.Chained, Closes, Open, Eager, Waiting, Ran, Pool.Footprint, Kept;
      if n < |src| {
        len := SendPart(src, n);
      } else {
        len := |src|;
        assert src[..len] == src;
        SendWhole(src, onWrite);
      }
    }

    /** The kernel takes the first n bytes, and the rest is buffered. */
    method SendPart(src: seq<byte>, n: nat) returns (len: int)
      requires Ready(wbuf.pool) && Open() && Bytes(wbuf.chain) == [] && n < |src|
      modifies `writeActive, `accepted, `outgoing, wbuf.pool, wbuf, wbuf.pool.Footprint(wbuf)
      ensures Kept(wbuf) && Open() && len == |src| && writeActive
      ensures outgoing == old(outgoing) + src && accepted == old(accepted) + src[..n]
      ensures Bytes(wbuf.chain) == src[n..]
      ensures Live() == Delayed(old(Live()).(outgoing := old(outgoing) + src[..n]), src[n..], 0)
    {
      hide Ready, Bytes, Buffer.Chained, Open;
      TakenDirectly(src[..n]);
      Rejoined(old(outgoing), src, n);
      Rejoined([], src, n);
      len := n;
      var sz := SendDelay(src[n..], 0);
      len := len + sz;
    }

    /** The kernel takes all bytes, and the write callback follows. */
    method SendWhole(src: seq<byte>, onWrite: seq<Act>)
      requires Ready(wbuf.pool) && Open() && Bytes(wbuf.chain) == []
      modifies `writeActive, `accepted, `outgoing, `notices, wbuf.pool, wbuf, wbuf.pool.Footprint(wbuf)
      ensures Kept(wbuf) && Open()
      ensures old(outgoing) + src <= outgoing && old(accepted) + src <= accepted
      ensures old(notices) + [OnWrite] <= notices && Closes() == old(Closes())
      ensures Bytes(wbuf.chain) == Waiting(onWrite, []) && (Eager(onWrite) ==> Armed())
      ensures Live() == Ran(onWrite, old(Live()).(outgoing := old(outgoing) + src, notices := old(notices) + [OnWrite]))
      ensures old(writeActive) ==> writeActive
      decreases onWrite, 1
    {
      hide Ready, Bytes, Buffer.Chained, Closes, Open, Eager, Waiting, Ran, SentBy;
      TakenDirectly(src);
      Note(OnWrite);
      Perform(onWrite);
    }

    /** Write directly when nothing is waiting, otherwise, and for what is left over, buffer. */
    method SendNow(src: seq<byte>, sys: SysWrite, onWrite: seq<Act>) returns (len: int)
      requires Ready(wbuf.pool) && Open()
      modifies this`writeActive, this`accepted, this`outgoing, this`notices, wbuf.pool, wbuf, wbuf.pool.Footprint(wbuf)
      ensures Kept(wbuf) && Open()
      ensures len == if old(Bytes(wbuf.chain)) == [] && sys.Broken? then -1 else |src|
      ensures len == -1 ==> outgoing == old(outgoing) && accepted == old(accepted)
      ensures len >= 0 ==> old(outgoing) + src <= outgoing
      ensures old(Bytes(wbuf.chain)) != [] || sys.Again? ==>
                outgoing == old(outgoing) + src && accepted == old(accepted)
      ensures old(Bytes(wbuf.chain)) == [] && sys.Took? ==> old(accepted) + src[..Min(sys.n, |src|)] <= accepted
      ensures old(notices) <= notices && Closes() == old(Closes())
      ensures old(Bytes(wbuf.chain)) == [] && sys.Took? && sys.n >= |src| ==> old(notices) + [OnWrite] <= notices
      ensures old(accepted) <= accepted && (old(Armed()) && Eager(onWrite) ==> Armed())
      ensures old(writeActive) ==> writeActive
      ensures Bytes(wbuf.chain) == WaitingAfter(Send(src, sys, onWrite), old(Bytes(wbuf.chain)))
      ensures old(Bytes(wbuf.chain)) != [] || sys.Again? || (sys.Took? && sys.n < |src|) ==>
                (Bytes(wbuf.chain) != [] ==> writeActive)
      ensures Live() == Did(Send(src, sys, onWrite), old(Live()))
      ensures outgoing == old(outgoing) + SentAct(Send(src, sys, onWrite), old(Bytes(wbuf.chain)))
      decreases onWrite, 3
    {
      hide Ready, Bytes, Buffer.Chained, Closes, Waiting, Ran, SentBy;
      DidEffect(Send(src, sys, onWrite), Live());
      var used := Unsent();
      if used == 0 {
        match sys
        case Broken =>
          return -1;
        case Again =>
          len := SendDelay(src, 0);
        case Took(n) =>
          len := SendDirect(src, n, onWrite);
      } else {
        len := SendDelay(src, 0);
      }
    }

    /** Run user code. */
    method Perform(acts: seq<Act>)
      requires Ready(wbuf.pool) && Open()
      modifies this`writeActive, this`accepted, this`outgoing, this`notices, wbuf.pool, wbuf, wbuf.pool.Footprint(wbuf)
      ensures Kept(wbuf) && Open() && old(notices) <= notices && Closes() == old(Closes())
      ensures old(outgoing) <= outgoing && old(accepted) <= accepted
      ensures old(Armed()) && Eager(acts) ==> Armed()
      ensures old(writeActive) ==> writeActive
      ensures Bytes(wbuf.chain) == Waiting(acts, old(Bytes(wbuf.chain)))
      ensures Live() == Ran(acts, old(Live()))
      ensures outgoing == old(outgoing) + SentBy(acts, old(Bytes(wbuf.chain)))
      decreases acts, 0
    {
      hide Ready, Bytes, Buffer.Chained, Closes, Waiting, WaitingAfter, EagerAct, Ran, Did, SentBy;
      RanSteps(acts, 0, Live());
      RanEffect(acts, Live());
      for i := 0 to |acts|
        invariant Kept(wbuf) && Open() && old(notices) <= notices && Closes() == old(Closes())
        invariant old(outgoing) <= outgoing && old(accepted) <= accepted
        invariant old(Armed()) && Eager(acts) ==> Armed()
        invariant old(writeActive) ==> writeActive
        invariant Live() == Ran(acts[..i], old(Live()))
      {
        RanSteps(acts, i, old(Live()));
        assert Eager(acts) ==> EagerAct(acts[i]);
        Do(acts[i]);
      }
    }

    method Do(act: Act)
      requires Ready(wbuf.pool) && Open()
      modifies `writeActive, `accepted, `outgoing, `notices, wbuf.pool, wbuf, wbuf.pool.Footprint(wbuf)
      ensures Kept(wbuf) && Open() && old(notices) <= notices && Closes() == old(Closes())
      ensures old(outgoing) <= outgoing && old(accepted) <= accepted
      ensures old(Armed()) && EagerAct(act) ==> Armed()
      ensures old(writeActive) ==> writeActive
      ensures Bytes(wbuf.chain) == WaitingAfter(act, old(Bytes(wbuf.chain)))
      ensures Live() == Did(act, old(Live()))
      ensures act.Flush? ==> Live() == old(Live()).(writing := true)
      decreases act, 4
    {
      hide Ready, Bytes, Buffer.Chained, Closes, Waiting, Ran;
      match act
      case Send(src, sys, onWrite) =>
        var _ := SendNow(src, sys, onWrite);
      case Delay(src, lowmask) =>
        var _ := SendDelay(src, lowmask);
      case Flush =>
        writeActive := true;
    }

    // ---- both buffers ----

    ghost function Feet(): set<Unit>
      reads wbuf.pool`owner, rbuf.pool`owner
    {
      wbuf.pool.Footprint(wbuf) + rbuf.pool.Footprint(rbuf)
    }

    /** What the buffers of other connections hold. */
    ghost function Elsewhere(): map<Buffer, Content>
      reads wbuf.pool`users, wbuf.pool.users`chain, set c, u | c in wbuf.pool.users && u in c.chain :: u
    {
      assert forall c, i :: c in wbuf.pool.users && 0 <= i < |c.chain| ==> c.chain[i] in c.chain;
      map c | c in wbuf.pool.users && c != wbuf && c != rbuf :: ContentOf(c)
    }

    lemma ElsewhereIs()
      ensures Elsewhere().Keys == wbuf.pool.users - {wbuf, rbuf}
      ensures forall c :: c in wbuf.pool.users && c != wbuf && c != rbuf ==> Elsewhere()[c] == ContentOf(c)
    {
    }

    /** The pool and the buffers of other connections after work on this one. */
    twostate predicate KeptBoth()
      reads wbuf.pool, rbuf.pool, wbuf.pool.idle`next, wbuf.pool.users, wbuf.pool.owner.Keys
      reads set c, u | c in wbuf.pool.users && u in c.chain :: u
    {
      && Ready(wbuf.pool) && wbuf.pool.users == old(wbuf.pool.users)
      && (forall u :: u in Feet() && u !in old(Feet()) ==> fresh(u))
      && (forall u :: u in wbuf.pool.owner.Keys && u !in old(wbuf.pool.owner.Keys) ==> fresh(u))
      && Elsewhere() == old(Elsewhere())
    }

    /** A user callback. */
    method Callback(kind: Notice, acts: seq<Act>)
      requires Ready(wbuf.pool) && Open()
      modifies `writeActive, `accepted, `outgoing, `notices, wbuf.pool, wbuf, wbuf.pool.Footprint(wbuf)
      ensures KeptBoth() && Open() && ContentOf(rbuf) == old(ContentOf(rbuf))
      ensures Bytes(wbuf.chain) == Waiting(acts, old(Bytes(wbuf.chain)))
      ensures Live() == Called(kind, acts, old(Live()))
      ensures outgoing == old(outgoing) + SentBy(acts, old(Bytes(wbuf.chain)))
      ensures old(notices) + [kind] <= notices && Closes() == old(Closes()) + if kind == OnClose then 1 else 0
      ensures old(outgoing) <= outgoing && old(accepted) <= accepted
      ensures old(Armed()) && Eager(acts) ==> Armed()
      ensures old(writeActive) ==> writeActive
    {
      hide Ready, Elsewhere, Bytes, Buffer.Chained, Preimage, Closes, Waiting, Ran, SentBy;
      Note(kind);
      UserCode(acts);
    }

    /** User code, inside a callback or outside. */
    method UserCode(acts: seq<Act>)
      requires Ready(wbuf.pool) && Open()
      modifies `writeActive, `accepted, `outgoing, `notices, wbuf.pool, wbuf, wbuf.pool.Footprint(wbuf)
      ensures KeptBoth() && Open() && ContentOf(rbuf) == old(ContentOf(rbuf))
      ensures Bytes(wbuf.chain) == Waiting(acts, old(Bytes(wbuf.chain)))
      ensures Live() == Ran(acts, old(Live()))
      ensures outgoing == old(outgoing) + SentBy(acts, old(Bytes(wbuf.chain)))
      ensures old(notices) <= notices && Closes() == old(Closes())
      ensures old(outgoing) <= outgoing && old(accepted) <= accepted
      ensures old(Armed()) && Eager(acts) ==> Armed()
      ensures old(writeActive) ==> writeActive
    {
      hide Ready, Bytes, Buffer.Chained, Preimage, Closes, Waiting, Ran, SentBy;
      OwnedElems(rbuf);
      OwnedElems(wbuf);
      Perform(acts);
      OwnedElems(rbuf);
      OwnedElems(wbuf);
    }

    /** Read what has arrived; the write buffer is not touched. */
    method Receive(kernel: seq<ReadResult>) returns (ret: int, len: nat, hard: bool, ghost pieces: nat)
      requires Ready(wbuf.pool) && Attached()
      requires forall i :: 0 <= i < |kernel| && kernel[i].Data? ==> kernel[i].bytes != []
      modifies rbuf.pool, rbuf, rbuf.pool.Footprint(rbuf)
      ensures KeptBoth() && Bytes(wbuf.chain) == old(Bytes(wbuf.chain))
      ensures len <= |Stream(kernel)| && Bytes(rbuf.chain) == old(Bytes(rbuf.chain)) + Stream(kernel)[..len]
      ensures if ret > 0 then ret == len else Ending(kernel) == (if ret == 0 then Eof else Fail(hard))
      ensures ret >= -1 && (ret <= 0 ==> len == |Stream(kernel)|)
      ensures ReadsUpTo(kernel, pieces, ret <= 0, rbuf.unit_size, old(Fill(rbuf))) && len == |Stream(kernel[..pieces])|
      ensures Live() == if len == 0 then old(Live()) else Supplied(Stream(kernel[..pieces]), old(Live()))
    {
      hide Ready, Bytes, Buffer.Chained, Preimage, Stream, Ending, ReadsUpTo, Offset, Fill, Place;
      OwnedElems(rbuf);
      OwnedElems(wbuf);
      FillPlaced(rbuf);
      var rest;
      ret, len, rest, hard, pieces := FdRead(rbuf, kernel);
      PiecesRead(kernel, pieces);
      OwnedElems(rbuf);
      OwnedElems(wbuf);
    }

    /** Hand unsent bytes to the kernel. `amounts` is what each call takes. */
    method Drain(kernel: seq<WriteResult>) returns (ret: int, calls: nat, hard: bool, ghost amounts: seq<nat>)
      requires Ready(wbuf.pool) && Open()
      modifies `accepted, wbuf.pool, wbuf, wbuf.pool.Footprint(wbuf)
      ensures KeptBoth() && Open() && old(accepted) <= accepted
      ensures ret >= 0 ==> accepted == outgoing && !hard
      ensures calls <= |kernel| && |accepted| >= |old(accepted)| + Progress(kernel[..calls])
      ensures ret < 0 ==> ret == -1 && Bytes(wbuf.chain) != [] && (calls == |kernel| || kernel[calls].Refuse?)
      ensures ret < 0 ==> hard == Rejected(kernel, calls) && Accepting(kernel, calls)
      ensures Handed(kernel, amounts, wbuf.unit_size, old(Offset(wbuf.chain)), |old(Bytes(wbuf.chain))|)
      ensures Over(kernel, amounts, |old(Bytes(wbuf.chain))|) && |accepted| == |old(accepted)| + Sum(amounts)
      ensures wbuf.unit_size >= 1 && Sum(amounts) <= |old(Bytes(wbuf.chain))| && |amounts| == calls
      ensures Live() == Sent(Sum(amounts), old(Live()))
      ensures ret >= 0 <==> Sum(amounts) == |old(Bytes(wbuf.chain))|
    {
      hide Ready, Bytes, Buffer.Chained, Preimage, Progress, Rejected, Accepting, Elsewhere, Pool.Footprint, Handed;
      hide Over, Sum, Offset, Onward, ContentOf;
      var sent;
      ret, sent, calls, hard, amounts := Hand(kernel);
      accepted := accepted + sent;
      assert old(Bytes(wbuf.chain))[|sent|..] == Bytes(wbuf.chain);
    }

    /** The write calls themselves. */
    method Hand(kernel: seq<WriteResult>)
        returns (ret: int, sent: seq<byte>, calls: nat, hard: bool, ghost amounts: seq<nat>)
      requires Ready(wbuf.pool) && Attached()
      modifies wbuf.pool, wbuf, wbuf.pool.Footprint(wbuf)
      ensures KeptBoth() && Attached() && old(Bytes(wbuf.chain)) == sent + Bytes(wbuf.chain)
      ensures ret >= 0 ==> Bytes(wbuf.chain) == [] && !hard
      ensures calls <= |kernel| && Accepting(kernel, calls) && |sent| >= Progress(kernel[..calls])
      ensures ret < 0 ==> ret == -1 && Bytes(wbuf.chain) != [] && (calls == |kernel| || kernel[calls].Refuse?)
      ensures ret < 0 ==> hard == Rejected(kernel, calls)
      ensures Handed(kernel, amounts, wbuf.unit_size, old(Offset(wbuf.chain)), |old(Bytes(wbuf.chain))|)
      ensures Over(kernel, amounts, |old(Bytes(wbuf.chain))|) && |sent| == Sum(amounts) && |amounts| == calls
      ensures wbuf.unit_size >= 1 && ContentOf(rbuf) == old(ContentOf(rbuf))
      ensures Offset(wbuf.chain) == Onward(wbuf.unit_size, old(Offset(wbuf.chain)), |sent|, |Bytes(wbuf.chain)|)
    {
      hide Ready, Bytes, Buffer.Chained, Preimage, Progress, Rejected, Accepting, Handed, Over, Sum, Offset, Onward;
      OwnedElems(rbuf);
      OwnedElems(wbuf);
      FillPlaced(wbuf);
      ret, sent, calls, hard, amounts := FdWrite(wbuf, kernel);
      OwnedElems(rbuf);
      OwnedElems(wbuf);
    }

    // ---- closing ----

    /** Both buffers give all their units back. */
    method Release()
      requires Ready(wbuf.pool) && rbuf.pool == wbuf.pool && rbuf != wbuf && {rbuf, wbuf} <= wbuf.pool.users
      modifies wbuf.pool, wbuf, rbuf, Feet()
      ensures Ready(wbuf.pool) && wbuf.pool.users == old(wbuf.pool.users) - {rbuf, wbuf}
      ensures wbuf.pool.owner.Keys == old(wbuf.pool.owner.Keys)
      ensures Elsewhere() == old(Elsewhere())
    {
      hide Ready, Bytes, Buffer.Chained, Preimage, Elsewhere, Pool.Footprint;
      ElsewhereIs();
      ReleaseBoth();
      ElsewhereIs();
      assert Elsewhere() == old(Elsewhere());
    }

    method ReleaseBoth()
      requires Ready(wbuf.pool) && rbuf.pool == wbuf.pool && rbuf != wbuf && {rbuf, wbuf} <= wbuf.pool.users
      modifies wbuf.pool, wbuf, rbuf, Feet()
      ensures Ready(wbuf.pool) && wbuf.pool.users == old(wbuf.pool.users) - {rbuf, wbuf}
      ensures wbuf.pool.owner.Keys == old(wbuf.pool.owner.Keys)
      ensures forall c :: c in wbuf.pool.users ==> ContentOf(c) == old(ContentOf(c))
    {
      hide Ready, Bytes, Buffer.Chained, Preimage;
      OwnedElems(rbuf);
      OwnedElems(wbuf);
      Destroy(rbuf);
      OwnedElems(wbuf);
      Destroy(wbuf);
    }

    /**
     * Close the connection, whatever is still unsent. The user's callback runs first; what it leaves in
     * the write buffer is released with the buffer.
     */
    method Close(onClose: seq<Act>)
      requires Ready(wbuf.pool) && Valid() && closed == 0 && (peer != null ==> peer.Counted())
      modifies `closed, `dropped, `readActive, `writeActive, `accepted, `outgoing, `notices, Server()
      modifies wbuf.pool, wbuf, rbuf, Feet()
      ensures Valid() && Around() && closed == 1 && dropped == Waiting(onClose, old(Bytes(wbuf.chain)))
      ensures old(notices) <= notices
      ensures View() == Closed(onClose, old(Live()))
    {
      hide Ready, Elsewhere, Bytes, Buffer.Chained, Preimage, Pool.Footprint, TcpServer.Counted, Closes, Waiting, Ran;
      Callback(OnClose, onClose);
      Finish();
    }

    /** Stop both watchers, release the buffers, and leave the server's count. */
    method Finish()
      requires Ready(wbuf.pool) && Open() && closed == 0 && Closes() == 1 && (peer != null ==> peer.Counted())
      modifies `closed, `dropped, `readActive, `writeActive, Server()
      modifies wbuf.pool, wbuf, rbuf, Feet()
      ensures Valid() && closed == 1 && dropped == old(Bytes(wbuf.chain))
      ensures Ready(wbuf.pool) && wbuf.pool.users == old(wbuf.pool.users) - {rbuf, wbuf}
      ensures wbuf.pool.owner.Keys == old(wbuf.pool.owner.Keys)
      ensures Elsewhere() == old(Elsewhere())
      ensures peer != null ==>
                peer.Counted() && peer.live == old(peer.live) - {this} && peer.gone == old(peer.gone) + {this}
      ensures View() == Released(old(Live()))
    {
      hide Ready, Bytes, Buffer.Chained, Preimage, Open, Pool.Footprint, TcpServer.Counted, Elsewhere;
      hide Live, View, Closes, Feet;
      StillOpen();
      Discard();
      if peer != null {
        peer.Leave(this);
      }
      Fields();
    }

    method Discard()
      requires Ready(wbuf.pool) && Open() && closed == 0
      modifies `closed, `dropped, `readActive, `writeActive, wbuf.pool, wbuf, rbuf, Feet()
      ensures closed == 1 && dropped == old(Bytes(wbuf.chain)) && !readActive && !writeActive
      ensures Ready(wbuf.pool) && wbuf.pool.users == old(wbuf.pool.users) - {rbuf, wbuf}
      ensures wbuf.pool.owner.Keys == old(wbuf.pool.owner.Keys)
      ensures Elsewhere() == old(Elsewhere()) && accepted + dropped == outgoing
      ensures View() == Released(old(Live()))
    {
      hide Ready, Bytes, Buffer.Chained, Preimage, Open, Pool.Footprint, Elsewhere, Live, View, Closes, Feet;
      StillOpen();
      Fields();
      writeActive, readActive := false, false;
      dropped := Bytes(wbuf.chain);
      Release();
      closed := 1;
      Fields();
    }

    // ---- events ----

    /** What an event leaves of the pool, the other buffers, and the server. */
    twostate predicate Around()
      reads this, wbuf.pool, rbuf.pool, wbuf.pool.idle`next, wbuf.pool.users, wbuf.pool.owner.Keys, Server()
      reads set c, u | c in wbuf.pool.users && u in c.chain :: u
    {
      && Ready(wbuf.pool)
      && (forall u :: u in wbuf.pool.owner.Keys && u !in old(wbuf.pool.owner.Keys) ==> fresh(u))
      && (closed == 0 ==> forall u :: u in Feet() && u !in old(Feet()) ==> fresh(u))
      && (if closed == 0 then wbuf.pool.users == old(wbuf.pool.users)
          else wbuf.pool.users == old(wbuf.pool.users) - {rbuf, wbuf})
      && Elsewhere() == old(Elsewhere())
      && (peer != null ==>
            && peer.Counted()
            && peer.live == (if closed == 0 then old(peer.live) else old(peer.live) - {this})
            && peer.gone == (if closed == 0 then old(peer.gone) else old(peer.gone) + {this}))
    }

    /**
     * The read watcher fires. At the end of the stream the connection closes at once when nothing is
     * unsent, and otherwise waits for the write buffer to drain; a hard error of a read closes it.
     */
    method ReadReady(kernel: seq<ReadResult>, onRead: seq<Act>, onClose: seq<Act>) returns (ret: int, len: nat)
      requires Ready(wbuf.pool) && Valid() && closed == 0 && readActive && (peer != null ==> peer.Counted())
      requires forall i :: 0 <= i < |kernel| && kernel[i].Data? ==> kernel[i].bytes != []
      modifies this, Server(), wbuf.pool, wbuf, rbuf, Feet()
      ensures Valid() && Around() && Settled()
      ensures if ret > 0 then ret == len <= |Stream(kernel)| else len == |Stream(kernel)|
      ensures closed == 0 ==> Bytes(rbuf.chain) == old(Bytes(rbuf.chain)) + Stream(kernel)[..len]
      ensures (ret == 0 ==> Ending(kernel) == Eof) && (ret < 0 ==> Ending(kernel).Fail?)
      ensures var waiting := Waiting(if len > 0 then onRead else [], old(Bytes(wbuf.chain)));
              && (ret == 0 ==> if waiting == [] then closed == 1 else closed == 0 && waitcls)
              && (closed == 1 ==> dropped == Waiting(onClose, waiting))
      ensures ret < 0 ==> (closed == 1 <==> Ending(kernel) == ReadResult.Fail(true)) && !waitcls
      ensures ret > 0 ==> closed == 0
      ensures closed == 0 ==> (readActive <==> ret != 0) && (old(writeActive) ==> writeActive)
      ensures len > 0 ==> old(notices) + [OnRead] <= notices
      ensures closed == 0 && old(Armed()) && Eager(onRead) ==> Armed()
      ensures Step(old(Live()), Readable(kernel, onRead, onClose), View())
    {
      hide Ready, Elsewhere, Bytes, Buffer.Chained, Preimage, Stream, Ending, Closes, Waiting, Called, Closed;
      hide Arrived, ReadsUpTo, Fill, ContentOf;
      NothingDone(old(Bytes(wbuf.chain)));
      ghost var c := Live();
      var hard;
      ghost var pieces;
      ret, len, hard, pieces := TakeInput(kernel, onRead);
      AfterInput(ret, hard, onClose);
      assert View() == Got(kernel, pieces, ret <= 0, onRead, onClose, c);
      assert GotSome(kernel, onRead, onClose, c, View());
    }

    method TakeInput(kernel: seq<ReadResult>, onRead: seq<Act>)
        returns (ret: int, len: nat, hard: bool, ghost pieces: nat)
      requires Ready(wbuf.pool) && Valid() && closed == 0
      requires forall i :: 0 <= i < |kernel| && kernel[i].Data? ==> kernel[i].bytes != []
      modifies `writeActive, `accepted, `outgoing, `notices, wbuf.pool, wbuf, rbuf, Feet()
      ensures KeptBoth() && Valid() && old(outgoing) <= outgoing && old(accepted) <= accepted
      ensures len <= |Stream(kernel)| && Bytes(rbuf.chain) == old(Bytes(rbuf.chain)) + Stream(kernel)[..len]
      ensures if ret > 0 then ret == len else Ending(kernel) == (if ret == 0 then Eof else Fail(hard))
      ensures ret >= -1 && (ret <= 0 ==> len == |Stream(kernel)|)
      ensures Bytes(wbuf.chain) == if len > 0 then Waiting(onRead, old(Bytes(wbuf.chain))) else old(Bytes(wbuf.chain))
      ensures if len > 0 then old(notices) + [OnRead] <= notices else notices == old(notices)
      ensures old(Armed()) && Eager(onRead) ==> Armed()
      ensures old(writeActive) ==> writeActive
      ensures ReadsUpTo(kernel, pieces, ret <= 0, rbuf.unit_size, old(ContentOf(rbuf)).fill)
      ensures rbuf.unit_size >= 1 && pieces <= |kernel|
      ensures Live() == Arrived(Stream(kernel[..pieces]), onRead, old(Live()))
    {
      hide Ready, Elsewhere, Bytes, Buffer.Chained, Preimage, Stream, Ending, Closes, Waiting, Called, Place, Fill;
      hide Offset;
      ret, len, hard, pieces := Receive(kernel);
      if len > 0 {
        Callback(OnRead, onRead);
      }
    }

    method AfterInput(ret: int, hard: bool, onClose: seq<Act>)
      requires Ready(wbuf.pool) && Valid() && closed == 0 && readActive && (peer != null ==> peer.Counted())
      modifies this, Server(), wbuf.pool, wbuf, rbuf, Feet()
      ensures Valid() && Around() && Settled()
      ensures ret == 0 ==> if old(Bytes(wbuf.chain)) == [] then closed == 1 else closed == 0 && waitcls
      ensures closed == 1 ==> dropped == Waiting(onClose, old(Bytes(wbuf.chain)))
      ensures ret < 0 ==> (closed == 1 <==> hard) && !waitcls
      ensures ret > 0 ==> closed == 0
      ensures closed == 0 ==> Bytes(rbuf.chain) == old(Bytes(rbuf.chain))
      ensures closed == 0 && old(Armed()) ==> Armed()
      ensures closed == 0 ==> (readActive <==> ret != 0) && (old(writeActive) ==> writeActive)
      ensures old(notices) <= notices
      ensures ret > 0 ==> View() == old(Live())
      ensures ret <= 0 ==> View() == AtEnd(if ret == 0 then Eof else Fail(hard), onClose, old(Live()))
    {
      hide Ready, Elsewhere, Bytes, Buffer.Chained, Preimage, TcpServer.Counted, Waiting, Closed;
      if ret == 0 {
        EndOfStream(onClose);
      } else if ret < 0 && hard {
        StopAndClose(onClose);
      }
    }

    method StopAndClose(onClose: seq<Act>)
      requires Ready(wbuf.pool) && Valid() && closed == 0 && (peer != null ==> peer.Counted())
      modifies `closed, `dropped, `readActive, `writeActive, `accepted, `outgoing, `notices, Server()
      modifies wbuf.pool, wbuf, rbuf, Feet()
      ensures Valid() && Around() && closed == 1 && dropped == Waiting(onClose, old(Bytes(wbuf.chain)))
      ensures old(notices) <= notices
      ensures View() == Closed(onClose, Stopped(old(Live())))
    {
      hide Ready, Elsewhere, Bytes, Buffer.Chained, Preimage, Pool.Footprint, TcpServer.Counted;
      hide Waiting, Closed, Closes;
      readActive, writeActive := false, false;
      assert Live() == Stopped(old(Live()));
      Close(onClose);
    }

    method EndOfStream(onClose: seq<Act>)
      requires Ready(wbuf.pool) && Valid() && closed == 0 && readActive && (peer != null ==> peer.Counted())
      modifies this, Server(), wbuf.pool, wbuf, rbuf, Feet()
      ensures Valid() && Around() && Settled() && (closed == 1 <==> old(Bytes(wbuf.chain)) == [])
      ensures closed == 1 ==> dropped == Waiting(onClose, [])
      ensures closed == 0 ==> Armed() && waitcls && !readActive && writeActive
      ensures closed == 0 ==> Bytes(wbuf.chain) == old(Bytes(wbuf.chain))
      ensures closed == 0 ==> Bytes(rbuf.chain) == old(Bytes(rbuf.chain))
      ensures old(notices) <= notices
      ensures View() == AtEnd(Eof, onClose, old(Live()))
    {
      hide Ready, Elsewhere, Bytes, Buffer.Chained, Preimage, Pool.Footprint, TcpServer.Counted;
      hide Closes, Waiting, Closed;
      var used := Unsent();
      if used == 0 {
        StopAndClose(onClose);
      } else {
        AwaitDrain();
      }
    }

    /** Stop reading, watch for writing, and close once the buffer is drained. */
    method AwaitDrain()
      requires Valid() && closed == 0 && readActive
      modifies `readActive, `writeActive, `waitcls
      ensures Valid() && Settled() && Armed() && waitcls && !readActive && writeActive
      ensures Live() == old(Live()).(reading := false, writing := true, waitcls := true)
    {
      hide Bytes, Closes;
      readActive, writeActive := false, true;
      waitcls := true;
    }

    /**
     * The write watcher fires. While connecting it reports the outcome; afterwards unsent bytes are
     * handed over, and a connection that waits to close does so once none are left. A hard error of a
     * write closes it.
     */
    method WriteReady(error: Connecting, kernel: seq<WriteResult>, acts: seq<Act>, onClose: seq<Act>)
        returns (ret: int)
      requires Ready(wbuf.pool) && Valid() && closed == 0 && writeActive && (peer != null ==> peer.Counted())
      modifies this, Server(), wbuf.pool, wbuf, rbuf, Feet()
      ensures Valid() && Around() && Settled()
      ensures closed == 1 ==> !old(conning) && waitcls == old(waitcls)
      ensures closed == 1 && ret < 0 ==> exists i :: Rejected(kernel, i)
      ensures closed == 1 && ret >= 0 ==> waitcls && dropped == Waiting(onClose, [])
      ensures !old(conning) && ret >= 0 ==> old(notices) + [OnWrite] <= notices
      ensures old(conning) && !error.InProgress? ==> old(notices) + [OnConnect] <= notices
      ensures !old(conning) && closed == 0 ==> if ret >= 0 && Bytes(wbuf.chain) == [] then !writeActive else writeActive
      ensures !old(conning) && closed == 0 ==> readActive == old(readActive) && (ret < 0 ==> Bytes(wbuf.chain) != [])
      ensures old(conning) && error.InProgress? ==> View() == old(View())
      ensures closed == 0 && old(Armed()) && Eager(acts) ==> Armed()
      ensures Step(old(Live()), Writable(error, kernel, acts, onClose), View())
    {
      hide Ready, Elsewhere, Bytes, Buffer.Chained, Preimage, Rejected, Waiting, Joined, WroteSome;
      ret := 0;
      if conning {
        Connected(error, acts);
      } else {
        ret := Output(kernel, acts, onClose);
      }
    }

    method Output(kernel: seq<WriteResult>, onWrite: seq<Act>, onClose: seq<Act>) returns (ret: int)
      requires Ready(wbuf.pool) && Valid() && closed == 0 && writeActive && (peer != null ==> peer.Counted())
      modifies this, Server(), wbuf.pool, wbuf, rbuf, Feet()
      ensures Valid() && Around() && Settled() && waitcls == old(waitcls)
      ensures ret < 0 ==> (closed == 1 <==> exists i :: Rejected(kernel, i))
      ensures closed == 1 && ret >= 0 ==> waitcls && dropped == Waiting(onClose, [])
      ensures closed == 0 && old(Armed()) && Eager(onWrite) ==> Armed()
      ensures old(notices) <= notices && (ret >= 0 ==> old(notices) + [OnWrite] <= notices)
      ensures closed == 0 ==> if ret >= 0 && Bytes(wbuf.chain) == [] then !writeActive else writeActive
      ensures closed == 0 ==> readActive == old(readActive) && (ret < 0 ==> Bytes(wbuf.chain) != [])
      ensures WroteSome(kernel, onWrite, onClose, old(Live()), View())
    {
      hide Ready, Elsewhere, Bytes, Buffer.Chained, Preimage, Pool.Footprint, TcpServer.Counted, Progress, Rejected;
      hide Accepting, Waiting, Called, Closed, DrainedNow, Open, Closes;
      hide Handed, Over, Sum, Sent, Onward, Offset, ContentOf;
      StillOpen();
      ghost var c := Live();
      var calls, hard;
      ghost var amounts;
      ret, calls, hard, amounts := Drain(kernel);
      AfterOutput(ret, hard, onWrite, onClose);
      if ret < 0 {
        OnlyRejection(kernel, calls);
      }
      assert View() == Wrote(Sum(amounts), kernel, onWrite, onClose, c);
    }

    method Connected(error: Connecting, onConnect: seq<Act>)
      requires Ready(wbuf.pool) && Valid() && closed == 0 && conning && writeActive
      modifies this, wbuf.pool, wbuf, wbuf.pool.Footprint(wbuf)
      ensures KeptBoth() && Valid() && Settled() && closed == 0
      ensures error.InProgress? ==> conning && outgoing == old(outgoing)
      ensures error.InProgress? ==> Live() == old(Live())
      ensures !error.InProgress? ==> !conning && (conned <==> error.Success?) && (error.Success? ==> readActive)
      ensures !error.InProgress? ==> old(notices) + [OnConnect] <= notices
      ensures old(Armed()) && Eager(onConnect) ==> Armed()
      ensures Live() == Joined(error, onConnect, old(Live()))
    {
      hide Ready, Elsewhere, Bytes, Buffer.Chained, Preimage, Closes, Waiting, Ran, SentBy, ContentOf, Offset;
      if !error.InProgress? {
        SetConnected(error);
        Callback(OnConnect, onConnect);
      }
    }

    /** Record the outcome; writing is watched further only with bytes to send on a live connection. */
    method SetConnected(error: Connecting)
      requires Ready(wbuf.pool) && Valid() && closed == 0 && conning && writeActive && !error.InProgress?
      modifies `writeActive, `readActive, `conning, `conned, `connfail
      ensures Valid() && Settled() && !conning && (conned <==> error.Success?) && (error.Success? ==> readActive)
      ensures Armed() && (writeActive <==> error.Success? && Bytes(wbuf.chain) != [])
      ensures connfail == (old(connfail) || error.Failed?) && readActive == (old(readActive) || error.Success?)
      ensures Live() == old(Live()).(writing := error.Success? && Bytes(wbuf.chain) != [], conning := false,
                reading := old(readActive) || error.Success?, connfail := connfail,
                conned := old(conned) || error.Success?)
    {
      hide Ready, Bytes, Buffer.Chained, Closes;
      var used := Unsent();
      if error.Failed? || used == 0 {
        writeActive := false;
      }
      conning := false;
      connfail, conned := connfail || error.Failed?, conned || error.Success?;
      if error.Success? {
        readActive := true;
      }
    }

    method AfterOutput(ret: int, hard: bool, onWrite: seq<Act>, onClose: seq<Act>)
      requires Ready(wbuf.pool) && Valid() && closed == 0 && writeActive && (peer != null ==> peer.Counted())
      modifies this, Server(), wbuf.pool, wbuf, rbuf, Feet()
      ensures Valid() && Around() && Settled() && waitcls == old(waitcls)
      ensures ret < 0 ==> (closed == 1 <==> hard)
      ensures ret >= 0 && closed == 1 ==> dropped == Waiting(onClose, []) && waitcls
      ensures closed == 0 && old(Armed()) && Eager(onWrite) ==> Armed()
      ensures old(notices) <= notices && (ret >= 0 ==> old(notices) + [OnWrite] <= notices)
      ensures closed == 0 ==> if ret >= 0 && Bytes(wbuf.chain) == [] then !writeActive else writeActive
      ensures closed == 0 ==> readActive == old(readActive)
      ensures ret < 0 && closed == 0 ==> Bytes(wbuf.chain) == old(Bytes(wbuf.chain))
      ensures View() == (if ret >= 0 then DrainedNow(onClose, Called(OnWrite, onWrite, old(Live())))
                          else if hard then Closed(onClose, Stopped(old(Live()))) else old(Live()))
    {
      hide Ready, Elsewhere, Bytes, Buffer.Chained, Preimage, TcpServer.Counted, Waiting, Called, Closed, DrainedNow;
      if ret < 0 {
        if hard {
          StopAndClose(onClose);
        }
      } else {
        Written(onWrite, onClose);
      }
    }

    method Written(onWrite: seq<Act>, onClose: seq<Act>)
      requires Ready(wbuf.pool) && Valid() && closed == 0 && writeActive && (peer != null ==> peer.Counted())
      modifies this, Server(), wbuf.pool, wbuf, rbuf, Feet()
      ensures Valid() && Around() && Settled() && waitcls == old(waitcls)
      ensures closed == 1 ==> dropped == Waiting(onClose, []) && waitcls
      ensures closed == 0 && old(Armed()) && Eager(onWrite) ==> Armed()
      ensures old(notices) + [OnWrite] <= notices
      ensures closed == 0 ==> readActive == old(readActive) && (writeActive <==> Bytes(wbuf.chain) != [])
      ensures View() == DrainedNow(onClose, Called(OnWrite, onWrite, old(Live())))
    {
      hide Ready, Elsewhere, Bytes, Buffer.Chained, Preimage, TcpServer.Counted, Closes, Waiting, Called, DrainedNow;
      Callback(OnWrite, onWrite);
      StopOrClose(onClose);
    }

    method StopOrClose(onClose: seq<Act>)
      requires Ready(wbuf.pool) && Valid() && closed == 0 && writeActive && (peer != null ==> peer.Counted())
      modifies this, Server(), wbuf.pool, wbuf, rbuf, Feet()
      ensures Valid() && Around() && Settled() && waitcls == old(waitcls)
      ensures closed == 1 <==> old(Bytes(wbuf.chain)) == [] && old(waitcls)
      ensures closed == 1 ==> dropped == Waiting(onClose, [])
      ensures closed == 0 && old(Armed()) ==> Armed()
      ensures old(notices) <= notices
      ensures closed == 0 ==> readActive == old(readActive) && (writeActive <==> Bytes(wbuf.chain) != [])
      ensures View() == DrainedNow(onClose, old(Live()))
    {
      hide Ready, Elsewhere, Bytes, Buffer.Chained, Preimage, Pool.Footprint, TcpServer.Counted;
      hide Closes, Waiting, Closed;
      var used := Unsent();
      if used == 0 {
        writeActive := false;
        if waitcls {
          Close(onClose);
        }
      }
    }

    /** Start connecting, unless that has been done. */
    method Connect(ok: bool) returns (r: int)
      requires Valid() && closed == 0 && peer == null
      modifies this`conning, this`writeActive
      ensures Valid() && r == (if old(conning) || conned || !ok then -1 else 0)
      ensures r == 0 ==> conning && writeActive && Armed()
      ensures r == -1 ==> conning == old(conning) && writeActive == old(writeActive)
    {
      hide Bytes;
      if conning || conned {
        return -1;
      }
      if !ok {
        return -1;
      }
      conning, writeActive := true, true;
      r := 0;
    }

    // ---- whole runs ----

    /** One event; a watcher that is not active does not fire. */
    method Deliver(ev: Event) returns (cause: Cause)
      requires Ready(wbuf.pool) && Valid() && Settled() && closed == 0 && WellFormed(ev)
      requires peer != null ==> peer.Counted()
      modifies this, Server(), wbuf.pool, wbuf, rbuf, Feet()
      ensures Valid() && Settled() && Around()
      ensures if closed == 0 then cause.NotClosed? else Closing(cause, ev)
      ensures cause.Drained? ==> dropped == Waiting(ev.onClose, [])
      ensures cause.ByUser? ==> dropped == Waiting(ev.onClose, old(Bytes(wbuf.chain)))
      ensures cause.ReadFailed? ==> !waitcls
      ensures cause.Drained? && ev.Writable? ==> waitcls
      ensures closed == 0 && old(Armed()) && EagerEvent(ev) ==> Armed()
      ensures ev.Writable? && !old(conning) && closed == 0 && Bytes(wbuf.chain) == [] ==> !writeActive
      ensures Step(old(View()), ev, View()) && Rested(old(View()), ev, View())
    {
      hide Ready, Elsewhere, Bytes, Buffer.Chained, Preimage, Pool.Footprint, Open, Armed, Closes, TcpServer.Counted;
      hide Stream, Ending, Rejected, Waiting, Step, Ran, Closed, Stopped;
      StillOpen();
      Steps(Live(), ev);
      cause := NotClosed;
      match ev
      case Readable(kernel, onRead, onClose) =>
        if readActive {
          var ret, _ := ReadReady(kernel, onRead, onClose);
          cause := if closed == 0 then NotClosed else if ret == 0 then Drained else ReadFailed;
        }
      case Writable(error, kernel, acts, onClose) =>
        if writeActive {
          var ret := WriteReady(error, kernel, acts, onClose);
          cause := if closed == 0 then NotClosed else if ret >= 0 then Drained else WriteFailed;
        }
      case User(acts) =>
        UserCode(acts);
      case Shut(onClose) =>
        StopAndClose(onClose);
        cause := ByUser;
    }

    /**
     * A run of events up to the close, if any; the last one delivered is the one that closes. Every byte
     * sent is accounted for to the end. Without a failing system call or the user closing, bytes are lost
     * only by the close callback, and exactly when the kernel does not take all that it sends at once.
     * Unsent bytes are being watched for as long as the user code is eager. `views` is the connection before
     * and after each event: when a writable event drains the buffer, writing is watched no longer.
     */
    method Run(events: seq<Event>) returns (n: nat, cause: Cause, ghost views: seq<Conn>)
      requires Ready(wbuf.pool) && Valid() && Settled() && closed == 0 && (peer != null ==> peer.Counted())
      requires forall i :: 0 <= i < |events| ==> WellFormed(events[i])
      modifies this, Server(), wbuf.pool, wbuf, rbuf, Feet()
      ensures Valid() && Settled() && Around() && Closes() == closed <= 1
      ensures accepted + (if closed == 0 then Bytes(wbuf.chain) else dropped) == outgoing
      ensures n <= |events|
      ensures if closed == 0 then n == |events| && cause.NotClosed? else n >= 1 && Closing(cause, events[n - 1])
      ensures cause.Drained? ==> (dropped == [] <==> AllTaken(events[n - 1].onClose))
      ensures cause.ReadFailed? ==> !waitcls
      ensures closed == 0 && old(Armed()) && (forall i :: 0 <= i < |events| ==> EagerEvent(events[i])) ==> Armed()
      ensures Reaches(old(View()), events, View())
      ensures |views| == n + 1 && views[0] == old(View()) && views[n] == View()
      ensures forall i :: 0 <= i < n ==> Step(views[i], events[i], views[i + 1])
      ensures forall i :: 0 <= i < n && events[i].Writable? && !views[i].conning && !views[i + 1].closed ==>
                views[i + 1].unsent != [] || !views[i + 1].writing
    {
      hide Ready, Elsewhere, Bytes, Buffer.Chained, Open, Armed, Waiting, AllTaken, Reaches, Step, View, Rested, Traced;
      hide EagerEvent, WellFormed, Settled, Closes, TcpServer.Counted, Preimage;
      n, cause, views := 0, NotClosed, [View()];
      TraceOpens(View(), events);
      Prefixes(events, 0);
      while n < |events| && closed == 0
        invariant 0 <= n <= |events| && Valid() && Settled() && Around()
        invariant if closed == 0 then cause.NotClosed? else n >= 1 && Closing(cause, events[n - 1])
        invariant cause.Drained? ==> dropped == Waiting(events[n - 1].onClose, [])
        invariant cause.ReadFailed? ==> !waitcls
        invariant Traced(views, events, n, View()) && |views| > 0 && views[0] == old(View())
        invariant closed == 0 && old(Armed()) && (forall j :: 0 <= j < n ==> EagerEvent(events[j])) ==> Armed()
      {
        ghost var before := View();
        cause := Deliver(events[n]);
        TraceGoesOn(views, events, n, before, View());
        Prefixes(events, n);
        views := views + [View()];
        n := n + 1;
      }
      TraceCloses(views, events, n, View());
      if closed != 0 {
        ViewClosed();
        ReachesClosed(old(View()), events, n, View());
      }
      if closed == 0 {
        StillOpen();
      } else if cause.Drained? {
        WaitingEmpty(events[n - 1].onClose, []);
      }
    }

    lemma Prefixes(events: seq<Event>, n: nat)
      requires n <= |events|
      ensures events[..0] == [] && events[..|events|] == events
      ensures n < |events| ==> events[..n + 1] == events[..n] + [events[n]]
    {
    }

    /** What the close callback sends is lost when the kernel does not take it, with no error anywhere. */
    method LostAtClose(src: seq<byte>)
      requires Ready(wbuf.pool) && Valid() && closed == 0 && readActive && (peer != null ==> peer.Counted())
      requires Bytes(wbuf.chain) == []
      modifies this, Server(), wbuf.pool, wbuf, rbuf, Feet()
      ensures closed == 1 && dropped == src && accepted + src == outgoing
    {
      hide Ready, Bytes, Buffer.Chained, Pool.Footprint, Preimage, Open;
      var onClose := [Send(src, Again, [])];
      assert onClose[..0] == [] && Waiting(onClose, []) == src;
      var _, _ := ReadReady([Eof], [], onClose);
    }

    lemma NothingDone(waiting: seq<byte>)
      ensures Waiting([], waiting) == waiting
    {
    }

    lemma StillOpen()
      requires Open()
      ensures Attached() && accepted + Bytes(wbuf.chain) == outgoing && (peer != null ==> this in peer.live)
      ensures waitcls ==> !readActive
    {
    }

    /** What happens to others leaves this connection as it is. */
    twostate lemma Undisturbed()
      requires unchanged(this) && old(Valid()) && old(Settled())
      requires closed == 0 ==> {rbuf, wbuf} <= wbuf.pool.users
      requires closed == 0 ==> ContentOf(wbuf) == old(ContentOf(wbuf)) && ContentOf(rbuf) == old(ContentOf(rbuf))
      requires closed == 0 && peer != null ==> this in peer.live
      ensures Valid() && Settled() && View() == old(View())
    {
      hide Bytes, Closes;
    }

    lemma WhileOpen()
      requires Valid()
      ensures closed <= 1 && (closed == 0 ==> Attached() && (peer != null ==> this in peer.live))
    {
    }

    function Unsent(): (used: int)
      requires Ready(wbuf.pool) && wbuf in wbuf.pool.users
      reads wbuf.pool, wbuf.pool.idle`next, wbuf.pool.users, wbuf.pool.owner.Keys
      reads set c, u | c in wbuf.pool.users && u in c.chain :: u
      ensures used == |Bytes(wbuf.chain)|
    {
      FilledOf(wbuf);
      UsedBytes(wbuf)
    }
  }

  /** The bytes of the pieces read are the first that arrive. */
  lemma {:induction false} PiecesRead(kernel: seq<ReadResult>, pieces: nat)
    requires pieces <= |kernel| && AllData(kernel, pieces)
    ensures Stream(kernel[..pieces]) <= Stream(kernel)
  {
    if pieces > 0 {
      PiecesRead(kernel[1..], pieces - 1);
      assert kernel[..pieces][1..] == kernel[1..][..pieces - 1];
    }
  }

  /** The place of the next byte lies within a unit. */
  lemma FillPlaced(b: Buffer)
    requires Ready(b.pool) && b in b.pool.users
    ensures b.unit_size >= 1 && Place(Fill(b), b.unit_size) == Fill(b)
  {
    FillIs(b);
  }

  /** The call that is refused is the only one that can be. */
  lemma OnlyRejection(kernel: seq<WriteResult>, calls: nat)
    requires calls <= |kernel| && Accepting(kernel, calls)
    requires calls == |kernel| || kernel[calls].Refuse?
    ensures Rejected(kernel, calls) <==> exists i :: Rejected(kernel, i)
  {
  }

  /** Accept a connection: read it, count it, and run the user's callback. */
  method Accept(server: TcpServer, pool: Pool, size: nat, onAccept: seq<Act>) returns (client: TcpClient)
    requires server.Counted() && Ready(pool) && 1 <= size <= pool.objsize
    modifies server, pool, pool.OwnedBy(null)
    ensures fresh(client) && client.peer == server && client.Valid() && client.Settled() && client.closed == 0
    ensures client.readActive && !client.waitcls && (Eager(onAccept) ==> client.Armed())
    ensures [OnAccept] <= client.notices && client.View() == Accepted(onAccept, size)
    ensures Bytes(client.rbuf.chain) == [] && Bytes(client.wbuf.chain) == Waiting(onAccept, [])
    ensures fresh(client.rbuf) && fresh(client.wbuf) && client.rbuf.pool == client.wbuf.pool == pool
    ensures client.rbuf != client.wbuf
    ensures forall u :: u in pool.owner.Keys && u !in old(pool.owner.Keys) ==> fresh(u)
    ensures server.Counted() && server.live == old(server.live) + {client} && server.gone == old(server.gone)
    ensures Ready(pool) && pool.users == old(pool.users) + {client.rbuf, client.wbuf}
    ensures forall c :: c in old(pool.users) ==> ContentOf(c) == old(ContentOf(c))
  {
    hide Ready, Bytes, Buffer.Chained, Preimage, TcpServer.Counted, Eager, Waiting, Ran, SentBy;
    hide TcpClient.Armed, TcpClient.Open, TcpClient.Elsewhere, ContentOf, Offset, Fill;
    client := Enrol(server, pool, size);
    OwnedElems(client.wbuf);
    client.StillOpen();
    client.ElsewhereIs();
    ContentIs(client.rbuf);
    client.Callback(OnAccept, onAccept);
    client.ElsewhereIs();
    ContentIs(client.rbuf);
  }

  lemma ContentIs(b: Buffer)
    ensures ContentOf(b).bytes == Bytes(b.chain)
  {
  }

  /** A connection that has just come in, after the accept callback. */
  function Accepted(onAccept: seq<Act>, size: nat): Conn {
    Called(OnAccept, onAccept, Incoming(size))
  }

  /** It is read, and nothing else has happened yet. */
  function Incoming(size: nat): Conn {
    Conn(true, false, false, false, false, false, false, [], [], [], [], size, 0, size, Content([], 0, 0))
  }

  /** A connection with empty buffers that is read and counted. */
  method Enrol(server: TcpServer, pool: Pool, size: nat) returns (client: TcpClient)
    requires server.Counted() && Ready(pool) && 1 <= size <= pool.objsize
    modifies server, pool`users
    ensures fresh(client) && client.peer == server && client.Valid() && client.closed == 0 && client.Armed()
    ensures client.readActive && !client.writeActive && !client.waitcls && client.notices == []
    ensures client.accepted == client.outgoing == []
    ensures server.Counted() && server.live == old(server.live) + {client} && server.gone == old(server.gone)
    ensures fresh(client.rbuf) && fresh(client.wbuf) && client.wbuf.pool == pool && client.wbuf.chain == []
    ensures Bytes(client.rbuf.chain) == [] && client.Live() == Incoming(size)
    ensures Ready(pool) && pool.users == old(pool.users) + {client.rbuf, client.wbuf}
    ensures forall c :: c in old(pool.users) ==> ContentOf(c) == old(ContentOf(c))
  {
    hide Ready, Bytes, Buffer.Chained, TcpServer.Counted;
    client := NewClient(server, pool, size);
    server.Enter(client);
  }

  method NewClient(server: TcpServer, pool: Pool, size: nat) returns (client: TcpClient)
    requires Ready(pool) && 1 <= size <= pool.objsize
    modifies pool`users
    ensures fresh(client) && client.peer == server && client.closed == 0 && client.readActive && !client.writeActive
    ensures client.accepted == client.outgoing == [] && !client.waitcls && !client.conning && client.notices == []
    ensures fresh(client.rbuf) && fresh(client.wbuf) && client.Attached() && client.wbuf.pool == pool
    ensures Ready(pool) && pool.users == old(pool.users) + {client.rbuf, client.wbuf}
    ensures Bytes(client.wbuf.chain) == Bytes(client.rbuf.chain) == [] && client.wbuf.chain == []
    ensures client.Live() == Incoming(size)
    ensures forall c :: c in old(pool.users) ==> ContentOf(c) == old(ContentOf(c))
  {
    hide Ready, Bytes, Buffer.Chained, ContentOf;
    var rbuf := NewBuffer(pool, size);
    var wbuf := NewBuffer(pool, size);
    NothingIn(rbuf);
    NothingIn(wbuf);
    client := new TcpClient(server, rbuf, wbuf);
    client.readActive := true;
  }

  lemma NothingIn(b: Buffer)
    requires b.chain == []
    ensures ContentOf(b) == Content([], 0, 0) && Bytes(b.chain) == [] && Offset(b.chain) == 0
  {
  }

  lemma FilledOf(b: Buffer)
    requires Ready(b.pool) && b in b.pool.users
    ensures b.Chained() && Filled(b.chain, b.unit_size)
  {
    hide Pool.Valid;
    b.pool.ChainsOwned({});
  }

  lemma OwnedElems(b: Buffer)
    requires Ready(b.pool) && b in b.pool.users
    ensures b.pool.OwnedBy(b) == Elems(b.chain) && b.pool.OwnedBy(null) == Elems(b.pool.idle)
  {
  }
}
