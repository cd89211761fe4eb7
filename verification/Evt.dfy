/** Events and the state of an event loop. */
module Evt {

  /** The conditions an io event can wait for; a mask of event bits is a set of them. */
  datatype Interest = Read | Write

  type Mask = set<Interest>

  /** Watchers of descriptors, timers, and the hooks that run before and after each poll. */
  datatype Kind = Io | Timer | Before | After

  /**
   * An event. `pendpos` is 0 or one more than its slot in the pending queue of its priority;
   * `heap_pos` is 0 or its slot in the timer heap.
   */
  class Event {
    var active: bool
    var priority: nat
    var pendpos: nat
    var timestamp: int
    var repeat: int
    var heap_pos: nat
    const kind: Kind
    const fd: nat
    const interest: Mask

    constructor Timer(priority: nat, after: int, repeat: int)
      ensures !active && this.priority == priority && pendpos == 0 && heap_pos == 0
      ensures timestamp == after && this.repeat == repeat && kind == Kind.Timer
    {
      active, this.priority, pendpos, heap_pos := false, priority, 0, 0;
      timestamp, this.repeat, kind, fd, interest := after, repeat, Kind.Timer, 0, {};
    }

    constructor Io(priority: nat, fd: nat, interest: Mask)
      ensures !active && this.priority == priority && pendpos == 0 && heap_pos == 0
      ensures this.fd == fd && this.interest == interest && kind == Kind.Io
    {
      active, this.priority, pendpos, heap_pos := false, priority, 0, 0;
      timestamp, repeat, kind, this.fd, this.interest := 0, 0, Kind.Io, fd, interest;
    }

    constructor Hook(priority: nat, kind: Kind)
      requires kind == Before || kind == After
      ensures !active && this.priority == priority && pendpos == 0 && heap_pos == 0 && this.kind == kind
    {
      active, this.priority, pendpos, heap_pos := false, priority, 0, 0;
      timestamp, repeat, this.kind, fd, interest := 0, 0, kind, 0, {};
    }
  }
}
