/** The 1-based binary heap of timers whose entries know their own position. */
module TimerHeap {
  import opened Evt

  type Slots = seq<Event?>

  /** Due times, recorded by event. */
  type Times = map<Event?, int>

  ghost function TimesOf(elems: set<Event>): (key: Times)
    reads elems`timestamp
    ensures key.Keys == elems
  {
    map e: Event | e in elems :: e.timestamp
  }

  // ---- heap order, on the slots as a value ----

  function Key(s: Slots, key: Times, i: int): int {
    if 0 <= i < |s| && s[i] in key then key[s[i]] else 0
  }

  /** Slot j is not earlier than its parent. */
  predicate AfterParent(s: Slots, key: Times, j: int) {
    Key(s, key, j / 2) <= Key(s, key, j)
  }

  predicate AfterGrandparent(s: Slots, key: Times, j: int) {
    Key(s, key, j / 2 / 2) <= Key(s, key, j)
  }

  ghost predicate HeapOrder(s: Slots, key: Times, n: int) {
    forall j :: 2 <= j <= n ==> AfterParent(s, key, j)
  }

  ghost predicate Bridged(s: Slots, key: Times, n: int, p: int) {
    forall j :: 2 <= j <= n && j / 2 == p && p >= 2 ==> AfterGrandparent(s, key, j)
  }

  /** In order except that slot p may be earlier than its parent. */
  ghost predicate OrderAbove(s: Slots, key: Times, n: int, p: int) {
    && (forall j :: 2 <= j <= n && j != p ==> AfterParent(s, key, j))
    && Bridged(s, key, n, p)
  }

  /** In order except that slot p may be later than its children. */
  ghost predicate OrderBelow(s: Slots, key: Times, n: int, p: int) {
    && (forall j :: 2 <= j <= n && j / 2 != p ==> AfterParent(s, key, j))
    && Bridged(s, key, n, p)
  }

  function Swapped(s: Slots, i: int, j: int): Slots
    requires 0 <= i < |s| && 0 <= j < |s|
  {
    s[i := s[j]][j := s[i]]
  }

  lemma SwapUp(s: Slots, key: Times, n: int, p: int)
    requires 2 <= p <= n < |s| && OrderAbove(s, key, n, p) && Key(s, key, p) < Key(s, key, p / 2)
    ensures OrderAbove(Swapped(s, p, p / 2), key, n, p / 2)
  {
    var t, q := Swapped(s, p, p / 2), p / 2;
    forall j | 2 <= j <= n && j != q ensures AfterParent(t, key, j) {
      assert Key(t, key, p) == Key(s, key, q) && Key(t, key, q) == Key(s, key, p);
      assert j != p ==> AfterParent(s, key, j) && Key(t, key, j) == Key(s, key, j);
      assert j / 2 == p ==> AfterGrandparent(s, key, j);
      assert j / 2 != p && j / 2 != q ==> Key(t, key, j / 2) == Key(s, key, j / 2);
    }
    forall j | 2 <= j <= n && j / 2 == q && q >= 2 ensures AfterGrandparent(t, key, j) {
      assert AfterParent(s, key, q) && (j != p ==> AfterParent(s, key, j));
    }
  }

  lemma SwapDown(s: Slots, key: Times, n: int, p: int, c: int)
    requires 1 <= p && 2 <= c <= n < |s| && c / 2 == p && OrderBelow(s, key, n, p)
    requires Key(s, key, c) <= Key(s, key, p)
    requires forall j :: 2 <= j <= n && j / 2 == p ==> Key(s, key, c) <= Key(s, key, j)
    ensures OrderBelow(Swapped(s, p, c), key, n, c)
  {
    var t := Swapped(s, p, c);
    assert p >= 2 ==> AfterGrandparent(s, key, c);
    forall j | 2 <= j <= n && j / 2 != c ensures AfterParent(t, key, j) {
      assert Key(t, key, p) == Key(s, key, c) && Key(t, key, c) == Key(s, key, p);
      assert j != p && j != c ==> Key(t, key, j) == Key(s, key, j);
      assert j / 2 != p ==> Key(t, key, j / 2) == Key(s, key, j / 2);
      assert j != p && j / 2 != p ==> AfterParent(s, key, j);
    }
    forall j | 2 <= j <= n && j / 2 == c && c >= 2 ensures AfterGrandparent(t, key, j) {
      assert AfterParent(s, key, j);
    }
  }

  /** The first slot is the earliest. */
  lemma {:induction false} RootIsEarliest(s: Slots, key: Times, n: int, i: int)
    requires HeapOrder(s, key, n) && 1 <= i <= n
    ensures Key(s, key, 1) <= Key(s, key, i)
  {
    if i > 1 {
      assert AfterParent(s, key, i);
      RootIsEarliest(s, key, n, i / 2);
    }
  }

  /** Moving the last entry into the slot of a removed one. */
  lemma FillOrder(s: Slots, key: Times, n: int, p: int)
    requires 1 <= p < n < |s| && HeapOrder(s, key, n)
    ensures var t := s[p := s[n]];
            if p > 1 && Key(t, key, p) < Key(t, key, p / 2) then OrderAbove(t, key, n - 1, p)
            else OrderBelow(t, key, n - 1, p)
  {
    var t := s[p := s[n]];
    forall j | 2 <= j <= n - 1 && j / 2 == p && p >= 2 ensures AfterGrandparent(t, key, j) {
      assert AfterParent(s, key, j) && AfterParent(s, key, p);
    }
    forall j | 2 <= j <= n - 1 && j / 2 != p && j != p ensures AfterParent(t, key, j) {
      assert AfterParent(s, key, j);
    }
    if p > 1 && Key(t, key, p) < Key(t, key, p / 2) {
      forall j | 2 <= j <= n - 1 && j / 2 == p ensures AfterParent(t, key, j) {
        assert AfterParent(s, key, j) && AfterParent(s, key, p);
      }
    }
  }

  /** Only the times of the live slots matter. */
  lemma KeysAgree(s: Slots, key: Times, key': Times, n: int, p: int)
    requires forall i :: 1 <= i <= n ==> Key(s, key, i) == Key(s, key', i)
    requires 1 <= p
    ensures HeapOrder(s, key, n) ==> HeapOrder(s, key', n)
    ensures OrderAbove(s, key, n, p) ==> OrderAbove(s, key', n, p)
    ensures OrderBelow(s, key, n, p) ==> OrderBelow(s, key', n, p)
  {
    forall j | 2 <= j <= n ensures AfterParent(s, key, j) <==> AfterParent(s, key', j) {
      assert 1 <= j / 2 <= n;
    }
    forall j | 2 <= j <= n && j / 2 == p && p >= 2
      ensures AfterGrandparent(s, key, j) <==> AfterGrandparent(s, key', j)
    {
      assert 1 <= j / 2 / 2 <= n;
    }
  }

  // ---- back indices ----

  /** The live slots hold exactly `elems`, each of which records its slot. */
  ghost predicate Indexed(heap: array<Event?>, n: int, elems: set<Event>)
    reads heap, elems`heap_pos
  {
    && 0 <= n < heap.Length
    && (forall i :: 1 <= i <= n ==> heap[i] != null && heap[i] in elems && heap[i].heap_pos == i)
    && (forall e :: e in elems ==> 1 <= e.heap_pos <= n && heap[e.heap_pos] == e)
  }

  /** The same with a hole at p: `val` belongs to `elems` and is to be stored there. */
  ghost predicate IndexedBut(heap: array<Event?>, n: int, elems: set<Event>, p: int, val: Event)
    reads heap, elems`heap_pos
  {
    && 1 <= p <= n < heap.Length && val in elems
    && (forall i :: 1 <= i <= n && i != p ==>
          heap[i] != null && heap[i] in elems && heap[i] != val && heap[i].heap_pos == i)
    && (forall e :: e in elems && e != val ==> 1 <= e.heap_pos <= n && e.heap_pos != p && heap[e.heap_pos] == e)
  }

  ghost predicate Heap(heap: array<Event?>, n: int, elems: set<Event>)
    reads heap, elems`heap_pos, elems`timestamp
  {
    Indexed(heap, n, elems) && HeapOrder(heap[..], TimesOf(elems), n)
  }

  lemma Shorter(s: Slots, key: Times, n: int)
    requires HeapOrder(s, key, n)
    ensures HeapOrder(s, key, n - 1)
  {
  }

  /** Move the entry at `from` into the hole; the hole is now at `from`. */
  method MoveEntry(heap: array<Event?>, hole: int, from: int, size: int, val: Event, ghost elems: set<Event>)
    requires IndexedBut(heap, size, elems, hole, val) && 1 <= from <= size && from != hole
    modifies heap, elems`heap_pos
    ensures IndexedBut(heap, size, elems, from, val)
    ensures TimesOf(elems) == old(TimesOf(elems))
    ensures heap[..] == old(heap[..])[hole := old(heap[from])]
    ensures heap[..][from := val] == Swapped(old(heap[..])[hole := val], hole, from)
  {
    heap[hole] := heap[from];
    heap[hole].heap_pos := hole;
  }

  /** Fill the hole. */
  method Settle(heap: array<Event?>, hole: int, size: int, val: Event, ghost elems: set<Event>)
    requires IndexedBut(heap, size, elems, hole, val)
    modifies heap, elems`heap_pos
    ensures Indexed(heap, size, elems)
    ensures TimesOf(elems) == old(TimesOf(elems))
    ensures heap[..] == old(heap[..])[hole := val]
  {
    heap[hole] := val;
    heap[hole].heap_pos := hole;
  }

  method FixUp(heap: array<Event?>, pos: int, size: int, ghost elems: set<Event>)
    requires 1 <= pos <= size < heap.Length && heap[pos] != null
    requires IndexedBut(heap, size, elems, pos, heap[pos])
    requires OrderAbove(heap[..], TimesOf(elems), size, pos)
    modifies heap, elems`heap_pos
    ensures Heap(heap, size, elems)
    ensures forall i :: 0 <= i < heap.Length && !(1 <= i <= size) ==> heap[i] == old(heap[i])
  {
    var p, val: Event := pos, heap[pos];
    ghost var v, key := heap[..], TimesOf(elems);
    while p > 1 && val.timestamp < heap[p / 2].timestamp
      invariant 1 <= p <= size && IndexedBut(heap, size, elems, p, val)
      invariant TimesOf(elems) == key && v == heap[..][p := val]
      invariant OrderAbove(v, key, size, p)
      invariant forall i :: 0 <= i < heap.Length && !(1 <= i <= size) ==> heap[i] == old(heap[i])
      decreases p
    {
      SwapUp(v, key, size, p);
      MoveEntry(heap, p, p / 2, size, val, elems);
      v := Swapped(v, p, p / 2);
      p := p / 2;
    }
    Settle(heap, p, size, val, elems);
    assert p > 1 ==> AfterParent(v, key, p);
    assert HeapOrder(v, key, size);
  }

  /** When no child of the exceptional slot is earlier, the order is complete. */
  lemma SettledBelow(s: Slots, key: Times, n: int, p: int)
    requires OrderBelow(s, key, n, p) && p >= 1
    requires 2 * p <= n ==> Key(s, key, p) <= Key(s, key, 2 * p)
    requires 2 * p + 1 <= n ==> Key(s, key, p) <= Key(s, key, 2 * p + 1)
    ensures HeapOrder(s, key, n)
  {
    forall j | 2 <= j <= n ensures AfterParent(s, key, j) {
      assert j / 2 == p ==> j == 2 * p || j == 2 * p + 1;
      assert j / 2 != p ==> AfterParent(s, key, j);
    }
  }

  method FixDown(heap: array<Event?>, pos: int, size: int, ghost elems: set<Event>)
    requires 1 <= pos <= size < heap.Length && heap[pos] != null
    requires IndexedBut(heap, size, elems, pos, heap[pos])
    requires OrderBelow(heap[..], TimesOf(elems), size, pos)
    modifies heap, elems`heap_pos
    ensures Heap(heap, size, elems)
    ensures forall i :: 0 <= i < heap.Length && !(1 <= i <= size) ==> heap[i] == old(heap[i])
  {
    hide OrderBelow, HeapOrder;
    var p, val: Event := pos, heap[pos];
    ghost var v, key := heap[..], TimesOf(elems);
    while 2 * p <= size
      invariant 1 <= p <= size && IndexedBut(heap, size, elems, p, val)
      invariant TimesOf(elems) == key && v == heap[..][p := val]
      invariant OrderBelow(v, key, size, p)
      invariant forall i :: 0 <= i < heap.Length && !(1 <= i <= size) ==> heap[i] == old(heap[i])
      decreases size - p
    {
      var c := 2 * p;
      if 2 * p + 1 <= size && heap[c + 1].timestamp < heap[c].timestamp {
        c := c + 1;
      }
      if val.timestamp < heap[c].timestamp {
        break;
      }
      SwapDown(v, key, size, p, c);
      MoveEntry(heap, p, c, size, val, elems);
      v := Swapped(v, p, c);
      p := c;
    }
    SettledBelow(v, key, size, p);
    Settle(heap, p, size, val, elems);
  }

  /** Append a timer, which must not be in the heap, and float it up. */
  method Push(heap: array<Event?>, size: int, elm: Event, ghost elems: set<Event>)
    requires Heap(heap, size, elems) && size + 1 < heap.Length && elm !in elems
    modifies heap, elems`heap_pos, elm`heap_pos
    ensures Heap(heap, size + 1, elems + {elm})
  {
    ghost var s, key, key' := heap[..], TimesOf(elems), TimesOf(elems + {elm});
    heap[size + 1] := elm;
    ghost var t := heap[..];
    forall j | 2 <= j <= size + 1 && j != size + 1 ensures AfterParent(t, key', j) {
      assert AfterParent(s, key, j);
    }
    FixUp(heap, size + 1, size + 1, elems + {elm});
  }

  /** Remove the timer at `pos`; the last entry takes its slot and moves up or down. */
  method Delete(heap: array<Event?>, pos: int, size: int, ghost elems: set<Event>)
    requires Heap(heap, size, elems) && 1 <= pos <= size
    modifies heap, elems`heap_pos
    ensures Heap(heap, size - 1, elems - {old(heap[pos])})
    ensures old(heap[pos]) in elems && old(heap[pos]).heap_pos == 0
  {
    ghost var rest := elems - {heap[pos]};
    TakeOut(heap, pos, size, elems);
    if size - 1 == pos - 1 {
      return;
    }
    if pos > 1 && heap[pos].timestamp < heap[pos / 2].timestamp {
      FixUp(heap, pos, size - 1, rest);
    } else {
      FixDown(heap, pos, size - 1, rest);
    }
  }

  /** Clear the position of the entry at `pos` and move the last entry into its slot. */
  method TakeOut(heap: array<Event?>, pos: int, size: int, ghost elems: set<Event>)
    requires Heap(heap, size, elems) && 1 <= pos <= size
    modifies heap, elems`heap_pos
    ensures old(heap[pos]) in elems && old(heap[pos]).heap_pos == 0
    ensures var rest := elems - {old(heap[pos])};
            if pos == size then Heap(heap, size - 1, rest)
            else && heap[pos] != null && IndexedBut(heap, size - 1, rest, pos, heap[pos])
                 && (if pos > 1 && heap[pos].timestamp < heap[pos / 2].timestamp
                     then OrderAbove(heap[..], TimesOf(rest), size - 1, pos)
                     else OrderBelow(heap[..], TimesOf(rest), size - 1, pos))
  {
    hide HeapOrder, OrderAbove, OrderBelow;
    ghost var s, key, gone := heap[..], TimesOf(elems), heap[pos];
    ghost var rest := elems - {gone};
    heap[pos].heap_pos := 0;
    heap[pos] := heap[size];
    ghost var t, key' := heap[..], TimesOf(rest);
    assert t == s[pos := s[size]];
    if pos == size {
      assert t == s;
      Shorter(s, key, size);
      KeysAgree(t, key, key', size - 1, pos);
    } else {
      FillOrder(s, key, size, pos);
      KeysAgree(t, key, key', size - 1, pos);
    }
  }

  // ---- sorting ----

  /** Slots i to n hold the timers of `done`, each once, latest first. */
  ghost predicate Sorted(s: Slots, key: Times, i: int, n: int, done: set<Event>) {
    && 1 <= i <= n + 1 <= |s|
    && (forall k :: i <= k <= n ==> s[k] != null && s[k] in done)
    && (forall e :: e in done ==> e in s[i..n + 1])
    && (forall k, l :: i <= k < l <= n ==> s[k] != s[l] && LaterFirst(s, key, k, l))
  }

  /** One more timer, no earlier than those in order, comes in front of them. */
  lemma SortedMore(s: Slots, key: Times, s': Slots, key': Times, i: int, n: int, done: set<Event>, e: Event)
    requires Sorted(s, key, i + 1, n, done) && 1 <= i && |s'| == |s| && s'[i] == e && e !in done
    requires forall k :: i < k <= n ==> s'[k] == s[k]
    requires key'.Keys == done + {e} && key.Keys == done
    requires forall f :: f in done ==> key'[f] == key[f] <= key'[e]
    ensures Sorted(s', key', i, n, done + {e})
  {
    forall f | f in done + {e} ensures f in s'[i..n + 1] {
      if f == e {
        assert s'[i..n + 1][0] == e;
      } else {
        var k :| 0 <= k < |s[i + 1..n + 1]| && s[i + 1..n + 1][k] == f;
        assert s'[i..n + 1][k + 1] == f;
      }
    }
    forall k, l | i <= k < l <= n ensures s'[k] != s'[l] && LaterFirst(s', key', k, l) {
      if k > i {
        assert LaterFirst(s, key, k, l);
      }
    }
  }

  predicate LaterFirst(s: Slots, key: Times, k: int, l: int) {
    Key(s, key, k) >= Key(s, key, l)
  }

  /** When only the first slot has been filled anew, only it may be later than its children. */
  lemma RootFilled(s: Slots, key: Times, t: Slots, key': Times, n: int)
    requires HeapOrder(s, key, n) && forall i :: 2 <= i < n ==> Key(t, key', i) == Key(s, key, i)
    ensures OrderBelow(t, key', n - 1, 1)
  {
    forall j | 2 <= j <= n - 1 && j / 2 != 1 ensures AfterParent(t, key', j) {
      assert AfterParent(s, key, j);
    }
  }

  /** Exchange the first and the last entry, and restore the order of the others. */
  method TakeFirst(heap: array<Event?>, n: int, ghost elems: set<Event>)
    requires Heap(heap, n, elems) && n >= 1
    modifies heap, elems`heap_pos
    ensures heap[n] == old(heap[1]) && heap[n] != null && heap[n] in elems && heap[n].heap_pos == 1
    ensures Heap(heap, n - 1, elems - {heap[n]}) && forall e :: e in elems ==> heap[n].timestamp <= e.timestamp
    ensures forall i :: n < i < heap.Length ==> heap[i] == old(heap[i])
  {
    ghost var s, key := heap[..], TimesOf(elems);
    forall e | e in elems ensures heap[1].timestamp <= e.timestamp {
      RootIsEarliest(s, key, n, e.heap_pos);
    }
    var tmp: Event := heap[1];
    ghost var rest := elems - {tmp};
    heap[1] := heap[n];
    heap[n] := tmp;
    if n == 1 {
      heap[1].heap_pos := 1;
    } else {
      RootFilled(s, key, heap[..], TimesOf(rest), n);
      FixDown(heap, 1, n - 1, rest);
    }
  }

  /**
   * Sort by taking out the first entry again and again. The entries end up latest first, but an entry
   * that is put to its final slot goes on recording slot 1, where it was: the positions are lost.
   */
  method Sort(heap: array<Event?>, size: int, ghost elems: set<Event>)
    requires Heap(heap, size, elems)
    modifies heap, elems`heap_pos
    ensures Sorted(heap[..], TimesOf(elems), 1, size, elems) && forall e :: e in elems ==> e.heap_pos == 1
    ensures Indexed(heap, size, elems) <==> size < 2
  {
    hide Heap, Indexed, Sorted;
    var n := size;
    ghost var live: set<Event>, done: set<Event> := elems, {};
    NothingSorted(heap, size, elems);
    while n > 0
      invariant 0 <= n <= size < heap.Length && live + done == elems && live !! done
      invariant Heap(heap, n, live) && Sorted(heap[..], TimesOf(done), n + 1, size, done)
      invariant forall e :: e in done ==> e.heap_pos == 1
      invariant forall e, f :: e in live && f in done ==> f.timestamp <= e.timestamp
    {
      ghost var s, key := heap[..], TimesOf(done);
      TakeFirst(heap, n, live);
      ghost var first: Event := heap[n];
      SortedMore(s, key, heap[..], TimesOf(done + {first}), n, size, done, first);
      live, done := live - {first}, done + {first};
      n := n - 1;
    }
    NoneLeft(heap, live);
    PositionsLost(heap, size, elems);
  }

  /** With the same position in every entry, all positions are right only if there is at most one entry. */
  lemma PositionsLost(heap: array<Event?>, size: int, elems: set<Event>)
    requires 0 <= size < heap.Length && Sorted(heap[..], TimesOf(elems), 1, size, elems)
    requires forall e :: e in elems ==> e.heap_pos == 1
    ensures Indexed(heap, size, elems) <==> size < 2
  {
    if size < 2 {
      forall e | e in elems ensures size == 1 && heap[1] == e {
        assert e in heap[..][1..size + 1];
      }
    } else {
      assert heap[..][2] == heap[2] && heap[2] in elems;
    }
  }

  lemma NothingSorted(heap: array<Event?>, size: int, elems: set<Event>)
    requires Heap(heap, size, elems)
    ensures 0 <= size < heap.Length && Sorted(heap[..], TimesOf({}), size + 1, size, {})
  {
  }

  lemma NoneLeft(heap: array<Event?>, elems: set<Event>)
    requires Heap(heap, 0, elems)
    ensures elems == {}
  {
  }
}
