/** The 0-based binary heap of the container library, which uses the slot behind its last element as scratch. */
module SpareHeap {
  import opened Elements

  function Parent(i: nat): nat
    requires i > 0
  {
    (i - 1) / 2
  }

  // ---- heap order, on the elements as a value ----

  /** Element j does not precede its parent. */
  predicate AfterParent(less: Less, s: seq<Elem>, j: nat)
    requires 0 < j < |s|
  {
    !less(s[j], s[Parent(j)])
  }

  ghost predicate HeapOrder(less: Less, s: seq<Elem>) {
    forall j :: 0 < j < |s| ==> AfterParent(less, s, j)
  }

  /** The children of p do not precede the parent of p. */
  ghost predicate Bridged(less: Less, s: seq<Elem>, p: nat) {
    forall j :: 0 < j < |s| && Parent(j) == p && p > 0 ==> !less(s[j], s[Parent(p)])
  }

  /** In order except that p may precede its parent. */
  ghost predicate OrderAbove(less: Less, s: seq<Elem>, p: nat) {
    && (forall j :: 0 < j < |s| && j != p ==> AfterParent(less, s, j))
    && Bridged(less, s, p)
  }

  /** In order except that p may be preceded by its children. */
  ghost predicate OrderBelow(less: Less, s: seq<Elem>, p: nat) {
    && (forall j :: 0 < j < |s| && Parent(j) != p ==> AfterParent(less, s, j))
    && Bridged(less, s, p)
  }

  function Swapped(s: seq<Elem>, i: nat, j: nat): seq<Elem>
    requires i < |s| && j < |s|
  {
    s[i := s[j]][j := s[i]]
  }

  lemma SwappedSame(s: seq<Elem>, i: nat, j: nat)
    requires i < |s| && j < |s|
    ensures multiset(Swapped(s, i, j)) == multiset(s)
  {
  }

  /** "Does not precede" is transitive. */
  lemma NotBefore(less: Less, a: Elem, b: Elem, c: Elem)
    requires StrictWeakOrder(less) && !less(a, b) && !less(b, c)
    ensures !less(a, c)
  {
    assert OrderedTriple(less, a, b, c);
  }

  lemma Before(less: Less, a: Elem, b: Elem)
    requires StrictWeakOrder(less) && less(a, b)
    ensures !less(b, a)
  {
    assert OrderedTriple(less, a, b, a);
  }

  lemma SwapUp(less: Less, s: seq<Elem>, p: nat)
    requires StrictWeakOrder(less) && 0 < p < |s| && OrderAbove(less, s, p) && less(s[p], s[Parent(p)])
    ensures OrderAbove(less, Swapped(s, p, Parent(p)), Parent(p))
  {
    var q := Parent(p);
    var t := Swapped(s, p, q);
    Before(less, s[p], s[q]);
    forall j | 0 < j < |t| && j != q ensures AfterParent(less, t, j) {
      if j != p && Parent(j) == q {
        assert AfterParent(less, s, j);
        NotBefore(less, s[j], s[q], s[p]);
      } else if j != p && Parent(j) != p {
        assert AfterParent(less, s, j);
      }
    }
    forall j | 0 < j < |t| && Parent(j) == q && q > 0 ensures !less(t[j], t[Parent(q)]) {
      assert AfterParent(less, s, q);
      if j != p {
        assert AfterParent(less, s, j);
        NotBefore(less, s[j], s[q], s[Parent(q)]);
      }
    }
  }

  lemma SwapDown(less: Less, s: seq<Elem>, p: nat, c: nat)
    requires StrictWeakOrder(less) && 0 < c < |s| && Parent(c) == p && OrderBelow(less, s, p) && !less(s[p], s[c])
    requires forall j :: 0 < j < |s| && Parent(j) == p ==> !less(s[j], s[c])
    ensures OrderBelow(less, Swapped(s, p, c), c)
  {
    var t := Swapped(s, p, c);
    forall j | 0 < j < |t| && Parent(j) != c ensures AfterParent(less, t, j) {
      if j != p && Parent(j) != p {
        assert AfterParent(less, s, j);
      }
    }
    forall j | 0 < j < |t| && Parent(j) == c ensures !less(t[j], t[Parent(c)]) {
      assert AfterParent(less, s, j);
    }
  }

  /** The first element is least. */
  lemma {:induction false} TopIsLeast(less: Less, s: seq<Elem>, i: nat)
    requires StrictWeakOrder(less) && HeapOrder(less, s) && i < |s|
    ensures !less(s[i], s[0])
  {
    if i == 0 {
      assert OrderedTriple(less, s[0], s[0], s[0]);
    } else {
      assert AfterParent(less, s, i);
      TopIsLeast(less, s, Parent(i));
      NotBefore(less, s[i], s[Parent(i)], s[0]);
    }
  }

  class Heap {
    const less: Less
    var data: array<Elem>     // the storage; its length is the capacity
    var size: nat

    constructor (less: Less, capacity: nat, filler: Elem)
      requires capacity >= 1
      ensures Valid() && Contents() == [] && this.less == less && fresh(data)
    {
      this.less := less;
      data := new Elem[capacity](_ => filler);
      size := 0;
    }

    ghost function Contents(): seq<Elem>
      requires size <= data.Length
      reads this, data
    {
      data[..size]
    }

    lemma ContentsSize()
      requires size <= data.Length
      ensures |Contents()| == size && (size > 0 ==> Contents()[0] == data[0])
    {
    }

    ghost predicate Valid()
      reads this, data
    {
      size <= data.Length && data.Length >= 1 && HeapOrder(less, Contents())
    }

    /** The elements with the one in the spare slot put into the hole at `pos`. */
    ghost function Filled(pos: nat): seq<Elem>
      requires pos < size < data.Length
      reads this, data
    {
      data[..size][pos := data[size]]
    }

    // ---- storage ----

    /** Double the capacity until it suffices, keeping what is stored. */
    method Reserve(newcap: nat)
      requires data.Length >= 1
      modifies this`data
      ensures newcap <= data.Length && old(data.Length) <= data.Length
      ensures data[..old(data.Length)] == old(data[..])
      ensures if newcap <= old(data.Length) then data == old(data) else fresh(data)
    {
      if data.Length >= newcap {
        return;
      }
      var capacity := data.Length;
      while capacity < newcap
        invariant capacity >= data.Length
        decreases newcap - capacity
      {
        capacity := capacity * 2;
      }
      var filler := data[0];
      var moved := new Elem[capacity](_ => filler);
      for i := 0 to data.Length
        invariant fresh(moved) && data == old(data) && data[..] == old(data[..])
        invariant i <= data.Length <= moved.Length && moved[..i] == data[..i]
      {
        moved[i] := data[i];
      }
      data := moved;
    }

    /** Copy one element, making sure first that there is a spare slot. */
    method CopyElem(p1: nat, p2: nat)
      requires size <= data.Length && data.Length >= 1 && p1 <= size && p2 <= size && p2 < data.Length
      modifies this`data, data
      ensures size < data.Length && if size < old(data.Length) then data == old(data) else fresh(data)
      ensures Contents() == if p1 < size then old(Contents())[p1 := old(data[p2])] else old(Contents())
      ensures p1 == size ==> data[size] == old(data[p2])
      ensures p1 < size && size < old(data.Length) ==> data[size] == old(data[size])
    {
      Reserve(size + 1);
      data[p1] := data[p2];
    }

    /** Exchange two elements by way of the spare slot. */
    method SwapElem(p1: nat, p2: nat)
      requires p1 < size <= data.Length && p2 < size
      modifies this`data, data
      ensures size < data.Length && (data == old(data) || fresh(data))
      ensures Contents() == Swapped(old(Contents()), p1, p2)
    {
      Reserve(size + 1);
      data[size] := data[p1];
      data[p1] := data[p2];
      data[p2] := data[size];
    }

    // ---- restoring the order ----

    /** Copy an element to the spare slot; its place is now the hole. */
    method LiftOut(pos: nat)
      requires pos < size <= data.Length
      modifies this`data, data
      ensures size < data.Length && (data == old(data) || fresh(data)) && Filled(pos) == old(Contents())
      ensures data[size] == Filled(pos)[pos] && forall i :: 0 <= i < size && i != pos ==> data[i] == Filled(pos)[i]
    {
      CopyElem(size, pos);
    }

    /** Copy an element into the hole; its place is the next hole. */
    method MoveHole(pos: nat, from: nat)
      requires pos < size < data.Length && from < size && from != pos
      modifies this`data, data
      ensures size < data.Length && data == old(data)
      ensures Filled(from) == Swapped(old(Filled(pos)), pos, from) && |Filled(from)| == size
    {
      CopyElem(pos, from);
    }

    /** Copy the spare element into the hole. */
    method FillHole(pos: nat)
      requires pos < size < data.Length
      modifies this`data, data
      ensures size < data.Length && data == old(data) && Contents() == old(Filled(pos))
    {
      CopyElem(pos, size);
    }

    lemma FilledAt(pos: nat, i: nat)
      requires pos < size < data.Length && i < size
      ensures |Filled(pos)| == size && Filled(pos)[i] == if i == pos then data[size] else data[i]
    {
    }

    method FixUp(pos: nat)
      requires StrictWeakOrder(less) && pos < size <= data.Length && OrderAbove(less, Contents(), pos)
      modifies this`data, data
      ensures Valid() && multiset(Contents()) == multiset(old(Contents())) && (data == old(data) || fresh(data))
    {
      hide StrictWeakOrder, OrderAbove, HeapOrder, Filled, Contents;
      var pos: nat, lastpos: nat := pos, size;
      LiftOut(pos);
      while pos > 0 && less(data[lastpos], data[Parent(pos)])
        invariant pos < size < data.Length && (data == old(data) || fresh(data))
        invariant OrderAbove(less, Filled(pos), pos) && multiset(Filled(pos)) == multiset(old(Contents()))
      {
        ghost var s := Filled(pos);
        FilledAt(pos, pos);
        FilledAt(pos, Parent(pos));
        SwapUp(less, s, pos);
        SwappedSame(s, pos, Parent(pos));
        MoveHole(pos, Parent(pos));
        pos := Parent(pos);
      }
      FilledAt(pos, pos);
      if pos > 0 { FilledAt(pos, Parent(pos)); }
      Arrived(Filled(pos), pos);
      FillHole(pos);
    }

    lemma Arrived(s: seq<Elem>, pos: nat)
      requires pos < |s| && OrderAbove(less, s, pos) && (pos == 0 || !less(s[pos], s[Parent(pos)]))
      ensures HeapOrder(less, s)
    {
    }

    method FixDown(pos: nat)
      requires StrictWeakOrder(less) && pos < size <= data.Length && OrderBelow(less, Contents(), pos)
      modifies this`data, data
      ensures Valid() && multiset(Contents()) == multiset(old(Contents())) && (data == old(data) || fresh(data))
    {
      hide StrictWeakOrder, OrderBelow, HeapOrder, Filled, Contents;
      var pos: nat, lastpos: nat := pos, size;
      LiftOut(pos);
      while 2 * pos + 1 < size
        invariant pos < size < data.Length && (data == old(data) || fresh(data))
        invariant OrderBelow(less, Filled(pos), pos) && multiset(Filled(pos)) == multiset(old(Contents()))
        decreases size - pos
      {
        ghost var s := Filled(pos);
        FilledAt(pos, pos);
        var npos := LesserChild(pos);
        FilledAt(pos, npos);
        if less(data[lastpos], data[npos]) {
          Rests(s, pos, npos);
          FillHole(pos);
          return;
        }
        SwapDown(less, s, pos, npos);
        SwappedSame(s, pos, npos);
        MoveHole(pos, npos);
        pos := npos;
      }
      FilledAt(pos, pos);
      AtBottom(Filled(pos), pos);
      FillHole(pos);
    }

    /** The child that the other one does not precede. */
    method LesserChild(pos: nat) returns (npos: nat)
      requires StrictWeakOrder(less) && pos < size < data.Length && 2 * pos + 1 < size
      ensures npos < size && npos > 0 && Parent(npos) == pos
      ensures forall j :: 0 < j < size && Parent(j) == pos ==> !less(Filled(pos)[j], Filled(pos)[npos])
    {
      npos := 2 * pos + 1;
      assert OrderedTriple(less, data[npos], data[npos], data[npos]);
      if npos + 1 < size && less(data[npos + 1], data[npos]) {
        Before(less, data[npos + 1], data[npos]);
        npos := npos + 1;
      }
      assert OrderedTriple(less, data[npos], data[npos], data[npos]);
      forall j | 0 < j < size && Parent(j) == pos ensures !less(Filled(pos)[j], Filled(pos)[npos]) {
        assert j == 2 * pos + 1 || j == 2 * pos + 2;
      }
    }

    /** An element that precedes its lesser child stays where it is. */
    lemma Rests(s: seq<Elem>, pos: nat, npos: nat)
      requires StrictWeakOrder(less) && pos < |s| && OrderBelow(less, s, pos)
      requires 0 < npos < |s| && Parent(npos) == pos && less(s[pos], s[npos])
      requires forall j :: 0 < j < |s| && Parent(j) == pos ==> !less(s[j], s[npos])
      ensures HeapOrder(less, s)
    {
      forall j | 0 < j < |s| ensures AfterParent(less, s, j) {
        if Parent(j) == pos {
          Before(less, s[pos], s[npos]);
          NotBefore(less, s[j], s[npos], s[pos]);
        }
      }
    }

    lemma AtBottom(s: seq<Elem>, pos: nat)
      requires pos < |s| <= 2 * pos + 1 && OrderBelow(less, s, pos)
      ensures HeapOrder(less, s)
    {
    }

    // ---- the operations ----

    method Push(elem: Elem)
      requires StrictWeakOrder(less) && Valid()
      modifies this`data, this`size, data
      ensures Valid() && multiset(Contents()) == multiset(old(Contents())) + multiset{elem}
      ensures data == old(data) || fresh(data)
    {
      Reserve(size + 1);
      data[size] := elem;
      size := size + 1;
      assert Contents() == old(Contents()) + [elem];
      Appended(old(Contents()), elem);
      FixUp(size - 1);
    }

    lemma Appended(s: seq<Elem>, elem: Elem)
      requires HeapOrder(less, s)
      ensures OrderAbove(less, s + [elem], |s|)
    {
      forall j | 0 < j < |s| ensures AfterParent(less, s + [elem], j) {
        assert AfterParent(less, s, j);
      }
    }

    method Top() returns (elem: Elem)
      requires StrictWeakOrder(less) && Valid() && size > 0
      ensures elem == Contents()[0] && forall x :: x in Contents() ==> !less(x, elem)
    {
      elem := data[0];
      forall i | 0 <= i < size ensures !less(Contents()[i], elem) {
        TopIsLeast(less, Contents(), i);
      }
    }

    /** Remove the first element. */
    method Pop()
      requires StrictWeakOrder(less) && Valid() && size > 0
      modifies this`data, this`size, data
      ensures Valid() && size == old(size) - 1 && (data == old(data) || fresh(data))
      ensures multiset(old(Contents())) == multiset(Contents()) + multiset{old(Contents()[0])}
    {
      hide StrictWeakOrder, OrderBelow, HeapOrder, Contents;
      ghost var s := Contents();
      ContentsSize();
      LastToTop(s);
      MoveLast();
      ContentsSize();
      if size > 0 {
        FixDown(0);
      }
    }

    /** Put the last element first and drop the old first one. */
    method MoveLast()
      requires 0 < size <= data.Length
      modifies this`data, this`size, data
      ensures size == old(size) - 1 && size < data.Length && (data == old(data) || fresh(data))
      ensures Contents() == Swapped(old(Contents()), 0, |old(Contents())| - 1)[..|old(Contents())| - 1]
    {
      ghost var s := Contents();
      SwapElem(0, size - 1);
      assert Contents()[..size - 1] == Swapped(s, 0, |s| - 1)[..|s| - 1];
      size := size - 1;
    }

    lemma LastToTop(s: seq<Elem>)
      requires HeapOrder(less, s) && s != []
      ensures var t := Swapped(s, 0, |s| - 1)[..|s| - 1];
              && multiset(s) == multiset(t) + multiset{s[0]}
              && (if t == [] then HeapOrder(less, t) else OrderBelow(less, t, 0))
    {
      var w := Swapped(s, 0, |s| - 1);
      SwappedSame(s, 0, |s| - 1);
      assert w == w[..|s| - 1] + [s[0]];
      forall j | 0 < j < |s| - 1 && Parent(j) != 0 ensures AfterParent(less, w[..|s| - 1], j) {
        assert AfterParent(less, s, j);
      }
    }
  }

  /** No element is preceded by a later one. */
  ghost predicate InOrder(less: Less, s: seq<Elem>) {
    forall i, j :: 0 <= i < j < |s| ==> !less(s[j], s[i])
  }

  method PushAll(heap: Heap, elems: seq<Elem>)
    requires StrictWeakOrder(heap.less) && heap.Valid()
    modifies heap, heap.data
    ensures heap.Valid() && (heap.data == old(heap.data) || fresh(heap.data))
    ensures multiset(heap.Contents()) == multiset(old(heap.Contents())) + multiset(elems)
  {
    hide StrictWeakOrder, Heap.Valid, Heap.Contents;
    ValidSize(heap);
    for i := 0 to |elems|
      invariant heap.Valid() && (heap.data == old(heap.data) || fresh(heap.data)) && heap.size <= heap.data.Length
      invariant multiset(heap.Contents()) == multiset(old(heap.Contents())) + multiset(elems[..i])
    {
      assert elems[..i + 1] == elems[..i] + [elems[i]];
      heap.Push(elems[i]);
      ValidSize(heap);
    }
    assert elems[..|elems|] == elems;
  }

  /** Popping until nothing is left gives the elements in order. */
  method PopAll(heap: Heap) returns (out: seq<Elem>)
    requires StrictWeakOrder(heap.less) && heap.Valid()
    modifies heap, heap.data
    ensures heap.Valid() && heap.size == 0 && (heap.data == old(heap.data) || fresh(heap.data))
    ensures multiset(out) == multiset(old(heap.Contents())) && InOrder(heap.less, out)
  {
    hide StrictWeakOrder, Heap.Valid, Heap.Contents;
    ValidSize(heap);
    out := [];
    while heap.size > 0
      invariant heap.Valid() && (heap.data == old(heap.data) || fresh(heap.data)) && heap.size <= heap.data.Length
      invariant multiset(out) + multiset(heap.Contents()) == multiset(old(heap.Contents()))
      invariant InOrder(heap.less, out) && NoneBefore(heap.less, heap.Contents(), out)
      decreases heap.size
    {
      heap.ContentsSize();
      var elem := heap.Top();
      ghost var before := heap.Contents();
      heap.Pop();
      ValidSize(heap);
      Removed(heap.less, before, heap.Contents(), elem, out);
      out := out + [elem];
    }
    heap.ContentsSize();
    assert multiset(out) == multiset(out) + multiset(heap.Contents());
  }

  /** No element of s precedes one of t. */
  ghost predicate NoneBefore(less: Less, s: seq<Elem>, t: seq<Elem>) {
    forall x, y :: x in t && y in s ==> !less(y, x)
  }

  lemma Removed(less: Less, before: seq<Elem>, after: seq<Elem>, elem: Elem, out: seq<Elem>)
    requires multiset(before) == multiset(after) + multiset{elem} && elem in before
    requires InOrder(less, out) && NoneBefore(less, before, out)
    requires forall x :: x in before ==> !less(x, elem)
    ensures NoneBefore(less, after, out + [elem]) && InOrder(less, out + [elem])
    ensures multiset(out + [elem]) + multiset(after) == multiset(out) + multiset(before)
  {
    forall y | y in after ensures y in before {
      assert y in multiset(after) && y in multiset(before);
    }
  }

  /** Sorting by way of the heap. */
  method PushAllPopAll(heap: Heap, elems: seq<Elem>) returns (out: seq<Elem>)
    requires StrictWeakOrder(heap.less) && heap.Valid() && heap.size == 0
    modifies heap, heap.data
    ensures heap.Valid() && heap.size == 0
    ensures multiset(out) == multiset(elems) && InOrder(heap.less, out)
  {
    hide StrictWeakOrder, Heap.Valid;
    ValidSize(heap);
    PushAll(heap, elems);
    ValidSize(heap);
    out := PopAll(heap);
  }

  lemma ValidSize(heap: Heap)
    requires heap.Valid()
    ensures heap.size <= heap.data.Length && heap.data.Length >= 1
  {
  }
}
