/** What an ordered container promises, stated on its sorted contents alone. */
module SortedSpec {
  import opened Basics
  import opened Elements

  /** How many leading elements precede `v`. */
  function Rank(less: Less, s: seq<Elem>, v: Elem): (r: nat)
    ensures r <= |s|
    ensures forall i :: 0 <= i < r ==> less(s[i], v)
    ensures r < |s| ==> !less(s[r], v)
  {
    if s == [] || !less(s[0], v) then 0 else 1 + Rank(less, s[1..], v)
  }

  predicate Present(less: Less, s: seq<Elem>, v: Elem) {
    var r := Rank(less, s, v);
    r < |s| && Equiv(less, s[r], v)
  }

  /** The stored element equivalent to `v`. */
  function Lookup(less: Less, s: seq<Elem>, v: Elem): Option<Elem> {
    if Present(less, s, v) then Some(s[Rank(less, s, v)]) else None
  }

  /** Overwrite the equivalent element, or add one in its place. */
  function Inserted(less: Less, s: seq<Elem>, v: Elem): seq<Elem> {
    var r := Rank(less, s, v);
    if Present(less, s, v) then s[r := v] else s[..r] + [v] + s[r..]
  }

  /** Drop the equivalent element, if any. */
  function Erased(less: Less, s: seq<Elem>, v: Elem): seq<Elem> {
    if Present(less, s, v) then RemoveAt(s, Rank(less, s, v)) else s
  }

  /** Where a descent ends tells the rank. */
  lemma RankAt(less: Less, s: seq<Elem>, v: Elem, r: nat)
    requires r <= |s|
    requires forall i :: 0 <= i < r ==> less(s[i], v)
    requires r < |s| ==> !less(s[r], v)
    ensures Rank(less, s, v) == r
  {
  }

  /** In a sorted sequence, an equivalent element is found exactly when there is one. */
  lemma PresentIff(less: Less, s: seq<Elem>, v: Elem)
    requires StrictWeakOrder(less) && Sorted(less, s)
    ensures Present(less, s, v) <==> exists i :: 0 <= i < |s| && Equiv(less, s[i], v)
  {
    if i :| 0 <= i < |s| && Equiv(less, s[i], v) {
      forall j | 0 <= j < i ensures less(s[j], v) {
        assert less(s[j], s[i]) && OrderedTriple(less, s[j], v, s[i]);
      }
      RankAt(less, s, v, i);
    }
  }

  lemma InsertedSorted(less: Less, s: seq<Elem>, v: Elem)
    requires StrictWeakOrder(less) && Sorted(less, s)
    ensures Sorted(less, Inserted(less, s, v))
  {
    var r, t := Rank(less, s, v), Inserted(less, s, v);
    var k := if Present(less, s, v) then r + 1 else r;
    forall i | k <= i < |s| ensures less(v, s[i]) {
      if i > r { assert less(s[r], s[i]) && OrderedTriple(less, v, s[r], s[i]) && OrderedTriple(less, s[r], v, s[i]); }
    }
    assert t == s[..r] + [v] + s[k..];
    forall i, j | 0 <= i < j < |t| ensures less(t[i], t[j]) {
      assert i < r ==> t[i] == s[i];
      assert j > r ==> t[j] == s[k + (j - r - 1)];
      assert i > r ==> t[i] == s[k + (i - r - 1)];
    }
  }

  lemma ErasedSorted(less: Less, s: seq<Elem>, v: Elem)
    requires Sorted(less, s)
    ensures Sorted(less, Erased(less, s, v))
  {
  }

  // ---- whole runs ----

  datatype Op = Insert(v: Elem) | Erase(v: Elem) | Clear

  function Apply(less: Less, s: seq<Elem>, op: Op): seq<Elem> {
    match op
    case Insert(v) => Inserted(less, s, v)
    case Erase(v) => Erased(less, s, v)
    case Clear => []
  }

  /** The contents after a run that starts empty. */
  function Run(less: Less, ops: seq<Op>): seq<Elem> {
    if ops == [] then [] else Apply(less, Run(less, ops[..|ops| - 1]), ops[|ops| - 1])
  }

  /** The independent reading of a run as a map: the last operation on the class of `v` decides. */
  function LastWrite(less: Less, ops: seq<Op>, v: Elem): Option<Elem> {
    if ops == [] then None
    else
      var op := ops[|ops| - 1];
      if op.Clear? then None
      else if Equiv(less, op.v, v) then (if op.Insert? then Some(op.v) else None)
      else LastWrite(less, ops[..|ops| - 1], v)
  }

  lemma EquivCongruence(less: Less, a: Elem, b: Elem, c: Elem)
    requires StrictWeakOrder(less) && Equiv(less, a, b)
    ensures less(a, c) <==> less(b, c)
    ensures less(c, a) <==> less(c, b)
  {
    assert OrderedTriple(less, a, b, c) && OrderedTriple(less, b, a, c);
    assert OrderedTriple(less, c, b, a) && OrderedTriple(less, c, a, b);
  }

  lemma EquivChain(less: Less, a: Elem, b: Elem, c: Elem)
    requires StrictWeakOrder(less) && Equiv(less, a, b)
    ensures Equiv(less, a, c) <==> Equiv(less, b, c)
  {
    EquivCongruence(less, a, b, c);
  }

  /** Lookup finds the only element of the class. */
  lemma Finds(less: Less, s: seq<Elem>, v: Elem, i: nat)
    requires StrictWeakOrder(less) && Sorted(less, s) && i < |s| && Equiv(less, s[i], v)
    ensures Lookup(less, s, v) == Some(s[i])
  {
    forall j | 0 <= j < i ensures less(s[j], v) {
      assert less(s[j], s[i]) && OrderedTriple(less, s[j], v, s[i]);
    }
    RankAt(less, s, v, i);
  }

  lemma FindsNone(less: Less, s: seq<Elem>, v: Elem)
    requires forall i :: 0 <= i < |s| ==> !Equiv(less, s[i], v)
    ensures Lookup(less, s, v) == None
  {
  }

  /** Every element of t with that class is one of s, and the other way round. */
  ghost predicate SameClass(less: Less, s: seq<Elem>, t: seq<Elem>, v: Elem) {
    && (forall i :: 0 <= i < |s| && Equiv(less, s[i], v) ==> s[i] in t)
    && (forall i :: 0 <= i < |t| && Equiv(less, t[i], v) ==> t[i] in s)
  }

  lemma FindsSame(less: Less, s: seq<Elem>, t: seq<Elem>, v: Elem)
    requires StrictWeakOrder(less) && Sorted(less, s) && Sorted(less, t) && SameClass(less, s, t, v)
    ensures Lookup(less, t, v) == Lookup(less, s, v)
  {
    hide Lookup, StrictWeakOrder, Sorted;
    if i :| 0 <= i < |s| && Equiv(less, s[i], v) {
      var j :| 0 <= j < |t| && t[j] == s[i];
      Finds(less, s, v, i);
      Finds(less, t, v, j);
    } else {
      FindsNone(less, s, v);
      FindsNone(less, t, v);
    }
  }

  /** Insertion is visible under its own class and nowhere else. */
  lemma LookupInserted(less: Less, s: seq<Elem>, x: Elem, v: Elem)
    requires StrictWeakOrder(less) && Sorted(less, s)
    ensures Lookup(less, Inserted(less, s, x), v) ==
            if Equiv(less, x, v) then Some(x) else Lookup(less, s, v)
  {
    hide Lookup, StrictWeakOrder, Sorted, Rank, Equiv;
    var t, r := Inserted(less, s, x), Rank(less, s, x);
    InsertedSorted(less, s, x);
    assert t[r] == x;
    if Equiv(less, x, v) {
      Finds(less, t, v, r);
    } else {
      if Present(less, s, x) {
        EquivChain(less, s[r], x, v);
      }
      InsertedElsewhere(less, s, x, v);
      FindsSame(less, s, t, v);
    }
  }

  lemma InsertedElsewhere(less: Less, s: seq<Elem>, x: Elem, v: Elem)
    requires !Equiv(less, x, v) && (Present(less, s, x) ==> !Equiv(less, s[Rank(less, s, x)], v))
    ensures SameClass(less, s, Inserted(less, s, x), v)
  {
    hide Rank, Equiv;
    var t, r := Inserted(less, s, x), Rank(less, s, x);
    forall i | 0 <= i < |s| && Equiv(less, s[i], v) ensures s[i] in t {
      assert s[i] == if Present(less, s, x) || i < r then t[i] else t[i + 1];
    }
  }

  /** Erasure is visible under its own class and nowhere else. */
  lemma LookupErased(less: Less, s: seq<Elem>, x: Elem, v: Elem)
    requires StrictWeakOrder(less) && Sorted(less, s)
    ensures Lookup(less, Erased(less, s, x), v) ==
            if Equiv(less, x, v) then None else Lookup(less, s, v)
  {
    hide Lookup, StrictWeakOrder, Sorted, Rank, Equiv;
    ErasedSorted(less, s, x);
    if Equiv(less, x, v) {
      ErasedClass(less, s, x, v);
      FindsNone(less, Erased(less, s, x), v);
    } else {
      if Present(less, s, x) {
        EquivChain(less, s[Rank(less, s, x)], x, v);
      }
      ErasedElsewhere(less, s, x, v);
      FindsSame(less, s, Erased(less, s, x), v);
    }
  }

  lemma ErasedClass(less: Less, s: seq<Elem>, x: Elem, v: Elem)
    requires StrictWeakOrder(less) && Sorted(less, s) && Equiv(less, x, v)
    ensures var e := Erased(less, s, x); forall i :: 0 <= i < |e| ==> !Equiv(less, e[i], v)
  {
    hide StrictWeakOrder, Rank;
    var e, r := Erased(less, s, x), Rank(less, s, x);
    PresentIff(less, s, x);
    forall i | 0 <= i < |e| ensures !Equiv(less, e[i], v) {
      EquivChain(less, x, v, e[i]);
      if Present(less, s, x) {
        EquivChain(less, s[r], x, e[i]);
      }
    }
  }

  lemma ErasedElsewhere(less: Less, s: seq<Elem>, x: Elem, v: Elem)
    requires Present(less, s, x) ==> !Equiv(less, s[Rank(less, s, x)], v)
    ensures SameClass(less, s, Erased(less, s, x), v)
  {
    hide Rank, Equiv;
    var e, r := Erased(less, s, x), Rank(less, s, x);
    forall i | 0 <= i < |s| && Equiv(less, s[i], v) ensures s[i] in e {
      assert s[i] == if !Present(less, s, x) || i < r then e[i] else e[i - 1];
    }
  }

  /** Over every run, lookup agrees with the abstract map, and the contents stay sorted. */
  lemma {:induction false} RunAgreesWithMap(less: Less, ops: seq<Op>, v: Elem)
    requires StrictWeakOrder(less)
    ensures Sorted(less, Run(less, ops))
    ensures Lookup(less, Run(less, ops), v) == LastWrite(less, ops, v)
  {
    if ops != [] {
      var pre, op := ops[..|ops| - 1], ops[|ops| - 1];
      RunAgreesWithMap(less, pre, v);
      match op {
        case Insert(x) =>
          InsertedSorted(less, Run(less, pre), x);
          LookupInserted(less, Run(less, pre), x, v);
        case Erase(x) =>
          ErasedSorted(less, Run(less, pre), x);
          LookupErased(less, Run(less, pre), x, v);
        case Clear =>
      }
    }
  }
}
