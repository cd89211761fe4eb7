/** Container elements are abstract values; their order is a parameter. */
module Elements {

  /** The element type of a container instance. */
  type Elem(!new, ==, 0)

  type Less = (Elem, Elem) -> bool

  /** Irreflexive, transitive, and with transitive equivalence, on three elements. */
  ghost predicate OrderedTriple(less: Less, a: Elem, b: Elem, c: Elem) {
    && !less(a, a)
    && (less(a, b) && less(b, c) ==> less(a, c))
    && (less(a, c) ==> less(a, b) || less(b, c))
  }

  /** What a comparison must satisfy for an ordered container to work. */
  ghost predicate StrictWeakOrder(less: Less) {
    forall a, b, c :: OrderedTriple(less, a, b, c)
  }

  /** Neither element precedes the other. */
  predicate Equiv(less: Less, a: Elem, b: Elem) {
    !less(a, b) && !less(b, a)
  }

  /** Every element precedes `v`. */
  ghost predicate AllBelow(less: Less, s: seq<Elem>, v: Elem) {
    forall i :: 0 <= i < |s| ==> less(s[i], v)
  }

  /** `v` precedes every element. */
  ghost predicate AllAbove(less: Less, v: Elem, s: seq<Elem>) {
    forall i :: 0 <= i < |s| ==> less(v, s[i])
  }

  /** Strictly increasing. */
  ghost predicate Sorted(less: Less, s: seq<Elem>) {
    forall i, j :: 0 <= i < j < |s| ==> less(s[i], s[j])
  }
}
