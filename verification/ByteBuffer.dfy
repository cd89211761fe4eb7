/** A byte queue kept in a chain of pooled units. */
module ByteBuffer {
  import opened Basics
  import opened ObjPool

  // ---- the bytes of a chain ----

  ghost function Used(u: Unit): seq<byte>
    reads u`rptr, u`wptr, u`data
  {
    if u.rptr <= u.wptr <= |u.data| then u.data[u.rptr..u.wptr] else []
  }

  ghost function Bytes(s: seq<Unit>): seq<byte>
    reads s`rptr, s`wptr, s`data
  {
    if s == [] then [] else Used(s[0]) + Bytes(s[1..])
  }

  lemma {:induction false} BytesConcat(s: seq<Unit>, t: seq<Unit>)
    ensures Bytes(s + t) == Bytes(s) + Bytes(t)
  {
    if s == [] {
      assert s + t == t;
    } else {
      assert (s + t)[1..] == s[1..] + t;
      BytesConcat(s[1..], t);
    }
  }

  lemma BytesOne(u: Unit)
    ensures Bytes([u]) == Used(u)
  {
    assert [u][1..] == [];
  }

  /** The chain up to its last unit, and the last unit. */
  lemma {:induction false} BytesLast(s: seq<Unit>)
    requires s != []
    ensures Bytes(s) == Bytes(s[..|s| - 1]) + Used(s[|s| - 1])
  {
    assert s == s[..|s| - 1] + [s[|s| - 1]];
    BytesConcat(s[..|s| - 1], [s[|s| - 1]]);
    BytesOne(s[|s| - 1]);
  }

  /** Where reading goes on in the first unit. */
  ghost function Offset(s: seq<Unit>): nat
    reads s`rptr
  {
    if s == [] then 0 else s[0].rptr
  }

  /** Where writing goes on: in the last unit, or at the start of a further one. */
  ghost function Fill(b: Buffer): nat
    reads b`chain, b.chain`wptr
  {
    if b.chain == [] || b.chain[|b.chain| - 1].wptr == b.unit_size then 0 else b.chain[|b.chain| - 1].wptr
  }

  /** What a buffer holds, and how its bytes lie in its units. */
  datatype Content = Content(bytes: seq<byte>, offset: nat, fill: nat)

  ghost function ContentOf(b: Buffer): Content
    reads b`chain, b.chain`rptr, b.chain`wptr, b.chain`data
  {
    Content(Bytes(b.chain), Offset(b.chain), Fill(b))
  }

  // ---- the chain invariant ----

  /** Only the first unit may have been read from, and only the last may have room. An empty unit is cleared. */
  ghost predicate UnitOk(s: seq<Unit>, i: int, size: nat)
    requires 0 <= i < |s|
    reads s`rptr, s`wptr, s`size, s`data
  {
    var u := s[i];
    && u.size == size <= |u.data| && u.rptr <= u.wptr <= size
    && (i > 0 ==> u.rptr == 0) && (i < |s| - 1 ==> u.wptr == size) && (u.rptr == u.wptr ==> u.wptr == 0)
  }

  ghost predicate Filled(s: seq<Unit>, size: nat)
    reads s`rptr, s`wptr, s`size, s`data
  {
    forall i :: 0 <= i < |s| ==> UnitOk(s, i, size)
  }

  /** The pool is consistent and every chain drawn from it satisfies the chain invariant. */
  ghost predicate Ready(pool: Pool)
    reads pool, pool.idle`next, pool.users, pool.owner.Keys, set b, u | b in pool.users && u in b.chain :: u
  {
    && pool.Valid({})
    && (forall u :: u in pool.owner.Keys ==> |u.data| == pool.objsize)
    && (forall b :: b in pool.users ==> FilledBuffer(b))
  }

  ghost predicate FilledBuffer(b: Buffer)
    reads b`chain, b.chain`rptr, b.chain`wptr, b.chain`size, b.chain`data
  {
    1 <= b.unit_size <= b.pool.objsize && Filled(b.chain, b.unit_size)
  }

  /** Work on `b` touches no unit of another buffer. */
  lemma Apart(b: Buffer)
    requires b.pool.UsersOk() && b in b.pool.users
    ensures forall c :: c in b.pool.users && c != b ==> Elems(c.chain) !! b.pool.Footprint(b)
    ensures Elems(b.chain) <= b.pool.Footprint(b)
  {
  }

  lemma NextMultiple(n: int, size: int)
    ensures (n + 1) * size == n * size + size
  {
  }

  /** All full units but the first and the last: the length is a product. */
  lemma {:induction false} FullLength(s: seq<Unit>, size: nat)
    requires forall i :: 0 <= i < |s| ==> |Used(s[i])| == size
    ensures |Bytes(s)| == |s| * size
  {
    if s != [] {
      FullLength(s[1..], size);
      NextMultiple(|s| - 1, size);
      assert |Bytes(s)| == |Used(s[0])| + |Bytes(s[1..])|;
    }
  }

  /** The constant-time length is the true length in every state that meets the chain invariant. */
  function UsedBytes(buf: Buffer): (used: int)
    requires buf.Chained() && Filled(buf.chain, buf.unit_size)
    reads buf, buf.chain
    ensures used == |Bytes(buf.chain)|
  {
    LengthFormula(buf.chain, buf.unit_size);
    assert forall i :: 0 <= i < |buf.chain| ==> UnitOk(buf.chain, i, buf.unit_size);
    (if buf.unit_head != null then buf.unit_head.wptr - buf.unit_head.rptr else 0)
    + (if buf.unit_cnt > 1
       then buf.unit_tail.wptr - buf.unit_tail.rptr + (buf.unit_cnt - 2) * buf.unit_size
       else 0)
  }

  lemma {:induction false} LengthFormula(s: seq<Unit>, size: nat)
    requires Filled(s, size)
    ensures s == [] ==> |Bytes(s)| == 0
    ensures |s| == 1 ==> |Bytes(s)| == s[0].wptr - s[0].rptr
    ensures |s| > 1 ==>
              var t := s[|s| - 1];
              |Bytes(s)| == (s[0].wptr - s[0].rptr) + (t.wptr - t.rptr) + (|s| - 2) * size
  {
    if s != [] {
      assert UnitOk(s, 0, size) && UnitOk(s, |s| - 1, size);
      if |s| == 1 {
        BytesOne(s[0]);
        assert s == [s[0]];
      } else {
        var m := s[1..|s| - 1];
        forall i | 0 <= i < |m| ensures |Used(m[i])| == size {
          assert m[i] == s[i + 1] && UnitOk(s, i + 1, size);
        }
        FullLength(m, size);
        assert |m| == |s| - 2;
        BytesLast(s);
        assert s[..|s| - 1][1..] == m;
      }
    }
  }

  // ---- taking a unit, and writing ----

  method ClearUnit(u: Unit)
    modifies u`rptr, u`wptr
    ensures u.rptr == u.wptr == 0
  {
    u.rptr := 0;
    u.wptr := 0;
  }

  /** A cleared unit from the pool; no unit of a chain is touched. */
  method GetUnit(b: Buffer) returns (unit: Unit)
    requires Ready(b.pool) && b in b.pool.users
    modifies b.pool, b.pool.OwnedBy(null)
    ensures b.pool.Valid({unit}) && b.pool.users == old(b.pool.users)
    ensures unit in b.pool.owner.Keys && b.pool.owner[unit] == null
    ensures old(b.pool.owner.Keys) <= b.pool.owner.Keys
    ensures forall u :: u in b.pool.owner.Keys && u !in old(b.pool.owner.Keys) ==> fresh(u)
    ensures forall u :: u in b.pool.owner.Keys ==>
              b.pool.owner[u] == (if u in old(b.pool.owner).Keys then old(b.pool.owner)[u] else null)
    ensures unit.next == null && unit.size == b.unit_size && unit.rptr == unit.wptr == 0
    ensures forall u :: u in b.pool.owner.Keys ==> |u.data| == b.pool.objsize
    ensures forall c :: c in b.pool.users ==> FilledBuffer(c) && ContentOf(c) == old(ContentOf(c))
  {
    hide Pool.Valid, Filled, Bytes, Used;
    b.pool.ChainsOwned({});
    unit := b.pool.Get();
    unit.size := b.unit_size;
    ClearUnit(unit);
    forall c | c in b.pool.users ensures FilledBuffer(c) && ContentOf(c) == old(ContentOf(c)) {
      assert old(FilledBuffer(c)) && Elems(c.chain) == old(b.pool.OwnedBy(c)) && unit !in Elems(c.chain);
    }
  }

  /** A cleared unit from the pool, linked behind the tail. */
  method AppendUnit(b: Buffer)
    requires Ready(b.pool) && b in b.pool.users
    requires b.chain == [] || b.chain[|b.chain| - 1].wptr == b.unit_size
    modifies b.pool, b, b.pool.Footprint(b)
    ensures Ready(b.pool) && b.pool.users == old(b.pool.users)
    ensures forall u :: u in b.pool.Footprint(b) && u !in old(b.pool.Footprint(b)) ==> fresh(u)
    ensures forall u :: u in b.pool.owner.Keys && u !in old(b.pool.owner.Keys) ==> fresh(u)
    ensures b.unit_tail != null && b.chain == old(b.chain) + [b.unit_tail] && b.unit_tail.wptr == 0
    ensures Bytes(b.chain) == old(Bytes(b.chain)) && Offset(b.chain) == old(Offset(b.chain))
  {
    hide Ready, Pool.Valid, FilledBuffer, Filled, Bytes, Used, ContentOf, Offset, Threaded, NoDup;
    ReadyPool(b);
    var unit := GetUnit(b);
    LinkTail(b, unit);
  }

  /** Link a cleared unit behind the tail. */
  method LinkTail(b: Buffer, unit: Unit)
    requires b in b.pool.users && b.pool.Valid({unit}) && unit.next == null && unit.rptr == unit.wptr == 0
    requires unit.size == b.unit_size && forall u :: u in b.pool.owner.Keys ==> |u.data| == b.pool.objsize
    requires unit in b.pool.owner.Keys && forall c :: c in b.pool.users ==> FilledBuffer(c)
    requires b.chain == [] || b.chain[|b.chain| - 1].wptr == b.unit_size
    modifies b.pool`owner, b, (if b.chain == [] then {} else {b.chain[|b.chain| - 1]})`next
    ensures Ready(b.pool) && b.pool.owner == old(b.pool.owner)[unit := b]
    ensures b.unit_tail == unit && b.chain == old(b.chain) + [unit]
    ensures Bytes(b.chain) == old(Bytes(b.chain)) && Offset(b.chain) == old(Offset(b.chain))
  {
    hide Ready, Pool.Valid, FilledBuffer, Filled, Bytes, Used, Offset, Threaded, NoDup;
    ghost var s := b.chain;
    FilledParts(b);
    b.pool.LinkUnit(b, unit);
    b.pool.ChainsOwned({});
    EmptyAtEnd(b, s, unit);
    AllReady(b);
  }

  lemma ReadyPool(b: Buffer)
    requires Ready(b.pool) && b in b.pool.users
    ensures b.pool.Valid({}) && Elems(b.pool.idle) <= b.pool.OwnedBy(null)
    ensures forall c :: c in b.pool.users ==> Elems(c.chain) == b.pool.OwnedBy(c) && c.Chained()
  {
    b.pool.ChainsOwned({});
  }

  lemma FilledParts(b: Buffer)
    requires FilledBuffer(b)
    ensures 1 <= b.unit_size <= b.pool.objsize && Filled(b.chain, b.unit_size)
  {
  }

  lemma EmptyAtEnd(b: Buffer, s: seq<Unit>, u: Unit)
    requires 1 <= b.unit_size <= b.pool.objsize && Filled(s, b.unit_size) && b.chain == s + [u]
    requires u.size == b.unit_size <= |u.data| && u.rptr == u.wptr == 0
    requires s == [] || s[|s| - 1].wptr == b.unit_size
    ensures FilledBuffer(b) && Bytes(b.chain) == Bytes(s) && Offset(b.chain) == Offset(s)
  {
    BytesConcat(s, [u]);
    BytesOne(u);
    forall i | 0 <= i < |s| + 1 ensures UnitOk(s + [u], i, b.unit_size) {
      if i < |s| { assert UnitOk(s, i, b.unit_size); }
    }
  }

  /** Copy as much of `src` into the unit as fits. */
  method WriteUnit(u: Unit, src: seq<byte>) returns (wrtsz: nat)
    requires u.rptr <= u.wptr <= u.size <= |u.data|
    modifies u`wptr, u`data
    ensures wrtsz == Min(|src|, u.size - old(u.wptr)) && u.wptr == old(u.wptr) + wrtsz <= u.size
    ensures |u.data| == old(|u.data|) && Used(u) == old(Used(u)) + src[..wrtsz]
  {
    wrtsz := Min(|src|, u.size - u.wptr);
    u.data := u.data[..u.wptr] + src[..wrtsz] + u.data[u.wptr + wrtsz..];
    u.wptr := u.wptr + wrtsz;
  }

  method WriteTail(b: Buffer, src: seq<byte>) returns (wrtsz: nat)
    requires Ready(b.pool) && b in b.pool.users && b.unit_tail != null
    modifies b.unit_tail`wptr, b.unit_tail`data
    ensures Ready(b.pool) && b.unit_tail.wptr <= b.unit_size
    ensures wrtsz == Min(|src|, b.unit_size - old(b.unit_tail.wptr))
    ensures b.unit_tail.wptr == old(b.unit_tail.wptr) + wrtsz
    ensures Bytes(b.chain) == old(Bytes(b.chain)) + src[..wrtsz] && Offset(b.chain) == old(Offset(b.chain))
  {
    hide Pool.Valid, FilledBuffer, Bytes, Used;
    b.pool.ChainsOwned({});
    FilledParts(b);
    var u := b.unit_tail;
    assert UnitOk(b.chain, |b.chain| - 1, b.unit_size);
    assert u in Elems(b.chain);
    assert forall c :: c in b.pool.users && c != b ==> u !in Elems(c.chain);
    BytesLast(b.chain);
    ghost var init := b.chain[..|b.chain| - 1];
    assert u !in init;
    wrtsz := WriteUnit(u, src);
    BytesLast(b.chain);
    TailGrown(b);
  }

  twostate lemma TailGrown(b: Buffer)
    requires old(b.Chained()) && b.chain == old(b.chain) && b.unit_tail == old(b.unit_tail) && b.unit_tail != null
    requires 1 <= b.unit_size <= b.pool.objsize && old(Filled(b.chain, b.unit_size))
    requires b.unit_tail.rptr == old(b.unit_tail.rptr) <= b.unit_tail.wptr <= b.unit_size <= |b.unit_tail.data|
    requires b.unit_tail.size == old(b.unit_tail.size)
    requires b.unit_tail.rptr == b.unit_tail.wptr ==> b.unit_tail.wptr == 0
    requires forall i :: 0 <= i < |b.chain| - 1 ==>
               var u := b.chain[i];
               u.rptr == old(u.rptr) && u.wptr == old(u.wptr) && u.size == old(u.size) && u.data == old(u.data)
    ensures FilledBuffer(b)
  {
    forall i | 0 <= i < |b.chain| ensures UnitOk(b.chain, i, b.unit_size) {
      assert old(UnitOk(b.chain, i, b.unit_size));
    }
  }

  /** The first unit, if there is none yet. */
  method FirstUnit(b: Buffer)
    requires Ready(b.pool) && b in b.pool.users
    modifies b.pool, b, b.pool.Footprint(b)
    ensures Kept(b) && ContentOf(b) == old(ContentOf(b)) && b.unit_tail != null
    ensures Bytes(b.chain) == old(Bytes(b.chain)) && Offset(b.chain) == old(Offset(b.chain))
    ensures Fill(b) == old(Fill(b))
  {
    hide Ready, Bytes, Preimage;
    ReadyParts(b);
    if b.unit_head == null {
      AppendUnit(b);
    }
  }

  /** A further unit when the last one is full. */
  method MakeRoom(b: Buffer)
    requires Ready(b.pool) && b in b.pool.users && b.unit_tail != null
    modifies b.pool, b, b.pool.Footprint(b)
    ensures Kept(b) && ContentOf(b) == old(ContentOf(b))
    ensures b.unit_tail != null && b.unit_tail.wptr == old(Fill(b)) < b.unit_size
  {
    hide Ready, Bytes, Preimage;
    ReadyParts(b);
    if b.unit_size - b.unit_tail.wptr == 0 {
      AppendUnit(b);
    }
  }

  /** The pool and the other buffers after work on `b`. */
  twostate predicate Kept(b: Buffer)
    reads b.pool, b.pool.idle`next, b.pool.users, b.pool.owner.Keys, set c, u | c in b.pool.users && u in c.chain :: u
  {
    && Ready(b.pool) && b.pool.users == old(b.pool.users)
    && (forall u :: u in b.pool.Footprint(b) && u !in old(b.pool.Footprint(b)) ==> fresh(u))
    && (forall u :: u in b.pool.owner.Keys && u !in old(b.pool.owner.Keys) ==> fresh(u))
    && (forall c :: c in b.pool.users && c != b ==> ContentOf(c) == old(ContentOf(c)))
  }

  /** Copy into the room of the last unit. */
  method FillTail(b: Buffer, src: seq<byte>) returns (wrtsz: nat)
    requires Ready(b.pool) && b in b.pool.users && b.unit_tail != null && b.unit_tail.wptr < b.unit_size
    modifies b.pool, b, b.pool.Footprint(b)
    ensures Kept(b) && wrtsz == Min(|src|, b.unit_size - old(b.unit_tail.wptr)) && (src != [] ==> wrtsz > 0)
    ensures b.unit_tail != null && b.unit_tail.wptr == old(b.unit_tail.wptr) + wrtsz <= b.unit_size
    ensures Bytes(b.chain) == old(Bytes(b.chain)) + src[..wrtsz] && Offset(b.chain) == old(Offset(b.chain))
  {
    hide Ready, Bytes, Preimage;
    ReadyParts(b);
    wrtsz := WriteTail(b, src);
  }

  method WriteSome(b: Buffer, src: seq<byte>) returns (wrtsz: nat)
    requires Ready(b.pool) && b in b.pool.users && b.unit_tail != null
    modifies b.pool, b, b.pool.Footprint(b)
    ensures Kept(b) && b.unit_tail != null && wrtsz <= |src| && (src != [] ==> wrtsz > 0)
    ensures Bytes(b.chain) == old(Bytes(b.chain)) + src[..wrtsz] && Offset(b.chain) == old(Offset(b.chain))
  {
    hide Ready, Bytes, Preimage;
    MakeRoom(b);
    wrtsz := FillTail(b, src);
  }

  /** Append all of `src`; other buffers of the pool keep their bytes. */
  method Write(b: Buffer, src: seq<byte>) returns (wrtsz: nat)
    requires Ready(b.pool) && b in b.pool.users
    modifies b.pool, b, b.pool.Footprint(b)
    ensures Kept(b) && wrtsz == |src| && Bytes(b.chain) == old(Bytes(b.chain)) + src
    ensures Offset(b.chain) == old(Offset(b.chain))
  {
    hide Ready, Bytes, Preimage, Offset, ContentOf;
    wrtsz := 0;
    FirstUnit(b);
    while wrtsz < |src|
      invariant Kept(b) && wrtsz <= |src| && b.unit_tail != null
      invariant Bytes(b.chain) == old(Bytes(b.chain)) + src[..wrtsz] && Offset(b.chain) == old(Offset(b.chain))
    {
      var n := WriteSome(b, src[wrtsz..]);
      assert src[..wrtsz + n] == src[..wrtsz] + src[wrtsz..][..n];
      wrtsz := wrtsz + n;
    }
  }

  lemma ReadyParts(b: Buffer)
    requires Ready(b.pool) && b in b.pool.users
    ensures b.unit_size >= 1 && (b.unit_head == null <==> b.chain == []) && (b.unit_tail == null <==> b.chain == [])
    ensures b.chain != [] ==> b.unit_tail == b.chain[|b.chain| - 1] && b.unit_tail in b.pool.Footprint(b)
    ensures b.chain != [] ==> b.unit_tail.wptr <= b.unit_size == b.unit_tail.size
    ensures forall c :: c in b.pool.users && c != b ==> Elems(c.chain) !! b.pool.Footprint(b)
  {
    hide Pool.Valid;
    b.pool.ChainsOwned({});
    if b.chain != [] {
      assert UnitOk(b.chain, |b.chain| - 1, b.unit_size);
      assert b.unit_tail in Elems(b.chain);
    }
  }

  // ---- reading, and returning units ----

  /** As Ready, leaving the chain of `b` open. */
  ghost predicate OthersReady(b: Buffer)
    reads b.pool, b.pool.idle`next, b.pool.users, b.pool.owner.Keys, set c, u | c in b.pool.users && u in c.chain :: u
  {
    && b.pool.Valid({}) && b in b.pool.users
    && (forall u :: u in b.pool.owner.Keys ==> |u.data| == b.pool.objsize)
    && (forall c :: c in b.pool.users && c != b ==> FilledBuffer(c))
  }

  /** Move the read position of a unit, and clear the unit once it is empty. */
  method Consume(u: Unit, n: nat) returns (emptied: bool)
    requires u.rptr <= u.wptr <= |u.data| && n <= |Used(u)|
    modifies u`rptr, u`wptr
    ensures u.rptr <= u.wptr <= old(u.wptr) && (emptied <==> n == old(|Used(u)|))
    ensures Used(u) == old(Used(u))[n..] && (!emptied ==> u.wptr == old(u.wptr) && u.rptr == old(u.rptr) + n)
    ensures emptied ==> u.rptr == u.wptr == 0
  {
    u.rptr := u.rptr + n;
    emptied := u.rptr == u.wptr;
    if emptied {
      ClearUnit(u);
    }
  }

  /** Move the read position of the first unit, and clear the unit once it is empty. */
  method TakeHead(b: Buffer, n: nat) returns (emptied: bool)
    requires Ready(b.pool) && b in b.pool.users && b.unit_head != null && n <= |Used(b.unit_head)|
    modifies b.unit_head`rptr, b.unit_head`wptr
    ensures OthersReady(b) && (emptied <==> n == old(|Used(b.unit_head)|)) && b.chain != []
    ensures emptied ==> Used(b.unit_head) == [] && b.unit_head.rptr == 0
    ensures !emptied ==> b.unit_head.rptr == old(b.unit_head.rptr) + n
    ensures 1 <= b.unit_size <= b.pool.objsize && Filled(b.chain[1..], b.unit_size)
    ensures |b.chain| > 1 ==> b.chain[1].rptr == 0
    ensures |b.chain| == 1 || !emptied ==> FilledBuffer(b)
    ensures old(Bytes(b.chain)) == old(Used(b.unit_head))[..n] + Bytes(b.chain)
  {
    hide Pool.Valid, Kept, ContentOf, FilledBuffer, Filled, Bytes, Preimage, Threaded, NoDup, Elems, Buffer.Chained;
    hide Pool.Footprint;
    HeadFacts(b);
    var u := b.unit_head;
    HeadBytes(b.chain);
    ghost var used, rest := Used(u), Bytes(b.chain[1..]);
    emptied := Consume(u, n);
    HeadBytes(b.chain);
    CutAt(used, rest, n);
    if |b.chain| == 1 || !emptied {
      HeadTaken(b);
    }
  }

  lemma HeadFacts(b: Buffer)
    requires Ready(b.pool) && b in b.pool.users && b.unit_head != null
    ensures b.chain != [] && b.chain[0] == b.unit_head && UnitOk(b.chain, 0, b.unit_size)
    ensures b.unit_head !in b.chain[1..] && forall i :: 1 <= i < |b.chain| ==> b.chain[i] != b.unit_head
    ensures b.unit_head in b.pool.Footprint(b) && forall c :: c in b.pool.users && c != b ==> b.unit_head !in c.chain
    ensures 1 <= b.unit_size <= b.pool.objsize && Filled(b.chain, b.unit_size) && Filled(b.chain[1..], b.unit_size)
    ensures |b.chain| > 1 ==> UnitOk(b.chain, 1, b.unit_size)
  {
    hide Pool.Valid;
    b.pool.ChainsOwned({});
    FilledRest(b.chain, b.unit_size);
    assert b.unit_head in Elems(b.chain);
    assert forall c :: c in b.pool.users && c != b ==> b.unit_head !in Elems(c.chain);
  }

  lemma CutAt(s: seq<byte>, t: seq<byte>, n: nat)
    requires n <= |s|
    ensures s + t == s[..n] + (s[n..] + t)
  {
  }

  lemma HeadBytes(s: seq<Unit>)
    requires s != []
    ensures Bytes(s) == Used(s[0]) + Bytes(s[1..])
  {
  }

  lemma FilledRest(s: seq<Unit>, size: nat)
    requires s != [] && Filled(s, size)
    ensures Filled(s[1..], size)
  {
    forall i | 0 <= i < |s| - 1 ensures UnitOk(s[1..], i, size) {
      assert UnitOk(s, i + 1, size);
    }
  }

  twostate lemma HeadTaken(b: Buffer)
    requires b.chain == old(b.chain) != [] && 1 <= b.unit_size <= b.pool.objsize && old(Filled(b.chain, b.unit_size))
    requires var u := b.chain[0]; u.rptr <= u.wptr <= b.unit_size && u.size == old(u.size) && |u.data| == old(|u.data|)
    requires |b.chain| == 1 || b.chain[0].wptr == old(b.chain[0].wptr)
    requires b.chain[0].rptr == b.chain[0].wptr ==> b.chain[0].wptr == 0
    requires forall i :: 1 <= i < |b.chain| ==>
               var u := b.chain[i];
               u.rptr == old(u.rptr) && u.wptr == old(u.wptr) && u.size == old(u.size) && u.data == old(u.data)
    ensures FilledBuffer(b)
  {
    forall i | 0 <= i < |b.chain| ensures UnitOk(b.chain, i, b.unit_size) {
      assert old(UnitOk(b.chain, i, b.unit_size));
    }
  }

  /** Return the emptied first unit to the pool. */
  method RemoveHead(b: Buffer)
    requires OthersReady(b) && |b.chain| >= 2 && Used(b.chain[0]) == []
    requires 1 <= b.unit_size <= b.pool.objsize && Filled(b.chain[1..], b.unit_size) && b.chain[1].rptr == 0
    modifies b.pool, b, b.pool.Footprint(b)
    ensures Kept(b) && b.chain == old(b.chain)[1..]
    ensures Bytes(b.chain) == old(Bytes(b.chain)) && Offset(b.chain) == 0
  {
    hide Ready, Pool.Valid, FilledBuffer, Filled, Bytes, Used, Preimage, Threaded, NoDup, Elems, Buffer.Chained;
    hide ContentOf;
    HeadBytes(b.chain);
    HeadOwned(b);
    HandedBack(b.pool.owner, b.chain[0], b);
    var u := b.pool.UnlinkHead(b);
    ghost var none: set<Unit> := {};
    assert none + {u} == {u};
    RemoveUnit(b, u, none);
    FilledWhole(b);
    AllReady(b);
  }

  /** A unit that goes from the buffer to the free list stays within the footprint. */
  lemma HandedBack(owner: map<Unit, Buffer?>, u: Unit, b: Buffer)
    requires u in owner.Keys && owner[u] == b
    ensures var after := owner[u := null];
            && after.Keys == owner.Keys
            && Preimage(after, null) + Preimage(after, b) == Preimage(owner, null) + Preimage(owner, b)
  {
  }

  lemma HeadOwned(b: Buffer)
    requires b.pool.Valid({}) && b in b.pool.users && |b.chain| >= 2
    ensures b.chain[0] in b.pool.owner.Keys && b.pool.owner[b.chain[0]] == b
    ensures b.chain[0] in b.pool.OwnedBy(b)
  {
    b.pool.HeadOf(b);
  }

  lemma FilledWhole(b: Buffer)
    requires 1 <= b.unit_size <= b.pool.objsize && Filled(b.chain, b.unit_size)
    ensures FilledBuffer(b)
  {
  }

  lemma FootprintHolds(b: Buffer)
    requires Ready(b.pool) && b in b.pool.users
    ensures Elems(b.chain) <= b.pool.Footprint(b) <= b.pool.owner.Keys
  {
  }

  /** Give one unit back to the pool. */
  method RemoveUnit(b: Buffer, u: Unit, ghost out: set<Unit>)
    requires b.pool.Valid(out + {u}) && u !in out
    modifies b.pool`free_elem, b.pool`idle, u`next
    ensures b.pool.Valid(out) && b.pool.idle == [u] + old(b.pool.idle)
  {
    b.pool.IdleInPool(out + {u});
    u.next := null;
    b.pool.UnownedKeepsUsers(u);
    b.pool.Free(u, out);
  }

  /**
   * Drop n bytes of the first unit; an emptied unit is returned unless it is the last. The result is
   * the unit to go on with, null once the last unit is empty.
   */
  method Advance(b: Buffer, n: nat) returns (bufu: Unit?)
    requires Ready(b.pool) && b in b.pool.users && b.unit_head != null && n <= |Used(b.unit_head)|
    modifies b.pool, b, b.pool.Footprint(b)
    ensures Kept(b) && old(Bytes(b.chain)) == old(Used(b.unit_head))[..n] + Bytes(b.chain)
    ensures b.unit_head != null && (bufu == null ==> Bytes(b.chain) == [])
    ensures bufu != null ==> bufu == b.unit_head
    ensures bufu != null && n == old(|Used(b.unit_head)|) ==> |b.chain| < |old(b.chain)|
    ensures n < old(|Used(b.unit_head)|) ==> bufu != null && b.chain == old(b.chain)
    ensures Offset(b.chain) == Onward(b.unit_size, old(Offset(b.chain)), n, |Bytes(b.chain)|)
  {
    hide Ready, OthersReady, Bytes, Used, Preimage, FilledBuffer, Filled, Buffer.Chained, Onward;
    ReadyParts(b);
    HeadFacts(b);
    HeadIs(b);
    NextUnit(b);
    OnwardIs(b.unit_size, Offset(b.chain), n);
    bufu := b.unit_head;
    var next := bufu.next;
    var emptied := TakeHead(b, n);
    if emptied {
      if next != null {
        RemoveHead(b);
        ReadyParts(b);
        HeadFacts(b);
        bufu := next;
      } else {
        AllReady(b);
        BytesOne(b.unit_head);
        assert b.chain == [b.unit_head];
        bufu := null;
      }
    } else {
      AllReady(b);
    }
  }

  /** Where reading goes on when n bytes have been taken and `left` are left. */
  function Onward(size: nat, offset: nat, n: nat, left: nat): nat
    requires size >= 1
  {
    if left == 0 then 0 else (offset + n) % size
  }

  lemma OnwardNone(size: nat, offset: nat, left: nat)
    requires offset < size && (left == 0 ==> offset == 0)
    ensures Onward(size, offset, 0, left) == offset
  {
  }

  lemma OnwardMore(size: nat, offset: nat, n: nat, m: nat, left: nat)
    requires size >= 1
    ensures Onward(size, Onward(size, offset, n, m + left), m, left) == Onward(size, offset, n + m, left)
  {
    if left > 0 {
      var x := offset + n;
      Remainder(x, m, size);
    }
  }

  lemma Remainder(x: nat, m: nat, size: nat)
    requires size >= 1
    ensures (x % size + m) % size == (x + m) % size
  {
    var q, y := x / size, x % size + m;
    assert x + m == q * size + y == q * size + (y / size) * size + y % size;
    Distributes(q, y / size, size);
    OneRemainder(q + y / size, y % size, size);
  }

  lemma Distributes(a: int, b: int, size: int)
    ensures a * size + b * size == (a + b) * size
  {
  }

  lemma OneRemainder(q: int, r: nat, size: nat)
    requires r < size
    ensures (q * size + r) % size == r
  {
    var x := q * size + r;
    var q', r' := x / size, x % size;
    Distributes(q, -q', size);
    AtLeast(q - q', size);
    AtLeast(q' - q, size);
    assert (q - q') * size == r' - r;
  }

  lemma AtLeast(d: int, size: nat)
    ensures d >= 1 ==> d * size >= size
    ensures -d * size == -(d * size)
  {
  }

  lemma OnwardIs(size: nat, offset: nat, n: nat)
    requires offset + n <= size && size >= 1
    ensures forall left: nat :: Onward(size, offset, n, left) ==
                                if left == 0 || offset + n == size then 0 else offset + n
  {
  }

  /** How much of the bytes lies in the first unit. */
  lemma HeadIs(b: Buffer)
    requires Ready(b.pool) && b in b.pool.users
    ensures Offset(b.chain) < b.unit_size && (Bytes(b.chain) == [] ==> Offset(b.chain) == 0)
    ensures b.unit_head != null ==>
              && Offset(b.chain) == b.unit_head.rptr
              && |Used(b.unit_head)| == Min(b.unit_size - Offset(b.chain), |Bytes(b.chain)|)
              && (|b.chain| > 1 ==> |Used(b.unit_head)| == b.unit_size - Offset(b.chain))
  {
    ReadyParts(b);
    if b.unit_head != null {
      HeadFacts(b);
      HeadBytes(b.chain);
      assert |b.chain| == 1 ==> b.chain[1..] == [];
    }
  }

  lemma AllReady(b: Buffer)
    requires OthersReady(b) && FilledBuffer(b)
    ensures Ready(b.pool)
  {
  }

  lemma NextUnit(b: Buffer)
    requires Ready(b.pool) && b in b.pool.users && b.unit_head != null
    ensures b.chain != [] && b.unit_head.next == (if |b.chain| > 1 then b.chain[1] else null)
  {
    b.pool.ChainsOwned({});
    assert ThreadedAt(b.chain, 0);
  }

  /** Copy out the first bytes of a unit. */
  method PeekUnit(u: Unit, readsz: nat, dstsz: nat) returns (dst: seq<byte>)
    requires u.rptr <= u.wptr <= |u.data|
    ensures dst == Used(u)[..Min(Min(readsz, dstsz), |Used(u)|)] && |Used(u)| == u.wptr - u.rptr
  {
    var n := Min(readsz, dstsz);
    n := Min(n, u.wptr - u.rptr);
    dst := u.data[u.rptr..u.rptr + n];
  }

  /** Take the first bytes out of the first unit. */
  method ReadUnit(b: Buffer, readsz: nat, dstsz: nat) returns (got: seq<byte>, bufu: Unit?)
    requires Ready(b.pool) && b in b.pool.users && b.unit_head != null && readsz > 0 && dstsz > 0
    modifies b.pool, b, b.pool.Footprint(b)
    ensures Kept(b) && old(Bytes(b.chain)) == got + Bytes(b.chain) && |got| <= Min(readsz, dstsz)
    ensures bufu == null ==> Bytes(b.chain) == []
    ensures bufu != null ==> bufu == b.unit_head && (|got| == Min(readsz, dstsz) || |b.chain| < |old(b.chain)|)
    ensures Offset(b.chain) == Onward(b.unit_size, old(Offset(b.chain)), |got|, |Bytes(b.chain)|)
  {
    hide Onward;
    hide Ready, Bytes, Used, Preimage, FilledBuffer, Filled, Buffer.Chained;
    HeadFacts(b);
    HeadPrefix(b.chain);
    got := PeekUnit(b.unit_head, readsz, dstsz);
    bufu := Advance(b, |got|);
  }

  /** Take out the first bytes; without a destination they would only be dropped. */
  method Read(b: Buffer, readsz: nat, dstsz: nat) returns (dst: seq<byte>)
    requires Ready(b.pool) && b in b.pool.users
    modifies b.pool, b, b.pool.Footprint(b)
    ensures Kept(b) && |dst| == Min(Min(readsz, dstsz), |old(Bytes(b.chain))|)
    ensures old(Bytes(b.chain)) == dst + Bytes(b.chain)
    ensures Offset(b.chain) == Onward(b.unit_size, old(Offset(b.chain)), |dst|, |Bytes(b.chain)|)
  {
    hide Ready, Bytes, Used, Preimage, FilledBuffer, Filled, Buffer.Chained, Onward, Offset;
    HeadIs(b);
    OnwardNone(b.unit_size, Offset(b.chain), |Bytes(b.chain)|);
    var want := Min(readsz, dstsz);
    var leftsz := want;
    var bufu := b.unit_head;
    dst := [];
    if bufu == null { NoUnit(b); }
    while bufu != null && leftsz > 0
      invariant Kept(b) && |dst| + leftsz == want && leftsz >= 0 && old(Bytes(b.chain)) == dst + Bytes(b.chain)
      invariant bufu != null ==> bufu == b.unit_head
      invariant bufu == null ==> Bytes(b.chain) == []
      invariant Offset(b.chain) == Onward(b.unit_size, old(Offset(b.chain)), |dst|, |Bytes(b.chain)|)
      decreases leftsz, if bufu != null then |b.chain| + 1 else 0
    {
      ghost var left := |Bytes(b.chain)|;
      var got, next := ReadUnit(b, leftsz, dstsz - want + leftsz);
      OnwardMore(b.unit_size, old(Offset(b.chain)), |dst|, |got|, |Bytes(b.chain)|);
      bufu := next;
      dst := dst + got;
      leftsz := leftsz - |got|;
    }
    assert |old(Bytes(b.chain))| == |dst| + |Bytes(b.chain)|;
  }

  lemma NoUnit(b: Buffer)
    requires Ready(b.pool) && b in b.pool.users && b.unit_head == null
    ensures Bytes(b.chain) == []
  {
    ReadyParts(b);
  }

  lemma HeadPrefix(s: seq<Unit>)
    requires s != []
    ensures |Used(s[0])| <= |Bytes(s)|
  {
    HeadBytes(s);
  }

  lemma ChainAt(b: Buffer, i: nat)
    requires b.Chained() && Filled(b.chain, b.unit_size) && i < |b.chain|
    ensures b.chain[i].rptr <= b.chain[i].wptr <= |b.chain[i].data|
    ensures b.chain[i].next == (if i + 1 < |b.chain| then b.chain[i + 1] else null)
    ensures Bytes(b.chain[..i + 1]) == Bytes(b.chain[..i]) + Used(b.chain[i])
  {
    assert UnitOk(b.chain, i, b.unit_size) && ThreadedAt(b.chain, i);
    BytesLast(b.chain[..i + 1]);
    assert b.chain[..i + 1][..i] == b.chain[..i];
  }

  lemma BytesPrefix(s: seq<Unit>, i: nat)
    requires i <= |s|
    ensures Bytes(s[..i]) <= Bytes(s) && Bytes(s[..0]) == [] && s[..|s|] == s
  {
    assert s == s[..i] + s[i..];
    BytesConcat(s[..i], s[i..]);
  }

  lemma FirstOf(b: Buffer)
    requires b.Chained()
    ensures b.unit_head == if b.chain == [] then null else b.chain[0]
  {
  }

  /** Copy the first bytes out, changing nothing. */
  method Peek(b: Buffer, readsz: nat, dstsz: nat) returns (dst: seq<byte>)
    requires b.Chained() && Filled(b.chain, b.unit_size)
    ensures dst == Bytes(b.chain)[..Min(Min(readsz, dstsz), |Bytes(b.chain)|)]
  {
    hide Buffer.Chained, Filled, Bytes, Used;
    var want := Min(readsz, dstsz);
    var leftsz := want;
    var bufu := b.unit_head;
    ghost var i := 0;
    dst := [];
    FirstOf(b);
    BytesPrefix(b.chain, 0);
    while bufu != null && leftsz > 0
      invariant 0 <= i <= |b.chain| && bufu == (if i < |b.chain| then b.chain[i] else null)
      invariant |dst| + leftsz == want && leftsz >= 0
      invariant if leftsz > 0 then dst == Bytes(b.chain[..i]) else dst <= Bytes(b.chain[..i])
      decreases |b.chain| - i
    {
      ChainAt(b, i);
      var got := PeekUnit(bufu, leftsz, dstsz - want + leftsz);
      dst := dst + got;
      leftsz := leftsz - |got|;
      bufu := bufu.next;
      i := i + 1;
    }
    BytesPrefix(b.chain, i);
  }

  // ---- the kernel side ----

  /** What one write call does: take some of the bytes offered, or fail, for good if `hard`. */
  datatype WriteResult = Accept(n: nat) | Refuse(hard: bool)

  /** How many of the calls accept something. */
  ghost function Progress(kernel: seq<WriteResult>): nat {
    if kernel == [] then 0 else
      Progress(kernel[..|kernel| - 1]) + (if kernel[|kernel| - 1].Accept? && kernel[|kernel| - 1].n > 0 then 1 else 0)
  }

  lemma ProgressStep(kernel: seq<WriteResult>, calls: nat)
    requires calls <= |kernel|
    ensures Progress(kernel[..0]) == 0 && Accepting(kernel, 0)
    ensures calls < |kernel| && kernel[calls].Accept? ==>
              && (Accepting(kernel, calls + 1) <==> Accepting(kernel, calls))
              && Progress(kernel[..calls + 1]) == Progress(kernel[..calls]) + if kernel[calls].n > 0 then 1 else 0
  {
    if calls < |kernel| {
      assert kernel[..calls + 1][..calls] == kernel[..calls];
    }
  }

  /** The calls up to the first one that is refused, which fails for good. */
  ghost predicate Rejected(kernel: seq<WriteResult>, calls: nat) {
    calls < |kernel| && kernel[calls] == Refuse(true) && Accepting(kernel, calls)
  }

  /** None of the first calls is refused. */
  ghost predicate Accepting(kernel: seq<WriteResult>, calls: nat)
    requires calls <= |kernel|
  {
    forall i :: 0 <= i < calls ==> kernel[i].Accept?
  }

  /** One write call on the first unit. A call with nothing to write returns 0. */
  method WriteOnce(b: Buffer, kernel: seq<WriteResult>) returns (n: int, sent: seq<byte>, calls: nat, bufu: Unit?)
    requires Ready(b.pool) && b in b.pool.users && b.unit_head != null
    modifies b.pool, b, b.pool.Footprint(b)
    ensures Kept(b) && old(Bytes(b.chain)) == sent + Bytes(b.chain) && b.unit_head != null
    ensures bufu != null ==> bufu == b.unit_head && (n >= 0 && calls == 0 ==> |b.chain| < |old(b.chain)|)
    ensures bufu == null ==> Bytes(b.chain) == []
    ensures n < 0 ==> n == -1 && sent == [] && Bytes(b.chain) != [] && (kernel == [] || kernel[0].Refuse?)
    ensures n >= 0 ==> n == |sent| && (n > 0 ==> calls == 1)
    ensures calls <= 1 && (calls == 1 ==> kernel != [] && kernel[0].Accept? && (kernel[0].n > 0 ==> n > 0))
    ensures calls == 1 ==> old(Bytes(b.chain)) != [] && n == Min(kernel[0].n, |old(Used(b.unit_head))|)
    ensures n >= 0 && calls == 0 ==> old(Bytes(b.chain)) == []
    ensures Offset(b.chain) == Onward(b.unit_size, old(Offset(b.chain)), |sent|, |Bytes(b.chain)|)
  {
    hide Ready, Bytes, Used, Preimage, FilledBuffer, Filled, Buffer.Chained, Onward, Offset;
    HeadIs(b);
    OnwardNone(b.unit_size, Offset(b.chain), |Bytes(b.chain)|);
    HeadFacts(b);
    HeadPrefix(b.chain);
    bufu := b.unit_head;
    calls := 0;
    var offered := PeekUnit(bufu, bufu.wptr, bufu.wptr);
    if offered != [] && (kernel == [] || kernel[0].Refuse?) {
      return -1, [], 0, bufu;
    }
    n := 0;
    if offered != [] {
      n, calls := Min(kernel[0].n, |offered|), 1;
    }
    sent := offered[..n];
    bufu := Advance(b, n);
  }

  /** One write call, counted among those made so far. */
  method WriteStep(b: Buffer, kernel: seq<WriteResult>, calls: nat)
      returns (n: int, sent: seq<byte>, made: nat, bufu: Unit?)
    requires Ready(b.pool) && b in b.pool.users && b.unit_head != null
    requires calls <= |kernel| && Accepting(kernel, calls)
    modifies b.pool, b, b.pool.Footprint(b)
    ensures Kept(b) && old(Bytes(b.chain)) == sent + Bytes(b.chain) && b.unit_head != null
    ensures bufu != null ==> bufu == b.unit_head && (n >= 0 && made == calls ==> |b.chain| < |old(b.chain)|)
    ensures bufu == null ==> Bytes(b.chain) == []
    ensures calls <= made <= |kernel| && Accepting(kernel, made)
    ensures Progress(kernel[..made]) <= Progress(kernel[..calls]) + |sent|
    ensures n < 0 ==> made == calls && sent == [] && Bytes(b.chain) != [] && (made == |kernel| || kernel[made].Refuse?)
    ensures if made == calls then sent == [] && (n >= 0 ==> old(Bytes(b.chain)) == [])
            else
              && made == calls + 1 && kernel[calls].Accept? && old(Bytes(b.chain)) != []
              && |sent| == Min(kernel[calls].n, Min(b.unit_size - old(Offset(b.chain)), |old(Bytes(b.chain))|))
    ensures Offset(b.chain) == Onward(b.unit_size, old(Offset(b.chain)), |sent|, |Bytes(b.chain)|)
  {
    hide Ready, Bytes, Used, Preimage, FilledBuffer, Filled, Buffer.Chained, Progress, Accepting, Pool.Footprint, Kept;
    hide Onward, Offset;
    HeadIs(b);
    var used;
    n, sent, used, bufu := WriteOnce(b, kernel[calls..]);
    made := calls + used;
    ProgressStep(kernel, calls);
  }

  ghost function Sum(amounts: seq<nat>): nat {
    if amounts == [] then 0 else Sum(amounts[..|amounts| - 1]) + amounts[|amounts| - 1]
  }

  /** What a call takes of the bytes that lie in the first unit when `before` bytes have been taken. */
  ghost function Portion(n: nat, size: nat, offset: nat, before: nat, len: nat): nat
    requires size >= 1 && before <= len
  {
    Min(n, Min(size - (offset + before) % size, len - before))
  }

  /**
   * The i-th call takes what it may of the bytes that lie in the first unit at that time, when `size` is the
   * room of a unit and the first of the `len` bytes stood at `offset`.
   */
  ghost predicate TakenAt(kernel: seq<WriteResult>, amounts: seq<nat>, i: nat, size: nat, offset: nat, len: nat)
    requires i < |amounts| && i < |kernel| && size >= 1
  {
    var before := Sum(amounts[..i]);
    && kernel[i].Accept? && before < len
    && amounts[i] == Portion(kernel[i].n, size, offset, before, len)
  }

  ghost predicate Handed(kernel: seq<WriteResult>, amounts: seq<nat>, size: nat, offset: nat, len: nat) {
    && size >= 1 && |amounts| <= |kernel|
    && forall i :: 0 <= i < |amounts| ==> TakenAt(kernel, amounts, i, size, offset, len)
  }

  lemma HandedMore(kernel: seq<WriteResult>, amounts: seq<nat>, n: nat, size: nat, offset: nat, len: nat)
    requires Handed(kernel, amounts, size, offset, len) && |amounts| < |kernel| && Sum(amounts) < len
    requires kernel[|amounts|].Accept?
    requires n == Portion(kernel[|amounts|].n, size, offset, Sum(amounts), len)
    ensures Handed(kernel, amounts + [n], size, offset, len) && Sum(amounts + [n]) == Sum(amounts) + n
  {
    hide Portion;
    var more := amounts + [n];
    assert more[..|amounts|] == amounts;
    forall i | 0 <= i < |more| ensures TakenAt(kernel, more, i, size, offset, len) {
      assert more[..i] == amounts[..i];
      assert i < |amounts| ==> TakenAt(kernel, amounts, i, size, offset, len);
    }
  }

  /**
   * Hand the bytes to the kernel unit by unit until none are left or a write fails. The results of
   * the write calls are those of `kernel`; once it is used up, writes would block. `amounts` is what each
   * call takes.
   */
  method FdWrite(b: Buffer, kernel: seq<WriteResult>)
      returns (ret: int, sent: seq<byte>, calls: nat, hard: bool, ghost amounts: seq<nat>)
    requires Ready(b.pool) && b in b.pool.users
    modifies b.pool, b, b.pool.Footprint(b)
    ensures Kept(b) && old(Bytes(b.chain)) == sent + Bytes(b.chain) && calls <= |kernel|
    ensures Accepting(kernel, calls) && |sent| >= Progress(kernel[..calls])
    ensures ret >= 0 ==> ret == |sent| && Bytes(b.chain) == [] && !hard
    ensures ret < 0 ==> ret == -1 && Bytes(b.chain) != [] && (calls == |kernel| || kernel[calls].Refuse?)
    ensures ret < 0 ==> hard == Rejected(kernel, calls)
    ensures |amounts| == calls && |sent| == Sum(amounts)
    ensures forall i :: 0 <= i < calls ==>
              var before := Sum(amounts[..i]);
              && kernel[i].Accept? && before < |old(Bytes(b.chain))| && b.unit_size >= 1
              && amounts[i] == Min(kernel[i].n, Min(b.unit_size - (old(Offset(b.chain)) + before) % b.unit_size,
                                                    |old(Bytes(b.chain))| - before))
    ensures Handed(kernel, amounts, b.unit_size, old(Offset(b.chain)), |old(Bytes(b.chain))|)
    ensures Over(kernel, amounts, |old(Bytes(b.chain))|)
    ensures Offset(b.chain) == Onward(b.unit_size, old(Offset(b.chain)), |sent|, |Bytes(b.chain)|)
  {
    hide Ready, Bytes, Preimage, Buffer.Chained, Progress, Accepting, Sum, Offset, Onward, Kept, Handed;
    ghost var len, offset := |Bytes(b.chain)|, Offset(b.chain);
    ret, sent, calls, hard, amounts := HandOver(b, kernel);
    HandedIs(kernel, amounts, b.unit_size, offset, len);
  }

  lemma HandedIs(kernel: seq<WriteResult>, amounts: seq<nat>, size: nat, offset: nat, len: nat)
    requires Handed(kernel, amounts, size, offset, len)
    ensures size >= 1 && |amounts| <= |kernel|
    ensures forall i :: 0 <= i < |amounts| ==>
              var before := Sum(amounts[..i]);
              && kernel[i].Accept? && before < len
              && amounts[i] == Min(kernel[i].n, Min(size - (offset + before) % size, len - before))
  {
    hide Sum;
    forall i | 0 <= i < |amounts|
      ensures var before := Sum(amounts[..i]);
              && kernel[i].Accept? && before < len
              && amounts[i] == Min(kernel[i].n, Min(size - (offset + before) % size, len - before))
    {
      assert TakenAt(kernel, amounts, i, size, offset, len);
    }
  }

  /** The loop of write calls. */
  method HandOver(b: Buffer, kernel: seq<WriteResult>)
      returns (ret: int, sent: seq<byte>, calls: nat, hard: bool, ghost amounts: seq<nat>)
    requires Ready(b.pool) && b in b.pool.users
    modifies b.pool, b, b.pool.Footprint(b)
    ensures Kept(b) && old(Bytes(b.chain)) == sent + Bytes(b.chain) && calls <= |kernel|
    ensures Accepting(kernel, calls) && |sent| >= Progress(kernel[..calls])
    ensures ret >= 0 ==> ret == |sent| && Bytes(b.chain) == [] && !hard
    ensures ret < 0 ==> ret == -1 && Bytes(b.chain) != [] && (calls == |kernel| || kernel[calls].Refuse?)
    ensures ret < 0 ==> hard == Rejected(kernel, calls)
    ensures |amounts| == calls && |sent| == Sum(amounts)
    ensures Handed(kernel, amounts, b.unit_size, old(Offset(b.chain)), |old(Bytes(b.chain))|)
    ensures Offset(b.chain) == Onward(b.unit_size, old(Offset(b.chain)), |sent|, |Bytes(b.chain)|)
  {
    hide Ready, Bytes, Used, Preimage, FilledBuffer, Filled, Buffer.Chained, Progress, Accepting, Sum, Offset, Onward;
    hide Handed, Account, ContentOf;
    ghost var size, offset, len := b.unit_size, Offset(b.chain), |Bytes(b.chain)|;
    sent, calls, amounts := [], 0, [];
    HeadIs(b);
    AccountOpens(kernel, size, offset, len);
    var bufu := b.unit_head;
    if bufu == null { NoUnit(b); }
    while bufu != null
      invariant Kept(b) && old(Bytes(b.chain)) == sent + Bytes(b.chain)
      invariant calls <= |kernel| && Accepting(kernel, calls)
      invariant Account(kernel, amounts, calls, |sent|, size, offset, len, Offset(b.chain), |Bytes(b.chain)|)
      invariant bufu != null ==> bufu == b.unit_head
      invariant bufu == null ==> Bytes(b.chain) == []
      decreases |kernel| - calls, if bufu != null then |b.chain| + 1 else 0
    {
      ghost var at, left := Offset(b.chain), |Bytes(b.chain)|;
      var n, more, made, next;
      n, more, made, next := WriteStep(b, kernel, calls);
      amounts := AccountGoesOn(kernel, amounts, calls, |sent|, size, offset, len, at, left, made, |more|,
                               Offset(b.chain), |Bytes(b.chain)|);
      bufu, calls, sent := next, made, sent + more;
      if n < 0 {
        ret, hard := -1, calls < |kernel| && kernel[calls] == Refuse(true);
        AccountCloses(kernel, amounts, calls, |sent|, size, offset, len, Offset(b.chain), |Bytes(b.chain)|);
        return;
      }
    }
    ret, hard := |sent|, false;
    AccountCloses(kernel, amounts, calls, |sent|, size, offset, len, Offset(b.chain), |Bytes(b.chain)|);
  }

  /** After `n` bytes in `calls` calls, `left` bytes are left, of which the first stands at `at`. */
  ghost predicate Account(kernel: seq<WriteResult>, amounts: seq<nat>, calls: nat, n: nat, size: nat, offset: nat,
                          len: nat, at: nat, left: nat)
  {
    && Handed(kernel, amounts, size, offset, len) && |amounts| == calls && Sum(amounts) == n && len == n + left
    && Progress(kernel[..calls]) <= n && at == Onward(size, offset, n, left)
  }

  lemma AccountOpens(kernel: seq<WriteResult>, size: nat, offset: nat, len: nat)
    requires offset < size && (len == 0 ==> offset == 0)
    ensures Account(kernel, [], 0, 0, size, offset, len, offset, len) && Accepting(kernel, 0)
  {
    OnwardNone(size, offset, len);
  }

  lemma AccountCloses(kernel: seq<WriteResult>, amounts: seq<nat>, calls: nat, n: nat, size: nat, offset: nat,
                      len: nat, at: nat, left: nat)
    requires Account(kernel, amounts, calls, n, size, offset, len, at, left)
    ensures Handed(kernel, amounts, size, offset, len) && |amounts| == calls && Sum(amounts) == n && len == n + left
    ensures size >= 1 && calls <= |kernel| && Progress(kernel[..calls]) <= n && at == Onward(size, offset, n, left)
  {
  }

  lemma AccountGoesOn(kernel: seq<WriteResult>, amounts: seq<nat>, calls: nat, n: nat, size: nat, offset: nat,
                      len: nat, at: nat, left: nat, made: nat, m: nat, at': nat, left': nat)
      returns (amounts': seq<nat>)
    requires Account(kernel, amounts, calls, n, size, offset, len, at, left) && size >= 1
    requires left == m + left' && at' == Onward(size, at, m, left') && calls <= made <= |kernel|
    requires if made == calls then m == 0
             else
               && made == calls + 1 && kernel[calls].Accept? && left > 0
               && m == Min(kernel[calls].n, Min(size - at, left))
    requires Progress(kernel[..made]) <= Progress(kernel[..calls]) + m
    ensures Account(kernel, amounts', made, n + m, size, offset, len, at', left')
  {
    hide Handed, Progress, Onward, Sum;
    amounts' := amounts;
    OnwardMore(size, offset, n, m, left');
    if made > calls {
      OnwardLeft(size, offset, n, left);
      HandedMore(kernel, amounts, m, size, offset, len);
      amounts' := amounts + [m];
    }
  }

  lemma OnwardLeft(size: nat, offset: nat, n: nat, left: nat)
    requires size >= 1
    ensures left > 0 ==> Onward(size, offset, n, left) == (offset + n) % size
  {
  }

  /** Nothing is left, or the next call is not one that takes anything. */
  ghost predicate Over(kernel: seq<WriteResult>, amounts: seq<nat>, len: nat) {
    Sum(amounts) == len || |amounts| == |kernel| || (|amounts| < |kernel| && kernel[|amounts|].Refuse?)
  }

  /** What the calls take is determined by what the kernel is willing to take. */
  lemma HandedOnce(kernel: seq<WriteResult>, a: seq<nat>, b: seq<nat>, size: nat, offset: nat, len: nat)
    requires Handed(kernel, a, size, offset, len) && Over(kernel, a, len)
    requires Handed(kernel, b, size, offset, len) && Over(kernel, b, len)
    ensures a == b
  {
    var n := Min(|a|, |b|);
    SamePrefix(kernel, a, b, size, offset, len, n);
    assert a[..|a|] == a && b[..|b|] == b;
    assert |a| < |b| ==> TakenAt(kernel, b, |a|, size, offset, len);
    assert |b| < |a| ==> TakenAt(kernel, a, |b|, size, offset, len);
  }

  lemma {:induction false} SamePrefix(kernel: seq<WriteResult>, a: seq<nat>, b: seq<nat>, size: nat, offset: nat,
                                      len: nat, n: nat)
    requires Handed(kernel, a, size, offset, len) && Handed(kernel, b, size, offset, len) && n <= |a| && n <= |b|
    ensures a[..n] == b[..n]
  {
    if n > 0 {
      SamePrefix(kernel, a, b, size, offset, len, n - 1);
      assert TakenAt(kernel, a, n - 1, size, offset, len) && TakenAt(kernel, b, n - 1, size, offset, len);
      assert a[..n] == a[..n - 1] + [a[n - 1]] && b[..n] == b[..n - 1] + [b[n - 1]];
    }
  }

  /** What one read call finds: bytes that have arrived, the end of the stream, or an error. */
  datatype ReadResult = Data(bytes: seq<byte>) | Eof | Fail(hard: bool)

  /** The bytes that arrive before the first end or error. */
  ghost function Stream(kernel: seq<ReadResult>): seq<byte> {
    if kernel == [] || !kernel[0].Data? then [] else kernel[0].bytes + Stream(kernel[1..])
  }

  /** How the arrived bytes end; when nothing more has arrived, a read would block. */
  ghost function Ending(kernel: seq<ReadResult>): (end: ReadResult)
    ensures !end.Data?
  {
    if kernel == [] then Fail(false) else if kernel[0].Data? then Ending(kernel[1..]) else kernel[0]
  }

  /** One read call into the room of the last unit, which may first need a further unit. */
  method ReadOnce(b: Buffer, kernel: seq<ReadResult>) returns (n: int, rest: seq<ReadResult>, hard: bool)
    requires Ready(b.pool) && b in b.pool.users && b.unit_tail != null
    requires forall i :: 0 <= i < |kernel| && kernel[i].Data? ==> kernel[i].bytes != []
    modifies b.pool, b, b.pool.Footprint(b)
    ensures Kept(b) && b.unit_tail != null
    ensures n > 0 ==> n <= |Stream(kernel)| && Bytes(b.chain) == old(Bytes(b.chain)) + Stream(kernel)[..n]
    ensures n > 0 ==> Stream(rest) == Stream(kernel)[n..]
    ensures n > 0 ==> Ending(rest) == Ending(kernel)
    ensures n <= 0 ==> rest == kernel && Bytes(b.chain) == old(Bytes(b.chain))
    ensures n <= 0 ==> Ending(kernel) == (if n == 0 then Eof else Fail(hard)) && -1 <= n && Stream(kernel) == []
    ensures forall i :: 0 <= i < |rest| && rest[i].Data? ==> rest[i].bytes != []
    ensures n > 0 ==>
              && kernel != [] && kernel[0].Data? && n == Min(|kernel[0].bytes|, b.unit_size - old(Fill(b)))
              && rest == Leave(kernel, n) && b.unit_tail.wptr == old(Fill(b)) + n <= b.unit_size
    ensures n <= 0 ==> (kernel == [] || !kernel[0].Data?) && Fill(b) == old(Fill(b))
    ensures Offset(b.chain) == old(Offset(b.chain))
  {
    hide Ready, Bytes, Used, Preimage, FilledBuffer, Filled, Buffer.Chained, Stream, Ending;
    rest, hard := kernel, false;
    StreamEnds(kernel);
    MakeRoom(b);
    if rest == [] || rest[0].Fail? {
      return -1, rest, rest != [] && rest[0].hard;
    }
    if rest[0].Eof? {
      return 0, rest, false;
    }
    n := FillTail(b, rest[0].bytes);
    StreamTaken(kernel, n);
    rest := Leave(kernel, n);
  }

  lemma StreamEnds(kernel: seq<ReadResult>)
    ensures kernel == [] || !kernel[0].Data? ==> Stream(kernel) == []
    ensures kernel == [] ==> Ending(kernel) == Fail(false)
    ensures kernel != [] && !kernel[0].Data? ==> Ending(kernel) == kernel[0]
  {
  }

  /** What is there for the next call when n bytes were taken. */
  function Leave(kernel: seq<ReadResult>, n: nat): seq<ReadResult>
    requires kernel != [] && kernel[0].Data? && n <= |kernel[0].bytes|
  {
    if n < |kernel[0].bytes| then [Data(kernel[0].bytes[n..])] + kernel[1..] else kernel[1..]
  }

  lemma StreamTaken(kernel: seq<ReadResult>, n: nat)
    requires kernel != [] && kernel[0].Data? && n <= |kernel[0].bytes|
    ensures n <= |Stream(kernel)| && Stream(kernel)[..n] == kernel[0].bytes[..n]
    ensures Stream(Leave(kernel, n)) == Stream(kernel)[n..] && Ending(Leave(kernel, n)) == Ending(kernel)
  {
    var bytes := kernel[0].bytes;
    assert Stream(kernel) == bytes + Stream(kernel[1..]);
    if n < |bytes| {
      var next := [Data(bytes[n..])] + kernel[1..];
      assert next[1..] == kernel[1..];
    }
  }

  // ---- where reading stops ----

  /** A position within a unit. */
  function Place(x: nat, size: nat): nat
    requires size >= 1
  {
    x % size
  }

  lemma PlaceMore(x: nat, n: nat, size: nat)
    requires size >= 1 && Place(x, size) + n <= size
    ensures Place(x + n, size) == if Place(x, size) + n == size then 0 else Place(x, size) + n
    ensures Place(x, size) < size
  {
    hide Place;
    PlaceOf(x, size);
    PlaceOf(x + n, size);
    Remainder(x, n, size);
    WithinOne(x % size + n, size);
  }

  lemma PlaceOf(x: nat, size: nat)
    requires size >= 1
    ensures Place(x, size) == x % size < size
  {
  }

  lemma WithinOne(y: nat, size: nat)
    requires size >= 1 && y <= size
    ensures y % size == if y == size then 0 else y
  {
  }

  /** The first i calls find data. */
  ghost predicate AllData(kernel: seq<ReadResult>, i: nat)
    requires i <= |kernel|
  {
    forall j :: 0 <= j < i ==> kernel[j].Data?
  }

  ghost predicate FillsUnit(kernel: seq<ReadResult>, i: nat, size: nat, at: nat)
    requires i <= |kernel| && size >= 1
  {
    Place(at + |Stream(kernel[..i])|, size) == 0
  }

  /** Each of the first i pieces ends just where a unit does. */
  ghost predicate AllFill(kernel: seq<ReadResult>, i: nat, size: nat, at: nat)
    requires i <= |kernel| && size >= 1
  {
    forall j :: 1 <= j <= i ==> FillsUnit(kernel, j, size, at)
  }

  /** What is still there when the first i pieces and `off` bytes of the next one have been read. */
  ghost predicate Remains(kernel: seq<ReadResult>, i: nat, off: nat, rest: seq<ReadResult>)
    requires i <= |kernel|
  {
    if off == 0 then rest == kernel[i..]
    else
      && i < |kernel| && kernel[i].Data? && off < |kernel[i].bytes|
      && rest == [Data(kernel[i].bytes[off..])] + kernel[i + 1..]
  }

  /** The first i pieces and `off` bytes of the next one have been read; each of the pieces filled its unit. */
  ghost predicate Reading(kernel: seq<ReadResult>, i: nat, off: nat, readsz: nat, rest: seq<ReadResult>, size: nat,
                          at: nat, fill: nat)
  {
    && i <= |kernel| && AllData(kernel, i) && size >= 1 && fill == Place(at + readsz, size)
    && Remains(kernel, i, off, rest) && readsz == |Stream(kernel[..i])| + off && AllFill(kernel, i, size, at)
  }

  /**
   * A read that starts at `fill` reads the first `pieces` pieces: up to the end of what has arrived, or up to
   * the first piece that does not fill its unit.
   */
  ghost predicate ReadsUpTo(kernel: seq<ReadResult>, pieces: nat, ended: bool, size: nat, fill: nat) {
    && size >= 1 && pieces <= |kernel| && AllData(kernel, pieces)
    && if ended then AllFill(kernel, pieces, size, fill) && (pieces == |kernel| || !kernel[pieces].Data?)
       else pieces > 0 && AllFill(kernel, pieces - 1, size, fill) && !FillsUnit(kernel, pieces, size, fill)
  }

  lemma ReadsOnce(kernel: seq<ReadResult>, p: nat, ended: bool, q: nat, ended': bool, size: nat, fill: nat)
    requires ReadsUpTo(kernel, p, ended, size, fill) && ReadsUpTo(kernel, q, ended', size, fill)
    ensures p == q && ended == ended'
  {
    hide FillsUnit;
    Furthest(kernel, p, ended, q, ended', size, fill);
    Furthest(kernel, q, ended', p, ended, size, fill);
  }

  lemma Furthest(kernel: seq<ReadResult>, p: nat, ended: bool, q: nat, ended': bool, size: nat, fill: nat)
    requires ReadsUpTo(kernel, p, ended, size, fill) && ReadsUpTo(kernel, q, ended', size, fill)
    ensures q <= p && (p == q && p > 0 ==> (ended <==> FillsUnit(kernel, p, size, fill)))
    ensures p == 0 ==> ended
  {
    hide FillsUnit;
  }

  lemma {:induction false} StreamSnoc(kernel: seq<ReadResult>, i: nat)
    requires i < |kernel| && AllData(kernel, i + 1)
    ensures Stream(kernel[..i + 1]) == Stream(kernel[..i]) + kernel[i].bytes
  {
    if i > 0 {
      StreamSnoc(kernel[1..], i - 1);
      assert kernel[..i + 1][1..] == kernel[1..][..i] && kernel[..i][1..] == kernel[1..][..i - 1];
    } else {
      assert kernel[..1][1..] == [] && kernel[..0] == [];
    }
  }

  lemma ReadingOpens(kernel: seq<ReadResult>, size: nat, at: nat)
    requires at < size
    ensures Reading(kernel, 0, 0, 0, kernel, size, at, at)
  {
  }

  lemma RemainsMore(kernel: seq<ReadResult>, i: nat, off: nat, rest: seq<ReadResult>, n: nat)
    requires i <= |kernel| && Remains(kernel, i, off, rest) && rest != [] && rest[0].Data? && 0 < n <= |rest[0].bytes|
    ensures i < |kernel| && kernel[i].Data? && off + |rest[0].bytes| == |kernel[i].bytes|
    ensures if n == |rest[0].bytes| then Remains(kernel, i + 1, 0, Leave(rest, n))
            else Remains(kernel, i, off + n, Leave(rest, n))
  {
    assert rest[1..] == kernel[i + 1..];
    if off > 0 {
      assert kernel[i].bytes[off..][n..] == kernel[i].bytes[off + n..];
    }
  }

  /** A read takes all of a piece, or fills the unit with a part of it. */
  lemma ReadingMore(kernel: seq<ReadResult>, i: nat, off: nat, readsz: nat, rest: seq<ReadResult>, size: nat, at: nat,
                    fill: nat, n: nat) returns (i': nat, off': nat)
    requires Reading(kernel, i, off, readsz, rest, size, at, fill) && rest != [] && rest[0].Data? && n > 0
    requires n == Min(|rest[0].bytes|, size - fill)
    ensures fill + n == size ==> Reading(kernel, i', off', readsz + n, Leave(rest, n), size, at, 0)
    ensures fill + n < size ==>
              && i < |kernel| && AllData(kernel, i + 1) && readsz + n == |Stream(kernel[..i + 1])|
              && Place(at + readsz + n, size) == fill + n
  {
    hide Stream, Place, Remains;
    PlaceMore(at + readsz, n, size);
    RemainsMore(kernel, i, off, rest, n);
    assert AllData(kernel, i + 1);
    StreamSnoc(kernel, i);
    if n == |rest[0].bytes| {
      i', off' := i + 1, 0;
      if fill + n == size {
        assert FillsUnit(kernel, i + 1, size, at);
      }
    } else {
      i', off' := i, off + n;
    }
  }

  lemma ReadingSeen(kernel: seq<ReadResult>, i: nat, off: nat, readsz: nat, rest: seq<ReadResult>, size: nat, at: nat,
                    fill: nat)
    requires Reading(kernel, i, off, readsz, rest, size, at, fill)
    ensures i <= |kernel| && AllData(kernel, i) && size >= 1 && fill == Place(at + readsz, size)
    ensures AllFill(kernel, i, size, at)
    ensures rest == [] || !rest[0].Data? ==>
              readsz == |Stream(kernel[..i])| && (i == |kernel| || !kernel[i].Data?)
  {
    hide Stream, Place;
  }

  /**
   * Read into the tail until a read does not fill the unit. A read call takes what the unit has room for; what
   * it leaves of the arrived bytes is there for the next call. With nothing arrived, a read would block. The
   * reading stops behind the first of the arrived pieces that does not end just where a unit does, and otherwise
   * goes on to the end of what has arrived; `pieces` is the number of pieces read.
   */
  method FdRead(b: Buffer, kernel: seq<ReadResult>)
      returns (ret: int, readsz: nat, rest: seq<ReadResult>, hard: bool, ghost pieces: nat)
    requires Ready(b.pool) && b in b.pool.users
    requires forall i :: 0 <= i < |kernel| && kernel[i].Data? ==> kernel[i].bytes != []
    modifies b.pool, b, b.pool.Footprint(b)
    ensures Kept(b) && readsz <= |Stream(kernel)|
    ensures Bytes(b.chain) == old(Bytes(b.chain)) + Stream(kernel)[..readsz]
    ensures Offset(b.chain) == old(Offset(b.chain))
    ensures Stream(rest) == Stream(kernel)[readsz..]
    ensures ret > 0 ==> ret == readsz && b.unit_tail != null && b.unit_tail.wptr < b.unit_size
    ensures ret <= 0 ==> Ending(kernel) == (if ret == 0 then Eof else Fail(hard)) && readsz == |Stream(kernel)|
    ensures ret >= -1
    ensures b.unit_size >= 1 && pieces <= |kernel| && readsz == |Stream(kernel[..pieces])|
    ensures forall i :: 0 <= i < pieces ==> kernel[i].Data?
    ensures forall i :: 1 <= i < pieces ==> (old(Fill(b)) + |Stream(kernel[..i])|) % b.unit_size == 0
    ensures ret > 0 ==> pieces > 0 && (old(Fill(b)) + readsz) % b.unit_size != 0
    ensures ret <= 0 ==> (pieces > 0 ==> (old(Fill(b)) + readsz) % b.unit_size == 0)
    ensures ret <= 0 ==> pieces == |kernel| || !kernel[pieces].Data?
    ensures ReadsUpTo(kernel, pieces, ret <= 0, b.unit_size, old(Fill(b)))
    ensures Fill(b) == Place(old(Fill(b)) + readsz, b.unit_size)
  {
    hide Ready, Bytes, Used, Preimage, FilledBuffer, Filled, Buffer.Chained, Stream, Ending, Offset, Fill, Kept;
    ghost var at := Fill(b);
    ret, readsz, rest, hard, pieces := ReadIn(b, kernel);
    forall i | 1 <= i < pieces ensures (at + |Stream(kernel[..i])|) % b.unit_size == 0 {
      assert FillsUnit(kernel, i, b.unit_size, at);
    }
    assert ret <= 0 && pieces > 0 ==> FillsUnit(kernel, pieces, b.unit_size, at);
  }

  /** The loop of read calls. */
  method ReadIn(b: Buffer, kernel: seq<ReadResult>)
      returns (ret: int, readsz: nat, rest: seq<ReadResult>, hard: bool, ghost pieces: nat)
    requires Ready(b.pool) && b in b.pool.users
    requires forall i :: 0 <= i < |kernel| && kernel[i].Data? ==> kernel[i].bytes != []
    modifies b.pool, b, b.pool.Footprint(b)
    ensures Kept(b) && readsz <= |Stream(kernel)|
    ensures Bytes(b.chain) == old(Bytes(b.chain)) + Stream(kernel)[..readsz] && Offset(b.chain) == old(Offset(b.chain))
    ensures Stream(rest) == Stream(kernel)[readsz..] && ret >= -1
    ensures ret > 0 ==> ret == readsz && b.unit_tail != null && b.unit_tail.wptr < b.unit_size
    ensures ret <= 0 ==> Ending(kernel) == (if ret == 0 then Eof else Fail(hard)) && readsz == |Stream(kernel)|
    ensures b.unit_size >= 1 && pieces <= |kernel| && AllData(kernel, pieces) && readsz == |Stream(kernel[..pieces])|
    ensures ret > 0 ==> pieces > 0 && AllFill(kernel, pieces - 1, b.unit_size, old(Fill(b))) && Fill(b) != 0
    ensures ret <= 0 ==>
              AllFill(kernel, pieces, b.unit_size, old(Fill(b))) && (pieces == |kernel| || !kernel[pieces].Data?)
    ensures Fill(b) == Place(old(Fill(b)) + readsz, b.unit_size)
  {
    hide Ready, Bytes, Used, Preimage, FilledBuffer, Filled, Buffer.Chained, Stream, Ending, Reading, AllData, Offset;
    hide Place, AllFill, Fill, ContentOf;
    ghost var size, at, off := b.unit_size, Fill(b), 0;
    readsz, rest, pieces := 0, kernel, 0;
    FillIs(b);
    FirstUnit(b);
    ReadingOpens(kernel, size, at);
    while true
      invariant Kept(b) && b.unit_tail != null && readsz <= |Stream(kernel)|
      invariant Bytes(b.chain) == old(Bytes(b.chain)) + Stream(kernel)[..readsz]
      invariant Offset(b.chain) == old(Offset(b.chain))
      invariant Stream(rest) == Stream(kernel)[readsz..] && Ending(rest) == Ending(kernel)
      invariant forall i :: 0 <= i < |rest| && rest[i].Data? ==> rest[i].bytes != []
      invariant Reading(kernel, pieces, off, readsz, rest, size, at, Fill(b))
      decreases |Stream(kernel)| - readsz
    {
      ghost var fill, was := Fill(b), rest;
      ReadingSeen(kernel, pieces, off, readsz, was, size, at, fill);
      var n, left, failed := ReadOnce(b, rest);
      rest := left;
      if n <= 0 {
        return n, readsz, rest, failed, pieces;
      }
      ghost var next, off' := ReadingMore(kernel, pieces, off, readsz, was, size, at, fill, n);
      Regroup(old(Bytes(b.chain)), Stream(kernel), readsz, n);
      readsz := readsz + n;
      FillIs(b);
      if b.unit_tail.size - b.unit_tail.wptr > 0 {
        return readsz, readsz, rest, false, pieces + 1;
      }
      pieces, off := next, off';
    }
  }

  lemma FillIs(b: Buffer)
    requires Ready(b.pool) && b in b.pool.users
    ensures Fill(b) < b.unit_size
    ensures b.unit_tail != null ==>
              && b.unit_tail.size == b.unit_size >= b.unit_tail.wptr
              && Fill(b) == if b.unit_tail.wptr == b.unit_size then 0 else b.unit_tail.wptr
  {
    ReadyParts(b);
  }

  lemma Regroup(s: seq<byte>, t: seq<byte>, k: nat, n: nat)
    requires k <= |t| && n <= |t[k..]|
    ensures k + n <= |t| && s + t[..k] + t[k..][..n] == s + t[..k + n] && t[k..][n..] == t[k + n..]
  {
  }

  // ---- making and tearing down buffers ----

  /** A new, empty buffer that draws on the pool. */
  method NewBuffer(pool: Pool, size: nat) returns (b: Buffer)
    requires Ready(pool) && 1 <= size <= pool.objsize
    modifies pool`users
    ensures Ready(pool) && fresh(b) && b.pool == pool && b.unit_size == size && pool.users == old(pool.users) + {b}
    ensures Bytes(b.chain) == [] && b.chain == []
  {
    b := new Buffer(pool, size);
    pool.users := pool.users + {b};
    assert forall c :: c in old(pool.users) ==> pool.Owned(c);
    assert pool.OwnedBy(b) == {};
  }

  /** Return the first of the units still held, and go on with the next one. */
  method ReturnFirst(b: Buffer, unit: Unit, ghost rest: seq<Unit>) returns (next: Unit?)
    requires b.pool.Valid(Elems(rest)) && Threaded(unit, rest) && NoDup(rest) && b !in b.pool.users
    modifies b.pool`free_elem, b.pool`idle, b`unit_cnt, unit`next
    ensures rest != [] && Elems(rest) == {unit} + Elems(rest[1..])
    ensures b.pool.Valid(Elems(rest[1..])) && Threaded(next, rest[1..]) && NoDup(rest[1..])
    ensures b.unit_cnt == old(b.unit_cnt) - 1 && Elems(b.pool.idle) == {unit} + old(Elems(b.pool.idle))
  {
    hide Pool.Valid, Threaded, NoDup;
    ThreadedFirst(unit, rest);
    next := unit.next;
    RemoveUnit(b, unit, Elems(rest[1..]));
    ConsElems(unit, old(b.pool.idle));
    b.unit_cnt := b.unit_cnt - 1;
  }

  /**
   * Return every unit of the chain. The head and tail pointers are left as they were, so the buffer is
   * no longer one of the pool's users.
   */
  method Destroy(b: Buffer)
    requires Ready(b.pool) && b in b.pool.users
    modifies b.pool, b, b.pool.Footprint(b)
    ensures Ready(b.pool) && b.pool.users == old(b.pool.users) - {b} && b.unit_cnt == 0
    ensures Elems(b.pool.idle) == old(Elems(b.pool.idle) + Elems(b.chain))
    ensures b.pool.owner.Keys == old(b.pool.owner.Keys)
    ensures b.unit_head == old(b.unit_head) && b.unit_tail == old(b.unit_tail)
    ensures (b.unit_head == null <==> old(b.chain) == []) && (b.unit_tail == null <==> old(b.chain) == [])
    ensures forall c :: c in b.pool.users ==> ContentOf(c) == old(ContentOf(c))
  {
    hide Pool.Valid, FilledBuffer, Bytes, Preimage, Threaded, NoDup, Pool.Footprint;
    ReadyParts(b);
    FootprintHolds(b);
    b.pool.ChainsOwned({});
    Disown(b);
    ReturnAll(b);
  }

  /** Walk the chain and return its units one by one. */
  method ReturnAll(b: Buffer)
    requires b.Chained() && b.pool.Valid(Elems(b.chain)) && b !in b.pool.users
    modifies b.pool`free_elem, b.pool`idle, b`unit_cnt, b.chain`next
    ensures b.pool.Valid({}) && b.unit_cnt == 0
    ensures Elems(b.pool.idle) == old(Elems(b.pool.idle) + Elems(b.chain))
  {
    hide Pool.Valid, Threaded, NoDup;
    var unit := b.unit_head;
    ghost var rest := b.chain;
    while unit != null
      invariant b.pool.Valid(Elems(rest)) && Threaded(unit, rest) && NoDup(rest) && b.unit_cnt == |rest|
      invariant Elems(rest) <= Elems(b.chain)
      invariant Elems(b.pool.idle) + Elems(rest) == old(Elems(b.pool.idle) + Elems(b.chain))
      decreases |rest|
    {
      ThreadedFirst(unit, rest);
      assert unit in Elems(rest);
      unit := ReturnFirst(b, unit, rest);
      rest := rest[1..];
    }
    ThreadedFirst(unit, rest);
  }

  lemma ThreadedFirst(first: Unit?, s: seq<Unit>)
    requires Threaded(first, s) && NoDup(s)
    ensures first == null <==> s == []
    ensures first == null ==> Elems(s) == {}
    ensures first != null ==> s == [first] + s[1..] && first !in Elems(s[1..]) && Elems(s) == Elems(s[1..]) + {first}
    ensures first != null ==> Threaded(first.next, s[1..]) && NoDup(s[1..])
  {
    if s != [] {
      assert ThreadedAt(s, 0);
      forall i | 0 <= i < |s| - 1 ensures ThreadedAt(s[1..], i) {
        assert ThreadedAt(s, i + 1);
      }
      assert s == [first] + s[1..];
      ConsElems(s[0], s[1..]);
    }
  }

  /** The buffer gives up its chain; the units are then neither idle nor in a chain. */
  ghost method Disown(b: Buffer)
    requires Ready(b.pool) && b in b.pool.users
    modifies b.pool`owner, b.pool`users
    ensures b.pool.Valid(Elems(b.chain)) && b.pool.users == old(b.pool.users) - {b}
    ensures b.pool.owner.Keys == old(b.pool.owner.Keys)
  {
    ghost var o, pool := b.pool.owner, b.pool;
    b.pool.owner := map u | u in o.Keys :: if o[u] == b then null else o[u];
    b.pool.users := b.pool.users - {b};
    assert b.pool.OwnedBy(null) == old(b.pool.OwnedBy(null)) + old(b.pool.OwnedBy(b));
    forall c | c in pool.users ensures Elems(c.chain) == pool.OwnedBy(c) && pool.Owned(c) {
      assert pool.OwnedBy(c) == old(pool.OwnedBy(c));
      assert old(pool.Owned(c));
    }
  }
}
