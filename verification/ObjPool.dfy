/** Buffer units, the pool they come from, and the chains that own them. */
module ObjPool {
  import opened Basics

  newtype byte = x: int | 0 <= x < 256

  /**
   * A fixed-size unit. `next` threads the free list while the unit is idle and the chain of its
   * buffer while it is in use; the bytes in use are data[rptr..wptr].
   */
  class Unit {
    var next: Unit?
    var size: nat
    var rptr: nat
    var wptr: nat
    var data: seq<byte>

    constructor (size: nat)
      ensures next == null && this.size == |data| == size && rptr == wptr == 0
    {
      next, this.size, rptr, wptr := null, size, 0, 0;
      data := seq(size, _ => 0);
    }
  }

  /** The list that starts at `first` runs through exactly the units of `s`. */
  ghost predicate Threaded(first: Unit?, s: seq<Unit>)
    reads s`next
  {
    && first == (if s == [] then null else s[0])
    && forall i :: 0 <= i < |s| ==> ThreadedAt(s, i)
  }

  ghost predicate ThreadedAt(s: seq<Unit>, i: int)
    requires 0 <= i < |s|
    reads s`next
  {
    s[i].next == if i + 1 < |s| then s[i + 1] else null
  }

  ghost function Elems(s: seq<Unit>): set<Unit> {
    set u | u in s
  }

  class Buffer {
    const pool: Pool
    const unit_size: nat
    var unit_cnt: int
    var unit_head: Unit?
    var unit_tail: Unit?
    ghost var chain: seq<Unit>

    constructor (pool: Pool, unit_size: nat)
      ensures this.pool == pool && this.unit_size == unit_size
      ensures unit_cnt == 0 && unit_head == null && unit_tail == null && chain == []
    {
      this.pool, this.unit_size := pool, unit_size;
      unit_cnt, unit_head, unit_tail, chain := 0, null, null, [];
    }

    ghost predicate Chained()
      reads this, chain`next
    {
      && Threaded(unit_head, chain) && NoDup(chain) && unit_cnt == |chain|
      && unit_tail == (if chain == [] then null else chain[|chain| - 1])
    }

    /** Linking a unit behind the old tail keeps the chain well formed. */
    twostate lemma LinkedChain()
      requires old(Chained()) && unit_tail != null && unit_tail.next == null && unit_tail !in old(chain)
      requires chain == old(chain) + [unit_tail] && unit_cnt == old(unit_cnt) + 1
      requires unit_head == (if old(chain) == [] then unit_tail else old(unit_head))
      requires forall i :: 0 <= i < |chain| - 1 ==>
                 chain[i].next == if i == |chain| - 2 then unit_tail else old(chain[i].next)
      ensures Chained()
    {
      forall i | 0 <= i < |chain| ensures ThreadedAt(chain, i) {
        if i < |chain| - 1 { assert old(ThreadedAt(chain, i)); }
      }
    }

    /** Dropping the first of several units keeps the chain well formed. */
    twostate lemma UnlinkedChain()
      requires old(Chained()) && |old(chain)| >= 2 && chain == old(chain)[1..]
      requires unit_cnt == old(unit_cnt) - 1 && unit_head == old(unit_head.next) && unit_tail == old(unit_tail)
      requires forall i :: 0 <= i < |chain| ==> chain[i].next == old(chain[i + 1].next)
      ensures Chained()
    {
      assert old(ThreadedAt(chain, 0));
      forall i | 0 <= i < |chain| ensures ThreadedAt(chain, i) {
        assert old(ThreadedAt(chain, i + 1));
      }
    }
  }

  class Pool {
    const objsize: nat
    const blksize: nat
    var free_elem: Unit?
    var blks: seq<seq<Unit>>
    var blkcnt: nat
    ghost var idle: seq<Unit>              // the free list
    ghost var owner: map<Unit, Buffer?>    // null: not in any chain
    ghost var users: set<Buffer>

    constructor (blksize: nat, objsize: nat)
      requires blksize >= 1
      ensures Valid({}) && users == {} && owner == map[] && this.blksize == blksize && this.objsize == objsize
      ensures blks == [] && idle == []
    {
      this.blksize, this.objsize := blksize, objsize;
      free_elem, blks, blkcnt, idle, owner, users := null, [], 0, [], map[], {};
    }

    ghost function OwnedBy(b: Buffer?): set<Unit>
      reads this`owner
    {
      Preimage(owner, b)
    }

    /** The units that work on `b` may touch: its own and the free ones. */
    ghost function Footprint(b: Buffer): set<Unit>
      reads this`owner
    {
      OwnedBy(null) + OwnedBy(b)
    }

    /** The units of all blocks. */
    ghost function Units(): set<Unit>
      reads this`blks
    {
      AllUnits(blks)
    }

    /**
     * Every unit of every block is in the free list, in the chain of one buffer, or one of the units
     * `out` that are being handed over; the lists are well formed and no unit is in two places.
     */
    ghost predicate Valid(out: set<Unit>)
      reads this, idle`next, users, owner.Keys`next
    {
      IdleOk(out) && BlocksOk() && UsersOk()
    }

    /** The chain of each buffer is well formed and holds exactly the units the buffer owns. */
    ghost predicate UsersOk()
      reads this`users, this`owner, users, owner.Keys`next
    {
      && (forall b :: b in users ==> b.pool == this && Elems(b.chain) == OwnedBy(b) && Owned(b))
      && (forall u :: u in owner.Keys && owner[u] != null ==> owner[u] in users)
    }

    ghost predicate Owned(b: Buffer)
      requires Elems(b.chain) <= owner.Keys
      reads b, this`owner, owner.Keys`next
    {
      assert forall u :: u in b.chain ==> u in Elems(b.chain);
      b.Chained()
    }

    ghost predicate IdleOk(out: set<Unit>)
      reads this, idle`next
    {
      && Threaded(free_elem, idle) && NoDup(idle)
      && OwnedBy(null) == Elems(idle) + out && Elems(idle) !! out
    }

    ghost predicate BlocksOk()
      reads this
    {
      && blksize >= 1 && blkcnt == |blks| && owner.Keys == Units()
      && (forall k :: 0 <= k < |blks| ==> |blks[k]| == blksize)
    }

    // ---- taking and returning units ----

    /** Push a unit onto the free list. */
    method PushFree(u: Unit)
      requires Threaded(free_elem, idle) && NoDup(idle) && u !in idle
      modifies this`free_elem, this`idle, u`next
      ensures idle == [u] + old(idle) && Threaded(free_elem, idle) && NoDup(idle)
    {
      ghost var s := idle;
      u.next := free_elem;
      free_elem := u;
      idle := [u] + idle;
      forall i | 0 <= i < |idle| ensures ThreadedAt(idle, i) {
        if i > 0 { assert ThreadedAt(s, i - 1); }
      }
    }

    /** Allocate a block and put its units on the free list. */
    method AddBlock()
      requires Valid({}) && free_elem == null
      modifies this`free_elem, this`idle, this`blks, this`blkcnt, this`owner
      ensures Valid({}) && free_elem != null && fresh(free_elem) && blkcnt == old(blkcnt) + 1
      ensures old(owner.Keys) <= owner.Keys && forall u :: u in owner.Keys && u !in old(owner.Keys) ==> fresh(u)
      ensures forall u :: u in owner.Keys && u !in old(owner.Keys) ==> |u.data| == objsize
      ensures forall u :: u in owner.Keys ==> owner[u] == if u in old(owner).Keys then old(owner)[u] else null
    {
      assert idle == [];
      assert OwnedBy(null) == {};
      var block := BuildBlock();
      NewBlock(block);
    }

    method BuildBlock() returns (block: seq<Unit>)
      requires Threaded(free_elem, idle) && NoDup(idle) && idle == [] && blksize >= 1
      modifies this`free_elem, this`idle
      ensures |block| == blksize && Elems(idle) == Elems(block) && fresh(Elems(block))
      ensures Threaded(free_elem, idle) && NoDup(idle) && free_elem != null && fresh(free_elem)
      ensures forall u :: u in Elems(block) ==> |u.data| == objsize
    {
      block := [];
      for i := 0 to blksize
        invariant |block| == i && Elems(idle) == Elems(block) && fresh(Elems(block))
        invariant forall u :: u in Elems(block) ==> |u.data| == objsize
        invariant Threaded(free_elem, idle) && NoDup(idle) && (i > 0 ==> free_elem != null && fresh(free_elem))
      {
        var obj := new Unit(objsize);
        assert obj !in Elems(block) && obj !in Elems(idle);
        SnocElems(block, obj);
        ConsElems(obj, idle);
        PushFree(obj);
        block := block + [obj];
      }
    }

    /** Record the block and its units, which are on the free list. */
    method NewBlock(block: seq<Unit>)
      requires OwnedBy(null) == {} && BlocksOk() && |block| == blksize && Threaded(free_elem, idle) && NoDup(idle)
      requires Elems(idle) == Elems(block) && Elems(block) !! owner.Keys && UsersOk()
      modifies this`blks, this`blkcnt, this`owner
      ensures Valid({}) && blkcnt == old(blkcnt) + 1 && owner.Keys == old(owner.Keys) + Elems(block)
      ensures forall u :: u in owner.Keys ==> owner[u] == if u in old(owner).Keys then old(owner)[u] else null
    {
      hide Threaded, NoDup, Buffer.Chained, Preimage;
      ghost var o, news := owner, Elems(block);
      blkcnt := blkcnt + 1;
      blks := [block] + blks;
      owner := o + map u: Unit | u in news :: null;
      Extended(o, news, null);
      forall b | b in users ensures OwnedBy(b) == old(OwnedBy(b)) && Elems(b.chain) == OwnedBy(b) && Owned(b) {
        Extended(o, news, b);
        assert old(Owned(b));
      }
    }

    method Get() returns (robj: Unit)
      requires Valid({})
      modifies this`free_elem, this`idle, this`blks, this`blkcnt, this`owner, idle`next
      ensures Valid({robj}) && robj.next == null && robj in owner.Keys && owner[robj] == null
      ensures old(owner.Keys) <= owner.Keys && forall u :: u in owner.Keys && u !in old(owner.Keys) ==> fresh(u)
      ensures forall u :: u in owner.Keys && u !in old(owner.Keys) ==> |u.data| == objsize
      ensures forall u :: u in owner.Keys ==> owner[u] == if u in old(owner).Keys then old(owner)[u] else null
      ensures blkcnt == old(blkcnt) + if old(free_elem) == null then 1 else 0
    {
      if free_elem == null {
        AddBlock();
      }
      robj := PopFree();
    }

    method PopFree() returns (robj: Unit)
      requires Valid({}) && free_elem != null
      modifies this`free_elem, this`idle, free_elem`next
      ensures Valid({robj}) && robj.next == null && robj in owner.Keys && owner[robj] == null
    {
      ghost var s := idle;
      robj := free_elem;
      assert ThreadedAt(s, 0);
      free_elem := robj.next;
      idle := idle[1..];
      robj.next := null;
      ConsElems(robj, idle);
      assert s == [robj] + idle;
      assert robj in Elems(s) && robj in OwnedBy(null);
      UnownedKeepsUsers(robj);
      forall i | 0 <= i < |idle| ensures ThreadedAt(idle, i) {
        assert old(ThreadedAt(s, i + 1));
      }
    }

    /** Changing the link of a unit outside the chains affects no chain. */
    twostate lemma UnownedKeepsUsers(u: Unit)
      requires old(UsersOk()) && users == old(users) && owner == old(owner) && u in OwnedBy(null)
      requires forall v :: v in owner.Keys && v != u ==> v.next == old(v.next)
      requires forall b :: b in users ==> b.chain == old(b.chain) && b.unit_cnt == old(b.unit_cnt)
      requires forall b :: b in users ==> b.unit_head == old(b.unit_head) && b.unit_tail == old(b.unit_tail)
      ensures UsersOk()
    {
      forall b | b in users ensures Elems(b.chain) == OwnedBy(b) && Owned(b) {
        assert old(Owned(b));
        assert forall i :: 0 <= i < |b.chain| ==> b.chain[i] in Elems(b.chain);
        forall i | 0 <= i < |b.chain| ensures ThreadedAt(b.chain, i) {
          assert old(ThreadedAt(b.chain, i));
        }
      }
    }

    /** Return a unit that no chain holds any more. */
    method Free(u: Unit, ghost out: set<Unit>)
      requires Valid(out + {u}) && u !in out
      modifies this`free_elem, this`idle, u`next
      ensures Valid(out) && idle == [u] + old(idle)
    {
      assert u in OwnedBy(null) && u !in Elems(idle);
      ConsElems(u, idle);
      PushFree(u);
      UnownedKeepsUsers(u);
    }

    // ---- changing one chain ----

    /** Work on one buffer affects no other chain. */
    twostate lemma OtherUsers(b: Buffer)
      requires old(UsersOk()) && users == old(users) && b in users
      requires forall c :: c in users && c != b ==> OwnedBy(c) == old(OwnedBy(c)) && c.chain == old(c.chain)
      requires forall c :: c in users && c != b ==>
                 c.unit_head == old(c.unit_head) && c.unit_tail == old(c.unit_tail) && c.unit_cnt == old(c.unit_cnt)
      requires forall u :: u in old(owner.Keys) && old(owner[u] != null && owner[u] != b) ==> u.next == old(u.next)
      ensures forall c :: c in users && c != b ==> Elems(c.chain) == OwnedBy(c) && c.Chained()
    {
      forall c | c in users && c != b ensures Elems(c.chain) == OwnedBy(c) && c.Chained() {
        assert old(Owned(c));
        assert forall i :: 0 <= i < |c.chain| ==> c.chain[i] in Elems(c.chain);
        forall i | 0 <= i < |c.chain| ensures ThreadedAt(c.chain, i) {
          assert old(ThreadedAt(c.chain, i));
        }
      }
    }

    /** Append a unit that was taken from the pool to the chain of `b`. */
    method LinkUnit(b: Buffer, u: Unit)
      requires b in users && Valid({u}) && u.next == null
      modifies this`owner, b`unit_head, b`unit_tail, b`unit_cnt, b`chain
      modifies (if b.chain == [] then {} else {b.chain[|b.chain| - 1]})`next
      ensures Valid({}) && b.chain == old(b.chain) + [u] && owner == old(owner)[u := b]
    {
      hide Threaded, NoDup, Preimage, AllUnits, Elems, Buffer.Chained;
      OutUnit(b, u);
      ghost var s, o := b.chain, owner;
      if b.unit_head == null {
        b.unit_head := u;
        b.unit_tail := u;
      } else {
        b.unit_tail.next := u;
        b.unit_tail := u;
      }
      b.unit_cnt := b.unit_cnt + 1;
      b.chain := s + [u];
      owner := owner[u := b];
      SnocElems(s, u);
      Reowned(o, u, b, b);
      Reowned(o, u, b, null);
      b.LinkedChain();
      forall c | c in users && c != b ensures OwnedBy(c) == old(OwnedBy(c)) {
        Reowned(o, u, b, c);
      }
      OtherUsers(b);
    }

    /** What is known of a unit on its way to the chain of `b`. */
    lemma OutUnit(b: Buffer, u: Unit)
      requires b in users && Valid({u})
      ensures u in owner.Keys && owner[u] == null && u !in idle && u !in Elems(idle) && u !in b.chain && b.Chained()
      ensures (b.unit_head == null <==> b.chain == []) && (b.unit_tail == null <==> b.chain == [])
      ensures b.chain != [] ==> b.unit_tail == b.chain[|b.chain| - 1] && b.unit_tail in owner.Keys
      ensures b.chain != [] ==> owner[b.unit_tail] == b && b.unit_tail !in b.chain[..|b.chain| - 1]
      ensures forall i :: 0 <= i < |idle| ==> idle[i] in owner.Keys && owner[idle[i]] == null
      ensures forall i :: 0 <= i < |b.chain| - 1 ==> b.chain[i] != b.unit_tail
    {
      assert u in OwnedBy(null) && Owned(b);
      assert forall i :: 0 <= i < |idle| ==> idle[i] in Elems(idle) && idle[i] in OwnedBy(null);
      assert forall i :: 0 <= i < |b.chain| ==> b.chain[i] in Elems(b.chain);
    }

    lemma IdleInPool(out: set<Unit>)
      requires Valid(out)
      ensures Elems(idle) <= OwnedBy(null)
    {
    }

    /** What the invariant says of the chains alone. */
    lemma ChainsOwned(out: set<Unit>)
      requires Valid(out)
      ensures out <= OwnedBy(null) && Elems(idle) <= OwnedBy(null)
      ensures forall b :: b in users ==> Elems(b.chain) == OwnedBy(b) && b.Chained()
    {
      assert forall b :: b in users ==> Owned(b);
    }

    lemma HeadOf(b: Buffer)
      requires b in users && Valid({}) && |b.chain| >= 2
      ensures b.Chained() && b.chain[0] !in Elems(idle) && b.unit_head == b.chain[0] && b.unit_head.next == b.chain[1]
      ensures b.chain[0] in owner.Keys && owner[b.chain[0]] == b
      ensures Elems(b.chain[1..]) == Elems(b.chain) - {b.chain[0]} && b.chain[0] !in Elems(b.chain[1..])
    {
      assert Owned(b) && ThreadedAt(b.chain, 0);
      assert b.chain[0] in Elems(b.chain);
      assert b.chain == [b.chain[0]] + b.chain[1..];
      ConsElems(b.chain[0], b.chain[1..]);
    }

    /** Take the first unit off a chain of at least two. */
    method UnlinkHead(b: Buffer) returns (u: Unit)
      requires b in users && Valid({}) && |b.chain| >= 2
      modifies this`owner, b`unit_head, b`unit_cnt, b`chain
      ensures Valid({u}) && u == old(b.chain)[0] && b.chain == old(b.chain)[1..] && owner == old(owner)[u := null]
    {
      hide Threaded, NoDup, Preimage, AllUnits, Elems, Buffer.Chained;
      HeadOf(b);
      ghost var s, o := b.chain, owner;
      u := b.unit_head;
      b.unit_head := u.next;
      b.unit_cnt := b.unit_cnt - 1;
      b.chain := s[1..];
      owner := owner[u := null];
      Reowned(o, u, null, b);
      Reowned(o, u, null, null);
      forall c | c in users && c != b ensures OwnedBy(c) == old(OwnedBy(c)) {
        Reowned(o, u, null, c);
      }
      OtherUsers(b);
      b.UnlinkedChain();
    }
  }

  ghost function Preimage(owner: map<Unit, Buffer?>, b: Buffer?): (units: set<Unit>)
    ensures units <= owner.Keys
  {
    set u | u in owner.Keys && owner[u] == b
  }

  /** A unit that changes owner leaves one preimage and joins another. */
  lemma Reowned(owner: map<Unit, Buffer?>, u: Unit, b: Buffer?, c: Buffer?)
    requires u in owner.Keys && owner[u] != b
    ensures c == b ==> Preimage(owner[u := b], c) == Preimage(owner, c) + {u}
    ensures c == owner[u] ==> Preimage(owner[u := b], c) == Preimage(owner, c) - {u}
    ensures c != b && c != owner[u] ==> Preimage(owner[u := b], c) == Preimage(owner, c)
  {
  }

  lemma Extended(owner: map<Unit, Buffer?>, news: set<Unit>, b: Buffer?)
    requires news !! owner.Keys
    ensures Preimage(owner + map u: Unit | u in news :: null, b) == Preimage(owner, b) + if b == null then news else {}
  {
  }

  ghost function AllUnits(blks: seq<seq<Unit>>): set<Unit> {
    if blks == [] then {} else Elems(blks[0]) + AllUnits(blks[1..])
  }

  lemma ConsElems(u: Unit, s: seq<Unit>)
    ensures Elems([u] + s) == {u} + Elems(s)
  {
  }

  lemma SnocElems(s: seq<Unit>, u: Unit)
    ensures Elems(s + [u]) == Elems(s) + {u}
  {
  }
}
