/** The pooling allocator: units of power-of-two sizes, cut from blocks that count their idle units. */
module Allocator {
  import opened Basics

  const MIN_SIZE_EXP := 2
  const MAX_SIZE_EXP := 30
  const MAX_BLOCKSIZE := 102400000
  const BLOCK_HEADER := 24
  const UNIT_HEADER := 16

  lemma {:induction false} Pow2Grows(m: nat, n: nat)
    requires m < n
    ensures 2 * Pow2(m) <= Pow2(n)
  {
    if m < n - 1 {
      Pow2Grows(m, n - 1);
    }
  }

  /** The unit size of the largest class. */
  const LARGEST := 0x4000_0000

  lemma LargestClass()
    ensures Pow2(MAX_SIZE_EXP) == LARGEST
  {
    assert Pow2(10) == 0x400 && Pow2(20) == 0x10_0000 && Pow2(30) == 0x4000_0000;
  }

  class Block {
    const unitnum: nat
    const pool: SizePool
    const next: Block?
    var idlenum: int

    constructor (pool: SizePool, unitnum: nat, next: Block?)
      ensures this.pool == pool && this.unitnum == unitnum && this.next == next && idlenum == unitnum
    {
      this.pool, this.unitnum, this.next, idlenum := pool, unitnum, next, unitnum;
    }
  }

  class MemUnit {
    const block: Block
    var nextunit: MemUnit?
    var data: seq<int>

    constructor (block: Block, nextunit: MemUnit?, size: nat)
      ensures this.block == block && this.nextunit == nextunit && |data| == size
    {
      this.block, this.nextunit := block, nextunit;
      data := seq(size, _ => 0);
    }
  }

  /** The size of a block of n units. */
  function BlockSize(n: nat, size: nat): nat {
    24 + n * (size + 16)
  }

  /** As many units as fit into a block, but at least one. */
  function UnitsPerBlock(size: nat): (n: nat)
    ensures n >= 1
  {
    var num := (MAX_BLOCKSIZE - BLOCK_HEADER) / (size + UNIT_HEADER);
    if num == 0 then 1 else num
  }

  /** One more unit would not fit. */
  lemma BlockIsFull(size: nat)
    ensures var n := UnitsPerBlock(size);
            n >= 1 && (BlockSize(n, size) <= 102400000 || n == 1) && BlockSize(n + 1, size) > 102400000
  {
    hide BlockSize;
    BlockSizes(size);
  }

  lemma BlockSizes(size: nat)
    ensures var n := (MAX_BLOCKSIZE - BLOCK_HEADER) / (size + UNIT_HEADER);
            && BlockSize(n, size) <= 102400000 < BlockSize(n + 1, size)
            && (n == 0 ==> BlockSize(2, size) > 102400000)
  {
    Quotient(MAX_BLOCKSIZE - BLOCK_HEADER, size + UNIT_HEADER);
  }

  lemma Quotient(a: nat, b: nat)
    requires b > 0
    ensures a / b * b <= a < (a / b + 1) * b
  {
  }

  // ---- lists ----

  ghost predicate Threaded(first: MemUnit?, s: seq<MemUnit>)
    reads s`nextunit
  {
    && first == (if s == [] then null else s[0])
    && forall i :: 0 <= i < |s| ==> ThreadedAt(s, i)
  }

  ghost predicate ThreadedAt(s: seq<MemUnit>, i: int)
    requires 0 <= i < |s|
    reads s`nextunit
  {
    s[i].nextunit == if i + 1 < |s| then s[i + 1] else null
  }

  ghost predicate BlockChain(first: Block?, s: seq<Block>) {
    if s == [] then first == null else first == s[0] && BlockChain(s[0].next, s[1..])
  }

  /** How many units of the list belong to the block. */
  ghost function Count(s: seq<MemUnit>, b: Block): nat {
    if s == [] then 0 else (if s[0].block == b then 1 else 0) + Count(s[1..], b)
  }

  lemma {:induction false} CountRemove(s: seq<MemUnit>, i: nat, b: Block)
    requires i < |s|
    ensures Count(s, b) == Count(RemoveAt(s, i), b) + if s[i].block == b then 1 else 0
  {
    if i == 0 {
      assert RemoveAt(s, 0) == s[1..];
    } else {
      assert RemoveAt(s, i) == [s[0]] + RemoveAt(s[1..], i - 1);
      CountRemove(s[1..], i - 1, b);
    }
  }

  /** The outstanding units of all blocks. */
  ghost function Total(blocks: seq<Block>, busy: seq<MemUnit>): nat {
    if blocks == [] then 0 else Count(busy, blocks[0]) + Total(blocks[1..], busy)
  }

  /** Counted block by block, every unit is counted once. */
  lemma {:induction false} TotalIsAll(blocks: seq<Block>, busy: seq<MemUnit>)
    requires NoDup(blocks) && forall u :: u in busy ==> u.block in blocks
    ensures Total(blocks, busy) == |busy|
  {
    if busy == [] {
      NoneBusy(blocks);
    } else {
      TotalIsAll(blocks, busy[1..]);
      var k :| 0 <= k < |blocks| && blocks[k] == busy[0].block;
      OneMore(blocks, busy, k);
    }
  }

  lemma {:induction false} NoneBusy(blocks: seq<Block>)
    ensures Total(blocks, []) == 0
  {
    if blocks != [] {
      NoneBusy(blocks[1..]);
    }
  }

  lemma {:induction false} OneMore(blocks: seq<Block>, busy: seq<MemUnit>, k: int)
    requires NoDup(blocks) && busy != [] && -1 <= k < |blocks|
    requires if k >= 0 then blocks[k] == busy[0].block else busy[0].block !in blocks
    ensures Total(blocks, busy) == Total(blocks, busy[1..]) + if k >= 0 then 1 else 0
  {
    if blocks != [] {
      assert k != 0 ==> blocks[0] != busy[0].block;
      if k == 0 {
        forall i | 1 <= i < |blocks| ensures blocks[i] != busy[0].block {}
      }
      OneMore(blocks[1..], busy, if k > 0 then k - 1 else -1);
    }
  }

  class SizePool {
    const unitsize: nat
    const unitnum: nat
    var blknum: nat
    var blkhead: Block?
    var idleunit: MemUnit?
    ghost var blocks: seq<Block>
    ghost var idle: seq<MemUnit>    // the idle list
    ghost var busy: seq<MemUnit>    // units that were handed out

    constructor (exp: nat)
      ensures Valid() && unitsize == Pow2(exp) && busy == idle == [] && blocks == [] && Repr() == {this}
      ensures unitnum == UnitsPerBlock(unitsize)
    {
      var size := Pow2(exp);
      unitsize := size;
      unitnum := UnitsPerBlock(size);
      blknum, blkhead, idleunit := 0, null, null;
      blocks, idle, busy := [], [], [];
      new;
      assert idle + busy == [];
    }

    /** The pool with its blocks and units. */
    ghost function Repr(): set<object>
      reads this
    {
      {this} + (set b | b in blocks :: b as object) + (set u | u in idle + busy :: u as object)
    }

    ghost predicate Valid()
      reads this, Repr()
    {
      assert forall i :: 0 <= i < |idle| ==> idle[i] in idle + busy;
      && unitnum >= 1 && Threaded(idleunit, idle) && NoDup(idle + busy)
      && blknum == |blocks| && BlockChain(blkhead, blocks) && NoDup(blocks)
      && (forall u :: u in idle + busy ==> u.block in blocks && |u.data| == unitsize)
      && (forall b :: b in blocks ==> BlockOk(b))
    }

    /** The block counts its idle units, and all its units are idle or outstanding. */
    ghost predicate BlockOk(b: Block)
      reads this`idle, this`busy, b`idlenum
    {
      && b.pool == this && b.unitnum == unitnum
      && b.idlenum == Count(idle, b) && Count(idle, b) + Count(busy, b) == unitnum
    }

    lemma Belongs()
      requires Valid()
      ensures this in Repr() && (forall b: Block :: b in blocks ==> b in Repr() && b.pool == this)
      ensures forall u: MemUnit :: u in idle + busy ==> u in Repr() && u.block in blocks && u.block.pool == this
    {
      assert forall b :: b in blocks ==> BlockOk(b);
    }

    lemma BusyOnce()
      requires Valid()
      ensures NoDup(busy) && forall u :: u in busy ==> u.block.pool == this
    {
      Belongs();
      var s := idle + busy;
      assert forall k :: 0 <= k < |busy| ==> busy[k] == s[|idle| + k];
      assert forall u :: u in busy ==> u in s;
    }

    lemma NotIdle(i: nat)
      requires Valid() && i < |busy|
      ensures busy[i] !in idle
    {
      var s := idle + busy;
      assert s[|idle| + i] == busy[i];
      assert forall k :: 0 <= k < |idle| ==> s[k] == idle[k] && s[k] != s[|idle| + i];
    }

    lemma HasSize(u: MemUnit)
      requires Valid() && u in busy
      ensures |u.data| == unitsize
    {
      assert u in idle + busy;
    }

    // ---- one size class ----

    /** Cut a new block into idle units. */
    method AppendMemblock()
      requires Valid() && idleunit == null
      modifies this`blknum, this`blkhead, this`idleunit, this`blocks, this`idle
      ensures Valid() && idleunit != null && blknum == old(blknum) + 1 && busy == old(busy)
      ensures fresh(idle) && fresh(idleunit) && fresh(idleunit.block)
      ensures forall b :: b in blocks ==> b in old(blocks) || fresh(b)
    {
      hide Threaded, BlockChain, Count;
      IdleEmpty();
      assert idle + busy == busy;
      var block := new Block(this, unitnum, blkhead);
      NoneOf(busy, block);
      AddBlock(block);
      CutUnits(block);
    }

    lemma IdleEmpty()
      requires Threaded(idleunit, idle)
      ensures idleunit == null <==> idle == []
    {
    }

    method AddBlock(block: Block)
      requires BlockChain(blkhead, blocks) && NoDup(blocks) && block !in blocks && block.next == blkhead
      modifies this`blknum, this`blkhead, this`blocks
      ensures BlockChain(blkhead, blocks) && NoDup(blocks)
      ensures blocks == [block] + old(blocks) && blknum == old(blknum) + 1
    {
      blkhead := block;
      blknum := blknum + 1;
      blocks := [block] + blocks;
    }

    method CutUnits(block: Block)
      requires idle == [] && idleunit == null && Threaded(idleunit, idle) && NoDup(busy) && unitnum >= 1
      requires blocks != [] && blocks[0] == block && block.pool == this && block.unitnum == unitnum
      requires block.idlenum == unitnum && Count(busy, block) == 0 && NoDup(blocks)
      requires forall u :: u in busy ==> u.block in blocks && |u.data| == unitsize
      requires blknum == |blocks| && BlockChain(blkhead, blocks)
      requires forall b :: b in blocks && b != block ==> BlockOk(b)
      modifies this`idleunit, this`idle
      ensures Valid() && idleunit != null && fresh(idle) && idleunit.block == block && fresh(idleunit)
    {
      hide BlockChain, Threaded;
      for ind := 0 to unitnum
        invariant |idle| == ind && Threaded(idleunit, idle) && NoDup(idle) && fresh(idle)
        invariant forall u :: u in idle ==> u.block == block && |u.data| == unitsize
        invariant Count(idle, block) == ind
      {
        var unit := new MemUnit(block, idleunit, unitsize);
        assert unit !in idle;
        PushFront(unit);
      }
      IdleEmpty();
      ThreadedFirst(idleunit, idle);
      Joined(idle, busy);
      forall b | b in blocks && b != block ensures Count(idle, b) == 0 {
        NoneOf(idle, b);
      }
    }

    method PushFront(unit: MemUnit)
      requires Threaded(idleunit, idle) && NoDup(idle) && unit !in idle && unit.nextunit == idleunit
      modifies this`idleunit, this`idle
      ensures Threaded(idleunit, idle) && NoDup(idle) && idle == [unit] + old(idle)
    {
      ghost var s := idle;
      idleunit := unit;
      idle := [unit] + idle;
      forall i | 0 <= i < |idle| ensures ThreadedAt(idle, i) {
        if i > 0 { assert ThreadedAt(s, i - 1); }
      }
    }

    /** Hand out the first idle unit; there may have to be a new block first. */
    method Take() returns (uunit: MemUnit)
      requires Valid()
      modifies this`blknum, this`blkhead, this`idleunit, this`blocks, this`idle, this`busy, blocks`idlenum
      ensures Valid() && busy == [uunit] + old(busy) && uunit.block.pool == this
      ensures (uunit in old(idle) || fresh(uunit))
      ensures forall u :: u in idle ==> u in old(idle) || fresh(u)
      ensures forall b :: b in blocks ==> b in old(blocks) || fresh(b)
      ensures blknum == old(blknum) + if old(idleunit) == null then 1 else 0
    {
      hide Valid, Repr;
      if idleunit == null {
        AppendMemblock();
      } else {
        FirstIdle();
      }
      uunit := TakeIdle();
    }

    lemma FirstIdle()
      requires Valid() && idleunit != null
      ensures idleunit in idle && idleunit.block in blocks
    {
      assert idle[0] in idle + busy;
    }

    method TakeIdle() returns (uunit: MemUnit)
      requires Valid() && idleunit != null
      modifies this`idleunit, this`idle, this`busy, idleunit.block`idlenum
      ensures Valid() && busy == [uunit] + old(busy) && uunit in old(idle) && uunit.block.pool == this
      ensures idle == old(idle)[1..]
    {
      hide BlockChain;
      uunit := idleunit;
      var ublock := uunit.block;
      ghost var s := idle;
      ThreadedFirst(uunit, idle);
      assert uunit in idle + busy;
      idleunit := uunit.nextunit;
      ublock.idlenum := ublock.idlenum - 1;
      idle := idle[1..];
      busy := [uunit] + busy;
      Handed(s, old(busy));
      forall b | b in blocks ensures BlockOk(b) {
        assert old(BlockOk(b));
      }
    }

    /** Take a unit back. */
    method GiveBack(uunit: MemUnit, ghost i: nat)
      requires Valid() && i < |busy| && busy[i] == uunit
      modifies this`idleunit, this`idle, this`busy, uunit`nextunit, uunit.block`idlenum
      ensures Valid() && idle == [uunit] + old(idle) && busy == RemoveAt(old(busy), i)
    {
      hide BlockChain, NoDup, Threaded;
      ghost var s := busy;
      var ublock := uunit.block;
      assert uunit in idle + busy;
      Returned(idle, s, i);
      ReturnedOnce(idle, s, i);
      uunit.nextunit := idleunit;
      PushFront(uunit);
      busy := RemoveAt(busy, i);
      ublock.idlenum := ublock.idlenum + 1;
      forall b | b in blocks ensures BlockOk(b) {
        assert old(BlockOk(b));
        CountRemove(s, i, b);
      }
    }

    /** Walk the blocks, adding up what each has handed out. */
    method UsedNum() returns (n: int)
      requires Valid()
      ensures n == |busy|
    {
      TotalIsAll(blocks, busy);
      n := 0;
      var block := blkhead;
      ghost var rest := blocks;
      while block != null
        invariant BlockChain(block, rest) && n + Total(rest, busy) == |busy|
        invariant forall b :: b in rest ==> b in blocks
        decreases |rest|
      {
        assert BlockOk(block);
        n := n + (block.unitnum - block.idlenum);
        block := block.next;
        rest := rest[1..];
      }
    }
  }

  lemma ThreadedFirst(first: MemUnit, s: seq<MemUnit>)
    requires Threaded(first, s)
    ensures s != [] && s[0] == first && s == [first] + s[1..] && Threaded(first.nextunit, s[1..])
  {
    assert ThreadedAt(s, 0);
    forall i | 0 <= i < |s| - 1 ensures ThreadedAt(s[1..], i) {
      assert ThreadedAt(s, i + 1);
    }
  }

  /** The first idle unit becomes the first outstanding one. */
  lemma Handed(idle: seq<MemUnit>, busy: seq<MemUnit>)
    requires idle != [] && NoDup(idle + busy)
    ensures NoDup(idle[1..] + ([idle[0]] + busy))
    ensures forall u :: u in idle[1..] + ([idle[0]] + busy) <==> u in idle + busy
  {
    var s, t := idle + busy, idle[1..] + ([idle[0]] + busy);
    var n := |idle| - 1;
    assert forall i :: 0 <= i < |t| ==> t[i] == s[if i < n then i + 1 else if i == n then 0 else i];
    assert forall i :: 0 <= i < |s| ==> s[i] == t[if i == 0 then n else if i <= n then i - 1 else i];
  }

  /** An outstanding unit becomes the first idle one. */
  lemma Returned(idle: seq<MemUnit>, busy: seq<MemUnit>, i: nat)
    requires i < |busy| && NoDup(idle + busy)
    ensures NoDup(([busy[i]] + idle) + RemoveAt(busy, i)) && NoDup(idle)
    ensures forall u :: u in ([busy[i]] + idle) + RemoveAt(busy, i) <==> u in idle + busy
  {
    var s := idle + busy;
    ReturnedNoDup(idle, busy, i);
    ReturnedElems(idle, busy, i);
    assert forall k :: 0 <= k < |idle| ==> s[k] == idle[k];
  }

  lemma ReturnedNoDup(idle: seq<MemUnit>, busy: seq<MemUnit>, i: nat)
    requires i < |busy| && NoDup(idle + busy)
    ensures NoDup(([busy[i]] + idle) + RemoveAt(busy, i))
  {
    hide RemoveAt;
    var s, t, n := idle + busy, ([busy[i]] + idle) + RemoveAt(busy, i), |idle| + i;
    ReturnedPlaces(idle, busy, i);
    forall k, l | 0 <= k < l < |t| ensures t[k] != t[l] {
      assert s[if k == 0 then n else if k <= n then k - 1 else k] != s[if l <= n then l - 1 else l];
    }
  }

  lemma ReturnedElems(idle: seq<MemUnit>, busy: seq<MemUnit>, i: nat)
    requires i < |busy|
    ensures forall u :: u in ([busy[i]] + idle) + RemoveAt(busy, i) <==> u in idle + busy
  {
    assert busy == busy[..i] + [busy[i]] + busy[i + 1..];
  }

  lemma ReturnedPlaces(idle: seq<MemUnit>, busy: seq<MemUnit>, i: nat)
    requires i < |busy|
    ensures var s, t, n := idle + busy, ([busy[i]] + idle) + RemoveAt(busy, i), |idle| + i;
            && |t| == |s|
            && (forall k :: 0 <= k < |t| ==> t[k] == s[if k == 0 then n else if k <= n then k - 1 else k])
            && (forall k :: 0 <= k < |s| ==> s[k] == t[if k < n then k + 1 else if k == n then 0 else k])
  {
  }

  lemma ReturnedOnce(idle: seq<MemUnit>, busy: seq<MemUnit>, i: nat)
    requires i < |busy| && NoDup(idle + busy)
    ensures busy[i] !in idle && busy[i] !in RemoveAt(busy, i)
  {
    var s := idle + busy;
    var n := |idle| + i;
    assert s[n] == busy[i];
    assert forall k :: 0 <= k < |idle| ==> s[k] == idle[k] && s[k] != s[n];
    var rest := RemoveAt(busy, i);
    assert forall k :: 0 <= k < |rest| ==> rest[k] == s[if k < i then |idle| + k else |idle| + k + 1];
  }

  lemma Joined(s: seq<MemUnit>, t: seq<MemUnit>)
    requires NoDup(s) && NoDup(t) && forall u :: u in s ==> u !in t
    ensures NoDup(s + t)
  {
    forall i, j | 0 <= i < j < |s + t| ensures (s + t)[i] != (s + t)[j] {
      if i < |s| <= j {
        assert s[i] in s && t[j - |s|] in t;
      }
    }
  }

  lemma {:induction false} NoneOf(s: seq<MemUnit>, b: Block)
    requires forall u :: u in s ==> u.block != b
    ensures Count(s, b) == 0
  {
    if s != [] {
      NoneOf(s[1..], b);
    }
  }

  // ---- the allocator ----

  /** The outstanding units of the first k size classes. */
  ghost function Outstanding(pools: seq<SizePool>, k: nat): nat
    requires k <= |pools|
    reads pools
  {
    if k == 0 then 0 else Outstanding(pools, k - 1) + |pools[k - 1].busy|
  }

  class Allocator {
    var pools: seq<SizePool>    // empty until the first allocation

    constructor ()
      ensures Valid() && pools == []
    {
      pools := [];
    }

    ghost predicate Valid()
      reads this, pools, set p, o | p in pools && o in p.Repr() :: o
    {
      && (pools == [] || |pools| == CLASSES)
      && NoDup(pools)
      && forall k :: 0 <= k < |pools| ==> pools[k].Valid() && pools[k].unitsize == Pow2(k + MIN_SIZE_EXP)
    }

    /** One pool for each size class. */
    method CreateMempools()
      requires pools == []
      modifies this
      ensures Valid() && |pools| == CLASSES == 29 && fresh(pools)
      ensures pools[0].unitsize == 4 && forall k :: 0 <= k < 28 ==> pools[k + 1].unitsize == 2 * pools[k].unitsize
      ensures forall k :: 0 <= k < |pools| ==> pools[k].busy == []
      ensures Blocks() == {} && Spare() == {}
    {
      hide SizePool.Valid, SizePool.Repr;
      var made: seq<SizePool> := [];
      for exp := MIN_SIZE_EXP to MAX_SIZE_EXP + 1
        invariant |made| == exp - MIN_SIZE_EXP && fresh(made) && NoDup(made)
        invariant forall k :: 0 <= k < |made| ==>
                    made[k].Valid() && made[k].unitsize == Pow2(k + MIN_SIZE_EXP)
        invariant forall k :: 0 <= k < |made| ==> made[k].busy == [] && made[k].blocks == [] && made[k].idle == []
        invariant forall k :: 0 <= k < |made| ==> made[k].Repr() == {made[k]}
      {
        var pool := new SizePool(exp);
        made := made + [pool];
      }
      pools := made;
    }

    /** The blocks of all pools. */
    ghost function Blocks(): set<Block>
      reads this, pools
    {
      set p, b | p in pools && b in p.blocks :: b
    }

    /** The idle units of all pools. */
    ghost function Spare(): set<MemUnit>
      reads this, pools
    {
      set p, u | p in pools && u in p.idle :: u
    }

    /** What is outstanding in a size class. */
    ghost function Busy(k: nat): seq<MemUnit>
      reads this, pools
    {
      if k < |pools| then pools[k].busy else []
    }

    lemma Apart(i: nat, k: nat)
      requires Valid() && i < |pools| && k < |pools| && i != k
      ensures pools[i].Repr() !! pools[k].Repr()
    {
      hide SizePool.Valid, Pow2;
      pools[i].Belongs();
      pools[k].Belongs();
    }

    /** The pools are created by the first allocation. */
    method EnsureMempools()
      requires Valid()
      modifies this
      ensures Valid() && |pools| == CLASSES && fresh(Blocks() - old(Blocks()))
      ensures Spare() == old(Spare())
      ensures if old(pools) != [] then pools == old(pools) else fresh(pools)
      ensures forall i :: Busy(i) == old(Busy(i))
    {
      hide Pow2, SizePool.Valid, SizePool.Repr;
      if pools == [] {
        CreateMempools();
      }
    }

    /** A unit of at least the size, of the least class that has such units; null beyond the largest class. */
    method Alloc(size: nat) returns (ptr: MemUnit?, ghost k: nat)
      requires Valid()
      modifies this, pools, Blocks()`idlenum
      ensures old(pools) != [] ==> pools == old(pools)
      ensures Grown({})
      ensures Valid() && (ptr == null <==> size > 0x4000_0000)
      ensures ptr == null ==> forall i :: Busy(i) == old(Busy(i))
      ensures ptr != null ==> k < |pools| == CLASSES && Least(size, k + MIN_SIZE_EXP)
      ensures ptr != null ==> |ptr.data| == Pow2(k + MIN_SIZE_EXP)
      ensures ptr != null ==> ptr.block.pool == pools[k] && (ptr in old(Spare()) || fresh(ptr))
      ensures ptr != null ==> forall i :: Busy(i) == if i == k then [ptr] + old(Busy(i)) else old(Busy(i))
    {
      hide Pow2, Least, Valid, SizePool.Valid;
      EnsureMempools();
      ptr, k := Fetch(size);
    }

    /** With the pools in place: find the class, and take a unit from its pool. */
    method Fetch(size: nat) returns (ptr: MemUnit?, ghost k: nat)
      requires Valid() && |pools| == CLASSES
      modifies pools, Blocks()`idlenum
      ensures Grown({})
      ensures Valid() && (ptr == null <==> size > LARGEST)
      ensures ptr == null ==> forall i :: Busy(i) == old(Busy(i))
      ensures ptr != null ==> k < |pools| == CLASSES && Least(size, k + MIN_SIZE_EXP)
      ensures ptr != null ==> |ptr.data| == Pow2(k + MIN_SIZE_EXP)
      ensures ptr != null ==> ptr.block.pool == pools[k] && (ptr in old(Spare()) || fresh(ptr))
      ensures ptr != null ==> forall i :: Busy(i) == if i == k then [ptr] + old(Busy(i)) else old(Busy(i))
    {
      hide Pow2, Least, Valid, SizePool.Valid, Blocks, Spare;
      var ind := ClassOf(size);
      StillValid();
      ptr, k := FetchFrom(size, ind);
    }

    /** Nothing has changed. */
    twostate lemma StillValid()
      requires old(Valid()) && unchanged(this) && forall p :: p in pools ==> unchanged(p) && unchanged(p.Repr())
      ensures Valid()
    {
      hide SizePool.Valid, Pow2;
      forall j | 0 <= j < |pools| ensures pools[j].Valid() {
        assert old(pools[j].Valid()) && pools[j] in pools;
      }
    }

    method FetchFrom(size: nat, ind: nat) returns (ptr: MemUnit?, ghost k: nat)
      requires Valid() && |pools| == CLASSES && Least(size, ind)
      modifies pools, Blocks()`idlenum
      ensures Grown({})
      ensures Valid() && (ptr == null <==> size > LARGEST)
      ensures ptr == null ==> forall i :: Busy(i) == old(Busy(i))
      ensures ptr != null ==> k < |pools| == CLASSES && Least(size, k + MIN_SIZE_EXP)
      ensures ptr != null ==> |ptr.data| == Pow2(k + MIN_SIZE_EXP)
      ensures ptr != null ==> ptr.block.pool == pools[k] && (ptr in old(Spare()) || fresh(ptr))
      ensures ptr != null ==> forall i :: Busy(i) == if i == k then [ptr] + old(Busy(i)) else old(Busy(i))
    {
      hide Pow2, Least, Valid, Blocks, Spare, SizePool.Valid;
      ClassExists(size, ind);
      k := ind - MIN_SIZE_EXP;
      assert k + MIN_SIZE_EXP == ind;
      if ind > MAX_SIZE_EXP {
        return null, k;
      }
      InBlocks(k);
      ptr := AllocIn(ind - MIN_SIZE_EXP);
    }

    lemma InBlocks(k: nat)
      requires k < |pools|
      ensures forall b :: b in pools[k].blocks ==> b in Blocks()
      ensures forall u :: u in pools[k].idle ==> u in Spare()
    {
    }

    /** What is added to the pools and the blocks is new; idle units are new or among those given back. */
    twostate predicate Grown(new back: set<MemUnit>)
      reads this, pools
    {
      && (forall p :: p in pools ==> p in old(pools) || fresh(p))
      && (forall b :: b in Blocks() ==> b in old(Blocks()) || fresh(b))
      && (forall u :: u in Spare() ==> u in old(Spare()) || u in back || fresh(u))
    }

    /** What may have been given back may be more. */
    twostate lemma GrownMore()
      ensures forall back: set<MemUnit>, more: set<MemUnit> :: back <= more && Grown(back) ==> Grown(more)
    {
    }

    method AllocIn(ind: nat) returns (uunit: MemUnit)
      requires Valid() && ind < |pools|
      modifies pools[ind], pools[ind].blocks`idlenum
      ensures (uunit in old(pools[ind].idle) || fresh(uunit)) && Grown({})
      ensures Valid() && uunit.block.pool == pools[ind] && |uunit.data| == Pow2(ind + MIN_SIZE_EXP)
      ensures forall i :: Busy(i) == if i == ind then [uunit] + old(Busy(i)) else old(Busy(i))
    {
      hide Valid, SizePool.Valid, Pow2;
      Separate(ind);
      uunit := AllocFrom(ind);
    }

    lemma Separate(ind: nat)
      requires Valid() && ind < |pools|
      ensures forall j :: 0 <= j < |pools| && j != ind ==> pools[j] != pools[ind]
    {
    }

    method AllocFrom(ind: nat) returns (uunit: MemUnit)
      requires Valid() && ind < |pools|
      modifies pools[ind], pools[ind].blocks`idlenum
      ensures (uunit in old(pools[ind].idle) || fresh(uunit))
      ensures Valid() && uunit.block.pool == pools[ind] && |uunit.data| == Pow2(ind + MIN_SIZE_EXP)
      ensures forall i :: Busy(i) == if i == ind then [uunit] + old(Busy(i)) else old(Busy(i))
      ensures forall u :: u in pools[ind].idle ==> u in old(pools[ind].idle) || fresh(u)
      ensures forall b :: b in pools[ind].blocks ==> b in old(pools[ind].blocks) || fresh(b)
    {
      hide SizePool.Valid;
      forall i | 0 <= i < |pools| && i != ind
        ensures pools[i].Repr() !! pools[ind].Repr() && pools[i] in pools[i].Repr()
      {
        Apart(i, ind);
        pools[i].Belongs();
      }
      pools[ind].Belongs();
      uunit := pools[ind].Take();
      pools[ind].HasSize(uunit);
    }

    /** The unit is outstanding: the i-th of class k. */
    ghost predicate Holds(ptr: MemUnit, k: nat, i: nat)
      reads this, pools
    {
      k < |pools| && i < |pools[k].busy| && pools[k].busy[i] == ptr
    }

    /** Free an outstanding unit. */
    method Free(ptr: MemUnit, ghost k: nat, ghost i: nat)
      requires Valid() && Holds(ptr, k, i)
      modifies pools[k], ptr`nextunit, ptr.block`idlenum
      ensures Valid() && pools == old(pools) && Grown({ptr})
      ensures forall j :: Busy(j) == if j == k then RemoveAt(old(Busy(k)), i) else old(Busy(j))
    {
      hide SizePool.Valid;
      forall j | 0 <= j < |pools| && j != k ensures pools[j].Repr() !! pools[k].Repr() && pools[j] in pools[j].Repr() {
        Apart(j, k);
        pools[j].Belongs();
      }
      pools[k].Belongs();
      assert ptr in pools[k].idle + pools[k].busy;
      var upool := ptr.block.pool;
      upool.GiveBack(ptr, i);
    }

    /** Copy the contents of one unit to the start of another. */
    method CopyInto(to: MemUnit, from: MemUnit, ghost k: nat)
      requires Valid() && k < |pools| && to in pools[k].busy && to != from && |from.data| <= |to.data|
      modifies to`data
      ensures Valid() && |to.data| == |old(to.data)| && from.data <= to.data
    {
      hide Threaded, NoDup, BlockChain, Count;
      to.data := from.data + to.data[|from.data|..];
    }

    /** Grow a unit: it stays where it is if it is large enough, and otherwise moves with its contents. */
    method Realloc(ptr: MemUnit, size: nat, ghost k: nat, ghost i: nat) returns (newptr: MemUnit, ghost k': nat)
      requires Valid() && Holds(ptr, k, i) && size <= LARGEST
      modifies this, pools, Blocks()`idlenum, ptr`nextunit, Spare()`data
      ensures Valid() && |newptr.data| >= size && old(ptr.data) <= newptr.data
      ensures newptr == ptr <==> size <= |old(ptr.data)|
      ensures newptr == ptr ==> k' == k && newptr.data == old(ptr.data) && forall j :: Busy(j) == old(Busy(j))
      ensures newptr != ptr ==> CLASSES > k' > k && Least(size, k' + MIN_SIZE_EXP)
      ensures newptr != ptr ==> Busy(k) == RemoveAt(old(Busy(k)), i) && Busy(k') == [newptr] + old(Busy(k'))
      ensures forall j :: j != k && j != k' ==> Busy(j) == old(Busy(j))
      ensures Grown({ptr}) && (newptr == ptr || newptr in old(Spare()) || fresh(newptr))
    {
      hide SizePool.Valid, Pow2, Least, Blocks;
      HeldFacts(ptr, k, i);
      var upool := ptr.block.pool;
      if size <= upool.unitsize {
        return ptr, k;
      }
      newptr, k' := Move(ptr, size, k, i);
    }

    lemma HeldFacts(ptr: MemUnit, k: nat, i: nat)
      requires Valid() && Holds(ptr, k, i)
      ensures ptr.block.pool == pools[k] && |ptr.data| == pools[k].unitsize == Pow2(k + MIN_SIZE_EXP)
      ensures ptr !in Spare() && ptr.block in Blocks()
    {
      pools[k].Belongs();
      pools[k].HasSize(ptr);
      pools[k].NotIdle(i);
      assert ptr in pools[k].idle + pools[k].busy;
      forall j | 0 <= j < |pools| && j != k ensures ptr !in pools[j].idle {
        pools[j].Belongs();
      }
    }

    /** Take a larger unit, copy the contents, and free the old one. */
    method Move(ptr: MemUnit, size: nat, ghost k: nat, ghost i: nat) returns (newptr: MemUnit, ghost k': nat)
      requires Valid() && Holds(ptr, k, i) && |ptr.data| < size <= LARGEST
      modifies this, pools, Blocks()`idlenum, ptr`nextunit, Spare()`data
      ensures Valid() && newptr != ptr && |newptr.data| >= size && old(ptr.data) <= newptr.data
      ensures CLASSES > k' > k && Least(size, k' + MIN_SIZE_EXP)
      ensures Busy(k) == RemoveAt(old(Busy(k)), i) && Busy(k') == [newptr] + old(Busy(k'))
      ensures forall j :: j != k && j != k' ==> Busy(j) == old(Busy(j))
      ensures Grown({ptr}) && (newptr in old(Spare()) || fresh(newptr))
    {
      hide Valid, SizePool.Valid, Pow2, Least, Spare, Blocks;
      HeldFacts(ptr, k, i);
      newptr, k' := Alloc(size);
      Larger(size, k, k');
      assert Busy(k') == [newptr] + old(Busy(k')) && Busy(k) == old(Busy(k));
      Exchange(newptr, ptr, k, i, k');
    }

    /** Copy the contents of one outstanding unit to another, and free the first. */
    method Exchange(newptr: MemUnit, ptr: MemUnit, ghost k: nat, ghost i: nat, ghost k': nat)
      requires Valid() && Holds(ptr, k, i) && newptr in Busy(k') && newptr != ptr && |ptr.data| <= |newptr.data|
      modifies pools[k], ptr`nextunit, ptr.block`idlenum, newptr`data
      ensures Valid() && pools == old(pools) && |newptr.data| == |old(newptr.data)| && old(ptr.data) <= newptr.data
      ensures forall j :: Busy(j) == if j == k then RemoveAt(old(Busy(k)), i) else old(Busy(j))
      ensures Grown({ptr})
    {
      hide Valid, SizePool.Valid, Pow2, Spare, Blocks;
      CopyInto(newptr, ptr, k');
      HeldFacts(ptr, k, i);
      Free(ptr, k, i);
    }

    /** The units outstanding in all classes but the largest, counted block by block. */
    method LeakNum() returns (ret: int)
      requires Valid()
      ensures pools == [] ==> ret == 0
      ensures pools != [] ==> ret == Outstanding(pools, MAX_SIZE_EXP - MIN_SIZE_EXP)
      ensures pools != [] ==> (ret == Outstanding(pools, CLASSES) <==> pools[CLASSES - 1].busy == [])
    {
      ret := 0;
      if pools == [] {
        return;
      }
      for ind := 0 to MAX_SIZE_EXP - MIN_SIZE_EXP
        invariant ret == Outstanding(pools, ind)
      {
        var n := pools[ind].UsedNum();
        ret := ret + n;
      }
    }

    // ---- whole runs ----

    ghost function Lists(): (bs: seq<seq<MemUnit>>)
      reads this, pools
      ensures |bs| == CLASSES && forall k :: 0 <= k < CLASSES ==> bs[k] == Busy(k)
    {
      seq(CLASSES, k requires 0 <= k < CLASSES reads this, pools => Busy(k))
    }

    lemma NothingHeld()
      requires pools == []
      ensures AllOf(Lists()) == multiset{} && Blocks() == {} && Spare() == {}
    {
      Nothing(Lists());
    }

    /** No unit is handed out twice. */
    lemma HeldOnce(live: seq<MemUnit>)
      requires Valid() && multiset(live) == AllOf(Lists())
      ensures NoDup(live)
    {
      hide SizePool.Valid, AllOf;
      forall k | 0 <= k < CLASSES ensures OfOnePool(Lists(), k) {
        if k < |pools| {
          pools[k].BusyOnce();
        }
      }
      AtMostOnce(Lists());
      OnceEach(live);
    }

    ghost predicate OfOnePool(bs: seq<seq<MemUnit>>, k: nat)
      requires k < |bs|
      reads this
    {
      NoDup(bs[k]) && (bs[k] != [] ==> k < |pools|) && forall u :: u in bs[k] ==> u.block.pool == pools[k]
    }

    lemma {:induction false} AtMostOnce(bs: seq<seq<MemUnit>>)
      requires NoDup(pools) && forall k :: 0 <= k < |bs| ==> OfOnePool(bs, k)
      ensures forall u :: AllOf(bs)[u] <= 1
    {
      Disjoint(bs);
      forall k | 0 <= k < |bs| ensures NoDup(bs[k]) {
        assert OfOnePool(bs, k);
      }
      Distinct(bs);
    }

    lemma Disjoint(bs: seq<seq<MemUnit>>)
      requires NoDup(pools) && forall k :: 0 <= k < |bs| ==> OfOnePool(bs, k)
      ensures forall i, j :: 0 <= i < j < |bs| ==> Separated(bs[i], bs[j])
    {
      forall i, j | 0 <= i < j < |bs| ensures Separated(bs[i], bs[j]) {
        assert OfOnePool(bs, i) && OfOnePool(bs, j);
      }
    }

    /** One call of the user, who holds the units of `live`, or one write to such a unit. */
    method Perform(op: Op, live: seq<MemUnit>) returns (live': seq<MemUnit>)
      requires Valid() && multiset(live) == AllOf(Lists()) && (op.Resize? ==> op.size <= LARGEST)
      requires op.Write? && op.n < |live| ==> op.at < |live[op.n].data|
      modifies this, pools, Blocks()`idlenum, live`nextunit, live`data, Spare()`data
      ensures Valid() && multiset(live') == AllOf(Lists())
      ensures Grown(set u | u in live)
      ensures forall u :: u in live' ==> u in live || u in old(Spare()) || fresh(u)
      ensures Traded(op, live, live') && Follows(op, old(Contents(live)), Contents(live'))
    {
      hide Valid, SizePool.Valid, Pow2, Least, Blocks, Spare, AllOf, Lists, Contents, RemoveAt, Follows, Grown;
      live' := live;
      ghost var before := Contents(live);
      if !op.Get? && op.n >= |live| {
        Ignored(op, before);
        Untouched(live);
        return;
      }
      match op
      case Get(size) =>
        live' := GetOne(live, size);
        GotOne(size, live, live', before, Contents(live'));
      case Resize(n, size) =>
        live' := ResizeNth(live, n, size);
        Resized(n, size, live, live', before, Contents(live'));
      case Drop(n) =>
        live' := DropNth(live, n);
        DroppedNth(n, live, live', before, Contents(live'));
      case Write(n, at, value) =>
        WriteNth(live, n, at, value);
        Written(n, at, value, before, Contents(live));
    }

    ghost method Untouched(live: seq<MemUnit>)
      requires Valid() && multiset(live) == AllOf(Lists())
      ensures Valid() && multiset(live) == AllOf(Lists()) && Grown(set u | u in live)
      ensures Contents(live) == old(Contents(live))
    {
    }

    /** The user writes to one place of a unit. */
    method WriteNth(live: seq<MemUnit>, n: nat, at: nat, value: int)
      requires Valid() && multiset(live) == AllOf(Lists()) && n < |live| && at < |live[n].data|
      modifies {live[n]}`data
      ensures Valid() && multiset(live) == AllOf(Lists()) && Grown(set u | u in live)
      ensures live[n].data == old(live[n].data)[at := value]
      ensures forall i :: 0 <= i < |live| && i != n ==> live[i].data == old(live[i].data)
    {
      hide Valid, SizePool.Valid, AllOf, Blocks, Spare;
      HeldOnce(live);
      ghost var bs := Lists();
      assert live[n] in multiset(live);
      ghost var k, i := Located(bs, live[n]);
      StoreAt(live[n], at, value, k);
      assert Lists() == bs;
    }

    method StoreAt(u: MemUnit, at: nat, value: int, ghost k: nat)
      requires Valid() && k < |pools| && u in pools[k].busy && at < |u.data|
      modifies u`data
      ensures Valid() && u.data == old(u.data)[at := value]
    {
      hide Threaded, NoDup, BlockChain, Count;
      u.data := u.data[at := value];
    }

    method GetOne(live: seq<MemUnit>, size: nat) returns (live': seq<MemUnit>)
      requires Valid() && multiset(live) == AllOf(Lists())
      modifies this, pools, Blocks()`idlenum
      ensures Valid() && multiset(live') == AllOf(Lists())
      ensures Grown(set u | u in live)
      ensures forall u :: u in live' ==> u in live || u in old(Spare()) || fresh(u)
      ensures Traded(Get(size), live, live') && (live' != live ==> size <= |live'[0].data|)
      ensures forall i :: 0 <= i < |live| ==> live[i].data == old(live[i].data)
    {
      hide Valid, SizePool.Valid, Pow2, Least, Blocks, Spare, AllOf, Lists, Grown;
      ghost var bs := Lists();
      var ptr, k := Alloc(size);
      if ptr == null {
        assert Lists() == bs;
        GrownMore();
        return live;
      }
      var p: MemUnit := ptr;
      Covers(size, k + MIN_SIZE_EXP);
      live' := [p] + live;
      JoinsHeld(live, p, bs, Lists(), k);
      GrownMore();
    }

    /** No unit that is held is idle. */
    lemma NoneSpare(live: seq<MemUnit>)
      requires Valid() && multiset(live) == AllOf(Lists())
      ensures forall u :: u in live ==> u !in Spare()
    {
      hide Valid, SizePool.Valid, Pow2, Blocks, Spare, AllOf;
      forall u | u in live ensures u !in Spare() {
        assert u in multiset(live);
        var k, i := Located(Lists(), u);
        HeldFacts(u, k, i);
      }
    }

    method ResizeNth(live: seq<MemUnit>, n: nat, size: nat) returns (live': seq<MemUnit>)
      requires Valid() && multiset(live) == AllOf(Lists()) && n < |live| && size <= LARGEST
      modifies this, pools, Blocks()`idlenum, live`nextunit, Spare()`data
      ensures Valid() && multiset(live') == AllOf(Lists())
      ensures Grown(set u | u in live)
      ensures forall u :: u in live' ==> u in live || u in old(Spare()) || fresh(u)
      ensures |live'| == |live| && Traded(Resize(n, size), live, live')
      ensures size <= |live'[n].data| && old(live[n].data) <= live'[n].data
      ensures forall i :: 0 <= i < |live| ==> live[i].data == old(live[i].data)
    {
      hide Valid, SizePool.Valid, Pow2, Least, Blocks, Spare, AllOf, Lists, RemoveAt, Grown;
      ghost var bs := Lists();
      assert live[n] in multiset(live);
      ghost var k, i := Located(bs, live[n]);
      NoneSpare(live);
      var p, k' := Realloc(live[n], size, k, i);
      if p == live[n] {
        assert Lists() == bs;
        GrownMore();
        return live;
      }
      live' := live[n := p];
      Exchanged(live, n, p, bs, Lists(), k, i, k');
      GrownMore();
    }

    method DropNth(live: seq<MemUnit>, n: nat) returns (live': seq<MemUnit>)
      requires Valid() && multiset(live) == AllOf(Lists()) && n < |live|
      modifies this, pools, Blocks()`idlenum, live`nextunit
      ensures Valid() && multiset(live') == AllOf(Lists())
      ensures Grown(set u | u in live)
      ensures forall u :: u in live' ==> u in live || u in old(Spare()) || fresh(u)
      ensures Traded(Drop(n), live, live')
      ensures forall i :: 0 <= i < |live| ==> live[i].data == old(live[i].data)
    {
      hide Valid, SizePool.Valid, Pow2, Least, AllOf, Grown;
      ghost var bs := Lists();
      assert live[n] in multiset(live);
      ghost var k, i := Located(bs, live[n]);
      HeldFacts(live[n], k, i);
      Free(live[n], k, i);
      live' := RemoveAt(live, n);
      Dropped(bs, k, i);
      assert Lists() == bs[k := RemoveAt(bs[k], i)];
      Deleted(live, n, AllOf(Lists()));
      GrownMore();
    }
  }

  /**
   * Every run from an empty allocator on: what the user holds is what is outstanding, no unit is held
   * twice, and each unit held is as large as was ever asked for it and has in it what was written to it,
   * wherever it has been moved since.
   */
  method Run(ops: seq<Op>) returns (allocator: Allocator, live: seq<MemUnit>)
    requires forall i :: 0 <= i < |ops| ==> Allowed(Holding(ops[..i]), ops[i])
    ensures allocator.Valid() && multiset(live) == AllOf(allocator.Lists()) && NoDup(live)
    ensures Agree(Contents(live), Holding(ops))
  {
    hide Allocator.Valid, Allocator.Blocks, Allocator.Spare, Allocator.Lists, AllOf, Agree, Follows, Traded, Contents;
    hide Allowed, Holding;
    allocator := new Allocator();
    live := [];
    allocator.NothingHeld();
    NothingYet(ops);
    for i := 0 to |ops|
      invariant fresh(allocator) && allocator.Valid() && multiset(live) == AllOf(allocator.Lists())
      invariant Agree(Contents(live), Holding(ops[..i]))
      invariant forall p :: p in allocator.pools ==> fresh(p)
      invariant forall b :: b in allocator.Blocks() ==> fresh(b)
      invariant forall u :: u in allocator.Spare() || u in live ==> fresh(u)
    {
      assert forall k :: 0 <= k < |allocator.pools| ==> allocator.pools[k] in allocator.pools;
      assert forall k :: 0 <= k < |live| ==> live[k] in live;
      ghost var before := Contents(live);
      Calls(ops, i, before);
      live := allocator.Perform(ops[i], live);
      Agrees(before, Holding(ops[..i]), ops[i], Contents(live));
    }
    allocator.HeldOnce(live);
  }

  const CLASSES := MAX_SIZE_EXP - MIN_SIZE_EXP + 1

  /** A call of the user, or a write to a place of a unit the user holds. */
  datatype Op = Get(size: nat) | Resize(n: nat, size: nat) | Drop(n: nat) | Write(n: nat, at: nat, value: int)

  /** What the user knows of a unit: the largest size asked for it, and what was last written to its places. */
  datatype Held = Held(asked: nat, wrote: map<nat, int>)

  /** The user's own record of a run. */
  function Holding(ops: seq<Op>): seq<Held> {
    if ops == [] then [] else After(Holding(ops[..|ops| - 1]), ops[|ops| - 1])
  }

  function After(held: seq<Held>, op: Op): seq<Held> {
    match op
    case Get(size) => if size > LARGEST then held else [Held(size, map[])] + held
    case Resize(n, size) =>
      if n < |held| then held[n := held[n].(asked := if size > held[n].asked then size else held[n].asked)] else held
    case Drop(n) => if n < |held| then RemoveAt(held, n) else held
    case Write(n, at, value) => if n < |held| then held[n := held[n].(wrote := held[n].wrote[at := value])] else held
  }

  /** Writes are within the size asked for; a resize beyond the largest class has no defined outcome. */
  predicate Allowed(held: seq<Held>, op: Op) {
    && (op.Resize? ==> op.size <= LARGEST)
    && (op.Write? && op.n < |held| ==> op.at < held[op.n].asked)
  }

  /** The units are as large as asked and hold what was written. */
  ghost predicate Agree(contents: seq<seq<int>>, held: seq<Held>) {
    |contents| == |held| && forall i :: 0 <= i < |held| ==> Meets(contents[i], held[i])
  }

  ghost predicate Meets(data: seq<int>, held: Held) {
    && held.asked <= |data|
    && forall at :: at in held.wrote ==> at < |data| && data[at] == held.wrote[at]
  }

  ghost function Contents(live: seq<MemUnit>): (contents: seq<seq<int>>)
    reads live
    ensures |contents| == |live| && forall i :: 0 <= i < |live| ==> contents[i] == live[i].data
  {
    if live == [] then [] else Contents(live[..|live| - 1]) + [live[|live| - 1].data]
  }

  /** Which units are held after a call. */
  predicate Traded(op: Op, live: seq<MemUnit>, live': seq<MemUnit>) {
    match op
    case Get(size) => if size > LARGEST then live' == live else live' != [] && live'[1..] == live
    case Resize(n, _) => if n < |live| then |live'| == |live| && live' == live[n := live'[n]] else live' == live
    case Drop(n) => live' == if n < |live| then RemoveAt(live, n) else live
    case Write(_, _, _) => live' == live
  }

  /** What the units held have in them after a call. */
  predicate Follows(op: Op, before: seq<seq<int>>, after: seq<seq<int>>) {
    match op
    case Get(size) =>
      if size > LARGEST then after == before else after != [] && after[1..] == before && size <= |after[0]|
    case Resize(n, size) =>
      if n >= |before| then after == before
      else
        && |after| == |before| && after == before[n := after[n]]
        && size <= |after[n]| && before[n] <= after[n]
    case Drop(n) => after == if n < |before| then RemoveAt(before, n) else before
    case Write(n, at, value) =>
      after == if n < |before| && at < |before[n]| then before[n := before[n][at := value]] else before
  }

  /** Units held before and after have the same in them. */
  ghost predicate Still(live: seq<MemUnit>, live': seq<MemUnit>, before: seq<seq<int>>, after: seq<seq<int>>) {
    && |before| == |live| && |after| == |live'|
    && forall i, j :: 0 <= i < |live| && 0 <= j < |live'| && live[i] == live'[j] ==> after[j] == before[i]
  }

  lemma GotOne(size: nat, live: seq<MemUnit>, live': seq<MemUnit>, before: seq<seq<int>>, after: seq<seq<int>>)
    requires Still(live, live', before, after) && Traded(Get(size), live, live')
    requires live' != live ==> size <= |after[0]|
    ensures Follows(Get(size), before, after)
  {
    if size <= LARGEST {
      assert live' != live && forall i :: 0 <= i < |live| ==> live'[i + 1] == live[i];
      assert after[1..] == before;
    }
  }

  lemma Resized(n: nat, size: nat, live: seq<MemUnit>, live': seq<MemUnit>, before: seq<seq<int>>, after: seq<seq<int>>)
    requires n < |live| && Still(live, live', before, after) && Traded(Resize(n, size), live, live')
    requires size <= |after[n]| && before[n] <= after[n]
    ensures Follows(Resize(n, size), before, after)
  {
    assert forall i :: 0 <= i < |live| && i != n ==> live'[i] == live[i];
  }

  lemma DroppedNth(n: nat, live: seq<MemUnit>, live': seq<MemUnit>, before: seq<seq<int>>, after: seq<seq<int>>)
    requires n < |live| && Still(live, live', before, after) && Traded(Drop(n), live, live')
    ensures Follows(Drop(n), before, after)
  {
    forall i | 0 <= i < |live'| ensures after[i] == RemoveAt(before, n)[i] {
      assert live'[i] == live[if i < n then i else i + 1];
    }
  }

  lemma Ignored(op: Op, contents: seq<seq<int>>)
    ensures !op.Get? && op.n >= |contents| ==> Follows(op, contents, contents)
  {
  }

  lemma Written(n: nat, at: nat, value: int, before: seq<seq<int>>, after: seq<seq<int>>)
    requires n < |before| == |after| && at < |before[n]| && after[n] == before[n][at := value]
    requires forall i :: 0 <= i < |before| && i != n ==> after[i] == before[i]
    ensures Follows(Write(n, at, value), before, after)
  {
  }

  /** The user's record stays right. */
  lemma Agrees(before: seq<seq<int>>, held: seq<Held>, op: Op, after: seq<seq<int>>)
    requires Agree(before, held) && Allowed(held, op) && Follows(op, before, after)
    ensures Agree(after, After(held, op))
  {
    var held' := After(held, op);
    forall i | 0 <= i < |held'| ensures i < |after| && Meets(after[i], held'[i]) {
      var j := if op.Get? && op.size <= LARGEST then i - 1 else if op.Drop? && op.n <= i < |held| - 1 then i + 1 else i;
      assert j >= 0 ==> Meets(before[j], held[j]);
    }
  }

  lemma NothingYet(ops: seq<Op>)
    ensures ops[..0] == [] && ops[..|ops|] == ops && Agree(Contents([]), Holding([]))
  {
  }

  /** The next call is within what the calls before it allow. */
  lemma Calls(ops: seq<Op>, i: nat, contents: seq<seq<int>>)
    requires i < |ops| && Allowed(Holding(ops[..i]), ops[i]) && Agree(contents, Holding(ops[..i]))
    ensures Holding(ops[..i + 1]) == After(Holding(ops[..i]), ops[i])
    ensures var op := ops[i];
            && (op.Resize? ==> op.size <= LARGEST)
            && (op.Write? && op.n < |contents| ==> op.at < |contents[op.n]|)
  {
    assert ops[..i + 1][..i] == ops[..i];
    assert ops[i].Write? && ops[i].n < |contents| ==> Meets(contents[ops[i].n], Holding(ops[..i])[ops[i].n]);
  }

  /** The units of all lists. */
  ghost function AllOf(bs: seq<seq<MemUnit>>): multiset<MemUnit> {
    if bs == [] then multiset{} else multiset(bs[0]) + AllOf(bs[1..])
  }

  lemma {:induction false} AllOfUpdate(bs: seq<seq<MemUnit>>, k: nat, s: seq<MemUnit>)
    requires k < |bs|
    ensures AllOf(bs[k := s]) + multiset(bs[k]) == AllOf(bs) + multiset(s)
  {
    if k == 0 {
      assert bs[0 := s][1..] == bs[1..];
      var rest := AllOf(bs[1..]);
      assert (multiset(s) + rest) + multiset(bs[0]) == (multiset(bs[0]) + rest) + multiset(s);
    } else {
      assert bs[k := s][1..] == bs[1..][k - 1 := s];
      AllOfUpdate(bs[1..], k - 1, s);
      var h, t, t' := multiset(bs[0]), AllOf(bs[1..]), AllOf(bs[1..][k - 1 := s]);
      assert (h + t') + multiset(bs[k]) == h + (t' + multiset(bs[k]));
      assert (h + t) + multiset(s) == h + (t + multiset(s));
    }
  }

  lemma Cancel(a: multiset<MemUnit>, b: multiset<MemUnit>, c: multiset<MemUnit>)
    requires a + c == b + c
    ensures a == b
  {
    assert a == (a + c) - c && b == (b + c) - c;
  }

  lemma Got(bs: seq<seq<MemUnit>>, k: nat, u: MemUnit)
    requires k < |bs|
    ensures AllOf(bs[k := [u] + bs[k]]) == AllOf(bs) + multiset{u}
  {
    hide AllOf;
    AllOfUpdate(bs, k, [u] + bs[k]);
    var m, m', s := AllOf(bs), AllOf(bs[k := [u] + bs[k]]), multiset(bs[k]);
    assert multiset([u] + bs[k]) == multiset{u} + s;
    assert m' + s == (m + multiset{u}) + s;
    Cancel(m', m + multiset{u}, s);
  }

  lemma Dropped(bs: seq<seq<MemUnit>>, k: nat, i: nat)
    requires k < |bs| && i < |bs[k]|
    ensures AllOf(bs[k := RemoveAt(bs[k], i)]) + multiset{bs[k][i]} == AllOf(bs)
  {
    hide AllOf;
    AllOfUpdate(bs, k, RemoveAt(bs[k], i));
    var m, m', r := AllOf(bs), AllOf(bs[k := RemoveAt(bs[k], i)]), multiset(RemoveAt(bs[k], i));
    assert bs[k] == bs[k][..i] + [bs[k][i]] + bs[k][i + 1..];
    assert multiset(bs[k]) == r + multiset{bs[k][i]};
    assert (m' + multiset{bs[k][i]}) + r == m + r;
    Cancel(m' + multiset{bs[k][i]}, m, r);
  }

  lemma Deleted(live: seq<MemUnit>, n: nat, rest: multiset<MemUnit>)
    requires n < |live| && rest + multiset{live[n]} == multiset(live)
    ensures multiset(live[..n] + live[n + 1..]) == rest
  {
    assert live == live[..n] + [live[n]] + live[n + 1..];
    var r := multiset(live[..n] + live[n + 1..]);
    Cancel(r, rest, multiset{live[n]});
  }

  lemma Replaced(live: seq<MemUnit>, n: nat, u: MemUnit, rest: multiset<MemUnit>)
    requires n < |live| && rest + multiset{live[n]} == multiset(live)
    ensures multiset(live[n := u]) == rest + multiset{u}
  {
    Deleted(live, n, rest);
    assert live[n := u] == live[..n] + [u] + live[n + 1..];
  }

  /** A unit is held beside the others. */
  lemma JoinsHeld(live: seq<MemUnit>, u: MemUnit, bs: seq<seq<MemUnit>>, bs': seq<seq<MemUnit>>, k: nat)
    requires multiset(live) == AllOf(bs) && |bs'| == |bs| && k < |bs| && bs'[k] == [u] + bs[k]
    requires forall j :: 0 <= j < |bs| && j != k ==> bs'[j] == bs[j]
    ensures multiset([u] + live) == AllOf(bs')
    ensures ([u] + live)[1..] == live && forall v :: v in [u] + live ==> v == u || v in live
  {
    hide AllOf;
    Got(bs, k, u);
    assert bs' == bs[k := [u] + bs[k]];
    assert multiset([u] + live) == multiset{u} + multiset(live);
  }

  /** A unit is held in the place of one that has left its list. */
  lemma Exchanged(live: seq<MemUnit>, n: nat, u: MemUnit, bs: seq<seq<MemUnit>>, bs': seq<seq<MemUnit>>, k: nat,
                  i: nat, k': nat)
    requires n < |live| && multiset(live) == AllOf(bs) && |bs'| == |bs|
    requires k < |bs| && k' < |bs| && k != k' && i < |bs[k]| && bs[k][i] == live[n]
    requires bs'[k] == RemoveAt(bs[k], i) && bs'[k'] == [u] + bs[k']
    requires forall j :: 0 <= j < |bs| && j != k && j != k' ==> bs'[j] == bs[j]
    ensures multiset(live[n := u]) == AllOf(bs') && forall v :: v in live[n := u] ==> v == u || v in live
  {
    hide AllOf, RemoveAt;
    var mid := bs[k := RemoveAt(bs[k], i)];
    Dropped(bs, k, i);
    Got(mid, k', u);
    assert bs' == mid[k' := [u] + mid[k']];
    Replaced(live, n, u, AllOf(mid));
  }

  lemma {:induction false} Nothing(bs: seq<seq<MemUnit>>)
    requires forall k :: 0 <= k < |bs| ==> bs[k] == []
    ensures AllOf(bs) == multiset{}
  {
    if bs != [] {
      Nothing(bs[1..]);
    }
  }

  /** A unit of some list is at some place in it. */
  lemma {:induction false} Located(bs: seq<seq<MemUnit>>, u: MemUnit) returns (k: nat, i: nat)
    requires u in AllOf(bs)
    ensures k < |bs| && i < |bs[k]| && bs[k][i] == u
  {
    if u in bs[0] {
      k := 0;
      i :| i < |bs[0]| && bs[0][i] == u;
    } else {
      k, i := Located(bs[1..], u);
      k := k + 1;
    }
  }

  predicate Separated(s: seq<MemUnit>, t: seq<MemUnit>) {
    forall u :: u in s ==> u !in t
  }

  /** In separate lists without repeats, every unit occurs at most once. */
  lemma {:induction false} Distinct(bs: seq<seq<MemUnit>>)
    requires forall k :: 0 <= k < |bs| ==> NoDup(bs[k])
    requires forall i, j :: 0 <= i < j < |bs| ==> Separated(bs[i], bs[j])
    ensures forall u :: AllOf(bs)[u] <= 1
  {
    if bs != [] {
      Distinct(bs[1..]);
      forall u ensures AllOf(bs)[u] <= 1 {
        NoDupOnce(bs[0], u);
        if u in AllOf(bs[1..]) {
          var k, i := Located(bs[1..], u);
          assert bs[k + 1][i] == u && Separated(bs[0], bs[k + 1]);
          assert u !in bs[0];
        }
      }
    }
  }

  lemma {:induction false} NoDupOnce(s: seq<MemUnit>, u: MemUnit)
    requires NoDup(s)
    ensures multiset(s)[u] <= 1
  {
    if s != [] {
      NoDupOnce(s[1..], u);
      assert s == [s[0]] + s[1..];
      assert s[0] !in s[1..];
    }
  }

  lemma OnceEach(s: seq<MemUnit>)
    requires forall u :: multiset(s)[u] <= 1
    ensures NoDup(s)
  {
    forall i, j | 0 <= i < j < |s| ensures s[i] != s[j] {
      var a, b := s[..j], s[j..];
      assert s == a + b && a[i] == s[i] && b[0] == s[j];
      assert multiset(s) == multiset(a) + multiset(b);
      assert a[i] in multiset(a) && b[0] in multiset(b);
      assert s[i] == s[j] ==> multiset(s)[s[i]] >= 2;
    }
  }

  lemma Larger(size: nat, k: nat, k': nat)
    requires size > Pow2(k + MIN_SIZE_EXP) && Least(size, k' + MIN_SIZE_EXP)
    ensures k' > k && Pow2(k' + MIN_SIZE_EXP) >= size
  {
    hide Pow2;
    if k' < k {
      Pow2Grows(k' + MIN_SIZE_EXP, k + MIN_SIZE_EXP);
    }
  }

  /** 2^e is the least power of two that is not below the size nor below the smallest class. */
  ghost predicate Least(size: nat, e: nat) {
    && e >= MIN_SIZE_EXP && size <= Pow2(e)
    && forall f: nat :: MIN_SIZE_EXP <= f && size <= Pow2(f) ==> e <= f
  }

  lemma Covers(size: nat, e: nat)
    requires Least(size, e)
    ensures size <= Pow2(e)
  {
  }

  lemma ClassExists(size: nat, ind: nat)
    requires Least(size, ind)
    ensures ind >= MIN_SIZE_EXP && (ind > MAX_SIZE_EXP <==> size > LARGEST)
  {
    hide Pow2;
    LargestClass();
    if ind < MAX_SIZE_EXP {
      Pow2Grows(ind, MAX_SIZE_EXP);
    }
  }

  /** The size class: the least power of two that is not below the size, nor below the smallest class. */
  method ClassOf(size: nat) returns (ind: nat)
    ensures Least(size, ind)
  {
    ind := 0;
    Pow2Above(size);
    while size > Pow2(ind)
      invariant forall e: nat :: e < ind ==> Pow2(e) < size
      decreases size - ind
    {
      ind := ind + 1;
    }
    if ind < MIN_SIZE_EXP {
      Pow2Grows(ind, MIN_SIZE_EXP);
      ind := MIN_SIZE_EXP;
    }
  }

  lemma Pow2Above(size: nat)
    ensures Pow2(size) > size
  {
  }
}
