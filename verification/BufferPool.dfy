/** The routines of fs/buffer.c on the pool in memory.
  *
  * A process runs alone between two sleeps.  At a sleep anything may happen that keeps the invariant and respects the
  * references this process holds; in return this process is `Polite` from one sleep to the next, and
  * BufferCache.PoliteStepsRespect shows that politeness of all is exactly what each relies on.  Waiting has no bound,
  * so `fuel` says how often the process is resumed or retries before we stop watching; a routine that runs out of it
  * reports that it is still on its way.
  */
module BufferPool {
  import opened Links
  import opened BufferLinks
  import opened BufferCache

  lemma PoliteTrans(c: Cache, m: seq<nat>, c1: Cache, m1: seq<nat>, c2: Cache, m2: seq<nat>)
    requires Polite(c, m, c1, m1) && Polite(c1, m1, c2, m2)
    ensures Polite(c, m, c2, m2)
  {
    hide Holds;
    forall b | IsIndex(c.bufs, b)
      ensures c2.bufs[b].count - m2[b] == c.bufs[b].count - m[b]
      ensures c.bufs[b].count > m[b] ==> IdOf(c2.bufs[b]) == IdOf(c.bufs[b])
      ensures c.bufs[b].lock ==> c2.bufs[b].lock && IdOf(c2.bufs[b]) == IdOf(c.bufs[b])
    {
      assert IsIndex(c1.bufs, b);
    }
  }

  lemma PoliteRefl(c: Cache, m: seq<nat>)
    requires Mine(c, m)
    ensures Polite(c, m, c, m)
  {
    hide Holds;
  }

  /** What links of a linked pool can be. */
  lemma LinkBounds(c: Cache, ls: Lists, b: nat)
    requires Linked(c, ls) && b < |c.bufs|
    ensures |c.hash| == NR_HASH && IsIndex(c.bufs, c.freeList)
    ensures c.bufs[b].next == NULL || (IsIndex(c.bufs, c.bufs[b].next) && c.bufs[b].next != b)
    ensures c.bufs[b].prev == NULL || (IsIndex(c.bufs, c.bufs[b].prev) && c.bufs[b].prev != b)
    ensures IsIndex(c.bufs, c.bufs[b].nextFree) && IsIndex(c.bufs, c.bufs[b].prevFree)
  {
    hide Xor;
    var h := HashFn(c.bufs[b].dev, c.bufs[b].block);
    assert ChainOK(c.bufs, c.hash[h], ls.chains[h]);
    if c.bufs[b].dev != 0 {
      assert b != NULL && b in ls.chains[h];
      assert InChain(c.bufs, ls.chains[h], IndexOf(ls.chains[h], b));
    }
    assert InRing(c.bufs, ls.ring, IndexOf(ls.ring, b));
  }

  /** Flags, counts and data of one buffer may change without touching any list. */
  lemma LinkedAfterFlags(c: Cache, ls: Lists, b: nat, nb: Buf)
    requires Linked(c, ls) && b < |c.bufs| && IdOf(nb) == IdOf(c.bufs[b])
    requires nb.next == c.bufs[b].next && nb.prev == c.bufs[b].prev
    requires nb.nextFree == c.bufs[b].nextFree && nb.prevFree == c.bufs[b].prevFree
    ensures Linked(c.(bufs := c.bufs[b := nb]), ls)
  {
    hide Xor, HashFn;
    var bufs' := c.bufs[b := nb];
    assert nb.dev == c.bufs[b].dev && nb.block == c.bufs[b].block;
    RingUntouched(c.bufs, bufs', c.freeList, ls.ring);
    forall h | 0 <= h < NR_HASH ensures ChainOK(bufs', c.hash[h], ls.chains[h]) {
      assert ChainOK(c.bufs, c.hash[h], ls.chains[h]);
      ChainUntouched(c.bufs, bufs', c.hash[h], ls.chains[h]);
    }
  }

  /** A change to one buffer's flags, count or pending I/O that keeps what its block holds. */
  lemma FlagsChange(c: Cache, ls: Lists, mine: seq<nat>, b: nat, nb: Buf, mine': seq<nat>)
    requires Inv(c, ls) && Mine(c, mine) && b < |c.bufs| && nb.data == c.bufs[b].data
    requires nb == c.bufs[b].(dirt := nb.dirt, count := nb.count, lock := nb.lock) && (c.bufs[b].lock ==> nb.lock)
    requires nb.dev != 0 && nb.uptodate && !nb.dirt && !nb.lock ==> nb.data == DiskAt(c, IdOf(nb))
    requires |mine'| == |mine| && mine' == mine[b := mine'[b]] && nb.count - mine'[b] == c.bufs[b].count - mine[b]
    ensures Inv(c.(bufs := c.bufs[b := nb]), ls) && Polite(c, mine, c.(bufs := c.bufs[b := nb]), mine')
  {
    hide Linked, FindLinear;
    var c' := c.(bufs := c.bufs[b := nb]);
    LinkedAfterFlags(c, ls, b, nb);
    forall x, y | IsIndex(c'.bufs, x) && IsIndex(c'.bufs, y) && c'.bufs[x].dev != 0
      && IdOf(c'.bufs[x]) == IdOf(c'.bufs[y])
      ensures x == y
    {
      assert IdOf(c.bufs[x]) == IdOf(c.bufs[y]) && c.bufs[x].dev != 0;
    }
    forall id: Id | id.0 != 0 ensures Holds(c', id) == Holds(c, id) {
      SameSearch(c.bufs, c'.bufs, id, 0);
    }
    forall x | IsIndex(c'.bufs, x) ensures mine'[x] <= c'.bufs[x].count {
      assert IsIndex(c.bufs, x);
      assert IsIndex(c.bufs, b);
    }
  }

  lemma {:induction false} SameSearch(bufs: seq<Buf>, bufs': seq<Buf>, id: Id, i: nat)
    requires |bufs| == |bufs'| && i <= |bufs| && forall x :: 0 <= x < |bufs| ==> IdOf(bufs'[x]) == IdOf(bufs[x])
    ensures FindLinear(bufs', id, i) == FindLinear(bufs, id, i)
    decreases |bufs| - i
  {
    if i < |bufs| { SameSearch(bufs, bufs', id, i + 1); }
  }

  // ---- what stands behind a device ----

  /** No driver; one that serves its requests by interrupts, which find this process asleep; or one that serves them
    * before the call returns, the blocks below `size` well and the others with an error, as the RAM disk does. */
  datatype Driver = Missing | ByInterrupt | AtOnce(size: nat)

  /** A request for the block fails before the call returns. */
  predicate Refuses(d: Driver, block: nat) {
    d.Missing? || (d.AtOnce? && block >= d.size)
  }

  /** end_request for the locked buffer `b`, after the data have been moved if all went well. */
  function Served(c: Cache, write: bool, b: nat, ok: bool): Cache
    requires b < |c.bufs|
  {
    var x := c.bufs[b].(uptodate := ok, lock := false);
    if !ok then c.(bufs := c.bufs[b := x])
    else if write then c.(bufs := c.bufs[b := x], disk := c.disk[IdOf(x) := x.data])
    else c.(bufs := c.bufs[b := x.(data := DiskAt(c, IdOf(x)))])
  }

  /** What ll_rw_block comes to for an unlocked buffer when it does not have to wait for a free request. */
  function Requested(c: Cache, d: Driver, write: bool, b: nat): Cache
    requires b < |c.bufs|
  {
    if d.Missing? || NothingToDo(write, c.bufs[b]) then c
    else WithRequest(c.(bufs := c.bufs[b := c.bufs[b].(lock := true, dirt := false)]), d, write, b)
  }

  function WithRequest(c: Cache, d: Driver, write: bool, b: nat): Cache
    requires b < |c.bufs|
  {
    if d.AtOnce? then Served(c, write, b, !Refuses(d, c.bufs[b].block)) else c
  }

  /** What that is: without a driver nothing; the buffer locked, with the request on its way; or the request served,
    * with the data moved between buffer and disk. */
  lemma RequestedIs(c: Cache, d: Driver, write: bool, b: nat)
    requires b < |c.bufs| && !c.bufs[b].lock && !NothingToDo(write, c.bufs[b])
    ensures var c' := Requested(c, d, write, b);
      var was, now := c.bufs[b], c'.bufs[b];
      match d
      case Missing => c' == c
      case ByInterrupt => now == was.(lock := true, dirt := false) && c'.disk == c.disk
      case AtOnce(size) =>
        && now == was.(dirt := false, uptodate := now.uptodate, data := now.data)
        && (now.uptodate <==> was.block < size)
        && (write || was.block >= size ==> now.data == was.data)
        && (write && was.block < size ==> c'.disk == c.disk[(was.dev, was.block) := was.data])
        && (!write || was.block >= size ==> c'.disk == c.disk)
        && (!write && was.block < size ==> now.data == DiskAt(c, (was.dev, was.block)))
  {
  }

  predicate NothingToDo(write: bool, b: Buf) {
    if write then !b.dirt else b.uptodate
  }

  /** The disk's step keeps the invariant and what every process relies on. */
  lemma ServedKeeps(c: Cache, ls: Lists, write: bool, b: nat, ok: bool)
    requires Inv(c, ls) && b < |c.bufs| && c.bufs[b].lock
    ensures Inv(Served(c, write, b, ok), ls) && |Served(c, write, b, ok).bufs| == |c.bufs|
    ensures forall mine :: Mine(c, mine) ==>
              Mine(Served(c, write, b, ok), mine) && Respects(c, Served(c, write, b, ok), mine)
    ensures forall x :: IsIndex(c.bufs, x) && x != b ==> Served(c, write, b, ok).bufs[x] == c.bufs[x]
  {
    hide Linked;
    var c' := Served(c, write, b, ok);
    LinkedAfterFlags(c, ls, b, c'.bufs[b]);
    assert c'.bufs == c.bufs[b := c'.bufs[b]];
    assert Linked(c', ls) by { LinkedAnyDisk(c.(bufs := c'.bufs), c', ls); }
    forall x, y | IsIndex(c'.bufs, x) && IsIndex(c'.bufs, y) && c'.bufs[x].dev != 0
      && IdOf(c'.bufs[x]) == IdOf(c'.bufs[y])
      ensures x == y
    {
      assert IdOf(c.bufs[x]) == IdOf(c.bufs[y]) && c.bufs[x].dev != 0;
    }
    assert IsIndex(c.bufs, b);
  }

  lemma LinkedAnyDisk(c: Cache, c': Cache, ls: Lists)
    requires Linked(c, ls) && c' == c.(disk := c'.disk)
    ensures Linked(c', ls)
  {
    hide RingOK, ChainsOK;
  }

  /** Whether ll_rw_block, without waiting, leaves what every block holds as it is: always, unless a write of changed
    * data fails at once.  A dirty buffer is valid. */
  lemma RequestKeepsContents(c: Cache, ls: Lists, d: Driver, write: bool, b: nat)
    requires Inv(c, ls) && b < |c.bufs| && !c.bufs[b].lock && c.bufs[b].dev != 0 && (write ==> c.bufs[b].uptodate)
    ensures SameContents(c, Requested(c, d, write, b)) <==>
              !(write && c.bufs[b].dirt && d.AtOnce? && Refuses(d, c.bufs[b].block)
                && c.bufs[b].data != DiskAt(c, IdOf(c.bufs[b])))
  {
    hide Linked, FindLinear;
    var c', id := Requested(c, d, write, b), IdOf(c.bufs[b]);
    forall i: Id | i.0 != 0 ensures FindLinear(c'.bufs, i, 0) == FindLinear(c.bufs, i, 0) {
      SameSearch(c.bufs, c'.bufs, i, 0);
    }
    SearchIs(c.bufs, b, id);
    forall i: Id | i.0 != 0 && i != id ensures Holds(c', i) == Holds(c, i) {
    }
    assert SameContents(c, c') <==> Holds(c', id) == Holds(c, id);
  }

  class Pool {
    const driver: nat -> Driver   // blk_dev, by device
    const bufs: array<Buf>
    const hash: array<int>
    var freeList: int
    var disk: map<Id, Data>
    var fuel: nat
    var ls: Lists                 // bookkeeping of the model: the lists written out,
    var mine: seq<nat>            // and the references this process holds
    ghost var seg: Cache          // the pool, and `mine`, when it last woke up
    ghost var segMine: seq<nat>

    function Snap(): Cache
      reads this, bufs, hash
    {
      Cache(bufs[..], hash[..], freeList, disk)
    }

    ghost predicate Ready()
      reads this, bufs, hash
    {
      Inv(Snap(), ls) && Mine(Snap(), mine) && Polite(seg, segMine, Snap(), mine)
    }

    /** buffer_init: all buffers free, unidentified, in order on the free list. */
    constructor (n: nat, driver: nat -> Driver, disk: map<Id, Data>, fuel: nat)
      requires n > 0
      ensures fresh(bufs) && fresh(hash) && Ready() && bufs.Length == n && this.fuel == fuel
      ensures mine == seq(n, _ => 0) && (forall id: Id :: Holds(Snap(), id) == DiskAt(Snap(), id)) && this.disk == disk
      ensures this.driver == driver
    {
      hide Inv, Polite, Mine, Holds;
      this.driver := driver;
      bufs := new Buf[n](_ => Buf(0, 0, false, false, 0, false, NULL, NULL, NULL, NULL, []));
      hash := new int[NR_HASH](_ => NULL);
      freeList := 0;
      this.disk := disk;
      this.fuel := fuel;
      new;
      for h := 0 to n
        modifies bufs
        invariant forall k :: 0 <= k < h ==> bufs[k] == Buf(0, 0, false, false, 0, false, NULL, NULL, k - 1, k + 1, [])
        invariant hash[..] == seq(NR_HASH, _ => NULL) && freeList == 0
      {
        bufs[h] := Buf(0, 0, false, false, 0, false, NULL, NULL, h - 1, h + 1, []);
      }
      bufs[0] := bufs[0].(prevFree := n - 1);
      bufs[n - 1] := bufs[n - 1].(nextFree := 0);
      ls := Lists(seq(n, (i: nat) => i), seq(NR_HASH, _ => []));
      mine := seq(n, _ => 0);
      seg, segMine := Snap(), mine;
      InitLinked(Snap(), ls, mine);
      PoliteRefl(seg, mine);
    }

    /** Sleeping: the others and the disk do as they please, within what this process relies on.  `own` is a buffer this
      * process has locked without queueing a request for it yet, if any. */
    method Sleep(own: int) returns (awake: bool)
      requires Ready() && (own != NULL ==> IsIndex(bufs[..], own) && bufs[own].lock)
      modifies this, bufs, hash
      ensures own != NULL ==> StaysLocked(old(Snap()), Snap(), own)
      ensures awake <==> old(fuel) > 0
      ensures awake ==> fuel == old(fuel) - 1 && mine == old(mine) && Ready() && Respects(old(Snap()), Snap(), mine)
      ensures !awake ==> Snap() == old(Snap()) && mine == old(mine) && fuel == old(fuel) && ls == old(ls) && Ready()
    {
      hide Linked, Unique, Backed, Holds, RingOK, ChainsOK;
      if fuel == 0 {
        return false;
      }
      fuel := fuel - 1;
      ghost var was := Snap();
      assert Respects(was, was, mine);
      var c': Cache, ls': Lists := *, *;
      if !(Inv(c', ls') && Respects(Snap(), c', mine) && |c'.hash| == hash.Length
           && (own == NULL || StaysLocked(Snap(), c', own))) {
        c', ls' := Snap(), ls;
      }
      forall i | 0 <= i < bufs.Length { bufs[i] := c'.bufs[i]; }
      forall i | 0 <= i < hash.Length { hash[i] := c'.hash[i]; }
      freeList, disk, ls := c'.freeList, c'.disk, ls';
      assert bufs[..] == c'.bufs && hash[..] == c'.hash;
      assert Snap() == c';
      seg, segMine := c', mine;
      PoliteRefl(c', mine);
      awake := true;
    }

    /** find_buffer: what a search of all the buffers would find, looking at one chain only. */
    method FindBuffer(dev: nat, block: nat) returns (r: int)
      requires Linked(Snap(), ls) && Unique(bufs[..])
      ensures r == if dev == 0 then NULL else FindLinear(bufs[..], (dev, block), 0)
    {
      hide Xor;
      var h := HashFn(dev, block);
      ghost var c := Snap();
      ghost var ch := ls.chains[h];
      assert ChainOK(c.bufs, c.hash[h], ch);
      r := hash[h];
      ghost var i := 0;
      while r != NULL && !(bufs[r].dev == dev && bufs[r].block == block)
        invariant 0 <= i <= |ch| && r == At(ch, i)
        invariant forall k :: 0 <= k < i ==> IdOf(c.bufs[ch[k]]) != (dev, block)
        decreases |ch| - i
      {
        assert InChain(c.bufs, ch, i);
        r := bufs[r].next;
        i := i + 1;
      }
      if r != NULL {
        assert ch[i] in ch;
        assert IdOf(c.bufs[r]) == (dev, block) && dev != 0;
        SearchIs(c.bufs, r, (dev, block));
      } else if dev != 0 {
        AllInChain(c, ls, dev, block);
      }
    }

    lemma ReadyFacts()
      requires Ready()
      ensures Inv(Snap(), ls) && Mine(Snap(), mine) && |mine| == bufs.Length && Respects(Snap(), Snap(), mine)
    {
      hide Inv, Polite;
    }

    /** Changes flags, count or pending I/O of one buffer. */
    method SetFlags(b: nat, dirt: bool, count: nat, lock: bool, m: nat)
      requires Ready() && b < bufs.Length && count - m == bufs[b].count - mine[b]
      requires bufs[b].dev != 0 && bufs[b].uptodate && !dirt && !lock ==> bufs[b].data == DiskAt(Snap(), IdOf(bufs[b]))
      requires bufs[b].lock ==> lock
      modifies this`mine, bufs
      ensures Ready() && mine == old(mine)[b := m] && SameContents(old(Snap()), Snap())
      ensures bufs[..] == old(bufs[..])[b := old(bufs[b]).(dirt := dirt, count := count, lock := lock)]
    {
      hide Linked, Unique, Backed, Holds;
      ghost var c := Snap();
      ghost var nb := bufs[b].(dirt := dirt, count := count, lock := lock);
      FlagsChange(c, ls, mine, b, nb, mine[b := m]);
      PoliteTrans(seg, segMine, c, mine, c.(bufs := c.bufs[b := nb]), mine[b := m]);
      bufs[b] := bufs[b].(dirt := dirt, count := count, lock := lock);
      mine := mine[b := m];
      assert Snap() == c.(bufs := c.bufs[b := nb]);
    }

    /** wait_on_buffer. */
    method WaitOnBuffer(b: nat) returns (awake: bool)
      requires Ready() && b < bufs.Length
      modifies this, bufs, hash
      ensures !awake ==> fuel == 0
      ensures Ready() && mine == old(mine) && fuel <= old(fuel)
      ensures awake ==> !bufs[b].lock
      ensures Respects(old(Snap()), Snap(), mine)
      ensures fuel == old(fuel) ==> Snap() == old(Snap()) && ls == old(ls)
      ensures !old(bufs[b]).lock ==> awake && fuel == old(fuel)
      decreases fuel
    {
      hide Inv, Polite;
      awake := true;
      while bufs[b].lock
        invariant Ready() && mine == old(mine) && fuel <= old(fuel) && Respects(old(Snap()), Snap(), mine)
        invariant fuel == old(fuel) ==> Snap() == old(Snap()) && ls == old(ls)
        invariant !old(bufs[b]).lock ==> fuel == old(fuel)
        decreases fuel
      {
        awake := Sleep(NULL);
        if !awake {
          return;
        }
      }
    }

    /** get_hash_table: the cached buffer with one more reference, NULL when the block is not cached.  The test of line
      * 195 cannot fail: a buffer this process holds keeps its identity while it sleeps. */
    method GetHashTable(dev: nat, block: nat) returns (awake: bool, r: int)
      requires Ready()
      modifies this, bufs, hash
      ensures !awake ==> fuel == 0
      ensures Ready() && fuel <= old(fuel)
      ensures awake && r == NULL ==> mine == old(mine) && fuel == old(fuel) && Snap() == old(Snap()) && ls == old(ls)
      ensures awake && r == NULL ==> Cached(old(bufs[..]), dev, block) == NULL
      ensures var c := Cached(old(bufs[..]), dev, block);
        c == NULL || !old(bufs[..])[c].lock ==> awake && fuel == old(fuel) && r == c
      ensures awake && r != NULL ==> 0 <= r < bufs.Length && mine == old(mine)[r := old(mine)[r] + 1]
      ensures awake && r != NULL ==> IdOf(bufs[r]) == (dev, block) && dev != 0 && !bufs[r].lock
      ensures Respects(old(Snap()), Snap(), old(mine))
      ensures fuel == old(fuel) ==> SameContents(old(Snap()), Snap())
      ensures awake && r != NULL && fuel == old(fuel) ==>
                bufs[..] == old(bufs[..])[r := old(bufs[r]).(count := old(bufs[r]).count + 1)]
    {
      hide Linked, Backed, Holds, Polite;
      r := FindBuffer(dev, block);
      if r == NULL {
        return true, NULL;
      }
      assert IdOf(bufs[r]) == (dev, block);
      SetFlagsAllowed(Snap(), ls, r);
      SetFlags(r, bufs[r].dirt, bufs[r].count + 1, bufs[r].lock, mine[r] + 1);
      ghost var c := Snap();
      assert mine[r] > 0 && IdOf(c.bufs[r]) == (dev, block);
      awake := WaitOnBuffer(r);
      assert IdOf(Snap().bufs[r]) == (dev, block);
    }

    // ---- pointer stores ----

    method StoreNext(b: nat, v: int)
      requires b < bufs.Length
      modifies bufs
      ensures bufs[..] == SetNext(old(bufs[..]), b, v)
    {
      bufs[b] := bufs[b].(next := v);
    }

    method StorePrev(b: nat, v: int)
      requires b < bufs.Length
      modifies bufs
      ensures bufs[..] == SetPrev(old(bufs[..]), b, v)
    {
      bufs[b] := bufs[b].(prev := v);
    }

    method StoreNextFree(b: nat, v: int)
      requires b < bufs.Length
      modifies bufs
      ensures bufs[..] == SetNextFree(old(bufs[..]), b, v)
    {
      bufs[b] := bufs[b].(nextFree := v);
    }

    method StorePrevFree(b: nat, v: int)
      requires b < bufs.Length
      modifies bufs
      ensures bufs[..] == SetPrevFree(old(bufs[..]), b, v)
    {
      bufs[b] := bufs[b].(prevFree := v);
    }

    /** remove_from_queues. */
    method RemoveFromQueues(b: nat)
      requires Linked(Snap(), ls) && b < bufs.Length && hash.Length == NR_HASH
      modifies this`freeList, bufs, hash
      ensures Snap() == Removed(old(Snap()), b)
    {
      hide Linked, Xor, HashFn;
      ghost var c := Snap();
      LinkBounds(c, ls, b);
      if bufs[b].next != NULL {
        StorePrev(bufs[b].next, bufs[b].prev);
      }
      if bufs[b].prev != NULL {
        StoreNext(bufs[b].prev, bufs[b].next);
      }
      var h := HashFn(bufs[b].dev, bufs[b].block);
      if hash[h] == b {
        hash[h] := bufs[b].next;
      }
      assert bufs[..] == UnhashedBufs(c.bufs, b) && hash[..] == UnhashedTable(c.bufs, c.hash, b);
      assert bufs[..][b] == c.bufs[b];
      Unlist(b);
    }

    /** The second half of remove_from_queues. */
    method Unlist(b: nat)
      requires b < bufs.Length && IsIndex(bufs[..], bufs[b].prevFree) && IsIndex(bufs[..], bufs[b].nextFree)
      modifies this`freeList, bufs
      ensures bufs[..] == UnlistedBufs(old(bufs[..]), b)
      ensures freeList == if old(freeList) == b then old(bufs[b]).nextFree else old(freeList)
    {
      ghost var was := bufs[..];
      StoreNextFree(bufs[b].prevFree, bufs[b].nextFree);
      StorePrevFree(bufs[b].nextFree, bufs[b].prevFree);
      if freeList == b {
        freeList := bufs[b].nextFree;
      }
    }

    /** insert_into_queues; the store of line 166 happens only when the chain was not empty. */
    method InsertIntoQueues(b: nat)
      requires hash.Length == NR_HASH && b < bufs.Length && IsIndex(bufs[..], freeList)
      requires IsIndex(bufs[..], bufs[freeList].prevFree)
      requires forall h :: 0 <= h < NR_HASH ==> hash[h] == NULL || IsIndex(bufs[..], hash[h])
      modifies bufs, hash
      ensures Snap() == Inserted(old(Snap()), b)
    {
      hide Xor, HashFn, ListedBufs, HashedBufs;
      ghost var c := Snap();
      List(b);
      ListSizes(c.bufs, freeList, b);
      assert FreeLinksOnly(c.bufs[b], bufs[..][b]);
      ghost var listed := bufs[..];
      StorePrev(b, NULL);
      StoreNext(b, NULL);
      if bufs[b].dev == 0 {
        return;
      }
      var h := HashFn(bufs[b].dev, bufs[b].block);
      StoreNext(b, hash[h]);
      hash[h] := b;
      if bufs[b].next != NULL {
        StorePrev(bufs[b].next, b);
      }
      assert bufs[..] == HashedBufs(listed, c.hash[h], b) by {
        HashSteps(listed, c.hash[h], b);
      }
    }

    /** The first half of insert_into_queues. */
    method List(b: nat)
      requires b < bufs.Length && IsIndex(bufs[..], freeList) && IsIndex(bufs[..], bufs[freeList].prevFree)
      modifies bufs
      ensures bufs[..] == ListedBufs(old(bufs[..]), freeList, b)
    {
      StoreNextFree(b, freeList);
      StorePrevFree(b, bufs[freeList].prevFree);
      StoreNextFree(bufs[freeList].prevFree, b);
      StorePrevFree(freeList, b);
    }

    /** Lines 246-252 of getblk: an unused, clean buffer becomes the buffer of another block, last on the free list. */
    method TakeOver(b: nat, dev: nat, block: nat)
      requires Ready() && b < bufs.Length && bufs[b].count == 0 && !bufs[b].lock && !bufs[b].dirt
      requires dev == 0 || FindLinear(bufs[..], (dev, block), 0) == NULL
      modifies this, bufs, hash
      ensures Ready() && |old(mine)| == bufs.Length && mine == old(mine)[b := old(mine)[b] + 1] && fuel == old(fuel)
      ensures SameContents(old(Snap()), Snap()) && disk == old(disk) && Respects(old(Snap()), Snap(), old(mine))
      ensures IdOf(bufs[b]) == (dev, block) && !bufs[b].lock && !bufs[b].uptodate && bufs[b].count == 1
      ensures IsIndex(bufs[..], freeList) && bufs[freeList].prevFree == b
    {
      hide Linked, Unique, Backed, Holds, Reidentified, ReidentifiedLists, Core, Polite, SameContents, OthersKept,
        FindLinear;
      ghost var c := Snap();
      assert IsIndex(c.bufs, b);
      ReidentifyLinks(c, ls, b, dev, block);
      Relink(b, dev, block);
      EvictionLosesNothing(c, Snap(), b, dev, block);
      TakeOverPolite(c, Snap(), mine, b, dev, block);
      PoliteTrans(seg, segMine, c, mine, Snap(), mine[b := 1]);
      mine := mine[b := mine[b] + 1];
    }

    method Relink(b: nat, dev: nat, block: nat)
      requires Linked(Snap(), ls) && b < bufs.Length && hash.Length == NR_HASH && b in ls.ring && |ls.chains| == NR_HASH
      modifies this`freeList, this`ls, bufs, hash
      ensures Snap() == Reidentified(old(Snap()), b, dev, block)
      ensures ls == ReidentifiedLists(old(Snap()), old(ls), b, dev, block) && Linked(Snap(), ls)
      ensures IsIndex(bufs[..], freeList) && bufs[freeList].prevFree == b
    {
      hide Linked, LinkedBut, Inserted, Xor, HashFn, UnhashedBufs, UnlistedBufs, ListsWithout, ListsWith, UnhashedTable;
      var c := Snap();
      LinkedAfterClaim(c, ls, b);
      ReidentifyLinks(c, ls, b, dev, block);
      bufs[b] := bufs[b].(count := 1);
      bufs[b] := bufs[b].(dirt := false);
      bufs[b] := bufs[b].(uptodate := false);
      ghost var c0 := Snap();
      assert c0.bufs == c.bufs[b := Claimed(c.bufs[b])];
      RemoveOK(c0, ls, b);
      RemovedCores(c0, b);
      RemoveFromQueues(b);
      ghost var c1 := Snap();
      bufs[b] := bufs[b].(dev := dev);
      bufs[b] := bufs[b].(block := block);
      ghost var c2 := Snap();
      assert c2.bufs == c1.bufs[b := c1.bufs[b].(dev := dev, block := block)];
      ChangeOK(c1, ListsWithout(c0.bufs, ls, b), b, c2.bufs[b]);
      LinkedButBounds(c2, ListsWithout(c0.bufs, ls, b), b);
      InsertIntoQueues(b);
      ls := ReidentifiedLists(c, ls, b, dev, block);
      LastOnList(Snap(), ls, b);
    }

    /** The scan of getblk: of the buffers nobody holds, the least bad, and of those the first on the free list. */
    method ScanFree() returns (bh: int)
      requires Linked(Snap(), ls)
      ensures Picked(bufs[..], ls.ring, bh)
    {
      hide ChainsOK, Xor;
      bh := NULL;
      var tmp := freeList;
      ghost var ring := ls.ring;
      ghost var i, p: nat := 0, 0;
      while true
        invariant i < |ring| && tmp == ring[i] < bufs.Length
        invariant if bh == NULL then NoneFree(bufs[..], ring, i) else BestFree(bufs[..], ring, p, i) && bh == ring[p]
        decreases |ring| - i
      {
        assert InRing(Snap().bufs, ring, i);
        if bufs[tmp].count == 0 && (bh == NULL || Badness(bufs[tmp]) < Badness(bufs[bh])) {
          bh, p := tmp, i;
          if Badness(bufs[tmp]) == 0 {
            assert BestFree(bufs[..], ring, p, |ring|);
            break;
          }
        }
        assert if bh == NULL then NoneFree(bufs[..], ring, i + 1) else BestFree(bufs[..], ring, p, i + 1);
        tmp := bufs[tmp].nextFree;
        if tmp == freeList {
          FullTurn(Snap(), ls, i);
          break;
        }
        i := i + 1;
      }
    }

    /** ll_rw_block: the buffer is locked and a request queued, and served by a driver that does it at once, unless
      * there is nothing to do or no driver.  Waiting for a free request is a sleep with the buffer locked.  A request
      * made ahead does not wait for anything: it is forgotten instead. */
    method LlRwBlock(write: bool, ahead: bool, b: nat) returns (awake: bool)
      requires Ready() && b < bufs.Length
      modifies this, bufs, hash
      ensures !awake ==> fuel == 0
      ensures Ready() && mine == old(mine) && fuel <= old(fuel) && Respects(old(Snap()), Snap(), mine)
      ensures awake && !ahead && !driver(old(bufs[b]).dev).Missing? ==> if bufs[b].lock || write then !bufs[b].dirt
                else bufs[b].uptodate || Refuses(driver(old(bufs[b]).dev), bufs[b].block)
      ensures awake && fuel == old(fuel) && !(ahead && Snap() == old(Snap())) ==>
                Snap() == Requested(old(Snap()), driver(old(bufs[b]).dev), write, b)
      ensures ahead ==> awake && fuel == old(fuel)
      ensures driver(old(bufs[b]).dev).Missing? ==> awake && Snap() == old(Snap())
      ensures !old(bufs[b]).lock && NothingToDo(write, old(bufs[b])) ==> awake && fuel == old(fuel)
    {
      hide Inv, Polite, Mine, WithRequest;
      ReadyFacts();
      var d := driver(bufs[b].dev);
      if d.Missing? || (ahead && bufs[b].lock) {
        return true;
      }
      awake := WaitOnBuffer(b);
      if !awake {
        return;
      }
      ReadyFacts();
      var room: bool := *;
      if (write && !bufs[b].dirt) || (!write && bufs[b].uptodate) || (ahead && !room) {
        ghost var c := Snap();
        bufs[b] := bufs[b].(lock := true);
        bufs[b] := bufs[b].(lock := false);
        assert Snap() == c;
        return;
      }
      SetFlags(b, bufs[b].dirt, bufs[b].count, true, mine[b]);
      ghost var locked := bufs[..];
      awake := QueueRequest(d, write, ahead, b);
      if fuel == old(fuel) {
        assert locked[b := locked[b].(dirt := false)]
            == old(bufs[..])[b := old(bufs[b]).(lock := true, dirt := false)];
      }
    }

    /** From label repeat of make_request on: the buffer is locked; waiting for a free request is a sleep, which does
      * not happen if there is known to be one. */
    method QueueRequest(d: Driver, write: bool, room: bool, b: nat) returns (awake: bool)
      requires Ready() && b < bufs.Length && bufs[b].lock && !d.Missing?
      modifies this, bufs, hash
      ensures !awake ==> fuel == 0
      ensures Ready() && mine == old(mine) && fuel <= old(fuel) && Respects(old(Snap()), Snap(), mine)
      ensures room ==> awake && fuel == old(fuel)
      ensures awake ==> !bufs[b].dirt && (bufs[b].lock || (bufs[b].uptodate <==> !Refuses(d, bufs[b].block)))
      ensures awake && fuel == old(fuel) ==>
                Snap() == WithRequest(old(Snap()).(bufs := old(bufs[..])[b := old(bufs[b]).(dirt := false)]),
                                      d, write, b)
    {
      hide Inv, Polite, Mine;
      ReadyFacts();
      awake := true;
      while !room
        invariant Ready() && mine == old(mine) && fuel <= old(fuel) && Respects(old(Snap()), Snap(), mine)
        invariant bufs[b].lock && |mine| == bufs.Length && awake
        invariant fuel == old(fuel) ==> Snap() == old(Snap())
        invariant room ==> fuel == old(fuel)
        decreases fuel
      {
        if * {
          break;
        }
        awake := Sleep(b);
        if !awake {
          return;
        }
      }
      SetFlags(b, false, bufs[b].count, true, mine[b]);
      if d.AtOnce? {
        Serve(write, b, bufs[b].block < d.size);
      }
    }

    /** The driver serves the request this process has just queued: the disk's step, not this process's, which goes on
      * from there. */
    method Serve(write: bool, b: nat, ok: bool)
      requires Ready() && b < bufs.Length && bufs[b].lock
      modifies this`disk, this`seg, this`segMine, bufs
      ensures Ready() && Snap() == Served(old(Snap()), write, b, ok) && Respects(old(Snap()), Snap(), mine)
    {
      hide Inv, Polite, Mine;
      ReadyFacts();
      ghost var c := Snap();
      ServedKeeps(c, ls, write, b, ok);
      if ok {
        if write {
          disk := disk[IdOf(bufs[b]) := bufs[b].data];
        } else {
          bufs[b] := bufs[b].(data := DiskAt(Snap(), IdOf(bufs[b])));
        }
      }
      bufs[b] := bufs[b].(uptodate := ok, lock := false);
      assert Snap() == Served(c, write, b, ok);
      seg, segMine := Snap(), mine;
      PoliteRefl(seg, mine);
    }

    /** One pass of sync_dev over all buffers; unless it slept or there is no driver, nothing of the device is dirty
      * then, and it has waited for all that were locked. */
    method SyncRound(dev: nat) returns (awake: bool)
      requires Ready()
      modifies this, bufs, hash
      ensures !awake ==> fuel == 0
      ensures Ready() && mine == old(mine) && fuel <= old(fuel) && Respects(old(Snap()), Snap(), mine)
      ensures awake && fuel == old(fuel) && !driver(dev).Missing? ==>
                forall b :: IsIndex(bufs[..], b) && bufs[b].dev == dev ==> !bufs[b].dirt
      ensures awake && fuel == old(fuel) ==>
                forall b :: IsIndex(bufs[..], b) && bufs[b].dev == dev ==> !old(bufs[b]).lock
      ensures awake && fuel == old(fuel) ==>
                forall b :: 0 <= b < bufs.Length && bufs[b] != old(bufs[b]) ==> bufs[b].dev == dev && old(bufs[b]).dirt
    {
      hide Inv, Polite, Mine;
      ReadyFacts();
      awake := true;
      for i := 0 to bufs.Length
        invariant Ready() && mine == old(mine) && fuel <= old(fuel) && Respects(old(Snap()), Snap(), mine) && awake
        invariant fuel == old(fuel) && !driver(dev).Missing? ==>
                    forall b :: 0 <= b < i && bufs[b].dev == dev ==> !bufs[b].dirt
        invariant fuel == old(fuel) ==> forall b :: 0 <= b < i && bufs[b].dev == dev ==> !old(bufs[b]).lock
        invariant fuel == old(fuel) ==> forall b :: 0 <= b < bufs.Length && bufs[b] != old(bufs[b]) ==>
                    b < i && bufs[b].dev == dev && old(bufs[b]).dirt
      {
        if bufs[i].dev == dev {
          awake := WaitOnBuffer(i);
          if !awake {
            return;
          }
          if bufs[i].dev == dev && bufs[i].dirt {
            awake := LlRwBlock(true, false, i);
            if !awake {
              return;
            }
          }
        }
      }
    }

    /** sync_dev.  sync_inodes between the passes counts as a sleep: it uses the cache like any other process.
      * `between` is the pool then.  If it does not sleep otherwise, nothing of the device is dirty there nor at the
      * end. */
    method SyncDev(dev: nat) returns (awake: bool, ghost between: Cache)
      requires Ready()
      modifies this, bufs, hash
      ensures !awake ==> fuel == 0
      ensures Ready() && mine == old(mine) && fuel <= old(fuel) && Respects(old(Snap()), Snap(), mine)
      ensures awake ==> fuel < old(fuel) && Respects(old(Snap()), between, mine)
      ensures awake && fuel == old(fuel) - 1 && !driver(dev).Missing? ==>
                NoneDirty(between.bufs, dev) && NoneDirty(bufs[..], dev)
    {
      hide Inv, Polite, Mine;
      awake := SyncRound(dev);
      between := Snap();
      if !awake {
        return;
      }
      awake := Sleep(NULL);
      if !awake {
        return;
      }
      awake := SyncRound(dev);
    }

    /** Lines 231-239 of getblk: wait until the chosen buffer is unlocked and clean; `free` says that nobody took a
      * reference to it meanwhile. */
    method Settle(bh: nat) returns (awake: bool, free: bool)
      requires Ready() && bh < bufs.Length && bufs[bh].count == 0
      modifies this, bufs, hash
      ensures !awake ==> fuel == 0
      ensures Ready() && mine == old(mine) && fuel <= old(fuel) && Respects(old(Snap()), Snap(), mine)
      ensures awake && free ==> bufs[bh].count == 0 && !bufs[bh].lock && !bufs[bh].dirt
      ensures awake && !free ==> fuel < old(fuel) && bufs[bh].count > 0
      ensures awake && fuel == old(fuel) ==> Snap() == old(Snap())
      ensures Clean(old(bufs[bh])) ==> awake && free && fuel == old(fuel)
    {
      hide Inv, Polite, Mine;
      free := false;
      awake := WaitOnBuffer(bh);
      if !awake || bufs[bh].count > 0 {
        return;
      }
      while bufs[bh].dirt
        invariant Ready() && mine == old(mine) && fuel <= old(fuel) && Respects(old(Snap()), Snap(), mine)
        invariant awake && bufs[bh].count == 0 && !bufs[bh].lock
        invariant fuel == old(fuel) ==> Snap() == old(Snap())
        invariant Clean(old(bufs[bh])) ==> fuel == old(fuel)
        decreases fuel
      {
        ghost var between;
        awake, between := SyncDev(bufs[bh].dev);
        if !awake {
          return;
        }
        awake := WaitOnBuffer(bh);
        if !awake || bufs[bh].count > 0 {
          return;
        }
      }
      free := true;
    }

    /** One turn of getblk for a block that is not cached: `taken` says that it took over the buffer `r` its scan
      * picked; else it has slept. */
    method TakeFree(dev: nat, block: nat) returns (awake: bool, taken: bool, r: int)
      requires Ready() && Cached(bufs[..], dev, block) == NULL
      modifies this, bufs, hash
      ensures !awake ==> fuel == 0
      ensures Ready() && fuel <= old(fuel) && Respects(old(Snap()), Snap(), old(mine))
      ensures Picked(old(bufs[..]), old(ls.ring), r)
      ensures awake && !taken ==> mine == old(mine) && fuel < old(fuel)
      ensures awake && taken ==> 0 <= r < bufs.Length == |old(mine)| && mine == old(mine)[r := old(mine)[r] + 1]
      ensures awake && taken ==>
                IdOf(bufs[r]) == (dev, block) && !bufs[r].lock && bufs[r].count == 1 && !bufs[r].uptodate
      ensures awake && fuel == old(fuel) ==>
              SameContents(old(Snap()), Snap()) && FirstClean(old(bufs[..]), old(ls.ring), r) && !bufs[r].uptodate
      ensures SomeClean(old(bufs[..])) ==> awake && taken && fuel == old(fuel)
    {
      hide Inv, Polite, Mine, Cached, Respects, SameContents, Picked, FirstClean, SomeClean, Clean;
      ReadyFacts();
      ghost var c, ring := Snap(), ls.ring;
      taken := false;
      ReadyLinked();
      r := ScanFree();
      CleanIsFound(c, ls, r);
      if r == NULL {
        awake := Sleep(NULL);
        return;
      }
      BestIs(bufs[..], ring, r);
      var free;
      awake, free := Settle(r);
      if !awake || !free {
        return;
      }
      ghost var settled := Snap();
      ReadyLinked();
      var other := FindBuffer(dev, block);
      assert other == Cached(bufs[..], dev, block) by { CachedIs(bufs[..], dev, block); }
      if other == NULL {
        if fuel == old(fuel) { BestClean(settled, ring, r); }
        TakeOver(r, dev, block);
        RespectsTrans(c, settled, Snap(), old(mine));
        taken := true;
      }
    }

    /** getblk: the one buffer of this block, with one more reference for this process.  It starts over only after it
      * has slept, and the buffer it takes over is unused, unlocked and clean at that very moment.  It does not sleep if
      * the block is cached and unlocked, nor if it is not cached and some buffer is unheld, unlocked and clean; then no
      * block's contents change, and it takes over the first such buffer of the free list.  `picks` are its scans, the
      * first of them in the pool as it was at the call if the block was not cached; unless it has found the block
      * cached, it has taken over what its last scan picked. */
    method GetBlk(dev: nat, block: nat) returns (awake: bool, r: int, ghost taken: bool, ghost picks: seq<Pick>)
      requires Ready()
      modifies this, bufs, hash
      ensures !awake ==> fuel == 0
      ensures Ready() && fuel <= old(fuel) && Respects(old(Snap()), Snap(), old(mine))
      ensures awake ==> 0 <= r < bufs.Length == |old(mine)| && mine == old(mine)[r := old(mine)[r] + 1]
      ensures awake ==> IdOf(bufs[r]) == (dev, block) && !bufs[r].lock
      ensures awake && fuel == old(fuel) ==> SameContents(old(Snap()), Snap())
      ensures awake && fuel == old(fuel) ==>
                if Cached(old(bufs[..]), dev, block) != NULL
                then bufs[..] == old(bufs[..])[r := old(bufs[r]).(count := old(bufs[r]).count + 1)]
                else FirstClean(old(bufs[..]), old(ls.ring), r) && !bufs[r].uptodate
      ensures var c := Cached(old(bufs[..]), dev, block);
        (if c != NULL then !old(bufs[..])[c].lock else SomeClean(old(bufs[..]))) ==> awake && fuel == old(fuel)
      ensures AllPicked(picks)
      ensures Cached(old(bufs[..]), dev, block) == NULL ==>
                picks != [] && picks[0].bufs == old(bufs[..]) && picks[0].ring == old(ls.ring)
      ensures taken ==> awake && picks != [] && picks[|picks| - 1].pick == r && bufs[r].count == 1 && !bufs[r].uptodate
      ensures awake && fuel == old(fuel) ==> (taken <==> Cached(old(bufs[..]), dev, block) == NULL)
    {
      hide Inv, Polite, Mine, Cached, Respects, SameContents, FirstClean, SomeClean, Picked;
      taken, picks := false, [];
      ReadyFacts();
      ghost var began := Snap();
      ghost var cached := Cached(began.bufs, dev, block);
      ghost var ready := if cached != NULL then !began.bufs[cached].lock else SomeClean(began.bufs);
      assert SameContents(began, began) by { SameContentsRefl(began); }
      while true
        invariant Ready() && mine == old(mine) && fuel <= old(fuel) && Respects(began, Snap(), mine)
        invariant fuel == old(fuel) ==> Snap() == began && ls == old(ls)
        invariant ready ==> fuel == old(fuel)
        invariant AllPicked(picks) && !taken && (fuel == old(fuel) ==> picks == [])
        invariant cached == NULL && fuel != old(fuel) ==>
                    picks != [] && picks[0].bufs == began.bufs && picks[0].ring == old(ls.ring)
        decreases fuel
      {
        ghost var c := Snap();
        awake, r := GetHashTable(dev, block);
        RespectsTrans(began, c, Snap(), old(mine));
        if !awake || r != NULL {
          return;
        }
        assert fuel == old(fuel) ==> cached == NULL && bufs[..] == began.bufs;
        ghost var ring := ls.ring;
        var took;
        awake, took, r := TakeFree(dev, block);
        RespectsTrans(began, c, Snap(), old(mine));
        picks := picks + [Pick(c.bufs, ring, r)];
        if !awake || took {
          taken := took && awake;
          return;
        }
      }
    }

    lemma ReadyLinked()
      requires Ready()
      ensures Linked(Snap(), ls) && Unique(bufs[..])
    {
      hide Linked, Polite;
    }

    /** brelse of NULL or of a buffer this process holds; its panic cannot happen. */
    method Brelse(b: int) returns (awake: bool)
      requires Ready() && (b != NULL ==> 0 <= b < bufs.Length == |mine| && mine[b] > 0)
      modifies this, bufs, hash
      ensures !awake ==> fuel == 0
      ensures Ready() && fuel <= old(fuel)
      ensures awake ==> mine == if b == NULL then old(mine) else old(mine)[b := old(mine)[b] - 1]
      ensures Respects(old(Snap()), Snap(), mine)
      ensures b == NULL || !old(bufs[..])[b].lock ==>
                awake && fuel == old(fuel) && bufs[..] == if b == NULL then old(bufs[..]) else
                  old(bufs[..])[b := old(bufs[..])[b].(count := old(bufs[..])[b].count - 1)]
      ensures b == NULL || !old(bufs[..])[b].lock ==> SameContents(old(Snap()), Snap())
    {
      hide Inv, Polite, Mine, Holds;
      if b == NULL {
        ReadyFacts();
        return true;
      }
      awake := WaitOnBuffer(b);
      if !awake {
        return;
      }
      assert bufs[b].count > 0;
      ReadyInv();
      SetFlagsAllowed(Snap(), ls, b);
      SetFlags(b, bufs[b].dirt, bufs[b].count - 1, bufs[b].lock, mine[b] - 1);
    }

    lemma ReadyInv()
      requires Ready()
      ensures Inv(Snap(), ls)
    {
      hide Inv, Polite, Mine;
    }

    /** The request of bread for a buffer this process holds, and waiting for it; it is not valid then only if the disk
      * failed while this process slept, or the request was refused. */
    method ReadIn(b: nat) returns (awake: bool)
      requires Ready() && b < bufs.Length == |mine| && mine[b] > 0
      modifies this, bufs, hash
      ensures !awake ==> fuel == 0
      ensures Ready() && mine == old(mine) && fuel <= old(fuel) && IdOf(bufs[b]) == IdOf(old(bufs[b]))
      ensures awake ==> !bufs[b].lock
      ensures awake && fuel == old(fuel) && !old(bufs[b]).lock && bufs[b].dev != 0 ==>
                && SameContents(old(Snap()), Snap())
                && (bufs[b].uptodate <==> old(bufs[b]).uptodate || !Refuses(driver(bufs[b].dev), bufs[b].block))
    {
      hide Inv, Polite, Mine, SameContents;
      ReadyInv();
      ghost var c := Snap();
      if !c.bufs[b].lock && c.bufs[b].dev != 0 { RequestKeepsContents(c, ls, driver(c.bufs[b].dev), false, b); }
      awake := LlRwBlock(false, false, b);
      if awake {
        awake := WaitOnBuffer(b);
      }
    }

    /** bread: a valid buffer of the block, holding what the block holds; NULL if it could not be read.  A cached,
      * unlocked and valid buffer is returned at once.  Without a sleep NULL is returned exactly for a block that has no
      * valid buffer and that the driver refuses, or that has no driver, and no block's contents change. */
    method Bread(dev: nat, block: nat) returns (awake: bool, r: int)
      requires Ready() && dev != 0
      modifies this, bufs, hash
      ensures !awake ==> fuel == 0
      ensures Ready() && fuel <= old(fuel)
      ensures awake && r == NULL ==> mine == old(mine)
      ensures var c := Cached(old(bufs[..]), dev, block);
        awake && fuel == old(fuel) ==>
          && (r == NULL <==> (c == NULL || !old(bufs[..])[c].uptodate) && Refuses(driver(dev), block))
          && SameContents(old(Snap()), Snap())
      ensures awake && r != NULL ==> 0 <= r < bufs.Length == |old(mine)| && mine == old(mine)[r := old(mine)[r] + 1]
      ensures awake && r != NULL ==> IdOf(bufs[r]) == (dev, block) && bufs[r].uptodate
      ensures awake && r != NULL ==> bufs[r].data == Holds(Snap(), (dev, block))
      ensures var c := Cached(old(bufs[..]), dev, block);
        c != NULL && !old(bufs[..])[c].lock && old(bufs[..])[c].uptodate ==> awake && r == c && fuel == old(fuel)
    {
      hide Inv, Polite, Mine, FindLinear, Cached, SomeClean, FirstClean, SameContents;
      ghost var began := Snap();
      ghost var c := Cached(bufs[..], dev, block);
      ReadyLinked();
      ghost var taken, picks;
      awake, r, taken, picks := GetBlk(dev, block);
      if !awake {
        return;
      }
      if c != NULL && fuel == old(fuel) { OnlyOne(old(bufs[..]), c, r, dev, block); }
      if !bufs[r].uptodate {
        ghost var got := Snap();
        awake := ReadIn(r);
        if !awake {
          return;
        }
        if fuel == old(fuel) { SameContentsTrans(began, got, Snap()); }
        if !bufs[r].uptodate {
          ghost var failed := Snap();
          awake := Brelse(r);
          if awake && fuel == old(fuel) { SameContentsTrans(began, failed, Snap()); }
          r := NULL;
          return;
        }
      }
      ReadyLinked();
      SearchIs(bufs[..], r, (dev, block));
    }
  }

  lemma RespectsTrans(c: Cache, c1: Cache, c2: Cache, m: seq<nat>)
    requires Respects(c, c1, m) && Respects(c1, c2, m)
    ensures Respects(c, c2, m) && |m| == |c2.bufs|
  {
  }

  /** The buffer of a block, NULL if there is none; device 0 has no blocks. */
  function Cached(bufs: seq<Buf>, dev: nat, block: nat): (r: int)
    ensures r == NULL || (0 <= r < |bufs| && dev != 0 && IdOf(bufs[r]) == (dev, block))
  {
    if dev == 0 then NULL else FindLinear(bufs, (dev, block), 0)
  }

  /** BADNESS. */
  function Badness(b: Buf): nat {
    (if b.dirt then 2 else 0) + (if b.lock then 1 else 0)
  }

  predicate NoneFree(bufs: seq<Buf>, ring: seq<nat>, n: nat) {
    n <= |ring| && InPool(ring, |bufs|) && forall k :: 0 <= k < n ==> bufs[ring[k]].count > 0
  }

  /** Among the first `n` of the free list, the one at `p` is unheld; it is dirty only if all the unheld ones are, and
    * locked only if all of them that are as dirty as it are; and it is the first of its kind. */
  predicate BestFree(bufs: seq<Buf>, ring: seq<nat>, p: nat, n: nat) {
    && p < n <= |ring| && InPool(ring, |bufs|) && bufs[ring[p]].count == 0
    && forall k :: 0 <= k < n && bufs[ring[k]].count == 0 ==>
         var best, other := bufs[ring[p]], bufs[ring[k]];
         && (best.dirt ==> other.dirt)
         && (best.lock && best.dirt == other.dirt ==> other.lock)
         && (k < p ==> best.dirt != other.dirt || best.lock != other.lock)
  }

  /** What one scan of the free list comes to: NULL only if all buffers are held. */
  ghost predicate Picked(bufs: seq<Buf>, ring: seq<nat>, pick: int) {
    if pick == NULL then NoneFree(bufs, ring, |ring|)
    else exists p: nat :: BestFree(bufs, ring, p, |ring|) && pick == ring[p]
  }

  /** The pool at one scan of getblk, and the buffer the scan picks. */
  datatype Pick = Pick(bufs: seq<Buf>, ring: seq<nat>, pick: int)

  ghost predicate AllPicked(picks: seq<Pick>) {
    forall i :: 0 <= i < |picks| ==> Picked(picks[i].bufs, picks[i].ring, picks[i].pick)
  }

  ghost predicate NoneDirty(bufs: seq<Buf>, dev: nat) {
    forall b :: 0 <= b < |bufs| && bufs[b].dev == dev ==> !bufs[b].dirt
  }

  /** `r` is the first of the free list that is unheld, unlocked and clean. */
  predicate FirstClean(bufs: seq<Buf>, ring: seq<nat>, r: int) {
    exists p :: 0 <= p < |ring| && InPool(ring, |bufs|) && r == ring[p] && Clean(bufs[ring[p]])
                && forall k :: 0 <= k < p ==> !Clean(bufs[ring[k]])
  }

  ghost predicate SomeClean(bufs: seq<Buf>) {
    exists b :: 0 <= b < |bufs| && Clean(bufs[b])
  }

  lemma CachedIs(bufs: seq<Buf>, dev: nat, block: nat)
    ensures Cached(bufs, dev, block) == if dev == 0 then NULL else FindLinear(bufs, (dev, block), 0)
  {
  }

  /** If some buffer is unheld, unlocked and clean, the scan finds such a one. */
  lemma CleanIsFound(c: Cache, ls: Lists, r: int)
    requires Linked(c, ls)
    requires Picked(c.bufs, ls.ring, r)
    ensures SomeClean(c.bufs) ==> r != NULL && 0 <= r < |c.bufs| && Clean(c.bufs[r])
  {
    hide ChainsOK;
    if SomeClean(c.bufs) {
      var b: nat :| b < |c.bufs| && Clean(c.bufs[b]);
      assert b in ls.ring;
      var k :| 0 <= k < |ls.ring| && ls.ring[k] == b;
      if r != NULL {
        var p: nat :| BestFree(c.bufs, ls.ring, p, |ls.ring|) && r == ls.ring[p];
      }
    }
  }

  predicate Clean(b: Buf) {
    b.count == 0 && !b.lock && !b.dirt
  }

  lemma BestClean(c: Cache, ring: seq<nat>, r: nat)
    requires r < |c.bufs| && Clean(c.bufs[r])
    ensures Picked(c.bufs, ring, r) ==> FirstClean(c.bufs, ring, r)
  {
    if p: nat :| BestFree(c.bufs, ring, p, |ring|) && r == ring[p] {
      forall k | 0 <= k < p ensures !Clean(c.bufs[ring[k]]) {}
    }
  }

  lemma BestIs(bufs: seq<Buf>, ring: seq<nat>, r: int)
    requires r != NULL && Picked(bufs, ring, r)
    ensures 0 <= r < |bufs| && bufs[r].count == 0
  {
  }

  lemma OnlyOne(bufs: seq<Buf>, c: nat, r: nat, dev: nat, block: nat)
    requires Unique(bufs) && c < |bufs| && r < |bufs| && dev != 0 && IdOf(bufs[c]) == (dev, block) == IdOf(bufs[r])
    ensures c == r
  {
  }

  lemma SameContentsTrans(c: Cache, c1: Cache, c2: Cache)
    requires SameContents(c, c1) && SameContents(c1, c2)
    ensures SameContents(c, c2)
  {
    hide Holds;
  }

  lemma SameContentsRefl(c: Cache)
    ensures SameContents(c, c)
  {
  }

  /** Back at the head of the free list, every buffer has been passed. */
  lemma FullTurn(c: Cache, ls: Lists, i: nat)
    requires Linked(c, ls) && i < |ls.ring| && InRing(c.bufs, ls.ring, i) && c.bufs[ls.ring[i]].nextFree == c.freeList
    ensures i + 1 == |ls.ring|
  {
    hide ChainsOK;
  }

  lemma LinkedButBounds(c: Cache, ls: Lists, b: nat)
    requires LinkedBut(c, ls, b)
    ensures |c.hash| == NR_HASH && IsIndex(c.bufs, c.freeList) && IsIndex(c.bufs, c.bufs[c.freeList].prevFree)
    ensures forall h :: 0 <= h < NR_HASH ==> c.hash[h] == NULL || IsIndex(c.bufs, c.hash[h])
  {
    hide Xor, HashFn;
    if ls.ring != [] { assert InRing(c.bufs, ls.ring, 0); }
    forall h | 0 <= h < NR_HASH ensures c.hash[h] == NULL || IsIndex(c.bufs, c.hash[h]) {
      assert ChainOK(c.bufs, c.hash[h], ls.chains[h]);
    }
  }

  lemma TakeOverPolite(c: Cache, c': Cache, mine: seq<nat>, b: nat, dev: nat, block: nat)
    requires Mine(c, mine) && b < |c.bufs| && c.bufs[b].count == 0 && !c.bufs[b].lock && SameContents(c, c')
    requires OthersKept(c, c', b) && Core(c'.bufs[b]) == Core(Claimed(c.bufs[b]).(dev := dev, block := block))
    ensures Mine(c', mine[b := 1]) && Polite(c, mine, c', mine[b := 1]) && Respects(c, c', mine)
    ensures IdOf(c'.bufs[b]) == (dev, block) && !c'.bufs[b].lock && !c'.bufs[b].uptodate && c'.bufs[b].count == 1
  {
    hide SameContents, Core;
    CoreIs(c'.bufs[b], Claimed(c.bufs[b]).(dev := dev, block := block));
    assert IsIndex(c.bufs, b);
    forall x | IsIndex(c.bufs, x) && x != b
      ensures IdOf(c'.bufs[x]) == IdOf(c.bufs[x]) && c'.bufs[x].count == c.bufs[x].count
              && c'.bufs[x].lock == c.bufs[x].lock
    {
      CoreIs(c'.bufs[x], c.bufs[x]);
    }
  }

  lemma LastOnList(c: Cache, ls: Lists, b: nat)
    requires Linked(c, ls) && |ls.ring| > 0 && ls.ring[|ls.ring| - 1] == b
    ensures IsIndex(c.bufs, c.freeList) && c.bufs[c.freeList].prevFree == b
  {
    assert InRing(c.bufs, ls.ring, 0);
  }

  /** The stores of lines 160-166 one after another. */
  lemma HashSteps(bufs: seq<Buf>, head: int, b: nat)
    requires b < |bufs|
    ensures HashedBufs(bufs, head, b) == SetPrev(SetNext(SetNext(SetPrev(bufs, b, NULL), b, NULL), b, head), head, b)
  {
  }

  lemma InitLinked(c: Cache, ls: Lists, mine: seq<nat>)
    requires mine == seq(|c.bufs|, _ => 0)
    requires |c.bufs| > 0 && c.hash == seq(NR_HASH, _ => NULL) && c.freeList == 0
    requires ls == Lists(seq(|c.bufs|, (i: nat) => i), seq(NR_HASH, _ => []))
    requires forall i :: 0 <= i < |c.bufs| ==>
               c.bufs[i] == Buf(0, 0, false, false, 0, false, NULL, NULL,
                                Pred(i, |c.bufs|), Succ(i, |c.bufs|), [])
    ensures Inv(c, ls) && Mine(c, mine) && forall id: Id :: Holds(c, id) == DiskAt(c, id)
  {
    hide Xor, HashFn;
    forall i: nat | i < |ls.ring| ensures InRing(c.bufs, ls.ring, i) {}
    assert ls.ring[0] == 0;
    forall b: nat | b < |c.bufs| ensures b in ls.ring { assert ls.ring[b] == b; }
    forall h | 0 <= h < NR_HASH ensures ChainOK(c.bufs, c.hash[h], ls.chains[h]) {}
  }

  /** Any buffer of the block is in the chain that find_buffer walks. */
  lemma AllInChain(c: Cache, ls: Lists, dev: nat, block: nat)
    requires Linked(c, ls) && dev != 0
    ensures forall b: nat :: b < |c.bufs| && IdOf(c.bufs[b]) == (dev, block) ==> b in ls.chains[HashFn(dev, block)]
  {
    hide Xor;
    forall b: nat | b < |c.bufs| && IdOf(c.bufs[b]) == (dev, block) ensures b in ls.chains[HashFn(dev, block)] {
      assert b != NULL && c.bufs[b].dev == dev && c.bufs[b].block == block;
    }
  }

  lemma SetFlagsAllowed(c: Cache, ls: Lists, b: nat)
    requires Inv(c, ls) && b < |c.bufs|
    ensures c.bufs[b].dev != 0 && c.bufs[b].uptodate && !c.bufs[b].dirt && !c.bufs[b].lock ==>
              c.bufs[b].data == DiskAt(c, IdOf(c.bufs[b]))
  {
    hide Linked;
  }
}
