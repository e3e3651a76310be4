/** The buffer heads of fs/buffer.c and the two structures threaded through them: one hash chain per hash value, and one
  * circular free list of all buffers.
  *
  * Buffers are numbered in the order of `start_buffer`; a pointer to a buffer is its number, and NULL is -1.
  */
module BufferLinks {
  import opened Links

  const NR_HASH: nat := 307
  type Data = seq<int>

  /** struct buffer_head, without the wait queue. */
  datatype Buf = Buf(
    dev: nat, block: nat, uptodate: bool, dirt: bool, count: nat, lock: bool,
    prev: int, next: int, prevFree: int, nextFree: int, data: Data)

  // ---- hashing ----

  function Xor(a: nat, b: nat): nat
    decreases a + b
  {
    if a == 0 && b == 0 then 0 else (a % 2 + b % 2) % 2 + 2 * Xor(a / 2, b / 2)
  }

  function HashFn(dev: nat, block: nat): (h: nat)
    ensures h < NR_HASH
  {
    Xor(dev, block) % NR_HASH
  }

  /** Bit `k` of a number. */
  function Bit(a: nat, k: nat): nat {
    if k == 0 then a % 2 else Bit(a / 2, k - 1)
  }

  /** _hashfn: the exclusive or, bit by bit, divided by 307. */
  lemma {:induction false} HashIs(dev: nat, block: nat, k: nat)
    ensures Bit(Xor(dev, block), k) == if Bit(dev, k) == Bit(block, k) then 0 else 1
    ensures HashFn(dev, block) < 307 && exists q: nat :: HashFn(dev, block) + q * 307 == Xor(dev, block)
  {
    XorBit(dev, block, k);
    assert HashFn(dev, block) + (Xor(dev, block) / 307) * 307 == Xor(dev, block);
  }

  lemma {:induction false} XorBit(a: nat, b: nat, k: nat)
    ensures Bit(a, k) < 2 && Bit(b, k) < 2 && Bit(Xor(a, b), k) == if Bit(a, k) == Bit(b, k) then 0 else 1
    decreases k
  {
    if a == 0 && b == 0 {
      ZeroBits(k);
    } else {
      var x := Xor(a, b);
      assert x % 2 == (a % 2 + b % 2) % 2 && x / 2 == Xor(a / 2, b / 2);
      if k > 0 { XorBit(a / 2, b / 2, k - 1); }
    }
  }

  lemma {:induction false} ZeroBits(k: nat)
    ensures Bit(0, k) == 0
  {
    if k > 0 { ZeroBits(k - 1); }
  }

  // ---- sequences ----

  function Succ(i: nat, n: nat): nat {
    if i + 1 == n then 0 else i + 1
  }

  function Pred(i: nat, n: nat): int {
    if i == 0 then n - 1 else i - 1
  }

  // ---- what well-linked means ----

  predicate InPool(s: seq<nat>, n: nat) {
    forall i :: 0 <= i < |s| ==> s[i] < n
  }

  /** The buffer at place `i` of a chain points to its neighbours. */
  predicate InChain(bufs: seq<Buf>, ch: seq<nat>, i: nat) {
    i < |ch| && ch[i] < |bufs| && bufs[ch[i]].next == At(ch, i + 1) && bufs[ch[i]].prev == At(ch, i - 1)
  }

  /** `ch` lists one hash chain from its head. */
  predicate ChainOK(bufs: seq<Buf>, head: int, ch: seq<nat>) {
    && InPool(ch, |bufs|) && Distinct(ch) && head == At(ch, 0)
    && forall i: nat :: i < |ch| ==> InChain(bufs, ch, i)
  }

  predicate InRing(bufs: seq<Buf>, ring: seq<nat>, i: nat) {
    && i < |ring| && ring[i] < |bufs|
    && bufs[ring[i]].nextFree == At(ring, Succ(i, |ring|)) && bufs[ring[i]].prevFree == At(ring, Pred(i, |ring|))
  }

  /** `ring` lists the circular free list from `freeList`. */
  predicate RingOK(bufs: seq<Buf>, freeList: int, ring: seq<nat>) {
    && ring != [] && InPool(ring, |bufs|) && Distinct(ring) && freeList == ring[0]
    && forall i: nat :: i < |ring| ==> InRing(bufs, ring, i)
  }

  /** Each identified buffer but `out` is in its own chain and no other. */
  predicate MembersOK(bufs: seq<Buf>, chains: seq<seq<nat>>, out: int) {
    && |chains| == NR_HASH
    && (forall h, b {:trigger b in chains[h]} :: 0 <= h < NR_HASH && b in chains[h] ==>
          b < |bufs| && b != out && bufs[b].dev != 0 && HashFn(bufs[b].dev, bufs[b].block) == h)
    && (forall b: nat :: b < |bufs| && b != out && bufs[b].dev != 0 ==> b in chains[HashFn(bufs[b].dev, bufs[b].block)])
  }

  predicate ChainsOK(bufs: seq<Buf>, hash: seq<int>, chains: seq<seq<nat>>, out: int) {
    && MembersOK(bufs, chains, out) && |hash| == NR_HASH
    && (forall h :: 0 <= h < NR_HASH ==> ChainOK(bufs, hash[h], chains[h]))
    && (forall b :: 0 <= b < |bufs| && b != out && bufs[b].dev == 0 ==> bufs[b].next == NULL && bufs[b].prev == NULL)
  }

  /** The buffer differs in the hash links only, or in the free links only. */
  predicate HashLinksOnly(b: Buf, b': Buf) {
    b' == b.(prev := b'.prev, next := b'.next)
  }

  predicate FreeLinksOnly(b: Buf, b': Buf) {
    b' == b.(prevFree := b'.prevFree, nextFree := b'.nextFree)
  }

  predicate AllHashLinksOnly(bufs: seq<Buf>, bufs': seq<Buf>) {
    |bufs'| == |bufs| && forall i :: 0 <= i < |bufs| ==> HashLinksOnly(bufs[i], bufs'[i])
  }

  predicate AllFreeLinksOnly(bufs: seq<Buf>, bufs': seq<Buf>) {
    |bufs'| == |bufs| && forall i :: 0 <= i < |bufs| ==> FreeLinksOnly(bufs[i], bufs'[i])
  }

  // ---- the pointer stores, as functions ----

  function SetNext(bufs: seq<Buf>, b: int, v: int): seq<Buf> {
    if 0 <= b < |bufs| then bufs[b := bufs[b].(next := v)] else bufs
  }

  function SetPrev(bufs: seq<Buf>, b: int, v: int): seq<Buf> {
    if 0 <= b < |bufs| then bufs[b := bufs[b].(prev := v)] else bufs
  }

  function SetNextFree(bufs: seq<Buf>, b: int, v: int): seq<Buf> {
    if 0 <= b < |bufs| then bufs[b := bufs[b].(nextFree := v)] else bufs
  }

  function SetPrevFree(bufs: seq<Buf>, b: int, v: int): seq<Buf> {
    if 0 <= b < |bufs| then bufs[b := bufs[b].(prevFree := v)] else bufs
  }

  /** Lines 137-140; a NULL neighbour is skipped. */
  function UnhashedBufs(bufs: seq<Buf>, b: nat): seq<Buf>
    requires b < |bufs|
  {
    SetNext(SetPrev(bufs, bufs[b].next, bufs[b].prev), bufs[b].prev, bufs[b].next)
  }

  /** Lines 146-147. */
  function UnlistedBufs(bufs: seq<Buf>, b: nat): seq<Buf>
    requires b < |bufs|
  {
    SetPrevFree(SetNextFree(bufs, bufs[b].prevFree, bufs[b].nextFree), bufs[b].nextFree, bufs[b].prevFree)
  }

  /** Lines 155-158. */
  function ListedBufs(bufs: seq<Buf>, freeList: nat, b: nat): seq<Buf>
    requires b < |bufs| && freeList < |bufs|
  {
    var last := bufs[freeList].prevFree;
    SetPrevFree(SetNextFree(SetPrevFree(SetNextFree(bufs, b, freeList), b, last), last, b), freeList, b)
  }

  /** Lines 160-166, for a buffer with a device; a NULL old head is skipped. */
  function HashedBufs(bufs: seq<Buf>, head: int, b: nat): seq<Buf>
    requires b < |bufs|
  {
    SetPrev(SetNext(SetPrev(bufs, b, NULL), b, head), head, b)
  }

  // ---- their effect on one list ----

  lemma UnhashSizes(bufs: seq<Buf>, b: nat)
    requires b < |bufs|
    ensures AllHashLinksOnly(bufs, UnhashedBufs(bufs, b))
  {
  }

  lemma UnlistSizes(bufs: seq<Buf>, b: nat)
    requires b < |bufs|
    ensures AllFreeLinksOnly(bufs, UnlistedBufs(bufs, b))
  {
  }

  lemma UnhashOne(bufs: seq<Buf>, head: int, ch: seq<nat>, p: nat)
    requires ChainOK(bufs, head, ch) && p < |ch|
    ensures ChainOK(UnhashedBufs(bufs, ch[p]), if head == ch[p] then bufs[ch[p]].next else head, RemoveAt(ch, p))
  {
    RemoveKeepsDistinct(ch, p);
    var bufs', r := UnhashedBufs(bufs, ch[p]), RemoveAt(ch, p);
    assert InChain(bufs, ch, p);
    forall i: nat | i < |r| ensures InChain(bufs', r, i) {
      var k := if i < p then i else i + 1;
      assert InChain(bufs, ch, k) && r[i] == ch[k];
    }
  }

  /** The links of the buffer at place `k` once the one at `p` is out. */
  lemma UnlistAt(bufs: seq<Buf>, freeList: int, ring: seq<nat>, p: nat, k: nat)
    requires RingOK(bufs, freeList, ring) && p < |ring| && k < |ring| && k != p
    ensures var b, n := UnlistedBufs(bufs, ring[p])[ring[k]], |ring|;
      && b.nextFree == At(ring, if Succ(k, n) == p then Succ(p, n) else Succ(k, n))
      && b.prevFree == At(ring, if Pred(k, n) == p then Pred(p, n) else Pred(k, n))
  {
    assert InRing(bufs, ring, p) && InRing(bufs, ring, k);
    assert ring[k] != ring[p];
    assert ring[k] == ring[Succ(p, |ring|)] <==> k == Succ(p, |ring|);
    assert ring[k] == ring[Pred(p, |ring|)] <==> k == Pred(p, |ring|);
  }

  /** Neighbours after a removal, in terms of places before it. */
  lemma RemovedNeighbours(ring: seq<nat>, p: nat, i: nat)
    requires p < |ring| && |ring| >= 2 && i < |ring| - 1
    ensures var r, n, k := RemoveAt(ring, p), |ring|, if i < p then i else i + 1;
      && At(r, Succ(i, n - 1)) == At(ring, if Succ(k, n) == p then Succ(p, n) else Succ(k, n))
      && At(r, Pred(i, n - 1)) == At(ring, if Pred(k, n) == p then Pred(p, n) else Pred(k, n))
  {
  }

  lemma UnlistOne(bufs: seq<Buf>, freeList: int, ring: seq<nat>, p: nat)
    requires RingOK(bufs, freeList, ring) && p < |ring| && |ring| >= 2
    ensures RingOK(UnlistedBufs(bufs, ring[p]), if freeList == ring[p] then bufs[ring[p]].nextFree else freeList,
                   RemoveAt(ring, p))
  {
    hide UnlistedBufs, Succ, Pred, At;
    RemoveKeepsDistinct(ring, p);
    UnlistSizes(bufs, ring[p]);
    var bufs', r := UnlistedBufs(bufs, ring[p]), RemoveAt(ring, p);
    assert InRing(bufs, ring, p);
    forall i: nat | i < |r| ensures InRing(bufs', r, i) {
      var k := if i < p then i else i + 1;
      UnlistAt(bufs, freeList, ring, p, k);
      RemovedNeighbours(ring, p, i);
      assert r[i] == ring[k];
    }
    NextOfFirst(ring, p);
  }

  lemma NextOfFirst(ring: seq<nat>, p: nat)
    requires p < |ring| && |ring| >= 2
    ensures p == 0 ==> RemoveAt(ring, p)[0] == At(ring, Succ(p, |ring|))
    ensures p != 0 ==> RemoveAt(ring, p)[0] == ring[0]
  {
  }

  lemma ListOne(bufs: seq<Buf>, freeList: nat, ring: seq<nat>, b: nat)
    requires RingOK(bufs, freeList, ring) && b < |bufs| && b !in ring
    ensures RingOK(ListedBufs(bufs, freeList, b), freeList, ring + [b])
  {
    var bufs', r := ListedBufs(bufs, freeList, b), ring + [b];
    assert InRing(bufs, ring, 0);
    forall i: nat | i < |r| ensures InRing(bufs', r, i) {
      if i < |ring| { assert InRing(bufs, ring, i) && r[i] == ring[i] != b; }
    }
  }

  lemma HashOne(bufs: seq<Buf>, head: int, ch: seq<nat>, b: nat)
    requires ChainOK(bufs, head, ch) && b < |bufs| && b !in ch
    ensures ChainOK(HashedBufs(bufs, head, b), b, [b] + ch)
  {
    var bufs', r := HashedBufs(bufs, head, b), [b] + ch;
    forall i: nat | i < |r| ensures InChain(bufs', r, i) {
      if i > 0 { assert InChain(bufs, ch, i - 1) && r[i] == ch[i - 1] != b; }
    }
  }

  /** A chain none of whose buffers has its hash links changed stays as it is. */
  lemma ChainUntouched(bufs: seq<Buf>, bufs': seq<Buf>, head: int, ch: seq<nat>)
    requires ChainOK(bufs, head, ch) && |bufs'| == |bufs|
    requires forall i :: 0 <= i < |ch| ==>
             bufs'[ch[i]].next == bufs[ch[i]].next && bufs'[ch[i]].prev == bufs[ch[i]].prev
    ensures ChainOK(bufs', head, ch)
  {
    forall i: nat | i < |ch| ensures InChain(bufs', ch, i) { assert InChain(bufs, ch, i); }
  }

  lemma RingUntouched(bufs: seq<Buf>, bufs': seq<Buf>, freeList: int, ring: seq<nat>)
    requires RingOK(bufs, freeList, ring) && |bufs'| == |bufs|
    requires forall i :: 0 <= i < |bufs| ==>
             bufs'[i].nextFree == bufs[i].nextFree && bufs'[i].prevFree == bufs[i].prevFree
    ensures RingOK(bufs', freeList, ring)
  {
    forall i: nat | i < |ring| ensures InRing(bufs', ring, i) { assert InRing(bufs, ring, i); }
  }
}
