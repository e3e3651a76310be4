/** fs/buffer.c's cache, one process's view: its own steps between two sleeps, and at every sleep whatever the other
  * processes and the disk interrupt may have done.
  */
module BufferCache {
  import opened Links
  import opened BufferLinks

  type Id = (nat, nat)   // device, block

  /** The buffer heads, hash_table, free_list, and the blocks on disk. */
  datatype Cache = Cache(bufs: seq<Buf>, hash: seq<int>, freeList: int, disk: map<Id, Data>)

  /** The free list and the hash chains, written out. */
  datatype Lists = Lists(ring: seq<nat>, chains: seq<seq<nat>>)

  function IdOf(b: Buf): Id {
    (b.dev, b.block)
  }

  function DiskAt(c: Cache, id: Id): Data {
    if id in c.disk then c.disk[id] else []
  }

  predicate IsIndex(bufs: seq<Buf>, b: int) {
    0 <= b < |bufs|
  }

  // ---- the invariant ----

  /** The free list goes round all the buffers, and every identified buffer is in exactly its own hash chain. */
  predicate Linked(c: Cache, ls: Lists) {
    && RingOK(c.bufs, c.freeList, ls.ring)
    && (forall b: nat :: b < |c.bufs| ==> b in ls.ring)
    && ChainsOK(c.bufs, c.hash, ls.chains, NULL)
  }

  /** No block is cached twice. */
  predicate Unique(bufs: seq<Buf>) {
    forall b, b' :: 0 <= b < |bufs| && 0 <= b' < |bufs| && bufs[b].dev != 0 && IdOf(bufs[b]) == IdOf(bufs[b']) ==>
      b == b'
  }

  /** A valid buffer with no write pending holds what the disk holds. */
  predicate Backed(c: Cache) {
    forall b :: 0 <= b < |c.bufs| && c.bufs[b].dev != 0 && c.bufs[b].uptodate && !c.bufs[b].dirt && !c.bufs[b].lock ==>
      c.bufs[b].data == DiskAt(c, IdOf(c.bufs[b]))
  }

  predicate Inv(c: Cache, ls: Lists) {
    Linked(c, ls) && Unique(c.bufs) && Backed(c)
  }

  // ---- a plain search, and what a block holds ----

  /** The first buffer from `i` on that is identified as `id`. */
  function FindLinear(bufs: seq<Buf>, id: Id, i: nat): (r: int)
    requires i <= |bufs|
    ensures r == NULL || (IsIndex(bufs, r) && IdOf(bufs[r]) == id)
    ensures r == NULL <==> forall b :: IsIndex(bufs, b) && b >= i ==> IdOf(bufs[b]) != id
    decreases |bufs| - i
  {
    if i == |bufs| then NULL else if IdOf(bufs[i]) == id then i else FindLinear(bufs, id, i + 1)
  }

  /** The contents of a block as every user of the cache must see it. */
  function Holds(c: Cache, id: Id): Data {
    var b := FindLinear(c.bufs, id, 0);
    if b != NULL && c.bufs[b].uptodate then c.bufs[b].data else DiskAt(c, id)
  }

  ghost predicate SameContents(c: Cache, c': Cache) {
    forall id: Id :: id.0 != 0 ==> Holds(c', id) == Holds(c, id)
  }

  lemma SearchIs(bufs: seq<Buf>, b: nat, id: Id)
    requires Unique(bufs) && b < |bufs| && id.0 != 0 && IdOf(bufs[b]) == id
    ensures FindLinear(bufs, id, 0) == b
  {
  }

  // ---- references to buffers, and what processes owe each other ----

  /** This process holds `mine[b]` of the references counted in b_count. */
  ghost predicate Mine(c: Cache, mine: seq<nat>) {
    |mine| == |c.bufs| && forall b :: IsIndex(c.bufs, b) ==> mine[b] <= c.bufs[b].count
  }

  /** What a process may do between two sleeps: it leaves the references of others alone, does not give another identity
    * to a buffer others hold or one that is locked, unlocks nothing, and changes nothing any block holds. */
  ghost predicate Polite(c: Cache, mine: seq<nat>, c': Cache, mine': seq<nat>) {
    && Mine(c, mine) && Mine(c', mine') && |c'.bufs| == |c.bufs|
    && (forall b :: IsIndex(c.bufs, b) ==>
          && c'.bufs[b].count - mine'[b] == c.bufs[b].count - mine[b]
          && (c.bufs[b].count > mine[b] ==> IdOf(c'.bufs[b]) == IdOf(c.bufs[b]))
          && (c.bufs[b].lock ==> c'.bufs[b].lock && IdOf(c'.bufs[b]) == IdOf(c.bufs[b])))
    && SameContents(c, c')
  }

  /** What a process can rely on across a sleep. */
  predicate Respects(c: Cache, c': Cache, mine: seq<nat>) {
    && |c'.bufs| == |c.bufs| == |mine|
    && forall b :: 0 <= b < |c.bufs| ==>
         c'.bufs[b].count >= mine[b] && (mine[b] > 0 ==> IdOf(c'.bufs[b]) == IdOf(c.bufs[b]))
  }

  predicate StaysLocked(c: Cache, c': Cache, b: int) {
    IsIndex(c.bufs, b) && IsIndex(c'.bufs, b) && c'.bufs[b].lock && IdOf(c'.bufs[b]) == IdOf(c.bufs[b])
  }

  function SumRefs(refs: seq<seq<nat>>, b: nat): nat {
    if refs == [] then 0 else (if b < |refs[0]| then refs[0][b] else 0) + SumRefs(refs[1..], b)
  }

  /** b_count counts the references of all processes. */
  predicate Accounted(c: Cache, refs: seq<seq<nat>>) {
    && (forall t :: 0 <= t < |refs| ==> |refs[t]| == |c.bufs|)
    && forall b: nat :: b < |c.bufs| ==> c.bufs[b].count == SumRefs(refs, b)
  }

  lemma {:induction false} SumUpdate(refs: seq<seq<nat>>, t: nat, r: seq<nat>, b: nat)
    requires t < |refs| && b < |refs[t]| && b < |r|
    ensures SumRefs(refs[t := r], b) + refs[t][b] == SumRefs(refs, b) + r[b]
  {
    if t == 0 {
      assert refs[t := r][1..] == refs[1..];
    } else {
      assert refs[t := r][1..] == refs[1..][t - 1 := r];
      SumUpdate(refs[1..], t - 1, r, b);
    }
  }

  lemma {:induction false} SumOfTwo(refs: seq<seq<nat>>, t: nat, u: nat, b: nat)
    requires t < |refs| && u < |refs| && t != u && b < |refs[t]| && b < |refs[u]|
    ensures refs[t][b] + refs[u][b] <= SumRefs(refs, b)
    decreases |refs|
  {
    if t > 0 && u > 0 {
      SumOfTwo(refs[1..], t - 1, u - 1, b);
    } else {
      SumOfOne(refs[1..], if t > 0 then t - 1 else u - 1, b);
    }
  }

  lemma {:induction false} SumOfOne(refs: seq<seq<nat>>, t: nat, b: nat)
    requires t < |refs| && b < |refs[t]|
    ensures refs[t][b] <= SumRefs(refs, b)
  {
    if t > 0 { SumOfOne(refs[1..], t - 1, b); }
  }

  /** If every process is polite, every process can rely on what it needs: a buffer one process holds keeps its identity
    * whatever any other process does, a locked buffer stays locked until the disk is done with it, and the reference
    * counts stay exact. */
  lemma PoliteStepsRespect(c: Cache, refs: seq<seq<nat>>, t: nat, c': Cache, mine': seq<nat>)
    requires Accounted(c, refs) && t < |refs| && Polite(c, refs[t], c', mine')
    ensures Accounted(c', refs[t := mine'])
    ensures forall u :: 0 <= u < |refs| && u != t ==> Respects(c, c', refs[u])
    ensures forall b :: 0 <= b < |c.bufs| && c.bufs[b].lock ==> StaysLocked(c, c', b)
  {
    forall b: nat | b < |c'.bufs| ensures c'.bufs[b].count == SumRefs(refs[t := mine'], b) {
      assert IsIndex(c.bufs, b);
      SumUpdate(refs, t, mine', b);
    }
    forall u | 0 <= u < |refs| && u != t ensures Respects(c, c', refs[u]) {
      forall b | IsIndex(c.bufs, b)
        ensures c'.bufs[b].count >= refs[u][b] && (refs[u][b] > 0 ==> IdOf(c'.bufs[b]) == IdOf(c.bufs[b]))
      {
        SumOfTwo(refs, t, u, b);
      }
    }
  }

  // ---- taking a buffer out of its lists and putting it back ----

  /** All buffers but `b` are linked; if there are no others, `b` still points to itself. */
  ghost predicate LinkedBut(c: Cache, ls: Lists, b: nat) {
    && b < |c.bufs| && b !in ls.ring
    && (forall x: nat :: x < |c.bufs| && x != b ==> x in ls.ring)
    && (if ls.ring != [] then RingOK(c.bufs, c.freeList, ls.ring)
        else c.freeList == b && c.bufs[b].nextFree == b && c.bufs[b].prevFree == b)
    && ChainsOK(c.bufs, c.hash, ls.chains, b)
  }

  function IndexOf(s: seq<nat>, x: nat): (i: nat)
    requires x in s
    ensures i < |s| && s[i] == x
  {
    if s[0] == x then 0 else 1 + IndexOf(s[1..], x)
  }

  function Without(s: seq<nat>, x: nat): seq<nat>
    requires x in s
  {
    RemoveAt(s, IndexOf(s, x))
  }

  function ChainsWithout(bufs: seq<Buf>, chains: seq<seq<nat>>, b: nat): seq<seq<nat>>
    requires b < |bufs| && |chains| == NR_HASH
  {
    var h := HashFn(bufs[b].dev, bufs[b].block);
    if b in chains[h] then chains[h := Without(chains[h], b)] else chains
  }

  function UnhashedTable(bufs: seq<Buf>, hash: seq<int>, b: nat): seq<int>
    requires b < |bufs| && |hash| == NR_HASH
  {
    var h := HashFn(bufs[b].dev, bufs[b].block);
    if hash[h] == b then hash[h := bufs[b].next] else hash
  }

  lemma UnhashMembers(bufs: seq<Buf>, bufs': seq<Buf>, chains: seq<seq<nat>>, b: nat)
    requires MembersOK(bufs, chains, NULL) && b < |bufs| && AllHashLinksOnly(bufs, bufs')
    requires forall h :: 0 <= h < NR_HASH ==> Distinct(chains[h])
    ensures MembersOK(bufs', ChainsWithout(bufs, chains, b), b)
  {
    hide Xor, RemoveAt;
    var h0 := HashFn(bufs[b].dev, bufs[b].block);
    if b in chains[h0] {
      RemoveKeepsDistinct(chains[h0], IndexOf(chains[h0], b));
    }
    forall x: nat | x < |bufs| ensures bufs'[x].dev == bufs[x].dev && bufs'[x].block == bufs[x].block {
      assert HashLinksOnly(bufs[x], bufs'[x]);
    }
    var chains' := ChainsWithout(bufs, chains, b);
    forall x: nat | x < |bufs'| && x != b && bufs'[x].dev != 0
      ensures x in chains'[HashFn(bufs'[x].dev, bufs'[x].block)]
    {
      assert x in chains[HashFn(bufs[x].dev, bufs[x].block)];
    }
    forall h, x | 0 <= h < NR_HASH && x in chains'[h]
      ensures x < |bufs'| && x != b && bufs'[x].dev != 0 && HashFn(bufs'[x].dev, bufs'[x].block) == h
    {
      assert x in chains[h];
    }
  }

  lemma UnhashOneChain(bufs: seq<Buf>, hash: seq<int>, chains: seq<seq<nat>>, b: nat, h: nat)
    requires ChainsOK(bufs, hash, chains, NULL) && b < |bufs| && h < NR_HASH
    ensures ChainOK(UnhashedBufs(bufs, b), UnhashedTable(bufs, hash, b)[h], ChainsWithout(bufs, chains, b)[h])
  {
    hide Xor, RemoveAt, UnhashedBufs;
    var h0 := HashFn(bufs[b].dev, bufs[b].block);
    assert ChainOK(bufs, hash[h0], chains[h0]) && ChainOK(bufs, hash[h], chains[h]);
    if b in chains[h0] {
      var p := IndexOf(chains[h0], b);
      if h == h0 {
        UnhashOne(bufs, hash[h0], chains[h0], p);
      } else {
        forall i | 0 <= i < |chains[h]| ensures chains[h][i] !in chains[h0] {
          assert chains[h][i] in chains[h];
        }
        assert InChain(bufs, chains[h0], p);
        OtherChain(bufs, chains[h0], chains[h], p);
        UnhashSizes(bufs, b);
        ChainUntouched(bufs, UnhashedBufs(bufs, b), hash[h], chains[h]);
      }
    } else {
      assert bufs[b].dev == 0 by {
        assert b != NULL;
      }
      NothingToUnhash(bufs, b);
      assert chains[h0] != [] ==> chains[h0][0] in chains[h0];
    }
  }

  /** A buffer in no chain has no hash neighbours. */
  lemma NothingToUnhash(bufs: seq<Buf>, b: nat)
    requires b < |bufs| && bufs[b].next == NULL && bufs[b].prev == NULL
    ensures UnhashedBufs(bufs, b) == bufs
  {
  }

  /** Unlinking touches the neighbours only, and they are in the same chain. */
  lemma OtherChain(bufs: seq<Buf>, ch: seq<nat>, other: seq<nat>, p: nat)
    requires p < |ch| && InPool(ch, |bufs|) && InChain(bufs, ch, p) && InPool(other, |bufs|)
    requires forall i :: 0 <= i < |other| ==> other[i] !in ch
    ensures forall i :: 0 <= i < |other| ==> UnhashedBufs(bufs, ch[p])[other[i]] == bufs[other[i]]
  {
    forall i | 0 <= i < |other| ensures UnhashedBufs(bufs, ch[p])[other[i]] == bufs[other[i]] {
      assert other[i] != bufs[ch[p]].next && other[i] != bufs[ch[p]].prev;
    }
  }

  /** remove_from_queues. */
  function Removed(c: Cache, b: nat): Cache
    requires b < |c.bufs| && |c.hash| == NR_HASH
  {
    var unhashed := UnhashedBufs(c.bufs, b);
    if b < |unhashed| then
      c.(bufs := UnlistedBufs(unhashed, b), hash := UnhashedTable(c.bufs, c.hash, b),
         freeList := if c.freeList == b then c.bufs[b].nextFree else c.freeList)
    else c
  }

  function ListsWithout(bufs: seq<Buf>, ls: Lists, b: nat): Lists
    requires b < |bufs| && b in ls.ring && |ls.chains| == NR_HASH
  {
    Lists(Without(ls.ring, b), ChainsWithout(bufs, ls.chains, b))
  }

  /** insert_into_queues. */
  function Inserted(c: Cache, b: nat): Cache
    requires b < |c.bufs| && IsIndex(c.bufs, c.freeList) && |c.hash| == NR_HASH
  {
    var listed := ListedBufs(c.bufs, c.freeList, b);
    var h := HashFn(c.bufs[b].dev, c.bufs[b].block);
    if b < |listed| then
      if c.bufs[b].dev == 0 then c.(bufs := SetNext(SetPrev(listed, b, NULL), b, NULL))
      else c.(bufs := HashedBufs(listed, c.hash[h], b), hash := c.hash[h := b])
    else c
  }

  function ListsWith(c: Cache, ls: Lists, b: nat): Lists
    requires b < |c.bufs| && |ls.chains| == NR_HASH
  {
    var h := HashFn(c.bufs[b].dev, c.bufs[b].block);
    Lists(ls.ring + [b], if c.bufs[b].dev == 0 then ls.chains else ls.chains[h := [b] + ls.chains[h]])
  }

  /** Chains do not notice a change of free links. */
  lemma ChainsKept(bufs: seq<Buf>, bufs': seq<Buf>, hash: seq<int>, chains: seq<seq<nat>>, out: int)
    requires ChainsOK(bufs, hash, chains, out) && AllFreeLinksOnly(bufs, bufs')
    ensures ChainsOK(bufs', hash, chains, out)
  {
    hide Xor;
    forall x | 0 <= x < |bufs| ensures bufs'[x].dev == bufs[x].dev && bufs'[x].block == bufs[x].block
                                  && bufs'[x].next == bufs[x].next && bufs'[x].prev == bufs[x].prev {
      assert FreeLinksOnly(bufs[x], bufs'[x]);
    }
    forall h | 0 <= h < NR_HASH ensures ChainOK(bufs', hash[h], chains[h]) {
      assert ChainOK(bufs, hash[h], chains[h]);
      ChainUntouched(bufs, bufs', hash[h], chains[h]);
    }
  }

  lemma RemoveChains(c: Cache, ls: Lists, b: nat)
    requires ChainsOK(c.bufs, c.hash, ls.chains, NULL) && b < |c.bufs|
    ensures ChainsOK(UnhashedBufs(c.bufs, b), UnhashedTable(c.bufs, c.hash, b), ChainsWithout(c.bufs, ls.chains, b), b)
  {
    hide Xor, UnhashedBufs, RemoveAt;
    UnhashSizes(c.bufs, b);
    forall h | 0 <= h < NR_HASH ensures Distinct(ls.chains[h]) {
      assert ChainOK(c.bufs, c.hash[h], ls.chains[h]);
    }
    UnhashMembers(c.bufs, UnhashedBufs(c.bufs, b), ls.chains, b);
    forall h | 0 <= h < NR_HASH
      ensures ChainOK(UnhashedBufs(c.bufs, b), UnhashedTable(c.bufs, c.hash, b)[h],
                      ChainsWithout(c.bufs, ls.chains, b)[h])
    {
      UnhashOneChain(c.bufs, c.hash, ls.chains, b, h);
    }
    UnhashLeavesUnhashed(c.bufs, c.hash, ls.chains, b);
  }

  /** A buffer without a device is nobody's hash neighbour. */
  lemma UnhashLeavesUnhashed(bufs: seq<Buf>, hash: seq<int>, chains: seq<seq<nat>>, b: nat)
    requires ChainsOK(bufs, hash, chains, NULL) && b < |bufs|
    ensures forall x :: 0 <= x < |bufs| && x != b && bufs[x].dev == 0 ==>
              UnhashedBufs(bufs, b)[x].next == NULL && UnhashedBufs(bufs, b)[x].prev == NULL
  {
    hide Xor;
    var h := HashFn(bufs[b].dev, bufs[b].block);
    assert ChainOK(bufs, hash[h], chains[h]);
    if b in chains[h] {
      var p := IndexOf(chains[h], b);
      assert InChain(bufs, chains[h], p);
      assert p + 1 < |chains[h]| ==> chains[h][p + 1] in chains[h];
      assert p > 0 ==> chains[h][p - 1] in chains[h];
    }
  }

  lemma RemoveOK(c: Cache, ls: Lists, b: nat)
    requires Linked(c, ls) && b < |c.bufs|
    ensures |c.hash| == NR_HASH && |ls.chains| == NR_HASH
    ensures LinkedBut(Removed(c, b), ListsWithout(c.bufs, ls, b), b)
  {
    hide Xor, UnhashedBufs, UnlistedBufs, UnhashedTable, ChainsWithout, RemoveAt, ChainOK;
    var bufs1 := UnhashedBufs(c.bufs, b);
    UnhashSizes(c.bufs, b);
    UnlistSizes(bufs1, b);
    RemoveChains(c, ls, b);
    ChainsKept(bufs1, UnlistedBufs(bufs1, b), UnhashedTable(c.bufs, c.hash, b), ChainsWithout(c.bufs, ls.chains, b), b);
    var p := IndexOf(ls.ring, b);
    assert HashLinksOnly(c.bufs[b], bufs1[b]);
    forall i | 0 <= i < |c.bufs|
      ensures bufs1[i].nextFree == c.bufs[i].nextFree && bufs1[i].prevFree == c.bufs[i].prevFree
    {
      assert HashLinksOnly(c.bufs[i], bufs1[i]);
    }
    RingUntouched(c.bufs, bufs1, c.freeList, ls.ring);
    RemoveKeepsDistinct(ls.ring, p);
    if |ls.ring| >= 2 {
      UnlistOne(bufs1, c.freeList, ls.ring, p);
    } else {
      UnlistAlone(bufs1, c.freeList, ls.ring);
    }
  }

  lemma UnlistAlone(bufs: seq<Buf>, freeList: int, ring: seq<nat>)
    requires RingOK(bufs, freeList, ring) && |ring| == 1
    ensures var b := ring[0];
      freeList == b && bufs[b].nextFree == b && UnlistedBufs(bufs, b)[b].nextFree == b
        && UnlistedBufs(bufs, b)[b].prevFree == b
  {
    assert InRing(bufs, ring, 0);
  }

  /** A buffer out of all lists may change everything but its links. */
  lemma ChangeOK(c: Cache, ls: Lists, b: nat, nb: Buf)
    requires LinkedBut(c, ls, b) && nb.nextFree == c.bufs[b].nextFree && nb.prevFree == c.bufs[b].prevFree
    ensures LinkedBut(c.(bufs := c.bufs[b := nb]), ls, b)
  {
    hide Xor, HashFn;
    var bufs' := c.bufs[b := nb];
    forall h | 0 <= h < NR_HASH ensures ChainOK(bufs', c.hash[h], ls.chains[h]) {
      assert ChainOK(c.bufs, c.hash[h], ls.chains[h]);
      forall i | 0 <= i < |ls.chains[h]| ensures ls.chains[h][i] != b { assert ls.chains[h][i] in ls.chains[h]; }
      ChainUntouched(c.bufs, bufs', c.hash[h], ls.chains[h]);
    }
    if ls.ring != [] {
      RingUntouched(c.bufs, bufs', c.freeList, ls.ring);
    }
  }

  lemma InsertRing(c: Cache, ls: Lists, b: nat)
    requires LinkedBut(c, ls, b)
    ensures IsIndex(c.bufs, c.freeList) && RingOK(ListedBufs(c.bufs, c.freeList, b), c.freeList, ls.ring + [b])
    ensures AllFreeLinksOnly(c.bufs, ListedBufs(c.bufs, c.freeList, b))
  {
    hide Xor, HashFn;
    if ls.ring != [] {
      ListOne(c.bufs, c.freeList, ls.ring, b);
    } else {
      assert InRing(ListedBufs(c.bufs, c.freeList, b), [b], 0);
      assert ls.ring + [b] == [b];
    }
    ListSizes(c.bufs, c.freeList, b);
  }

  lemma ListSizes(bufs: seq<Buf>, freeList: nat, b: nat)
    requires b < |bufs| && freeList < |bufs|
    ensures AllFreeLinksOnly(bufs, ListedBufs(bufs, freeList, b))
  {
  }

  lemma HashSizes(bufs: seq<Buf>, head: int, b: nat)
    requires b < |bufs|
    ensures AllHashLinksOnly(bufs, HashedBufs(bufs, head, b))
    ensures forall x :: 0 <= x < |bufs| && x != b && x != head ==> HashedBufs(bufs, head, b)[x] == bufs[x]
  {
  }

  lemma InsertMembers(bufs: seq<Buf>, bufs': seq<Buf>, chains: seq<seq<nat>>, b: nat)
    requires MembersOK(bufs, chains, b) && b < |bufs| && bufs[b].dev != 0 && AllHashLinksOnly(bufs, bufs')
    ensures var h := HashFn(bufs[b].dev, bufs[b].block); MembersOK(bufs', chains[h := [b] + chains[h]], NULL)
  {
    hide Xor;
    var h0 := HashFn(bufs[b].dev, bufs[b].block);
    var chains' := chains[h0 := [b] + chains[h0]];
    forall x: nat | x < |bufs| ensures bufs'[x].dev == bufs[x].dev && bufs'[x].block == bufs[x].block {
      assert HashLinksOnly(bufs[x], bufs'[x]);
    }
    forall x: nat | x < |bufs'| && bufs'[x].dev != 0 ensures x in chains'[HashFn(bufs'[x].dev, bufs'[x].block)] {
      if x != b { assert x in chains[HashFn(bufs[x].dev, bufs[x].block)]; }
    }
    forall h, x | 0 <= h < NR_HASH && x in chains'[h]
      ensures x < |bufs'| && x != NULL && bufs'[x].dev != 0 && HashFn(bufs'[x].dev, bufs'[x].block) == h
    {
      if x != b { assert x in chains[h]; }
    }
  }

  lemma InsertChains(bufs: seq<Buf>, hash: seq<int>, chains: seq<seq<nat>>, b: nat)
    requires ChainsOK(bufs, hash, chains, b) && b < |bufs| && bufs[b].dev != 0
    ensures var h := HashFn(bufs[b].dev, bufs[b].block);
      ChainsOK(HashedBufs(bufs, hash[h], b), hash[h := b], chains[h := [b] + chains[h]], NULL)
  {
    hide Xor, HashedBufs;
    var h0 := HashFn(bufs[b].dev, bufs[b].block);
    var bufs' := HashedBufs(bufs, hash[h0], b);
    HashSizes(bufs, hash[h0], b);
    InsertMembers(bufs, bufs', chains, b);
    assert ChainOK(bufs, hash[h0], chains[h0]);
    assert chains[h0] != [] ==> chains[h0][0] in chains[h0];
    var hash', chains' := hash[h0 := b], chains[h0 := [b] + chains[h0]];
    forall h | 0 <= h < NR_HASH ensures ChainOK(bufs', hash'[h], chains'[h]) {
      assert ChainOK(bufs, hash[h], chains[h]);
      if h == h0 {
        assert b !in chains[h];
        HashOne(bufs, hash[h], chains[h], b);
      } else {
        forall i | 0 <= i < |chains[h]| ensures bufs'[chains[h][i]] == bufs[chains[h][i]] {
          assert chains[h][i] in chains[h];
        }
        ChainUntouched(bufs, bufs', hash[h], chains[h]);
      }
    }
    forall x | 0 <= x < |bufs'| && bufs'[x].dev == 0 ensures bufs'[x].next == NULL && bufs'[x].prev == NULL {
      assert HashLinksOnly(bufs[x], bufs'[x]);
    }
  }

  lemma InsertUnhashed(bufs: seq<Buf>, hash: seq<int>, chains: seq<seq<nat>>, b: nat)
    requires ChainsOK(bufs, hash, chains, b) && b < |bufs| && bufs[b].dev == 0
    ensures ChainsOK(SetNext(SetPrev(bufs, b, NULL), b, NULL), hash, chains, NULL)
  {
    hide Xor;
    var bufs' := SetNext(SetPrev(bufs, b, NULL), b, NULL);
    forall h | 0 <= h < NR_HASH ensures ChainOK(bufs', hash[h], chains[h]) {
      assert ChainOK(bufs, hash[h], chains[h]);
      forall i | 0 <= i < |chains[h]| ensures chains[h][i] != b { assert chains[h][i] in chains[h]; }
      ChainUntouched(bufs, bufs', hash[h], chains[h]);
    }
  }

  lemma InsertOK(c: Cache, ls: Lists, b: nat)
    requires LinkedBut(c, ls, b)
    ensures IsIndex(c.bufs, c.freeList) && |c.hash| == NR_HASH && |ls.chains| == NR_HASH
    ensures Linked(Inserted(c, b), ListsWith(c, ls, b))
  {
    hide Xor, ListedBufs, HashedBufs, ChainOK;
    InsertRing(c, ls, b);
    var listed := ListedBufs(c.bufs, c.freeList, b);
    assert FreeLinksOnly(c.bufs[b], listed[b]);
    ChainsKept(c.bufs, listed, c.hash, ls.chains, b);
    var h := HashFn(c.bufs[b].dev, c.bufs[b].block);
    if c.bufs[b].dev == 0 {
      InsertUnhashed(listed, c.hash, ls.chains, b);
    } else {
      InsertChains(listed, c.hash, ls.chains, b);
      HashSizes(listed, c.hash[h], b);
    }
    var bufs' := Inserted(c, b).bufs;
    forall i | 0 <= i < |listed|
      ensures bufs'[i].nextFree == listed[i].nextFree && bufs'[i].prevFree == listed[i].prevFree
    {
      assert HashLinksOnly(listed[i], bufs'[i]);
    }
    RingUntouched(listed, bufs', c.freeList, ls.ring + [b]);
  }

  // ---- giving a buffer a new identity ----

  /** The buffer getblk takes over: referenced once, clean, not yet valid. */
  function Claimed(b: Buf): Buf {
    b.(count := 1, dirt := false, uptodate := false)
  }

  /** Lines 246-252 of getblk. */
  function Reidentified(c: Cache, b: nat, dev: nat, block: nat): Cache
    requires b < |c.bufs| && |c.hash| == NR_HASH
  {
    var c1 := Removed(c.(bufs := c.bufs[b := Claimed(c.bufs[b])]), b);
    if b < |c1.bufs| && |c1.hash| == NR_HASH then
      var c2 := c1.(bufs := c1.bufs[b := c1.bufs[b].(dev := dev, block := block)]);
      if IsIndex(c2.bufs, c2.freeList) then Inserted(c2, b) else c
    else c
  }

  function ReidentifiedLists(c: Cache, ls: Lists, b: nat, dev: nat, block: nat): (r: Lists)
    requires b < |c.bufs| && b in ls.ring && |ls.chains| == NR_HASH
    ensures |r.ring| > 0 && r.ring[|r.ring| - 1] == b
  {
    ListsWith(c.(bufs := c.bufs[b := c.bufs[b].(dev := dev, block := block)]), ListsWithout(c.bufs, ls, b), b)
  }

  /** A buffer without its links. */
  function Core(b: Buf): Buf {
    b.(prev := NULL, next := NULL, prevFree := NULL, nextFree := NULL)
  }

  /** Buffers other than `b` differ in their links at most. */
  ghost predicate OthersKept(c: Cache, c': Cache, b: nat) {
    && |c'.bufs| == |c.bufs| && c'.disk == c.disk
    && forall x :: IsIndex(c.bufs, x) && x != b ==> Core(c'.bufs[x]) == Core(c.bufs[x])
  }

  lemma RemovedCores(c: Cache, b: nat)
    requires b < |c.bufs| && |c.hash| == NR_HASH
    ensures |Removed(c, b).bufs| == |c.bufs| && Removed(c, b).disk == c.disk && |Removed(c, b).hash| == NR_HASH
    ensures forall x :: IsIndex(c.bufs, x) ==> Core(Removed(c, b).bufs[x]) == Core(c.bufs[x])
  {
    hide UnhashedBufs, UnlistedBufs, Xor;
    var bufs1 := UnhashedBufs(c.bufs, b);
    UnhashSizes(c.bufs, b);
    UnlistSizes(bufs1, b);
    forall x | IsIndex(c.bufs, x) ensures Core(Removed(c, b).bufs[x]) == Core(c.bufs[x]) {
      assert HashLinksOnly(c.bufs[x], bufs1[x]);
      assert FreeLinksOnly(bufs1[x], UnlistedBufs(bufs1, b)[x]);
    }
  }

  lemma InsertedCores(c: Cache, b: nat)
    requires b < |c.bufs| && IsIndex(c.bufs, c.freeList) && |c.hash| == NR_HASH
    ensures |Inserted(c, b).bufs| == |c.bufs| && Inserted(c, b).disk == c.disk
    ensures forall x :: IsIndex(c.bufs, x) ==> Core(Inserted(c, b).bufs[x]) == Core(c.bufs[x])
  {
    hide ListedBufs, HashedBufs, Xor;
    ListSizes(c.bufs, c.freeList, b);
    var listed := ListedBufs(c.bufs, c.freeList, b);
    HashSizes(listed, c.hash[HashFn(c.bufs[b].dev, c.bufs[b].block)], b);
    forall x | IsIndex(c.bufs, x) ensures Core(Inserted(c, b).bufs[x]) == Core(c.bufs[x]) {
      assert FreeLinksOnly(c.bufs[x], listed[x]);
      if c.bufs[b].dev != 0 { assert HashLinksOnly(listed[x], Inserted(c, b).bufs[x]); }
    }
  }

  /** The lists after the reuse: `b` at the end of the free list and at the head of its new chain. */
  lemma ReidentifyLinks(c: Cache, ls: Lists, b: nat, dev: nat, block: nat)
    requires Linked(c, ls) && b < |c.bufs|
    ensures |c.hash| == NR_HASH && b in ls.ring && |ls.chains| == NR_HASH
    ensures Linked(Reidentified(c, b, dev, block), ReidentifiedLists(c, ls, b, dev, block))
    ensures OthersKept(c, Reidentified(c, b, dev, block), b)
    ensures Core(Reidentified(c, b, dev, block).bufs[b]) == Core(Claimed(c.bufs[b]).(dev := dev, block := block))
  {
    hide Xor, HashFn, Removed, Inserted, RingOK, ChainsOK;
    var c0 := c.(bufs := c.bufs[b := Claimed(c.bufs[b])]);
    LinkedAfterClaim(c, ls, b);
    RemoveOK(c0, ls, b);
    RemovedCores(c0, b);
    var c1, ls1 := Removed(c0, b), ListsWithout(c0.bufs, ls, b);
    var nb := c1.bufs[b].(dev := dev, block := block);
    ChangeOK(c1, ls1, b, nb);
    var c2 := c1.(bufs := c1.bufs[b := nb]);
    InsertOK(c2, ls1, b);
    InsertedCores(c2, b);
  }

  /** Counts and flags are no business of the lists. */
  lemma LinkedAfterClaim(c: Cache, ls: Lists, b: nat)
    requires Linked(c, ls) && b < |c.bufs|
    ensures Linked(c.(bufs := c.bufs[b := Claimed(c.bufs[b])]), ls)
  {
    hide Xor, HashFn;
    var bufs' := c.bufs[b := Claimed(c.bufs[b])];
    RingUntouched(c.bufs, bufs', c.freeList, ls.ring);
    forall h | 0 <= h < NR_HASH ensures ChainOK(bufs', c.hash[h], ls.chains[h]) {
      assert ChainOK(c.bufs, c.hash[h], ls.chains[h]);
      ChainUntouched(c.bufs, bufs', c.hash[h], ls.chains[h]);
    }
  }

  lemma CoreIs(b: Buf, b': Buf)
    requires Core(b) == Core(b')
    ensures b.dev == b'.dev && b.block == b'.block && b.uptodate == b'.uptodate && b.dirt == b'.dirt
    ensures b.count == b'.count && b.lock == b'.lock && b.data == b'.data
  {
    assert Core(b).dev == b.dev && Core(b').dev == b'.dev;
    assert Core(b).block == b.block && Core(b').block == b'.block;
    assert Core(b).uptodate == b.uptodate && Core(b').uptodate == b'.uptodate;
    assert Core(b).dirt == b.dirt && Core(b').dirt == b'.dirt;
    assert Core(b).count == b.count && Core(b').count == b'.count;
    assert Core(b).lock == b.lock && Core(b').lock == b'.lock;
    assert Core(b).data == b.data && Core(b').data == b'.data;
  }

  /** Reusing a clean, unlocked buffer for a block that is not cached loses nothing: every block holds what it held, no
    * block is cached twice, and valid clean buffers still agree with the disk. */
  lemma EvictionLosesNothing(c: Cache, c': Cache, b: nat, dev: nat, block: nat)
    requires Unique(c.bufs) && Backed(c) && b < |c.bufs| && !c.bufs[b].dirt && !c.bufs[b].lock
    requires dev != 0 ==> FindLinear(c.bufs, (dev, block), 0) == NULL
    requires OthersKept(c, c', b)
    requires Core(c'.bufs[b]) == Core(Claimed(c.bufs[b]).(dev := dev, block := block))
    ensures Unique(c'.bufs) && Backed(c') && SameContents(c, c')
  {
    CoreIs(c'.bufs[b], Claimed(c.bufs[b]).(dev := dev, block := block));
    forall x | IsIndex(c.bufs, x) && x != b
      ensures IdOf(c'.bufs[x]) == IdOf(c.bufs[x]) && c'.bufs[x].dev == c.bufs[x].dev
              && c'.bufs[x].uptodate == c.bufs[x].uptodate
      ensures c'.bufs[x].dirt == c.bufs[x].dirt && c'.bufs[x].lock == c.bufs[x].lock
              && c'.bufs[x].data == c.bufs[x].data
    {
      CoreIs(c'.bufs[x], c.bufs[x]);
    }
    assert Unique(c'.bufs);
    forall id: Id | id.0 != 0 ensures Holds(c', id) == Holds(c, id) {
      EvictionKeeps(c, c', b, (dev, block), id);
    }
  }

  lemma EvictionKeeps(c: Cache, c': Cache, b: nat, new_id: Id, id: Id)
    requires Unique(c.bufs) && Backed(c) && b < |c.bufs| && !c.bufs[b].dirt && !c.bufs[b].lock
    requires Unique(c'.bufs) && |c'.bufs| == |c.bufs| && c'.disk == c.disk && id.0 != 0
    requires new_id.0 != 0 ==> FindLinear(c.bufs, new_id, 0) == NULL
    requires IdOf(c'.bufs[b]) == new_id && !c'.bufs[b].uptodate
    requires forall x :: IsIndex(c.bufs, x) && x != b ==>
               IdOf(c'.bufs[x]) == IdOf(c.bufs[x]) && c'.bufs[x].uptodate == c.bufs[x].uptodate
                 && c'.bufs[x].data == c.bufs[x].data
    ensures Holds(c', id) == Holds(c, id)
  {
    if id == new_id {
      SearchIs(c'.bufs, b, id);
    } else {
      var x := FindLinear(c.bufs, id, 0);
      if x == NULL {
        assert FindLinear(c'.bufs, id, 0) == NULL;
      } else if x == b {
        assert FindLinear(c'.bufs, id, 0) == NULL by {
          assert forall y :: IsIndex(c.bufs, y) && y != b ==> IdOf(c.bufs[y]) != id;
        }
      } else {
        SearchIs(c'.bufs, x, id);
      }
    }
  }
}
