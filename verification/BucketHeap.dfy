/** The bucket allocator of lib/malloc.c as a structure: chains of descriptors, one page of equal objects each, and in
  * every page a list of the free objects threaded through the objects themselves.
  *
  * A descriptor is known by its number, in order of creation; NULL is -1.  An address is a number, 0 for none.
  */
module BucketHeap {
  import opened Links

  const FREE: nat := 9   // the list of unused descriptors, after the nine buckets

  /** struct bucket_desc. */
  datatype Desc = Desc(page: nat, next: int, freeptr: nat, refcnt: nat, size: nat)

  datatype Heap = Heap(descs: seq<Desc>, chain: seq<int>, freeDesc: int, mem: map<nat, nat>)

  /** Written out: which list each descriptor is on, the lists, and for each page its free slots in list order and the
    * slots handed out. */
  datatype Shape = Shape(home: seq<nat>, lists: seq<seq<nat>>, free: seq<seq<nat>>, used: seq<set<nat>>)

  /** bucket_dir[k].size; 0 marks the end. */
  function Size(k: nat): nat {
    if k == 0 then 16 else if k == 1 then 32 else if k == 2 then 64 else if k == 3 then 128 else if k == 4 then 256
    else if k == 5 then 512 else if k == 6 then 1024 else if k == 7 then 2048 else if k == 8 then 4096 else 0
  }

  function Slots(k: nat): nat {
    if k < 9 then 4096 / Size(k) else 0
  }

  function Word(mem: map<nat, nat>, a: nat): nat {
    if a in mem then mem[a] else 0
  }

  function Addr(page: nat, k: nat, j: nat): nat {
    page + Size(k) * j
  }

  /** A slot lies inside its page, and two slots do not overlap. */
  lemma SlotBounds(page: nat, k: nat, j: nat, j': nat)
    requires k < 9 && j < Slots(k) && page % 4096 == 0
    ensures page <= Addr(page, k, j) && Addr(page, k, j) + Size(k) <= page + 4096
    ensures Addr(page, k, j) - Addr(page, k, j) % 4096 == page
    ensures j < j' ==> Addr(page, k, j) + Size(k) <= Addr(page, k, j')
  {
    assert Size(k) * (j + 1) <= Size(k) * Slots(k) == 4096;
    assert Size(k) * (j + 1) == Size(k) * j + Size(k);
    InPage(page, Addr(page, k, j));
    if j < j' { assert Size(k) * (j + 1) <= Size(k) * j'; }
  }

  lemma InPage(page: nat, a: nat)
    requires page % 4096 == 0 && page <= a < page + 4096
    ensures a - a % 4096 == page
  {
  }

  // ---- lists ----

  predicate Linked(descs: seq<Desc>, s: seq<nat>, i: nat) {
    i < |s| && s[i] < |descs| && descs[s[i]].next == At(s, i + 1)
  }

  predicate ListOK(descs: seq<Desc>, head: int, s: seq<nat>) {
    Distinct(s) && head == At(s, 0) && forall i: nat :: i < |s| ==> Linked(descs, s, i)
  }

  function Head(h: Heap, l: nat): int {
    if l < 9 && l < |h.chain| then h.chain[l] else h.freeDesc
  }

  /** Every descriptor is on the one list that is its home. */
  ghost predicate ListsOK(h: Heap, g: Shape) {
    && |h.chain| == 9 && |g.lists| == 10 && |g.home| == |h.descs|
    && (forall l: nat :: l < 10 ==> ListOK(h.descs, Head(h, l), g.lists[l]))
    && (forall d: nat :: d < |g.home| ==> g.home[d] < 10 && d in g.lists[g.home[d]])
    && (forall l: nat, d {:trigger d in g.lists[l]} :: l < 10 && d in g.lists[l] ==> d < |g.home| && g.home[d] == l)
  }

  // ---- pages ----

  /** The free slots `s` of a page, linked through their first words. */
  predicate FreeLinked(mem: map<nat, nat>, page: nat, k: nat, freeptr: nat, s: seq<nat>) {
    && freeptr == LinkTo(page, k, s, 0)
    && forall i: nat :: i < |s| ==> Word(mem, Addr(page, k, s[i])) == LinkTo(page, k, s, i + 1)
  }

  function LinkTo(page: nat, k: nat, s: seq<nat>, i: nat): nat {
    if i < |s| then Addr(page, k, s[i]) else 0
  }

  /** Each slot of the page is free or handed out, not both; refcnt counts those handed out. */
  predicate Partition(k: nat, free: seq<nat>, used: set<nat>, refcnt: nat) {
    && Distinct(free) && refcnt == |used| && refcnt + |free| == Slots(k)
    && (forall i :: 0 <= i < |free| ==> free[i] < Slots(k) && free[i] !in used)
    && forall j :: j in used ==> j < Slots(k)
  }

  predicate PageOK(h: Heap, g: Shape, d: nat) {
    && d < |h.descs| == |g.home| == |g.free| == |g.used|
    && (g.home[d] < 9 ==>
          var b, k := h.descs[d], g.home[d];
          && b.size == Size(k) && b.page > 0 && b.page % 4096 == 0
          && Partition(k, g.free[d], g.used[d], b.refcnt)
          && FreeLinked(h.mem, b.page, k, b.freeptr, g.free[d]))
  }

  predicate OnePage(h: Heap, g: Shape, d: nat, d': nat) {
    && d < |h.descs| == |g.home| && d' < |h.descs|
    && (g.home[d] < 9 && g.home[d'] < 9 && h.descs[d].page == h.descs[d'].page ==> d == d')
  }

  /** The whole structure; the page of `ex` alone may have no object handed out. */
  ghost predicate Inv(h: Heap, g: Shape, ex: int) {
    && ListsOK(h, g) && |g.free| == |g.used| == |h.descs|
    && (forall d: nat :: d < |h.descs| ==> PageOK(h, g, d))
    && (forall d: nat, d': nat :: d < |h.descs| && d' < |h.descs| ==> OnePage(h, g, d, d'))
    && (forall d: nat :: d < |h.descs| && g.home[d] < 9 && d != ex ==> h.descs[d].refcnt > 0)
  }

  // ---- live objects ----

  predicate IsSlot(h: Heap, g: Shape, d: nat, j: nat, a: nat, s: nat) {
    && d < |h.descs| && d < |g.home| && d < |g.used| && g.home[d] < 9 && j in g.used[d]
    && a == Addr(h.descs[d].page, g.home[d], j) && s == Size(g.home[d])
  }

  /** An object of `s` bytes at `a` is handed out. */
  ghost predicate IsLive(h: Heap, g: Shape, a: nat, s: nat) {
    exists d: nat, j: nat :: IsSlot(h, g, d, j, a, s)
  }

  /** Live objects do not overlap. */
  lemma LiveDisjoint(h: Heap, g: Shape, a: nat, s: nat, a': nat, s': nat)
    requires Inv(h, g, NULL) && IsLive(h, g, a, s) && IsLive(h, g, a', s') && a != a'
    ensures a + s <= a' || a' + s' <= a
  {
    hide Addr, ListsOK, FreeLinked, Size, Slots;
    var d: nat, j: nat :| IsSlot(h, g, d, j, a, s);
    var d': nat, j': nat :| IsSlot(h, g, d', j', a', s');
    assert PageOK(h, g, d) && PageOK(h, g, d') && OnePage(h, g, d, d');
    SlotBounds(h.descs[d].page, g.home[d], j, j');
    SlotBounds(h.descs[d'].page, g.home[d'], j', j);
    if d != d' {
      PagesApart(h.descs[d].page, h.descs[d'].page);
    }
  }

  lemma PagesApart(p: nat, q: nat)
    requires p % 4096 == 0 && q % 4096 == 0 && p != q
    ensures p + 4096 <= q || q + 4096 <= p
  {
  }

  /** refcnt and the free list of a page account for all of it. */
  lemma PageAccounted(h: Heap, g: Shape, d: nat)
    requires Inv(h, g, NULL) && d < |h.descs| && g.home[d] < 9
    ensures d < |g.free| && d < |g.used|
    ensures 0 < h.descs[d].refcnt && h.descs[d].refcnt + |g.free[d]| == Slots(g.home[d])
    ensures h.descs[d].refcnt == |g.used[d]|
    ensures forall j :: 0 <= j < Slots(g.home[d]) ==> (j in g.free[d] <==> j !in g.used[d])
  {
    assert PageOK(h, g, d);
    var k, free, used := g.home[d], g.free[d], g.used[d];
    forall j: nat | j < Slots(k) && j !in used ensures j in free {
      AllSlots(Slots(k), free, used, j);
    }
  }

  /** Counting: distinct free slots and used slots that make up the number of slots leave none out. */
  lemma AllSlots(n: nat, free: seq<nat>, used: set<nat>, j: nat)
    requires Distinct(free) && |used| + |free| == n && j < n && j !in used
    requires forall i :: 0 <= i < |free| ==> free[i] < n && free[i] !in used
    requires forall x :: x in used ==> x < n
    ensures j in free
  {
    var s := set i | 0 <= i < |free| :: free[i];
    SetOf(free);
    var all := Upto(n);
    CountUpto(n);
    if j !in free {
      var rest := all - {j};
      assert s + used <= rest;
      assert s !! used;
      assert |s + used| == |s| + |used|;
      CardLeq(s + used, rest);
    }
  }

  lemma {:induction false} CardLeq(a: set<nat>, b: set<nat>)
    requires a <= b
    ensures |a| <= |b|
  {
    assert b == a + (b - a);
  }

  lemma {:induction false} SetOf(s: seq<nat>)
    requires Distinct(s)
    ensures |set i | 0 <= i < |s| :: s[i]| == |s|
  {
    if s != [] {
      var n := |s| - 1;
      SetOf(s[..n]);
      assert (set i | 0 <= i < |s| :: s[i]) == (set i | 0 <= i < |s[..n]| :: s[..n][i]) + {s[n]};
    }
  }

  function Upto(n: nat): set<nat> {
    if n == 0 then {} else Upto(n - 1) + {n - 1}
  }

  lemma {:induction false} CountUpto(n: nat)
    ensures |Upto(n)| == n && forall i: nat :: i in Upto(n) <==> i < n
  {
    if n > 0 {
      CountUpto(n - 1);
      assert n - 1 !in Upto(n - 1);
    }
  }

  lemma PageHasLive(h: Heap, g: Shape, d: nat)
    requires Inv(h, g, NULL) && d < |h.descs| && g.home[d] < 9
    ensures exists a, s :: IsLive(h, g, a, s)
  {
    hide Addr, Slots, Size, FreeLinked;
    assert PageOK(h, g, d);
    assert |g.used[d]| > 0;
    var j :| j in g.used[d];
    assert IsSlot(h, g, d, j, Addr(h.descs[d].page, g.home[d], j), Size(g.home[d]));
    assert IsLive(h, g, Addr(h.descs[d].page, g.home[d], j), Size(g.home[d]));
  }

  lemma HeadOf(h: Heap, g: Shape, k: nat)
    requires ListsOK(h, g) && k < 9 && h.chain[k] != NULL
    ensures 0 <= h.chain[k] < |h.descs| && g.home[h.chain[k]] == k
  {
    assert ListOK(h.descs, Head(h, k), g.lists[k]);
    assert g.lists[k][0] in g.lists[k];
  }

  /** With no object live there is no page. */
  lemma NothingLive(h: Heap, g: Shape)
    requires Inv(h, g, NULL) && forall a, s :: !IsLive(h, g, a, s)
    ensures forall k :: 0 <= k < 9 ==> h.chain[k] == NULL
    ensures forall d: nat :: d < |h.descs| ==> g.home[d] == FREE
  {
    hide PageOK, OnePage, IsLive;
    forall d: nat | d < |h.descs| ensures g.home[d] == FREE {
      if g.home[d] < 9 { PageHasLive(h, g, d); }
    }
    forall k | 0 <= k < 9 ensures h.chain[k] == NULL {
      if h.chain[k] != NULL { HeadOf(h, g, k); }
    }
  }

  // ---- one object handed out or taken back ----

  /** malloc's last three lines: the first free object of page `d`. */
  function Popped(h: Heap, d: nat): Heap
    requires d < |h.descs|
  {
    var b := h.descs[d];
    h.(descs := h.descs[d := b.(freeptr := Word(h.mem, b.freeptr), refcnt := b.refcnt + 1)])
  }

  function PoppedShape(g: Shape, d: nat): Shape
    requires d < |g.free| && d < |g.used| && g.free[d] != []
  {
    g.(free := g.free[d := g.free[d][1..]], used := g.used[d := g.used[d] + {g.free[d][0]}])
  }

  /** free_s: the object goes to the front of the free list of its page. */
  function Pushed(h: Heap, d: nat, a: nat): Heap
    requires d < |h.descs| && h.descs[d].refcnt > 0
  {
    var b := h.descs[d];
    h.(descs := h.descs[d := b.(freeptr := a, refcnt := b.refcnt - 1)], mem := h.mem[a := b.freeptr])
  }

  function PushedShape(g: Shape, d: nat, j: nat): Shape
    requires d < |g.free| && d < |g.used|
  {
    g.(free := g.free[d := [j] + g.free[d]], used := g.used[d := g.used[d] - {j}])
  }

  /** The lists depend on the links of the descriptors only. */
  lemma ListsKept(h: Heap, h': Heap, g: Shape, g': Shape)
    requires ListsOK(h, g) && g'.home == g.home && g'.lists == g.lists && h'.chain == h.chain
             && h'.freeDesc == h.freeDesc
    requires |h'.descs| == |h.descs| && forall d :: 0 <= d < |h.descs| ==> h'.descs[d].next == h.descs[d].next
    ensures ListsOK(h', g')
  {
    forall l: nat | l < 10 ensures ListOK(h'.descs, Head(h', l), g'.lists[l]) {
      assert ListOK(h.descs, Head(h, l), g.lists[l]);
      forall i: nat | i < |g.lists[l]| ensures Linked(h'.descs, g.lists[l], i) {
        assert Linked(h.descs, g.lists[l], i);
      }
    }
  }

  /** A page whose descriptor, slots and free words are the same is as good as before. */
  lemma PageKept(h: Heap, h': Heap, g: Shape, g': Shape, d: nat)
    requires PageOK(h, g, d) && d < |h'.descs| == |g'.home| == |g'.free| == |g'.used| && h'.descs[d] == h.descs[d]
    requires g'.home[d] == g.home[d] && g'.free[d] == g.free[d] && g'.used[d] == g.used[d]
    requires g.home[d] < 9 ==> forall x {:trigger Word(h'.mem, x)} ::
               h.descs[d].page <= x < h.descs[d].page + 4096 ==> Word(h'.mem, x) == Word(h.mem, x)
    ensures PageOK(h', g', d)
  {
    hide Addr, Word, Slots, Size;
    if g.home[d] < 9 {
      var b, k, s := h.descs[d], g.home[d], g.free[d];
      forall i: nat | i < |s| ensures Word(h'.mem, Addr(b.page, k, s[i])) == LinkTo(b.page, k, s, i + 1) {
        SlotBounds(b.page, k, s[i], 0);
        assert Size(k) >= 16 by { SizeBounds(k); }
      }
    }
  }

  lemma SizeBounds(k: nat)
    requires k < 9
    ensures 16 <= Size(k) <= 4096 && Slots(k) >= 1
  {
  }

  lemma PopPage(h: Heap, g: Shape, d: nat)
    requires PageOK(h, g, d) && g.home[d] < 9 && h.descs[d].freeptr != 0
    ensures g.free[d] != [] && h.descs[d].freeptr == Addr(h.descs[d].page, g.home[d], g.free[d][0])
    ensures PageOK(Popped(h, d), PoppedShape(g, d), d) && g.free[d][0] !in g.used[d]
  {
    hide Addr, Size, Slots;
    var s := g.free[d];
    assert |g.used[d] + {s[0]}| == |g.used[d]| + 1;
    forall i: nat | i < |s[1..]|
      ensures Word(h.mem, Addr(h.descs[d].page, g.home[d], s[1..][i])) ==
              LinkTo(h.descs[d].page, g.home[d], s[1..], i + 1)
    {
      assert s[1..][i] == s[i + 1];
    }
  }

  lemma PushPage(h: Heap, g: Shape, d: nat, j: nat)
    requires PageOK(h, g, d) && g.home[d] < 9 && j in g.used[d]
    ensures h.descs[d].refcnt > 0
    ensures PageOK(Pushed(h, d, Addr(h.descs[d].page, g.home[d], j)), PushedShape(g, d, j), d)
  {
    hide Addr, Size, Slots;
    var b, k, s := h.descs[d], g.home[d], g.free[d];
    var a := Addr(b.page, k, j);
    var t := [j] + s;
    assert |g.used[d] - {j}| == |g.used[d]| - 1;
    assert Distinct(t);
    var h' := Pushed(h, d, a);
    forall i: nat | i < |t| ensures Word(h'.mem, Addr(b.page, k, t[i])) == LinkTo(b.page, k, t, i + 1) {
      if i > 0 {
        assert t[i] == s[i - 1] != j;
        SlotBounds(b.page, k, j, t[i]);
        SlotBounds(b.page, k, t[i], j);
        SizeBounds(k);
        assert Word(h.mem, Addr(b.page, k, s[i - 1])) == LinkTo(b.page, k, s, i);
      } else {
        assert LinkTo(b.page, k, t, 1) == LinkTo(b.page, k, s, 0);
      }
    }
  }

  lemma PopOK(h: Heap, g: Shape, d: nat, ex: int)
    requires Inv(h, g, ex) && d < |h.descs| && g.home[d] < 9 && h.descs[d].freeptr != 0 && (ex == d || ex == NULL)
    ensures d < |g.free| && d < |g.used| && g.free[d] != [] && Inv(Popped(h, d), PoppedShape(g, d), NULL)
    ensures !exists s :: IsLive(h, g, h.descs[d].freeptr, s)
    ensures forall a, s :: IsLive(Popped(h, d), PoppedShape(g, d), a, s) <==>
                           IsLive(h, g, a, s) || (a == h.descs[d].freeptr && s == Size(g.home[d]))
  {
    hide Addr, Size, Slots, ListsOK, FreeLinked, Partition;
    assert PageOK(h, g, d);
    PopPage(h, g, d);
    var h', g' := Popped(h, d), PoppedShape(g, d);
    ListsKept(h, h', g, g');
    forall x: nat | x < |h.descs| ensures PageOK(h', g', x) {
      assert PageOK(h, g, x);
      if x != d { PageKept(h, h', g, g', x); }
    }
    forall x: nat, y: nat | x < |h.descs| && y < |h.descs| ensures OnePage(h', g', x, y) { assert OnePage(h, g, x, y); }
    PopLive(h, g, d);
  }

  lemma PopLive(h: Heap, g: Shape, d: nat)
    requires d < |h.descs| == |g.home| == |g.free| == |g.used| && g.home[d] < 9 && g.free[d] != []
    requires forall x: nat :: x < |h.descs| ==> PageOK(h, g, x)
    requires forall x: nat, y: nat :: x < |h.descs| && y < |h.descs| ==> OnePage(h, g, x, y)
    requires h.descs[d].freeptr == Addr(h.descs[d].page, g.home[d], g.free[d][0]) && g.free[d][0] !in g.used[d]
    ensures !exists s :: IsLive(h, g, h.descs[d].freeptr, s)
    ensures forall a, s :: IsLive(Popped(h, d), PoppedShape(g, d), a, s) <==>
                           IsLive(h, g, a, s) || (a == h.descs[d].freeptr && s == Size(g.home[d]))
  {
    hide Addr, Size, Slots, FreeLinked, PageOK, OnePage;
    var h', g' := Popped(h, d), PoppedShape(g, d);
    forall x: nat, j: nat, s | IsSlot(h, g, x, j, h.descs[d].freeptr, s) ensures false {
      SlotUnique(h, g, x, j, d, g.free[d][0]);
    }
    assert forall s :: !IsLive(h, g, h.descs[d].freeptr, s);
    forall a, s
      ensures IsLive(h', g', a, s) <==> IsLive(h, g, a, s) || (a == h.descs[d].freeptr && s == Size(g.home[d]))
    {
      if IsLive(h, g, a, s) {
        var x: nat, j: nat :| IsSlot(h, g, x, j, a, s);
        assert IsSlot(h', g', x, j, a, s);
      }
      if IsLive(h', g', a, s) {
        var x: nat, j: nat :| IsSlot(h', g', x, j, a, s);
        if x != d || j != g.free[d][0] { assert IsSlot(h, g, x, j, a, s); }
      }
      if a == h.descs[d].freeptr && s == Size(g.home[d]) { assert IsSlot(h', g', d, g.free[d][0], a, s); }
    }
  }

  /** An address belongs to one slot of one page. */
  lemma SlotUnique(h: Heap, g: Shape, d: nat, j: nat, d': nat, j': nat)
    requires PageOK(h, g, d) && PageOK(h, g, d') && OnePage(h, g, d, d')
    requires g.home[d] < 9 && g.home[d'] < 9 && (j in g.used[d] || j in g.free[d])
             && (j' in g.used[d'] || j' in g.free[d'])
    requires Addr(h.descs[d].page, g.home[d], j) == Addr(h.descs[d'].page, g.home[d'], j')
    ensures d == d' && j == j'
  {
    hide Addr, Size, Slots, FreeLinked;
    SlotBounds(h.descs[d].page, g.home[d], j, j');
    SlotBounds(h.descs[d'].page, g.home[d'], j', j);
    SizeBounds(g.home[d]);
  }

  lemma PushOK(h: Heap, g: Shape, d: nat, j: nat)
    requires Inv(h, g, NULL) && d < |h.descs| && g.home[d] < 9 && d < |g.used| && d < |g.free| && j in g.used[d]
    ensures h.descs[d].refcnt > 0
    ensures var a := Addr(h.descs[d].page, g.home[d], j); var h', g' := Pushed(h, d, a), PushedShape(g, d, j);
      && Inv(h', g', d) && (h.descs[d].refcnt > 1 ==> Inv(h', g', NULL))
      && forall x, s :: IsLive(h', g', x, s) <==> IsLive(h, g, x, s) && x != a
  {
    hide Addr, Size, Slots, ListsOK, FreeLinked, Partition;
    assert PageOK(h, g, d);
    PushPage(h, g, d, j);
    var a := Addr(h.descs[d].page, g.home[d], j);
    var h', g' := Pushed(h, d, a), PushedShape(g, d, j);
    ListsKept(h, h', g, g');
    forall x: nat | x < |h.descs| ensures PageOK(h', g', x) {
      assert PageOK(h, g, x);
      if x != d {
        assert OnePage(h, g, d, x);
        OutsideOther(h, g, d, j, x);
        PageKept(h, h', g, g', x);
      }
    }
    forall x: nat, y: nat | x < |h.descs| && y < |h.descs| ensures OnePage(h', g', x, y) { assert OnePage(h, g, x, y); }
    PushLive(h, g, d, j);
  }

  /** A slot of one page is outside every other page. */
  lemma OutsideOther(h: Heap, g: Shape, d: nat, j: nat, x: nat)
    requires PageOK(h, g, d) && PageOK(h, g, x) && OnePage(h, g, d, x) && g.home[d] < 9 && j in g.used[d] && x != d
    ensures var a := Addr(h.descs[d].page, g.home[d], j);
      g.home[x] < 9 ==> !(h.descs[x].page <= a < h.descs[x].page + 4096)
  {
    hide Addr, Size, Slots, FreeLinked;
    SlotBounds(h.descs[d].page, g.home[d], j, 0);
    SizeBounds(g.home[d]);
    if g.home[x] < 9 { PagesApart(h.descs[d].page, h.descs[x].page); }
  }

  lemma PushLive(h: Heap, g: Shape, d: nat, j: nat)
    requires d < |h.descs| == |g.home| == |g.free| == |g.used| && g.home[d] < 9 && j in g.used[d]
             && h.descs[d].refcnt > 0
    requires forall x: nat :: x < |h.descs| ==> PageOK(h, g, x)
    requires forall x: nat, y: nat :: x < |h.descs| && y < |h.descs| ==> OnePage(h, g, x, y)
    ensures var a := Addr(h.descs[d].page, g.home[d], j); var h', g' := Pushed(h, d, a), PushedShape(g, d, j);
      forall x, s :: IsLive(h', g', x, s) <==> IsLive(h, g, x, s) && x != a
  {
    hide Addr, Size, Slots, FreeLinked, PageOK, OnePage;
    var a := Addr(h.descs[d].page, g.home[d], j);
    var h', g' := Pushed(h, d, a), PushedShape(g, d, j);
    forall x, s ensures IsLive(h', g', x, s) <==> IsLive(h, g, x, s) && x != a {
      if IsLive(h, g, x, s) && x != a {
        var y: nat, i: nat :| IsSlot(h, g, y, i, x, s);
        assert IsSlot(h', g', y, i, x, s);
      }
      if IsLive(h', g', x, s) {
        var y: nat, i: nat :| IsSlot(h', g', y, i, x, s);
        assert IsSlot(h, g, y, i, x, s);
        if x == a {
          SlotUnique(h, g, y, i, d, j);
          assert false;
        }
      }
    }
  }

  // ---- descriptors moving between lists ----

  /** `h'` is `h` with descriptor `d`, at place `i` of list `from`, at the front of list `to`; the links say so. */
  predicate Moved(h: Heap, h': Heap, g: Shape, d: nat, from: nat, i: nat, to: nat) {
    && from < |g.lists| && i < |g.lists[from]| && g.lists[from][i] == d && d < |h.descs| == |h'.descs|
       && |h'.chain| == 9
    && (forall x: nat :: x < |h.descs| ==>
          h'.descs[x].next == if x == d then Head(h, to)
                              else if i > 0 && x == g.lists[from][i - 1] then h.descs[d].next else h.descs[x].next)
    && Head(h', to) == d && Head(h', from) == (if i == 0 then h.descs[d].next else Head(h, from))
    && forall l: nat :: l < 10 && l != from && l != to ==> Head(h', l) == Head(h, l)
  }

  function MovedShape(g: Shape, d: nat, from: nat, i: nat, to: nat): Shape
    requires from < |g.lists| && to < |g.lists| && i < |g.lists[from]| && d < |g.home|
  {
    g.(home := g.home[d := to], lists := g.lists[from := RemoveAt(g.lists[from], i)][to := [d] + g.lists[to]])
  }

  lemma MoveOne(h: Heap, h': Heap, g: Shape, d: nat, from: nat, i: nat, to: nat, l: nat)
    requires ListsOK(h, g) && from < 10 && to < 10 && from != to && Moved(h, h', g, d, from, i, to) && l < 10
    ensures ListOK(h'.descs, Head(h', l), MovedShape(g, d, from, i, to).lists[l])
  {
    var t := MovedShape(g, d, from, i, to).lists[l];
    var s := g.lists[l];
    assert ListOK(h.descs, Head(h, l), s) && ListOK(h.descs, Head(h, from), g.lists[from]);
    assert d in g.lists[from] && Linked(h.descs, g.lists[from], i);
    if l != from {
      forall x: nat | x < |s| ensures s[x] != d && (i > 0 ==> s[x] != g.lists[from][i - 1]) {
        assert s[x] in s;
        assert i > 0 ==> g.lists[from][i - 1] in g.lists[from];
      }
    }
    forall x: nat | x < |t| ensures Linked(h'.descs, t, x) {
      if l == to {
        if x > 0 { assert Linked(h.descs, s, x - 1); }
      } else if l == from {
        assert Linked(h.descs, s, if x < i then x else x + 1);
      } else {
        assert Linked(h.descs, s, x);
      }
    }
  }

  lemma MoveLists(h: Heap, h': Heap, g: Shape, d: nat, from: nat, i: nat, to: nat)
    requires ListsOK(h, g) && from < 10 && to < 10 && from != to && Moved(h, h', g, d, from, i, to)
    ensures ListsOK(h', MovedShape(g, d, from, i, to))
  {
    hide RemoveAt;
    var g' := MovedShape(g, d, from, i, to);
    forall l: nat | l < 10 ensures ListOK(h'.descs, Head(h', l), g'.lists[l]) {
      MoveOne(h, h', g, d, from, i, to, l);
    }
    assert ListOK(h.descs, Head(h, from), g.lists[from]);
    RemoveKeepsDistinct(g.lists[from], i);
    assert d in g.lists[from];
    forall x: nat | x < |g'.home| ensures g'.home[x] < 10 && x in g'.lists[g'.home[x]] {
      assert x in g.lists[g.home[x]];
    }
    forall l: nat, x | l < 10 && x in g'.lists[l] ensures x < |g'.home| && g'.home[x] == l {
      if l == from {
        assert x in RemoveAt(g.lists[from], i);
      } else if l != to || x != d {
        assert x in g.lists[l];
      }
    }
  }

  // ---- a page more, a page less ----

  function AllFree(k: nat): seq<nat> {
    seq(Slots(k), (i: nat) => i)
  }

  /** malloc has put a fresh page under the first unused descriptor, in front of bucket `k`. */
  ghost predicate PageAdded(h: Heap, h': Heap, k: nat, p: nat) {
    && k < 9 && |h.chain| == 9 && 0 <= h.freeDesc < |h.descs|
    && h'.descs == h.descs[h.freeDesc := Desc(p, h.chain[k], p, 0, Size(k))]
    && h'.chain == h.chain[k := h.freeDesc] && h'.freeDesc == h.descs[h.freeDesc].next
    && (forall x: nat {:trigger Word(h'.mem, x)} :: !(p <= x < p + 4096) ==> Word(h'.mem, x) == Word(h.mem, x))
    && FreeLinked(h'.mem, p, k, p, AllFree(k))
  }

  function AddedShape(g: Shape, d: nat, k: nat): Shape
    requires |g.lists| == 10 && g.lists[9] != [] && k < 9 && d < |g.home| == |g.free| == |g.used|
  {
    MovedShape(g, d, FREE, 0, k).(free := g.free[d := AllFree(k)], used := g.used[d := {}])
  }

  lemma AddOK(h: Heap, h': Heap, g: Shape, k: nat, p: nat)
    requires Inv(h, g, NULL) && PageAdded(h, h', k, p) && p > 0 && p % 4096 == 0
    requires forall d: nat :: d < |h.descs| && g.home[d] < 9 ==> h.descs[d].page != p
    ensures |g.lists| == 10 && g.lists[9] != [] && h.freeDesc < |g.home| == |g.free| == |g.used|
    ensures Inv(h', AddedShape(g, h.freeDesc, k), h.freeDesc)
    ensures forall a, s :: IsLive(h', AddedShape(g, h.freeDesc, k), a, s) <==> IsLive(h, g, a, s)
  {
    hide Addr, Size, Slots, Word, FreeLinked, PageOK, RemoveAt;
    var d: nat := h.freeDesc;
    FreeHead(h, g);
    assert PageOK(h, g, d);
    SizesOf(h, g, d);
    var g' := AddedShape(g, d, k);
    AddedLists(h, h', g, d, k, p);
    forall x: nat | x < |h'.descs| ensures PageOK(h', g', x) {
      assert PageOK(h, g, x);
      if x == d {
        AddedPage(h', g', d, k, p);
      } else {
        if g.home[x] < 9 { PageFacts(h, g, x); PagesApart(h.descs[x].page, p); }
        PageKept(h, h', g, g', x);
      }
    }
    forall x: nat, y: nat | x < |h'.descs| && y < |h'.descs| ensures OnePage(h', g', x, y) {
      assert OnePage(h, g, x, y);
    }
    forall a, s ensures IsLive(h', g', a, s) <==> IsLive(h, g, a, s) {
      if IsLive(h, g, a, s) {
        var x: nat, j: nat :| IsSlot(h, g, x, j, a, s);
        assert IsSlot(h', g', x, j, a, s);
      }
      if IsLive(h', g', a, s) {
        var x: nat, j: nat :| IsSlot(h', g', x, j, a, s);
        assert IsSlot(h, g, x, j, a, s);
      }
    }
  }

  lemma PageFacts(h: Heap, g: Shape, d: nat)
    requires PageOK(h, g, d) && g.home[d] < 9
    ensures h.descs[d].page > 0 && h.descs[d].page % 4096 == 0
  {
  }

  lemma SizesOf(h: Heap, g: Shape, d: nat)
    requires PageOK(h, g, d)
    ensures |h.descs| == |g.home| == |g.free| == |g.used|
  {
  }

  /** The first unused descriptor heads list FREE. */
  lemma FreeHead(h: Heap, g: Shape)
    requires ListsOK(h, g) && h.freeDesc != NULL
    ensures |g.lists| == 10 && g.lists[9] != [] && h.freeDesc == g.lists[9][0]
    ensures 0 <= h.freeDesc < |g.home| == |h.descs| && g.home[h.freeDesc] == 9
    ensures h.descs[h.freeDesc].next == At(g.lists[9], 1)
  {
    assert ListOK(h.descs, Head(h, 9), g.lists[9]);
    assert g.lists[9][0] in g.lists[9];
    assert Linked(h.descs, g.lists[9], 0);
  }

  lemma AddedLists(h: Heap, h': Heap, g: Shape, d: nat, k: nat, p: nat)
    requires ListsOK(h, g) && PageAdded(h, h', k, p) && d == h.freeDesc && |g.home| == |g.free| == |g.used|
    ensures |g.lists| == 10 && g.lists[9] != [] && ListsOK(h', AddedShape(g, d, k))
  {
    hide Size, Slots, FreeLinked, RemoveAt;
    FreeHead(h, g);
    MoveLists(h, h', g, d, FREE, 0, k);
    ListsKept(h', h', MovedShape(g, d, FREE, 0, k), AddedShape(g, d, k));
  }

  lemma AddedPage(h': Heap, g': Shape, d: nat, k: nat, p: nat)
    requires k < 9 && d < |h'.descs| == |g'.home| == |g'.free| == |g'.used| && g'.home[d] == k && p > 0 && p % 4096 == 0
    requires h'.descs[d].page == p && h'.descs[d].size == Size(k) && h'.descs[d].freeptr == p && h'.descs[d].refcnt == 0
    requires g'.free[d] == AllFree(k) && g'.used[d] == {} && FreeLinked(h'.mem, p, k, p, AllFree(k))
    ensures PageOK(h', g', d)
  {
    hide FreeLinked, Size, Slots;
  }

  /** free_s has unlinked descriptor `d`, at place `i` of bucket `k`, and put it with the unused ones. */
  predicate PageDropped(h: Heap, h': Heap, g: Shape, d: nat, k: nat, i: nat) {
    && k < 9 && |h.chain| == 9 && |g.lists| == 10 && i < |g.lists[k]| && g.lists[k][i] == d && d < |h.descs|
       && h'.mem == h.mem
    && (i > 0 ==> g.lists[k][i - 1] < |h.descs| && g.lists[k][i - 1] != d)
    && (var descs := if i == 0 then h.descs else
                     h.descs[g.lists[k][i - 1] := h.descs[g.lists[k][i - 1]].(next := h.descs[d].next)];
        h'.descs == descs[d := descs[d].(next := h.freeDesc)])
    && h'.chain == (if i == 0 then h.chain[k := h.descs[d].next] else h.chain)
    && h'.freeDesc == d
  }

  lemma DropOK(h: Heap, h': Heap, g: Shape, d: nat, k: nat, i: nat)
    requires Inv(h, g, d) && PageDropped(h, h', g, d, k, i) && h.descs[d].refcnt == 0
    ensures |g.lists| == 10 && d < |g.home|
    ensures Inv(h', MovedShape(g, d, k, i, FREE), NULL)
    ensures forall a, s :: IsLive(h', MovedShape(g, d, k, i, FREE), a, s) <==> IsLive(h, g, a, s)
  {
    hide Addr, Size, Slots, Word, FreeLinked, RemoveAt;
    var g' := MovedShape(g, d, k, i, FREE);
    assert d in g.lists[k];
    MoveLists(h, h', g, d, k, i, FREE);
    assert PageOK(h, g, d);
    forall x: nat | x < |h'.descs| ensures PageOK(h', g', x) {
      assert PageOK(h, g, x);
    }
    forall x: nat, y: nat | x < |h'.descs| && y < |h'.descs| ensures OnePage(h', g', x, y) {
      assert OnePage(h, g, x, y);
    }
    forall a, s ensures IsLive(h', g', a, s) <==> IsLive(h, g, a, s) {
      if IsLive(h, g, a, s) {
        var x: nat, j: nat :| IsSlot(h, g, x, j, a, s);
        assert IsSlot(h', g', x, j, a, s);
      }
      if IsLive(h', g', a, s) {
        var x: nat, j: nat :| IsSlot(h', g', x, j, a, s);
        assert IsSlot(h, g, x, j, a, s);
      }
    }
  }

  // ---- more descriptors ----

  /** init_bucket_desc has made a page of `n` unused descriptors. */
  predicate DescsAdded(h: Heap, h': Heap, n: nat) {
    && n > 0 && |h'.descs| == |h.descs| + n && h'.descs[..|h.descs|] == h.descs
    && h'.chain == h.chain && h'.mem == h.mem && h'.freeDesc == |h.descs|
    && forall i: nat :: i < n ==> NextDesc(h, h', n, i)
  }

  predicate NextDesc(h: Heap, h': Heap, n: nat, i: nat) {
    |h.descs| + i < |h'.descs| && h'.descs[|h.descs| + i].next == if i + 1 < n then |h.descs| + i + 1 else h.freeDesc
  }

  function MoreShape(g: Shape, n: nat): Shape
    requires |g.lists| == 10
  {
    var base := |g.home|;
    Shape(g.home + seq(n, _ => FREE), g.lists[9 := seq(n, (i: nat) => base + i) + g.lists[9]],
          g.free + seq(n, _ => []), g.used + seq(n, _ => {}))
  }

  lemma MoreLists(h: Heap, h': Heap, g: Shape, n: nat)
    requires ListsOK(h, g) && DescsAdded(h, h', n)
    ensures ListsOK(h', MoreShape(g, n))
  {
    var g', base := MoreShape(g, n), |g.home|;
    forall l: nat | l < 10 ensures ListOK(h'.descs, Head(h', l), g'.lists[l]) {
      assert ListOK(h.descs, Head(h, l), g.lists[l]);
      var s, t := g.lists[l], g'.lists[l];
      forall i: nat | i < |s| ensures s[i] < base { assert s[i] in s; }
      forall i: nat | i < |t| ensures Linked(h'.descs, t, i) {
        if l < 9 {
          assert Linked(h.descs, s, i) && h'.descs[s[i]] == h.descs[s[i]];
        } else if i >= n {
          assert Linked(h.descs, s, i - n) && h'.descs[s[i - n]] == h.descs[s[i - n]];
        } else {
          assert NextDesc(h, h', n, i);
        }
      }
    }
    forall d: nat | d < |g'.home| ensures g'.home[d] < 10 && d in g'.lists[g'.home[d]] {
      if d < base {
        assert d in g.lists[g.home[d]];
      } else {
        assert g'.lists[9][d - base] == d;
      }
    }
    forall l: nat, d | l < 10 && d in g'.lists[l] ensures d < |g'.home| && g'.home[d] == l {
      if d < base { assert d in g.lists[l]; } else { NewMember(g, n, l, d); }
    }
  }

  lemma NewMember(g: Shape, n: nat, l: nat, d: nat)
    requires |g.lists| == 10 && l < 10 && d in MoreShape(g, n).lists[l] && d >= |g.home|
    requires forall x :: x in g.lists[l] ==> x < |g.home|
    ensures l == 9 && d < |g.home| + n
  {
  }

  lemma MoreOK(h: Heap, h': Heap, g: Shape, n: nat)
    requires Inv(h, g, NULL) && DescsAdded(h, h', n) && |g.free| == |g.used| == |g.home|
    ensures Inv(h', MoreShape(g, n), NULL)
    ensures forall a, s :: IsLive(h', MoreShape(g, n), a, s) <==> IsLive(h, g, a, s)
  {
    hide Addr, Size, Slots, Word, FreeLinked;
    var g' := MoreShape(g, n);
    MoreLists(h, h', g, n);
    forall x: nat | x < |h'.descs| ensures PageOK(h', g', x) {
      if x < |h.descs| { assert PageOK(h, g, x) && h'.descs[x] == h.descs[x]; }
    }
    forall x: nat, y: nat | x < |h'.descs| && y < |h'.descs| ensures OnePage(h', g', x, y) {
      if x < |h.descs| && y < |h.descs| {
        assert OnePage(h, g, x, y) && h'.descs[x] == h.descs[x] && h'.descs[y] == h.descs[y];
      }
    }
    forall x: nat | x < |h'.descs| && g'.home[x] < 9 ensures h'.descs[x].refcnt > 0 {
      assert h'.descs[x] == h.descs[x];
    }
    forall a, s ensures IsLive(h', g', a, s) <==> IsLive(h, g, a, s) {
      if IsLive(h, g, a, s) {
        var x: nat, j: nat :| IsSlot(h, g, x, j, a, s);
        assert h'.descs[x] == h.descs[x] && IsSlot(h', g', x, j, a, s);
      }
      if IsLive(h', g', a, s) {
        var x: nat, j: nat :| IsSlot(h', g', x, j, a, s);
        assert h'.descs[x] == h.descs[x] && IsSlot(h, g, x, j, a, s);
      }
    }
  }
}
