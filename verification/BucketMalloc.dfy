/** malloc and free_s of lib/malloc.c.
  *
  * get_free_page gives any of the spare pages, or none when there are none; malloc panics then, which is result 0 here.
  * Interrupts are off where the lists change, so each such part runs alone; free_s searches before it turns them off.
  */
module BucketMalloc {
  import opened Links
  import opened BucketHeap

  const PAGE_SIZE: nat := 4096

  /** The bucket for `len` bytes, looking from bucket `k` on. */
  function Bucket(len: nat, k: nat): (r: nat)
    requires len <= PAGE_SIZE && k < 9 && (k > 0 ==> Size(k - 1) < len)
    ensures r < 9 && len <= Size(r) && (r > 0 ==> Size(r - 1) < len)
    decreases 9 - k
  {
    if Size(k) >= len then k else Bucket(len, k + 1)
  }

  /** The least power of two from 16 on that is enough. */
  predicate IsFit(len: nat, s: nat) {
    s in {16, 32, 64, 128, 256, 512, 1024, 2048, 4096} && len <= s && (s > 16 ==> 2 * len > s)
  }

  lemma BucketIsFit(len: nat)
    requires len <= PAGE_SIZE
    ensures IsFit(len, Size(Bucket(len, 0)))
  {
  }

  ghost predicate HasPage(h: Heap, g: Shape, p: nat) {
    exists d: nat :: d < |h.descs| && d < |g.home| && g.home[d] < 9 && h.descs[d].page == p
  }

  /** The pages held are those of the buckets and those of the descriptors. */
  ghost predicate PagesOK(h: Heap, g: Shape, pages: set<nat>, descPages: set<nat>) {
    && descPages <= pages && (forall p :: p in pages ==> p > 0)
    && (forall p: nat :: HasPage(h, g, p) <==> p in pages && p !in descPages)
  }

  /** Spare pages are whole pages nobody has. */
  predicate SpareOK(spare: set<nat>, pages: set<nat>) {
    spare !! pages && forall p :: p in spare ==> p > 0 && p % 4096 == 0
  }

  /** Some page of bucket `k` has a free object. */
  ghost predicate HasRoom(h: Heap, g: Shape, k: nat) {
    exists d: nat :: d < |h.descs| && d < |g.home| && g.home[d] == k && h.descs[d].freeptr != 0
  }

  /** `d` is the first page on the list of bucket `k` that has a free object. */
  ghost predicate FirstFree(h: Heap, g: Shape, k: nat, d: nat) {
    k < |g.lists| && d < |h.descs| && h.descs[d].freeptr != 0 &&
    exists i: nat :: i < |g.lists[k]| && g.lists[k][i] == d && NoneFreeBefore(h, g.lists[k], i)
  }

  predicate NoneFreeBefore(h: Heap, s: seq<nat>, i: nat) {
    forall j :: 0 <= j < i && j < |s| ==> s[j] < |h.descs| && h.descs[s[j]].freeptr == 0
  }

  /** What an object of bucket `k` takes from get_free_page: nothing if there is room, else a page, and one more for
    * descriptors if there is no unused one. */
  ghost function PagesNeeded(h: Heap, g: Shape, k: nat): nat {
    if HasRoom(h, g, k) then 0 else if h.freeDesc == NULL then 2 else 1
  }

  /** `d` is the descriptor of the page that `obj` is in, and on the list of bucket `k`. */
  predicate InPlace(h: Heap, g: Shape, obj: nat, d: nat, k: nat) {
    d < |h.descs| && d < |g.home| && k < 9 && g.home[d] == k && h.descs[d].page == obj - obj % 4096
  }

  /** Every descriptor that has a page, but `but`, keeps it and stays on its list. */
  ghost predicate SameHomes(h: Heap, g: Shape, h': Heap, g': Shape, but: int) {
    && |g.home| == |h.descs| <= |h'.descs| == |g'.home|
    && forall d: nat :: d < |h.descs| && d != but && g.home[d] < 9 ==>
         g'.home[d] == g.home[d] && h'.descs[d].page == h.descs[d].page
  }

  /** An object that is still live is still in the page of the same descriptor, on the same list: what a search found
    * out about it holds on, whatever others do. */
  ghost predicate PlacesKept(h: Heap, g: Shape, h': Heap, g': Shape) {
    && |h.descs| <= |h'.descs|
    && forall a: nat, d: nat, k: nat :: InPlace(h, g, a, d, k) && (exists s :: IsLive(h', g', a, s)) ==>
       InPlace(h', g', a, d, k)
  }

  /** The word at `x` belongs to an object handed out. */
  ghost predicate InLive(h: Heap, g: Shape, x: nat) {
    exists a: nat, s: nat :: IsLive(h, g, a, s) && a <= x < a + s
  }

  class Allocator {
    var descs: seq<Desc>
    var chain: seq<int>      // bucket_dir[k].chain
    var freeDesc: int        // free_bucket_desc
    var mem: map<nat, nat>
    var pages: set<nat>      // what get_free_page has given
    var spare: set<nat>      // what it can still give
    ghost var descPages: set<nat>
    ghost var g: Shape

    ghost function Snap(): Heap
      reads this
    {
      Heap(descs, chain, freeDesc, mem)
    }

    ghost predicate Valid()
      reads this
    {
      Inv(Snap(), g, NULL) && PagesOK(Snap(), g, pages, descPages) && SpareOK(spare, pages)
    }

    constructor (spare: set<nat>)
      requires SpareOK(spare, {})
      ensures Valid() && this.spare == spare && pages == {} && forall a, s :: !IsLive(Snap(), g, a, s)
    {
      this.spare := spare;
      descs, freeDesc, mem, pages, descPages := [], NULL, map[], {}, {};
      chain := [NULL, NULL, NULL, NULL, NULL, NULL, NULL, NULL, NULL];
      g := Shape([], [[], [], [], [], [], [], [], [], [], []], [], []);
    }

    /** get_free_page. */
    method GetFreePage() returns (p: nat)
      requires SpareOK(spare, pages)
      modifies this`pages, this`spare
      ensures SpareOK(spare, pages) && pages + spare == old(pages + spare)
      ensures p == 0 ==> pages == old(pages) && spare == old(spare) == {}
      ensures p != 0 ==> p % 4096 == 0 && p !in old(pages) && pages == old(pages) + {p}
      ensures p != 0 ==> p in old(spare) && spare == old(spare) - {p}
    {
      if spare == {} {
        return 0;
      }
      p :| p in spare;
      spare := spare - {p};
      pages := pages + {p};
    }

    /** The loop of init_bucket_desc: `n` new descriptors, each linked to the next, in front of the unused ones. */
    method LinkDescs(n: nat)
      requires n > 0
      modifies this`descs, this`freeDesc
      ensures DescsAdded(old(Snap()), Snap(), n)
    {
      var first := |descs|;
      descs := descs + seq(n, _ => Desc(0, NULL, 0, 0, 0));
      var i, b := n, first;
      while i > 1
        invariant 1 <= i <= n && b == first + n - i && |descs| == first + n
        invariant descs[..first] == old(descs) && freeDesc == old(freeDesc)
        invariant forall x :: first <= x < b ==> descs[x].next == x + 1
      {
        descs := descs[b := descs[b].(next := b + 1)];
        b := b + 1;
        i := i - 1;
      }
      descs := descs[b := descs[b].(next := freeDesc)];
      freeDesc := first;
      forall x: nat | x < n ensures NextDesc(old(Snap()), Snap(), n, x) {
        assert x + 1 < n ==> descs[first + x].next == first + x + 1;
      }
    }

    /** init_bucket_desc: a page of descriptors, 16 bytes each. */
    method InitBucketDesc() returns (ok: bool)
      requires Valid()
      modifies this
      ensures ok ==> Valid() && freeDesc != NULL && chain == old(chain) && mem == old(mem)
      ensures |descs| == |old(descs)| + (if ok then 256 else 0) && spare <= old(spare)
      ensures pages + spare == old(pages + spare) && (ok <==> |old(spare)| >= 1)
      ensures |spare| == |old(spare)| - if ok then 1 else 0
      ensures ok ==> SameHomes(old(Snap()), old(g), Snap(), g, NULL)
      ensures ok ==> forall a, s :: IsLive(Snap(), g, a, s) <==> IsLive(old(Snap()), old(g), a, s)
    {
      hide Inv, IsLive, PagesOK, NextDesc, SpareOK, MoreShape, SameHomes;
      ghost var h := Snap();
      var p := GetFreePage();
      if p == 0 {
        return false;
      }
      var n := PAGE_SIZE / 16;
      SameSizes(h, g);
      LinkDescs(n);
      MoreOK(h, Snap(), g, n);
      MoreHomes(h, Snap(), g, n);
      MorePages(h, Snap(), g, n, old(pages), descPages, p);
      g := MoreShape(g, n);
      descPages := descPages + {p};
      ok := true;
    }

    /** The loop of malloc that makes a fresh page into a list of free objects. */
    method ThreadPage(p: nat, k: nat)
      requires k < 9
      modifies this`mem
      ensures FreeLinked(mem, p, k, p, AllFree(k))
      ensures forall j: nat {:trigger Addr(p, k, j)} :: j + 1 < Slots(k) ==>
                Word(mem, Addr(p, k, j)) == Addr(p, k, j + 1)
      ensures forall x: nat {:trigger Word(mem, x)} :: !(p <= x < p + 4096) ==> Word(mem, x) == Word(old(mem), x)
    {
      hide Addr, Size, Word, Slots, FreeLinked;
      SizeBounds(k);
      AddrSteps(p, k, 0);
      SlotsAre(k);
      var cp, i := p, PAGE_SIZE / Size(k);
      ghost var n := i;
      while i > 1
        invariant 1 <= i <= n == Slots(k) && cp == Addr(p, k, n - i)
        invariant forall j: nat {:trigger Addr(p, k, j)} :: j < n - i ==> Word(mem, Addr(p, k, j)) == Addr(p, k, j + 1)
        invariant forall x: nat {:trigger Word(mem, x)} :: !(p <= x < p + 4096) ==> Word(mem, x) == Word(old(mem), x)
      {
        AddrSteps(p, k, n - i);
        AddrApart(p, k, n - i);
        SetWord(mem, cp, cp + Size(k));
        mem := mem[cp := cp + Size(k)];
        cp := cp + Size(k);
        i := i - 1;
      }
      AddrSteps(p, k, n - 1);
      AddrApart(p, k, n - 1);
      SetWord(mem, cp, 0);
      mem := mem[cp := 0];
      Threaded(mem, p, k);
    }

    /** malloc's search for a page of bucket `k` with a free object. */
    method FirstWithRoom(k: nat) returns (d: int)
      requires Valid() && k < 9
      ensures d == NULL ==> forall x: nat :: x < |descs| && g.home[x] == k ==> descs[x].freeptr == 0
      ensures d != NULL ==> 0 <= d < |descs| == |g.home| && g.home[d] == k && FirstFree(Snap(), g, k, d)
    {
      hide PageOK, OnePage, PagesOK;
      ghost var s := g.lists[k];
      assert ListOK(descs, Head(Snap(), k), s);
      forall x: nat | x < |s| ensures s[x] < |descs| { assert Linked(descs, s, x); }
      d := chain[k];
      ghost var i: nat := 0;
      while d != NULL && descs[d].freeptr == 0
        invariant i <= |s| && d == At(s, i) && forall x :: 0 <= x < i ==> s[x] < |descs| && descs[s[x]].freeptr == 0
        decreases |s| - i
      {
        assert Linked(descs, s, i);
        d := descs[d].next;
        i := i + 1;
      }
      if d == NULL {
        forall x: nat | x < |descs| && g.home[x] == k ensures descs[x].freeptr == 0 { assert x in s; }
      } else {
        assert s[i] in s && NoneFreeBefore(Snap(), s, i);
      }
    }

    /** malloc's test for an unused descriptor. */
    method GetDescs() returns (ok: bool)
      requires Valid()
      modifies this
      ensures ok ==> Valid() && freeDesc != NULL && chain == old(chain) && mem == old(mem)
      ensures pages + spare == old(pages + spare) && (ok <==> old(freeDesc) != NULL || |old(spare)| >= 1)
      ensures spare <= old(spare)
      ensures |spare| == |old(spare)| - if ok && old(freeDesc) == NULL then 1 else 0
      ensures ok ==> SameHomes(old(Snap()), old(g), Snap(), g, NULL)
      ensures ok ==> forall a, s :: IsLive(Snap(), g, a, s) <==> IsLive(old(Snap()), old(g), a, s)
    {
      hide Inv, IsLive, PagesOK, SpareOK;
      SameSizes(Snap(), g);
      ok := true;
      if freeDesc == NULL {
        ok := InitBucketDesc();
      }
    }

    /** malloc takes an unused descriptor and a page, and puts them in front of bucket `k`. */
    method TakePage(k: nat) returns (p: nat)
      requires k < 9 && |chain| == 9 && 0 <= freeDesc < |descs| && SpareOK(spare, pages)
      modifies this`descs, this`chain, this`freeDesc, this`mem, this`pages, this`spare
      ensures pages + spare == old(pages + spare) && SpareOK(spare, pages) && (p != 0 <==> old(spare) != {})
      ensures p == 0 ==> spare == old(spare)
      ensures p != 0 ==> PageAdded(old(Snap()), Snap(), k, p) && p % 4096 == 0 && p in old(spare) && p !in old(pages)
      ensures p != 0 ==> pages == old(pages) + {p} && |spare| == |old(spare)| - 1
    {
      hide Size, Word, FreeLinked, SpareOK, AllFree;
      ghost var h := Snap();
      var d := freeDesc;
      freeDesc := descs[d].next;
      descs := descs[d := descs[d].(refcnt := 0)];
      descs := descs[d := descs[d].(size := Size(k))];
      p := GetFreePage();
      descs := descs[d := descs[d].(page := p, freeptr := p)];
      if p == 0 {
        return;
      }
      ThreadPage(p, k);
      descs := descs[d := descs[d].(next := chain[k])];
      chain := chain[k := d];
      assert Snap().descs == h.descs[d := Desc(p, h.chain[k], p, 0, Size(k))];
    }

    /** A new page in bucket `k` with no object handed out yet. */
    method AddBucketPage(k: nat) returns (ok: bool)
      requires Valid() && k < 9 && freeDesc != NULL
      modifies this
      ensures ok ==> |chain| == 9 && 0 <= chain[k] < |descs| == |g.home|
      ensures ok ==> g.home[chain[k]] == k && descs[chain[k]].freeptr != 0 && descs[chain[k]].freeptr in old(spare)
      ensures ok ==> Inv(Snap(), g, chain[k]) && PagesOK(Snap(), g, pages, descPages) && SpareOK(spare, pages)
      ensures pages + spare == old(pages + spare) && (ok <==> old(spare) != {})
      ensures |spare| == |old(spare)| - if ok then 1 else 0
      ensures ok ==> SameHomes(old(Snap()), old(g), Snap(), g, NULL)
      ensures ok ==> forall a, s :: IsLive(Snap(), g, a, s) <==> IsLive(old(Snap()), old(g), a, s)
      ensures ok ==> forall x: nat :: InLive(old(Snap()), old(g), x) ==> Word(mem, x) == Word(old(mem), x)
    {
      hide Inv, IsLive, InLive, PagesOK, Size, FreeLinked, SpareOK, Word, AddedShape, SameHomes;
      ghost var h := Snap();
      SameSizes(h, g);
      var p := TakePage(k);
      ok := p != 0;
      if ok {
        FreshAdded(h, Snap(), g, k, old(pages), descPages, p);
        g := AddedShape(g, h.freeDesc, k);
      }
    }

    /** The same, with new descriptors if there is no unused one. */
    method NewBucket(k: nat) returns (ok: bool)
      requires Valid() && k < 9
      modifies this
      ensures ok ==> |chain| == 9 && 0 <= chain[k] < |descs| == |g.home|
      ensures ok ==> g.home[chain[k]] == k && descs[chain[k]].freeptr != 0 && descs[chain[k]].freeptr in old(spare)
      ensures ok ==> Inv(Snap(), g, chain[k]) && PagesOK(Snap(), g, pages, descPages) && SpareOK(spare, pages)
      ensures pages + spare == old(pages + spare) && (ok <==> |old(spare)| >= if old(freeDesc) == NULL then 2 else 1)
      ensures ok ==> |spare| == |old(spare)| - if old(freeDesc) == NULL then 2 else 1
      ensures ok ==> SameHomes(old(Snap()), old(g), Snap(), g, NULL)
      ensures ok ==> forall a, s :: IsLive(Snap(), g, a, s) <==> IsLive(old(Snap()), old(g), a, s)
      ensures ok ==> forall x: nat :: InLive(old(Snap()), old(g), x) ==> Word(mem, x) == Word(old(mem), x)
    {
      hide Inv, IsLive, InLive, PagesOK, SpareOK;
      ok := GetDescs();
      if ok {
        SameInLive(old(Snap()), old(g), Snap(), g);
        ok := AddBucketPage(k);
      }
    }

    /** malloc's search of bucket_dir; its panic for large arguments is the precondition. */
    method FindBucket(len: nat) returns (k: nat)
      requires len <= PAGE_SIZE
      ensures k == Bucket(len, 0)
    {
      k := 0;
      while Size(k) != 0 && !(Size(k) >= len)
        invariant k < 9 && (k > 0 ==> Size(k - 1) < len) && Bucket(len, k) == Bucket(len, 0)
        decreases 9 - k
      {
        k := k + 1;
      }
    }

    /** malloc: an object of the smallest sufficient bucket, apart from all others; what they hold is untouched.  It
      * fails exactly if it needs more pages than there are, and takes no more than it needs.  The object is the first
      * free one of the first page that has any, or begins a new page. */
    method Malloc(len: nat) returns (r: nat)
      requires Valid() && len <= PAGE_SIZE
      modifies this
      ensures pages + spare == old(pages + spare)
      ensures r != 0 <==> |old(spare)| >= PagesNeeded(old(Snap()), old(g), Bucket(len, 0))
      ensures r != 0 ==> |spare| == |old(spare)| - PagesNeeded(old(Snap()), old(g), Bucket(len, 0))
      ensures IsFit(len, Size(Bucket(len, 0)))
      ensures r != 0 ==> Valid() && !(exists s :: IsLive(old(Snap()), old(g), r, s))
      ensures r != 0 ==> if HasRoom(old(Snap()), old(g), Bucket(len, 0))
                         then exists d: nat :: FirstFree(old(Snap()), old(g), Bucket(len, 0), d)
                                               && r == old(descs)[d].freeptr
                         else r in old(spare)
      ensures r != 0 ==> forall a, s :: IsLive(Snap(), g, a, s) <==>
                                        IsLive(old(Snap()), old(g), a, s) || (a == r && s == Size(Bucket(len, 0)))
      ensures r != 0 ==> forall x: nat :: InLive(old(Snap()), old(g), x) ==> Word(mem, x) == Word(old(mem), x)
      ensures r != 0 ==> PlacesKept(old(Snap()), old(g), Snap(), g)
    {
      hide Inv, IsLive, InLive, PagesOK, Size, SpareOK, SameHomes, PlacesKept;
      var k := FindBucket(len);
      BucketIsFit(len);
      SameSizes(Snap(), g);
      SameHomesRefl(Snap(), g);
      var d := FirstWithRoom(k);
      ghost var ex := NULL;
      if d == NULL {
        var ok := NewBucket(k);
        if !ok {
          return 0;
        }
        d := chain[k];
        ex := d;
      }
      ghost var h := Snap();
      PopOK(h, g, d, ex);
      PopPages(h, g, pages, descPages, d);
      r := descs[d].freeptr;
      descs := descs[d := descs[d].(freeptr := Word(mem, r))];
      descs := descs[d := descs[d].(refcnt := descs[d].refcnt + 1)];
      assert Snap() == Popped(h, d);
      PopHomes(old(Snap()), old(g), h, g, d);
      g := PoppedShape(g, d);
    }

    /** free_s's search: the descriptor of the page, its bucket, and its predecessor there. */
    method FindPage(page: nat, size: nat, ghost d0: nat) returns (k: nat, d: int, prev: int, ghost i: nat)
      requires Valid() && d0 < |descs| && g.home[d0] < 9 && descs[d0].page == page && size <= Size(g.home[d0])
      ensures k < 9 && |g.lists| == 10 && k == g.home[d0] && d == d0 && i < |g.lists[k]| && g.lists[k][i] == d0
      ensures prev == if i > 0 then g.lists[k][i - 1] else NULL
    {
      hide PageOK, PagesOK, Size;
      k := 0;
      d, prev, i := NULL, NULL, 0;
      ghost var k0 := g.home[d0];
      assert d0 in g.lists[k0];
      ghost var i0: nat :| i0 < |g.lists[k0]| && g.lists[k0][i0] == d0;
      while Size(k) != 0
        invariant k <= k0
        decreases 9 - k
      {
        SizeBounds(k);
        prev := NULL;
        if !(Size(k) < size) {
          ghost var s := g.lists[k];
          assert ListOK(descs, Head(Snap(), k), s);
          d := chain[k];
          i := 0;
          while d != NULL
            invariant i <= |s| && d == At(s, i) && prev == (if i > 0 then s[i - 1] else NULL) && (k == k0 ==> i <= i0)
            decreases |s| - i
          {
            assert Linked(descs, s, i) && s[i] in s;
            if descs[d].page == page {
              assert OnePage(Snap(), g, d, d0);
              assert g.home[d] == k;
              return;
            }
            prev := d;
            d := descs[d].next;
            i := i + 1;
          }
        }
        k := k + 1;
      }
      SizeBounds(k);
    }

    /** The predecessor of `d` in bucket `k`: the one found before if it still is, else found anew. */
    method Predecessor(k: nat, d: nat, prev0: int) returns (prev: int, ghost i: nat)
      requires Inv(Snap(), g, d) && k < 9 && d < |g.home| && g.home[d] == k && NULL <= prev0 < |descs|
      ensures |chain| == 9 && if prev == NULL then chain[k] == d else 0 <= prev < |descs| && descs[prev].next == d
      ensures |g.lists| == 10 && i < |g.lists[k]| && g.lists[k][i] == d
              && prev == if i > 0 then g.lists[k][i - 1] else NULL
    {
      hide PageOK, OnePage;
      ghost var s := g.lists[k];
      assert ListOK(descs, Head(Snap(), k), s) && d in s;
      i :| i < |s| && s[i] == d;
      prev := prev0;
      if (prev != NULL && descs[prev].next != d) || (prev == NULL && chain[k] != d) {
        prev := chain[k];
        ghost var n: nat := 0;
        assert Linked(descs, s, 0);
        while prev != NULL && descs[prev].next != d
          invariant n <= |s| && prev == At(s, n) && (i > 0 ==> n < i) && (prev != NULL ==> 0 <= prev < |descs|)
          decreases |s| - n
        {
          assert Linked(descs, s, n);
          assert n + 1 < |s| ==> Linked(descs, s, n + 1);
          prev := descs[prev].next;
          n := n + 1;
        }
        if prev != NULL { NextIs(descs, s, n, i); }
      } else if prev != NULL {
        Before(Snap(), g, prev, d, k, i);
      } else {
        HeadIs(descs, chain[k], s, i);
      }
      PrevOf(Snap(), g, d, k, i, d);
    }

    /** free_s when the last object of a page is gone. */
    method DropPage(k: nat, d: nat, prev0: int)
      requires Inv(Snap(), g, d) && PagesOK(Snap(), g, pages, descPages) && d < |descs| && descs[d].refcnt == 0
      requires k < 9 && d < |g.home| && g.home[d] == k && NULL <= prev0 < |descs|
      requires SpareOK(spare, pages) && descs[d].page in pages && descs[d].page % 4096 == 0 && descs[d].page > 0
      modifies this
      ensures pages + spare == old(pages + spare)
      ensures Valid() && mem == old(mem) && descPages == old(descPages) && pages == old(pages) - {old(descs)[d].page}
      ensures SameHomes(old(Snap()), old(g), Snap(), g, d) && !HasPage(Snap(), g, old(descs)[d].page)
      ensures forall a, s :: IsLive(Snap(), g, a, s) <==> IsLive(old(Snap()), old(g), a, s)
    {
      hide Inv, IsLive, PagesOK, SameHomes, HasPage;
      ghost var h := Snap();
      ghost var i;
      var prev;
      prev, i := Predecessor(k, d, prev0);
      PrevOf(h, g, d, k, i, d);
      assert if prev != NULL then descs[prev].next == d else chain[k] == d;
      if prev != NULL {
        descs := descs[prev := descs[prev].(next := descs[d].next)];
      } else {
        chain := chain[k := descs[d].next];
      }
      pages, spare := pages - {descs[d].page}, spare + {descs[d].page};
      descs := descs[d := descs[d].(next := freeDesc)];
      freeDesc := d;
      DropOK(h, Snap(), g, d, k, i);
      DropPages(h, Snap(), g, old(pages), descPages, d, k, i);
      DropHomes(h, Snap(), g, d, k, i);
      g := MovedShape(g, d, k, i, FREE);
      PageGone(Snap(), g, pages, descPages, h.descs[d].page);
    }

    /** free_s from label found on.  The search has been before, and interrupts may have come between: all that has to
      * hold still is that `d` is the descriptor of the object's page, in bucket `k`; `prev` may be any descriptor by
      * now.  The object is gone, the rest is as it was, and a page whose last object it was is given back. */
    method FreeFound(obj: nat, k: nat, d: nat, prev: int)
      requires Valid() && (exists s :: IsLive(Snap(), g, obj, s)) && InPlace(Snap(), g, obj, d, k)
               && NULL <= prev < |descs|
      modifies this
      ensures Valid() && forall a, s :: IsLive(Snap(), g, a, s) <==> IsLive(old(Snap()), old(g), a, s) && a != obj
      ensures forall x: nat :: InLive(Snap(), g, x) ==> Word(mem, x) == Word(old(mem), x)
      ensures descPages == old(descPages) && pages + spare == old(pages + spare)
      ensures PlacesKept(old(Snap()), old(g), Snap(), g)
    {
      hide Inv, IsLive, InLive, PagesOK, Size, Addr, SpareOK, SameHomes, PlacesKept, HasPage;
      ghost var h := Snap();
      ghost var s :| IsLive(h, g, obj, s);
      ghost var d0, j := SlotOf(h, g, obj, s);
      OneDesc(h, g, d0, d);
      PushOK(h, g, d0, j);
      PushPages(h, g, pages, descPages, d0, j);
      mem := mem[obj := descs[d].freeptr];
      descs := descs[d := descs[d].(freeptr := obj)];
      descs := descs[d := descs[d].(refcnt := descs[d].refcnt - 1)];
      assert Snap() == Pushed(h, d0, obj);
      g := PushedShape(g, d0, j);
      PushHomes(h, old(g), d0, j, obj);
      ghost var h1, g1 := Snap(), g;
      if descs[d].refcnt == 0 {
        PageHeld(Snap(), g, pages, descPages, d);
        DropPage(k, d, prev);
        HomesThen(h, old(g), h1, g1, Snap(), g, d);
      }
      HomesPlaces(h, old(g), Snap(), g, d);
      forall x: nat | InLive(Snap(), g, x) ensures Word(mem, x) == Word(old(mem), x) {
        NotInLive(Snap(), g, h, old(g), obj, x);
      }
    }

    /** free_s of a live object, with any size up to its own, or 0, not interrupted. */
    method FreeS(obj: nat, size: nat)
      requires Valid() && exists s :: IsLive(Snap(), g, obj, s) && size <= s
      modifies this
      ensures Valid() && forall a, s :: IsLive(Snap(), g, a, s) <==> IsLive(old(Snap()), old(g), a, s) && a != obj
      ensures forall x: nat :: InLive(Snap(), g, x) ==> Word(mem, x) == Word(old(mem), x)
      ensures descPages == old(descPages) && pages + spare == old(pages + spare)
      ensures PlacesKept(old(Snap()), old(g), Snap(), g)
    {
      hide Inv, IsLive, InLive, PagesOK, Size, Addr, SpareOK, PlacesKept;
      var page := obj - obj % 4096;
      ghost var h := Snap();
      ghost var s :| IsLive(h, g, obj, s) && size <= s;
      ghost var d0, j := SlotOf(h, g, obj, s);
      var k, d, prev;
      ghost var i;
      k, d, prev, i := FindPage(page, size, d0);
      if i > 0 { InList(h, g, k, i - 1); }
      FreeFound(obj, k, d, prev);
    }

    /** What a caller stores into an object it has does the allocator no harm. */
    method StoreInto(x: nat, v: nat)
      requires Valid() && InLive(Snap(), g, x)
      modifies this`mem
      ensures Valid() && mem == old(mem)[x := v]
      ensures forall a, s :: IsLive(Snap(), g, a, s) <==> IsLive(old(Snap()), g, a, s)
    {
      hide Inv, IsLive, InLive, PagesOK, SpareOK;
      StoreOK(Snap(), g, pages, descPages, x, v);
      mem := mem[x := v];
    }
  }

  lemma SetWord(mem: map<nat, nat>, a: nat, v: nat)
    ensures forall x {:trigger Word(mem[a := v], x)} :: Word(mem[a := v], x) == if x == a then v else Word(mem, x)
  {
  }

  lemma SameInLive(h: Heap, g: Shape, h': Heap, g': Shape)
    requires forall a, s :: IsLive(h', g', a, s) <==> IsLive(h, g, a, s)
    ensures forall x: nat :: InLive(h', g', x) <==> InLive(h, g, x)
  {
    hide IsLive;
    forall x: nat ensures InLive(h', g', x) <==> InLive(h, g, x) {
      if InLive(h, g, x) {
        var a: nat, s: nat :| IsLive(h, g, a, s) && a <= x < a + s;
        assert IsLive(h', g', a, s);
      }
    }
  }

  // ---- addresses ----

  lemma SlotsAre(k: nat)
    requires k < 9
    ensures Size(k) > 0 && Slots(k) == 4096 / Size(k)
  {
  }

  lemma Threaded(mem: map<nat, nat>, p: nat, k: nat)
    requires k < 9 && Slots(k) >= 1
    requires forall j: nat {:trigger Addr(p, k, j)} :: j < Slots(k) - 1 ==>
             Word(mem, Addr(p, k, j)) == Addr(p, k, j + 1)
    requires Word(mem, Addr(p, k, Slots(k) - 1)) == 0
    ensures FreeLinked(mem, p, k, p, AllFree(k))
  {
    hide Addr, Size, Word, Slots;
    AddrSteps(p, k, 0);
    var s := AllFree(k);
    forall i: nat | i < |s| ensures Word(mem, Addr(p, k, s[i])) == LinkTo(p, k, s, i + 1) {
      if i + 1 < |s| { assert s[i + 1] == i + 1; }
    }
  }

  lemma AddrSteps(p: nat, k: nat, j: nat)
    ensures Addr(p, k, 0) == p && Addr(p, k, j + 1) == Addr(p, k, j) + Size(k)
  {
    hide Size;
    assert Size(k) * (j + 1) == Size(k) * j + Size(k);
  }

  lemma AddrApart(p: nat, k: nat, j: nat)
    requires k < 9 && j < Slots(k)
    ensures p <= Addr(p, k, j) < p + 4096
    ensures forall i: nat {:trigger Addr(p, k, i)} :: i < j ==> Addr(p, k, i) < Addr(p, k, j)
  {
    hide Size;
    SizeBounds(k);
    assert Size(k) * Slots(k) == 4096 by { SlotBounds(0, k, 0, 0); SizeTimes(k); }
    assert Size(k) * (j + 1) <= Size(k) * Slots(k);
    assert Size(k) * (j + 1) == Size(k) * j + Size(k);
    forall i: nat | i < j ensures Addr(p, k, i) < Addr(p, k, j) {
      assert Size(k) * i < Size(k) * j;
    }
  }

  lemma SizeTimes(k: nat)
    requires k < 9
    ensures Size(k) * Slots(k) == 4096
  {
  }

  // ---- sizes and pages through each step ----

  lemma SameSizes(h: Heap, g: Shape)
    requires exists ex :: Inv(h, g, ex)
    ensures |h.descs| == |g.home| == |g.free| == |g.used| && |h.chain| == 9 && |g.lists| == 10
    ensures h.freeDesc != NULL ==> 0 <= h.freeDesc < |h.descs|
  {
    hide PageOK, OnePage;
    if h.freeDesc != NULL { FreeHead(h, g); }
  }

  lemma MorePages(h: Heap, h': Heap, g: Shape, n: nat, pages: set<nat>, descPages: set<nat>, p: nat)
    requires PagesOK(h, g, pages, descPages) && p > 0 && p !in pages && DescsAdded(h, h', n)
    requires |g.lists| == 10 && |g.home| == |h.descs|
    ensures PagesOK(h', MoreShape(g, n), pages + {p}, descPages + {p})
  {
    forall q: nat ensures HasPage(h, g, q) <==> HasPage(h', MoreShape(g, n), q) {
      if HasPage(h, g, q) {
        var d: nat :| d < |h.descs| && d < |g.home| && g.home[d] < 9 && h.descs[d].page == q;
        assert h'.descs[d] == h.descs[d] && MoreShape(g, n).home[d] == g.home[d];
      }
      if HasPage(h', MoreShape(g, n), q) {
        var d: nat :| d < |h'.descs| && MoreShape(g, n).home[d] < 9 && h'.descs[d].page == q;
        assert h'.descs[d] == h.descs[d];
      }
    }
  }

  /** A fresh page in front of bucket `k` keeps everything in order, and no live object is in it. */
  lemma FreshAdded(h: Heap, h': Heap, g: Shape, k: nat, pages: set<nat>, descPages: set<nat>, p: nat)
    requires Inv(h, g, NULL) && PagesOK(h, g, pages, descPages) && PageAdded(h, h', k, p)
    requires p > 0 && p % 4096 == 0 && p !in pages && |g.home| == |h.descs|
    ensures |g.lists| == 10 && g.lists[9] != [] && 0 <= h.freeDesc < |g.home| == |g.free| == |g.used|
    ensures Inv(h', AddedShape(g, h.freeDesc, k), h.freeDesc)
    ensures PagesOK(h', AddedShape(g, h.freeDesc, k), pages + {p}, descPages)
    ensures |h'.descs| == |AddedShape(g, h.freeDesc, k).home| && AddedShape(g, h.freeDesc, k).home[h.freeDesc] == k
    ensures SameHomes(h, g, h', AddedShape(g, h.freeDesc, k), NULL)
    ensures forall a, s :: IsLive(h', AddedShape(g, h.freeDesc, k), a, s) <==> IsLive(h, g, a, s)
    ensures forall x: nat :: InLive(h, g, x) ==> !(p <= x < p + 4096)
  {
    hide PagesOK, IsLive, InLive, FreeLinked, PageOK, OnePage, ListsOK;
    assert g.home[h.freeDesc] == FREE by { FreeHead(h, g); }
    NotYetAPage(h, g, pages, descPages, p);
    AddPages(h, h', g, k, pages, descPages, p);
    AddOK(h, h', g, k, p);
    OutsideFresh(h, g, p);
  }

  lemma NotYetAPage(h: Heap, g: Shape, pages: set<nat>, descPages: set<nat>, p: nat)
    requires PagesOK(h, g, pages, descPages) && p !in pages && |g.home| == |h.descs|
    ensures forall d: nat :: d < |h.descs| && g.home[d] < 9 ==> h.descs[d].page != p
  {
    assert !HasPage(h, g, p);
  }

  lemma AddPages(h: Heap, h': Heap, g: Shape, k: nat, pages: set<nat>, descPages: set<nat>, p: nat)
    requires PagesOK(h, g, pages, descPages) && p > 0 && p !in pages && PageAdded(h, h', k, p) && Inv(h, g, NULL)
    ensures |g.lists| == 10 && g.lists[9] != [] && 0 <= h.freeDesc < |g.home| == |g.free| == |g.used|
    ensures PagesOK(h', AddedShape(g, h.freeDesc, k), pages + {p}, descPages)
  {
    hide Size, Slots, FreeLinked, RemoveAt, ListsOK, PageOK, OnePage;
    FreeHead(h, g);
    var g' := AddedShape(g, h.freeDesc, k);
    assert h'.descs[h.freeDesc].page == p && g'.home[h.freeDesc] == k;
    assert HasPage(h', g', p);
    forall q: nat | q != p ensures HasPage(h, g, q) <==> HasPage(h', g', q) {
      if HasPage(h, g, q) {
        var d: nat :| d < |h.descs| && d < |g.home| && g.home[d] < 9 && h.descs[d].page == q;
        assert h'.descs[d] == h.descs[d] && g'.home[d] == g.home[d];
      }
      if HasPage(h', g', q) {
        var d: nat :| d < |h'.descs| && d < |g'.home| && g'.home[d] < 9 && h'.descs[d].page == q;
        assert h'.descs[d] == h.descs[d] && g'.home[d] == g.home[d];
      }
    }
  }

  /** Pages and homes untouched. */
  lemma SamePages(h: Heap, h': Heap, g: Shape, g': Shape, pages: set<nat>, descPages: set<nat>)
    requires PagesOK(h, g, pages, descPages) && g'.home == g.home && |h'.descs| == |h.descs|
    requires forall d :: 0 <= d < |h.descs| ==> h'.descs[d].page == h.descs[d].page
    ensures PagesOK(h', g', pages, descPages)
  {
    forall q: nat ensures HasPage(h, g, q) <==> HasPage(h', g', q) {
      if HasPage(h, g, q) {
        var d: nat :| d < |h.descs| && d < |g.home| && g.home[d] < 9 && h.descs[d].page == q;
        assert h'.descs[d].page == q;
      }
    }
  }

  lemma PopPages(h: Heap, g: Shape, pages: set<nat>, descPages: set<nat>, d: nat)
    requires PagesOK(h, g, pages, descPages) && d < |h.descs| && d < |g.free| && d < |g.used| && g.free[d] != []
    ensures PagesOK(Popped(h, d), PoppedShape(g, d), pages, descPages)
  {
    SamePages(h, Popped(h, d), g, PoppedShape(g, d), pages, descPages);
  }

  lemma PushPages(h: Heap, g: Shape, pages: set<nat>, descPages: set<nat>, d: nat, j: nat)
    requires PagesOK(h, g, pages, descPages) && d < |h.descs| && d < |g.free| && d < |g.used| && d < |g.home|
    requires h.descs[d].refcnt > 0
    ensures var a := Addr(h.descs[d].page, g.home[d], j);
      PagesOK(Pushed(h, d, a), PushedShape(g, d, j), pages, descPages)
  {
    var a := Addr(h.descs[d].page, g.home[d], j);
    SamePages(h, Pushed(h, d, a), g, PushedShape(g, d, j), pages, descPages);
  }

  lemma DropPages(h: Heap, h': Heap, g: Shape, pages: set<nat>, descPages: set<nat>, d: nat, k: nat, i: nat)
    requires Inv(h, g, d) && PagesOK(h, g, pages, descPages) && PageDropped(h, h', g, d, k, i)
    ensures d < |g.home| && PagesOK(h', MovedShape(g, d, k, i, FREE), pages - {h.descs[d].page}, descPages)
  {
    hide PageOK, RemoveAt, Addr, Size, Slots, FreeLinked, Word, ListOK, Linked, Partition;
    var g', p := MovedShape(g, d, k, i, FREE), h.descs[d].page;
    assert d in g.lists[k];
    assert HasPage(h, g, p);
    forall q: nat ensures HasPage(h', g', q) <==> HasPage(h, g, q) && q != p {
      if HasPage(h, g, q) && q != p {
        var x: nat :| x < |h.descs| && x < |g.home| && g.home[x] < 9 && h.descs[x].page == q;
        assert h'.descs[x].page == q && g'.home[x] == g.home[x];
      }
      if HasPage(h', g', q) {
        var x: nat :| x < |h'.descs| && x < |g'.home| && g'.home[x] < 9 && h'.descs[x].page == q;
        assert h.descs[x].page == q && g.home[x] < 9 && x != d;
        assert OnePage(h, g, x, d);
      }
    }
  }

  // ---- finding the slot of an object ----

  lemma SlotOf(h: Heap, g: Shape, a: nat, s: nat) returns (d: nat, j: nat)
    requires Inv(h, g, NULL) && IsLive(h, g, a, s)
    ensures d < |h.descs| == |g.home| == |g.free| == |g.used| && g.home[d] < 9 && j in g.used[d]
    ensures a == Addr(h.descs[d].page, g.home[d], j) && s == Size(g.home[d]) && h.descs[d].page == a - a % 4096
  {
    hide Addr, Size, Slots, ListsOK, FreeLinked;
    d, j :| IsSlot(h, g, d, j, a, s);
    assert PageOK(h, g, d);
    SlotBounds(h.descs[d].page, g.home[d], j, j);
  }

  lemma PageHeld(h: Heap, g: Shape, pages: set<nat>, descPages: set<nat>, d: nat)
    requires PagesOK(h, g, pages, descPages) && d < |h.descs| && d < |g.home| && g.home[d] < 9 && Inv(h, g, d)
    ensures h.descs[d].page in pages && h.descs[d].page > 0 && h.descs[d].page % 4096 == 0
  {
    assert HasPage(h, g, h.descs[d].page);
    assert PageOK(h, g, d);
  }

  lemma SameHomesRefl(h: Heap, g: Shape)
    requires |g.home| == |h.descs|
    ensures SameHomes(h, g, h, g, NULL)
  {
  }

  lemma MoreHomes(h: Heap, h': Heap, g: Shape, n: nat)
    requires DescsAdded(h, h', n) && |g.home| == |h.descs| && |g.lists| == 10
    ensures SameHomes(h, g, h', MoreShape(g, n), NULL)
  {
    forall d: nat | d < |h.descs| ensures h'.descs[d] == h.descs[d] { assert h'.descs[..|h.descs|][d] == h.descs[d]; }
  }

  lemma PopHomes(h0: Heap, g0: Shape, h: Heap, g: Shape, d: nat)
    requires SameHomes(h0, g0, h, g, NULL) && d < |h.descs| && d < |g.free| && d < |g.used| && g.free[d] != []
    ensures PlacesKept(h0, g0, Popped(h, d), PoppedShape(g, d))
  {
    hide IsLive;
  }

  lemma PushHomes(h: Heap, g: Shape, d: nat, j: nat, a: nat)
    requires d < |h.descs| == |g.home| && h.descs[d].refcnt > 0 && d < |g.free| && d < |g.used|
    ensures SameHomes(h, g, Pushed(h, d, a), PushedShape(g, d, j), NULL)
  {
  }

  lemma DropHomes(h: Heap, h': Heap, g: Shape, d: nat, k: nat, i: nat)
    requires PageDropped(h, h', g, d, k, i) && |g.home| == |h.descs| && d < |g.home|
    ensures SameHomes(h, g, h', MovedShape(g, d, k, i, FREE), d)
  {
  }

  lemma PageGone(h: Heap, g: Shape, pages: set<nat>, descPages: set<nat>, p: nat)
    requires PagesOK(h, g, pages, descPages) && p !in pages
    ensures !HasPage(h, g, p)
  {
    hide HasPage;
  }

  lemma HomesThen(h: Heap, g: Shape, h1: Heap, g1: Shape, h2: Heap, g2: Shape, d: int)
    requires SameHomes(h, g, h1, g1, NULL) && SameHomes(h1, g1, h2, g2, d)
    ensures SameHomes(h, g, h2, g2, d)
  {
  }

  /** Descriptor `d` may have lost its page, but then nothing in that page is live. */
  lemma HomesPlaces(h: Heap, g: Shape, h': Heap, g': Shape, d: nat)
    requires SameHomes(h, g, h', g', NULL)
             || (d < |h.descs| && SameHomes(h, g, h', g', d) && !HasPage(h', g', h.descs[d].page))
    requires Inv(h', g', NULL)
    ensures PlacesKept(h, g, h', g')
  {
    hide IsLive, Inv;
    forall a: nat, x: nat, k: nat | InPlace(h, g, a, x, k) && exists s :: IsLive(h', g', a, s)
      ensures InPlace(h', g', a, x, k)
    {
      if x == d {
        var s :| IsLive(h', g', a, s);
        LivePositive(h', g', a, s);
        var y, j := SlotOf(h', g', a, s);
        assert h'.descs[y].page == a - a % 4096;
        assert HasPage(h', g', a - a % 4096);
      }
    }
  }

  lemma HeadIs(descs: seq<Desc>, head: int, s: seq<nat>, i: nat)
    requires ListOK(descs, head, s) && i < |s| && head == s[i]
    ensures i == 0
  {
  }

  /** In one list only one descriptor comes before `d`. */
  lemma NextIs(descs: seq<Desc>, s: seq<nat>, n: nat, i: nat)
    requires Distinct(s) && Linked(descs, s, n) && i < |s| && descs[s[n]].next == s[i]
    ensures i == n + 1
  {
  }

  /** A descriptor whose successor is `d` is the one before it in its bucket, wherever it was when it was found. */
  lemma Before(h: Heap, g: Shape, prev: nat, d: nat, k: nat, i: nat)
    requires ListsOK(h, g) && prev < |h.descs| && k < 9 && i < |g.lists[k]| && g.lists[k][i] == d
             && h.descs[prev].next == d
    ensures i > 0 && g.lists[k][i - 1] == prev
  {
    var l := g.home[prev];
    var s := g.lists[l];
    assert ListOK(h.descs, Head(h, l), s) && prev in s;
    var n: nat :| n < |s| && s[n] == prev;
    assert Linked(h.descs, s, n);
    assert n + 1 < |s| && s[n + 1] == d && s[n + 1] in s;
    assert d in g.lists[k];
    assert l == k;
    NextIs(h.descs, s, n, i);
  }

  lemma InList(h: Heap, g: Shape, k: nat, i: nat)
    requires Inv(h, g, NULL) && k < |g.lists| && i < |g.lists[k]|
    ensures g.lists[k][i] < |h.descs|
  {
    hide PageOK, OnePage;
    assert g.lists[k][i] in g.lists[k];
  }

  lemma OneDesc(h: Heap, g: Shape, d: nat, d': nat)
    requires Inv(h, g, NULL) && d < |h.descs| && d' < |h.descs| && d < |g.home| && d' < |g.home|
    requires g.home[d] < 9 && g.home[d'] < 9 && h.descs[d].page == h.descs[d'].page
    ensures d == d'
  {
    assert OnePage(h, g, d, d');
  }

  lemma PrevOf(h: Heap, g: Shape, d: nat, k: nat, i: nat, ex: int)
    requires Inv(h, g, ex) && k < 9 && |g.lists| == 10 && i < |g.lists[k]| && g.lists[k][i] == d
    ensures |h.chain| == 9 && d < |h.descs| == |g.home| && (i == 0 ==> h.chain[k] == d)
    ensures i > 0 ==> g.lists[k][i - 1] < |h.descs| && g.lists[k][i - 1] != d && h.descs[g.lists[k][i - 1]].next == d
  {
    hide PageOK, OnePage;
    assert ListOK(h.descs, Head(h, k), g.lists[k]);
    assert d in g.lists[k];
    if i > 0 { assert Linked(h.descs, g.lists[k], i - 1); }
  }

  lemma OutsideFresh(h: Heap, g: Shape, p: nat)
    requires Inv(h, g, NULL) && p % 4096 == 0 && forall d: nat :: d < |h.descs| && g.home[d] < 9 ==>
             h.descs[d].page != p
    ensures forall x: nat :: InLive(h, g, x) ==> !(p <= x < p + 4096)
  {
    hide Addr, Size, Slots, ListsOK, FreeLinked;
    forall x: nat | InLive(h, g, x) ensures !(p <= x < p + 4096) {
      var a: nat, s: nat :| IsLive(h, g, a, s) && a <= x < a + s;
      var d: nat, j: nat :| IsSlot(h, g, d, j, a, s);
      assert PageOK(h, g, d);
      SlotBounds(h.descs[d].page, g.home[d], j, j);
      PagesApart(h.descs[d].page, p);
    }
  }

  /** No live object holds the first word of a free one. */
  lemma FreeNotLive(h: Heap, g: Shape, d: nat, i: nat, d0: nat, j: nat, a: nat, s: nat, x: nat)
    requires PageOK(h, g, d) && PageOK(h, g, d0) && OnePage(h, g, d, d0) && IsSlot(h, g, d0, j, a, s) && a <= x < a + s
    requires g.home[d] < 9 && i < |g.free[d]|
    ensures Addr(h.descs[d].page, g.home[d], g.free[d][i]) != x
  {
    hide Addr, Size, Slots, FreeLinked;
    var p, k, f := h.descs[d].page, g.home[d], g.free[d][i];
    SlotBounds(p, k, f, j);
    SlotBounds(h.descs[d0].page, g.home[d0], j, f);
    SizeBounds(k);
    if d != d0 { PagesApart(p, h.descs[d0].page); }
  }

  lemma StoreOK(h: Heap, g: Shape, pages: set<nat>, descPages: set<nat>, x: nat, v: nat)
    requires Inv(h, g, NULL) && PagesOK(h, g, pages, descPages) && InLive(h, g, x)
    ensures var h' := h.(mem := h.mem[x := v]);
      && Inv(h', g, NULL) && PagesOK(h', g, pages, descPages)
      && forall a, s :: IsLive(h', g, a, s) <==> IsLive(h, g, a, s)
  {
    hide Addr, Size, Slots, ListsOK, Word, Partition;
    var h' := h.(mem := h.mem[x := v]);
    SetWord(h.mem, x, v);
    var a: nat, s: nat :| IsLive(h, g, a, s) && a <= x < a + s;
    var d0: nat, j: nat :| IsSlot(h, g, d0, j, a, s);
    ListsKept(h, h', g, g);
    forall d: nat | d < |h.descs| ensures PageOK(h', g, d) {
      assert PageOK(h, g, d) && PageOK(h, g, d0) && OnePage(h, g, d, d0);
      if g.home[d] < 9 {
        forall i: nat | i < |g.free[d]| ensures Addr(h.descs[d].page, g.home[d], g.free[d][i]) != x {
          FreeNotLive(h, g, d, i, d0, j, a, s, x);
        }
      }
    }
    forall d: nat, d': nat | d < |h.descs| && d' < |h.descs| ensures OnePage(h', g, d, d') {
      assert OnePage(h, g, d, d');
    }
    forall d: nat, j: nat, a, s ensures IsSlot(h', g, d, j, a, s) <==> IsSlot(h, g, d, j, a, s) {}
    forall p: nat ensures HasPage(h', g, p) <==> HasPage(h, g, p) {}
  }

  /** The first word of the object just freed is in no live object. */
  lemma NotInLive(h': Heap, g': Shape, h: Heap, g: Shape, obj: nat, x: nat)
    requires Inv(h, g, NULL) && (exists s :: IsLive(h, g, obj, s)) && InLive(h', g', x)
    requires forall a, s :: IsLive(h', g', a, s) <==> IsLive(h, g, a, s) && a != obj
    ensures x != obj
  {
    hide IsLive, Inv;
    var a: nat, s: nat :| IsLive(h', g', a, s) && a <= x < a + s;
    var s0 :| IsLive(h, g, obj, s0);
    LiveDisjoint(h, g, a, s, obj, s0);
    LivePositive(h, g, obj, s0);
  }

  lemma LivePositive(h: Heap, g: Shape, a: nat, s: nat)
    requires IsLive(h, g, a, s)
    ensures s > 0
  {
    hide Addr;
    var d: nat, j: nat :| IsSlot(h, g, d, j, a, s);
    SizeBounds(g.home[d]);
  }

  /** When every object has been freed, every bucket page has been given back. */
  lemma AllReturned(h: Heap, g: Shape, pages: set<nat>, descPages: set<nat>)
    requires Inv(h, g, NULL) && PagesOK(h, g, pages, descPages) && forall a, s :: !IsLive(h, g, a, s)
    ensures pages == descPages && forall k :: 0 <= k < 9 ==> h.chain[k] == NULL
  {
    hide IsLive, PageOK, OnePage;
    NothingLive(h, g);
    forall p: nat ensures !HasPage(h, g, p) {}
  }
}
