/** Demand-zero, shared and copied-on-write pages: mm/memory.c and the memory part of fork and exit, run against the
  * private memories of EagerMemory.
  */
module CopyOnWrite {
  import opened FrameAccounts
  import opened PageTables
  import opened EagerMemory

  /** How many frames are free. */
  function FreeCount(c: seq<nat>): nat {
    if c == [] then 0 else (if c[0] == 0 then 1 else 0) + FreeCount(c[1..])
  }

  /** How many of the `n` directory entries from `from` on have a page table. */
  function TableCount(dirs: map<nat, nat>, from: nat, n: nat): nat {
    if n == 0 then 0 else TableCount(dirs, from, n - 1) + if from + n - 1 in dirs then 1 else 0
  }

  lemma {:induction false} TableCountGrows(dirs: map<nat, nat>, from: nat, i: nat, n: nat)
    requires i < n && from + i in dirs
    ensures TableCount(dirs, from, i) < TableCount(dirs, from, n)
  {
    if i + 1 < n { TableCountGrows(dirs, from, i, n - 1); }
  }

  /** The directory entries of a task. */
  function SlotOf(t: nat): set<nat> {
    set d: nat | t * SLOT <= d < (t + 1) * SLOT && InSlot(d, t)
  }

  predicate InSlot(d: nat, t: nat) {
    t * SLOT <= d < (t + 1) * SLOT
  }

  /** The directory entry that corresponds to `d` when those from `from` on are copied to those from `to` on. */
  function Back(d: nat, from: nat, to: nat): int {
    d - to + from
  }

  /** Where there are page tables once `u` has got the memory of `t`. */
  function ForkedTables(dirs: set<nat>, t: nat, u: nat): set<nat> {
    dirs + set d: nat | u * SLOT <= d < (u + 1) * SLOT && Back(d, t * SLOT, u * SLOT) in dirs
  }

  /** The first `i` directory entries from `to` on have got tables where those from `from` on have them; the others are
    * as they were. */
  ghost predicate TablesCopied(dirs: map<nat, nat>, dirs': map<nat, nat>, from: nat, to: nat, i: nat) {
    && (forall d: nat :: d in dirs' <==> d in dirs || (to <= d < to + i && Back(d, from, to) in dirs))
    && forall d :: d in dirs ==> d in dirs' && dirs'[d] == dirs[d]
  }

  lemma NoTablesCopied(dirs: map<nat, nat>, from: nat, to: nat)
    ensures TablesCopied(dirs, dirs, from, to, 0)
  {
  }

  lemma TablesAhead(dirs: map<nat, nat>, dirs': map<nat, nat>, from: nat, to: nat, i: nat, n: nat)
    requires TablesCopied(dirs, dirs', from, to, i) && i < n && (from + n <= to || to + n <= from)
    requires forall d: nat :: to <= d < to + n ==> d !in dirs
    ensures (from + i in dirs' <==> from + i in dirs) && to + i !in dirs'
  {
    var a: nat, b: nat := from + i, to + i;
    assert a in dirs' <==> a in dirs || (to <= a < to + i && Back(a, from, to) in dirs);
    assert b in dirs' <==> b in dirs || (to <= b < to + i && Back(b, from, to) in dirs);
  }

  /** What was copied goes with the rest of the range. */
  lemma TablesUndone(dirs: map<nat, nat>, dirs1: map<nat, nat>, dirs2: map<nat, nat>, from: nat, to: nat, i: nat,
        n: nat)
    requires TablesCopied(dirs, dirs1, from, to, i) && i <= n && forall d: nat :: to <= d < to + n ==> d !in dirs
    requires forall d: nat :: d in dirs2 <==> d in dirs1 && !(to <= d < to + n)
    requires forall d :: d in dirs2 ==> dirs2[d] == dirs1[d]
    ensures dirs2 == dirs
  {
  }

  lemma TablesNext(dirs: map<nat, nat>, dirs1: map<nat, nat>, dirs2: map<nat, nat>, from: nat, to: nat, i: nat)
    requires TablesCopied(dirs, dirs1, from, to, i) && to + i !in dirs1 && (from + i in dirs1 <==> from + i in dirs)
    requires forall d: nat :: d != to + i ==> (d in dirs2 <==> d in dirs1)
    requires forall d :: d in dirs1 ==> d in dirs2 && dirs2[d] == dirs1[d]
    requires to + i in dirs2 <==> from + i in dirs1
    ensures TablesCopied(dirs, dirs2, from, to, i + 1)
  {
    forall d: nat ensures d in dirs2 <==> d in dirs || (to <= d < to + (i + 1) && Back(d, from, to) in dirs) {
      assert d in dirs1 <==> d in dirs || (to <= d < to + i && Back(d, from, to) in dirs);
      if d == to + i {
        assert Back(d, from, to) == from + i;
      } else {
        assert d in dirs2 <==> d in dirs1;
      }
    }
  }

  lemma SlotRange(t: nat)
    ensures forall d: nat {:trigger d in SlotOf(t)} :: d in SlotOf(t) <==> t * SLOT <= d < t * SLOT + SLOT
  {
  }

  lemma SlotTables(dirs: map<nat, nat>, dirs': map<nat, nat>, t: nat, u: nat, n: nat)
    requires n <= SLOT && forall d: nat :: t * SLOT + n <= d < (t + 1) * SLOT ==> d !in dirs
    requires forall d: nat :: u * SLOT <= d < (u + 1) * SLOT ==> d !in dirs
    requires TablesCopied(dirs, dirs', t * SLOT, u * SLOT, n)
    ensures dirs'.Keys == ForkedTables(dirs.Keys, t, u)
  {
    forall d: nat ensures d in dirs' <==> d in ForkedTables(dirs.Keys, t, u) {}
  }

  // ---- what the entries say ----

  /** What an entry says besides its write bit: which frame, and whether the page has been stored into. */
  datatype Mapping = Mapping(frame: nat, dirty: bool)

  function Marks(es: map<Key, Word>): map<Key, Mapping> {
    map k | k in es :: Mapping(Nr(es[k]), es[k].dirty)
  }

  /** The dirty bits. */
  function Dirt(es: map<Key, Word>): map<Key, bool> {
    map k | k in es :: es[k].dirty
  }

  lemma MarksDomain(es: map<Key, Word>, k: Key)
    ensures (k in Marks(es) <==> k in es) && (k in es ==> Marks(es)[k] == Mapping(Nr(es[k]), es[k].dirty))
  {
  }

  lemma MarksFollow(es: map<Key, Word>, k: Key, w: Word)
    ensures Marks(es[k := w]) == Marks(es)[k := Mapping(Nr(w), w.dirty)]
  {
  }

  lemma DirtFollows(es: map<Key, Word>, k: Key, w: Word)
    ensures Dirt(es[k := w]) == Dirt(es)[k := w.dirty] && Dirt(es[k := w]) - {k} == Dirt(es) - {k}
    ensures k in es && es[k].dirty == w.dirty ==> Dirt(es[k := w]) == Dirt(es)
  {
  }

  lemma DirtDomain(es: map<Key, Word>, k: Key)
    ensures (k in Dirt(es) <==> k in es) && (k in es ==> Dirt(es)[k] == es[k].dirty)
  {
  }

  lemma MarksDetermine(es: map<Key, Word>, es': map<Key, Word>)
    requires Marks(es') == Marks(es)
    ensures Frames(es') == Frames(es) && Dirt(es') == Dirt(es)
  {
    assert forall k :: k in es' <==> k in Marks(es');
    assert forall k :: k in es <==> k in Marks(es);
    assert forall k :: k in es ==> Marks(es')[k] == Marks(es)[k];
  }

  lemma DirtCopied(es: map<Key, Word>, es': map<Key, Word>, from: nat, to: nat, i: nat, nr: nat)
    requires IsCopy(Marks(es), Marks(es'), from, to, i, nr)
    ensures IsCopy(Dirt(es), Dirt(es'), from, to, i, nr)
  {
    forall k: Key ensures if Reached(k, to, i, nr) then
        (k in Dirt(es') <==> Source(k, from, to) in Dirt(es))
        && (k in Dirt(es') ==> Dirt(es')[k] == Dirt(es)[Source(k, from, to)])
      else
        (k in Dirt(es') <==> k in Dirt(es)) && (k in Dirt(es') ==> Dirt(es')[k] == Dirt(es)[k])
    {
      MarksDomain(es', k);
      MarksDomain(es, k);
      if Reached(k, to, i, nr) { MarksDomain(es, Source(k, from, to)); }
    }
  }

  lemma DirtWithout(es: map<Key, Word>, from: nat, i: nat, nr: nat)
    ensures Dirt(Without(es, from, i, nr)) == Without(Dirt(es), from, i, nr)
  {
  }

  class Memory {
    const memMap: array<nat>      // mem_map; frames are counted from LOW_MEM
    const pgDir: array<Word>      // the page directory
    const pages: array<Page>      // the frames
    ghost var held: seq<nat>      // references the kernel has to frames by itself

    /** mem_init leaves frames that are the kernel's for good (count USED = 100) or free (count 0); no user pages. */
    constructor (counts: seq<nat>)
      requires forall f :: 0 <= f < |counts| ==> counts[f] == 0 || counts[f] == 100
      ensures fresh(memMap) && fresh(pgDir) && fresh(pages)
      ensures Valid() && View() == map[] && memMap[..] == counts
    {
      memMap := new nat[|counts|](i requires 0 <= i < |counts| => counts[i]);
      pgDir := new Word[DIRS](_ => Zero);
      pages := new Page[|counts|](_ => ZeroPage());
      held := counts;
      new;
      assert memMap[..] == counts;
      BootImage(Img(), counts);
    }

    ghost function Img(): Image
      reads memMap, pgDir, pages
    {
      Image(memMap[..], pgDir[..], pages[..])
    }

    ghost predicate Valid()
      reads this, memMap, pgDir, pages
    {
      Inv(Img(), held)
    }

    /** What the tasks see. */
    ghost function View(): Space
      reads memMap, pgDir, pages
    {
      SpaceOf(Img())
    }

    /** What is mapped where, and what of it has been stored into. */
    ghost function Map(): map<Key, Mapping>
      reads memMap, pgDir, pages
    {
      Marks(Entries(Img()))
    }

    /** The dirty bits. */
    ghost function Stained(): map<Key, bool>
      reads memMap, pgDir, pages
    {
      Dirt(Entries(Img()))
    }

    ghost function Dirs(): map<nat, nat>
      reads pgDir
    {
      Tables(pgDir[..])
    }

    /** The last free frame, cleared and counted once. */
    method GetFreePage() returns (ok: bool, f: nat)
      requires Valid()
      modifies this`held, memMap, pages
      ensures Valid() && View() == old(View()) && Entries(Img()) == old(Entries(Img()))
      ensures ok <==> exists g :: 0 <= g < memMap.Length && old(memMap[g]) == 0
      ensures ok ==> f < memMap.Length && old(memMap[f]) == 0
      ensures ok ==> forall g :: f < g < memMap.Length ==> old(memMap[g]) != 0
      ensures ok ==> Img() == Allocated(old(Img()), f) && old(held)[f] == 0 && held == old(held)[f := 1]
      ensures !ok ==> Img() == old(Img()) && held == old(held)
      ensures FreeCount(old(memMap[..])) == if ok then FreeCount(memMap[..]) + 1 else 0
    {
      hide Good, Layout, Picture, Entry, Entries, SpaceOf, FreeCount;
      f := memMap.Length;
      while f > 0 && memMap[f - 1] != 0
        invariant 0 <= f <= memMap.Length
        invariant forall g :: f <= g < memMap.Length ==> memMap[g] != 0
      {
        f := f - 1;
      }
      if f == 0 {
        NoneFree(memMap[..]);
        return false, 0;
      }
      f := f - 1;
      ok := true;
      ghost var was := Img();
      assert |memMap[..]| == |pages[..]| by { LayoutSizes(was, held); }
      AllocateFrame(was, held, f);
      CountSet(memMap[..], f, 1);
      memMap[f] := 1;
      pages[f] := ZeroPage();
      held := held[f := 1];
      assert Img() == Allocated(was, f);
    }

    /** free_page: one reference less.  The panics on frames out of range or already free are the preconditions. */
    method FreePage(page: nat)
      requires page >= LOW ==> page - LOW < memMap.Length && memMap[page - LOW] > 0
      modifies memMap
      ensures memMap[..] == if page < LOW then old(memMap[..])
              else old(memMap[..])[page - LOW := old(memMap[page - LOW]) - 1]
    {
      if page >= LOW {
        memMap[page - LOW] := memMap[page - LOW] - 1;
      }
    }

    /** One turn of free_page_tables' inner loop. */
    method FreeEntry(d: nat, nr: nat)
      requires Valid() && (d, nr) in AllKeys && HasTable(Img(), d)
      modifies memMap, pages
      ensures Valid() && Entries(Img()) == old(Entries(Img())) - {(d, nr)} && View() == old(View()) - {(d, nr)}
    {
      hide Good, Layout, Picture, Entries, SpaceOf;
      ghost var m, k := Img(), (d, nr);
      EntryFacts(m, held, k);
      var t := Nr(pgDir[d]);
      var w := pages[t][nr];
      assert w == Entry(m, k);
      if w.present {
        MappedFacts(m, held, k);
        MappedCount(m, held, k);
        UnmapPage(m, held, k);
        FreePage(w.page);
        pages[t] := pages[t][nr := Zero];
        assert Img() == Unmapped(m, k);
      } else {
        ClearAbsent(m, held, k);
        pages[t] := pages[t][nr := Zero];
        assert Img() == SetEntry(m, k, Zero);
        RemoveAbsent(Entries(m), k);
        AbsentView(m, k);
        RemoveAbsent(SpaceOf(m), k);
      }
    }

    /** free_page_tables' inner loop. */
    method FreeEntries(from: nat, i: nat, ghost es: map<Key, Word>, ghost sp: Space)
      requires Valid() && SLOT <= from + i < DIRS && HasTable(Img(), from + i)
      requires Entries(Img()) == Without(es, from, i, 0) && View() == Without(sp, from, i, 0)
      requires (forall k :: k in es ==> k.1 < ENTRIES) && (forall k :: k in sp ==> k.1 < ENTRIES)
      modifies memMap, pages
      ensures Valid() && Entries(Img()) == Without(es, from, i + 1, 0) && View() == Without(sp, from, i + 1, 0)
    {
      hide Good, Layout, Picture, Entry, Entries, SpaceOf, SpaceIn, Without;
      for nr := 0 to ENTRIES
        invariant Valid() && Entries(Img()) == Without(es, from, i, nr) && View() == Without(sp, from, i, nr)
      {
        WithoutStep(es, from, i, nr);
        WithoutStep(sp, from, i, nr);
        assert (from + i, nr) in AllKeys by { KeysExact(); }
        FreeEntry(from + i, nr);
      }
      WithoutRow(es, from, i);
      WithoutRow(sp, from, i);
    }

    /** free_page on an emptied page table, and `*dir = 0`. */
    method FreeTable(d: nat)
      requires Valid() && HasTable(Img(), d) && forall k :: k in Entries(Img()) ==> k.0 != d
      modifies memMap, pgDir
      ensures Valid() && Entries(Img()) == old(Entries(Img())) && View() == old(View())
      ensures pgDir[..] == old(pgDir[..])[d := Zero] && Dirs() == old(Dirs()) - {d}
    {
      hide Good, Layout, Picture, Entry, Entries, SpaceOf;
      ghost var m := Img();
      LayoutSizes(m, held);
      TableFacts(m, held, d);
      TableManaged(m, held, d);
      DropPageTable(m, held, d);
      FreePage(pgDir[d].page);
      pgDir[d] := Zero;
      assert Img() == TableDropped(m, d);
    }

    /** free_page_tables over `n` directory entries: every page there goes, and with it one reference to its frame;
      * nothing else changes. */
    method FreePageTables(from: nat, n: nat)
      requires Valid() && SLOT <= from && from + n <= DIRS
      modifies memMap, pgDir, pages
      ensures Valid()
      ensures View() == Without(old(View()), from, n, 0) && Entries(Img()) == Without(old(Entries(Img())), from, n, 0)
      ensures Stained() == Without(old(Stained()), from, n, 0)
      ensures forall d: nat :: d in Dirs() <==> d in old(Dirs()) && !(from <= d < from + n)
      ensures forall d :: d in Dirs() ==> Dirs()[d] == old(Dirs())[d]
    {
      hide Good, Layout, Picture, Entry, Entries, SpaceOf, SpaceIn, Without, Dirt;
      ghost var es, sp := Entries(Img()), View();
      EntriesBounded(Img(), held);
      WithoutStart(es, from);
      WithoutStart(sp, from);
      var i := 0;
      while i < n
        invariant 0 <= i <= n && Valid()
        invariant Entries(Img()) == Without(es, from, i, 0) && View() == Without(sp, from, i, 0)
        invariant forall d: nat :: d in Dirs() <==> d in old(Dirs()) && !(from <= d < from + i)
        invariant forall d :: d in Dirs() ==> Dirs()[d] == old(Dirs())[d]
      {
        LayoutSizes(Img(), held);
        if pgDir[from + i].present {
          assert from + i in Dirs();
          FreeEntries(from, i, es, sp);
          RowGone(es, from, i);
          FreeTable(from + i);
        } else {
          NoTableNoEntries(Img(), held, from + i);
          RowStays(es, from, i);
          RowStays(sp, from, i);
        }
        i := i + 1;
      }
      DirtWithout(es, from, n, 0);
    }

    /** One turn of copy_page_tables' inner loop: a present page is write-protected and shared. */
    method CopyEntry(from: nat, to: nat, nr: nat)
      requires Valid() && (from, nr) in AllKeys && (to, nr) in AllKeys && HasTable(Img(), from) && HasTable(Img(), to)
      requires Fellows((from, nr), (to, nr)) && (to, nr) !in Entries(Img())
      modifies memMap, pages
      ensures Valid()
      ensures if (from, nr) in old(View())
              then View() == old(View())[(to, nr) := old(View())[(from, nr)]] && (from, nr) in old(Map())
                   && Map() == old(Map())[(to, nr) := old(Map())[(from, nr)]]
              else View() == old(View()) && Map() == old(Map()) && (from, nr) !in old(Map())
      ensures FreeCount(memMap[..]) == FreeCount(old(memMap[..]))
    {
      hide Good, Layout, Picture, Entries, Frames, Marks, SpaceOf, Fellows, FreeCount;
      ghost var m, k, k' := Img(), (from, nr), (to, nr);
      EntryFacts(m, held, k);
      EntryFacts(m, held, k');
      MarksDomain(Entries(m), k);
      EntriesBounded(m, held);
      var thisPage := pages[Nr(pgDir[from])][nr];
      assert thisPage == Entry(m, k);
      if !thisPage.present {
        return;
      }
      MappedFacts(m, held, k);
      MappedCount(m, held, k);
      SharePage(m, held, k, k');
      SharedMap(m, k, k');
      thisPage := ReadOnly(thisPage);
      var t, t' := Nr(pgDir[from]), Nr(pgDir[to]);
      pages[t'] := pages[t'][nr := thisPage];
      assert Image(memMap[..], pgDir[..], pages[..]) == SetEntry(m, k', thisPage);
      if thisPage.page >= LOW {
        StoreInBounds(m, held, k, k', thisPage);
        pages[t] := pages[t][nr := thisPage];
        assert Image(memMap[..], pgDir[..], pages[..]) == SetEntry(SetEntry(m, k', thisPage), k, thisPage);
        CountSet(memMap[..], thisPage.page - LOW, (memMap[thisPage.page - LOW] + 1) % 256);
        memMap[thisPage.page - LOW] := (memMap[thisPage.page - LOW] + 1) % 256;
      }
      assert Img() == Shared(m, k, k');
    }

    /** get_free_page for a page table, and its store in the directory. */
    method NewTable(d: nat) returns (ok: bool)
      requires Valid() && SLOT <= d < DIRS && !HasTable(Img(), d)
      modifies this`held, memMap, pgDir, pages
      ensures Valid() && View() == old(View()) && Entries(Img()) == old(Entries(Img())) && held == old(held)
      ensures ok ==> HasTable(Img(), d) && Dirs().Keys == old(Dirs()).Keys + {d}
      ensures ok ==> forall d' :: d' in old(Dirs()) ==> Dirs()[d'] == old(Dirs())[d']
      ensures memMap.Length == pages.Length
      ensures forall g :: 0 <= g < memMap.Length && old(memMap[g]) != 0 ==> pages[g] == old(pages[g])
      ensures !ok ==> Img() == old(Img()) && forall g :: 0 <= g < memMap.Length ==> memMap[g] != 0
      ensures FreeCount(old(memMap[..])) == if ok then FreeCount(memMap[..]) + 1 else 0
    {
      hide Good, Layout, Picture, Entry, Entries, SpaceOf, FreeCount;
      LayoutSizes(Img(), held);
      var f;
      ok, f := GetFreePage();
      if !ok {
        return;
      }
      AddPageTable(Img(), held, d, f);
      assert d !in old(Dirs());
      ghost var m := Img();
      pgDir[d] := Entry7(f);
      assert Img() == SetDir(m, d, Entry7(f));
      assert held[f := 0] == old(held);
      held := held[f := 0];
    }

    /** copy_page_tables' inner loop. */
    method CopyEntries(from: nat, to: nat, i: nat, ghost sp: Space, ghost fm: map<Key, Mapping>)
      requires Valid() && SLOT <= from + i < DIRS && SLOT <= to + i < DIRS && HasTable(Img(), from + i)
               && HasTable(Img(), to + i)
      requires from % SLOT == to % SLOT && !(to <= from + i <= to + i)
      requires IsCopy(sp, View(), from, to, i, 0) && IsCopy(fm, Map(), from, to, i, 0)
      requires forall k :: k in sp ==> k.0 != to + i && k.1 < ENTRIES
      requires forall k :: k in fm ==> k.0 != to + i && k.1 < ENTRIES
      modifies memMap, pages
      ensures Valid() && IsCopy(sp, View(), from, to, i + 1, 0) && IsCopy(fm, Map(), from, to, i + 1, 0)
      ensures FreeCount(memMap[..]) == FreeCount(old(memMap[..]))
    {
      hide Good, Layout, Picture, Entry, Entries, Marks, SpaceOf, SpaceIn, IsCopy, Fellows, Reached, FreeCount;
      for nr := 0 to ENTRIES
        invariant Valid() && IsCopy(sp, View(), from, to, i, nr) && IsCopy(fm, Map(), from, to, i, nr)
        invariant FreeCount(memMap[..]) == FreeCount(old(memMap[..]))
      {
        ShareTurn(Img(), held, sp, fm, from, to, i, nr);
        ghost var sp1, fm1 := View(), Map();
        CopyEntry(from + i, to + i, nr);
        CopyTurn(sp, sp1, View(), from, to, i, nr);
        CopyTurn(fm, fm1, Map(), from, to, i, nr);
      }
      CopyRow(sp, View(), from, to, i);
      CopyRow(fm, Map(), from, to, i);
    }

    /** One turn of copy_page_tables' outer loop: the pages of one directory entry. */
    method CopyDirEntry(from: nat, to: nat, i: nat, ghost sp: Space, ghost fm: map<Key, Mapping>) returns (ok: bool)
      requires Valid() && SLOT <= from + i < DIRS && SLOT <= to + i < DIRS
      requires from % SLOT == to % SLOT && !(to <= from + i <= to + i) && to + i !in Dirs()
      requires IsCopy(sp, View(), from, to, i, 0) && IsCopy(fm, Map(), from, to, i, 0)
      requires forall k :: k in sp ==> k.0 != to + i && k.1 < ENTRIES && (k.0 == from + i ==> from + i in Dirs())
      requires forall k :: k in fm ==> k.0 != to + i && k.1 < ENTRIES && (k.0 == from + i ==> from + i in Dirs())
      modifies this`held, memMap, pgDir, pages
      ensures Valid() && held == old(held)
      ensures ok ==> IsCopy(sp, View(), from, to, i + 1, 0) && IsCopy(fm, Map(), from, to, i + 1, 0)
      ensures forall d: nat :: d != to + i ==> (d in Dirs() <==> d in old(Dirs()))
      ensures forall d :: d in old(Dirs()) ==> d in Dirs() && Dirs()[d] == old(Dirs())[d]
      ensures ok ==> FreeCount(old(memMap[..])) == FreeCount(memMap[..]) + if from + i in old(Dirs()) then 1 else 0
      ensures !ok ==> Img() == old(Img()) && FreeCount(memMap[..]) == 0 && from + i in Dirs()
      ensures ok ==> (to + i in Dirs() <==> from + i in old(Dirs()))
    {
      hide Good, Layout, Picture, Entry, Entries, Marks, SpaceOf, SpaceIn, IsCopy, Fellows, Reached, FreeCount;
      LayoutSizes(Img(), held);
      ok := true;
      if !pgDir[from + i].present {
        assert from + i !in Dirs();
        CopyEmptyRow(sp, View(), from, to, i);
        CopyEmptyRow(fm, Map(), from, to, i);
      } else {
        assert from + i in Dirs();
        ok := NewTable(to + i);
        if ok {
          assert from + i in Dirs();
          CopyEntries(from, to, i, sp, fm);
        }
      }
    }

    /** copy_page_tables: `done` directory entries are shared when it returns, all `n` unless memory ran out; each that
      * has a page table takes one frame. */
    method CopyPageTables(from: nat, to: nat, n: nat) returns (ok: bool, ghost done: nat)
      requires Valid() && SLOT <= from && from + n <= DIRS && SLOT <= to && to + n <= DIRS
      requires from % SLOT == to % SLOT && (from + n <= to || to + n <= from)
      requires forall d: nat :: to <= d < to + n ==> d !in Dirs()
      modifies this`held, memMap, pgDir, pages
      ensures Valid() && held == old(held) && done <= n && (ok <==> done == n)
      ensures IsCopy(old(View()), View(), from, to, done, 0) && IsCopy(old(Map()), Map(), from, to, done, 0)
      ensures TablesCopied(old(Dirs()), Dirs(), from, to, done)
      ensures FreeCount(old(memMap[..])) == FreeCount(memMap[..]) + TableCount(old(Dirs()), from, done)
      ensures !ok ==> FreeCount(memMap[..]) == 0 && from + done in old(Dirs())
    {
      hide Good, Layout, Picture, Entry, Entries, Marks, SpaceOf, SpaceIn, IsCopy, Fellows, Reached, FreeCount, Tables;
      hide TablesCopied;
      NoTablesCopied(Dirs(), from, to);
      ghost var sp, fm := View(), Map();
      ViewBounded(Img(), held);
      CopyNothing(sp, from, to);
      CopyNothing(fm, from, to);
      done := 0;
      var i := 0;
      while i < n
        invariant 0 <= i <= n && done == i && Valid() && held == old(held)
        invariant IsCopy(sp, View(), from, to, i, 0) && IsCopy(fm, Map(), from, to, i, 0)
        invariant TablesCopied(old(Dirs()), Dirs(), from, to, i)
        invariant FreeCount(old(memMap[..])) == FreeCount(memMap[..]) + TableCount(old(Dirs()), from, i)
      {
        ghost var dirs := Dirs();
        RowEmpty(sp, fm, old(Dirs()), to + i);
        RowBacked(sp, fm, old(Dirs()), from + i);
        TablesAhead(old(Dirs()), dirs, from, to, i, n);
        ok := CopyDirEntry(from, to, i, sp, fm);
        if !ok {
          return;
        }
        TablesNext(old(Dirs()), dirs, Dirs(), from, to, i);
        i := i + 1;
        done := i;
      }
      ok := true;
    }

    /** copy_mem up to a data limit of `n` directory entries, above which the task has no pages: fork, or, when memory
      * runs out midway, nothing at all - every count and every table is as before.  It succeeds exactly if there is a
      * free frame for each page table.  The parent's pages keep their dirty bits and the child's pages have the same
      * ones. */
    method CopyMem(t: nat, u: nat, n: nat) returns (ok: bool)
      requires Valid() && 1 <= t < TASKS && 1 <= u < TASKS && t != u
      requires n <= SLOT && forall d: nat :: t * SLOT + n <= d < (t + 1) * SLOT ==> d !in Dirs()
      requires forall d: nat :: u * SLOT <= d < (u + 1) * SLOT ==> d !in Dirs()
      modifies this`held, memMap, pgDir, pages
      ensures Valid() && held == old(held)
      ensures ok ==> View() == Forked(old(View()), t, u) && Dirs().Keys == ForkedTables(old(Dirs()).Keys, t, u)
      ensures ok ==> IsCopy(old(Map()), Map(), t * SLOT, u * SLOT, SLOT, 0)
      ensures if ok then IsCopy(old(Stained()), Stained(), t * SLOT, u * SLOT, SLOT, 0) else Stained() == old(Stained())
      ensures !ok ==> View() == old(View()) && Map() == old(Map())
      ensures !ok ==> Dirs() == old(Dirs()) && memMap[..] == old(memMap[..])
      ensures ok <==> FreeCount(old(memMap[..])) >= TableCount(old(Dirs()), t * SLOT, n)
    {
      hide Good, Layout, Picture, Entry, Entries, Marks, Dirt, SpaceOf, SpaceIn, IsCopy, Forked, Without, Tables,
        FreeCount, ForkedTables, TableCount, Reached, TablesCopied, Frames;
      ghost var m := Img();
      ghost var done;
      ViewBounded(m, held);
      SlotEmpty(View(), Map(), Dirs(), u);
      NoneAbove(View(), Map(), Dirs(), t, u, n);
      ok, done := CopyPageTables(t * SLOT, u * SLOT, n);
      if ok {
        SlotTables(Tables(m.dir), Dirs(), t, u, n);
        CopyEmptyRows(SpaceOf(m), View(), t * SLOT, u * SLOT, n, SLOT);
        CopyEmptyRows(Marks(Entries(m)), Map(), t * SLOT, u * SLOT, n, SLOT);
        DirtCopied(Entries(m), Entries(Img()), t * SLOT, u * SLOT, SLOT, 0);
        CopyIsFork(SpaceOf(m), View(), t, u);
      } else {
        ghost var m1 := Img();
        TableCountGrows(Tables(m.dir), t * SLOT, done, n);
        FreePageTables(u * SLOT, n);
        CopyUndone(SpaceOf(m), SpaceOf(m1), t * SLOT, u * SLOT, done, 0, n);
        CopyUndone(Marks(Entries(m)), Marks(Entries(m1)), t * SLOT, u * SLOT, done, 0, n);
        MarksWithout(Entries(m1), u * SLOT, n, 0);
        MarksDetermine(Entries(m), Entries(Img()));
        TablesUndone(Tables(m.dir), Tables(m1.dir), Dirs(), t * SLOT, u * SLOT, done, n);
        SameCounts(m, Img(), held);
      }
    }

    /** un_wp_page: the sole user of a frame may write it; any other user gets a copy to itself.  No other page's dirty
      * bit changes. */
    method UnWpPage(k: Key) returns (ok: bool)
      requires Valid() && k in Entries(Img())
      modifies this`held, memMap, pages
      ensures Valid() && View() == old(View()) && held == old(held)
      ensures ok ==> k in Entries(Img()) && Entry(Img(), k).writable && Stained() - {k} == old(Stained()) - {k}
      ensures !ok ==> Img() == old(Img()) && FreeCount(old(memMap[..])) == 0
      ensures ok <==> old(CountOf(Img(), Nr(Entry(Img(), k)))) == 1 || FreeCount(old(memMap[..])) > 0
    {
      hide Good, Layout, Picture, Entries, SpaceOf, SpaceIn, Frames, Writable, Dirt, FreeCount;
      ghost var m := Img();
      MappedFacts(m, held, k);
      MappedCount(m, held, k);
      LayoutSizes(m, held);
      KeyFacts(m, k);
      EntryFacts(m, held, k);
      var t := Nr(pgDir[k.0]);
      var oldPage := Nr(pages[t][k.1]);
      if memMap[oldPage] == 1 {
        UnprotectPage(m, held, k);
        pages[t] := pages[t][k.1 := pages[t][k.1].(writable := true)];
        assert Img() == Unprotected(m, k);
        UnprotectedWritable(m, k);
        DirtFollows(Entries(m), k, Entry(m, k).(writable := true));
        return true;
      }
      var newPage;
      ok, newPage := GetFreePage();
      if !ok {
        return;
      }
      ghost var m1 := Img();
      assert Entry(m1, k) == Entry(m, k) by { EntryFacts(m1, held, k); }
      SplitPage(m1, held, k, newPage);
      memMap[oldPage] := memMap[oldPage] - 1;
      pages[t] := pages[t][k.1 := Entry7(newPage)];
      pages[newPage] := pages[oldPage];
      held := held[newPage := 0];
      assert held == old(held);
      assert Img() == Split(m1, k, newPage);
      DirtFollows(Entries(m1), k, Entry7(newPage));
    }

    /** put_page: maps a frame the caller just got where nothing is mapped; fails when there is no room for a table. */
    method PutPage(f: nat, k: Key) returns (ok: bool)
      requires Valid() && f < memMap.Length && f < |held| && held[f] == 1 && k in AllKeys && k !in Entries(Img())
      modifies this`held, memMap, pgDir, pages
      ensures Valid()
      ensures ok ==> held == old(held)[f := 0]
      ensures ok ==> View() == old(View())[k := old(pages[f])] && Entries(Img()) == old(Entries(Img()))[k := Entry7(f)]
      ensures !ok ==> Img() == old(Img()) && held == old(held)
      ensures ok <==> HasTable(old(Img()), k.0) || FreeCount(old(memMap[..])) > 0
      ensures ok ==> Dirs().Keys == old(Dirs()).Keys + {k.0}
    {
      hide Good, Layout, Picture, Entry, Entries, SpaceOf, SpaceIn, FreeCount;
      assert k.1 < ENTRIES && SLOT <= k.0 < DIRS by { KeysExact(); }
      LayoutSizes(Img(), held);
      HeldCounted(Img(), held, f);
      ok := true;
      TablesAt(pgDir[..], k.0);
      if !pgDir[k.0].present {
        ok := NewTable(k.0);
        if !ok {
          return;
        }
      }
      ghost var m := Img();
      LayoutSizes(m, held);
      EntryFacts(m, held, k);
      InstallPage(m, held, k, f);
      var t := Nr(pgDir[k.0]);
      pages[t] := pages[t][k.1 := Entry7(f)];
      held := held[f := 0];
      assert Img() == SetEntry(m, k, Entry7(f));
    }

    /** get_empty_page, which do_no_page falls back on: a fresh zero page. */
    method GetEmptyPage(k: Key) returns (ok: bool)
      requires Valid() && k in AllKeys && k !in Entries(Img())
      modifies this`held, memMap, pgDir, pages
      ensures Valid() && held == old(held)
      ensures ok ==> View() == old(View())[k := ZeroPage()] && k in Entries(Img()) && Entry(Img(), k).writable
      ensures Stained() == if ok then old(Stained())[k := false] else old(Stained())
      ensures !ok ==> View() == old(View()) && Entries(Img()) == old(Entries(Img())) && Dirs() == old(Dirs())
      ensures ok <==> FreeCount(old(memMap[..])) >= if HasTable(old(Img()), k.0) then 1 else 2
      ensures Dirs().Keys == old(Dirs()).Keys + if ok then {k.0} else {}
    {
      hide Good, Layout, Picture, Entry, Entries, SpaceOf, SpaceIn, FreeCount, Dirt;
      var f;
      ok, f := GetFreePage();
      if !ok {
        return;
      }
      DirtFollows(Entries(Img()), k, Entry7(f));
      LayoutSizes(Img(), held);
      ok := PutPage(f, k);
      if !ok {
        ReleaseFrame(Img(), held, f);
        ghost var m := Img();
        FreePage(LOW + f);
        held := held[f := 0];
        assert Img() == Freed(m, f);
      } else {
        assert Entries(Img())[k].writable;
        EntryAt(Img(), k);
      }
    }

    /** The MMU sets the dirty bit of the entry it stores through. */
    method MarkDirty(k: Key)
      requires Valid() && k in Entries(Img())
      modifies pages
      ensures Valid() && View() == old(View()) && k in Entries(Img())
              && Entry(Img(), k).writable == old(Entry(Img(), k).writable) && Entry(Img(), k).dirty
      ensures Stained() == old(Stained())[k := true]
    {
      hide Good, Layout, Picture, Entries, SpaceOf, SpaceIn, Frames, Writable, Dirt;
      ghost var m := Img();
      LayoutSizes(m, held);
      MappedFacts(m, held, k);
      KeyFacts(m, k);
      EntryFacts(m, held, k);
      DirtyPage(m, held, k);
      var t := Nr(pgDir[k.0]);
      pages[t] := pages[t][k.1 := pages[t][k.1].(dirty := true)];
      assert Img() == SetEntry(m, k, Entry(m, k).(dirty := true));
      DirtFollows(Entries(m), k, Entry(m, k).(dirty := true));
    }

    /** The page fault of a user-mode store: the page is absent (do_no_page, on memory that is not part of an
      * executable) or not writable (do_wp_page).  Fails exactly when there are fewer frames free than it takes; after
      * it the MMU lets the store through. */
    method Fault(k: Key) returns (ok: bool)
      requires Valid() && k in AllKeys
      modifies this`held, memMap, pgDir, pages
      ensures Valid() && held == old(held)
      ensures ok ==> View() == Backed(old(View()), k) && k in Entries(Img()) && MayStore(Img(), k)
      ensures ok ==> Stained() - {k} == old(Stained()) - {k}
      ensures !ok ==> View() == old(View()) && Stained() == old(Stained())
      ensures ok <==> FreeCount(old(memMap[..])) >= FramesFor(old(Img()), k)
      ensures Dirs().Keys == old(Dirs()).Keys + if ok then {k.0} else {}
    {
      hide Good, Layout, Picture, SpaceOf, SpaceIn, Frames, Writable, FreeCount, Tables, Dirt;
      ghost var m := Img();
      EntriesBounded(m, held);
      KeyInMem(m, held, k);
      TablesAt(pgDir[..], k.0);
      assert (Dirt(Entries(m))[k := false]) - {k} == Dirt(Entries(m)) - {k};
      ok := true;
      if !pgDir[k.0].present || !pages[Nr(pgDir[k.0])][k.1].present {
        ok := GetEmptyPage(k);
      } else if !pages[Nr(pgDir[k.0])][k.1].writable {
        ok := UnWpPage(k);
      }
      if ok { LetsThrough(Img(), held, k); }
    }

    /** A user-mode store, with the page fault it may cause first.  The page has its dirty bit set then, and all others
      * keep theirs. */
    method UserStore(k: Key, o: nat, v: Word) returns (ok: bool)
      requires Valid() && k in AllKeys && o < ENTRIES
      modifies this`held, memMap, pgDir, pages
      ensures Valid() && held == old(held)
      ensures View() == if ok then Written(old(View()), k, o, v) else old(View())
      ensures ok ==> k in Entries(Img()) && Entry(Img(), k).dirty
      ensures Stained() == if ok then old(Stained())[k := true] else old(Stained())
      ensures ok <==> FreeCount(old(memMap[..])) >= FramesFor(old(Img()), k)
      ensures Dirs().Keys == old(Dirs()).Keys + if ok then {k.0} else {}
    {
      hide Good, Layout, Picture, SpaceOf, SpaceIn, Frames, Writable, FreeCount, Tables, Entries, FramesFor, Dirt;
      ok := Fault(k);
      if !ok {
        return;
      }
      ghost var mid, stained := View(), Stained();
      MarkDirty(k);
      LetsThrough(Img(), held, k);
      StoreThrough(k, o, v);
      SameBut(stained, old(Stained()), k);
      DirtDomain(Entries(Img()), k);
      EntryAt(Img(), k);
      StoreIsWrite(old(View()), mid, k, o, v);
    }

    /** The store itself, which the MMU lets through. */
    method StoreThrough(k: Key, o: nat, v: Word)
      requires Valid() && k in Entries(Img()) && MayStore(Img(), k) && o < ENTRIES
      modifies pages
      ensures Valid() && k in old(View()) && |old(View())[k]| == ENTRIES && Entries(Img()) == old(Entries(Img()))
      ensures View() == old(View())[k := old(View())[k][o := v]]
    {
      hide Good, Layout, Picture, Entries, SpaceOf, SpaceIn, Frames, Writable;
      ghost var m := Img();
      LayoutSizes(m, held);
      MappedFacts(m, held, k);
      KeyFacts(m, k);
      EntryFacts(m, held, k);
      var f := Nr(pages[Nr(pgDir[k.0])][k.1]);
      FrameSized(m, held, f);
      StoreWord(m, held, k, pages[f][o := v]);
      pages[f] := pages[f][o := v];
      assert Img() == SetFrame(m, f, m.mem[f][o := v]);
    }

    /** A user-mode load finds what the task is meant to see; an absent page faults and then reads as zero. */
    method UserLoad(k: Key, o: nat) returns (v: Word)
      requires Valid() && k in AllKeys && o < ENTRIES
      ensures o < |PageAt(View(), k)| && v == PageAt(View(), k)[o]
    {
      hide Good, Layout, Picture, SpaceOf, SpaceIn, Frames, Writable;
      ghost var m := Img();
      EntriesBounded(m, held);
      KeyInMem(m, held, k);
      LayoutSizes(m, held);
      if !pgDir[k.0].present || !pages[Nr(pgDir[k.0])][k.1].present {
        return Zero;
      }
      MappedFacts(m, held, k);
      var f := Nr(pages[Nr(pgDir[k.0])][k.1]);
      FrameSized(m, held, f);
      v := pages[f][o];
    }

    /** try_to_share: maps `p`'s clean page at the same place, write-protected in both tasks. */
    method TryToShare(from: Key, to: Key) returns (oc: Outcome)
      requires Valid() && from in AllKeys && to in AllKeys && Fellows(from, to) && to !in Entries(Img())
      modifies this`held, memMap, pgDir, pages
      ensures Valid() && held == old(held)
      ensures oc.Done? ==> from in old(View()) && View() == old(View())[to := old(View())[from]]
      ensures !oc.Done? ==> View() == old(View())
      ensures Stained() == if oc.Done? then old(Stained())[to := false] else old(Stained())
      ensures oc.Refused? <==> from !in old(Entries(Img())) || old(Entry(Img(), from)).dirty
      ensures oc.OutOfMemory? <==> !oc.Refused? && !HasTable(old(Img()), to.0) && FreeCount(old(memMap[..])) == 0
      ensures Dirs().Keys == old(Dirs()).Keys + if oc.Done? then {to.0} else {}
    {
      hide Good, Layout, Picture, SpaceOf, SpaceIn, Frames, Writable, Fellows, FreeCount, Dirt;
      ghost var m := Img();
      KeyInMem(m, held, from);
      KeyInMem(m, held, to);
      LayoutSizes(m, held);
      if !pgDir[from.0].present {
        return Refused;
      }
      var w := pages[Nr(pgDir[from.0])][from.1];
      if !w.present || w.dirty {
        return Refused;
      }
      MappedFacts(m, held, from);
      TablesAt(pgDir[..], to.0);
      if !pgDir[to.0].present {
        var ok := NewTable(to.0);
        if !ok {
          return OutOfMemory;
        }
      }
      EntryFacts(Img(), held, to);
      ShareWith(from, to);
      oc := Done;
    }

    /** The stores of try_to_share. */
    method ShareWith(from: Key, to: Key)
      requires Valid() && from in Entries(Img()) && to in AllKeys && Fellows(from, to)
      requires HasTable(Img(), to.0) && to !in Entries(Img())
      modifies memMap, pages
      ensures Valid() && from in old(View()) && View() == old(View())[to := old(View())[from]]
      ensures Stained() == old(Stained())[to := old(Entry(Img(), from)).dirty]
    {
      hide Good, Layout, Picture, Entries, Frames, SpaceOf, Fellows, Dirt;
      ghost var m := Img();
      KeyFacts(m, from);
      MappedFacts(m, held, from);
      EntryFacts(m, held, from);
      EntryFacts(m, held, to);
      MappedCount(m, held, from);
      SharePage(m, held, from, to);
      var t, t' := Nr(pgDir[from.0]), Nr(pgDir[to.0]);
      var w := ReadOnly(pages[t][from.1]);
      ShareCommutes(m, held, from, to, w);
      pages[t] := pages[t][from.1 := w];
      assert Image(memMap[..], pgDir[..], pages[..]) == SetEntry(m, from, w);
      pages[t'] := pages[t'][to.1 := pages[t][from.1]];
      assert Image(memMap[..], pgDir[..], pages[..]) == SetEntry(SetEntry(m, from, w), to, w);
      memMap[w.page - LOW] := (memMap[w.page - LOW] + 1) % 256;
      assert Img() == Shared(m, from, to);
      DirtFollows(Entries(m), to, w);
      DirtFollows(Entries(m)[to := w], from, w);
    }
  }

  lemma {:induction false} CountSet(c: seq<nat>, i: nat, v: nat)
    requires i < |c|
    ensures FreeCount(c[i := v]) + (if c[i] == 0 then 1 else 0) == FreeCount(c) + (if v == 0 then 1 else 0)
  {
    if i > 0 {
      assert c[i := v][1..] == c[1..][i - 1 := v];
      CountSet(c[1..], i - 1, v);
    } else {
      assert c[i := v][1..] == c[1..];
    }
  }

  lemma {:induction false} NoneFree(c: seq<nat>)
    ensures FreeCount(c) == 0 <==> forall g :: 0 <= g < |c| ==> c[g] != 0
  {
    if c != [] {
      NoneFree(c[1..]);
      if FreeCount(c) == 0 {
        forall g | 0 <= g < |c| ensures c[g] != 0 { assert g > 0 ==> c[g] == c[1..][g - 1]; }
      } else if c[0] != 0 {
        var g :| 0 <= g < |c[1..]| && c[1..][g] == 0;
        assert c[g + 1] == 0;
      }
    }
  }

  lemma LayoutSizes(m: Image, held: seq<nat>)
    requires Inv(m, held)
    ensures |held| == |m.mem| == |m.count| && |m.dir| == DIRS
    ensures forall f :: 0 <= f < |m.mem| ==> |m.mem[f]| == ENTRIES
  {
    hide Good;
  }

  lemma BootImage(m: Image, counts: seq<nat>)
    requires |m.dir| == DIRS && (forall d: nat :: d < DIRS ==> m.dir[d] == Zero)
    requires m.count == counts && |m.mem| == |counts| && forall f :: 0 <= f < |counts| ==> |m.mem[f]| == ENTRIES
    ensures Inv(m, counts) && SpaceOf(m) == map[]
  {
    assert Entries(m) == map[];
    var a := Picture(m, counts);
    assert a.frames == map[] && a.tables == map[] && a.writable == {};
    assert forall f: nat :: Users(a, f) == {} && !IsTable(a, f);
  }

  /** Where the entry of `k` is stored. */
  lemma EntryFacts(m: Image, held: seq<nat>, k: Key)
    requires Inv(m, held) && k in AllKeys && HasTable(m, k.0)
    ensures Nr(m.dir[k.0]) < |m.mem| && k.1 < |m.mem[Nr(m.dir[k.0])]| && |m.count| == |m.mem|
    ensures Entry(m, k) == m.mem[Nr(m.dir[k.0])][k.1]
    ensures k in Entries(m) <==> Entry(m, k).present
  {
    hide Good;
    assert k.1 < ENTRIES by { KeysExact(); }
  }

  lemma AbsentView(m: Image, k: Key)
    requires k !in Entries(m)
    ensures k !in SpaceOf(m)
  {
  }

  lemma TableManaged(m: Image, held: seq<nat>, d: nat)
    requires Inv(m, held) && HasTable(m, d)
    ensures Managed(m, m.dir[d])
  {
    hide Good;
  }

  lemma EntriesBounded(m: Image, held: seq<nat>)
    requires Inv(m, held)
    ensures forall k :: k in Entries(m) ==> SLOT <= k.0 < DIRS && k.1 < ENTRIES && HasTable(m, k.0)
    ensures forall k :: k in SpaceOf(m) <==> k in Entries(m)
  {
    hide Good;
    forall k | k in Entries(m) ensures SLOT <= k.0 < DIRS && k.1 < ENTRIES {
      assert k in AllKeys;
      KeysExact();
    }
    forall k | k in Entries(m) ensures k in SpaceOf(m) { MappedFacts(m, held, k); }
  }

  lemma NoTableNoEntries(m: Image, held: seq<nat>, d: nat)
    requires Inv(m, held) && !HasTable(m, d)
    ensures forall k :: k in Entries(m) ==> k.0 != d
    ensures forall k :: k in SpaceOf(m) ==> k.0 != d
  {
    hide Good, Entries, SpaceOf;
    EntriesBounded(m, held);
  }

  lemma RowGone<V>(m: map<Key, V>, from: nat, i: nat)
    requires forall k :: k in m ==> k.1 < ENTRIES
    ensures forall k :: k in Without(m, from, i + 1, 0) ==> k.0 != from + i
  {
  }

  /** A row with no pages left to take needs no taking. */
  lemma RowStays<V>(m: map<Key, V>, from: nat, i: nat)
    requires forall k :: k in Without(m, from, i, 0) ==> k.0 != from + i
    ensures Without(m, from, i + 1, 0) == Without(m, from, i, 0)
  {
    assert forall k :: k in m && k.0 == from + i ==> k in Without(m, from, i, 0);
  }

  /** A share maps the one page more, to the same frame and with the same dirty bit. */
  lemma SharedMap(m: Image, k: Key, to: Key)
    requires k in Entries(m) && Entries(m)[k] == Entry(m, k)
    requires Entries(Shared(m, k, to)) == Entries(m)[to := ReadOnly(Entry(m, k))][k := ReadOnly(Entry(m, k))]
    ensures k in Marks(Entries(m))
    ensures Marks(Entries(Shared(m, k, to))) == Marks(Entries(m))[to := Marks(Entries(m))[k]]
  {
    hide Entry, Entries, Shared, Marks;
    MarksDomain(Entries(m), k);
    var es, w := Entries(m), ReadOnly(Entry(m, k));
    var mark := Mapping(Nr(w), w.dirty);
    MarksFollow(es, to, w);
    MarksFollow(es[to := w], k, w);
    assert Marks(es)[k] == mark;
    assert Marks(es)[to := mark][k := mark] == Marks(es)[to := mark];
  }

  lemma StoreInBounds(m: Image, held: seq<nat>, k: Key, to: Key, w: Word)
    requires Inv(m, held) && k in AllKeys && HasTable(m, k.0)
    ensures var m1 := SetEntry(m, to, w);
      m1.dir == m.dir && Nr(m.dir[k.0]) < |m1.mem| && k.1 < |m1.mem[Nr(m.dir[k.0])]|
  {
    hide Good;
    EntryFacts(m, held, k);
  }

  /** What the tasks see is what is mapped, and both are within the directory. */
  lemma ViewBounded(m: Image, held: seq<nat>)
    requires Inv(m, held)
    ensures SpaceOf(m).Keys == Marks(Entries(m)).Keys == Entries(m).Keys
    ensures forall k :: k in SpaceOf(m) ==> k.1 < ENTRIES && k.0 in Tables(m.dir)
    ensures forall k :: k in Marks(Entries(m)) ==> k.1 < ENTRIES && k.0 in Tables(m.dir)
  {
    hide Good, Entries, SpaceOf;
    EntriesBounded(m, held);
    forall k: Key ensures k in Marks(Entries(m)) <==> k in Entries(m) { MarksDomain(Entries(m), k); }
  }

  lemma CopyNothing<V>(m: map<Key, V>, from: nat, to: nat)
    ensures IsCopy(m, m, from, to, 0, 0)
  {
  }

  lemma RowBacked(sp: Space, fm: map<Key, Mapping>, dirs: map<nat, nat>, d: nat)
    requires forall k :: k in sp ==> k.0 in dirs
    requires forall k :: k in fm ==> k.0 in dirs
    ensures forall k :: k in sp && k.0 == d ==> d in dirs
    ensures forall k :: k in fm && k.0 == d ==> d in dirs
  {
  }

  lemma RowEmpty(sp: Space, fm: map<Key, Mapping>, dirs: map<nat, nat>, d: nat)
    requires forall k :: k in sp ==> k.0 in dirs
    requires forall k :: k in fm ==> k.0 in dirs
    requires d !in dirs
    ensures forall k :: k in sp ==> k.0 != d
    ensures forall k :: k in fm ==> k.0 != d
  {
  }

  lemma PairInRange(from: nat, to: nat, i: nat, nr: nat)
    requires SLOT <= from + i < DIRS && SLOT <= to + i < DIRS && nr < ENTRIES && from % SLOT == to % SLOT
    ensures (from + i, nr) in AllKeys && (to + i, nr) in AllKeys && Fellows((from + i, nr), (to + i, nr))
  {
    hide AllKeys;
    KeysExact();
  }

  /** The page to be shared next has not been touched, and its copy is not there yet. */
  lemma ShareTurn(m: Image, held: seq<nat>, sp: Space, fm: map<Key, Mapping>, from: nat, to: nat, i: nat, nr: nat)
    requires Inv(m, held) && SLOT <= from + i < DIRS && SLOT <= to + i < DIRS && nr < ENTRIES
             && from % SLOT == to % SLOT
    requires IsCopy(sp, SpaceOf(m), from, to, i, nr) && IsCopy(fm, Marks(Entries(m)), from, to, i, nr)
    requires forall k :: k in fm ==> k.0 != to + i
    ensures (from + i, nr) in AllKeys && (to + i, nr) in AllKeys && Fellows((from + i, nr), (to + i, nr))
    ensures (to + i, nr) !in Entries(m)
  {
    hide Inv, Marks, SpaceOf, Entries, Fellows;
    PairInRange(from, to, i, nr);
    MarksDomain(Entries(m), (to + i, nr));
    assert !Reached((to + i, nr), to, i, nr);
  }

  /** What one turn of the inner loop means for the copy as a whole. */
  lemma CopyTurn<V>(m: map<Key, V>, m1: map<Key, V>, m2: map<Key, V>, from: nat, to: nat, i: nat, nr: nat)
    requires IsCopy(m, m1, from, to, i, nr) && (forall k :: k in m ==> k.0 != to + i)
    requires !(to <= from + i <= to + i)
    requires if (from + i, nr) in m1 then m2 == m1[(to + i, nr) := m1[(from + i, nr)]] else m2 == m1
    ensures IsCopy(m, m2, from, to, i, nr + 1)
  {
    assert !Reached((from + i, nr), to, i, nr);
    if (from + i, nr) in m1 {
      CopyTakes(m, m1, from, to, i, nr);
    } else {
      CopySkips(m, m1, from, to, i, nr);
    }
  }

  lemma SlotEmpty(sp: Space, fm: map<Key, Mapping>, dirs: map<nat, nat>, u: nat)
    requires forall k :: k in sp ==> k.0 in dirs
    requires forall k :: k in fm ==> k.0 in dirs
    requires forall d: nat :: u * SLOT <= d < (u + 1) * SLOT ==> d !in dirs
    ensures forall k :: k in sp ==> !Owns(u, k) && !(u * SLOT <= k.0 < u * SLOT + SLOT)
    ensures forall k :: k in fm ==> !Owns(u, k) && !(u * SLOT <= k.0 < u * SLOT + SLOT)
  {
  }

  lemma NoneAbove(sp: Space, fm: map<Key, Mapping>, dirs: map<nat, nat>, t: nat, u: nat, n: nat)
    requires forall k :: k in sp ==> k.0 in dirs
    requires forall k :: k in fm ==> k.0 in dirs
    requires forall d: nat :: t * SLOT + n <= d < (t + 1) * SLOT ==> d !in dirs
    requires forall d: nat :: u * SLOT <= d < (u + 1) * SLOT ==> d !in dirs
    ensures forall k :: k in sp ==> !(t * SLOT + n <= k.0 < t * SLOT + SLOT) && !(u * SLOT + n <= k.0 < u * SLOT + SLOT)
    ensures forall k :: k in fm ==> !(t * SLOT + n <= k.0 < t * SLOT + SLOT) && !(u * SLOT + n <= k.0 < u * SLOT + SLOT)
  {
  }

  lemma MarksWithout(es: map<Key, Word>, from: nat, i: nat, nr: nat)
    ensures Marks(Without(es, from, i, nr)) == Without(Marks(es), from, i, nr)
  {
  }

  /** The same pages in the same frames, and the same tables, have the same counts. */
  lemma SameCounts(m: Image, m': Image, held: seq<nat>)
    requires Inv(m, held) && Inv(m', held)
    requires Frames(Entries(m')) == Frames(Entries(m)) && Tables(m'.dir) == Tables(m.dir)
    ensures m'.count == m.count
  {
    hide Good, Layout, Frames, Tables, Writable;
    CountsDetermined(Picture(m, held), Picture(m', held));
  }

  lemma KeyFacts(m: Image, k: Key)
    requires k in Entries(m)
    ensures k in AllKeys
  {
  }

  lemma UnprotectedWritable(m: Image, k: Key)
    requires k in Entries(m) && Entries(m)[k] == Entry(m, k)
    requires Entries(Unprotected(m, k)) == Entries(m)[k := Entry(m, k).(writable := true)]
    ensures k in Entries(Unprotected(m, k)) && Entry(Unprotected(m, k), k).writable
  {
    hide Entry, Unprotected;
    assert Entries(Unprotected(m, k))[k].writable;
  }

  /** un_wp_page's copy: the old frame is counted once less, the entry maps the new frame, the contents are copied. */
  function Split(m: Image, k: Key, f: nat): Image {
    SetFrame(SetEntry(Freed(m, Nr(Entry(m, k))), k, Entry7(f)), f, FrameAt(m, Nr(Entry(m, k))))
  }

  /** The same in an order that keeps every page accounted for at each step: fill the new frame, unmap, map. */
  lemma SplitSteps(m: Image, k: Key, f: nat)
    requires HasTable(m, k.0) && Nr(m.dir[k.0]) < |m.mem| && k.1 < |m.mem[Nr(m.dir[k.0])]| && f < |m.mem|
    requires Nr(m.dir[k.0]) != f
    ensures Split(m, k, f) == SetEntry(Unmapped(SetFrame(m, f, FrameAt(m, Nr(Entry(m, k)))), k), k, Entry7(f))
  {
    var page := FrameAt(m, Nr(Entry(m, k)));
    var m1 := SetFrame(m, f, page);
    assert Entry(m1, k) == Entry(m, k);
    var t := Nr(m.dir[k.0]);
    var a := SetEntry(Unmapped(m1, k), k, Entry7(f));
    var b := Split(m, k, f);
    assert a.mem[t] == b.mem[t];
    assert a.mem == b.mem;
  }

  lemma SplitPage(m: Image, held: seq<nat>, k: Key, f: nat)
    requires Inv(m, held) && k in Entries(m) && f < |m.mem| && held[f] == 1
    ensures Inv(Split(m, k, f), held[f := 0]) && SpaceOf(Split(m, k, f)) == SpaceOf(m)
    ensures k in Entries(Split(m, k, f)) && Entry(Split(m, k, f), k).writable
    ensures Entries(Split(m, k, f)) == Entries(m)[k := Entry7(f)]
  {
    hide Good, Layout, Picture, Entries, SpaceOf, SpaceIn, Frames, Writable, Unmapped, SetEntry, SetFrame, Split, Entry;
    MappedFacts(m, held, k);
    KeyFacts(m, k);
    EntryFacts(m, held, k);
    HeldFacts(m, held, f);
    var page := FrameAt(m, Nr(Entry(m, k)));
    SplitSteps(m, k, f);
    FrameSized(m, held, Nr(Entry(m, k)));
    FillHeld(m, held, f, page);
    var m1 := SetFrame(m, f, page);
    UnmapPage(m1, held, k);
    var m2 := Unmapped(m1, k);
    SplitTable(m, f, page, k);
    InstallPage(m2, held, k, f);
    var sp := SpaceOf(m);
    assert (sp - {k})[k := sp[k]] == sp;
    assert (Entries(m) - {k})[k := Entry7(f)] == Entries(m)[k := Entry7(f)];
    InstalledEntry(m2, k, f);
  }

  lemma FrameSized(m: Image, held: seq<nat>, f: nat)
    requires Inv(m, held) && f < |m.mem|
    ensures |FrameAt(m, f)| == ENTRIES
  {
    hide Good;
  }

  lemma SplitTable(m: Image, f: nat, page: Page, k: Key)
    requires f < |m.mem| && HasTable(m, k.0) && Nr(Entry(m, k)) != f && Nr(m.dir[k.0]) != f
    ensures var m2 := Unmapped(SetFrame(m, f, page), k);
      && HasTable(m2, k.0) && FrameAt(m2, f) == page && |m2.mem| == |m.mem|
  {
  }

  lemma InstalledEntry(m: Image, k: Key, f: nat)
    requires Entries(SetEntry(m, k, Entry7(f))) == Entries(m)[k := Entry7(f)]
    ensures k in Entries(SetEntry(m, k, Entry7(f))) && Entry(SetEntry(m, k, Entry7(f)), k).writable
  {
    hide SetEntry, Entry;
    assert Entries(SetEntry(m, k, Entry7(f)))[k] == Entry7(f);
  }

  lemma HeldCounted(m: Image, held: seq<nat>, f: nat)
    requires Inv(m, held) && f < |m.mem| && held[f] > 0
    ensures CountOf(m, f) > 0
  {
    hide Separate, Aligned, WritersAlone;
    var a := Picture(m, held);
    assert a.count[f] >= a.held[f];
  }

  lemma EntryAt(m: Image, k: Key)
    requires k in Entries(m)
    ensures Entries(m)[k] == Entry(m, k)
  {
  }

  /** Where the MMU looks for the entry of `k`. */
  lemma KeyInMem(m: Image, held: seq<nat>, k: Key)
    requires Inv(m, held) && k in AllKeys
    ensures SLOT <= k.0 < |m.dir| && k.1 < ENTRIES
    ensures m.dir[k.0].present ==>
              Nr(m.dir[k.0]) < |m.mem| && |m.mem[Nr(m.dir[k.0])]| == ENTRIES
                && Entry(m, k) == m.mem[Nr(m.dir[k.0])][k.1]
    ensures k in Entries(m) <==> m.dir[k.0].present && m.mem[Nr(m.dir[k.0])][k.1].present
  {
    hide Good;
    assert SLOT <= k.0 < DIRS && k.1 < ENTRIES by { KeysExact(); }
  }

  lemma DirtyPage(m: Image, held: seq<nat>, k: Key)
    requires Inv(m, held) && k in Entries(m)
    ensures var w := Entry(m, k).(dirty := true); var m' := SetEntry(m, k, w);
      && Inv(m', held) && SpaceOf(m') == SpaceOf(m) && k in Entries(m') && Entry(m', k) == w
      && Entries(m') == Entries(m)[k := w]
  {
    hide Good, Entry, SpaceOf, SetEntry, Picture, OwnTable, HasTable, Tables;
    var w := Entry(m, k).(dirty := true);
    MappedFacts(m, held, k);
    TableFacts(m, held, k.0);
    Remap(m, k, w);
    var m' := SetEntry(m, k, w);
    assert Entries(m')[k] == w;
    EntryAt(m', k);
    DirtyAccounts(m, m', held, k, w);
  }

  lemma DirtyAccounts(m: Image, m': Image, held: seq<nat>, k: Key, w: Word)
    requires Inv(m, held) && Layout(m') && |m'.mem| == |m.mem| && m'.dir == m.dir && m'.count == m.count
    requires k in Entries(m) && w == Entries(m)[k].(dirty := true) && Entries(m') == Entries(m)[k := w]
    ensures Inv(m', held)
  {
    hide Good, Entry, HasTable, Entries;
    var a := Picture(m, held);
    FramesFollowEntries(Entries(m), k, w);
    assert a.frames[k := Nr(w)] == a.frames;
    assert w.writable ==> a.writable + {k} == a.writable;
    assert !w.writable ==> a.writable - {k} == a.writable;
    Shows(m', held, a);
  }

  /** The two stores of a share are to different words, so their order does not matter. */
  lemma ShareCommutes(m: Image, held: seq<nat>, k: Key, to: Key, w: Word)
    requires Inv(m, held) && k in AllKeys && to in AllKeys && HasTable(m, k.0) && HasTable(m, to.0) && k != to
    ensures SetEntry(SetEntry(m, k, w), to, w) == SetEntry(SetEntry(m, to, w), k, w)
    ensures Nr(m.dir[to.0]) < |SetEntry(m, k, w).mem| && to.1 < |SetEntry(m, k, w).mem[Nr(m.dir[to.0])]|
  {
    hide Good, Entry, Entries;
    KeyInMem(m, held, k);
    KeyInMem(m, held, to);
    TableFacts(m, held, k.0);
    var a, b := SetEntry(SetEntry(m, k, w), to, w), SetEntry(SetEntry(m, to, w), k, w);
    var t, t' := Nr(m.dir[k.0]), Nr(m.dir[to.0]);
    if t == t' {
      assert m.mem[t][k.1 := w][to.1 := w] == m.mem[t][to.1 := w][k.1 := w];
    }
    assert a.mem == b.mem;
  }

  /** A writable page of a task is one it may write: the directory and the user bits do not stand in the way. */
  lemma LetsThrough(m: Image, held: seq<nat>, k: Key)
    requires Inv(m, held) && k in Entries(m)
    ensures MayLoad(m, k) && (Entry(m, k).writable <==> MayStore(m, k))
  {
    hide Good;
    EntriesBounded(m, held);
  }

  lemma SameBut(d: map<Key, bool>, d': map<Key, bool>, k: Key)
    requires d - {k} == d' - {k}
    ensures d[k := true] == d'[k := true]
  {
    assert d[k := true] == (d - {k})[k := true] && d'[k := true] == (d' - {k})[k := true];
  }

  /** A page never touched is there as zeros. */
  function Backed(sp: Space, k: Key): (r: Space)
    ensures k in r
  {
    if k in sp then sp else sp[k := ZeroPage()]
  }

  lemma StoreIsWrite(sp: Space, mid: Space, k: Key, o: nat, v: Word)
    requires mid == Backed(sp, k) && o < |mid[k]|
    ensures mid[k := mid[k][o := v]] == Written(sp, k, o, v)
  {
  }

  // ---- runs ----

  /** How many frames a store needs: a page and perhaps a table for it, or a copy of a page that has other users. */
  ghost function FramesFor(m: Image, k: Key): nat
    requires HasTable(m, k.0) ==> Nr(m.dir[k.0]) < |m.mem| && k.1 < |m.mem[Nr(m.dir[k.0])]|
  {
    if k !in Entries(m) then (if HasTable(m, k.0) then 1 else 2)
    else if Entry(m, k).writable || CountOf(m, Nr(Entry(m, k))) == 1 then 0
    else 1
  }

  /** How an event ends in a given memory.  A fork is refused when the slot is in use, which find_empty_process rules
    * out; a share when the page is already there, which the page fault rules out, or when there is no clean page to
    * share. */
  ghost function Ending(m: Image, held: seq<nat>, e: Event): Outcome
    requires Inv(m, held) && WellFormed(e)
  {
    match e
    case Fork(t, u) =>
      if SlotUsed(Tables(m.dir), u) then Refused
      else if FreeCount(m.count) >= TableCount(Tables(m.dir), t * SLOT, SLOT) then Done
      else OutOfMemory
    case Write(t, page, offset, value) =>
      PageInRange(t, page);
      KeyInMem(m, held, PageOf(t, page));
      if FreeCount(m.count) >= FramesFor(m, PageOf(t, page)) then Done else OutOfMemory
    case Exit(t) => Done
    case Share(t, u, page) =>
      PageInRange(t, page);
      PageInRange(u, page);
      KeyInMem(m, held, PageOf(t, page));
      KeyInMem(m, held, PageOf(u, page));
      var from, to := PageOf(u, page), PageOf(t, page);
      if to in Entries(m) || from !in Entries(m) || Entry(m, from).dirty then Refused
      else if !HasTable(m, to.0) && FreeCount(m.count) == 0 then OutOfMemory
      else Done
  }

  /** A run through the memories of `trace`: before and after each event the accounts are right, it ends as it must
    * there, and what the tasks see changes as in the eager memory. */
  ghost predicate Follows(trace: seq<Image>, held: seq<nat>, events: seq<Event>, outcomes: seq<Outcome>) {
    && |trace| == |events| + 1 && |outcomes| == |events|
    && (forall i :: 0 <= i < |trace| ==> Inv(trace[i], held))
    && forall i :: 0 <= i < |events| ==>
         && WellFormed(events[i]) && outcomes[i] == Ending(trace[i], held, events[i])
         && SpaceOf(trace[i + 1]) == EagerStep(SpaceOf(trace[i]), events[i], outcomes[i])
         && StainsFollow(Dirt(Entries(trace[i])), Dirt(Entries(trace[i + 1])), events[i], outcomes[i])
         && Tables(trace[i + 1].dir).Keys == TablesStep(Tables(trace[i].dir).Keys, events[i], outcomes[i])
  }

  /** What an event makes of the dirty bits: a store sets that of its page, a page got by sharing is clean, a child's
    * pages have those of the parent's, and all other pages keep theirs. */
  ghost predicate StainsFollow(d: map<Key, bool>, d': map<Key, bool>, e: Event, oc: Outcome) {
    if oc.Refused? then d' == d
    else
      match e
      case Fork(t, u) => if oc.Done? then IsCopy(d, d', t * SLOT, u * SLOT, SLOT, 0) else d' == d
      case Write(t, page, _, _) => d' == if oc.Done? then d[PageOf(t, page) := true] else Without(d, t * SLOT, SLOT, 0)
      case Exit(t) => d' == Without(d, t * SLOT, SLOT, 0)
      case Share(t, u, page) =>
        d' == if oc.Done? then d[PageOf(t, page) := false] else Without(d, t * SLOT, SLOT, 0)
  }

  /** Where there are page tables after an event. */
  function TablesStep(dirs: set<nat>, e: Event, oc: Outcome): set<nat> {
    if oc.Refused? then dirs
    else
      match e
      case Fork(t, u) => if oc.Done? then ForkedTables(dirs, t, u) else dirs
      case Write(t, page, _, _) => if oc.Done? then dirs + {PageOf(t, page).0} else dirs - SlotOf(t)
      case Exit(t) => dirs - SlotOf(t)
      case Share(t, _, page) => if oc.Done? then dirs + {PageOf(t, page).0} else dirs - SlotOf(t)
  }

  lemma FollowsMore(trace: seq<Image>, held: seq<nat>, events: seq<Event>, outcomes: seq<Outcome>, e: Event, m: Image)
    requires Follows(trace, held, events, outcomes) && WellFormed(e) && Inv(m, held)
    requires SpaceOf(m) == EagerStep(SpaceOf(trace[|events|]), e, Ending(trace[|events|], held, e))
    requires Tables(m.dir).Keys == TablesStep(Tables(trace[|events|].dir).Keys, e, Ending(trace[|events|], held, e))
    requires StainsFollow(Dirt(Entries(trace[|events|])), Dirt(Entries(m)), e, Ending(trace[|events|], held, e))
    ensures Follows(trace + [m], held, events + [e], outcomes + [Ending(trace[|events|], held, e)])
  {
    hide Inv, SpaceOf, EagerStep, Ending, Tables, TablesStep, StainsFollow, Dirt, Entries;
  }

  /** Copying at the last moment is copying at once, over a whole run. */
  lemma {:induction false} FollowsIsEager(trace: seq<Image>, held: seq<nat>, events: seq<Event>, outcomes: seq<Outcome>)
    requires Follows(trace, held, events, outcomes)
    ensures SpaceOf(trace[|events|]) == EagerRun(SpaceOf(trace[0]), events, outcomes)
    decreases |events|
  {
    hide Inv, SpaceOf, EagerStep, Ending, Tables, TablesStep, StainsFollow;
    if events != [] {
      var n := |events| - 1;
      FollowsIsEager(trace[..n + 1], held, events[..n], outcomes[..n]);
    }
  }

  // ---- page tables over a run ----

  /** Which tasks are there after an event: a fork adds one, doing something shows one, an exit or being killed for want
    * of memory takes one away. */
  function Present(tasks: set<nat>, e: Event, oc: Outcome): set<nat> {
    if oc.Refused? then tasks
    else
      match e
      case Fork(_, u) => if oc.Done? then tasks + {u} else tasks
      case Write(t, _, _, _) => if oc.Done? then tasks + {t} else tasks - {t}
      case Exit(t) => tasks - {t}
      case Share(t, _, _) => if oc.Done? then tasks + {t} else tasks - {t}
  }

  /** The tasks that have been forked or have acted since their last exit. */
  function Running(events: seq<Event>, outcomes: seq<Outcome>): set<nat>
    requires |events| == |outcomes|
  {
    if events == [] then {}
    else
      var n := |events| - 1;
      Present(Running(events[..n], outcomes[..n]), events[n], outcomes[n])
  }

  /** `e` makes task `t`, or shows that it is there. */
  predicate Starts(e: Event, oc: Outcome, t: nat) {
    oc.Done? && !e.Exit? && t == if e.Fork? then e.u else e.t
  }

  predicate Ends(e: Event, oc: Outcome, t: nat) {
    t == e.t && (e.Exit? || (oc.OutOfMemory? && !e.Fork?))
  }

  lemma {:induction false} RunningExactly(events: seq<Event>, outcomes: seq<Outcome>, t: nat)
    requires |events| == |outcomes| && forall i :: 0 <= i < |events| && events[i].Exit? ==> outcomes[i].Done?
    ensures t in Running(events, outcomes) <==>
              exists i :: 0 <= i < |events| && Starts(events[i], outcomes[i], t)
                          && forall j :: i < j < |events| ==> !Ends(events[j], outcomes[j], t)
  {
    if events != [] {
      var n := |events| - 1;
      RunningExactly(events[..n], outcomes[..n], t);
      if t in Running(events[..n], outcomes[..n]) && !Ends(events[n], outcomes[n], t) {
        var i :| 0 <= i < n && Starts(events[..n][i], outcomes[..n][i], t)
                 && forall j :: i < j < n ==> !Ends(events[..n][j], outcomes[..n][j], t);
        assert Starts(events[i], outcomes[i], t);
        forall j | i < j < |events| ensures !Ends(events[j], outcomes[j], t) {
          assert j < n ==> events[j] == events[..n][j] && outcomes[j] == outcomes[..n][j];
        }
      }
      if i :| 0 <= i < n && Starts(events[i], outcomes[i], t)
              && forall j :: i < j < |events| ==> !Ends(events[j], outcomes[j], t)
      {
        assert Starts(events[..n][i], outcomes[..n][i], t);
        forall j | i < j < n ensures !Ends(events[..n][j], outcomes[..n][j], t) {
          assert events[j] == events[..n][j] && outcomes[j] == outcomes[..n][j];
        }
      }
    }
  }

  /** Page tables belong to those tasks only. */
  predicate BelongTo(dirs: set<nat>, tasks: set<nat>) {
    forall d :: d in dirs ==> exists t: nat :: t in tasks && InSlot(d, t)
  }

  lemma StepBelongs(dirs: set<nat>, tasks: set<nat>, e: Event, oc: Outcome)
    requires BelongTo(dirs, tasks) && WellFormed(e)
    ensures BelongTo(TablesStep(dirs, e, oc), Present(tasks, e, oc))
  {
    var dirs', tasks' := TablesStep(dirs, e, oc), Present(tasks, e, oc);
    forall d | d in dirs' ensures exists t: nat :: t in tasks' && InSlot(d, t) {
      if d in dirs {
        var t: nat :| t in tasks && InSlot(d, t);
        assert d in SlotOf(t);
      } else {
        assert InSlot(d, if e.Fork? then e.u else e.t);
      }
    }
  }

  lemma {:induction false} RunBelongs(trace: seq<Image>, held: seq<nat>, events: seq<Event>, outcomes: seq<Outcome>)
    requires Follows(trace, held, events, outcomes) && Tables(trace[0].dir).Keys == {}
    ensures BelongTo(Tables(trace[|events|].dir).Keys, Running(events, outcomes))
    decreases |events|
  {
    hide Inv, SpaceOf, EagerStep, Ending, Tables, TablesStep, StainsFollow, Present, BelongTo;
    if events == [] {
      assert BelongTo({}, {}) by { NothingBelongs(); }
    } else {
      var n := |events| - 1;
      RunBelongs(trace[..n + 1], held, events[..n], outcomes[..n]);
      StepBelongs(Tables(trace[n].dir).Keys, Running(events[..n], outcomes[..n]), events[n], outcomes[n]);
    }
  }

  // ---- who sees a store ----

  /** At the end of the run the page `page` of `t` has been stored into: by `t` itself since it got the page, or, before
    * the fork that made `t`, by the task it was forked from. */
  predicate StoredInto(events: seq<Event>, outcomes: seq<Outcome>, t: nat, page: Key)
    requires |events| == |outcomes|
    decreases |events|
  {
    events != [] &&
    var n := |events| - 1;
    var e, oc, before := events[n], outcomes[n], StoredInto(events[..n], outcomes[..n], t, page);
    match e
    case Write(s, p, _, _) => if s != t || (oc.Done? && p != page) then before else oc.Done?
    case Fork(s, u) =>
      if u == t && oc.Done? then StoredInto(events[..n], outcomes[..n], s, page) else before
    case Exit(s) => s != t && before
    case Share(s, _, p) => if s != t || oc.Refused? || (oc.Done? && p != page) then before else false
  }

  predicate Stain(d: map<Key, bool>, t: nat, page: Key) {
    PageOf(t, page) in d && d[PageOf(t, page)]
  }

  lemma SamePage(t: nat, page: Key, t': nat, page': Key)
    requires page.0 < SLOT && page'.0 < SLOT
    ensures PageOf(t, page) == PageOf(t', page') <==> t == t' && page == page'
  {
  }

  lemma StepStains(d: map<Key, bool>, d': map<Key, bool>, e: Event, oc: Outcome, t: nat, page: Key)
    requires StainsFollow(d, d', e, oc) && WellFormed(e) && page.0 < SLOT
    requires e.Write? || e.Exit? ==> !oc.Refused?
    ensures Stain(d', t, page) <==>
              match e
              case Write(s, p, _, _) => if s != t || (oc.Done? && p != page) then Stain(d, t, page) else oc.Done?
              case Fork(s, u) => if u == t && oc.Done? then Stain(d, s, page) else Stain(d, t, page)
              case Exit(s) => s != t && Stain(d, t, page)
              case Share(s, _, p) =>
                if s != t || oc.Refused? || (oc.Done? && p != page) then Stain(d, t, page) else false
  {
    var k := PageOf(t, page);
    if e.Fork? {
      if oc.Done? {
        SlotReached(e.u, k);
        assert Owns(e.u, k) <==> e.u == t;
        if e.u == t { assert Source(k, e.t * SLOT, e.u * SLOT) == PageOf(e.t, page); }
      }
    } else {
      SlotReached(e.t, k);
      assert Owns(e.t, k) <==> e.t == t;
      assert Stain(Without(d, e.t * SLOT, SLOT, 0), t, page) <==> e.t != t && Stain(d, t, page);
      if e.Write? || e.Share? { SamePage(e.t, e.page, t, page); }
    }
  }

  /** Over every run from an image without page tables the dirty bits say exactly which pages have been stored into. */
  lemma {:induction false} DirtyExactly(trace: seq<Image>, held: seq<nat>, events: seq<Event>, outcomes: seq<Outcome>,
        t: nat, page: Key)
    requires Follows(trace, held, events, outcomes) && Tables(trace[0].dir).Keys == {} && page.0 < SLOT
    ensures Stain(Dirt(Entries(trace[|events|])), t, page) <==> StoredInto(events, outcomes, t, page)
    decreases |events|
  {
    hide Inv, SpaceOf, EagerStep, Tables, TablesStep, StainsFollow, Dirt, Entries, Stain;
    if events == [] {
      NothingStained(trace[0], held, t, page);
    } else {
      var n := |events| - 1;
      FollowsPart(trace, held, events, outcomes, n);
      DirtyExactly(trace[..n + 1], held, events[..n], outcomes[..n], t, page);
      if events[n].Fork? { DirtyExactly(trace[..n + 1], held, events[..n], outcomes[..n], events[n].t, page); }
      StepStains(Dirt(Entries(trace[n])), Dirt(Entries(trace[n + 1])), events[n], outcomes[n], t, page);
    }
  }

  lemma NothingStained(m: Image, held: seq<nat>, t: nat, page: Key)
    requires Inv(m, held) && Tables(m.dir).Keys == {}
    ensures !Stain(Dirt(Entries(m)), t, page)
  {
    hide Good, Layout, Entries, SpaceOf, Tables;
    ViewBounded(m, held);
    DirtDomain(Entries(m), PageOf(t, page));
  }

  /** No store is ever seen by a task it was not meant for: over every run from an image without page tables a page is
    * shared with another task exactly if it is there, has not been stored into, is not there yet in the other task, and
    * there is memory for a page table. */
  lemma StoredIsNotShared(trace: seq<Image>, held: seq<nat>, events: seq<Event>, outcomes: seq<Outcome>, i: nat)
    requires Follows(trace, held, events, outcomes) && Tables(trace[0].dir).Keys == {}
    requires i < |events| && events[i].Share?
    ensures var (u, page) := (events[i].u, events[i].page);
      && (StoredInto(events[..i], outcomes[..i], u, page) ==> outcomes[i] == Refused)
      && (outcomes[i] == Refused <==>
          || StoredInto(events[..i], outcomes[..i], u, page)
          || PageOf(u, page) !in SpaceOf(trace[i])
          || PageOf(events[i].t, page) in SpaceOf(trace[i]))
  {
    hide Inv, SpaceOf, EagerStep, Tables, TablesStep, StainsFollow, Dirt, Entries, FreeCount, StoredInto;
    var (u, page) := (events[i].u, events[i].page);
    FollowsPart(trace, held, events, outcomes, i);
    DirtyExactly(trace[..i + 1], held, events[..i], outcomes[..i], u, page);
    assert trace[..i + 1][i] == trace[i];
    var m := trace[i];
    EntriesBounded(m, held);
    DirtDomain(Entries(m), PageOf(u, page));
    if PageOf(u, page) in Entries(m) { EntryAt(m, PageOf(u, page)); }
  }

  lemma NothingBelongs()
    ensures BelongTo({}, {})
  {
  }

  lemma FollowsPart(trace: seq<Image>, held: seq<nat>, events: seq<Event>, outcomes: seq<Outcome>, i: nat)
    requires Follows(trace, held, events, outcomes) && i <= |events|
    ensures Follows(trace[..i + 1], held, events[..i], outcomes[..i])
  {
    hide Inv, SpaceOf, EagerStep, Ending, Tables, TablesStep, StainsFollow;
  }

  /** From a memory without page tables on, the panic of copy_page_tables is out of reach: a fork into a slot where no
    * task is never finds a page table there. */
  lemma FreeSlotNotRefused(trace: seq<Image>, held: seq<nat>, events: seq<Event>, outcomes: seq<Outcome>, i: nat)
    requires Follows(trace, held, events, outcomes) && Tables(trace[0].dir).Keys == {}
    requires i < |events| && events[i].Fork? && events[i].u !in Running(events[..i], outcomes[..i])
    ensures !outcomes[i].Refused?
  {
    hide Inv, SpaceOf, EagerStep, Tables, TablesStep, StainsFollow, TableCount, FreeCount, Running;
    FollowsPart(trace, held, events, outcomes, i);
    RunBelongs(trace[..i + 1], held, events[..i], outcomes[..i]);
    assert trace[..i + 1][i] == trace[i];
    var dirs, u := Tables(trace[i].dir), events[i].u;
    if SlotUsed(dirs, u) {
      var d: nat :| u * SLOT <= d < (u + 1) * SLOT && d in dirs;
      var t: nat :| t in Running(events[..i], outcomes[..i]) && InSlot(d, t);
      OneSlot(d, t, u);
    }
  }

  lemma OneSlot(d: nat, t: nat, u: nat)
    requires InSlot(d, t) && InSlot(d, u)
    ensures t == u
  {
  }

  /** When every task has gone, nothing is mapped and every count is what the kernel holds: no frame has leaked. */
  lemma AllFramesReturned(trace: seq<Image>, held: seq<nat>, events: seq<Event>, outcomes: seq<Outcome>)
    requires Follows(trace, held, events, outcomes) && Tables(trace[0].dir).Keys == {}
             && Running(events, outcomes) == {}
    ensures var m := trace[|events|]; Tables(m.dir).Keys == {} && SpaceOf(m) == map[] && m.count == held
  {
    hide Inv, SpaceOf, EagerStep, Ending, Tables, TablesStep, StainsFollow, Running;
    RunBelongs(trace, held, events, outcomes);
    NoTables(trace[|events|], held);
  }

  lemma NoTables(m: Image, held: seq<nat>)
    requires Inv(m, held)
    ensures Tables(m.dir).Keys == {} ==> SpaceOf(m) == map[] && m.count == held
  {
    hide SpaceOf, Layout, Entries, Tables, WritersAlone, Aligned, Frames;
    if Tables(m.dir).Keys == {} {
      ViewBounded(m, held);
      var a := Picture(m, held);
      assert forall k :: k in a.frames ==> k.0 in Tables(m.dir);
      assert a.frames.Keys == {};
      forall f: nat | f < |m.count| ensures m.count[f] == held[f] {
        assert Users(a, f) == {};
      }
    }
  }

  /** Everything the tasks do, one event after the other, with how each one ended. */
  method Run(mm: Memory, events: seq<Event>) returns (outcomes: seq<Outcome>, ghost trace: seq<Image>)
    requires mm.Valid() && forall i :: 0 <= i < |events| ==> WellFormed(events[i])
    modifies mm, mm.memMap, mm.pgDir, mm.pages
    ensures mm.Valid() && |outcomes| == |events| && mm.held == old(mm.held)
    ensures mm.View() == EagerRun(old(mm.View()), events, outcomes)
    ensures Follows(trace, mm.held, events, outcomes) && trace[0] == old(mm.Img()) && trace[|events|] == mm.Img()
    ensures old(mm.Dirs()).Keys == {} && Running(events, outcomes) == {} ==>
            mm.memMap[..] == mm.held && mm.View() == map[]
  {
    hide Inv, SpaceOf, EagerStep, Ending, Follows, Tables, TablesStep, Running, StainsFollow, Dirt, Entries;
    outcomes, trace := [], [mm.Img()];
    NothingFollows(mm.Img(), mm.held);
    for i := 0 to |events|
      invariant |outcomes| == i && |trace| == i + 1 && mm.Valid() && mm.held == old(mm.held)
      invariant Follows(trace, mm.held, events[..i], outcomes) && trace[0] == old(mm.Img()) && trace[i] == mm.Img()
    {
      var oc := Apply(mm, events[i]);
      FollowsMore(trace, mm.held, events[..i], outcomes, events[i], mm.Img());
      assert events[..i] + [events[i]] == events[..i + 1];
      outcomes, trace := outcomes + [oc], trace + [mm.Img()];
    }
    assert events[..|events|] == events;
    FollowsIsEager(trace, mm.held, events, outcomes);
    if old(mm.Dirs()).Keys == {} && Running(events, outcomes) == {} {
      AllFramesReturned(trace, mm.held, events, outcomes);
    }
  }

  lemma NothingFollows(m: Image, held: seq<nat>)
    requires Inv(m, held)
    ensures Follows([m], held, [], [])
  {
    hide Inv;
  }

  /** One event. */
  method Apply(mm: Memory, e: Event) returns (oc: Outcome)
    requires mm.Valid() && WellFormed(e)
    modifies mm, mm.memMap, mm.pgDir, mm.pages
    ensures mm.Valid() && mm.held == old(mm.held)
    ensures oc == Ending(old(mm.Img()), old(mm.held), e) && mm.View() == EagerStep(old(mm.View()), e, oc)
    ensures StainsFollow(old(mm.Stained()), mm.Stained(), e, oc)
    ensures mm.Dirs().Keys == TablesStep(old(mm.Dirs()).Keys, e, oc)
  {
    hide SlotOf, ForkedTables, Inv, SpaceOf, Tables, Forked, Written, Without, Fellows, Entries, Entry, HasTable,
      FreeCount, FramesFor, TableCount, Dirt, IsCopy;
    match e
    case Fork(t, u) =>
      var free := SlotFree(mm, u);
      if !free {
        return Refused;
      }
      var ok := mm.CopyMem(t, u, SLOT);
      oc := if ok then Done else OutOfMemory;
    case Write(t, page, offset, value) =>
      PageInRange(t, page);
      var ok := mm.UserStore(PageOf(t, page), offset, value);
      if !ok {
        DoExit(mm, t);
      }
      oc := if ok then Done else OutOfMemory;
    case Exit(t) =>
      DoExit(mm, t);
      oc := Done;
    case Share(t, u, page) =>
      PageInRange(t, page);
      PageInRange(u, page);
      PagesAreFellows(t, u, page);
      var present := IsPresent(mm, PageOf(t, page));
      if present {
        return Refused;
      }
      oc := mm.TryToShare(PageOf(u, page), PageOf(t, page));
      if oc.OutOfMemory? {
        DoExit(mm, t);
      }
  }

  /** The memory part of do_exit. */
  method DoExit(mm: Memory, t: nat)
    requires mm.Valid() && 1 <= t < TASKS
    modifies mm.memMap, mm.pgDir, mm.pages
    ensures mm.Valid() && mm.View() == Exited(old(mm.View()), t)
    ensures mm.Stained() == Without(old(mm.Stained()), t * SLOT, SLOT, 0)
    ensures mm.Dirs().Keys == old(mm.Dirs()).Keys - SlotOf(t)
  {
    hide Inv, SpaceOf, Tables;
    mm.FreePageTables(t * SLOT, SLOT);
    SlotRange(t);
  }

  predicate SlotUsed(dirs: map<nat, nat>, u: nat) {
    exists d: nat :: u * SLOT <= d < (u + 1) * SLOT && d in dirs
  }

  /** The task slot has no page tables. */
  method SlotFree(mm: Memory, u: nat) returns (free: bool)
    requires mm.Valid() && 1 <= u < TASKS
    ensures free <==> !SlotUsed(mm.Dirs(), u)
  {
    hide Inv, Tables;
    LayoutSizes(mm.Img(), mm.held);
    free := true;
    var d := u * SLOT;
    while d < (u + 1) * SLOT
      invariant u * SLOT <= d <= (u + 1) * SLOT
      invariant free <==> forall c: nat :: u * SLOT <= c < d ==> c !in mm.Dirs()
    {
      TablesAt(mm.pgDir[..], d);
      assert d in mm.Dirs() <==> mm.pgDir[d].present;
      if mm.pgDir[d].present {
        free := false;
      }
      d := d + 1;
    }
  }

  lemma TablesAt(dir: seq<Word>, d: nat)
    requires SLOT <= d < |dir|
    ensures d in Tables(dir) <==> dir[d].present
  {
  }

  method IsPresent(mm: Memory, k: Key) returns (present: bool)
    requires mm.Valid() && k in AllKeys
    ensures present <==> k in Entries(mm.Img())
  {
    KeyInMem(mm.Img(), mm.held, k);
    hide Inv, Entries, Entry;
    present := mm.pgDir[k.0].present && mm.pages[Nr(mm.pgDir[k.0])][k.1].present;
  }

  lemma PageInRange(t: nat, page: Key)
    requires 1 <= t < TASKS && page.0 < SLOT && page.1 < ENTRIES
    ensures PageOf(t, page) in AllKeys
  {
    KeysExact();
  }

  lemma PagesAreFellows(t: nat, u: nat, page: Key)
    ensures Fellows(PageOf(u, page), PageOf(t, page))
  {
  }
}
