/** Who uses which page frame: the bookkeeping that mm/memory.c keeps in `mem_map` and the page tables, taken apart from
  * how the tables are laid out.
  *
  * A user page is named by the pair (directory entry, table entry); task t owns the directory entries 16*t .. 16*t+15.
  * Frames are numbered from LOW_MEM, as in MAP_NR.
  */
module FrameAccounts {
  type Key = (nat, nat)

  const DIRS: nat := 1024      // directory entries
  const SLOT: nat := 16        // of which each task owns this many
  const TASKS: nat := 64

  /** `frames`: the frame each present user page maps to; `writable`: the pages mapped for writing; `tables`: the frame
    * holding each present page table; `count`: mem_map; `held`: the references the kernel has to a frame by itself
    * (task structures, pipe buffers, frames just allocated, reserved memory). */
  datatype Accounts = Accounts(
    frames: map<Key, nat>, writable: set<Key>, tables: map<nat, nat>, count: seq<nat>, held: seq<nat>)

  function Users(a: Accounts, f: nat): set<Key> {
    set k: Key | k in a.frames && a.frames[k] == f
  }

  predicate IsTable(a: Accounts, f: nat) {
    exists d: nat :: d in a.tables && a.tables[d] == f
  }

  /** The heart of the matter: mem_map counts exactly the uses of a frame. */
  predicate Counted(a: Accounts) {
    && |a.count| == |a.held|
    && forall f: nat :: f < |a.count| ==>
         a.count[f] == |Users(a, f)| + (if IsTable(a, f) then 1 else 0) + a.held[f]
  }

  /** A frame is a page table of one directory entry, or user memory, or the kernel's: never two of these. */
  predicate Separate(a: Accounts) {
    && (forall d: nat :: d in a.tables ==> a.tables[d] < |a.count|)
    && (forall d: nat, d': nat :: d in a.tables && d' in a.tables && a.tables[d] == a.tables[d'] ==> d == d')
    && (forall k: Key :: k in a.frames ==> k.0 in a.tables && a.frames[k] < |a.count| && !IsTable(a, a.frames[k]))
    && (forall f: nat :: f < |a.held| && a.held[f] > 0 ==>
          !IsTable(a, f) && forall k: Key :: k in a.frames ==> a.frames[k] != f)
  }

  /** A page mapped for writing is the only user of its frame. */
  predicate WritersAlone(a: Accounts) {
    && a.writable <= a.frames.Keys
    && forall k: Key, k': Key :: k in a.writable && k' in a.frames && a.frames[k'] == a.frames[k] ==> k' == k
  }

  /** Two pages at the same place, each relative to its own task's memory. */
  predicate Fellows(k: Key, k': Key) {
    k.0 % SLOT == k'.0 % SLOT && k.1 == k'.1
  }

  /** Sharers map a frame at the same place relative to their own memory. */
  predicate Aligned(a: Accounts) {
    && (forall k: Key :: k in a.frames ==> k.0 < DIRS)
    && forall k: Key, k': Key :: k in a.frames && k' in a.frames && a.frames[k] == a.frames[k'] ==> Fellows(k, k')
  }

  ghost predicate Good(a: Accounts) {
    |a.count| == |a.held| && Counted(a) && Separate(a) && WritersAlone(a) && Aligned(a)
  }

  // ---- consequences ----

  /** The pages of all tasks at one place. */
  function SamePlace(r: nat, j: nat, tasks: nat): set<Key> {
    set t: nat | t < tasks :: (t * SLOT + r, j)
  }

  lemma {:induction false} SamePlaceSize(r: nat, j: nat, tasks: nat)
    ensures |SamePlace(r, j, tasks)| <= tasks
  {
    if tasks > 0 {
      SamePlaceSize(r, j, tasks - 1);
      assert SamePlace(r, j, tasks) == SamePlace(r, j, tasks - 1) + {((tasks - 1) * SLOT + r, j)};
    }
  }

  lemma {:induction false} SubsetSize<T>(a: set<T>, b: set<T>)
    requires a <= b
    ensures |a| <= |b|
    decreases a
  {
    if x :| x in a {
      SubsetSize(a - {x}, b - {x});
    }
  }

  /** The count of a user frame fits a byte with room to spare: at most one user per task. */
  lemma UserCountBound(a: Accounts, k: Key)
    requires Good(a) && k in a.frames
    ensures 1 <= a.count[a.frames[k]] == |Users(a, a.frames[k])| <= TASKS
  {
    var f := a.frames[k];
    var place := SamePlace(k.0 % SLOT, k.1, TASKS);
    forall k': Key | k' in Users(a, f) ensures k' in place {
      var t := k'.0 / SLOT;
      assert t < TASKS && k' == (t * SLOT + k.0 % SLOT, k.1);
    }
    SubsetSize(Users(a, f), place);
    SamePlaceSize(k.0 % SLOT, k.1, TASKS);
    assert k in Users(a, f);
    assert Users(a, f) != {};
    assert a.held[f] == 0;
  }

  /** un_wp_page's test: count 1 means nobody else maps the frame. */
  lemma CountOneMeansAlone(a: Accounts, k: Key)
    requires Good(a) && k in a.frames
    ensures a.count[a.frames[k]] == 1 <==> Users(a, a.frames[k]) == {k}
  {
    UserCountBound(a, k);
    var us := Users(a, a.frames[k]);
    assert k in us;
    if |us| == 1 {
      assert |us - {k}| == 0;
    }
  }

  lemma UnheldWhenFree(a: Accounts, f: nat)
    requires Good(a) && f < |a.count| && a.count[f] == 0
    ensures a.held[f] == 0
  {
  }

  /** Two equal pictures of who uses what have equal counts. */
  lemma CountsDetermined(a: Accounts, b: Accounts)
    requires Good(a) && Good(b)
    requires a.frames == b.frames && a.tables == b.tables && a.held == b.held
    ensures a.count == b.count
  {
    forall f: nat | f < |a.count| ensures a.count[f] == b.count[f] {
      assert Users(a, f) == Users(b, f);
    }
  }

  // ---- the elementary changes ----

  /** get_free_page: a frame nobody counts becomes the kernel's. */
  function Allocate(a: Accounts, f: nat): Accounts
    requires f < |a.count| && f < |a.held|
  {
    a.(count := a.count[f := 1], held := a.held[f := a.held[f] + 1])
  }

  /** free_page on a frame the kernel holds. */
  function Release(a: Accounts, f: nat): Accounts
    requires f < |a.count| && f < |a.held| && a.count[f] > 0 && a.held[f] > 0
  {
    a.(count := a.count[f := a.count[f] - 1], held := a.held[f := a.held[f] - 1])
  }

  /** A held frame becomes the page table of directory entry `d`. */
  function AddTable(a: Accounts, d: nat, f: nat): Accounts
    requires f < |a.held| && a.held[f] > 0
  {
    a.(tables := a.tables[d := f], held := a.held[f := a.held[f] - 1])
  }

  /** The page table of `d` goes, and its frame is freed. */
  function DropTable(a: Accounts, d: nat): Accounts
    requires d in a.tables && a.tables[d] < |a.count| && a.count[a.tables[d]] > 0
  {
    a.(tables := a.tables - {d}, count := a.count[a.tables[d] := a.count[a.tables[d]] - 1])
  }

  /** A held frame becomes the page `k`, writable. */
  function Install(a: Accounts, k: Key, f: nat): Accounts
    requires f < |a.held| && a.held[f] > 0
  {
    a.(frames := a.frames[k := f], writable := a.writable + {k}, held := a.held[f := a.held[f] - 1])
  }

  /** The page `k` goes, and its frame is freed. */
  function Unmap(a: Accounts, k: Key): Accounts
    requires k in a.frames && a.frames[k] < |a.count| && a.count[a.frames[k]] > 0
  {
    a.(frames := a.frames - {k}, writable := a.writable - {k},
       count := a.count[a.frames[k] := a.count[a.frames[k]] - 1])
  }

  /** The page `to` maps the frame of `k`; neither may write it. */
  function Share(a: Accounts, k: Key, to: Key): Accounts
    requires k in a.frames && a.frames[k] < |a.count|
  {
    a.(frames := a.frames[to := a.frames[k]], writable := a.writable - {k, to},
       count := a.count[a.frames[k] := a.count[a.frames[k]] + 1])
  }

  /** The page `k`, alone on its frame, may write it. */
  function Unprotect(a: Accounts, k: Key): Accounts {
    a.(writable := a.writable + {k})
  }

  // Each change keeps each part of `Good`; the parts are proved one by one.

  /** Uses of frames other than through `held` are as before. */
  predicate SameUses(a: Accounts, b: Accounts) {
    b.frames == a.frames && b.tables == a.tables
  }

  lemma SameUsesFacts(a: Accounts, b: Accounts, f: nat)
    requires SameUses(a, b)
    ensures Users(b, f) == Users(a, f) && IsTable(b, f) == IsTable(a, f)
  {
  }

  lemma FreeFrameUnused(a: Accounts, f: nat)
    requires Counted(a) && f < |a.count| && a.count[f] == 0
    ensures a.held[f] == 0 && !IsTable(a, f) && forall k :: k in a.frames ==> a.frames[k] != f
  {
    assert Users(a, f) == {};
    forall k | k in a.frames ensures a.frames[k] != f {
      assert a.frames[k] == f ==> k in Users(a, f);
    }
  }

  lemma AllocateGood(a: Accounts, f: nat)
    requires Good(a) && f < |a.count| && a.count[f] == 0
    ensures Good(Allocate(a, f))
  {
    var b := Allocate(a, f);
    FreeFrameUnused(a, f);
    assert Counted(b) by {
      hide Separate, Aligned, WritersAlone;
      forall g: nat ensures Users(b, g) == Users(a, g) && IsTable(b, g) == IsTable(a, g) { SameUsesFacts(a, b, g); }
    }
    assert Separate(b) by {
      hide Counted, Aligned, WritersAlone;
      forall g: nat ensures IsTable(b, g) == IsTable(a, g) { SameUsesFacts(a, b, g); }
    }
  }

  lemma ReleaseGood(a: Accounts, f: nat)
    requires Good(a) && f < |a.count| && a.held[f] > 0
    ensures a.count[f] > 0 && Good(Release(a, f))
  {
    var b := Release(a, f);
    assert Counted(b) by {
      hide Separate, Aligned, WritersAlone;
      forall g: nat ensures Users(b, g) == Users(a, g) && IsTable(b, g) == IsTable(a, g) { SameUsesFacts(a, b, g); }
    }
    assert Separate(b) by {
      hide Counted, Aligned, WritersAlone;
      forall g: nat ensures IsTable(b, g) == IsTable(a, g) { SameUsesFacts(a, b, g); }
    }
  }

  lemma AddTableFacts(a: Accounts, d: nat, f: nat, g: nat)
    requires f < |a.held| && a.held[f] > 0 && d !in a.tables
    ensures IsTable(AddTable(a, d, f), g) <==> IsTable(a, g) || g == f
  {
    var b := AddTable(a, d, f);
    assert b.tables[d] == f;
    if IsTable(a, g) {
      var d': nat :| d' in a.tables && a.tables[d'] == g;
      assert d' in b.tables && b.tables[d'] == g;
    }
  }

  lemma AddTableGood(a: Accounts, d: nat, f: nat)
    requires Good(a) && f < |a.count| && a.held[f] == 1 && d !in a.tables
    ensures Good(AddTable(a, d, f))
  {
    var b := AddTable(a, d, f);
    forall g: nat ensures IsTable(b, g) <==> IsTable(a, g) || g == f { AddTableFacts(a, d, f, g); }
    assert Counted(b) by {
      hide Aligned, WritersAlone;
      forall g: nat ensures Users(b, g) == Users(a, g) {}
      assert !IsTable(a, f);
    }
    assert Separate(b) by {
      hide Counted, Aligned, WritersAlone, IsTable;
    }
  }

  lemma DropTableFacts(a: Accounts, d: nat, g: nat)
    requires Separate(a) && d in a.tables && a.count[a.tables[d]] > 0
    ensures IsTable(DropTable(a, d), g) <==> IsTable(a, g) && g != a.tables[d]
  {
    var b := DropTable(a, d);
    if IsTable(a, g) && g != a.tables[d] {
      var d': nat :| d' in a.tables && a.tables[d'] == g;
      assert d' in b.tables && b.tables[d'] == g;
    }
  }

  lemma DropTableGood(a: Accounts, d: nat)
    requires Good(a) && d in a.tables && forall k :: k in a.frames ==> k.0 != d
    ensures a.tables[d] < |a.count| && a.count[a.tables[d]] == 1 && Good(DropTable(a, d))
  {
    var f := a.tables[d];
    assert IsTable(a, f) && Users(a, f) == {} && a.held[f] == 0 by {
      hide Counted, Aligned, WritersAlone;
      assert d in a.tables;
    }
    assert a.count[f] == 1;
    var b := DropTable(a, d);
    forall g: nat ensures IsTable(b, g) <==> IsTable(a, g) && g != f { DropTableFacts(a, d, g); }
    assert Counted(b) by {
      hide Separate, Aligned, WritersAlone, IsTable;
      forall g: nat ensures Users(b, g) == Users(a, g) {}
    }
    assert Separate(b) by {
      hide Counted, Aligned, WritersAlone, IsTable;
    }
  }

  lemma InstallUsers(a: Accounts, k: Key, f: nat, g: nat)
    requires f < |a.held| && a.held[f] > 0 && k !in a.frames
    requires forall k' :: k' in a.frames ==> a.frames[k'] != f
    ensures Users(Install(a, k, f), g) == if g == f then {k} else Users(a, g)
    ensures IsTable(Install(a, k, f), g) == IsTable(a, g)
  {
  }

  lemma InstallCounted(a: Accounts, k: Key, f: nat)
    requires Counted(a) && f < |a.count| && a.held[f] == 1 && k !in a.frames
    requires forall k' :: k' in a.frames ==> a.frames[k'] != f
    ensures Counted(Install(a, k, f))
  {
    hide IsTable;
    var b := Install(a, k, f);
    assert Users(a, f) == {};
    forall g: nat ensures IsTable(b, g) == IsTable(a, g) && Users(b, g) == if g == f then {k} else Users(a, g) {
      InstallUsers(a, k, f, g);
    }
  }

  lemma InstallSeparate(a: Accounts, k: Key, f: nat)
    requires Separate(a) && |a.held| == |a.count| && f < |a.held| && a.held[f] == 1 && k !in a.frames && k.0 in a.tables
    ensures !IsTable(a, f) && (forall k' :: k' in a.frames ==> a.frames[k'] != f) && Separate(Install(a, k, f))
  {
    hide IsTable;
    var b := Install(a, k, f);
    forall g: nat ensures IsTable(b, g) == IsTable(a, g) { InstallUsers(a, k, f, g); }
  }

  lemma InstallGood(a: Accounts, k: Key, f: nat)
    requires Good(a) && f < |a.count| && a.held[f] == 1 && k !in a.frames && k.0 in a.tables && k.0 < DIRS
    ensures Good(Install(a, k, f))
  {
    hide Counted, Separate, IsTable;
    InstallSeparate(a, k, f);
    InstallCounted(a, k, f);
  }

  lemma UnmapUsers(a: Accounts, k: Key, g: nat)
    requires k in a.frames && a.frames[k] < |a.count| && a.count[a.frames[k]] > 0
    ensures Users(Unmap(a, k), g) == if g == a.frames[k] then Users(a, g) - {k} else Users(a, g)
    ensures IsTable(Unmap(a, k), g) == IsTable(a, g)
  {
  }

  lemma UnmapCounted(a: Accounts, k: Key)
    requires Counted(a) && k in a.frames && a.frames[k] < |a.count| && a.count[a.frames[k]] > 0
    ensures Counted(Unmap(a, k))
  {
    hide IsTable;
    var b := Unmap(a, k);
    assert k in Users(a, a.frames[k]);
    forall g: nat ensures IsTable(b, g) == IsTable(a, g)
                  && Users(b, g) == if g == a.frames[k] then Users(a, g) - {k} else Users(a, g) {
      UnmapUsers(a, k, g);
    }
  }

  lemma UnmapSeparate(a: Accounts, k: Key)
    requires Separate(a) && |a.held| == |a.count| && k in a.frames && a.count[a.frames[k]] > 0
    ensures Separate(Unmap(a, k))
  {
    hide IsTable;
    var b := Unmap(a, k);
    forall g: nat ensures IsTable(b, g) == IsTable(a, g) { UnmapUsers(a, k, g); }
  }

  lemma UnmapGood(a: Accounts, k: Key)
    requires Good(a) && k in a.frames
    ensures a.frames[k] < |a.count| && a.count[a.frames[k]] > 0 && Good(Unmap(a, k))
  {
    UserCountBound(a, k);
    hide Counted, Separate, IsTable;
    UnmapCounted(a, k);
    UnmapSeparate(a, k);
  }

  lemma ShareUsers(a: Accounts, k: Key, to: Key, g: nat)
    requires k in a.frames && a.frames[k] < |a.count| && to !in a.frames
    ensures Users(Share(a, k, to), g) == if g == a.frames[k] then Users(a, g) + {to} else Users(a, g)
    ensures IsTable(Share(a, k, to), g) == IsTable(a, g)
  {
  }

  lemma ShareAligned(a: Accounts, k: Key, to: Key)
    requires Aligned(a) && k in a.frames && a.frames[k] < |a.count| && to.0 < DIRS
    requires Fellows(k, to)
    ensures Aligned(Share(a, k, to))
  {
    var b := Share(a, k, to);
    forall k1: Key, k2: Key | k1 in b.frames && k2 in b.frames && b.frames[k1] == b.frames[k2]
      ensures Fellows(k1, k2)
    {
      var s1, s2 := if k1 == to then k else k1, if k2 == to then k else k2;
      assert a.frames[s1] == a.frames[s2];
    }
  }

  lemma ShareCounted(a: Accounts, k: Key, to: Key)
    requires Counted(a) && k in a.frames && a.frames[k] < |a.count| && to !in a.frames
    ensures Counted(Share(a, k, to))
  {
    hide IsTable;
    var b := Share(a, k, to);
    assert to !in Users(a, a.frames[k]);
    forall g: nat ensures IsTable(b, g) == IsTable(a, g)
                  && Users(b, g) == if g == a.frames[k] then Users(a, g) + {to} else Users(a, g) {
      ShareUsers(a, k, to, g);
    }
  }

  lemma ShareSeparate(a: Accounts, k: Key, to: Key)
    requires Separate(a) && |a.held| == |a.count| && k in a.frames && to !in a.frames && to.0 in a.tables
    ensures a.frames[k] < |a.count| && Separate(Share(a, k, to))
  {
    hide IsTable;
    var b := Share(a, k, to);
    forall g: nat ensures IsTable(b, g) == IsTable(a, g) { ShareUsers(a, k, to, g); }
  }

  lemma ShareWriters(a: Accounts, k: Key, to: Key)
    requires WritersAlone(a) && k in a.frames && a.frames[k] < |a.count| && to !in a.frames
    ensures WritersAlone(Share(a, k, to))
  {
    assert forall k' :: k' in a.writable && a.frames[k'] == a.frames[k] ==> k' == k;
  }

  lemma ShareGood(a: Accounts, k: Key, to: Key)
    requires Good(a) && k in a.frames && to !in a.frames && to.0 in a.tables && to.0 < DIRS
    requires Fellows(k, to)
    ensures a.frames[k] < |a.count| && a.count[a.frames[k]] < 255 && Good(Share(a, k, to))
  {
    hide Fellows;
    UserCountBound(a, k);
    hide Counted, Separate, WritersAlone, Aligned;
    ShareAligned(a, k, to);
    ShareCounted(a, k, to);
    ShareSeparate(a, k, to);
    ShareWriters(a, k, to);
  }

  lemma UnprotectGood(a: Accounts, k: Key)
    requires Good(a) && k in a.frames && a.count[a.frames[k]] == 1
    ensures Good(Unprotect(a, k))
  {
    CountOneMeansAlone(a, k);
    var b := Unprotect(a, k);
    forall g: nat ensures Users(b, g) == Users(a, g) && IsTable(b, g) == IsTable(a, g) { SameUsesFacts(a, b, g); }
    assert Counted(b) && Separate(b) by {
      hide Aligned, WritersAlone, IsTable;
    }
    assert WritersAlone(b) by {
      hide Counted, Aligned, Separate, IsTable;
      forall k' | k' in a.frames && a.frames[k'] == a.frames[k] ensures k' == k {
        assert k' in Users(a, a.frames[k]);
      }
    }
  }
}
