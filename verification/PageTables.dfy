/** The two-level page tables of mm/memory.c as they lie in memory: a directory of words, and page frames of words some
  * of which are page tables.
  */
module PageTables {
  import opened FrameAccounts

  const ENTRIES: nat := 1024   // words in a frame, entries in a page table
  const LOW: nat := 256        // LOW_MEM in pages; frame f is physical page LOW + f

  /** A 32-bit word, split as the MMU splits a page-table entry: bits 12-31, bits 0, 1, 2 and 6, and the rest. */
  datatype Word = Word(page: nat, present: bool, writable: bool, user: bool, dirty: bool, rest: nat)

  const Zero := Word(0, false, false, false, false, 0)

  type Page = seq<Word>

  function ZeroPage(): Page {
    seq(ENTRIES, _ => Zero)
  }

  /** `page | 7` for the page of frame `f`. */
  function Entry7(f: nat): Word {
    Word(LOW + f, true, true, true, false, 0)
  }

  function ReadOnly(w: Word): Word {
    w.(writable := false)
  }

  /** mem_map, the page directory, and the frames from LOW_MEM up. */
  datatype Image = Image(count: seq<nat>, dir: seq<Word>, mem: seq<Page>)

  /** The frame a word points to, taken as an entry. */
  function Nr(w: Word): nat {
    if w.page >= LOW then w.page - LOW else 0
  }

  /** It leads to a frame from LOW_MEM up, and user mode may follow it. */
  predicate Managed(m: Image, w: Word) {
    LOW <= w.page < LOW + |m.mem| && w.user
  }

  /** The user pages of tasks 1 and up; task 0's directory entries map the kernel and are not modelled. */
  const AllKeys: set<Key> := set d: nat, j: nat | SLOT <= d < DIRS && j < ENTRIES :: (d, j)

  lemma KeysExact()
    ensures forall k: Key :: k in AllKeys <==> SLOT <= k.0 < DIRS && k.1 < ENTRIES
  {
    forall k: Key | SLOT <= k.0 < DIRS && k.1 < ENTRIES ensures k in AllKeys {
      assert k == (k.0, k.1);
    }
  }

  predicate HasTable(m: Image, d: nat) {
    SLOT <= d < |m.dir| && m.dir[d].present
  }

  /** The entry the MMU finds for `k`: zero where there is no page table. */
  function Entry(m: Image, k: Key): Word {
    if HasTable(m, k.0) && Nr(m.dir[k.0]) < |m.mem| && k.1 < |m.mem[Nr(m.dir[k.0])]|
    then m.mem[Nr(m.dir[k.0])][k.1] else Zero
  }

  ghost predicate Layout(m: Image) {
    && |m.dir| == DIRS && |m.count| == |m.mem|
    && (forall f :: 0 <= f < |m.mem| ==> |m.mem[f]| == ENTRIES)
    && (forall d: nat :: HasTable(m, d) ==> Managed(m, m.dir[d]) && m.dir[d].writable)
    && (forall k: Key :: Entry(m, k).present ==> Managed(m, Entry(m, k)))
  }

  /** The MMU lets user mode read a page: at both levels. */
  predicate MayLoad(m: Image, k: Key) {
    HasTable(m, k.0) && m.dir[k.0].user && Entry(m, k).present && Entry(m, k).user
  }

  /** And write it. */
  predicate MayStore(m: Image, k: Key) {
    MayLoad(m, k) && m.dir[k.0].writable && Entry(m, k).writable
  }

  /** The present entries of user pages. */
  function Entries(m: Image): map<Key, Word> {
    map k | k in AllKeys && Entry(m, k).present :: Entry(m, k)
  }

  function Frames(es: map<Key, Word>): map<Key, nat> {
    map k | k in es :: Nr(es[k])
  }

  function Writable(es: map<Key, Word>): set<Key> {
    set k | k in es && es[k].writable
  }

  function Tables(dir: seq<Word>): map<nat, nat> {
    map d: nat | SLOT <= d < |dir| && dir[d].present :: Nr(dir[d])
  }

  function Picture(m: Image, held: seq<nat>): Accounts {
    Accounts(Frames(Entries(m)), Writable(Entries(m)), Tables(m.dir), m.count, held)
  }

  /** What each task sees in its memory: the contents of every page it has. */
  type Space = map<Key, Page>

  function SpaceIn(es: map<Key, Word>, mem: seq<Page>): Space {
    map k | k in es && Nr(es[k]) < |mem| :: mem[Nr(es[k])]
  }

  function SpaceOf(m: Image): Space {
    SpaceIn(Entries(m), m.mem)
  }

  ghost predicate Inv(m: Image, held: seq<nat>) {
    |held| == |m.mem| && Layout(m) && Good(Picture(m, held))
  }

  // ---- the stores the kernel makes ----

  function SetEntry(m: Image, k: Key, w: Word): Image {
    if HasTable(m, k.0) && Nr(m.dir[k.0]) < |m.mem| && k.1 < |m.mem[Nr(m.dir[k.0])]| then
      m.(mem := m.mem[Nr(m.dir[k.0]) := m.mem[Nr(m.dir[k.0])][k.1 := w]])
    else m
  }

  function SetDir(m: Image, d: nat, w: Word): Image {
    if d < |m.dir| then m.(dir := m.dir[d := w]) else m
  }

  function SetCount(m: Image, f: nat, c: nat): Image {
    if f < |m.count| then m.(count := m.count[f := c]) else m
  }

  function CountOf(m: Image, f: nat): nat {
    if f < |m.count| then m.count[f] else 0
  }

  function Minus1(c: nat): nat {
    if c > 0 then c - 1 else 0
  }

  function SetFrame(m: Image, f: nat, page: Page): Image {
    if f < |m.mem| then m.(mem := m.mem[f := page]) else m
  }

  function FrameAt(m: Image, f: nat): Page {
    if f < |m.mem| then m.mem[f] else []
  }

  /** A frame is allocated, filled by its owner, or given up. */
  function Allocated(m: Image, f: nat): Image {
    SetCount(SetFrame(m, f, ZeroPage()), f, 1)
  }

  function Freed(m: Image, f: nat): Image {
    SetCount(m, f, Minus1(CountOf(m, f)))
  }

  /** `*pg_table = 0` after free_page. */
  function Unmapped(m: Image, k: Key): Image {
    SetEntry(Freed(m, Nr(Entry(m, k))), k, Zero)
  }

  /** The new entry, then the old one without its write bit, then the count. */
  function Shared(m: Image, k: Key, to: Key): Image {
    SetCount(SetEntry(SetEntry(m, to, ReadOnly(Entry(m, k))), k, ReadOnly(Entry(m, k))),
             Nr(Entry(m, k)), CountOf(m, Nr(Entry(m, k))) + 1)
  }

  function Unprotected(m: Image, k: Key): Image {
    SetEntry(m, k, Entry(m, k).(writable := true))
  }

  /** free_page on the table, then `*dir = 0`. */
  function TableDropped(m: Image, d: nat): Image {
    if d < |m.dir| then SetDir(Freed(m, Nr(m.dir[d])), d, Zero) else m
  }

  // ---- storing one entry ----

  /** Page tables are separate frames, so a store to one entry changes that entry only. */
  lemma SetEntryEffect(m: Image, k: Key, w: Word)
    requires HasTable(m, k.0) && Nr(m.dir[k.0]) < |m.mem| && k.1 < |m.mem[Nr(m.dir[k.0])]|
    requires forall d: nat :: HasTable(m, d) && Nr(m.dir[d]) == Nr(m.dir[k.0]) ==> d == k.0
    ensures forall k': Key :: Entry(SetEntry(m, k, w), k') == if k' == k then w else Entry(m, k')
  {
  }

  lemma SetEntryKeepsLayout(m: Image, k: Key, w: Word)
    requires Layout(m) && HasTable(m, k.0) && k.1 < ENTRIES && (w.present ==> Managed(m, w))
    requires forall d: nat :: HasTable(m, d) && Nr(m.dir[d]) == Nr(m.dir[k.0]) ==> d == k.0
    ensures Layout(SetEntry(m, k, w))
  {
    SetEntryEffect(m, k, w);
  }

  lemma EntriesFollow(m: Image, m': Image, k: Key, w: Word)
    requires k in AllKeys && forall k': Key :: Entry(m', k') == if k' == k then w else Entry(m, k')
    ensures Entries(m') == if w.present then Entries(m)[k := w] else Entries(m) - {k}
  {
  }

  lemma FramesFollowEntries(es: map<Key, Word>, k: Key, w: Word)
    ensures Frames(es[k := w]) == Frames(es)[k := Nr(w)] && Frames(es - {k}) == Frames(es) - {k}
    ensures Writable(es[k := w]) == if w.writable then Writable(es) + {k} else Writable(es) - {k}
    ensures Writable(es - {k}) == Writable(es) - {k}
  {
  }

  /** What tasks see depends on the frames of user pages only. */
  lemma SpaceFollowsEntries(es: map<Key, Word>, mem: seq<Page>, mem': seq<Page>, k: Key, w: Word)
    requires |mem'| == |mem| && Nr(w) < |mem|
    requires forall k' :: k' in es && Nr(es[k']) < |mem| ==> mem'[Nr(es[k'])] == mem[Nr(es[k'])]
    ensures SpaceIn(es[k := w], mem') == SpaceIn(es, mem)[k := mem'[Nr(w)]]
    ensures SpaceIn(es - {k}, mem') == SpaceIn(es, mem) - {k}
  {
  }

  lemma SameSpace(es: map<Key, Word>, mem: seq<Page>, mem': seq<Page>)
    requires |mem'| == |mem|
    requires forall k :: k in es && Nr(es[k]) < |mem| ==> mem'[Nr(es[k])] == mem[Nr(es[k])]
    ensures SpaceIn(es, mem') == SpaceIn(es, mem)
  {
  }

  /** The table of `d` is in a frame of its own: no other table, and no user page. */
  ghost predicate OwnTable(m: Image, d: nat) {
    && HasTable(m, d)
    && (forall d': nat :: HasTable(m, d') && Nr(m.dir[d']) == Nr(m.dir[d]) ==> d' == d)
    && (forall k :: k in Entries(m) ==> Nr(Entries(m)[k]) != Nr(m.dir[d]))
  }

  lemma TableFacts(m: Image, held: seq<nat>, d: nat)
    requires Inv(m, held) && HasTable(m, d)
    ensures OwnTable(m, d)
    ensures d in Tables(m.dir) && Tables(m.dir)[d] == Nr(m.dir[d]) < |m.mem|
  {
    hide Counted, Aligned, WritersAlone;
    var a := Picture(m, held);
    assert d in a.tables && a.tables[d] == Nr(m.dir[d]);
    forall d': nat | HasTable(m, d') && Nr(m.dir[d']) == Nr(m.dir[d]) ensures d' == d {
      assert d' in a.tables;
    }
    assert IsTable(a, Nr(m.dir[d]));
    forall k | k in Entries(m) ensures Nr(Entries(m)[k]) != Nr(m.dir[d]) {
      assert k in a.frames;
    }
  }

  /** `m'` has the same tables, the entries `es`, and shows the tasks `sp`. */
  ghost predicate Becomes(m: Image, m': Image, es: map<Key, Word>, sp: Space) {
    Layout(m') && |m'.mem| == |m.mem| && Entries(m') == es && SpaceOf(m') == sp
  }

  /** A user page is not a page table, so no page that tasks see changes when a page table does. */
  lemma SetEntryChanges(m: Image, k: Key, w: Word)
    requires Layout(m) && OwnTable(m, k.0) && k in AllKeys
    requires w.present ==> Managed(m, w) && Nr(w) != Nr(m.dir[k.0])
    ensures w.present ==> Becomes(m, SetEntry(m, k, w), Entries(m)[k := w], SpaceOf(m)[k := FrameAt(m, Nr(w))])
    ensures !w.present ==> Becomes(m, SetEntry(m, k, w), Entries(m) - {k}, SpaceOf(m) - {k})
    ensures SetEntry(m, k, w).dir == m.dir && SetEntry(m, k, w).count == m.count
    ensures w.present ==> FrameAt(SetEntry(m, k, w), Nr(w)) == FrameAt(m, Nr(w))
  {
    assert k.1 < ENTRIES by { KeysExact(); }
    SetEntryEffect(m, k, w);
    SetEntryKeepsLayout(m, k, w);
    var m' := SetEntry(m, k, w);
    EntriesFollow(m, m', k, w);
    SpaceFollowsEntries(Entries(m), m.mem, m'.mem, k, if w.present then w else m.dir[k.0]);
  }

  lemma OwnTableAfterStore(m: Image, k: Key, w: Word, d: nat)
    requires Layout(m) && OwnTable(m, k.0) && k in AllKeys && OwnTable(m, d)
    requires w.present ==> Managed(m, w) && Nr(w) != Nr(m.dir[k.0]) && Nr(w) != Nr(m.dir[d])
    ensures OwnTable(SetEntry(m, k, w), d)
  {
    SetEntryChanges(m, k, w);
    hide Entry, Layout, Entries, SpaceOf;
  }

  // ---- what the invariant says of one frame ----

  /** A frame the kernel holds is neither a page table nor mapped. */
  lemma HeldFacts(m: Image, held: seq<nat>, f: nat)
    requires Inv(m, held) && f < |m.mem| && (held[f] > 0 || m.count[f] == 0)
    ensures forall d: nat :: HasTable(m, d) ==> Nr(m.dir[d]) != f
    ensures forall k :: k in Entries(m) ==> Nr(Entries(m)[k]) != f
  {
    hide Aligned, WritersAlone;
    var a := Picture(m, held);
    forall d: nat | HasTable(m, d) ensures Nr(m.dir[d]) != f {
      assert d in a.tables && IsTable(a, a.tables[d]);
    }
    forall k | k in Entries(m) ensures Nr(Entries(m)[k]) != f {
      assert k in a.frames;
      assert a.frames[k] == f ==> k in Users(a, f);
    }
  }

  /** A mapped frame is in range, no page table, and not held. */
  lemma MappedFacts(m: Image, held: seq<nat>, k: Key)
    requires Inv(m, held) && k in Entries(m)
    ensures HasTable(m, k.0) && Managed(m, Entries(m)[k]) && Entries(m)[k] == Entry(m, k) && held[Nr(Entry(m, k))] == 0
    ensures forall d: nat :: HasTable(m, d) ==> Nr(m.dir[d]) != Nr(Entry(m, k))
    ensures k in SpaceOf(m) && SpaceOf(m)[k] == FrameAt(m, Nr(Entry(m, k)))
    ensures k in Frames(Entries(m)) && Frames(Entries(m))[k] == Nr(Entry(m, k))
  {
    hide Counted, Aligned, WritersAlone;
    var a := Picture(m, held);
    assert k in a.frames;
    assert !IsTable(a, a.frames[k]);
    forall d: nat | HasTable(m, d) ensures Nr(m.dir[d]) != Nr(Entry(m, k)) {
      assert d in a.tables;
    }
  }

  /** mem_map's byte never wraps: a user frame is counted at most once per task. */
  lemma MappedCount(m: Image, held: seq<nat>, k: Key)
    requires Inv(m, held) && k in Entries(m)
    ensures 1 <= CountOf(m, Nr(Entry(m, k))) <= TASKS
  {
    hide Good;
    assert k in Picture(m, held).frames;
    UserCountBound(Picture(m, held), k);
  }

  /** Nobody else maps the frame of a page mapped for writing. */
  lemma WriterFacts(m: Image, held: seq<nat>, k: Key)
    requires Inv(m, held) && k in Entries(m) && Entry(m, k).writable
    ensures forall k' :: k' in Entries(m) && Nr(Entries(m)[k']) == Nr(Entry(m, k)) ==> k' == k
  {
    hide Counted, Aligned, Separate;
    var a := Picture(m, held);
    assert k in a.writable;
    forall k' | k' in Entries(m) && Nr(Entries(m)[k']) == Nr(Entry(m, k)) ensures k' == k {
      assert k' in a.frames;
    }
  }

  // ---- each change keeps the invariant ----

  /** `m'` shows the accounts `b`. */
  lemma Shows(m': Image, held': seq<nat>, b: Accounts)
    requires Layout(m') && |held'| == |m'.mem| && Good(b)
    requires Frames(Entries(m')) == b.frames && Writable(Entries(m')) == b.writable && Tables(m'.dir) == b.tables
    requires m'.count == b.count && held' == b.held
    ensures Inv(m', held')
  {
    assert Picture(m', held') == b;
  }

  /** A change of `count` alone leaves the rest as it was. */
  lemma CountOnly(m: Image, f: nat, c: nat)
    ensures Entries(SetCount(m, f, c)) == Entries(m) && SpaceOf(SetCount(m, f, c)) == SpaceOf(m)
    ensures Layout(m) ==> Layout(SetCount(m, f, c))
  {
    assert forall k: Key :: Entry(SetCount(m, f, c), k) == Entry(m, k);
  }

  /** The frame `f`, which is nobody's page table, gets new contents. */
  lemma FillFrame(m: Image, f: nat, page: Page)
    requires Layout(m) && f < |m.mem| && |page| == ENTRIES
    requires forall d: nat :: HasTable(m, d) ==> Nr(m.dir[d]) != f
    ensures Layout(SetFrame(m, f, page)) && Entries(SetFrame(m, f, page)) == Entries(m)
  {
    assert forall k: Key :: Entry(SetFrame(m, f, page), k) == Entry(m, k);
  }

  lemma FillUnmapped(m: Image, f: nat, page: Page)
    requires Layout(m) && f < |m.mem| && |page| == ENTRIES
    requires forall d: nat :: HasTable(m, d) ==> Nr(m.dir[d]) != f
    requires forall k :: k in Entries(m) ==> Nr(Entries(m)[k]) != f
    ensures Becomes(m, SetFrame(m, f, page), Entries(m), SpaceOf(m))
  {
    FillFrame(m, f, page);
    SameSpace(Entries(m), m.mem, SetFrame(m, f, page).mem);
  }

  /** get_free_page: a free frame is counted once and cleared. */
  lemma AllocateFrame(m: Image, held: seq<nat>, f: nat)
    requires Inv(m, held) && f < |m.mem| && m.count[f] == 0
    ensures held[f] == 0 && Inv(Allocated(m, f), held[f := 1])
    ensures Becomes(m, Allocated(m, f), Entries(m), SpaceOf(m)) && Allocated(m, f).dir == m.dir
  {
    var a := Picture(m, held);
    hide Good;
    HeldFacts(m, held, f);
    UnheldWhenFree(a, f);
    AllocateGood(a, f);
    FillUnmapped(m, f, ZeroPage());
    CountOnly(SetFrame(m, f, ZeroPage()), f, 1);
    Shows(Allocated(m, f), held[f := 1], Allocate(a, f));
  }

  lemma ReleaseFrame(m: Image, held: seq<nat>, f: nat)
    requires Inv(m, held) && f < |m.mem| && held[f] > 0
    ensures m.count[f] > 0 && Inv(Freed(m, f), held[f := held[f] - 1])
    ensures Becomes(m, Freed(m, f), Entries(m), SpaceOf(m)) && Freed(m, f).dir == m.dir
  {
    hide Good, Entries, Frames, Writable, SpaceOf;
    ReleaseGood(Picture(m, held), f);
    CountOnly(m, f, Minus1(CountOf(m, f)));
    Shows(Freed(m, f), held[f := held[f] - 1], Release(Picture(m, held), f));
  }

  /** The kernel fills a frame it holds (reading a disk block into it, copying a page to it). */
  lemma FillHeld(m: Image, held: seq<nat>, f: nat, page: Page)
    requires Inv(m, held) && f < |m.mem| && held[f] > 0 && |page| == ENTRIES
    ensures Inv(SetFrame(m, f, page), held) && Becomes(m, SetFrame(m, f, page), Entries(m), SpaceOf(m))
  {
    hide Good;
    HeldFacts(m, held, f);
    FillUnmapped(m, f, page);
    Shows(SetFrame(m, f, page), held, Picture(m, held));
  }

  /** `*table_entry = page | 7` for a held frame, where nothing was mapped. */
  lemma InstallPage(m: Image, held: seq<nat>, k: Key, f: nat)
    requires Inv(m, held) && f < |m.mem| && held[f] == 1 && k in AllKeys && HasTable(m, k.0) && k !in Entries(m)
    ensures Inv(SetEntry(m, k, Entry7(f)), held[f := 0])
    ensures Becomes(m, SetEntry(m, k, Entry7(f)), Entries(m)[k := Entry7(f)], SpaceOf(m)[k := FrameAt(m, f)])
    ensures SetEntry(m, k, Entry7(f)).dir == m.dir
  {
    hide Good, Entry, Entries, Frames, Writable, SpaceOf, SetEntry;
    var a := Picture(m, held);
    assert k.0 < DIRS by { KeysExact(); }
    HeldFacts(m, held, f);
    TableFacts(m, held, k.0);
    SetEntryChanges(m, k, Entry7(f));
    FramesDomain(Entries(m), k);
    InstallGood(a, k, f);
    FramesFollowEntries(Entries(m), k, Entry7(f));
    Shows(SetEntry(m, k, Entry7(f)), held[f := 0], Install(a, k, f));
  }

  /** free_page on the frame of `k`, and `*pg_table = 0`. */
  lemma UnmapPage(m: Image, held: seq<nat>, k: Key)
    requires Inv(m, held) && k in Entries(m)
    ensures Inv(Unmapped(m, k), held)
    ensures Becomes(m, Unmapped(m, k), Entries(m) - {k}, SpaceOf(m) - {k}) && Unmapped(m, k).dir == m.dir
  {
    hide Good, Frames, Writable, SpaceOf, SetEntry, Entry;
    var a := Picture(m, held);
    MappedFacts(m, held, k);
    TableFacts(m, held, k.0);
    var f := Nr(Entry(m, k));
    var m1 := Freed(m, f);
    CountOnly(m, f, Minus1(CountOf(m, f)));
    assert OwnTable(m1, k.0);
    SetEntryChanges(m1, k, Zero);
    UnmapGood(a, k);
    FramesFollowEntries(Entries(m), k, Zero);
    Shows(Unmapped(m, k), held, Unmap(a, k));
  }

  lemma RemoveAbsent<V>(es: map<Key, V>, k: Key)
    requires k !in es
    ensures es - {k} == es
  {
  }

  /** An entry that is already absent may be cleared again. */
  lemma ClearAbsent(m: Image, held: seq<nat>, k: Key)
    requires Inv(m, held) && k in AllKeys && HasTable(m, k.0) && k !in Entries(m)
    ensures Inv(SetEntry(m, k, Zero), held)
    ensures Becomes(m, SetEntry(m, k, Zero), Entries(m), SpaceOf(m)) && SetEntry(m, k, Zero).dir == m.dir
  {
    hide Good, Entry, Entries, Frames, Writable, SetEntry;
    TableFacts(m, held, k.0);
    SetEntryChanges(m, k, Zero);
    RemoveAbsent(Entries(m), k);
    RemoveAbsent(SpaceOf(m), k);
    Shows(SetEntry(m, k, Zero), held, Picture(m, held));
  }

  /** Storing an entry that maps the frame it mapped before, with other flags, changes nothing tasks see. */
  lemma Remap(m: Image, k: Key, w: Word)
    requires Layout(m) && OwnTable(m, k.0) && k in AllKeys && w.present && Managed(m, w) && Nr(w) != Nr(m.dir[k.0])
    requires k in SpaceOf(m) && SpaceOf(m)[k] == FrameAt(m, Nr(w))
    ensures Becomes(m, SetEntry(m, k, w), Entries(m)[k := w], SpaceOf(m))
    ensures SetEntry(m, k, w).dir == m.dir && SetEntry(m, k, w).count == m.count
  {
    hide Entries, SpaceOf, OwnTable, Layout, Entry, SetEntry;
    SetEntryChanges(m, k, w);
    assert SpaceOf(m)[k := SpaceOf(m)[k]] == SpaceOf(m);
  }

  /** The two stores of a share: first the new entry, then the old one again without its write bit. */
  lemma ShareStores(m: Image, k: Key, to: Key, w: Word)
    requires Layout(m) && k in Entries(m) && to in AllKeys && to !in Entries(m) && w == ReadOnly(Entries(m)[k])
    requires OwnTable(m, k.0) && OwnTable(m, to.0) && Managed(m, w) && k in SpaceOf(m)
             && SpaceOf(m)[k] == FrameAt(m, Nr(w))
    ensures Becomes(m, SetEntry(SetEntry(m, to, w), k, w), Entries(m)[to := w][k := w], SpaceOf(m)[to := SpaceOf(m)[k]])
    ensures SetEntry(SetEntry(m, to, w), k, w).dir == m.dir && SetEntry(SetEntry(m, to, w), k, w).count == m.count
  {
    hide Entry, Layout, SpaceOf, SetEntry;
    assert w.present && k in AllKeys && Nr(w) != Nr(m.dir[k.0]) && Nr(w) != Nr(m.dir[to.0]);
    SetEntryChanges(m, to, w);
    OwnTableAfterStore(m, to, w, k.0);
    Remap(SetEntry(m, to, w), k, w);
  }

  lemma FramesDomain(es: map<Key, Word>, k: Key)
    ensures k in Frames(es) <==> k in es
    ensures k in es ==> Frames(es)[k] == Nr(es[k])
  {
  }

  lemma ShareAccounts(m: Image, m': Image, held: seq<nat>, k: Key, to: Key, w: Word)
    requires Inv(m, held) && Layout(m') && |m'.mem| == |m.mem| && m'.dir == m.dir
    requires k in Entries(m) && w == ReadOnly(Entries(m)[k]) && Nr(w) < |m.count| && to !in Entries(m)
    requires to.0 in Tables(m.dir) && to.0 < DIRS && Fellows(k, to)
    requires Entries(m') == Entries(m)[to := w][k := w] && m'.count == m.count[Nr(w) := m.count[Nr(w)] + 1]
    ensures Inv(m', held)
  {
    hide Good, Entry, HasTable, Fellows, Entries, Frames, Writable;
    var a, es := Picture(m, held), Entries(m);
    FramesDomain(es, k);
    FramesDomain(es, to);
    ShareGood(a, k, to);
    FramesFollowEntries(es, to, w);
    FramesFollowEntries(es[to := w], k, w);
    assert a.frames[to := Nr(w)][k := Nr(w)] == a.frames[to := Nr(w)];
    assert a.writable - {to} - {k} == a.writable - {k, to};
    Shows(m', held, Share(a, k, to));
  }

  /** Both pages map the frame of `k` read-only, and it is counted once more (copy_page_tables, try_to_share). */
  lemma SharePage(m: Image, held: seq<nat>, k: Key, to: Key)
    requires Inv(m, held) && k in Entries(m) && to in AllKeys && HasTable(m, to.0) && to !in Entries(m)
    requires Fellows(k, to)
    ensures Inv(Shared(m, k, to), held) && k in SpaceOf(m)
    ensures Becomes(m, Shared(m, k, to), Entries(m)[to := ReadOnly(Entry(m, k))][k := ReadOnly(Entry(m, k))],
                    SpaceOf(m)[to := SpaceOf(m)[k]])
    ensures Shared(m, k, to).dir == m.dir
  {
    hide Good, Fellows, Entry, Entries, SpaceOf, SetEntry, Picture, OwnTable, HasTable, Tables;
    var w := ReadOnly(Entry(m, k));
    MappedFacts(m, held, k);
    TableFacts(m, held, k.0);
    TableFacts(m, held, to.0);
    assert to.0 < DIRS by { KeysExact(); }
    ShareStores(m, k, to, w);
    CountOnly(SetEntry(SetEntry(m, to, w), k, w), Nr(w), CountOf(m, Nr(w)) + 1);
    ShareAccounts(m, Shared(m, k, to), held, k, to, w);
  }

  lemma AddStores(m: Image, d: nat, f: nat)
    requires Layout(m) && f < |m.mem| && m.mem[f] == ZeroPage() && SLOT <= d < DIRS && !HasTable(m, d)
    ensures HasTable(SetDir(m, d, Entry7(f)), d) && Becomes(m, SetDir(m, d, Entry7(f)), Entries(m), SpaceOf(m))
  {
    var m' := SetDir(m, d, Entry7(f));
    forall k: Key ensures Entry(m', k) == Entry(m, k) || (!Entry(m', k).present && !Entry(m, k).present) {}
    assert Entries(m') == Entries(m);
  }

  lemma TablesAfterAdd(dir: seq<Word>, d: nat, f: nat)
    requires SLOT <= d < |dir| && !dir[d].present
    ensures Tables(dir[d := Entry7(f)]) == Tables(dir)[d := f] && d !in Tables(dir)
  {
  }

  /** A held, cleared frame becomes a page table, `*to_dir = to_page_table | 7`. */
  lemma AddPageTable(m: Image, held: seq<nat>, d: nat, f: nat)
    requires Inv(m, held) && f < |m.mem| && held[f] == 1 && m.mem[f] == ZeroPage()
    requires SLOT <= d < DIRS && !HasTable(m, d)
    ensures Inv(SetDir(m, d, Entry7(f)), held[f := 0]) && HasTable(SetDir(m, d, Entry7(f)), d)
    ensures Becomes(m, SetDir(m, d, Entry7(f)), Entries(m), SpaceOf(m))
    ensures Tables(SetDir(m, d, Entry7(f)).dir) == Tables(m.dir)[d := f]
  {
    hide Good, Entry, Entries, Frames, Writable, SpaceOf, Tables;
    AddStores(m, d, f);
    TablesAfterAdd(m.dir, d, f);
    AddTableGood(Picture(m, held), d, f);
    Shows(SetDir(m, d, Entry7(f)), held[f := 0], AddTable(Picture(m, held), d, f));
  }

  lemma TablesAfterDrop(dir: seq<Word>, d: nat)
    requires d < |dir|
    ensures Tables(dir[d := Zero]) == Tables(dir) - {d}
  {
  }

  lemma DropStores(m: Image, d: nat)
    requires Layout(m) && SLOT <= d < DIRS && forall k :: k in Entries(m) ==> k.0 != d
    ensures Becomes(m, TableDropped(m, d), Entries(m), SpaceOf(m))
    ensures TableDropped(m, d).dir == m.dir[d := Zero]
  {
    var m' := TableDropped(m, d);
    assert forall k: Key :: Entry(m', k) == if k.0 == d then Zero else Entry(m, k);
    assert Entries(m') == Entries(m);
  }

  /** A page table without present entries goes. */
  lemma DropPageTable(m: Image, held: seq<nat>, d: nat)
    requires Inv(m, held) && HasTable(m, d) && forall k :: k in Entries(m) ==> k.0 != d
    ensures Inv(TableDropped(m, d), held) && CountOf(m, Nr(m.dir[d])) == 1
    ensures Becomes(m, TableDropped(m, d), Entries(m), SpaceOf(m))
    ensures TableDropped(m, d).dir == m.dir[d := Zero] && Tables(m.dir[d := Zero]) == Tables(m.dir) - {d}
  {
    hide Good, Entry, Entries, Writable, SpaceOf, Tables;
    TableFacts(m, held, d);
    DropTableGood(Picture(m, held), d);
    DropStores(m, d);
    TablesAfterDrop(m.dir, d);
    Shows(TableDropped(m, d), held, DropTable(Picture(m, held), d));
  }

  lemma UnprotectAccounts(m: Image, m': Image, held: seq<nat>, k: Key, w: Word)
    requires Inv(m, held) && Layout(m') && |m'.mem| == |m.mem| && m'.dir == m.dir && m'.count == m.count
    requires k in Entries(m) && w == Entries(m)[k].(writable := true) && Nr(w) < |m.count| && m.count[Nr(w)] == 1
    requires Entries(m') == Entries(m)[k := w]
    ensures Inv(m', held)
  {
    hide Good, Entry, HasTable, Entries, Frames, Writable;
    var a, es := Picture(m, held), Entries(m);
    FramesDomain(es, k);
    UnprotectGood(a, k);
    FramesFollowEntries(es, k, w);
    assert a.frames[k := Nr(w)] == a.frames;
    Shows(m', held, Unprotect(a, k));
  }

  /** un_wp_page on a frame counted once: the page becomes writable. */
  lemma UnprotectPage(m: Image, held: seq<nat>, k: Key)
    requires Inv(m, held) && k in Entries(m) && CountOf(m, Nr(Entry(m, k))) == 1
    ensures Inv(Unprotected(m, k), held)
    ensures Becomes(m, Unprotected(m, k), Entries(m)[k := Entry(m, k).(writable := true)], SpaceOf(m))
    ensures Unprotected(m, k).dir == m.dir
  {
    hide Good, Entry, SpaceOf, SetEntry, Picture, OwnTable, HasTable, Tables;
    var w := Entry(m, k).(writable := true);
    MappedFacts(m, held, k);
    TableFacts(m, held, k.0);
    assert k in AllKeys && w.present;
    Remap(m, k, w);
    UnprotectAccounts(m, Unprotected(m, k), held, k, w);
  }

  lemma StoreSpace(m: Image, k: Key, page: Page)
    requires Layout(m) && k in Entries(m) && Managed(m, Entries(m)[k])
    requires forall k' :: k' in Entries(m) && Nr(Entries(m)[k']) == Nr(Entries(m)[k]) ==> k' == k
    ensures SpaceIn(Entries(m), SetFrame(m, Nr(Entries(m)[k]), page).mem) == SpaceOf(m)[k := page]
  {
    hide Entry;
  }

  /** A user's store to a writable page changes that one page, in that one task. */
  lemma StoreWord(m: Image, held: seq<nat>, k: Key, page: Page)
    requires Inv(m, held) && k in Entries(m) && Entry(m, k).writable && |page| == ENTRIES
    ensures Inv(SetFrame(m, Nr(Entry(m, k)), page), held)
    ensures Becomes(m, SetFrame(m, Nr(Entry(m, k)), page), Entries(m), SpaceOf(m)[k := page])
  {
    hide Good, Entry, Entries, Frames, Writable, HasTable, SpaceIn;
    MappedFacts(m, held, k);
    WriterFacts(m, held, k);
    FillFrame(m, Nr(Entry(m, k)), page);
    StoreSpace(m, k, page);
    Shows(SetFrame(m, Nr(Entry(m, k)), page), held, Picture(m, held));
  }
}
