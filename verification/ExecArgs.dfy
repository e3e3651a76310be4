/** How do_execve of fs/exec.c hands arguments and environment to a new program: copy_strings fills the top of the new
  * memory from above, create_tables puts the pointer tables below.
  *
  * The test of line 128 compares an unsigned number with zero and never holds, so fitting into the 128 kB is a
  * precondition.
  */
module ExecArgs {
  import opened Wrappers

  type Byte = x: int | 0 <= x < 256
  type Letter = x: int | 0 < x < 256 witness 1

  /** A string without its terminating zero. */
  type Str = seq<Letter>

  const PAGE_SIZE: nat := 4096
  const MAX_ARG_PAGES: nat := 32
  const AREA: nat := 131072          // PAGE_SIZE * MAX_ARG_PAGES
  const DATA_LIMIT: nat := 0x4000000

  type Page = b: seq<Byte> | |b| == 4096 witness seq(4096, _ => 0)

  function ZeroPage(): Page {
    seq(4096, _ => 0)
  }

  // ---- strings one after another ----

  function Bytes(s: Str): (r: seq<Byte>)
    ensures |r| == |s| + 1 && r[|s|] == 0 && forall i :: 0 <= i < |s| ==> r[i] == s[i]
  {
    seq(|s| + 1, i requires 0 <= i <= |s| => if i < |s| then s[i] as int else 0)
  }

  function Flat(ss: seq<Str>): seq<Byte> {
    if ss == [] then [] else Bytes(ss[0]) + Flat(ss[1..])
  }

  lemma {:induction false} FlatAppend(a: seq<Str>, b: seq<Str>)
    ensures Flat(a + b) == Flat(a) + Flat(b)
  {
    if a == [] {
      assert a + b == b && Flat(a) + Flat(b) == Flat(b);
    } else {
      FlatAppend(a[1..], b);
      assert (a + b)[1..] == a[1..] + b;
      assert Bytes(a[0]) + (Flat(a[1..]) + Flat(b)) == (Bytes(a[0]) + Flat(a[1..])) + Flat(b);
    }
  }

  /** Where string `x` starts. */
  function Start(ss: seq<Str>, x: nat): nat
    requires x <= |ss|
  {
    |Flat(ss[..x])|
  }

  lemma StartNext(ss: seq<Str>, x: nat)
    requires x < |ss|
    ensures Start(ss, x + 1) == Start(ss, x) + |ss[x]| + 1 <= |Flat(ss)|
    ensures Flat(ss)[Start(ss, x)..Start(ss, x + 1)] == Bytes(ss[x])
  {
    assert ss[..x + 1] == ss[..x] + [ss[x]];
    FlatAppend(ss[..x], [ss[x]]);
    assert Flat([ss[x]]) == Bytes(ss[x]);
    assert ss == ss[..x + 1] + ss[x + 1..];
    FlatAppend(ss[..x + 1], ss[x + 1..]);
  }

  lemma {:induction false} FlatSize(ss: seq<Str>)
    ensures |ss| <= |Flat(ss)|
  {
    if ss != [] { FlatSize(ss[1..]); }
  }

  // ---- the argument pages ----

  /** The byte at place `a` of the area; a page not there reads as zeros. */
  function ByteAt(page: seq<Option<Page>>, a: nat): Byte {
    if a / PAGE_SIZE < |page| && page[a / PAGE_SIZE].Some? then page[a / PAGE_SIZE].value[a % PAGE_SIZE] else 0
  }

  /** The bytes of `b` are in the area from `p` on. */
  predicate Holds(page: seq<Option<Page>>, p: nat, b: seq<Byte>) {
    forall i :: 0 <= i < |b| ==> ByteAt(page, p + i) == b[i]
  }

  ghost predicate SameOutside(was: seq<Option<Page>>, now: seq<Option<Page>>, from: nat, to: nat) {
    forall a: nat :: !(from <= a < to) ==> ByteAt(now, a) == ByteAt(was, a)
  }

  lemma StoreByte(page: seq<Option<Page>>, k: nat, off: nat, b: Byte)
    requires k < |page| && page[k].Some? && off < PAGE_SIZE
    ensures var page' := page[k := Some(page[k].value[off := b])];
      forall a: nat :: ByteAt(page', a) == if a == k * PAGE_SIZE + off then b else ByteAt(page, a)
  {
  }

  lemma FreshPage(page: seq<Option<Page>>, k: nat)
    requires k < |page| && page[k].None?
    ensures forall a: nat :: ByteAt(page[k := Some(ZeroPage())], a) == ByteAt(page, a)
  {
  }

  // ---- when the strings are too long ----

  const TWO_32: nat := 0x1_0000_0000

  /** The place `i` bytes below `p`, in 32 bits, and the index into `page` that copy_strings uses there. */
  function Below(p: nat, i: nat): nat {
    (p - i) % TWO_32
  }

  function PageIndex(p: nat, i: nat): nat {
    Below(p, i) / PAGE_SIZE
  }

  /** The copy of `n` bytes stays inside `page` exactly if they fit below `p`. */
  lemma StaysInsideExactly(p: nat, n: nat)
    requires p <= AREA
    ensures (forall i: nat :: 1 <= i <= n ==> PageIndex(p, i) < MAX_ARG_PAGES) <==> n <= p
  {
    if n > p {
      assert Below(p, p + 1) == TWO_32 - 1;
      assert PageIndex(p, p + 1) >= MAX_ARG_PAGES;
    } else {
      forall i: nat | 1 <= i <= n ensures PageIndex(p, i) < MAX_ARG_PAGES {
        assert Below(p, i) == p - i;
      }
    }
  }

  /** A string of 131068 letters at the top of an empty area: its zero is the byte too many, and the index of its first
    * letter is far outside. */
  lemma TooLongExample(s: Str)
    requires |s| == AREA - 4
    ensures |Flat([s])| == AREA - 3 && PageIndex(AREA - 4, |Flat([s])|) == 1048575
  {
    assert Flat([s]) == Bytes(s);
  }

  // ---- how many pages that takes ----

  /** How many of the pages from `lo` up to `hi` are not there. */
  function Missing(page: seq<Option<Page>>, lo: nat, hi: nat): nat
    requires hi <= |page|
    decreases hi - lo
  {
    if lo >= hi then 0 else (if page[lo].None? then 1 else 0) + Missing(page, lo + 1, hi)
  }

  /** How many pages have to be got for storing into every place from `p` up to `top`. */
  function Needs(page: seq<Option<Page>>, p: nat, top: nat): nat
    requires |page| == MAX_ARG_PAGES && p <= top <= AREA
  {
    if p == top then 0 else Missing(page, p / PAGE_SIZE, (top - 1) / PAGE_SIZE + 1)
  }

  /** Since there were the pages `page0` and `free0` more, just those needed from `p` up to `top` have been got. */
  ghost predicate Got(page0: seq<Option<Page>>, free0: nat, page: seq<Option<Page>>, free: nat, p: nat, top: nat) {
    && |page0| == |page| == MAX_ARG_PAGES && p <= top <= AREA && free + Needs(page0, p, top) == free0
    && forall k: nat :: k < |page| ==>
         (page[k].Some? <==> page0[k].Some? || (p < top && p / PAGE_SIZE <= k <= (top - 1) / PAGE_SIZE))
  }

  lemma NeedsStep(page: seq<Option<Page>>, p: nat, top: nat)
    requires |page| == MAX_ARG_PAGES && 0 < p <= top <= AREA
    ensures var k := (p - 1) / PAGE_SIZE;
      Needs(page, p - 1, top) ==
        Needs(page, p, top) + if page[k].None? && !(p < top && k == p / PAGE_SIZE) then 1 else 0
  {
    var k, hi := (p - 1) / PAGE_SIZE, (top - 1) / PAGE_SIZE + 1;
    assert Needs(page, p - 1, top) == Missing(page, k, hi);
    if p == top {
      assert Missing(page, k + 1, hi) == 0;
    } else {
      assert p / PAGE_SIZE == k || p / PAGE_SIZE == k + 1;
    }
  }

  lemma {:induction false} NeedsMore(page: seq<Option<Page>>, q: nat, p: nat, top: nat)
    requires |page| == MAX_ARG_PAGES && q <= p <= top <= AREA
    ensures Needs(page, p, top) <= Needs(page, q, top)
    decreases p - q
  {
    hide Needs;
    if q < p {
      NeedsStep(page, p, top);
      NeedsMore(page, q, p - 1, top);
    }
  }

  /** The next byte down goes into a page that is there, or needs one more. */
  lemma GotMore(page0: seq<Option<Page>>, free0: nat, page: seq<Option<Page>>, free: nat, p: nat, top: nat, b: Page)
    requires Got(page0, free0, page, free, p, top) && p > 0
    ensures var k := (p - 1) / PAGE_SIZE;
      && (page[k].Some? ==> Got(page0, free0, page[k := Some(b)], free, p - 1, top))
      && (page[k].None? && free > 0 ==> Got(page0, free0, page[k := Some(b)], free - 1, p - 1, top))
      && (page[k].None? && free == 0 ==> free0 < Needs(page0, p - 1, top))
  {
    hide Needs;
    NeedsStep(page0, p, top);
  }

  /** A page got is one missing less. */
  lemma {:induction false} MissingPut(page: seq<Option<Page>>, k: nat, b: Option<Page>, lo: nat, hi: nat)
    requires k < |page| && hi <= |page|
    ensures Missing(page[k := b], lo, hi) ==
            Missing(page, lo, hi)
            + if lo <= k < hi then (if b.None? then 1 else 0) - (if page[k].None? then 1 else 0) else 0
    decreases hi - lo
  {
    if lo < hi { MissingPut(page, k, b, lo + 1, hi); }
  }

  function NoPages(): seq<Option<Page>> {
    seq(MAX_ARG_PAGES, _ => None)
  }

  /** The pages that `n` bytes below the last word of the area lie in. */
  function PagesFor(n: nat): (r: nat)
    requires n < AREA - 4
    ensures r <= MAX_ARG_PAGES
  {
    if n == 0 then 0 else MAX_ARG_PAGES - (AREA - 4 - n) / PAGE_SIZE
  }

  lemma {:induction false} NonePresent(lo: nat, hi: nat)
    requires lo <= hi <= MAX_ARG_PAGES
    ensures Missing(NoPages(), lo, hi) == hi - lo
    decreases hi - lo
  {
    if lo < hi { NonePresent(lo + 1, hi); }
  }

  lemma NeedsAtFirst(n: nat)
    requires n < AREA - 4
    ensures Needs(NoPages(), AREA - 4 - n, AREA - 4) == PagesFor(n)
  {
    NonePresent((AREA - 4 - n) / PAGE_SIZE, MAX_ARG_PAGES);
  }

  class ArgArea {
    var page: seq<Option<Page>>
    var free: nat      // pages get_free_page can still give

    /** All the pages there are to have: those still free and those in the area. */
    ghost function Supply(): int
      reads this
    {
      free - Missing(page, 0, |page|)
    }

    constructor (free: nat)
      ensures page == NoPages() && (forall a: nat :: ByteAt(page, a) == 0) && this.free == free
    {
      page := NoPages();
      this.free := free;
    }

    /** copy_strings: the first `argc` strings end up, in order, just below where `from` was; 0 if memory runs out.
      * Pages are counted from any earlier state on, `page0` and `free0`, when `from` was at `top`. */
    method CopyStrings(argc: int, argv: seq<Str>, from: nat, ghost page0: seq<Option<Page>>, ghost free0: nat,
          ghost top: nat)
        returns (p: nat)
      requires |page| == MAX_ARG_PAGES && argc <= |argv| && from <= AREA
      requires from == 0 || |Flat(argv[..if argc < 0 then 0 else argc])| <= from
      requires from == 0 || Got(page0, free0, page, free, from, top)
      modifies this
      ensures |page| == MAX_ARG_PAGES && Supply() == old(Supply())
      ensures from == 0 ==> p == 0 && page == old(page) && free == old(free)
      ensures var b := Flat(argv[..if argc < 0 then 0 else argc]);
        from > |b| && p == 0 ==> free0 < Needs(page0, from - |b|, top)
      ensures var b := Flat(argv[..if argc < 0 then 0 else argc]);
        p != 0 ==> && p + |b| == from && Holds(page, p, b) && SameOutside(old(page), page, p, from)
                   && Got(page0, free0, page, free, p, top)
    {
      hide ByteAt, Needs, Got, Flat, Missing;
      p := from;
      if p == 0 {
        return;
      }
      GotBounds(page0, free0, page, free, p, top);
      var n := if argc < 0 then 0 else argc;
      var left := argc;
      var pag, offset: int := -1, 0;
      FlatEmpty();
      assert argv[n..n] == [];
      while left > 0
        invariant left <= n && (left < 0 ==> n == 0) && |page| == MAX_ARG_PAGES && Supply() == old(Supply())
        invariant var m := if left < 0 then 0 else left;
          && p + |Flat(argv[m..n])| == from && |Flat(argv[..m])| <= p
             && |Flat(argv[..m])| + |Flat(argv[m..n])| == |Flat(argv[..n])|
          && Holds(page, p, Flat(argv[m..n])) && SameOutside(old(page), page, p, from)
        invariant Positioned(page, pag, offset, p) && Got(page0, free0, page, free, p, top)
      {
        left := left - 1;
        var s := argv[left];
        ghost var below := p;
        StringFits(argv, left, n);
        var ok;
        ok, p, pag, offset := CopyString(s, p, pag, offset, page0, free0, top);
        if !ok {
          NeedsMore(page0, from - |Flat(argv[..n])|, below - |s| - 1, top);
          return 0;
        }
        Joined(page, p, Bytes(s), Flat(argv[left + 1..n]));
        assert argv[left..n][0] == s && argv[left..n][1..] == argv[left + 1..n];
      }
      assert argv[0..n] == argv[..n];
    }

    /** One string of copy_strings: its length is counted, then it is copied from the end. */
    method CopyString(s: Str, from: nat, pag0: int, offset0: int, ghost page0: seq<Option<Page>>, ghost free0: nat,
                      ghost top: nat) returns (ok: bool, p: nat, pag: int, offset: int)
      requires |page| == MAX_ARG_PAGES && |s| + 1 <= from <= AREA && Positioned(page, pag0, offset0, from)
      requires Got(page0, free0, page, free, from, top)
      modifies this
      ensures |page| == MAX_ARG_PAGES && |page0| == MAX_ARG_PAGES && from <= top <= AREA && Supply() == old(Supply())
      ensures !ok ==> free0 < Needs(page0, from - |s| - 1, top)
      ensures ok ==> p == from - |s| - 1 && Holds(page, p, Bytes(s)) && SameOutside(old(page), page, p, from)
      ensures ok ==> Positioned(page, pag, offset, p) && Got(page0, free0, page, free, p, top)
    {
      hide ByteAt, Got, Needs, Missing;
      GotBounds(page0, free0, page, free, from, top);
      var text := Bytes(s);
      var tmp, len := Length(s);
      p, pag, offset, ok := from, pag0, offset0, true;
      while len != 0
        invariant 0 <= len <= |text| && tmp == len && p == from - |text| + len && |page| == MAX_ARG_PAGES
        invariant Holds(page, p, text[len..]) && SameOutside(old(page), page, p, from)
                  && Positioned(page, pag, offset, p)
        invariant Got(page0, free0, page, free, p, top) && Supply() == old(Supply())
      {
        ghost var was, at, had := page, p, free;
        p, tmp, len := p - 1, tmp - 1, len - 1;
        offset := offset - 1;
        if offset < 0 {
          offset := p % PAGE_SIZE;
          pag := p / PAGE_SIZE;
          if page[pag].None? {
            if free == 0 {
              GotMore(page0, free0, was, had, at, top, ZeroPage());
              NeedsMore(page0, from - |s| - 1, p, top);
              ok := false;
              return;
            }
            free := free - 1;
            FreshPage(page, pag);
            MissingPut(page, pag, Some(ZeroPage()), 0, MAX_ARG_PAGES);
            page := page[pag := Some(ZeroPage())];
          }
        }
        assert pag == p / PAGE_SIZE;
        StoreByte(page, pag, offset, text[tmp]);
        MissingPut(page, pag, Some(page[pag].value[offset := text[tmp]]), 0, MAX_ARG_PAGES);
        page := page[pag := Some(page[pag].value[offset := text[tmp]])];
        GotMore(page0, free0, was, had, at, top, page[pag].value);
        assert page == was[pag := page[pag]];
        OneMore(was, page, p, text, len);
      }
      assert text[0..] == text;
    }

    /** exec_error1: every page of the area is given back. */
    method Release()
      modifies this
      ensures Supply() == old(Supply()) && |page| == old(|page|) && forall k :: 0 <= k < |page| ==> page[k].None?
    {
      hide Missing;
      var i := 0;
      while i < |page|
        invariant 0 <= i <= |page| == old(|page|) && Supply() == old(Supply())
        invariant forall k :: 0 <= k < i ==> page[k].None?
      {
        MissingPut(page, i, None, 0, |page|);
        if page[i].Some? {
          free := free + 1;
        }
        page := page[i := None];
        i := i + 1;
      }
    }
  }

  lemma GotBounds(page0: seq<Option<Page>>, free0: nat, page: seq<Option<Page>>, free: nat, p: nat, top: nat)
    requires Got(page0, free0, page, free, p, top)
    ensures |page0| == |page| == MAX_ARG_PAGES && p <= top <= AREA
  {
  }

  /** The length of a string with its zero; `tmp` has moved behind it. */
  method Length(s: Str) returns (tmp: nat, len: nat)
    ensures tmp == len == |s| + 1
  {
    var text := Bytes(s);
    tmp, len := 0, 0;
    while true
      invariant tmp == len <= |s|
      decreases |s| - len
    {
      len := len + 1;
      tmp := tmp + 1;
      if text[tmp - 1] == 0 {
        break;
      }
    }
  }

  /** `pag` and `offset` point at place `p`, or at nothing yet, or the page is used up. */
  predicate Positioned(page: seq<Option<Page>>, pag: int, offset: int, p: nat) {
    0 <= offset <= PAGE_SIZE && (offset > 0 ==> 0 <= pag < |page| && page[pag].Some? && pag * PAGE_SIZE + offset == p)
  }

  lemma OneMore(was: seq<Option<Page>>, now: seq<Option<Page>>, p: nat, text: seq<Byte>, len: nat)
    requires len < |text| && Holds(was, p + 1, text[len + 1..])
    requires forall a: nat :: ByteAt(now, a) == if a == p then text[len] else ByteAt(was, a)
    ensures Holds(now, p, text[len..])
  {
    hide ByteAt;
    forall i | 0 <= i < |text[len..]| ensures ByteAt(now, p + i) == text[len..][i] {
      if i > 0 { assert ByteAt(was, (p + 1) + (i - 1)) == text[len + 1..][i - 1]; }
    }
  }

  lemma Joined(page: seq<Option<Page>>, p: nat, a: seq<Byte>, b: seq<Byte>)
    requires Holds(page, p, a) && Holds(page, p + |a|, b)
    ensures Holds(page, p, a + b)
  {
    hide ByteAt;
    forall i | 0 <= i < |a + b| ensures ByteAt(page, p + i) == (a + b)[i] {
      if i >= |a| { assert ByteAt(page, (p + |a|) + (i - |a|)) == b[i - |a|]; }
    }
  }

  /** The next string fits if all of the rest do. */
  lemma StringFits(argv: seq<Str>, left: nat, n: nat)
    requires left < n <= |argv|
    ensures |Flat(argv[..left + 1])| == |Flat(argv[..left])| + |argv[left]| + 1
    ensures Flat(argv[left..n]) == Bytes(argv[left]) + Flat(argv[left + 1..n])
  {
    assert argv[..left + 1] == argv[..left] + [argv[left]];
    FlatAppend(argv[..left], [argv[left]]);
    assert Flat([argv[left]]) == Bytes(argv[left]);
    assert argv[left..n][1..] == argv[left + 1..n];
  }

  // ---- the new program's memory ----

  const BASE: nat := DATA_LIMIT - AREA

  /** The data segment: the argument pages at its top, put there by change_ldt, and what has been stored since. */
  datatype Memory = Memory(page: seq<Option<Page>>, stores: map<nat, Byte>)

  function Mem(m: Memory, a: nat): Byte {
    if a in m.stores then m.stores[a] else if BASE <= a < DATA_LIMIT then ByteAt(m.page, a - BASE) else 0
  }

  function Mapped(page: seq<Option<Page>>): Memory {
    Memory(page, map[])
  }

  /** put_fs_long and get_fs_long: four bytes, the lowest first. */
  function PutLong(m: Memory, a: nat, v: nat): Memory
    requires v < 0x1_0000_0000
  {
    m.(stores := m.stores[a := v % 256][a + 1 := v / 256 % 256]
                         [a + 2 := v / 256 / 256 % 256][a + 3 := v / 256 / 256 / 256])
  }

  function GetLong(m: Memory, a: nat): nat {
    Mem(m, a) as int + 256 * (Mem(m, a + 1) as int + 256 * (Mem(m, a + 2) as int + 256 * (Mem(m, a + 3) as int)))
  }

  /** The lowest byte comes first. */
  lemma PutBytes(m: Memory, a: nat, v: nat)
    requires v < 0x1_0000_0000
    ensures var m' := PutLong(m, a, v);
      v == Mem(m', a) as int + 0x100 * (Mem(m', a + 1) as int) + 0x1_0000 * (Mem(m', a + 2) as int)
           + 0x100_0000 * (Mem(m', a + 3) as int)
  {
    hide ByteAt;
    PutGet(m, a, v);
  }

  lemma PutGet(m: Memory, a: nat, v: nat)
    requires v < 0x1_0000_0000
    ensures GetLong(PutLong(m, a, v), a) == v
    ensures forall b: nat :: b + 4 <= a || a + 4 <= b ==> GetLong(PutLong(m, a, v), b) == GetLong(m, b)
    ensures forall b: nat :: b < a || a + 4 <= b ==> Mem(PutLong(m, a, v), b) == Mem(m, b)
  {
    hide ByteAt;
    var v1 := v / 256;
    var v2 := v1 / 256;
    assert v == v % 256 + 256 * v1 && v1 == v1 % 256 + 256 * v2 && v2 == v2 % 256 + 256 * (v2 / 256);
  }

  /** The bytes of `b` are in memory from `p` on. */
  predicate InMemory(m: Memory, p: nat, b: seq<Byte>) {
    forall i :: 0 <= i < |b| ==> Mem(m, p + i) == b[i]
  }

  /** The string `s` and its zero are at `a`. */
  predicate StringAt(m: Memory, a: nat, s: Str) {
    InMemory(m, a, Bytes(s))
  }

  /** The first `n` pointers of a table point where the strings of `ss`, laid out from `p` on, start. */
  predicate Points(m: Memory, table: nat, p: nat, ss: seq<Str>, n: nat) {
    n <= |ss| && forall x: nat :: x < n ==> GetLong(m, table + 4 * x) == p + Start(ss, x)
  }

  /** Following a table gives the strings of `ss` in order, and then a null pointer. */
  predicate Lists(m: Memory, table: nat, ss: seq<Str>) {
    && GetLong(m, table + 4 * |ss|) == 0
    && forall x: nat :: x < |ss| ==> GetLong(m, table + 4 * x) != 0 && StringAt(m, GetLong(m, table + 4 * x), ss[x])
  }

  /** What a new program finds at its stack pointer: argc, argv, envp. */
  predicate Started(m: Memory, sp: nat, args: seq<Str>, envs: seq<Str>) {
    && GetLong(m, sp) == |args| && Lists(m, GetLong(m, sp + 4), args) && Lists(m, GetLong(m, sp + 8), envs)
  }

  ghost predicate SameFrom(was: Memory, now: Memory, p: nat) {
    forall a: nat :: a >= p ==> Mem(now, a) == Mem(was, a)
  }

  /** One loop of create_tables: a pointer for each string, and a null pointer. */
  method FillTable(m0: Memory, table: nat, p0: nat, count: nat, ghost ss: seq<Str>, ghost low: nat)
        returns (m: Memory, p: nat)
    requires count == |ss| && InMemory(m0, p0, Flat(ss)) && 0 < p0 && p0 + |Flat(ss)| <= DATA_LIMIT
    requires low <= table && table + 4 * (count + 1) <= p0
    ensures Points(m, table, p0, ss, count) && GetLong(m, table + 4 * count) == 0 && p == p0 + |Flat(ss)|
    ensures forall a: nat :: a < table || a >= table + 4 * (count + 1) ==> Mem(m, a) == Mem(m0, a)
  {
    hide Mem, PutLong, GetLong, Flat;
    m, p := m0, p0;
    var left, at := count, table;
    ghost var x: nat := 0;
    assert ss[..0] == [] && Flat([]) == [] by { FlatEmpty(); }
    while left > 0
      invariant x + left == count && at == table + 4 * x && p == p0 + Start(ss, x) && Points(m, table, p0, ss, x)
      invariant forall a: nat :: a < table || a >= table + 4 * (count + 1) ==> Mem(m, a) == Mem(m0, a)
    {
      left := left - 1;
      StartNext(ss, x);
      PutGet(m, at, p);
      m := PutLong(m, at, p);
      at := at + 4;
      StringThere(m0, m, p0, ss, x);
      p := SkipString(m, p, ss[x]);
      x := x + 1;
    }
    PutGet(m, at, 0);
    m := PutLong(m, at, 0);
    assert ss[..|ss|] == ss;
  }

  /** `while (get_fs_byte(p++))`. */
  method SkipString(m: Memory, p0: nat, ghost s: Str) returns (p: nat)
    requires StringAt(m, p0, s)
    ensures p == p0 + |s| + 1
  {
    hide Mem;
    p := p0;
    while true
      invariant p0 <= p <= p0 + |s|
      decreases p0 + |s| - p
    {
      assert Mem(m, p0 + (p - p0)) == Bytes(s)[p - p0];
      p := p + 1;
      if Mem(m, p - 1) == 0 {
        break;
      }
    }
  }

  lemma FlatEmpty()
    ensures Flat([]) == []
  {
  }

  lemma StringThere(m0: Memory, m: Memory, p: nat, ss: seq<Str>, x: nat)
    requires x < |ss| && InMemory(m0, p, Flat(ss)) && SameFrom(m0, m, p)
    ensures StringAt(m, p + Start(ss, x), ss[x])
  {
    hide Mem, Flat;
    StartNext(ss, x);
    var b, k := Flat(ss), Start(ss, x);
    forall i | 0 <= i < |Bytes(ss[x])| ensures Mem(m, p + k + i) == Bytes(ss[x])[i] {
      assert b[k..Start(ss, x + 1)][i] == b[k + i];
      assert Mem(m0, p + (k + i)) == b[k + i];
    }
  }

  /** The three words a program finds first. */
  method PutHeader(m0: Memory, sp0: nat, argc: nat, argv: nat, envp: nat) returns (m: Memory, sp: nat)
    requires sp0 >= 12 && argc < 0x1_0000_0000 && argv < 0x1_0000_0000 && envp < 0x1_0000_0000
    ensures sp == sp0 - 12 && GetLong(m, sp) == argc && GetLong(m, sp + 4) == argv && GetLong(m, sp + 8) == envp
    ensures SameFrom(m0, m, sp0)
  {
    hide Mem, PutLong, GetLong;
    sp := sp0 - 4;
    PutGet(m0, sp, envp);
    m := PutLong(m0, sp, envp);
    sp := sp - 4;
    PutGet(m, sp, argv);
    m := PutLong(m, sp, argv);
    sp := sp - 4;
    PutGet(m, sp, argc);
    m := PutLong(m, sp, argc);
  }

  /** Where the stack begins below strings at `p`: three words and the two tables, each with its null pointer. */
  function StackAt(p: nat, argc: nat, envc: nat): int {
    p - p % 4 - 4 * (argc + 1) - 4 * (envc + 1) - 12
  }

  /** create_tables. */
  method CreateTables(m0: Memory, p: nat, argc: nat, envc: nat, ghost args: seq<Str>, ghost envs: seq<Str>)
      returns (m: Memory, sp: nat)
    requires argc == |args| && envc == |envs| && InMemory(m0, p, Flat(args) + Flat(envs))
    requires 4 * (argc + envc + 6) < p && p + |Flat(args)| + |Flat(envs)| <= DATA_LIMIT
    ensures Started(m, sp, args, envs) && sp % 4 == 0 && SameFrom(m0, m, p)
    ensures sp == StackAt(p, argc, envc)
  {
    hide Mem, PutLong, GetLong, Flat, InMemory, Points, Started;
    sp := p - p % 4;
    sp := sp - 4 * (envc + 1);
    var envp := sp;
    sp := sp - 4 * (argc + 1);
    var argv := sp;
    m, sp := PutHeader(m0, sp, argc, argv, envp);
    ghost var m1 := m;
    assert GetLong(m1, sp) == argc && GetLong(m1, sp + 4) == argv && GetLong(m1, sp + 8) == envp;
    var q;
    Halves(m0, m1, p, Flat(args), Flat(envs));
    m, q := FillTable(m, argv, p, argc, args, sp);
    ghost var m2 := m;
    Halves(m0, m2, p, Flat(args), Flat(envs));
    m, q := FillTable(m, envp, q, envc, envs, sp);
    TablesDone(m0, m1, m2, m, sp, argv, envp, p, args, envs);
  }

  lemma Halves(m0: Memory, m: Memory, p: nat, a: seq<Byte>, b: seq<Byte>)
    requires InMemory(m0, p, a + b) && SameFrom(m0, m, p)
    ensures InMemory(m, p, a) && InMemory(m, p + |a|, b)
  {
    hide Mem;
    forall i | 0 <= i < |a| ensures Mem(m, p + i) == a[i] { assert (a + b)[i] == a[i]; }
    forall i | 0 <= i < |b| ensures Mem(m, p + |a| + i) == b[i] {
      assert (a + b)[|a| + i] == b[i] && Mem(m0, p + (|a| + i)) == b[i];
    }
  }

  lemma LongKept(was: Memory, now: Memory, a: nat)
    requires Mem(was, a) == Mem(now, a) && Mem(was, a + 1) == Mem(now, a + 1)
    requires Mem(was, a + 2) == Mem(now, a + 2) && Mem(was, a + 3) == Mem(now, a + 3)
    ensures GetLong(now, a) == GetLong(was, a)
  {
  }

  /** The pointers of a finished table lead to the strings. */
  lemma PointsAreLists(m0: Memory, m: Memory, table: nat, p: nat, ss: seq<Str>)
    requires Points(m, table, p, ss, |ss|) && GetLong(m, table + 4 * |ss|) == 0 && p > 0
    requires InMemory(m0, p, Flat(ss)) && SameFrom(m0, m, p)
    ensures Lists(m, table, ss)
  {
    hide Mem, GetLong, Flat;
    forall x: nat | x < |ss| ensures GetLong(m, table + 4 * x) != 0 && StringAt(m, GetLong(m, table + 4 * x), ss[x]) {
      StringThere(m0, m, p, ss, x);
    }
  }

  lemma TablesDone(m0: Memory, m1: Memory, m2: Memory, m: Memory, sp: nat, argv: nat, envp: nat, p: nat, args: seq<Str>,
                   envs: seq<Str>)
    requires InMemory(m0, p, Flat(args) + Flat(envs)) && SameFrom(m0, m1, p) && p > 0
    requires argv == sp + 12 && envp == argv + 4 * (|args| + 1) && envp + 4 * (|envs| + 1) <= p
    requires GetLong(m1, sp) == |args| && GetLong(m1, sp + 4) == argv && GetLong(m1, sp + 8) == envp
    requires Points(m2, argv, p, args, |args|) && GetLong(m2, argv + 4 * |args|) == 0
    requires forall a: nat :: a < argv || a >= argv + 4 * (|args| + 1) ==> Mem(m2, a) == Mem(m1, a)
    requires Points(m, envp, p + |Flat(args)|, envs, |envs|) && GetLong(m, envp + 4 * |envs|) == 0
    requires forall a: nat :: a < envp || a >= envp + 4 * (|envs| + 1) ==> Mem(m, a) == Mem(m2, a)
    ensures Started(m, sp, args, envs) && SameFrom(m0, m, p)
  {
    hide Mem, GetLong, Flat, Lists, InMemory;
    Halves(m0, m, p, Flat(args), Flat(envs));
    forall x: nat | x <= |args| ensures GetLong(m, argv + 4 * x) == GetLong(m2, argv + 4 * x) {
      LongKept(m2, m, argv + 4 * x);
    }
    PointsAreLists(m, m, argv, p, args);
    PointsAreLists(m, m, envp, p + |Flat(args)|, envs);
    forall k | k == sp || k == sp + 4 || k == sp + 8 ensures GetLong(m, k) == GetLong(m1, k) {
      LongKept(m1, m2, k);
      LongKept(m2, m, k);
    }
    assert GetLong(m, sp) == |args|;
  }

  // ---- the whole of it ----

  lemma MappedHolds(page: seq<Option<Page>>, p: nat, b: seq<Byte>)
    requires Holds(page, p, b) && p + |b| <= AREA
    ensures InMemory(Mapped(page), BASE + p, b)
  {
    hide ByteAt;
    forall i | 0 <= i < |b| ensures Mem(Mapped(page), BASE + p + i) == b[i] {
      assert ByteAt(page, p + i) == b[i];
    }
  }

  /** The strings fit into the area below its last word. */
  predicate Fits(strings: seq<Str>) {
    |Flat(strings)| < AREA - 4
  }

  /** The argument part of do_execve without an interpreter: the program finds exactly its arguments and its
    * environment. It fails exactly if there are too few pages for the strings, and then all of them are free again. */
  method StartProgram(argv: seq<Str>, envs: seq<Str>, free: nat) returns (ok: bool, m: Memory, sp: nat, left: nat)
    requires Fits(argv + envs)
    ensures ok <==> free >= PagesFor(|Flat(argv + envs)|)
    ensures left == if ok then free - PagesFor(|Flat(argv + envs)|) else free
    ensures ok ==> Started(m, sp, argv, envs) && sp % 4 == 0 && GetLong(m, sp) == |argv|
    ensures ok ==> sp == StackAt(0x4000000 - 4 - |Flat(argv + envs)|, |argv|, |envs|)
    ensures ok ==> forall i :: 0 <= i < |argv| ==> StringAt(m, GetLong(m, GetLong(m, sp + 4) + 4 * i), argv[i])
    ensures ok ==> forall i :: 0 <= i < |envs| ==> StringAt(m, GetLong(m, GetLong(m, sp + 8) + 4 * i), envs[i])
  {
    hide Flat, ByteAt, Got, Missing, Needs, PagesFor, GetLong, StringAt, Mapped;
    m, sp := Mapped([]), 0;
    FlatAppend(argv, envs);
    assert argv[..|argv|] == argv && envs[..|envs|] == envs;
    var area := new ArgArea(free);
    var top: nat := AREA - 4;
    ghost var end: nat := top - |Flat(argv + envs)|;
    GotNothing(free, top);
    NeedsAtFirst(|Flat(argv + envs)|);
    NeedsMore(NoPages(), end, top - |Flat(envs)|, top);
    var p := area.CopyStrings(|envs|, envs, top, NoPages(), free, top);
    ghost var after := area.page;
    ghost var mid := p;
    p := area.CopyStrings(|argv|, argv, p, NoPages(), free, top);
    ok, left := p != 0, area.free;
    if !ok {
      area.Release();
      left := area.free;
      AllFree(area.page);
    } else {
      GotCount(NoPages(), free, area.page, area.free, p, top);
      Both(after, area.page, p, mid, Flat(argv), Flat(envs));
      m, sp := Launch(area.page, p, |argv|, |envs|, argv, envs);
    }
  }

  lemma GotNothing(free: nat, top: nat)
    requires top <= AREA
    ensures Got(NoPages(), free, NoPages(), free, top, top)
  {
  }

  lemma GotCount(page0: seq<Option<Page>>, free0: nat, page: seq<Option<Page>>, free: nat, p: nat, top: nat)
    requires Got(page0, free0, page, free, p, top)
    ensures |page0| == MAX_ARG_PAGES && p <= top <= AREA && free + Needs(page0, p, top) == free0
  {
  }

  lemma AllFree(page: seq<Option<Page>>)
    requires |page| == MAX_ARG_PAGES && forall k :: 0 <= k < |page| ==> page[k].None?
    ensures page == NoPages()
  {
  }

  /** The first strings are copied below the others without touching them. */
  lemma Both(was: seq<Option<Page>>, now: seq<Option<Page>>, p: nat, mid: nat, a: seq<Byte>, b: seq<Byte>)
    requires Holds(was, mid, b) && Holds(now, p, a) && p + |a| == mid && SameOutside(was, now, p, mid)
    ensures Holds(now, p, a + b)
  {
    hide ByteAt;
    assert Holds(now, mid, b) by {
      forall i | 0 <= i < |b| ensures ByteAt(now, mid + i) == b[i] { assert ByteAt(was, mid + i) == b[i]; }
    }
    Joined(now, p, a, b);
  }

  /** The end of do_execve: the pages are mapped and the tables made. */
  method Launch(page: seq<Option<Page>>, p: nat, argc: nat, envc: nat, ghost args: seq<Str>, ghost envs: seq<Str>)
      returns (m: Memory, sp: nat)
    requires argc == |args| && envc == |envs| && Holds(page, p, Flat(args) + Flat(envs))
    requires p + |Flat(args)| + |Flat(envs)| <= AREA
    ensures Started(m, sp, args, envs) && sp % 4 == 0 && sp == StackAt(BASE + p, argc, envc)
  {
    hide Flat, ByteAt, Started, Mapped;
    MappedHolds(page, p, Flat(args) + Flat(envs));
    FlatSize(args);
    FlatSize(envs);
    m, sp := CreateTables(Mapped(page), BASE + p, argc, envc, args, envs);
  }

  // ---- scripts ----

  const NEWLINE: Letter := 10
  const SLASH: Letter := 47

  predicate IsBlank(c: Letter) {
    c == 32 || c == 9
  }

  /** The first place from `i` on with a line end, without a blank, with a blank; the end of `s` if there is none. */
  function LineEnd(s: Str, i: nat): (r: nat)
    requires i <= |s|
    ensures i <= r <= |s| && (forall k :: i <= k < r ==> s[k] != NEWLINE) && (r < |s| ==> s[r] == NEWLINE)
    decreases |s| - i
  {
    if i == |s| || s[i] == NEWLINE then i else LineEnd(s, i + 1)
  }

  function SkipBlanks(s: Str, i: nat): (r: nat)
    requires i <= |s|
    ensures i <= r <= |s| && (forall k :: i <= k < r ==> IsBlank(s[k])) && (r < |s| ==> !IsBlank(s[r]))
    decreases |s| - i
  {
    if i == |s| || !IsBlank(s[i]) then i else SkipBlanks(s, i + 1)
  }

  function WordEnd(s: Str, i: nat): (r: nat)
    requires i <= |s|
    ensures i <= r <= |s| && (forall k :: i <= k < r ==> !IsBlank(s[k])) && (r < |s| ==> IsBlank(s[r]))
    decreases |s| - i
  {
    if i == |s| || IsBlank(s[i]) then i else WordEnd(s, i + 1)
  }

  /** Behind the last slash of s[from..to], `from` if there is none. */
  function NameStart(s: Str, from: nat, to: nat): (r: nat)
    requires from <= to <= |s|
    ensures from <= r <= to && (forall k :: r <= k < to ==> s[k] != SLASH) && (r > from ==> s[r - 1] == SLASH)
  {
    if from == to then from else if s[to - 1] == SLASH then to else NameStart(s, from, to - 1)
  }

  /** The interpreter named on the first line of a script: its path, the last part of the path, and the rest of the line
    * behind the first blank, if there is a blank. */
  datatype Interpreter = Interpreter(path: Str, name: Str, arg: Option<Str>)

  /** What the first line says, `text` being what follows "#!" up to a zero byte or 1022 characters.  None stands for
    * ENOEXEC: no line end, or nothing but blanks before it. */
  function Parsed(text: Str): Option<Interpreter> {
    var nl := LineEnd(text, 0);
    if nl == |text| then None else ParsedLine(text[..nl])
  }

  function ParsedLine(line: Str): Option<Interpreter> {
    var a := SkipBlanks(line, 0);
    var e := WordEnd(line, a);
    if a == |line| then None
    else Some(Interpreter(line[a..e], line[NameStart(line, a, e)..e], if e < |line| then Some(line[e + 1..]) else None))
  }

  /** Lines 239-256. */
  method ParseLine(text: Str) returns (r: Option<Interpreter>)
    ensures r == Parsed(text)
  {
    hide IsBlank;
    var nl := 0;
    while nl < |text| && text[nl] != NEWLINE
      invariant 0 <= nl <= |text| && LineEnd(text, nl) == LineEnd(text, 0)
    {
      nl := nl + 1;
    }
    if nl == |text| {
      return None;
    }
    var buf := text[..nl];
    var cp := 0;
    while cp < nl && IsBlank(buf[cp])
      invariant 0 <= cp <= nl && SkipBlanks(buf, cp) == SkipBlanks(buf, 0)
    {
      cp := cp + 1;
    }
    if cp == nl {
      return None;
    }
    var interp, iName := cp, cp;
    while cp < nl && !IsBlank(buf[cp])
      invariant interp <= cp <= nl && WordEnd(buf, cp) == WordEnd(buf, interp) && iName == NameStart(buf, interp, cp)
    {
      if buf[cp] == SLASH {
        iName := cp + 1;
      }
      cp := cp + 1;
    }
    r := Some(Interpreter(buf[interp..cp], buf[iName..cp], if cp < nl then Some(buf[cp + 1..]) else None));
  }

  lemma LineEndIs(s: Str, r: nat)
    requires r <= |s| && (forall k :: 0 <= k < r ==> s[k] != NEWLINE) && (r < |s| ==> s[r] == NEWLINE)
    ensures LineEnd(s, 0) == r
  {
  }

  lemma SkipBlanksIs(s: Str, r: nat)
    requires r <= |s| && (forall k :: 0 <= k < r ==> IsBlank(s[k])) && (r < |s| ==> !IsBlank(s[r]))
    ensures SkipBlanks(s, 0) == r
  {
  }

  lemma WordEndIs(s: Str, i: nat, r: nat)
    requires i <= r <= |s| && (forall k :: i <= k < r ==> !IsBlank(s[k])) && (r < |s| ==> IsBlank(s[r]))
    ensures WordEnd(s, i) == r
  {
  }

  lemma NameStartIs(s: Str, from: nat, to: nat, r: nat)
    requires from <= r <= to <= |s| && (forall k :: r <= k < to ==> s[k] != SLASH) && (r > from ==> s[r - 1] == SLASH)
    ensures NameStart(s, from, to) == r
  {
  }

  /** Blanks, a directory part, a name, and the rest: where each begins. */
  lemma Pieces(blanks: Str, dir: Str, name: Str, rest: Str)
    ensures var line, a := blanks + (dir + name) + rest, |blanks|; var b, e := a + |dir|, a + |dir| + |name|;
      && (forall k :: 0 <= k < a ==> line[k] == blanks[k]) && (forall k :: a <= k < b ==> line[k] == dir[k - a])
      && (forall k :: b <= k < e ==> line[k] == name[k - b])
      && line[a..e] == dir + name && line[b..e] == name && line[e..] == rest
  {
  }

  /** A line made of blanks, a directory part, a name, and perhaps a blank and an argument, reads back as just that. */
  lemma ParsedIs(blanks: Str, dir: Str, name: Str, sep: Letter, arg: Option<Str>, more: Str)
    requires (forall c :: c in blanks + [sep] ==> c == ' ' as int || c == '\t' as int) && dir + name != []
    requires forall c :: c in dir + name ==> c != ' ' as int && c != '\t' as int && c != '\n' as int
    requires '/' as int !in name && (dir == [] || dir[|dir| - 1] == '/' as int)
    requires arg.Some? ==> '\n' as int !in arg.value
    ensures var line := blanks + (dir + name) + Tail(sep, arg);
      Parsed(line + ['\n' as int] + more) == Some(Interpreter(dir + name, name, arg))
  {
    hide ParsedLine, LineEnd, Tail;
    assert forall i :: 0 <= i < |blanks| ==> blanks[i] in blanks + [sep];
    assert sep in blanks + [sep];
    assert forall i :: 0 <= i < |dir| ==> dir[i] in dir + name;
    assert forall i :: 0 <= i < |name| ==> name[i] in dir + name;
    var rest := Tail(sep, arg);
    var line := blanks + (dir + name) + rest;
    var text := line + [NEWLINE] + more;
    LineParsed(blanks, dir, name, sep, arg);
    NoLineEnd(blanks, dir, name, sep, arg);
    LineEndIs(text, |line|);
    assert text[..|line|] == line;
  }

  /** ENOEXEC: exactly if there is no line end, or nothing but spaces and tabs before the first. */
  lemma NoneExactly(text: Str)
    ensures Parsed(text).Some? <==>
              exists n, k :: 0 <= k < n < |text| && text[n] == '\n' as int && '\n' as int !in text[..n]
                             && text[k] != ' ' as int && text[k] != '\t' as int
  {
    var nl := LineEnd(text, 0);
    if nl < |text| {
      assert '\n' as int !in text[..nl];
      forall n | nl < n <= |text| ensures '\n' as int in text[..n] { assert text[..n][nl] == NEWLINE; }
      var a := SkipBlanks(text[..nl], 0);
      assert forall k :: 0 <= k < nl ==> text[..nl][k] == text[k];
      assert a < nl ==> text[a] != ' ' as int && text[a] != '\t' as int;
    }
  }

  lemma NoLineEnd(blanks: Str, dir: Str, name: Str, sep: Letter, arg: Option<Str>)
    requires (forall i :: 0 <= i < |blanks| ==> IsBlank(blanks[i])) && IsBlank(sep)
    requires forall i :: 0 <= i < |dir| ==> dir[i] != NEWLINE
    requires forall i :: 0 <= i < |name| ==> name[i] != NEWLINE
    requires arg.Some? ==> NEWLINE !in arg.value
    ensures forall k :: 0 <= k < |blanks + (dir + name) + Tail(sep, arg)| ==>
            (blanks + (dir + name) + Tail(sep, arg))[k] != NEWLINE
  {
    hide Tail;
    TailIs(sep, arg);
  }

  lemma LineParsed(blanks: Str, dir: Str, name: Str, sep: Letter, arg: Option<Str>)
    requires (forall i :: 0 <= i < |blanks| ==> IsBlank(blanks[i])) && IsBlank(sep) && dir + name != []
    requires forall i :: 0 <= i < |dir| ==> !IsBlank(dir[i])
    requires forall i :: 0 <= i < |name| ==> !IsBlank(name[i]) && name[i] != SLASH
    requires (dir == [] || dir[|dir| - 1] == SLASH) && (arg.Some? ==> NEWLINE !in arg.value)
    ensures ParsedLine(blanks + (dir + name) + Tail(sep, arg)) == Some(Interpreter(dir + name, name, arg))
  {
    hide SkipBlanks, WordEnd, NameStart, Tail;
    var rest := Tail(sep, arg);
    var line, a := blanks + (dir + name) + rest, |blanks|;
    var b, e := a + |dir|, a + |dir| + |name|;
    Pieces(blanks, dir, name, rest);
    TailIs(sep, arg);
    SkipBlanksIs(line, a);
    assert e < |line| ==> line[e] == line[e..][0];
    WordEndIs(line, a, e);
    NameStartIs(line, a, e, b);
    if arg.Some? { assert line[e + 1..] == line[e..][1..]; }
  }

  function Tail(sep: Letter, arg: Option<Str>): Str {
    if arg.Some? then [sep] + arg.value else []
  }

  lemma TailIs(sep: Letter, arg: Option<Str>)
    requires IsBlank(sep) && (arg.Some? ==> NEWLINE !in arg.value)
    ensures NEWLINE !in Tail(sep, arg) && (Tail(sep, arg) == [] <==> arg.None?)
    ensures arg.Some? ==> IsBlank(Tail(sep, arg)[0]) && Tail(sep, arg)[1..] == arg.value
  {
  }

  /** The arguments an interpreter is to get for a script: its own name, the argument on the script's first line if
    * there is one, the script, and the arguments of the script but the first. */
  function Spliced(name: Str, arg: Option<Str>, file: Str, argv: seq<Str>): seq<Str> {
    Front(name, arg) + [file] + Rest(argv)
  }

  function Front(name: Str, arg: Option<Str>): seq<Str> {
    if arg.Some? then [name, arg.value] else [name]
  }

  function Rest(argv: seq<Str>): seq<Str> {
    if argv == [] then [] else argv[1..]
  }

  /** The argument part of do_execve for a script.  The interpreter finds its spliced arguments and the environment
    * exactly if the script was called with at least one argument, its own name: then its argv holds its name, the
    * argument of the first line if there is one, the script, and the arguments behind the first, and argc counts them.
    * Without any argument argc comes out one short, and the script's name is taken for the first string of the
    * environment. */
  method StartScript(argv: seq<Str>, envs: seq<Str>, name: Str, arg: Option<Str>, file: Str, free: nat)
      returns (ok: bool, m: Memory, sp: nat, left: nat)
    requires Fits(Spliced(name, arg, file, argv) + envs)
    ensures ok <==> free >= PagesFor(|Flat(Spliced(name, arg, file, argv) + envs)|)
    ensures left == if ok then free - PagesFor(|Flat(Spliced(name, arg, file, argv) + envs)|) else free
    ensures ok ==> (Started(m, sp, Spliced(name, arg, file, argv), envs) <==> argv != [])
    ensures ok && argv == [] ==> Started(m, sp, Front(name, arg), ([file] + envs)[..|envs|]) && sp % 4 == 0
    ensures ok ==> sp == StackAt(0x4000000 - 4 - |Flat(Spliced(name, arg, file, argv) + envs)|,
                                 |argv| + (if arg.Some? then 2 else 1), |envs|)
    ensures ok && argv != [] ==>
              var table, script := GetLong(m, sp + 4), if arg.Some? then 2 else 1;
              && GetLong(m, sp) == |argv| + script && GetLong(m, table + 4 * (|argv| + script)) == 0
              && StringAt(m, GetLong(m, table), name) && StringAt(m, GetLong(m, table + 4 * script), file)
              && (arg.Some? ==> StringAt(m, GetLong(m, table + 4), arg.value))
              && forall i :: 1 <= i < |argv| ==> StringAt(m, GetLong(m, table + 4 * (script + i)), argv[i])
  {
    hide Flat, ByteAt, Holds, Laid, Started, Spliced, Front, Got, Missing, Needs, PagesFor, StackAt, GetLong, StringAt;
    m, sp := Mapped([]), 0;
    var area := new ArgArea(free);
    LaidNothing(area.page, AREA - 4);
    assert envs + [] == envs;
    var rest := Rest(argv);
    ghost var all := Spliced(name, arg, file, argv) + envs;
    ghost var p0: nat := AREA - 4;
    SplitSizes(name, arg, file, argv, envs);
    ghost var end: nat := p0 - |Flat(all)|;
    GotNothing(free, p0);
    NeedsAtFirst(|Flat(all)|);
    var argc: int := |argv|;
    var p := Push(area, |envs|, envs, AREA - 4, [], p0, end, free);
    argc := argc - 1;
    p := Push(area, argc, rest, p, envs, p0, end, free);
    p := Push(area, 1, [file], p, rest + envs, p0, end, free);
    argc := argc + 1;
    if arg.Some? {
      p := Push(area, 1, [arg.value], p, [file] + (rest + envs), p0, end, free);
      argc := argc + 1;
      p := Push(area, 1, [name], p, [arg.value] + ([file] + (rest + envs)), p0, end, free);
    } else {
      p := Push(area, 1, [name], p, [file] + (rest + envs), p0, end, free);
    }
    argc := argc + 1;
    ok, left := p != 0, area.free;
    if !ok {
      area.Release();
      left := area.free;
      AllFree(area.page);
    } else {
      GotCount(NoPages(), free, area.page, area.free, p, p0);
      var envc := |envs|;
      SplicedIs(name, arg, file, argv, envs);
      SplicedSize(name, arg, file, argv, envs);
      ghost var args, env := all[..argc], all[argc..argc + envc];
      PrefixHolds(area.page, p, all, argc, envc, p0);
      m, sp := Launch(area.page, p, argc, envc, args, env);
      ScriptSees(m, sp, name, arg, file, argv, envs);
      if argv != [] { SplicedPlaces(m, sp, name, arg, file, argv, envs); }
    }
  }

  /** Where the interpreter finds what. */
  lemma SplicedPlaces(m: Memory, sp: nat, name: Str, arg: Option<Str>, file: Str, argv: seq<Str>, envs: seq<Str>)
    requires argv != [] && Started(m, sp, Spliced(name, arg, file, argv), envs)
    ensures var table, script := GetLong(m, sp + 4), if arg.Some? then 2 else 1;
      && GetLong(m, sp) == |argv| + script && GetLong(m, table + 4 * (|argv| + script)) == 0
      && StringAt(m, GetLong(m, table), name) && StringAt(m, GetLong(m, table + 4 * script), file)
      && (arg.Some? ==> StringAt(m, GetLong(m, table + 4), arg.value))
      && forall i :: 1 <= i < |argv| ==> StringAt(m, GetLong(m, table + 4 * (script + i)), argv[i])
  {
    hide GetLong, StringAt;
    var all, table, script: nat := Spliced(name, arg, file, argv), GetLong(m, sp + 4), if arg.Some? then 2 else 1;
    assert |all| == |argv| + script && all[0] == name && all[script] == file && (arg.Some? ==> all[1] == arg.value);
    assert StringAt(m, GetLong(m, table + 4 * 0), all[0]) && StringAt(m, GetLong(m, table + 4 * script), all[script]);
    assert arg.Some? ==> StringAt(m, GetLong(m, table + 4 * 1), all[1]);
    forall i | 1 <= i < |argv| ensures StringAt(m, GetLong(m, table + 4 * (script + i)), argv[i]) {
      assert all[script + i] == argv[i];
    }
  }

  /** All of `ss` is in the area from `p` up to `top`. */
  ghost predicate Laid(page: seq<Option<Page>>, p: nat, ss: seq<Str>, top: nat) {
    Holds(page, p, Flat(ss)) && p + |Flat(ss)| == top
  }

  /** copy_strings of `argc` strings in front of those already there; there is more to come, down to `end`. */
  method Push(area: ArgArea, argc: int, argv: seq<Str>, from: nat, ghost ss: seq<Str>, ghost top: nat, ghost end: nat,
              ghost free: nat) returns (p: nat)
    requires |area.page| == MAX_ARG_PAGES && (argc == |argv| || (argc == -1 && argv == [])) && from <= top <= AREA
    requires 0 < end <= top && (from == 0 ==> free < Needs(NoPages(), end, top))
    requires from != 0 ==> && |Flat(argv)| + end <= from && Laid(area.page, from, ss, top)
                           && Got(NoPages(), free, area.page, area.free, from, top)
    modifies area
    ensures |area.page| == MAX_ARG_PAGES && p <= top && area.Supply() == old(area.Supply())
    ensures p == 0 ==> free < Needs(NoPages(), end, top)
    ensures p != 0 ==> from != 0 && p + |Flat(argv)| == from && Laid(area.page, p, argv + ss, top)
    ensures p != 0 ==> Got(NoPages(), free, area.page, area.free, p, top)
  {
    hide Flat, ByteAt, Holds, Got, Needs, Missing;
    if from != 0 { NeedsMore(NoPages(), end, from - |Flat(argv)|, top); }
    ghost var was := area.page;
    assert argv[..if argc < 0 then 0 else argc] == argv;
    p := area.CopyStrings(argc, argv, from, NoPages(), free, top);
    if p != 0 {
      Both(was, area.page, p, from, Flat(argv), Flat(ss));
      FlatAppend(argv, ss);
    }
  }

  lemma LaidNothing(page: seq<Option<Page>>, p: nat)
    ensures Laid(page, p, [], p)
  {
  }

  lemma SplitSizes(name: Str, arg: Option<Str>, file: Str, argv: seq<Str>, envs: seq<Str>)
    ensures |Flat(Spliced(name, arg, file, argv) + envs)| ==
            |Flat([name])| + (if arg.Some? then |Flat([arg.value])| else 0) + |Flat([file])|
            + |Flat(Rest(argv))| + |Flat(envs)|
  {
    hide Flat;
    FlatAppend(Front(name, arg) + [file] + Rest(argv), envs);
    FlatAppend(Front(name, arg) + [file], Rest(argv));
    FlatAppend(Front(name, arg), [file]);
    if arg.Some? {
      FlatAppend([name], [arg.value]);
      assert [name] + [arg.value] == [name, arg.value];
    }
  }

  lemma SplicedIs(name: Str, arg: Option<Str>, file: Str, argv: seq<Str>, envs: seq<Str>)
    ensures var tail := [file] + (Rest(argv) + envs);
      Spliced(name, arg, file, argv) + envs == [name] + if arg.Some? then [arg.value] + tail else tail
  {
  }

  lemma SplicedSize(name: Str, arg: Option<Str>, file: Str, argv: seq<Str>, envs: seq<Str>)
    ensures |Spliced(name, arg, file, argv)| ==
            (if arg.Some? then 2 else 1) + 1 + (if argv == [] then 0 else |argv| - 1)
  {
  }

  lemma PrefixHolds(page: seq<Option<Page>>, p: nat, all: seq<Str>, argc: nat, envc: nat, top: nat)
    requires Laid(page, p, all, top) && argc + envc <= |all|
    ensures var a, b := Flat(all[..argc]), Flat(all[argc..argc + envc]);
      Holds(page, p, a + b) && p + |a| + |b| <= top
  {
    hide Flat, ByteAt;
    assert all == all[..argc + envc] + all[argc + envc..] && all[..argc + envc] == all[..argc] + all[argc..argc + envc];
    FlatAppend(all[..argc + envc], all[argc + envc..]);
    FlatAppend(all[..argc], all[argc..argc + envc]);
    var c, f := Flat(all[..argc + envc]), Flat(all);
    forall i | 0 <= i < |c| ensures ByteAt(page, p + i) == c[i] { assert f[i] == c[i]; }
  }

  lemma ScriptSees(m: Memory, sp: nat, name: Str, arg: Option<Str>, file: Str, argv: seq<Str>, envs: seq<Str>)
    requires var all := Spliced(name, arg, file, argv) + envs;
      var argc := |argv| + (if arg.Some? then 2 else 1);
      Started(m, sp, all[..argc], all[argc..argc + |envs|])
    ensures Started(m, sp, Spliced(name, arg, file, argv), envs) <==> argv != []
    ensures argv == [] ==> Started(m, sp, Front(name, arg), ([file] + envs)[..|envs|])
  {
    hide Started, Spliced, Front;
    SplicedSize(name, arg, file, argv, envs);
    Window(Spliced(name, arg, file, argv), envs, |envs|);
    if argv != [] {
      assert envs[..|envs|] == envs;
    } else {
      NoScriptName(name, arg, file);
      assert (Front(name, arg) + [file]) + envs == Front(name, arg) + ([file] + envs);
      Window(Front(name, arg), [file] + envs, |envs|);
      ArgcDiffers(m, sp, Front(name, arg), ([file] + envs)[..|envs|], Spliced(name, arg, file, argv), envs);
    }
  }

  lemma Window(a: seq<Str>, b: seq<Str>, n: nat)
    requires n <= |b|
    ensures (a + b)[..|a|] == a && (a + b)[|a|..|a| + n] == b[..n]
  {
  }

  lemma NoScriptName(name: Str, arg: Option<Str>, file: Str)
    ensures Spliced(name, arg, file, []) == Front(name, arg) + [file]
            && |Front(name, arg)| == if arg.Some? then 2 else 1
  {
  }

  lemma ArgcDiffers(m: Memory, sp: nat, a: seq<Str>, b: seq<Str>, a': seq<Str>, b': seq<Str>)
    requires Started(m, sp, a, b) && |a| != |a'|
    ensures !Started(m, sp, a', b')
  {
    hide Lists, GetLong;
  }
}
