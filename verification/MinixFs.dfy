/** The routines that walk, extend, write, read and free block trees: fs/bitmap.c, fs/inode.c, fs/file_dev.c and
  * fs/truncate.c on one mounted device.
  *
  * A process has the device to itself during a call.  The kernel's panics are preconditions, and no call made here
  * violates one.
  */
module MinixFs {
  import opened MinixTree

  ghost predicate Full(fs: Fs) {
    forall b: nat :: IsData(fs, b) ==> BitSet(fs, b)
  }

  /** Sizes, modes and the layout of the device are as they were. */
  ghost predicate SameShape(fs: Fs, fs': Fs) {
    && fs'.first == fs.first && |fs'.blocks| == |fs.blocks| && |fs'.bits| == |fs.bits| && |fs'.inodes| == |fs.inodes|
    && forall g :: 0 <= g < |fs.inodes| ==>
       fs'.inodes[g].size == fs.inodes[g].size && fs'.inodes[g].tree == fs.inodes[g].tree
  }

  /** Trees may have grown, but every file reads as before. */
  ghost predicate Kept(fs: Fs, fs': Fs) {
    && SameShape(fs, fs') && (forall g :: SameBytes(fs, fs', g))
    && forall g, q :: ZoneAt(fs, g, q) != 0 ==> ZoneAt(fs', g, q) == ZoneAt(fs, g, q)
  }

  lemma KeptRefl(fs: Fs)
    ensures Kept(fs, fs) && forall f, p :: SameZonesBut(fs, fs, f, p)
  {
  }

  lemma KeptFile(fs: Fs, fs': Fs, f: nat)
    requires Kept(fs, fs')
    ensures IsFile(fs', f) <==> IsFile(fs, f)
  {
  }

  lemma KeptTrans(fs: Fs, fs1: Fs, fs2: Fs)
    requires Kept(fs, fs1) && Kept(fs1, fs2)
    ensures Kept(fs, fs2)
  {
    hide ZoneAt, FileByte;
    forall g ensures SameBytes(fs, fs2, g) {
      assert SameBytes(fs, fs1, g) && SameBytes(fs1, fs2, g);
    }
    forall g, q | ZoneAt(fs, g, q) != 0 ensures ZoneAt(fs2, g, q) == ZoneAt(fs, g, q) {
      assert ZoneAt(fs1, g, q) != 0;
    }
  }

  lemma GrownKept(fs: Fs, ow: seq<Owner>, f: nat, p: Pos, b: nat)
    requires Good(fs, ow) && HasPlace(fs, f, p) && ZoneAt(fs, f, p) == 0
    requires IsData(fs, b) && !BitSet(fs, b)
    ensures b < |ow| && ow[b] == Nobody && IsFile(Grown(fs, f, p, b), f) && Good(Grown(fs, f, p, b), ow[b := Own(f, p)])
    ensures Kept(fs, Grown(fs, f, p, b)) && ZoneAt(Grown(fs, f, p, b), f, p) == b
    ensures SameZonesBut(fs, Grown(fs, f, p, b), f, p) && Grew(fs, Grown(fs, f, p, b), f, {p})
  {
    hide ZoneAt, FileByte, Stored, HasPlace, Owned, Grew;
    var fs' := Grown(fs, f, p, b);
    GrownGood(fs, ow, f, p, b);
    IsFileOf(fs, f, p);
    GrownGrew(fs, ow, f, p, b);
    StoredShape(Taken(fs, b), f, p, b);
    forall g, q | ZoneAt(fs, g, q) != 0 ensures ZoneAt(fs', g, q) == ZoneAt(fs, g, q) {
      assert g != f || q != p;
    }
  }

  // ---- how many blocks are taken ----

  /** The data blocks nobody has. */
  ghost function FreeSet(fs: Fs): set<nat> {
    set b: nat | b < |fs.blocks| && IsData(fs, b) && !BitSet(fs, b)
  }

  /** The places _bmap passes on its way to a block of a file, that of the block included. */
  function Path(block: nat): set<Pos> {
    if block < 7 then {Direct(block)}
    else if block < 519 then {Ind, IndE(block - 7)}
    else {Dind, DindE((block - 519) / 512), DindEE((block - 519) / 512, (block - 519) % 512)}
  }

  /** The places passed on the way to the blocks from `a` up to `b`. */
  function Paths(a: nat, b: nat): set<Pos> {
    if b <= a then {} else Paths(a, b - 1) + Path(b - 1)
  }

  /** Those of the places `ps` where file `f` has no block. */
  ghost function Wanting(fs: Fs, f: nat, ps: set<Pos>): set<Pos> {
    set p | p in ps && ZoneAt(fs, f, p) == 0
  }

  /** Only at the places `ps` of `f` are there other blocks than before, and as many were taken as places filled. */
  ghost predicate Grew(fs: Fs, fs': Fs, f: nat, ps: set<Pos>) {
    && (forall g, q :: g != f || q !in ps ==> ZoneAt(fs', g, q) == ZoneAt(fs, g, q))
    && |FreeSet(fs')| + |Wanting(fs, f, ps)| == |FreeSet(fs)| + |Wanting(fs', f, ps)|
  }

  /** With enough free blocks for the wanting places all of them are filled; they are not if the device is full
    * before. */
  lemma GrewExactly(fs: Fs, fs': Fs, f: nat, ps: set<Pos>)
    requires Grew(fs, fs', f, ps) && (Wanting(fs', f, ps) == {} || FreeSet(fs') == {})
    ensures Wanting(fs', f, ps) == {} <==> |FreeSet(fs)| >= |Wanting(fs, f, ps)|
  {
  }

  lemma GrewWider(fs: Fs, fs': Fs, f: nat, ps: set<Pos>, qs: set<Pos>)
    requires Grew(fs, fs', f, ps) && ps <= qs
    ensures Grew(fs, fs', f, qs)
  {
    hide ZoneAt, FreeSet;
    var rest := Wanting(fs, f, qs - ps);
    assert Wanting(fs', f, qs - ps) == rest;
    assert Wanting(fs, f, qs) == Wanting(fs, f, ps) + rest;
    assert Wanting(fs', f, qs) == Wanting(fs', f, ps) + rest;
  }

  lemma GrewThen(fs: Fs, fs1: Fs, fs2: Fs, f: nat, ps: set<Pos>, qs: set<Pos>)
    requires Grew(fs, fs1, f, ps) && Grew(fs1, fs2, f, qs)
    ensures Grew(fs, fs2, f, ps + qs)
  {
    hide ZoneAt, FreeSet, Wanting;
    GrewWider(fs, fs1, f, ps, ps + qs);
    GrewWider(fs1, fs2, f, qs, ps + qs);
  }

  lemma GrewOn(fs: Fs, fs1: Fs, fs2: Fs, f: nat, ps: set<Pos>, p: Pos)
    requires Grew(fs, fs1, f, ps) && Grew(fs1, fs2, f, {p}) && p in ps
    ensures Grew(fs, fs2, f, ps)
  {
    hide Grew;
    GrewThen(fs, fs1, fs2, f, ps, {p});
    assert ps + {p} == ps;
  }

  /** A block that is there has its tables. */
  lemma PathFilled(fs: Fs, f: nat, block: nat)
    ensures ZoneAt(fs, f, DataPos(block)) != 0 <==> Wanting(fs, f, Path(block)) == {}
  {
    hide Short;
    assert DataPos(block) in Path(block);
    if Wanting(fs, f, Path(block)) == {} {
      assert DataPos(block) !in Wanting(fs, f, Path(block));
    }
  }

  /** Every file has the blocks it had. */
  ghost predicate SameBlocks(fs: Fs, fs': Fs) {
    (forall g, q :: ZoneAt(fs', g, q) == ZoneAt(fs, g, q)) && FreeSet(fs') == FreeSet(fs)
  }

  lemma SameBits(fs: Fs, fs': Fs)
    requires fs'.bits == fs.bits && fs'.first == fs.first && |fs'.blocks| == |fs.blocks|
    ensures FreeSet(fs') == FreeSet(fs)
  {
  }

  /** All of these places have been filled, and no others. */
  ghost predicate Filled(fs: Fs, fs': Fs, f: nat, ps: set<Pos>) {
    Grew(fs, fs', f, ps) && Wanting(fs', f, ps) == {}
  }

  lemma FilledNothing(fs: Fs, f: nat, d: nat)
    ensures Filled(fs, fs, f, Paths(d, d))
  {
    hide ZoneAt;
  }

  lemma FilledMore(fs: Fs, fs1: Fs, fs2: Fs, f: nat, a: nat, d: nat)
    requires a <= d && Filled(fs, fs1, f, Paths(a, d)) && Grew(fs1, fs2, f, Path(d)) && Wanting(fs2, f, Path(d)) == {}
    ensures Filled(fs, fs2, f, Paths(a, d + 1))
  {
    hide ZoneAt, FreeSet, Path;
    var ps := Paths(a, d);
    GrewThen(fs, fs1, fs2, f, ps, Path(d));
    forall p | p in ps + Path(d) ensures ZoneAt(fs2, f, p) != 0 {
      assert p in ps ==> p !in Wanting(fs1, f, ps);
      assert p in Path(d) ==> p !in Wanting(fs2, f, Path(d));
    }
  }

  lemma FilledSame(fs: Fs, fs1: Fs, fs2: Fs, f: nat, ps: set<Pos>)
    requires Filled(fs, fs1, f, ps) && SameBlocks(fs1, fs2)
    ensures Filled(fs, fs2, f, ps)
  {
    hide ZoneAt, FreeSet;
    assert Wanting(fs2, f, ps) == Wanting(fs1, f, ps);
  }

  /** The block behind the last of `n` bytes at `start`. */
  function EndBlock(start: nat, n: nat): nat {
    if n == 0 then start / 1024 else (start + n - 1) / 1024 + 1
  }

  /** The places on the way to `n` bytes at `start`. */
  function BlocksOf(start: nat, n: nat): set<Pos> {
    Paths(start / 1024, EndBlock(start, n))
  }

  /** What a write of `w` bytes out of `count` has taken: the blocks that were missing for them and, if it is short,
    * what there was for the block after; that one block is what there were too few for. */
  ghost predicate TookItsBlocks(fs: Fs, fs': Fs, f: nat, start: nat, w: nat, count: int) {
    if w >= count then Filled(fs, fs', f, BlocksOf(start, w))
    else
      && Grew(fs, fs', f, BlocksOf(start, w + 1)) && FreeSet(fs') == {}
      && |Wanting(fs, f, BlocksOf(start, w))| <= |FreeSet(fs)| < |Wanting(fs, f, BlocksOf(start, w + 1))|
  }

  lemma FellShort(fs: Fs, fs1: Fs, fs2: Fs, f: nat, start: nat, i: nat, count: int)
    requires i < count && (i == 0 || (start + i) % 1024 == 0) && Filled(fs, fs1, f, BlocksOf(start, i))
    requires Grew(fs1, fs2, f, Path((start + i) / 1024)) && Wanting(fs2, f, Path((start + i) / 1024)) != {}
    requires FreeSet(fs2) == {}
    ensures TookItsBlocks(fs, fs2, f, start, i, count)
  {
    hide ZoneAt, FreeSet, Path;
    var n := (start + i) / 1024;
    assert EndBlock(start, i) == n && EndBlock(start, i + 1) == n + 1;
    var ps := BlocksOf(start, i);
    assert BlocksOf(start, i + 1) == ps + Path(n);
    GrewExactly(fs, fs1, f, ps);
    GrewThen(fs, fs1, fs2, f, ps, Path(n));
    var p :| p in Wanting(fs2, f, Path(n));
    assert p in Wanting(fs2, f, ps + Path(n));
  }

  lemma WroteAll(fs: Fs, fs': Fs, f: nat, start: nat, i: nat, count: int)
    requires i >= count && Filled(fs, fs', f, BlocksOf(start, i))
    ensures TookItsBlocks(fs, fs', f, start, i, count)
  {
  }

  lemma {:induction false} PathsGrow(a: nat, b: nat, c: nat)
    requires b <= c
    ensures Paths(a, b) <= Paths(a, c)
    decreases c
  {
    hide Path;
    if b < c && c > a { PathsGrow(a, b, c - 1); }
  }

  lemma FewerWanting(fs: Fs, f: nat, ps: set<Pos>, qs: set<Pos>)
    requires ps <= qs
    ensures |Wanting(fs, f, ps)| <= |Wanting(fs, f, qs)|
  {
    hide ZoneAt;
    assert Wanting(fs, f, qs) == Wanting(fs, f, ps) + Wanting(fs, f, qs - ps);
  }

  /** The write is short exactly if too few blocks were free for all of it. */
  lemma EnoughExactly(fs: Fs, fs': Fs, f: nat, start: nat, w: nat, count: int)
    requires TookItsBlocks(fs, fs', f, start, w, count) && (w <= count || w == 0)
    ensures count > 0 ==> (w == count <==> |FreeSet(fs)| >= |Wanting(fs, f, BlocksOf(start, count))|)
  {
    hide ZoneAt, FreeSet, Path, Paths;
    if w >= count {
      GrewExactly(fs, fs', f, BlocksOf(start, w));
    } else {
      PathsGrow(start / 1024, EndBlock(start, w + 1), EndBlock(start, count));
      FewerWanting(fs, f, BlocksOf(start, w + 1), BlocksOf(start, count));
    }
  }

  lemma GrewNothing(fs: Fs, fs': Fs, f: nat, ps: set<Pos>)
    requires (forall g, q :: ZoneAt(fs', g, q) == ZoneAt(fs, g, q)) && FreeSet(fs') == FreeSet(fs)
    ensures Grew(fs, fs', f, ps)
  {
    hide ZoneAt, FreeSet;
    assert Wanting(fs', f, ps) == Wanting(fs, f, ps);
  }

  lemma FullIsNoneFree(fs: Fs)
    ensures Full(fs) <==> FreeSet(fs) == {}
  {
    if FreeSet(fs) == {} {
      forall b: nat | IsData(fs, b) ensures BitSet(fs, b) { assert b !in FreeSet(fs); }
    }
  }

  /** Taking a block for an empty place. */
  lemma GrownGrew(fs: Fs, ow: seq<Owner>, f: nat, p: Pos, b: nat)
    requires Good(fs, ow) && IsData(fs, b) && !BitSet(fs, b) && IsFile(fs, f) && IsFile(Taken(fs, b), f)
    requires ZoneAt(fs, f, p) == 0 && ZoneAt(Grown(fs, f, p, b), f, p) == b
             && SameZonesBut(fs, Grown(fs, f, p, b), f, p)
    ensures Grew(fs, Grown(fs, f, p, b), f, {p})
  {
    hide ZoneAt, Stored, Owned, BitsMatch;
    var fs' := Grown(fs, f, p, b);
    StoredShape(Taken(fs, b), f, p, b);
    assert FreeSet(fs') == FreeSet(fs) - {b};
    assert Wanting(fs, f, {p}) == {p} && Wanting(fs', f, {p}) == {};
  }

  lemma IsFileOf(fs: Fs, f: nat, p: Pos)
    requires HasPlace(fs, f, p)
    ensures IsFile(fs, f)
  {
  }

  /** struct file, as far as positions go. */
  class File {
    var pos: nat
    const append: bool

    constructor (pos: nat, append: bool)
      ensures this.pos == pos && this.append == append
    {
      this.pos, this.append := pos, append;
    }
  }

  class Device {
    const bits: array<bool>
    const blocks: array<Block>
    const inodes: array<Inode>
    const first: nat
    ghost var ow: seq<Owner>

    ghost function Snap(): Fs
      reads bits, blocks, inodes
    {
      Fs(bits[..], blocks[..], inodes[..], first)
    }

    /** Every set bit has its one owner; the bitmap is in at most eight blocks. */
    ghost predicate Valid()
      reads this, bits, blocks, inodes
    {
      Good(Snap(), ow) && bits.Length % 8192 == 0 && bits.Length <= 65536
    }

    constructor (fs: Fs, ghost ow: seq<Owner>)
      requires Good(fs, ow) && |fs.bits| % 8192 == 0 && |fs.bits| <= 65536
      ensures Valid() && Snap() == fs && fresh(bits) && fresh(blocks) && fresh(inodes)
    {
      hide Good;
      bits := new bool[|fs.bits|](i requires 0 <= i < |fs.bits| => fs.bits[i]);
      blocks := new Block[|fs.blocks|](i requires 0 <= i < |fs.blocks| => fs.blocks[i]);
      inodes := new Inode[|fs.inodes|](i requires 0 <= i < |fs.inodes| => fs.inodes[i]);
      first := fs.first;
      this.ow := ow;
      new;
      assert bits[..] == fs.bits && blocks[..] == fs.blocks && inodes[..] == fs.inodes;
    }

    // ---- bitmap.c ----

    /** find_first_zero on one bitmap block. */
    method FindFirstZero(i: nat) returns (j: nat)
      requires 8192 * i + 8192 <= bits.Length
      ensures j <= 8192 && forall k :: 8192 * i <= k < 8192 * i + j ==> bits[k]
      ensures j < 8192 ==> !bits[8192 * i + j]
    {
      j := 0;
      while j < 8192 && bits[8192 * i + j]
        invariant j <= 8192 && forall k :: 8192 * i <= k < 8192 * i + j ==> bits[k]
      {
        j := j + 1;
      }
    }

    /** new_block: the lowest free block, zeroed; 0 only if there is none.  It never takes a bit past the last zone. */
    method NewBlock() returns (b: nat)
      requires Valid()
      modifies bits, blocks
      ensures b == 0 ==> Full(Snap()) && Snap() == old(Snap())
      ensures b != 0 ==> IsData(old(Snap()), b) && !BitSet(old(Snap()), b) && Snap() == Taken(old(Snap()), b)
      ensures b != 0 ==> forall x: nat :: IsData(old(Snap()), x) && x < b ==> BitSet(old(Snap()), x)
      ensures b != 0 ==> first <= b < blocks.Length && blocks[b] == seq(1024, _ => 0)
                         && !old(bits[b - first + 1]) && bits[b - first + 1]
                         && forall j :: 0 <= j < b - first + 1 ==> old(bits[j])
    {
      hide Owned, BitsMatch;
      ghost var fs := Snap();
      var i, j: nat := 0, 8192;
      while i < 8
        invariant i <= 8 && Snap() == fs && forall k :: 0 <= k < 8192 * i && k < bits.Length ==> bits[k]
      {
        if 8192 * i + 8192 <= bits.Length {
          j := FindFirstZero(i);
          if j < 8192 {
            break;
          }
        }
        i := i + 1;
      }
      if i >= 8 || j >= 8192 {
        return 0;
      }
      assert forall k :: 0 <= k < 8192 * i + j ==> fs.bits[k];
      assert !fs.bits[8192 * i + j];
      bits[8192 * i + j] := true;
      b := j + 8192 * i + first - 1;
      blocks[b] := Zeros();
      assert Snap() == Taken(fs, b);
    }

    /** free_block: the bit was set, and the contents are lost. */
    method FreeBlock(b: nat)
      requires Geometry(Snap()) && IsData(Snap(), b) && BitSet(Snap(), b)
      modifies bits, blocks
      ensures FreedOne(old(Snap()), Snap(), b) && bits[..] == old(bits[..])[b - first + 1 := false]
    {
      var lost: Block := *;
      blocks[b] := lost;
      bits[b - first + 1] := false;
    }

    // ---- inode.c ----

    /** One zone of the inode in _bmap: `if (create && !i_zone[n]) i_zone[n] = new_block()`. */
    method ZoneSlot(f: nat, n: nat, create: bool) returns (r: nat)
      requires Valid() && IsFile(Snap(), f) && n < 9
      modifies this`ow, bits, blocks, inodes
      ensures Slotted(old(Snap()), Snap(), f, ZonePos(n), create, r) && Valid() && (!create ==> ow == old(ow))
    {
      hide Good, ZoneAt, Kept, SameZonesBut;
      ghost var fs, p := Snap(), ZonePos(n);
      KeptRefl(fs);
      ZoneOfInode(fs, f, n);
      if create && inodes[f].zone[n] == 0 {
        var b := NewBlock();
        if b != 0 {
          GrownKept(fs, ow, f, p, b);
          GrownZone(fs, ow, f, n, b);
          inodes[f] := inodes[f].(zone := inodes[f].zone[n := b]);
          assert Snap() == Grown(fs, f, p, b);
          ow := ow[b := Own(f, p)];
        }
      }
      r := inodes[f].zone[n];
      ZoneOfInode(Snap(), f, n);
    }

    /** One entry of a table block in _bmap: `if (create && !i) if ((i = new_block())) p[k] = i`. */
    method EntrySlot(t: nat, k: nat, create: bool, ghost f: nat, ghost p: Pos) returns (r: nat)
      requires Valid() && HasPlace(Snap(), f, p) && t == TableOf(Snap(), f, p) && !IsRoot(p) && k == EntryOf(p)
      modifies this`ow, bits, blocks
      ensures Slotted(old(Snap()), Snap(), f, p, create, r) && Valid() && (!create ==> ow == old(ow))
    {
      hide Good, ZoneAt, Kept, SameZonesBut, TableOf, HasPlace;
      ghost var fs := Snap();
      KeptRefl(fs);
      TableThere(fs, ow, f, p);
      EntryIs(fs, f, p);
      r := Short(blocks[t], k);
      if create && r == 0 {
        r := NewBlock();
        if r != 0 {
          GrownKept(fs, ow, f, p, r);
          GrownEntry(fs, ow, f, p, r);
          blocks[t] := SetShort(blocks[t], k, r);
          assert Snap() == Grown(fs, f, p, r);
          ow := ow[r := Own(f, p)];
        }
      }
    }

    /** _bmap; bmap is the call with create false, create_block the one with create true.  With create it takes a block
      * for every place that wants one on the way to the block, no other, and fails exactly if fewer are free. */
    method Bmap(f: nat, block: nat, create: bool) returns (r: nat)
      requires Valid() && IsFile(Snap(), f) && block < MAX_BLOCKS
      modifies this`ow, bits, blocks, inodes
      ensures Valid() && Kept(old(Snap()), Snap()) && (!create ==> Snap() == old(Snap()) && ow == old(ow))
      ensures r == ZoneAt(Snap(), f, DataPos(block)) && (create && r == 0 ==> Full(Snap()))
      ensures block < 7 ==> r == inodes[f].zone[block]
      ensures 7 <= block < 519 ==> IsShort(blocks[..], inodes[f].zone[7], block - 7, r)
      ensures 519 <= block ==>
                var t := ZoneAt(Snap(), f, DindE((block - 519) / 512));
                && IsShort(blocks[..], inodes[f].zone[8], (block - 519) / 512, t)
                && IsShort(blocks[..], t, (block - 519) % 512, r)
      ensures Grew(old(Snap()), Snap(), f, Path(block)) && (r != 0 <==> Wanting(Snap(), f, Path(block)) == {})
      ensures create ==> (r != 0 <==> |FreeSet(old(Snap()))| >= |Wanting(old(Snap()), f, Path(block))|)
    {
      hide Valid, ZoneAt, Kept, SameZonesBut, At, Grew, Wanting, FreeSet, Full;
      ghost var fs := Snap();
      r := Lookup(f, block, create);
      KeptFile(fs, Snap(), f);
      BlockIs(Snap(), f, block);
      PathFilled(Snap(), f, block);
      if create {
        FullIsNoneFree(Snap());
        GrewExactly(fs, Snap(), f, Path(block));
      }
    }

    /** The branches of _bmap. */
    method Lookup(f: nat, block: nat, create: bool) returns (r: nat)
      requires Valid() && IsFile(Snap(), f) && block < MAX_BLOCKS
      modifies this`ow, bits, blocks, inodes
      ensures Valid() && Kept(old(Snap()), Snap()) && (!create ==> Snap() == old(Snap()) && ow == old(ow))
      ensures r == ZoneAt(Snap(), f, DataPos(block)) && (create && r == 0 ==> Full(Snap()))
      ensures Grew(old(Snap()), Snap(), f, Path(block))
    {
      hide Valid, ZoneAt, Kept, SameZonesBut, At, Grew, Full;
      ghost var fs := Snap();
      KeptRefl(fs);
      if block < 7 {
        r := ZoneSlot(f, block, create);
        return;
      }
      var block' := block - 7;
      if block' < 512 {
        var t := ZoneSlot(f, 7, create);
        GrewWider(fs, Snap(), f, {Ind}, Path(block));
        if t == 0 {
          TableMissing(Snap(), f, block);
          return 0;
        }
        ghost var fs1 := Snap();
        PlaceThere(fs1, f, block);
        r := EntrySlot(t, block', create, f, IndE(block'));
        KeptTrans(fs, fs1, Snap());
        GrewOn(fs, fs1, Snap(), f, Path(block), IndE(block'));
        return;
      }
      block' := block' - 512;
      var t := ZoneSlot(f, 8, create);
      GrewWider(fs, Snap(), f, {Dind}, Path(block));
      if t == 0 {
        TableMissing(Snap(), f, block);
        return 0;
      }
      ghost var fs1 := Snap();
      DindThere(fs1, f, block');
      var m := EntrySlot(t, block' / 512, create, f, DindE(block' / 512));
      ghost var fs2 := Snap();
      KeptTrans(fs, fs1, fs2);
      GrewOn(fs, fs1, fs2, f, Path(block), DindE(block' / 512));
      if m == 0 {
        TableMissing(fs2, f, block);
        return 0;
      }
      PlaceThere(fs2, f, block);
      r := EntrySlot(m, block' % 512, create, f, DindEE(block' / 512, block' % 512));
      KeptTrans(fs, fs2, Snap());
      GrewOn(fs, fs2, Snap(), f, Path(block), DindEE(block' / 512, block' % 512));
    }

    // ---- file_dev.c ----

    /** file_read: exactly the bytes of the file from the position on, holes as zeros. */
    method FileRead(f: nat, file: File, count: int) returns (out: seq<Byte>, n: int)
      requires Valid() && IsFile(Snap(), f) && (count > 0 ==> file.pos + count <= 1024 * MAX_BLOCKS)
      modifies file, this`ow, bits, blocks, inodes
      ensures Snap() == old(Snap()) && ow == old(ow)
      ensures n == |out| == (if count > 0 then count else 0) && file.pos == old(file.pos) + n
      ensures forall k :: 0 <= k < n ==> out[k] == FileByte(Snap(), f, old(file.pos) + k)
    {
      hide Good, ZoneAt, Kept;
      out := [];
      var left := count;
      if left <= 0 {
        return out, 0;
      }
      ghost var fs := Snap();
      while left != 0
        invariant 0 <= left <= count && Snap() == fs && ow == old(ow)
        invariant |out| == count - left && file.pos == old(file.pos) + |out|
        invariant forall k :: 0 <= k < |out| ==> out[k] == FileByte(fs, f, old(file.pos) + k)
        decreases left
      {
        var nr := Bmap(f, file.pos / 1024, false);
        ZoneInRange(fs, ow, f, DataPos(file.pos / 1024));
        var at, p := file.pos, file.pos % 1024;
        var chars := if 1024 - p < left then 1024 - p else left;
        file.pos := file.pos + chars;
        left := left - chars;
        ghost var done := |out|;
        while chars > 0
          invariant 0 <= chars && p + chars <= 1024 && Snap() == fs && ow == old(ow)
          invariant |out| - done + chars == file.pos - at && p == at % 1024 + |out| - done && done <= |out|
          invariant forall k :: 0 <= k < |out| ==> out[k] == FileByte(fs, f, old(file.pos) + k)
          invariant old(file.pos) + done == at && file.pos == old(file.pos) + count - left
        {
          InBlock(at, |out| - done);
          out := out + [if nr != 0 then blocks[nr][p] else 0];
          p := p + 1;
          chars := chars - 1;
        }
      }
      n := count - left;
    }

    /** file_write: the bytes it says it wrote are in the file at the position, and nothing else reads differently.  It
      * takes just the blocks that are missing on the way to the bytes, and is short exactly if fewer were free. */
    method FileWrite(f: nat, file: File, buf: seq<Byte>, count: int) returns (n: int)
      requires Valid() && IsFile(Snap(), f) && count <= |buf|
      requires count > 0 ==> (if file.append then inodes[f].size else file.pos) + count <= 1024 * MAX_BLOCKS
      modifies file, this`ow, bits, blocks, inodes
      ensures Valid() && (n == -1 || 0 < n <= count)
      ensures var start := if file.append then old(inodes[f].size) else old(file.pos);
              var w := if n < 0 then 0 else n;
              && Written(old(Snap()), Snap(), f, start, buf[..w])
              && inodes[f].size == (if w > 0 && start + w > old(inodes[f]).size then start + w else old(inodes[f]).size)
              && (forall i :: 0 <= i < w ==> FileByte(Snap(), f, start + i) == buf[i])
              && (w < count ==> Full(Snap()))
              && TookItsBlocks(old(Snap()), Snap(), f, start, w, count)
              && (count > 0 ==>
                    (w == count <==> |FreeSet(old(Snap()))| >= |Wanting(old(Snap()), f, BlocksOf(start, count))|))
              && file.pos == if file.append then old(file.pos) else start + w
    {
      hide Good, Kept, Written, Full, ZoneAt, DataPos, Filled, Grew, Wanting, FreeSet, TookItsBlocks, Paths, FileByte;
      ghost var fs := Snap();
      var pos := if file.append then inodes[f].size else file.pos;
      ghost var start := pos;
      var i := 0;
      WrittenNothing(fs, f, start, buf[..0]);
      ghost var d: nat := start / 1024;
      FilledNothing(fs, f, d);
      while i < count
        invariant Filled(fs, Snap(), f, Paths(start / 1024, d)) && d == EndBlock(start, i)
                  && (i == 0 || i >= count || pos % 1024 == 0)
        invariant Valid() && 0 <= i && (i > 0 ==> i <= count) && pos == start + i && IsFile(Snap(), f)
        invariant Written(fs, Snap(), f, start, buf[..i]) && file.pos == old(file.pos)
      {
        ghost var fs1 := Snap();
        var block := Bmap(f, pos / 1024, true);
        WrittenKept(fs, fs1, Snap(), f, start, buf[..i]);
        ghost var fs2 := Snap();
        if block == 0 {
          FullIsNoneFree(fs2);
          FellShort(fs, fs1, fs2, f, start, i, count);
          break;
        }
        FilledMore(fs, fs1, fs2, f, start / 1024, d);
        var c := 1024 - pos % 1024;
        if c > count - i {
          c := count - i;
        }
        pos := StoreChunk(f, pos, block, buf, i, c, fs, start);
        FilledSame(fs, fs2, Snap(), f, Paths(start / 1024, d + 1));
        i := i + c;
        d := d + 1;
      }
      if i >= count { WroteAll(fs, Snap(), f, start, i, count); }
      EnoughExactly(fs, Snap(), f, start, i, count);
      if !file.append {
        file.pos := pos;
      }
      n := if i != 0 then i else -1;
      WrittenIs(fs, Snap(), f, start, buf[..i]);
    }

    /** The second half of a turn of file_write: the size, and `c` bytes into the block. */
    method StoreChunk(f: nat, pos0: nat, block: nat, buf: seq<Byte>, i: nat, c: nat, ghost fs: Fs, ghost start: nat)
        returns (pos: nat)
      requires 0 < c && i + c <= |buf| && pos0 == start + i && pos0 % 1024 + c <= 1024
      requires Valid() && IsFile(Snap(), f) && Written(fs, Snap(), f, start, buf[..i])
      requires block != 0 && block == ZoneAt(Snap(), f, DataPos(pos0 / 1024))
      modifies blocks, inodes
      ensures Valid() && IsFile(Snap(), f) && Written(fs, Snap(), f, start, buf[..i + c])
      ensures SameBlocks(old(Snap()), Snap()) && pos == pos0 + c
    {
      hide Good, Kept, Written, ZoneAt, DataPos, SameBlocks;
      ghost var fs2 := Snap();
      ZoneInRange(fs2, ow, f, DataPos(pos0 / 1024));
      var p := pos0 % 1024;
      pos := pos0 + c;
      if pos > inodes[f].size {
        inodes[f] := inodes[f].(size := pos);
      }
      ghost var sized := Snap();
      CopyIn(block, p, buf[i..i + c]);
      ChunkWritten(fs, fs2, sized, ow, f, start, buf, i, c, blocks[..][block]);
    }

    /** The inner loop of file_write: one byte after another into the buffer. */
    method CopyIn(block: nat, off: nat, data: seq<Byte>)
      requires block < blocks.Length && off + |data| <= 1024
      modifies blocks
      ensures blocks[..] == old(blocks[..])[block := blocks[block]]
      ensures forall x :: 0 <= x < 1024 ==>
                blocks[block][x] == if off <= x < off + |data| then data[x - off] else old(blocks[block])[x]
    {
      var p, c := off, |data|;
      while c > 0
        invariant 0 <= c <= |data| && p == off + |data| - c
        invariant blocks[..] == old(blocks[..])[block := blocks[block]]
        invariant forall x :: 0 <= x < 1024 ==>
                    blocks[block][x] == if off <= x < p then data[x - off] else old(blocks[block])[x]
      {
        blocks[block] := blocks[block][p := data[p - off]];
        p := p + 1;
        c := c - 1;
      }
    }

    // ---- truncate.c ----

    /** free_ind: a table block and every block it names. */
    method FreeInd(b: nat, ghost fs: Fs, ghost f: nat, ghost p: Pos, ghost gone: iset<Pos>)
      requires Good(fs, ow) && Freed(fs, Snap(), ow, f, gone) && (p.Ind? || p.DindE?) && b == ZoneAt(fs, f, p)
      requires gone !! Under(p, 512)
      modifies bits, blocks
      ensures Freed(fs, Snap(), ow, f, gone + Under(p, 512))
    {
      hide Good, Freed, FreedOne, ZoneAt, Short;
      if b == 0 {
        NothingUnder(fs, ow, Snap(), f, p, gone, 512);
        return;
      }
      NothingYet(fs, ow, Snap(), f, p, gone);
      FreedTable(fs, Snap(), ow, f, gone, p);
      for i := 0 to 512
        invariant Freed(fs, Snap(), ow, f, gone + Below(p, i)) && b < blocks.Length && blocks[b] == fs.blocks[b]
      {
        ghost var q := Child(p, i);
        ChildOf(fs, ow, f, p, i);
        BelowNext(p, i, gone);
        if Short(blocks[b], i) != 0 {
          FreeAt(Short(blocks[b], i), fs, f, q, gone + Below(p, i));
          assert gone + Below(p, i) + iset{q} == gone + Below(p, i + 1);
        } else {
          FreedMore(fs, Snap(), ow, f, gone + Below(p, i), gone + Below(p, i + 1));
        }
        FreedTable(fs, Snap(), ow, f, gone + Below(p, i + 1), p);
      }
      FreeAt(b, fs, f, p, gone + Below(p, 512));
      assert gone + Below(p, 512) + iset{p} == gone + Under(p, 512);
    }

    /** free_block of the block at place `p`. */
    method FreeAt(b: nat, ghost fs: Fs, ghost f: nat, ghost p: Pos, ghost gone: iset<Pos>)
      requires Good(fs, ow) && Freed(fs, Snap(), ow, f, gone) && p !in gone && b == ZoneAt(fs, f, p) != 0
      modifies bits, blocks
      ensures Freed(fs, Snap(), ow, f, gone + iset{p})
    {
      hide Good, Freed, FreedOne, ZoneAt;
      ghost var fs1 := Snap();
      FreedStep(fs, fs1, fs1, ow, f, gone, p);
      FreeBlock(b);
      FreedStep(fs, fs1, Snap(), ow, f, gone, p);
    }

    /** free_dind. */
    method FreeDind(b: nat, ghost fs: Fs, ghost f: nat, ghost gone: iset<Pos>)
      requires Good(fs, ow) && Freed(fs, Snap(), ow, f, gone) && b == ZoneAt(fs, f, Dind)
      requires gone !! AllDind(512) && Dind !in gone
      modifies bits, blocks
      ensures Freed(fs, Snap(), ow, f, gone + AllDind(512) + iset{Dind})
    {
      hide Good, Freed, FreedOne, ZoneAt, Short;
      if b == 0 {
        NothingDind(fs, ow, Snap(), f, gone);
        return;
      }
      NothingDindYet(fs, ow, Snap(), f, gone);
      FreedTable(fs, Snap(), ow, f, gone, Dind);
      for i := 0 to 512
        invariant Freed(fs, Snap(), ow, f, gone + AllDind(i)) && b < blocks.Length && blocks[b] == fs.blocks[b]
      {
        ChildOf(fs, ow, f, Dind, i);
        assert gone + AllDind(i) + Under(DindE(i), 512) <= gone + AllDind(i + 1);
        if Short(blocks[b], i) != 0 {
          FreeInd(Short(blocks[b], i), fs, f, DindE(i), gone + AllDind(i));
        } else {
          NothingUnder(fs, ow, Snap(), f, DindE(i), gone + AllDind(i), 512);
        }
        assert gone + AllDind(i) + Under(DindE(i), 512) == gone + AllDind(i + 1);
        FreedTable(fs, Snap(), ow, f, gone + AllDind(i + 1), Dind);
      }
      FreeAt(b, fs, f, Dind, gone + AllDind(512));
    }

    /** truncate: the blocks of the file and no others are free, the file is empty, the other files are untouched. */
    method Truncate(f: nat)
      requires Valid() && f < inodes.Length
      modifies this`ow, bits, blocks, inodes
      ensures !old(inodes[f]).tree ==> Snap() == old(Snap()) && ow == old(ow)
      ensures old(inodes[f]).tree ==> Valid() && Emptied(old(Snap()), Snap(), f)
      ensures old(inodes[f]).tree ==> inodes[..] == old(inodes[..])[f := Inode(true, 0, [0, 0, 0, 0, 0, 0, 0, 0, 0])]
    {
      hide Good, Freed, ZoneAt, IsFile, Emptied;
      if !inodes[f].tree {
        return;
      }
      ghost var fs := Snap();
      ghost var dev := inodes[..];
      FreedNone(fs, ow, f);
      for n := 0 to 7
        modifies bits, blocks, inodes
        invariant Freed(fs, Snap(), ow, f, Directs(n)) && inodes[..] == dev[f := inodes[f]]
        invariant inodes[f] == dev[f].(zone := inodes[f].zone)
        invariant forall m :: 0 <= m < 9 ==> inodes[f].zone[m] == if m < n then 0 else dev[f].zone[m]
      {
        ZoneOfInode(fs, f, n);
        if inodes[f].zone[n] != 0 {
          FreeAt(inodes[f].zone[n], fs, f, Direct(n), Directs(n));
          ghost var freed := Snap();
          inodes[f] := inodes[f].(zone := inodes[f].zone[n := 0]);
          FreedInodes(fs, freed, Snap(), ow, f, Directs(n) + iset{Direct(n)});
          assert Directs(n) + iset{Direct(n)} == Directs(n + 1);
        } else {
          FreedMore(fs, Snap(), ow, f, Directs(n), Directs(n + 1));
        }
      }
      ZoneOfInode(fs, f, 7);
      ZoneOfInode(fs, f, 8);
      FreeInd(inodes[f].zone[7], fs, f, Ind, Directs(7));
      ghost var gone := Directs(7) + Under(Ind, 512);
      FreeDind(inodes[f].zone[8], fs, f, gone);
      ghost var freed := Snap();
      inodes[f] := inodes[f].(zone := inodes[f].zone[7 := 0]);
      inodes[f] := inodes[f].(zone := inodes[f].zone[8 := 0]);
      inodes[f] := inodes[f].(size := 0);
      FreedInodes(fs, freed, Snap(), ow, f, gone + AllDind(512) + iset{Dind});
      EverythingGone(fs, f);
      assert inodes[f].zone == [0, 0, 0, 0, 0, 0, 0, 0, 0];
      FreedEmptied(fs, Snap(), ow, f, gone + AllDind(512) + iset{Dind});
      ow := Without(ow, f);
    }
  }

  // ---- what the steps of _bmap rest on ----

  function ZonePos(n: nat): Pos {
    if n == 7 then Ind else if n == 8 then Dind else Direct(n)
  }

  predicate IsRoot(p: Pos) {
    p.Direct? || p.Ind? || p.Dind?
  }

  function EntryOf(p: Pos): nat {
    match p
    case IndE(k) => k
    case DindE(k) => k
    case DindEE(_, l) => l
    case _ => 0
  }

  /** The effect of looking at place `p`, taking a block for it if wanted and needed. */
  ghost predicate Slotted(fs: Fs, fs': Fs, f: nat, p: Pos, create: bool, r: nat) {
    && Kept(fs, fs') && r == ZoneAt(fs', f, p) && SameZonesBut(fs, fs', f, p)
    && (!create || ZoneAt(fs, f, p) != 0 ==> fs' == fs) && Grew(fs, fs', f, {p})
    && (create && r == 0 ==> Full(fs')) && IsFile(fs', f)
  }

  lemma ZoneOfInode(fs: Fs, f: nat, n: nat)
    requires IsFile(fs, f) && n < 9
    ensures ZoneAt(fs, f, ZonePos(n)) == fs.inodes[f].zone[n] && HasPlace(fs, f, ZonePos(n))
  {
  }

  lemma GrownZone(fs: Fs, ow: seq<Owner>, f: nat, n: nat, b: nat)
    requires Good(fs, ow) && IsFile(fs, f) && n < 9 && IsData(fs, b)
    ensures Geometry(fs) && Grown(fs, f, ZonePos(n), b) ==
            Taken(fs, b).(inodes := fs.inodes[f := fs.inodes[f].(zone := fs.inodes[f].zone[n := b])])
  {
  }

  lemma TableThere(fs: Fs, ow: seq<Owner>, f: nat, p: Pos)
    requires Good(fs, ow) && HasPlace(fs, f, p) && !IsRoot(p)
    ensures IsFile(fs, f) && 0 < TableOf(fs, f, p) < |fs.blocks| && EntryOf(p) < 512
    ensures Geometry(fs) && forall b: nat :: IsData(fs, b) && !BitSet(fs, b) ==> b != TableOf(fs, f, p)
  {
    hide Owned, Load;
    TableOwned(fs, ow, f, p);
  }

  lemma EntryIs(fs: Fs, f: nat, p: Pos)
    requires HasPlace(fs, f, p) && !IsRoot(p) && TableOf(fs, f, p) < |fs.blocks|
    ensures IsFile(fs, f) && ZoneAt(fs, f, p) == Short(fs.blocks[TableOf(fs, f, p)], EntryOf(p))
  {
    hide Short;
  }

  lemma GrownEntry(fs: Fs, ow: seq<Owner>, f: nat, p: Pos, b: nat)
    requires Good(fs, ow) && HasPlace(fs, f, p) && !IsRoot(p) && IsData(fs, b) && !BitSet(fs, b)
    ensures IsFile(fs, f) && TableOf(fs, f, p) < |fs.blocks| && EntryOf(p) < 512 && b < 65536
    ensures var t := TableOf(fs, f, p);
      Grown(fs, f, p, b) == Taken(fs, b).(blocks := fs.blocks[b := Zeros()][t := SetShort(fs.blocks[t], EntryOf(p), b)])
  {
    hide Owned, Load, SetShort, BitSet;
    TableThere(fs, ow, f, p);
    assert ow[b] == Nobody;
    TakenPlace(fs, ow, f, p, b);
  }

  lemma TableMissing(fs: Fs, f: nat, block: nat)
    requires 7 <= block < 519 ==> ZoneAt(fs, f, Ind) == 0
    requires block >= 519 ==> ZoneAt(fs, f, Dind) == 0 || ZoneAt(fs, f, DindE((block - 519) / 512)) == 0
    requires block >= 7
    ensures ZoneAt(fs, f, DataPos(block)) == 0
  {
  }

  lemma PlaceThere(fs: Fs, f: nat, block: nat)
    requires IsFile(fs, f) && block >= 7
    requires if block < 519 then ZoneAt(fs, f, Ind) != 0 else ZoneAt(fs, f, DindE((block - 519) / 512)) != 0
    ensures HasPlace(fs, f, DataPos(block)) && EntryOf(DataPos(block)) < 512
    ensures TableOf(fs, f, DataPos(block)) ==
            if block < 519 then ZoneAt(fs, f, Ind) else ZoneAt(fs, f, DindE((block - 519) / 512))
  {
  }

  lemma DindThere(fs: Fs, f: nat, b: nat)
    requires IsFile(fs, f) && b < 512 * 512 && ZoneAt(fs, f, Dind) != 0
    ensures HasPlace(fs, f, DindE(b / 512)) && TableOf(fs, f, DindE(b / 512)) == ZoneAt(fs, f, Dind)
  {
  }

  // ---- reading and writing ----

  lemma ZoneInRange(fs: Fs, ow: seq<Owner>, f: nat, p: Pos)
    requires Good(fs, ow)
    ensures ZoneAt(fs, f, p) < |fs.blocks|
  {
    hide ZoneAt;
  }

  /** A stretch that does not cross a block boundary. */
  lemma InBlock(pos: nat, c: nat)
    requires pos % 1024 + c < 1024
    ensures (pos + c) / 1024 == pos / 1024 && (pos + c) % 1024 == pos % 1024 + c
  {
  }

  /** `data` has been written to file `f` at `start`, and nothing else reads differently. */
  ghost predicate Written(fs: Fs, fs': Fs, f: nat, start: nat, data: seq<Byte>) {
    && fs'.first == fs.first && |fs'.blocks| == |fs.blocks| && |fs'.bits| == |fs.bits| && |fs'.inodes| == |fs.inodes|
    && (forall g :: 0 <= g < |fs.inodes| ==> fs'.inodes[g].tree == fs.inodes[g].tree)
    && (forall g :: 0 <= g < |fs.inodes| && g != f ==> fs'.inodes[g].size == fs.inodes[g].size)
    && (f < |fs.inodes| ==>
          var end := start + |data|;
          fs'.inodes[f].size == if data != [] && end > fs.inodes[f].size then end else fs.inodes[f].size)
    && (forall g :: g != f ==> SameBytes(fs, fs', g))
    && (forall i: nat ::
          FileByte(fs', f, i) == if start <= i < start + |data| then data[i - start] else FileByte(fs, f, i))
  }

  lemma WrittenIs(fs: Fs, fs': Fs, f: nat, start: nat, data: seq<Byte>)
    requires Written(fs, fs', f, start, data) && IsFile(fs, f) && f < |fs'.inodes|
    ensures fs'.inodes[f].size ==
            if |data| > 0 && start + |data| > fs.inodes[f].size then start + |data| else fs.inodes[f].size
    ensures forall i :: 0 <= i < |data| ==> FileByte(fs', f, start + i) == data[i]
  {
  }

  lemma WrittenNothing(fs: Fs, f: nat, start: nat, data: seq<Byte>)
    requires data == []
    ensures Written(fs, fs, f, start, data)
  {
  }

  lemma WrittenKept(fs: Fs, fs1: Fs, fs2: Fs, f: nat, start: nat, data: seq<Byte>)
    requires Written(fs, fs1, f, start, data) && Kept(fs1, fs2)
    ensures Written(fs, fs2, f, start, data) && (IsFile(fs1, f) ==> IsFile(fs2, f))
  {
    hide FileByte, ZoneAt;
    forall g | g != f ensures SameBytes(fs, fs2, g) {
      assert SameBytes(fs, fs1, g) && SameBytes(fs1, fs2, g);
    }
    assert SameBytes(fs1, fs2, f);
  }

  /** Sizes are no business of the trees. */
  lemma SizeSet(fs: Fs, fs': Fs, ow: seq<Owner>, f: nat)
    requires Good(fs, ow) && f < |fs.inodes|
    requires fs' == fs.(inodes := fs'.inodes) && |fs'.inodes| == |fs.inodes|
    requires fs'.inodes == fs.inodes[f := fs.inodes[f].(size := fs'.inodes[f].size)]
    ensures Good(fs', ow) && (forall g :: SameBytes(fs, fs', g)) && forall g, q :: ZoneAt(fs', g, q) == ZoneAt(fs, g, q)
  {
    hide At;
    forall g, q ensures ZoneAt(fs', g, q) == ZoneAt(fs, g, q) {}
    forall b: nat | IsData(fs', b) ensures BitSet(fs', b) <==> ow[b].Own? {
      assert BitSet(fs, b) <==> ow[b].Own?;
    }
  }

  /** One turn of the loop of file_write. */
  lemma ChunkWritten(fs: Fs, fs2: Fs, sized: Fs, ow: seq<Owner>, f: nat, start: nat, buf: seq<Byte>, i: nat, c: nat,
        nb: Block)
    requires Good(fs2, ow) && IsFile(fs2, f) && i + c <= |buf| && 0 < c && Written(fs, fs2, f, start, buf[..i])
    requires var at := start + i; at % 1024 + c <= 1024 && ZoneAt(fs2, f, DataPos(at / 1024)) != 0
    requires var end := start + i + c; var size := fs2.inodes[f].size;
      sized == fs2.(inodes := fs2.inodes[f := fs2.inodes[f].(size := if end > size then end else size)])
    requires ZoneAt(fs2, f, DataPos((start + i) / 1024)) < |fs2.blocks|
    requires var off := (start + i) % 1024; var b := ZoneAt(fs2, f, DataPos((start + i) / 1024));
      forall x :: 0 <= x < 1024 ==> nb[x] == if off <= x < off + c then buf[i..i + c][x - off] else fs2.blocks[b][x]
    ensures var fs' := sized.(blocks := fs2.blocks[ZoneAt(fs2, f, DataPos((start + i) / 1024)) := nb]);
      Good(fs', ow) && IsFile(fs', f) && Written(fs, fs', f, start, buf[..i + c]) && SameBlocks(fs2, fs')
  {
    hide ZoneAt, Good;
    var at := start + i;
    var n, off := at / 1024, at % 1024;
    var b := ZoneAt(fs2, f, DataPos(n));
    var fs' := sized.(blocks := fs2.blocks[b := nb]);
    SizeSet(fs2, sized, ow, f);
    DataStored(sized, ow, f, n, nb);
    assert SameBlocks(fs2, fs') by { SameBits(fs2, fs'); }
    forall g | g != f ensures SameBytes(fs, fs', g) {
      assert SameBytes(fs, fs2, g) && SameBytes(fs2, sized, g) && SameBytes(sized, fs', g);
    }
    assert SameBytes(fs2, sized, f);
    forall j: nat
      ensures FileByte(fs', f, j) == if start <= j < at + c then buf[..i + c][j - start] else FileByte(fs, f, j)
    {
      if at <= j < at + c {
        InBlock(at, j - at);
      }
      if j / 1024 == n {
        assert nb[j % 1024] == if off <= j % 1024 < off + c then buf[i + j % 1024 - off] else fs2.blocks[b][j % 1024];
        assert FileByte(fs2, f, j) == fs2.blocks[b][j % 1024];
        assert at <= j < at + c <==> off <= j % 1024 < off + c;
      }
    }
  }

  // ---- files as byte arrays ----

  /** Past the end of every file there is nothing but zeros, in its last block as well. */
  ghost predicate TailsZero(fs: Fs) {
    forall f: nat, i: nat :: f < |fs.inodes| && i >= fs.inodes[f].size ==> FileByte(fs, f, i) == 0
  }

  function Contents(fs: Fs, f: nat): seq<Byte>
    requires f < |fs.inodes|
  {
    seq(fs.inodes[f].size, i requires 0 <= i => FileByte(fs, f, i))
  }

  /** `data` laid over `s` at `start`, with zeros between the end of `s` and `start`. */
  function Overlay(s: seq<Byte>, start: nat, data: seq<Byte>): seq<Byte> {
    var end := start + |data|;
    seq(if data != [] && end > |s| then end else |s|,
        i requires 0 <= i => if start <= i < end then data[i - start] else if i < |s| then s[i] else 0)
  }

  /** A write is a write into an array of bytes, and a gap it leaves reads as zeros. */
  lemma WriteIsOverlay(fs: Fs, fs': Fs, f: nat, start: nat, data: seq<Byte>)
    requires TailsZero(fs) && Written(fs, fs', f, start, data) && f < |fs.inodes|
    ensures TailsZero(fs') && Contents(fs', f) == Overlay(Contents(fs, f), start, data)
    ensures forall g: nat :: g < |fs.inodes| && g != f ==> Contents(fs', g) == Contents(fs, g)
  {
    hide FileByte;
    forall g: nat | g < |fs.inodes| && g != f
      ensures Contents(fs', g) == Contents(fs, g)
      ensures forall i: nat :: i >= fs'.inodes[g].size ==> FileByte(fs', g, i) == 0
    {
      assert SameBytes(fs, fs', g);
    }
  }

  lemma TruncateEmpties(fs: Fs, fs': Fs, f: nat)
    requires TailsZero(fs) && Emptied(fs, fs', f)
    ensures TailsZero(fs') && Contents(fs', f) == []
    ensures forall g: nat :: g < |fs.inodes| && g != f ==> Contents(fs', g) == Contents(fs, g)
  {
    hide ZoneAt;
    forall g: nat | g < |fs.inodes| && g != f
      ensures Contents(fs', g) == Contents(fs, g)
      ensures forall i: nat :: i >= fs'.inodes[g].size ==> FileByte(fs', g, i) == 0
    {
      assert SameBytes(fs, fs', g);
    }
  }

  // ---- any run of reads, writes and truncations ----

  datatype Op =
    | ReadOp(f: nat, pos: nat, count: nat)
    | WriteOp(f: nat, pos: nat, append: bool, buf: seq<Byte>)
    | TruncateOp(f: nat)

  datatype Answer = Data(bytes: seq<Byte>) | Count(n: int) | Done

  /** The files as arrays. */
  function Arrays(fs: Fs): (a: seq<seq<Byte>>)
    ensures |a| == |fs.inodes| && forall f :: 0 <= f < |a| ==> a[f] == Contents(fs, f)
  {
    seq(|fs.inodes|, f requires 0 <= f < |fs.inodes| => Contents(fs, f))
  }

  /** Bytes of an array from `pos` on, zeros behind its end. */
  function Slice(s: seq<Byte>, pos: nat, count: nat): seq<Byte> {
    seq(count, i requires 0 <= i => if pos + i < |s| then s[pos + i] else 0)
  }

  /** What an operation does to arrays, `n` being what a write returned. */
  function ArrayStep(a: seq<seq<Byte>>, op: Op, n: int): seq<seq<Byte>> {
    if op.f >= |a| then a
    else
      match op
      case ReadOp(_, _, _) => a
      case WriteOp(f, pos, append, buf) =>
        var start := if append then |a[f]| else pos;
        a[f := Overlay(a[f], start, buf[..if 0 <= n <= |buf| then n else 0])]
      case TruncateOp(f) => a[f := []]
  }

  /** What it answers, and the blocks it takes or frees: a read gives the bytes of the array and changes nothing; a
    * write says how much it wrote, all of it exactly if there were enough free blocks, and -1 for nothing. */
  ghost predicate Answers(fs: Fs, op: Op, ans: Answer, fs': Fs) {
    op.f < |fs.inodes| &&
    match op
    case ReadOp(f, pos, count) => ans == Data(Slice(Contents(fs, f), pos, count)) && fs' == fs
    case WriteOp(f, pos, append, buf) =>
      var start := if append then fs.inodes[f].size else pos;
      && ans.Count? && (ans.n == -1 || 0 < ans.n <= |buf|)
      && TookItsBlocks(fs, fs', f, start, if ans.n < 0 then 0 else ans.n, |buf|)
      && (buf != [] ==> (ans.n == |buf| <==> |FreeSet(fs)| >= |Wanting(fs, f, BlocksOf(start, |buf|))|))
    case TruncateOp(f) => ans == Done && Emptied(fs, fs', f)
  }

  function HowMuch(ans: Answer): int {
    if ans.Count? then ans.n else -1
  }

  function ArrayRun(a: seq<seq<Byte>>, ops: seq<Op>, answers: seq<Answer>): seq<seq<Byte>>
    requires |ops| == |answers|
  {
    if ops == [] then a
    else
      var k := |ops| - 1;
      ArrayStep(ArrayRun(a, ops[..k], answers[..k]), ops[k], HowMuch(answers[k]))
  }

  /** The device goes through `trace`; each answer is right where it was given, and the arrays follow. */
  ghost predicate Serves(trace: seq<Fs>, ops: seq<Op>, answers: seq<Answer>) {
    && |trace| == |ops| + 1 && |answers| == |ops|
    && forall k :: 0 <= k < |ops| ==>
         Answers(trace[k], ops[k], answers[k], trace[k + 1])
         && Arrays(trace[k + 1]) == ArrayStep(Arrays(trace[k]), ops[k], HowMuch(answers[k]))
  }

  lemma {:induction false} ServesIsArrays(trace: seq<Fs>, ops: seq<Op>, answers: seq<Answer>)
    requires Serves(trace, ops, answers)
    ensures Arrays(trace[|ops|]) == ArrayRun(Arrays(trace[0]), ops, answers)
    decreases |ops|
  {
    hide Arrays, ArrayStep, Answers;
    if ops != [] {
      var k := |ops| - 1;
      ServesIsArrays(trace[..k + 1], ops[..k], answers[..k]);
    }
  }

  lemma ServesMore(trace: seq<Fs>, ops: seq<Op>, answers: seq<Answer>, op: Op, ans: Answer, fs: Fs)
    requires Serves(trace, ops, answers) && Answers(trace[|ops|], op, ans, fs)
    requires Arrays(fs) == ArrayStep(Arrays(trace[|ops|]), op, HowMuch(ans))
    ensures Serves(trace + [fs], ops + [op], answers + [ans])
  {
    hide Arrays, ArrayStep, Answers;
  }

  /** How many bytes the writes ask for. */
  function Asked(ops: seq<Op>): nat {
    if ops == [] then 0 else Asked(ops[..|ops| - 1]) + if ops[|ops| - 1].WriteOp? then |ops[|ops| - 1].buf| else 0
  }

  /** The files exist, and no size or position can pass the largest file: none is above `top` at the start. */
  ghost predicate WithinLimits(fs: Fs, ops: seq<Op>, top: nat) {
    && (forall f :: 0 <= f < |fs.inodes| ==> fs.inodes[f].tree && fs.inodes[f].size <= top)
    && top + Asked(ops) <= 1024 * MAX_BLOCKS
    && forall k :: 0 <= k < |ops| ==>
         && ops[k].f < |fs.inodes|
         && (ops[k].ReadOp? ==> ops[k].pos + ops[k].count <= 1024 * MAX_BLOCKS)
         && (ops[k].WriteOp? ==> ops[k].pos <= top)
  }

  lemma {:induction false} AskedGrows(ops: seq<Op>, k: nat)
    requires k < |ops|
    ensures Asked(ops[..k]) + (if ops[k].WriteOp? then |ops[k].buf| else 0) == Asked(ops[..k + 1]) <= Asked(ops)
    decreases |ops|
  {
    assert ops[..k + 1][..k] == ops[..k];
    if k + 1 < |ops| {
      var n := |ops| - 1;
      AskedGrows(ops[..n], k);
      assert ops[..n][..k] == ops[..k] && ops[..n][..k + 1] == ops[..k + 1];
    } else {
      assert ops[..k + 1] == ops;
    }
  }

  /** Everything that is done with the files of a device, one operation after the other: they are arrays of bytes. */
  method RunOps(dev: Device, ops: seq<Op>, ghost top: nat) returns (answers: seq<Answer>, ghost trace: seq<Fs>)
    requires dev.Valid() && TailsZero(dev.Snap()) && WithinLimits(dev.Snap(), ops, top)
    modifies dev`ow, dev.bits, dev.blocks, dev.inodes
    ensures dev.Valid() && TailsZero(dev.Snap()) && |answers| == |ops|
    ensures Serves(trace, ops, answers) && trace[0] == old(dev.Snap()) && trace[|ops|] == dev.Snap()
    ensures Arrays(dev.Snap()) == ArrayRun(old(Arrays(dev.Snap())), ops, answers)
  {
    hide Good, Arrays, ArrayStep, Answers, Serves, TailsZero;
    answers, trace := [], [dev.Snap()];
    ServesNothing(dev.Snap());
    for k := 0 to |ops|
      invariant dev.Valid() && TailsZero(dev.Snap()) && |answers| == k && |trace| == k + 1
      invariant Serves(trace, ops[..k], answers) && trace[0] == old(dev.Snap()) && trace[k] == dev.Snap()
      invariant |dev.Snap().inodes| == |old(dev.Snap()).inodes|
      invariant forall f :: 0 <= f < dev.inodes.Length ==>
                dev.inodes[f].tree && dev.inodes[f].size <= top + Asked(ops[..k])
    {
      AskedGrows(ops, k);
      var ans := Serve(dev, ops[k], top + Asked(ops[..k]));
      ServesMore(trace, ops[..k], answers, ops[k], ans, dev.Snap());
      assert ops[..k] + [ops[k]] == ops[..k + 1];
      answers, trace := answers + [ans], trace + [dev.Snap()];
    }
    assert ops[..|ops|] == ops;
    ServesIsArrays(trace, ops, answers);
  }

  lemma ServesNothing(fs: Fs)
    ensures Serves([fs], [], [])
  {
  }

  /** One operation. */
  method Serve(dev: Device, op: Op, ghost top: nat) returns (ans: Answer)
    requires dev.Valid() && TailsZero(dev.Snap()) && op.f < dev.inodes.Length
    requires forall f :: 0 <= f < dev.inodes.Length ==> dev.inodes[f].tree && dev.inodes[f].size <= top
    requires op.ReadOp? ==> op.pos + op.count <= 1024 * MAX_BLOCKS
    requires op.WriteOp? ==> op.pos <= top && top + |op.buf| <= 1024 * MAX_BLOCKS
    modifies dev`ow, dev.bits, dev.blocks, dev.inodes
    ensures dev.Valid() && TailsZero(dev.Snap()) && Answers(old(dev.Snap()), op, ans, dev.Snap())
    ensures Arrays(dev.Snap()) == ArrayStep(old(Arrays(dev.Snap())), op, HowMuch(ans))
    ensures forall f :: 0 <= f < dev.inodes.Length ==>
              dev.inodes[f].tree && dev.inodes[f].size <= top + if op.WriteOp? then |op.buf| else 0
  {
    hide Good, ZoneAt, FileByte, TailsZero, Overlay, FreeSet, Wanting, BlocksOf, TookItsBlocks;
    ghost var fs := dev.Snap();
    match op
    case ReadOp(f, pos, count) =>
      var file := new File(pos, false);
      var out, n := dev.FileRead(f, file, count);
      ReadIsSlice(fs, f, pos, out);
      ans := Data(out);
    case WriteOp(f, pos, append, buf) =>
      var file := new File(pos, append);
      var n := dev.FileWrite(f, file, buf, |buf|);
      ghost var start, w := if append then fs.inodes[f].size else pos, if n < 0 then 0 else n;
      WriteIsOverlay(fs, dev.Snap(), f, start, buf[..w]);
      ans := Count(n);
    case TruncateOp(f) =>
      dev.Truncate(f);
      TruncateEmpties(fs, dev.Snap(), f);
      ans := Done;
  }

  lemma ReadIsSlice(fs: Fs, f: nat, pos: nat, out: seq<Byte>)
    requires TailsZero(fs) && f < |fs.inodes| && forall k :: 0 <= k < |out| ==> out[k] == FileByte(fs, f, pos + k)
    ensures out == Slice(Contents(fs, f), pos, |out|)
  {
    hide FileByte;
    forall k | 0 <= k < |out| ensures out[k] == Slice(Contents(fs, f), pos, |out|)[k] {
      assert pos + k >= fs.inodes[f].size ==> FileByte(fs, f, pos + k) == 0;
    }
  }

  // ---- truncating ----

  function Child(p: Pos, i: nat): Pos {
    match p
    case Ind => IndE(i)
    case Dind => DindE(i)
    case DindE(k) => DindEE(k, i)
    case _ => p
  }

  predicate IsBelow(q: Pos, p: Pos, n: nat) {
    match q
    case IndE(k) => p == Ind && k < n
    case DindE(k) => p == Dind && k < n
    case DindEE(k, l) => p == DindE(k) && l < n
    case _ => false
  }

  /** The first `n` entries of the table at `p`; with the table itself; both for every table of the double table. */
  ghost function Below(p: Pos, n: nat): iset<Pos> {
    iset q: Pos | IsBelow(q, p, n)
  }

  ghost function Under(p: Pos, n: nat): iset<Pos> {
    iset q: Pos | q == p || IsBelow(q, p, n)
  }

  ghost function AllDind(n: nat): iset<Pos> {
    iset q: Pos | (q.DindE? && q.k < n) || (q.DindEE? && q.k < n && q.l < 512)
  }

  ghost function Directs(n: nat): iset<Pos> {
    iset q: Pos | q.Direct? && q.n < n
  }

  lemma BelowNext(p: Pos, i: nat, gone: iset<Pos>)
    requires p.Ind? || p.Dind? || p.DindE?
    ensures Below(p, i + 1) == Below(p, i) + iset{Child(p, i)} && Child(p, i) !in Below(p, i)
    ensures Child(p, i) in Below(p, i + 1) && Below(p, i + 1) <= Under(p, i + 1)
    ensures i < 512 ==> Child(p, i) in Under(p, 512)
  {
  }

  lemma ChildOf(fs: Fs, ow: seq<Owner>, f: nat, p: Pos, i: nat)
    requires Good(fs, ow) && IsTable(p) && ZoneAt(fs, f, p) != 0
    ensures ZoneAt(fs, f, p) < |fs.blocks| && ZoneAt(fs, f, Child(p, i)) == Short(fs.blocks[ZoneAt(fs, f, p)], i)
  {
    hide Short;
    assert ZoneAt(fs, f, p) < |ow|;
  }

  /** A table whose place is not gone is still as it was. */
  lemma FreedTable(fs: Fs, fs1: Fs, ow: seq<Owner>, f: nat, gone: iset<Pos>, p: Pos)
    requires Good(fs, ow) && Freed(fs, fs1, ow, f, gone) && p !in gone && ZoneAt(fs, f, p) != 0
    ensures ZoneAt(fs, f, p) < |fs.blocks| == |fs1.blocks|
    ensures fs1.blocks[ZoneAt(fs, f, p)] == fs.blocks[ZoneAt(fs, f, p)]
  {
    hide ZoneAt, BitSet;
    assert ow[ZoneAt(fs, f, p)] == Own(f, p);
  }

  lemma FreedInodes(fs: Fs, fs1: Fs, fs2: Fs, ow: seq<Owner>, f: nat, gone: iset<Pos>)
    requires Freed(fs, fs1, ow, f, gone) && fs2 == fs1.(inodes := fs2.inodes)
    ensures Freed(fs, fs2, ow, f, gone)
  {
    forall b: nat | IsData(fs, b) ensures BitSet(fs2, b) == BitSet(fs1, b) {}
  }

  lemma EmptyBelow(fs: Fs, f: nat, p: Pos, q: Pos, n: nat)
    requires ZoneAt(fs, f, p) == 0 && IsBelow(q, p, n)
    ensures ZoneAt(fs, f, q) == 0
  {
  }

  lemma NothingUnder(fs: Fs, ow: seq<Owner>, fs1: Fs, f: nat, p: Pos, gone: iset<Pos>, n: nat)
    requires Good(fs, ow) && Freed(fs, fs1, ow, f, gone) && ZoneAt(fs, f, p) == 0
    ensures Freed(fs, fs1, ow, f, gone + Under(p, n))
  {
    hide ZoneAt, Freed;
    forall q | q in Under(p, n) ensures ZoneAt(fs, f, q) == 0 {
      if q != p { EmptyBelow(fs, f, p, q, n); }
    }
    FreedMore(fs, fs1, ow, f, gone, gone + Under(p, n));
  }

  lemma NothingYet(fs: Fs, ow: seq<Owner>, fs1: Fs, f: nat, p: Pos, gone: iset<Pos>)
    requires Freed(fs, fs1, ow, f, gone)
    ensures Freed(fs, fs1, ow, f, gone + Below(p, 0))
  {
    hide Freed;
    forall q ensures !IsBelow(q, p, 0) {}
    assert gone + Below(p, 0) == gone;
  }

  lemma NothingDindYet(fs: Fs, ow: seq<Owner>, fs1: Fs, f: nat, gone: iset<Pos>)
    requires Freed(fs, fs1, ow, f, gone)
    ensures Freed(fs, fs1, ow, f, gone + AllDind(0))
  {
    hide Freed;
    assert gone + AllDind(0) == gone;
  }

  lemma NothingDind(fs: Fs, ow: seq<Owner>, fs1: Fs, f: nat, gone: iset<Pos>)
    requires Good(fs, ow) && Freed(fs, fs1, ow, f, gone) && ZoneAt(fs, f, Dind) == 0
    ensures Freed(fs, fs1, ow, f, gone + AllDind(512) + iset{Dind})
  {
    hide Freed;
    FreedMore(fs, fs1, ow, f, gone, gone + AllDind(512) + iset{Dind});
  }

  lemma FreedNone(fs: Fs, ow: seq<Owner>, f: nat)
    requires Good(fs, ow)
    ensures Freed(fs, fs, ow, f, Directs(0)) && Directs(0) == iset{}
  {
    hide Owned;
  }

  /** Every place that can hold a block has been visited. */
  lemma EverythingGone(fs: Fs, f: nat)
    ensures forall p :: ZoneAt(fs, f, p) != 0 ==> p in Directs(7) + Under(Ind, 512) + AllDind(512) + iset{Dind}
  {
  }

  /** What truncate promises. */
  ghost predicate Emptied(fs: Fs, fs': Fs, f: nat) {
    && fs'.first == fs.first && |fs'.blocks| == |fs.blocks| && |fs'.bits| == |fs.bits|
    && |fs'.inodes| == |fs.inodes| && f < |fs.inodes|
    && fs'.inodes == fs.inodes[f := Inode(true, 0, [0, 0, 0, 0, 0, 0, 0, 0, 0])]
    && (forall p :: ZoneAt(fs', f, p) == 0)
    && (forall g :: g != f ==> SameBytes(fs, fs', g) && forall p :: ZoneAt(fs', g, p) == ZoneAt(fs, g, p))
    && (forall b: nat :: IsData(fs, b) ==> (BitSet(fs', b) <==> BitSet(fs, b) && !(exists p :: ZoneAt(fs, f, p) == b)))
  }

  lemma FreedEmptied(fs: Fs, fs': Fs, ow: seq<Owner>, f: nat, gone: iset<Pos>)
    requires Good(fs, ow) && IsFile(fs, f) && Freed(fs, fs', ow, f, gone)
    requires forall p :: ZoneAt(fs, f, p) != 0 ==> p in gone
    requires fs'.inodes == fs.inodes[f := Inode(true, 0, [0, 0, 0, 0, 0, 0, 0, 0, 0])]
    ensures Emptied(fs, fs', f) && Good(fs', Without(ow, f))
  {
    hide ZoneAt, BitSet, SameBytes, Without;
    FreedAll(fs, fs', ow, f, gone);
  }

  /** A device just made: files without blocks, and only bit 0 and the bits past the last zone set. */
  lemma FreshDevice(fs: Fs)
    requires Geometry(fs) && forall f :: 0 <= f < |fs.inodes| ==> fs.inodes[f].zone == [0, 0, 0, 0, 0, 0, 0, 0, 0]
    requires forall j :: 0 <= j < |fs.bits| ==> (fs.bits[j] <==> j == 0 || j + fs.first - 1 >= |fs.blocks|)
    ensures Good(fs, seq(|fs.blocks|, _ => Nobody)) && TailsZero(fs)
  {
    forall f: nat, p ensures ZoneAt(fs, f, p) == 0 {
      if f < |fs.inodes| { NoBlocks(fs.blocks, fs.inodes[f].zone, p); }
    }
  }

  lemma NoBlocks(blocks: seq<Block>, z: Zones, p: Pos)
    requires z == [0, 0, 0, 0, 0, 0, 0, 0, 0]
    ensures At(blocks, z, p) == 0
  {
  }
}
