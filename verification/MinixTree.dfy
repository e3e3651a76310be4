/** The block trees of the MINIX file system: inodes with seven direct zones, one indirect and one double indirect zone,
  * over a bitmap of blocks.
  *
  * Blocks are byte sequences; the zone numbers in a table block are little-endian shorts.  The contents are what the
  * buffer cache gives to every reader, and I/O succeeds.
  */
module MinixTree {
  type Byte = x: int | 0 <= x < 256

  type Block = b: seq<Byte> | |b| == 1024 witness seq(1024, _ => 0)

  type Zones = z: seq<nat> | |z| == 9 witness [0, 0, 0, 0, 0, 0, 0, 0, 0]

  /** `tree` says that the inode is a regular file or a directory, so that its zones are blocks. */
  datatype Inode = Inode(tree: bool, size: nat, zone: Zones)

  /** A place in an inode's tree: a direct zone; the indirect table and its entries; the double indirect table, its
    * entries, which are tables, and theirs. */
  datatype Pos = Direct(n: nat) | Ind | IndE(k: nat) | Dind | DindE(k: nat) | DindEE(k: nat, l: nat)

  /** One device: the zone bitmap, the blocks, the inodes, and the first data zone.  Bit j stands for block
    * j + first - 1. */
  datatype Fs = Fs(bits: seq<bool>, blocks: seq<Block>, inodes: seq<Inode>, first: nat)

  function Zeros(): Block {
    seq(1024, _ => 0)
  }

  // ---- shorts in a block ----

  function Short(b: Block, k: nat): nat {
    if k < 512 then b[2 * k] as int + 256 * (b[2 * k + 1] as int) else 0
  }

  function SetShort(b: Block, k: nat, v: nat): Block
    requires k < 512 && v < 65536
  {
    b[2 * k := v % 256][2 * k + 1 := v / 256]
  }

  lemma SetShortIs(b: Block, k: nat, v: nat, k': nat)
    requires k < 512 && v < 65536
    ensures Short(SetShort(b, k, v), k') == if k' == k then v else Short(b, k')
  {
    if k' < 512 && k' != k {
      assert 2 * k' != 2 * k && 2 * k' != 2 * k + 1 && 2 * k' + 1 != 2 * k;
    }
  }

  // ---- reading a tree ----

  function Load(blocks: seq<Block>, t: nat, k: nat): nat {
    if t != 0 && t < |blocks| then Short(blocks[t], k) else 0
  }

  /** The zone at place `p`, 0 for none. */
  function At(blocks: seq<Block>, z: Zones, p: Pos): nat {
    match p
    case Direct(n) => if n < 7 then z[n] else 0
    case Ind => z[7]
    case IndE(k) => Load(blocks, z[7], k)
    case Dind => z[8]
    case DindE(k) => Load(blocks, z[8], k)
    case DindEE(k, l) => Load(blocks, Load(blocks, z[8], k), l)
  }

  predicate IsFile(fs: Fs, f: nat) {
    f < |fs.inodes| && fs.inodes[f].tree
  }

  function ZoneAt(fs: Fs, f: nat, p: Pos): nat {
    if IsFile(fs, f) then At(fs.blocks, fs.inodes[f].zone, p) else 0
  }

  predicate IsTable(p: Pos) {
    p.Ind? || p.Dind? || p.DindE?
  }

  const MAX_BLOCKS: nat := 7 + 512 + 512 * 512

  /** Where _bmap looks for a block of a file. */
  function DataPos(block: nat): Pos {
    if block < 7 then Direct(block)
    else if block < 519 then IndE(block - 7)
    else DindEE((block - 519) / 512, (block - 519) % 512)
  }

  lemma DataPosInjective(block: nat, block': nat)
    requires DataPos(block) == DataPos(block')
    ensures block == block'
  {
  }

  /** A little-endian short, 0 without the block. */
  predicate IsShort(blocks: seq<Block>, t: nat, k: nat, v: nat) {
    if t == 0 || t >= |blocks| || k >= 512 then v == 0
    else blocks[t][2 * k] as int == v % 256 && blocks[t][2 * k + 1] as int == v / 256
  }

  /** Where block `n` of a file is: the first seven in the inode, the next 512 in the table at zone 7, the others in the
    * tables at zone 8. */
  lemma BlockIs(fs: Fs, f: nat, n: nat)
    requires IsFile(fs, f)
    ensures var b, z := ZoneAt(fs, f, DataPos(n)), fs.inodes[f].zone;
      && (n < 7 ==> b == z[n])
      && (7 <= n < 519 ==> IsShort(fs.blocks, z[7], n - 7, b))
      && (519 <= n ==>
            var t := ZoneAt(fs, f, DindE((n - 519) / 512));
            IsShort(fs.blocks, z[8], (n - 519) / 512, t) && IsShort(fs.blocks, t, (n - 519) % 512, b))
  {
  }

  // ---- what a file contains ----

  /** Byte `i` of file `f`; a hole reads as zero. */
  function FileByte(fs: Fs, f: nat, i: nat): Byte {
    var b := ZoneAt(fs, f, DataPos(i / 1024));
    if b != 0 && b < |fs.blocks| then fs.blocks[b][i % 1024] else 0
  }

  /** The bytes of a file are those of its blocks in order; a missing block reads as zeros. */
  lemma ByteIs(fs: Fs, f: nat, n: nat, j: nat)
    requires j < 1024
    ensures var b := ZoneAt(fs, f, DataPos(n));
      FileByte(fs, f, 1024 * n + j) == if 0 < b < |fs.blocks| then fs.blocks[b][j] else 0
  {
    assert (1024 * n + j) / 1024 == n && (1024 * n + j) % 1024 == j;
  }

  ghost predicate SameBytes(fs: Fs, fs': Fs, f: nat) {
    forall i: nat :: FileByte(fs', f, i) == FileByte(fs, f, i)
  }

  // ---- who owns which block ----

  datatype Owner = Nobody | Own(f: nat, p: Pos)

  predicate Geometry(fs: Fs) {
    1 <= fs.first <= |fs.blocks| <= 65535 && |fs.blocks| - fs.first + 1 <= |fs.bits|
  }

  predicate IsData(fs: Fs, b: nat) {
    fs.first <= b < |fs.blocks|
  }

  predicate BitSet(fs: Fs, b: nat) {
    && fs.first >= 1 && b >= fs.first && b - fs.first + 1 < |fs.bits|
    && fs.bits[b - fs.first + 1]
  }

  /** Bit 0 and the bits past the last zone are set for good. */
  predicate Reserved(fs: Fs) {
    forall j :: 0 <= j < |fs.bits| && (j == 0 || j + fs.first - 1 >= |fs.blocks|) ==> fs.bits[j]
  }

  /** `ow` names for each block the one place of the one file that has it; the bitmap has exactly these bits set. */
  ghost predicate Owned(fs: Fs, ow: seq<Owner>) {
    && |ow| == |fs.blocks|
    && (forall f, p :: ZoneAt(fs, f, p) != 0 ==> ZoneAt(fs, f, p) < |ow| && ow[ZoneAt(fs, f, p)] == Own(f, p))
    && (forall b: nat :: b < |ow| && ow[b].Own? ==> b >= fs.first && ZoneAt(fs, ow[b].f, ow[b].p) == b)
  }

  ghost predicate BitsMatch(fs: Fs, ow: seq<Owner>) {
    |ow| == |fs.blocks| && forall b: nat :: IsData(fs, b) ==> (BitSet(fs, b) <==> ow[b].Own?)
  }

  ghost predicate Good(fs: Fs, ow: seq<Owner>) {
    Geometry(fs) && Reserved(fs) && Owned(fs, ow) && BitsMatch(fs, ow)
  }

  /** The bitmap says exactly which blocks are in file trees, and no block is in two places. */
  lemma OwnershipExact(fs: Fs, ow: seq<Owner>)
    requires Good(fs, ow)
    ensures forall b: nat :: IsData(fs, b) ==> (BitSet(fs, b) <==> exists f, p :: ZoneAt(fs, f, p) == b)
    ensures forall f, p, g, q :: ZoneAt(fs, f, p) != 0 && ZoneAt(fs, f, p) == ZoneAt(fs, g, q) ==> f == g && p == q
    ensures forall f, p :: ZoneAt(fs, f, p) != 0 ==> IsData(fs, ZoneAt(fs, f, p)) && BitSet(fs, ZoneAt(fs, f, p))
  {
    hide At, BitSet;
    forall b: nat | IsData(fs, b) ensures BitSet(fs, b) <==> exists f, p :: ZoneAt(fs, f, p) == b {
      if ow[b].Own? { assert ZoneAt(fs, ow[b].f, ow[b].p) == b; }
    }
    forall f, p, g, q | ZoneAt(fs, f, p) != 0 && ZoneAt(fs, f, p) == ZoneAt(fs, g, q) ensures f == g && p == q {
      assert Own(f, p) == Own(g, q);
    }
  }

  // ---- what a tree depends on ----

  /** The owners of the table blocks through which a place is read. */
  lemma TablesOf(fs: Fs, ow: seq<Owner>, f: nat, k: nat)
    requires Owned(fs, ow) && IsFile(fs, f)
    ensures var z := fs.inodes[f].zone;
      && (z[7] != 0 ==> z[7] < |ow| && ow[z[7]] == Own(f, Ind))
      && (z[8] != 0 ==> z[8] < |ow| && ow[z[8]] == Own(f, Dind))
      && (Load(fs.blocks, z[8], k) != 0 ==>
         Load(fs.blocks, z[8], k) < |ow| && ow[Load(fs.blocks, z[8], k)] == Own(f, DindE(k)))
  {
    hide Load;
    assert ZoneAt(fs, f, Ind) == fs.inodes[f].zone[7] && ZoneAt(fs, f, Dind) == fs.inodes[f].zone[8];
    assert ZoneAt(fs, f, DindE(k)) == Load(fs.blocks, fs.inodes[f].zone[8], k);
  }

  /** The zones of a file depend on its inode and on its own table blocks only. */
  lemma SameFile(fs: Fs, fs': Fs, ow: seq<Owner>, f: nat)
    requires Owned(fs, ow) && |fs'.blocks| == |fs.blocks| && |fs'.inodes| == |fs.inodes|
    requires IsFile(fs, f) <==> IsFile(fs', f)
    requires IsFile(fs, f) ==> fs'.inodes[f].zone == fs.inodes[f].zone
    requires forall b: nat :: b < |ow| && ow[b].Own? && ow[b].f == f && IsTable(ow[b].p) ==>
             fs'.blocks[b] == fs.blocks[b]
    ensures forall p :: ZoneAt(fs', f, p) == ZoneAt(fs, f, p)
  {
    hide Owned, Short;
    forall p ensures ZoneAt(fs', f, p) == ZoneAt(fs, f, p) {
      if IsFile(fs, f) {
        TablesOf(fs, ow, f, if p.DindEE? then p.k else 0);
      }
    }
  }

  // ---- taking a block ----

  /** Writes `b` at place `p`: into the inode, or into the table block the place is in. */
  function Stored(fs: Fs, f: nat, p: Pos, b: nat): Fs {
    if !IsFile(fs, f) || b >= 65536 then fs else
    var z := fs.inodes[f].zone;
    match p
    case Direct(n) => if n < 7 then StoredZone(fs, f, n, b) else fs
    case Ind => StoredZone(fs, f, 7, b)
    case Dind => StoredZone(fs, f, 8, b)
    case IndE(k) => StoredEntry(fs, z[7], k, b)
    case DindE(k) => StoredEntry(fs, z[8], k, b)
    case DindEE(k, l) => StoredEntry(fs, Load(fs.blocks, z[8], k), l, b)
  }

  function StoredZone(fs: Fs, f: nat, n: nat, b: nat): Fs
    requires f < |fs.inodes| && n < 9
  {
    fs.(inodes := fs.inodes[f := fs.inodes[f].(zone := fs.inodes[f].zone[n := b])])
  }

  function StoredEntry(fs: Fs, t: nat, k: nat, b: nat): Fs
    requires b < 65536
  {
    if t < |fs.blocks| && k < 512 then fs.(blocks := fs.blocks[t := SetShort(fs.blocks[t], k, b)]) else fs
  }

  /** The place exists: its number is in range and its table is there. */
  predicate HasPlace(fs: Fs, f: nat, p: Pos) {
    IsFile(fs, f) &&
    match p
    case Direct(n) => n < 7
    case Ind => true
    case Dind => true
    case IndE(k) => k < 512 && fs.inodes[f].zone[7] != 0
    case DindE(k) => k < 512 && fs.inodes[f].zone[8] != 0
    case DindEE(k, l) => l < 512 && Load(fs.blocks, fs.inodes[f].zone[8], k) != 0
  }

  /** new_block's effect. */
  function Taken(fs: Fs, b: nat): Fs {
    if 1 <= fs.first <= b < |fs.blocks| && b - fs.first + 1 < |fs.bits| then
      fs.(bits := fs.bits[b - fs.first + 1 := true], blocks := fs.blocks[b := Zeros()])
    else fs
  }

  /** Zones and contents of every file but for place `p` of `f`, which now holds `b`. */
  ghost predicate Gained(fs: Fs, fs': Fs, f: nat, p: Pos, b: nat) {
    && (forall q :: ZoneAt(fs', f, q) == if q == p then b else ZoneAt(fs, f, q))
    && (forall g, q :: g != f ==> ZoneAt(fs', g, q) == ZoneAt(fs, g, q))
  }

  lemma TakenSame(fs: Fs, ow: seq<Owner>, b: nat)
    requires Owned(fs, ow) && b < |ow| && ow[b] == Nobody
    ensures forall g, p :: ZoneAt(Taken(fs, b), g, p) == ZoneAt(fs, g, p)
    ensures Owned(Taken(fs, b), ow)
  {
    forall g, p ensures ZoneAt(Taken(fs, b), g, p) == ZoneAt(fs, g, p) {
      SameFile(fs, Taken(fs, b), ow, g);
    }
  }

  /** Storing a zeroed block at an empty place changes that place only. */
  lemma StoreGains(fs: Fs, ow: seq<Owner>, f: nat, p: Pos, b: nat)
    requires Geometry(fs) && |ow| == |fs.blocks| && Owned(fs, ow) && HasPlace(fs, f, p) && ZoneAt(fs, f, p) == 0
    requires IsData(fs, b) && ow[b] == Nobody && fs.blocks[b] == Zeros()
    ensures Gained(fs, Stored(fs, f, p, b), f, p, b)
  {
    hide Owned, Short, SetShort;
    var fs' := Stored(fs, f, p, b);
    forall g, q | g != f ensures ZoneAt(fs', g, q) == ZoneAt(fs, g, q) {
      StoreOthers(fs, ow, f, p, b, g);
    }
    forall q ensures ZoneAt(fs', f, q) == if q == p then b else ZoneAt(fs, f, q) {
      StoreOwn(fs, ow, f, p, b, q);
    }
  }

  lemma StoreOthers(fs: Fs, ow: seq<Owner>, f: nat, p: Pos, b: nat, g: nat)
    requires Geometry(fs) && |ow| == |fs.blocks| && Owned(fs, ow) && HasPlace(fs, f, p) && IsData(fs, b) && g != f
    ensures forall q :: ZoneAt(Stored(fs, f, p, b), g, q) == ZoneAt(fs, g, q)
  {
    hide Owned, Short, SetShort, Load;
    TablesOf(fs, ow, f, if p.DindEE? then p.k else 0);
    SameFile(fs, Stored(fs, f, p, b), ow, g);
  }

  lemma StoreOwn(fs: Fs, ow: seq<Owner>, f: nat, p: Pos, b: nat, q: Pos)
    requires Geometry(fs) && |ow| == |fs.blocks| && Owned(fs, ow) && HasPlace(fs, f, p) && ZoneAt(fs, f, p) == 0
    requires IsData(fs, b) && ow[b] == Nobody && fs.blocks[b] == Zeros()
    ensures ZoneAt(Stored(fs, f, p, b), f, q) == if q == p then b else ZoneAt(fs, f, q)
  {
    hide Owned, SetShort;
    TablesOf(fs, ow, f, if p.DindEE? then p.k else 0);
    TablesOf(fs, ow, f, if q.DindEE? then q.k else 0);
    var t := TableOf(fs, f, p);
    if !(p.Direct? || p.Ind? || p.Dind?) {
      var k := if p.DindEE? then p.l else p.k;
      SetShortIs(fs.blocks[t], k, b, if q.DindEE? then q.l else if q.IndE? || q.DindE? then q.k else 0);
      SetShortIs(fs.blocks[t], k, b, if q.DindEE? then q.k else 0);
    }
  }

  function TableOf(fs: Fs, f: nat, p: Pos): nat
    requires IsFile(fs, f)
  {
    match p
    case IndE(_) => fs.inodes[f].zone[7]
    case DindE(_) => fs.inodes[f].zone[8]
    case DindEE(k, _) => Load(fs.blocks, fs.inodes[f].zone[8], k)
    case _ => 0
  }

  /** The file system after create_block has put block `b` at place `p`. */
  function Grown(fs: Fs, f: nat, p: Pos, b: nat): Fs {
    Stored(Taken(fs, b), f, p, b)
  }

  /** What Stored leaves alone. */
  lemma StoredShape(fs: Fs, f: nat, p: Pos, b: nat)
    requires IsFile(fs, f)
    ensures var fs' := Stored(fs, f, p, b);
      && fs'.bits == fs.bits && fs'.first == fs.first && |fs'.blocks| == |fs.blocks| && |fs'.inodes| == |fs.inodes|
      && (forall x: nat :: x < |fs.blocks| && x != TableOf(fs, f, p) ==> fs'.blocks[x] == fs.blocks[x])
      && (forall g: nat :: g < |fs.inodes| ==> fs'.inodes[g] == fs.inodes[g].(zone := fs'.inodes[g].zone))
  {
    hide SetShort, Load;
  }

  /** Only table blocks of `f` are written. */
  lemma TableOwned(fs: Fs, ow: seq<Owner>, f: nat, p: Pos)
    requires Owned(fs, ow) && IsFile(fs, f)
    ensures var t := TableOf(fs, f, p); t != 0 ==> t < |ow| && ow[t].Own? && ow[t].f == f && IsTable(ow[t].p)
  {
    hide Owned, Load;
    TablesOf(fs, ow, f, if p.DindEE? then p.k else 0);
  }

  ghost predicate SameZonesBut(fs: Fs, fs': Fs, f: nat, p: Pos) {
    forall g, q :: (g != f || q != p) ==> ZoneAt(fs', g, q) == ZoneAt(fs, g, q)
  }

  /** create_block keeps the ownership, and no file reads differently: the new block is zeros where a hole was. */
  lemma GrownGood(fs: Fs, ow: seq<Owner>, f: nat, p: Pos, b: nat)
    requires Good(fs, ow) && HasPlace(fs, f, p) && ZoneAt(fs, f, p) == 0
    requires IsData(fs, b) && ow[b] == Nobody
    ensures Good(Grown(fs, f, p, b), ow[b := Own(f, p)])
    ensures SameZonesBut(fs, Grown(fs, f, p, b), f, p) && ZoneAt(Grown(fs, f, p, b), f, p) == b
    ensures forall g :: SameBytes(fs, Grown(fs, f, p, b), g)
  {
    hide At, FileByte, Stored, Load, TableOf;
    var fs1, fs' := Taken(fs, b), Grown(fs, f, p, b);
    TakenSame(fs, ow, b);
    TakenPlace(fs, ow, f, p, b);
    StoreGains(fs1, ow, f, p, b);
    StoredShape(fs1, f, p, b);
    GrownOwned(fs, fs', ow, f, p, b);
    forall x: nat | IsData(fs', x) ensures BitSet(fs', x) <==> ow[b := Own(f, p)][x].Own? {
      assert BitSet(fs, x) <==> ow[x].Own?;
    }
    forall g ensures SameBytes(fs, fs', g) {
      GrownBytes(fs, ow, f, p, b, g);
    }
  }

  /** The place is still there once the block is taken. */
  lemma TakenPlace(fs: Fs, ow: seq<Owner>, f: nat, p: Pos, b: nat)
    requires Geometry(fs) && Owned(fs, ow) && HasPlace(fs, f, p) && IsData(fs, b) && ow[b] == Nobody
    ensures HasPlace(Taken(fs, b), f, p) && TableOf(Taken(fs, b), f, p) == TableOf(fs, f, p)
    ensures Taken(fs, b).blocks == fs.blocks[b := Zeros()]
  {
    hide Owned;
    TablesOf(fs, ow, f, if p.DindEE? then p.k else 0);
  }

  lemma GrownOwned(fs: Fs, fs': Fs, ow: seq<Owner>, f: nat, p: Pos, b: nat)
    requires Geometry(fs) && Owned(fs, ow) && IsData(fs, b) && ow[b] == Nobody && ZoneAt(fs, f, p) == 0
    requires |fs'.blocks| == |fs.blocks|
    requires SameZonesBut(fs, fs', f, p) && ZoneAt(fs', f, p) == b && fs'.first == fs.first
    ensures Owned(fs', ow[b := Own(f, p)])
  {
    hide ZoneAt;
    var ow' := ow[b := Own(f, p)];
    forall g, q | ZoneAt(fs', g, q) != 0 ensures ZoneAt(fs', g, q) < |ow'| && ow'[ZoneAt(fs', g, q)] == Own(g, q) {
      if g != f || q != p { assert ZoneAt(fs', g, q) == ZoneAt(fs, g, q); }
    }
    forall x: nat | x < |ow'| && ow'[x].Own? ensures x >= fs'.first && ZoneAt(fs', ow'[x].f, ow'[x].p) == x {
      if x != b {
        assert ZoneAt(fs, ow[x].f, ow[x].p) == x;
        assert ow[x].f != f || ow[x].p != p;
      }
    }
  }

  /** A block that a file has as data is neither the new block nor a table. */
  lemma GrownBytes(fs: Fs, ow: seq<Owner>, f: nat, p: Pos, b: nat, g: nat)
    requires Good(fs, ow) && HasPlace(fs, f, p) && ZoneAt(fs, f, p) == 0 && IsData(fs, b) && ow[b] == Nobody
    requires SameZonesBut(fs, Grown(fs, f, p, b), f, p) && ZoneAt(Grown(fs, f, p, b), f, p) == b
    ensures SameBytes(fs, Grown(fs, f, p, b), g)
  {
    hide Stored, Load, TableOf, ZoneAt, At, DataPos;
    var fs1, fs' := Taken(fs, b), Grown(fs, f, p, b);
    TakenPlace(fs, ow, f, p, b);
    StoredShape(fs1, f, p, b);
    TableOwned(fs, ow, f, p);
    var t := TableOf(fs, f, p);
    forall i: nat ensures FileByte(fs', g, i) == FileByte(fs, g, i) {
      var q := DataPos(i / 1024);
      assert !IsTable(q) by { DataPosNoTable(i / 1024); }
      if g == f && q == p {
        assert t != b;
        assert fs'.blocks[b] == Zeros();
      } else {
        var x := ZoneAt(fs, g, q);
        if x != 0 { assert x != b && x != t; }
      }
    }
  }

  lemma DataPosNoTable(n: nat)
    ensures !IsTable(DataPos(n))
  {
  }

  // ---- writing data ----

  /** Storing into a block that is data of `f` keeps all trees and changes that part of that file only. */
  lemma DataStored(fs: Fs, ow: seq<Owner>, f: nat, n: nat, nb: Block)
    requires Good(fs, ow) && ZoneAt(fs, f, DataPos(n)) != 0
    ensures var b := ZoneAt(fs, f, DataPos(n)); b < |fs.blocks|
    ensures var b := ZoneAt(fs, f, DataPos(n)); var fs' := fs.(blocks := fs.blocks[b := nb]);
      && Good(fs', ow) && (forall g, q :: ZoneAt(fs', g, q) == ZoneAt(fs, g, q))
      && (forall g :: g != f ==> SameBytes(fs, fs', g))
      && (forall i: nat :: FileByte(fs', f, i) == if i / 1024 == n then nb[i % 1024] else FileByte(fs, f, i))
  {
    hide At, DataPos;
    var b := ZoneAt(fs, f, DataPos(n));
    var fs' := fs.(blocks := fs.blocks[b := nb]);
    DataPosNoTable(n);
    forall g, q ensures ZoneAt(fs', g, q) == ZoneAt(fs, g, q) {
      SameFile(fs, fs', ow, g);
    }
    forall x: nat | IsData(fs', x) ensures BitSet(fs', x) <==> ow[x].Own? { assert BitSet(fs, x) <==> ow[x].Own?; }
    forall g, i: nat | g != f || i / 1024 != n ensures FileByte(fs', g, i) == FileByte(fs, g, i) {
      if DataPos(i / 1024) == DataPos(n) { DataPosInjective(i / 1024, n); }
    }
  }

  // ---- giving a tree back ----

  /** Of the blocks of `f`, those at places in `gone` are free and their contents lost; nothing else is different. */
  ghost predicate Freed(fs: Fs, fs': Fs, ow: seq<Owner>, f: nat, gone: iset<Pos>) {
    && fs'.first == fs.first && |fs'.blocks| == |fs.blocks| == |ow| && |fs'.bits| == |fs.bits|
    && (forall b: nat :: IsData(fs, b) ==>
          (BitSet(fs', b) <==> BitSet(fs, b) && !(ow[b].Own? && ow[b].f == f && ow[b].p in gone)))
    && (forall b: nat :: b < |ow| && !(ow[b].Own? && ow[b].f == f && ow[b].p in gone) ==> fs'.blocks[b] == fs.blocks[b])
    && Reserved(fs')
  }

  /** free_block's effect. */
  ghost predicate FreedOne(fs: Fs, fs': Fs, b: nat) {
    && IsData(fs, b) && Geometry(fs) && fs'.first == fs.first && |fs'.blocks| == |fs.blocks|
    && fs'.bits == fs.bits[b - fs.first + 1 := false]
    && forall x: nat :: x < |fs.blocks| && x != b ==> fs'.blocks[x] == fs.blocks[x]
  }

  lemma FreedStep(fs: Fs, fs1: Fs, fs2: Fs, ow: seq<Owner>, f: nat, gone: iset<Pos>, p: Pos)
    requires Good(fs, ow) && Freed(fs, fs1, ow, f, gone) && p !in gone && ZoneAt(fs, f, p) != 0
    ensures IsData(fs1, ZoneAt(fs, f, p)) && BitSet(fs1, ZoneAt(fs, f, p)) && Geometry(fs1)
    ensures FreedOne(fs1, fs2, ZoneAt(fs, f, p)) ==> Freed(fs, fs2, ow, f, gone + iset{p})
  {
    hide ZoneAt;
    var b := ZoneAt(fs, f, p);
    assert ow[b] == Own(f, p);
    if FreedOne(fs1, fs2, b) {
      forall x: nat | IsData(fs, x)
        ensures BitSet(fs2, x) <==> BitSet(fs, x) && !(ow[x].Own? && ow[x].f == f && ow[x].p in gone + iset{p})
      {
        assert BitSet(fs1, x) <==> BitSet(fs, x) && !(ow[x].Own? && ow[x].f == f && ow[x].p in gone);
        if x != b && ow[x].Own? { assert ow[x] != ow[b]; }
      }
    }
  }

  /** Places that are empty count as gone. */
  lemma FreedMore(fs: Fs, fs1: Fs, ow: seq<Owner>, f: nat, gone: iset<Pos>, gone': iset<Pos>)
    requires Good(fs, ow) && Freed(fs, fs1, ow, f, gone)
    requires forall p :: p in gone' && p !in gone ==> ZoneAt(fs, f, p) == 0
    requires forall p :: p in gone ==> p in gone' || ZoneAt(fs, f, p) == 0
    ensures Freed(fs, fs1, ow, f, gone')
  {
    hide ZoneAt, BitSet;
    forall b: nat | b < |ow| && ow[b].Own? && ow[b].f == f ensures ow[b].p in gone <==> ow[b].p in gone' {
      assert ZoneAt(fs, f, ow[b].p) == b;
    }
    forall b: nat | IsData(fs, b)
      ensures BitSet(fs1, b) <==> BitSet(fs, b) && !(ow[b].Own? && ow[b].f == f && ow[b].p in gone')
    {
    }
  }

  function Without(ow: seq<Owner>, f: nat): seq<Owner> {
    seq(|ow|, b requires 0 <= b < |ow| => if ow[b].Own? && ow[b].f == f then Nobody else ow[b])
  }

  /** With its zones cleared and all its places gone, the file owns nothing, and nobody else has lost anything. */
  lemma FreedAll(fs: Fs, fs': Fs, ow: seq<Owner>, f: nat, gone: iset<Pos>)
    requires Good(fs, ow) && IsFile(fs, f) && Freed(fs, fs', ow, f, gone)
    requires forall p :: ZoneAt(fs, f, p) != 0 ==> p in gone
    requires |fs'.inodes| == |fs.inodes| && IsFile(fs', f) && fs'.inodes[f].zone == [0, 0, 0, 0, 0, 0, 0, 0, 0]
    requires forall g: nat :: g < |fs.inodes| && g != f ==> fs'.inodes[g] == fs.inodes[g]
    ensures Good(fs', Without(ow, f)) && (forall p :: ZoneAt(fs', f, p) == 0)
    ensures forall g :: g != f ==> SameBytes(fs, fs', g) && forall p :: ZoneAt(fs', g, p) == ZoneAt(fs, g, p)
    ensures forall b: nat :: IsData(fs, b) ==>
            (BitSet(fs', b) <==> BitSet(fs, b) && !(exists p :: ZoneAt(fs, f, p) == b))
  {
    hide At, DataPos;
    forall g, p | g != f ensures ZoneAt(fs', g, p) == ZoneAt(fs, g, p) {
      SameFile(fs, fs', ow, g);
    }
    forall p ensures ZoneAt(fs', f, p) == 0 { EmptyTree(fs', f, p); }
    forall g, i: nat | g != f ensures FileByte(fs', g, i) == FileByte(fs, g, i) {
    }
    forall b: nat | IsData(fs, b)
      ensures BitSet(fs', b) <==> BitSet(fs, b) && !(exists p :: ZoneAt(fs, f, p) == b)
      ensures BitSet(fs', b) <==> Without(ow, f)[b].Own?
    {
      FreedBit(fs, fs', ow, f, gone, b);
    }
  }

  lemma EmptyTree(fs: Fs, f: nat, p: Pos)
    requires IsFile(fs, f) && fs.inodes[f].zone == [0, 0, 0, 0, 0, 0, 0, 0, 0]
    ensures ZoneAt(fs, f, p) == 0
  {
  }

  lemma FreedBit(fs: Fs, fs': Fs, ow: seq<Owner>, f: nat, gone: iset<Pos>, b: nat)
    requires Good(fs, ow) && Freed(fs, fs', ow, f, gone) && IsData(fs, b)
    requires forall p :: ZoneAt(fs, f, p) != 0 ==> p in gone
    ensures BitSet(fs', b) <==> BitSet(fs, b) && !(exists p :: ZoneAt(fs, f, p) == b)
    ensures BitSet(fs', b) <==> ow[b].Own? && ow[b].f != f
  {
    hide ZoneAt;
    assert BitSet(fs, b) <==> ow[b].Own?;
    if ow[b].Own? {
      assert ZoneAt(fs, ow[b].f, ow[b].p) == b;
    }
  }
}
