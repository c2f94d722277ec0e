/** `fs_umount` and `fs_mount`: what comes back from the disk, and when. */
module FsMount {
  import opened Bits
  import opened Codec
  import opened FileSystem
  import opened FsInvariant
  import opened FsTree
  import opened FsWrite
  import opened FsCreate
  import opened FsRefinement
  import opened FsDirectories
  import opened FsWriteRefinement
  import opened FsRemove
  import opened FsRuns

  const INODE_BYTES: nat := 128
  const INODES_PER_BLOCK: nat := 4

  // ----- Bitmaps -----

  function PackedByte(bits: seq<bool>, i: nat): Byte
    requires 8 * i + 8 <= |bits|
  {
    ByteOf(bits[8 * i], bits[8 * i + 1], bits[8 * i + 2], bits[8 * i + 3],
           bits[8 * i + 4], bits[8 * i + 5], bits[8 * i + 6], bits[8 * i + 7])
  }

  function Pack(bits: seq<bool>): (a: seq<Byte>)
    requires |bits| % 8 == 0
    ensures |a| == |bits| / 8
  {
    seq(|bits| / 8, i requires 0 <= i < |bits| / 8 => PackedByte(bits, i))
  }

  lemma PackedAt(bits: seq<bool>, i: nat, k: nat)
    requires 8 * i + 8 <= |bits| && k < 8
    ensures BitAt(PackedByte(bits, i), k) == bits[8 * i + k]
  {
    hide ByteOf, BitAt;
    var j := 8 * i;
    ByteOfAt(bits[j], bits[j + 1], bits[j + 2], bits[j + 3], bits[j + 4], bits[j + 5], bits[j + 6], bits[j + 7]);
    assert k == 0 || k == 1 || k == 2 || k == 3 || k == 4 || k == 5 || k == 6 || k == 7;
  }

  lemma UnpackedPack(bits: seq<bool>)
    requires |bits| % 8 == 0
    ensures Unpacked(Pack(bits)) == bits
  {
    hide PackedByte, BitAt;
    forall i | 0 <= i < |bits| ensures Unpacked(Pack(bits))[i] == bits[i] {
      PackedAt(bits, i / 8, i % 8);
    }
  }

  lemma PackedUnpacked(a: seq<Byte>)
    ensures Pack(Unpacked(a)) == a
  {
    hide PackedByte, Unpacked;
    assert |Unpacked(a)| == 8 * |a| by { UnpackedLength(a); }
    forall i | 0 <= i < |a| ensures PackedByte(Unpacked(a), i) == a[i] {
      PackedOne(a, i);
    }
  }

  lemma UnpackedLength(a: seq<Byte>)
    ensures |Unpacked(a)| == 8 * |a|
  {
  }

  lemma UnpackedAt(a: seq<Byte>, i: nat, k: nat)
    requires i < |a| && k < 8
    ensures |Unpacked(a)| == 8 * |a| && Unpacked(a)[8 * i + k] == BitAt(a[i], k)
  {
    hide BitAt;
    assert (8 * i + k) / 8 == i && (8 * i + k) % 8 == k;
  }

  lemma PackedOne(a: seq<Byte>, i: nat)
    requires i < |a| && |Unpacked(a)| == 8 * |a|
    ensures PackedByte(Unpacked(a), i) == a[i]
  {
    hide BitAt, ByteOf, Unpacked;
    UnpackedAt(a, i, 0);
    UnpackedAt(a, i, 1);
    UnpackedAt(a, i, 2);
    UnpackedAt(a, i, 3);
    UnpackedAt(a, i, 4);
    UnpackedAt(a, i, 5);
    UnpackedAt(a, i, 6);
    UnpackedAt(a, i, 7);
    SameBits(a[i]);
  }

  lemma SameBits(b: Byte)
    ensures ByteOf(BitAt(b, 0), BitAt(b, 1), BitAt(b, 2), BitAt(b, 3),
                   BitAt(b, 4), BitAt(b, 5), BitAt(b, 6), BitAt(b, 7)) == b
  {
  }

  // ----- Inodes -----

  /** The numbers of an inode fit the integers of the C structure. */
  ghost predicate FitsWords(n: Inode) {
    |n.direct| == DIRECT_BLOCK && n.size < WORD && n.blockCount < WORD && WordsOk(n.direct) && n.indirect < WORD
  }

  /** Type, owner, group, padding, two times, size, count, direct blocks, map block, padding; what the
      model does not have is 0. */
  function InodeWords(n: Inode): (w: seq<nat>)
    requires FitsWords(n)
    ensures |w| == 32 && WordsOk(w)
  {
    [if n.kind == File then 0 else 1] + seq(11, i => 0) + [n.size, n.blockCount] + n.direct
      + [n.indirect] + seq(7, i => 0)
  }

  function FromWords(w: seq<nat>): Inode
    requires |w| == 32
  {
    Inode(if w[0] == 0 then File else Directory, w[12], w[13], w[14..24], w[24])
  }

  function EncInode(n: Inode): (b: seq<Byte>)
    requires FitsWords(n)
    ensures |b| == INODE_BYTES
  {
    EncWords(InodeWords(n))
  }

  function DecInode(b: seq<Byte>): (n: Inode)
    requires |b| == INODE_BYTES
    ensures |n.direct| == DIRECT_BLOCK
  {
    FromWords(DecWords(b, 32))
  }

  lemma InodeRoundTrip(n: Inode)
    requires FitsWords(n)
    ensures DecInode(EncInode(n)) == n
  {
    hide EncWords, DecWords;
    var w := InodeWords(n);
    WordsRoundTrip(w, []);
    assert EncWords(w) + [] == EncWords(w);
    assert w[14..24] == n.direct;
  }

  // ----- Unmounting -----

  ghost predicate Fits(s: Fs)
    requires FsShape(s)
  {
    && (forall i :: 0 <= i < MAX_INODE ==> FitsWords(s.inodes[i]))
    && 0 <= s.store.free < WORD && 0 <= s.freeInodes < WORD && s.curBlock < MAX_BLOCK
  }

  function SuperBlock(free: nat, freeInodes: nat): (b: Block)
    requires free < WORD && freeInodes < WORD
    ensures BlockOk(b)
  {
    Enc(free) + Enc(freeInodes) + Zeros(504)
  }

  function TableBlock(inodes: seq<Inode>, i: nat): (b: Block)
    requires INODES_PER_BLOCK * i + INODES_PER_BLOCK <= |inodes| && forall k :: 0 <= k < |inodes| ==>
      FitsWords(inodes[k])
    ensures BlockOk(b)
  {
    EncInode(inodes[4 * i]) + EncInode(inodes[4 * i + 1]) + EncInode(inodes[4 * i + 2]) + EncInode(inodes[4 * i + 3])
  }

  /** What is written to block `b` before the current directory is. The inode map takes an eighth of its
      block; what follows it in memory is taken to be zeros. */
  function MetaBlock(s: Fs, b: nat): (d: Block)
    requires FsShape(s) && Fits(s) && b < METADATA_BLOCKS
    ensures BlockOk(d)
  {
    if b == 0 then SuperBlock(s.store.free, s.freeInodes)
    else if b == 1 then Pack(s.inodeUsed) + Zeros(BLOCK_SIZE - MAX_INODE / 8)
    else if b == 2 then Pack(s.store.used)
    else TableBlock(s.inodes, b - 3)
  }

  /** `fs_umount`: the first `n` metadata blocks written. */
  function MetaWritten(s: Fs, n: nat): (d: seq<Block>)
    requires FsShape(s) && Fits(s) && n <= METADATA_BLOCKS
    ensures |d| == MAX_BLOCK && forall b :: 0 <= b < MAX_BLOCK ==> BlockOk(d[b])
  {
    seq(MAX_BLOCK, b requires 0 <= b < MAX_BLOCK => if b < n then MetaBlock(s, b) else s.store.disk[b])
  }

  /** `fs_umount` */
  function Umounted(s: Fs): (d: seq<Block>)
    requires FsShape(s) && Fits(s)
    ensures |d| == MAX_BLOCK && forall b :: 0 <= b < MAX_BLOCK ==> BlockOk(d[b])
  {
    MetaWritten(s, METADATA_BLOCKS)[s.curBlock := EncDir(s.cur)]
  }

  // ----- Mounting -----

  function InodeOnDisk(d: seq<Block>, k: nat): (n: Inode)
    requires |d| == MAX_BLOCK && (forall b :: 0 <= b < MAX_BLOCK ==> BlockOk(d[b])) && k < MAX_INODE
    ensures |n.direct| == DIRECT_BLOCK
  {
    assert BlockOk(d[3 + k / 4]);
    DecInode(d[3 + k / 4][INODE_BYTES * (k % 4)..INODE_BYTES * (k % 4) + INODE_BYTES])
  }

  /** `fs_mount` of a disk; `scratch` is what the map buffer holds. A bad number for the root's block
      leaves the listing as it is when the program starts, empty. */
  function Mounted(d: seq<Block>, scratch: seq<nat>): Fs
    requires |d| == MAX_BLOCK && (forall b :: 0 <= b < MAX_BLOCK ==> BlockOk(d[b]))
  {
    var root := InodeOnDisk(d, 0).direct[0];
    Fs(Store(Unpacked(d[2]), Dec(d[0][..4]), d), Unpacked(d[1][..MAX_INODE / 8]), Dec(d[0][4..8]),
       seq(MAX_INODE, k requires 0 <= k < MAX_INODE => InodeOnDisk(d, k)),
       if root < MAX_BLOCK then DecDir(d[root]) else [], root, scratch)
  }

  lemma TableAt(inodes: seq<Inode>, i: nat, k: nat)
    requires INODES_PER_BLOCK * i + INODES_PER_BLOCK <= |inodes|
    requires (forall k :: 0 <= k < |inodes| ==> FitsWords(inodes[k])) && k < 4
    ensures TableBlock(inodes, i)[INODE_BYTES * k..INODE_BYTES * k + INODE_BYTES] == EncInode(inodes[4 * i + k])
  {
    hide EncInode;
    assert k == 0 || k == 1 || k == 2 || k == 3;
  }

  /** An inode is read back as written, unless the listing was written over it. */
  lemma InodeComesBack(s: Fs, k: nat)
    requires FsShape(s) && Fits(s) && METADATA_BLOCKS <= s.curBlock && k < MAX_INODE
    ensures InodeOnDisk(Umounted(s), k) == s.inodes[k]
  {
    hide EncInode, DecInode, EncDir, TableBlock;
    TableAt(s.inodes, k / 4, k % 4);
    InodeRoundTrip(s.inodes[k]);
    assert Umounted(s)[3 + k / 4] == TableBlock(s.inodes, k / 4);
  }

  lemma CountersComeBack(s: Fs)
    requires FsShape(s) && Fits(s) && METADATA_BLOCKS <= s.curBlock
    ensures var d := Umounted(s);
      && Dec(d[0][..4]) == s.store.free && Dec(d[0][4..8]) == s.freeInodes
      && Unpacked(d[2]) == s.store.used && Unpacked(d[1][..MAX_INODE / 8]) == s.inodeUsed
  {
    hide EncDir, Enc, Dec, Pack, Unpacked, SuperBlock;
    var d := Umounted(s);
    DecEnc(s.store.free);
    DecEnc(s.freeInodes);
    UnpackedPack(s.store.used);
    UnpackedPack(s.inodeUsed);
    SuperParts(s.store.free, s.freeInodes);
    assert d[0] == SuperBlock(s.store.free, s.freeInodes);
    assert d[1][..MAX_INODE / 8] == Pack(s.inodeUsed);
    assert d[2] == Pack(s.store.used);
  }

  lemma SuperParts(free: nat, freeInodes: nat)
    requires free < WORD && freeInodes < WORD
    ensures SuperBlock(free, freeInodes)[..4] == Enc(free) && SuperBlock(free, freeInodes)[4..8] == Enc(freeInodes)
  {
  }

  lemma InodePlace(d: seq<Block>, i: nat, j: nat)
    requires |d| == MAX_BLOCK && (forall b :: 0 <= b < MAX_BLOCK ==> BlockOk(d[b])) && j < INODES_PER_BLOCK
    requires INODES_PER_BLOCK * i + j < MAX_INODE
    ensures |d[3 + i]| == BLOCK_SIZE
    ensures InodeOnDisk(d, INODES_PER_BLOCK * i + j)
      == DecInode(d[3 + i][INODE_BYTES * j..INODE_BYTES * j + INODE_BYTES])
  {
    hide DecInode;
    assert BlockOk(d[3 + i]);
    assert (4 * i + j) / 4 == i && (4 * i + j) % 4 == j;
  }

  /** The loop of `fs_mount` over the inode table. */
  method ReadTable(inodes: array<Inode>, d: seq<Block>)
    requires inodes.Length == MAX_INODE && |d| == MAX_BLOCK && forall b :: 0 <= b < MAX_BLOCK ==> BlockOk(d[b])
    modifies inodes
    ensures forall k :: 0 <= k < MAX_INODE ==> inodes[k] == InodeOnDisk(d, k)
  {
    hide DecInode, InodeOnDisk;
    for i := 0 to MAX_INODE / INODES_PER_BLOCK
      invariant forall k :: 0 <= k < INODES_PER_BLOCK * i ==> inodes[k] == InodeOnDisk(d, k)
    {
      ReadTableBlock(inodes, d, i);
    }
  }

  /** `disk_read` of one block of the table: four inodes. */
  method ReadTableBlock(inodes: array<Inode>, d: seq<Block>, i: nat)
    requires inodes.Length == MAX_INODE && |d| == MAX_BLOCK && forall b :: 0 <= b < MAX_BLOCK ==> BlockOk(d[b])
    requires INODES_PER_BLOCK * i < MAX_INODE
    modifies inodes
    ensures forall k :: 0 <= k < MAX_INODE ==>
      inodes[k] == if INODES_PER_BLOCK * i <= k < INODES_PER_BLOCK * i + INODES_PER_BLOCK then InodeOnDisk(d, k)
        else old(inodes[k])
  {
    hide DecInode, InodeOnDisk;
    ghost var before := inodes[..];
    for j := 0 to INODES_PER_BLOCK
      invariant forall k :: 0 <= k < MAX_INODE ==>
        inodes[k] == if INODES_PER_BLOCK * i <= k < INODES_PER_BLOCK * i + j then InodeOnDisk(d, k) else before[k]
    {
      InodePlace(d, i, j);
      inodes[INODES_PER_BLOCK * i + j] := DecInode(d[3 + i][INODE_BYTES * j..INODE_BYTES * j + INODE_BYTES]);
    }
  }

  // ----- There and back -----

  /** The state just before the program ends: what is on the disk is what will be mounted. */
  ghost function AtRest(s: Fs): Fs
    requires FsShape(s) && Fits(s)
  {
    s.(store := s.store.(disk := Umounted(s)))
  }

  ghost predicate RootBlockKnown(s: Fs)
    requires FsShape(s)
  {
    Fits(s) && s.curBlock == s.inodes[0].direct[0]
  }

  lemma RootIsDir(s: Fs)
    requires Inv(s)
    ensures IsDir(s, 0) && IsDir(s, Cwd(s))
  {
    assert 0 in Abs(s).dirs && Cwd(s) in Abs(s).dirs;
  }

  lemma RootBlock(s: Fs)
    requires Inv(s) && RootBlockKnown(s)
    ensures METADATA_BLOCKS <= s.curBlock < MAX_BLOCK && s.curBlock in DataBlocks(s.store, s.inodes[0])
  {
    RootIsDir(s);
    DirectEntry(s.store, s.inodes[0], 0);
    assert DataBlocks(s.store, s.inodes[0])[0] == s.curBlock;
  }

  lemma UmountedAt(s: Fs, b: nat)
    requires FsShape(s) && Fits(s) && METADATA_BLOCKS <= b < MAX_BLOCK
    ensures Umounted(s)[b] == if b == s.curBlock then EncDir(s.cur) else s.store.disk[b]
  {
  }

  lemma RestRewrites(s: Fs)
    requires Inv(s) && RootBlockKnown(s)
    ensures Sound(AtRest(s)) && Rewrites(s, AtRest(s), 0) && METADATA_BLOCKS <= s.curBlock
    ensures Listing(AtRest(s).store, s.inodes[0]) == s.cur
  {
    var u := AtRest(s);
    RootIsDir(s);
    RootBlock(s);
    hide EncDir, DecDir, Umounted, DataBlocks, TreeOk, CountFree;
    DirRoundTrip(s.cur);
    UmountedAt(s, s.curBlock);
    forall b: nat | METADATA_BLOCKS <= b < MAX_BLOCK && u.store.disk[b] != s.store.disk[b]
      ensures b in DataBlocks(s.store, s.inodes[0])
    {
      UmountedAt(s, b);
    }
    DataOnly(s, u, 0);
    RewriteSound(s, u, 0);
  }

  lemma MountedInodes(s: Fs, scratch: seq<nat>)
    requires FsShape(s) && Fits(s) && METADATA_BLOCKS <= s.curBlock
    ensures InodeOnDisk(Umounted(s), 0) == s.inodes[0]
    ensures Mounted(Umounted(s), scratch).inodes == s.inodes
  {
    hide Umounted, Unpacked, Enc, Dec, EncDir, DecDir, EncInode, DecInode, InodeOnDisk, MetaWritten, MetaBlock,
      FitsWords, Fits;
    InodeComesBack(s, 0);
    var t := Mounted(Umounted(s), scratch);
    forall k: nat | k < MAX_INODE ensures InodeOnDisk(Umounted(s), k) == s.inodes[k] {
      InodeComesBack(s, k);
    }
    assert t.inodes == s.inodes;
  }

  /** What is mounted is what was unmounted, but for the map buffer. */
  lemma MountedIs(s: Fs, scratch: seq<nat>)
    requires Inv(s) && RootBlockKnown(s)
    ensures Mounted(Umounted(s), scratch) == AtRest(s).(scratch := scratch)
  {
    RootBlock(s);
    CountersComeBack(s);
    MountedInodes(s, scratch);
    RestRewrites(s);
    hide Umounted, Unpacked, Dec, DecDir, Sound, InodeOnDisk, TreeOk, Rewrites, EntriesOk, FitsWords;
    RootListing(s);
  }

  lemma RootListing(s: Fs)
    requires Inv(s) && RootBlockKnown(s)
    ensures s.curBlock < MAX_BLOCK && DecDir(Umounted(s)[s.curBlock]) == s.cur
  {
    RootBlock(s);
    hide EncDir, DecDir, Umounted, DataBlocks, TreeOk;
    DirRoundTrip(s.cur);
    UmountedAt(s, s.curBlock);
  }

  lemma ScratchSound(s: Fs, w: seq<nat>)
    requires Sound(s) && |w| == MAX_INDIRECT_BLOCK && WordsOk(w)
    ensures var t := s.(scratch := w);
      Sound(t) && DirsOf(t) == DirsOf(s) && FilesOf(t) == FilesOf(s)
  {
    var t := s.(scratch := w);
    forall i, j, b | Allocated(t, i) && Allocated(t, j) && OwnedBy(t, i, b) && OwnedBy(t, j, b) ensures i == j {
      assert OwnedBy(s, i, b) && OwnedBy(s, j, b);
    }
    assert forall i: nat :: IsDir(s, i) ==> IsDir(t, i) && ListingOf(t, i) == ListingOf(s, i);
    assert forall i: nat :: IsFile(s, i) ==> IsFile(t, i) && FileOf(t, i) == FileOf(s, i);
    SameReading(s, t);
  }

  /** From the root, unmounting and mounting give the same file system back: every listing, every file,
      both maps and both counters. */
  lemma MountFromRoot(s: Fs, scratch: seq<nat>)
    requires Inv(s) && RootBlockKnown(s) && Cwd(s) == 0 && |scratch| == MAX_INDIRECT_BLOCK && WordsOk(scratch)
    ensures var t := Mounted(Umounted(s), scratch);
      && Inv(t) && Abs(t) == Abs(s) && t.curBlock == s.curBlock
      && t.store.used == s.store.used && t.store.free == s.store.free && t.inodeUsed == s.inodeUsed
      && t.freeInodes == s.freeInodes
  {
    MountedIs(s, scratch);
    RestRewrites(s);
    RootIsDir(s);
    var u := AtRest(s);
    HereRewritten(s, u);
    ScratchSound(u, scratch);
  }

  /** From elsewhere the root's listing is lost: the directory mounted as the root is not itself. */
  lemma MountFromElsewhere(s: Fs, scratch: seq<nat>)
    requires Inv(s) && RootBlockKnown(s) && Cwd(s) != 0 && |scratch| == MAX_INDIRECT_BLOCK && WordsOk(scratch)
    ensures var t := Mounted(Umounted(s), scratch);
      Sound(t) && !Inv(t) && 0 in DirsOf(t) && DirsOf(t)[0] == s.cur
  {
    MountedIs(s, scratch);
    RestRewrites(s);
    RootIsDir(s);
    var u := AtRest(s);
    ScratchSound(u, scratch);
    assert IsDir(u, 0) && ListingOf(u, 0) == s.cur;
    assert Abs(u).dirs[0] == s.cur;
    var t := Mounted(Umounted(s), scratch);
    assert !ListingOk(Abs(t), 0, s.cur);
  }

  /** A disk can be used again after it has been unmounted exactly when that was done in the root. */
  lemma MountExactly(s: Fs, scratch: seq<nat>)
    requires Inv(s) && RootBlockKnown(s) && |scratch| == MAX_INDIRECT_BLOCK && WordsOk(scratch)
    ensures var t := Mounted(Umounted(s), scratch);
      Sound(t) && (Inv(t) && Abs(t) == Abs(s) <==> Cwd(s) == 0)
  {
    var here := Cwd(s);
    hide *;
    if here == 0 { MountFromRoot(s, scratch); } else { MountFromElsewhere(s, scratch); }
  }

  // ----- The root block over runs -----

  lemma SmallRooted(s: Fs, name: Name, size: nat, tmp: seq<Byte>)
    requires FsShape(s) && RootBlockKnown(s) && s.inodeUsed[0] && NameOk(name)
    requires size < SMALL_FILE && BLOCK_SIZE * Ceil(size) <= |tmp|
    ensures var (k, t) := CreateSmall(s, name, size, tmp);
      && FsShape(t) && RootBlockKnown(t)
      && (k >= 0 ==> 0 < k < MAX_INODE && t.inodes[k].size == size && t.inodes[k].blockCount <= DIRECT_BLOCK)
  {
    CreateSmallShape(s, name, size, tmp);
    SplitInRange(size);
    FreeExists(s.inodeUsed);
    hide Ceil, CountFree, TakeBlock, EntriesOk;
  }

  lemma LargeRooted(s: Fs, ino: nat, size: nat, tmp: seq<Byte>)
    requires FsShape(s) && RootBlockKnown(s) && 0 < ino < MAX_INODE
    requires s.inodes[ino].size == SMALL_FILE - 1 && s.inodes[ino].blockCount <= DIRECT_BLOCK
    requires size < LARGE_FILE && Ceil(size) <= MAX_INDIRECT_BLOCK
    requires BLOCK_SIZE * (DIRECT_BLOCK + Ceil(size)) <= |tmp|
    ensures var t := CreateLarge(s, ino, size, tmp).1; FsShape(t) && RootBlockKnown(t)
  {
    LargeShape(s, ino, size, tmp);
    hide Ceil, CountFree, TakeBlock, EntriesOk;
  }

  lemma CreateRooted(s: Fs, name: Name, size: nat, tmp: seq<Byte>)
    requires FsShape(s) && RootBlockKnown(s) && s.inodeUsed[0] && NameOk(name)
    requires size < LARGE_FILE ==> BLOCK_SIZE * BlocksFor(size) <= |tmp|
    ensures var t := FileCreate(s, name, size, tmp).1; FsShape(t) && RootBlockKnown(t)
  {
    if size < LARGE_FILE { SplitRooted(s, name, size, tmp); }
  }

  lemma SplitRooted(s: Fs, name: Name, size: nat, tmp: seq<Byte>)
    requires FsShape(s) && RootBlockKnown(s) && s.inodeUsed[0] && NameOk(name)
    requires size < LARGE_FILE && BLOCK_SIZE * BlocksFor(size) <= |tmp|
    ensures var t := FileCreate(s, name, size, tmp).1; FsShape(t) && RootBlockKnown(t)
  {
    hide *;
    EnoughData(size, tmp);
    CreateCases(s, name, size, tmp);
    SmallRooted(s, name, First(size), tmp);
    var (k, t) := CreateSmall(s, name, First(size), tmp);
    if size >= SMALL_FILE && k >= 0 {
      LargeRooted(t, k, size - First(size), tmp);
    }
  }

  lemma MakeRooted(s: Fs, name: Name)
    requires FsShape(s) && RootBlockKnown(s) && s.inodeUsed[0] && FsShape(DirMake(s, name).1)
    ensures RootBlockKnown(DirMake(s, name).1)
  {
    FreeExists(s.inodeUsed);
    hide CountFree, TakeBlock, EntriesOk, EncDir;
  }

  lemma ChangeRooted(s: Fs, name: Name)
    requires FsShape(s) && RootBlockKnown(s) && Find(s.cur, name) < MAX_INODE && FsShape(DirChange(s, name).1)
    ensures RootBlockKnown(DirChange(s, name).1)
  {
    hide CountFree, EntriesOk, EncDir, DecDir, FitsWords;
  }

  lemma WriteRooted(s: Fs, name: Name, offset: nat, size: nat, buf: seq<Byte>, junk: Block)
    requires Inv(s) && RootBlockKnown(s) && BlockOk(junk) && Find(s.cur, name) < MAX_INODE
    requires Find(s.cur, name) >= 0 ==> InTables(offset, size)
    requires FsShape(FileWrite(s, name, offset, size, buf, junk).1)
    ensures RootBlockKnown(FileWrite(s, name, offset, size, buf, junk).1)
  {
    hide CountFree, EntriesOk, Sound, TreeOk, Scatter, Gather, Overlaid, Touched;
  }

  lemma RootUsed(s: Fs)
    requires Inv(s)
    ensures FsShape(s) && |s.inodeUsed| == MAX_INODE && s.inodeUsed[0] && Here(Abs(s)) == s.cur
  {
    RootIsDir(s);
    HereIsCur(s);
  }

  lemma {:induction false} CountFreeAtMost(bits: seq<bool>)
    ensures 0 <= CountFree(bits) <= |bits|
  {
    if bits != [] { CountFreeAtMost(bits[..|bits| - 1]); }
  }

  lemma RemoveRooted(s: Fs, name: Name)
    requires FsShape(s) && RootBlockKnown(s) && Removable(s, name) && FsShape(FileRemove(s, name).1)
    ensures RootBlockKnown(FileRemove(s, name).1)
  {
    CountFreeAtMost(FileRemove(s, name).1.inodeUsed);
    CountFreeAtMost(FileRemove(s, name).1.store.used);
    hide CountFree, EntriesOk, ReleaseAll, Doomed, FitsWords;
  }

  lemma StepRooted(s: Fs, c: Command)
    requires Inv(s) && RootBlockKnown(s) && Allowed(s, c)
    ensures Inv(Step(s, c).1) && RootBlockKnown(Step(s, c).1)
  {
    hide Inv, Sound, TreeOk, Abs, Proper, RootBlockKnown, FileCreate, DirMake, DirChange, FileWrite,
      FileRemove,
         FsShape, IsDir, Removable;
    InvTreeOk(s);
    StepRefines(s, c);
    Defined(s, c);
    RootUsed(s);
    InvFacts(Step(s, c).1);
    match c
    case CreateFile(name, size, tmp) => CreateRooted(s, name, size, tmp);
    case MakeDirectory(name) => MakeRooted(s, name);
    case ChangeDirectory(name) => ChangeRooted(s, name);
    case WriteFile(name, offset, size, buf, junk) => WriteRooted(s, name, offset, size, buf, junk);
    case ReadFile(name, offset, size, junk) =>
    case CatFile(name, junk) =>
    case RemoveFile(name) => RemoveRooted(s, name);
  }

  lemma {:induction false} RunRooted(s: Fs, cs: seq<Command>)
    requires Inv(s) && RootBlockKnown(s) && AllAllowed(s, cs)
    ensures var t := Run(s, cs).1; Inv(t) && RootBlockKnown(t)
    decreases cs
  {
    hide *;
    if cs == [] {
      NothingRun(s, cs);
    } else {
      var c, rest := cs[0], cs[1..];
      assert cs == [c] + rest;
      InvTreeOk(s);
      FirstAllowed(s, c, rest);
      StepRooted(s, c);
      RunRooted(Step(s, c).1, rest);
    }
  }

  /** After any run on a new disk: unmounting and mounting restore the tree exactly when the run ended in the root. */
  lemma MountAfterRun(cs: seq<Command>, scratch: seq<nat>)
    requires Possible(cs) && |scratch| == MAX_INDIRECT_BLOCK && WordsOk(scratch)
    ensures var s := FromNewDisk(cs).1;
      && Inv(s) && RootBlockKnown(s)
      && var t := Mounted(Umounted(s), scratch);
        Sound(t) && (Inv(t) && Abs(t) == Abs(s) <==> Cwd(s) == 0)
  {
    NewTreeOk();
    NewDiskRooted();
    RunRooted(FirstMount(), cs);
    MountExactly(FromNewDisk(cs).1, scratch);
  }

  lemma OnlyRootFits(s: Fs)
    requires FsShape(s) && s.curBlock < MAX_BLOCK && 0 <= s.store.free < WORD && 0 <= s.freeInodes < WORD
    requires s.inodes[0] == Inode(Directory, 1, 1, seq(DIRECT_BLOCK, k => 0)[0 := s.curBlock], 0)
    requires forall i :: 0 < i < MAX_INODE ==> s.inodes[i] == Inode(File, 0, 0, seq(DIRECT_BLOCK, k => 0), 0)
    ensures RootBlockKnown(s)
  {
  }

  lemma NewDiskRooted()
    ensures FsShape(FirstMount()) && RootBlockKnown(FirstMount())
  {
    hide FirstMount, Blank, InodeOk, RootBlockKnown;
    FirstMountRoot();
    forall i | 0 < i < MAX_INODE ensures FirstMount().inodes[i] == Inode(File, 0, 0, seq(DIRECT_BLOCK, k => 0), 0) {
      BlankInodes(i);
    }
    OnlyRootFits(FirstMount());
  }
}
