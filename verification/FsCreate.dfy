/** What a successful creation leaves on the disk. */
module FsCreate {
  import opened Lists
  import opened Bits
  import opened Codec
  import opened FileSystem
  import opened FsInvariant
  import opened FsContents

  /** Whether the first, or only, half of a creation goes through. */
  predicate SmallGoesThrough(s: Fs, name: Name, size: nat)
    requires s.cur != []
  {
    Find(s.cur, name) < 0 && !DirFull(s.cur) && Ceil(size) <= s.store.free && s.freeInodes >= 1
  }

  /** Fresh blocks are nobody's, and not metadata. */
  lemma FreshIsFree(s: Fs, bs: seq<nat>)
    requires Sound(s) && Fresh(bs, s.store.used)
    ensures NoDup(bs) && forall b :: b in bs ==> METADATA_BLOCKS <= b < MAX_BLOCK && !s.store.used[b]
  {
  }

  /** An inode whose first direct blocks are `bs`. */
  lemma DirectInodeOk(s: Fs, st: Store, size: nat, bs: seq<nat>, direct: seq<nat>, indirect: nat)
    requires Sound(s) && StoreOk(st) && Fresh(bs, s.store.used) && forall b :: b in bs ==> b < MAX_BLOCK && st.used[b]
    requires size < SMALL_FILE && |direct| == DIRECT_BLOCK && |bs| <= DIRECT_BLOCK && indirect < MAX_BLOCK
    requires forall i :: 0 <= i < DIRECT_BLOCK ==> direct[i] < MAX_BLOCK
    ensures var n := Inode(File, size, |bs|, bs + direct[|bs|..], indirect);
      InodeOk(st, n) && DataBlocks(st, n) == bs && Owned(st, n) == bs
  {
    var n := Inode(File, size, |bs|, bs + direct[|bs|..], indirect);
    FreshIsFree(s, bs);
    assert n.direct[..|bs|] == bs;
    assert Owned(st, n) == bs;
    forall i | |bs| <= i < DIRECT_BLOCK ensures n.direct[i] < MAX_BLOCK {
      assert n.direct[i] == direct[i];
    }
  }

  lemma FitsAt(s: Fs, k: nat)
    requires Sound(s) && k < MAX_INODE
    ensures |s.inodes| == |s.inodeUsed| == MAX_INODE && InodeFits(s.inodes[k])
  {
  }

  lemma FilledInode(s: Fs, st: Store, size: nat, tmp: seq<Byte>, k: nat, bs: seq<nat>)
    requires Sound(s) && StoreOk(st) && size < SMALL_FILE && k < MAX_INODE && !s.inodeUsed[k]
    requires |bs| <= DIRECT_BLOCK && BLOCK_SIZE * |bs| <= |tmp| && Fresh(bs, s.store.used)
    requires forall b :: b in bs ==> b < MAX_BLOCK && st.used[b]
    requires forall i :: 0 <= i < |bs| ==> st.disk[bs[i]] == Chunk(tmp, 0 + i)
    ensures var n := Inode(File, size, |bs|, bs + s.inodes[k].direct[|bs|..], s.inodes[k].indirect);
      InodeOk(st, n) && Owned(st, n) == bs == DataBlocks(st, n) && Content(st, n) == tmp[..BLOCK_SIZE * |bs|]
  {
    hide Chunk, InodeOk, Owned, Gather, DataBlocks, Sound;
    FitsAt(s, k);
    DirectInodeOk(s, st, size, bs, s.inodes[k].direct, s.inodes[k].indirect);
    GatherChunks(st.disk, bs, tmp, 0, Zeros(BLOCK_SIZE));
  }

  lemma SmallInodeOk(s: Fs, size: nat, tmp: seq<Byte>, k: nat, bs: seq<nat>, st: Store)
    requires Sound(s) && size < SMALL_FILE && BLOCK_SIZE * Ceil(size) <= |tmp| && Ceil(size) <= s.store.free
    requires k < MAX_INODE && !s.inodeUsed[k] && (bs, st) == Grab(s.store, Ceil(size), tmp, 0)
    ensures Ceil(size) <= DIRECT_BLOCK
    ensures var n := Inode(File, size, Ceil(size), bs + s.inodes[k].direct[Ceil(size)..], s.inodes[k].indirect);
      InodeOk(st, n) && Owned(st, n) == bs == DataBlocks(st, n) && Content(st, n) == tmp[..BLOCK_SIZE * Ceil(size)]
  {
    hide *;
    SmallFits(s, size);
    GrabFacts(s.store, Ceil(size), tmp, bs, st);
    FilledInode(s, st, size, tmp, k, bs);
  }

  lemma SmallFits(s: Fs, size: nat)
    requires Sound(s) && size < SMALL_FILE
    ensures Ceil(size) <= DIRECT_BLOCK && FsShape(s) && StoreOk(s.store)
      && |s.store.used| == |s.store.disk| == MAX_BLOCK
    ensures |s.inodes| == |s.inodeUsed| == MAX_INODE && forall k :: 0 <= k < MAX_INODE ==>
      |s.inodes[k].direct| == DIRECT_BLOCK
  {
  }

  /** What the allocation loops give. */
  lemma GrabFacts(st: Store, n: nat, tmp: seq<Byte>, bs: seq<nat>, t: Store)
    requires StoreOk(st) && st.free >= n && BLOCK_SIZE * n <= |tmp| && (bs, t) == Grab(st, n, tmp, 0)
    ensures |bs| == n && |st.used| == MAX_BLOCK && Fresh(bs, st.used) && StoreOk(t) && |t.used| == |t.disk| == MAX_BLOCK
    ensures forall b :: b in bs ==> b < MAX_BLOCK && t.used[b]
    ensures forall i :: 0 <= i < |bs| ==> t.disk[bs[i]] == Chunk(tmp, 0 + i)
  {
    hide CountFree, Chunk;
  }

  /** The state the first half leaves, written out. */
  lemma SmallIs(s: Fs, name: Name, size: nat, tmp: seq<Byte>)
    requires FsShape(s) && NameOk(name) && size < SMALL_FILE
    requires BLOCK_SIZE * Ceil(size) <= |tmp| && SmallGoesThrough(s, name, size)
    ensures Ceil(size) <= DIRECT_BLOCK
    ensures var (k, t) := CreateSmall(s, name, size, tmp); var (bs, st) := Grab(s.store, Ceil(size), tmp, 0);
      && 0 <= k < MAX_INODE && k == LowestFree(s.inodeUsed) && !s.inodeUsed[k] && FsShape(t)
      && t.store == st && t.inodeUsed == s.inodeUsed[k := true] && t.cur == s.cur + [Entry(name, k)]
      && t.inodes == s.inodes[k := Inode(File, size, Ceil(size), bs + s.inodes[k].direct[Ceil(size)..],
         s.inodes[k].indirect)]
  {
    FreeExists(s.inodeUsed);
    SplitInRange(size);
    CreateSmallShape(s, name, size, tmp);
    hide FsShape, Grab, Ceil;
  }

  lemma GrabExtends(s: Fs, t: Fs, k: nat, n: nat, tmp: seq<Byte>, node: Inode)
    requires FsShape(s) && FsShape(t) && k < MAX_INODE && n <= s.store.free && BLOCK_SIZE * n <= |tmp|
    requires t.store == Grab(s.store, n, tmp, 0).1 && t.inodes == s.inodes[k := node]
    requires t.inodeUsed == s.inodeUsed[k := true]
    ensures Extends(s, t, k) && t.store.free == s.store.free - n
  {
    hide Grab, Chunk, CountFree, EntriesOk;
  }

  /** The first half of `file_create`: inode `k`, the lowest free one, holds the data and nothing else changed. */
  lemma SmallEffect(s: Fs, name: Name, size: nat, tmp: seq<Byte>)
    requires Sound(s) && NameOk(name) && size < SMALL_FILE
    requires BLOCK_SIZE * Ceil(size) <= |tmp| && SmallGoesThrough(s, name, size)
    ensures var (k, t) := CreateSmall(s, name, size, tmp);
      && 0 <= k < MAX_INODE && k == LowestFree(s.inodeUsed) && !s.inodeUsed[k] && FsShape(t) && Extends(s, t, k)
      && Sound(t)
      && Allocated(t, k) && t.inodes[k].kind == File && t.inodes[k].size == size && t.inodes[k].blockCount == Ceil(size)
      && t.cur == s.cur + [Entry(name, k)] && t.store.free == s.store.free - Ceil(size)
      && Content(t.store, t.inodes[k]) == tmp[..BLOCK_SIZE * Ceil(size)]
      && t.inodeUsed == s.inodeUsed[k := true]
  {
    hide CreateSmall, Grab, Sound, Extends, Content, Owned, DataBlocks, Ceil, Chunk, CountFree, EntriesOk;
    SmallFits(s, size);
    SmallIs(s, name, size, tmp);
    var (k, t) := CreateSmall(s, name, size, tmp);
    var (bs, st) := Grab(s.store, Ceil(size), tmp, 0);
    GrabExtends(s, t, k, Ceil(size), tmp, t.inodes[k]);
    SmallInodeOk(s, size, tmp, k, bs, st);
    FreshIsFree(s, bs);
    assert TakesFree(s, t, k);
    ExtendSound(s, t, k);
  }

  lemma LargeShape(s: Fs, ino: nat, size: nat, tmp: seq<Byte>)
    requires FsShape(s) && ino < MAX_INODE && Ceil(size) <= MAX_INDIRECT_BLOCK
    requires BLOCK_SIZE * (DIRECT_BLOCK + Ceil(size)) <= |tmp|
    ensures FsShape(CreateLarge(s, ino, size, tmp).1)
  {
    hide Grab, TakeBlock, Chunk, EncWords;
    var n := Ceil(size);
    if n + 1 <= s.store.free {
      var (indirect, t) := TakeBlock(s.store);
      var (bs, u) := Grab(t, n, tmp, DIRECT_BLOCK);
      var table := bs + s.scratch[n..];
      assert forall i :: 0 <= i < n ==> table[i] == bs[i];
      assert forall i :: n <= i < MAX_INDIRECT_BLOCK ==> table[i] == s.scratch[i];
      assert WordsOk(table);
    }
  }

  /** The blocks of a large file: its direct ones, the new ones named by the map, and the map. */
  lemma LargeBlocks(s: Fs, ino: nat, size: nat, tmp: seq<Byte>)
    requires Sound(s) && Allocated(s, ino) && s.inodes[ino].kind == File && s.inodes[ino].blockCount == DIRECT_BLOCK
    requires 1 <= Ceil(size) <= MAX_INDIRECT_BLOCK && Ceil(size) + 1 <= s.store.free
    requires BLOCK_SIZE * (DIRECT_BLOCK + Ceil(size)) <= |tmp|
    ensures var t := CreateLarge(s, ino, size, tmp).1; var (indirect, u) := TakeBlock(s.store);
      var bs := Grab(u, Ceil(size), tmp, DIRECT_BLOCK).0;
      && FsShape(t) && InodeShape(t.inodes[ino]) && t.inodes[ino].blockCount == DIRECT_BLOCK + Ceil(size)
      && DataBlocks(t.store, t.inodes[ino]) == s.inodes[ino].direct + bs
      && Owned(t.store, t.inodes[ino]) == s.inodes[ino].direct + bs + [indirect]
      && Fresh(bs + [indirect], s.store.used)
      && (forall b :: b in s.inodes[ino].direct ==> OwnedBy(s, ino, b))
      && NoDup(s.inodes[ino].direct)
      && (forall i :: 0 <= i < |bs| ==> t.store.disk[bs[i]] == Chunk(tmp, DIRECT_BLOCK + i))
  {
    hide Grab, TakeBlock, EncWords, DecWords;
    var c := Ceil(size);
    var t := CreateLarge(s, ino, size, tmp).1;
    var (indirect, u) := TakeBlock(s.store);
    var (bs, w) := Grab(u, c, tmp, DIRECT_BLOCK);
    LargeShape(s, ino, size, tmp);
    WordsRoundTrip(t.scratch, []);
    assert EncWords(t.scratch) + [] == EncWords(t.scratch);
    assert Words(t.store.disk, indirect) == t.scratch;
    assert t.scratch[..c] == bs;
    assert indirect !in bs;
    var n := s.inodes[ino];
    assert n.direct == DataBlocks(s.store, n) == Owned(s.store, n);
  }

  /** The map block is the map buffer, written whole: past the file's own blocks it names what the buffer named
      before, the blocks of an earlier large file. */
  lemma MapLeftOver(s: Fs, ino: nat, size: nat, tmp: seq<Byte>, j: nat)
    requires FsShape(s) && ino < MAX_INODE && Ceil(size) <= MAX_INDIRECT_BLOCK && Ceil(size) + 1 <= s.store.free
    requires BLOCK_SIZE * (DIRECT_BLOCK + Ceil(size)) <= |tmp| && Ceil(size) <= j < 128
    ensures var t := CreateLarge(s, ino, size, tmp).1;
      && FsShape(t) && t.inodes[ino].indirect < MAX_BLOCK && |t.scratch| == |s.scratch| == 128
      && Words(t.store.disk, t.inodes[ino].indirect) == t.scratch && t.scratch[j] == s.scratch[j]
  {
    hide Grab, TakeBlock, EncWords, DecWords, Ceil;
    LargeShape(s, ino, size, tmp);
    var t := CreateLarge(s, ino, size, tmp).1;
    WordsRoundTrip(t.scratch, []);
    assert EncWords(t.scratch) + [] == EncWords(t.scratch);
    hide StoreOk, EntriesOk, Chunk;
  }

  lemma LargeInodeOk(s: Fs, ino: nat, size: nat, tmp: seq<Byte>)
    requires Sound(s) && Allocated(s, ino) && s.inodes[ino].kind == File && s.inodes[ino].blockCount == DIRECT_BLOCK
    requires s.inodes[ino].size == SMALL_FILE - 1
    requires 1 <= Ceil(size) <= MAX_INDIRECT_BLOCK && Ceil(size) + 1 <= s.store.free
    requires BLOCK_SIZE * (DIRECT_BLOCK + Ceil(size)) <= |tmp|
    ensures var t := CreateLarge(s, ino, size, tmp).1;
      && FsShape(t) && Extends(s, t, ino) && InodeOk(t.store, t.inodes[ino]) && Allocated(t, ino)
      && TakesFree(s, t, ino)
  {
    hide Grab, TakeBlock, EncWords, DecWords, DataBlocks, Chunk;
    var t := CreateLarge(s, ino, size, tmp).1;
    var (indirect, u) := TakeBlock(s.store);
    var (bs, w) := Grab(u, Ceil(size), tmp, DIRECT_BLOCK);
    LargeBlocks(s, ino, size, tmp);
    FreshIsFree(s, bs + [indirect]);
    var d, o := s.inodes[ino].direct, Owned(t.store, t.inodes[ino]);
    assert o == d + (bs + [indirect]);
    assert size == 0 ==> Ceil(size) == 0;
    forall b | b in o ensures METADATA_BLOCKS <= b < MAX_BLOCK && t.store.used[b]
    {
      if b in d { assert OwnedBy(s, ino, b); } else { assert b in bs + [indirect]; }
    }
    ApartLists(d, bs + [indirect], s.store.used);
  }

  /** Used blocks followed by fresh ones are distinct. */
  lemma ApartLists(d: seq<nat>, f: seq<nat>, used: seq<bool>)
    requires |used| == MAX_BLOCK && NoDup(d) && Fresh(f, used) && forall b :: b in d ==> b < MAX_BLOCK && used[b]
    ensures NoDup(d + f)
  {
    var o := d + f;
    forall i, j | 0 <= i < j < |o| ensures o[i] != o[j] {
      if i < |d| <= j {
        assert o[i] in d;
        assert o[j] == f[j - |d|];
      }
    }
  }

  /** The second half of `file_create`: the file goes on through the blocks its map names. */
  lemma LargeEffect(s: Fs, ino: nat, size: nat, tmp: seq<Byte>)
    requires Sound(s) && Allocated(s, ino) && s.inodes[ino].kind == File && s.inodes[ino].blockCount == DIRECT_BLOCK
    requires s.inodes[ino].size == SMALL_FILE - 1
    requires 1 <= Ceil(size) <= MAX_INDIRECT_BLOCK && Ceil(size) + 1 <= s.store.free
    requires BLOCK_SIZE * (DIRECT_BLOCK + Ceil(size)) <= |tmp|
    ensures var t := CreateLarge(s, ino, size, tmp).1;
      && FsShape(t) && Extends(s, t, ino) && Sound(t) && Allocated(t, ino) && t.cur == s.cur
      && t.inodeUsed == s.inodeUsed
      && t.inodes[ino].kind == File && t.inodes[ino].size == SMALL_FILE - 1 + size
      && t.store.free == s.store.free - Ceil(size) - 1
      && Content(t.store, t.inodes[ino])
           == Content(s.store, s.inodes[ino]) + tmp[BLOCK_SIZE * DIRECT_BLOCK..BLOCK_SIZE * (DIRECT_BLOCK + Ceil(size))]
  {
    var t := CreateLarge(s, ino, size, tmp).1;
    LargeInodeOk(s, ino, size, tmp);
    ExtendSound(s, t, ino);
    LargeContent(s, ino, size, tmp);
  }

  lemma LargeContent(s: Fs, ino: nat, size: nat, tmp: seq<Byte>)
    requires Sound(s) && Allocated(s, ino) && s.inodes[ino].kind == File && s.inodes[ino].blockCount == DIRECT_BLOCK
    requires 1 <= Ceil(size) <= MAX_INDIRECT_BLOCK && Ceil(size) + 1 <= s.store.free
    requires BLOCK_SIZE * (DIRECT_BLOCK + Ceil(size)) <= |tmp|
    ensures var t := CreateLarge(s, ino, size, tmp).1;
      && FsShape(t) && InodeShape(t.inodes[ino])
      && Content(t.store, t.inodes[ino])
           == Content(s.store, s.inodes[ino]) + tmp[BLOCK_SIZE * DIRECT_BLOCK..BLOCK_SIZE * (DIRECT_BLOCK + Ceil(size))]
  {
    hide Grab, TakeBlock, EncWords, DecWords, Gather, Chunk;
    var t, z := CreateLarge(s, ino, size, tmp).1, Zeros(BLOCK_SIZE);
    var (indirect, u) := TakeBlock(s.store);
    var (bs, w) := Grab(u, Ceil(size), tmp, DIRECT_BLOCK);
    var d := s.inodes[ino].direct;
    LargeBlocks(s, ino, size, tmp);
    forall b | b in d || b in bs ensures b < |t.store.disk| {
      if b in d { assert OwnedBy(s, ino, b); }
    }
    GatherConcat(t.store.disk, d, bs, z);
    GatherChunks(t.store.disk, bs, tmp, DIRECT_BLOCK, z);
    forall b | b in d ensures b < MAX_BLOCK && t.store.disk[b] == s.store.disk[b] {
      assert OwnedBy(s, ino, b);
    }
    GatherSame(s.store.disk, t.store.disk, d, z, z);
    assert DataBlocks(s.store, s.inodes[ino]) == d;
  }
}
