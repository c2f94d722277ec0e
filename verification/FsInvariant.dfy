/** Which blocks belong to which inode, and why no two inodes ever share one. */
module FsInvariant {
  import opened Lists
  import opened Bits
  import opened Codec
  import opened FileSystem

  const MAX_BLOCKS_OF_FILE: nat := DIRECT_BLOCK + MAX_INDIRECT_BLOCK

  predicate InodeShape(n: Inode) {
    InodeFits(n) && n.blockCount <= MAX_BLOCKS_OF_FILE
  }

  /** The blocks holding an inode's bytes, in order. */
  function DataBlocks(st: Store, n: Inode): (bs: seq<nat>)
    requires StoreOk(st) && InodeShape(n)
    ensures |bs| == n.blockCount
  {
    if n.blockCount <= DIRECT_BLOCK then n.direct[..n.blockCount]
    else n.direct + Words(st.disk, n.indirect)[..n.blockCount - DIRECT_BLOCK]
  }

  /** Those blocks, and the block map of a large file. */
  function Owned(st: Store, n: Inode): seq<nat>
    requires StoreOk(st) && InodeShape(n)
  {
    DataBlocks(st, n) + if n.blockCount > DIRECT_BLOCK then [n.indirect] else []
  }

  /** An allocated inode: its blocks are distinct, marked used, outside the metadata; only files of
      SMALL_FILE bytes and more go beyond the direct blocks. */
  ghost predicate InodeOk(st: Store, n: Inode)
    requires StoreOk(st)
  {
    && InodeShape(n)
    && (n.kind == File ==> (n.size >= SMALL_FILE <==> n.blockCount > DIRECT_BLOCK))
    && (n.kind == Directory ==> n.blockCount == 1)
    && NoDup(Owned(st, n))
    && (forall b :: b in Owned(st, n) ==> METADATA_BLOCKS <= b < MAX_BLOCK && st.used[b])
  }

  predicate Allocated(s: Fs, i: int) {
    0 <= i < |s.inodeUsed| && s.inodeUsed[i]
  }

  ghost predicate OwnedBy(s: Fs, i: int, b: nat)
    requires FsShape(s) && Allocated(s, i) && InodeShape(s.inodes[i])
  {
    b in Owned(s.store, s.inodes[i])
  }

  ghost predicate Sound(s: Fs) {
    && FsShape(s)
    && (forall b :: 0 <= b < METADATA_BLOCKS ==> s.store.used[b])
    && (forall i :: Allocated(s, i) ==> InodeOk(s.store, s.inodes[i]))
    && (forall i, j, b {:trigger OwnedBy(s, i, b), OwnedBy(s, j, b)} ::
          Allocated(s, i) && Allocated(s, j) && OwnedBy(s, i, b) && OwnedBy(s, j, b) ==> i == j)
  }

  /** The direct entries beyond an inode's blocks are 0. */
  ghost predicate ZeroTail(n: Inode) {
    |n.direct| == DIRECT_BLOCK && forall k :: n.blockCount <= k < DIRECT_BLOCK ==> n.direct[k] == 0
  }

  ghost predicate AllZero(n: Inode) {
    |n.direct| == DIRECT_BLOCK && forall k :: 0 <= k < DIRECT_BLOCK ==> n.direct[k] == 0
  }

  /** No inode names a block it does not own. It holds until a file is removed: the freed inode keeps
      its block numbers, and the next file to use the inode those it does not overwrite. */
  ghost predicate Tidy(s: Fs)
    requires FsShape(s)
  {
    forall i :: 0 <= i < MAX_INODE ==> if s.inodeUsed[i] then ZeroTail(s.inodes[i]) else AllZero(s.inodes[i])
  }

  // ----- Contents -----

  function Content(st: Store, n: Inode): seq<Byte>
    requires StoreOk(st) && InodeShape(n)
  {
    Gather(st.disk, DataBlocks(st, n), Zeros(BLOCK_SIZE))
  }

  function Listing(st: Store, n: Inode): seq<Entry>
    requires StoreOk(st) && InodeFits(n)
  {
    DecDir(st.disk[n.direct[0]])
  }

  lemma {:induction false} GatherSame(d: seq<Block>, e: seq<Block>, bs: seq<nat>, buf: Block, junk: Block)
    requires |d| == |e| && forall b :: b in bs ==> b < |d| && d[b] == e[b]
    ensures Gather(d, bs, buf) == Gather(e, bs, junk)
  {
    if bs != [] {
      assert bs[0] in bs;
      forall b | b in bs[1..] ensures b in bs {
      }
      GatherSame(d, e, bs[1..], d[bs[0]], e[bs[0]]);
    }
  }

  /** Nothing of an inode changes while its blocks keep their contents. */
  lemma SameInode(st: Store, t: Store, n: Inode)
    requires StoreOk(st) && StoreOk(t) && InodeOk(st, n)
    requires forall b :: b in Owned(st, n) ==> b < MAX_BLOCK && t.used[b] && t.disk[b] == st.disk[b]
    ensures InodeOk(t, n) && DataBlocks(t, n) == DataBlocks(st, n) && Owned(t, n) == Owned(st, n)
    ensures Content(t, n) == Content(st, n) && (n.blockCount >= 1 ==> Listing(t, n) == Listing(st, n))
  {
    if n.blockCount > DIRECT_BLOCK {
      assert Owned(st, n)[n.blockCount] == n.indirect;
    }
    assert DataBlocks(t, n) == DataBlocks(st, n);
    forall b | b in DataBlocks(st, n) ensures b in Owned(st, n) {
    }
    GatherSame(st.disk, t.disk, DataBlocks(st, n), Zeros(BLOCK_SIZE), Zeros(BLOCK_SIZE));
    if n.blockCount >= 1 {
      assert DataBlocks(st, n)[0] == n.direct[0];
      assert n.direct[0] in Owned(st, n);
    }
  }

  // ----- Operations that add blocks -----

  /** `t` differs from `s` in inode `k` and in blocks that `s` had free. */
  ghost predicate Extends(s: Fs, t: Fs, k: nat)
    requires FsShape(s) && FsShape(t)
  {
    && k < MAX_INODE
    && (forall i :: 0 <= i < MAX_INODE && i != k ==> t.inodes[i] == s.inodes[i] && t.inodeUsed[i] == s.inodeUsed[i])
    && (forall b :: 0 <= b < MAX_BLOCK && s.store.used[b] ==> t.store.used[b] && t.store.disk[b] == s.store.disk[b])
  }

  lemma OthersUntouched(s: Fs, t: Fs, k: nat, i: int)
    requires Sound(s) && FsShape(t) && Extends(s, t, k) && Allocated(s, i) && i != k
    ensures Allocated(t, i) && t.inodes[i] == s.inodes[i] && InodeOk(t.store, t.inodes[i])
    ensures Owned(t.store, t.inodes[i]) == Owned(s.store, s.inodes[i])
    ensures Content(t.store, t.inodes[i]) == Content(s.store, s.inodes[i])
    ensures s.inodes[i].blockCount >= 1 ==> Listing(t.store, t.inodes[i]) == Listing(s.store, s.inodes[i])
  {
    SameInode(s.store, t.store, s.inodes[i]);
  }

  /** What inode `k` owns after an extension was free before or its own. */
  ghost predicate TakesFree(s: Fs, t: Fs, k: nat)
    requires Sound(s) && FsShape(t) && Allocated(t, k) && InodeShape(t.inodes[k])
  {
    forall b :: b in Owned(t.store, t.inodes[k]) ==>
      b < MAX_BLOCK && (!s.store.used[b] || (Allocated(s, k) && OwnedBy(s, k, b)))
  }

  lemma NotTakenFrom(s: Fs, t: Fs, k: nat, i: int, b: nat)
    requires Sound(s) && FsShape(t) && Extends(s, t, k) && Allocated(t, k)
    requires InodeOk(t.store, t.inodes[k]) && TakesFree(s, t, k)
    requires Allocated(t, i) && i != k
    ensures Allocated(s, i) && InodeOk(t.store, t.inodes[i]) && (OwnedBy(t, i, b) <==> OwnedBy(s, i, b))
    ensures OwnedBy(t, i, b) ==> !OwnedBy(t, k, b)
  {
    OthersUntouched(s, t, k, i);
    assert OwnedBy(t, i, b) ==> b < MAX_BLOCK && s.store.used[b];
    assert OwnedBy(t, i, b) && OwnedBy(t, k, b) ==> Allocated(s, k) && OwnedBy(s, k, b);
  }

  lemma ExtendSound(s: Fs, t: Fs, k: nat)
    requires Sound(s) && FsShape(t) && Extends(s, t, k) && Allocated(t, k)
    requires InodeOk(t.store, t.inodes[k]) && TakesFree(s, t, k)
    ensures Sound(t)
  {
    forall i | Allocated(t, i) ensures InodeOk(t.store, t.inodes[i]) {
      if i != k { NotTakenFrom(s, t, k, i, 0); }
    }
    forall i, j, b | Allocated(t, i) && Allocated(t, j) && OwnedBy(t, i, b) && OwnedBy(t, j, b)
      ensures i == j
    {
      if i != k { NotTakenFrom(s, t, k, i, b); }
      if j != k { NotTakenFrom(s, t, k, j, b); }
    }
    forall b | 0 <= b < METADATA_BLOCKS ensures t.store.used[b] {
      assert s.store.used[b];
    }
  }

  // ----- Operations that rewrite blocks -----

  /** Of the blocks that inodes own, `t` differs from `s` only in what is on data blocks of inode `k`. */
  ghost predicate Rewrites(s: Fs, t: Fs, k: nat)
    requires Sound(s) && Allocated(s, k)
  {
    && t.inodes == s.inodes && t.inodeUsed == s.inodeUsed && t.store.used == s.store.used
    && |t.store.disk| == MAX_BLOCK
    && forall i, b: nat {:trigger OwnedBy(s, i, b)} ::
         Allocated(s, i) && OwnedBy(s, i, b) && b < MAX_BLOCK && t.store.disk[b] != s.store.disk[b] ==>
           i == k && b in DataBlocks(s.store, s.inodes[k])
  }

  /** Writes to data blocks of inode `k` and to metadata are no others' business. */
  lemma DataOnly(s: Fs, t: Fs, k: nat)
    requires Sound(s) && Allocated(s, k) && t.inodes == s.inodes && t.inodeUsed == s.inodeUsed
    requires t.store.used == s.store.used && |t.store.disk| == MAX_BLOCK
    requires forall b: nat :: METADATA_BLOCKS <= b < MAX_BLOCK && t.store.disk[b] != s.store.disk[b] ==>
      b in DataBlocks(s.store, s.inodes[k])
    ensures Rewrites(s, t, k)
  {
    hide DataBlocks;
    forall i, b: nat | Allocated(s, i) && OwnedBy(s, i, b) && b < MAX_BLOCK && t.store.disk[b] != s.store.disk[b]
      ensures i == k && b in DataBlocks(s.store, s.inodes[k])
    {
      assert OwnedBy(s, k, b);
    }
  }

  lemma RewriteKeeps(s: Fs, t: Fs, k: nat, i: int)
    requires Sound(s) && FsShape(t) && Allocated(s, k) && Rewrites(s, t, k) && Allocated(s, i)
    ensures InodeOk(t.store, s.inodes[i]) && Owned(t.store, s.inodes[i]) == Owned(s.store, s.inodes[i])
    ensures DataBlocks(t.store, s.inodes[i]) == DataBlocks(s.store, s.inodes[i])
    ensures i != k ==> Content(t.store, s.inodes[i]) == Content(s.store, s.inodes[i])
    ensures i != k && s.inodes[i].blockCount >= 1 ==> Listing(t.store, s.inodes[i]) == Listing(s.store, s.inodes[i])
  {
    var n := s.inodes[i];
    if i != k {
      forall b | b in Owned(s.store, n) ensures t.store.disk[b] == s.store.disk[b] {
        assert OwnedBy(s, i, b);
      }
      SameInode(s.store, t.store, n);
    } else if n.blockCount > DIRECT_BLOCK {
      var o := Owned(s.store, n);
      assert o[n.blockCount] == n.indirect && o[n.blockCount] in o;
      assert OwnedBy(s, k, n.indirect);
      assert n.indirect !in DataBlocks(s.store, n) by {
        forall j | 0 <= j < n.blockCount ensures DataBlocks(s.store, n)[j] != n.indirect {
          assert o[j] == DataBlocks(s.store, n)[j];
        }
      }
    }
  }

  lemma RewriteSound(s: Fs, t: Fs, k: nat)
    requires Sound(s) && FsShape(t) && Allocated(s, k) && Rewrites(s, t, k)
    ensures Sound(t)
  {
    forall i | Allocated(t, i)
      ensures InodeOk(t.store, t.inodes[i]) && Owned(t.store, t.inodes[i]) == Owned(s.store, s.inodes[i])
    {
      RewriteKeeps(s, t, k, i);
    }
    forall i, j, b | Allocated(t, i) && Allocated(t, j) && OwnedBy(t, i, b) && OwnedBy(t, j, b)
      ensures i == j
    {
      assert OwnedBy(s, i, b) && OwnedBy(s, j, b);
    }
  }
}
