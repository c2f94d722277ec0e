/** Which blocks a short `file_write` reaches, and exactly when it leaves alone what is not its own. A freed
    inode keeps its block numbers, so the entries past a file's blocks can name any block. */
module FsWriteReach {
  import opened Bits
  import opened Codec
  import opened FileSystem
  import opened FsInvariant
  import opened FsContents
  import opened FsWrite
  import opened FsRefinement

  /** The state after a write to inode `k` that ends in the direct blocks. */
  ghost function Written(s: Fs, k: nat, offset: nat, buf: seq<Byte>, junk: Block): Fs
    requires Sound(s) && Allocated(s, k) && BlockOk(junk) && InTables(offset, |buf|)
  {
    s.(store := s.store.(disk := WrittenDisk(s.store, s.inodes[k], offset, buf, junk)))
  }

  // ----- Other inodes -----

  /** What the other inodes own is as it was. */
  ghost predicate OthersKept(s: Fs, t: Fs, k: nat)
    requires Sound(s) && |t.store.disk| == MAX_BLOCK
  {
    forall i, b: nat {:trigger OwnedBy(s, i, b)} ::
      Allocated(s, i) && i != k && OwnedBy(s, i, b) && b < MAX_BLOCK ==> t.store.disk[b] == s.store.disk[b]
  }

  /** Stray entry `j` of inode `k` names a block that another inode owns. */
  ghost predicate Reaches(s: Fs, k: nat, offset: nat, size: nat, j: nat)
    requires Sound(s) && Allocated(s, k)
  {
    && Stray(s.inodes[k], offset, size, j)
    && exists i :: Allocated(s, i) && i != k && OwnedBy(s, i, s.inodes[k].direct[j])
  }

  /** The pieces that reach other inodes' blocks are those blocks as they were. */
  ghost predicate OthersSpared(s: Fs, k: nat, offset: nat, buf: seq<Byte>)
    requires Sound(s) && Allocated(s, k)
  {
    forall j: nat :: Reaches(s, k, offset, |buf|, j) ==>
      Piece(s.store.disk, s.inodes[k], offset, buf, j) == s.store.disk[s.inodes[k].direct[j]]
  }

  lemma OwnEntry(s: Fs, k: nat, j: nat, i: int)
    requires Sound(s) && Allocated(s, k) && j < s.inodes[k].blockCount && j < DIRECT_BLOCK
    requires Allocated(s, i) && OwnedBy(s, i, s.inodes[k].direct[j])
    ensures i == k
  {
    DirectEntry(s.store, s.inodes[k], j);
    assert Owned(s.store, s.inodes[k])[j] == s.inodes[k].direct[j];
    assert OwnedBy(s, k, s.inodes[k].direct[j]);
  }

  /** A block of another inode after the write. */
  lemma OtherBlock(s: Fs, k: nat, offset: nat, buf: seq<Byte>, junk: Block, i: int, b: nat)
    requires Sound(s) && Allocated(s, k) && BlockOk(junk) && EndBlock(offset, |buf|) < DIRECT_BLOCK
    requires InTables(offset, |buf|)
    requires Allocated(s, i) && i != k && OwnedBy(s, i, b) && b < MAX_BLOCK && OthersSpared(s, k, offset, buf)
    ensures WrittenDisk(s.store, s.inodes[k], offset, buf, junk)[b] == s.store.disk[b]
  {
    var n := s.inodes[k];
    if l: nat :| StartBlock(offset) <= l <= EndBlock(offset, |buf|) && n.direct[l] == b {
      var j := LastOf(n, offset, |buf|, l);
      hide WrittenDisk, InTables, Piece, InodeOk, Owned;
      WrittenLast(s.store, n, offset, buf, junk, j);
      if j < n.blockCount { OwnEntry(s, k, j, i); }
      assert Reaches(s, k, offset, |buf|, j);
    } else {
      WrittenElse(s.store, n, offset, buf, junk, b);
    }
  }

  lemma KeptIsSpared(s: Fs, k: nat, offset: nat, buf: seq<Byte>, junk: Block, j: nat)
    requires Sound(s) && Allocated(s, k) && BlockOk(junk) && EndBlock(offset, |buf|) < DIRECT_BLOCK
    requires InTables(offset, |buf|)
    requires OthersKept(s, Written(s, k, offset, buf, junk), k) && Reaches(s, k, offset, |buf|, j)
    ensures Piece(s.store.disk, s.inodes[k], offset, buf, j) == s.store.disk[s.inodes[k].direct[j]]
  {
    var i :| Allocated(s, i) && i != k && OwnedBy(s, i, s.inodes[k].direct[j]);
    WrittenLast(s.store, s.inodes[k], offset, buf, junk, j);
    hide WrittenDisk, InTables, Piece, InodeOk, Owned;
  }

  /** A short write leaves every block of every other file and directory as it was exactly when, for each
      entry past the inode's own blocks that is the last in the range to name the block of another inode,
      the piece for it is that block. */
  lemma OthersKeptExactly(s: Fs, k: nat, offset: nat, buf: seq<Byte>, junk: Block)
    requires Sound(s) && Allocated(s, k) && BlockOk(junk) && EndBlock(offset, |buf|) < DIRECT_BLOCK
    requires InTables(offset, |buf|)
    ensures OthersKept(s, Written(s, k, offset, buf, junk), k) <==> OthersSpared(s, k, offset, buf)
  {
    if OthersSpared(s, k, offset, buf) {
      forall i, b: nat | Allocated(s, i) && i != k && OwnedBy(s, i, b) && b < MAX_BLOCK
        ensures Written(s, k, offset, buf, junk).store.disk[b] == s.store.disk[b]
      {
        OtherBlock(s, k, offset, buf, junk, i, b);
      }
    }
    if OthersKept(s, Written(s, k, offset, buf, junk), k) {
      forall j: nat | Reaches(s, k, offset, |buf|, j)
        ensures Piece(s.store.disk, s.inodes[k], offset, buf, j) == s.store.disk[s.inodes[k].direct[j]]
      {
        KeptIsSpared(s, k, offset, buf, junk, j);
      }
    }
  }

  /** Some byte of the range lies in block `j`. */
  predicate Covers(offset: nat, size: nat, j: nat) {
    size > 0 && BLOCK_SIZE * j < offset + size && offset < BLOCK_SIZE * (j + 1)
  }

  lemma NotCovered(d: seq<Block>, n: Inode, offset: nat, buf: seq<Byte>, j: nat)
    requires |d| == MAX_BLOCK && DiskOk(d) && InodeFits(n) && j < DIRECT_BLOCK && !Covers(offset, |buf|, j)
    ensures Piece(d, n, offset, buf, j) == d[n.direct[j]]
  {
    assert BlockOk(d[n.direct[j]]);
  }

  /** A buffer whose bytes all differ from what block `j` holds where the range meets it. */
  lemma SomeBufferShows(d: seq<Block>, n: Inode, offset: nat, size: nat, j: nat) returns (buf: seq<Byte>)
    requires |d| == MAX_BLOCK && DiskOk(d) && InodeFits(n) && j < DIRECT_BLOCK && Covers(offset, size, j)
    ensures |buf| == size && Piece(d, n, offset, buf, j) != d[n.direct[j]]
  {
    assert BlockOk(d[n.direct[j]]);
    var p := if offset <= BLOCK_SIZE * j then BLOCK_SIZE * j else offset;
    var q := p - BLOCK_SIZE * j;
    var x: Byte := if d[n.direct[j]][q] == 0 then 1 else 0;
    buf := seq(size, i => x);
    PieceIn(d, n, offset, buf, j, q);
  }

  /** Whatever the buffer of that size, the others' blocks are kept exactly when no such entry has a byte of
      the range in its block. */
  lemma OthersKeptForAll(s: Fs, k: nat, offset: nat, size: nat, junk: Block)
    requires Sound(s) && Allocated(s, k) && BlockOk(junk) && EndBlock(offset, size) < DIRECT_BLOCK
    requires InTables(offset, size)
    ensures (forall buf: seq<Byte> :: |buf| == size ==> OthersKept(s, Written(s, k, offset, buf, junk), k)) <==>
            (forall j: nat :: Reaches(s, k, offset, size, j) ==> !Covers(offset, size, j))
  {
    FitsOf(s.store, s.inodes[k]);
    if forall j: nat :: Reaches(s, k, offset, size, j) ==> !Covers(offset, size, j) {
      forall buf: seq<Byte> | |buf| == size ensures OthersKept(s, Written(s, k, offset, buf, junk), k) {
        forall j: nat | Reaches(s, k, offset, |buf|, j)
          ensures Piece(s.store.disk, s.inodes[k], offset, buf, j) == s.store.disk[s.inodes[k].direct[j]]
        {
          NotCovered(s.store.disk, s.inodes[k], offset, buf, j);
        }
        OthersKeptExactly(s, k, offset, buf, junk);
      }
    }
    if forall buf: seq<Byte> :: |buf| == size ==> OthersKept(s, Written(s, k, offset, buf, junk), k) {
      forall j: nat | Reaches(s, k, offset, size, j) ensures !Covers(offset, size, j) {
        if Covers(offset, size, j) {
          var buf := SomeBufferShows(s.store.disk, s.inodes[k], offset, size, j);
          assert OthersKept(s, Written(s, k, offset, buf, junk), k);
          OthersKeptExactly(s, k, offset, buf, junk);
        }
      }
    }
  }

  // ----- Listings -----

  /** Every listing on the disk that counts reads as before; the current one is in memory. */
  ghost predicate ListingsKept(s: Fs, t: Fs)
    requires Sound(s) && StoreOk(t.store)
  {
    forall d: nat {:trigger IsDir(s, d)} :: IsDir(s, d) && d != Cwd(s) ==>
      Listing(t.store, s.inodes[d]) == Listing(s.store, s.inodes[d])
  }

  /** Entry `j` brings the last piece that goes to the block of directory `d`. */
  ghost predicate LandsOn(s: Fs, k: nat, offset: nat, size: nat, d: nat, j: nat)
    requires Sound(s) && Allocated(s, k) && Allocated(s, d)
  {
    LastNaming(s.inodes[k], offset, size, j) && s.inodes[d].direct[0] == s.inodes[k].direct[j]
  }

  /** The last piece written to a directory's block decodes to the listing that was there. */
  ghost predicate ListingsSpared(s: Fs, k: nat, offset: nat, buf: seq<Byte>)
    requires Sound(s) && Allocated(s, k)
  {
    forall d: nat, j: nat :: IsDir(s, d) && d != Cwd(s) && LandsOn(s, k, offset, |buf|, d, j) ==>
      DecDir(Piece(s.store.disk, s.inodes[k], offset, buf, j)) == Listing(s.store, s.inodes[d])
  }

  lemma OneListing(s: Fs, k: nat, offset: nat, buf: seq<Byte>, junk: Block, d: nat)
    requires Sound(s) && Allocated(s, k) && BlockOk(junk) && EndBlock(offset, |buf|) < DIRECT_BLOCK
    requires InTables(offset, |buf|) && IsDir(s, d) && StoreOk(Written(s, k, offset, buf, junk).store)
    ensures var t := Written(s, k, offset, buf, junk);
      && (forall j: nat :: LandsOn(s, k, offset, |buf|, d, j) ==>
            Listing(t.store, s.inodes[d]) == DecDir(Piece(s.store.disk, s.inodes[k], offset, buf, j)))
      && ((forall j: nat :: !LandsOn(s, k, offset, |buf|, d, j)) ==>
            Listing(t.store, s.inodes[d]) == Listing(s.store, s.inodes[d]))
  {
    var n, b := s.inodes[k], s.inodes[d].direct[0];
    if l: nat :| StartBlock(offset) <= l <= EndBlock(offset, |buf|) && n.direct[l] == b {
      var j := LastOf(n, offset, |buf|, l);
      WrittenLast(s.store, n, offset, buf, junk, j);
      hide WrittenDisk, InTables, Piece, InodeOk, DecDir;
      assert LandsOn(s, k, offset, |buf|, d, j);
      assert forall i: nat :: LastNaming(n, offset, |buf|, i) && n.direct[i] == n.direct[j] ==> i == j;
    } else {
      WrittenElse(s.store, n, offset, buf, junk, b);
    }
  }

  /** A short write leaves the listings alone exactly when every directory but the current one whose block
      the range names still decodes to its listing from the last piece written there. */
  lemma ListingsKeptExactly(s: Fs, k: nat, offset: nat, buf: seq<Byte>, junk: Block)
    requires Sound(s) && Allocated(s, k) && BlockOk(junk) && EndBlock(offset, |buf|) < DIRECT_BLOCK
    requires InTables(offset, |buf|)
    ensures StoreOk(Written(s, k, offset, buf, junk).store)
    ensures ListingsKept(s, Written(s, k, offset, buf, junk)) <==> ListingsSpared(s, k, offset, buf)
  {
    FitsOf(s.store, s.inodes[k]);
    WrittenShape(s.store, s.inodes[k], offset, buf, junk);
    var t := Written(s, k, offset, buf, junk);
    forall d: nat | IsDir(s, d)
      ensures forall j: nat :: LandsOn(s, k, offset, |buf|, d, j) ==>
        Listing(t.store, s.inodes[d]) == DecDir(Piece(s.store.disk, s.inodes[k], offset, buf, j))
      ensures (forall j: nat :: !LandsOn(s, k, offset, |buf|, d, j)) ==>
        Listing(t.store, s.inodes[d]) == Listing(s.store, s.inodes[d])
    {
      OneListing(s, k, offset, buf, junk, d);
    }
    hide Written, Listing, Piece, DecDir, LandsOn, InodeOk, InTables;
  }

  // ----- The write as it is meant -----

  /** No stray entry brings anything out of place, to the inode's own blocks or to another's. */
  ghost predicate Home(s: Fs, k: nat, offset: nat, buf: seq<Byte>)
    requires Sound(s) && Allocated(s, k)
  {
    OwnInOrder(s.store.disk, s.inodes[k], offset, buf) && OthersSpared(s, k, offset, buf)
  }

  /** Without stray entries, or while they are all 0, nothing is out of place. */
  lemma ContainedIsHome(s: Fs, k: nat, offset: nat, buf: seq<Byte>)
    requires Sound(s) && Allocated(s, k) && EndBlock(offset, |buf|) < DIRECT_BLOCK
    requires EndBlock(offset, |buf|) < s.inodes[k].blockCount || ZeroTail(s.inodes[k])
    ensures Home(s, k, offset, buf)
  {
    var n := s.inodes[k];
    FitsOf(s.store, n);
    hide Piece;
    forall i: nat, j: nat | i < n.blockCount && Stray(n, offset, |buf|, j) ensures n.direct[i] != n.direct[j] {
      DirectEntry(s.store, n, i);
    }
    forall j: nat, i | Stray(n, offset, |buf|, j) && Allocated(s, i) ensures !OwnedBy(s, i, n.direct[j]) {
      assert n.direct[j] == 0;
      NotZero(s, i);
    }
  }

  lemma NotZero(s: Fs, i: int)
    requires Sound(s) && Allocated(s, i)
    ensures !OwnedBy(s, i, 0)
  {
  }

  /** A short write does what it is meant to do, and no more, exactly when nothing is out of place: the file
      holds the buffer in its range, as far as the file goes, and its old bytes elsewhere, and no block of
      another inode changes. */
  lemma WrittenExactly(s: Fs, k: nat, offset: nat, buf: seq<Byte>, junk: Block)
    requires Sound(s) && Allocated(s, k) && BlockOk(junk) && EndBlock(offset, |buf|) < DIRECT_BLOCK
    requires InTables(offset, |buf|)
    ensures var t := Written(s, k, offset, buf, junk);
      && FsShape(t) && InodeOk(t.store, s.inodes[k])
      && (Home(s, k, offset, buf) <==>
            && OthersKept(s, t, k)
            && Content(t.store, s.inodes[k]) == Overlaid(Content(s.store, s.inodes[k]), offset, buf))
  {
    WrittenShape(s.store, s.inodes[k], offset, buf, junk);
    OverlaidExactly(s.store, Written(s, k, offset, buf, junk).store, s.inodes[k], offset, buf, junk);
    OthersKeptExactly(s, k, offset, buf, junk);
    hide WrittenDisk, OthersKept, OthersSpared, OwnInOrder, Content, Overlaid, InodeOk, EntriesOk, CountFree;
  }

  /** And then ownership stays exclusive. */
  lemma DirectWrite(s: Fs, k: nat, offset: nat, buf: seq<Byte>, junk: Block)
    requires Sound(s) && Allocated(s, k) && EndBlock(offset, |buf|) < DIRECT_BLOCK && BlockOk(junk)
    requires Home(s, k, offset, buf)
    ensures InTables(offset, |buf|)
    ensures var t := Written(s, k, offset, buf, junk);
      && FsShape(t) && Rewrites(s, t, k) && Sound(t)
      && Content(t.store, t.inodes[k]) == Overlaid(Content(s.store, s.inodes[k]), offset, buf)
  {
    hide Home, Content, Overlaid, WrittenDisk;
    WrittenExactly(s, k, offset, buf, junk);
    var t := Written(s, k, offset, buf, junk);
    OwnChanges(s, k, offset, buf, junk);
    RewriteSound(s, t, k);
  }

  lemma OwnChanges(s: Fs, k: nat, offset: nat, buf: seq<Byte>, junk: Block)
    requires Sound(s) && Allocated(s, k) && BlockOk(junk) && EndBlock(offset, |buf|) < DIRECT_BLOCK
    requires InTables(offset, |buf|)
    requires OthersKept(s, Written(s, k, offset, buf, junk), k)
    ensures Rewrites(s, Written(s, k, offset, buf, junk), k)
  {
    var t, n := Written(s, k, offset, buf, junk), s.inodes[k];
    OwnFrame(s.store, t.store, n, offset, buf, junk);
    hide WrittenDisk;
    forall b: nat | OwnedBy(s, k, b) && b < MAX_BLOCK && t.store.disk[b] != s.store.disk[b]
      ensures b in DataBlocks(s.store, n)
    {
    }
  }
}
