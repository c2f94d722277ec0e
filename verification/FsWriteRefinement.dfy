/** `file_write` on blocks does what `Write` does on the tree; and what it does to a directory. */
module FsWriteRefinement {
  import opened Bits
  import opened Codec
  import opened FileSystem
  import opened FsInvariant
  import opened FsContents
  import opened FsTree
  import opened FsWrite
  import opened FsRefinement
  import opened FsWriteReach
  import opened FsDirectories

  // ----- Files -----

  lemma RewrittenInode(s: Fs, t: Fs, k: nat, i: nat)
    requires Sound(s) && Sound(t) && IsFile(s, k) && Rewrites(s, t, k) && t.cur == s.cur && Allocated(s, i)
    ensures IsDir(s, i) ==> IsDir(t, i) && ListingOf(t, i) == ListingOf(s, i)
    ensures IsFile(s, i) ==> IsFile(t, i) && (i != k ==> FileOf(t, i) == FileOf(s, i))
  {
    RewriteKeeps(s, t, k, i);
    hide Sound, Listing, Content, EntriesOk, InodeOk, Owned, DataBlocks;
  }

  lemma RewrittenKept(s: Fs, t: Fs, k: nat, i: nat)
    requires Sound(s) && Sound(t) && IsFile(s, k) && Rewrites(s, t, k) && t.cur == s.cur && i < MAX_INODE && i != k
    ensures Kept(s, t, i)
  {
    assert IsDir(s, i) <==> IsDir(t, i);
    assert IsFile(s, i) <==> IsFile(t, i);
    if Allocated(s, i) { RewrittenInode(s, t, k, i); }
    hide Sound, ListingOf, FileOf;
  }

  /** A rewritten file is the only difference in the tree. */
  lemma RewrittenTree(s: Fs, t: Fs, k: nat)
    requires Sound(s) && Sound(t) && IsFile(s, k) && IsDir(s, Cwd(s))
    requires Rewrites(s, t, k) && t.cur == s.cur && k < MAX_INODE
    ensures IsFile(t, k) && DirsOf(t) == DirsOf(s) && FilesOf(t) == FilesOf(s)[k := FileOf(t, k)]
  {
    assert IsFile(t, k) && k != Cwd(s);
    hide Sound, Rewrites, Kept, ListingOf, FileOf, DirsOf, FilesOf;
    forall i: nat | i < MAX_INODE && i != k ensures Kept(s, t, i) {
      RewrittenKept(s, t, k, i);
    }
    FilesKept(s, t, k);
    DirsKept(s, t, k);
    SameHere(s);
  }

  /** A write to a file that ends in the direct blocks. */
  lemma ShortWrite(s: Fs, name: Name, offset: nat, buf: seq<Byte>, junk: Block)
    requires Inv(s) && BlockOk(junk) && 0 <= Find(s.cur, name) < MAX_INODE && IsFile(s, Find(s.cur, name))
    requires EndBlock(offset, |buf|) < DIRECT_BLOCK && Home(s, Find(s.cur, name), offset, buf)
    ensures var (r, t) := FileWrite(s, name, offset, |buf|, buf, junk);
      Sound(t) && (r, Abs(t)) == Write(Abs(s), name, offset, |buf|, buf)
  {
    var k := Find(s.cur, name);
    var t := FileWrite(s, name, offset, |buf|, buf, junk).1;
    HereIsCur(s);
    DirectWrite(s, k, offset, buf, junk);
    ShortIs(s, name, offset, buf, junk);
    hide Sound, Rewrites, Overlaid, FileWrite, WrittenDisk, Content, TreeOk, Home;
    RewrittenTree(s, t, k);
  }

  lemma ShortIs(s: Fs, name: Name, offset: nat, buf: seq<Byte>, junk: Block)
    requires Sound(s) && BlockOk(junk) && Allocated(s, Find(s.cur, name)) && EndBlock(offset, |buf|) < DIRECT_BLOCK
    ensures FileWrite(s, name, offset, |buf|, buf, junk) == (Done, Written(s, Find(s.cur, name), offset, buf, junk))
  {
    hide Touched, Gather, Scatter, Overlaid;
  }

  // ----- Directories -----

  /** Rewriting the current directory's block changes nothing a user sees: its listing is in memory. */
  lemma HereRewritten(s: Fs, t: Fs)
    requires Sound(s) && Sound(t) && IsDir(s, Cwd(s)) && Rewrites(s, t, Cwd(s)) && t.cur == s.cur
    ensures t.store.free == s.store.free && Abs(t) == Abs(s)
  {
    assert t.store.free == s.store.free;
    hide Sound, ListingOf, FileOf;
    forall i: nat | Allocated(s, i)
      ensures IsDir(s, i) ==> IsDir(t, i) && ListingOf(t, i) == ListingOf(s, i)
      ensures IsFile(s, i) ==> IsFile(t, i) && FileOf(t, i) == FileOf(s, i)
    {
      HereRewrittenInode(s, t, i);
    }
    SameReading(s, t);
  }

  lemma HereRewrittenInode(s: Fs, t: Fs, i: nat)
    requires Sound(s) && Sound(t) && IsDir(s, Cwd(s)) && Rewrites(s, t, Cwd(s)) && t.cur == s.cur && Allocated(s, i)
    ensures IsDir(s, i) ==> IsDir(t, i) && ListingOf(t, i) == ListingOf(s, i)
    ensures IsFile(s, i) ==> IsFile(t, i) && FileOf(t, i) == FileOf(s, i)
  {
    RewriteKeeps(s, t, Cwd(s), i);
    hide Sound, Listing, Content, EntriesOk, InodeOk, Owned, DataBlocks;
  }

  lemma DirContent(s: Fs, k: nat)
    requires Sound(s) && IsDir(s, k)
    ensures |Content(s.store, s.inodes[k])| == BLOCK_SIZE
    ensures Listing(s.store, s.inodes[k]) == DecDir(Content(s.store, s.inodes[k]))
  {
    var n := s.inodes[k];
    hide DecDir;
    ContentLength(s.store, n);
    assert DataBlocks(s.store, n) == [n.direct[0]];
    assert Content(s.store, n) == s.store.disk[n.direct[0]];
  }

  /** `file_write` never looks at the type of the inode. A short write to a directory's name goes over
      its listing, reports success and keeps every block where it is; the tree stays the same exactly
      when the directory is the current one, whose listing is in memory, or when the block still says
      what it said. */
  lemma DirectoryWrite(s: Fs, name: Name, offset: nat, buf: seq<Byte>, junk: Block)
    requires Inv(s) && BlockOk(junk) && Find(s.cur, name) in Abs(s).dirs
    requires EndBlock(offset, |buf|) < DIRECT_BLOCK && Home(s, Find(s.cur, name), offset, buf)
    ensures var k := Find(s.cur, name); var (r, t) := FileWrite(s, name, offset, |buf|, buf, junk);
      var block := Content(s.store, s.inodes[k]);
      && r == Done && Sound(t) && |block| == BLOCK_SIZE && IsDir(t, k)
      && Listing(t.store, t.inodes[k]) == DecDir(Overlaid(block, offset, buf))
      && (Abs(t) == Abs(s) <==> k == Cwd(s) || DecDir(Overlaid(block, offset, buf)) == DecDir(block))
  {
    hide TreeOk, DecDir, Overlaid, WrittenDisk, FileWrite, DirsOf, FilesOf, ListingOf, FileOf, Home;
    InvFacts(s);
    var k := Find(s.cur, name);
    var t := FileWrite(s, name, offset, |buf|, buf, junk).1;
    DirFound(s, k);
    DirectWrite(s, k, offset, buf, junk);
    ShortIs(s, name, offset, buf, junk);
    DirContent(s, k);
    DirContent(t, k);
    DirRewritten(s, t, k);
  }

  lemma DirFound(s: Fs, k: int)
    requires Inv(s) && k in Abs(s).dirs
    ensures IsDir(s, k) && IsDir(s, Cwd(s)) && k < MAX_INODE
  {
    HereIsCur(s);
  }

  /** A rewritten directory, and the tree. */
  lemma DirRewritten(s: Fs, t: Fs, k: nat)
    requires Sound(s) && Sound(t) && IsDir(s, k) && IsDir(s, Cwd(s)) && Rewrites(s, t, k) && t.cur == s.cur
    ensures IsDir(t, k)
    ensures Abs(t) == Abs(s) <==> k == Cwd(s) || Listing(t.store, t.inodes[k]) == Listing(s.store, s.inodes[k])
  {
    if k == Cwd(s) {
      HereRewritten(s, t);
    } else {
      OtherRewritten(s, t, k);
    }
  }

  lemma OtherRewritten(s: Fs, t: Fs, k: nat)
    requires Sound(s) && Sound(t) && IsDir(s, k) && k != Cwd(s) && Rewrites(s, t, k) && t.cur == s.cur
    ensures IsDir(t, k)
    ensures Abs(t) == Abs(s) <==> Listing(t.store, t.inodes[k]) == Listing(s.store, s.inodes[k])
  {
    InDirs(s, k);
    InDirs(t, k);
    assert t.store.free == s.store.free && Cwd(t) == Cwd(s);
    hide Sound, Listing, Content, FileOf;
    if Listing(t.store, t.inodes[k]) == Listing(s.store, s.inodes[k]) {
      forall i: nat | Allocated(s, i)
        ensures IsDir(s, i) ==> IsDir(t, i) && ListingOf(t, i) == ListingOf(s, i)
        ensures IsFile(s, i) ==> IsFile(t, i) && FileOf(t, i) == FileOf(s, i)
      {
        OtherRewrittenInode(s, t, k, i);
      }
      SameReading(s, t);
    }
  }

  lemma OtherRewrittenInode(s: Fs, t: Fs, k: nat, i: nat)
    requires Sound(s) && Sound(t) && IsDir(s, k) && k != Cwd(s) && Rewrites(s, t, k) && t.cur == s.cur
    requires Allocated(s, i)
    requires Listing(t.store, t.inodes[k]) == Listing(s.store, s.inodes[k])
    ensures IsDir(s, i) ==> IsDir(t, i) && ListingOf(t, i) == ListingOf(s, i)
    ensures IsFile(s, i) ==> IsFile(t, i) && FileOf(t, i) == FileOf(s, i)
  {
    RewriteKeeps(s, t, k, i);
    hide Sound, Listing, Content, EntriesOk, InodeOk, Owned, DataBlocks;
  }

  /** What a short write must keep: everything at home, and what another directory's block says. */
  ghost predicate Proper(s: Fs, name: Name, offset: nat, size: nat, buf: seq<Byte>)
    requires Sound(s)
  {
    var k := Find(s.cur, name);
    k >= 0 && size == |buf| && EndBlock(offset, size) < DIRECT_BLOCK ==>
      && Allocated(s, k) && Home(s, k, offset, buf)
      && (IsDir(s, k) && k != Cwd(s) ==>
            (DirContent(s, k);
             DecDir(Overlaid(Content(s.store, s.inodes[k]), offset, buf)) == Listing(s.store, s.inodes[k])))
  }

  /** A write that leaves the tree alone: to a directory that goes on saying the same. */
  lemma WriteSame(s: Fs, name: Name, offset: nat, buf: seq<Byte>, junk: Block)
    requires Inv(s) && BlockOk(junk) && Find(s.cur, name) in Abs(s).dirs && Proper(s, name, offset, |buf|, buf)
    requires EndBlock(offset, |buf|) < DIRECT_BLOCK
    ensures var (r, t) := FileWrite(s, name, offset, |buf|, buf, junk);
      Sound(t) && (r, Abs(t)) == (Done, Abs(s))
  {
    hide DecDir, Overlaid, FileWrite, TreeOk, Home;
    DirFound(s, Find(s.cur, name));
    DirContent(s, Find(s.cur, name));
    DirectoryWrite(s, name, offset, buf, junk);
  }

  /** `file_write` on any name, as long as it is proper. */
  lemma WriteRefines(s: Fs, name: Name, offset: nat, size: nat, buf: seq<Byte>, junk: Block)
    requires Inv(s) && BlockOk(junk) && Here(Abs(s)) == s.cur && Proper(s, name, offset, size, buf)
    requires Find(s.cur, name) >= 0 ==> InTables(offset, size) && Find(s.cur, name) < MAX_INODE
    ensures var (r, t) := FileWrite(s, name, offset, size, buf, junk);
      Inv(t) && (r, Abs(t)) == Write(Abs(s), name, offset, size, buf)
  {
    WriteKeepsTree(Abs(s), name, offset, size, buf);
    HereIsCur(s);
    if Find(s.cur, name) >= 0 {
      FileFound(s, name);
      if size == |buf| {
        if EndBlock(offset, size) >= DIRECT_BLOCK {
          LongWrite(s, name, offset, buf, junk);
        } else if IsFile(s, Find(s.cur, name)) {
          ShortWrite(s, name, offset, buf, junk);
        } else {
          WriteSame(s, name, offset, buf, junk);
        }
      }
    }
  }

  ghost predicate EndsWithin(s: Fs, name: Name, offset: nat, size: nat, buf: seq<Byte>) {
    0 <= Find(s.cur, name) < |s.inodes| && size == |buf| && EndBlock(offset, size) < DIRECT_BLOCK ==>
      EndBlock(offset, size) < s.inodes[Find(s.cur, name)].blockCount
  }

  /** A write is proper if nothing has been removed, or it ends inside, and it does not go over the listing
      of another directory. */
  lemma WritableIsProper(s: Fs, name: Name, offset: nat, size: nat, buf: seq<Byte>)
    requires Inv(s) && Here(Abs(s)) == s.cur && Writable(Abs(s), name, offset, size, buf)
    requires Tidy(s) || EndsWithin(s, name, offset, size, buf)
    ensures Proper(s, name, offset, size, buf)
  {
    var k := Find(s.cur, name);
    if k >= 0 && size == |buf| && EndBlock(offset, size) < DIRECT_BLOCK {
      FileFound(s, name);
      hide TreeOk, Home, DecDir;
      assert Allocated(s, k);
      ContainedIsHome(s, k, offset, buf);
    }
  }
}
