/** `dir_make` and `dir_change` on blocks do what they do on the tree: the current listing is a
    write-back cache over the listings on the disk. */
module FsDirectories {
  import opened Bits
  import opened Codec
  import opened FileSystem
  import opened FsInvariant
  import opened FsTree
  import opened FsWrite
  import opened FsCreate
  import opened FsRefinement

  // ----- dir_make -----

  /** The inode of a new directory. */
  lemma MadeInode(s: Fs, k: nat, st: Store, b: nat)
    requires Sound(s) && k < MAX_INODE && !s.inodeUsed[k] && StoreOk(st)
    requires b < MAX_BLOCK && !s.store.used[b] && st.used[b]
    requires st.disk[b] == EncDir([Entry(DOT, k), Entry(DOTDOT, Cwd(s))])
    ensures var n := Inode(Directory, 1, 1, s.inodes[k].direct[0 := b], s.inodes[k].indirect);
      && InodeOk(st, n) && Owned(st, n) == [b]
      && Listing(st, n) == [Entry(DOT, k), Entry(DOTDOT, Cwd(s))]
  {
    hide Sound, EncDir, DecDir, EntriesOk, InodeOk, Owned, StoreOk;
    FitsAt(s, k);
    NotMetadata(s, b);
    MadeListing(s, k);
    DirRoundTrip([Entry(DOT, k), Entry(DOTDOT, Cwd(s))]);
    OneBlock(st, Inode(Directory, 1, 1, s.inodes[k].direct[0 := b], s.inodes[k].indirect), b);
  }

  lemma SoundShape(s: Fs)
    requires Sound(s)
    ensures FsShape(s) && StoreOk(s.store)
  {
  }

  lemma InodeShapes(st: Store, n: Inode)
    requires StoreOk(st) && InodeOk(st, n)
    ensures InodeShape(n)
  {
  }

  lemma OneBlock(st: Store, n: Inode, b: nat)
    requires StoreOk(st) && InodeFits(n) && n.kind == Directory && n.blockCount == 1 && n.direct[0] == b
    requires METADATA_BLOCKS <= b < MAX_BLOCK && st.used[b]
    ensures InodeOk(st, n) && Owned(st, n) == [b]
  {
    assert Owned(st, n) == [b];
  }

  lemma MadeListing(s: Fs, k: nat)
    requires FsShape(s) && k < MAX_INODE
    ensures EntriesOk([Entry(DOT, k), Entry(DOTDOT, Cwd(s))])
  {
    hide StoreOk;
  }

  lemma NotMetadata(s: Fs, b: nat)
    requires Sound(s) && b < MAX_BLOCK && !s.store.used[b]
    ensures METADATA_BLOCKS <= b && FsShape(s)
  {
    hide InodeOk;
  }

  /** What `dir_make` leaves, written out. */
  lemma MakeIs(s: Fs, name: Name)
    requires FsShape(s) && NameOk(name) && Find(s.cur, name) < 0
    requires !DirFull(s.cur) && s.freeInodes >= 1 && s.store.free >= 1
    ensures var (r, t) := DirMake(s, name); var k := LowestFree(s.inodeUsed); var (b, st) := TakeBlock(s.store);
      var sub := [Entry(DOT, k), Entry(DOTDOT, Cwd(s))];
      && r == 0 && k < MAX_INODE && !s.inodeUsed[k] && EntriesOk(sub) && StoreOk(t.store)
      && t.store == Put(st, b, EncDir(sub))
      && t.inodeUsed == s.inodeUsed[k := true] && t.freeInodes == s.freeInodes - 1 && t.cur == s.cur + [Entry(name, k)]
      && t.scratch == s.scratch
      && t.inodes == s.inodes[k := Inode(Directory, 1, 1, s.inodes[k].direct[0 := b], s.inodes[k].indirect)]
  {
    FreeExists(s.inodeUsed);
    hide TakeBlock, CountFree, EncDir;
  }

  lemma MakeShape(s: Fs, name: Name)
    requires Sound(s) && NameOk(name) && Find(s.cur, name) < 0
    requires !DirFull(s.cur) && s.freeInodes >= 1 && s.store.free >= 1
    ensures var t, k := DirMake(s, name).1, LowestFree(s.inodeUsed);
      && k < MAX_INODE && !s.inodeUsed[k] && FsShape(t) && Extends(s, t, k)
  {
    MakeIs(s, name);
    CountFreeUpdate(s.inodeUsed, LowestFree(s.inodeUsed), true);
    hide DirMake, TakeBlock, EncDir, CountFree, StoreOk, InodeOk;
  }

  /** A new directory takes the lowest free inode and block, and names itself and its parent. */
  lemma MakeEffect(s: Fs, name: Name)
    requires Sound(s) && NameOk(name) && Find(s.cur, name) < 0
    requires !DirFull(s.cur) && s.freeInodes >= 1 && s.store.free >= 1
    ensures var (r, t) := DirMake(s, name); var k := LowestFree(s.inodeUsed);
      && r == 0 && k < MAX_INODE && !s.inodeUsed[k] && Sound(t) && Extends(s, t, k) && Allocated(t, k)
      && t.inodes[k].kind == Directory && t.cur == s.cur + [Entry(name, k)] && t.store.free == s.store.free - 1
      && Listing(t.store, t.inodes[k]) == [Entry(DOT, k), Entry(DOTDOT, Cwd(s))]
  {
    hide DirMake, TakeBlock, EncDir, Listing, InodeOk, Owned, Extends, Sound, EntriesOk, CountFree;
    SoundShape(s);
    MakeIs(s, name);
    MakeShape(s, name);
    var t, k := DirMake(s, name).1, LowestFree(s.inodeUsed);
    MadeInode(s, k, t.store, TakeBlock(s.store).0);
    InodeShapes(t.store, t.inodes[k]);
    ExtendSound(s, t, k);
  }

  lemma MadeTree(s: Fs, name: Name, k: nat, t: Fs)
    requires Inv(s) && Sound(t) && Extends(s, t, k) && Allocated(t, k)
    requires !s.inodeUsed[k] && t.inodes[k].kind == Directory
    requires t.cur == s.cur + [Entry(name, k)] && t.store.free == s.store.free - 1
    requires Listing(t.store, t.inodes[k]) == [Entry(DOT, k), Entry(DOTDOT, Cwd(s))]
    ensures var a := Abs(s);
      Abs(t) == a.(dirs := WithEntry(a, name, k)[k := [Entry(DOT, k), Entry(DOTDOT, a.cwd)]],
        freeBlocks := a.freeBlocks - 1)
  {
    HereIsCur(s);
    hide Extends, ListingOk, Listing, TreeOk;
    TreeExtends(s, t, k);
  }

  lemma MakeRefines(s: Fs, name: Name)
    requires Inv(s) && NameOk(name)
    ensures var (r, t) := DirMake(s, name);
      Inv(t) && (r, Abs(t)) == MakeDir(Abs(s), name)
  {
    MakeKeepsTree(Abs(s), name);
    TakenIsUsed(s);
    HereIsCur(s);
    if CanCreate(Abs(s), name, 1) {
      MakeEffect(s, name);
      MadeTree(s, name, LowestFree(s.inodeUsed), DirMake(s, name).1);
    }
  }

  // ----- dir_change -----

  /** The current directory's block holds what is in memory. */
  ghost predicate Clean(s: Fs)
    requires Sound(s)
  {
    forall i :: IsDir(s, i) ==> Listing(s.store, s.inodes[i]) == ListingOf(s, i)
  }

  /** The state once the current listing is written back. */
  function Saved(s: Fs): Fs
    requires FsShape(s)
  {
    s.(store := Put(s.store, s.inodes[Cwd(s)].direct[0], EncDir(s.cur)))
  }

  lemma SavedRewrites(s: Fs)
    requires Sound(s) && IsDir(s, Cwd(s))
    ensures var t := Saved(s);
      Sound(t) && Rewrites(s, t, Cwd(s)) && Listing(t.store, t.inodes[Cwd(s)]) == s.cur
  {
    hide EncDir, DecDir;
    DirectEntry(s.store, s.inodes[Cwd(s)], 0);
    DirRoundTrip(s.cur);
    var t := Saved(s);
    assert DataBlocks(s.store, s.inodes[Cwd(s)])[0] == s.inodes[Cwd(s)].direct[0];
    DataOnly(s, t, Cwd(s));
    RewriteSound(s, t, Cwd(s));
  }

  /** States with the same inodes have the same tree, up to where they are, if every inode reads the same. */
  lemma SameReading(s: Fs, t: Fs)
    requires Sound(s) && Sound(t) && t.inodes == s.inodes && t.inodeUsed == s.inodeUsed
    requires forall i: nat {:trigger IsDir(s, i)} :: IsDir(s, i) ==> IsDir(t, i) && ListingOf(t, i) == ListingOf(s, i)
    requires forall i: nat {:trigger IsFile(s, i)} :: IsFile(s, i) ==> IsFile(t, i) && FileOf(t, i) == FileOf(s, i)
    ensures DirsOf(t) == DirsOf(s) && FilesOf(t) == FilesOf(s)
  {
    hide *;
    SameKinds(s, t);
  }

  lemma SameKinds(s: Fs, t: Fs)
    requires Sound(s) && Sound(t) && t.inodes == s.inodes && t.inodeUsed == s.inodeUsed
    ensures FsShape(s) && FsShape(t)
    ensures forall i: nat {:trigger IsDir(s, i)} {:trigger IsDir(t, i)} :: IsDir(s, i) <==> IsDir(t, i)
    ensures forall i: nat {:trigger IsFile(s, i)} {:trigger IsFile(t, i)} :: IsFile(s, i) <==> IsFile(t, i)
  {
    hide InodeOk, StoreOk, EntriesOk;
  }

  lemma SavedInode(s: Fs, i: nat)
    requires Sound(s) && IsDir(s, Cwd(s)) && Allocated(s, i)
    ensures Sound(Saved(s)) && Allocated(Saved(s), i)
    ensures IsDir(s, i) ==> Listing(Saved(s).store, s.inodes[i]) == ListingOf(s, i) == ListingOf(Saved(s), i)
    ensures IsFile(s, i) ==> FileOf(Saved(s), i) == FileOf(s, i)
  {
    SavedRewrites(s);
    RewriteKeeps(s, Saved(s), Cwd(s), i);
    hide Sound, Listing, Owned, Content, DataBlocks, InodeOk, EncDir;
  }

  /** Saving makes the disk agree with memory and changes nothing a user sees. */
  lemma SavedIsSame(s: Fs)
    requires Sound(s) && IsDir(s, Cwd(s))
    ensures Sound(Saved(s)) && Clean(Saved(s)) && Abs(Saved(s)) == Abs(s)
  {
    SavedRewrites(s);
    var t := Saved(s);
    assert FsShape(s) && FsShape(t) && t.inodes == s.inodes && t.inodeUsed == s.inodeUsed && t.cur == s.cur;
    hide Sound, Saved, Listing, Content, FileOf, ListingOf;
    forall i: nat | Allocated(s, i)
      ensures IsDir(s, i) ==> IsDir(t, i) && Listing(t.store, t.inodes[i]) == ListingOf(s, i) == ListingOf(t, i)
      ensures IsFile(s, i) ==> IsFile(t, i) && FileOf(t, i) == FileOf(s, i)
    {
      SavedInode(s, i);
    }
    SameReading(s, t);
  }

  lemma LoadSound(s: Fs, l: seq<Entry>)
    requires Sound(s) && EntriesOk(l) && l != [] && l[0].inode < MAX_INODE
    ensures Sound(s.(cur := l))
  {
    var t := s.(cur := l);
    forall i, j, b | Allocated(t, i) && Allocated(t, j) && OwnedBy(t, i, b) && OwnedBy(t, j, b) ensures i == j {
      assert OwnedBy(s, i, b) && OwnedBy(s, j, b);
    }
  }

  lemma ListingHead(s: Fs, n: nat)
    requires Sound(s) && IsDir(s, n) && TreeOk(Abs(s))
    ensures var l := ListingOf(s, n); EntriesOk(l) && l != [] && l[0].inode == n < MAX_INODE
  {
    hide Sound, EntriesOk, TreeOk, ListingOf;
    InDirs(s, n);
    TreeListing(Abs(s), n);
  }

  lemma InDirs(s: Fs, n: nat)
    requires Sound(s) && IsDir(s, n)
    ensures n in Abs(s).dirs && Abs(s).dirs[n] == ListingOf(s, n)
  {
  }

  lemma LoadInode(s: Fs, n: nat, t: Fs, i: nat)
    requires Sound(s) && Clean(s) && IsDir(s, n) && Sound(t)
    requires t == s.(cur := ListingOf(s, n)) && Cwd(t) == n && Allocated(s, i)
    ensures IsDir(s, i) ==> IsDir(t, i) && ListingOf(t, i) == ListingOf(s, i)
    ensures IsFile(s, i) ==> IsFile(t, i) && FileOf(t, i) == FileOf(s, i)
  {
    hide Sound, Listing, Content, EntriesOk;
  }

  /** Loading another directory moves the tree's current directory there. */
  lemma LoadMoves(s: Fs, n: nat)
    requires Sound(s) && Clean(s) && IsDir(s, n) && TreeOk(Abs(s))
    ensures var t := s.(cur := Listing(s.store, s.inodes[n]));
      Sound(t) && Abs(t) == Abs(s).(cwd := n)
  {
    var l := Listing(s.store, s.inodes[n]);
    hide Sound, Listing, Content, TreeOk, EntriesOk, DirsOf, FilesOf, ListingOf, FileOf;
    ListingHead(s, n);
    LoadSound(s, l);
    var t := s.(cur := l);
    forall i: nat | Allocated(s, i)
      ensures IsDir(s, i) ==> IsDir(t, i) && ListingOf(t, i) == ListingOf(s, i)
      ensures IsFile(s, i) ==> IsFile(t, i) && FileOf(t, i) == FileOf(s, i)
    {
      LoadInode(s, n, t, i);
    }
    SameReading(s, t);
  }

  /** `cd` saves first, whether or not it then succeeds: the disk agrees with memory, and besides the block of the
      former current directory nothing on the disk changes. */
  lemma ChangeSaves(s: Fs, name: Name)
    requires Inv(s) && Find(s.cur, name) < MAX_INODE
    ensures FsShape(s) && Cwd(s) < MAX_INODE && InodeFits(s.inodes[Cwd(s)])
    ensures var t := DirChange(s, name).1;
      && Inv(t) && Clean(t) && |t.store.disk| == |s.store.disk| == 4096
      && t.inodes == s.inodes && t.inodeUsed == s.inodeUsed && t.store.used == s.store.used
      && forall b :: 0 <= b < 4096 && b != s.inodes[Cwd(s)].direct[0] ==> t.store.disk[b] == s.store.disk[b]
  {
    hide *;
    ChangeRefines(s, name);
    HereIsCur(s);
    SoundOf(s);
    SavedIsSame(s);
    SoundOf(DirChange(s, name).1);
    ChangeIs(s, name);
    var n := Find(s.cur, name);
    if n >= 0 {
      FoundKind(s, name);
      if IsDir(s, n) {
        InTree(s);
        ListingHead(Saved(s), n);
        ListedSame(Saved(s), n);
        LoadedClean(Saved(s), n);
      }
    }
  }

  lemma SoundOf(s: Fs)
    requires Inv(s)
    ensures Sound(s) && FsShape(s)
  {
  }

  lemma ListedSame(s: Fs, n: nat)
    requires Sound(s) && Clean(s) && IsDir(s, n)
    ensures StoreOk(s.store) && InodeFits(s.inodes[n]) && Listing(s.store, s.inodes[n]) == ListingOf(s, n)
  {
    hide Listing, TreeOk, EntriesOk;
  }

  lemma InTree(s: Fs)
    requires Inv(s)
    ensures Sound(s) && TreeOk(Abs(s))
  {
  }

  lemma FoundKind(s: Fs, name: Name)
    requires Inv(s) && 0 <= Find(s.cur, name) < MAX_INODE && Sound(s) && FsShape(s) && Sound(Saved(s))
    ensures var n := Find(s.cur, name);
      && |s.inodes| == MAX_INODE && (IsDir(s, n) <==> s.inodes[n].kind == Directory)
      && (IsDir(s, n) ==> IsDir(Saved(s), n))
  {
    FileFound(s, name);
    hide Sound, TreeOk, EncDir;
  }

  /** The state `dir_change` leaves, by what it finds. */
  lemma ChangeIs(s: Fs, name: Name)
    requires FsShape(s) && Find(s.cur, name) < MAX_INODE
    ensures Cwd(s) < MAX_INODE && InodeFits(s.inodes[Cwd(s)]) && |s.inodes| == MAX_INODE && |s.store.disk| == 4096
    ensures var n, t, u := Find(s.cur, name), DirChange(s, name).1, Saved(s);
      && (n < 0 || s.inodes[n].kind == File ==> t == u)
      && (n >= 0 && s.inodes[n].kind != File ==> InodeFits(u.inodes[n]) && StoreOk(u.store)
                                                 && t == u.(cur := Listing(u.store, u.inodes[n])))
      && t.inodes == s.inodes && t.inodeUsed == s.inodeUsed && t.store.used == s.store.used
      && |t.store.disk| == 4096
      && forall b :: 0 <= b < 4096 && b != s.inodes[Cwd(s)].direct[0] ==> t.store.disk[b] == s.store.disk[b]
  {
    hide EncDir, DecDir, CountFree, EntriesOk;
  }

  /** What is loaded is what the disk has. */
  lemma LoadedClean(s: Fs, n: nat)
    requires Sound(s) && Clean(s) && IsDir(s, n) && StoreOk(s.store) && InodeFits(s.inodes[n])
    requires var t := s.(cur := Listing(s.store, s.inodes[n])); Sound(t) && t.cur != [] && t.cur[0].inode == n
    ensures Clean(s.(cur := Listing(s.store, s.inodes[n])))
  {
    hide Sound, Listing;
  }

  lemma ChangeRefines(s: Fs, name: Name)
    requires Inv(s)
    ensures Find(s.cur, name) < MAX_INODE
    ensures var (r, t) := DirChange(s, name);
      Inv(t) && (r, Abs(t)) == ChangeDir(Abs(s), name)
  {
    ChangeKeepsTree(Abs(s), name);
    HereIsCur(s);
    SavedIsSame(s);
    var n := Find(s.cur, name);
    if n >= 0 {
      FindInTree(Abs(s), name);
      if IsDir(s, n) { LoadMoves(Saved(s), n); }
    }
  }
}
