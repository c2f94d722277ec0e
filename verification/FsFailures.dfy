/** Inputs on which the file system does not keep a promise, one for each condition proved elsewhere. */
module FsFailures {
  import opened Bits
  import opened Codec
  import opened FileSystem
  import opened FsInvariant
  import opened FsTree
  import opened FsRefinement
  import opened FsDirectories
  import opened FsContents
  import opened FsWrite
  import opened FsWriteRefinement
  import opened FsRemove
  import opened FsRuns
  import opened FsPromises
  import opened FsUndo
  import opened FsMount

  const A: Name := [97]
  const B: Name := [98]
  const C: Name := [99]
  const D: Name := [100]

  // ----- A new disk -----

  lemma NextIs(t: Tree, k: nat)
    requires k < MAX_INODE && k !in t.dirs && k !in t.files
    requires forall i :: 0 <= i < k ==> i in t.dirs || i in t.files
    ensures NextInode(t) == k
  {
    assert forall i :: 0 <= i < k ==> Taken(t)[i];
    assert !Taken(t)[k];
  }

  /** A file system in which only the root is, as on a new disk. */
  ghost predicate Empty(s: Fs) {
    Inv(s) && Tidy(s) && Abs(s) == NewTree()
  }

  lemma NewDiskIsEmpty()
    ensures Empty(FirstMount())
  {
    hide FirstMount, Inv, Tidy;
    NewTreeOk();
  }

  lemma EmptyFacts(s: Fs)
    requires Empty(s)
    ensures Inv(s) && FsShape(s) && Sound(s) && Tidy(s) && Abs(s) == NewTree() && TreeOk(NewTree())
    ensures s.cur == [Entry(DOT, 0)] && s.store.free == NewTree().freeBlocks
  {
    HereIsCur(s);
    AbsParts(s, 0);
    hide TreeOk;
  }

  lemma NoBlocks()
    ensures Ceil(0) == 0 && First(0) == 0 && BlocksFor(0) == 0
  {
  }

  /** An empty file made in the tree `t`, where the lowest free inode is `k`. */
  function WithEmpty(t: Tree, name: Name, k: nat): Tree
    requires t.cwd in t.dirs
  {
    t.(dirs := WithEntry(t, name, k), files := t.files[k := FileData(0, [])])
  }

  lemma CreateEmpty(t: Tree, name: Name, k: nat)
    requires t.cwd in t.dirs && Find(Here(t), name) < 0 && |Here(t)| < 24 && t.freeBlocks >= 0
    requires NextInode(t) == k < MAX_INODE
    ensures Create(t, name, 0, []) == (0, WithEmpty(t, name, k))
  {
    NoBlocks();
  }

  // ----- file_create -----

  /** On a new disk `create . 0` answers 0 and creates nothing. */
  lemma ZeroWithoutFile(s: Fs)
    requires Empty(s)
    ensures NameOk(DOT) && BlocksFor(0) == 0 && FileCreate(s, DOT, 0, []) == (0, s)
    ensures !Created(Abs(s), Abs(s), DOT, 0, [])
  {
    hide *;
    EmptyFacts(s);
    NoBlocks();
    DotIsRefused(s);
    NothingMade();
  }

  lemma DotIsRefused(s: Fs)
    requires FsShape(s) && s.cur == [Entry(DOT, 0)]
    ensures NameOk(DOT) && BlocksFor(0) == 0 && FileCreate(s, DOT, 0, []) == (0, s)
  {
    hide FsShape, Grab, Ceil, CreateLarge, BlocksFor;
    NoBlocks();
    assert CreateSmall(s, DOT, 0, []) == (-1, s);
  }

  lemma NothingMade()
    ensures 0 in NewTree().dirs && NewTree().cwd == 0 && BlocksFor(0) == 0 && !Created(NewTree(), NewTree(), DOT, 0, [])
  {
  }

  // ----- file_write -----

  lemma OneInTree(tmp: seq<Byte>)
    requires |tmp| == BLOCK_SIZE
    ensures Ceil(First(1)) == Ceil(1) == BlocksFor(1) == 1 && NameOk(A)
    ensures var (r, u) := Create(NewTree(), A, 1, tmp);
      && u.cwd == 0 && 0 in u.dirs && Here(u) == [Entry(DOT, 0), Entry(A, 1)] && 1 in u.files
      && u.files[1] == FileData(1, tmp)
    ensures Find([Entry(DOT, 0), Entry(A, 1)], A) == 1
  {
    NextIs(NewTree(), 1);
    assert tmp[..BLOCK_SIZE] == tmp;
    assert [Entry(DOT, 0), Entry(A, 1)][1..][0] == Entry(A, 1);
  }

  /** After `create a 1`. */
  lemma OneFile(s: Fs, tmp: seq<Byte>)
    requires Empty(s) && |tmp| == BLOCK_SIZE
    ensures Ceil(1) == BlocksFor(1) == 1 && NameOk(A)
    ensures var t := FileCreate(s, A, 1, tmp).1;
      && Inv(t) && Tidy(t) && Find(t.cur, A) == 1 && 1 in Abs(t).files && |Abs(t).files[1].data| == BLOCK_SIZE
  {
    hide Empty, Inv, Abs, Sound, Tidy, FsShape, FileCreate, Create;
    EmptyFacts(s);
    OneInTree(tmp);
    CreateRefines(s, A, 1, tmp);
    CreateTidy(s, A, 1, tmp);
    HereIsCur(FileCreate(s, A, 1, tmp).1);
  }

  /** Past the blocks of a file of at most two blocks all entries name disk block 0, and 60 bytes at 1500 go
      there in two pieces, of which the second stays: what lies before it is not read back. */
  lemma PastTheBlocks(s: Fs, name: Name, x: Byte, junk: Block)
    requires Inv(s) && FsShape(s) && Tidy(s) && BlockOk(junk) && Find(s.cur, name) in Abs(s).files
    requires 0 <= Find(s.cur, name) < MAX_INODE && s.inodes[Find(s.cur, name)].blockCount <= 2
    ensures InTables(1500, 60) && |s.store.disk| == MAX_BLOCK && |s.store.disk[0]| == BLOCK_SIZE
    ensures var buf := seq(60, i => x); var (r, t) := FileWrite(s, name, 1500, 60, buf, junk);
      && r == Done && Inv(t) && FsShape(t) && t.cur == s.cur && t.inodes == s.inodes
      && (s.store.disk[0][476] != x ==> FileRead(t, name, 1500, 60, junk) != Printed(buf))
  {
    hide Inv, Abs, Sound, Tidy, FileWrite, FileRead, FsShape, Proper, LastPiecesHold, Piece;
    InvTreeOk(s);
    FileParts(s, name);
    FileOwns(s, name);
    var buf: seq<Byte> := seq(60, i => x);
    WritableIsProper(s, name, 1500, 60, buf);
    WriteKeepsTheRest(s, name, 1500, buf, junk);
    ReadBackExactly(s, name, 1500, buf, junk);
    TwoPieces(s.store.disk, s.inodes[Find(s.cur, name)], x);
    ZeroEntries(s, Find(s.cur, name));
  }

  lemma ZeroEntries(s: Fs, n: nat)
    requires FsShape(s) && Tidy(s) && Allocated(s, n) && s.inodes[n].blockCount <= 2
    ensures |s.inodes[n].direct| == DIRECT_BLOCK && s.inodes[n].direct[2] == s.inodes[n].direct[3] == 0
    ensures |s.store.disk| == MAX_BLOCK && |s.store.disk[0]| == BLOCK_SIZE
  {
  }

  lemma TwoPieces(d: seq<Block>, n: Inode, x: Byte)
    requires |d| == MAX_BLOCK && DiskOk(d) && InodeFits(n) && EndBlock(1500, 60) < DIRECT_BLOCK
    ensures |n.direct| == DIRECT_BLOCK && |d[0]| == BLOCK_SIZE
    ensures n.direct[2] == n.direct[3] == 0 && LastPiecesHold(d, n, 1500, seq(60, i => x)) ==> d[0][476] == x
  {
    var buf: seq<Byte> := seq(60, i => x);
    assert BlockOk(d[0]);
    if n.direct[2] == n.direct[3] == 0 && LastPiecesHold(d, n, 1500, buf) {
      assert LastFor(n, 1500, |buf|, 1500, 3);
      assert Piece(d, n, 1500, buf, 3)[1500 % BLOCK_SIZE] == buf[1500 - 1500];
    }
  }

  /** A file of one block: `write a 1500` of 60 bytes is answered Done, and other bytes are read back, but for
      bytes that block 0 happened to hold. */
  lemma WrittenPastTheEnd(s: Fs, tmp: seq<Byte>, x: Byte, junk: Block)
    requires Empty(s) && |tmp| == BLOCK_SIZE && BlockOk(junk)
    ensures Ceil(1) == BlocksFor(1) == 1 && NameOk(A) && InTables(1500, 60)
    ensures var t := FileCreate(s, A, 1, tmp).1; var buf := seq(60, i => x);
      && Inv(t) && Find(t.cur, A) == 1 && |t.store.disk| == MAX_BLOCK && |t.store.disk[0]| == BLOCK_SIZE
      && var (r, u) := FileWrite(t, A, 1500, 60, buf, junk);
        && r == Done && Inv(u) && Find(u.cur, A) == 1
        && (t.store.disk[0][476] != x ==> FileRead(u, A, 1500, 60, junk) != Printed(buf))
  {
    hide Empty, Inv, Abs, Sound, Tidy, FsShape, FileCreate, FileWrite, FileRead;
    EmptyFacts(s);
    OneFile(s, tmp);
    var t := FileCreate(s, A, 1, tmp).1;
    InvTreeOk(t);
    FileParts(t, A);
    PastTheBlocks(t, A, x, junk);
  }

  lemma TooMany(b: Block, x: Byte)
    requires BlockOk(b) && x > 25
    ensures DecDir(Overlaid(b, 0, [x])) == []
  {
    assert Overlaid(b, 0, [x])[0] == x;
  }

  /** One byte above 25 written to the start of a directory that is not the current one: the write is
      answered Done, the listing is gone, and with it the file system. */
  lemma ListingLost(s: Fs, name: Name, x: Byte, junk: Block)
    requires Inv(s) && BlockOk(junk) && Find(s.cur, name) in Abs(s).dirs && Find(s.cur, name) != Cwd(s) && x > 25
    ensures var k := Find(s.cur, name); var (r, t) := FileWrite(s, name, 0, 1, [x], junk);
      && r == Done && Sound(t) && IsDir(t, k) && Listing(t.store, t.inodes[k]) == [] && Abs(t) != Abs(s) && !Inv(t)
  {
    hide TreeOk, DecDir, Overlaid, FileWrite, Listing, Content;
    InvTreeOk(s);
    var k := Find(s.cur, name);
    DirFound(s, k);
    DirectoryWrite(s, name, 0, [x], junk);
    TooMany(Content(s.store, s.inodes[k]), x);
    SameCur(s, name, x, junk);
    var t := FileWrite(s, name, 0, 1, [x], junk).1;
    NoListing(s, t, k);
  }

  lemma SameCur(s: Fs, name: Name, x: Byte, junk: Block)
    requires FsShape(s) && BlockOk(junk) && Find(s.cur, name) < MAX_INODE
    ensures FileWrite(s, name, 0, 1, [x], junk).1.cur == s.cur
  {
    hide Touched, Gather, Scatter, Overlaid;
  }

  lemma NoListing(s: Fs, t: Fs, k: nat)
    requires Inv(s) && IsDir(s, k) && k != Cwd(s) && Sound(t) && IsDir(t, k) && Listing(t.store, t.inodes[k]) == []
    requires Cwd(t) == Cwd(s)
    ensures Abs(t) != Abs(s) && !Inv(t)
  {
    hide Sound, Listing, TreeOk;
    InDirs(s, k);
    InDirs(t, k);
    InvTreeOk(s);
    TreeListing(Abs(s), k);
    if Inv(t) { TreeListing(Abs(t), k); }
  }

  function DTree(): Tree {
    Tree(0, map[0 := [Entry(DOT, 0), Entry(D, 1)], 1 := [Entry(DOT, 1), Entry(DOTDOT, 0)]], map[],
      NewTree().freeBlocks - 1)
  }

  lemma MakeD()
    ensures NameOk(D) && MakeDir(NewTree(), D) == (0, DTree()) && Find([Entry(DOT, 0), Entry(D, 1)], D) == 1
  {
    NextIs(NewTree(), 1);
    var l := [Entry(DOT, 0), Entry(D, 1)];
    assert l[1..][0] == Entry(D, 1);
    assert Here(NewTree()) + [Entry(D, 1)] == l;
    assert WithEntry(NewTree(), D, 1)[1 := [Entry(DOT, 1), Entry(DOTDOT, 0)]] == DTree().dirs;
  }

  lemma OneDirectory(s: Fs)
    requires Empty(s)
    ensures var t := DirMake(s, D).1; Inv(t) && Abs(t) == DTree() && Find(t.cur, D) == 1
  {
    hide Empty, Inv, Abs, Sound, DirMake, MakeDir, FsShape;
    EmptyFacts(s);
    MakeD();
    MakeRefines(s, D);
    HereIsCur(DirMake(s, D).1);
  }

  /** `mkdir d` and `write d 0 1 x`: the listing of `d` now says that it has 120 entries. */
  lemma DirectoryOverwritten(s: Fs, junk: Block)
    requires Empty(s) && BlockOk(junk)
    ensures var t := DirMake(s, D).1;
      && Inv(t) && Find(t.cur, D) == 1
      && var (r, u) := FileWrite(t, D, 0, 1, [120], junk);
        r == Done && Sound(u) && IsDir(u, 1) && Listing(u.store, u.inodes[1]) == [] && Abs(u) != Abs(t) && !Inv(u)
  {
    hide Empty, Inv, Abs, Sound, Tidy, FsShape, DirMake, FileWrite, Listing;
    EmptyFacts(s);
    OneDirectory(s);
    var t := DirMake(s, D).1;
    InvTreeOk(t);
    AbsParts(t, 0);
    ListingLost(t, D, 120, junk);
  }

  // ----- file_remove -----

  /** The smallest large file, created and removed: one block is lost. */
  lemma MapBlockLost(s: Fs, tmp: seq<Byte>)
    requires Empty(s) && |tmp| == 11 * BLOCK_SIZE
    ensures BlocksFor(SMALL_FILE) == 11 && NameOk(A)
    ensures var t := FileCreate(s, A, SMALL_FILE, tmp).1;
      && FsShape(t) && Removable(t, A)
      && var (r, u) := FileRemove(t, A);
        r == 0 && u.cur == s.cur && u.store.free == s.store.free - 1
  {
    hide Empty, Inv, Abs, Sound, FileCreate, FileRemove, FsShape, Removable;
    EmptyFacts(s);
    RoomForLarge();
    RemoveUndoesCreate(s, A, SMALL_FILE, tmp);
  }

  lemma RoomForLarge()
    ensures BlocksFor(SMALL_FILE) == 11 && NameOk(A) && CanCreate(NewTree(), A, Ceil(First(SMALL_FILE)))
    ensures RestFits(NewTree(), SMALL_FILE)
  {
    NextIs(NewTree(), 1);
  }

  /** What remains of a run once its first command has been given. */
  lemma After(t: Tree, c: Command, u: Tree, rest: seq<Command>, cs: seq<Command>)
    requires cs == [c] + rest && !c.WriteFile? && TreeOk(t) && Asked(t, c) && StepTree(t, c).1 == u && TreeOk(u)
    requires AllSafe(u, rest, !c.RemoveFile?) && AllAsked(u, rest)
    ensures AllSafe(t, cs, true) && AllAsked(t, cs) && RunTree(t, cs).1 == RunTree(u, rest).1
  {
    hide Asked, TreeOk, StepTree, AllSafe, AllAsked, RunTree;
    FirstSafe(t, c, rest, true);
    FirstAsked(t, c, rest);
  }

  lemma NoneLeft(t: Tree, tidy: bool)
    requires TreeOk(t)
    ensures AllSafe(t, [], tidy) && AllAsked(t, []) && RunTree(t, []).1 == t
  {
  }

  /** The root with empty files. */
  function Root(es: seq<Entry>, files: set<nat>): Tree {
    Tree(0, map[0 := [Entry(DOT, 0)] + es], map k | k in files :: FileData(0, []), NewTree().freeBlocks)
  }

  lemma {:induction false} NotThere(es: seq<Entry>, name: Name)
    requires forall i :: 0 <= i < |es| ==> es[i].name != name
    ensures Find(es, name) < 0
  {
    if es != [] { NotThere(es[1..], name); }
  }

  /** `create name 0` in such a root. */
  lemma CreateInRoot(es: seq<Entry>, files: set<nat>, name: Name, k: nat, fs: seq<Entry>, more: set<nat>)
    requires 1 <= k < 10 && |es| == k - 1 && (forall i :: i in files <==> 1 <= i < k) && NameOk(name)
    requires name != DOT && (forall i :: 0 <= i < |es| ==> es[i].name != name)
    requires fs == es + [Entry(name, k)] && more == files + {k} && TreeOk(Root(es, files))
    ensures var t, c, u := Root(es, files), CreateFile(name, 0, []), Root(fs, more);
      TreeOk(u) && Asked(t, c) && StepTree(t, c).1 == u
  {
    NoBlocks();
    hide TreeOk, Root, Create;
    RootCreate(es, files, name, k, fs, more);
    CreateKeepsTree(Root(es, files), name, 0, []);
  }

  lemma RootCreate(es: seq<Entry>, files: set<nat>, name: Name, k: nat, fs: seq<Entry>, more: set<nat>)
    requires 1 <= k < 10 && |es| == k - 1 && (forall i :: i in files <==> 1 <= i < k)
    requires name != DOT && (forall i :: 0 <= i < |es| ==> es[i].name != name)
    requires fs == es + [Entry(name, k)] && more == files + {k}
    ensures BlocksFor(0) == 0 && Root(es, files).cwd in Root(es, files).dirs
    ensures Create(Root(es, files), name, 0, []) == (0, Root(fs, more))
  {
    var t, u := Root(es, files), Root(fs, more);
    NoBlocks();
    hide Create, NextInode, BlocksFor, Ceil, First;
    NotThere(Here(t), name);
    NextIs(t, k);
    CreateEmpty(t, name, k);
    assert Here(u) == Here(t) + [Entry(name, k)];
    assert u.dirs == WithEntry(t, name, k);
    assert u.files == t.files[k := FileData(0, [])];
  }

  function Before(): Tree { Root([Entry(A, 1), Entry(B, 2), Entry(C, 3)], {1, 2, 3}) }

  function Later(): Tree { Root([Entry(C, 3), Entry(B, 2)], {2, 3}) }

  lemma RemoveFirst()
    requires TreeOk(Before())
    ensures TreeOk(Later()) && Asked(Before(), RemoveFile(A)) && StepTree(Before(), RemoveFile(A)).1 == Later()
  {
    hide TreeOk;
    var t, u := Before(), Later();
    assert Here(t)[1..][0] == Entry(A, 1);
    assert Find(Here(t), A) == 1 && IndexOf(Here(t), A) == 1;
    assert Here(t) == [Entry(DOT, 0), Entry(A, 1), Entry(B, 2), Entry(C, 3)];
    assert Without(Here(t), 1) == Here(u);
    assert t.dirs[0 := Here(u)] == u.dirs;
    assert t.files - {1} == u.files;
    RemoveKeepsTree(t, A);
  }

  lemma NotInLater()
    ensures Find(Here(Later()), C) == 3 && Here(Later()) == [Entry(DOT, 0), Entry(C, 3), Entry(B, 2)]
    ensures 3 in Later().files && !InPlace(Here(Later()), 3) && SlotFor(Here(Later()), 3)
    ensures Compacted(Here(Later()), 3) == [Entry(DOT, 0), Entry(C, 3)]
  {
    assert Here(Later())[1..][0] == Entry(C, 3);
  }

  function ThreeFiles(): seq<Command> {
    [CreateFile(A, 0, []), CreateFile(B, 0, []), CreateFile(C, 0, []), RemoveFile(A)]
  }

  lemma ThreeCreated()
    ensures var t0, t1 := NewTree(), Root([Entry(A, 1)], {1});
      var t2, t3 := Root([Entry(A, 1), Entry(B, 2)], {1, 2}), Before();
      && TreeOk(t0) && Asked(t0, CreateFile(A, 0, [])) && StepTree(t0, CreateFile(A, 0, [])).1 == t1
      && TreeOk(t1) && Asked(t1, CreateFile(B, 0, [])) && StepTree(t1, CreateFile(B, 0, [])).1 == t2
      && TreeOk(t2) && Asked(t2, CreateFile(C, 0, [])) && StepTree(t2, CreateFile(C, 0, [])).1 == t3 && TreeOk(t3)
  {
    hide TreeOk, Asked, StepTree, Root, FirstMount;
    NewTreeOk();
    RootIsNew();
    CreateInRoot([], {}, A, 1, [Entry(A, 1)], {1});
    CreateInRoot([Entry(A, 1)], {1}, B, 2, [Entry(A, 1), Entry(B, 2)], {1, 2});
    CreateInRoot([Entry(A, 1), Entry(B, 2)], {1, 2}, C, 3, [Entry(A, 1), Entry(B, 2), Entry(C, 3)], {1, 2, 3});
  }

  lemma RootIsNew()
    ensures Root([], {}) == NewTree()
  {
    assert [Entry(DOT, 0)] + [] == [Entry(DOT, 0)];
    assert Root([], {}).files == map[];
  }

  /** Creating `a`, `b` and `c` on a new disk and removing `a` leaves `c` at position 1 with inode 3. */
  lemma ThreeFilesRun()
    ensures Possible(ThreeFiles()) && FromNewTree(ThreeFiles()).1 == Later()
  {
    hide AllSafe, AllAsked, RunTree, TreeOk, Asked, StepTree, Root, NewTree, Before, Later, FirstMount;
    ThreeCreated();
    RemoveFirst();
    NoneLeft(Later(), false);
    var t1, t2 := Root([Entry(A, 1)], {1}), Root([Entry(A, 1), Entry(B, 2)], {1, 2});
    After(Before(), RemoveFile(A), Later(), [], [RemoveFile(A)]);
    After(t2, CreateFile(C, 0, []), Before(), [RemoveFile(A)], [CreateFile(C, 0, []), RemoveFile(A)]);
    After(t1, CreateFile(B, 0, []), t2, [CreateFile(C, 0, []), RemoveFile(A)],
          [CreateFile(B, 0, []), CreateFile(C, 0, []), RemoveFile(A)]);
    After(NewTree(), CreateFile(A, 0, []), t1, [CreateFile(B, 0, []), CreateFile(C, 0, []), RemoveFile(A)],
      ThreeFiles());
    RunIs(ThreeFiles(), Later());
  }

  lemma RunIs(cs: seq<Command>, u: Tree)
    ensures TreeOk(NewTree())
    ensures AllSafe(NewTree(), cs, true) && AllAsked(NewTree(), cs) && RunTree(NewTree(), cs).1 == u ==>
      Possible(cs) && FromNewTree(cs).1 == u
  {
    hide AllSafe, AllAsked, AllAllowed, RunTree, Possible, TreeOk, FirstMount;
    NewTreeOk();
    SafeRuns(cs);
  }

  /** Removing `c` as well is answered 0 and leaves its entry and not that of `b`: no file system any more. */
  lemma WrongEntryRemoved()
    ensures Possible(ThreeFiles())
    ensures var s := FromNewDisk(ThreeFiles()).1;
      && Inv(s) && Find(s.cur, C) == 3 && Removable(s, C)
      && var (r, t) := FileRemove(s, C); r == 0 && t.cur == [Entry(DOT, 0), Entry(C, 3)] && !Inv(t)
  {
    hide *;
    ThreeFilesRun();
    RunFromNewDisk(ThreeFiles());
    RemovedFromLater(FromNewDisk(ThreeFiles()).1);
  }

  lemma RemovedFromLater(s: Fs)
    requires Inv(s) && Abs(s) == Later()
    ensures Find(s.cur, C) == 3 && Removable(s, C)
    ensures var (r, t) := FileRemove(s, C); r == 0 && t.cur == [Entry(DOT, 0), Entry(C, 3)] && !Inv(t)
  {
    hide Inv, Abs, Sound, FileRemove, Removable, FsShape, Later, Compacted, InPlace, SlotFor;
    InvTreeOk(s);
    HereIsCur(s);
    NotInLater();
    RemoveExactly(s, C);
    FileParts(s, C);
    RemoveEffect(s, C);
  }

  // ----- fs_umount -----

  function IntoD(): seq<Command> {
    [MakeDirectory(D), ChangeDirectory(D)]
  }

  lemma IntoDRun()
    ensures Possible(IntoD()) && FromNewTree(IntoD()).1.cwd == 1
  {
    hide AllSafe, AllAsked, RunTree, TreeOk, MakeDir, FirstMount;
    NewTreeOk();
    MakeD();
    MakeKeepsTree(NewTree(), D);
    var t, u := DTree(), DTree().(cwd := 1);
    assert ChangeDir(t, D) == (0, u);
    ChangeKeepsTree(t, D);
    NoneLeft(u, true);
    After(t, ChangeDirectory(D), u, [], [ChangeDirectory(D)]);
    After(NewTree(), MakeDirectory(D), t, [ChangeDirectory(D)], IntoD());
    RunIs(IntoD(), u);
  }

  /** `mkdir d`, `cd d` and exit: what is mounted again is not a file system. */
  lemma UnmountedElsewhere(scratch: seq<nat>)
    requires |scratch| == MAX_INDIRECT_BLOCK && WordsOk(scratch)
    ensures Possible(IntoD())
    ensures var s := FromNewDisk(IntoD()).1;
      && Inv(s) && RootBlockKnown(s) && Cwd(s) == 1 && !Inv(Mounted(Umounted(s), scratch))
  {
    hide Possible, FromNewDisk, FromNewTree, Inv, Abs, Sound, RootBlockKnown, Mounted, Umounted, Fits, FsShape;
    IntoDRun();
    RunFromNewDisk(IntoD());
    MountAfterRun(IntoD(), scratch);
    var s := FromNewDisk(IntoD()).1;
    InvTreeOk(s);
    AbsParts(s, 0);
    KnownFits(s);
    MountFromElsewhere(s, scratch);
  }

  lemma KnownFits(s: Fs)
    requires FsShape(s) && RootBlockKnown(s)
    ensures Fits(s)
  {
  }
}
