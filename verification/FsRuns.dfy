/** Whole runs of the file system: from a new disk, every command answers as the tree of `FsTree` does. */
module FsRuns {
  import opened Lists
  import opened Bits
  import opened Codec
  import opened FileSystem
  import opened FsInvariant
  import opened FsContents
  import opened FsTree
  import opened FsCreate
  import opened FsRefinement
  import opened FsDirectories
  import opened FsWriteRefinement
  import opened FsRemove

  lemma InvTreeOk(s: Fs)
    requires Inv(s)
    ensures Sound(s) && FsShape(s) && TreeOk(Abs(s)) && Abs(s).cwd in Abs(s).dirs && |s.inodes| == MAX_INODE
  {
  }

  // ----- Reading -----

  datatype Reply = Code(code: int) | Wrote(outcome: Outcome) | Shown(answer: Answer)

  /** What the tree says a command answers: a read past a file's blocks prints anything after their bytes. */
  datatype Expected = Exactly(reply: Reply) | Printing(size: nat, known: seq<Byte>)

  predicate Meets(r: Reply, e: Expected) {
    match e
    case Exactly(reply) => r == reply
    case Printing(size, known) => r.Shown? && r.answer.Printed? && |r.answer.bytes| == size && known <= r.answer.bytes
  }

  function ReadTree(t: Tree, name: Name, offset: nat, size: nat): Expected
    requires t.cwd in t.dirs
  {
    var n := Find(Here(t), name);
    if n in t.files then Printing(size, PartIn(t.files[n].data, offset, size)) else Exactly(Shown(Failed))
  }

  /** What `file_read` looks at. */
  lemma ReadsFile(s: Fs, name: Name, offset: nat, size: nat, buf: Block)
    requires Inv(s) && BlockOk(buf) && Find(s.cur, name) in Abs(s).files && InTables(offset, size)
    ensures FsShape(s) && 0 <= Find(s.cur, name) < MAX_INODE && Abs(s).cwd in Abs(s).dirs && Here(Abs(s)) == s.cur
    ensures var n := s.inodes[Find(s.cur, name)];
      && StoreOk(s.store) && InodeOk(s.store, n) && |n.direct| == DIRECT_BLOCK && n.indirect < MAX_BLOCK
      && InodeShape(n)
      && Abs(s).files[Find(s.cur, name)].data == Content(s.store, n)
      && FileRead(s, name, offset, size, buf) == Printed(ReadBytes(s.store, n, offset, size, buf))
  {
    HereIsCur(s);
    FileFound(s, name);
    hide ReadBytes, Content, TreeOk;
  }

  lemma ReadsNothing(s: Fs, name: Name, offset: nat, size: nat, buf: Block)
    requires Inv(s) && BlockOk(buf) && Find(s.cur, name) !in Abs(s).files
    ensures FsShape(s) && Find(s.cur, name) < MAX_INODE && Abs(s).cwd in Abs(s).dirs && Here(Abs(s)) == s.cur
    ensures var n := Find(s.cur, name); n >= 0 ==> s.inodes[n].kind == Directory
    ensures FileRead(s, name, offset, size, buf) == Failed
  {
    HereIsCur(s);
    if Find(s.cur, name) >= 0 { FileFound(s, name); }
    hide TreeOk;
  }

  /** `file_read` prints the part of its range that lies in the file, and fails for anything but a file. */
  lemma ReadRefines(s: Fs, name: Name, offset: nat, size: nat, buf: Block)
    requires Inv(s) && BlockOk(buf) && (Find(s.cur, name) in Abs(s).files ==> InTables(offset, size))
    ensures Find(s.cur, name) < MAX_INODE && Here(Abs(s)) == s.cur
    ensures var n := Find(s.cur, name); n >= 0 && s.inodes[n].kind != Directory ==> InTables(offset, size)
    ensures Meets(Shown(FileRead(s, name, offset, size, buf)), ReadTree(Abs(s), name, offset, size))
  {
    hide Inv, Abs, FileRead, ReadBytes, Content, PartIn, InodeOk, InTables, FsShape, StoreOk;
    InvTreeOk(s);
    if Find(s.cur, name) in Abs(s).files {
      ReadsFile(s, name, offset, size, buf);
      ReadShowsContent(s.store, s.inodes[Find(s.cur, name)], offset, size, buf);
    } else {
      ReadsNothing(s, name, offset, size, buf);
    }
  }

  /** Inside the file it is the slice that was asked for. */
  lemma ReadInside(s: Fs, name: Name, offset: nat, size: nat, buf: Block)
    requires Inv(s) && BlockOk(buf) && InTables(offset, size)
    requires var n := Find(s.cur, name); n in Abs(s).files && offset + size <= |Abs(s).files[n].data|
    ensures FsShape(s) && 0 <= Find(s.cur, name) < MAX_INODE
    ensures FileRead(s, name, offset, size, buf) == Printed(Abs(s).files[Find(s.cur, name)].data[offset..offset + size])
  {
    hide Inv, Abs, FileRead, ReadBytes, Content, InodeOk, InTables, FsShape, StoreOk;
    InvTreeOk(s);
    ReadsFile(s, name, offset, size, buf);
    ReadShowsContent(s.store, s.inodes[Find(s.cur, name)], offset, size, buf);
    WholePart(Abs(s).files[Find(s.cur, name)].data, offset, size);
  }

  lemma WholePart(data: seq<Byte>, offset: nat, size: nat)
    requires offset + size <= |data|
    ensures PartIn(data, offset, size) == data[offset..offset + size]
  {
  }

  function CatTree(t: Tree, name: Name): Answer
    requires t.cwd in t.dirs
  {
    var n := Find(Here(t), name);
    if n in t.files then Printed(t.files[n].data) else Failed
  }

  /** `file_cat` prints everything in the file's blocks. */
  lemma CatRefines(s: Fs, name: Name, buf: Block)
    requires Inv(s) && BlockOk(buf)
    ensures Find(s.cur, name) < MAX_INODE && Here(Abs(s)) == s.cur
    ensures var n := Find(s.cur, name); n >= 0 && s.inodes[n].kind != Directory ==> CatFits(s.inodes[n])
    ensures FileCat(s, name, buf) == CatTree(Abs(s), name)
  {
    HereIsCur(s);
    var n := Find(s.cur, name);
    if n >= 0 {
      FileFound(s, name);
      if n in Abs(s).files {
        var st, i := s.store, s.inodes[n];
        CatIsContent(st, i);
        forall b | b in DataBlocks(st, i) ensures b < MAX_BLOCK {
          assert b in Owned(st, i);
        }
        hide TreeOk, DataBlocks;
        GatherSame(st.disk, st.disk, DataBlocks(st, i), buf, Zeros(BLOCK_SIZE));
      }
    }
  }

  // ----- A new file system -----

  lemma BlankInodes(i: nat)
    requires i < MAX_INODE
    ensures |Blank().inodes| == |Blank().inodeUsed| == MAX_INODE && !Blank().inodeUsed[i]
    ensures Blank().inodes[i] == Inode(File, 0, 0, seq(DIRECT_BLOCK, k => 0), 0)
  {
  }

  /** Only inode 0 is allocated, a directory. */
  ghost predicate OnlyRoot(s: Fs)
    requires FsShape(s)
  {
    && (forall i :: 0 <= i < MAX_INODE ==> (s.inodeUsed[i] <==> i == 0))
    && (forall i :: 0 < i < MAX_INODE ==> AllZero(s.inodes[i])) && ZeroTail(s.inodes[0])
    && (forall b :: 0 <= b < METADATA_BLOCKS ==> s.store.used[b])
    && s.inodes[0].kind == Directory && InodeOk(s.store, s.inodes[0])
  }

  lemma OnlyRootSound(s: Fs)
    requires FsShape(s) && OnlyRoot(s)
    ensures Sound(s) && Tidy(s)
  {
    hide InodeOk, AllZero, ZeroTail;
    assert forall i :: Allocated(s, i) ==> i == 0;
  }

  lemma OnlyRootTree(s: Fs)
    requires FsShape(s) && OnlyRoot(s) && Sound(s) && Cwd(s) == 0 && s.cur == [Entry(DOT, 0)]
    ensures Abs(s) == Tree(0, map[0 := [Entry(DOT, 0)]], map[], s.store.free) && TreeOk(Abs(s))
  {
    hide Sound, InodeOk, StoreOk, EntriesOk, CountFree;
    assert DirsOf(s) == map[0 := [Entry(DOT, 0)]];
    assert FilesOf(s) == map[];
  }

  /** A new disk holds an empty root, and everything the invariant asks for. */
  lemma FirstMountInv()
    ensures var s := FirstMount(); Inv(s) && Clean(s) && Tidy(s)
    ensures Abs(FirstMount()) == Tree(0, map[0 := [Entry(DOT, 0)]], map[], MAX_BLOCK - METADATA_BLOCKS - 1)
    ensures FirstMount().curBlock == FirstMount().inodes[0].direct[0]
  {
    hide Sound, FirstMount, TreeOk, OnlyRoot, InodeOk, Blank;
    FirstMountRoot();
    FirstMountOnly();
    OnlyRootSound(FirstMount());
    OnlyRootTree(FirstMount());
    OnlyRootClean(FirstMount());
  }

  lemma OnlyRootClean(s: Fs)
    requires FsShape(s) && OnlyRoot(s) && Sound(s)
    requires Listing(s.store, s.inodes[0]) == s.cur && Cwd(s) == 0
    ensures Clean(s)
  {
    hide Sound, InodeOk, Listing;
    assert forall i :: IsDir(s, i) ==> i == 0;
  }

  lemma FirstMountOnly()
    ensures FsShape(FirstMount()) && OnlyRoot(FirstMount())
  {
    hide FirstMount, EncDir, InodeOk;
    FirstMountRoot();
    var s := FirstMount();
    forall i | 0 < i < MAX_INODE ensures AllZero(s.inodes[i]) {
      BlankInodes(i);
    }
  }

  lemma FirstMountRoot()
    ensures var s := FirstMount();
      && FsShape(s) && (forall i :: 0 <= i < MAX_INODE ==> (s.inodeUsed[i] <==> i == 0))
      && s.inodes[0].kind == Directory && s.cur == [Entry(DOT, 0)] && s.store.free == MAX_BLOCK - METADATA_BLOCKS - 1
      && s.curBlock == s.inodes[0].direct[0] < MAX_BLOCK && Listing(s.store, s.inodes[0]) == s.cur
      && METADATA_BLOCKS <= s.curBlock && InodeOk(s.store, s.inodes[0])
      && s.inodes[0] == Inode(Directory, 1, 1, seq(DIRECT_BLOCK, k => 0)[0 := s.curBlock], 0)
      && s.freeInodes == MAX_INODE - 1
      && (forall i :: 0 < i < MAX_INODE ==> s.inodes[i] == Blank().inodes[i])
      && (forall b :: 0 <= b < METADATA_BLOCKS ==> s.store.used[b])
  {
    hide EncDir, DecDir;
    BlankShape();
    var b, st := Blank(), FirstMount();
    BlankInodes(0);
    CountFreeUpdate(b.inodeUsed, 0, true);
    DirRoundTrip([Entry(DOT, 0)]);
    assert Owned(st.store, st.inodes[0]) == [st.curBlock];
    forall i: nat | i < MAX_INODE ensures InodeFits(st.inodes[i]) {
      BlankInodes(i);
    }
  }

  // ----- Runs -----

  /** A command with its arguments; `tmp` is the memory the new file's data is in, `junk` what a fresh
      block buffer held. */
  datatype Command =
    | CreateFile(name: Name, size: nat, tmp: seq<Byte>)
    | MakeDirectory(name: Name)
    | ChangeDirectory(name: Name)
    | WriteFile(name: Name, offset: nat, size: nat, buf: seq<Byte>, junk: Block)
    | ReadFile(name: Name, offset: nat, size: nat, junk: Block)
    | CatFile(name: Name, junk: Block)
    | RemoveFile(name: Name)

  /** What a caller must see to: names that fit, data that is there, ranges inside the tables, and no
      removal that takes the wrong entry out. */
  ghost predicate Asked(t: Tree, c: Command)
    requires t.cwd in t.dirs
  {
    match c
    case CreateFile(name, size, tmp) => NameOk(name) && (size < LARGE_FILE ==> BLOCK_SIZE * BlocksFor(size) <= |tmp|)
    case MakeDirectory(name) => NameOk(name)
    case ChangeDirectory(name) => true
    case WriteFile(name, offset, size, buf, junk) =>
      BlockOk(junk) && (Find(Here(t), name) >= 0 ==> InTables(offset, size))
    case ReadFile(name, offset, size, junk) =>
      BlockOk(junk) && (Find(Here(t), name) in t.files ==> InTables(offset, size))
    case CatFile(name, junk) => BlockOk(junk)
    case RemoveFile(name) => Find(Here(t), name) in t.files ==> InPlace(Here(t), Find(Here(t), name))
  }

  /** Besides, a write must be proper: no byte out of place, and no other listing changed. */
  ghost predicate Allowed(s: Fs, c: Command)
    requires Inv(s)
  {
    Asked(Abs(s), c) && (c.WriteFile? ==> Proper(s, c.name, c.offset, c.size, c.buf))
  }

  ghost function StepTree(t: Tree, c: Command): (Expected, Tree)
    requires t.cwd in t.dirs && Asked(t, c)
  {
    match c
    case CreateFile(name, size, tmp) => var (r, u) := Create(t, name, size, tmp); (Exactly(Code(r)), u)
    case MakeDirectory(name) => var (r, u) := MakeDir(t, name); (Exactly(Code(r)), u)
    case ChangeDirectory(name) => var (r, u) := ChangeDir(t, name); (Exactly(Code(r)), u)
    case WriteFile(name, offset, size, buf, junk) => var (r, u) := Write(t, name, offset, size, buf);
      (Exactly(Wrote(r)), u)
    case ReadFile(name, offset, size, junk) => (ReadTree(t, name, offset, size), t)
    case CatFile(name, junk) => (Exactly(Shown(CatTree(t, name))), t)
    case RemoveFile(name) => var (r, u) := TakeOut(t, name); (Exactly(Code(r)), u)
  }

  /** What the code's functions need is there. */
  lemma Defined(s: Fs, c: Command)
    requires Inv(s)
    ensures Abs(s).cwd in Abs(s).dirs && Here(Abs(s)) == s.cur
    ensures (c.CatFile? || c.ReadFile? || c.WriteFile? || c.ChangeDirectory?) ==> Find(s.cur, c.name) < MAX_INODE
    ensures Asked(Abs(s), c) && c.ReadFile? ==>
              var n := Find(s.cur, c.name); n >= 0 && s.inodes[n].kind != Directory ==> InTables(c.offset, c.size)
    ensures Asked(Abs(s), c) && c.CatFile? ==>
              var n := Find(s.cur, c.name); n >= 0 && s.inodes[n].kind != Directory ==> CatFits(s.inodes[n])
    ensures Asked(Abs(s), c) && c.RemoveFile? ==> Removable(s, c.name)
  {
    HereIsCur(s);
    if c.RemoveFile? {
      if Asked(Abs(s), c) { RemoveRefines(s, c.name); }
    } else {
      if Find(s.cur, c.name) >= 0 { FileFound(s, c.name); }
      if c.CatFile? && Asked(Abs(s), c) { CatRefines(s, c.name, c.junk); }
    }
  }

  ghost function Step(s: Fs, c: Command): (Reply, Fs)
    requires Inv(s) && Asked(Abs(s), c)
  {
    Defined(s, c);
    match c
    case CreateFile(name, size, tmp) => var (r, u) := FileCreate(s, name, size, tmp); (Code(r), u)
    case MakeDirectory(name) => var (r, u) := DirMake(s, name); (Code(r), u)
    case ChangeDirectory(name) => var (r, u) := DirChange(s, name); (Code(r), u)
    case WriteFile(name, offset, size, buf, junk) => var (r, u) := FileWrite(s, name, offset, size, buf, junk);
      (Wrote(r), u)
    case ReadFile(name, offset, size, junk) => (Shown(FileRead(s, name, offset, size, junk)), s)
    case CatFile(name, junk) => (Shown(FileCat(s, name, junk)), s)
    case RemoveFile(name) => var (r, u) := FileRemove(s, name); (Code(r), u)
  }

  /** One command: the invariant is kept, the reply is the tree's, and so is the new state. */
  lemma StepRefines(s: Fs, c: Command)
    requires Inv(s) && Allowed(s, c)
    ensures var (r, t) := Step(s, c); var (e, u) := StepTree(Abs(s), c);
      Inv(t) && Abs(t) == u && Meets(r, e)
  {
    hide Inv, Abs, Removable, FsShape, Proper;
    InvFacts(s);
    Defined(s, c);
    match c
    case CreateFile(name, size, tmp) => CreateRefines(s, name, size, tmp);
    case MakeDirectory(name) => MakeRefines(s, name);
    case ChangeDirectory(name) => ChangeRefines(s, name);
    case WriteFile(name, offset, size, buf, junk) => WriteRefines(s, name, offset, size, buf, junk);
    case ReadFile(name, offset, size, junk) => ReadRefines(s, name, offset, size, junk);
    case CatFile(name, junk) => CatRefines(s, name, junk);
    case RemoveFile(name) => RemoveRefines(s, name);
  }

  lemma StepKeepsTree(t: Tree, c: Command)
    requires TreeOk(t) && Asked(t, c)
    ensures TreeOk(StepTree(t, c).1)
  {
    hide TreeOk;
    match c
    case CreateFile(name, size, tmp) => CreateKeepsTree(t, name, size, tmp);
    case MakeDirectory(name) => MakeKeepsTree(t, name);
    case ChangeDirectory(name) => ChangeKeepsTree(t, name);
    case WriteFile(name, offset, size, buf, junk) => WriteKeepsTree(t, name, offset, size, buf);
    case ReadFile(name, offset, size, junk) =>
    case CatFile(name, junk) =>
    case RemoveFile(name) => RemoveKeepsTree(t, name);
  }

  // ----- Tidy inodes -----

  /** Only a removal leaves an inode naming blocks it does not own. */
  lemma StepTidy(s: Fs, c: Command)
    requires Inv(s) && Asked(Abs(s), c) && Tidy(s) && !c.RemoveFile? && FsShape(Step(s, c).1)
    ensures Tidy(Step(s, c).1)
  {
    hide Inv, Abs, FsShape, Tidy, FileCreate, DirMake, DirChange, FileWrite;
    Defined(s, c);
    InvFacts(s);
    match c
    case CreateFile(name, size, tmp) => CreateTidy(s, name, size, tmp);
    case MakeDirectory(name) => MakeTidy(s, name);
    case ChangeDirectory(name) => SameInodesTidy(s, name);
    case WriteFile(name, offset, size, buf, junk) => WriteTidy(s, name, offset, size, buf, junk);
    case ReadFile(name, offset, size, junk) =>
    case CatFile(name, junk) =>
  }

  lemma SmallTidy(s: Fs, name: Name, size: nat, tmp: seq<Byte>)
    requires FsShape(s) && Tidy(s) && NameOk(name) && size < SMALL_FILE && BLOCK_SIZE * Ceil(size) <= |tmp|
    ensures var t := CreateSmall(s, name, size, tmp).1; FsShape(t) && Tidy(t)
  {
    CreateSmallShape(s, name, size, tmp);
    SplitInRange(size);
    hide Ceil, CountFree, TakeBlock, EntriesOk;
  }

  lemma LargeTidy(s: Fs, ino: nat, size: nat, tmp: seq<Byte>)
    requires FsShape(s) && Tidy(s) && ino < MAX_INODE && s.inodeUsed[ino]
    requires Ceil(size) <= MAX_INDIRECT_BLOCK && BLOCK_SIZE * (DIRECT_BLOCK + Ceil(size)) <= |tmp|
    ensures var t := CreateLarge(s, ino, size, tmp).1; FsShape(t) && Tidy(t)
  {
    LargeShape(s, ino, size, tmp);
    hide Ceil, CountFree, TakeBlock, EntriesOk;
  }

  lemma CreateTidy(s: Fs, name: Name, size: nat, tmp: seq<Byte>)
    requires FsShape(s) && Tidy(s) && NameOk(name) && (size < LARGE_FILE ==> BLOCK_SIZE * BlocksFor(size) <= |tmp|)
    ensures var t := FileCreate(s, name, size, tmp).1; FsShape(t) && Tidy(t)
  {
    if size < LARGE_FILE { SplitTidy(s, name, size, tmp); }
  }

  lemma SplitTidy(s: Fs, name: Name, size: nat, tmp: seq<Byte>)
    requires FsShape(s) && Tidy(s) && NameOk(name) && size < LARGE_FILE && BLOCK_SIZE * BlocksFor(size) <= |tmp|
    ensures var t := FileCreate(s, name, size, tmp).1; FsShape(t) && Tidy(t)
  {
    hide *;
    EnoughData(size, tmp);
    CreateCases(s, name, size, tmp);
    SmallTidy(s, name, First(size), tmp);
    SmallUses(s, name, First(size), tmp);
    var (k, t) := CreateSmall(s, name, First(size), tmp);
    if size >= SMALL_FILE && k >= 0 {
      LargeTidy(t, k, size - First(size), tmp);
    }
  }

  lemma SmallUses(s: Fs, name: Name, size: nat, tmp: seq<Byte>)
    requires FsShape(s) && NameOk(name) && size < SMALL_FILE && BLOCK_SIZE * Ceil(size) <= |tmp|
    ensures var (k, t) := CreateSmall(s, name, size, tmp);
      k >= 0 ==> k < MAX_INODE && |t.inodeUsed| == MAX_INODE && t.inodeUsed[k]
  {
    CreateSmallShape(s, name, size, tmp);
    hide Ceil, Grab;
  }

  lemma MakeTidy(s: Fs, name: Name)
    requires FsShape(s) && Tidy(s) && FsShape(DirMake(s, name).1)
    ensures Tidy(DirMake(s, name).1)
  {
    hide CountFree, TakeBlock, EntriesOk, EncDir;
  }

  lemma SameInodesTidy(s: Fs, name: Name)
    requires FsShape(s) && Tidy(s) && Find(s.cur, name) < MAX_INODE && FsShape(DirChange(s, name).1)
    ensures Tidy(DirChange(s, name).1)
  {
    hide CountFree, EntriesOk, EncDir, DecDir;
  }

  lemma WriteTidy(s: Fs, name: Name, offset: nat, size: nat, buf: seq<Byte>, junk: Block)
    requires FsShape(s) && Tidy(s) && BlockOk(junk) && Find(s.cur, name) < MAX_INODE
    requires Find(s.cur, name) >= 0 ==> InTables(offset, size)
    requires FsShape(FileWrite(s, name, offset, size, buf, junk).1)
    ensures Tidy(FileWrite(s, name, offset, size, buf, junk).1)
  {
    hide CountFree, EntriesOk, Scatter, Gather, Overlaid, Touched;
  }

  // ----- Whole runs -----

  ghost predicate AllAsked(t: Tree, cs: seq<Command>)
    requires TreeOk(t)
    decreases cs
  {
    cs == [] || (Asked(t, cs[0]) && (StepKeepsTree(t, cs[0]); AllAsked(StepTree(t, cs[0]).1, cs[1..])))
  }

  ghost function RunTree(t: Tree, cs: seq<Command>): (seq<Expected>, Tree)
    requires TreeOk(t) && AllAsked(t, cs)
    decreases cs
  {
    if cs == [] then ([], t)
    else
      StepKeepsTree(t, cs[0]);
      var (e, u) := StepTree(t, cs[0]);
      var (es, v) := RunTree(u, cs[1..]);
      ([e] + es, v)
  }

  /** Every command of the run is allowed where it is given. */
  ghost predicate AllAllowed(s: Fs, cs: seq<Command>)
    requires Inv(s)
    decreases cs
  {
    cs == [] || (Allowed(s, cs[0]) && (StepRefines(s, cs[0]); AllAllowed(Step(s, cs[0]).1, cs[1..])))
  }

  ghost function Run(s: Fs, cs: seq<Command>): (seq<Reply>, Fs)
    requires Inv(s) && AllAllowed(s, cs)
    decreases cs
  {
    if cs == [] then ([], s)
    else
      StepRefines(s, cs[0]);
      var (r, t) := Step(s, cs[0]);
      var (rs, u) := Run(t, cs[1..]);
      ([r] + rs, u)
  }

  predicate AllMeet(rs: seq<Reply>, es: seq<Expected>) {
    |rs| == |es| && forall i :: 0 <= i < |rs| ==> Meets(rs[i], es[i])
  }

  /** The first command of a run, and what is left of it. */
  lemma FirstAllowed(s: Fs, c: Command, rest: seq<Command>)
    requires Inv(s) && AllAllowed(s, [c] + rest)
    ensures Allowed(s, c) && Asked(Abs(s), c)
    ensures var (r, t) := Step(s, c); var (e, u) := StepTree(Abs(s), c);
      && Inv(t) && TreeOk(u) && Abs(t) == u && Meets(r, e) && AllAllowed(t, rest)
      && Run(s, [c] + rest) == ([r] + Run(t, rest).0, Run(t, rest).1)
  {
    hide Asked, Proper, Inv, Abs, Step, StepTree, Meets, TreeOk;
    InvTreeOk(s);
    StepRefines(s, c);
    InvTreeOk(Step(s, c).1);
    assert ([c] + rest)[1..] == rest;
  }

  /** The same of the tree's run. */
  lemma FirstAsked(t: Tree, c: Command, rest: seq<Command>)
    requires TreeOk(t) && Asked(t, c)
    ensures var (e, u) := StepTree(t, c);
      && TreeOk(u) && (AllAsked(t, [c] + rest) <==> AllAsked(u, rest))
      && (AllAsked(u, rest) ==> RunTree(t, [c] + rest) == ([e] + RunTree(u, rest).0, RunTree(u, rest).1))
  {
    hide Asked, StepTree, TreeOk;
    StepKeepsTree(t, c);
    assert ([c] + rest)[1..] == rest;
  }

  lemma MeetsFirst(r: Reply, rs: seq<Reply>, e: Expected, es: seq<Expected>)
    requires Meets(r, e) && AllMeet(rs, es)
    ensures AllMeet([r] + rs, [e] + es)
  {
  }

  lemma {:induction false} RunRefines(s: Fs, cs: seq<Command>)
    requires Inv(s) && AllAllowed(s, cs)
    ensures AllAsked(Abs(s), cs)
    ensures var (rs, t) := Run(s, cs); var (es, u) := RunTree(Abs(s), cs);
      Inv(t) && Abs(t) == u && AllMeet(rs, es)
    decreases cs
  {
    hide *;
    if cs == [] {
      NothingRun(s, cs);
    } else {
      var c, rest := cs[0], cs[1..];
      assert cs == [c] + rest;
      InvTreeOk(s);
      FirstAllowed(s, c, rest);
      FirstAsked(Abs(s), c, rest);
      var (r, t) := Step(s, c);
      InvTreeOk(t);
      RunRefines(t, rest);
      MeetsFirst(r, Run(t, rest).0, StepTree(Abs(s), c).0, RunTree(Abs(t), rest).0);
    }
  }

  lemma NothingRun(s: Fs, cs: seq<Command>)
    requires Inv(s) && AllAllowed(s, cs) && cs == []
    ensures AllAsked(Abs(s), cs) && Run(s, cs) == ([], s) && RunTree(Abs(s), cs) == ([], Abs(s))
    ensures AllMeet(Run(s, cs).0, RunTree(Abs(s), cs).0)
  {
  }

  // ----- Runs that the tree alone allows -----

  /** Short writes end inside the blocks of what they write to. */
  ghost predicate EndsInside(t: Tree, c: Command)
    requires t.cwd in t.dirs
  {
    c.WriteFile? && Find(Here(t), c.name) >= 0 && c.size == |c.buf| && EndBlock(c.offset, c.size) < DIRECT_BLOCK ==>
      EndBlock(c.offset, c.size) < BlocksOf(t, Find(Here(t), c.name))
  }

  /** What needs no look at the blocks: no short write over another directory's listing, and, once something
      has been removed, none past the end. `tidy` says that nothing has been removed so far. */
  ghost predicate Safe(t: Tree, c: Command, tidy: bool)
    requires t.cwd in t.dirs
  {
    && Asked(t, c) && (tidy || EndsInside(t, c))
    && (c.WriteFile? ==> Writable(t, c.name, c.offset, c.size, c.buf))
  }

  ghost predicate AllSafe(t: Tree, cs: seq<Command>, tidy: bool)
    requires TreeOk(t)
    decreases cs
  {
    cs == [] ||
    (Safe(t, cs[0], tidy) && (StepKeepsTree(t, cs[0]);
                              AllSafe(StepTree(t, cs[0]).1, cs[1..], tidy && !cs[0].RemoveFile?)))
  }

  lemma BlocksAre(s: Fs, n: nat)
    requires Sound(s) && (IsFile(s, n) || IsDir(s, n))
    ensures BlocksOf(Abs(s), n) == s.inodes[n].blockCount
  {
    if IsFile(s, n) { InFiles(s, n); }
  }

  lemma SafeIsAllowed(s: Fs, c: Command, tidy: bool)
    requires Inv(s) && Abs(s).cwd in Abs(s).dirs && Safe(Abs(s), c, tidy) && (tidy ==> Tidy(s))
    ensures Allowed(s, c)
  {
    HereIsCur(s);
    if c.WriteFile? {
      if Find(s.cur, c.name) >= 0 {
        FileFound(s, c.name);
        BlocksAre(s, Find(s.cur, c.name));
      }
      hide TreeOk, Proper, Tidy, InTables;
      WritableIsProper(s, c.name, c.offset, c.size, c.buf);
    }
  }

  lemma SafeStep(s: Fs, c: Command, tidy: bool)
    requires Inv(s) && Abs(s).cwd in Abs(s).dirs && Safe(Abs(s), c, tidy) && (tidy ==> Tidy(s))
    ensures Allowed(s, c) && Asked(Abs(s), c)
    ensures var t := Step(s, c).1;
      Inv(t) && TreeOk(Abs(t)) && Abs(t) == StepTree(Abs(s), c).1 && (tidy && !c.RemoveFile? ==> Tidy(t))
  {
    hide Inv, Abs, Proper, Tidy, Step, StepTree, Meets, EndsInside, Asked, TreeOk;
    SafeIsAllowed(s, c, tidy);
    StepRefines(s, c);
    InvTreeOk(Step(s, c).1);
    if tidy && !c.RemoveFile? { StepTidy(s, c); }
  }

  /** The first command of a run the tree allows. */
  lemma FirstSafe(t: Tree, c: Command, rest: seq<Command>, tidy: bool)
    requires TreeOk(t)
    ensures AllSafe(t, [c] + rest, tidy) ==> Safe(t, c, tidy)
    ensures Safe(t, c, tidy) ==>
      && TreeOk(StepTree(t, c).1)
      && (AllSafe(t, [c] + rest, tidy) <==> AllSafe(StepTree(t, c).1, rest, tidy && !c.RemoveFile?))
  {
    assert t.cwd in t.dirs;
    hide Asked, EndsInside, StepTree, TreeOk;
    if Safe(t, c, tidy) { StepKeepsTree(t, c); }
    assert ([c] + rest)[1..] == rest;
  }

  lemma {:induction false} AllSafeAllowed(s: Fs, cs: seq<Command>, tidy: bool)
    requires Inv(s) && TreeOk(Abs(s)) && AllSafe(Abs(s), cs, tidy) && (tidy ==> Tidy(s))
    ensures AllAllowed(s, cs)
    decreases cs
  {
    if cs != [] {
      hide *;
      var c, rest := cs[0], cs[1..];
      assert cs == [c] + rest;
      InvTreeOk(s);
      FirstSafe(Abs(s), c, rest, tidy);
      SafeStep(s, c, tidy);
      AllSafeAllowed(Step(s, c).1, rest, tidy && !c.RemoveFile?);
      OneMoreAllowed(s, c, rest);
    }
  }

  lemma OneMoreAllowed(s: Fs, c: Command, rest: seq<Command>)
    requires Inv(s) && Allowed(s, c) && Asked(Abs(s), c) && Inv(Step(s, c).1) && AllAllowed(Step(s, c).1, rest)
    ensures AllAllowed(s, [c] + rest)
  {
    hide Allowed, Inv, Abs, Step;
    assert ([c] + rest)[1..] == rest;
  }

  function NewTree(): Tree {
    Tree(0, map[0 := [Entry(DOT, 0)]], map[], MAX_BLOCK - METADATA_BLOCKS - 1)
  }

  lemma NewTreeOk()
    ensures TreeOk(NewTree()) && Inv(FirstMount()) && Tidy(FirstMount()) && Abs(FirstMount()) == NewTree()
  {
    FirstMountInv();
  }

  /** Commands that can be given, one after another, to a new disk. */
  ghost predicate Possible(cs: seq<Command>) {
    NewTreeOk();
    AllAllowed(FirstMount(), cs)
  }

  ghost function FromNewDisk(cs: seq<Command>): (seq<Reply>, Fs)
    requires Possible(cs)
  {
    NewTreeOk();
    Run(FirstMount(), cs)
  }

  ghost function FromNewTree(cs: seq<Command>): (seq<Expected>, Tree)
    requires Possible(cs)
  {
    NewTreeOk();
    RunRefines(FirstMount(), cs);
    RunTree(NewTree(), cs)
  }

  /** Whether a run is possible can be told from the tree alone, as long as writes after a removal end inside
      what they write to. */
  lemma SafeRuns(cs: seq<Command>)
    ensures TreeOk(NewTree()) && (AllSafe(NewTree(), cs, true) ==> Possible(cs))
  {
    hide FirstMount, Inv, Tidy, AllSafe, AllAllowed;
    NewTreeOk();
    if AllSafe(NewTree(), cs, true) { AllSafeAllowed(FirstMount(), cs, true); }
  }

  /** From a new disk, any run of commands gives the replies, the listings and the files the tree gives. */
  lemma RunFromNewDisk(cs: seq<Command>)
    requires Possible(cs)
    ensures var (rs, t) := FromNewDisk(cs); var (es, u) := FromNewTree(cs);
      Inv(t) && Abs(t) == u && AllMeet(rs, es)
  {
    NewTreeOk();
    RunRefines(FirstMount(), cs);
  }

  /** After any run no two inodes share a block, no block in use is free or metadata, and the counters are exact. */
  lemma BlocksNeverShared(cs: seq<Command>, i: nat, j: nat, b: nat)
    requires Possible(cs)
    ensures var t := FromNewDisk(cs).1;
      && Sound(t) && t.store.free == CountFree(t.store.used) && t.freeInodes == CountFree(t.inodeUsed)
      && (Allocated(t, i) ==> NoDup(Owned(t.store, t.inodes[i])))
      && (Allocated(t, i) && OwnedBy(t, i, b) ==> METADATA_BLOCKS <= b < MAX_BLOCK && t.store.used[b])
      && (Allocated(t, i) && Allocated(t, j) && OwnedBy(t, i, b) && OwnedBy(t, j, b) ==> i == j)
  {
    hide Possible, FromNewDisk, FromNewTree;
    RunFromNewDisk(cs);
  }
}
