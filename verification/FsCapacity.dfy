/** What fits: bytes, names, entries, files and a disk in numbers; creation and mkdir go through exactly when there is
    room. */
module FsCapacity {
  import opened Bits
  import opened Codec
  import opened FileSystem
  import opened FsTree
  import opened FsRefinement
  import opened FsDirectories
  import opened FsRuns
  import opened FsPromises

  // ----- Entries -----

  /** A directory block has room for 25 entries of 20 bytes after its count, and for no more. */
  lemma EntriesFit(es: seq<Entry>)
    requires forall i :: 0 <= i < |es| ==> NameOk(es[i].name) && es[i].inode < WORD
    ensures forall i :: 0 <= i < |es| ==> |EncEntry(es[i])| == 20
    ensures BLOCK_SIZE == 512 && (EntriesOk(es) <==> 4 + 20 * |es| <= 512) && (EntriesOk(es) <==> |es| <= 25)
    ensures DirFull(es) <==> |es| >= 24
  {
  }

  /** A name fits a 16-byte field exactly if it has at most 15 bytes, none of them 0. */
  lemma NamesFit(name: Name)
    ensures NameOk(name) <==> |name| <= 15 && forall i :: 0 <= i < |name| ==> name[i] != 0
  {
  }

  // ----- Searching -----

  /** A name is new when no entry has it. */
  lemma NewName(es: seq<Entry>, name: Name)
    ensures Find(es, name) < 0 <==> forall i :: 0 <= i < |es| ==> es[i].name != name
  {
    FindFirst(es, name);
  }

  // ----- Creating -----

  /** Blocks of a new file's data. */
  function DataBlocksNeeded(size: nat): nat {
    if size < 5120 then (size + 511) / 512 else size / 512 + 1
  }

  /** There is room for one more inode under a new name, and for `blocks` blocks. */
  ghost predicate Room(s: Fs, name: Name, blocks: nat)
    requires FsShape(s)
  {
    && (forall i :: 0 <= i < |s.cur| ==> s.cur[i].name != name)
    && |s.cur| < 24 && blocks <= s.store.free && exists i :: 0 <= i < 512 && !s.inodeUsed[i]
  }

  lemma RoomIs(s: Fs, name: Name, blocks: nat)
    requires Inv(s)
    ensures FsShape(s) && Abs(s).cwd in Abs(s).dirs && (CanCreate(Abs(s), name, blocks) <==> Room(s, name, blocks))
  {
    InvFacts(s);
    HereIsCur(s);
    TakenIsUsed(s);
    NewName(s.cur, name);
    hide Inv;
  }

  /** What `file_create` needs of the caller, in numbers. */
  lemma CreatableIs(name: Name, size: nat, tmp: seq<Byte>)
    requires |name| <= 15 && 0 !in name && size < 70656 && 512 * DataBlocksNeeded(size) <= |tmp|
    ensures NameOk(name) && size < LARGE_FILE && BLOCK_SIZE * BlocksFor(size) <= |tmp|
    ensures BlocksFor(size) == DataBlocksNeeded(size) && BLOCK_SIZE == 512
  {
    BlockCountIs(size);
  }

  /** `file_create` makes the whole file exactly when its name is new, the listing has fewer than 24 entries, an
      inode is free, and so are the blocks of its data, with one more for the map from 5120 bytes on. */
  lemma CreatesExactly(s: Fs, name: Name, size: nat, tmp: seq<Byte>)
    requires Inv(s) && |name| <= 15 && 0 !in name && size < 70656 && 512 * DataBlocksNeeded(size) <= |tmp|
    ensures FsShape(s) && NameOk(name) && size < LARGE_FILE && BLOCK_SIZE * BlocksFor(size) <= |tmp|
    ensures var t := FileCreate(s, name, size, tmp).1;
      && Inv(t)
      && (Created(Abs(s), Abs(t), name, size, tmp) <==>
            Room(s, name, DataBlocksNeeded(size) + if size < 5120 then 0 else 1))
  {
    hide *;
    InvFacts(s);
    CreatableIs(name, size, tmp);
    CreatedExactly(s, name, size, tmp);
    RoomIs(s, name, Ceil(First(size)));
    RoomInHalves(s, name, size);
  }

  lemma RoomInHalves(s: Fs, name: Name, size: nat)
    requires Inv(s) && FsShape(s) && Abs(s).cwd in Abs(s).dirs
    requires CanCreate(Abs(s), name, Ceil(First(size))) <==> Room(s, name, Ceil(First(size)))
    ensures CanCreate(Abs(s), name, Ceil(First(size))) && RestFits(Abs(s), size) <==>
              Room(s, name, DataBlocksNeeded(size) + if size < 5120 then 0 else 1)
  {
    hide *;
    SizesAre(size);
    RestIs(s, size);
    RoomMore(s, name, Ceil(First(size)), DataBlocksNeeded(size) + if size < 5120 then 0 else 1);
  }

  lemma SizesAre(size: nat)
    ensures BlocksFor(size) == DataBlocksNeeded(size) && (size < SMALL_FILE <==> size < 5120)
    ensures Ceil(First(size)) == if size < 5120 then DataBlocksNeeded(size) else 10
    ensures size >= 5120 ==> DataBlocksNeeded(size) >= 11
  {
    BlockCountIs(size);
    BlockCountIs(First(size));
    hide Ceil, First, BlocksFor;
  }

  lemma RestIs(s: Fs, size: nat)
    requires Inv(s) && FsShape(s)
    ensures RestFits(Abs(s), size) <==> size < 5120 || DataBlocksNeeded(size) + 1 <= s.store.free
  {
    SizesAre(size);
    AbsParts(s, 0);
    hide Inv, Abs, FsShape, BlocksFor, DataBlocksNeeded;
  }

  lemma RoomMore(s: Fs, name: Name, few: nat, more: nat)
    requires FsShape(s) && few <= more
    ensures Room(s, name, few) && more <= s.store.free <==> Room(s, name, more)
  {
    hide FsShape;
  }

  /** A file of 70656 bytes or more is refused. */
  lemma TooLong(s: Fs, name: Name, size: nat, tmp: seq<Byte>)
    requires FsShape(s) && NameOk(name) && size >= 70656
    ensures size >= LARGE_FILE && FileCreate(s, name, size, tmp) == (-1, s)
  {
  }

  /** `dir_make` answers 0 exactly when the name is new, the listing has fewer than 24 entries and an inode and a
      block are free; the new directory is the lowest free inode, lists itself and its parent, and is listed last.
      Otherwise nothing changes. */
  lemma MakesExactly(s: Fs, name: Name)
    requires Inv(s) && |name| <= 15 && 0 !in name
    ensures FsShape(s) && Abs(s).cwd in Abs(s).dirs
    ensures var (r, t) := DirMake(s, name); var k, a := LowestFree(s.inodeUsed), Abs(s);
      && Inv(t) && (r == 0 <==> Room(s, name, 1)) && (r != 0 ==> r == -1 && t == s)
      && (r == 0 ==>
            && k < |t.inodes| && t.inodes[k].kind == Directory && t.inodes[k].size == t.inodes[k].blockCount == 1
            && Abs(t).dirs == a.dirs[a.cwd := s.cur + [Entry(name, k)]][k := [Entry([46], k), Entry([46, 46], a.cwd)]]
            && Abs(t).files == a.files && t.store.free == s.store.free - 1 && Abs(t).cwd == a.cwd)
  {
    NamesFit(name);
    RoomIs(s, name, 1);
    MakeRefines(s, name);
    HereIsCur(s);
    TakenIsUsed(s);
    AbsParts(DirMake(s, name).1, 0);
    AbsParts(s, 0);
    MakeFails(s, name);
    if DirMake(s, name).0 == 0 { MadeKind(s, name); }
    hide Inv, Abs, FsShape, DirMake, CanCreate, Room;
    MadeInTree(Abs(s), name);
  }

  lemma MakeFails(s: Fs, name: Name)
    requires FsShape(s)
    ensures DirMake(s, name).0 == 0 || DirMake(s, name) == (-1, s)
  {
  }

  lemma MadeKind(s: Fs, name: Name)
    requires FsShape(s) && DirMake(s, name).0 == 0
    ensures var n, k := DirMake(s, name).1.inodes, LowestFree(s.inodeUsed);
      k < |n| && n[k].kind == Directory && n[k].size == n[k].blockCount == 1
  {
    FreeExists(s.inodeUsed);
    hide CountFree, TakeBlock, EncDir;
  }

  lemma MadeInTree(t: Tree, name: Name)
    requires t.cwd in t.dirs
    ensures var (r, u) := MakeDir(t, name); var k := NextInode(t);
      && (r == 0 <==> CanCreate(t, name, 1))
      && (r == 0 ==>
            && u.dirs == t.dirs[t.cwd := Here(t) + [Entry(name, k)]][k := [Entry([46], k), Entry([46, 46], t.cwd)]]
            && u.files == t.files && u.freeBlocks == t.freeBlocks - 1 && u.cwd == t.cwd)
  {
  }

  // ----- Ranges -----

  /** Both ends of a range, in blocks of 512 bytes; a range is short when it ends before byte 5120; and the code
      stays in its tables when the range is short, or begins before byte 5632 and ends before byte 70656. */
  lemma RangesFit(offset: nat, size: nat)
    ensures 512 * StartBlock(offset) <= offset < 512 * StartBlock(offset) + 512
    ensures StartByte(offset) == offset - 512 * StartBlock(offset)
    ensures 512 * EndBlock(offset, size) <= offset + size < 512 * EndBlock(offset, size) + 512
    ensures EndBlock(offset, size) < DIRECT_BLOCK <==> offset + size < 5120
    ensures InTables(offset, size) <==> offset + size < 5120 || (offset < 5632 && offset + size < 70656)
  {
  }

  /** What a command needs of the caller, in numbers. */
  lemma AskedIs(t: Tree, c: Command)
    requires t.cwd in t.dirs
    ensures Asked(t, c) <==>
              match c
              case CreateFile(name, size, tmp) =>
                && |name| <= 15 && (forall i :: 0 <= i < |name| ==> name[i] != 0)
                && (size < 70656 ==> 512 * DataBlocksNeeded(size) <= |tmp|)
              case MakeDirectory(name) => |name| <= 15 && forall i :: 0 <= i < |name| ==> name[i] != 0
              case ChangeDirectory(name) => true
              case WriteFile(name, offset, size, buf, junk) =>
                |junk| == 512 && ((exists e :: e in Here(t) && e.name == name) ==>
                                    offset + size < 5120 || (offset < 5632 && offset + size < 70656))
              case ReadFile(name, offset, size, junk) =>
                |junk| == 512 && (Find(Here(t), name) in t.files ==>
                                    offset + size < 5120 || (offset < 5632 && offset + size < 70656))
              case CatFile(name, junk) => |junk| == 512
              case RemoveFile(name) =>
                var es, n := Here(t), Find(Here(t), name);
                n in t.files ==> es != [] && (es[|es| - 1].inode == n || (0 <= n < |es| && es[n].inode == n))
  {
    if !c.CatFile? { NewName(Here(t), c.name); }
    if c.CreateFile? { BlockCountIs(c.size); }
    if c.ReadFile? || c.WriteFile? { RangesFit(c.offset, c.size); }
    hide Find, InTables, Ceil, First, BlocksFor;
  }

  // ----- A new disk -----

  /** A new disk has 4096 blocks, of which 131 are metadata and one is the root's, and 512 inodes, of which one is the
      root's; the root lists itself. */
  lemma NewDiskRoom()
    ensures var s := FirstMount();
      && FsShape(s) && |s.store.used| == |s.store.disk| == 4096 && |s.inodes| == |s.inodeUsed| == 512
      && s.store.free == 3964 && s.freeInodes == 511 && s.cur == [Entry([46], 0)]
      && (forall b :: 0 <= b < 131 ==> s.store.used[b]) && s.curBlock == s.inodes[0].direct[0] >= 131
  {
    FirstMountRoot();
    hide FirstMount;
  }
}
