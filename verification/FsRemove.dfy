/** `file_remove`, and which files it can take out of a directory. */
module FsRemove {
  import opened Lists
  import opened Bits
  import opened Codec
  import opened FileSystem
  import opened FsInvariant
  import opened FsContents
  import opened FsTree
  import opened FsRefinement

  /** `free_block`: a free block stays free, and the call fails. */
  function ReleaseBlock(st: Store, b: nat): (r: (bool, Store))
    requires StoreOk(st) && b < MAX_BLOCK
    ensures StoreOk(r.1) && r.1.disk == st.disk && r.0 == st.used[b] && !r.1.used[b]
  {
    CountFreeUpdate(st.used, b, false);
    if st.used[b] then (true, st.(used := st.used[b := false], free := st.free + 1)) else (false, st)
  }

  predicate OnDisk(bs: seq<nat>) {
    forall i :: 0 <= i < |bs| ==> bs[i] < MAX_BLOCK
  }

  /** The freeing loops: they stop at the first block that is free already. */
  function ReleaseAll(st: Store, bs: seq<nat>): (r: (bool, Store))
    requires StoreOk(st) && OnDisk(bs)
    ensures StoreOk(r.1) && r.1.disk == st.disk
    decreases bs
  {
    if bs == [] then (true, st)
    else
      var (ok, t) := ReleaseBlock(st, bs[0]);
      if !ok then (false, t) else ReleaseAll(t, bs[1..])
  }

  lemma {:induction false} ReleaseAppend(st: Store, a: seq<nat>, b: seq<nat>)
    requires StoreOk(st) && OnDisk(a) && OnDisk(b)
    ensures var (ok, t) := ReleaseAll(st, a);
      ReleaseAll(st, a + b) == if ok then ReleaseAll(t, b) else (false, t)
    decreases a
  {
    if a == [] {
      assert a + b == b;
    } else {
      assert (a + b)[1..] == a[1..] + b;
      ReleaseAppend(ReleaseBlock(st, a[0]).1, a[1..], b);
    }
  }

  /** The blocks in the order in which they are freed: those of the map first. */
  function Doomed(st: Store, n: Inode): seq<nat>
    requires StoreOk(st) && InodeShape(n)
  {
    if n.blockCount > DIRECT_BLOCK then Words(st.disk, n.indirect)[..n.blockCount - DIRECT_BLOCK] + n.direct
    else n.direct[..n.blockCount]
  }

  /** The two freeing loops of a large file. */
  lemma ReleaseInTwo(st: Store, n: Inode)
    requires StoreOk(st) && InodeShape(n) && n.blockCount > DIRECT_BLOCK && OnDisk(Doomed(st, n))
    ensures var w := Words(st.disk, n.indirect)[..n.blockCount - DIRECT_BLOCK];
      && OnDisk(w) && OnDisk(n.direct)
      && var (ok, t) := ReleaseAll(st, w);
        ReleaseAll(st, Doomed(st, n)) == if ok then ReleaseAll(t, n.direct) else (false, t)
  {
    hide Words;
    var w, d := Words(st.disk, n.indirect)[..n.blockCount - DIRECT_BLOCK], Doomed(st, n);
    assert forall i :: 0 <= i < |w| ==> d[i] == w[i];
    assert forall i :: 0 <= i < DIRECT_BLOCK ==> d[|w| + i] == n.direct[i];
    ReleaseAppend(st, w, n.direct);
  }

  /** What the code does to the listing: the last entry goes, over entry number `n` if that is not it.
      `n` is an inode number; entries beyond the listing are not looked at. */
  function Compacted(es: seq<Entry>, n: nat): seq<Entry>
    requires es != []
  {
    var last := |es| - 1;
    if es[last].inode == n || n >= last then es[..last] else es[..last][n := es[last]]
  }

  /** And to the inode it has freed: its size becomes that of the inode whose number is that of the last entry. */
  function Resized(s: Fs, n: nat): seq<Inode>
    requires FsShape(s) && n < MAX_INODE
  {
    var last := |s.cur| - 1;
    if s.cur[last].inode == n then s.inodes else s.inodes[n := s.inodes[n].(size := s.inodes[last].size)]
  }

  /** Entry number `n` is in the table, or not needed. */
  predicate SlotFor(es: seq<Entry>, n: int) {
    es != [] && (es[|es| - 1].inode == n || n < MAX_DIR_ENTRY)
  }

  /** The entry found is not a file in use, or its blocks are on the disk and the code stays in its tables. */
  ghost predicate Removable(s: Fs, name: Name)
    requires FsShape(s)
  {
    var n := Find(s.cur, name);
    n < MAX_INODE && (n >= 0 && s.inodes[n].kind != Directory && s.inodeUsed[n] ==>
      InodeShape(s.inodes[n]) && OnDisk(Doomed(s.store, s.inodes[n])) && SlotFor(s.cur, n))
  }

  /** `file_remove` */
  function FileRemove(s: Fs, name: Name): (int, Fs)
    requires FsShape(s) && Removable(s, name)
  {
    var n := Find(s.cur, name);
    if n < 0 then (-1, s)
    else if s.inodes[n].kind == Directory then (-1, s)
    else if !s.inodeUsed[n] then (-1, s)
    else
      var (ok, st) := ReleaseAll(s.store, Doomed(s.store, s.inodes[n]));
      var t := s.(store := st, inodeUsed := s.inodeUsed[n := false], freeInodes := s.freeInodes + 1);
      if !ok then (-1, t) else (0, t.(cur := Compacted(s.cur, n), inodes := Resized(s, n)))
  }

  /** Distinct used blocks are all freed. */
  lemma {:induction false} ReleaseDistinct(st: Store, bs: seq<nat>)
    requires StoreOk(st) && NoDup(bs) && OnDisk(bs) && forall i :: 0 <= i < |bs| ==> st.used[bs[i]]
    decreases bs
    ensures var (ok, t) := ReleaseAll(st, bs);
      && ok && t.free == st.free + |bs|
      && forall b :: 0 <= b < MAX_BLOCK ==> (t.used[b] <==> st.used[b] && b !in bs)
  {
    if bs != [] {
      assert bs[0] in bs;
      var t, u := ReleaseBlock(st, bs[0]).1, bs[1..];
      forall i | 0 <= i < |u| ensures t.used[u[i]] {
        assert u[i] == bs[i + 1];
      }
      assert forall i, j :: 0 <= i < j < |u| ==> u[i] == bs[i + 1] && u[j] == bs[j + 1];
      ReleaseDistinct(t, u);
      assert forall b :: b in bs <==> b == bs[0] || b in u;
    }
  }

  lemma DoomedAreData(st: Store, n: Inode)
    requires StoreOk(st) && InodeOk(st, n)
    ensures |Doomed(st, n)| == n.blockCount && NoDup(Doomed(st, n))
    ensures forall b :: b in Doomed(st, n) <==> b in DataBlocks(st, n)
    ensures OnDisk(Doomed(st, n)) && forall i :: 0 <= i < n.blockCount ==> st.used[Doomed(st, n)[i]]
  {
    DataFacts(st, n);
    var d, w := DataBlocks(st, n), Doomed(st, n);
    hide DataBlocks, Doomed, InodeOk, Words;
    if n.blockCount > DIRECT_BLOCK {
      Swapped(n.direct, w[..n.blockCount - DIRECT_BLOCK]);
    }
    forall i | 0 <= i < n.blockCount ensures w[i] < MAX_BLOCK && st.used[w[i]] {
      assert w[i] in w;
      assert w[i] in d;
    }
  }

  /** The blocks freed are the file's data blocks, in another order. */
  lemma DataFacts(st: Store, n: Inode)
    requires StoreOk(st) && InodeOk(st, n)
    ensures var d, w := DataBlocks(st, n), Doomed(st, n);
      && |st.used| == MAX_BLOCK && |d| == |w| == n.blockCount && NoDup(d)
      && (forall b :: b in d ==> b < MAX_BLOCK && st.used[b])
      && if n.blockCount > DIRECT_BLOCK then
           var k := n.blockCount - DIRECT_BLOCK; d == n.direct + w[..k] && w == w[..k] + n.direct
         else w == d
  {
    hide Words;
    var d, o := DataBlocks(st, n), Owned(st, n);
    assert forall i :: 0 <= i < |d| ==> o[i] == d[i] && o[i] in o;
  }

  lemma Swapped(a: seq<nat>, b: seq<nat>)
    requires NoDup(a + b)
    ensures NoDup(b + a) && forall x :: x in b + a <==> x in a + b
  {
    var s, t := a + b, b + a;
    assert forall i :: 0 <= i < |b| ==> t[i] == s[|a| + i];
    assert forall i :: |b| <= i < |t| ==> t[i] == s[i - |b|];
  }

  /** Removing frees the inode and its data blocks, and not the map block. */
  lemma RemoveEffect(s: Fs, name: Name)
    requires Sound(s) && 0 <= Find(s.cur, name) < MAX_INODE && IsFile(s, Find(s.cur, name))
    requires SlotFor(s.cur, Find(s.cur, name))
    ensures Removable(s, name)
    ensures var (r, t) := FileRemove(s, name); var n := Find(s.cur, name);
      && r == 0 && t.inodeUsed == s.inodeUsed[n := false] && t.freeInodes == s.freeInodes + 1
      && t.cur == Compacted(s.cur, n) && t.inodes == Resized(s, n) && t.scratch == s.scratch
      && t.store.free == s.store.free + s.inodes[n].blockCount && StoreOk(t.store) && t.store.disk == s.store.disk
      && forall b :: 0 <= b < MAX_BLOCK ==>
         (t.store.used[b] <==> s.store.used[b] && b !in DataBlocks(s.store, s.inodes[n]))
  {
    var n := s.inodes[Find(s.cur, name)];
    DoomedAreData(s.store, n);
    ReleaseDistinct(s.store, Doomed(s.store, n));
  }

  /** Of the inodes only the freed one changes, and of it only the size, unless it is listed last: that becomes
      the size of the inode whose number is one less than the length of the listing. */
  lemma FreedInode(s: Fs, name: Name, i: nat)
    requires Sound(s) && 0 <= Find(s.cur, name) < MAX_INODE && IsFile(s, Find(s.cur, name))
    requires SlotFor(s.cur, Find(s.cur, name)) && i < MAX_INODE
    ensures Removable(s, name) && |FileRemove(s, name).1.inodes| == |s.inodes| == MAX_INODE && 1 <= |s.cur| <= 25
    ensures var t, n, last := FileRemove(s, name).1, Find(s.cur, name), |s.cur| - 1;
      && t.inodes[i] == s.inodes[i].(size := t.inodes[i].size)
      && t.inodes[i].size == s.inodes[if i == n && s.cur[last].inode != n then last else i].size
  {
    RemoveEffect(s, name);
    hide FileRemove, Removable, DataBlocks, InodeOk;
  }

  /** Nothing is removed, and nothing changes, for a name that is not there, a directory, or an entry whose inode is
      free already. */
  lemma RemoveRefused(s: Fs, name: Name)
    requires FsShape(s) && Removable(s, name)
    requires var n := Find(s.cur, name); n < 0 || s.inodes[n].kind == Directory || !s.inodeUsed[n]
    ensures FileRemove(s, name) == (-1, s)
  {
  }

  /** The freeing loops stop at a block that is free already. */
  lemma ReleaseStops(st: Store, a: seq<nat>, b: nat, c: seq<nat>)
    requires StoreOk(st) && OnDisk(a + ([b] + c)) && NoDup(a) && OnDisk(a) && OnDisk([b] + c)
    requires (forall i :: 0 <= i < |a| ==> st.used[a[i]]) && b < MAX_BLOCK && (st.used[b] ==> b in a)
    ensures var (ok, t) := ReleaseAll(st, a + ([b] + c));
      && !ok && t.free == st.free + |a|
      && forall x :: 0 <= x < MAX_BLOCK ==> (t.used[x] <==> st.used[x] && x !in a)
  {
    ReleaseDistinct(st, a);
    ReleaseAppend(st, a, [b] + c);
  }

  /** Then the removal fails, with the inode and the blocks before that one freed and the entry still there. */
  lemma RemoveStops(s: Fs, name: Name, a: seq<nat>, b: nat, c: seq<nat>)
    requires FsShape(s) && Removable(s, name) && Find(s.cur, name) >= 0
    requires var n := Find(s.cur, name);
      && s.inodes[n].kind == File && s.inodeUsed[n] && Doomed(s.store, s.inodes[n]) == a + ([b] + c)
    requires OnDisk(a) && OnDisk([b] + c) && NoDup(a) && b < MAX_BLOCK
    requires (forall i :: 0 <= i < |a| ==> s.store.used[a[i]]) && (s.store.used[b] ==> b in a)
    ensures var (r, t) := FileRemove(s, name); var n := Find(s.cur, name);
      && r == -1 && t.cur == s.cur && t.inodes == s.inodes && t.inodeUsed == s.inodeUsed[n := false]
      && t.store.free == s.store.free + |a| && t.store.disk == s.store.disk
      && forall x :: 0 <= x < MAX_BLOCK ==> (t.store.used[x] <==> s.store.used[x] && x !in a)
  {
    ReleaseStops(s.store, a, b, c);
    hide Doomed, CountFree;
  }

  // ----- The tree -----

  /** After a removal the other inodes own what they owned, and it is still marked. */
  lemma RemovedInode(s: Fs, t: Fs, n: nat, i: int)
    requires Sound(s) && FsShape(t) && Allocated(s, n) && Allocated(s, i) && i != n
    requires t.store.disk == s.store.disk
    requires forall b :: 0 <= b < MAX_BLOCK ==>
      (t.store.used[b] <==> s.store.used[b] && b !in DataBlocks(s.store, s.inodes[n]))
    ensures InodeOk(t.store, s.inodes[i]) && Owned(t.store, s.inodes[i]) == Owned(s.store, s.inodes[i])
    ensures Content(t.store, s.inodes[i]) == Content(s.store, s.inodes[i])
    ensures s.inodes[i].blockCount >= 1 ==> Listing(t.store, s.inodes[i]) == Listing(s.store, s.inodes[i])
  {
    forall b | b in Owned(s.store, s.inodes[i]) ensures b !in DataBlocks(s.store, s.inodes[n]) {
      assert OwnedBy(s, i, b);
      assert b in DataBlocks(s.store, s.inodes[n]) ==> OwnedBy(s, n, b);
    }
    SameInode(s.store, t.store, s.inodes[i]);
  }

  /** `t` is `s` without inode `n` and its data blocks. */
  ghost predicate Removed(s: Fs, t: Fs, n: nat)
    requires Sound(s)
  {
    && Allocated(s, n) && FsShape(t) && t.inodeUsed == s.inodeUsed[n := false] && t.store.disk == s.store.disk
    && (forall i :: 0 <= i < MAX_INODE && i != n ==> t.inodes[i] == s.inodes[i])
    && forall b :: 0 <= b < MAX_BLOCK ==>
         (t.store.used[b] <==> s.store.used[b] && b !in DataBlocks(s.store, s.inodes[n]))
  }

  lemma RemovedSound(s: Fs, t: Fs, n: nat)
    requires Sound(s) && Removed(s, t, n)
    ensures Sound(t)
  {
    forall i | Allocated(t, i)
      ensures InodeOk(t.store, t.inodes[i]) && Owned(t.store, t.inodes[i]) == Owned(s.store, s.inodes[i])
    {
      RemovedInode(s, t, n, i);
    }
    forall i, j, b | Allocated(t, i) && Allocated(t, j) && OwnedBy(t, i, b) && OwnedBy(t, j, b) ensures i == j {
      assert OwnedBy(s, i, b) && OwnedBy(s, j, b);
    }
    DataNotMetadata(s, n);
  }

  lemma DataNotMetadata(s: Fs, n: nat)
    requires Sound(s) && Allocated(s, n)
    ensures forall b :: b in DataBlocks(s.store, s.inodes[n]) ==> METADATA_BLOCKS <= b
  {
    forall b | b in DataBlocks(s.store, s.inodes[n]) ensures METADATA_BLOCKS <= b {
      assert b in Owned(s.store, s.inodes[n]);
    }
  }

  lemma RemovedKept(s: Fs, t: Fs, n: nat, i: nat)
    requires Sound(s) && Sound(t) && Removed(s, t, n) && i != n && Cwd(t) == Cwd(s)
    ensures Kept(s, t, i)
  {
    hide Sound, InodeOk, Owned, Content, Listing, DataBlocks, Removed;
    RemovedParts(s, t, n);
    if Allocated(s, i) { RemovedInode(s, t, n, i); }
  }

  lemma RemovedParts(s: Fs, t: Fs, n: nat)
    requires Sound(s) && Sound(t) && Removed(s, t, n)
    ensures FsShape(s) && FsShape(t) && Allocated(s, n) && t.store.disk == s.store.disk
    ensures t.inodeUsed == s.inodeUsed[n := false]
    ensures forall i :: 0 <= i < MAX_INODE && i != n ==> t.inodes[i] == s.inodes[i]
    ensures forall b :: 0 <= b < MAX_BLOCK ==>
      (t.store.used[b] <==> s.store.used[b] && b !in DataBlocks(s.store, s.inodes[n]))
    ensures forall i :: Allocated(s, i) && s.inodes[i].kind == Directory ==> s.inodes[i].blockCount == 1
  {
  }

  lemma FilesLess(s: Fs, t: Fs, n: nat)
    requires Sound(s) && Sound(t) && KeptBut(s, t, n) && n < MAX_INODE && !IsFile(t, n)
    ensures FilesOf(t) == FilesOf(s) - {n}
  {
    hide Sound, FileOf, IsDir, ListingOf;
    forall i: nat ensures i in FilesOf(t) <==> i in FilesOf(s) - {n} {
      if i < MAX_INODE && i != n { assert Kept(s, t, i); }
    }
    forall i: nat | i in FilesOf(t) ensures FilesOf(t)[i] == FilesOf(s)[i] {
      assert Kept(s, t, i);
    }
  }

  lemma RemovedTree(s: Fs, t: Fs, n: nat)
    requires Sound(s) && Sound(t) && Removed(s, t, n) && IsFile(s, n) && IsDir(s, Cwd(s)) && Cwd(t) == Cwd(s)
    ensures DirsOf(t) == DirsOf(s)[Cwd(s) := t.cur] && FilesOf(t) == FilesOf(s) - {n}
  {
    assert n < MAX_INODE && n != Cwd(s) && !IsDir(s, n) && !IsDir(t, n) && !IsFile(t, n);
    hide Sound, Removed, Kept, IsDir, IsFile, DirsOf, FilesOf;
    forall i: nat | i < MAX_INODE && i != n ensures Kept(s, t, i) {
      RemovedKept(s, t, n, i);
    }
    FilesLess(s, t, n);
    DirsKept(s, t, n);
  }

  // ----- Which files can be taken out -----

  /** The listing loses one entry, whose place the last one takes: the one at the position that is the inode
      number, unless the inode is listed last or its number is not below the last position: then the last. */
  lemma EntryLost(s: Fs, name: Name)
    requires Sound(s) && 0 <= Find(s.cur, name) < MAX_INODE && IsFile(s, Find(s.cur, name))
    requires SlotFor(s.cur, Find(s.cur, name))
    ensures Removable(s, name) && s.cur != []
    ensures var n, last := Find(s.cur, name), |s.cur| - 1;
      FileRemove(s, name).1.cur == Without(s.cur, if s.cur[last].inode == n || n >= last then last else n)
  {
    hide *;
    HasEntries(s);
    RemoveEffect(s, name);
    CompactedIs(s.cur, Find(s.cur, name));
  }

  lemma HasEntries(s: Fs)
    requires Sound(s)
    ensures s.cur != []
  {
  }

  lemma CompactedIs(es: seq<Entry>, n: nat)
    requires es != []
    ensures var last := |es| - 1; Compacted(es, n) == Without(es, if es[last].inode == n || n >= last then last else n)
  {
  }

  /** Inode `n` is listed last, or at the position that is its number. */
  predicate InPlace(es: seq<Entry>, n: int) {
    es != [] && (es[|es| - 1].inode == n || (0 <= n < |es| && es[n].inode == n))
  }

  /** The entry of a file, and what becomes of the listing if it is in place. */
  lemma PlaceIs(t: Tree, name: Name)
    requires TreeOk(t) && Find(Here(t), name) in t.files
    ensures var n, j, last := Find(Here(t), name), IndexOf(Here(t), name), |Here(t)| - 1;
      && FirstChild(t.cwd) <= j <= last && Here(t)[j].inode == n && (InPlace(Here(t), n) <==> j == last || j == n)
      && (InPlace(Here(t), n) ==> Compacted(Here(t), n) == Without(Here(t), j))
      && (!InPlace(Here(t), n) ==> Compacted(Here(t), n)[j].inode == n)
  {
    hide ListingOk;
    var es, n, j := Here(t), Find(Here(t), name), IndexOf(Here(t), name);
    FoundThere(es, name);
    FileIsChild(t, t.cwd, j);
    assert Names(t, t.cwd, j, n);
    assert Names(t, t.cwd, |es| - 1, n) <==> es[|es| - 1].inode == n;
    assert n < |es| ==> (Names(t, t.cwd, n, n) <==> es[n].inode == n);
  }

  lemma FileIs(s: Fs, name: Name)
    requires Inv(s) && Find(s.cur, name) in Abs(s).files
    ensures var n := Find(s.cur, name);
      && FsShape(s) && Sound(s) && TreeOk(Abs(s)) && Abs(s).cwd in Abs(s).dirs && Here(Abs(s)) == s.cur
      && 0 <= n < MAX_INODE && IsFile(s, n) && IsDir(s, Cwd(s)) && EntriesOk(s.cur) && s.cur[0].inode < MAX_INODE
      && |Abs(s).files[n].data| / BLOCK_SIZE == s.inodes[n].blockCount
  {
    HereIsCur(s);
    FileFound(s, name);
    InFiles(s, Find(s.cur, name));
  }

  lemma InFiles(s: Fs, n: nat)
    requires Sound(s) && IsFile(s, n)
    ensures n in Abs(s).files && |Abs(s).files[n].data| / BLOCK_SIZE == s.inodes[n].blockCount
  {
    ContentLength(s.store, s.inodes[n]);
  }

  lemma RemovedShape(s: Fs, name: Name)
    requires Sound(s) && 0 <= Find(s.cur, name) < MAX_INODE && IsFile(s, Find(s.cur, name))
    requires SlotFor(s.cur, Find(s.cur, name)) && EntriesOk(Compacted(s.cur, Find(s.cur, name)))
    requires Compacted(s.cur, Find(s.cur, name)) != [] && Compacted(s.cur, Find(s.cur, name))[0] == s.cur[0]
    ensures Removable(s, name)
    ensures var (r, t) := FileRemove(s, name); var n := Find(s.cur, name);
      && Removed(s, t, n) && t.cur != [] && Cwd(t) == Cwd(s)
  {
    hide FileRemove, Removable, CountFree, Compacted, EntriesOk, DataBlocks, InodeOk;
    RemoveEffect(s, name);
    CountFreeUpdate(s.inodeUsed, Find(s.cur, name), false);
  }

  lemma StillNamed(es: seq<Entry>, j: nat)
    requires EntriesOk(es) && 1 <= j < |es|
    ensures EntriesOk(Without(es, j)) && Without(es, j) != [] && Without(es, j)[0] == es[0]
  {
  }

  lemma RemovedAbs(s: Fs, t: Fs, name: Name)
    requires Sound(s) && Sound(t) && Abs(s).cwd in Abs(s).dirs && Here(Abs(s)) == s.cur
    requires Find(s.cur, name) in Abs(s).files && FilesOf(t) == FilesOf(s) - {Find(s.cur, name)}
    requires t.store.free == s.store.free + |Abs(s).files[Find(s.cur, name)].data| / BLOCK_SIZE
    requires IndexOf(s.cur, name) < |s.cur| && t.cur == Without(s.cur, IndexOf(s.cur, name))
    requires DirsOf(t) == DirsOf(s)[Cwd(s) := t.cur] && t.cur != [] && Cwd(t) == Cwd(s)
    ensures (0, Abs(t)) == TakeOut(Abs(s), name)
  {
    hide Sound, DirsOf, FilesOf;
  }

  lemma RemoveInPlace(s: Fs, name: Name)
    requires Inv(s) && Find(s.cur, name) in Abs(s).files && InPlace(s.cur, Find(s.cur, name))
    requires SlotFor(s.cur, Find(s.cur, name))
    ensures Removable(s, name) && Here(Abs(s)) == s.cur
    ensures var (r, t) := FileRemove(s, name);
      Sound(t) && (r, Abs(t)) == TakeOut(Abs(s), name)
  {
    hide *;
    FileIs(s, name);
    PlaceIs(Abs(s), name);
    AbsParts(s, 0);
    OneIsFirst(Cwd(s), IndexOf(s.cur, name));
    StillNamed(s.cur, IndexOf(s.cur, name));
    RemoveEffect(s, name);
    RemovedShape(s, name);
    var n, t := Find(s.cur, name), FileRemove(s, name).1;
    RemovedSound(s, t, n);
    RemovedTree(s, t, n);
    RemovedAbs(s, t, name);
  }

  lemma OneIsFirst(d: nat, j: nat)
    requires FirstChild(d) <= j
    ensures 1 <= j
  {
  }

  lemma AllListedAllocated(t: Fs, j: nat)
    requires Inv(t) && j < |t.cur|
    ensures Allocated(t, t.cur[j].inode)
  {
    HereIsCur(t);
    hide TreeOk;
    TreeParts(Abs(t), Cwd(t));
  }

  /** `file_remove` answers 0 for every file. It takes the file out and leaves a file system exactly when
      the file is listed last, or at the position that is its inode number: it is entry `n`, with `n` the
      inode number, that the last entry is moved to. */
  lemma RemoveExactly(s: Fs, name: Name)
    requires Inv(s) && Find(s.cur, name) in Abs(s).files && s.cur != []
    requires s.cur[|s.cur| - 1].inode == Find(s.cur, name) || Find(s.cur, name) < 25
    ensures Removable(s, name) && Here(Abs(s)) == s.cur
    ensures var n := Find(s.cur, name); var (r, t) := FileRemove(s, name);
      && r == 0 && (Inv(t) <==> InPlace(s.cur, n))
      && (InPlace(s.cur, n) ==> Abs(t) == TakeOut(Abs(s), name).1)
  {
    assert SlotFor(s.cur, Find(s.cur, name));
    hide *;
    var n := Find(s.cur, name);
    FileIs(s, name);
    PlaceIs(Abs(s), name);
    RemoveEffect(s, name);
    if InPlace(s.cur, n) {
      RemoveInPlace(s, name);
      RemoveKeepsTree(Abs(s), name);
      InvBy(FileRemove(s, name).1);
    } else {
      NotInPlace(s, FileRemove(s, name).1, n, IndexOf(s.cur, name));
    }
  }

  lemma InvBy(t: Fs)
    requires Sound(t) && TreeOk(Abs(t))
    ensures Inv(t)
  {
  }

  lemma NotInPlace(s: Fs, t: Fs, n: nat, j: nat)
    requires s.cur != [] && t.cur == Compacted(s.cur, n) && j < |s.cur| - 1 && Compacted(s.cur, n)[j].inode == n
    requires |s.inodeUsed| == MAX_INODE && n < MAX_INODE && t.inodeUsed == s.inodeUsed[n := false]
    ensures !Inv(t)
  {
    if Inv(t) { AllListedAllocated(t, j); }
  }

  /** `file_remove` on blocks is the tree's, for any name but that of a file that is not in place. */
  lemma RemoveRefines(s: Fs, name: Name)
    requires Inv(s)
    requires var n := Find(s.cur, name); n in Abs(s).files ==> InPlace(s.cur, n)
    ensures Removable(s, name) && Here(Abs(s)) == s.cur
    ensures var (r, t) := FileRemove(s, name);
      Inv(t) && (r, Abs(t)) == TakeOut(Abs(s), name)
  {
    HereIsCur(s);
    var n := Find(s.cur, name);
    if n >= 0 { FileFound(s, name); }
    RemoveKeepsTree(Abs(s), name);
    if n in Abs(s).files { RemoveInPlace(s, name); }
  }
}
