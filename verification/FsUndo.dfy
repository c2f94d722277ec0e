/** What `file_remove` gives back of what `file_create` took. */
module FsUndo {
  import opened Bits
  import opened Codec
  import opened FileSystem
  import opened FsInvariant
  import opened FsTree
  import opened FsCreate
  import opened FsRefinement
  import opened FsPromises
  import opened FsRemove

  /** `t` marks what `s` marked and what inode `k` has come to own, none of which `s` marked. */
  ghost predicate Marks(s: Fs, t: Fs, k: nat)
    requires Sound(s) && Sound(t) && Allocated(t, k)
  {
    forall b :: 0 <= b < MAX_BLOCK ==>
      && (t.store.used[b] <==> s.store.used[b] || OwnedBy(t, k, b))
      && !(s.store.used[b] && OwnedBy(t, k, b))
  }

  lemma SmallAdds(s: Fs, name: Name, size: nat, tmp: seq<Byte>)
    requires Sound(s) && NameOk(name) && size < SMALL_FILE
    requires BLOCK_SIZE * Ceil(size) <= |tmp| && SmallGoesThrough(s, name, size)
    ensures var (k, t) := CreateSmall(s, name, size, tmp);
      && Sound(t) && 0 <= k && Allocated(t, k) && Marks(s, t, k) && t.inodes[k].blockCount == Ceil(size) <= DIRECT_BLOCK
  {
    hide CreateSmall, Grab, Sound, InodeOk, Ceil, Extends, Content, Owned, DataBlocks, EntriesOk, CountFree;
    SmallFits(s, size);
    SmallEffect(s, name, size, tmp);
    SmallIs(s, name, size, tmp);
    var (k, t) := CreateSmall(s, name, size, tmp);
    var (bs, st) := Grab(s.store, Ceil(size), tmp, 0);
    SmallInodeOk(s, size, tmp, k, bs, st);
  }

  lemma LargeAdds(s: Fs, k: nat, size: nat, tmp: seq<Byte>)
    requires Sound(s) && IsFile(s, k) && s.inodes[k].blockCount == DIRECT_BLOCK && s.inodes[k].size == SMALL_FILE - 1
    requires 1 <= Ceil(size) <= MAX_INDIRECT_BLOCK && Ceil(size) + 1 <= s.store.free
    requires BLOCK_SIZE * (DIRECT_BLOCK + Ceil(size)) <= |tmp|
    ensures var t := CreateLarge(s, k, size, tmp).1;
      && Sound(t) && Allocated(t, k) && t.inodes[k].blockCount == DIRECT_BLOCK + Ceil(size)
      && forall b :: 0 <= b < MAX_BLOCK ==>
           && (t.store.used[b] <==> s.store.used[b] || OwnedBy(t, k, b))
           && (OwnedBy(s, k, b) ==> OwnedBy(t, k, b))
           && (s.store.used[b] && OwnedBy(t, k, b) ==> OwnedBy(s, k, b))
  {
    hide Grab, TakeBlock, Sound, Ceil, CreateLarge, FsShape, Owned, InodeOk, Extends, Content;
    LargeEffect(s, k, size, tmp);
    LargeBlocks(s, k, size, tmp);
    DirectOwned(s, k);
    LargeUsed(s, k, size, tmp);
  }

  lemma LargeUsed(s: Fs, k: nat, size: nat, tmp: seq<Byte>)
    requires FsShape(s) && k < MAX_INODE && Ceil(size) <= MAX_INDIRECT_BLOCK && Ceil(size) + 1 <= s.store.free
    requires BLOCK_SIZE * (DIRECT_BLOCK + Ceil(size)) <= |tmp|
    ensures var t := CreateLarge(s, k, size, tmp).1; var (indirect, u) := TakeBlock(s.store);
      var bs := Grab(u, Ceil(size), tmp, DIRECT_BLOCK).0;
      && |t.store.used| == |s.store.used| == MAX_BLOCK
      && forall b :: 0 <= b < MAX_BLOCK ==> (t.store.used[b] <==> s.store.used[b] || b in bs || b == indirect)
  {
    hide Ceil, EncWords;
  }

  lemma DirectOwned(s: Fs, k: nat)
    requires Sound(s) && Allocated(s, k) && s.inodes[k].blockCount == DIRECT_BLOCK
    ensures FsShape(s) && InodeShape(s.inodes[k]) && Owned(s.store, s.inodes[k]) == s.inodes[k].direct
    ensures forall b: nat :: OwnedBy(s, k, b) ==> b < MAX_BLOCK && s.store.used[b]
  {
  }

  lemma IsFileBy(t: Fs, k: nat)
    requires FsShape(t) && Allocated(t, k) && t.inodes[k].kind == File
    ensures IsFile(t, k)
  {
  }

  lemma RestFitsIs(s: Fs, size: nat)
    requires Sound(s)
    ensures RestFits(Abs(s), size) <==> size < SMALL_FILE || BlocksFor(size) + 1 <= s.store.free
  {
  }

  /** What a creation that goes through marks and lists, whether or not a second half finds room. */
  lemma CreateMarks(s: Fs, name: Name, size: nat, tmp: seq<Byte>)
    requires Inv(s) && NameOk(name) && size < LARGE_FILE && BLOCK_SIZE * BlocksFor(size) <= |tmp|
    requires CanCreate(Abs(s), name, Ceil(First(size)))
    ensures var t := FileCreate(s, name, size, tmp).1; var k := LowestFree(s.inodeUsed);
      && Inv(t) && k < MAX_INODE && !s.inodeUsed[k] && IsFile(t, k) && t.cur == s.cur + [Entry(name, k)]
      && t.inodeUsed == s.inodeUsed[k := true] && Marks(s, t, k)
      && (t.inodes[k].blockCount > DIRECT_BLOCK <==> size >= SMALL_FILE && RestFits(Abs(s), size))
  {
    hide *;
    InvFacts(s);
    EnoughData(size, tmp);
    CanCreateIs(s, name, First(size));
    CreateRefines(s, name, size, tmp);
    CreateSteps(s, name, size, tmp);
    SmallEffect(s, name, First(size), tmp);
    SmallAdds(s, name, First(size), tmp);
    var (k, t) := CreateSmall(s, name, First(size), tmp);
    IsFileBy(t, k);
    RestFitsIs(s, size);
    if size >= SMALL_FILE {
      SplitSums(size);
      GrowthMarks(s, t, k, size - First(size), tmp);
    }
  }

  lemma SplitSums(size: nat)
    requires SMALL_FILE <= size < LARGE_FILE
    ensures BlocksFor(size) == DIRECT_BLOCK + Ceil(size - First(size))
  {
    SplitInRange(size);
  }

  lemma MarksOn(s: Fs, t: Fs, u: Fs, k: nat)
    requires Sound(s) && Sound(t) && Sound(u) && Allocated(t, k) && Allocated(u, k) && Marks(s, t, k)
    requires forall b :: 0 <= b < MAX_BLOCK ==>
      && (u.store.used[b] <==> t.store.used[b] || OwnedBy(u, k, b))
      && (OwnedBy(t, k, b) ==> OwnedBy(u, k, b))
      && (t.store.used[b] && OwnedBy(u, k, b) ==> OwnedBy(t, k, b))
    ensures Marks(s, u, k)
  {
    assert StoreOk(s.store) && StoreOk(t.store) && StoreOk(u.store);
    hide Sound, Owned, OwnedBy;
    forall b | 0 <= b < MAX_BLOCK
      ensures (u.store.used[b] <==> s.store.used[b] || OwnedBy(u, k, b)) && !(s.store.used[b] && OwnedBy(u, k, b))
    {
      assert t.store.used[b] <==> s.store.used[b] || OwnedBy(t, k, b);
    }
  }

  lemma GrowthMarks(s: Fs, t: Fs, k: nat, n: nat, tmp: seq<Byte>)
    requires Sound(s) && Sound(t) && IsFile(t, k) && Marks(s, t, k)
    requires t.inodes[k].blockCount == DIRECT_BLOCK && t.inodes[k].size == SMALL_FILE - 1
    requires 1 <= Ceil(n) <= MAX_INDIRECT_BLOCK && BLOCK_SIZE * (DIRECT_BLOCK + Ceil(n)) <= |tmp|
    ensures var u := CreateLarge(t, k, n, tmp).1;
      && Sound(u) && IsFile(u, k) && Marks(s, u, k) && u.cur == t.cur && u.inodeUsed == t.inodeUsed
      && (u.inodes[k].blockCount > DIRECT_BLOCK <==> Ceil(n) + 1 <= t.store.free)
  {
    var u := CreateLarge(t, k, n, tmp).1;
    if Ceil(n) + 1 <= t.store.free {
      hide CreateLarge, Ceil, Sound, Marks, OwnedBy, Owned, Extends;
      LargeAdds(t, k, n, tmp);
      LargeEffect(t, k, n, tmp);
      MarksOn(s, t, u, k);
    } else {
      LargeFails(t, k, n, tmp);
    }
  }

  /** Creating a file and removing it restores both maps and both counters exactly when no map block was
      taken; otherwise that block, and no other, is lost. */
  lemma RemoveUndoesCreate(s: Fs, name: Name, size: nat, tmp: seq<Byte>)
    requires Inv(s) && NameOk(name) && size < LARGE_FILE && BLOCK_SIZE * BlocksFor(size) <= |tmp|
    requires CanCreate(Abs(s), name, Ceil(First(size)))
    ensures var t := FileCreate(s, name, size, tmp).1; FsShape(t) && 0 <= Find(t.cur, name) && Removable(t, name)
    ensures var t := FileCreate(s, name, size, tmp).1; var m := t.inodes[Find(t.cur, name)].indirect;
      var (r, u) := FileRemove(t, name);
      && r == 0 && u.cur == s.cur && u.inodeUsed == s.inodeUsed && u.freeInodes == s.freeInodes
      && if size < SMALL_FILE || !RestFits(Abs(s), size) then u.store.used == s.store.used
         && u.store.free == s.store.free
         else !s.store.used[m] && u.store.used == s.store.used[m := true] && u.store.free == s.store.free - 1
  {
    CreateMarks(s, name, size, tmp);
    CanCreateIs(s, name, First(size));
    var t, k := FileCreate(s, name, size, tmp).1, LowestFree(s.inodeUsed);
    FindAppended(s.cur, name, k);
    RemoveEffect(t, name);
    GivenBack(s, t, k, FileRemove(t, name).1, name);
  }

  lemma GivenBack(s: Fs, t: Fs, k: nat, u: Fs, name: Name)
    requires Sound(s) && Sound(t) && IsFile(t, k) && Marks(s, t, k) && k < MAX_INODE && !s.inodeUsed[k]
    requires t.inodeUsed == s.inodeUsed[k := true] && t.cur == s.cur + [Entry(name, k)]
    requires u.inodeUsed == t.inodeUsed[k := false]
    requires u.freeInodes == t.freeInodes + 1 && u.cur == t.cur[..|t.cur| - 1]
    requires StoreOk(u.store)
    requires forall b :: 0 <= b < MAX_BLOCK ==>
      (u.store.used[b] <==> t.store.used[b] && b !in DataBlocks(t.store, t.inodes[k]))
    ensures u.cur == s.cur && u.inodeUsed == s.inodeUsed && u.freeInodes == s.freeInodes
    ensures var m := t.inodes[k].indirect;
      if t.inodes[k].blockCount <= DIRECT_BLOCK then u.store.used == s.store.used && u.store.free == s.store.free
      else
        && m < MAX_BLOCK && !s.store.used[m] && u.store.used == s.store.used[m := true]
        && u.store.free == s.store.free - 1
  {
    var n := t.inodes[k];
    var d, o := DataBlocks(t.store, n), Owned(t.store, n);
    CountFreeUpdate(s.inodeUsed, k, true);
    assert u.inodeUsed == s.inodeUsed;
    if n.blockCount <= DIRECT_BLOCK {
      assert o == d;
      assert u.store.used == s.store.used;
    } else {
      assert o == d + [n.indirect];
      assert o[n.blockCount] == n.indirect && o[n.blockCount] in o;
      assert n.indirect !in d by {
        forall j | 0 <= j < |d| ensures d[j] != n.indirect { assert o[j] == d[j]; }
      }
      assert u.store.used == s.store.used[n.indirect := true];
      CountFreeUpdate(s.store.used, n.indirect, true);
    }
  }
}
