/** The file system a user is promised: directories are listings, files are bytes. No blocks. */
module FsTree {
  import opened Bits
  import opened Codec
  import opened FileSystem

  /** `data` is everything in the file's blocks: the file's bytes, then padding. */
  datatype FileData = FileData(size: nat, data: seq<Byte>)

  datatype Tree = Tree(cwd: nat, dirs: map<nat, seq<Entry>>, files: map<nat, FileData>, freeBlocks: int)

  function Here(t: Tree): seq<Entry>
    requires t.cwd in t.dirs
  {
    t.dirs[t.cwd]
  }

  function Taken(t: Tree): seq<bool> {
    seq(MAX_INODE, i => i in t.dirs || i in t.files)
  }

  /** Inode numbers are handed out lowest first. */
  function NextInode(t: Tree): nat {
    LowestFree(Taken(t))
  }

  function WithEntry(t: Tree, name: Name, k: nat): map<nat, seq<Entry>>
    requires t.cwd in t.dirs
  {
    t.dirs[t.cwd := Here(t) + [Entry(name, k)]]
  }

  /** Whether a small creation, or the first half of a large one, goes through; a listing takes 24 entries. */
  predicate CanCreate(t: Tree, name: Name, blocks: nat)
    requires t.cwd in t.dirs
  {
    Find(Here(t), name) < 0 && |Here(t)| < 24 && blocks <= t.freeBlocks && NextInode(t) < MAX_INODE
  }

  /** Whether the second half of a large creation finds its blocks. */
  predicate RestFits(t: Tree, size: nat) {
    size < SMALL_FILE || BlocksFor(size) + 1 <= t.freeBlocks
  }

  /** A large file for which there is no room is cut to SMALL_FILE - 1 bytes, and 0 is still returned. */
  function Create(t: Tree, name: Name, size: nat, tmp: seq<Byte>): (int, Tree)
    requires t.cwd in t.dirs && (size < LARGE_FILE ==> BLOCK_SIZE * BlocksFor(size) <= |tmp|)
  {
    if size >= LARGE_FILE then (-1, t)
    else if !CanCreate(t, name, Ceil(First(size))) then (if size < SMALL_FILE then 0 else -1, t)
    else
      var k := NextInode(t);
      var fits := RestFits(t, size);
      var blocks := if fits then BlocksFor(size) else Ceil(First(size));
      (0, t.(dirs := WithEntry(t, name, k),
             files := t.files[k := FileData(if fits then size else First(size), tmp[..BLOCK_SIZE * blocks])],
             freeBlocks := t.freeBlocks - blocks - if fits && size >= SMALL_FILE then 1 else 0))
  }

  function MakeDir(t: Tree, name: Name): (int, Tree)
    requires t.cwd in t.dirs
  {
    if !CanCreate(t, name, 1) then (-1, t)
    else
      var k := NextInode(t);
      (0, t.(dirs := WithEntry(t, name, k)[k := [Entry(DOT, k), Entry(DOTDOT, t.cwd)]], freeBlocks := t.freeBlocks - 1))
  }

  function ChangeDir(t: Tree, name: Name): (int, Tree)
    requires t.cwd in t.dirs
  {
    var n := Find(Here(t), name);
    if n in t.dirs then (0, t.(cwd := n)) else (-1, t)
  }

  /** A write that ends beyond the direct blocks reports success and changes nothing. */
  function Write(t: Tree, name: Name, offset: nat, size: nat, buf: seq<Byte>): (Outcome, Tree)
    requires t.cwd in t.dirs
  {
    var n := Find(Here(t), name);
    if n < 0 then (NoSuchFile, t)
    else if size != |buf| then (WrongSize, t)
    else if EndBlock(offset, size) < DIRECT_BLOCK && n in t.files then
      (Done, t.(files := t.files[n := t.files[n].(data := Overlaid(t.files[n].data, offset, buf))]))
    else (Done, t)
  }

  /** A write does not go over the listing of another directory. */
  predicate Writable(t: Tree, name: Name, offset: nat, size: nat, buf: seq<Byte>)
    requires t.cwd in t.dirs
  {
    var n := Find(Here(t), name);
    n in t.dirs && size == |buf| && EndBlock(offset, size) < DIRECT_BLOCK ==> n == t.cwd
  }

  /** How many blocks a file or a directory has. */
  function BlocksOf(t: Tree, n: int): nat {
    if n in t.files then |t.files[n].data| / BLOCK_SIZE else 1
  }

  /** Where a listing has `name` first, or its length. */
  function IndexOf(es: seq<Entry>, name: Name): (j: nat)
    ensures j <= |es|
  {
    if es == [] || es[0].name == name then 0 else 1 + IndexOf(es[1..], name)
  }

  /** A listing without entry `j`, in whose place the last one has come. */
  function Without(es: seq<Entry>, j: nat): (r: seq<Entry>)
    requires j < |es|
    ensures |r| == |es| - 1 && forall i :: 0 <= i < |r| ==> r[i] == if i == j then es[|es| - 1] else es[i]
  {
    var r := es[..|es| - 1];
    if j < |r| then r[j := es[|es| - 1]] else r
  }

  /** A file is taken out of the current directory, and its blocks are free. */
  function TakeOut(t: Tree, name: Name): (int, Tree)
    requires t.cwd in t.dirs
  {
    var n, j := Find(Here(t), name), IndexOf(Here(t), name);
    if n in t.files && j < |Here(t)| then
      (0, t.(dirs := t.dirs[t.cwd := Without(Here(t), j)], files := t.files - {n},
             freeBlocks := t.freeBlocks + |t.files[n].data| / BLOCK_SIZE))
    else (-1, t)
  }

  // ----- Well-formed trees -----

  /** Where a directory's own entries begin: the root has no "..". */
  function FirstChild(d: nat): nat {
    if d == 0 then 1 else 2
  }

  ghost predicate ListingOk(t: Tree, d: nat, l: seq<Entry>) {
    && EntriesOk(l) && FirstChild(d) <= |l| < MAX_DIR_ENTRY
    && l[0] == Entry(DOT, d)
    && (d != 0 ==> l[1].name == DOTDOT && l[1].inode in t.dirs)
    && (forall j :: 0 <= j < |l| ==> l[j].inode in t.dirs || l[j].inode in t.files)
    && (forall j :: FirstChild(d) <= j < |l| && l[j].inode in t.dirs ==>
          l[j].inode != 0 && |t.dirs[l[j].inode]| >= 2 && t.dirs[l[j].inode][1] == Entry(DOTDOT, d))
  }

  /** Entry `j` of directory `d` names inode `k`. */
  predicate Names(t: Tree, d: nat, j: int, k: nat) {
    d in t.dirs && 0 <= j < |t.dirs[d]| && t.dirs[d][j].inode == k
  }

  /** A file has one entry in all the listings. */
  ghost predicate FilesListedOnce(t: Tree) {
    forall d, j, e, l, k {:trigger Names(t, d, j, k), Names(t, e, l, k)} ::
      k in t.files && Names(t, d, j, k) && Names(t, e, l, k) ==> d == e && j == l
  }

  /** Entry 0 of a directory is itself; entry 1 of any but the root is its parent, where it is listed. */
  ghost predicate TreeOk(t: Tree) {
    && t.cwd in t.dirs && 0 in t.dirs
    && (forall i :: i in t.dirs ==> i !in t.files && i < MAX_INODE)
    && (forall i :: i in t.files ==> i < MAX_INODE)
    && (forall d :: d in t.dirs ==> ListingOk(t, d, t.dirs[d]))
    && FilesListedOnce(t)
  }

  lemma TreeParts(t: Tree, d: nat)
    requires TreeOk(t) && d in t.dirs
    ensures ListingOk(t, d, t.dirs[d]) && d !in t.files && d < MAX_INODE && t.cwd in t.dirs && FilesListedOnce(t)
    ensures forall i :: i in t.dirs ==> i !in t.files
  {
    hide ListingOk;
  }

  lemma TreeListing(t: Tree, d: nat)
    requires TreeOk(t) && d in t.dirs
    ensures var l := t.dirs[d]; EntriesOk(l) && FirstChild(d) <= |l| && l[0] == Entry(DOT, d) && d < MAX_INODE
    ensures d != 0 ==> t.dirs[d][1].inode in t.dirs
  {
    TreeParts(t, d);
    hide TreeOk, EntriesOk;
  }

  lemma {:induction false} FindFirst(es: seq<Entry>, name: Name)
    ensures Find(es, name) == -1 ==> forall j :: 0 <= j < |es| ==> es[j].name != name
    ensures Find(es, name) != -1 ==> exists j :: 0 <= j < |es| && FoundAt(es, name, j)
  {
    if es != [] && es[0].name != name {
      FindFirst(es[1..], name);
      if Find(es, name) != -1 {
        var j :| 0 <= j < |es[1..]| && FoundAt(es[1..], name, j);
        assert FoundAt(es, name, j + 1);
      } else {
        forall j | 0 <= j < |es| ensures es[j].name != name {
          if j > 0 { assert es[1..][j - 1] == es[j]; }
        }
      }
    } else if es != [] {
      assert FoundAt(es, name, 0);
    }
  }

  ghost predicate FoundAt(es: seq<Entry>, name: Name, j: int) {
    && 0 <= j < |es| && es[j].name == name && es[j].inode == Find(es, name)
    && forall i :: 0 <= i < j ==> es[i].name != name
  }

  lemma FindInTree(t: Tree, name: Name)
    requires TreeOk(t) && Find(Here(t), name) != -1
    ensures Find(Here(t), name) in t.dirs || Find(Here(t), name) in t.files
    ensures 0 <= Find(Here(t), name) < MAX_INODE
  {
    FindFirst(Here(t), name);
    var j :| 0 <= j < |Here(t)| && FoundAt(Here(t), name, j);
  }

  lemma NextIsNew(t: Tree)
    ensures NextInode(t) < MAX_INODE ==> NextInode(t) !in t.dirs && NextInode(t) !in t.files
  {
    var k := NextInode(t);
    if k < MAX_INODE { assert !Taken(t)[k]; }
  }

  lemma OldListingOk(t: Tree, u: Tree, d: nat)
    requires TreeOk(t) && d in t.dirs
    requires forall i :: i in t.dirs ==> i in u.dirs
    requires forall i :: i in t.files ==> i in u.files
    requires forall i :: i in u.dirs && i in t.dirs ==>
      |t.dirs[i]| <= |u.dirs[i]| && u.dirs[i][..|t.dirs[i]|] == t.dirs[i]
    requires forall i :: i in u.dirs && i !in t.dirs ==> i !in t.files
    ensures ListingOk(u, d, t.dirs[d])
  {
    var l := t.dirs[d];
    forall j | FirstChild(d) <= j < |l| && l[j].inode in u.dirs
      ensures l[j].inode != 0 && |u.dirs[l[j].inode]| >= 2 && u.dirs[l[j].inode][1] == Entry(DOTDOT, d)
    {
      var x := l[j].inode;
      assert x in t.dirs;
      assert u.dirs[x][..|t.dirs[x]|][1] == t.dirs[x][1];
    }
  }

  lemma CreateKeepsTree(t: Tree, name: Name, size: nat, tmp: seq<Byte>)
    requires TreeOk(t) && NameOk(name) && (size < LARGE_FILE ==> BLOCK_SIZE * BlocksFor(size) <= |tmp|)
    ensures TreeOk(Create(t, name, size, tmp).1)
  {
    hide ListingOk;
    var u := Create(t, name, size, tmp).1;
    if u != t {
      NextIsNew(t);
      AddedListings(t, u, name, NextInode(t));
    }
  }

  /** `u` is `t` with a new inode `k`, a file or an empty directory, listed in the current directory. */
  ghost predicate Adds(t: Tree, u: Tree, name: Name, k: nat)
    requires t.cwd in t.dirs
  {
    && k < MAX_INODE && k !in t.dirs && k !in t.files && NameOk(name) && |Here(t)| < 24 && u.cwd == t.cwd
    && (forall i :: i in t.dirs ==> i in u.dirs && u.dirs[i] == if i == t.cwd then Here(t) + [Entry(name, k)]
       else t.dirs[i])
    && (forall i :: i in u.dirs ==> i in t.dirs || i == k)
    && (forall i :: i in t.files ==> i in u.files)
    && (forall i :: i in u.files ==> i in t.files || i == k)
    && (k in u.dirs <==> k !in u.files)
    && (k in u.dirs ==> u.dirs[k] == [Entry(DOT, k), Entry(DOTDOT, t.cwd)] && k != 0)
  }

  lemma LongerListing(u: Tree, d: nat, l: seq<Entry>, e: Entry)
    requires ListingOk(u, d, l) && |l| < 24 && NameOk(e.name) && e.inode < MAX_INODE
    requires e.inode in u.dirs || e.inode in u.files
    requires e.inode in u.dirs ==> e.inode != 0 && |u.dirs[e.inode]| >= 2 && u.dirs[e.inode][1] == Entry(DOTDOT, d)
    ensures ListingOk(u, d, l + [e])
  {
    var m := l + [e];
    assert forall j :: 0 <= j < |l| ==> m[j] == l[j];
  }

  lemma NewListing(u: Tree, k: nat, parent: nat)
    requires parent in u.dirs && k in u.dirs && k != 0 && k < MAX_INODE && parent < MAX_INODE
    ensures ListingOk(u, k, [Entry(DOT, k), Entry(DOTDOT, parent)])
  {
  }

  lemma AddedHere(t: Tree, u: Tree, name: Name, k: nat)
    requires TreeOk(t) && Adds(t, u, name, k)
    ensures ListingOk(u, t.cwd, u.dirs[t.cwd])
  {
    OldListingOk(t, u, t.cwd);
    hide ListingOk;
    LongerListing(u, t.cwd, Here(t), Entry(name, k));
  }

  lemma AddedOnce(t: Tree, u: Tree, name: Name, k: nat)
    requires TreeOk(t) && Adds(t, u, name, k)
    ensures FilesListedOnce(u)
  {
    hide ListingOk, Adds;
    forall d, j, x | x in u.files && Names(u, d, j, x)
      ensures (x == k ==> d == t.cwd && j == |Here(t)|) && (x != k ==> x in t.files && Names(t, d, j, x))
    {
      AddedName(t, u, name, k, d, j, x);
    }
  }

  lemma AddedName(t: Tree, u: Tree, name: Name, k: nat, d: nat, j: int, x: nat)
    requires TreeOk(t) && Adds(t, u, name, k) && x in u.files && Names(u, d, j, x)
    ensures (x == k ==> d == t.cwd && j == |Here(t)|) && (x != k ==> x in t.files && Names(t, d, j, x))
  {
    assert t.cwd in t.dirs;
    hide TreeOk, EntriesOk;
    TreeParts(t, if d in t.dirs then d else t.cwd);
  }

  lemma AddedListings(t: Tree, u: Tree, name: Name, k: nat)
    requires TreeOk(t) && Adds(t, u, name, k)
    ensures TreeOk(u)
  {
    hide ListingOk, FilesListedOnce;
    AddedOnce(t, u, name, k);
    forall d | d in u.dirs ensures ListingOk(u, d, u.dirs[d]) {
      if d == k {
        NewListing(u, k, t.cwd);
      } else if d == t.cwd {
        AddedHere(t, u, name, k);
      } else {
        OldListingOk(t, u, d);
      }
    }
  }

  lemma MakeKeepsTree(t: Tree, name: Name)
    requires TreeOk(t) && NameOk(name)
    ensures TreeOk(MakeDir(t, name).1)
  {
    hide ListingOk;
    var u := MakeDir(t, name).1;
    if u != t {
      NextIsNew(t);
      AddedListings(t, u, name, NextInode(t));
    }
  }

  lemma ChangeKeepsTree(t: Tree, name: Name)
    requires TreeOk(t)
    ensures TreeOk(ChangeDir(t, name).1)
  {
    var n := Find(Here(t), name);
    if n in t.dirs {
      var u := t.(cwd := n);
      assert forall d :: d in t.dirs ==> ListingOk(t, d, t.dirs[d]) ==> ListingOk(u, d, t.dirs[d]);
      SameNames(t, u);
    }
  }

  lemma WriteKeepsTree(t: Tree, name: Name, offset: nat, size: nat, buf: seq<Byte>)
    requires TreeOk(t)
    ensures TreeOk(Write(t, name, offset, size, buf).1)
  {
    var u := Write(t, name, offset, size, buf).1;
    assert u.dirs == t.dirs && u.files.Keys == t.files.Keys;
    forall d | d in u.dirs ensures ListingOk(u, d, u.dirs[d]) {
      assert ListingOk(t, d, t.dirs[d]);
    }
    SameNames(t, u);
  }

  lemma SameNames(t: Tree, u: Tree)
    requires FilesListedOnce(t) && u.dirs == t.dirs && u.files.Keys == t.files.Keys
    ensures FilesListedOnce(u)
  {
    assert forall d, j, k {:trigger Names(u, d, j, k)} :: Names(u, d, j, k) ==> Names(t, d, j, k);
  }

  lemma {:induction false} FoundThere(es: seq<Entry>, name: Name)
    ensures Find(es, name) >= 0 <==> IndexOf(es, name) < |es|
    ensures Find(es, name) >= 0 ==> es[IndexOf(es, name)].inode == Find(es, name)
  {
    if es != [] && es[0].name != name { FoundThere(es[1..], name); }
  }

  /** Removing a file leaves no entry for it behind. */
  lemma RemoveKeepsTree(t: Tree, name: Name)
    requires TreeOk(t)
    ensures TreeOk(TakeOut(t, name).1)
  {
    var n, u, j := Find(Here(t), name), TakeOut(t, name).1, IndexOf(Here(t), name);
    if n in t.files && j < |Here(t)| {
      hide ListingOk, FilesListedOnce, Without;
      FoundThere(Here(t), name);
      RemovedNames(t, u, n, j);
      forall d | d in u.dirs ensures ListingOk(u, d, u.dirs[d]) {
        RemovedListing(t, u, n, j, d);
      }
    }
  }

  /** `u` is `t` without file `n`, which is entry `j` of the current directory. */
  ghost predicate Loses(t: Tree, u: Tree, n: nat, j: nat) {
    && n in t.files && t.cwd in t.dirs && j < |Here(t)| && Here(t)[j].inode == n
    && u.cwd == t.cwd && u.dirs == t.dirs[t.cwd := Without(Here(t), j)] && u.files.Keys == t.files.Keys - {n}
  }

  lemma RemovedNames(t: Tree, u: Tree, n: nat, j: nat)
    requires FilesListedOnce(t) && Loses(t, u, n, j)
    ensures FilesListedOnce(u) && forall d, i, k :: Names(u, d, i, k) ==> k != n
  {
    assert Names(t, t.cwd, j, n);
    var last := |Here(t)| - 1;
    forall d, i, k | Names(u, d, i, k)
      ensures Names(t, d, if d == t.cwd && i == j then last else i, k) && k != n
    {
      assert Names(t, d, if d == t.cwd && i == j then last else i, k);
    }
  }

  /** A listing with entry `j` taken out, where other directories keep their first two entries. */
  lemma CutListing(t: Tree, u: Tree, d: nat, l: seq<Entry>, m: seq<Entry>)
    requires ListingOk(t, d, l) && FirstChild(d) <= |m| <= |l| && u.dirs.Keys == t.dirs.Keys
    requires forall i :: 0 <= i < |m| ==> m[i] == l[i] || (FirstChild(d) <= i && m[i] == l[|l| - 1])
    requires forall j :: 0 <= j < |m| && m[j].inode in t.files ==> m[j].inode in u.files
    requires forall x :: x in t.dirs && x != 0 && |t.dirs[x]| >= 2 ==> |u.dirs[x]| >= 2 && u.dirs[x][1] == t.dirs[x][1]
    ensures ListingOk(u, d, m)
  {
  }

  /** A file is not among the first two entries of a directory. */
  lemma FileIsChild(t: Tree, d: nat, j: nat)
    requires TreeOk(t) && d in t.dirs && j < |t.dirs[d]| && t.dirs[d][j].inode in t.files
    ensures FirstChild(d) <= j
  {
    hide TreeOk, ListingOk;
    TreeParts(t, d);
    TreeListing(t, d);
  }

  lemma RemovedListing(t: Tree, u: Tree, n: nat, j: nat, d: nat)
    requires TreeOk(t) && Loses(t, u, n, j) && d in t.dirs
    requires forall e, i, k :: Names(u, e, i, k) ==> k != n
    ensures ListingOk(u, d, u.dirs[d])
  {
    hide TreeOk, ListingOk, EntriesOk;
    var l, m := t.dirs[d], u.dirs[d];
    FileIsChild(t, t.cwd, j);
    TreeParts(t, d);
    TreeListing(t, d);
    KeepsHeads(t, u, n, j);
    forall i | 0 <= i < |m| ensures m[i].inode != n {
      assert Names(u, d, i, m[i].inode);
    }
    CutListing(t, u, d, l, m);
  }

  lemma KeepsHeads(t: Tree, u: Tree, n: nat, j: nat)
    requires Loses(t, u, n, j) && FirstChild(t.cwd) <= j
    ensures forall x :: x in t.dirs && x != 0 && |t.dirs[x]| >= 2 ==> |u.dirs[x]| >= 2 && u.dirs[x][1] == t.dirs[x][1]
  {
  }

  // ----- What users rely on -----

  /** `cd` into a child and `cd ..` lead back to the same directory, with the tree unchanged. */
  lemma ThereAndBack(t: Tree, name: Name)
    requires TreeOk(t) && name != DOT && (t.cwd != 0 ==> name != DOTDOT)
    requires ChangeDir(t, name).0 == 0
    ensures ChangeDir(ChangeDir(t, name).1, DOTDOT) == (0, t)
  {
    var n := Find(Here(t), name);
    FindFirst(Here(t), name);
    var j :| 0 <= j < |Here(t)| && FoundAt(Here(t), name, j);
    assert ListingOk(t, t.cwd, Here(t));
    assert j >= FirstChild(t.cwd);
    var l := t.dirs[n];
    assert ListingOk(t, n, l);
    FindSecond(l, DOTDOT);
  }

  lemma FindSecond(l: seq<Entry>, name: Name)
    requires |l| >= 2 && l[0].name != name && l[1].name == name
    ensures Find(l, name) == l[1].inode
  {
    assert l[1..][0] == l[1];
  }
}
