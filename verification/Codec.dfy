/** How the structures of Project-4/fs.h lie in a 512-byte disk block. */
module Codec {
  import opened Bits

  const BLOCK_SIZE: nat := 512
  const MAX_FILE_NAME: nat := 16
  const MAX_DIR_ENTRY: nat := 25
  const WORD: nat := 0x1_0000_0000

  type Name = seq<Byte>

  datatype Entry = Entry(name: Name, inode: nat)

  function Zeros(n: nat): (z: seq<Byte>)
    ensures |z| == n
  {
    seq(n, i => 0)
  }

  lemma NextByte(b: Byte)
    requires b != 255
    ensures (b + 1) as nat == b as nat + 1
  {
  }

  /** The byte of value `x`. */
  function ToByte(x: nat): (b: Byte)
    requires x < 256
    ensures b as nat == x
  {
    if x == 0 then 0 else NextByte(ToByte(x - 1)); ToByte(x - 1) + 1
  }

  /** A four-byte integer, low byte first. */
  function Enc(x: nat): (b: seq<Byte>)
    requires x < WORD
    ensures |b| == 4
  {
    [ToByte(x % 256), ToByte(x / 256 % 256), ToByte(x / 65536 % 256), ToByte(x / 16777216)]
  }

  function Dec(b: seq<Byte>): (x: nat)
    requires |b| == 4
  {
    b[0] as nat + 256 * b[1] as nat + 65536 * b[2] as nat + 16777216 * b[3] as nat
  }

  lemma DecEnc(x: nat)
    requires x < WORD
    ensures Dec(Enc(x)) == x
  {
    BaseDigits(x);
  }

  lemma BaseDigits(x: nat)
    requires x < WORD
    ensures x % 256 + 256 * (x / 256 % 256) + 65536 * (x / 65536 % 256) + 16777216 * (x / 16777216) == x
  {
    assert x / 65536 == x / 256 / 256 && x / 16777216 == x / 65536 / 256;
  }

  // ----- Arrays of fixed-size records -----

  ghost predicate WordsOk(ws: seq<nat>) {
    forall i :: 0 <= i < |ws| ==> ws[i] < WORD
  }

  function EncWords(ws: seq<nat>): (b: seq<Byte>)
    requires WordsOk(ws)
    ensures |b| == 4 * |ws|
  {
    if ws == [] then [] else EncWords(ws[..|ws| - 1]) + Enc(ws[|ws| - 1])
  }

  function WordAt(b: seq<Byte>, i: nat): nat
    requires 4 * i + 4 <= |b|
  {
    Dec(b[4 * i..4 * i + 4])
  }

  function DecWords(b: seq<Byte>, n: nat): seq<nat>
    requires 4 * n <= |b|
  {
    seq(n, i requires 0 <= i < n => WordAt(b, i))
  }

  lemma {:induction false} EncWordsAt(ws: seq<nat>, i: nat)
    requires WordsOk(ws) && i < |ws|
    ensures EncWords(ws)[4 * i..4 * i + 4] == Enc(ws[i])
  {
    hide Enc;
    var u := ws[..|ws| - 1];
    if i < |u| {
      EncWordsAt(u, i);
      assert EncWords(ws)[4 * i..4 * i + 4] == EncWords(u)[4 * i..4 * i + 4];
    }
  }

  /** The block map of a large file, and any table of integers, is read back as written. */
  lemma WordsRoundTrip(ws: seq<nat>, rest: seq<Byte>)
    requires WordsOk(ws)
    ensures DecWords(EncWords(ws) + rest, |ws|) == ws
  {
    hide Enc, Dec, EncWords;
    var b := EncWords(ws);
    forall i | 0 <= i < |ws| ensures WordAt(b + rest, i) == ws[i] {
      EncWordsAt(ws, i);
      assert (b + rest)[4 * i..4 * i + 4] == b[4 * i..4 * i + 4];
      DecEnc(ws[i]);
    }
  }

  // ----- Directories -----

  predicate NameOk(name: Name) {
    |name| < MAX_FILE_NAME && 0 !in name
  }

  /** `strncpy` and the terminator; the bytes after it are taken to be 0. */
  function EncName(name: Name): (b: seq<Byte>)
    requires NameOk(name)
    ensures |b| == MAX_FILE_NAME
  {
    name + Zeros(MAX_FILE_NAME - |name|)
  }

  /** The C string at `b`. */
  function DecName(b: seq<Byte>): Name {
    if b == [] || b[0] == 0 then [] else [b[0]] + DecName(b[1..])
  }

  lemma {:induction false} DecNameStops(name: Name, rest: seq<Byte>)
    requires 0 !in name && rest != [] && rest[0] == 0
    ensures DecName(name + rest) == name
  {
    if name != [] {
      assert (name + rest)[1..] == name[1..] + rest;
      DecNameStops(name[1..], rest);
    } else {
      assert name + rest == rest;
    }
  }

  ghost predicate EntriesOk(es: seq<Entry>) {
    |es| <= MAX_DIR_ENTRY && forall i :: 0 <= i < |es| ==> NameOk(es[i].name) && es[i].inode < WORD
  }

  function EncEntry(e: Entry): (b: seq<Byte>)
    requires NameOk(e.name) && e.inode < WORD
    ensures |b| == 20
  {
    EncName(e.name) + Enc(e.inode)
  }

  function DecEntry(b: seq<Byte>): Entry
    requires |b| == 20
  {
    Entry(DecName(b[..16]), Dec(b[16..]))
  }

  lemma EntryRoundTrip(e: Entry)
    requires NameOk(e.name) && e.inode < WORD
    ensures DecEntry(EncEntry(e)) == e
  {
    DecNameStops(e.name, Zeros(MAX_FILE_NAME - |e.name|));
    assert EncEntry(e)[..16] == EncName(e.name) && EncEntry(e)[16..] == Enc(e.inode);
    DecEnc(e.inode);
  }

  function EncEntries(es: seq<Entry>): (b: seq<Byte>)
    requires EntriesOk(es)
    ensures |b| == 20 * |es|
  {
    if es == [] then [] else EncEntries(es[..|es| - 1]) + EncEntry(es[|es| - 1])
  }

  lemma {:induction false} EncEntriesAt(es: seq<Entry>, i: nat)
    requires EntriesOk(es) && i < |es|
    ensures EncEntries(es)[20 * i..20 * i + 20] == EncEntry(es[i])
  {
    hide EncEntry;
    var u := es[..|es| - 1];
    if i < |u| {
      EncEntriesAt(u, i);
      assert EncEntries(es)[20 * i..20 * i + 20] == EncEntries(u)[20 * i..20 * i + 20];
    }
  }

  /** A `Dentry`: the number of entries, the entries, padding. */
  function EncDir(es: seq<Entry>): (b: seq<Byte>)
    requires EntriesOk(es)
    ensures |b| == BLOCK_SIZE
  {
    Enc(|es|) + EncEntries(es) + Zeros(BLOCK_SIZE - 4 - 20 * |es|)
  }

  function DecDir(b: seq<Byte>): seq<Entry>
    requires |b| == BLOCK_SIZE
  {
    var n := Dec(b[..4]);
    if n > MAX_DIR_ENTRY then [] else seq(n, i requires 0 <= i < n => DecEntry(b[4 + 20 * i..24 + 20 * i]))
  }

  lemma SliceMiddle(a: seq<Byte>, b: seq<Byte>, c: seq<Byte>, lo: nat, hi: nat)
    requires lo <= hi <= |b|
    ensures (a + b + c)[|a| + lo..|a| + hi] == b[lo..hi]
  {
  }

  lemma DirEntryAt(es: seq<Entry>, i: nat)
    requires EntriesOk(es) && i < |es|
    ensures DecEntry(EncDir(es)[4 + 20 * i..24 + 20 * i]) == es[i]
  {
    SliceMiddle(Enc(|es|), EncEntries(es), Zeros(BLOCK_SIZE - 4 - 20 * |es|), 20 * i, 20 * i + 20);
    EncEntriesAt(es, i);
    EntryRoundTrip(es[i]);
  }

  lemma DirCount(es: seq<Entry>)
    requires EntriesOk(es)
    ensures Dec(EncDir(es)[..4]) == |es|
  {
    hide Enc, Dec, EncEntries, EntriesOk;
    assert EncDir(es)[..4] == Enc(|es|);
    DecEnc(|es|);
  }

  lemma DecDirAt(b: seq<Byte>, n: nat, i: nat)
    requires |b| == BLOCK_SIZE && Dec(b[..4]) == n <= MAX_DIR_ENTRY && i < n
    ensures |DecDir(b)| == n && DecDir(b)[i] == DecEntry(b[4 + 20 * i..24 + 20 * i])
  {
    hide Dec, DecEntry;
  }

  /** A directory is read back as written. */
  lemma DirRoundTrip(es: seq<Entry>)
    requires EntriesOk(es)
    ensures DecDir(EncDir(es)) == es
  {
    var b := EncDir(es);
    DirCount(es);
    assert |es| <= MAX_DIR_ENTRY;
    assert es == [] ==> DecDir(b) == [];
    hide *;
    forall i | 0 <= i < |es| ensures |DecDir(b)| == |es| && DecDir(b)[i] == es[i] {
      DirEntryAt(es, i);
      DecDirAt(b, |es|, i);
    }
    assert es != [] ==> |DecDir(b)| == |es| by {
      if es != [] { DecDirAt(b, |es|, 0); }
    }
  }
}
