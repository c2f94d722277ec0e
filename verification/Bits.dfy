/** Bitmaps packed eight to a byte (Project-4/fs_util.c), and what they say bit by bit. */
module Bits {

  type Byte = bv8

  predicate BitAt(b: Byte, k: int)
    requires 0 <= k < 8
  {
    1 & (b >> k) == 1
  }

  /** The map a packed array stands for. */
  function Unpacked(a: seq<Byte>): seq<bool> {
    seq(8 * |a|, i requires 0 <= i < 8 * |a| => BitAt(a[i / 8], i % 8))
  }

  function ByteOf(b0: bool, b1: bool, b2: bool, b3: bool, b4: bool, b5: bool, b6: bool, b7: bool): Byte {
    (if b0 then 1 else 0) | (if b1 then 2 else 0) | (if b2 then 4 else 0) | (if b3 then 8 else 0)
    | (if b4 then 16 else 0) | (if b5 then 32 else 0) | (if b6 then 64 else 0) | (if b7 then 128 else 0)
  }

  lemma ByteOfAt(b0: bool, b1: bool, b2: bool, b3: bool, b4: bool, b5: bool, b6: bool, b7: bool)
    ensures var b := ByteOf(b0, b1, b2, b3, b4, b5, b6, b7);
      && BitAt(b, 0) == b0 && BitAt(b, 1) == b1 && BitAt(b, 2) == b2 && BitAt(b, 3) == b3
      && BitAt(b, 4) == b4 && BitAt(b, 5) == b5 && BitAt(b, 6) == b6 && BitAt(b, 7) == b7
  {
  }

  function LowestFree(bits: seq<bool>): (i: nat)
    ensures i <= |bits| && (forall k :: 0 <= k < i ==> bits[k])
    ensures i < |bits| ==> !bits[i]
  {
    LowestFreeFrom(bits, 0)
  }

  function LowestFreeFrom(bits: seq<bool>, lo: nat): (i: nat)
    requires lo <= |bits|
    ensures lo <= i <= |bits| && (forall k :: lo <= k < i ==> bits[k])
    ensures i < |bits| ==> !bits[i]
    decreases |bits| - lo
  {
    if lo < |bits| && bits[lo] then LowestFreeFrom(bits, lo + 1) else lo
  }

  function CountFree(bits: seq<bool>): nat {
    if bits == [] then 0 else CountFree(bits[..|bits| - 1]) + if bits[|bits| - 1] then 0 else 1
  }

  lemma {:induction false} CountFreeUpdate(bits: seq<bool>, i: nat, b: bool)
    requires i < |bits|
    ensures CountFree(bits[i := b]) == CountFree(bits) + (if bits[i] then 1 else 0) - (if b then 1 else 0)
  {
    var m := bits[i := b];
    if i == |bits| - 1 {
      assert m[..|bits| - 1] == bits[..|bits| - 1];
    } else {
      assert m[..|bits| - 1] == bits[..|bits| - 1][i := b];
      CountFreeUpdate(bits[..|bits| - 1], i, b);
    }
  }

  /** A free index exists exactly when the count is not zero. */
  lemma {:induction false} FreeExists(bits: seq<bool>)
    ensures CountFree(bits) > 0 <==> LowestFree(bits) < |bits|
  {
    if bits != [] {
      FreeExists(bits[..|bits| - 1]);
      var i, j := LowestFree(bits), LowestFree(bits[..|bits| - 1]);
      assert j < |bits| - 1 ==> i <= j by {
        if j < |bits| - 1 { assert !bits[j]; }
      }
      assert i < |bits| - 1 ==> j <= i by {
        if i < |bits| - 1 { assert !bits[..|bits| - 1][i]; }
      }
    }
  }

  /** `x ^ (1 << k)` flips bit `k` of a byte and no other. */
  lemma XorFlips(b: Byte, k: int, j: int)
    requires 0 <= k < 8 && 0 <= j < 8
    ensures BitAt(b ^ (1 << k), j) == if j == k then !BitAt(b, j) else BitAt(b, j)
  {
    assert k == 0 || k == 1 || k == 2 || k == 3 || k == 4 || k == 5 || k == 6 || k == 7;
    assert j == 0 || j == 1 || j == 2 || j == 3 || j == 4 || j == 5 || j == 6 || j == 7;
  }

  function Flipped(a: seq<Byte>, i: nat): seq<Byte>
    requires i < 8 * |a|
  {
    a[i / 8 := a[i / 8] ^ (1 << (i % 8))]
  }

  lemma FlipAt(a: seq<Byte>, i: nat, j: nat)
    requires i < 8 * |a| && j < 8 * |a|
    ensures Unpacked(Flipped(a, i))[j] == if i == j then !Unpacked(a)[j] else Unpacked(a)[j]
  {
    if j / 8 == i / 8 {
      XorFlips(a[i / 8], i % 8, j % 8);
      assert i == 8 * (i / 8) + i % 8 && j == 8 * (j / 8) + j % 8;
    }
  }

  lemma FlipUnpacked(a: seq<Byte>, i: nat)
    requires i < 8 * |a|
    ensures Unpacked(Flipped(a, i)) == Unpacked(a)[i := !Unpacked(a)[i]]
  {
    forall j | 0 <= j < 8 * |a| ensures Unpacked(Flipped(a, i))[j] == Unpacked(a)[i := !Unpacked(a)[i]][j] {
      FlipAt(a, i, j);
    }
  }

  // ----- The functions of fs_util.c -----

  method ToggleBit(a: array<Byte>, index: nat)
    requires index < 8 * a.Length
    modifies a
    ensures Unpacked(a[..]) == old(Unpacked(a[..]))[index := !old(Unpacked(a[..]))[index]]
  {
    ghost var before := a[..];
    FlipUnpacked(before, index);
    hide BitAt, Unpacked;
    a[index / 8] := a[index / 8] ^ (1 << (index % 8));
    assert a[..] == Flipped(before, index);
  }

  function GetBit(a: array<Byte>, index: nat): (r: Byte)
    requires index < 8 * a.Length
    reads a
    ensures r == if Unpacked(a[..])[index] then 1 else 0
  {
    assert Unpacked(a[..])[index] == BitAt(a[index / 8], index % 8);
    LowBit(a[index / 8] >> (index % 8));
    1 & (a[index / 8] >> (index % 8))
  }

  lemma LowBit(b: Byte)
    ensures 1 & b == 1 || 1 & b == 0
  {
  }

  method SetBit(a: array<Byte>, index: nat, value: int)
    requires index < 8 * a.Length
    modifies a
    ensures value == 0 || value == 1 ==> Unpacked(a[..]) == old(Unpacked(a[..]))[index := value == 1]
    ensures value != 0 && value != 1 ==> a[..] == old(a[..])
  {
    if value != 0 && value != 1 { return; }
    ToggleBit(a, index);
    if GetBit(a, index) as int == value { return; }
    ToggleBit(a, index);
  }

  /** `get_free_inode` and `get_free_block`: the lowest free index is taken, or -1. */
  method GetFree(a: array<Byte>) returns (i: int)
    modifies a
    ensures var before, f := old(Unpacked(a[..])), LowestFree(old(Unpacked(a[..])));
      if f < |before| then i == f && Unpacked(a[..]) == before[f := true] else i == -1 && a[..] == old(a[..])
  {
    ghost var bits := Unpacked(a[..]);
    for k := 0 to 8 * a.Length
      invariant a[..] == old(a[..])
      invariant LowestFree(bits) == LowestFreeFrom(bits, k)
    {
      if GetBit(a, k) == 0 {
        SetBit(a, k, 1);
        return k;
      }
    }
    return -1;
  }

  /** `free_inode` and `free_block`: a used index becomes free; a free one is put back and refused. */
  method Release(a: array<Byte>, index: nat) returns (r: int)
    requires index < 8 * a.Length
    modifies a
    ensures if old(Unpacked(a[..]))[index] then r == 0 && Unpacked(a[..]) == old(Unpacked(a[..]))[index := false]
            else r == -1 && Unpacked(a[..]) == old(Unpacked(a[..]))
  {
    ToggleBit(a, index);
    if GetBit(a, index) == 1 {
      ToggleBit(a, index);
      return -1;
    }
    return 0;
  }
}
