/** The four replacement policies as functions of their state (Project-3/replacement.c). */
module Replacement {
  import opened Lists

  datatype Policy = RANDOM | FIFO | LRU | CLOCK

  /** `frames` lists the LRU list's data from the head; `nullDeref` records that removing from a
      one-node list went through a null pointer. */
  datatype State = State(frames: seq<int>, nullDeref: bool, clockFlag: seq<int>, clockIndex: int, fifoIndex: int)

  /** `lru` with `lru_flag` 1 or 3: drop `frame` if listed, then insert it at the head. */
  function LruTouch(r: State, frame: int): State {
    r.(frames := MoveFront(r.frames, frame), nullDeref := r.nullDeref || r.frames == [frame])
  }

  /** `lru` with `lru_flag` 2: the last frame is the victim and becomes the head. */
  function LruEvict(r: State): (int, State)
    requires r.frames != []
  {
    (Last(r.frames), r.(frames := [Last(r.frames)] + Front(r.frames), nullDeref := r.nullDeref || |r.frames| == 1))
  }

  function Fifo(r: State, n: nat): (int, State)
    requires n > 0
  {
    (r.fifoIndex % n, r.(fifoIndex := r.fifoIndex + 1))
  }

  /** The first index in `lo..hi` whose flag is not 1, or `hi`. */
  function FirstClear(flag: seq<int>, lo: int, hi: int): (i: int)
    requires 0 <= lo <= hi <= |flag|
    ensures lo <= i <= hi
    ensures forall k :: lo <= k < i ==> flag[k] == 1
    ensures i < hi ==> flag[i] != 1
    decreases hi - lo
  {
    if lo < hi && flag[lo] == 1 then FirstClear(flag, lo + 1, hi) else lo
  }

  function Clear(flag: seq<int>, lo: int, hi: int): seq<int>
    requires 0 <= lo <= hi <= |flag|
  {
    seq(|flag|, i requires 0 <= i < |flag| => if lo <= i < hi then 0 else flag[i])
  }

  /** `clock`: scan from the hand to the end, then from the start to the hand. */
  function Clock(r: State): (int, State)
    requires 0 <= r.clockIndex < |r.clockFlag|
  {
    var n, hand := |r.clockFlag|, r.clockIndex;
    var i := FirstClear(r.clockFlag, hand, n);
    if i < n then (i, r.(clockFlag := Clear(r.clockFlag, hand, i)[i := 1], clockIndex := i))
    else
      var passed := Clear(r.clockFlag, hand, n);
      var j := FirstClear(passed, 0, hand);
      if j < hand then (j, r.(clockFlag := Clear(passed, 0, j)[j := 1], clockIndex := j))
      else (hand, r.(clockFlag := Clear(passed, 0, hand)))
  }

  predicate Ready(policy: Policy, r: State, n: nat) {
    n > 0 && |r.clockFlag| == n && 0 <= r.clockIndex < n && 0 <= r.fifoIndex && (policy == LRU ==> r.frames != [])
  }

  /** `page_replacement` on a full memory; `rnd` is what `rand()` returns. */
  function Victim(policy: Policy, r: State, n: nat, rnd: nat): (int, State)
    requires Ready(policy, r, n)
  {
    match policy
    case RANDOM => (rnd % n, r)
    case FIFO => Fifo(r, n)
    case LRU => LruEvict(r)
    case CLOCK => Clock(r)
  }

  /** What a hit on `frame`, or loading a free one, does to the policy's state. */
  function Touch(policy: Policy, r: State, frame: int): State
    requires 0 <= frame < |r.clockFlag|
  {
    match policy
    case LRU => LruTouch(r, frame)
    case CLOCK => r.(clockFlag := r.clockFlag[frame := 1])
    case _ => r
  }

  /** The `d`-th frame the clock hand looks at. */
  function Cyclic(hand: int, d: int, n: nat): int
    requires n > 0
  {
    (hand + d) % n
  }

  ghost predicate FirstClearCyclic(r: State, d: nat) {
    var n := |r.clockFlag|;
    && d < n && 0 <= r.clockIndex < n
    && r.clockFlag[Cyclic(r.clockIndex, d, n)] != 1
    && forall e :: 0 <= e < d ==> r.clockFlag[Cyclic(r.clockIndex, e, n)] == 1
  }

  // ----- Remainders -----

  lemma {:induction false} ModNext(x: nat, n: nat)
    requires n > 0
    ensures (x + 1) % n == if x % n + 1 == n then 0 else x % n + 1
    decreases x
  {
    if x >= n {
      ModLess(x, n);
      ModLess(x + 1, n);
      ModNext(x - n, n);
    } else if x + 1 == n {
      ModSelf(n);
    } else {
      ModSmall(x, n);
      ModSmall(x + 1, n);
    }
  }

  lemma ModSmall(x: nat, n: nat)
    requires x < n
    ensures x % n == x
  {
  }

  lemma ModSelf(n: nat)
    requires n > 0
    ensures n % n == 0 && (n - 1) % n == n - 1
  {
  }

  lemma ModLess(x: nat, n: nat)
    requires 0 < n <= x
    ensures x % n == (x - n) % n
  {
    var y := x - n;
    var q, r := y / n, y % n;
    assert x == (q + 1) * n + r by { assert y == q * n + r; assert (q + 1) * n == q * n + n; }
    QuotientUnique(n, q + 1, r, x / n, x % n);
  }

  lemma QuotientUnique(n: nat, q: int, r: nat, q': int, r': nat)
    requires r < n && r' < n && q * n + r == q' * n + r'
    ensures r == r'
  {
    if q > q' {
      MulGap(q, q', n);
      assert false;
    } else if q < q' {
      MulGap(q', q, n);
      assert false;
    }
  }

  lemma MulGap(q: int, q': int, n: nat)
    requires q > q'
    ensures q * n >= q' * n + n
  {
    assert q * n == (q - q' - 1) * n + q' * n + n;
  }

  lemma CyclicIs(hand: int, d: int, n: nat)
    requires 0 <= hand < n && 0 <= d < n
    ensures Cyclic(hand, d, n) == if hand + d < n then hand + d else hand + d - n
  {
    if hand + d < n {
      ModSmall(hand + d, n);
    } else {
      ModLess(hand + d, n);
      ModSmall(hand + d - n, n);
    }
  }

  /** `clock` is a cyclic search from the hand: the victim is the first clear frame, exactly the
      frames passed over lose their bit, the victim gets its own, and the hand stays on it. */
  lemma ClockIsCyclicSearch(r: State, d: nat)
    requires FirstClearCyclic(r, d)
    ensures var n := |r.clockFlag|; var v := Cyclic(r.clockIndex, d, n); var (frame, s) := Clock(r);
      && frame == v && s.clockIndex == v && |s.clockFlag| == n && s.clockFlag[v] == 1
      && (forall e :: 0 <= e < n && e != d ==>
            s.clockFlag[Cyclic(r.clockIndex, e, n)] == if e < d then 0 else r.clockFlag[Cyclic(r.clockIndex, e, n)])
  {
    var n, hand := |r.clockFlag|, r.clockIndex;
    ClearKeepsBefore(r.clockFlag, hand);
    forall e | 0 <= e < n
      ensures Cyclic(hand, e, n) == if hand + e < n then hand + e else hand + e - n
    {
      CyclicIs(hand, e, n);
    }
    assert forall k :: hand <= k < n && k - hand < d ==> r.clockFlag[k] == 1 by {
      forall k | hand <= k < n && k - hand < d ensures r.clockFlag[k] == 1 {
        assert Cyclic(hand, k - hand, n) == k;
      }
    }
    assert forall k :: 0 <= k < hand && k + n - hand < d ==> r.clockFlag[k] == 1 by {
      forall k | 0 <= k < hand && k + n - hand < d ensures r.clockFlag[k] == 1 {
        assert Cyclic(hand, k + n - hand, n) == k;
      }
    }
  }

  /** With every bit set the unchanged hand is the victim and all bits end up clear: the only
      case in which the victim's bit was set. */
  lemma ClockAllSet(r: State)
    requires 0 <= r.clockIndex < |r.clockFlag|
    ensures var (frame, s) := Clock(r);
      && 0 <= frame < |r.clockFlag|
      && (r.clockFlag[frame] == 1 <==> forall i :: 0 <= i < |r.clockFlag| ==> r.clockFlag[i] == 1)
      && (r.clockFlag[frame] == 1 ==>
            && frame == r.clockIndex == s.clockIndex
            && s.clockFlag == seq(|r.clockFlag|, i => 0))
  {
    ClearKeepsBefore(r.clockFlag, r.clockIndex);
  }

  lemma ClearKeepsBefore(flag: seq<int>, hand: int)
    requires 0 <= hand <= |flag|
    ensures forall k :: 0 <= k < hand ==> Clear(flag, hand, |flag|)[k] == flag[k]
    ensures Clear(flag, hand, |flag|)[..hand] == flag[..hand]
  {
  }

  lemma VictimInRange(policy: Policy, r: State, n: nat, rnd: nat)
    requires Ready(policy, r, n) && (policy == LRU ==> forall x :: x in r.frames ==> 0 <= x < n)
    ensures var (v, s) := Victim(policy, r, n, rnd);
      0 <= v < n && |s.clockFlag| == n && 0 <= s.clockIndex < n && 0 <= s.fifoIndex
  {
    if policy == LRU { assert Last(r.frames) in r.frames; }
  }
}
