/**
 * Page replacement as a list of resident pages, the next victim last, and what holds of such
 * lists over whole traces. The simulator's LRU and FIFO runs are shown to follow these lists
 * in module `PagingRuns`.
 */
module PagingTheory {
  import opened Lists

  datatype PageId = PageId(pid: nat, no: nat)

  /** `Recency`: a hit moves the page to the front. `Arrival`: a hit changes nothing. */
  datatype Order = Recency | Arrival

  type Trace = seq<PageId>

  function Serve(o: Order, l: seq<PageId>, p: PageId, n: nat): seq<PageId> {
    if p !in l then Take([p] + l, n)
    else if o == Recency then MoveFront(l, p)
    else l
  }

  /** The resident pages after `t`, with `n` frames. */
  function Resident(o: Order, t: Trace, n: nat): seq<PageId> {
    if t == [] then [] else Serve(o, Resident(o, Front(t), n), Last(t), n)
  }

  function Misses(o: Order, t: Trace, n: nat): nat {
    if t == [] then 0
    else Misses(o, Front(t), n) + if Last(t) in Resident(o, Front(t), n) then 0 else 1
  }

  /** All pages of a trace, most recently used first; no capacity is involved. */
  function ByRecency(t: Trace): seq<PageId> {
    if t == [] then [] else MoveFront(ByRecency(Front(t)), Last(t))
  }

  ghost predicate LastUse(t: Trace, p: PageId, i: int) {
    0 <= i < |t| && t[i] == p && p !in t[i + 1..]
  }

  lemma {:induction false} ResidentShape(o: Order, t: Trace, n: nat)
    requires n >= 1
    ensures NoDup(Resident(o, t, n)) && |Resident(o, t, n)| <= n
    ensures t != [] ==> Last(t) in Resident(o, t, n)
  {
    if t != [] {
      var l := Resident(o, Front(t), n);
      ResidentShape(o, Front(t), n);
      if Last(t) in l {
        MoveFrontMembers(l, Last(t));
      } else {
        assert [Last(t)] + l == MoveFront(l, Last(t)) by { RemoveAbsent(l, Last(t)); }
        MoveFrontMembers(l, Last(t));
        assert Take([Last(t)] + l, n)[0] == Last(t);
      }
    }
  }

  // ----- LRU is exact -----

  /** `ByRecency` lists each page of the trace once, in the order of last use, latest first. */
  lemma {:induction false} ByRecencySorted(t: Trace)
    ensures NoDup(ByRecency(t))
    ensures forall p :: p in ByRecency(t) <==> p in t
    ensures forall a, b, i, j ::
              0 <= a < b < |ByRecency(t)| && LastUse(t, ByRecency(t)[a], i) && LastUse(t, ByRecency(t)[b], j) ==> i > j
  {
    if t != [] {
      var u, p := Front(t), Last(t);
      var r := ByRecency(u);
      assert t == u + [p];
      ByRecencySorted(u);
      MoveFrontMembers(r, p);
      forall a, b, i, j | 0 <= a < b < |ByRecency(t)| && LastUse(t, ByRecency(t)[a], i)
        && LastUse(t, ByRecency(t)[b], j)
        ensures i > j
      {
        assert ByRecency(t)[0] == p;
        LastUseFront(t, ByRecency(t)[b], j);
        if a > 0 {
          LastUseFront(t, ByRecency(t)[a], i);
          RemoveKeepsOrder(r, p, a - 1, b - 1);
        } else {
          if i < |t| - 1 { LastInTail(t, i); assert false; }
        }
      }
    }
  }

  lemma LastInTail(t: Trace, i: nat)
    requires i < |t| - 1
    ensures Last(t) in t[i + 1..]
  {
    assert t[i + 1..][|t| - 2 - i] == Last(t);
  }

  lemma LastUseFront(t: Trace, p: PageId, i: int)
    requires LastUse(t, p, i) && p != Last(t)
    ensures i < |t| - 1 && LastUse(Front(t), p, i)
  {
    assert t[i + 1..] == Front(t)[i + 1..] + [Last(t)];
  }

  lemma {:induction false} RemoveKeepsOrder<T>(l: seq<T>, x: T, a: nat, b: nat)
    requires a < b < |Remove(l, x)|
    ensures exists i, j :: 0 <= i < j < |l| && l[i] == Remove(l, x)[a] && l[j] == Remove(l, x)[b]
  {
    if l[0] == x {
      assert l[a + 1] == Remove(l, x)[a] && l[b + 1] == Remove(l, x)[b];
    } else if a > 0 {
      RemoveKeepsOrder(l[1..], x, a - 1, b - 1);
      var i, j :| 0 <= i < j < |l[1..]| && l[1..][i] == Remove(l[1..], x)[a - 1]
        && l[1..][j] == Remove(l[1..], x)[b - 1];
      assert l[i + 1] == Remove(l, x)[a] && l[j + 1] == Remove(l, x)[b];
    } else {
      RemoveIsPart(l[1..], x, b - 1);
      var j :| 0 <= j < |l[1..]| && l[1..][j] == Remove(l[1..], x)[b - 1];
      assert l[0] == Remove(l, x)[a] && l[j + 1] == Remove(l, x)[b];
    }
  }

  lemma {:induction false} RemoveIsPart<T>(l: seq<T>, x: T, b: nat)
    requires b < |Remove(l, x)|
    ensures Remove(l, x)[b] in l
  {
    if l[0] != x && b > 0 {
      RemoveIsPart(l[1..], x, b - 1);
    }
  }

  /** LRU keeps exactly the `n` most recently used pages. */
  lemma {:induction false} LruKeepsMostRecent(t: Trace, n: nat)
    requires n >= 1
    ensures Resident(Recency, t, n) == Take(ByRecency(t), n)
  {
    if t != [] {
      LruKeepsMostRecent(Front(t), n);
      TakeMoveFront(ByRecency(Front(t)), Last(t), n);
    }
  }

  /** The stack property: the `m` frames hold the front of what `n` frames hold. */
  lemma LruInclusion(t: Trace, m: nat, n: nat)
    requires 1 <= m <= n
    ensures Resident(Recency, t, m) <= Resident(Recency, t, n)
  {
    LruKeepsMostRecent(t, m);
    LruKeepsMostRecent(t, n);
  }

  lemma {:induction false} LruMissesNeverRise(t: Trace, m: nat, n: nat)
    requires 1 <= m <= n
    ensures Misses(Recency, t, n) <= Misses(Recency, t, m)
  {
    if t != [] {
      LruMissesNeverRise(Front(t), m, n);
      LruInclusion(Front(t), m, n);
    }
  }

  // ----- Both orders are conservative -----

  /** The last request of a window. */
  lemma WindowSplit(o: Order, t: Trace, w: Trace, n: nat)
    requires w != []
    ensures var l := Resident(o, t + Front(w), n);
      && Resident(o, t + w, n) == Serve(o, l, Last(w), n)
      && Misses(o, t + w, n) == Misses(o, t + Front(w), n) + if Last(w) in l then 0 else 1
    ensures Elems(w) == Elems(Front(w)) + {Last(w)} && |Elems(Front(w))| <= |Elems(w)|
  {
    FrontOfConcat(t, w);
    assert w == Front(w) + [Last(w)];
    SubsetSize(Elems(Front(w)), Elems(w));
  }

  /** LRU: the pages of a window of at most `n` distinct pages stay in front. */
  lemma {:induction false} LruWindow(t: Trace, w: Trace, n: nat)
    requires |Elems(w)| <= n && n >= 1
    ensures InFront(Elems(w), Resident(Recency, t + w, n))
    ensures Misses(Recency, t + w, n) <= Misses(Recency, t, n) + |Elems(w)|
  {
    if w == [] {
      assert t + w == t;
    } else {
      var u, p := Front(w), Last(w);
      var l := Resident(Recency, t + u, n);
      ResidentShape(Recency, t + u, n);
      WindowSplit(Recency, t, w, n);
      LruWindow(t, u, n);
      LruWindowStep(l, Elems(u), p, n);
    }
  }

  ghost predicate InFront(d: set<PageId>, l: seq<PageId>) {
    |d| <= |l| && forall q :: q in d ==> q in Take(l, |d|)
  }

  lemma LruWindowStep(l: seq<PageId>, d: set<PageId>, p: PageId, n: nat)
    requires NoDup(l) && InFront(d, l) && |d + {p}| <= n && |l| <= n
    ensures InFront(d + {p}, Serve(Recency, l, p, n))
  {
    if p in d {
      assert d + {p} == d;
      LruWindowOld(l, d, p, n);
    } else {
      LruWindowNew(l, d, p, n);
    }
  }

  lemma LruWindowOld(l: seq<PageId>, d: set<PageId>, p: PageId, n: nat)
    requires NoDup(l) && InFront(d, l) && p in d
    ensures InFront(d, Serve(Recency, l, p, n))
  {
    TakeMoveFront(l, p, |d|);
    MoveFrontMembers(l, p);
    MoveFrontMembers(Take(l, |d|), p);
  }

  lemma LruWindowNew(l: seq<PageId>, d: set<PageId>, p: PageId, n: nat)
    requires NoDup(l) && InFront(d, l) && p !in d && |d| + 1 <= n && |l| <= n
    ensures InFront(d + {p}, Serve(Recency, l, p, n))
  {
    var f, k := Take(l, |d|), Serve(Recency, l, p, n);
    FrontIsWindow(l, d);
    LruPush(l, p, |d|, n);
    assert |d + {p}| == |d| + 1;
    assert forall q :: q in [p] + f <==> q == p || q in f;
  }

  /** When the window fills its part of the list, that part holds nothing else. */
  lemma FrontIsWindow(l: seq<PageId>, d: set<PageId>)
    requires NoDup(l) && InFront(d, l)
    ensures forall q :: q in d <==> q in Take(l, |d|)
  {
    var f := Take(l, |d|);
    ElemsSize(f);
    SubsetSize(d, Elems(f));
    assert Elems(f) == d;
  }

  lemma LruPush(l: seq<PageId>, p: PageId, m: nat, n: nat)
    requires NoDup(l) && m <= |l| <= n && m < n && p !in Take(l, m)
    ensures var k := Serve(Recency, l, p, n); m + 1 <= |k| && Take(k, m + 1) == [p] + Take(l, m)
  {
    RemoveTake(l, p, m);
    assert l[..m] == Take(l, m);
  }

  /** FIFO: the `m` newest pages all belong to `d`. */
  ghost predicate NewestIn(m: int, l: seq<PageId>, d: set<PageId>) {
    0 <= m <= |l| && m <= |d| && forall q :: q in Take(l, m) ==> q in d
  }

  /** FIFO: the pages missed within the window are distinct, newest, and all in the window. */
  lemma {:induction false} FifoWindow(t: Trace, w: Trace, n: nat)
    requires |Elems(w)| <= n && n >= 1
    ensures NewestIn(Misses(Arrival, t + w, n) - Misses(Arrival, t, n), Resident(Arrival, t + w, n), Elems(w))
  {
    if w == [] {
      assert t + w == t;
    } else {
      var u, p := Front(w), Last(w);
      WindowSplit(Arrival, t, w, n);
      FifoWindow(t, u, n);
      ResidentShape(Arrival, t + u, n);
      FifoWindowStep(Misses(Arrival, t + u, n) - Misses(Arrival, t, n), Resident(Arrival, t + u, n), Elems(u), p, n);
    }
  }

  lemma FifoWindowStep(m: nat, l: seq<PageId>, d: set<PageId>, p: PageId, n: nat)
    requires NoDup(l) && NewestIn(m, l, d) && |d + {p}| <= n
    ensures NewestIn(m + (if p in l then 0 else 1), Serve(Arrival, l, p, n), d + {p})
  {
    SubsetSize(d, d + {p});
    if p !in l {
      var f := Take(l, m);
      ElemsSize(f);
      SubsetSize(Elems(f), (d + {p}) - {p});
      assert Take(Take([p] + l, n), m + 1) == [p] + f;
    }
  }

  /** Any stretch of requests touching at most `n` pages misses each of them at most once. */
  lemma Conservative(o: Order, t: Trace, w: Trace, n: nat)
    requires |Elems(w)| <= n && n >= 1
    ensures Misses(o, t + w, n) <= Misses(o, t, n) + |Elems(w)|
  {
    if o == Recency { LruWindow(t, w, n); } else { FifoWindow(t, w, n); }
  }
}
