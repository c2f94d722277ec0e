/** Runs of the simulator under LRU and FIFO follow the lists of `PagingTheory`; what those lists
    promise then holds of the simulator. */
module PagingRuns {
  import opened Lists
  import opened PagingTheory
  import opened Replacement
  import opened VirtualMemory
  import opened VmInvariant
  import opened VmRuns

  /** The pages asked for, in order; rejected requests ask for none. */
  function PagesAsked(c: Config, rs: seq<Request>): Trace {
    if rs == [] then []
    else
      var r := Last(rs);
      PagesAsked(c, Front(rs))
        + if r.pid > c.pids || r.addr / 256 > c.pages then [] else [PageId(r.pid, r.addr / 256)]
  }

  /** The pages of the frames `l`. */
  function Through(l: seq<int>, inverted: seq<PageId>): seq<PageId>
    requires forall x :: x in l ==> 0 <= x < |inverted|
  {
    seq(|l|, i requires 0 <= i < |l| => assert l[i] in l; inverted[l[i]])
  }

  /** The LRU list read through the inverted table. */
  function LruPages(m: Memory): seq<PageId>
    requires forall f :: f in m.repl.frames ==> 0 <= f < |m.inverted|
  {
    Through(m.repl.frames, m.inverted)
  }

  /** FIFO: the frame the next load goes to. */
  function FifoHand(m: Memory): int
    requires 0 < |m.inverted|
  {
    if m.frameInd < |m.inverted| then m.frameInd else m.repl.fifoIndex % |m.inverted|
  }

  /** The frame `i` places behind the hand, going round. */
  function Behind(hand: int, i: int, n: nat): int {
    if i < hand then hand - 1 - i else hand - 1 - i + n
  }

  /** FIFO: the page of the latest load first. */
  function FifoPages(m: Memory): seq<PageId>
    requires 0 < |m.inverted| && 0 <= FifoHand(m) < |m.inverted| && m.frameInd <= |m.inverted|
  {
    seq(m.frameInd, i requires 0 <= i < m.frameInd => m.inverted[Behind(FifoHand(m), i, |m.inverted|)])
  }

  /** FIFO: frames are filled in turn, load number `k`, from 0, in frame `k % frames`. */
  ghost predicate FifoInStep(m: Memory)
    requires 0 < |m.inverted|
  {
    && m.frameInd == (if m.loads < |m.inverted| then m.loads else |m.inverted|)
    && (m.frameInd < |m.inverted| ==> m.repl.fifoIndex == 0)
    && FifoHand(m) == m.loads % |m.inverted|
  }

  function OrderOf(policy: Policy): Order {
    if policy == LRU then Recency else Arrival
  }

  // ----- One access -----

  lemma {:induction false} RemoveMapped(l: seq<int>, inverted: seq<PageId>, f: int)
    requires NoDup(l) && (forall x :: x in l ==> 0 <= x < |inverted|) && 0 <= f < |inverted|
    requires forall x :: x in l && inverted[x] == inverted[f] ==> x == f
    ensures forall x :: x in Remove(l, f) ==> 0 <= x < |inverted|
    ensures Remove(Through(l, inverted), inverted[f]) == Through(Remove(l, f), inverted)
  {
    if l != [] {
      assert l[0] in l;
      assert forall x :: x in l[1..] ==> x in l;
      assert Through(l, inverted)[1..] == Through(l[1..], inverted);
      if l[0] != f {
        RemoveMapped(l[1..], inverted, f);
        assert Through(Remove(l, f), inverted) == [inverted[l[0]]] + Through(Remove(l[1..], f), inverted);
      }
    }
  }

  lemma LruLists(c: Config, m: Memory, p: PageId)
    requires Sound(c, m) && c.policy == LRU
    ensures NoDup(LruPages(m)) && |LruPages(m)| == m.frameInd
    ensures p in LruPages(m) <==> Loaded(m, p)
  {
    var l := m.repl.frames;
    forall i, j | 0 <= i < j < |l| ensures LruPages(m)[i] != LruPages(m)[j] {
      assert l[i] in l && l[j] in l;
      assert m.pt[m.inverted[l[i]]].frameNo == l[i];
    }
    if Loaded(m, p) {
      ListHasAll(m, m.pt[p].frameNo);
      var i :| 0 <= i < |l| && l[i] == m.pt[p].frameNo;
      assert LruPages(m)[i] == p;
    }
    if p in LruPages(m) {
      var i :| 0 <= i < |l| && LruPages(m)[i] == p;
      assert l[i] in l;
    }
  }

  lemma LruHit(c: Config, m: Memory, p: PageId, write: bool)
    requires Sound(c, m) && c.policy == LRU && Loaded(m, p)
    ensures Sound(c, Hit(c, m, p, write)) && LruPages(Hit(c, m, p, write)) == MoveFront(LruPages(m), p)
  {
    var f := m.pt[p].frameNo;
    HitSound(c, m, p, write);
    RemoveMapped(m.repl.frames, m.inverted, f);
  }

  /** Loading a frame that is not listed and listing it first. */
  lemma ThroughOther(l: seq<int>, inverted: seq<PageId>, f: int, p: PageId)
    requires f !in l && 0 <= f < |inverted| && forall x :: x in l ==> 0 <= x < |inverted|
    ensures Through([f] + l, inverted[f := p]) == [p] + Through(l, inverted)
  {
    var a, b := Through([f] + l, inverted[f := p]), [p] + Through(l, inverted);
    forall i | 0 <= i < |a| ensures a[i] == b[i] {
      if i > 0 { assert l[i - 1] in l; }
    }
  }

  lemma LruLoadFree(c: Config, m: Memory, p: PageId, write: bool)
    requires Sound(c, m) && c.policy == LRU && InRange(c, p) && !Loaded(m, p) && m.frameInd < c.frames
    ensures Sound(c, LoadFree(c, m, p, write)) && LruPages(LoadFree(c, m, p, write)) == [p] + LruPages(m)
  {
    LoadFreeSound(c, m, p, write);
    RemoveAbsent(m.repl.frames, m.frameInd);
    ThroughOther(m.repl.frames, m.inverted, m.frameInd, p);
  }

  lemma LruReplace(c: Config, m: Memory, p: PageId, write: bool, rnd: nat)
    requires Sound(c, m) && c.policy == LRU && InRange(c, p) && !Loaded(m, p) && m.frameInd == c.frames
    ensures var n := Fault(c, m, p, write, rnd);
      Sound(c, n) && LruPages(n) == [p] + LruPages(m)[..m.frameInd - 1]
  {
    FaultSound(c, m, p, write, rnd);
    FullVictim(c, m, rnd);
    var l := m.repl.frames;
    assert l == Front(l) + [Last(l)];
    assert Last(l) in l && Last(l) !in Front(l);
    assert forall x :: x in Front(l) ==> x in l;
    ThroughOther(Front(l), m.inverted, Last(l), p);
    assert LruPages(m)[..|l| - 1] == Through(Front(l), m.inverted);
  }

  /** LRU: the list of an access, whichever branch serves it. */
  lemma LruServiced(c: Config, m: Memory, p: PageId, write: bool, rnd: nat)
    requires Sound(c, m) && c.policy == LRU && InRange(c, p)
    ensures var n := Serviced(c, m, p, write, rnd);
      Sound(c, n) && LruPages(n) == Serve(Recency, LruPages(m), p, c.frames)
  {
    LruLists(c, m, p);
    if Loaded(m, p) {
      LruHit(c, m, p, write);
    } else if m.frameInd < c.frames {
      LruLoadFree(c, m, p, write);
    } else {
      LruReplace(c, m, p, write, rnd);
      assert Take([p] + LruPages(m), c.frames) == [p] + LruPages(m)[..m.frameInd - 1];
    }
  }

  /** FIFO: a miss loads the frame under the hand and moves the hand on. */
  lemma FifoMiss(c: Config, m: Memory, p: PageId, write: bool, rnd: nat)
    requires Sound(c, m) && c.policy == FIFO && FifoInStep(m) && InRange(c, p) && !Loaded(m, p)
    ensures var n := Serviced(c, m, p, write, rnd);
      && |n.inverted| == c.frames && FifoInStep(n)
      && n.loads == m.loads + 1 && n.inverted == m.inverted[FifoHand(m) := p]
      && FifoHand(n) == (if FifoHand(m) + 1 == c.frames then 0 else FifoHand(m) + 1)
      && n.frameInd == (if m.frameInd < c.frames then m.frameInd + 1 else m.frameInd)
  {
    ModNext(m.loads, c.frames);
    ModNext(m.repl.fifoIndex, c.frames);
    ModSmall(0, c.frames);
    FifoMissState(c, m, p, write, rnd);
  }

  lemma FifoMissState(c: Config, m: Memory, p: PageId, write: bool, rnd: nat)
    requires Sound(c, m) && c.policy == FIFO && FifoInStep(m) && InRange(c, p) && !Loaded(m, p)
    ensures var n := Serviced(c, m, p, write, rnd);
      && |n.inverted| == c.frames && n.loads == m.loads + 1 && n.inverted == m.inverted[FifoHand(m) := p]
      && (m.frameInd < c.frames ==> n.frameInd == m.frameInd + 1 && n.repl.fifoIndex == 0)
      && (m.frameInd == c.frames ==> n.frameInd == c.frames && n.repl.fifoIndex == m.repl.fifoIndex + 1)
  {
    if m.frameInd == c.frames { FullVictim(c, m, rnd); }
  }

  lemma FifoListsAfter(m: Memory, n: Memory, p: PageId)
    requires 0 < |m.inverted| == |n.inverted| && 0 <= FifoHand(m) < |m.inverted| && m.frameInd <= |m.inverted|
    requires n.inverted == m.inverted[FifoHand(m) := p]
    requires FifoHand(n) == if FifoHand(m) + 1 == |m.inverted| then 0 else FifoHand(m) + 1
    requires n.frameInd == if m.frameInd < |m.inverted| then m.frameInd + 1 else m.frameInd
    ensures FifoPages(n) == Take([p] + FifoPages(m), |m.inverted|)
  {
    var a, b := FifoPages(n), Take([p] + FifoPages(m), |m.inverted|);
    assert |a| == |b|;
    forall i | 0 <= i < |a| ensures a[i] == b[i] {
      if i > 0 {
        assert Behind(FifoHand(n), i, |m.inverted|) == Behind(FifoHand(m), i - 1, |m.inverted|) != FifoHand(m);
        assert b[i] == FifoPages(m)[i - 1];
      }
    }
  }

  lemma FifoLists(c: Config, m: Memory, p: PageId)
    requires Sound(c, m) && FifoInStep(m)
    ensures p in FifoPages(m) <==> Loaded(m, p)
  {
    var hand, n := FifoHand(m), c.frames;
    if Loaded(m, p) {
      var f := m.pt[p].frameNo;
      var i := if f < hand then hand - 1 - f else hand - 1 - f + n;
      assert Behind(hand, i, n) == f;
      assert FifoPages(m)[i] == p;
    }
    if p in FifoPages(m) {
      var i :| 0 <= i < m.frameInd && FifoPages(m)[i] == p;
      assert Behind(hand, i, n) < m.frameInd;
    }
  }

  /** FIFO: the list of an access, whichever branch serves it. */
  lemma FifoServiced(c: Config, m: Memory, p: PageId, write: bool, rnd: nat)
    requires Sound(c, m) && c.policy == FIFO && FifoInStep(m) && InRange(c, p)
    ensures var n := Serviced(c, m, p, write, rnd);
      Sound(c, n) && FifoInStep(n) && FifoPages(n) == Serve(Arrival, FifoPages(m), p, c.frames)
  {
    ServicedSound(c, m, p, write, rnd);
    FifoLists(c, m, p);
    if !Loaded(m, p) {
      FifoMiss(c, m, p, write, rnd);
      FifoListsAfter(m, Serviced(c, m, p, write, rnd), p);
    }
  }
}
