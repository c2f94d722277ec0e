/** Whom CLOCK spares. As it is written it is not conservative: when every bit is set it clears them all and leaves
    its hand on the page just loaded, which is the next to go, unless it is asked for again before. */
module ClockRuns {
  import opened Lists
  import opened PagingTheory
  import opened Replacement
  import opened VirtualMemory
  import opened VmInvariant
  import opened VmRuns
  import opened PagingRuns
  import opened PolicyTheorems

  /** In this run the window's pages are missed at most once each, if they are no more than the frames. */
  ghost predicate MissedOnce(c: Config, s: Machine, before: seq<Request>, window: seq<Request>)
    requires Inv(c, s)
  {
    AllDefined(c, before) && AllDefined(c, before + window) && |Elems(PagesAsked(c, window))| <= c.frames ==>
      Run(c, s, before + window).stats.miss <= Run(c, s, before).stats.miss + |Elems(PagesAsked(c, window))|
  }

  // ----- Reference bits -----

  /** A request for a loaded page, through the TLB or not, sets the bit of the page's frame; the other bits, the
      hand and the pages in the frames stay. */
  lemma HitSetsBit(c: Config, s: Machine, r: Request)
    requires Inv(c, s) && c.policy == CLOCK && r.pid < c.pids && r.addr / 256 < c.pages
    requires Loaded(s.mem, PageId(r.pid, r.addr / 256))
    ensures Defined(c, r)
    ensures var m, n, f := s.mem, Step(c, s, r).mem, s.mem.pt[PageId(r.pid, r.addr / 256)].frameNo;
      && 0 <= f < c.frames == |m.repl.clockFlag|
      && n.repl.clockFlag == m.repl.clockFlag[f := 1] && n.repl.clockIndex == m.repl.clockIndex
      && n.inverted == m.inverted && n.frameInd == m.frameInd
  {
    hide Step, TlbSound;
    StepEffect(c, s, r);
  }

  /** A page that goes to a free frame is loaded with its bit set; the other bits and the hand stay. */
  lemma FreeLoadSetsBit(c: Config, s: Machine, r: Request)
    requires Inv(c, s) && c.policy == CLOCK && r.pid < c.pids && r.addr / 256 < c.pages
    requires !Loaded(s.mem, PageId(r.pid, r.addr / 256)) && s.mem.frameInd < c.frames
    ensures Defined(c, r)
    ensures var m, n, f := s.mem, Step(c, s, r).mem, s.mem.frameInd;
      && 0 <= f < c.frames == |m.repl.clockFlag| == |m.inverted|
      && n.repl.clockFlag == m.repl.clockFlag[f := 1] && n.repl.clockIndex == m.repl.clockIndex
      && n.inverted == m.inverted[f := PageId(r.pid, r.addr / 256)] && n.frameInd == f + 1
  {
    hide Step, TlbSound;
    StepEffect(c, s, r);
  }

  /** Every request of `hits` is for a page that is loaded at their start. */
  ghost predicate AllLoaded(c: Config, m: Memory, hits: seq<Request>) {
    forall r :: r in hits ==> r.pid < c.pids && r.addr / 256 < c.pages && Loaded(m, PageId(r.pid, r.addr / 256))
  }

  /** Requests for loaded pages set the bits of these pages' frames and change nothing else of the clock. */
  lemma {:induction false} HitsSetBits(c: Config, s: Machine, hits: seq<Request>, f: nat)
    requires Inv(c, s) && c.policy == CLOCK && AllLoaded(c, s.mem, hits) && f < c.frames
    ensures AllDefined(c, hits)
    ensures var m, n := s.mem, Run(c, s, hits).mem;
      && |m.repl.clockFlag| == |n.repl.clockFlag| == |m.inverted| == c.frames
      && n.repl.clockIndex == m.repl.clockIndex && n.inverted == m.inverted && n.frameInd == m.frameInd
      && n.repl.clockFlag[f] == if f < m.frameInd && m.inverted[f] in PagesAsked(c, hits) then 1
                                else m.repl.clockFlag[f]
  {
    if hits != [] {
      var u, r := Front(hits), Last(hits);
      var p := PageId(r.pid, r.addr / 256);
      LastHit(c, s.mem, hits);
      HitsSetBits(c, s, u, f);
      hide *;
      var t := Run(c, s, u);
      ByInverted(c, s, p, f);
      ByInverted(c, t, p, f);
      HitSetsBit(c, t, r);
      RunOne(c, s, u, r);
    }
  }

  lemma LastHit(c: Config, m: Memory, hits: seq<Request>)
    requires AllLoaded(c, m, hits) && hits != []
    ensures AllLoaded(c, m, Front(hits)) && hits == Front(hits) + [Last(hits)]
    ensures var r := Last(hits);
      && r.pid < c.pids && r.addr / 256 < c.pages && Loaded(m, PageId(r.pid, r.addr / 256))
      && forall x :: x in PagesAsked(c, hits) <==> x in PagesAsked(c, Front(hits)) || x == PageId(r.pid, r.addr / 256)
  {
    assert Last(hits) in hits && forall x :: x in Front(hits) ==> x in hits;
  }

  /** Which page is loaded in which frame can be told from the inverted table. */
  lemma ByInverted(c: Config, s: Machine, p: PageId, f: nat)
    requires Inv(c, s) && f < c.frames
    ensures |s.mem.inverted| == |s.mem.repl.clockFlag| == c.frames
    ensures Loaded(s.mem, p) <==> exists g :: 0 <= g < s.mem.frameInd && g < c.frames && s.mem.inverted[g] == p
    ensures Loaded(s.mem, p) && f < s.mem.frameInd ==> (s.mem.pt[p].frameNo == f <==> s.mem.inverted[f] == p)
    ensures Loaded(s.mem, p) ==> 0 <= s.mem.pt[p].frameNo < s.mem.frameInd
  {
    if Loaded(s.mem, p) { assert s.mem.inverted[s.mem.pt[p].frameNo] == p; }
  }

  /** A fault evicts the page of the first frame, going round from the hand, whose bit is clear: the bits passed are
      cleared, its own is set, and the hand stays there; the other bits stay. */
  lemma FirstClearGoes(c: Config, m: Memory, q: PageId, write: bool, rnd: nat, d: nat)
    requires Sound(c, m) && c.policy == CLOCK && InRange(c, q) && !Loaded(m, q) && m.frameInd == c.frames
    requires FirstClearCyclic(m.repl, d)
    ensures |m.inverted| == |m.repl.clockFlag| == c.frames && 0 <= m.repl.clockIndex < c.frames
    ensures var hand, n := m.repl.clockIndex, Serviced(c, m, q, write, rnd); var v := (hand + d) % c.frames;
      && 0 <= v < c.frames && EvictedBy(c, m, q, rnd) == Evicted(m.inverted[v]) && q in n.pt && n.pt[q].frameNo == v
      && n.repl.clockIndex == v && |n.repl.clockFlag| == c.frames && n.repl.clockFlag[v] == 1
      && forall e :: 0 <= e < c.frames && e != d ==>
           var f := Cyclic(hand, e, c.frames);
           && 0 <= f < c.frames
           && n.repl.clockFlag[f] == if e < d then 0 else m.repl.clockFlag[f]
  {
    ClockIsCyclicSearch(m.repl, d);
    FullVictim(c, m, rnd);
    hide Clock, MapsInverse, FirstClearCyclic;
    forall e | 0 <= e < c.frames ensures 0 <= Cyclic(m.repl.clockIndex, e, c.frames) < c.frames {
      CyclicIs(m.repl.clockIndex, e, c.frames);
    }
  }

  /** A page whose bit is set goes only when every bit is. */
  lemma BitSpares(c: Config, m: Memory, p: PageId, q: PageId, rnd: nat)
    requires Sound(c, m) && c.policy == CLOCK && InRange(c, q) && !Loaded(m, q) && m.frameInd == c.frames
    requires EvictedBy(c, m, q, rnd) == Evicted(p) && m.repl.clockFlag[m.pt[p].frameNo] == 1
    ensures forall i :: 0 <= i < c.frames ==> m.repl.clockFlag[i] == 1
  {
    ClockAllSet(m.repl);
    FullVictim(c, m, rnd);
  }

  /** So a page asked for since the last fault is not the next to go, unless every bit is set by then. */
  lemma AskedIsSpared(c: Config, s: Machine, hits: seq<Request>, p: PageId, q: PageId, rnd: nat)
    requires Inv(c, s) && c.policy == CLOCK && AllLoaded(c, s.mem, hits) && s.mem.frameInd == c.frames
    requires p in PagesAsked(c, hits) && InRange(c, q)
    ensures AllDefined(c, hits)
    ensures var m := Run(c, s, hits).mem;
      && |m.repl.clockFlag| == c.frames
      && (!Loaded(m, q) && EvictedBy(c, m, q, rnd) == Evicted(p) ==>
            forall i :: 0 <= i < c.frames ==> m.repl.clockFlag[i] == 1)
  {
    HitsSetBits(c, s, hits, 0);
    var m := Run(c, s, hits).mem;
    if !Loaded(m, q) && EvictedBy(c, m, q, rnd) == Evicted(p) {
      var f := m.pt[p].frameNo;
      assert 0 <= f < c.frames && m.inverted[f] == p;
      HitsSetBits(c, s, hits, f);
      BitSpares(c, m, p, q, rnd);
    }
  }

  // ----- Windows of one page -----

  lemma ServesAndLoads(c: Config, s: Machine, r: Request)
    requires Inv(c, s) && Defined(c, r) && !Rejected(c, r)
    ensures var t := Step(c, s, r);
      && Loaded(t.mem, PageOf(r)) && t.stats.miss == s.stats.miss + if Loaded(s.mem, PageOf(r)) then 0 else 1
  {
    hide Serviced, Step, TlbSound;
    StepEffect(c, s, r);
    LoadedAfter(c, s.mem, PageOf(r), r.op.Write?, r.rnd, PageOf(r));
  }

  /** Under every policy a page asked for again and again stays loaded. */
  lemma {:induction false} OnePage(c: Config, s: Machine, before: seq<Request>, window: seq<Request>, p: PageId)
    requires Inv(c, s) && AllDefined(c, before) && AllDefined(c, before + window)
    requires forall q :: q in PagesAsked(c, window) ==> q == p
    ensures PagesAsked(c, window) == [] ==> Run(c, s, before + window).stats.miss == Run(c, s, before).stats.miss
    ensures PagesAsked(c, window) != [] ==>
      && Run(c, s, before + window).stats.miss <= Run(c, s, before).stats.miss + 1
      && Loaded(Run(c, s, before + window).mem, p)
  {
    if window == [] {
      assert before + window == before;
    } else {
      var w, r := Front(window), Last(window);
      FrontOfConcat(before, window);
      AskedLast(c, window);
      OneLess(c, s, before, window);
      hide Inv, AllDefined, Run, PagesAsked, Rejected, Loaded;
      OnePage(c, s, before, w, p);
      if !Rejected(c, r) {
        assert PageOf(r) in PagesAsked(c, window);
        ServesAndLoads(c, Run(c, s, before + w), r);
      }
    }
  }

  lemma OneLess(c: Config, s: Machine, before: seq<Request>, window: seq<Request>)
    requires Inv(c, s) && AllDefined(c, before + window) && window != []
    ensures before + window != [] && AllDefined(c, before + Front(window)) && Defined(c, Last(window))
    ensures Run(c, s, before + window) == Step(c, Run(c, s, before + Front(window)), Last(window))
    ensures Rejected(c, Last(window)) ==> Run(c, s, before + window) == Run(c, s, before + Front(window))
    ensures forall q :: q in PagesAsked(c, Front(window)) ==> q in PagesAsked(c, window)
  {
    FrontOfConcat(before, window);
    assert Last(window) in before + window;
    hide Inv;
  }

  lemma OneFrameMissesOnce(c: Config, s: Machine, before: seq<Request>, window: seq<Request>)
    requires Inv(c, s) && c.frames == 1
    ensures MissedOnce(c, s, before, window)
  {
    var t := PagesAsked(c, window);
    if AllDefined(c, before) && AllDefined(c, before + window) && |Elems(t)| <= 1 {
      var p := if t == [] then PageId(0, 0) else t[0];
      forall q | q in t ensures q == p {
        assert {q, p} <= Elems(t);
        SubsetSize({q, p}, Elems(t));
      }
      if t != [] {
        assert {p} <= Elems(t);
        SubsetSize({p}, Elems(t));
      }
      hide Inv, AllDefined, Run, PagesAsked, Elems;
      OnePage(c, s, before, window, p);
    }
  }

  // ----- A window of two pages, missed three times -----

  /** A request for a page. */
  function Ask(p: PageId): (r: Request)
    ensures PageOf(r) == p && r.op.Read?
  {
    Request(p.pid, p.no * PAGE_SIZE, Read, 0)
  }

  function Asks(ps: seq<PageId>): (rs: seq<Request>)
    ensures |rs| == |ps| && forall i :: 0 <= i < |ps| ==> rs[i] == Ask(ps[i])
  {
    seq(|ps|, i requires 0 <= i < |ps| => Ask(ps[i]))
  }

  lemma AsksAreDefined(c: Config, ps: seq<PageId>)
    requires forall p :: p in ps ==> InRange(c, p)
    ensures AllDefined(c, Asks(ps)) && forall i :: 0 <= i < |ps| ==> !Rejected(c, Asks(ps)[i])
  {
    forall i | 0 <= i < |ps| ensures !Rejected(c, Asks(ps)[i]) && Defined(c, Asks(ps)[i]) {
      assert ps[i] in ps;
      assert PageOf(Ask(ps[i])) == ps[i];
    }
  }

  lemma {:induction false} PagesOfAsks(c: Config, ps: seq<PageId>)
    requires forall p :: p in ps ==> InRange(c, p)
    ensures PagesAsked(c, Asks(ps)) == ps
  {
    if ps != [] {
      AsksAreDefined(c, ps);
      assert Front(Asks(ps)) == Asks(Front(ps));
      assert Last(ps) in ps && forall p :: p in Front(ps) ==> p in ps;
      PagesOfAsks(c, Front(ps));
      assert ps == Front(ps) + [Last(ps)];
    }
  }

  /** Pages `ps` are loaded, in as many frames, and all their bits are set. */
  ghost predicate AllSet(c: Config, m: Memory, ps: seq<PageId>) {
    && m.frameInd == |ps| <= |m.repl.clockFlag| && (forall i :: 0 <= i < |ps| ==> m.repl.clockFlag[i] == 1)
    && forall q :: Loaded(m, q) <==> q in ps
  }

  lemma FillsOne(c: Config, m: Memory, ps: seq<PageId>, p: PageId)
    requires Sound(c, m) && c.policy == CLOCK && AllSet(c, m, ps) && InRange(c, p) && p !in ps && |ps| < c.frames
    ensures AllSet(c, Serviced(c, m, p, false, 0), ps + [p])
  {
    var n := Serviced(c, m, p, false, 0);
    assert n == LoadFree(c, m, p, false);
    forall q ensures Loaded(n, q) <==> q in ps + [p] {
      LoadedAfter(c, m, p, false, 0, q);
    }
  }

  lemma StepOfAsk(c: Config, s: Machine, p: PageId)
    requires Inv(c, s) && InRange(c, p)
    ensures Defined(c, Ask(p)) && !Rejected(c, Ask(p)) && Sound(c, s.mem)
    ensures var t := Step(c, s, Ask(p)); var m := Serviced(c, s.mem, p, false, 0);
      && t.mem == m.(ram := t.mem.ram) && t.stats.miss == s.stats.miss + if Loaded(s.mem, p) then 0 else 1
  {
    hide Serviced, Step, TlbSound;
    StepEffect(c, s, Ask(p));
  }

  lemma RunOne(c: Config, s: Machine, rs: seq<Request>, x: Request)
    requires Inv(c, s) && AllDefined(c, rs) && Defined(c, x)
    ensures AllDefined(c, rs + [x]) && Run(c, s, rs + [x]) == Step(c, Run(c, s, rs), x)
  {
    assert Front(rs + [x]) == rs && Last(rs + [x]) == x;
    hide Inv;
  }

  lemma {:induction false} FillsAll(c: Config, s: Machine, ps: seq<PageId>)
    requires Started(c, s) && Inv(c, s) && c.policy == CLOCK && |ps| <= c.frames && NoDup(ps)
    requires forall p :: p in ps ==> InRange(c, p)
    ensures AllDefined(c, Asks(ps)) && AllSet(c, Run(c, s, Asks(ps)).mem, ps) && Run(c, s, Asks(ps)).stats.miss == |ps|
    decreases |ps|
  {
    if ps == [] {
      assert Asks(ps) == [];
    } else {
      hide *;
      var u, p := ps[..|ps| - 1], ps[|ps| - 1];
      LastAsk(ps);
      FillsAll(c, s, u);
      var t := Run(c, s, Asks(u));
      StepOfAsk(c, t, p);
      FillsOne(c, t.mem, u, p);
      NotYetLoaded(c, t.mem, u, p);
      RunOne(c, s, Asks(u), Ask(p));
      SameMemory(c, Serviced(c, t.mem, p, false, 0), Run(c, s, Asks(ps)).mem, ps);
    }
  }

  lemma LastAsk(ps: seq<PageId>)
    requires ps != [] && NoDup(ps)
    ensures var u, p := ps[..|ps| - 1], ps[|ps| - 1];
      && NoDup(u) && p !in u && p in ps && (forall q :: q in u ==> q in ps)
      && ps == u + [p] && Asks(ps) == Asks(u) + [Ask(p)]
  {
    var u, p := ps[..|ps| - 1], ps[|ps| - 1];
    assert Asks(ps) == Asks(u) + [Ask(p)];
  }

  lemma NotYetLoaded(c: Config, m: Memory, ps: seq<PageId>, p: PageId)
    requires AllSet(c, m, ps) && p !in ps
    ensures !Loaded(m, p)
  {
  }

  lemma SameMemory(c: Config, m: Memory, n: Memory, ps: seq<PageId>)
    requires AllSet(c, m, ps) && n == m.(ram := n.ram)
    ensures AllSet(c, n, ps)
  {
    assert forall q :: Loaded(n, q) <==> Loaded(m, q);
  }

  /** With every bit set the hand's page goes, and the new one is left under the hand with a clear bit. */
  lemma AllSetEvicts(c: Config, m: Memory, p: PageId)
    requires Sound(c, m) && c.policy == CLOCK && m.frameInd == c.frames && InRange(c, p) && !Loaded(m, p)
    requires forall i :: 0 <= i < c.frames ==> m.repl.clockFlag[i] == 1
    ensures var n, h := Serviced(c, m, p, false, 0), m.repl.clockIndex;
      && 0 <= h < c.frames == |n.inverted| == |n.repl.clockFlag| && n.frameInd == c.frames
      && n.inverted[h] == p && n.repl.clockIndex == h && n.repl.clockFlag[h] == 0
      && n.repl.clockFlag == seq(c.frames, i => 0) && Loaded(n, p) && n.pt[p].frameNo == h
  {
    ClockAllSet(m.repl);
    FullVictim(c, m, 0);
    hide MapsInverse;
  }

  lemma HandGoes(c: Config, m: Memory, p: PageId)
    requires Sound(c, m) && c.policy == CLOCK && m.frameInd == c.frames && InRange(c, p) && !Loaded(m, p)
    requires m.repl.clockFlag[m.repl.clockIndex] == 0
    ensures EvictedBy(c, m, p, 0) == Evicted(m.inverted[m.repl.clockIndex])
  {
    FullVictim(c, m, 0);
    assert FirstClear(m.repl.clockFlag, m.repl.clockIndex, |m.repl.clockFlag|) == m.repl.clockIndex;
  }

  /** Two pages that are not loaded, the first, the second and the first again: three misses. */
  lemma ThreeMisses(c: Config, s: Machine, ps: seq<PageId>, a: PageId, b: PageId)
    requires Inv(c, s) && c.policy == CLOCK && |ps| == c.frames && AllSet(c, s.mem, ps)
    requires InRange(c, a) && InRange(c, b) && a != b && a !in ps && b !in ps
    ensures Defined(c, Ask(a)) && Defined(c, Ask(b))
    ensures Step(c, Step(c, Step(c, s, Ask(a)), Ask(b)), Ask(a)).stats.miss == s.stats.miss + 3
  {
    hide Serviced, Step, TlbSound, MapsInverse, EvictedBy;
    StepOfAsk(c, s, a);
    var t := Step(c, s, Ask(a));
    StepOfAsk(c, t, b);
    var u := Step(c, t, Ask(b));
    StepOfAsk(c, u, a);
    AllSetEvicts(c, s.mem, a);
    LoadedAfter(c, s.mem, a, false, 0, b);
    HandGoes(c, t.mem, b);
    LoadedAfter(c, t.mem, b, false, 0, a);
  }

  /** But the first, the first again, the second and the first: two misses, if there are two frames. */
  lemma TwoMisses(c: Config, s: Machine, ps: seq<PageId>, a: PageId, b: PageId)
    requires Inv(c, s) && c.policy == CLOCK && |ps| == c.frames >= 2 && AllSet(c, s.mem, ps)
    requires InRange(c, a) && InRange(c, b) && a != b && a !in ps && b !in ps
    ensures Defined(c, Ask(a)) && Defined(c, Ask(b))
    ensures var t := Step(c, Step(c, Step(c, s, Ask(a)), Ask(a)), Ask(b));
      && Loaded(t.mem, a) && t.stats.miss == s.stats.miss + 2 && Step(c, t, Ask(a)).stats.miss == t.stats.miss
  {
    hide Serviced, Step, TlbSound, MapsInverse, EvictedBy;
    StepOfAsk(c, s, a);
    var t := Step(c, s, Ask(a));
    StepOfAsk(c, t, a);
    AskIs(c, a);
    AllSetEvicts(c, s.mem, a);
    LoadedAfter(c, s.mem, a, false, 0, b);
    HitSetsBit(c, t, Ask(a));
    var u := Step(c, t, Ask(a));
    StepOfAsk(c, u, b);
    LoadedAfter(c, t.mem, a, false, 0, a);
    LoadedAfter(c, t.mem, a, false, 0, b);
    LoadedAfter(c, u.mem, b, false, 0, a);
    if EvictedBy(c, u.mem, b, 0) == Evicted(a) {
      StaysInFrame(c, t.mem, a);
      BitSpares(c, u.mem, a, b, 0);
      OtherFrame(u.mem.repl.clockFlag, t.mem.repl.clockFlag, s.mem.repl.clockIndex);
      assert false;
    }
    StepOfAsk(c, Step(c, u, Ask(b)), a);
  }

  lemma AskIs(c: Config, p: PageId)
    requires InRange(c, p)
    ensures Ask(p).pid < c.pids && Ask(p).addr / 256 < c.pages && PageId(Ask(p).pid, Ask(p).addr / 256) == p
  {
    assert PageOf(Ask(p)) == p;
  }

  lemma StaysInFrame(c: Config, m: Memory, p: PageId)
    requires Sound(c, m) && Loaded(m, p) && InRange(c, p)
    ensures Serviced(c, m, p, false, 0).pt == m.pt
  {
  }

  /** With one bit set among two or more, not all are. */
  lemma OtherFrame(flag: seq<int>, before: seq<int>, h: int)
    requires |flag| == |before| >= 2 && 0 <= h < |flag| && flag == before[h := 1] && before == seq(|flag|, i => 0)
    ensures exists i :: 0 <= i < |flag| && flag[i] != 1
  {
    assert flag[if h == 0 then 1 else 0] == 0;
  }

  lemma RunOfThree(c: Config, s: Machine, rs: seq<Request>, x: Request, y: Request)
    requires Inv(c, s) && AllDefined(c, rs) && Defined(c, x) && Defined(c, y)
    ensures AllDefined(c, rs + [x, y, x])
    ensures Run(c, s, rs + [x, y, x]) == Step(c, Step(c, Step(c, Run(c, s, rs), x), y), x)
  {
    hide *;
    RunOne(c, s, rs, x);
    RunOne(c, s, rs + [x], y);
    RunOne(c, s, rs + [x] + [y], x);
    assert rs + [x] + [y] + [x] == rs + [x, y, x];
  }

  /** With two frames or more: fill the frames, and then ask for two new pages, one of them twice. */
  lemma TwoPagesThreeMisses(c: Config, s: Machine, ps: seq<PageId>)
    requires Started(c, s) && Inv(c, s) && c.policy == CLOCK && c.frames >= 2
    requires |ps| == c.frames + 2 && NoDup(ps) && forall p :: p in ps ==> InRange(c, p)
    ensures var n := c.frames; !MissedOnce(c, s, Asks(ps[..n]), [Ask(ps[n]), Ask(ps[n + 1]), Ask(ps[n])])
  {
    var n, a, b := c.frames, ps[c.frames], ps[c.frames + 1];
    var first, window := ps[..n], [Ask(a), Ask(b), Ask(a)];
    ApartFrom(ps, n);
    hide Inv, Started, Step, Run, AllDefined, PagesAsked, AllSet, InRange, Asks, Ask, NoDup;
    FillsAll(c, s, first);
    ThreeMisses(c, Run(c, s, Asks(first)), first, a, b);
    RunOfThree(c, s, Asks(first), Ask(a), Ask(b));
    TwoAsked(c, a, b);
  }

  lemma ApartFrom(ps: seq<PageId>, n: nat)
    requires NoDup(ps) && |ps| == n + 2
    ensures var first, a, b := ps[..n], ps[n], ps[n + 1];
      && NoDup(first) && a != b && a in ps && b in ps && a !in first && b !in first && forall p :: p in first ==>
         p in ps
  {
  }

  lemma TwoAsked(c: Config, a: PageId, b: PageId)
    requires InRange(c, a) && InRange(c, b) && a != b
    ensures PagesAsked(c, [Ask(a), Ask(b), Ask(a)]) == [a, b, a]
      && |Elems(PagesAsked(c, [Ask(a), Ask(b), Ask(a)]))| == 2
  {
    PagesOfAsks(c, [a, b, a]);
    assert Asks([a, b, a]) == [Ask(a), Ask(b), Ask(a)];
    assert Elems([a, b, a]) == {a, b};
  }

  /** CLOCK misses the pages of every window of at most as many pages as frames at most once each, in every
      run, exactly when there is one frame; `ps` are pages enough to fill the frames and two besides. */
  lemma ClockConservativeExactly(c: Config, s: Machine, ps: seq<PageId>)
    requires Started(c, s) && Inv(c, s) && c.policy == CLOCK
    requires |ps| == c.frames + 2 && NoDup(ps) && forall p :: p in ps ==> InRange(c, p)
    ensures (forall before, window :: MissedOnce(c, s, before, window)) <==> c.frames == 1
  {
    if c.frames == 1 {
      forall before, window ensures MissedOnce(c, s, before, window) {
        OneFrameMissesOnce(c, s, before, window);
      }
    } else {
      TwoPagesThreeMisses(c, s, ps);
    }
  }

  function FourPages(): (ps: seq<PageId>)
    ensures |ps| == 4
  {
    [PageId(0, 0), PageId(0, 1), PageId(0, 2), PageId(0, 3)]
  }

  function TwoFrames(): Config {
    Config(CLOCK, 2, 1, 4, 1)
  }

  /** Two frames and the pages 0, 1, 2, 3, 2 of one process: the last three all miss. */
  lemma TwoPagesOfFour(s: Machine)
    requires Started(TwoFrames(), s)
    ensures var ps := FourPages();
      && Inv(TwoFrames(), s)
      && !MissedOnce(TwoFrames(), s, [Ask(ps[0]), Ask(ps[1])], [Ask(ps[2]), Ask(ps[3]), Ask(ps[2])])
  {
    hide Started, Inv, MissedOnce, Ask, FourPages;
    FourFacts();
    StartedInv(TwoFrames(), s);
    TwoPagesThreeMisses(TwoFrames(), s, FourPages());
    assert Asks(FourPages()[..2]) == [Ask(FourPages()[0]), Ask(FourPages()[1])];
  }

  lemma FourFacts()
    ensures NoDup(FourPages()) && forall p :: p in FourPages() ==> InRange(TwoFrames(), p)
  {
  }

  /** With two frames or more: fill the frames, ask for a new page twice, for another, and for the first again. */
  lemma AskedAgainStays(c: Config, s: Machine, ps: seq<PageId>)
    requires Started(c, s) && Inv(c, s) && c.policy == CLOCK && c.frames >= 2
    requires |ps| == c.frames + 2 && NoDup(ps) && forall p :: p in ps ==> InRange(c, p)
    ensures var n := c.frames; var rs := Asks(ps[..n]) + [Ask(ps[n]), Ask(ps[n]), Ask(ps[n + 1])];
      && AllDefined(c, rs) && Defined(c, Ask(ps[n])) && Run(c, s, rs).stats.miss == n + 2
      && Step(c, Run(c, s, rs), Ask(ps[n])).stats.miss == n + 2
  {
    var n, a, b := c.frames, ps[c.frames], ps[c.frames + 1];
    var first := ps[..n];
    ApartFrom(ps, n);
    hide Inv, Started, Step, Run, AllDefined, PagesAsked, AllSet, InRange, Asks, Ask, NoDup, Loaded;
    FillsAll(c, s, first);
    TwoMisses(c, Run(c, s, Asks(first)), first, a, b);
    RunOfLast(c, s, Asks(first), Ask(a), Ask(b));
  }

  /** Two frames and the pages 0, 1, 2, 2, 3, 2 of one process: the last is a hit. */
  lemma TwiceOfFour(s: Machine)
    requires Started(TwoFrames(), s)
    ensures var c, ps := TwoFrames(), FourPages();
      var rs := [Ask(ps[0]), Ask(ps[1])] + [Ask(ps[2]), Ask(ps[2]), Ask(ps[3])];
      && Inv(c, s) && AllDefined(c, rs) && Defined(c, Ask(ps[2]))
      && Run(c, s, rs).stats.miss == 4 && Step(c, Run(c, s, rs), Ask(ps[2])).stats.miss == 4
  {
    hide Started, Inv, Run, Step, AllDefined, Ask, FourPages;
    FourFacts();
    StartedInv(TwoFrames(), s);
    AskedAgainStays(TwoFrames(), s, FourPages());
    assert Asks(FourPages()[..2]) == [Ask(FourPages()[0]), Ask(FourPages()[1])];
  }

  lemma RunOfLast(c: Config, s: Machine, rs: seq<Request>, x: Request, y: Request)
    requires Inv(c, s) && AllDefined(c, rs) && Defined(c, x) && Defined(c, y)
    ensures AllDefined(c, rs + [x, x, y])
    ensures Run(c, s, rs + [x, x, y]) == Step(c, Step(c, Step(c, Run(c, s, rs), x), x), y)
  {
    hide *;
    RunOne(c, s, rs, x);
    RunOne(c, s, rs + [x], x);
    RunOne(c, s, rs + [x] + [x], y);
    assert rs + [x] + [x] + [y] == rs + [x, x, y];
  }
}
