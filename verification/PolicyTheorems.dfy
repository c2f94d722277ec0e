/** What the policies promise over whole runs of the simulator, for every size and request string. */
module PolicyTheorems {
  import opened Lists
  import opened PagingTheory
  import opened PagingCompetitive
  import opened Replacement
  import opened VirtualMemory
  import opened VmInvariant
  import opened VmRuns
  import opened PagingRuns

  // ----- Runs follow the lists -----

  lemma StepEffect(c: Config, s: Machine, r: Request)
    requires Inv(c, s) && Defined(c, r) && !Rejected(c, r)
    ensures var p, m, t := PageOf(r), s.mem, Step(c, s, r);
      && t.mem == Serviced(c, m, p, r.op.Write?, r.rnd).(ram := t.mem.ram)
      && t.stats.miss == s.stats.miss + (if Loaded(m, p) then 0 else 1)
  {
    SetInTlb(c, s.tlb, PageOf(r));
    if InTlb(s.tlb[SetOf(c, PageOf(r))], PageOf(r).no) {
      InTlbIsLoaded(c, s, SetOf(c, PageOf(r)), PageOf(r).no);
    }
    AddressInRam(c, Translated(c, s, r).mem, PageOf(r), Offset(r));
  }

  ghost predicate Follows(c: Config, s: Machine, t: Trace)
    requires Inv(c, s)
  {
    && s.stats.miss == Misses(OrderOf(c.policy), t, c.frames)
    && if c.policy == LRU then LruPages(s.mem) == Resident(Recency, t, c.frames)
       else FifoInStep(s.mem) && FifoPages(s.mem) == Resident(Arrival, t, c.frames)
  }

  lemma FollowsStep(c: Config, s: Machine, t: Trace, r: Request)
    requires Inv(c, s) && (c.policy == LRU || c.policy == FIFO)
    requires Follows(c, s, t) && Defined(c, r) && !Rejected(c, r)
    ensures Follows(c, Step(c, s, r), t + [PageOf(r)])
  {
    hide Step, Serviced, TlbSound, InRange, Shaped, MapsInverse;
    var p := PageOf(r);
    StepEffect(c, s, r);
    assert Front(t + [p]) == t && Last(t + [p]) == p;
    if c.policy == LRU {
      LruLists(c, s.mem, p);
      LruServiced(c, s.mem, p, r.op.Write?, r.rnd);
    } else {
      FifoLists(c, s.mem, p);
      FifoServiced(c, s.mem, p, r.op.Write?, r.rnd);
    }
  }

  lemma FollowsStart(c: Config, s: Machine)
    requires Started(c, s) && Inv(c, s)
    ensures Follows(c, s, [])
  {
    ModSmall(0, c.frames);
  }

  lemma {:induction false} RunFollows(c: Config, s: Machine, rs: seq<Request>)
    requires Started(c, s) && Inv(c, s) && AllDefined(c, rs) && (c.policy == LRU || c.policy == FIFO)
    ensures Follows(c, Run(c, s, rs), PagesAsked(c, rs))
  {
    if rs == [] {
      FollowsStart(c, s);
    } else {
      RunFollows(c, s, Front(rs));
      if !Rejected(c, Last(rs)) {
        FollowsStep(c, Run(c, s, Front(rs)), PagesAsked(c, Front(rs)), Last(rs));
      } else {
        assert PagesAsked(c, rs) == PagesAsked(c, Front(rs));
      }
    }
  }

  // ----- LRU -----

  /** After any run LRU's list, read through the inverted table, is the `frames` most recently used
      pages, latest first, and those are the pages loaded. */
  lemma LruExact(c: Config, s: Machine, rs: seq<Request>, p: PageId)
    requires Started(c, s) && Inv(c, s) && AllDefined(c, rs) && c.policy == LRU
    ensures var m, recent := Run(c, s, rs).mem, Take(ByRecency(PagesAsked(c, rs)), c.frames);
      LruPages(m) == recent && (Loaded(m, p) <==> p in recent)
  {
    RunFollows(c, s, rs);
    LruKeepsMostRecent(PagesAsked(c, rs), c.frames);
    LruLists(c, Run(c, s, rs).mem, p);
  }

  ghost predicate SameAddresses(c: Config, d: Config) {
    c.pids == d.pids && c.pages == d.pages
  }

  lemma {:induction false} SameTrace(c: Config, d: Config, rs: seq<Request>)
    requires SameAddresses(c, d)
    ensures PagesAsked(c, rs) == PagesAsked(d, rs)
  {
    if rs != [] { SameTrace(c, d, Front(rs)); }
  }

  /** More frames under LRU: every page the smaller memory holds the larger one holds, and misses do not rise. */
  lemma LruMoreFrames(c: Config, s: Machine, d: Config, t: Machine, rs: seq<Request>, p: PageId)
    requires Started(c, s) && Inv(c, s) && AllDefined(c, rs) && c.policy == LRU
    requires Started(d, t) && Inv(d, t) && AllDefined(d, rs) && d.policy == LRU
    requires SameAddresses(c, d) && c.frames <= d.frames
    ensures Loaded(Run(c, s, rs).mem, p) ==> Loaded(Run(d, t, rs).mem, p)
    ensures Run(d, t, rs).stats.miss <= Run(c, s, rs).stats.miss
  {
    SameTrace(c, d, rs);
    LruExact(c, s, rs, p);
    LruExact(d, t, rs, p);
    RunFollows(c, s, rs);
    RunFollows(d, t, rs);
    LruMissesNeverRise(PagesAsked(c, rs), c.frames, d.frames);
  }

  // ----- Both -----

  lemma {:induction false} PagesAskedConcat(c: Config, a: seq<Request>, b: seq<Request>)
    ensures PagesAsked(c, a + b) == PagesAsked(c, a) + PagesAsked(c, b)
  {
    if b == [] {
      assert a + b == a;
    } else {
      assert Front(a + b) == a + Front(b) && Last(a + b) == Last(b);
      PagesAskedConcat(c, a, Front(b));
    }
  }

  /** LRU and FIFO: a stretch of requests for at most `frames` distinct pages misses each at most once. */
  lemma ConservativeRun(c: Config, s: Machine, before: seq<Request>, window: seq<Request>)
    requires Started(c, s) && Inv(c, s) && AllDefined(c, before) && AllDefined(c, before + window)
    requires c.policy == LRU || c.policy == FIFO
    requires |Elems(PagesAsked(c, window))| <= c.frames
    ensures Run(c, s, before + window).stats.miss <= Run(c, s, before).stats.miss + |Elems(PagesAsked(c, window))|
  {
    RunFollows(c, s, before);
    RunFollows(c, s, before + window);
    PagesAskedConcat(c, before, window);
    Conservative(OrderOf(c.policy), PagesAsked(c, before), PagesAsked(c, window), c.frames);
  }

  /** FIFO: the next load goes to the frame numbered by the loads so far, modulo the frames. */
  lemma FifoLoadsInTurn(c: Config, s: Machine, rs: seq<Request>, p: PageId, write: bool, rnd: nat)
    requires Started(c, s) && Inv(c, s) && AllDefined(c, rs) && c.policy == FIFO
    requires InRange(c, p) && !Loaded(Run(c, s, rs).mem, p)
    ensures var m := Run(c, s, rs).mem;
      Serviced(c, m, p, write, rnd).pt[p].frameNo == m.loads % c.frames
  {
    var m := Run(c, s, rs).mem;
    RunFollows(c, s, rs);
    FifoMiss(c, m, p, write, rnd);
    ServicedSound(c, m, p, write, rnd);
    FifoFrame(c, m, p, write, rnd);
  }

  /** The pages missed in a run, latest first: those asked for that were not loaded. */
  function MissedPages(c: Config, s: Machine, rs: seq<Request>): Trace
    requires Inv(c, s) && AllDefined(c, rs)
  {
    if rs == [] then []
    else
      var before, r := MissedPages(c, s, Front(rs)), Last(rs);
      if Rejected(c, r) || Loaded(Run(c, s, Front(rs)).mem, PageOf(r)) then before else [PageOf(r)] + before
  }

  lemma TakeOfTake(l: Trace, p: PageId, n: nat)
    requires n >= 1
    ensures Take([p] + Take(l, n), n) == Take([p] + l, n)
  {
  }

  lemma {:induction false} ResidentIsMissed(c: Config, s: Machine, rs: seq<Request>)
    requires Started(c, s) && Inv(c, s) && AllDefined(c, rs) && c.policy == FIFO
    ensures Resident(Arrival, PagesAsked(c, rs), c.frames) == Take(MissedPages(c, s, rs), c.frames)
    ensures |MissedPages(c, s, rs)| == Misses(Arrival, PagesAsked(c, rs), c.frames)
  {
    if rs != [] {
      var u, p := Front(rs), PageOf(Last(rs));
      ResidentIsMissed(c, s, u);
      RunFollows(c, s, u);
      var m := Run(c, s, u).mem;
      hide Inv, Started, AllDefined, Run, Take, Loaded;
      FifoHolds(c, s, u, p);
      AskedLast(c, rs);
      TakeOfTake(MissedPages(c, s, u), p, c.frames);
    }
  }

  lemma AskedLast(c: Config, rs: seq<Request>)
    requires rs != []
    ensures var t, u := PagesAsked(c, rs), PagesAsked(c, Front(rs));
      if Rejected(c, Last(rs)) then t == u
      else
        && t == u + [PageOf(Last(rs))] && Front(t) == u
        && Last(t) == PageOf(Last(rs))
  {
  }

  /** What the list of arrivals says is loaded is loaded. */
  lemma FifoHolds(c: Config, s: Machine, rs: seq<Request>, p: PageId)
    requires Started(c, s) && Inv(c, s) && AllDefined(c, rs) && c.policy == FIFO
    ensures c.frames >= 1 && (p in Resident(Arrival, PagesAsked(c, rs), c.frames) <==> Loaded(Run(c, s, rs).mem, p))
  {
    RunFollows(c, s, rs);
    FifoLists(c, Run(c, s, rs).mem, p);
  }

  /** After any run of FIFO the pages loaded are exactly those of the last `frames` misses, which are as
      many pages; and there were as many misses as the simulator has counted. */
  lemma FifoExact(c: Config, s: Machine, rs: seq<Request>, p: PageId)
    requires Started(c, s) && Inv(c, s) && AllDefined(c, rs) && c.policy == FIFO
    ensures var n, missed := Run(c, s, rs), MissedPages(c, s, rs);
      && (Loaded(n.mem, p) <==> p in Take(missed, c.frames)) && NoDup(Take(missed, c.frames))
         && |missed| == n.stats.miss
  {
    RunFollows(c, s, rs);
    ResidentIsMissed(c, s, rs);
    FifoHolds(c, s, rs, p);
    ResidentShape(Arrival, PagesAsked(c, rs), c.frames);
  }

  lemma FifoFrame(c: Config, m: Memory, p: PageId, write: bool, rnd: nat)
    requires Sound(c, m) && FifoInStep(m) && c.policy == FIFO && InRange(c, p) && !Loaded(m, p)
    ensures Serviced(c, m, p, write, rnd).pt[p].frameNo == FifoHand(m)
  {
    if m.frameInd == c.frames { FullVictim(c, m, rnd); }
  }

  // ----- Against any policy -----

  function LoadedPages(m: Memory): set<PageId> {
    set p | p in m.pt && m.pt[p].valid
  }

  lemma LoadedFit(c: Config, m: Memory)
    requires Sound(c, m)
    ensures |LoadedPages(m)| <= c.frames
  {
    var l := m.inverted[..m.frameInd];
    assert NoDup(l) by {
      forall i, j | 0 <= i < j < |l| ensures l[i] != l[j] {
        assert m.pt[l[i]].frameNo == i && m.pt[l[j]].frameNo == j;
      }
    }
    ElemsSize(l);
    assert LoadedPages(m) <= Elems(l) by {
      forall p | p in LoadedPages(m) ensures p in l {
        assert l[m.pt[p].frameNo] == p;
      }
    }
    SubsetSize(LoadedPages(m), Elems(l));
  }

  /** What the machine holds before the first request and after each one that is served. */
  function HeldOver(c: Config, s: Machine, rs: seq<Request>): (h: seq<set<PageId>>)
    requires Inv(c, s) && AllDefined(c, rs)
    ensures h != [] && Last(h) == LoadedPages(Run(c, s, rs).mem)
  {
    if rs == [] then [LoadedPages(s.mem)]
    else HeldOver(c, s, Front(rs)) + if Rejected(c, Last(rs)) then [] else [LoadedPages(Run(c, s, rs).mem)]
  }

  /** Whatever the policy, a run is a demand schedule whose faults are the machine's misses. */
  lemma {:induction false} RunIsSchedule(c: Config, s: Machine, rs: seq<Request>)
    requires Started(c, s) && Inv(c, s) && AllDefined(c, rs)
    ensures var h, t := HeldOver(c, s, rs), PagesAsked(c, rs);
      DemandSchedule(h, t, c.frames) && Faults(h, t, |t|) == Run(c, s, rs).stats.miss
    decreases |rs|
  {
    hide *;
    if rs == [] {
      NothingHeld(c, s, rs);
    } else {
      HeldLast(c, s, rs);
      AskedLast(c, rs);
      var u, r := Front(rs), Last(rs);
      RunIsSchedule(c, s, u);
      if !Rejected(c, r) {
        OneMoreHeld(c, Run(c, s, u), r);
        ScheduleGrows(HeldOver(c, s, u), PagesAsked(c, u), c.frames, LoadedPages(Run(c, s, rs).mem), PageOf(r));
      }
    }
  }

  lemma NothingHeld(c: Config, s: Machine, rs: seq<Request>)
    requires Started(c, s) && Inv(c, s) && AllDefined(c, rs) && rs == []
    ensures var h, t := HeldOver(c, s, rs), PagesAsked(c, rs);
      DemandSchedule(h, t, c.frames) && Faults(h, t, |t|) == Run(c, s, rs).stats.miss
  {
    LoadedFit(c, s.mem);
  }

  lemma HeldLast(c: Config, s: Machine, rs: seq<Request>)
    requires Inv(c, s) && AllDefined(c, rs) && rs != []
    ensures |Front(rs)| < |rs| && AllDefined(c, Front(rs)) && Defined(c, Last(rs))
    ensures HeldOver(c, s, Front(rs)) != [] && Last(HeldOver(c, s, Front(rs))) == LoadedPages(Run(c, s, Front(rs)).mem)
    ensures Run(c, s, rs) == Step(c, Run(c, s, Front(rs)), Last(rs))
    ensures Rejected(c, Last(rs)) ==> Run(c, s, rs) == Run(c, s, Front(rs))
    ensures HeldOver(c, s, rs)
         == if Rejected(c, Last(rs)) then HeldOver(c, s, Front(rs))
            else HeldOver(c, s, Front(rs)) + [LoadedPages(Run(c, s, rs).mem)]
  {
    hide Inv, LoadedPages;
  }

  lemma OneMoreHeld(c: Config, s: Machine, r: Request)
    requires Inv(c, s) && Defined(c, r) && !Rejected(c, r)
    ensures var t, p := Step(c, s, r), PageOf(r);
      && |LoadedPages(t.mem)| <= c.frames && p in LoadedPages(t.mem) && LoadedPages(t.mem) <= LoadedPages(s.mem) + {p}
      && t.stats.miss == s.stats.miss + if p in LoadedPages(s.mem) then 0 else 1
  {
    hide Step, Serviced, TlbSound;
    LoadedStep(c, s, r);
    LoadedFit(c, Step(c, s, r).mem);
    StepEffect(c, s, r);
  }

  lemma LoadedStep(c: Config, s: Machine, r: Request)
    requires Inv(c, s) && Defined(c, r) && !Rejected(c, r)
    ensures PageOf(r) in LoadedPages(Step(c, s, r).mem)
    ensures LoadedPages(Step(c, s, r).mem) <= LoadedPages(s.mem) + {PageOf(r)}
  {
    hide Step, Serviced, TlbSound, Shaped, MapsInverse, ListsLoadedFrames, EvictedBy;
    StepEffect(c, s, r);
    LoadedAfter(c, s.mem, PageOf(r), r.op.Write?, r.rnd, PageOf(r));
    forall q | q in LoadedPages(Step(c, s, r).mem) ensures q in LoadedPages(s.mem) + {PageOf(r)} {
      LoadedAfter(c, s.mem, PageOf(r), r.op.Write?, r.rnd, q);
    }
  }

  lemma ScheduleGrows(h: seq<set<PageId>>, t: Trace, n: nat, next: set<PageId>, p: PageId)
    requires DemandSchedule(h, t, n) && |next| <= n && p in next && next <= Last(h) + {p}
    ensures DemandSchedule(h + [next], t + [p], n)
    ensures Faults(h + [next], t + [p], |t| + 1) == Faults(h, t, |t|) + if p in Last(h) then 0 else 1
  {
    DemandGrows(h, t, n, next, p);
    hide DemandSchedule;
    FaultsPrefix(h, t, next, p, |t|);
  }

  lemma DemandGrows(h: seq<set<PageId>>, t: Trace, n: nat, next: set<PageId>, p: PageId)
    requires DemandSchedule(h, t, n) && |next| <= n && p in next && next <= Last(h) + {p}
    ensures DemandSchedule(h + [next], t + [p], n)
  {
  }

  lemma {:induction false} FaultsPrefix(h: seq<set<PageId>>, t: Trace, next: set<PageId>, p: PageId, i: nat)
    requires |h| == |t| + 1 && i <= |t|
    ensures Faults(h + [next], t + [p], i) == Faults(h, t, i)
  {
    if i > 0 { FaultsPrefix(h, t, next, p, i - 1); }
  }

  /** LRU or FIFO with `k` frames against a machine with `h <= k` frames under any policy, on the
      same requests: `(k - h + 1) * misses <= k * (its misses + k - h + 1)`. */
  lemma CompetitiveRun(c: Config, s: Machine, d: Config, t: Machine, rs: seq<Request>)
    requires Started(c, s) && Inv(c, s) && AllDefined(c, rs) && (c.policy == LRU || c.policy == FIFO)
    requires Started(d, t) && Inv(d, t) && AllDefined(d, rs)
    requires SameAddresses(c, d) && d.frames <= c.frames
    ensures WithinRatio(Run(c, s, rs).stats.miss, Run(d, t, rs).stats.miss, c.frames, c.frames - d.frames + 1)
  {
    SameTrace(c, d, rs);
    RunFollows(c, s, rs);
    RunIsSchedule(d, t, rs);
    Competitive(OrderOf(c.policy), PagesAsked(c, rs), c.frames, HeldOver(d, t, rs), d.frames);
  }

  // ----- Counters -----

  ghost predicate CountersOk(s: Machine, served: nat) {
    && s.stats.hit + s.stats.miss == s.stats.tlbHit + s.stats.tlbMiss == served
    && s.stats.tlbHit <= s.stats.hit && s.mem.loads == s.stats.miss && s.mem.stores <= s.mem.loads
  }

  /** Hits and misses, of the tables and of the TLB, add up to the requests served; every miss reads
      the disk once and writes it at most once. */
  lemma {:induction false} CountersAgree(c: Config, s: Machine, rs: seq<Request>)
    requires Started(c, s) && Inv(c, s) && AllDefined(c, rs)
    ensures CountersOk(Run(c, s, rs), |PagesAsked(c, rs)|)
  {
    if rs != [] {
      CountersAgree(c, s, Front(rs));
      CountersStep(c, Run(c, s, Front(rs)), Last(rs), |PagesAsked(c, Front(rs))|);
    }
  }

  lemma CountersStep(c: Config, s: Machine, r: Request, served: nat)
    requires Inv(c, s) && Defined(c, r) && CountersOk(s, served)
    ensures CountersOk(Step(c, s, r), served + if Rejected(c, r) then 0 else 1)
  {
    if !Rejected(c, r) {
      hide *;
      StepStats(c, s, r);
      StepEffect(c, s, r);
      CountedIs(c, s, PageOf(r));
      TransfersCounted(c, s.mem, PageOf(r), r.op.Write?, r.rnd);
      OneMoreCounted(s, Step(c, s, r), served);
    }
  }

  lemma OneMoreCounted(s: Machine, t: Machine, served: nat)
    requires CountersOk(s, served) && t.stats.tlbHit - s.stats.tlbHit <= t.stats.hit - s.stats.hit
    requires t.stats.hit + t.stats.miss == s.stats.hit + s.stats.miss + 1
    requires t.stats.tlbHit + t.stats.tlbMiss == s.stats.tlbHit + s.stats.tlbMiss + 1
    requires t.mem.loads - s.mem.loads == t.stats.miss - s.stats.miss
    requires s.mem.stores <= t.mem.stores <= s.mem.stores + (t.mem.loads - s.mem.loads)
    ensures CountersOk(t, served + 1)
  {
  }

  lemma StepStats(c: Config, s: Machine, r: Request)
    requires Inv(c, s) && Defined(c, r) && !Rejected(c, r)
    ensures Sound(c, s.mem) && InRange(c, PageOf(r)) && Step(c, s, r).stats == Counted(c, s, PageOf(r))
  {
    hide Serviced, TlbAfter, Counted;
  }

  lemma CountedIs(c: Config, s: Machine, p: PageId)
    requires Inv(c, s) && InRange(c, p)
    ensures var n := Counted(c, s, p);
      && n.hit + n.miss == s.stats.hit + s.stats.miss + 1
      && n.tlbHit + n.tlbMiss == s.stats.tlbHit + s.stats.tlbMiss + 1
      && n.miss == s.stats.miss + (if Loaded(s.mem, p) then 0 else 1)
         && n.tlbHit - s.stats.tlbHit <= n.hit - s.stats.hit
  {
    SetInTlb(c, s.tlb, p);
    if InTlb(s.tlb[SetOf(c, p)], p.no) {
      InTlbIsLoaded(c, s, SetOf(c, p), p.no);
    }
  }

  lemma TransfersCounted(c: Config, m: Memory, p: PageId, write: bool, rnd: nat)
    requires Sound(c, m) && InRange(c, p)
    ensures var n := Serviced(c, m, p, write, rnd);
      && n.loads == m.loads + (if Loaded(m, p) then 0 else 1)
      && m.stores <= n.stores <= m.stores + (n.loads - m.loads)
  {
    if !Loaded(m, p) && m.frameInd == c.frames { FullVictim(c, m, rnd); }
  }

  // ----- The null dereference in the LRU list -----

  /** A run that asks for a page before a second one could be listed beside the first. */
  predicate SticksToOne(c: Config, t: Trace) {
    |t| >= 2 && (c.frames == 1 || t[0] == t[1])
  }

  ghost predicate ListedSoFar(c: Config, s: Machine, t: Trace)
    requires Inv(c, s)
  {
    && (t == [] ==> s.mem.repl.frames == [])
    && (|t| == 1 ==> |s.mem.repl.frames| == 1 && Loaded(s.mem, t[0]))
    && (|t| >= 2 && !SticksToOne(c, t) ==> |s.mem.repl.frames| >= 2)
    && (s.mem.repl.nullDeref <==> SticksToOne(c, t))
  }

  /** The list and the fault flag after an access. */
  lemma ListAfter(c: Config, m: Memory, p: PageId, write: bool, rnd: nat)
    requires Sound(c, m) && c.policy == LRU && InRange(c, p)
    ensures var n, l := Serviced(c, m, p, write, rnd), m.repl.frames;
      && |l| == m.frameInd && |n.repl.frames| == |l| + (if Loaded(m, p) || |l| == c.frames then 0 else 1)
      && (n.repl.nullDeref <==> m.repl.nullDeref || (|l| == 1 && (Loaded(m, p) || c.frames == 1)))
  {
    var l := m.repl.frames;
    if Loaded(m, p) {
      var f := m.pt[p].frameNo;
      ListHasAll(m, f);
      MoveFrontMembers(l, f);
      assert |l| == 1 ==> l == [l[0]];
    } else if m.frameInd < c.frames {
      MoveFrontMembers(l, m.frameInd);
      assert l == [m.frameInd] ==> m.frameInd in l;
    } else {
      FullVictim(c, m, rnd);
    }
  }

  lemma ListedStep(c: Config, s: Machine, t: Trace, r: Request)
    requires Inv(c, s) && c.policy == LRU && Defined(c, r) && !Rejected(c, r) && ListedSoFar(c, s, t)
    ensures ListedSoFar(c, Step(c, s, r), t + [PageOf(r)])
  {
    hide Step, Serviced, EvictedBy, TlbSound;
    var p := PageOf(r);
    StepEffect(c, s, r);
    LoadedAfter(c, s.mem, p, r.op.Write?, r.rnd, p);
    ListAfter(c, s.mem, p, r.op.Write?, r.rnd);
    if |t| == 1 && Loaded(s.mem, p) { OneLoaded(s.mem, p, t[0]); }
  }

  lemma OneLoaded(m: Memory, p: PageId, q: PageId)
    requires m.frameInd == 1 && 0 < |m.inverted| && MapsInverse(m) && Loaded(m, p) && Loaded(m, q)
    ensures p == q
  {
    assert m.inverted[m.pt[p].frameNo] == p && m.inverted[m.pt[q].frameNo] == q;
  }

  lemma {:induction false} RunListsSoFar(c: Config, s: Machine, rs: seq<Request>)
    requires Started(c, s) && Inv(c, s) && AllDefined(c, rs) && c.policy == LRU
    ensures ListedSoFar(c, Run(c, s, rs), PagesAsked(c, rs))
  {
    if rs != [] {
      var u := Front(rs);
      RunListsSoFar(c, s, u);
      if !Rejected(c, Last(rs)) {
        ListedStep(c, Run(c, s, u), PagesAsked(c, u), Last(rs));
      } else {
        assert PagesAsked(c, rs) == PagesAsked(c, u);
      }
    }
  }

  /** An LRU run takes the null pointer in list_remove_head or list_remove_tail exactly when it
      serves two requests and either has one frame or asks for the same page in the first two. */
  lemma LruNullDerefExactly(c: Config, s: Machine, rs: seq<Request>)
    requires Started(c, s) && Inv(c, s) && AllDefined(c, rs) && c.policy == LRU
    ensures Run(c, s, rs).mem.repl.nullDeref <==> SticksToOne(c, PagesAsked(c, rs))
  {
    RunListsSoFar(c, s, rs);
  }

  /** With one frame, two reads of the same page are enough. */
  lemma OneFrameNullDeref(s: Machine)
    requires Started(Config(LRU, 1, 1, 1, 1), s)
    ensures var c, r := Config(LRU, 1, 1, 1, 1), Request(0, 0, Read, 0);
      Inv(c, s) && AllDefined(c, [r, r]) && Run(c, s, [r, r]).mem.repl.nullDeref
  {
    var c, r := Config(LRU, 1, 1, 1, 1), Request(0, 0, Read, 0);
    StartedInv(c, s);
    hide Started, Inv, Run;
    assert Front([r, r]) == [r] && Front([r]) == [];
    assert PagesAsked(c, [r]) == [PageOf(r)];
    assert PagesAsked(c, [r, r]) == [PageOf(r), PageOf(r)];
    LruNullDerefExactly(c, s, [r, r]);
  }
}
