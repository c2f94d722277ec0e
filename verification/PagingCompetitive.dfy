/**
 * LRU and FIFO against any other way of filling the frames: with `k` frames they miss at most
 * `k / (k - h + 1)` times as often, up to one additive `k`, as any demand paging with `h <= k`
 * frames, clairvoyant or not.
 */
module PagingCompetitive {
  import opened Lists
  import opened PagingTheory

  /** Phases of at most `k` distinct pages, cut greedily: how many, where the last one starts,
      and the pages it has requested. */
  datatype Phase = Phase(count: nat, start: nat, pages: set<PageId>)

  function Phases(t: Trace, k: nat): Phase {
    if t == [] then Phase(0, 0, {}) else NextPhase(Phases(Front(t), k), Last(t), |t| - 1, k)
  }

  /** `p` is the request at position `i`. */
  function NextPhase(q: Phase, p: PageId, i: nat, k: nat): Phase {
    if q.count == 0 || (p !in q.pages && |q.pages| >= k) then Phase(q.count + 1, i, {p})
    else q.(pages := q.pages + {p})
  }

  /** What some paging with `h` frames holds before and after each request: it may drop pages at
      will, but loads only the requested one. */
  ghost predicate DemandSchedule(held: seq<set<PageId>>, t: Trace, h: nat) {
    && |held| == |t| + 1
    && (forall i :: 0 <= i <= |t| ==> |held[i]| <= h)
    && (forall i {:trigger t[i]} :: 0 <= i < |t| ==> t[i] in held[i + 1] && held[i + 1] <= held[i] + {t[i]})
  }

  function Faults(held: seq<set<PageId>>, t: Trace, i: nat): nat
    requires i <= |t| < |held|
  {
    if i == 0 then 0 else Faults(held, t, i - 1) + if t[i - 1] in held[i - 1] then 0 else 1
  }

  /** The recorded pages are those requested since the phase began. */
  lemma {:induction false} PhasePages(t: Trace, k: nat)
    requires k >= 1
    ensures var q := Phases(t, k); q.start <= |t| && q.pages == Elems(t[q.start..]) && |q.pages| <= k
  {
    if t != [] {
      var u, p := Front(t), Last(t);
      PhasePages(u, k);
      hide Phases;
      assert t == u + [p];
      NextPages(u, p, Phases(u, k), k);
      PhasesLast(t, k);
    }
  }

  lemma PhasesLast(t: Trace, k: nat)
    requires t != []
    ensures Phases(t, k) == NextPhase(Phases(Front(t), k), Last(t), |t| - 1, k)
  {
  }

  lemma NextPages(u: Trace, p: PageId, q: Phase, k: nat)
    requires k >= 1 && q.start <= |u| && q.pages == Elems(u[q.start..]) && |q.pages| <= k
    ensures var r := NextPhase(q, p, |u|, k);
      r.start <= |u| + 1 && r.pages == Elems((u + [p])[r.start..]) && |r.pages| <= k
  {
    var t := u + [p];
    assert t[|u|..] == [p];
    assert t[q.start..] == u[q.start..] + [p];
    assert p in q.pages ==> q.pages + {p} == q.pages;
  }

  lemma {:induction false} PhaseStart(t: Trace, k: nat)
    ensures var q := Phases(t, k);
      && (t == [] <==> q.count == 0)
      && (t != [] ==> q.start < |t| && Phases(t[..q.start], k).count == q.count - 1)
  {
    if t != [] {
      var u := Front(t);
      var r := Phases(t, k);
      PhaseStart(u, k);
      assert r.start <= |u| ==> t[..r.start] == u[..r.start];
      assert u[..|u|] == u;
    }
  }

  /** `count` times `k`, as a sum over the phases. */
  ghost function Times(k: nat, count: nat): nat {
    if count == 0 then 0 else k + Times(k, count - 1)
  }

  lemma MissesFrom(o: Order, t: Trace, s: nat, k: nat)
    requires s <= |t| && |Elems(t[s..])| <= k && k >= 1
    ensures Misses(o, t, k) <= Misses(o, t[..s], k) + k
  {
    assert t[..s] + t[s..] == t;
    Conservative(o, t[..s], t[s..], k);
  }

  /** At most `k` misses a phase. */
  lemma {:induction false} PhaseMisses(o: Order, t: Trace, k: nat)
    requires k >= 1
    ensures Misses(o, t, k) <= Times(k, Phases(t, k).count)
    decreases |t|
  {
    if t != [] {
      hide *;
      var c, s := Phases(t, k).count, Phases(t, k).start;
      PhaseStart(t, k);
      PhasePages(t, k);
      MissesFrom(o, t, s, k);
      PhaseMisses(o, t[..s], k);
      TimesNext(k, c);
    }
  }

  lemma TimesNext(k: nat, c: nat)
    requires c >= 1
    ensures Times(k, c) == k + Times(k, c - 1)
  {
  }

  /** Since a phase began, `c` being held just after its first request and `d` its pages so far. */
  ghost predicate PhaseCharged(faults: nat, g: nat, count: nat, d: set<PageId>, c: set<PageId>, now: set<PageId>) {
    count >= 1 && faults >= Times(g, count - 1) + |d - c| && now <= c + d
  }

  lemma ChargeSamePhase(faults: nat, g: nat, count: nat, d: set<PageId>, c: set<PageId>, now: set<PageId>,
                        p: PageId, after: set<PageId>)
    requires PhaseCharged(faults, g, count, d, c, now) && after <= now + {p}
    ensures PhaseCharged(faults + (if p in now then 0 else 1), g, count, d + {p}, c, after)
  {
    if p in d || p in c {
      assert (d + {p}) - c == d - c;
    } else {
      assert (d + {p}) - c == (d - c) + {p};
    }
  }

  lemma ChargeNewPhase(faults: nat, h: nat, k: nat, count: nat, d: set<PageId>, c: set<PageId>, now: set<PageId>,
    p: PageId)
    requires h <= k && PhaseCharged(faults, k - h + 1, count, d, c, now)
    requires |d| >= k && p !in d && |c| <= h
    ensures faults + (if p in now then 0 else 1) >= Times(k - h + 1, count)
  {
    var g := k - h + 1;
    assert d == (d - c) + (d * c);
    if p in c {
      SubsetSize(d * c, c - {p});
    } else {
      SubsetSize(d * c, c);
    }
  }

  lemma {:induction false} ScheduleFaults(t: Trace, held: seq<set<PageId>>, h: nat, k: nat, i: nat)
    requires 1 <= h <= k && DemandSchedule(held, t, h) && 1 <= i <= |t|
    ensures var q := Phases(t[..i], k);
      q.start < i && PhaseCharged(Faults(held, t, i), k - h + 1, q.count, q.pages, held[q.start + 1], held[i])
  {
    hide *;
    var u := t[..i - 1];
    Prefix(t, i);
    PhaseStart(u, k);
    PhasePages(u, k);
    PhasesLast(t[..i], k);
    if i > 1 {
      ScheduleFaults(t, held, h, k, i - 1);
      ScheduleStep(t, held, h, k, i, Phases(u, k));
    } else {
      FirstFault(t, held, h, k);
    }
  }

  lemma Prefix(t: Trace, i: nat)
    requires 1 <= i <= |t|
    ensures t[..i] != [] && |t[..i]| == i && Front(t[..i]) == t[..i - 1] && Last(t[..i]) == t[i - 1]
    ensures i > 1 ==> t[..i - 1] != []
  {
  }

  lemma FirstFault(t: Trace, held: seq<set<PageId>>, h: nat, k: nat)
    requires 1 <= h <= k && DemandSchedule(held, t, h) && t != []
    ensures var q := Phases(t[..1], k);
      q.start == 0 && PhaseCharged(Faults(held, t, 1), k - h + 1, q.count, q.pages, held[1], held[1])
  {
    assert t[..1] == [t[0]];
    assert {t[0]} - held[1] == {};
  }

  /** Request `t[i - 1]`, after phases `q`. */
  lemma ScheduleStep(t: Trace, held: seq<set<PageId>>, h: nat, k: nat, i: nat, q: Phase)
    requires 1 <= h <= k && DemandSchedule(held, t, h) && 1 < i <= |t| && q.start < i - 1 && |q.pages| <= k
    requires PhaseCharged(Faults(held, t, i - 1), k - h + 1, q.count, q.pages, held[q.start + 1], held[i - 1])
    ensures var r := NextPhase(q, t[i - 1], i - 1, k);
      r.start < i && PhaseCharged(Faults(held, t, i), k - h + 1, r.count, r.pages, held[r.start + 1], held[i])
  {
    var p := t[i - 1];
    if p !in q.pages && |q.pages| >= k {
      ChargeNewPhase(Faults(held, t, i - 1), h, k, q.count, q.pages, held[q.start + 1], held[i - 1], p);
      assert {p} - held[i] == {};
    } else {
      ChargeSamePhase(Faults(held, t, i - 1), k - h + 1, q.count, q.pages, held[q.start + 1], held[i - 1], p, held[i]);
    }
  }

  /** The competitive bound of LRU and FIFO. */
  lemma Competitive(o: Order, t: Trace, k: nat, held: seq<set<PageId>>, h: nat)
    requires 1 <= h <= k && DemandSchedule(held, t, h)
    ensures WithinRatio(Misses(o, t, k), Faults(held, t, |t|), k, k - h + 1)
  {
    hide Phases, Misses, Faults, Times, WithinRatio;
    PhaseMisses(o, t, k);
    PhaseStart(t, k);
    if t != [] {
      assert t[..|t|] == t;
      ScheduleFaults(t, held, h, k, |t|);
    }
    Ratio(Misses(o, t, k), Faults(held, t, |t|), k, k - h + 1, Phases(t, k).count);
  }

  ghost predicate WithinRatio(misses: nat, faults: nat, k: nat, g: nat) {
    g * misses <= k * (faults + g)
  }

  lemma Ratio(misses: nat, faults: nat, k: nat, g: nat, count: nat)
    requires misses <= Times(k, count) && (count > 0 ==> faults >= Times(g, count - 1))
    ensures WithinRatio(misses, faults, k, g)
  {
    TimesIsProduct(k, count);
    if count > 0 {
      TimesIsProduct(g, count - 1);
      MulBound(g, k, misses, count, faults);
    }
  }

  lemma MulBound(g: nat, k: nat, misses: nat, count: nat, faults: nat)
    requires count >= 1 && misses <= k * count && faults >= g * (count - 1)
    ensures g * misses <= k * (faults + g)
  {
    assert g * misses <= g * (k * count);
    assert g * (k * count) == k * (g * count);
    assert g * count == g * (count - 1) + g;
    assert k * (g * count) <= k * (faults + g);
  }

  lemma {:induction false} TimesIsProduct(k: nat, count: nat)
    ensures Times(k, count) == k * count
  {
    if count > 0 {
      TimesIsProduct(k, count - 1);
    }
  }
}
