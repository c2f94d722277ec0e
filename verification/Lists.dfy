/** Finite sequences without repetition, used as stacks of frames and pages. */
module Lists {

  /** `l` without the first occurrence of `x`. */
  function Remove<T(==)>(l: seq<T>, x: T): seq<T> {
    if l == [] then [] else if l[0] == x then l[1..] else [l[0]] + Remove(l[1..], x)
  }

  function MoveFront<T(==)>(l: seq<T>, x: T): seq<T> {
    [x] + Remove(l, x)
  }

  /** The first `n` elements, or all of them when there are fewer. */
  function Take<T>(l: seq<T>, n: nat): seq<T> {
    if |l| <= n then l else l[..n]
  }

  function Last<T>(l: seq<T>): T
    requires l != []
  {
    l[|l| - 1]
  }

  function Front<T>(l: seq<T>): seq<T>
    requires l != []
  {
    l[..|l| - 1]
  }

  function Elems<T(==)>(l: seq<T>): set<T> {
    set x | x in l
  }

  ghost predicate NoDup<T>(l: seq<T>) {
    forall i, j :: 0 <= i < j < |l| ==> l[i] != l[j]
  }

  lemma {:induction false} RemoveAbsent<T>(l: seq<T>, x: T)
    requires x !in l
    ensures Remove(l, x) == l
  {
    if l != [] {
      RemoveAbsent(l[1..], x);
    }
  }

  lemma {:induction false} RemoveMembers<T>(l: seq<T>, x: T)
    requires NoDup(l)
    ensures NoDup(Remove(l, x)) && x !in Remove(l, x)
    ensures forall y :: y in Remove(l, x) <==> y in l && y != x
    ensures |Remove(l, x)| == |l| - (if x in l then 1 else 0)
  {
    if l != [] {
      assert l == [l[0]] + l[1..];
      assert l[0] !in l[1..];
      if l[0] != x {
        RemoveMembers(l[1..], x);
      }
    }
  }

  lemma MoveFrontMembers<T>(l: seq<T>, x: T)
    requires NoDup(l)
    ensures NoDup(MoveFront(l, x))
    ensures forall y :: y in MoveFront(l, x) <==> y in l || y == x
    ensures |MoveFront(l, x)| == |l| + (if x in l then 0 else 1)
  {
    RemoveMembers(l, x);
  }

  /** Removing splits a sequence at the first occurrence. */
  lemma {:induction false} RemoveAt<T>(l: seq<T>, i: nat)
    requires i < |l| && l[i] !in l[..i]
    ensures Remove(l, l[i]) == l[..i] + l[i + 1..]
  {
    if i > 0 {
      assert l[0] == l[..i][0];
      assert l[1..][..i - 1] == l[..i][1..];
      RemoveAt(l[1..], i - 1);
      assert l[..i] == [l[0]] + l[1..][..i - 1];
      assert l[1..][i..] == l[i + 1..];
    }
  }

  lemma {:induction false} RemoveTake<T>(l: seq<T>, x: T, m: nat)
    requires m <= |l|
    ensures x in l[..m] ==> m >= 1 && |Remove(l, x)| == |l| - 1 && Remove(l, x)[..m - 1] == Remove(l[..m], x)
    ensures x !in l[..m] ==> |Remove(l, x)| >= m && Remove(l, x)[..m] == l[..m]
  {
    if m > 0 {
      assert l[..m] == [l[0]] + l[1..][..m - 1];
      assert l[..m][1..] == l[1..][..m - 1];
      if l[0] != x {
        RemoveTake(l[1..], x, m - 1);
        if x in l[..m] {
          assert x in l[1..][..m - 1];
          assert Remove(l, x)[..m - 1] == [l[0]] + Remove(l[1..], x)[..m - 2];
        } else {
          assert Remove(l, x)[..m] == [l[0]] + Remove(l[1..], x)[..m - 1];
        }
      } else {
        assert l[..m][0] == x;
      }
    }
  }

  /** Cutting after a move to the front is a move to the front, or a push, of the cut list. */
  lemma TakeMoveFront<T>(l: seq<T>, x: T, n: nat)
    requires n >= 1
    ensures x in Take(l, n) ==> Take(MoveFront(l, x), n) == MoveFront(Take(l, n), x)
    ensures x !in Take(l, n) ==> Take(MoveFront(l, x), n) == Take([x] + Take(l, n), n)
  {
    if |l| <= n {
      if x in l {
        RemoveTake(l, x, |l|);
        assert l[..|l|] == l;
      } else {
        RemoveAbsent(l, x);
      }
    } else {
      RemoveTake(l, x, n);
      if x in l[..n] {
        assert Take(MoveFront(l, x), n) == [x] + Remove(l, x)[..n - 1];
      } else {
        assert Take(MoveFront(l, x), n) == [x] + Remove(l, x)[..n][..n - 1];
      }
    }
  }

  lemma {:induction false} ElemsSize<T>(l: seq<T>)
    requires NoDup(l)
    ensures |Elems(l)| == |l|
  {
    if l != [] {
      ElemsSize(Front(l));
      assert l == Front(l) + [Last(l)];
      assert Last(l) !in Front(l);
      assert Elems(l) == Elems(Front(l)) + {Last(l)};
    }
  }

  /** A subset of a finite set is no larger, and equal when it is as large. */
  lemma {:induction false} SubsetSize<T>(a: set<T>, b: set<T>)
    requires a <= b
    ensures |a| <= |b|
    ensures |a| == |b| ==> a == b
  {
    if a != {} {
      var x :| x in a;
      SubsetSize(a - {x}, b - {x});
      assert a == (a - {x}) + {x} && b == (b - {x}) + {x};
    }
  }

  /** Splitting off the last element of a concatenation. */
  lemma FrontOfConcat<T>(t: seq<T>, w: seq<T>)
    requires w != []
    ensures Front(t + w) == t + Front(w) && Last(t + w) == Last(w)
  {
  }
}
