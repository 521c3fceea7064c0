/** What part of a list an operation returns, told by positions in that list. */
module Positions {

  /** `at` lists positions of `s` in ascending order, and `out` is what stands there. */
  ghost predicate Picks<T>(s: seq<T>, out: seq<T>, at: seq<nat>) {
    && |out| == |at|
    && (forall i :: 0 <= i < |at| ==> at[i] < |s| && out[i] == s[at[i]])
    && forall i, j :: 0 <= i < j < |at| ==> at[i] < at[j]
  }

  ghost predicate PicksAll<T>(s: seq<T>, out: seq<T>, at: seq<nat>, keep: nat -> bool) {
    Picks(s, out, at) && forall x: nat :: x in at <==> x < |s| && keep(x)
  }

  /** `out` is what stands in `s` at the positions to keep: all of them, nothing else, each once, in order. */
  ghost predicate Exactly<T>(s: seq<T>, out: seq<T>, keep: nat -> bool) {
    exists at: seq<nat> :: PicksAll(s, out, at, keep)
  }

  /** Ascending lists of the same positions are the same. */
  lemma {:induction false} AscendingUnique(a: seq<nat>, b: seq<nat>)
    requires forall i, j :: 0 <= i < j < |a| ==> a[i] < a[j]
    requires forall i, j :: 0 <= i < j < |b| ==> b[i] < b[j]
    requires forall x :: x in a <==> x in b
    ensures a == b
  {
    assert a != [] ==> a[0] in b;
    assert b != [] ==> b[0] in a;
    if a != [] {
      var m, n := |a| - 1, |b| - 1;
      LastIsGreatest(a, b);
      forall x ensures x in a[..m] <==> x in b[..n] {
        FrontHas(a, x);
        FrontHas(b, x);
      }
      AscendingUnique(a[..m], b[..n]);
      assert a == a[..m] + [a[m]] && b == b[..n] + [b[n]];
    }
  }

  lemma LastIsGreatest(a: seq<nat>, b: seq<nat>)
    requires a != [] && b != []
    requires forall i, j :: 0 <= i < j < |a| ==> a[i] < a[j]
    requires forall i, j :: 0 <= i < j < |b| ==> b[i] < b[j]
    requires forall x :: x in a <==> x in b
    ensures a[|a| - 1] == b[|b| - 1]
  {
    assert a[|a| - 1] in b && b[|b| - 1] in a;
  }

  lemma FrontHas(a: seq<nat>, x: nat)
    requires a != [] && forall i, j :: 0 <= i < j < |a| ==> a[i] < a[j]
    ensures x in a[..|a| - 1] <==> x in a && x != a[|a| - 1]
  {
  }

  /** So the positions determine the answer. */
  lemma ExactlyUnique<T>(s: seq<T>, a: seq<T>, b: seq<T>, keep: nat -> bool)
    requires Exactly(s, a, keep) && Exactly(s, b, keep)
    ensures a == b
  {
    var p: seq<nat> :| PicksAll(s, a, p, keep);
    var q: seq<nat> :| PicksAll(s, b, q, keep);
    forall x ensures x in p <==> x in q {
    }
    AscendingUnique(p, q);
  }

  lemma ExactlyEmpty<T>(keep: nat -> bool)
    ensures Exactly<T>([], [], keep)
  {
    assert PicksAll<T>([], [], [], keep);
  }

  /** One more element at the end. */
  lemma ExactlySnoc<T>(s: seq<T>, out: seq<T>, e: T, keep: nat -> bool)
    requires Exactly(s, out, keep)
    ensures Exactly(s + [e], out + if keep(|s|) then [e] else [], keep)
  {
    var at: seq<nat> :| PicksAll(s, out, at, keep);
    if keep(|s|) {
      var more := at + [|s|];
      PicksMore(s, out, at, e);
      forall x: nat ensures x in more <==> x < |s + [e]| && keep(x) {
        assert x in more <==> x in at || x == |s|;
      }
      assert PicksAll(s + [e], out + [e], more, keep);
    } else {
      assert out + [] == out;
      assert PicksAll(s + [e], out, at, keep);
    }
  }

  lemma PicksMore<T>(s: seq<T>, out: seq<T>, at: seq<nat>, e: T)
    requires Picks(s, out, at)
    ensures Picks(s + [e], out + [e], at + [|s|])
  {
  }

  /** The same positions, told in other words. */
  lemma ExactlySame<T>(s: seq<T>, out: seq<T>, keep: nat -> bool, same: nat -> bool)
    requires Exactly(s, out, keep) && forall x: nat :: x < |s| ==> (keep(x) <==> same(x))
    ensures Exactly(s, out, same)
  {
    var at: seq<nat> :| PicksAll(s, out, at, keep);
    assert PicksAll(s, out, at, same);
  }

  /** The rest of a list, told by positions in the whole. */
  lemma ExactlyRest<T>(s: seq<T>, from: nat, out: seq<T>, keep: nat -> bool, whole: nat -> bool)
    requires from <= |s| && Exactly(s[from..], out, keep)
    requires forall x: nat :: x < |s| ==> (whole(x) <==> x >= from && keep(x - from))
    ensures Exactly(s, out, whole)
  {
    var at: seq<nat> :| PicksAll(s[from..], out, at, keep);
    var moved := Moved(at, from);
    forall x: nat ensures x in moved <==> x < |s| && whole(x) {
      MovedHas(at, from, x);
    }
    assert PicksAll(s, out, moved, whole);
  }

  function Moved(at: seq<nat>, n: nat): (moved: seq<nat>)
    ensures |moved| == |at| && forall i :: 0 <= i < |at| ==> moved[i] == at[i] + n
  {
    seq(|at|, i requires 0 <= i < |at| => at[i] + n)
  }

  /** One more element in front. */
  lemma ExactlyCons<T>(e: T, rest: seq<T>, out: seq<T>, keep: nat -> bool, whole: nat -> bool)
    requires Exactly(rest, out, keep) && forall x: nat :: x < |rest| ==> (whole(x + 1) <==> keep(x))
    ensures Exactly([e] + rest, (if whole(0) then [e] else []) + out, whole)
  {
    var at: seq<nat> :| PicksAll(rest, out, at, keep);
    var moved := Moved(at, 1);
    forall x: nat ensures x in moved <==> 0 < x < |[e] + rest| && whole(x) {
      MovedHas(at, 1, x);
      if x > 0 {
        assert whole((x - 1) as nat + 1) <==> whole(x);
      }
    }
    PicksMoved(e, rest, out, at);
    if whole(0) {
      InFront(0, moved);
      assert PicksAll([e] + rest, [e] + out, [0] + moved, whole);
    } else {
      assert [] + out == out;
      assert PicksAll([e] + rest, out, moved, whole);
    }
  }

  lemma PicksMoved<T>(e: T, rest: seq<T>, out: seq<T>, at: seq<nat>)
    requires Picks(rest, out, at)
    ensures Picks([e] + rest, out, Moved(at, 1)) && Picks([e] + rest, [e] + out, [0] + Moved(at, 1))
  {
  }

  lemma InFront(y: nat, at: seq<nat>)
    ensures forall x :: x in [y] + at <==> x == y || x in at
  {
  }

  lemma MovedHas(at: seq<nat>, n: nat, x: nat)
    ensures x in Moved(at, n) <==> x >= n && (x - n) as nat in at
  {
    if x >= n {
      var y: nat := x - n;
      if y in at {
        var i :| 0 <= i < |at| && at[i] == y;
        assert Moved(at, n)[i] == x;
      }
    }
  }

  function SetOf(at: seq<nat>): (r: set<nat>)
    ensures forall x :: x in r <==> x in at
  {
    set x | x in at
  }

  lemma {:induction false} Count(at: seq<nat>)
    requires forall i, j :: 0 <= i < j < |at| ==> at[i] < at[j]
    ensures |SetOf(at)| == |at|
  {
    if at == [] {
      assert SetOf(at) == {};
    } else {
      var front, last := at[..|at| - 1], at[|at| - 1];
      Count(front);
      forall x ensures x in at <==> x in front || x == last {
        FrontHas(at, x);
      }
      FrontHas(at, last);
      assert SetOf(at) == SetOf(front) + {last};
    }
  }

  /** As many elements as there are positions. */
  lemma ExactlyCount<T>(s: seq<T>, out: seq<T>, keep: nat -> bool)
    requires Exactly(s, out, keep)
    ensures |out| == |set x: nat | x < |s| && keep(x)|
  {
    var at: seq<nat> :| PicksAll(s, out, at, keep);
    Count(at);
    assert (set x: nat | x < |s| && keep(x)) == SetOf(at);
  }
}
