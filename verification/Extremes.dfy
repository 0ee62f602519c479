/** Largest and smallest element of a finite set of numbers. */
module Extremes {
  predicate IsMax(t: nat, s: set<nat>) {
    t in s && forall u :: u in s ==> u <= t
  }

  predicate IsMin(t: nat, s: set<nat>) {
    t in s && forall u :: u in s ==> t <= u
  }

  lemma {:induction false} ExtremesExist(s: set<nat>)
    requires s != {}
    ensures (exists t :: IsMax(t, s)) && (exists t :: IsMin(t, s))
    decreases |s|
  {
    var x :| x in s;
    if s == {x} {
      assert IsMax(x, s) && IsMin(x, s);
    } else {
      ExtremesExist(s - {x});
      var a :| IsMax(a, s - {x});
      var b :| IsMin(b, s - {x});
      assert forall u :: u in s <==> u == x || u in s - {x};
      assert IsMax(if x > a then x else a, s);
      assert IsMin(if x < b then x else b, s);
    }
  }

  function MaxOf(s: set<nat>): (t: nat)
    requires s != {}
    ensures IsMax(t, s)
  {
    ExtremesExist(s);
    var t :| t in s && IsMax(t, s);
    t
  }

  function MinOf(s: set<nat>): (t: nat)
    requires s != {}
    ensures IsMin(t, s)
  {
    ExtremesExist(s);
    var t :| t in s && IsMin(t, s);
    t
  }
}
