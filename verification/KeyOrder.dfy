/** Finite sets of row keys listed in table order. */
module KeyOrder {
  import opened Bytes

  ghost predicate StrictlySorted(q: seq<Key>) {
    forall i, j :: 0 <= i < j < |q| ==> Less(q[i], q[j])
  }

  predicate IsLeast(k: Key, s: set<Key>) {
    k in s && forall j :: j in s ==> !Less(j, k)
  }

  lemma {:induction false} LeastExists(s: set<Key>)
    requires s != {}
    ensures exists k :: IsLeast(k, s)
    decreases |s|
  {
    var x :| x in s;
    if s == {x} {
      LessIrreflexive(x);
      assert IsLeast(x, s);
    } else {
      var rest := s - {x};
      LeastExists(rest);
      var m :| IsLeast(m, rest);
      LessIrreflexive(x);
      if Less(x, m) {
        forall j | j in s ensures !Less(j, x) {
          if j != x && Less(j, x) { LessTransitive(j, x, m); }
        }
        assert IsLeast(x, s);
      } else {
        assert IsLeast(m, s);
      }
    }
  }

  lemma LeastUnique(a: Key, b: Key, s: set<Key>)
    requires IsLeast(a, s) && IsLeast(b, s)
    ensures a == b
  {
    LessTotal(a, b);
  }

  function Least(s: set<Key>): (k: Key)
    requires s != {}
    ensures IsLeast(k, s)
  {
    LeastExists(s);
    assert forall a, b :: IsLeast(a, s) && IsLeast(b, s) ==> a == b by {
      forall a, b | IsLeast(a, s) && IsLeast(b, s) ensures a == b { LeastUnique(a, b, s); }
    }
    var k :| k in s && IsLeast(k, s);
    k
  }

  /** The order in which a table scan meets the keys of a set. */
  function SortedKeys(s: set<Key>): seq<Key>
    decreases |s|
  {
    if s == {} then []
    else
      var k := Least(s);
      [k] + SortedKeys(s - {k})
  }

  lemma {:induction false} SortedKeysSpec(s: set<Key>)
    ensures StrictlySorted(SortedKeys(s))
    ensures forall k :: k in SortedKeys(s) <==> k in s
    decreases |s|
  {
    if s != {} {
      var k := Least(s);
      var rest := SortedKeys(s - {k});
      SortedKeysSpec(s - {k});
      forall j | 0 <= j < |rest| ensures Less(k, rest[j]) {
        assert rest[j] in s - {k};
        LessTotal(k, rest[j]);
      }
    }
  }

  /** A strictly sorted list is determined by the set of its elements. */
  lemma {:induction false} SortedUnique(a: seq<Key>, b: seq<Key>)
    requires StrictlySorted(a) && StrictlySorted(b)
    requires forall k :: k in a <==> k in b
    ensures a == b
    decreases |a|
  {
    assert b != [] ==> b[0] in b;
    if a != [] {
      assert a[0] in a && a[0] in b;
      assert b[0] in b && b[0] in a;
      SameHead(a, b);
      forall k ensures k in a[1..] <==> k in b[1..] {
        TailMembers(a, k);
        TailMembers(b, k);
      }
      SortedUnique(a[1..], b[1..]);
      assert a == [a[0]] + a[1..] && b == [b[0]] + b[1..];
    }
  }

  lemma SameHead(a: seq<Key>, b: seq<Key>)
    requires a != [] && b != [] && StrictlySorted(a) && StrictlySorted(b)
    requires a[0] in b && b[0] in a
    ensures a[0] == b[0]
  {
    var i :| 0 <= i < |b| && b[i] == a[0];
    var j :| 0 <= j < |a| && a[j] == b[0];
    LessAsymmetric(a[0], b[0]);
  }

  lemma TailMembers(a: seq<Key>, k: Key)
    requires a != [] && StrictlySorted(a)
    ensures k in a[1..] <==> k in a && k != a[0]
  {
    LessIrreflexive(a[0]);
    if k in a && k != a[0] {
      var i :| 0 <= i < |a| && a[i] == k;
      assert a[1..][i - 1] == k;
    }
    if k in a[1..] {
      var i :| 0 <= i < |a[1..]| && a[1..][i] == k;
      assert a[i + 1] == k;
    }
  }

  lemma SortedIs(s: set<Key>, q: seq<Key>)
    requires StrictlySorted(q)
    requires forall k :: k in q <==> k in s
    ensures SortedKeys(s) == q
  {
    SortedKeysSpec(s);
    SortedUnique(SortedKeys(s), q);
  }

  /** Restarting a scan right after its j-th key continues with key j+1. */
  lemma ResumeAfter(q: seq<Key>, j: nat, k: Key)
    requires StrictlySorted(q) && 0 < j <= |q| && k in q
    ensures k in q[j..] <==> Less(q[j - 1], k)
  {
    var i :| 0 <= i < |q| && q[i] == k;
    if i >= j {
      assert q[j..][i - j] == k;
    } else {
      LessIrreflexive(k);
      LessAsymmetric(q[j - 1], k);
      forall m | 0 <= m < |q[j..]| ensures q[j..][m] != k {
        assert Less(q[i], q[j + m]);
      }
    }
  }
}
