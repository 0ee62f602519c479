/** Unsigned 64-bit words with the wrap-around of Go's uint64, and finite sets of them. */
module Words {
  import opened Extremes

  const TWO64: nat := 0x1_0000_0000_0000_0000

  type u64 = x: int | 0 <= x < 0x1_0000_0000_0000_0000

  /** Unsigned 64-bit addition: wraps around. */
  function Add64(a: u64, b: u64): u64 {
    if a + b < TWO64 then a + b else a + b - TWO64
  }

  /** Unsigned 64-bit subtraction: wraps around below zero. */
  function Sub64(a: u64, b: u64): u64 {
    if a >= b then a - b else a - b + TWO64
  }

  ghost predicate Ascending(q: seq<u64>) {
    forall i, j :: 0 <= i < j < |q| ==> q[i] < q[j]
  }

  function ToSet(q: seq<u64>): set<u64> {
    set e | e in q
  }

  function First(s: set<u64>): (f: u64)
    requires s != {}
    ensures f in s && forall e :: e in s ==> f <= e
  {
    var n: set<nat> := set e | e in s :: e;
    assert forall e :: e in s ==> e in n;
    var x :| x in s;
    assert x in n;
    MinOf(n)
  }

  function Last(s: set<u64>): (l: u64)
    requires s != {}
    ensures l in s && forall e :: e in s ==> e <= l
  {
    var n: set<nat> := set e | e in s :: e;
    assert forall e :: e in s ==> e in n;
    var x :| x in s;
    assert x in n;
    MaxOf(n)
  }

  /** sort.Slice over a list of distinct numbers. */
  method SortAscending(s: set<u64>) returns (keys: seq<u64>)
    ensures Ascending(keys) && forall e :: e in keys <==> e in s
  {
    keys := [];
    var todo := s;
    while todo != {}
      invariant Ascending(keys) && todo <= s
      invariant forall e :: e in s <==> e in keys || e in todo
      invariant forall i, e :: 0 <= i < |keys| && e in todo ==> keys[i] < e
      decreases |todo|
    {
      var f := First(todo);
      keys, todo := keys + [f], todo - {f};
    }
  }
}
