/** Reward intervals of a node: which of them its claim bitmaps mark as claimed. */
module ClaimStatus {
  function Pow2(j: nat): (p: nat)
    ensures p > 0
  {
    if j == 0 then 1 else 2 * Pow2(j - 1)
  }

  /** Bit j of a stored word. */
  predicate Bit(word: nat, j: nat) {
    (word / Pow2(j)) % 2 == 1
  }

  /** And with a one-bit mask. */
  function AndMask(word: nat, j: nat): nat {
    if Bit(word, j) then Pow2(j) else 0
  }

  predicate IsClaimed(buckets: nat -> nat, i: nat) {
    Bit(buckets(i / 256), i % 256)
  }

  /** The intervals below n with a given status, in order. */
  function Listed(buckets: nat -> nat, n: nat, claimed: bool): seq<nat> {
    if n == 0 then []
    else Listed(buckets, n - 1, claimed) + (if IsClaimed(buckets, n - 1) == claimed then [n - 1] else [])
  }

  ghost predicate Ascending(q: seq<nat>) {
    forall i, j :: 0 <= i < j < |q| ==> q[i] < q[j]
  }

  lemma {:induction false} ListedSpec(buckets: nat -> nat, n: nat, claimed: bool)
    ensures forall i: nat :: i in Listed(buckets, n, claimed) <==> i < n && IsClaimed(buckets, i) == claimed
    ensures Ascending(Listed(buckets, n, claimed))
  {
    if n > 0 {
      ListedSpec(buckets, n - 1, claimed);
      var front := Listed(buckets, n - 1, claimed);
      AscendingAppend(front, n - 1);
    }
  }

  lemma AscendingAppend(q: seq<nat>, x: nat)
    requires Ascending(q) && forall y :: y in q ==> y < x
    ensures Ascending(q + [x])
  {
    assert forall i :: 0 <= i < |q| ==> q[i] in q;
  }

  lemma {:induction false} ListedCount(buckets: nat -> nat, n: nat)
    ensures |Listed(buckets, n, true)| + |Listed(buckets, n, false)| == n
  {
    if n > 0 { ListedCount(buckets, n - 1); }
  }

  /** The two lists partition the intervals so far. */
  lemma Partition(buckets: nat -> nat, n: nat)
    ensures |Listed(buckets, n, true)| + |Listed(buckets, n, false)| == n
    ensures forall i: nat :: i < n <==> i in Listed(buckets, n, true) || i in Listed(buckets, n, false)
    ensures forall i: nat :: !(i in Listed(buckets, n, true) && i in Listed(buckets, n, false))
  {
    ListedSpec(buckets, n, true);
    ListedSpec(buckets, n, false);
    ListedCount(buckets, n);
  }

  lemma BucketOf(b: nat, j: nat)
    requires j < 256
    ensures (b * 256 + j) / 256 == b && (b * 256 + j) % 256 == j
  {}

  /** Both lists are filled up to some interval. */
  ghost predicate FilledTo(buckets: nat -> nat, n: nat, claimed: seq<nat>, unclaimed: seq<nat>) {
    claimed == Listed(buckets, n, true) && unclaimed == Listed(buckets, n, false)
  }

  lemma OneMore(buckets: nat -> nat, b: nat, j: nat, i: nat, claimed: seq<nat>, unclaimed: seq<nat>)
    requires j < 256 && i == b * 256 + j && FilledTo(buckets, i, claimed, unclaimed)
    ensures if AndMask(buckets(b), j) == Pow2(j) then FilledTo(buckets, i + 1, claimed + [i], unclaimed)
            else FilledTo(buckets, i + 1, claimed, unclaimed + [i])
  {
    BucketOf(b, j);
    assert AndMask(buckets(b), j) == Pow2(j) <==> IsClaimed(buckets, i);
  }

  /** The loop over one bucket; it ends early at the current interval. */
  method ReadBucket(currentIndex: nat, buckets: nat -> nat, i: nat, claimed: seq<nat>, unclaimed: seq<nat>)
    returns (claimed': seq<nat>, unclaimed': seq<nat>)
    requires i * 256 <= currentIndex && FilledTo(buckets, i * 256, claimed, unclaimed)
    ensures FilledTo(buckets, if currentIndex < i * 256 + 256 then currentIndex else i * 256 + 256, claimed', unclaimed')
  {
    claimed', unclaimed' := claimed, unclaimed;
    var bitmap := buckets(i);
    var targetIndex := i * 256;
    for j := 0 to 256
      invariant targetIndex == i * 256 + j && targetIndex <= currentIndex
      invariant FilledTo(buckets, targetIndex, claimed', unclaimed')
    {
      if targetIndex >= currentIndex {
        break;
      }
      OneMore(buckets, i, j, targetIndex, claimed', unclaimed');
      if AndMask(bitmap, j) == Pow2(j) {
        claimed' := claimed' + [targetIndex];
      } else {
        unclaimed' := unclaimed' + [targetIndex];
      }
      targetIndex := targetIndex + 1;
    }
  }

  // ----------------------------------------------------- what the bitmaps stand for

  /** The word in which the contract keeps n flags: the sum of their places. */
  ghost function WordOf(flags: nat -> bool, n: nat): nat {
    if n == 0 then 0 else WordOf(flags, n - 1) + (if flags(n - 1) then Pow2(n - 1) else 0)
  }

  /** The buckets hold the claims of all intervals, 256 to a word. */
  ghost predicate Holds(buckets: nat -> nat, claims: nat -> bool) {
    forall b: nat :: buckets(b) == WordOf((j: nat) => claims(256 * b + j), 256)
  }

  lemma {:induction false} WordBound(flags: nat -> bool, n: nat)
    ensures WordOf(flags, n) < Pow2(n)
  {
    if n > 0 { WordBound(flags, n - 1); }
  }

  lemma {:induction false} Pow2Split(a: nat, b: nat)
    ensures Pow2(a + b) == Pow2(a) * Pow2(b)
  {
    if a > 0 {
      Pow2Split(a - 1, b);
      Doubled(Pow2(a - 1), Pow2(b));
    }
  }

  lemma Doubled(p: nat, q: nat)
    ensures 2 * (p * q) == (2 * p) * q
  {}

  lemma DivPlus(w: nat, p: nat, m: nat)
    requires p > 0
    ensures (w + p * m) / p == w / p + m
  {
    var q, r := w / p, w % p;
    assert w + p * m == p * (q + m) + r;
    DivUnique(w + p * m, p, q + m, r);
  }

  lemma DivUnique(n: nat, p: nat, q: nat, r: nat)
    requires p > 0 && n == p * q + r && r < p
    ensures n / p == q
  {
    var d := n / p;
    assert n == p * d + n % p;
    if d > q { Apart(p, q, d); }
    if d < q { Apart(p, d, q); }
  }

  lemma {:induction false} Apart(p: nat, a: nat, b: nat)
    requires a < b
    ensures p * b >= p * a + p
    decreases b
  {
    assert p * b == p * (b - 1) + p;
    if a < b - 1 { Apart(p, a, b - 1); }
  }

  lemma AboveBit(w: nat, q: nat, hi: nat)
    requires q > 0
    ensures ((w + q * (2 * hi)) / q) % 2 == (w / q) % 2
  {
    DivPlus(w, q, 2 * hi);
    EvenMore(w / q, hi);
  }

  /** Places above a bit do not disturb it. */
  lemma HigherPlace(w: nat, j: nat, n: nat)
    requires j < n
    ensures Bit(w + Pow2(n), j) == Bit(w, j)
  {
    var hi := Pow2(n - j - 1);
    Pow2Split(j, n - j);
    assert Pow2(n - j) == 2 * hi;
    AboveBit(w, Pow2(j), hi);
  }

  lemma EvenMore(x: nat, y: nat)
    ensures (x + 2 * y) % 2 == x % 2
  {}

  lemma {:induction false} WordBits(flags: nat -> bool, n: nat, j: nat)
    requires j < n
    ensures Bit(WordOf(flags, n), j) == flags(j)
  {
    var w, p := WordOf(flags, n - 1), Pow2(n - 1);
    if j < n - 1 {
      WordBits(flags, n - 1, j);
      HigherPlace(w, j, n - 1);
    } else {
      WordBound(flags, n - 1);
      DivUnique(w, p, 0, w);
      DivPlus(w, p, 1);
    }
  }

  lemma ClaimedMeans(buckets: nat -> nat, claims: nat -> bool, i: nat)
    requires Holds(buckets, claims)
    ensures IsClaimed(buckets, i) == claims(i)
  {
    var b := i / 256;
    WordBits((j: nat) => claims(256 * b + j), 256, i % 256);
    assert 256 * b + i % 256 == i;
  }

  /** Both lists are ascending; one holds the claimed intervals so far, the other the rest. */
  ghost predicate TellsClaims(claims: nat -> bool, currentIndex: nat, claimed: seq<nat>, unclaimed: seq<nat>) {
    Ascending(claimed) && Ascending(unclaimed) &&
    forall i: nat :: (i in claimed <==> i < currentIndex && claims(i)) && (i in unclaimed <==> i < currentIndex && !claims(i))
  }

  lemma ListsTell(buckets: nat -> nat, claims: nat -> bool, n: nat)
    requires Holds(buckets, claims)
    ensures TellsClaims(claims, n, Listed(buckets, n, true), Listed(buckets, n, false))
  {
    ListedSpec(buckets, n, true);
    ListedSpec(buckets, n, false);
    forall i: nat ensures IsClaimed(buckets, i) == claims(i) { ClaimedMeans(buckets, claims, i); }
  }

  /** GetClaimStatus: the buckets up to the current one; at a multiple of 256 the last one
      lists nothing. */
  method GetClaimStatus(currentIndex: nat, buckets: nat -> nat) returns (unclaimed: seq<nat>, claimed: seq<nat>)
    ensures FilledTo(buckets, currentIndex, claimed, unclaimed)
    ensures forall claims: nat -> bool :: Holds(buckets, claims) ==> TellsClaims(claims, currentIndex, claimed, unclaimed)
  {
    forall claims: nat -> bool | Holds(buckets, claims)
      ensures TellsClaims(claims, currentIndex, Listed(buckets, currentIndex, true), Listed(buckets, currentIndex, false))
    {
      ListsTell(buckets, claims, currentIndex);
    }
    claimed, unclaimed := [], [];
    if currentIndex == 0 {
      return;
    }
    var bucket := currentIndex / 256;
    for i := 0 to bucket + 1
      invariant FilledTo(buckets, if currentIndex < i * 256 then currentIndex else i * 256, claimed, unclaimed)
    {
      claimed, unclaimed := ReadBucket(currentIndex, buckets, i, claimed, unclaimed);
    }
  }
}
