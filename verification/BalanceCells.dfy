/** Validator balances: one row per epoch, sixteen bytes per validator, written in batches
    whose boundaries must not matter. */
module BalanceCells {
  import opened Bytes
  import opened Words
  import opened Decimal
  import opened KeyCodec
  import opened Bigtable

  const TAG_EPOCH: Key := [101]
  const TAG_B: Key := [98]
  const BALANCES: Key := [118, 98]

  datatype Balance = Balance(balance: u64, effective: u64)
  datatype Validator = Validator(index: u64, balance: Balance)

  /** Which balance was saved last for an epoch and a validator. */
  datatype At = At(epoch: u64, validator: u64)
  type Ledger = map<At, Balance>

  function BalanceKey(chain: Key, epoch: u64): Key {
    Sep(chain, Sep(TAG_EPOCH, Sep(TAG_B, ReversedPadded(epoch))))
  }

  function BalanceColumn(v: u64): Column {
    Column(BALANCES, Dec(v))
  }

  // ------------------------------------------------------------------ the encoding

  /** n little-endian bytes. */
  function LittleEndian(x: nat, n: nat): (b: Key)
    ensures |b| == n
  {
    if n == 0 then [] else [x % 256] + LittleEndian(x / 256, n - 1)
  }

  function FromLittleEndian(b: Key): nat {
    if b == [] then 0 else b[0] + 256 * FromLittleEndian(b[1..])
  }

  function Pow256(n: nat): nat {
    if n == 0 then 1 else 256 * Pow256(n - 1)
  }

  lemma {:induction false} LittleEndianRoundTrip(x: nat, n: nat)
    requires x < Pow256(n)
    ensures FromLittleEndian(LittleEndian(x, n)) == x
  {
    if n > 0 {
      LittleEndianRoundTrip(x / 256, n - 1);
      assert LittleEndian(x, n)[1..] == LittleEndian(x / 256, n - 1);
    }
  }

  lemma {:induction false} FromLittleEndianBound(b: Key)
    ensures FromLittleEndian(b) < Pow256(|b|)
    decreases |b|
  {
    if b != [] { FromLittleEndianBound(b[1..]); }
  }

  lemma Pow256Of8()
    ensures Pow256(8) == TWO64
  {
    assert Pow256(4) == 0x1_0000_0000;
    assert Pow256(6) == 0x1_0000_0000_0000;
  }

  function Encode(b: Balance): Key {
    LittleEndian(b.balance, 8) + LittleEndian(b.effective, 8)
  }

  function Word(b: Key): u64
    requires |b| == 8
  {
    FromLittleEndianBound(b);
    Pow256Of8();
    FromLittleEndian(b)
  }

  /** A value shorter than sixteen bytes would end the reader with a slice error. */
  function Decode(b: Key): Option<Balance> {
    if |b| < 16 then None else Some(Balance(Word(b[0..8]), Word(b[8..16])))
  }

  lemma DecodeEncode(b: Balance)
    ensures Decode(Encode(b)) == Some(b)
  {
    Pow256Of8();
    LittleEndianRoundTrip(b.balance, 8);
    LittleEndianRoundTrip(b.effective, 8);
    var e := Encode(b);
    assert e[0..8] == LittleEndian(b.balance, 8);
    assert e[8..16] == LittleEndian(b.effective, 8);
  }

  /** Eight bytes of a number, the lowest first. */
  ghost predicate IsWord(bytes: Key, at: nat, x: u64)
    requires at + 8 <= |bytes|
  {
    x == bytes[at] as int + 0x100 * bytes[at + 1] as int + 0x1_0000 * bytes[at + 2] as int +
         0x100_0000 * bytes[at + 3] as int + 0x1_0000_0000 * bytes[at + 4] as int +
         0x100_0000_0000 * bytes[at + 5] as int + 0x1_0000_0000_0000 * bytes[at + 6] as int +
         0x100_0000_0000_0000 * bytes[at + 7] as int
  }

  /** The value of a cell: the balance and then the effective balance. */
  ghost predicate SaysBalance(value: Key, b: Balance) {
    |value| == 16 && IsWord(value, 0, b.balance) && IsWord(value, 8, b.effective)
  }

  lemma WordBytes(b: Key, at: nat, x: u64)
    requires at + 8 <= |b| && FromLittleEndian(b[at..at + 8]) == x
    ensures IsWord(b, at, x)
  {
    var w := b[at..at + 8];
    Byte(w, 0); Byte(w, 1); Byte(w, 2); Byte(w, 3); Byte(w, 4); Byte(w, 5); Byte(w, 6); Byte(w, 7);
    assert w[0..] == w && w[8..] == [];
  }

  lemma Byte(w: Key, i: nat)
    requires i < |w|
    ensures FromLittleEndian(w[i..]) == w[i] as int + 256 * FromLittleEndian(w[i + 1..])
  {
    assert w[i..][1..] == w[i + 1..];
  }

  lemma EncodeSays(b: Balance)
    ensures SaysBalance(Encode(b), b)
  {
    var e := Encode(b);
    Pow256Of8();
    LittleEndianRoundTrip(b.balance, 8);
    LittleEndianRoundTrip(b.effective, 8);
    assert e[0..8] == LittleEndian(b.balance, 8) && e[8..16] == LittleEndian(b.effective, 8);
    WordBytes(e, 0, b.balance);
    WordBytes(e, 8, b.effective);
  }

  // ------------------------------------------------------------------- the writer

  function BalanceOp(v: Validator): Op<Key> {
    SetCell(BalanceColumn(v.index), 0, Encode(v.balance))
  }

  function BalanceOps(vs: seq<Validator>): Mutation<Key> {
    seq(|vs|, i requires 0 <= i < |vs| => BalanceOp(vs[i]))
  }

  lemma {:induction false} ApplyOpsConcat(row: Row<Key>, a: Mutation<Key>, b: Mutation<Key>)
    ensures ApplyOps(row, a + b) == ApplyOps(ApplyOps(row, a), b)
    decreases |a|
  {
    if a == [] {
      assert a + b == b;
    } else {
      assert (a + b)[1..] == a[1..] + b;
      ApplyOpsConcat(ApplyOp(row, a[0]), a[1..], b);
    }
  }

  /** Two mutations of a row, one after the other, are one. */
  lemma FlushAnywhere(rows: Rows<Key>, k: Key, a: Mutation<Key>, b: Mutation<Key>)
    requires NoEmptyRows(rows)
    ensures ApplyWrite(ApplyWrite(rows, Write(k, a)), Write(k, b)) == ApplyWrite(rows, Write(k, a + b))
  {
    ApplyOpsConcat(RowAt(rows, k), a, b);
    assert RowAt(ApplyWrite(rows, Write(k, a)), k) == ApplyOps(RowAt(rows, k), a);
  }

  lemma NothingToFlush(rows: Rows<Key>, k: Key)
    requires NoEmptyRows(rows)
    ensures ApplyWrite(rows, Write(k, [])) == rows
  {}

  /** What a table holds after the first n of the given balances were saved. */
  ghost predicate SavedFirst(before: Rows<Key>, after: Rows<Key>, k: Key, vs: seq<Validator>, n: nat)
    requires n <= |vs|
  {
    after == ApplyWrite(before, Write(k, BalanceOps(vs[..n])))
  }

  lemma Flushed(before: Rows<Key>, now: Rows<Key>, k: Key, vs: seq<Validator>, f: nat, n: nat)
    requires NoEmptyRows(before) && f <= n <= |vs| && SavedFirst(before, now, k, vs, f)
    ensures SavedFirst(before, ApplyWrite(now, Write(k, BalanceOps(vs[f..n]))), k, vs, n)
  {
    FlushAnywhere(before, k, BalanceOps(vs[..f]), BalanceOps(vs[f..n]));
    assert BalanceOps(vs[..f]) + BalanceOps(vs[f..n]) == BalanceOps(vs[..n]);
  }

  /** The first entries are in the table, the next ones wait in the mutation. */
  ghost predicate Pending(before: Rows<Key>, now: Rows<Key>, k: Key, vs: seq<Validator>, saved: nat, i: nat, mut: Mutation<Key>) {
    NoEmptyRows(before) && saved <= i <= |vs| && mut == BalanceOps(vs[saved..i]) && SavedFirst(before, now, k, vs, saved)
  }

  lemma OneMorePending(before: Rows<Key>, now: Rows<Key>, k: Key, vs: seq<Validator>, saved: nat, i: nat, mut: Mutation<Key>)
    requires Pending(before, now, k, vs, saved, i, mut) && i < |vs|
    ensures Pending(before, now, k, vs, saved, i + 1, mut + [BalanceOp(vs[i])])
  {}

  lemma PendingFlushed(before: Rows<Key>, now: Rows<Key>, k: Key, vs: seq<Validator>, saved: nat, i: nat, mut: Mutation<Key>)
    requires Pending(before, now, k, vs, saved, i, mut)
    ensures Pending(before, ApplyWrite(now, Write(k, mut)), k, vs, i, i, [])
  {
    Flushed(before, now, k, vs, saved, i);
  }

  /** The flushes after the entries 0, 100000, 200000, ... below n succeed. */
  predicate FlushesWork(applyFails: nat -> bool, n: nat) {
    forall i :: 0 <= i < n && i % 100_000 == 0 ==> !applyFails(i)
  }

  lemma FlushStep(applyFails: nat -> bool, n: nat)
    requires FlushesWork(applyFails, n)
    ensures FlushesWork(applyFails, n + 1) <==> (n % 100_000 == 0 ==> !applyFails(n))
  {}

  /** Once a flush has failed, not all of them work. */
  lemma FlushFailed(applyFails: nat -> bool, i: nat, n: nat)
    requires i < n && i % 100_000 == 0 && applyFails(i)
    ensures !FlushesWork(applyFails, n)
  {}

  /** The entries up to the last flush that works are in the table: f of the first n. */
  ghost predicate LastFlush(applyFails: nat -> bool, n: nat, f: nat) {
    f <= n && (f == 0 || ((f - 1) % 100_000 == 0 && FlushesWork(applyFails, f))) &&
    forall b: nat :: b < n && b % 100_000 == 0 && FlushesWork(applyFails, b + 1) ==> b < f
  }

  lemma LastFlushStep(applyFails: nat -> bool, n: nat, f: nat)
    requires LastFlush(applyFails, n, f) && FlushesWork(applyFails, n)
    ensures n % 100_000 != 0 ==> LastFlush(applyFails, n + 1, f)
    ensures n % 100_000 == 0 && !applyFails(n) ==> LastFlush(applyFails, n + 1, n + 1)
  {}

  lemma LastFlushFailed(applyFails: nat -> bool, i: nat, n: nat, f: nat)
    requires LastFlush(applyFails, i, f) && i < n && i % 100_000 == 0 && applyFails(i)
    ensures LastFlush(applyFails, n, f)
  {
    forall b: nat | b < n && b % 100_000 == 0 && FlushesWork(applyFails, b + 1) ensures b < f {
      assert b >= i ==> !applyFails(i);
    }
  }

  /** "<chain>:e:b:<epoch>" */
  ghost function BalanceRowText(chain: Key, epoch: u64): Key {
    Join([chain, Text("e"), Text("b"), ReversedPadded(epoch)], COLON)
  }

  lemma BalanceKeyIsText(chain: Key, epoch: u64)
    ensures BalanceKey(chain, epoch) == BalanceRowText(chain, epoch)
    ensures BALANCES == Text("vb")
  {
    var n := ReversedPadded(epoch);
    assert TAG_EPOCH == Text("e") && TAG_B == Text("b") && BALANCES == Text("vb");
    JoinCons(TAG_B, [n]);
    JoinCons(TAG_EPOCH, [TAG_B, n]);
    JoinCons(chain, [TAG_EPOCH, TAG_B, n]);
    assert [TAG_B] + [n] == [TAG_B, n] && [TAG_EPOCH] + [TAG_B, n] == [TAG_EPOCH, TAG_B, n];
    assert [chain] + [TAG_EPOCH, TAG_B, n] == [chain, TAG_EPOCH, TAG_B, n];
  }

  /** The last entry of a validator. */
  ghost predicate LastNamed(vs: seq<Validator>, i: nat) {
    i < |vs| && forall j :: i < j < |vs| ==> vs[j].index != vs[i].index
  }

  ghost predicate SameCell(before: Row<Key>, after: Row<Key>, c: Column) {
    (c in before <==> c in after) && (c in before ==> before[c] == after[c])
  }

  /** One cell now says the balance, in its version 0; other versions are as they were. */
  ghost predicate CellSays(before: Row<Key>, after: Row<Key>, c: Column, b: Balance) {
    c in after && 0 in after[c] && SaysBalance(after[c][0], b) &&
    forall ts: nat :: ts != 0 ==>
      (ts in after[c] <==> c in before && ts in before[c]) && (ts in after[c] ==> after[c][ts] == before[c][ts])
  }

  /** Column vb:<index> says what the last entry of each validator does ... */
  ghost predicate NamedSay(before: Row<Key>, after: Row<Key>, vs: seq<Validator>) {
    forall i: nat :: LastNamed(vs, i) ==> CellSays(before, after, Column(Text("vb"), Dec(vs[i].index)), vs[i].balance)
  }

  ghost predicate Unnamed(vs: seq<Validator>, c: Column) {
    forall i :: 0 <= i < |vs| ==> c != Column(Text("vb"), Dec(vs[i].index))
  }

  /** ... and all other columns are as they were. */
  ghost predicate OthersSame(before: Row<Key>, after: Row<Key>, vs: seq<Validator>) {
    forall c: Column :: Unnamed(vs, c) ==> SameCell(before, after, c)
  }

  ghost predicate RowSays(before: Row<Key>, after: Row<Key>, vs: seq<Validator>) {
    NamedSay(before, after, vs) && OthersSame(before, after, vs)
  }

  lemma {:induction false} OpsSay(row: Row<Key>, vs: seq<Validator>)
    ensures RowSays(row, ApplyOps(row, BalanceOps(vs)), vs)
    decreases |vs|
  {
    if vs == [] {
      NothingSaid(row);
    } else {
      var front, last := vs[..|vs| - 1], vs[|vs| - 1];
      OpsSay(row, front);
      assert front + [last] == vs;
      OneOpMore(row, front, last);
      OneMoreSays(row, ApplyOps(row, BalanceOps(front)), ApplyOps(row, BalanceOps(vs)), front, last);
    }
  }

  lemma NothingSaid(row: Row<Key>)
    ensures RowSays(row, ApplyOps(row, BalanceOps([])), [])
  {}

  ghost predicate OnlyCell(before: Row<Key>, after: Row<Key>, c: Column, b: Balance) {
    CellSays(before, after, c, b) && forall d: Column :: d != c ==> SameCell(before, after, d)
  }

  lemma OneOpMore(row: Row<Key>, front: seq<Validator>, last: Validator)
    ensures OnlyCell(ApplyOps(row, BalanceOps(front)), ApplyOps(row, BalanceOps(front + [last])),
                     Column(Text("vb"), Dec(last.index)), last.balance)
  {
    var mid := ApplyOps(row, BalanceOps(front));
    assert BalanceOps(front + [last]) == BalanceOps(front) + [BalanceOp(last)];
    ApplyOpsConcat(row, BalanceOps(front), [BalanceOp(last)]);
    ApplyOneOp(mid, BalanceOp(last));
    assert BALANCES == Text("vb");
    EncodeSays(last.balance);
  }

  lemma OneMoreSays(row: Row<Key>, mid: Row<Key>, after: Row<Key>, vs: seq<Validator>, last: Validator)
    requires RowSays(row, mid, vs) && OnlyCell(mid, after, Column(Text("vb"), Dec(last.index)), last.balance)
    ensures RowSays(row, after, vs + [last])
  {
    var all := vs + [last];
    assert all[|vs|] == last && forall i :: 0 <= i < |vs| ==> all[i] == vs[i];
    forall i: nat | LastNamed(all, i)
      ensures CellSays(row, after, Column(Text("vb"), Dec(all[i].index)), all[i].balance)
    {
      if i < |vs| { EarlierSays(row, mid, after, vs, last, i); } else { VersionsOf(row, mid, vs, last.index); }
    }
    forall c: Column | Unnamed(all, c) ensures SameCell(row, after, c) {
      assert Unnamed(vs, c);
      assert SameCell(row, mid, c) && SameCell(mid, after, c);
    }
  }

  lemma EarlierSays(row: Row<Key>, mid: Row<Key>, after: Row<Key>, vs: seq<Validator>, last: Validator, i: nat)
    requires NamedSay(row, mid, vs) && OnlyCell(mid, after, Column(Text("vb"), Dec(last.index)), last.balance)
    requires i < |vs| && LastNamed(vs + [last], i)
    ensures CellSays(row, after, Column(Text("vb"), Dec(vs[i].index)), vs[i].balance)
  {
    var all := vs + [last];
    assert all[|vs|] == last && forall j :: 0 <= j < |vs| ==> all[j] == vs[j];
    assert LastNamed(vs, i);
    if Dec(vs[i].index) == Dec(last.index) { PadInjective(vs[i].index, last.index, 1); }
    assert SameCell(mid, after, Column(Text("vb"), Dec(vs[i].index)));
  }

  /** Whatever was saved before, the other versions of a cell are those at the start. */
  lemma VersionsOf(row: Row<Key>, mid: Row<Key>, vs: seq<Validator>, v: u64)
    requires RowSays(row, mid, vs)
    ensures var c := Column(Text("vb"), Dec(v));
            forall ts: nat :: ts != 0 ==>
              (c in mid && ts in mid[c] <==> c in row && ts in row[c]) &&
              (c in mid && ts in mid[c] ==> mid[c][ts] == row[c][ts])
  {
    var c := Column(Text("vb"), Dec(v));
    if i :| 0 <= i < |vs| && vs[i].index == v {
      var l := LastEntry(vs, i);
      assert CellSays(row, mid, c, vs[l].balance);
    } else {
      forall i | 0 <= i < |vs| ensures c != Column(Text("vb"), Dec(vs[i].index)) {
        if Dec(vs[i].index) == Dec(v) { PadInjective(vs[i].index, v, 1); }
      }
      assert Unnamed(vs, c) && SameCell(row, mid, c);
    }
  }

  lemma {:induction false} LastEntry(vs: seq<Validator>, i: nat) returns (l: nat)
    requires i < |vs|
    ensures LastNamed(vs, l) && vs[l].index == vs[i].index
    decreases |vs| - i
  {
    if j :| i < j < |vs| && vs[j].index == vs[i].index { l := LastEntry(vs, j); } else { l := i; }
  }

  /** What saving leaves in the table, read off its rows alone. */
  ghost predicate TableSays(before: Rows<Key>, after: Rows<Key>, chain: Key, epoch: u64, vs: seq<Validator>) {
    RowSays(RowAt(before, BalanceRowText(chain, epoch)), RowAt(after, BalanceRowText(chain, epoch)), vs) &&
    forall k: Key :: k != BalanceRowText(chain, epoch) ==> RowAt(after, k) == RowAt(before, k)
  }

  lemma SavedSays(before: Rows<Key>, after: Rows<Key>, chain: Key, epoch: u64, vs: seq<Validator>, n: nat)
    requires n <= |vs| && SavedFirst(before, after, BalanceKey(chain, epoch), vs, n)
    ensures TableSays(before, after, chain, epoch, vs[..n])
  {
    BalanceKeyIsText(chain, epoch);
    OpsSay(RowAt(before, BalanceKey(chain, epoch)), vs[..n]);
  }

  /** SaveValidatorBalances: a flush after the first entry and after every 100000 more, and
      one at the end; a failing Apply leaves the entries flushed so far. */
  method SaveValidatorBalances(t: Table<Key>, chain: Key, epoch: u64, vs: seq<Validator>, applyFails: nat -> bool)
    returns (ok: bool, ghost saved: nat)
    requires t.Valid()
    modifies t
    ensures t.Valid() && saved <= |vs| && if ok then saved == |vs| else LastFlush(applyFails, |vs|, saved)
    ensures ok <==> FlushesWork(applyFails, |vs|) && !applyFails(|vs|)
    ensures ok <==> forall i :: (0 <= i < |vs| && i % 100_000 == 0) || i == |vs| ==> !applyFails(i)
    ensures SavedFirst(old(t.rows), t.rows, BalanceKey(chain, epoch), vs, saved)
    ensures TableSays(old(t.rows), t.rows, chain, epoch, vs[..saved])
  {
    var k := BalanceKey(chain, epoch);
    var mut: Mutation<Key> := [];
    ghost var before := t.rows;
    saved := 0;
    NothingToFlush(before, k);
    for i := 0 to |vs|
      invariant t.Valid() && Pending(before, t.rows, k, vs, saved, i, mut)
      invariant FlushesWork(applyFails, i) && LastFlush(applyFails, i, saved)
    {
      OneMorePending(before, t.rows, k, vs, saved, i, mut);
      FlushStep(applyFails, i);
      LastFlushStep(applyFails, i, saved);
      mut := mut + [BalanceOp(vs[i])];
      if i % 100_000 == 0 {
        if applyFails(i) {
          FlushFailed(applyFails, i, |vs|);
          LastFlushFailed(applyFails, i, |vs|, saved);
          SavedSays(before, t.rows, chain, epoch, vs, saved);
          return false, saved;
        }
        PendingFlushed(before, t.rows, k, vs, saved, i + 1, mut);
        t.Apply(k, mut);
        saved, mut := i + 1, [];
      }
    }
    if applyFails(|vs|) {
      SavedSays(before, t.rows, chain, epoch, vs, saved);
      return false, saved;
    }
    PendingFlushed(before, t.rows, k, vs, saved, |vs|, mut);
    t.Apply(k, mut);
    SavedSays(before, t.rows, chain, epoch, vs, |vs|);
    return true, |vs|;
  }

  // ------------------------------------------------------------------- the ledger

  function Booked(ledger: Ledger, epoch: u64, vs: seq<Validator>): Ledger {
    if vs == [] then ledger
    else Booked(ledger, epoch, vs[..|vs| - 1])[At(epoch, vs[|vs| - 1].index) := vs[|vs| - 1].balance]
  }

  ghost predicate HoldsLedger(rows: Rows<Key>, chain: Key, ledger: Ledger) {
    forall a: At :: a in ledger ==>
      var k := BalanceKey(chain, a.epoch);
      k in rows && BalanceColumn(a.validator) in rows[k] &&
      rows[k][BalanceColumn(a.validator)] == map[0 := Encode(ledger[a])]
  }

  ghost predicate FromLedger(chain: Key, ledger: Ledger, k: Key, c: Column) {
    exists a: At :: a in ledger && k == BalanceKey(chain, a.epoch) && c == BalanceColumn(a.validator)
  }

  /** The balance cells of the table are those of the ledger; other families are free. */
  ghost predicate Mirrors(rows: Rows<Key>, chain: Key, ledger: Ledger) {
    NoEmptyRows(rows) && HoldsLedger(rows, chain, ledger) &&
    forall k, c :: k in rows && c in rows[k] && c.family == BALANCES ==> FromLedger(chain, ledger, k, c)
  }

  lemma BalanceKeyInjective(chain: Key, e: u64, f: u64)
    requires BalanceKey(chain, e) == BalanceKey(chain, f)
    ensures e == f
  {
    var p := Sep(chain, Sep(TAG_EPOCH, Sep(TAG_B, [])));
    assert BalanceKey(chain, e) == p + ReversedPadded(e) && BalanceKey(chain, f) == p + ReversedPadded(f);
    assert ReversedPadded(e) == BalanceKey(chain, e)[|p|..] == BalanceKey(chain, f)[|p|..] == ReversedPadded(f);
    PadInjectiveReversed(e, f);
  }

  lemma BalanceColumnInjective(v: u64, w: u64)
    requires BalanceColumn(v) == BalanceColumn(w)
    ensures v == w
  {
    PadInjective(v, w, 1);
  }

  /** A balance column that exists holds just the ledger's value. */
  lemma CellOfLedger(rows: Rows<Key>, chain: Key, ledger: Ledger, e: u64, v: u64)
    requires Mirrors(rows, chain, ledger)
    ensures var k, c := BalanceKey(chain, e), BalanceColumn(v);
            (k in rows && c in rows[k] <==> At(e, v) in ledger) &&
            (At(e, v) in ledger ==> rows[k][c] == map[0 := Encode(ledger[At(e, v)])])
  {
    var k, c := BalanceKey(chain, e), BalanceColumn(v);
    if k in rows && c in rows[k] {
      assert FromLedger(chain, ledger, k, c);
      var a: At :| a in ledger && k == BalanceKey(chain, a.epoch) && c == BalanceColumn(a.validator);
      BalanceKeyInjective(chain, e, a.epoch);
      BalanceColumnInjective(v, a.validator);
      assert a == At(e, v);
    }
  }

  lemma OneBalance(rows: Rows<Key>, chain: Key, ledger: Ledger, e: u64, v: Validator)
    requires Mirrors(rows, chain, ledger)
    ensures Mirrors(ApplyWrite(rows, Write(BalanceKey(chain, e), [BalanceOp(v)])), chain, ledger[At(e, v.index) := v.balance])
  {
    var k, c := BalanceKey(chain, e), BalanceColumn(v.index);
    var row := RowAt(rows, k);
    var next := ledger[At(e, v.index) := v.balance];
    CellOfLedger(rows, chain, ledger, e, v.index);
    ApplyOneOp(row, BalanceOp(v));
    var after := ApplyWrite(rows, Write(k, [BalanceOp(v)]));
    var cell: map<nat, Key> := if c in row then row[c] else map[];
    assert cell[0 := Encode(v.balance)] == map[0 := Encode(v.balance)];
    assert c in ApplyOp(row, BalanceOp(v));
    assert after == rows[k := row[c := map[0 := Encode(v.balance)]]];
    OneCellChanged(rows, chain, ledger, e, v);
  }

  lemma OneCellChanged(rows: Rows<Key>, chain: Key, ledger: Ledger, e: u64, v: Validator)
    requires Mirrors(rows, chain, ledger)
    ensures var k, c := BalanceKey(chain, e), BalanceColumn(v.index);
            Mirrors(rows[k := RowAt(rows, k)[c := map[0 := Encode(v.balance)]]], chain, ledger[At(e, v.index) := v.balance])
  {
    var k, c := BalanceKey(chain, e), BalanceColumn(v.index);
    var row' := RowAt(rows, k)[c := map[0 := Encode(v.balance)]];
    var after := rows[k := row'];
    var next := ledger[At(e, v.index) := v.balance];
    assert c in row';
    forall a: At | a in next
      ensures var j := BalanceKey(chain, a.epoch);
              j in after && BalanceColumn(a.validator) in after[j] &&
              after[j][BalanceColumn(a.validator)] == map[0 := Encode(next[a])]
    {
      if a != At(e, v.index) {
        CellOfLedger(rows, chain, ledger, a.epoch, a.validator);
        if BalanceKey(chain, a.epoch) == k { BalanceKeyInjective(chain, a.epoch, e); }
        if BalanceColumn(a.validator) == c { BalanceColumnInjective(a.validator, v.index); }
      }
    }
    forall j: Key, d: Column | j in after && d in after[j] && d.family == BALANCES ensures FromLedger(chain, next, j, d) {
      if j == k && d == c {
        assert At(e, v.index) in next;
      } else {
        assert j in rows && d in rows[j];
        assert FromLedger(chain, ledger, j, d);
        var a: At :| a in ledger && j == BalanceKey(chain, a.epoch) && d == BalanceColumn(a.validator);
        assert a in next;
      }
    }
  }

  /** Saving books the saved balances, wherever the flushes fell. */
  lemma {:induction false} SavingBooks(rows: Rows<Key>, chain: Key, ledger: Ledger, e: u64, vs: seq<Validator>)
    requires Mirrors(rows, chain, ledger)
    ensures Mirrors(ApplyWrite(rows, Write(BalanceKey(chain, e), BalanceOps(vs))), chain, Booked(ledger, e, vs))
    decreases |vs|
  {
    var k := BalanceKey(chain, e);
    if vs == [] {
      NothingToFlush(rows, k);
    } else {
      var front, last := vs[..|vs| - 1], vs[|vs| - 1];
      SavingBooks(rows, chain, ledger, e, front);
      assert BalanceOps(vs) == BalanceOps(front) + [BalanceOp(last)];
      FlushAnywhere(rows, k, BalanceOps(front), [BalanceOp(last)]);
      OneBalance(ApplyWrite(rows, Write(k, BalanceOps(front))), chain, Booked(ledger, e, front), e, last);
    }
  }

  /** Any write to other column families leaves the ledger alone. */
  lemma {:induction false} OtherWritesKeepLedger(rows: Rows<Key>, chain: Key, ledger: Ledger, k: Key, ops: Mutation<Key>)
    requires Mirrors(rows, chain, ledger)
    requires forall op :: op in ops ==> op.SetCell? && op.column.family != BALANCES
    ensures Mirrors(ApplyWrite(rows, Write(k, ops)), chain, ledger)
    decreases |ops|
  {
    if ops == [] {
      NothingToFlush(rows, k);
    } else {
      var op: Op<Key> := ops[0];
      assert op in ops;
      ApplyOneOp(RowAt(rows, k), op);
      var next := ApplyWrite(rows, Write(k, [op]));
      assert op.column in ApplyOp(RowAt(rows, k), op);
      OtherCell(rows, chain, ledger, k, op);
      assert forall o :: o in ops[1..] ==> o in ops;
      OtherWritesKeepLedger(next, chain, ledger, k, ops[1..]);
      FlushAnywhere(rows, k, [op], ops[1..]);
      assert [op] + ops[1..] == ops;
    }
  }

  lemma OtherCell(rows: Rows<Key>, chain: Key, ledger: Ledger, k: Key, op: Op<Key>)
    requires Mirrors(rows, chain, ledger) && op.SetCell? && op.column.family != BALANCES
    ensures Mirrors(ApplyWrite(rows, Write(k, [op])), chain, ledger)
  {
    ApplyOneOp(RowAt(rows, k), op);
    var row := ApplyOp(RowAt(rows, k), op);
    assert op.column in row;
    var after := ApplyWrite(rows, Write(k, [op]));
    assert after == rows[k := row];
    forall j: Key, c: Column | c.family == BALANCES
      ensures (j in after && c in after[j]) <==> (j in rows && c in rows[j])
      ensures j in rows && c in rows[j] ==> after[j][c] == rows[j][c] {}
  }
}
