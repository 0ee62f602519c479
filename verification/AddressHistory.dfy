/** What a history of indexed blocks leaves in the data table about one address, against a
    plain newest-first walk over the blocks. */
module AddressHistory {
  import opened Bytes
  import opened Decimal
  import opened KeyCodec
  import opened Bigtable
  import opened TxIndex

  // ------------------------------------------------------- what was ever written

  /** The data table is fed by indexed blocks, each with its transaction rows between the
      rows of the other transforms, and by other indexers; a bulk is taken back by deleting
      its keys. */
  datatype Event =
    | IndexBlock(block: Block, before: seq<Write<Cell>>, after: seq<Write<Cell>>)
    | DeleteBulk(bulk: seq<Write<Cell>>)
    | OtherWrite(write: Write<Cell>)

  function KeysOf(ws: seq<Write<Cell>>): seq<Key> {
    seq(|ws|, i requires 0 <= i < |ws| => ws[i].key)
  }

  function Deletions(keys: seq<Key>): seq<Write<Cell>> {
    seq(|keys|, i requires 0 <= i < |keys| => Write(keys[i], [DeleteRow]))
  }

  /** All that indexing one block writes. */
  function BlockBulk(chain: Key, b: Block, before: seq<Write<Cell>>, after: seq<Write<Cell>>): seq<Write<Cell>>
    requires Transformable(b)
  {
    before + BlockWrites(chain, b, |b.txs|) + after
  }

  function EventWrites(chain: Key, e: Event): seq<Write<Cell>> {
    match e
    case IndexBlock(b, before, after) => if Transformable(b) then BlockBulk(chain, b, before, after) else []
    case DeleteBulk(ws) => Deletions(KeysOf(ws))
    case OtherWrite(w) => [w]
  }

  function HistoryWrites(chain: Key, h: seq<Event>): seq<Write<Cell>> {
    if h == [] then [] else HistoryWrites(chain, h[..|h| - 1]) + EventWrites(chain, h[|h| - 1])
  }

  lemma {:induction false} HistoryMembers(chain: Key, h: seq<Event>, w: Write<Cell>)
    ensures w in HistoryWrites(chain, h) <==> exists e :: e in h && w in EventWrites(chain, e)
    decreases |h|
  {
    if h != [] {
      var front, last := h[..|h| - 1], h[|h| - 1];
      HistoryMembers(chain, front, w);
      assert forall e :: e in h <==> e in front || e == last;
    }
  }

  /** Rows of the other indexers: neither transaction data nor transaction index. */
  predicate Foreign(chain: Key, k: Key) {
    !(Sep(chain, Sep(TAG_TX, [])) <= k) && !(Sep(chain, Sep(TAG_I, Sep(TAG_TX, []))) <= k)
  }

  // ------------------------------------------------------------ the plain scan

  /** A transaction, by its block and its position there. */
  datatype RawRef = Ref(block: Block, index: nat)

  type Ref = r: RawRef | r.index < |r.block.txs| && r.index < MAX_TX_INDEX
    witness Ref(Block(0, [], 0, [Tx([], [], [], [], [], [], [], 0, 0, [])]), 0)

  function Down(hi: int, lo: nat): seq<nat>
    decreases hi - lo
  {
    if hi < lo then [] else [hi] + Down(hi - 1, lo)
  }

  /** The positions 0..n-1 of a block in the order an index scan meets them. */
  function ScanOrder(n: nat): seq<nat> {
    if n == 0 then []
    else Down(n - 1, 9_000) + [0] + Down(if n - 1 < 8_999 then n - 1 else 8_999, 1)
  }

  function Pick(b: Block, addr: Key, order: seq<nat>): seq<Ref> {
    if order == [] then []
    else
      (if order[0] < |b.txs| && order[0] < MAX_TX_INDEX && Involves(b.txs[order[0]], addr)
       then [Ref(b, order[0])] else [])
      + Pick(b, addr, order[1..])
  }

  /** The reference listing: walk the blocks from the newest, keep what involves addr. */
  function Listing(blocks: seq<Block>, addr: Key): seq<Ref> {
    if blocks == [] then []
    else Pick(blocks[0], addr, ScanOrder(|blocks[0].txs|)) + Listing(blocks[1..], addr)
  }

  ghost predicate IsRef(blocks: seq<Block>, addr: Key, r: Ref) {
    r.block in blocks && Involves(r.block.txs[r.index], addr)
  }

  ghost predicate NewestFirst(blocks: seq<Block>) {
    forall i, j :: 0 <= i < j < |blocks| ==> blocks[i].time > blocks[j].time
  }

  ghost predicate HashesIdentify(blocks: seq<Block>) {
    forall b, i: nat, c, j: nat ::
      b in blocks && c in blocks && i < |b.txs| && j < |c.txs| && b.txs[i].hash == c.txs[j].hash ==>
        b == c && i == j
  }

  /** h indexes exactly the given blocks, in any order and any number of times. */
  ghost predicate Indexes(chain: Key, blocks: seq<Block>, h: seq<Event>) {
    Free(chain, COLON) && NewestFirst(blocks) && HashesIdentify(blocks) &&
    (forall b :: b in blocks ==> Transformable(b) && exists e :: e in h && e.IndexBlock? && e.block == b) &&
    (forall e: Event :: e in h ==> IndexesOneOf(chain, blocks, e))
  }

  ghost predicate AllForeign(chain: Key, ws: seq<Write<Cell>>) {
    forall w :: w in ws ==> Foreign(chain, w.key)
  }

  ghost predicate IndexesOneOf(chain: Key, blocks: seq<Block>, e: Event) {
    match e
    case IndexBlock(b, before, after) => b in blocks && AllForeign(chain, before) && AllForeign(chain, after)
    case DeleteBulk(_) => false
    case OtherWrite(w) => Foreign(chain, w.key)
  }

  lemma {:induction false} DownSpec(hi: int, lo: nat)
    ensures forall x :: x in Down(hi, lo) <==> lo <= x <= hi
    ensures forall p, q :: 0 <= p < q < |Down(hi, lo)| ==> Down(hi, lo)[p] > Down(hi, lo)[q]
    decreases hi - lo
  {
    if hi >= lo {
      DownSpec(hi - 1, lo);
      var rest := Down(hi - 1, lo);
      forall q | 0 <= q < |rest| ensures rest[q] < hi { assert rest[q] in rest; }
    }
  }

  ghost predicate Ordered(order: seq<nat>) {
    forall p, q :: 0 <= p < q < |order| ==> MetBefore(order[p], order[q])
  }

  lemma OrderedConcat(a: seq<nat>, b: seq<nat>)
    requires Ordered(a) && Ordered(b)
    requires forall x, y :: x in a && y in b ==> MetBefore(x, y)
    ensures Ordered(a + b)
  {
    assert forall p :: 0 <= p < |a| ==> a[p] in a;
    assert forall p :: 0 <= p < |b| ==> b[p] in b;
  }

  lemma DownOrdered(hi: int, lo: nat)
    requires lo > 0
    ensures Ordered(Down(hi, lo))
  {
    DownSpec(hi, lo);
    assert forall p :: 0 <= p < |Down(hi, lo)| ==> Down(hi, lo)[p] in Down(hi, lo);
  }

  lemma ScanOrderSpec(n: nat)
    requires n <= MAX_TX_INDEX
    ensures forall x: nat :: x in ScanOrder(n) <==> x < n
    ensures Ordered(ScanOrder(n))
  {
    if n > 0 {
      var m := if n - 1 < 8_999 then n - 1 else 8_999;
      var a, b := Down(n - 1, 9_000), Down(m, 1);
      DownSpec(n - 1, 9_000);
      DownSpec(m, 1);
      DownOrdered(n - 1, 9_000);
      DownOrdered(m, 1);
      assert Ordered([0]);
      OrderedConcat(a, [0]);
      OrderedConcat(a + [0], b);
    }
  }

  lemma {:induction false} PickMembers(b: Block, addr: Key, order: seq<nat>, r: Ref)
    ensures r in Pick(b, addr, order) <==>
            r.block == b && r.index in order && Involves(b.txs[r.index], addr)
    decreases |order|
  {
    if order != [] {
      PickMembers(b, addr, order[1..], r);
      assert r.index in order <==> r.index == order[0] || r.index in order[1..];
    }
  }

  lemma {:induction false} PickOrdered(b: Block, addr: Key, order: seq<nat>)
    requires Ordered(order)
    ensures forall p, q :: 0 <= p < q < |Pick(b, addr, order)| ==>
                           MetBefore(Pick(b, addr, order)[p].index, Pick(b, addr, order)[q].index)
    decreases |order|
  {
    if order != [] {
      PickOrdered(b, addr, order[1..]);
      var rest := Pick(b, addr, order[1..]);
      forall q | 0 <= q < |rest| ensures MetBefore(order[0], rest[q].index) {
        assert rest[q] in rest;
        PickMembers(b, addr, order[1..], rest[q]);
        var m :| 0 <= m < |order[1..]| && order[1..][m] == rest[q].index;
        assert order[m + 1] == rest[q].index;
      }
    }
  }

  predicate RefBefore(r: Ref, s: Ref) {
    r.block.time > s.block.time || (r.block.time == s.block.time && MetBefore(r.index, s.index))
  }

  /** Whether an address sent or received a transaction, on the raw fields. */
  ghost predicate TakesPart(r: Ref, addr: Key) {
    var tx := r.block.txs[r.index];
    tx.from == addr || IsRecipient(tx, addr)
  }

  lemma InvolvedTakesPart(r: Ref, addr: Key)
    ensures TakesPart(r, addr) <==> Involves(r.block.txs[r.index], addr)
  {
    CreatesByAddress(r.block.txs[r.index]);
  }

  /** The listing holds every involved transaction ... */
  lemma {:induction false} ListingMembers(blocks: seq<Block>, addr: Key, r: Ref)
    requires forall b :: b in blocks ==> Transformable(b)
    ensures r in Listing(blocks, addr) <==> IsRef(blocks, addr, r)
    ensures r in Listing(blocks, addr) <==> r.block in blocks && TakesPart(r, addr)
    decreases |blocks|
  {
    InvolvedTakesPart(r, addr);
    if blocks != [] {
      var b := blocks[0];
      assert b in blocks;
      ScanOrderSpec(|b.txs|);
      PickMembers(b, addr, ScanOrder(|b.txs|), r);
      ListingMembers(blocks[1..], addr, r);
      assert r.block in blocks <==> r.block == b || r.block in blocks[1..];
    }
  }

  /** ... and lists newer blocks first. */
  lemma {:induction false} ListingOrdered(blocks: seq<Block>, addr: Key)
    requires NewestFirst(blocks) && forall b :: b in blocks ==> Transformable(b)
    ensures forall p, q :: 0 <= p < q < |Listing(blocks, addr)| ==>
                           RefBefore(Listing(blocks, addr)[p], Listing(blocks, addr)[q])
    decreases |blocks|
  {
    if blocks != [] {
      var b := blocks[0];
      assert b in blocks;
      var order := ScanOrder(|b.txs|);
      ScanOrderSpec(|b.txs|);
      PickOrdered(b, addr, order);
      ListingOrdered(blocks[1..], addr);
      var head, rest := Pick(b, addr, order), Listing(blocks[1..], addr);
      forall p | 0 <= p < |head| ensures head[p].block == b {
        assert head[p] in head;
        PickMembers(b, addr, order, head[p]);
      }
      forall q | 0 <= q < |rest| ensures rest[q].block.time < b.time {
        assert rest[q] in rest;
        ListingMembers(blocks[1..], addr, rest[q]);
        var m :| 0 <= m < |blocks[1..]| && blocks[1..][m] == rest[q].block;
        assert blocks[m + 1] == rest[q].block;
      }
    }
  }

  // -------------------------------------------------- the table after the history

  function RefKey(chain: Key, addr: Key, r: Ref): Key {
    TimeKey(chain, addr, r.block.time, r.index)
  }

  function TargetKey(chain: Key, r: Ref): Key {
    TxKey(chain, r.block.txs[r.index].hash)
  }

  lemma AddrKeyHead(chain: Key, addr: Key, rest: Key)
    ensures Sep(chain, Sep(TAG_I, Sep(TAG_TX, []))) <= AddrKey(chain, addr, rest)
  {
    SepExtends(TAG_TX, [], Sep(Hex(addr), rest));
    SepExtends(TAG_I, Sep(TAG_TX, []), Sep(TAG_TX, Sep(Hex(addr), rest)));
    SepExtends(chain, Sep(TAG_I, Sep(TAG_TX, [])), Sep(TAG_I, Sep(TAG_TX, Sep(Hex(addr), rest))));
  }

  lemma ForeignKeys(chain: Key, addr: Key, hash: Key, k: Key)
    requires Foreign(chain, k)
    ensures !(TimePrefix(chain, addr) <= k) && k != TxKey(chain, hash)
  {
    AddrKeyHead(chain, addr, TAG_TIME);
    SepExtends(TAG_TX, [], Hex(hash));
    SepExtends(chain, Sep(TAG_TX, []), Sep(TAG_TX, Hex(hash)));
  }

  ghost predicate PointsAt(chain: Key, addr: Key, r: Ref, w: Write<Cell>) {
    w == Write(RefKey(chain, addr, r), PointerMutation(TargetKey(chain, r)))
  }

  lemma TimeWriteHasRef(chain: Key, blocks: seq<Block>, addr: Key, b: Block, w: Write<Cell>) returns (r: Ref)
    requires Free(chain, COLON) && b in blocks && Transformable(b) && TimePrefix(chain, addr) <= w.key
    requires w in BlockWrites(chain, b, |b.txs|)
    ensures r.block == b && IsRef(blocks, addr, r) && PointsAt(chain, addr, r, w)
  {
    BlockWritesMembers(chain, b, |b.txs|, w);
    var i :| 0 <= i < |b.txs| && w in TxWrites(chain, b, i);
    TimeRowsOfTx(chain, b, i, addr, w);
    r := Ref(b, i);
  }

  /** What one indexed block writes into the time range of an address. */
  lemma BlockTimeWrites(chain: Key, blocks: seq<Block>, addr: Key, b: Block, w: Write<Cell>)
    requires Free(chain, COLON) && b in blocks && Transformable(b) && TimePrefix(chain, addr) <= w.key
    ensures w in BlockWrites(chain, b, |b.txs|) <==>
            exists r: Ref :: r.block == b && IsRef(blocks, addr, r) && PointsAt(chain, addr, r, w)
  {
    if w in BlockWrites(chain, b, |b.txs|) {
      var r := TimeWriteHasRef(chain, blocks, addr, b, w);
    } else if r: Ref :| r.block == b && IsRef(blocks, addr, r) && PointsAt(chain, addr, r, w) {
      TimeRowsOfTx(chain, b, r.index, addr, w);
      BlockWritesMembers(chain, b, |b.txs|, w);
    }
  }

  lemma BulkMembers(chain: Key, b: Block, before: seq<Write<Cell>>, after: seq<Write<Cell>>, w: Write<Cell>)
    requires Transformable(b)
    ensures w in BlockBulk(chain, b, before, after) <==> w in before || w in BlockWrites(chain, b, |b.txs|) || w in after
  {
    InEither(before, BlockWrites(chain, b, |b.txs|), w);
    InEither(before + BlockWrites(chain, b, |b.txs|), after, w);
  }

  /** What one event writes into the time range of an address. */
  lemma EventTimeWrites(chain: Key, blocks: seq<Block>, h: seq<Event>, addr: Key, e: Event, w: Write<Cell>)
    requires Indexes(chain, blocks, h) && e in h && TimePrefix(chain, addr) <= w.key
    ensures w in EventWrites(chain, e) <==>
            e.IndexBlock? && exists r: Ref :: r.block == e.block && IsRef(blocks, addr, r) && PointsAt(chain, addr, r, w)
  {
    assert IndexesOneOf(chain, blocks, e);
    match e {
      case OtherWrite(v) =>
        if w == v { ForeignKeys(chain, addr, [], w.key); }
      case IndexBlock(b, before, after) =>
        BulkMembers(chain, b, before, after, w);
        if w in before || w in after { ForeignKeys(chain, addr, [], w.key); }
        BlockTimeWrites(chain, blocks, addr, b, w);
    }
  }

  /** In the time range of an address, the history wrote exactly one pointer per
      involved transaction. */
  lemma TimeWrites(chain: Key, blocks: seq<Block>, h: seq<Event>, addr: Key, w: Write<Cell>)
    requires Indexes(chain, blocks, h) && TimePrefix(chain, addr) <= w.key
    ensures w in HistoryWrites(chain, h) <==> exists r: Ref :: IsRef(blocks, addr, r) && PointsAt(chain, addr, r, w)
  {
    HistoryMembers(chain, h, w);
    if w in HistoryWrites(chain, h) {
      var e :| e in h && w in EventWrites(chain, e);
      EventTimeWrites(chain, blocks, h, addr, e, w);
    }
    if r: Ref :| IsRef(blocks, addr, r) && PointsAt(chain, addr, r, w) {
      var e :| e in h && e.IndexBlock? && e.block == r.block;
      EventTimeWrites(chain, blocks, h, addr, e, w);
    }
  }

  function FinalRows(chain: Key, h: seq<Event>): Rows<Cell> {
    ApplyAll(map[], HistoryWrites(chain, h))
  }

  lemma SingleCellPresent(ws: seq<Write<Cell>>, k: Key, c: Column, v: Cell, at: nat)
    requires at < |ws| && ws[at].key == k
    requires forall i :: 0 <= i < |ws| && ws[i].key == k ==> ws[i].mut == [SetCell(c, 0, v)]
    ensures k in ApplyAll(map[], ws) && ApplyAll(map[], ws)[k] == map[c := map[0 := v]]
  {
    SingleCellRow(map[], ws, k, c, v);
    ApplyAllRow(map[], ws, k);
    assert c in map[c := map[0 := v]];
  }

  lemma RefKeyInjective(chain: Key, blocks: seq<Block>, addr: Key, r: Ref, s: Ref)
    requires Free(chain, COLON) && NewestFirst(blocks) && r.block in blocks && s.block in blocks
    requires RefKey(chain, addr, r) == RefKey(chain, addr, s)
    ensures r == s
  {
    TimeKeyOrder(chain, addr, r.block.time, r.index, s.block.time, s.index);
    var i :| 0 <= i < |blocks| && blocks[i] == r.block;
    var j :| 0 <= j < |blocks| && blocks[j] == s.block;
    assert i == j;
  }

  lemma RefKeyInRange(chain: Key, addr: Key, r: Ref)
    ensures TimePrefix(chain, addr) <= RefKey(chain, addr, r)
  {
    var tail := Moment(r.block.time, r.index);
    assert Sep(TAG_TIME, tail) == TAG_TIME + ([COLON] + tail);
    AddrKeyExtends(chain, addr, TAG_TIME, Sep(TAG_TIME, tail));
  }

  /** A time row holds one column, named after the data row of its transaction. */
  lemma TimeRow(chain: Key, blocks: seq<Block>, h: seq<Event>, addr: Key, r: Ref)
    requires Indexes(chain, blocks, h) && IsRef(blocks, addr, r)
    ensures RefKey(chain, addr, r) in FinalRows(chain, h)
    ensures FinalRows(chain, h)[RefKey(chain, addr, r)] ==
            map[Column(FAMILY, TargetKey(chain, r)) := map[0 := Nothing]]
  {
    var ws, k := HistoryWrites(chain, h), RefKey(chain, addr, r);
    var c := Column(FAMILY, TargetKey(chain, r));
    RefKeyInRange(chain, addr, r);
    forall i | 0 <= i < |ws| && ws[i].key == k ensures ws[i].mut == [SetCell(c, 0, Nothing)] {
      TimeWrites(chain, blocks, h, addr, ws[i]);
      var s: Ref :| IsRef(blocks, addr, s) && PointsAt(chain, addr, s, ws[i]);
      RefKeyInjective(chain, blocks, addr, r, s);
    }
    var own := Write(k, PointerMutation(TargetKey(chain, r)));
    assert PointsAt(chain, addr, r, own);
    TimeWrites(chain, blocks, h, addr, own);
    var i :| 0 <= i < |ws| && ws[i] == own;
    SingleCellPresent(ws, k, c, Nothing, i);
  }

  lemma {:induction false} PresentMeansWritten(ws: seq<Write<Cell>>, k: Key)
    requires k in ApplyAll(map[], ws)
    ensures exists w :: w in ws && w.key == k
  {
    ApplyAllRow(map[], ws, k);
    if forall w :: w in ws ==> w.key != k {
      RowFoldUntouched(map[], ws, k);
    }
  }

  lemma KeyHasRef(chain: Key, blocks: seq<Block>, h: seq<Event>, addr: Key, k: Key) returns (r: Ref)
    requires Indexes(chain, blocks, h) && TimePrefix(chain, addr) <= k
    requires k in FinalRows(chain, h)
    ensures IsRef(blocks, addr, r) && k == RefKey(chain, addr, r)
  {
    PresentMeansWritten(HistoryWrites(chain, h), k);
    var w :| w in HistoryWrites(chain, h) && w.key == k;
    TimeWrites(chain, blocks, h, addr, w);
    r :| IsRef(blocks, addr, r) && PointsAt(chain, addr, r, w);
  }

  /** The keys of the table in the time range of an address are those of the transactions
      that involve it. */
  lemma TimeRange(chain: Key, blocks: seq<Block>, h: seq<Event>, addr: Key, k: Key)
    requires Indexes(chain, blocks, h) && TimePrefix(chain, addr) <= k
    ensures k in FinalRows(chain, h) <==> exists r: Ref :: IsRef(blocks, addr, r) && k == RefKey(chain, addr, r)
  {
    if k in FinalRows(chain, h) {
      var r := KeyHasRef(chain, blocks, h, addr, k);
    } else if r: Ref :| IsRef(blocks, addr, r) && k == RefKey(chain, addr, r) {
      TimeRow(chain, blocks, h, addr, r);
    }
  }

  lemma OwnDataWritten(chain: Key, blocks: seq<Block>, h: seq<Event>, r: Ref)
    requires Indexes(chain, blocks, h) && r.block in blocks
    ensures Write(TargetKey(chain, r), DataMutation(r.block, r.index)) in HistoryWrites(chain, h)
  {
    var own := Write(TargetKey(chain, r), DataMutation(r.block, r.index));
    assert own in TxWrites(chain, r.block, r.index);
    BlockWritesMembers(chain, r.block, |r.block.txs|, own);
    var e :| e in h && e.IndexBlock? && e.block == r.block;
    BulkMembers(chain, r.block, e.before, e.after, own);
    HistoryMembers(chain, h, own);
  }

  /** The row "<chain>:TX:<hash>" holds, as its one cell, what must be said of a transaction. */
  ghost predicate HasDataRow(rows: Rows<Cell>, chain: Key, r: Ref) {
    var k := DataKeyText(chain, r.block.txs[r.index].hash);
    k in rows &&
    exists d :: Describes(d, r.block, r.index) && rows[k] == map[Column(Text("f"), Text("d")) := map[0 := Indexed(d)]]
  }

  /** The data row of an indexed transaction holds that transaction. */
  lemma DataRow(chain: Key, blocks: seq<Block>, h: seq<Event>, r: Ref)
    requires Indexes(chain, blocks, h) && r.block in blocks
    ensures TargetKey(chain, r) in FinalRows(chain, h)
    ensures FinalRows(chain, h)[TargetKey(chain, r)] ==
            map[Column(FAMILY, DATA_COLUMN) := map[0 := Indexed(IndexedOf(r.block, r.index))]]
    ensures HasDataRow(FinalRows(chain, h), chain, r)
  {
    IndexedDescribes(r.block, r.index);
    DataKeyIsText(chain, r.block.txs[r.index].hash);
    TagTexts();
    var ws, k := HistoryWrites(chain, h), TargetKey(chain, r);
    var c, v := Column(FAMILY, DATA_COLUMN), Indexed(IndexedOf(r.block, r.index));
    forall i | 0 <= i < |ws| && ws[i].key == k ensures ws[i].mut == [SetCell(c, 0, v)] {
      DataWrites(chain, blocks, h, r, ws[i]);
    }
    OwnDataWritten(chain, blocks, h, r);
    var i :| 0 <= i < |ws| && ws[i] == Write(k, DataMutation(r.block, r.index));
    SingleCellPresent(ws, k, c, v, i);
  }

  /** The only write of a transaction to a data row is that of its own data. */
  lemma TxDataWrite(chain: Key, b: Block, i: nat, hash: Key, w: Write<Cell>)
    requires Free(chain, COLON) && i < |b.txs| && i < MAX_TX_INDEX
    requires w in TxWrites(chain, b, i) && w.key == TxKey(chain, hash)
    ensures b.txs[i].hash == hash && w.mut == DataMutation(b, i)
  {
    var key := TxKey(chain, b.txs[i].hash);
    PointerMembers(chain, IndexRows(b, i), key, w);
    if x :| x in IndexRows(b, i) && w == Write(RowKey(chain, x), PointerMutation(key)) {
      TxKeyIsNoAddrKey(chain, hash, x.addr, Sep(TagName(x.tag), x.rest));
    }
    TxKeyInjective(chain, b.txs[i].hash, hash);
  }

  lemma BlockDataWrite(chain: Key, blocks: seq<Block>, r: Ref, b: Block, w: Write<Cell>)
    requires Free(chain, COLON) && HashesIdentify(blocks) && b in blocks && r.block in blocks && Transformable(b)
    requires w in BlockWrites(chain, b, |b.txs|) && w.key == TargetKey(chain, r)
    ensures w.mut == DataMutation(r.block, r.index)
  {
    BlockWritesMembers(chain, b, |b.txs|, w);
    var i :| 0 <= i < |b.txs| && w in TxWrites(chain, b, i);
    TxDataWrite(chain, b, i, r.block.txs[r.index].hash, w);
  }

  lemma DataWrites(chain: Key, blocks: seq<Block>, h: seq<Event>, r: Ref, w: Write<Cell>)
    requires Indexes(chain, blocks, h) && r.block in blocks
    requires w in HistoryWrites(chain, h) && w.key == TargetKey(chain, r)
    ensures w.mut == DataMutation(r.block, r.index)
  {
    var hash := r.block.txs[r.index].hash;
    HistoryMembers(chain, h, w);
    var e :| e in h && w in EventWrites(chain, e);
    assert IndexesOneOf(chain, blocks, e);
    match e {
      case OtherWrite(v) =>
        ForeignKeys(chain, [], hash, v.key);
      case IndexBlock(b, before, after) =>
        BulkMembers(chain, b, before, after, w);
        if w in before || w in after { ForeignKeys(chain, [], hash, w.key); }
        BlockDataWrite(chain, blocks, r, b, w);
    }
  }
}
