/** Taking an indexed block back after a reorganisation: what deleting its recorded keys does
    to a history of indexing and deletions. */
module BlockLifecycle {
  import opened Bytes
  import opened Words
  import opened Decimal
  import opened KeyCodec
  import opened Bigtable
  import opened TxIndex
  import opened AddressHistory
  import opened AddressPages

  // ------------------------------------------------------- the recorded key list

  lemma SepFree(f: Key, rest: Key)
    requires Free(f, COMMA) && Free(rest, COMMA)
    ensures Free(Sep(f, rest), COMMA)
  {}

  lemma AddrKeyFree(chain: Key, addr: Key, rest: Key)
    requires Free(chain, COMMA) && Free(rest, COMMA)
    ensures Free(AddrKey(chain, addr, rest), COMMA)
  {
    SepFree(Hex(addr), rest);
    SepFree(TAG_TX, Sep(Hex(addr), rest));
    SepFree(TAG_I, Sep(TAG_TX, Sep(Hex(addr), rest)));
    SepFree(chain, Sep(TAG_I, Sep(TAG_TX, Sep(Hex(addr), rest))));
  }

  lemma TagNameFree(tag: Tag)
    ensures Free(TagName(tag), COMMA)
  {}

  /** The part of an index key behind its tag: the moment, the block number, or one more
      address or method before the moment. */
  ghost predicate RestShape(tag: Tag, rest: Key, x: Key, at: Key, nr: Key) {
    match tag
    case Time => rest == at
    case Error => rest == at
    case Contract => rest == at
    case BlockNr => rest == nr
    case _ => rest == Sep(Hex(x), at)
  }

  lemma SideShape(mine: Key, direction: Tag, other: Key, id: Key, at: Key, nr: Key, r: IndexRow) returns (x: Key)
    requires (direction == To || direction == From) && r in RowsOfSide(mine, direction, other, Hex(id), at, nr)
    ensures RestShape(r.tag, r.rest, x, at, nr)
  {
    x := if r.tag == direction then other else id;
  }

  lemma RowShape(from: Key, to: Key, id: Key, failed: bool, creation: bool, at: Key, nr: Key, r: IndexRow)
    returns (x: Key)
    requires r in RowsFor(from, to, Hex(id), failed, creation, at, nr)
    ensures RestShape(r.tag, r.rest, x, at, nr)
  {
    if r in RowsOfSide(from, To, to, Hex(id), at, nr) {
      x := SideShape(from, To, to, id, at, nr, r);
    } else if r in RowsOfSide(to, From, from, Hex(id), at, nr) {
      x := SideShape(to, From, from, id, at, nr, r);
    } else {
      x := [];
      assert (r.tag == Error || r.tag == Contract) && r.rest == at;
    }
  }

  function NumberAndIndex(b: Block, i: nat): Key
    requires i < MAX_TX_INDEX
  {
    Sep(ReversedPadded(b.number), ReversedIndex(i, MAX_TX_INDEX))
  }

  lemma RestOf(b: Block, i: nat, r: IndexRow) returns (x: Key)
    requires i < |b.txs| && i < MAX_TX_INDEX && r in IndexRows(b, i)
    ensures RestShape(r.tag, r.rest, x, Moment(b.time, i), NumberAndIndex(b, i))
  {
    var tx := b.txs[i];
    x := RowShape(tx.from, EffectiveTo(tx), MethodId(tx), tx.errorMsg != [],
                  tx.contractAddress != ZeroAddress(), Moment(b.time, i), NumberAndIndex(b, i), r);
  }

  lemma RestFree(b: Block, i: nat, tag: Tag, rest: Key, x: Key)
    requires i < MAX_TX_INDEX && RestShape(tag, rest, x, Moment(b.time, i), NumberAndIndex(b, i))
    ensures Free(rest, COMMA)
  {
    SepFree(ReversedTimestamp(b.time), ReversedIndex(i, MAX_TX_INDEX));
    SepFree(ReversedPadded(b.number), ReversedIndex(i, MAX_TX_INDEX));
    SepFree(Hex(x), Moment(b.time, i));
  }

  lemma CommaFree(chain: Key, b: Block, i: nat, w: Write<Cell>)
    requires Free(chain, COMMA) && i < |b.txs| && i < MAX_TX_INDEX
    requires w in TxWrites(chain, b, i)
    ensures Free(w.key, COMMA)
  {
    var target := TxKey(chain, b.txs[i].hash);
    PointerMembers(chain, IndexRows(b, i), target, w);
    SepFree(TAG_TX, Hex(b.txs[i].hash));
    SepFree(chain, Sep(TAG_TX, Hex(b.txs[i].hash)));
    if w.key != target {
      var r :| r in IndexRows(b, i) && w == Write(RowKey(chain, r), PointerMutation(target));
      RowKeyFree(chain, b, i, r);
    }
  }

  lemma RowKeyFree(chain: Key, b: Block, i: nat, r: IndexRow)
    requires Free(chain, COMMA) && i < |b.txs| && i < MAX_TX_INDEX && r in IndexRows(b, i)
    ensures Free(RowKey(chain, r), COMMA)
  {
    var x := RestOf(b, i, r);
    RestFree(b, i, r.tag, r.rest, x);
    TagNameFree(r.tag);
    SepFree(TagName(r.tag), r.rest);
    AddrKeyFree(chain, r.addr, Sep(TagName(r.tag), r.rest));
  }

  ghost predicate CommaFreeKeys(ws: seq<Write<Cell>>) {
    forall i :: 0 <= i < |ws| ==> Free(ws[i].key, COMMA)
  }

  lemma BlockKeysCommaFree(chain: Key, b: Block)
    requires Free(chain, COMMA) && Transformable(b)
    ensures CommaFreeKeys(BlockWrites(chain, b, |b.txs|))
  {
    var ws := BlockWrites(chain, b, |b.txs|);
    forall j | 0 <= j < |ws| ensures Free(ws[j].key, COMMA) {
      BlockWritesMembers(chain, b, |b.txs|, ws[j]);
      var i :| 0 <= i < |b.txs| && ws[j] in TxWrites(chain, b, i);
      CommaFree(chain, b, i, ws[j]);
    }
  }

  /** Splitting the recorded string gives back exactly the keys written, if and only if there
      are any and none holds a comma. */
  lemma RecordRoundTrip(ws: seq<Write<Cell>>)
    ensures Split(Join(KeysOf(ws), COMMA), COMMA) == KeysOf(ws) <==> ws != [] && CommaFreeKeys(ws)
  {
    SplitJoinExactly(KeysOf(ws), COMMA);
    assert forall i :: 0 <= i < |ws| ==> KeysOf(ws)[i] == ws[i].key;
  }

  /** The transaction keys never hold a comma, so those of the other transforms decide. */
  lemma BulkCommaFree(chain: Key, b: Block, before: seq<Write<Cell>>, after: seq<Write<Cell>>)
    requires Free(chain, COMMA) && Transformable(b)
    ensures CommaFreeKeys(BlockBulk(chain, b, before, after)) <==> CommaFreeKeys(before) && CommaFreeKeys(after)
  {
    var own := BlockWrites(chain, b, |b.txs|);
    BlockKeysCommaFree(chain, b);
    CommaFreeConcat(before, own);
    CommaFreeConcat(before + own, after);
  }

  lemma CommaFreeConcat(a: seq<Write<Cell>>, b: seq<Write<Cell>>)
    ensures CommaFreeKeys(a + b) <==> CommaFreeKeys(a) && CommaFreeKeys(b)
  {
    forall i | 0 <= i < |a| ensures (a + b)[i] == a[i] {}
    forall i | 0 <= i < |b| ensures (a + b)[|a| + i] == b[i] {}
  }

  // --------------------------------------------------------- deletion as an inverse

  ghost predicate Touches(ws: seq<Write<Cell>>, k: Key) {
    exists i :: 0 <= i < |ws| && ws[i].key == k
  }

  lemma {:induction false} DeletedRow(row: Row<Cell>, keys: seq<Key>, k: Key)
    ensures RowFold(row, Deletions(keys), k) == if k in keys then map[] else row
    decreases |keys|
  {
    if keys != [] {
      var ws := Deletions(keys);
      assert ws[1..] == Deletions(keys[1..]);
      ApplyOneOp(row, DeleteRow);
      DeletedRow(if keys[0] == k then map[] else row, keys[1..], k);
    }
  }

  /** A history as if a bulk had never been written. */
  function Without(chain: Key, h: seq<Event>, ws: seq<Write<Cell>>): (rest: seq<Event>)
    ensures forall e: Event :: e in rest ==> e in h && EventWrites(chain, e) != ws
  {
    if h == [] then []
    else Without(chain, h[..|h| - 1], ws) + (if EventWrites(chain, h[|h| - 1]) == ws then [] else [h[|h| - 1]])
  }

  lemma HistoryStep(chain: Key, h: seq<Event>, e: Event, k: Key)
    ensures RowFold(map[], HistoryWrites(chain, h + [e]), k) ==
            RowFold(RowFold(map[], HistoryWrites(chain, h), k), EventWrites(chain, e), k)
  {
    assert (h + [e])[..|h + [e]| - 1] == h;
    RowFoldConcat<Cell>(map[], HistoryWrites(chain, h), EventWrites(chain, e), k);
  }

  lemma WithoutAppend(chain: Key, h: seq<Event>, ws: seq<Write<Cell>>, e: Event)
    ensures Without(chain, h + [e], ws) == Without(chain, h, ws) + (if EventWrites(chain, e) == ws then [] else [e])
  {
    assert (h + [e])[..|h + [e]| - 1] == h;
  }

  /** One more event on both sides. */
  lemma OtherRowStep(chain: Key, h: seq<Event>, ws: seq<Write<Cell>>, e: Event, k: Key)
    requires !Touches(ws, k)
    requires RowFold(map[], HistoryWrites(chain, h), k) == RowFold(map[], HistoryWrites(chain, Without(chain, h, ws)), k)
    ensures RowFold(map[], HistoryWrites(chain, h + [e]), k) ==
            RowFold(map[], HistoryWrites(chain, Without(chain, h + [e], ws)), k)
  {
    HistoryStep(chain, h, e, k);
    WithoutAppend(chain, h, ws, e);
    if EventWrites(chain, e) == ws {
      RowFoldUntouched(RowFold(map[], HistoryWrites(chain, h), k), ws, k);
      assert Without(chain, h + [e], ws) == Without(chain, h, ws);
    } else {
      HistoryStep(chain, Without(chain, h, ws), e, k);
    }
  }

  /** A row the bulk does not write is what the rest of the history makes of it, however
      often the bulk was written. */
  lemma {:induction false} OtherRow(chain: Key, h: seq<Event>, ws: seq<Write<Cell>>, k: Key)
    requires !Touches(ws, k)
    ensures RowFold(map[], HistoryWrites(chain, h), k) == RowFold(map[], HistoryWrites(chain, Without(chain, h, ws)), k)
    decreases |h|
  {
    if h == [] {
      assert Without(chain, h, ws) == h;
    } else {
      var front, last := SplitLast(h);
      OtherRow(chain, front, ws, k);
      OtherRowStep(chain, front, ws, last, k);
    }
  }

  lemma SplitLast(h: seq<Event>) returns (front: seq<Event>, last: Event)
    requires h != []
    ensures h == front + [last] && |front| < |h| && front == h[..|h| - 1] && last == h[|h| - 1]
  {
    front, last := h[..|h| - 1], h[|h| - 1];
  }

  lemma FinalRow(chain: Key, h: seq<Event>, k: Key)
    ensures NoEmptyRows(FinalRows(chain, h))
    ensures RowAt(FinalRows(chain, h), k) == RowFold(map[], HistoryWrites(chain, h), k)
  {
    ApplyAllRow<Cell>(map[], HistoryWrites(chain, h), k);
  }

  /** One row after the keys of a bulk were deleted. */
  lemma DeletedHistoryRow(chain: Key, h: seq<Event>, ws: seq<Write<Cell>>, k: Key)
    ensures RowAt(ApplyAll(FinalRows(chain, h), Deletions(KeysOf(ws))), k) ==
            if k in KeysOf(ws) then map[] else RowAt(FinalRows(chain, Without(chain, h, ws)), k)
  {
    var keys := KeysOf(ws);
    FinalRow(chain, h, k);
    FinalRow(chain, Without(chain, h, ws), k);
    ApplyAllRow(FinalRows(chain, h), Deletions(keys), k);
    DeletedRow(RowAt(FinalRows(chain, h), k), keys, k);
    if k !in keys {
      forall i | 0 <= i < |ws| ensures ws[i].key != k { assert keys[i] in keys; }
      OtherRow(chain, h, ws, k);
    }
  }

  /** No row the rest of the history leaves behind carries a key of the bulk. */
  ghost predicate NothingShared(chain: Key, h: seq<Event>, ws: seq<Write<Cell>>) {
    forall k :: k in KeysOf(ws) ==> k !in FinalRows(chain, Without(chain, h, ws))
  }

  /** In any history, with a bulk written any number of times and among anything else,
      deleting its keys leaves the data table as if it had never been written if and only if
      no row that anything else left there carries one of its keys. */
  lemma BlockUndone(chain: Key, h: seq<Event>, ws: seq<Write<Cell>>)
    ensures var after := ApplyAll(FinalRows(chain, h), Deletions(KeysOf(ws)));
            after == FinalRows(chain, Without(chain, h, ws)) <==> NothingShared(chain, h, ws)
  {
    var keys := KeysOf(ws);
    var left, right := ApplyAll(FinalRows(chain, h), Deletions(keys)), FinalRows(chain, Without(chain, h, ws));
    FinalRow(chain, h, []);
    FinalRow(chain, Without(chain, h, ws), []);
    ApplyAllRow(FinalRows(chain, h), Deletions(keys), []);
    if NothingShared(chain, h, ws) {
      forall k ensures RowAt(left, k) == RowAt(right, k) { DeletedHistoryRow(chain, h, ws, k); }
      RowsEqual(left, right);
    } else {
      var k :| k in keys && k in right;
      DeletedHistoryRow(chain, h, ws, k);
      assert RowAt(left, k) != RowAt(right, k);
    }
  }

  /** The same through the recorded string: the keys that were recorded for a block are what
      DeleteBlock needs to take the block back. */
  lemma RecordedBlockUndone(chain: Key, h: seq<Event>, ws: seq<Write<Cell>>)
    requires ws != [] && CommaFreeKeys(ws)
    ensures var record := Join(KeysOf(ws), COMMA);
            var after := ApplyAll(FinalRows(chain, h), Deletions(Split(record, COMMA)));
            after == FinalRows(chain, Without(chain, h, ws)) <==> NothingShared(chain, h, ws)
  {
    RecordRoundTrip(ws);
    BlockUndone(chain, h, ws);
  }

  // ------------------------------------------------ indexing and taking back, interleaved

  /** A history in which every deletion has taken back what it deletes. */
  function Reduced(chain: Key, h: seq<Event>): (rest: seq<Event>)
    ensures forall e :: e in rest ==> e in h && !e.DeleteBulk?
  {
    if h == [] then []
    else
      var front, last := Reduced(chain, h[..|h| - 1]), h[|h| - 1];
      if last.DeleteBulk? then Without(chain, front, last.bulk) else front + [last]
  }

  /** Every deletion of a history shares nothing with what was not taken back before it. */
  ghost predicate CleanlyDeleted(chain: Key, h: seq<Event>) {
    h != [] ==>
      CleanlyDeleted(chain, h[..|h| - 1]) &&
      (h[|h| - 1].DeleteBulk? ==> NothingShared(chain, Reduced(chain, h[..|h| - 1]), h[|h| - 1].bulk))
  }

  lemma FinalRowsStep(chain: Key, h: seq<Event>, e: Event)
    ensures FinalRows(chain, h + [e]) == ApplyAll(FinalRows(chain, h), EventWrites(chain, e))
  {
    assert (h + [e])[..|h + [e]| - 1] == h;
    ApplyAllConcat<Cell>(map[], HistoryWrites(chain, h), EventWrites(chain, e));
  }

  /** After any interleaving of indexing, re-indexing and taking back, the table is the one
      of a history in which what was taken back had never been indexed. */
  lemma {:induction false} AfterDeletions(chain: Key, h: seq<Event>)
    requires CleanlyDeleted(chain, h)
    ensures FinalRows(chain, h) == FinalRows(chain, Reduced(chain, h))
    decreases |h|
  {
    if h != [] {
      var front, last := SplitLast(h);
      AfterDeletions(chain, front);
      FinalRowsStep(chain, front, last);
      if last.DeleteBulk? {
        BlockUndone(chain, Reduced(chain, front), last.bulk);
      } else {
        FinalRowsStep(chain, Reduced(chain, front), last);
      }
    }
  }

  /** ... and the first deletion that shares a row with the rest spoils it. */
  lemma FirstSpoiled(chain: Key, h: seq<Event>, ws: seq<Write<Cell>>)
    requires CleanlyDeleted(chain, h)
    ensures FinalRows(chain, h + [DeleteBulk(ws)]) == FinalRows(chain, Reduced(chain, h + [DeleteBulk(ws)])) <==>
            CleanlyDeleted(chain, h + [DeleteBulk(ws)])
  {
    var e := DeleteBulk(ws);
    assert (h + [e])[..|h + [e]| - 1] == h;
    AfterDeletions(chain, h);
    FinalRowsStep(chain, h, e);
    BlockUndone(chain, Reduced(chain, h), ws);
  }

  /** Following the page tokens gives the reference listing over the blocks that were indexed
      and not taken back, whatever was indexed and taken back before. */
  method FollowPagesAfterDeletions(tableData: Table<Cell>, chain: Key, addr: Key, limit: nat,
                                   ghost blocks: seq<Block>, ghost h: seq<Event>)
    returns (all: seq<Option<IndexedTx>>)
    requires CleanlyDeleted(chain, h) && Indexes(chain, blocks, Reduced(chain, h))
    requires tableData.rows == FinalRows(chain, h)
    ensures all == Expected(Listing(blocks, addr)) && TellsHistory(all, blocks, addr)
  {
    AfterDeletions(chain, h);
    all := FollowPages(tableData, chain, addr, limit, blocks, Reduced(chain, h));
  }

  // ----------------------------------------------- when are two blocks disjoint

  lemma TxWritesDiffer(chain: Key, b: Block, i: nat, c: Block, j: nat, v: Write<Cell>, w: Write<Cell>)
    requires Free(chain, COLON) && i < |b.txs| && i < MAX_TX_INDEX && j < |c.txs| && j < MAX_TX_INDEX
    requires b.number != c.number && b.time != c.time && b.txs[i].hash != c.txs[j].hash
    requires v in TxWrites(chain, b, i) && w in TxWrites(chain, c, j)
    ensures v.key != w.key
  {
    var g, h := b.txs[i].hash, c.txs[j].hash;
    PointerMembers(chain, IndexRows(b, i), TxKey(chain, g), v);
    PointerMembers(chain, IndexRows(c, j), TxKey(chain, h), w);
    if v.key == w.key {
      if v.key == TxKey(chain, g) {
        if w.key == TxKey(chain, h) {
          TxKeyInjective(chain, g, h);
        } else {
          var s :| s in IndexRows(c, j) && w == Write(RowKey(chain, s), PointerMutation(TxKey(chain, h)));
          TxKeyIsNoAddrKey(chain, g, s.addr, Sep(TagName(s.tag), s.rest));
        }
      } else {
        var r :| r in IndexRows(b, i) && v == Write(RowKey(chain, r), PointerMutation(TxKey(chain, g)));
        TxKeyIsNoAddrKey(chain, h, r.addr, Sep(TagName(r.tag), r.rest));
        var s :| s in IndexRows(c, j) && w == Write(RowKey(chain, s), PointerMutation(TxKey(chain, h)));
        IndexRowsDiffer(chain, b, i, r, c, j, s);
      }
    }
  }

  lemma TagNameInjective(s: Tag, t: Tag)
    ensures TagName(s) == TagName(t) ==> s == t
    ensures Free(TagName(s), COLON)
  {
    assert TAG_TO[0] == 84 && |TAG_TO| == 2;
    assert TAG_TIME[0] == 84 && |TAG_TIME| == 4;
    assert TAG_FROM[0] == 70 && TAG_BLOCK[0] == 66 && TAG_METHOD[0] == 77 && TAG_ERROR[0] == 69 && TAG_CONTRACT[0] == 67;
  }

  lemma IndexRowsDiffer(chain: Key, b: Block, i: nat, r: IndexRow, c: Block, j: nat, s: IndexRow)
    requires Free(chain, COLON) && i < |b.txs| && i < MAX_TX_INDEX && j < |c.txs| && j < MAX_TX_INDEX
    requires b.number != c.number && b.time != c.time
    requires r in IndexRows(b, i) && s in IndexRows(c, j)
    ensures RowKey(chain, r) != RowKey(chain, s)
  {
    if RowKey(chain, r) == RowKey(chain, s) {
      var p, q := Sep(TagName(r.tag), r.rest), Sep(TagName(s.tag), s.rest);
      AddrKeyPrefix(chain, r.addr, p, s.addr, q);
      AddrKeyPrefix(chain, s.addr, q, r.addr, p);
      TagNameInjective(r.tag, s.tag);
      TagNameInjective(s.tag, r.tag);
      SepInjective(TagName(r.tag), r.rest, TagName(s.tag), s.rest);
      RestsDiffer(b, i, r, c, j, s);
    }
  }

  lemma RestsDiffer(b: Block, i: nat, r: IndexRow, c: Block, j: nat, s: IndexRow)
    requires i < |b.txs| && i < MAX_TX_INDEX && j < |c.txs| && j < MAX_TX_INDEX
    requires b.number != c.number && b.time != c.time
    requires r in IndexRows(b, i) && s in IndexRows(c, j) && r.tag == s.tag
    ensures r.rest != s.rest
  {
    var x := RestOf(b, i, r);
    var y := RestOf(c, j, s);
    var n, m := ReversedPadded(b.number), ReversedPadded(c.number);
    MomentOrder(b.time, i, c.time, j);
    PadInjectiveReversed(b.number, c.number);
    PadFree(Sub64(MAX_NUMBER, b.number), 9, COLON);
    PadFree(Sub64(MAX_NUMBER, c.number), 9, COLON);
    if r.rest == s.rest {
      match r.tag {
        case BlockNr => SepInjective(n, ReversedIndex(i, MAX_TX_INDEX), m, ReversedIndex(j, MAX_TX_INDEX));
        case Time =>
        case Error =>
        case Contract =>
        case _ => SepInjective(Hex(x), Moment(b.time, i), Hex(y), Moment(c.time, j));
      }
    }
  }

  lemma ForeignIsDisjoint(chain: Key, b: Block, i: nat, w: Write<Cell>, k: Key)
    requires i < |b.txs| && i < MAX_TX_INDEX && w in TxWrites(chain, b, i) && Foreign(chain, k)
    ensures w.key != k
  {
    var target := TxKey(chain, b.txs[i].hash);
    ForeignKeys(chain, [], b.txs[i].hash, k);
    PointerMembers(chain, IndexRows(b, i), target, w);
    if w.key != target {
      var r :| r in IndexRows(b, i) && w == Write(RowKey(chain, r), PointerMutation(target));
      AddrKeyHead(chain, r.addr, Sep(TagName(r.tag), r.rest));
    }
  }

  ghost predicate Unrelated(b: Block, c: Block) {
    b.number != c.number && b.time != c.time &&
    forall i, j :: 0 <= i < |b.txs| && 0 <= j < |c.txs| ==> b.txs[i].hash != c.txs[j].hash
  }

  ghost predicate UnrelatedEvent(chain: Key, b: Block, e: Event) {
    match e
    case IndexBlock(c, before, after) => Unrelated(b, c) && AllForeign(chain, before) && AllForeign(chain, after)
    case DeleteBulk(_) => true
    case OtherWrite(u) => Foreign(chain, u.key)
  }

  /** What unrelated blocks and other indexers do to a transaction row of a block, they only
      do by deleting it. */
  lemma HistoryDisjoint(chain: Key, b: Block, h: seq<Event>, v: Write<Cell>, w: Write<Cell>)
    requires Free(chain, COLON) && Transformable(b) && v in BlockWrites(chain, b, |b.txs|)
    requires forall e: Event :: e in h ==> UnrelatedEvent(chain, b, e)
    requires w in HistoryWrites(chain, h) && w.key == v.key
    ensures w.mut == [DeleteRow]
  {
    HistoryMembers(chain, h, w);
    var e :| e in h && w in EventWrites(chain, e);
    if e.DeleteBulk? {
      var i :| 0 <= i < |EventWrites(chain, e)| && EventWrites(chain, e)[i] == w;
    } else {
      EventDisjoint(chain, b, v, e, w);
    }
  }

  lemma EventDisjoint(chain: Key, b: Block, v: Write<Cell>, e: Event, w: Write<Cell>)
    requires Free(chain, COLON) && Transformable(b) && v in BlockWrites(chain, b, |b.txs|)
    requires w in EventWrites(chain, e) && !e.DeleteBulk? && UnrelatedEvent(chain, b, e)
    ensures v.key != w.key
  {
    BlockWritesMembers(chain, b, |b.txs|, v);
    var i :| 0 <= i < |b.txs| && v in TxWrites(chain, b, i);
    match e {
      case OtherWrite(u) => ForeignIsDisjoint(chain, b, i, v, u.key);
      case IndexBlock(c, before, after) =>
        BulkMembers(chain, c, before, after, w);
        if w in before || w in after {
          ForeignIsDisjoint(chain, b, i, v, w.key);
        } else {
          BlocksDisjoint(chain, b, i, v, c, w);
        }
    }
  }

  lemma BlocksDisjoint(chain: Key, b: Block, i: nat, v: Write<Cell>, c: Block, w: Write<Cell>)
    requires Free(chain, COLON) && Transformable(b) && Transformable(c) && Unrelated(b, c)
    requires i < |b.txs| && v in TxWrites(chain, b, i) && w in BlockWrites(chain, c, |c.txs|)
    ensures v.key != w.key
  {
    BlockWritesMembers(chain, c, |c.txs|, w);
    var j :| 0 <= j < |c.txs| && w in TxWrites(chain, c, j);
    TxWritesDiffer(chain, b, i, c, j, v, w);
  }

  lemma {:induction false} OnlyDeleted(ws: seq<Write<Cell>>, k: Key)
    requires forall w :: w in ws && w.key == k ==> w.mut == [DeleteRow]
    ensures RowFold(map[], ws, k) == map[]
    decreases |ws|
  {
    if ws != [] {
      assert ws[0] in ws;
      ApplyOneOp<Cell>(map[], DeleteRow);
      OnlyDeleted(ws[1..], k);
    }
  }

  /** Blocks with other numbers, times and transactions and the rows of other indexers never
      leave a row with a transaction key of the block behind. So whether the block can be
      taken back from among them depends on the keys of its other transforms alone. */
  lemma UnrelatedShareNothing(chain: Key, b: Block, before: seq<Write<Cell>>, after: seq<Write<Cell>>, h: seq<Event>)
    requires Free(chain, COLON) && Transformable(b)
    requires forall e: Event :: e in h ==> EventWrites(chain, e) == BlockBulk(chain, b, before, after) || UnrelatedEvent(chain, b, e)
    ensures var ws := BlockBulk(chain, b, before, after);
            NothingShared(chain, h, ws) <==>
            forall w :: w in before + after ==> w.key !in FinalRows(chain, Without(chain, h, ws))
  {
    var ws, own := BlockBulk(chain, b, before, after), BlockWrites(chain, b, |b.txs|);
    var rest := Without(chain, h, ws);
    forall v | v in own ensures v.key !in FinalRows(chain, rest) {
      forall w | w in HistoryWrites(chain, rest) && w.key == v.key ensures w.mut == [DeleteRow] {
        HistoryDisjoint(chain, b, rest, v, w);
      }
      OnlyDeleted(HistoryWrites(chain, rest), v.key);
      FinalRow(chain, rest, v.key);
    }
    forall w ensures w in ws <==> w in before + after || w in own {
      BulkMembers(chain, b, before, after, w);
      InEither(before, after, w);
    }
    SharedByKeys(chain, h, ws);
  }

  lemma SharedByKeys(chain: Key, h: seq<Event>, ws: seq<Write<Cell>>)
    ensures NothingShared(chain, h, ws) <==> forall w :: w in ws ==> w.key !in FinalRows(chain, Without(chain, h, ws))
  {
    if NothingShared(chain, h, ws) {
      forall w | w in ws ensures w.key !in FinalRows(chain, Without(chain, h, ws)) {
        var i :| 0 <= i < |ws| && ws[i] == w;
        assert KeysOf(ws)[i] == w.key;
      }
    } else {
      var k :| k in KeysOf(ws) && k in FinalRows(chain, Without(chain, h, ws));
      var i :| 0 <= i < |ws| && KeysOf(ws)[i] == k;
      assert ws[i] in ws;
    }
  }

  // ------------------------------------------------- a transaction in two blocks

  lemma {:induction false} SetStays(row: Row<Cell>, ws: seq<Write<Cell>>, k: Key)
    requires forall w :: w in ws ==> |w.mut| == 1 && w.mut[0].SetCell?
    requires row != map[] || exists w :: w in ws && w.key == k
    ensures RowFold(row, ws, k) != map[]
    decreases |ws|
  {
    if ws != [] {
      assert ws[0] in ws;
      ApplyOneOp(row, ws[0].mut[0]);
      assert ws[0].key == k ==> ws[0].mut[0].column in ApplyOps(row, ws[0].mut);
      SetStays(if ws[0].key == k then ApplyOps(row, ws[0].mut) else row, ws[1..], k);
    }
  }

  lemma BlockOnlySets(chain: Key, c: Block, w: Write<Cell>)
    requires Transformable(c) && w in BlockWrites(chain, c, |c.txs|)
    ensures |w.mut| == 1 && w.mut[0].SetCell?
  {
    BlockWritesMembers(chain, c, |c.txs|, w);
    var i :| 0 <= i < |c.txs| && w in TxWrites(chain, c, i);
    if w != TxWrites(chain, c, i)[0] {
      PointerMembers(chain, IndexRows(c, i), TxKey(chain, c.txs[i].hash), w);
    }
  }

  lemma OwnWrite(chain: Key, c: Block, j: nat)
    requires Transformable(c) && j < |c.txs|
    ensures var own := Write(TxKey(chain, c.txs[j].hash), DataMutation(c, j));
            own in BlockWrites(chain, c, |c.txs|) && own.key in KeysOf(BlockWrites(chain, c, |c.txs|))
  {
    var own, ws := Write(TxKey(chain, c.txs[j].hash), DataMutation(c, j)), BlockWrites(chain, c, |c.txs|);
    assert own in TxWrites(chain, c, j);
    BlockWritesMembers(chain, c, |c.txs|, own);
    var at :| 0 <= at < |ws| && ws[at] == own;
    assert KeysOf(ws)[at] == own.key;
  }

  lemma OneBlock(chain: Key, c: Block)
    requires Transformable(c)
    ensures EventWrites(chain, IndexBlock(c, [], [])) == BlockWrites(chain, c, |c.txs|)
    ensures HistoryWrites(chain, [IndexBlock(c, [], [])]) == BlockWrites(chain, c, |c.txs|)
  {
    var h := [IndexBlock(c, [], [])];
    assert h[..0] == [] && HistoryWrites(chain, []) == [];
    assert [] + BlockWrites(chain, c, |c.txs|) + [] == BlockWrites(chain, c, |c.txs|);
  }

  lemma TxRowStays(chain: Key, c: Block, j: nat)
    requires Transformable(c) && j < |c.txs|
    ensures TxKey(chain, c.txs[j].hash) in FinalRows(chain, [IndexBlock(c, [], [])])
  {
    var ws, k := BlockWrites(chain, c, |c.txs|), TxKey(chain, c.txs[j].hash);
    forall w | w in ws ensures |w.mut| == 1 && w.mut[0].SetCell? { BlockOnlySets(chain, c, w); }
    OwnWrite(chain, c, j);
    SetStays(map[], ws, k);
    OneBlock(chain, c);
    FinalRow(chain, [IndexBlock(c, [], [])], k);
  }

  lemma {:induction false} FirstWrite(chain: Key, b: Block, n: nat)
    requires 0 < n <= |b.txs| && n <= MAX_TX_INDEX
    ensures BlockWrites(chain, b, n) != [] && BlockWrites(chain, b, n)[0].mut == DataMutation(b, 0)
  {
    if n > 1 { FirstWrite(chain, b, n - 1); }
  }

  lemma WithoutFirst(chain: Key, e: Event, f: Event)
    requires EventWrites(chain, e) != EventWrites(chain, f)
    ensures Without(chain, [e, f], EventWrites(chain, e)) == [f]
  {
    var ws := EventWrites(chain, e);
    WithoutAppend(chain, [], ws, e);
    WithoutAppend(chain, [e], ws, f);
    assert [] + [e] == [e] && [e] + [f] == [e, f] && [] + [f] == [f];
  }

  lemma SharedRow(chain: Key, h: seq<Event>, ws: seq<Write<Cell>>, k: Key)
    requires k in KeysOf(ws) && k in FinalRows(chain, Without(chain, h, ws))
    ensures !NothingShared(chain, h, ws) && k !in ApplyAll(FinalRows(chain, h), Deletions(KeysOf(ws)))
  {
    DeletedHistoryRow(chain, h, ws, k);
    FinalRow(chain, h, k);
    ApplyAllRow(FinalRows(chain, h), Deletions(KeysOf(ws)), k);
  }

  lemma BulksDiffer(chain: Key, b: Block, c: Block)
    requires Transformable(b) && Transformable(c) && b.number != c.number && b.txs != [] && c.txs != []
    ensures BlockWrites(chain, b, |b.txs|) != BlockWrites(chain, c, |c.txs|)
  {
    FirstWrite(chain, b, |b.txs|);
    FirstWrite(chain, c, |c.txs|);
  }

  /** When a transaction was included again, at another number, before the old block is taken
      back, the deletion takes the row of the new block with it. */
  lemma SharedTransaction(chain: Key, b: Block, i: nat, c: Block, j: nat)
    requires Transformable(b) && Transformable(c) && b.number != c.number
    requires i < |b.txs| && j < |c.txs| && b.txs[i].hash == c.txs[j].hash
    ensures var h, ws := [IndexBlock(b, [], []), IndexBlock(c, [], [])], BlockWrites(chain, b, |b.txs|);
            var k := TxKey(chain, c.txs[j].hash);
            !NothingShared(chain, h, ws) && k in FinalRows(chain, Without(chain, h, ws)) &&
            k !in ApplyAll(FinalRows(chain, h), Deletions(KeysOf(ws)))
  {
    var e, f := IndexBlock(b, [], []), IndexBlock(c, [], []);
    OneBlock(chain, b);
    OneBlock(chain, c);
    BulksDiffer(chain, b, c);
    WithoutFirst(chain, e, f);
    TxRowStays(chain, c, j);
    OwnWrite(chain, b, i);
    SharedRow(chain, [e, f], BlockWrites(chain, b, |b.txs|), TxKey(chain, b.txs[i].hash));
  }
}
