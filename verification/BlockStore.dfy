/** The store of the indexer: its blocks table, its data table and the record of the keys each
    block wrote; saving, indexing and deleting a block. */
module BlockStore {
  import opened Bytes
  import opened Words
  import opened Extremes
  import opened Decimal
  import opened KeyCodec
  import opened Bigtable
  import opened TxIndex
  import opened AddressHistory
  import opened BlockLifecycle

  const TAG_BLOCKS_ROW: Key := [66, 76, 79, 67, 75]
  const KEYS_COLUMN: Column := Column([98, 108, 111, 99, 107, 115], [107, 101, 121, 115])
  const BLOCKS_FAMILY: Key := [100, 101, 102, 97, 117, 108, 116]
  const BLOCK_COLUMN: Key := [100, 97, 116, 97]

  // ---------------------------------------------------------------------- its row keys

  function RecordKey(chain: Key, number: u64, hash: Key): Key {
    Sep(chain, Sep(TAG_BLOCKS_ROW, Sep(ReversedPadded(number), Hex(hash))))
  }

  function BlocksRow(chain: Key, number: u64): Key {
    Sep(chain, ReversedPadded(number))
  }

  /** "<chain>:<number>" */
  ghost function BlockRowText(chain: Key, number: u64): Key {
    Join([chain, ReversedPadded(number)], COLON)
  }

  /** "<chain>:BLOCK:<number>:<hash>" */
  ghost function RecordText(chain: Key, number: u64, hash: Key): Key {
    Join([chain, Text("BLOCK"), ReversedPadded(number), Hex(hash)], COLON)
  }

  lemma KeysAreTexts(chain: Key, number: u64, hash: Key)
    ensures BlocksRow(chain, number) == BlockRowText(chain, number)
    ensures RecordKey(chain, number, hash) == RecordText(chain, number, hash)
  {
    var n, h := ReversedPadded(number), Hex(hash);
    assert TAG_BLOCKS_ROW == Text("BLOCK");
    JoinCons(chain, [n]);
    JoinCons(n, [h]);
    JoinCons(TAG_BLOCKS_ROW, [n, h]);
    JoinCons(chain, [TAG_BLOCKS_ROW, n, h]);
    assert [chain] + [n] == [chain, n] && [n] + [h] == [n, h];
    assert [TAG_BLOCKS_ROW] + [n, h] == [TAG_BLOCKS_ROW, n, h];
    assert [chain] + [TAG_BLOCKS_ROW, n, h] == [chain, TAG_BLOCKS_ROW, n, h];
  }

  lemma ColumnsAreTexts()
    ensures KEYS_COLUMN == Column(Text("blocks"), Text("keys"))
    ensures BLOCKS_FAMILY == Text("default") && BLOCK_COLUMN == Text("data")
  {}

  /** The number a reader parses from a row of the blocks table is the block's. */
  lemma BlockRowParses(chain: Key, number: u64)
    requires Free(chain, COLON)
    ensures var parts := Split(BlockRowText(chain, number), COLON);
            |parts| == 2 && parts[0] == chain && ParseUint(parts[1]).Some? &&
            Sub64(1_000_000_000, ParseUint(parts[1]).value) == number
  {
    PadFree(Sub64(MAX_NUMBER, number), 9, COLON);
    SplitJoin([chain, ReversedPadded(number)], COLON);
    ReversedPaddedRoundTrip(number);
  }

  /** Blocks of different numbers have different rows, blocks of different numbers or hashes
      different records. */
  lemma KeysDiffer(chain: Key, m: u64, g: Key, n: u64, h: Key)
    ensures BlockRowText(chain, m) == BlockRowText(chain, n) ==> m == n
    ensures RecordText(chain, m, g) == RecordText(chain, n, h) ==> m == n && g == h
  {
    KeysAreTexts(chain, m, g);
    KeysAreTexts(chain, n, h);
    PadInjectiveReversed(m, n);
    if BlockRowText(chain, m) == BlockRowText(chain, n) { SamePrefix(chain + [COLON], ReversedPadded(m), ReversedPadded(n)); }
    if RecordText(chain, m, g) == RecordText(chain, n, h) {
      var p := chain + [COLON] + TAG_BLOCKS_ROW + [COLON];
      assert RecordKey(chain, m, g) == p + Sep(ReversedPadded(m), Hex(g));
      assert RecordKey(chain, n, h) == p + Sep(ReversedPadded(n), Hex(h));
      SamePrefix(p, Sep(ReversedPadded(m), Hex(g)), Sep(ReversedPadded(n), Hex(h)));
      PadFree(Sub64(MAX_NUMBER, m), 9, COLON);
      PadFree(Sub64(MAX_NUMBER, n), 9, COLON);
      SepInjective(ReversedPadded(m), Hex(g), ReversedPadded(n), Hex(h));
      HexInjective(g, h);
    }
  }

  lemma SamePrefix(p: Key, a: Key, b: Key)
    requires p + a == p + b
    ensures a == b
  {
    assert a == (p + a)[|p|..] && b == (p + b)[|p|..];
  }

  // ------------------------------------------------------------------- the blocks table

  /** The table holds exactly these blocks, each in the row of its number. */
  ghost predicate HoldsBlocks(rows: Rows<Cell>, chain: Key, saved: map<u64, Block>) {
    (forall n: u64 :: n in saved ==> HoldsBlock(rows, BlockRowText(chain, n), saved[n])) &&
    forall k :: k in rows ==> IsRowOfSaved(chain, saved, k)
  }

  ghost predicate IsRowOfSaved(chain: Key, saved: map<u64, Block>, k: Key) {
    exists n: u64 :: n in saved && k == BlockRowText(chain, n)
  }

  ghost predicate HoldsBlock(rows: Rows<Cell>, k: Key, b: Block) {
    k in rows && rows[k] == map[Column(Text("default"), Text("data")) := map[0 := Encoded(b)]]
  }

  lemma RowOfBlock(rows: Rows<Cell>, chain: Key, saved: map<u64, Block>, number: u64)
    requires HoldsBlocks(rows, chain, saved)
    ensures RowAt(rows, BlockRowText(chain, number)) ==
            if number in saved then map[Column(Text("default"), Text("data")) := map[0 := Encoded(saved[number])]] else map[]
  {
    if number !in saved && BlockRowText(chain, number) in rows {
      var n: u64 :| n in saved && BlockRowText(chain, number) == BlockRowText(chain, n);
      KeysDiffer(chain, number, [], n, []);
    }
  }

  lemma BlockWritten(rows: Rows<Cell>, chain: Key, saved: map<u64, Block>, b: Block, rows': Rows<Cell>)
    requires HoldsBlocks(rows, chain, saved)
    requires HoldsBlock(rows', BlockRowText(chain, b.number), b)
    requires forall j :: j != BlockRowText(chain, b.number) ==> (j in rows' <==> j in rows) && (j in rows ==> rows'[j] == rows[j])
    ensures HoldsBlocks(rows', chain, saved[b.number := b])
  {
    var k := BlockRowText(chain, b.number);
    forall n: u64 | n in saved && n != b.number ensures HoldsBlock(rows', BlockRowText(chain, n), saved[n]) {
      KeysDiffer(chain, n, [], b.number, []);
      assert HoldsBlock(rows, BlockRowText(chain, n), saved[n]);
    }
    forall j | j in rows' && j != k ensures IsRowOfSaved(chain, saved[b.number := b], j) {
      assert IsRowOfSaved(chain, saved, j);
      var n: u64 :| n in saved && j == BlockRowText(chain, n);
      assert n in saved[b.number := b];
    }
  }

  lemma BlockSaved(rows: Rows<Cell>, chain: Key, saved: map<u64, Block>, b: Block)
    requires HoldsBlocks(rows, chain, saved)
    ensures HoldsBlocks(ApplyWrite(rows, Write(BlocksRow(chain, b.number), [SetCell(Column(BLOCKS_FAMILY, BLOCK_COLUMN), 0, Encoded(b))])),
                        chain, saved[b.number := b])
  {
    var k, c := BlockRowText(chain, b.number), Column(BLOCKS_FAMILY, BLOCK_COLUMN);
    KeysAreTexts(chain, b.number, []);
    ColumnsAreTexts();
    RowOfBlock(rows, chain, saved, b.number);
    ApplyOneOp(RowAt(rows, k), SetCell(c, 0, Encoded(b)));
    SetOnlyCell(RowAt(rows, k), c, Encoded(b));
    assert c in map[c := map[0 := Encoded(b)]];
    BlockWritten(rows, chain, saved, b, ApplyWrite(rows, Write(k, [SetCell(c, 0, Encoded(b))])));
  }

  /** row[DEFAULT_FAMILY_BLOCKS][0].Value, when it is a block. */
  function BlockIn(row: Row<Cell>): Option<Block> {
    var c := Column(BLOCKS_FAMILY, BLOCK_COLUMN);
    if c in row && row[c] != map[] then
      match row[c][MaxOf(row[c].Keys)]
      case Encoded(b) => Some(b)
      case _ => None
    else None
  }

  lemma BlockReadBack(rows: Rows<Cell>, chain: Key, saved: map<u64, Block>, number: u64)
    requires HoldsBlocks(rows, chain, saved)
    ensures BlockIn(RowAt(rows, BlocksRow(chain, number))) == if number in saved then Some(saved[number]) else None
  {
    KeysAreTexts(chain, number, []);
    ColumnsAreTexts();
    RowOfBlock(rows, chain, saved, number);
    if number in saved {
      var c := Column(BLOCKS_FAMILY, BLOCK_COLUMN);
      var row: Row<Cell> := map[c := map[0 := Encoded(saved[number])]];
      assert c in row && row[c].Keys == {0};
    }
  }

  lemma SetOnlyCell(row: Row<Cell>, c: Column, v: Cell)
    requires row == map[] || exists u :: row == map[c := map[0 := u]]
    ensures ApplyOp(row, SetCell(c, 0, v)) == map[c := map[0 := v]]
  {
    var inner := (if c in row then row[c] else map[])[0 := v];
    assert inner == map[0 := v];
    assert row[c := inner] == map[c := inner];
  }

  lemma BlockGone(rows: Rows<Cell>, chain: Key, saved: map<u64, Block>, number: u64)
    requires HoldsBlocks(rows, chain, saved)
    ensures HoldsBlocks(rows - {BlockRowText(chain, number)}, chain, saved - {number})
  {
    var k := BlockRowText(chain, number);
    var rest := rows - {k};
    forall n: u64 | n in saved && n != number ensures HoldsBlock(rest, BlockRowText(chain, n), saved[n]) {
      KeysDiffer(chain, n, [], number, []);
      assert HoldsBlock(rows, BlockRowText(chain, n), saved[n]);
    }
    forall j | j in rest ensures IsRowOfSaved(chain, saved - {number}, j) {
      assert IsRowOfSaved(chain, saved, j);
      var n: u64 :| n in saved && j == BlockRowText(chain, n);
      assert n in saved - {number};
    }
  }

  // -------------------------------------------------------------------------- the store

  /** The writes of several transforms in order. */
  function WritesOf(bulks: seq<Bulk>): seq<Write<Cell>>
    requires forall i :: 0 <= i < |bulks| ==> |bulks[i].keys| == |bulks[i].muts|
  {
    if bulks == [] then []
    else WritesOf(bulks[..|bulks| - 1]) + Zip(bulks[|bulks| - 1].keys, bulks[|bulks| - 1].muts)
  }

  lemma ZipConcat(keys: seq<Key>, muts: seq<Mutation<Cell>>, keys': seq<Key>, muts': seq<Mutation<Cell>>)
    requires |keys| == |muts| && |keys'| == |muts'|
    ensures Zip(keys + keys', muts + muts') == Zip(keys, muts) + Zip(keys', muts')
  {}

  lemma {:induction false} WritesOfConcat(a: seq<Bulk>, b: seq<Bulk>)
    requires forall i :: 0 <= i < |a| ==> |a[i].keys| == |a[i].muts|
    requires forall i :: 0 <= i < |b| ==> |b[i].keys| == |b[i].muts|
    ensures WritesOf(a + b) == WritesOf(a) + WritesOf(b)
    decreases |b|
  {
    if b == [] {
      assert a + b == a;
    } else {
      var front, last := b[..|b| - 1], b[|b| - 1];
      assert (a + b)[..|a + b| - 1] == a + front && (a + b)[|a + b| - 1] == last;
      WritesOfConcat(a, front);
      Regrouped(WritesOf(a), WritesOf(front), Zip(last.keys, last.muts));
    }
  }

  lemma Regrouped(a: seq<Write<Cell>>, b: seq<Write<Cell>>, c: seq<Write<Cell>>)
    ensures (a + b) + c == a + (b + c)
  {}

  lemma BulksInOrder(earlier: seq<Bulk>, own: Bulk, later: seq<Bulk>)
    requires forall x :: x in earlier + later ==> |x.keys| == |x.muts|
    requires |own.keys| == |own.muts|
    ensures forall i :: 0 <= i < |earlier + [own] + later| ==>
                          |(earlier + [own] + later)[i].keys| == |(earlier + [own] + later)[i].muts|
    ensures forall i :: 0 <= i < |earlier| ==> |earlier[i].keys| == |earlier[i].muts|
    ensures forall i :: 0 <= i < |later| ==> |later[i].keys| == |later[i].muts|
    ensures WritesOf(earlier + [own] + later) == WritesOf(earlier) + Zip(own.keys, own.muts) + WritesOf(later)
  {
    assert forall i :: 0 <= i < |earlier| ==> earlier[i] in earlier + later;
    assert forall i :: 0 <= i < |later| ==> later[i] in earlier + later;
    WritesOfConcat(earlier, [own]);
    WritesOfConcat(earlier + [own], later);
  }

  /** A transform's writes, from a place on. */
  ghost predicate LiesAt(ws: seq<Write<Cell>>, start: nat, x: Bulk) {
    |x.keys| == |x.muts| && start + |x.keys| <= |ws| &&
    forall j :: 0 <= j < |x.keys| ==> ws[start + j] == Write(x.keys[j], x.muts[j])
  }

  /** These writes are those of the transforms, one after the other, with nothing between. */
  ghost predicate LaidOut(ws: seq<Write<Cell>>, bulks: seq<Bulk>, starts: seq<nat>) {
    |starts| == |bulks| + 1 && starts[0] == 0 && starts[|bulks|] == |ws| &&
    forall i :: 0 <= i < |bulks| ==> LiesAt(ws, starts[i], bulks[i]) && starts[i + 1] == starts[i] + |bulks[i].keys|
  }

  lemma {:induction false} WritesLaidOut(bulks: seq<Bulk>) returns (starts: seq<nat>)
    requires forall i :: 0 <= i < |bulks| ==> |bulks[i].keys| == |bulks[i].muts|
    ensures LaidOut(WritesOf(bulks), bulks, starts)
    decreases |bulks|
  {
    if bulks == [] {
      starts := [0];
    } else {
      var n := |bulks| - 1;
      var before := WritesLaidOut(bulks[..n]);
      OneMoreLaidOut(WritesOf(bulks[..n]), bulks[..n], before, bulks[n]);
      starts := before + [|WritesOf(bulks[..n])| + |bulks[n].keys|];
      assert bulks[..n] + [bulks[n]] == bulks;
    }
  }

  lemma OneMoreLaidOut(ws: seq<Write<Cell>>, bulks: seq<Bulk>, starts: seq<nat>, x: Bulk)
    requires LaidOut(ws, bulks, starts) && |x.keys| == |x.muts|
    ensures LaidOut(ws + Zip(x.keys, x.muts), bulks + [x], starts + [|ws| + |x.keys|])
  {
    var all, later := bulks + [x], starts + [|ws| + |x.keys|];
    var longer := ws + Zip(x.keys, x.muts);
    assert LiesAt(longer, |ws|, x);
    forall i | 0 <= i < |bulks| ensures LiesAt(longer, later[i], all[i]) && later[i + 1] == later[i] + |all[i].keys| {
      assert LiesAt(ws, starts[i], bulks[i]);
      LiesInLonger(ws, longer, starts[i], bulks[i]);
    }
  }

  lemma LiesInLonger(ws: seq<Write<Cell>>, longer: seq<Write<Cell>>, start: nat, x: Bulk)
    requires LiesAt(ws, start, x) && ws <= longer
    ensures LiesAt(longer, start, x)
  {
    forall j | 0 <= j < |x.keys| ensures longer[start + j] == Write(x.keys[j], x.muts[j]) {
      assert ws[start + j] == Write(x.keys[j], x.muts[j]);
    }
  }

  /** The rows written for a block: those of the earlier transforms, of TransformTx, which say
      everything about its transactions, and of the later transforms, all in order. */
  lemma BlockBulkLaidOut(chain: Key, b: Block, earlier: seq<Bulk>, own: Bulk, later: seq<Bulk>) returns (starts: seq<nat>)
    requires Transformable(b) && forall x :: x in earlier + later ==> |x.keys| == |x.muts|
    requires |own.keys| == |own.muts| && Zip(own.keys, own.muts) == BlockWrites(chain, b, |b.txs|)
    ensures SaysAll(chain, b, own)
    ensures (forall i :: 0 <= i < |earlier| ==> |earlier[i].keys| == |earlier[i].muts|) &&
            (forall i :: 0 <= i < |later| ==> |later[i].keys| == |later[i].muts|) &&
            LaidOut(BlockBulk(chain, b, WritesOf(earlier), WritesOf(later)), earlier + [own] + later, starts)
  {
    BlockWritesSay(chain, b, |b.txs|);
    BulksInOrder(earlier, own, later);
    starts := WritesLaidOut(earlier + [own] + later);
  }

  class Store {
    const chainId: Key
    const tableData: Table<Cell>
    const tableBlocks: Table<Cell>
    const tableMetadataUpdates: Table<Cell>

    ghost predicate Valid()
      reads this, tableData, tableBlocks, tableMetadataUpdates
    {
      tableData != tableBlocks && tableData != tableMetadataUpdates && tableBlocks != tableMetadataUpdates &&
      tableData.Valid() && tableBlocks.Valid() && tableMetadataUpdates.Valid()
    }

    /** The string recorded for a block, if any. */
    ghost function Record(number: u64, hash: Key): Option<Key>
      reads this, tableMetadataUpdates
    {
      var row := RowAt(tableMetadataUpdates.rows, RecordText(chainId, number, hash));
      var c := Column(Text("blocks"), Text("keys"));
      if c in row && row[c] != map[] then
        match row[c][MaxOf(row[c].Keys)]
        case Bytes(s) => Some(s)
        case _ => None
      else None
    }

    constructor (chain: Key)
      ensures Valid() && chainId == chain
      ensures fresh(tableData) && fresh(tableBlocks) && fresh(tableMetadataUpdates)
      ensures tableData.rows == map[] && tableBlocks.rows == map[] && tableMetadataUpdates.rows == map[]
    {
      chainId := chain;
      tableData := new Table<Cell>();
      tableBlocks := new Table<Cell>();
      tableMetadataUpdates := new Table<Cell>();
    }

    /** A record is always written at timestamp zero, so a later record replaces it. */
    ghost predicate RecordedAtZero(number: u64, hash: Key)
      reads this, tableMetadataUpdates
    {
      var row := RowAt(tableMetadataUpdates.rows, RecordText(chainId, number, hash));
      var c := Column(Text("blocks"), Text("keys"));
      c in row ==> row[c].Keys <= {0}
    }

    method SaveBlockKeys(blockNumber: u64, blockHash: Key, keys: Key, applyFails: bool) returns (ok: bool)
      requires Valid()
      modifies tableMetadataUpdates
      ensures Valid() && ok == !applyFails
      ensures tableMetadataUpdates.rows ==
              if ok then
                ApplyWrite(old(tableMetadataUpdates.rows),
                           Write(RecordText(chainId, blockNumber, blockHash),
                                 [SetCell(Column(Text("blocks"), Text("keys")), 0, Bytes(keys))]))
              else old(tableMetadataUpdates.rows)
      ensures ok && old(RecordedAtZero(blockNumber, blockHash)) ==>
                RecordedAtZero(blockNumber, blockHash) && Record(blockNumber, blockHash) == Some(keys)
      ensures forall n: u64, h: Key :: n != blockNumber || h != blockHash ==> Record(n, h) == old(Record(n, h))
    {
      KeysAreTexts(chainId, blockNumber, blockHash);
      ColumnsAreTexts();
      forall n: u64, h: Key | n != blockNumber || h != blockHash
        ensures RecordText(chainId, n, h) != RecordText(chainId, blockNumber, blockHash)
      {
        KeysDiffer(chainId, n, h, blockNumber, blockHash);
      }
      if applyFails {
        return false;
      }
      ok := true;
      var k := RecordKey(chainId, blockNumber, blockHash);
      ghost var row := RowAt(tableMetadataUpdates.rows, k);
      tableMetadataUpdates.Apply(k, [SetCell(KEYS_COLUMN, 0, Bytes(keys))]);
      ApplyOneOp(row, SetCell(KEYS_COLUMN, 0, Bytes(keys)));
      ghost var now := ApplyOp(row, SetCell(KEYS_COLUMN, 0, Bytes(keys)));
      assert KEYS_COLUMN in now;
      assert RowAt(tableMetadataUpdates.rows, k) == now;
      assert 0 in now[KEYS_COLUMN];
    }

    method GetBlockKeys(blockNumber: u64, blockHash: Key) returns (keys: Option<seq<Key>>)
      requires Valid()
      ensures keys == match Record(blockNumber, blockHash)
                      case Some(s) => Some(Split(s, COMMA))
                      case None => None
    {
      KeysAreTexts(chainId, blockNumber, blockHash);
      ColumnsAreTexts();
      var row := RowAt(tableMetadataUpdates.rows, RecordKey(chainId, blockNumber, blockHash));
      if KEYS_COLUMN !in row || row[KEYS_COLUMN] == map[] {
        return None;
      }
      match row[KEYS_COLUMN][MaxOf(row[KEYS_COLUMN].Keys)] {
        case Bytes(s) => keys := Some(Split(s, COMMA));
        case _ => keys := None;
      }
    }

    /** SaveBlock. */
    method SaveBlock(blk: Block, applyFails: bool) returns (ok: bool)
      requires Valid()
      modifies tableBlocks
      ensures Valid() && ok == !applyFails && (!ok ==> tableBlocks.rows == old(tableBlocks.rows))
      ensures ok ==> forall saved: map<u64, Block> :: old(HoldsBlocks(tableBlocks.rows, chainId, saved)) ==>
                HoldsBlocks(tableBlocks.rows, chainId, saved[blk.number := blk])
    {
      if applyFails {
        return false;
      }
      forall saved: map<u64, Block> | HoldsBlocks(tableBlocks.rows, chainId, saved)
        ensures HoldsBlocks(ApplyWrite(tableBlocks.rows, Write(BlocksRow(chainId, blk.number),
                                                               [SetCell(Column(BLOCKS_FAMILY, BLOCK_COLUMN), 0, Encoded(blk))])),
                            chainId, saved[blk.number := blk])
      {
        BlockSaved(tableBlocks.rows, chainId, saved, blk);
      }
      tableBlocks.Apply(BlocksRow(chainId, blk.number), [SetCell(Column(BLOCKS_FAMILY, BLOCK_COLUMN), 0, Encoded(blk))]);
      ok := true;
    }

    /** GetBlockFromBlocksTable. */
    method GetBlockFromBlocksTable(number: u64) returns (blk: Option<Block>)
      requires Valid()
      ensures forall saved: map<u64, Block> :: HoldsBlocks(tableBlocks.rows, chainId, saved) ==>
                blk == if number in saved then Some(saved[number]) else None
    {
      blk := BlockIn(RowAt(tableBlocks.rows, BlocksRow(chainId, number)));
      forall saved: map<u64, Block> | HoldsBlocks(tableBlocks.rows, chainId, saved)
        ensures blk == if number in saved then Some(saved[number]) else None
      {
        BlockReadBack(tableBlocks.rows, chainId, saved, number);
      }
    }

    /** The loop over the transforms: their keys and mutations one after the other. */
    static method JoinBulks(bulks: seq<Bulk>) returns (all: Bulk)
      requires forall i :: 0 <= i < |bulks| ==> |bulks[i].keys| == |bulks[i].muts|
      ensures |all.keys| == |all.muts| && Zip(all.keys, all.muts) == WritesOf(bulks)
    {
      var keys, muts := [], [];
      for i := 0 to |bulks|
        invariant |keys| == |muts| && Zip(keys, muts) == WritesOf(bulks[..i])
      {
        assert bulks[..i + 1][..i] == bulks[..i];
        ZipConcat(keys, muts, bulks[i].keys, bulks[i].muts);
        keys, muts := keys + bulks[i].keys, muts + bulks[i].muts;
      }
      assert bulks[..|bulks|] == bulks;
      all := Bulk(keys, muts);
    }

    /** One block of IndexFromBigtable: transform it, record the keys of all transforms, write
        their rows. The bulks of the transforms before and behind TransformTx are given. */
    method IndexOneBlock(blk: Block, earlier: seq<Bulk>, later: seq<Bulk>, recordFails: bool, outcome: nat -> BatchOutcome)
      returns (ok: bool)
      requires Valid()
      requires forall x :: x in earlier + later ==> |x.keys| == |x.muts|
      modifies tableData, tableMetadataUpdates
      ensures Valid()
      ensures !Transformable(blk) ==>
                !ok && tableData.rows == old(tableData.rows) && tableMetadataUpdates.rows == old(tableMetadataUpdates.rows)
      ensures Transformable(blk) ==>
                var ws := BlockBulk(chainId, blk, WritesOf(earlier), WritesOf(later));
                if ws == [] || recordFails then
                  ok == (ws == []) && tableData.rows == old(tableData.rows) &&
                  tableMetadataUpdates.rows == old(tableMetadataUpdates.rows)
                else
                  ok == !BulkReportsError(|ws|, outcome) &&
                  tableData.rows == ApplyAll(old(tableData.rows), BulkWrites(ws, outcome)) &&
                  (old(RecordedAtZero(blk.number, blk.hash)) ==>
                     Record(blk.number, blk.hash) == Some(Join(KeysOf(ws), COMMA)))
    {
      var r := TransformTx(chainId, blk);
      if r.Err? {
        return false;
      }
      BulksInOrder(earlier, r.value, later);
      var bulk := JoinBulks(earlier + [r.value] + later);
      ghost var ws := BlockBulk(chainId, blk, WritesOf(earlier), WritesOf(later));
      assert Zip(bulk.keys, bulk.muts) == ws;
      assert bulk.keys == KeysOf(Zip(bulk.keys, bulk.muts));
      if |bulk.keys| > 0 {
        ok := SaveBlockKeys(blk.number, blk.hash, Join(bulk.keys, COMMA), recordFails);
        if !ok {
          return;
        }
        ok := tableData.WriteBulk(bulk.keys, bulk.muts, outcome);
      } else {
        ok := true;
      }
    }

    /** DeleteBlock: delete every recorded data row, then the row of the blocks table. */
    method DeleteBlock(blockNumber: u64, blockHash: Key, onData: nat -> BatchOutcome, onBlocks: nat -> BatchOutcome)
      returns (ok: bool)
      requires Valid()
      modifies tableData, tableBlocks
      ensures Valid()
      ensures Record(blockNumber, blockHash) == old(Record(blockNumber, blockHash))
      ensures Record(blockNumber, blockHash).None? ==>
                !ok && tableData.rows == old(tableData.rows) && tableBlocks.rows == old(tableBlocks.rows)
      ensures Record(blockNumber, blockHash).Some? ==>
                var dels := Deletions(Split(Record(blockNumber, blockHash).value, COMMA));
                tableData.rows == ApplyAll(old(tableData.rows), BulkWrites(dels, onData)) &&
                (BulkReportsError(|dels|, onData) ==> !ok && tableBlocks.rows == old(tableBlocks.rows)) &&
                (!BulkReportsError(|dels|, onData) ==>
                   ok == !BulkReportsError(1, onBlocks) &&
                   tableBlocks.rows ==
                   ApplyAll(old(tableBlocks.rows), BulkWrites(Deletions([BlockRowText(chainId, blockNumber)]), onBlocks)))
    {
      KeysAreTexts(chainId, blockNumber, blockHash);
      var recorded := GetBlockKeys(blockNumber, blockHash);
      if recorded.None? {
        return false;
      }
      var keys := recorded.value;
      var dels, muts := [], [];
      for i := 0 to |keys|
        invariant dels == keys[..i] && |muts| == i
        invariant forall j :: 0 <= j < i ==> muts[j] == [DeleteRow]
      {
        dels, muts := dels + [keys[i]], muts + [[DeleteRow]];
      }
      assert Zip(dels, muts) == Deletions(keys);
      ok := tableData.WriteBulk(dels, muts, onData);
      if !ok {
        return;
      }
      var row := BlocksRow(chainId, blockNumber);
      assert Zip([row], [[DeleteRow]]) == Deletions([row]);
      ok := tableBlocks.WriteBulk([row], [[DeleteRow]], onBlocks);
    }
  }

  /** No call failed and no entry was lost. */
  ghost predicate AllApplied(outcome: nat -> BatchOutcome, n: nat) {
    FirstBad(outcome, 0, n) == Batches(n)
  }

  lemma BlocksRowGone(rows: Rows<Cell>, k: Key, outcome: nat -> BatchOutcome)
    requires AllApplied(outcome, 1)
    ensures ApplyAll(rows, BulkWrites(Deletions([k]), outcome)) == rows - {k}
  {
    var dels := Deletions([k]);
    SilentLossExact(dels, outcome);
    assert dels == [Write(k, [DeleteRow])];
    ApplyOne(rows, dels[0]);
    ApplyOneOp(RowAt(rows, k), DeleteRow);
  }

  /** A reorganisation: deleting a block through its record, when every apply succeeds, is one
      more deletion in the history of the data table. It gives the table that the rest of the
      history alone would have produced, if and only if nothing else left a row with one of
      the recorded keys, and it removes the block's own row. */
  method TakeBack(s: Store, number: u64, hash: Key, onData: nat -> BatchOutcome, onBlocks: nat -> BatchOutcome,
                  ghost h: seq<Event>, ghost ws: seq<Write<Cell>>)
    returns (ok: bool)
    requires s.Valid() && ws != [] && CommaFreeKeys(ws)
    requires s.Record(number, hash) == Some(Join(KeysOf(ws), COMMA))
    requires s.tableData.rows == FinalRows(s.chainId, h)
    requires AllApplied(onData, |ws|) && AllApplied(onBlocks, 1)
    modifies s.tableData, s.tableBlocks
    ensures ok && s.Valid()
    ensures s.tableData.rows == FinalRows(s.chainId, h + [DeleteBulk(ws)])
    ensures s.tableData.rows == FinalRows(s.chainId, Without(s.chainId, h, ws)) <==> NothingShared(s.chainId, h, ws)
    ensures s.tableBlocks.rows == old(s.tableBlocks.rows) - {BlockRowText(s.chainId, number)}
    ensures forall saved: map<u64, Block> :: old(HoldsBlocks(s.tableBlocks.rows, s.chainId, saved)) ==>
              HoldsBlocks(s.tableBlocks.rows, s.chainId, saved - {number})
  {
    ghost var chain := s.chainId;
    RecordedBlockUndone(chain, h, ws);
    RecordRoundTrip(ws);
    FinalRowsStep(chain, h, DeleteBulk(ws));
    SilentLossExact(Deletions(KeysOf(ws)), onData);
    BlocksRowGone(s.tableBlocks.rows, BlockRowText(chain, number), onBlocks);
    forall saved: map<u64, Block> | HoldsBlocks(s.tableBlocks.rows, chain, saved)
      ensures HoldsBlocks(s.tableBlocks.rows - {BlockRowText(chain, number)}, chain, saved - {number})
    {
      BlockGone(s.tableBlocks.rows, chain, saved, number);
    }
    ok := s.DeleteBlock(number, hash, onData, onBlocks);
  }
}
