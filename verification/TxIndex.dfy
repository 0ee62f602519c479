/** Transactions exploded into a data row and secondary index rows: what TransformTx writes. */
module TxIndex {
  import opened Bytes
  import opened Words
  import opened Decimal
  import opened KeyCodec
  import opened Bigtable

  const TAG_I: Key := [73]
  const TAG_TX: Key := [84, 88]
  const TAG_TIME: Key := [84, 73, 77, 69]
  const TAG_TO: Key := [84, 79]
  const TAG_FROM: Key := [70, 82, 79, 77]
  const TAG_BLOCK: Key := [66, 76, 79, 67, 75]
  const TAG_METHOD: Key := [77, 69, 84, 72, 79, 68]
  const TAG_ERROR: Key := [69, 82, 82, 79, 82]
  const TAG_CONTRACT: Key := [67, 79, 78, 84, 82, 65, 67, 84]

  const FAMILY: Key := [102]
  const DATA_COLUMN: Key := [100]

  function ZeroAddress(): Key { seq(20, i => 0) }

  type seconds = x: int | 0 <= x <= 9_223_372_036_854_775_807

  datatype Tx = Tx(
    hash: Key, from: Key, to: Key, contractAddress: Key, data: Key, value: Key,
    gasPrice: Key, gasUsed: seconds, internalTxs: nat, errorMsg: Key)

  datatype Block = Block(number: u64, hash: Key, time: seconds, txs: seq<Tx>)

  datatype IndexedTx = IndexedTx(
    hash: Key, blockNumber: u64, time: seconds, methodId: Key, from: Key, to: Key, value: Key,
    txFee: nat, gasPrice: Key, isContractCreation: bool, invokesContract: bool, errorMsg: Key)

  datatype Cell = Nothing | Indexed(tx: IndexedTx) | Bytes(bytes: Key) | Encoded(block: Block)

  datatype TransformError = TooManyTransactions | BadHashLength
  datatype Result<+T> = Ok(value: T) | Err(error: TransformError)
  datatype Bulk = Bulk(keys: seq<Key>, muts: seq<Mutation<Cell>>)

  // ------------------------------------------------------------ one transaction

  function BigEndian(s: Key): nat {
    if s == [] then 0 else 256 * BigEndian(s[..|s| - 1]) + s[|s| - 1]
  }

  /** A contract creation is filed under the address of the new contract. */
  function EffectiveTo(tx: Tx): Key {
    if tx.contractAddress != ZeroAddress() then tx.contractAddress else tx.to
  }

  function MethodId(tx: Tx): Key {
    if |tx.data| > 3 then tx.data[..4] else []
  }

  function IndexedOf(b: Block, i: nat): IndexedTx
    requires i < |b.txs|
  {
    var tx := b.txs[i];
    IndexedTx(tx.hash, b.number, b.time, MethodId(tx), tx.from, EffectiveTo(tx), tx.value,
              BigEndian(tx.gasPrice) * tx.gasUsed, tx.gasPrice,
              tx.contractAddress != ZeroAddress(),
              tx.internalTxs > 0 || tx.gasUsed > 21000 || tx.errorMsg != [],
              tx.errorMsg)
  }

  function TxKey(chain: Key, hash: Key): Key {
    Sep(chain, Sep(TAG_TX, Hex(hash)))
  }

  function AddrKey(chain: Key, addr: Key, rest: Key): Key {
    Sep(chain, Sep(TAG_I, Sep(TAG_TX, Sep(Hex(addr), rest))))
  }

  function Moment(time: seconds, i: nat): Key
    requires i < MAX_TX_INDEX
  {
    Sep(ReversedTimestamp(time), ReversedIndex(i, MAX_TX_INDEX))
  }

  function TimeKey(chain: Key, addr: Key, time: seconds, i: nat): Key
    requires i < MAX_TX_INDEX
  {
    AddrKey(chain, addr, Sep(TAG_TIME, Moment(time, i)))
  }

  datatype Tag = To | From | Time | BlockNr | Method | Error | Contract

  function TagName(tag: Tag): Key {
    match tag
    case To => TAG_TO
    case From => TAG_FROM
    case Time => TAG_TIME
    case BlockNr => TAG_BLOCK
    case Method => TAG_METHOD
    case Error => TAG_ERROR
    case Contract => TAG_CONTRACT
  }

  /** One secondary index row: the address it is filed under, its kind, the rest of its key. */
  datatype IndexRow = IndexRow(addr: Key, tag: Tag, rest: Key)

  function RowKey(chain: Key, r: IndexRow): Key {
    AddrKey(chain, r.addr, Sep(TagName(r.tag), r.rest))
  }

  /** The index rows of the transaction at position i of a block. */
  function IndexRows(b: Block, i: nat): seq<IndexRow>
    requires i < |b.txs| && i < MAX_TX_INDEX
  {
    var tx := b.txs[i];
    RowsFor(tx.from, EffectiveTo(tx), Hex(MethodId(tx)), tx.errorMsg != [],
            tx.contractAddress != ZeroAddress(), Moment(b.time, i),
            Sep(ReversedPadded(b.number), ReversedIndex(i, MAX_TX_INDEX)))
  }

  function RowsFor(from: Key, to: Key, method_: Key, failed: bool, creation: bool, at: Key, nr: Key): seq<IndexRow> {
    RowsOfSide(from, To, to, method_, at, nr) + RowsOfSide(to, From, from, method_, at, nr)
    + (if failed then [IndexRow(from, Error, at), IndexRow(to, Error, at)] else [])
    + (if creation then [IndexRow(from, Contract, at), IndexRow(to, Contract, at)] else [])
  }

  /** The rows of one side of a transaction, filed under its address. */
  function RowsOfSide(mine: Key, direction: Tag, other: Key, method_: Key, at: Key, nr: Key): seq<IndexRow> {
    [ IndexRow(mine, direction, Sep(Hex(other), at)),
      IndexRow(mine, Time, at),
      IndexRow(mine, BlockNr, nr),
      IndexRow(mine, Method, Sep(method_, at)) ]
  }

  function IndexKeys(chain: Key, rows: seq<IndexRow>): seq<Key> {
    seq(|rows|, j requires 0 <= j < |rows| => RowKey(chain, rows[j]))
  }

  function DataMutation(b: Block, i: nat): Mutation<Cell>
    requires i < |b.txs|
  {
    [SetCell(Column(FAMILY, DATA_COLUMN), 0, Indexed(IndexedOf(b, i)))]
  }

  /** An index row points back at the data row through its column name. */
  function PointerMutation(key: Key): Mutation<Cell> {
    [SetCell(Column(FAMILY, key), 0, Nothing)]
  }

  function PointerWrites(keys: seq<Key>, target: Key): seq<Write<Cell>> {
    seq(|keys|, j requires 0 <= j < |keys| => Write(keys[j], PointerMutation(target)))
  }

  function TxWrites(chain: Key, b: Block, i: nat): seq<Write<Cell>>
    requires i < |b.txs| && i < MAX_TX_INDEX
  {
    var key := TxKey(chain, b.txs[i].hash);
    [Write(key, DataMutation(b, i))] + PointerWrites(IndexKeys(chain, IndexRows(b, i)), key)
  }

  // -------------------------------------------- what the rows say, field by field

  /** Whether a transaction names the address of a new contract: any but twenty zero bytes. */
  ghost predicate Creates(tx: Tx) {
    !(|tx.contractAddress| == 20 && forall k :: 0 <= k < 20 ==> tx.contractAddress[k] == 0)
  }

  /** The new contract when there is one, and otherwise the addressee. */
  ghost predicate IsRecipient(tx: Tx, addr: Key) {
    addr == if Creates(tx) then tx.contractAddress else tx.to
  }

  /** The first four bytes of the input, or nothing of a shorter one. */
  ghost predicate IsMethod(tx: Tx, id: Key) {
    if |tx.data| < 4 then id == [] else |id| == 4 && id <= tx.data
  }

  ghost function Pow256(n: nat): nat {
    if n == 0 then 1 else 256 * Pow256(n - 1)
  }

  /** A big-endian number: the sum of its bytes by place. */
  ghost function Number(s: Key): nat {
    if s == [] then 0 else s[0] * Pow256(|s| - 1) + Number(s[1..])
  }

  /** What the data row of a transaction must say about it. */
  ghost predicate Describes(d: IndexedTx, b: Block, i: nat)
    requires i < |b.txs|
  {
    var tx := b.txs[i];
    d.hash == tx.hash && d.blockNumber == b.number && d.time == b.time &&
    d.from == tx.from && IsRecipient(tx, d.to) && d.value == tx.value && IsMethod(tx, d.methodId) &&
    d.gasPrice == tx.gasPrice && d.txFee == Number(tx.gasPrice) * tx.gasUsed && d.errorMsg == tx.errorMsg &&
    (d.isContractCreation <==> Creates(tx)) &&
    (d.invokesContract <==> tx.internalTxs != 0 || tx.gasUsed > 21000 || tx.errorMsg != [])
  }

  lemma {:induction false} NumberAppend(s: Key, c: byte)
    ensures Number(s + [c]) == 256 * Number(s) + c
    decreases |s|
  {
    if s == [] {
      assert s + [c] == [c] && Number([]) == 0;
    } else {
      assert (s + [c])[1..] == s[1..] + [c];
      NumberAppend(s[1..], c);
      MulShift(s[0], Pow256(|s| - 1));
    }
  }

  lemma MulShift(d: nat, p: nat)
    ensures d * (256 * p) == 256 * (d * p)
  {}

  lemma {:induction false} BigEndianNumber(s: Key)
    ensures BigEndian(s) == Number(s)
    decreases |s|
  {
    if s != [] {
      BigEndianNumber(s[..|s| - 1]);
      NumberAppend(s[..|s| - 1], s[|s| - 1]);
      assert s[..|s| - 1] + [s[|s| - 1]] == s;
    }
  }

  lemma CreatesByAddress(tx: Tx)
    ensures Creates(tx) <==> tx.contractAddress != ZeroAddress()
    ensures IsRecipient(tx, EffectiveTo(tx)) && IsMethod(tx, MethodId(tx))
  {
    assert !Creates(tx) ==> tx.contractAddress == ZeroAddress();
  }

  lemma IndexedDescribes(b: Block, i: nat)
    requires i < |b.txs|
    ensures Describes(IndexedOf(b, i), b, i)
  {
    CreatesByAddress(b.txs[i]);
    BigEndianNumber(b.txs[i].gasPrice);
  }

  /** "<chain>:TX:<hash>" */
  ghost function DataKeyText(chain: Key, hash: Key): Key {
    Join([chain, Text("TX"), Hex(hash)], COLON)
  }

  /** "<chain>:I:TX:<addr>:<kind>:<detail>" */
  ghost function IndexKeyText(chain: Key, addr: Key, kind: string, details: seq<Key>): Key
    requires forall i :: 0 <= i < |kind| ==> kind[i] as int < 256
  {
    Join([chain, Text("I"), Text("TX"), Hex(addr), Text(kind)] + details, COLON)
  }

  /** The keys one side of a transaction is filed under, in order. */
  ghost function SideTexts(chain: Key, mine: Key, direction: string, other: Key, id: Key, at: Key, nr: Key, index: Key): seq<Key>
    requires forall i :: 0 <= i < |direction| ==> direction[i] as int < 256
  {
    [ IndexKeyText(chain, mine, direction, [Hex(other), at, index]),
      IndexKeyText(chain, mine, "TIME", [at, index]),
      IndexKeyText(chain, mine, "BLOCK", [nr, index]),
      IndexKeyText(chain, mine, "METHOD", [Hex(id), at, index]) ]
  }

  /** All index keys of a transaction, in order: four for the sender, four for the recipient,
      two when it failed, two when it created a contract. */
  ghost function KeyTexts(chain: Key, b: Block, i: nat, to: Key, id: Key): seq<Key>
    requires i < |b.txs| && i < MAX_TX_INDEX
  {
    var tx := b.txs[i];
    var at, nr, index := ReversedTimestamp(b.time), ReversedPadded(b.number), ReversedIndex(i, 10_000);
    SideTexts(chain, tx.from, "TO", to, id, at, nr, index) + SideTexts(chain, to, "FROM", tx.from, id, at, nr, index) +
    (if tx.errorMsg == [] then []
     else [IndexKeyText(chain, tx.from, "ERROR", [at, index]), IndexKeyText(chain, to, "ERROR", [at, index])]) +
    (if !Creates(tx) then []
     else [IndexKeyText(chain, tx.from, "CONTRACT", [at, index]), IndexKeyText(chain, to, "CONTRACT", [at, index])])
  }

  /** The writes of one transaction, field by field: the data row, and behind it one pointer
      row for each of its index keys. */
  ghost predicate SaysTx(chain: Key, b: Block, i: nat, ws: seq<Write<Cell>>)
    requires i < |b.txs| && i < MAX_TX_INDEX
  {
    exists d: IndexedTx, to: Key, id: Key :: SaysTxWith(chain, b, i, ws, d, to, id)
  }

  ghost predicate SaysTxWith(chain: Key, b: Block, i: nat, ws: seq<Write<Cell>>, d: IndexedTx, to: Key, id: Key)
    requires i < |b.txs| && i < MAX_TX_INDEX
  {
    var target, keys := DataKeyText(chain, b.txs[i].hash), KeyTexts(chain, b, i, to, id);
    Describes(d, b, i) && IsRecipient(b.txs[i], to) && IsMethod(b.txs[i], id) &&
    |ws| == 1 + |keys| &&
    ws[0] == Write(target, [SetCell(Column(Text("f"), Text("d")), 0, Indexed(d))]) &&
    forall m :: 0 < m < |ws| ==> ws[m] == Write(keys[m - 1], [SetCell(Column(Text("f"), target), 0, Nothing)])
  }

  lemma TagTexts()
    ensures TAG_I == Text("I") && TAG_TX == Text("TX") && TAG_TIME == Text("TIME") && TAG_TO == Text("TO")
    ensures TAG_FROM == Text("FROM") && TAG_BLOCK == Text("BLOCK") && TAG_METHOD == Text("METHOD")
    ensures TAG_ERROR == Text("ERROR") && TAG_CONTRACT == Text("CONTRACT")
    ensures FAMILY == Text("f") && DATA_COLUMN == Text("d")
  {}

  lemma DataKeyIsText(chain: Key, hash: Key)
    ensures TxKey(chain, hash) == DataKeyText(chain, hash)
  {
    TagTexts();
    JoinCons(TAG_TX, [Hex(hash)]);
    JoinCons(chain, [TAG_TX, Hex(hash)]);
    assert [TAG_TX] + [Hex(hash)] == [TAG_TX, Hex(hash)];
    assert [chain] + [TAG_TX, Hex(hash)] == [chain, TAG_TX, Hex(hash)];
  }

  lemma FiveAndRest(a: Key, b: Key, c: Key, d: Key, e: Key, rest: seq<Key>)
    ensures [a] + ([b] + ([c] + ([d] + ([e] + rest)))) == [a, b, c, d, e] + rest
  {}

  lemma JoinHead(chain: Key, addr: Key, tag: Key, rest: seq<Key>)
    requires rest != []
    ensures Join([chain, TAG_I, TAG_TX, Hex(addr), tag] + rest, COLON) == AddrKey(chain, addr, Sep(tag, Join(rest, COLON)))
  {
    FiveAndRest(chain, TAG_I, TAG_TX, Hex(addr), tag, rest);
    var r := [tag] + rest;
    JoinCons(tag, rest);
    JoinCons(Hex(addr), r);
    r := [Hex(addr)] + r;
    JoinCons(TAG_TX, r);
    r := [TAG_TX] + r;
    JoinCons(TAG_I, r);
    r := [TAG_I] + r;
    JoinCons(chain, r);
  }

  lemma JoinTwo(a: Key, b: Key)
    ensures Join([a, b], COLON) == Sep(a, b)
  {
    JoinCons(a, [b]);
    assert [a] + [b] == [a, b];
  }

  lemma JoinThree(a: Key, b: Key, c: Key)
    ensures Join([a, b, c], COLON) == Sep(a, Sep(b, c))
  {
    JoinTwo(b, c);
    JoinCons(a, [b, c]);
    assert [a] + [b, c] == [a, b, c];
  }

  lemma TwoDetails(chain: Key, addr: Key, tag: Key, x: Key, y: Key)
    ensures Join([chain, TAG_I, TAG_TX, Hex(addr), tag] + [x, y], COLON) == AddrKey(chain, addr, Sep(tag, Sep(x, y)))
  {
    JoinHead(chain, addr, tag, [x, y]);
    JoinTwo(x, y);
  }

  lemma ThreeDetails(chain: Key, addr: Key, tag: Key, x: Key, y: Key, z: Key)
    ensures Join([chain, TAG_I, TAG_TX, Hex(addr), tag] + [x, y, z], COLON) == AddrKey(chain, addr, Sep(tag, Sep(x, Sep(y, z))))
  {
    JoinHead(chain, addr, tag, [x, y, z]);
    JoinThree(x, y, z);
  }

  lemma SideIsText(chain: Key, mine: Key, direction: Tag, name: string, other: Key, id: Key, at: Key, nr: Key, index: Key)
    requires (direction == To && name == "TO") || (direction == From && name == "FROM")
    ensures IndexKeys(chain, RowsOfSide(mine, direction, other, Hex(id), Sep(at, index), Sep(nr, index))) ==
            SideTexts(chain, mine, name, other, id, at, nr, index)
  {
    TagTexts();
    ThreeDetails(chain, mine, TagName(direction), Hex(other), at, index);
    TwoDetails(chain, mine, TAG_TIME, at, index);
    TwoDetails(chain, mine, TAG_BLOCK, nr, index);
    ThreeDetails(chain, mine, TAG_METHOD, Hex(id), at, index);
  }

  lemma IndexKeysConcat(chain: Key, a: seq<IndexRow>, b: seq<IndexRow>)
    ensures IndexKeys(chain, a + b) == IndexKeys(chain, a) + IndexKeys(chain, b)
  {}

  lemma PairIsText(chain: Key, from: Key, to: Key, tag: Tag, name: string, at: Key, index: Key)
    requires (tag == Error && name == "ERROR") || (tag == Contract && name == "CONTRACT")
    ensures IndexKeys(chain, [IndexRow(from, tag, Sep(at, index)), IndexRow(to, tag, Sep(at, index))]) ==
            [IndexKeyText(chain, from, name, [at, index]), IndexKeyText(chain, to, name, [at, index])]
  {
    TagTexts();
    TwoDetails(chain, from, TagName(tag), at, index);
    TwoDetails(chain, to, TagName(tag), at, index);
  }

  lemma FailedIsText(chain: Key, from: Key, to: Key, failed: bool, tag: Tag, name: string, at: Key, index: Key)
    requires (tag == Error && name == "ERROR") || (tag == Contract && name == "CONTRACT")
    ensures IndexKeys(chain, if failed then [IndexRow(from, tag, Sep(at, index)), IndexRow(to, tag, Sep(at, index))] else []) ==
            if failed then [IndexKeyText(chain, from, name, [at, index]), IndexKeyText(chain, to, name, [at, index])] else []
  {
    PairIsText(chain, from, to, tag, name, at, index);
  }

  lemma RowsAreTexts(chain: Key, from: Key, to: Key, id: Key, failed: bool, creation: bool, at: Key, nr: Key, index: Key)
    ensures IndexKeys(chain, RowsFor(from, to, Hex(id), failed, creation, Sep(at, index), Sep(nr, index))) ==
            SideTexts(chain, from, "TO", to, id, at, nr, index) + SideTexts(chain, to, "FROM", from, id, at, nr, index) +
            (if failed then [IndexKeyText(chain, from, "ERROR", [at, index]), IndexKeyText(chain, to, "ERROR", [at, index])] else []) +
            (if creation then [IndexKeyText(chain, from, "CONTRACT", [at, index]), IndexKeyText(chain, to, "CONTRACT", [at, index])] else [])
  {
    var m, n := Sep(at, index), Sep(nr, index);
    var mine, yours := RowsOfSide(from, To, to, Hex(id), m, n), RowsOfSide(to, From, from, Hex(id), m, n);
    var errors := if failed then [IndexRow(from, Error, m), IndexRow(to, Error, m)] else [];
    var creations := if creation then [IndexRow(from, Contract, m), IndexRow(to, Contract, m)] else [];
    IndexKeysConcat(chain, mine, yours);
    IndexKeysConcat(chain, mine + yours, errors);
    IndexKeysConcat(chain, mine + yours + errors, creations);
    SideIsText(chain, from, To, "TO", to, id, at, nr, index);
    SideIsText(chain, to, From, "FROM", from, id, at, nr, index);
    FailedIsText(chain, from, to, failed, Error, "ERROR", at, index);
    FailedIsText(chain, from, to, creation, Contract, "CONTRACT", at, index);
  }

  lemma IndexKeysAreTexts(chain: Key, b: Block, i: nat)
    requires i < |b.txs| && i < MAX_TX_INDEX
    ensures IndexKeys(chain, IndexRows(b, i)) == KeyTexts(chain, b, i, EffectiveTo(b.txs[i]), MethodId(b.txs[i]))
  {
    var tx := b.txs[i];
    var at, nr, index := ReversedTimestamp(b.time), ReversedPadded(b.number), ReversedIndex(i, 10_000);
    CreatesByAddress(tx);
    RowsAreTexts(chain, tx.from, EffectiveTo(tx), MethodId(tx), tx.errorMsg != [], Creates(tx), at, nr, index);
    assert IndexRows(b, i) == RowsFor(tx.from, EffectiveTo(tx), Hex(MethodId(tx)), tx.errorMsg != [], Creates(tx),
                                      Sep(at, index), Sep(nr, index));
  }

  lemma PointersBehind(first: Write<Cell>, keys: seq<Key>, target: Key)
    ensures var ws := [first] + PointerWrites(keys, target);
            |ws| == 1 + |keys| && ws[0] == first &&
            forall m :: 0 < m < |ws| ==> ws[m] == Write(keys[m - 1], [SetCell(Column(FAMILY, target), 0, Nothing)])
  {
    var ps := PointerWrites(keys, target);
    forall m | 0 < m < 1 + |keys| ensures ([first] + ps)[m] == Write(keys[m - 1], PointerMutation(target)) {
      assert ([first] + ps)[m] == ps[m - 1];
    }
  }

  lemma WritesAreTexts(chain: Key, b: Block, i: nat)
    requires i < |b.txs| && i < MAX_TX_INDEX
    ensures var ws, target := TxWrites(chain, b, i), DataKeyText(chain, b.txs[i].hash);
            var keys := KeyTexts(chain, b, i, EffectiveTo(b.txs[i]), MethodId(b.txs[i]));
            |ws| == 1 + |keys| &&
            ws[0] == Write(target, [SetCell(Column(Text("f"), Text("d")), 0, Indexed(IndexedOf(b, i)))]) &&
            forall m :: 0 < m < |ws| ==> ws[m] == Write(keys[m - 1], [SetCell(Column(Text("f"), target), 0, Nothing)])
  {
    TagTexts();
    DataKeyIsText(chain, b.txs[i].hash);
    IndexKeysAreTexts(chain, b, i);
    PointersBehind(Write(TxKey(chain, b.txs[i].hash), DataMutation(b, i)), IndexKeys(chain, IndexRows(b, i)), TxKey(chain, b.txs[i].hash));
  }

  /** What a transaction emits, field by field. */
  lemma TxWritesSay(chain: Key, b: Block, i: nat)
    requires i < |b.txs| && i < MAX_TX_INDEX
    ensures SaysTx(chain, b, i, TxWrites(chain, b, i))
  {
    IndexedDescribes(b, i);
    CreatesByAddress(b.txs[i]);
    WritesAreTexts(chain, b, i);
    assert SaysTxWith(chain, b, i, TxWrites(chain, b, i), IndexedOf(b, i), EffectiveTo(b.txs[i]), MethodId(b.txs[i]));
  }

  // ---------------------------------------------------------------- one block

  predicate Transformable(b: Block) {
    |b.txs| <= MAX_TX_INDEX && forall i :: 0 <= i < |b.txs| ==> |b.txs[i].hash| == 32
  }

  /** All writes of the first n transactions of a block. */
  function BlockWrites(chain: Key, b: Block, n: nat): seq<Write<Cell>>
    requires n <= |b.txs| && n <= MAX_TX_INDEX
  {
    if n == 0 then [] else BlockWrites(chain, b, n - 1) + TxWrites(chain, b, n - 1)
  }

  lemma {:induction false} BlockWritesMembers(chain: Key, b: Block, n: nat, w: Write<Cell>)
    requires n <= |b.txs| && n <= MAX_TX_INDEX
    ensures w in BlockWrites(chain, b, n) <==> exists i :: 0 <= i < n && w in TxWrites(chain, b, i)
  {
    if n > 0 {
      BlockWritesMembers(chain, b, n - 1, w);
      InEither(BlockWrites(chain, b, n - 1), TxWrites(chain, b, n - 1), w);
      if i :| 0 <= i < n && w in TxWrites(chain, b, i) {
        assert i < n - 1 || i == n - 1;
      }
    }
  }

  /** The writes of the first n transactions one after the other, each field by field. */
  ghost predicate SaysBlock(chain: Key, b: Block, n: nat, ws: seq<Write<Cell>>)
    requires n <= |b.txs| && n <= MAX_TX_INDEX
  {
    if n == 0 then ws == []
    else exists k: nat :: k <= |ws| && SaysBlock(chain, b, n - 1, ws[..k]) && SaysTx(chain, b, n - 1, ws[k..])
  }

  lemma {:induction false} BlockWritesSay(chain: Key, b: Block, n: nat)
    requires n <= |b.txs| && n <= MAX_TX_INDEX
    ensures SaysBlock(chain, b, n, BlockWrites(chain, b, n))
  {
    if n > 0 {
      var front, last := BlockWrites(chain, b, n - 1), TxWrites(chain, b, n - 1);
      BlockWritesSay(chain, b, n - 1);
      TxWritesSay(chain, b, n - 1);
      assert (front + last)[..|front|] == front && (front + last)[|front|..] == last;
    }
  }

  lemma InEither(a: seq<Write<Cell>>, b: seq<Write<Cell>>, w: Write<Cell>)
    ensures w in a + b <==> w in a || w in b
  {}

  lemma ZipAppend(keys: seq<Key>, muts: seq<Mutation<Cell>>, k: Key, m: Mutation<Cell>)
    requires |keys| == |muts|
    ensures Zip(keys + [k], muts + [m]) == Zip(keys, muts) + [Write(k, m)]
  {}

  lemma OneMoreTx(chain: Key, b: Block, i: nat)
    requires i < |b.txs| && i < MAX_TX_INDEX
    ensures var key := TxKey(chain, b.txs[i].hash);
            BlockWrites(chain, b, i + 1) ==
            BlockWrites(chain, b, i) + [Write(key, DataMutation(b, i))] +
            PointerWrites(IndexKeys(chain, IndexRows(b, i)), key)
  {}

  /** The inner loop of TransformTx: one pointer row per index key. */
  method AppendPointers(keys: seq<Key>, muts: seq<Mutation<Cell>>, indexes: seq<Key>, key: Key)
    returns (keys': seq<Key>, muts': seq<Mutation<Cell>>)
    requires |keys| == |muts|
    ensures |keys'| == |muts'|
    ensures Zip(keys', muts') == Zip(keys, muts) + PointerWrites(indexes, key)
  {
    keys', muts' := keys, muts;
    var j := 0;
    while j < |indexes|
      invariant 0 <= j <= |indexes|
      invariant |keys'| == |muts'|
      invariant Zip(keys', muts') == Zip(keys, muts) + PointerWrites(indexes[..j], key)
    {
      ZipAppend(keys', muts', indexes[j], PointerMutation(key));
      assert PointerWrites(indexes[..j + 1], key) ==
             PointerWrites(indexes[..j], key) + [Write(indexes[j], PointerMutation(key))];
      keys', muts' := keys' + [indexes[j]], muts' + [PointerMutation(key)];
      j := j + 1;
    }
    assert indexes[..j] == indexes;
  }

  /** What was emitted for the first i transactions. */
  ghost predicate Emitted(chain: Key, b: Block, i: nat, keys: seq<Key>, muts: seq<Mutation<Cell>>) {
    i <= |b.txs| && i <= MAX_TX_INDEX && |keys| == |muts| && Zip(keys, muts) == BlockWrites(chain, b, i)
  }

  /** The loop body: the data row of one transaction and its index rows. */
  method EmitTx(chain: Key, blk: Block, i: nat, keys: seq<Key>, muts: seq<Mutation<Cell>>)
    returns (keys': seq<Key>, muts': seq<Mutation<Cell>>)
    requires i < |blk.txs| && i < MAX_TX_INDEX && Emitted(chain, blk, i, keys, muts)
    ensures Emitted(chain, blk, i + 1, keys', muts')
  {
    var key := TxKey(chain, blk.txs[i].hash);
    ZipAppend(keys, muts, key, DataMutation(blk, i));
    OneMoreTx(chain, blk, i);
    keys', muts' := AppendPointers(keys + [key], muts + [DataMutation(blk, i)], IndexKeys(chain, IndexRows(blk, i)), key);
  }

  /** A bulk says, field by field and in order, everything about the transactions of a block. */
  ghost predicate SaysAll(chain: Key, b: Block, bulk: Bulk) {
    |bulk.keys| == |bulk.muts| && |b.txs| <= MAX_TX_INDEX && SaysBlock(chain, b, |b.txs|, Zip(bulk.keys, bulk.muts))
  }

  lemma EmittedSays(chain: Key, b: Block, bulk: Bulk)
    requires Emitted(chain, b, |b.txs|, bulk.keys, bulk.muts)
    ensures SaysAll(chain, b, bulk)
  {
    BlockWritesSay(chain, b, |b.txs|);
  }

  /** The error that a block is refused with. */
  predicate Refused(b: Block, e: TransformError) {
    match e
    case TooManyTransactions => |b.txs| > MAX_TX_INDEX
    case BadHashLength => exists i :: 0 <= i < |b.txs| && |b.txs[i].hash| != 32
  }

  /** The loop over the transactions. */
  method EmitAll(chain: Key, blk: Block) returns (r: Result<Bulk>)
    ensures if r.Ok? then Transformable(blk) && Emitted(chain, blk, |blk.txs|, r.value.keys, r.value.muts)
            else Refused(blk, r.error)
  {
    var keys, muts := [], [];
    var i := 0;
    while i < |blk.txs|
      invariant Emitted(chain, blk, i, keys, muts)
      invariant forall j :: 0 <= j < i ==> |blk.txs[j].hash| == 32
    {
      if i > 9999 {
        return Err(TooManyTransactions);
      }
      if |blk.txs[i].hash| != 32 {
        return Err(BadHashLength);
      }
      keys, muts := EmitTx(chain, blk, i, keys, muts);
      i := i + 1;
    }
    r := Ok(Bulk(keys, muts));
  }

  /** TransformTx. */
  method TransformTx(chain: Key, blk: Block) returns (r: Result<Bulk>)
    ensures r.Ok? <==> Transformable(blk)
    ensures r.Ok? ==> |r.value.keys| == |r.value.muts|
    ensures r.Ok? ==> Zip(r.value.keys, r.value.muts) == BlockWrites(chain, blk, |blk.txs|)
    ensures r.Ok? ==> SaysAll(chain, blk, r.value)
    ensures r.Err? ==> Refused(blk, r.error)
  {
    r := EmitAll(chain, blk);
    if r.Ok? { EmittedSays(chain, blk, r.value); }
  }

  // -------------------------------------------------------- which key says what

  predicate Involves(tx: Tx, addr: Key) {
    tx.from == addr || EffectiveTo(tx) == addr
  }

  /** The common prefix of the time index of one address, without the closing colon. */
  function TimePrefix(chain: Key, addr: Key): Key {
    AddrKey(chain, addr, TAG_TIME)
  }

  lemma NoColons(chain: Key, addr: Key, n: nat, w: nat)
    ensures Free(Hex(addr), COLON) && Free(TAG_TX, COLON) && Free(TAG_I, COLON)
    ensures Free(Pad(n, w), COLON)
  {
    PadFree(n, w, COLON);
  }

  lemma AddrKeyPrefix(chain: Key, a: Key, x: Key, b: Key, y: Key)
    requires Free(chain, COLON)
    requires AddrKey(chain, a, x) <= AddrKey(chain, b, y)
    ensures a == b && x <= y
  {
    NoColons(chain, a, 0, 1);
    NoColons(chain, b, 0, 1);
    SepPrefix(chain, Sep(TAG_I, Sep(TAG_TX, Sep(Hex(a), x))), chain, Sep(TAG_I, Sep(TAG_TX, Sep(Hex(b), y))));
    SepPrefix(TAG_I, Sep(TAG_TX, Sep(Hex(a), x)), TAG_I, Sep(TAG_TX, Sep(Hex(b), y)));
    SepPrefix(TAG_TX, Sep(Hex(a), x), TAG_TX, Sep(Hex(b), y));
    SepPrefix(Hex(a), x, Hex(b), y);
    HexInjective(a, b);
  }

  lemma AddrKeyCancel(chain: Key, a: Key, x: Key, y: Key)
    ensures Less(AddrKey(chain, a, x), AddrKey(chain, a, y)) <==> Less(x, y)
  {
    SepCancel(chain, Sep(TAG_I, Sep(TAG_TX, Sep(Hex(a), x))), Sep(TAG_I, Sep(TAG_TX, Sep(Hex(a), y))));
    SepCancel(TAG_I, Sep(TAG_TX, Sep(Hex(a), x)), Sep(TAG_TX, Sep(Hex(a), y)));
    SepCancel(TAG_TX, Sep(Hex(a), x), Sep(Hex(a), y));
    SepCancel(Hex(a), x, y);
  }

  lemma AddrKeyExtends(chain: Key, a: Key, x: Key, y: Key)
    requires x <= y
    ensures AddrKey(chain, a, x) <= AddrKey(chain, a, y)
  {
    SepExtends(Hex(a), x, y);
    SepExtends(TAG_TX, Sep(Hex(a), x), Sep(Hex(a), y));
    SepExtends(TAG_I, Sep(TAG_TX, Sep(Hex(a), x)), Sep(TAG_TX, Sep(Hex(a), y)));
    SepExtends(chain, Sep(TAG_I, Sep(TAG_TX, Sep(Hex(a), x))), Sep(TAG_I, Sep(TAG_TX, Sep(Hex(a), y))));
  }

  /** Only a TIME row can extend the TIME tag. */
  lemma TimeTagOnly(rest: Key)
    ensures !(TAG_TIME <= Sep(TAG_TO, rest))
    ensures !(TAG_TIME <= Sep(TAG_FROM, rest))
    ensures !(TAG_TIME <= Sep(TAG_BLOCK, rest))
    ensures !(TAG_TIME <= Sep(TAG_METHOD, rest))
    ensures !(TAG_TIME <= Sep(TAG_ERROR, rest))
    ensures !(TAG_TIME <= Sep(TAG_CONTRACT, rest))
    ensures TAG_TIME <= Sep(TAG_TIME, rest)
  {
    assert Sep(TAG_TO, rest)[1] == 79;
    assert Sep(TAG_FROM, rest)[0] == 70;
    assert Sep(TAG_BLOCK, rest)[0] == 66;
    assert Sep(TAG_METHOD, rest)[0] == 77;
    assert Sep(TAG_ERROR, rest)[0] == 69;
    assert Sep(TAG_CONTRACT, rest)[0] == 67;
  }

  lemma TxKeyIsNoAddrKey(chain: Key, hash: Key, addr: Key, rest: Key)
    requires Free(chain, COLON)
    ensures !(AddrKey(chain, addr, rest) <= TxKey(chain, hash))
    ensures AddrKey(chain, addr, rest) != TxKey(chain, hash)
  {
    assert |TAG_I| != |TAG_TX|;
    if AddrKey(chain, addr, rest) <= TxKey(chain, hash) {
      SepPrefix(chain, Sep(TAG_I, Sep(TAG_TX, Sep(Hex(addr), rest))), chain, Sep(TAG_TX, Hex(hash)));
      SepPrefix(TAG_I, Sep(TAG_TX, Sep(Hex(addr), rest)), TAG_TX, Hex(hash));
    }
  }

  lemma TxKeyInjective(chain: Key, g: Key, h: Key)
    requires TxKey(chain, g) == TxKey(chain, h)
    ensures g == h
  {
    var p := Sep(chain, Sep(TAG_TX, []));
    assert TxKey(chain, g) == p + Hex(g) && TxKey(chain, h) == p + Hex(h);
    assert Hex(g) == TxKey(chain, g)[|p|..] == TxKey(chain, h)[|p|..] == Hex(h);
    HexInjective(g, h);
  }

  lemma TimeTagOnlyTime(tag: Tag, rest: Key)
    ensures TAG_TIME <= Sep(TagName(tag), rest) <==> tag == Time
  {
    TimeTagOnly(rest);
  }

  /** Each index row belongs to the sender or the effective recipient, and the TIME rows
      among them are exactly the two that carry the moment. */
  lemma RowKinds(from: Key, to: Key, method_: Key, failed: bool, creation: bool, at: Key, nr: Key, r: IndexRow)
    ensures r in RowsFor(from, to, method_, failed, creation, at, nr) ==> r.addr == from || r.addr == to
    ensures r.tag == Time ==>
              (r in RowsFor(from, to, method_, failed, creation, at, nr) <==>
               (r.addr == from || r.addr == to) && r.rest == at)
  {
    var rows := RowsFor(from, to, method_, failed, creation, at, nr);
    assert rows[1] == IndexRow(from, Time, at) && rows[5] == IndexRow(to, Time, at);
  }

  lemma IndexRowKinds(b: Block, i: nat, r: IndexRow)
    requires i < |b.txs| && i < MAX_TX_INDEX
    ensures r in IndexRows(b, i) ==> Involves(b.txs[i], r.addr)
    ensures r.tag == Time ==>
              (r in IndexRows(b, i) <==> Involves(b.txs[i], r.addr) && r.rest == Moment(b.time, i))
  {
    var tx := b.txs[i];
    RowKinds(tx.from, EffectiveTo(tx), Hex(MethodId(tx)), tx.errorMsg != [],
             tx.contractAddress != ZeroAddress(), Moment(b.time, i),
             Sep(ReversedPadded(b.number), ReversedIndex(i, MAX_TX_INDEX)), r);
  }

  lemma PointerMembers(chain: Key, rows: seq<IndexRow>, target: Key, w: Write<Cell>)
    ensures w in PointerWrites(IndexKeys(chain, rows), target) <==>
            exists r :: r in rows && w == Write(RowKey(chain, r), PointerMutation(target))
  {
    var ws := PointerWrites(IndexKeys(chain, rows), target);
    if w in ws {
      var j :| 0 <= j < |ws| && ws[j] == w;
      assert rows[j] in rows;
    }
    if r :| r in rows && w == Write(RowKey(chain, r), PointerMutation(target)) {
      var j :| 0 <= j < |rows| && rows[j] == r;
      assert ws[j] == w;
    }
  }

  lemma RowInTimeRange(chain: Key, addr: Key, r: IndexRow)
    requires Free(chain, COLON)
    ensures TimePrefix(chain, addr) <= RowKey(chain, r) <==> r.addr == addr && r.tag == Time
  {
    var tail := Sep(TagName(r.tag), r.rest);
    TimeTagOnlyTime(r.tag, r.rest);
    if TimePrefix(chain, addr) <= RowKey(chain, r) {
      AddrKeyPrefix(chain, addr, TAG_TIME, r.addr, tail);
    }
    if r.addr == addr && r.tag == Time { AddrKeyExtends(chain, addr, TAG_TIME, tail); }
  }

  /** Of everything a transaction emits, the rows in the time range of an address are its
      own time rows, and they exist exactly when the transaction involves the address. */
  lemma TimeRowsOfTx(chain: Key, b: Block, i: nat, addr: Key, w: Write<Cell>)
    requires Free(chain, COLON) && i < |b.txs| && i < MAX_TX_INDEX
    ensures w in TxWrites(chain, b, i) && TimePrefix(chain, addr) <= w.key <==>
            Involves(b.txs[i], addr) &&
            w == Write(TimeKey(chain, addr, b.time, i), PointerMutation(TxKey(chain, b.txs[i].hash)))
  {
    var target := TxKey(chain, b.txs[i].hash);
    PointerMembers(chain, IndexRows(b, i), target, w);
    TxKeyIsNoAddrKey(chain, b.txs[i].hash, addr, TAG_TIME);
    var own := IndexRow(addr, Time, Moment(b.time, i));
    IndexRowKinds(b, i, own);
    RowInTimeRange(chain, addr, own);
    TimeKeyIsRowKey(chain, addr, b.time, i);
    if w in PointerWrites(IndexKeys(chain, IndexRows(b, i)), target) && TimePrefix(chain, addr) <= w.key {
      var r :| r in IndexRows(b, i) && w == Write(RowKey(chain, r), PointerMutation(target));
      RowInTimeRange(chain, addr, r);
      IndexRowKinds(b, i, r);
      assert r == own;
    }
  }

  lemma TimeKeyIsRowKey(chain: Key, addr: Key, time: seconds, i: nat)
    requires i < MAX_TX_INDEX
    ensures TimeKey(chain, addr, time, i) == RowKey(chain, IndexRow(addr, Time, Moment(time, i)))
  {}

  lemma MomentOrder(s: seconds, i: nat, t: seconds, j: nat)
    requires i < MAX_TX_INDEX && j < MAX_TX_INDEX
    ensures Less(Moment(s, i), Moment(t, j)) <==> s > t || (s == t && MetBefore(i, j))
    ensures Moment(s, i) == Moment(t, j) ==> s == t && i == j
  {
    var x, y := ReversedTimestamp(s), ReversedTimestamp(t);
    var u, v := ReversedIndex(i, MAX_TX_INDEX), ReversedIndex(j, MAX_TX_INDEX);
    ReversedTimestampOrder(s, t);
    ReversedTimestampOrder(t, s);
    TxIndexOrder(i, j);
    SepOrder(x, u, y, v);
    PadFree(MAX_INT - s, 19, COLON);
    PadFree(MAX_INT - t, 19, COLON);
    if Moment(s, i) == Moment(t, j) { SepInjective(x, u, y, v); }
  }

  lemma SepOrder(x: Key, u: Key, y: Key, v: Key)
    requires |x| == |y|
    ensures Less(Sep(x, u), Sep(y, v)) <==> if x == y then Less(u, v) else Less(x, y)
  {
    if x == y {
      SepCancel(x, u, v);
    } else {
      LessHeads(x, y, [COLON] + u, [COLON] + v);
      assert Sep(x, u) == x + ([COLON] + u) && Sep(y, v) == y + ([COLON] + v);
    }
  }

  /** Time rows of one address are told apart by time and position, and sort by them. */
  lemma TimeKeyOrder(chain: Key, addr: Key, s: seconds, i: nat, t: seconds, j: nat)
    requires Free(chain, COLON) && i < MAX_TX_INDEX && j < MAX_TX_INDEX
    ensures Less(TimeKey(chain, addr, s, i), TimeKey(chain, addr, t, j)) <==>
            s > t || (s == t && MetBefore(i, j))
    ensures TimeKey(chain, addr, s, i) == TimeKey(chain, addr, t, j) ==> s == t && i == j
  {
    var x, y := Moment(s, i), Moment(t, j);
    MomentOrder(s, i, t, j);
    AddrKeyCancel(chain, addr, Sep(TAG_TIME, x), Sep(TAG_TIME, y));
    SepCancel(TAG_TIME, x, y);
    if TimeKey(chain, addr, s, i) == TimeKey(chain, addr, t, j) {
      AddrKeyPrefix(chain, addr, Sep(TAG_TIME, x), addr, Sep(TAG_TIME, y));
      AddrKeyPrefix(chain, addr, Sep(TAG_TIME, y), addr, Sep(TAG_TIME, x));
      SepInjective(TAG_TIME, x, TAG_TIME, y);
    }
  }
}
