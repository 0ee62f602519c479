/** GetEth1TxForAddress, and what a client sees that follows its page tokens to the end. */
module AddressPages {
  import opened Bytes
  import opened Extremes
  import opened Decimal
  import opened KeyOrder
  import opened KeyCodec
  import opened Bigtable
  import opened TxIndex
  import opened AddressHistory

  // ------------------------------------------------------------ reading one row

  function Qualifiers(row: Row<Cell>): set<Key> {
    set c | c in row && c.family == FAMILY :: c.qualifier
  }

  /** row[DEFAULT_FAMILY][0].Column without its family; empty for a row without columns. */
  function FirstQualifier(row: Row<Cell>): Key {
    if Qualifiers(row) == {} then [] else Least(Qualifiers(row))
  }

  /** row[DEFAULT_FAMILY][0].Value, when it is a transaction. */
  function FirstTx(row: Row<Cell>): Option<IndexedTx> {
    var c := Column(FAMILY, FirstQualifier(row));
    if c in row && row[c] != map[] then
      match row[c][MaxOf(row[c].Keys)]
      case Indexed(tx) => Some(tx)
      case _ => None
    else None
  }

  /** Resolves an index row to the transaction it points at. */
  function Resolve(rows: Rows<Cell>, index: Key): Option<IndexedTx> {
    var target := FirstQualifier(RowAt(rows, index));
    if target in rows then FirstTx(rows[target]) else None
  }

  lemma SingleColumn(c: Column, v: Cell)
    requires c.family == FAMILY
    ensures FirstQualifier(map[c := map[0 := v]]) == c.qualifier
    ensures FirstTx(map[c := map[0 := v]]) == match v case Indexed(tx) => Some(tx) case _ => None
  {
    var row: Row<Cell> := map[c := map[0 := v]];
    assert c in row;
    assert Qualifiers(row) == {c.qualifier};
    assert Column(FAMILY, c.qualifier) == c;
    assert row[c].Keys == {0};
  }

  // ------------------------------------------------------------------ one page

  function Page(rows: Rows<Cell>, prefix: Key, limit: nat): seq<Key> {
    Limited(Scan(rows, prefix + [0], SuccessorOf(FirstFields(prefix, 5))), limit)
  }

  /** The rows a page consists of: those behind the token that share its first five fields, in
      table order, all of them or the first so many. */
  ghost predicate IsPageAfter(rows: Rows<Cell>, token: Key, limit: nat, page: seq<Key>) {
    var p := FirstFields(token, 5);
    StrictlySorted(page) && (limit > 0 ==> |page| <= limit) &&
    (forall k :: k in page ==> k in rows && Less(token, k) && p <= k) &&
    forall k :: k in rows && Less(token, k) && p <= k ==>
      k in page || (limit > 0 && |page| == limit && Less(page[limit - 1], k))
  }

  lemma LimitedSplit(all: seq<Key>, limit: nat, k: Key)
    requires StrictlySorted(all) && k in all
    ensures k in Limited(all, limit) ||
            (limit > 0 && |Limited(all, limit)| == limit && Less(Limited(all, limit)[limit - 1], k))
  {
    var i :| 0 <= i < |all| && all[i] == k;
    var cut := Limited(all, limit);
    assert i < |cut| ==> cut[i] == k;
  }

  /** The rows behind a token that share its first five fields. */
  lemma RowsBehind(rows: Rows<Cell>, token: Key)
    ensures var p, all := FirstFields(token, 5), Scan(rows, token + [0], SuccessorOf(FirstFields(token, 5)));
            StrictlySorted(all) && forall k :: k in all <==> k in rows && Less(token, k) && p <= k
  {
    var p := FirstFields(token, 5);
    SortedKeysSpec(set k | k in rows && InRange(k, token + [0], SuccessorOf(p)));
    FirstFieldsPrefix(token, 5);
    forall k: Key ensures InRange(k, token + [0], SuccessorOf(p)) <==> Less(token, k) && p <= k { NextPageRange(token, p, k); }
  }

  lemma PageIsAfter(rows: Rows<Cell>, token: Key, limit: nat)
    ensures IsPageAfter(rows, token, limit, Page(rows, token, limit))
  {
    var all := Scan(rows, token + [0], SuccessorOf(FirstFields(token, 5)));
    var page := Limited(all, limit);
    assert page == Page(rows, token, limit);
    RowsBehind(rows, token);
    forall k | k in page ensures k in all {
      var i :| 0 <= i < |page| && page[i] == k;
      assert all[i] == k;
    }
    forall k | k in all
      ensures k in page || (limit > 0 && |page| == limit && Less(page[limit - 1], k))
    {
      LimitedSplit(all, limit, k);
    }
  }

  /** The row handler of the first read: the data row each index row points at. */
  method Targets(rows: Rows<Cell>, indexes: seq<Key>) returns (keys: seq<Key>)
    ensures |keys| == |indexes|
    ensures forall j :: 0 <= j < |keys| ==> keys[j] == FirstQualifier(RowAt(rows, indexes[j]))
  {
    keys := [];
    for i := 0 to |indexes|
      invariant |keys| == i
      invariant forall j :: 0 <= j < i ==> keys[j] == FirstQualifier(RowAt(rows, indexes[j]))
    {
      keys := keys + [FirstQualifier(RowAt(rows, indexes[i]))];
    }
  }

  /** The row handler of the second read: the transactions behind a list of data rows. */
  method Fetch(rows: Rows<Cell>, keys: seq<Key>) returns (keysMap: map<Key, Option<IndexedTx>>)
    ensures forall k :: k in keysMap <==> k in keys && k in rows
    ensures forall k :: k in keysMap ==> keysMap[k] == FirstTx(RowAt(rows, k))
  {
    keysMap := map[];
    for i := 0 to |keys|
      invariant forall k :: k in keysMap <==> k in keys[..i] && k in rows
      invariant forall k :: k in keysMap ==> keysMap[k] == FirstTx(RowAt(rows, k))
    {
      assert keys[..i + 1] == keys[..i] + [keys[i]];
      if keys[i] in rows {
        keysMap := keysMap[keys[i] := FirstTx(RowAt(rows, keys[i]))];
      }
    }
    assert keys[..|keys|] == keys;
  }

  /** The final loop: transactions in the order of the index rows, missing ones as nil. */
  method InIndexOrder(keys: seq<Key>, keysMap: map<Key, Option<IndexedTx>>) returns (data: seq<Option<IndexedTx>>)
    ensures |data| == |keys|
    ensures forall j :: 0 <= j < |keys| ==> data[j] == if keys[j] in keysMap then keysMap[keys[j]] else None
  {
    data := [];
    for i := 0 to |keys|
      invariant |data| == i
      invariant forall j :: 0 <= j < i ==> data[j] == if keys[j] in keysMap then keysMap[keys[j]] else None
    {
      data := data + [if keys[i] in keysMap then keysMap[keys[i]] else None];
    }
  }

  lemma Resolved(rows: Rows<Cell>, indexes: seq<Key>, keys: seq<Key>,
                 keysMap: map<Key, Option<IndexedTx>>, data: seq<Option<IndexedTx>>)
    requires |keys| == |indexes| == |data|
    requires forall j :: 0 <= j < |keys| ==> keys[j] == FirstQualifier(RowAt(rows, indexes[j]))
    requires forall k :: k in keysMap <==> k in keys && k in rows
    requires forall k :: k in keysMap ==> keysMap[k] == FirstTx(RowAt(rows, k))
    requires forall j :: 0 <= j < |keys| ==> data[j] == if keys[j] in keysMap then keysMap[keys[j]] else None
    ensures forall i :: 0 <= i < |indexes| ==> data[i] == Resolve(rows, indexes[i])
  {
    forall i | 0 <= i < |indexes| ensures data[i] == Resolve(rows, indexes[i]) {
      assert keys[i] in keys;
    }
  }

  /** What the rows of a page point to, and the last of them. */
  ghost predicate Answers(rows: Rows<Cell>, page: seq<Key>, data: seq<Option<IndexedTx>>, next: Key) {
    |data| == |page| && (forall i :: 0 <= i < |page| ==> data[i] == Resolve(rows, page[i])) &&
    next == if page == [] then [] else page[|page| - 1]
  }

  /** The second read of GetEth1TxForAddress, for the index rows of the first. */
  method ResolvePage(rows: Rows<Cell>, indexes: seq<Key>) returns (data: seq<Option<IndexedTx>>, next: Key)
    ensures Answers(rows, indexes, data, next)
  {
    var keys := Targets(rows, indexes);
    if |keys| == 0 {
      return [], [];
    }
    var keysMap := Fetch(rows, keys);
    data := InIndexOrder(keys, keysMap);
    Resolved(rows, indexes, keys, keysMap, data);
    next := indexes[|indexes| - 1];
  }

  /** GetEth1TxForAddress: index rows after the prefix, resolved to transactions, and the
      last index row met as the token of the next page. */
  method GetEth1TxForAddress(tableData: Table<Cell>, prefix: Key, limit: nat)
    returns (data: seq<Option<IndexedTx>>, next: Key)
    ensures var page := Page(tableData.rows, prefix, limit);
            IsPageAfter(tableData.rows, prefix, limit, page) && Answers(tableData.rows, page, data, next)
  {
    PageIsAfter(tableData.rows, prefix, limit);
    var succ := PrefixSuccessor(prefix, 5);
    var indexes := tableData.ReadRows(prefix + [0], succ, limit);
    assert indexes == Page(tableData.rows, prefix, limit);
    data, next := ResolvePage(tableData.rows, indexes);
  }

  // --------------------------------------------------------------- token algebra

  /** "<chain>:I:TX:<addr>:TIME:", the token of the first page. */
  function FirstToken(chain: Key, addr: Key): Key {
    AddrKey(chain, addr, Sep(TAG_TIME, []))
  }

  lemma SplitSep(f: Key, rest: Key)
    requires Free(f, COLON)
    ensures Split(Sep(f, rest), COLON) == [f] + Split(rest, COLON)
  {
    SplitField(f, rest, COLON);
  }

  lemma JoinFive(a: Key, b: Key, c: Key, d: Key, e: Key)
    ensures Join([a, b, c, d, e], COLON) == Sep(a, Sep(b, Sep(c, Sep(d, e))))
  {
    assert [a, b, c, d, e][1..] == [b, c, d, e];
    assert [b, c, d, e][1..] == [c, d, e];
    assert [c, d, e][1..] == [d, e];
    assert [d, e][1..] == [e];
    assert Join([d, e], COLON) == Sep(d, e);
    assert Join([c, d, e], COLON) == Sep(c, Sep(d, e));
    assert Join([b, c, d, e], COLON) == Sep(b, Sep(c, Sep(d, e)));
  }

  lemma SplitFive(a: Key, b: Key, c: Key, d: Key, e: Key, rest: Key)
    requires Free(a, COLON) && Free(b, COLON) && Free(c, COLON) && Free(d, COLON) && Free(e, COLON)
    ensures Split(Sep(a, Sep(b, Sep(c, Sep(d, Sep(e, rest))))), COLON) == [a, b, c, d, e] + Split(rest, COLON)
  {
    SplitSep(a, Sep(b, Sep(c, Sep(d, Sep(e, rest)))));
    SplitSep(b, Sep(c, Sep(d, Sep(e, rest))));
    SplitSep(c, Sep(d, Sep(e, rest)));
    SplitSep(d, Sep(e, rest));
    SplitSep(e, rest);
  }

  lemma FirstFive(a: Key, b: Key, c: Key, d: Key, e: Key, rest: Key)
    requires Free(a, COLON) && Free(b, COLON) && Free(c, COLON) && Free(d, COLON) && Free(e, COLON)
    ensures FirstFields(Sep(a, Sep(b, Sep(c, Sep(d, Sep(e, rest))))), 5) == Sep(a, Sep(b, Sep(c, Sep(d, e))))
  {
    SplitFive(a, b, c, d, e, rest);
    JoinFive(a, b, c, d, e);
    assert ([a, b, c, d, e] + Split(rest, COLON))[..5] == [a, b, c, d, e];
  }

  /** Whatever page a token comes from, its first five fields are the time prefix. */
  lemma TokenFields(chain: Key, addr: Key, rest: Key)
    requires Free(chain, COLON)
    ensures FirstFields(AddrKey(chain, addr, Sep(TAG_TIME, rest)), 5) == TimePrefix(chain, addr)
    ensures TimePrefix(chain, addr) <= AddrKey(chain, addr, Sep(TAG_TIME, rest))
  {
    NoColons(chain, addr, 0, 1);
    FirstFive(chain, TAG_I, TAG_TX, Hex(addr), TAG_TIME, rest);
    assert Sep(TAG_TIME, rest) == TAG_TIME + ([COLON] + rest);
    AddrKeyExtends(chain, addr, TAG_TIME, Sep(TAG_TIME, rest));
  }

  // --------------------------------------------------- pages against the listing

  ghost function RefKeys(chain: Key, addr: Key, refs: seq<Ref>): seq<Key> {
    seq(|refs|, i requires 0 <= i < |refs| => RefKey(chain, addr, refs[i]))
  }

  lemma RefKeysSorted(chain: Key, blocks: seq<Block>, h: seq<Event>, addr: Key)
    requires Indexes(chain, blocks, h)
    ensures StrictlySorted(RefKeys(chain, addr, Listing(blocks, addr)))
  {
    var refs := Listing(blocks, addr);
    var q := RefKeys(chain, addr, refs);
    ListingOrdered(blocks, addr);
    forall i, j | 0 <= i < j < |q| ensures Less(q[i], q[j]) {
      var r, s := refs[i], refs[j];
      assert RefBefore(r, s);
      TimeKeyOrder(chain, addr, r.block.time, r.index, s.block.time, s.index);
    }
  }

  lemma RefKeysMembers(chain: Key, blocks: seq<Block>, h: seq<Event>, addr: Key, k: Key)
    requires Indexes(chain, blocks, h)
    ensures k in RefKeys(chain, addr, Listing(blocks, addr)) <==>
            k in FinalRows(chain, h) && TimePrefix(chain, addr) <= k
  {
    var refs := Listing(blocks, addr);
    var q := RefKeys(chain, addr, refs);
    if k in q {
      var i :| 0 <= i < |q| && q[i] == k;
      ListingMembers(blocks, addr, refs[i]);
      RefKeyInRange(chain, addr, refs[i]);
      TimeRow(chain, blocks, h, addr, refs[i]);
    }
    if k in FinalRows(chain, h) && TimePrefix(chain, addr) <= k {
      var r := KeyHasRef(chain, blocks, h, addr, k);
      ListingMembers(blocks, addr, r);
      var i :| 0 <= i < |refs| && refs[i] == r;
      assert q[i] == k;
    }
  }

  /** The token after j transactions of the listing. */
  ghost function TokenAt(chain: Key, addr: Key, refs: seq<Ref>, j: nat): Key
    requires j <= |refs|
  {
    if j == 0 then FirstToken(chain, addr) else RefKeys(chain, addr, refs)[j - 1]
  }

  lemma TokenIsTimeKey(chain: Key, addr: Key, refs: seq<Ref>, j: nat) returns (rest: Key)
    requires j <= |refs|
    ensures TokenAt(chain, addr, refs, j) == AddrKey(chain, addr, Sep(TAG_TIME, rest))
  {
    if j == 0 {
      rest := [];
    } else {
      var r := refs[j - 1];
      rest := Moment(r.block.time, r.index);
      assert TokenAt(chain, addr, refs, j) == RefKey(chain, addr, r);
    }
  }

  lemma TokenShape(chain: Key, addr: Key, refs: seq<Ref>, j: nat)
    requires Free(chain, COLON) && j <= |refs|
    ensures TimePrefix(chain, addr) <= TokenAt(chain, addr, refs, j)
    ensures FirstFields(TokenAt(chain, addr, refs, j), 5) == TimePrefix(chain, addr)
  {
    var rest := TokenIsTimeKey(chain, addr, refs, j);
    TokenFields(chain, addr, rest);
  }

  lemma FirstTokenBelow(chain: Key, addr: Key, r: Ref)
    ensures Less(FirstToken(chain, addr), RefKey(chain, addr, r))
  {
    var m := Moment(r.block.time, r.index);
    AddrKeyCancel(chain, addr, Sep(TAG_TIME, []), Sep(TAG_TIME, m));
    SepCancel(TAG_TIME, [], m);
  }

  /** Beyond the j-th key of a sorted list, or beyond something below all of it. */
  lemma BeyondKey(q: seq<Key>, first: Key, j: nat, k: Key)
    requires StrictlySorted(q) && j <= |q| && k in q && Less(first, k)
    ensures k in q[j..] <==> Less(if j == 0 then first else q[j - 1], k)
  {
    if j == 0 {
      assert q[0..] == q;
    } else {
      ResumeAfter(q, j, k);
    }
  }

  lemma FirstTokenBelowAll(chain: Key, addr: Key, refs: seq<Ref>, k: Key)
    requires k in RefKeys(chain, addr, refs)
    ensures Less(FirstToken(chain, addr), k)
  {
    var i :| 0 <= i < |refs| && RefKeys(chain, addr, refs)[i] == k;
    FirstTokenBelow(chain, addr, refs[i]);
  }

  lemma InTail(q: seq<Key>, j: nat, k: Key)
    requires j <= |q| && k in q[j..]
    ensures k in q
  {
    var i :| 0 <= i < |q[j..]| && q[j..][i] == k;
    assert q[j + i] == k;
  }

  /** The scan behind the token after j transactions meets the rest of the listing. */
  lemma ScanContinues(chain: Key, blocks: seq<Block>, h: seq<Event>, addr: Key, j: nat)
    requires Indexes(chain, blocks, h) && j <= |Listing(blocks, addr)|
    ensures var refs := Listing(blocks, addr);
            var t := TokenAt(chain, addr, refs, j);
            Scan(FinalRows(chain, h), t + [0], SuccessorOf(FirstFields(t, 5))) == RefKeys(chain, addr, refs)[j..]
  {
    var refs := Listing(blocks, addr);
    var q := RefKeys(chain, addr, refs);
    var t := TokenAt(chain, addr, refs, j);
    var p := TimePrefix(chain, addr);
    TokenShape(chain, addr, refs, j);
    RefKeysSorted(chain, blocks, h, addr);
    var rows := FinalRows(chain, h);
    var found := set k | k in rows && InRange(k, t + [0], SuccessorOf(p));
    forall k ensures k in q[j..] <==> k in found {
      NextPageRange(t, p, k);
      RefKeysMembers(chain, blocks, h, addr, k);
      if k in q {
        FirstTokenBelowAll(chain, addr, refs, k);
        BeyondKey(q, FirstToken(chain, addr), j, k);
      }
      if k in q[j..] { InTail(q, j, k); }
    }
    SortedIs(found, q[j..]);
  }

  /** Every index row resolves to its own transaction. */
  lemma ResolvesToTx(chain: Key, blocks: seq<Block>, h: seq<Event>, addr: Key, r: Ref)
    requires Indexes(chain, blocks, h) && IsRef(blocks, addr, r)
    ensures Resolve(FinalRows(chain, h), RefKey(chain, addr, r)) == Some(IndexedOf(r.block, r.index))
    ensures Describes(Resolve(FinalRows(chain, h), RefKey(chain, addr, r)).value, r.block, r.index)
  {
    IndexedDescribes(r.block, r.index);
    TimeRow(chain, blocks, h, addr, r);
    DataRow(chain, blocks, h, r);
    SingleColumn(Column(FAMILY, TargetKey(chain, r)), Nothing);
    SingleColumn(Column(FAMILY, DATA_COLUMN), Indexed(IndexedOf(r.block, r.index)));
  }

  /** What the plain scan of the blocks reports for an address. */
  function Expected(refs: seq<Ref>): seq<Option<IndexedTx>> {
    seq(|refs|, i requires 0 <= i < |refs| => Some(IndexedOf(refs[i].block, refs[i].index)))
  }

  /** The history of an address, on the raw fields: each transaction it took part in once, in
      order, and everything said about it right. */
  ghost predicate TellsHistory(all: seq<Option<IndexedTx>>, blocks: seq<Block>, addr: Key) {
    exists refs: seq<Ref> :: TellsAbout(all, blocks, addr, refs)
  }

  ghost predicate TellsAbout(all: seq<Option<IndexedTx>>, blocks: seq<Block>, addr: Key, refs: seq<Ref>) {
    |refs| == |all| &&
    (forall p, q :: 0 <= p < q < |refs| ==> RefBefore(refs[p], refs[q])) &&
    (forall r: Ref :: r in refs <==> r.block in blocks && TakesPart(r, addr)) &&
    forall i :: 0 <= i < |all| ==> all[i].Some? && Describes(all[i].value, refs[i].block, refs[i].index)
  }

  lemma ExpectedTells(blocks: seq<Block>, addr: Key)
    requires NewestFirst(blocks) && forall b :: b in blocks ==> Transformable(b)
    ensures TellsHistory(Expected(Listing(blocks, addr)), blocks, addr)
  {
    var refs := Listing(blocks, addr);
    ListingOrdered(blocks, addr);
    forall r: Ref ensures r in refs <==> r.block in blocks && TakesPart(r, addr) { ListingMembers(blocks, addr, r); }
    forall i | 0 <= i < |refs| ensures Describes(Expected(refs)[i].value, refs[i].block, refs[i].index) {
      IndexedDescribes(refs[i].block, refs[i].index);
    }
    assert TellsAbout(Expected(refs), blocks, addr, refs);
  }

  // ---------------------------------------------------------- following the tokens

  /** q lists the index rows behind a first token: from every token on, an unlimited page
      is the rest of q, and each row resolves to the transaction at the same place in refs. */
  ghost predicate IsIndexOf(rows: Rows<Cell>, first: Key, q: seq<Key>, refs: seq<Ref>) {
    |q| == |refs| &&
    (forall j :: 0 <= j <= |q| ==> Page(rows, TokenAfter(first, q, j), 0) == q[j..]) &&
    (forall i :: 0 <= i < |q| ==> Resolve(rows, q[i]) == Some(IndexedOf(refs[i].block, refs[i].index)))
  }

  ghost function TokenAfter(first: Key, q: seq<Key>, j: nat): Key
    requires j <= |q|
  {
    if j == 0 then first else q[j - 1]
  }

  lemma PageAt(chain: Key, blocks: seq<Block>, h: seq<Event>, addr: Key, q: seq<Key>, j: nat)
    requires Indexes(chain, blocks, h) && q == RefKeys(chain, addr, Listing(blocks, addr)) && j <= |q|
    ensures Page(FinalRows(chain, h), TokenAfter(FirstToken(chain, addr), q, j), 0) == q[j..]
  {
    ScanContinues(chain, blocks, h, addr, j);
    assert TokenAfter(FirstToken(chain, addr), q, j) == TokenAt(chain, addr, Listing(blocks, addr), j);
  }

  lemma ResolveAt(chain: Key, blocks: seq<Block>, h: seq<Event>, addr: Key, refs: seq<Ref>, i: nat)
    requires Indexes(chain, blocks, h) && refs == Listing(blocks, addr) && i < |refs|
    ensures Resolve(FinalRows(chain, h), RefKey(chain, addr, refs[i])) ==
            Some(IndexedOf(refs[i].block, refs[i].index))
  {
    assert refs[i] in refs;
    ListingMembers(blocks, addr, refs[i]);
    ResolvesToTx(chain, blocks, h, addr, refs[i]);
  }

  lemma IndexOfListing(chain: Key, blocks: seq<Block>, h: seq<Event>, addr: Key) returns (q: seq<Key>)
    requires Indexes(chain, blocks, h)
    ensures IsIndexOf(FinalRows(chain, h), FirstToken(chain, addr), q, Listing(blocks, addr))
  {
    var refs, rows, first := Listing(blocks, addr), FinalRows(chain, h), FirstToken(chain, addr);
    q := RefKeys(chain, addr, refs);
    forall j | 0 <= j <= |q| ensures Page(rows, TokenAfter(first, q, j), 0) == q[j..] {
      PageAt(chain, blocks, h, addr, q, j);
    }
    forall i | 0 <= i < |q| ensures Resolve(rows, q[i]) == Some(IndexedOf(refs[i].block, refs[i].index)) {
      ResolveAt(chain, blocks, h, addr, refs, i);
    }
  }

  /** One limited page out of such a list. */
  lemma OnePage(rows: Rows<Cell>, first: Key, q: seq<Key>, refs: seq<Ref>, j: nat, limit: nat) returns (m: nat)
    requires IsIndexOf(rows, first, q, refs) && j <= |q|
    ensures j <= m <= |q| && (m == j ==> j == |q|)
    ensures Page(rows, TokenAfter(first, q, j), limit) == q[j..m]
  {
    m := LimitedRest(q, j, limit);
    LimitedPage(rows, TokenAfter(first, q, j), limit);
  }

  lemma LimitedPage(rows: Rows<Cell>, token: Key, limit: nat)
    ensures Page(rows, token, limit) == Limited(Page(rows, token, 0), limit)
  {}

  lemma LimitedRest(q: seq<Key>, j: nat, limit: nat) returns (m: nat)
    requires j <= |q|
    ensures j <= m <= |q| && (m == j ==> j == |q|) && Limited(q[j..], limit) == q[j..m]
  {
    m := j + |Limited(q[j..], limit)|;
    assert limit <= |q[j..]| ==> q[j..][..limit] == q[j..j + limit];
  }

  lemma PageData(rows: Rows<Cell>, first: Key, q: seq<Key>, refs: seq<Ref>, j: nat, m: nat,
                 data: seq<Option<IndexedTx>>)
    requires IsIndexOf(rows, first, q, refs) && j <= m <= |q| && |data| == m - j
    requires forall i :: 0 <= i < m - j ==> data[i] == Resolve(rows, q[j..m][i])
    ensures data == Expected(refs[j..m])
  {
    forall i | 0 <= i < m - j ensures data[i] == Expected(refs[j..m])[i] {
      assert q[j..m][i] == q[j + i] && refs[j..m][i] == refs[j + i];
    }
  }

  /** A client that follows the page tokens from the first to the empty one collects the
      reference listing, whatever the page size and whatever order the blocks came in. */
  method FollowPages(tableData: Table<Cell>, chain: Key, addr: Key, limit: nat,
                     ghost blocks: seq<Block>, ghost h: seq<Event>)
    returns (all: seq<Option<IndexedTx>>)
    requires Indexes(chain, blocks, h) && tableData.rows == FinalRows(chain, h)
    ensures all == Expected(Listing(blocks, addr)) && TellsHistory(all, blocks, addr)
  {
    ExpectedTells(blocks, addr);
    ghost var q := IndexOfListing(chain, blocks, h, addr);
    all := Collect(tableData, FirstToken(chain, addr), limit, q, Listing(blocks, addr));
  }

  /** The first j transactions were collected, and the token stands behind them. */
  ghost predicate CollectedTo(first: Key, q: seq<Key>, refs: seq<Ref>, j: nat, token: Key, all: seq<Option<IndexedTx>>) {
    |q| == |refs| && j <= |refs| && token == TokenAfter(first, q, j) && all == Expected(refs[..j])
  }

  lemma OneCollected(rows: Rows<Cell>, first: Key, q: seq<Key>, refs: seq<Ref>, j: nat, token: Key,
                     all: seq<Option<IndexedTx>>, limit: nat, data: seq<Option<IndexedTx>>, next: Key)
    returns (m: nat)
    requires IsIndexOf(rows, first, q, refs) && CollectedTo(first, q, refs, j, token, all)
    requires var page := Page(rows, token, limit);
             |data| == |page| && (forall i :: 0 <= i < |page| ==> data[i] == Resolve(rows, page[i])) &&
             (page != [] ==> next == page[|page| - 1])
    ensures |data| == 0 ==> all == Expected(refs)
    ensures |data| > 0 ==> j < m <= |refs| && CollectedTo(first, q, refs, m, next, all + data)
  {
    m := OnePage(rows, first, q, refs, j, limit);
    if |data| == 0 {
      assert refs[..j] == refs;
    } else {
      PageData(rows, first, q, refs, j, m, data);
      MoreCollected(first, q, refs, j, m, token, all, data, next);
    }
  }

  lemma MoreCollected(first: Key, q: seq<Key>, refs: seq<Ref>, j: nat, m: nat, token: Key, all: seq<Option<IndexedTx>>,
                      data: seq<Option<IndexedTx>>, next: Key)
    requires CollectedTo(first, q, refs, j, token, all) && j < m <= |q| && next == q[j..m][m - j - 1]
    requires data == Expected(refs[j..m])
    ensures CollectedTo(first, q, refs, m, next, all + data)
  {
    ExpectedConcat(refs, j, m);
  }

  method Collect(tableData: Table<Cell>, first: Key, limit: nat, ghost q: seq<Key>, ghost refs: seq<Ref>)
    returns (all: seq<Option<IndexedTx>>)
    requires IsIndexOf(tableData.rows, first, q, refs)
    ensures all == Expected(refs)
  {
    ghost var j := 0;
    var token := first;
    all := [];
    while true
      invariant CollectedTo(first, q, refs, j, token, all)
      decreases |refs| - j
    {
      var data, next := GetEth1TxForAddress(tableData, token, limit);
      ghost var m := OneCollected(tableData.rows, first, q, refs, j, token, all, limit, data, next);
      if |data| == 0 {
        return;
      }
      all, token, j := all + data, next, m;
    }
  }

  lemma ExpectedConcat(refs: seq<Ref>, i: nat, j: nat)
    requires i <= j <= |refs|
    ensures Expected(refs[..i]) + Expected(refs[i..j]) == Expected(refs[..j])
  {}
}
