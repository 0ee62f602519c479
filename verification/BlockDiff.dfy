/** Which epochs the full check queues because the blocks of the database and of the node
    disagree. */
module BlockDiff {
  import opened Bytes
  import opened Words
  import opened Decimal

  datatype MinimalBlock = MinimalBlock(epoch: u64, slot: u64, root: Key)
  datatype Container = Container(epoch: u64, db: Option<MinimalBlock>, node: Option<MinimalBlock>)

  /** fmt.Sprintf("%v-%x", slot, root) */
  function BlockKey(slot: u64, root: Key): Key {
    Dec(slot) + [DASH] + Hex(root)
  }

  function KeyOf(b: MinimalBlock): Key { BlockKey(b.slot, b.root) }

  /** strings.HasSuffix(key, "-00"): the row of a missed slot. */
  predicate MarksMissed(key: Key) {
    |key| >= 3 && key[|key| - 3..] == [DASH, 48, 48]
  }

  lemma BlockKeyInjective(s: u64, r: Key, t: u64, q: Key)
    requires BlockKey(s, r) == BlockKey(t, q)
    ensures s == t && r == q
  {
    PadFree(s, 1, DASH);
    PadFree(t, 1, DASH);
    FieldPrefix(Dec(s), Hex(r), Dec(t), Hex(q), DASH);
    FieldPrefix(Dec(t), Hex(q), Dec(s), Hex(r), DASH);
    PadInjective(s, t, 1);
    HexInjective(r, q);
  }

  /** The suffix test singles out exactly the root that is one zero byte. */
  lemma MissedExactly(slot: u64, root: Key)
    ensures MarksMissed(BlockKey(slot, root)) <==> root == [0]
  {
    var k, d, h := BlockKey(slot, root), Dec(slot), Hex(root);
    assert k[|d| + 1..] == h;
    if root == [0] {
      assert root[1..] == [];
      assert Hex(root) == [48, 48];
      assert k[|k| - 3..] == [DASH, 48, 48];
    }
    if MarksMissed(k) {
      assert k[|k| - 3] == DASH;
      assert forall i :: 0 <= i < |h| ==> h[i] != DASH;
      assert |k| - 3 <= |d|;
      assert |h| <= 2;
      ShortHex(slot, root);
    }
  }

  lemma ShortHex(slot: u64, root: Key)
    requires |root| <= 1 && MarksMissed(BlockKey(slot, root))
    ensures root == [0]
  {
    var k, d := BlockKey(slot, root), Dec(slot);
    PadFree(slot, 1, DASH);
    assert k[|d|] == DASH;
    assert forall i :: 0 <= i < |d| ==> k[i] == d[i] != DASH;
    assert k[|k| - 3] == DASH && k[|k| - 1] == 48 && k[|k| - 2] == 48;
    if |root| == 1 {
      assert root[1..] == [];
      assert Hex(root) == [HexDigit(root[0] / 16), HexDigit(root[0] % 16)];
      assert k[|d| + 1] == Hex(root)[0] && k[|d| + 2] == Hex(root)[1];
    }
  }

  // ------------------------------------------------------------------ the diff

  ghost predicate Has(blocks: seq<MinimalBlock>, slot: u64, root: Key) {
    exists b :: b in blocks && b.slot == slot && b.root == root
  }

  /** The epoch of a block is a function of its slot, on both sides. */
  ghost predicate EpochsBySlot(db: seq<MinimalBlock>, node: seq<MinimalBlock>) {
    forall b, c :: b in db + node && c in db + node && b.slot == c.slot ==> b.epoch == c.epoch
  }

  /** Epochs with a block on one side only; a missed-slot row of the database is no block. */
  ghost predicate Differs(db: seq<MinimalBlock>, node: seq<MinimalBlock>, epoch: u64) {
    (exists b :: b in db && b.epoch == epoch && !Has(node, b.slot, b.root) && b.root != [0]) ||
    (exists b :: b in node && b.epoch == epoch && !Has(db, b.slot, b.root))
  }

  /** One entry of the comparison map. */
  ghost predicate EntryOk(c: Container, k: Key, db: seq<MinimalBlock>, node: seq<MinimalBlock>) {
    (c.db.Some? || c.node.Some?) &&
    (c.db.Some? ==> c.db.value in db && KeyOf(c.db.value) == k && c.epoch == c.db.value.epoch) &&
    (c.node.Some? ==> c.node.value in node && KeyOf(c.node.value) == k && c.epoch == c.node.value.epoch)
  }

  /** What the comparison map holds after the database blocks and some node blocks. */
  ghost predicate Collected(m: map<Key, Container>, db: seq<MinimalBlock>, node: seq<MinimalBlock>) {
    (forall b :: b in db ==> KeyOf(b) in m && m[KeyOf(b)].db.Some?) &&
    (forall b :: b in node ==> KeyOf(b) in m && m[KeyOf(b)].node.Some?) &&
    (forall k :: k in m ==> EntryOk(m[k], k, db, node))
  }

  lemma EntryMeans(m: map<Key, Container>, db: seq<MinimalBlock>, node: seq<MinimalBlock>, b: MinimalBlock)
    requires Collected(m, db, node) && KeyOf(b) in m
    ensures m[KeyOf(b)].db.Some? <==> Has(db, b.slot, b.root)
    ensures m[KeyOf(b)].node.Some? <==> Has(node, b.slot, b.root)
  {
    var c := m[KeyOf(b)];
    if c.db.Some? { BlockKeyInjective(b.slot, b.root, c.db.value.slot, c.db.value.root); }
    if c.node.Some? { BlockKeyInjective(b.slot, b.root, c.node.value.slot, c.node.value.root); }
  }

  /** The map entry of a block, or a new one carrying its epoch. */
  function EntryFor(m: map<Key, Container>, b: MinimalBlock): Container {
    if KeyOf(b) in m then m[KeyOf(b)] else Container(b.epoch, None, None)
  }

  lemma AddDb(m: map<Key, Container>, done: seq<MinimalBlock>, all: seq<MinimalBlock>, b: MinimalBlock)
    requires Collected(m, done, []) && EpochsBySlot(all, []) && b in all && forall c :: c in done ==> c in all
    ensures Collected(m[KeyOf(b) := EntryFor(m, b).(db := Some(b))], done + [b], [])
  {
    if KeyOf(b) in m { SameEpoch(m[KeyOf(b)], all, [], b); }
  }

  lemma AddNode(m: map<Key, Container>, db: seq<MinimalBlock>, done: seq<MinimalBlock>, all: seq<MinimalBlock>,
                b: MinimalBlock)
    requires Collected(m, db, done) && EpochsBySlot(db, all) && b in all && forall c :: c in done ==> c in all
    ensures Collected(m[KeyOf(b) := EntryFor(m, b).(node := Some(b))], db, done + [b])
  {
    var key, entry := KeyOf(b), EntryFor(m, b).(node := Some(b));
    var after := m[key := entry];
    if key in m { SameEpoch(m[key], db, all, b); }
    assert EntryOk(entry, key, db, done + [b]);
    forall k | k in after ensures EntryOk(after[k], k, db, done + [b]) {
      if k != key { assert EntryOk(m[k], k, db, done); }
    }
    forall c | c in done + [b] ensures KeyOf(c) in after && after[KeyOf(c)].node.Some? {
      assert c in done || c == b;
    }
  }

  method CollectDb(db: seq<MinimalBlock>) returns (m: map<Key, Container>)
    requires EpochsBySlot(db, [])
    ensures Collected(m, db, [])
  {
    m := map[];
    for i := 0 to |db|
      invariant Collected(m, db[..i], [])
    {
      var entry := EntryFor(m, db[i]);
      AddDb(m, db[..i], db, db[i]);
      assert db[..i + 1] == db[..i] + [db[i]];
      m := m[KeyOf(db[i]) := entry.(db := Some(db[i]))];
    }
    assert db[..|db|] == db;
  }

  method CollectNode(dbOnly: map<Key, Container>, ghost db: seq<MinimalBlock>, node: seq<MinimalBlock>)
    returns (m: map<Key, Container>)
    requires EpochsBySlot(db, node) && Collected(dbOnly, db, [])
    ensures Collected(m, db, node)
  {
    m := dbOnly;
    for i := 0 to |node|
      invariant Collected(m, db, node[..i])
    {
      var entry := EntryFor(m, node[i]);
      AddNode(m, db, node[..i], node, node[i]);
      assert node[..i + 1] == node[..i] + [node[i]];
      m := m[KeyOf(node[i]) := entry.(node := Some(node[i]))];
    }
    assert node[..|node|] == node;
  }

  lemma SameEpoch(c: Container, db: seq<MinimalBlock>, node: seq<MinimalBlock>, b: MinimalBlock)
    requires EpochsBySlot(db, node) && b in db + node
    requires c.db.Some? || c.node.Some?
    requires c.db.Some? ==> c.db.value in db && KeyOf(c.db.value) == KeyOf(b) && c.epoch == c.db.value.epoch
    requires c.node.Some? ==> c.node.value in node && KeyOf(c.node.value) == KeyOf(b) && c.epoch == c.node.value.epoch
    ensures c.epoch == b.epoch
  {
    var o := if c.db.Some? then c.db.value else c.node.value;
    BlockKeyInjective(o.slot, o.root, b.slot, b.root);
    assert o in db + node;
  }

  function QueuedEpochs(m: map<Key, Container>, done: set<Key>): set<u64> {
    set k | k in done && k in m && Queues(m[k], k) :: m[k].epoch
  }

  lemma OneMoreKey(m: map<Key, Container>, done: set<Key>, key: Key)
    requires key in m
    ensures QueuedEpochs(m, done + {key}) ==
            QueuedEpochs(m, done) + (if Queues(m[key], key) then {m[key].epoch} else {})
  {}

  /** The branch for "a different hash" is dead: equal keys mean equal roots. */
  lemma SameKeySameRoot(m: map<Key, Container>, db: seq<MinimalBlock>, node: seq<MinimalBlock>, k: Key)
    requires Collected(m, db, node) && k in m && m[k].db.Some? && m[k].node.Some?
    ensures m[k].db.value.root == m[k].node.value.root
  {
    var b, c := m[k].db.value, m[k].node.value;
    BlockKeyInjective(b.slot, b.root, c.slot, c.root);
  }

  /** The comparison loop, over the map in any order. */
  method Compare(m: map<Key, Container>) returns (epochs: set<u64>)
    requires forall k :: k in m && m[k].db.Some? && m[k].node.Some? ==> m[k].db.value.root == m[k].node.value.root
    ensures epochs == QueuedEpochs(m, m.Keys)
  {
    epochs := {};
    var todo := m.Keys;
    ghost var done: set<Key> := {};
    while todo != {}
      invariant todo + done == m.Keys
      invariant epochs == QueuedEpochs(m, done)
      decreases |todo|
    {
      var key :| key in todo;
      var block := m[key];
      OneMoreKey(m, done, key);
      if block.db.None? {
        epochs := epochs + {block.epoch};
      } else if block.node.None? {
        if !MarksMissed(key) {
          epochs := epochs + {block.epoch};
        }
      } else if block.db.value.root != block.node.value.root {
        assert false;
      }
      todo, done := todo - {key}, done + {key};
    }
    assert done == m.Keys;
  }

  /** The epochs doFullCheck queues because of its block comparison. */
  method QueueDiff(db: seq<MinimalBlock>, node: seq<MinimalBlock>) returns (epochs: set<u64>)
    requires EpochsBySlot(db, node)
    ensures forall e :: e in epochs <==> Differs(db, node, e)
  {
    assert EpochsBySlot(db, []) by { assert forall b :: b in db + [] ==> b in db + node; }
    var m := CollectDb(db);
    m := CollectNode(m, db, node);
    forall k | k in m && m[k].db.Some? && m[k].node.Some? ensures m[k].db.value.root == m[k].node.value.root {
      SameKeySameRoot(m, db, node, k);
    }
    epochs := Compare(m);
    forall e ensures e in epochs <==> Differs(db, node, e) {
      QueueMeans(m, db, node, e);
    }
  }

  predicate Queues(c: Container, key: Key) {
    c.db.None? || (c.node.None? && !MarksMissed(key))
  }

  lemma QueueMeans(m: map<Key, Container>, db: seq<MinimalBlock>, node: seq<MinimalBlock>, e: u64)
    requires Collected(m, db, node) && EpochsBySlot(db, node)
    ensures (exists k :: k in m.Keys && Queues(m[k], k) && m[k].epoch == e) <==> Differs(db, node, e)
  {
    if k :| k in m.Keys && Queues(m[k], k) && m[k].epoch == e {
      var b := if m[k].db.Some? then m[k].db.value else m[k].node.value;
      EntryMeans(m, db, node, b);
      MissedExactly(b.slot, b.root);
    }
    if b :| b in db && b.epoch == e && !Has(node, b.slot, b.root) && b.root != [0] {
      EntryMeans(m, db, node, b);
      MissedExactly(b.slot, b.root);
      SameEpoch(m[KeyOf(b)], db, node, b);
    }
    if b :| b in node && b.epoch == e && !Has(db, b.slot, b.root) {
      EntryMeans(m, db, node, b);
      SameEpoch(m[KeyOf(b)], db, node, b);
    }
  }
}
