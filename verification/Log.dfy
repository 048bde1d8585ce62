/** The four transactions of the store as steps on a value, and what every step keeps. */
module Log {
  import opened Basics
  import opened Rows
  import opened Chains
  import opened Register
  import Names

  // ---------------------------------------------------------- the invariant

  /** It carries nothing of the rows it stands for: no account, no tool, no client, no outcome and
      no parameter name, and nobody is named as the one who acted. */
  predicate Bare(e: Entry) {
    && e.actor == Some("unknown") && e.ncUser.None? && e.tool.None? && e.clientId.None? && e.authId.None?
    && e.clientName.None? && e.outcome.None? && e.reason.None? && e.durationMs.None? && e.params == "[]"
  }

  ghost predicate RegisteredEntry(e: Entry) {
    e.kind == KIND_TOMBSTONE ==>
      && e.chain == CHAIN_INSTANCE && IsMarker(e) && e.removed.Some? && e.gapChain != Some(CHAIN_INSTANCE)
      && Bare(e)
  }

  /** What holds even between the statements of one transaction. */
  ghost predicate Sound(db: Db) {
    && Numbered(db)
    && (forall r :: r in db.rows ==> RegisteredEntry(r.entry) && Intact(r))
    && (forall c :: Linked(Select(db.rows, OfChain(c))))
    && FromGenesis(Select(db.rows, OfChain(CHAIN_INSTANCE)))
  }

  ghost predicate FromGenesis(c: seq<Row>) {
    c != [] ==> c[0].prev == Genesis
  }

  /** The head of a chain points at genesis, or at the end its newest marker names. */
  ghost predicate HeadNamed(rows: seq<Row>, c: string) {
    var cr := Select(rows, OfChain(c));
    cr != [] && cr[0].prev != Genesis ==> EndNamed(rows, c) == Some(Hex(cr[0].prev))
  }

  /** What holds after every commit. */
  ghost predicate Inv(db: Db) {
    Sound(db) && forall c :: c != CHAIN_INSTANCE ==> HeadNamed(db.rows, c)
  }

  // ------------------------------------------------------------- appending

  lemma AppendSound(db: Db, e: Entry)
    requires Sound(db) && RegisteredEntry(e)
    ensures Sound(AppendRow(db, e))
  {
    hide HashOf, Intact, RegisteredEntry, NewRow, LastHash, Select;
    var r := NewRow(db, e);
    NewRowShape(db, e);
    forall c ensures Linked(Select(db.rows + [r], OfChain(c))) {
      AppendLinked(db, e, c);
    }
    AppendFromGenesis(db, e);
  }

  lemma AppendLinked(db: Db, e: Entry, c: string)
    requires Linked(Select(db.rows, OfChain(c)))
    ensures Linked(Select(db.rows + [NewRow(db, e)], OfChain(c)))
  {
    hide HashOf, Intact, Select;
    SelectOne(db.rows, NewRow(db, e), OfChain(c));
  }

  lemma AppendFromGenesis(db: Db, e: Entry)
    requires FromGenesis(Select(db.rows, OfChain(CHAIN_INSTANCE)))
    ensures FromGenesis(Select(db.rows + [NewRow(db, e)], OfChain(CHAIN_INSTANCE)))
  {
    hide HashOf, Intact, Select;
    SelectOne(db.rows, NewRow(db, e), OfChain(CHAIN_INSTANCE));
  }

  lemma {:induction false} AppendMarkersSound(db: Db, keys: seq<string>, l: Ledger)
    requires Sound(db) && Covers(l, keys) && CHAIN_INSTANCE !in keys
    ensures Sound(AppendMarkers(db, keys, l))
  {
    hide Sound, AppendRow;
    if keys != [] {
      var front, c := keys[..|keys| - 1], keys[|keys| - 1];
      AppendMarkersSound(db, front, l);
      EntryForShape(l, c);
      AppendSound(AppendMarkers(db, front, l), EntryFor(l, c));
    }
  }

  // -------------------------------------------------------------- removing

  /** Rows that go together: outside the instance chain, and per chain everything before a
      row that goes, goes too. */
  ghost predicate SweepBatch(rows: seq<Row>, batch: seq<Row>) {
    && batch == Select(rows, Among(Numbers(batch)))
    && (forall r :: r in batch ==> r.entry.chain != CHAIN_INSTANCE)
    && (forall r, s :: r in batch && s in rows && s.entry.chain == r.entry.chain && s.no <= r.no ==> s in batch)
  }

  function Without(rows: seq<Row>, batch: seq<Row>): seq<Row> {
    Select(rows, Outside(Numbers(batch)))
  }

  /** With a row everything before it in the chain is named as well. */
  ghost predicate ClosedFront(c: seq<Row>, gone: set<int>) {
    forall i, j :: 0 <= i <= j < |c| && c[j].no in gone ==> c[i].no in gone
  }

  /** A chain whose removed numbers are closed towards its beginning falls into the rows that
      go and the rows that stay. */
  lemma {:induction false} FrontSplit(c: seq<Row>, gone: set<int>) returns (a: seq<Row>, b: seq<Row>)
    requires ClosedFront(c, gone)
    ensures c == a + b
    ensures (forall r :: r in a ==> r.no in gone) && forall r :: r in b ==> r.no !in gone
  {
    if c == [] || c[|c| - 1].no in gone {
      a, b := c, [];
    } else {
      var front := c[..|c| - 1];
      a, b := FrontSplit(front, gone);
      b := b + [c[|c| - 1]];
    }
  }

  /** A batch takes a contiguous front of every chain, and nothing of the rest. */
  lemma BatchIsFront(rows: seq<Row>, batch: seq<Row>, c: string)
    requires Ordered(rows) && SweepBatch(rows, batch)
    ensures Select(rows, OfChain(c)) == Select(batch, OfChain(c)) + Select(Without(rows, batch), OfChain(c))
  {
    hide Select;
    var gone := Numbers(batch);
    BatchIsClosedIn(rows, batch, c);
    var a, b := FrontSplit(Select(rows, OfChain(c)), gone);
    SelectFront(a, b, gone);
    SelectCommutes(rows, OfChain(c), Among(gone));
    SelectCommutes(rows, OfChain(c), Outside(gone));
  }

  lemma BatchIsClosedIn(rows: seq<Row>, batch: seq<Row>, c: string)
    requires Ordered(rows) && SweepBatch(rows, batch)
    ensures ClosedFront(Select(rows, OfChain(c)), Numbers(batch))
  {
    hide Select;
    var cr, gone := Select(rows, OfChain(c)), Numbers(batch);
    SelectMembers(rows, OfChain(c));
    SelectOrdered(rows, OfChain(c));
    SelectMembers(rows, Among(gone));
    forall i, j | 0 <= i <= j < |cr| && cr[j].no in gone ensures cr[i].no in gone {
      assert cr[i] in cr && cr[j] in cr;
    }
  }

  lemma RemoveSound(db: Db, batch: seq<Row>)
    requires Sound(db) && SweepBatch(db.rows, batch)
    ensures Sound(Db(Without(db.rows, batch), db.counter))
  {
    hide Intact, RegisteredEntry, SweepBatch, Select;
    var rest := Without(db.rows, batch);
    SelectMembers(db.rows, Outside(Numbers(batch)));
    SelectOrdered(db.rows, Outside(Numbers(batch)));
    forall c ensures Linked(Select(rest, OfChain(c))) {
      BatchIsFront(db.rows, batch, c);
      LinkedTail(Select(batch, OfChain(c)), Select(rest, OfChain(c)));
    }
    BatchSparesInstance(db.rows, batch);
  }

  lemma BatchSparesInstance(rows: seq<Row>, batch: seq<Row>)
    requires Ordered(rows) && SweepBatch(rows, batch)
    ensures Select(Without(rows, batch), OfChain(CHAIN_INSTANCE)) == Select(rows, OfChain(CHAIN_INSTANCE))
  {
    BatchIsFront(rows, batch, CHAIN_INSTANCE);
    SelectNone(batch, OfChain(CHAIN_INSTANCE));
  }

  lemma LinkedTail(a: seq<Row>, b: seq<Row>)
    requires Linked(a + b)
    ensures Linked(b)
    ensures a != [] && b != [] ==> b[0].prev == a[|a| - 1].hash
  {
    var c := a + b;
    forall i | 0 < i < |b| ensures b[i].prev == b[i - 1].hash {
      assert c[|a| + i] == b[i] && c[|a| + i - 1] == b[i - 1];
    }
    if a != [] && b != [] {
      assert c[|a|] == b[0] && c[|a| - 1] == a[|a| - 1];
    }
  }

  lemma WriteMarkersSound(db: Db, moment: int, ends: map<string, string>, counts: map<string, int>)
    requires Sound(db) && CHAIN_INSTANCE !in ends
    ensures Sound(WriteMarkers(db, moment, ends, counts))
  {
    hide Select, AppendMarkers, Absorbed, Superseded, Kept, Sound, GapChains, Names.Before, Ordered,
         Intact, Names.Sorted;
    var l := Absorbed(Superseded(db.rows), moment, ends, counts);
    KeptSound(db);
    GapChainsRegistered(db);
    AppendMarkersSound(Db(Kept(db.rows), db.counter), Names.Sorted(l.ends.Keys), l);
  }

  lemma KeptSound(db: Db)
    requires Sound(db)
    ensures Sound(Db(Kept(db.rows), db.counter))
  {
    hide HashOf, Intact, Select, RegisteredEntry, Superseded, Kept;
    var gone := Numbers(Superseded(db.rows));
    KeptIs(db.rows);
    SelectMembers(db.rows, Outside(gone));
    SelectOrdered(db.rows, Outside(gone));
    forall c ensures Linked(Select(Kept(db.rows), OfChain(c))) {
      KeptLinked(db, c);
    }
    KeptInstance(db.rows);
  }

  lemma KeptIs(rows: seq<Row>)
    ensures Kept(rows) == Select(rows, Outside(Numbers(Superseded(rows))))
  {
  }

  lemma KeptLinked(db: Db, c: string)
    requires Sound(db)
    ensures Linked(Select(Kept(db.rows), OfChain(c)))
  {
    hide HashOf, Intact, Select, RegisteredEntry, Kept, RunStart, Ordered;
    if c == CHAIN_INSTANCE {
      KeptInstance(db.rows);
      var inst := Select(db.rows, OfChain(CHAIN_INSTANCE));
      assert inst == inst[..RunStart(inst)] + inst[RunStart(inst)..];
    } else {
      KeptSelect(db.rows, OfChain(c));
    }
  }

  lemma GapChainsRegistered(db: Db)
    requires Sound(db)
    ensures CHAIN_INSTANCE !in GapChains(Superseded(db.rows))
  {
    hide HashOf, Intact, Select, Superseded;
    SupersededRows(db.rows);
  }
}
