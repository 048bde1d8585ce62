/** The register of markers stays small however often the sweep runs. */
module RegisterBound {
  import opened Basics
  import opened Rows
  import opened Register
  import opened Log
  import opened Batches
  import opened Runs
  import opened History
  import Names

  ghost predicate DistinctGaps(run: seq<Row>) {
    forall i, j :: 0 <= i < j < |run| ==> run[i].entry.gapChain != run[j].entry.gapChain
  }

  /** In the order of the chains they speak of. */
  ghost predicate InNameOrder(run: seq<Row>) {
    forall i, j :: 0 <= i < j < |run| ==>
      Names.Before(Get(run[i].entry.gapChain, ""), Get(run[j].entry.gapChain, ""))
  }

  function Front(rows: seq<Row>): seq<Row> {
    var inst := Select(rows, OfChain(CHAIN_INSTANCE));
    inst[..RunStart(inst)]
  }

  lemma InstanceParts(rows: seq<Row>)
    requires Ordered(rows)
    ensures Select(rows, OfChain(CHAIN_INSTANCE)) == Front(rows) + Superseded(rows)
    ensures AllMarkers(Superseded(rows))
    ensures Front(rows) != [] ==> !IsMarker(Front(rows)[|Front(rows)| - 1].entry)
  {
    var inst := Select(rows, OfChain(CHAIN_INSTANCE));
    SelectMembers(rows, OfChain(CHAIN_INSTANCE));
    forall i | 0 <= i < |inst| ensures inst[i].entry.chain == CHAIN_INSTANCE {
      assert inst[i] in inst;
    }
    RunStartIsMaximal(inst);
  }

  /** A consolidation replaces the trailing run and nothing else of the instance chain, and
      the new markers stand in the order of the chains they speak of, one for each. */
  lemma ConsolidatedRun(db: Db, moment: int, ends: map<string, string>, counts: map<string, int>)
    requires Numbered(db)
    ensures var after := WriteMarkers(db, moment, ends, counts);
            && Front(after.rows) == Front(db.rows)
            && DistinctGaps(Superseded(after.rows)) && InNameOrder(Superseded(after.rows))
            && |Superseded(after.rows)| == |ends.Keys + GapChains(Superseded(db.rows))|
            && GapChains(Superseded(after.rows)) == ends.Keys + GapChains(Superseded(db.rows))
  {
    hide HashOf, Select, EntryFor, LastHash, Intact, WriteMarkers, AllMarkers, RunStart, Superseded, Kept;
    var keys, l, added := WriteMarkersRows(db, moment, ends, counts);
    KeptInstance(db.rows);
    KeptAppended(db.rows, added);
    AddedGaps(added, Db(Kept(db.rows), db.counter), keys, l);
  }

  lemma KeptAppended(rows: seq<Row>, added: seq<Row>)
    requires Ordered(rows) && AllMarkers(added)
    ensures Front(Kept(rows) + added) == Front(rows) && Superseded(Kept(rows) + added) == added
  {
    hide Select, Kept, RunStart;
    KeptInstance(rows);
    SelectConcat(Kept(rows), added, OfChain(CHAIN_INSTANCE));
    SelectAll(added, OfChain(CHAIN_INSTANCE));
    InstanceParts(rows);
    RunStartUnique(Front(rows), added);
  }

  lemma AddedGaps(added: seq<Row>, db: Db, keys: seq<string>, l: Ledger)
    requires Covers(l, keys) && NewMarkers(added, db, keys, l) && Names.Distinct(keys)
    requires forall c :: c in keys <==> c in l.ends
    requires forall i, j :: 0 <= i < j < |keys| ==> Names.Before(keys[i], keys[j])
    ensures DistinctGaps(added) && InNameOrder(added) && GapChains(added) == l.ends.Keys
  {
    hide HashOf, EntryFor, LastHash, Intact, Names.Before;
    forall i | 0 <= i < |added| ensures IsMarker(added[i].entry) && added[i].entry.gapChain == Some(keys[i]) {
      EntryForShape(l, keys[i]);
    }
    forall c | c in l.ends ensures c in GapChains(added) {
      var i :| 0 <= i < |keys| && keys[i] == c;
      assert added[i] in added;
    }
    forall c | c in GapChains(added) ensures c in l.ends {
      var r :| r in added && IsMarker(r.entry) && r.entry.gapChain.value == c;
      var i := IndexOf(added, r);
    }
  }

  // ------------------------------------------------------------- the bound

  function Tombstones(rows: seq<Row>): nat {
    |Select(rows, OfKind(KIND_TOMBSTONE))|
  }

  lemma TombstonesSplit(db: Db)
    requires Sound(db)
    ensures Tombstones(db.rows) == Tombstones(Front(db.rows)) + |Superseded(db.rows)|
  {
    hide Select, Intact, Superseded, Front;
    InstanceParts(db.rows);
    SelectWithin(db.rows, OfChain(CHAIN_INSTANCE), OfKind(KIND_TOMBSTONE));
    SelectConcat(Front(db.rows), Superseded(db.rows), OfKind(KIND_TOMBSTONE));
    SelectAll(Superseded(db.rows), OfKind(KIND_TOMBSTONE));
  }

  /** Before the trailing run: at most one marker per lost chain and barrier, and one per drop;
      with it, one more per lost chain. */
  ghost predicate Bounded(db: Db, lost: set<string>, drops: nat) {
    var b := |Select(db.rows, Barriers)|;
    && GapChains(Superseded(db.rows)) <= lost
    && Tombstones(Front(db.rows)) <= b * |lost| + drops
    && Tombstones(Front(db.rows)) + |Superseded(db.rows)| <= (b + 1) * |lost| + drops
  }

  lemma Grows(b: nat, small: set<string>, big: set<string>)
    requires small <= big
    ensures |small| <= |big| && b * |small| <= b * |big| && (b + 1) * |big| == b * |big| + |big|
  {
    SubsetSize(small, big);
  }

  lemma {:induction false} SubsetSize(small: set<string>, big: set<string>)
    requires small <= big
    ensures |small| <= |big|
  {
    assert big == small + (big - small);
  }

  lemma RemoveBatchBounded(db: Db, moment: int, batch: seq<Row>, lost: set<string>, drops: nat)
    requires Sound(db) && SweepBatch(db.rows, batch) && Bounded(db, lost, drops)
    ensures Bounded(RemoveBatch(db, moment, batch), lost + ChainsOf(batch), drops)
  {
    hide Select, Intact, SweepBatch, WriteMarkers, Superseded, Without, Front, Tombstones, GapChains;
    var mid := Db(Without(db.rows, batch), db.counter);
    var after := RemoveBatch(db, moment, batch);
    RemoveSound(db, batch);
    SameInstance(db.rows, batch);
    WithoutBarriers(db, batch);
    WriteMarkersKeeps(mid, moment, EndsOf(batch), CountsOf(batch), Barriers);
    ConsolidatedRun(mid, moment, EndsOf(batch), CountsOf(batch));
    var b := |Select(db.rows, Barriers)|;
    Grows(b, lost, lost + ChainsOf(batch));
    Grows(b, GapChains(Superseded(after.rows)), lost + ChainsOf(batch));
    EndsKeys(batch);
  }

  lemma EndsKeys(batch: seq<Row>)
    ensures EndsOf(batch).Keys == ChainsOf(batch)
  {
  }

  lemma SameInstance(rows: seq<Row>, batch: seq<Row>)
    requires Ordered(rows) && SweepBatch(rows, batch)
    ensures Front(Without(rows, batch)) == Front(rows) && Superseded(Without(rows, batch)) == Superseded(rows)
  {
    BatchSparesInstance(rows, batch);
  }

  lemma WithoutBarriers(db: Db, batch: seq<Row>)
    requires Numbered(db) && SweepBatch(db.rows, batch)
    ensures Select(Without(db.rows, batch), Barriers) == Select(db.rows, Barriers)
  {
    BatchSparesInstance(db.rows, batch);
    SelectWithin(db.rows, OfChain(CHAIN_INSTANCE), Barriers);
    SelectWithin(Without(db.rows, batch), OfChain(CHAIN_INSTANCE), Barriers);
  }

  lemma AppendParts(db: Db, e: Entry)
    requires Numbered(db)
    ensures var rows := AppendRow(db, e).rows;
            if e.chain != CHAIN_INSTANCE then
              Front(rows) == Front(db.rows) && Superseded(rows) == Superseded(db.rows)
            else if IsMarker(e) then
              Front(rows) == Front(db.rows) && Superseded(rows) == Superseded(db.rows) + [NewRow(db, e)]
            else
              Front(rows) == Front(db.rows) + Superseded(db.rows) + [NewRow(db, e)] && Superseded(rows) == []
  {
    hide Select, RunStart, NewRow, Ordered, Intact, IsMarker, LastHash;
    var r := NewRow(db, e);
    NewRowShape(db, e);
    InstanceParts(db.rows);
    SelectOne(db.rows, r, OfChain(CHAIN_INSTANCE));
    var front, run := Front(db.rows), Superseded(db.rows);
    if e.chain == CHAIN_INSTANCE {
      if IsMarker(e) {
        assert (front + run) + [r] == front + (run + [r]);
        RunStartUnique(front, run + [r]);
      } else {
        assert (front + run + [r]) + [] == front + run + [r];
        RunStartUnique(front + run + [r], []);
      }
    }
  }

  lemma AppendBounded(db: Db, e: Entry, lost: set<string>, drops: nat)
    requires Sound(db) && e.kind != KIND_TOMBSTONE && Bounded(db, lost, drops)
    ensures Bounded(AppendRow(db, e), lost, drops)
  {
    hide Select, Intact, NewRow, Superseded, Front, AppendRow;
    var r, after := NewRow(db, e), AppendRow(db, e);
    var b := |Select(db.rows, Barriers)|;
    NewRowShape(db, e);
    AppendParts(db, e);
    AppendIs(db, e);
    SelectOne(db.rows, r, Barriers);
    if e.chain == CHAIN_INSTANCE {
      SelectOne(Front(db.rows) + Superseded(db.rows), r, OfKind(KIND_TOMBSTONE));
      SelectConcat(Front(db.rows), Superseded(db.rows), OfKind(KIND_TOMBSTONE));
      assert (b + 1) * |lost| <= (b + 2) * |lost|;
    }
  }

  lemma AppendIs(db: Db, e: Entry)
    ensures AppendRow(db, e).rows == db.rows + [NewRow(db, e)]
  {
  }

  lemma DropAllBounded(db: Db, chain: string, moment: int, batch: seq<Row>, lost: set<string>, drops: nat)
    requires Sound(db) && SweepBatch(db.rows, batch) && Bounded(db, lost, drops)
    ensures Bounded(DropAll(db, chain, moment, batch), lost + {chain}, drops + 1)
  {
    hide Select, Intact, NewRow, Superseded, Front, SweepBatch, Without, AppendRow, MarkerEntry, Tombstones;
    var mid := Db(Without(db.rows, batch), db.counter);
    var e := MarkerEntry(chain, |batch|, Hex(LastHash(batch, chain)), moment);
    MarkerEntryShape(chain, |batch|, Hex(LastHash(batch, chain)), moment);
    RemoveSound(db, batch);
    SameInstance(db.rows, batch);
    WithoutBarriers(db, batch);
    NewRowShape(mid, e);
    AppendParts(mid, e);
    AppendIs(mid, e);
    SelectOne(mid.rows, NewRow(mid, e), Barriers);
    Grows(|Select(db.rows, Barriers)|, lost, lost + {chain});
  }

  // ------------------------------------------------------------ over a run

  /** The chains that ever lost a row, and how often an account took its chain with it. */
  function Lost(steps: seq<Step>): set<string> {
    if steps == [] then {}
    else Lost(steps[..|steps| - 1]) + ChainsOf(Taken(Run(steps[..|steps| - 1]), steps[|steps| - 1]))
  }

  function Drops(steps: seq<Step>): nat {
    if steps == [] then 0
    else
      var s := steps[|steps| - 1];
      Drops(steps[..|steps| - 1]) + if s.DropAccount? && Taken(Run(steps[..|steps| - 1]), s) != [] then 1 else 0
  }

  lemma ExecBounded(db: Db, s: Step, lost: set<string>, drops: nat)
    requires Inv(db) && Allowed(s) && Bounded(db, lost, drops)
    ensures Bounded(Exec(db, s), lost + ChainsOf(Taken(db, s)),
                    drops + if s.DropAccount? && Taken(db, s) != [] then 1 else 0)
  {
    hide Bounded, HeadNamed, RemoveBatch, DropAll, AppendRow, SweepBatch, Select;
    var batch := Taken(db, s);
    if s.Append? {
      AppendBounded(db, s.entry, lost, drops);
      assert lost + ChainsOf(batch) == lost;
    } else if batch == [] {
      assert lost + ChainsOf(batch) == lost;
    } else {
      TakenIsBatch(db, s);
      if s.DropAccount? {
        DropAllBounded(db, UserChain(s.user), s.moment, batch, lost, drops);
        OneChain(db.rows, UserChain(s.user));
      } else {
        RemoveBatchBounded(db, s.moment, batch, lost, drops);
      }
    }
  }

  lemma OneChain(rows: seq<Row>, c: string)
    requires Select(rows, OfChain(c)) != []
    ensures ChainsOf(Select(rows, OfChain(c))) == {c}
  {
    SelectMembers(rows, OfChain(c));
    var batch := Select(rows, OfChain(c));
    assert batch[0] in batch;
  }

  lemma {:induction false} RunBounded(steps: seq<Step>)
    requires AllAllowed(steps)
    ensures Bounded(Run(steps), Lost(steps), Drops(steps))
  {
    hide Bounded, Inv, Exec, Taken, ChainsOf, Allowed;
    if steps == [] {
      EmptyBounded();
    } else {
      var front := steps[..|steps| - 1];
      RunBounded(front);
      EveryRunInv(front);
      ExecBounded(Run(front), steps[|steps| - 1], Lost(front), Drops(front));
    }
  }

  lemma EmptyBounded()
    ensures Bounded(EMPTY_DB, {}, 0)
  {
  }

  /** The register grows with switches, with chains that ever lost a row and with dropped
      accounts, and never with the number of sweeps. */
  lemma RegisterStaysBounded(steps: seq<Step>)
    requires AllAllowed(steps)
    ensures Tombstones(Run(steps).rows) <= (|InstanceAppends(steps)| + 1) * |Lost(steps)| + Drops(steps)
  {
    hide Run, Lost, Drops, Inv, Select, InstanceAppends;
    RunBounded(steps);
    EveryRunInv(steps);
    InvIsNumbered(Run(steps));
    TombstonesSplit(Run(steps));
    InstanceHistory(steps);
    assert |EntriesOf(Select(Run(steps).rows, Barriers))| == |InstanceAppends(steps)|;
  }
}
