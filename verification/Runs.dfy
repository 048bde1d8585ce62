/** Runs of the store: any interleaving of committed transactions, from an empty file on.
    Every step is one transaction, so a crash is nothing but the end of a run. */
module Runs {
  import opened Basics
  import opened Rows
  import opened Chains
  import opened Register
  import opened Log
  import opened Batches

  /** One committed transaction. The moments, the cutoff and the batch sizes are arbitrary, so
      a step stands for whatever worker, clock and configuration took it. */
  datatype Step =
    | Append(entry: Entry)
    | Expire(moment: int, cutoff: int, limit: nat)
    | Trim(moment: int, limit: nat)
    | DropAccount(user: string, moment: int)

  /** The application appends calls, refusals and switches; markers are the store's own. */
  ghost predicate Allowed(s: Step) {
    s.Append? ==> s.entry.kind != KIND_TOMBSTONE
  }

  /** The rows a step takes out of the chains outside the instance chain. */
  function Taken(db: Db, s: Step): seq<Row> {
    match s
    case Append(_) => []
    case Expire(_, cutoff, limit) => Batch(db.rows, ExpiredNumbers(db.rows, cutoff), limit)
    case Trim(_, limit) => Batch(db.rows, SweepableNumbers(db.rows), limit)
    case DropAccount(user, _) => Select(db.rows, OfChain(UserChain(user)))
  }

  function DropAll(db: Db, chain: string, moment: int, batch: seq<Row>): Db {
    AppendRow(Db(Without(db.rows, batch), db.counter),
              MarkerEntry(chain, |batch|, Hex(LastHash(batch, chain)), moment))
  }

  function Exec(db: Db, s: Step): Db {
    match s
    case Append(e) => AppendRow(db, e)
    case Expire(moment, _, _) => if Taken(db, s) == [] then db else RemoveBatch(db, moment, Taken(db, s))
    case Trim(moment, _) => if Taken(db, s) == [] then db else RemoveBatch(db, moment, Taken(db, s))
    case DropAccount(user, moment) =>
      if Taken(db, s) == [] then db else DropAll(db, UserChain(user), moment, Taken(db, s))
  }

  function RunFrom(db: Db, steps: seq<Step>): Db {
    if steps == [] then db else Exec(RunFrom(db, steps[..|steps| - 1]), steps[|steps| - 1])
  }

  function Run(steps: seq<Step>): Db {
    RunFrom(EMPTY_DB, steps)
  }

  lemma {:induction false} RunSplits(db: Db, a: seq<Step>, b: seq<Step>)
    ensures RunFrom(db, a + b) == RunFrom(RunFrom(db, a), b)
  {
    if b == [] {
      assert a + b == a;
    } else {
      assert (a + b)[..|a + b| - 1] == a + b[..|b| - 1];
      RunSplits(db, a, b[..|b| - 1]);
    }
  }

  ghost predicate AllAllowed(steps: seq<Step>) {
    forall i :: 0 <= i < |steps| ==> Allowed(steps[i])
  }

  lemma UserChainIsOutside(user: string)
    ensures UserChain(user) != CHAIN_INSTANCE && UserChain(user) != CHAIN_EXCHANGE
  {
    assert UserChain(user)[0] == 'u' && CHAIN_INSTANCE[0] == 'i' && CHAIN_EXCHANGE[0] == 'x';
  }

  lemma InvIsNumbered(db: Db)
    requires Inv(db)
    ensures Numbered(db) && Sound(db)
  {
  }

  lemma SoundIsNumbered(db: Db)
    requires Sound(db)
    ensures Numbered(db)
  {
  }

  lemma WholeChainIsBatch(rows: seq<Row>, c: string)
    requires Ordered(rows) && c != CHAIN_INSTANCE
    ensures SweepBatch(rows, Select(rows, OfChain(c)))
  {
    hide Select;
    var b := Select(rows, OfChain(c));
    SelectMembers(rows, OfChain(c));
    forall r | r in rows && Matches(Among(Numbers(b)), r) ensures Matches(OfChain(c), r) {
      var s :| s in b && s.no == r.no;
      SameNumberSameRow(rows, r, s);
    }
    SelectWithin(rows, OfChain(c), Among(Numbers(b)));
    SelectAll(b, Among(Numbers(b)));
  }

  lemma TakenIsBatch(db: Db, s: Step)
    requires Numbered(db)
    ensures SweepBatch(db.rows, Taken(db, s))
  {
    hide Select;
    match s
    case Append(_) =>
      SelectNone(db.rows, Among(Numbers([])));
    case Expire(_, cutoff, limit) =>
      ExpiredAreCandidates(db.rows, cutoff);
      BatchRemoval(db.rows, ExpiredNumbers(db.rows, cutoff), limit);
    case Trim(_, limit) =>
      SweepableAreCandidates(db.rows);
      BatchRemoval(db.rows, SweepableNumbers(db.rows), limit);
    case DropAccount(user, _) =>
      UserChainIsOutside(user);
      WholeChainIsBatch(db.rows, UserChain(user));
  }

  // ------------------------------------------- what a removal does to a chain

  lemma ChainsOfBatch(batch: seq<Row>, c: string)
    ensures c in ChainsOf(batch) <==> Select(batch, OfChain(c)) != []
    ensures CountIn(CountsOf(batch), c) == |Select(batch, OfChain(c))|
    ensures c in EndsOf(batch) ==> EndsOf(batch)[c] == Hex(LastHash(batch, c))
  {
    SelectMembers(batch, OfChain(c));
    var m := Select(batch, OfChain(c));
    if m != [] {
      assert m[0] in m;
    }
  }

  /** Outside the instance chain a removal leaves the rest of every chain as it is, and says
      the same about it whether the marker is consolidated or not: the end of the block, its
      length and the moment are named, and nothing else changes. */
  ghost predicate Removed(db: Db, after: Db, batch: seq<Row>, moment: int) {
    Sound(after) && forall c :: c != CHAIN_INSTANCE ==> RemovedAt(db, after, batch, moment, c)
  }

  ghost predicate RemovedAt(db: Db, after: Db, batch: seq<Row>, moment: int, c: string) {
    && Select(after.rows, OfChain(c)) == Select(Without(db.rows, batch), OfChain(c))
    && RemovedSum(Select(after.rows, MarkersFor(c)))
       == RemovedSum(Select(db.rows, MarkersFor(c))) + |Select(batch, OfChain(c))|
    && EndNamed(after.rows, c)
       == (if Select(batch, OfChain(c)) == [] then EndNamed(db.rows, c) else Some(Hex(LastHash(batch, c))))
    && LastAt(Select(after.rows, MarkersFor(c)))
       == if Select(batch, OfChain(c)) == [] then LastAt(Select(db.rows, MarkersFor(c))) else moment
  }

  lemma WithoutMarkers(db: Db, batch: seq<Row>, c: string)
    requires Numbered(db) && SweepBatch(db.rows, batch)
    ensures Select(Without(db.rows, batch), MarkersFor(c)) == Select(db.rows, MarkersFor(c))
  {
    BatchSparesInstance(db.rows, batch);
    SelectWithin(db.rows, OfChain(CHAIN_INSTANCE), MarkersFor(c));
    SelectWithin(Without(db.rows, batch), OfChain(CHAIN_INSTANCE), MarkersFor(c));
  }

  lemma NoInstanceIn(db: Db, batch: seq<Row>)
    requires SweepBatch(db.rows, batch)
    ensures CHAIN_INSTANCE !in EndsOf(batch)
  {
  }

  lemma RemoveBatchRemoves(db: Db, moment: int, batch: seq<Row>)
    requires Sound(db) && SweepBatch(db.rows, batch)
    ensures Removed(db, RemoveBatch(db, moment, batch), batch, moment)
  {
    hide Select, SweepBatch, WriteMarkers, LastHash, Without, RemovedSum, Intact, RegisteredEntry;
    var mid := Db(Without(db.rows, batch), db.counter);
    RemoveSound(db, batch);
    NoInstanceIn(db, batch);
    WriteMarkersSound(mid, moment, EndsOf(batch), CountsOf(batch));
    forall c | c != CHAIN_INSTANCE
      ensures RemovedAt(db, RemoveBatch(db, moment, batch), batch, moment, c)
    {
      ChainsOfBatch(batch, c);
      WithoutMarkers(db, batch, c);
      WriteMarkersKeeps(mid, moment, EndsOf(batch), CountsOf(batch), OfChain(c));
      WriteMarkersCounts(mid, moment, EndsOf(batch), CountsOf(batch), c);
      WriteMarkersNewest(mid, moment, EndsOf(batch), CountsOf(batch), c);
    }
  }

  /** A dropped account leaves its one marker behind, without a consolidation. */
  lemma DropAllRemoves(db: Db, chain: string, moment: int, batch: seq<Row>)
    requires Sound(db) && SweepBatch(db.rows, batch) && batch != []
    requires chain != CHAIN_INSTANCE && forall r :: r in batch ==> r.entry.chain == chain
    ensures Removed(db, DropAll(db, chain, moment, batch), batch, moment)
  {
    hide Select, SweepBatch, LastHash, Without, RemovedSum, Intact, RegisteredEntry, NewRow, MarkerEntry;
    var mid := Db(Without(db.rows, batch), db.counter);
    var e := MarkerEntry(chain, |batch|, Hex(LastHash(batch, chain)), moment);
    MarkerEntryShape(chain, |batch|, Hex(LastHash(batch, chain)), moment);
    RemoveSound(db, batch);
    AppendSound(mid, e);
    NewRowShape(mid, e);
    SelectAll(batch, OfChain(chain));
    forall c | c != CHAIN_INSTANCE
      ensures RemovedAt(db, DropAll(db, chain, moment, batch), batch, moment, c)
    {
      WithoutMarkers(db, batch, c);
      SelectOne(mid.rows, NewRow(mid, e), OfChain(c));
      SelectOne(mid.rows, NewRow(mid, e), MarkersFor(c));
      RemovedSumConcat(Select(mid.rows, MarkersFor(c)), [NewRow(mid, e)]);
      RemovedSumOne(NewRow(mid, e));
      if c != chain {
        SelectNone(batch, OfChain(c));
      }
    }
  }

  lemma MarkerEntryShape(c: string, count: int, end: string, at: int)
    ensures var e := MarkerEntry(c, count, end, at);
            e.chain == CHAIN_INSTANCE && IsMarker(e) && e.gapChain == Some(c) &&
            e.gapHash == Some(end) && e.removed == Some(count) && e.at == at
    ensures c != CHAIN_INSTANCE ==> RegisteredEntry(MarkerEntry(c, count, end, at))
  {
  }

  lemma NothingRemoved(db: Db, moment: int)
    requires Sound(db)
    ensures Removed(db, db, [], moment)
  {
    hide Sound;
    SelectAll(db.rows, Outside(Numbers([])));
  }

  /** Every step but an append takes its rows and explains them. */
  lemma ExecRemoves(db: Db, s: Step)
    requires Sound(db) && !s.Append?
    ensures Removed(db, Exec(db, s), Taken(db, s), s.moment)
  {
    hide Select, Sound, SweepBatch, Removed, RemoveBatch, DropAll;
    var batch := Taken(db, s);
    SoundIsNumbered(db);
    TakenIsBatch(db, s);
    if batch == [] {
      NothingRemoved(db, s.moment);
    } else if s.DropAccount? {
      UserChainIsOutside(s.user);
      SelectMembers(db.rows, OfChain(UserChain(s.user)));
      DropAllRemoves(db, UserChain(s.user), s.moment, batch);
    } else {
      RemoveBatchRemoves(db, s.moment, batch);
    }
  }

  // ---------------------------------------------------- the check stays clean

  lemma EmptyInv()
    ensures Inv(EMPTY_DB)
  {
  }

  lemma RemovedInv(db: Db, after: Db, batch: seq<Row>, moment: int)
    requires Inv(db) && SweepBatch(db.rows, batch) && Removed(db, after, batch, moment)
    ensures Inv(after)
  {
    hide Select, SweepBatch, Without, RemovedSum, Intact, RegisteredEntry, EndNamed, Hex;
    forall c | c != CHAIN_INSTANCE ensures HeadNamed(after.rows, c) {
      assert RemovedAt(db, after, batch, moment, c) && HeadNamed(db.rows, c);
      BatchIsFront(db.rows, batch, c);
      var a, b := Select(batch, OfChain(c)), Select(after.rows, OfChain(c));
      assert Linked(a + b);
      LinkedTail(a, b);
    }
  }

  lemma AppendInv(db: Db, e: Entry)
    requires Inv(db) && e.kind != KIND_TOMBSTONE
    ensures Inv(AppendRow(db, e))
  {
    hide Select, Intact, NewRow, Hex;
    AppendSound(db, e);
    NewRowShape(db, e);
    var r := NewRow(db, e);
    forall c | c != CHAIN_INSTANCE ensures HeadNamed(AppendRow(db, e).rows, c) {
      assert HeadNamed(db.rows, c);
      SelectOne(db.rows, r, OfChain(c));
      SelectOne(db.rows, r, MarkersFor(c));
    }
  }

  lemma ExecInv(db: Db, s: Step)
    requires Inv(db) && Allowed(s)
    ensures Inv(Exec(db, s))
  {
    hide Sound, HeadNamed, Removed, AppendRow, RemoveBatch, DropAll, SweepBatch;
    if s.Append? {
      AppendInv(db, s.entry);
    } else {
      SoundIsNumbered(db);
      TakenIsBatch(db, s);
      ExecRemoves(db, s);
      RemovedInv(db, Exec(db, s), Taken(db, s), s.moment);
    }
  }

  lemma {:induction false} RunInv(db: Db, steps: seq<Step>)
    requires Inv(db) && AllAllowed(steps)
    ensures Inv(RunFrom(db, steps))
  {
    hide Inv, Exec;
    if steps != [] {
      RunInv(db, steps[..|steps| - 1]);
      ExecInv(RunFrom(db, steps[..|steps| - 1]), steps[|steps| - 1]);
    }
  }

  lemma EveryRunInv(steps: seq<Step>)
    requires AllAllowed(steps)
    ensures Inv(Run(steps))
  {
    EmptyInv();
    RunInv(EMPTY_DB, steps);
  }

  /** A tombstone of any run stands in the instance chain, names a gap of another one, and is bare. */
  lemma EveryMarkerIsBare(steps: seq<Step>, r: Row)
    requires AllAllowed(steps) && r in Run(steps).rows && r.entry.kind == KIND_TOMBSTONE
    ensures r.entry.chain == CHAIN_INSTANCE && r.entry.removed.Some? && r.entry.gapHash.Some?
    ensures r.entry.gapChain.Some? && r.entry.gapChain != Some(CHAIN_INSTANCE) && Bare(r.entry)
  {
    hide Run, Select;
    EveryRunInv(steps);
  }

  /** The ends the instance chain names for one chain: what the check accepts as explained. */
  function Explained(rows: seq<Row>, c: string): set<string> {
    set r | r in rows && Matches(MarkersFor(c), r) :: r.entry.gapHash.value
  }

  lemma InvIsClean(db: Db, c: string)
    requires Inv(db)
    ensures Clean(Select(db.rows, OfChain(c)), Explained(db.rows, c))
  {
    hide Select, RegisteredEntry, Intact, Hex;
    SelectMembers(db.rows, OfChain(c));
    SelectMembers(db.rows, MarkersFor(c));
    var cr, m := Select(db.rows, OfChain(c)), Select(db.rows, MarkersFor(c));
    forall i | 0 <= i < |cr| ensures Intact(cr[i]) {
      assert cr[i] in cr;
    }
    assert Linked(cr);
    if cr != [] && cr[0].prev != Genesis {
      assert HeadNamed(db.rows, c);
      assert m[|m| - 1] in m;
    }
  }

  /** Whatever appends, batches of either sweep, account drops and switches happened, in
      whatever order and with whatever clocks and batch sizes, and wherever a crash ended the
      run: every chain checks clean. */
  lemma EveryRunIsClean(steps: seq<Step>, c: string)
    requires AllAllowed(steps)
    ensures Clean(Select(Run(steps).rows, OfChain(c)), Explained(Run(steps).rows, c))
  {
    hide Inv, Select, Run, Clean;
    EveryRunInv(steps);
    InvIsClean(Run(steps), c);
  }
}
