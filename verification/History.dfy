/** What a run leaves of its own past: no row is lost from the books, no number is used
    twice, and nothing the administrator did disappears. */
module History {
  import opened Basics
  import opened Rows
  import opened Chains
  import opened Register
  import opened Log
  import opened Batches
  import opened Runs
  import Names

  // ---------------------------------------------------------- conservation

  function AppendedTo(steps: seq<Step>, c: string): nat {
    if steps == [] then 0
    else AppendedTo(steps[..|steps| - 1], c) + AppendsTo(steps[|steps| - 1], c)
  }

  function AppendsTo(s: Step, c: string): nat {
    if s.Append? && s.entry.chain == c then 1 else 0
  }

  /** The rows a chain has, and the rows its markers stand for. */
  function Balance(db: Db, c: string): int {
    |Select(db.rows, OfChain(c))| + RemovedSum(Select(db.rows, MarkersFor(c)))
  }

  lemma ExecBalance(db: Db, s: Step, c: string)
    requires Inv(db) && Allowed(s) && c != CHAIN_INSTANCE
    ensures Balance(Exec(db, s), c) == Balance(db, c) + AppendsTo(s, c)
  {
    hide Select, RemovedSum, Sound, HeadNamed, RemoveBatch, DropAll, SweepBatch, NewRow, Taken;
    if s.Append? {
      NewRowShape(db, s.entry);
      SelectOne(db.rows, NewRow(db, s.entry), OfChain(c));
      SelectOne(db.rows, NewRow(db, s.entry), MarkersFor(c));
    } else {
      SoundIsNumbered(db);
      TakenIsBatch(db, s);
      ExecRemoves(db, s);
      assert RemovedAt(db, Exec(db, s), Taken(db, s), s.moment, c);
      BatchIsFront(db.rows, Taken(db, s), c);
    }
  }

  /** Per chain, the live rows and the rows its markers stand for are together the rows ever
      appended to it, whatever was swept, absorbed or dropped in between. */
  lemma {:induction false} Conservation(steps: seq<Step>, c: string)
    requires AllAllowed(steps) && c != CHAIN_INSTANCE
    ensures |Select(Run(steps).rows, OfChain(c))| + RemovedSum(Select(Run(steps).rows, MarkersFor(c)))
            == AppendedTo(steps, c)
  {
    hide Select, RemovedSum, Inv, Exec;
    if steps == [] {
      SelectNone([], OfChain(c));
      SelectNone([], MarkersFor(c));
      RemovedSumNone();
    } else {
      var front := steps[..|steps| - 1];
      Conservation(front, c);
      EveryRunInv(front);
      ExecBalance(Run(front), steps[|steps| - 1], c);
    }
  }

  // ---- the same over the whole store: sums over a list of chains

  function RowsIn(rows: seq<Row>, keys: seq<string>): int {
    if keys == [] then 0
    else RowsIn(rows, keys[..|keys| - 1]) + |Select(rows, OfChain(keys[|keys| - 1]))|
  }

  function RemovedIn(rows: seq<Row>, keys: seq<string>): int {
    if keys == [] then 0
    else RemovedIn(rows, keys[..|keys| - 1]) + RemovedSum(Select(rows, MarkersFor(keys[|keys| - 1])))
  }

  function AppendedIn(steps: seq<Step>, keys: seq<string>): int {
    if keys == [] then 0
    else AppendedIn(steps, keys[..|keys| - 1]) + AppendedTo(steps, keys[|keys| - 1])
  }

  /** Rows ever appended outside the instance chain. */
  function AppendedOutside(steps: seq<Step>): nat {
    if steps == [] then 0
    else AppendedOutside(steps[..|steps| - 1])
         + if steps[|steps| - 1].Append? && steps[|steps| - 1].entry.chain != CHAIN_INSTANCE then 1 else 0
  }

  lemma {:induction false} ConservationIn(steps: seq<Step>, keys: seq<string>)
    requires AllAllowed(steps) && CHAIN_INSTANCE !in keys
    ensures RowsIn(Run(steps).rows, keys) + RemovedIn(Run(steps).rows, keys) == AppendedIn(steps, keys)
  {
    hide Run, Select, RemovedSum, AppendedTo;
    if keys != [] {
      ConservationIn(steps, keys[..|keys| - 1]);
      Conservation(steps, keys[|keys| - 1]);
    }
  }

  lemma {:induction false} RowsInOne(rows: seq<Row>, r: Row, keys: seq<string>)
    requires Names.Distinct(keys)
    ensures RowsIn(rows + [r], keys) == RowsIn(rows, keys) + if r.entry.chain in keys then 1 else 0
  {
    hide Select;
    if keys != [] {
      RowsInOne(rows, r, keys[..|keys| - 1]);
      SelectOne(rows, r, OfChain(keys[|keys| - 1]));
    }
  }

  lemma {:induction false} RowsInAll(rows: seq<Row>, keys: seq<string>)
    requires Names.Distinct(keys) && CHAIN_INSTANCE !in keys
    requires forall r :: r in rows && r.entry.chain != CHAIN_INSTANCE ==> r.entry.chain in keys
    ensures RowsIn(rows, keys) == |Select(rows, Sweepable)|
  {
    hide RowsIn;
    if rows == [] {
      RowsInEmpty(keys);
    } else {
      var a, r := rows[..|rows| - 1], rows[|rows| - 1];
      assert rows == a + [r];
      RowsInAll(a, keys);
      RowsInOne(a, r, keys);
      SelectOne(a, r, Sweepable);
    }
  }

  lemma {:induction false} RowsInEmpty(keys: seq<string>)
    ensures RowsIn([], keys) == 0 && RemovedIn([], keys) == 0
  {
    if keys != [] {
      RowsInEmpty(keys[..|keys| - 1]);
    }
  }

  lemma {:induction false} RemovedInOne(rows: seq<Row>, r: Row, keys: seq<string>)
    requires Names.Distinct(keys)
    ensures RemovedIn(rows + [r], keys)
            == RemovedIn(rows, keys)
               + if exists c :: c in keys && Matches(MarkersFor(c), r) then RemovedOf(r.entry) else 0
  {
    hide Select, RemovedSum;
    if keys != [] {
      var front, c := keys[..|keys| - 1], keys[|keys| - 1];
      RemovedInOne(rows, r, front);
      SelectOne(rows, r, MarkersFor(c));
      RemovedSumConcat(Select(rows, MarkersFor(c)), [r]);
      RemovedSumOne(r);
      assert keys == front + [c];
      assert Matches(MarkersFor(c), r) ==> forall d :: d in front ==> !Matches(MarkersFor(d), r);
    }
  }

  lemma {:induction false} RemovedInAll(rows: seq<Row>, keys: seq<string>)
    requires Names.Distinct(keys)
    requires forall r :: r in rows ==> RegisteredEntry(r.entry)
    requires forall r :: r in rows && r.entry.kind == KIND_TOMBSTONE ==> Get(r.entry.gapChain, "") in keys
    ensures RemovedIn(rows, keys) == RemovedSum(Select(rows, OfKind(KIND_TOMBSTONE)))
  {
    hide RemovedIn, RemovedSum;
    if rows == [] {
      RowsInEmpty(keys);
      RemovedSumNone();
      assert Select(rows, OfKind(KIND_TOMBSTONE)) == [];
    } else {
      var a, r := rows[..|rows| - 1], rows[|rows| - 1];
      assert rows == a + [r];
      RemovedInAll(a, keys);
      RemovedInOne(a, r, keys);
      SelectOne(a, r, OfKind(KIND_TOMBSTONE));
      RemovedSumConcat(Select(a, OfKind(KIND_TOMBSTONE)), [r]);
      RemovedSumOne(r);
      if r.entry.kind == KIND_TOMBSTONE {
        assert Matches(MarkersFor(r.entry.gapChain.value), r);
      }
    }
  }

  lemma {:induction false} AppendedInOne(steps: seq<Step>, s: Step, keys: seq<string>)
    requires Names.Distinct(keys)
    ensures AppendedIn(steps + [s], keys)
            == AppendedIn(steps, keys) + if s.Append? && s.entry.chain in keys then 1 else 0
  {
    if keys != [] {
      assert (steps + [s])[..|steps + [s]| - 1] == steps;
      AppendedInOne(steps, s, keys[..|keys| - 1]);
    }
  }

  lemma {:induction false} AppendedInAll(steps: seq<Step>, keys: seq<string>)
    requires Names.Distinct(keys) && CHAIN_INSTANCE !in keys
    requires forall s :: s in steps && s.Append? && s.entry.chain != CHAIN_INSTANCE ==> s.entry.chain in keys
    ensures AppendedIn(steps, keys) == AppendedOutside(steps)
  {
    hide AppendedIn;
    if steps == [] {
      AppendedInEmpty(keys);
    } else {
      var a, s := steps[..|steps| - 1], steps[|steps| - 1];
      assert steps == a + [s];
      AppendedInAll(a, keys);
      AppendedInOne(a, s, keys);
    }
  }

  lemma {:induction false} AppendedInEmpty(keys: seq<string>)
    ensures AppendedIn([], keys) == 0
  {
    if keys != [] {
      AppendedInEmpty(keys[..|keys| - 1]);
    }
  }

  /** The sum the overview reports as explained is exactly the number of rows that ever went:
      everything appended outside the instance chain, less what is still there. */
  lemma ExplainedEntriesExact(steps: seq<Step>)
    requires AllAllowed(steps)
    ensures RemovedSum(Select(Run(steps).rows, OfKind(KIND_TOMBSTONE)))
            == AppendedOutside(steps) - |Select(Run(steps).rows, Sweepable)|
  {
    hide Select, RemovedSum, Run, Inv;
    EveryRunInv(steps);
    InvIsRegistered(Run(steps));
    var keys := KeysOf(steps);
    ConservationIn(steps, keys);
    RowsInAll(Run(steps).rows, keys);
    RemovedInAll(Run(steps).rows, keys);
    AppendedInAll(steps, keys);
  }

  /** Every chain outside the instance chain the run or its markers speak of. */
  lemma KeysOf(steps: seq<Step>) returns (keys: seq<string>)
    ensures Names.Distinct(keys) && CHAIN_INSTANCE !in keys
    ensures forall r :: r in Run(steps).rows && r.entry.chain != CHAIN_INSTANCE ==> r.entry.chain in keys
    ensures forall c :: c in GapChains(Run(steps).rows) && c != CHAIN_INSTANCE ==> c in keys
    ensures forall s :: s in steps && s.Append? && s.entry.chain != CHAIN_INSTANCE ==> s.entry.chain in keys
  {
    hide Run, GapChains;
    var names := ChainsOf(Run(steps).rows) + GapChains(Run(steps).rows) + AppendedChains(steps) - {CHAIN_INSTANCE};
    keys := Names.Sorted(names);
    Names.SortedDistinct(names);
  }

  function AppendedChains(steps: seq<Step>): set<string> {
    set s | s in steps && s.Append? :: s.entry.chain
  }

  lemma InvIsRegistered(db: Db)
    requires Inv(db)
    ensures forall r :: r in db.rows ==> RegisteredEntry(r.entry)
    ensures forall r :: r in db.rows && r.entry.kind == KIND_TOMBSTONE ==>
              Get(r.entry.gapChain, "") in GapChains(db.rows) - {CHAIN_INSTANCE}
  {
    hide Select, Intact, HeadNamed;
  }

  // --------------------------------------------------------------- numbers

  /** Rows kept are rows that were there; what is new carries a new number. */
  ghost predicate Continues(db: Db, after: Db) {
    && db.counter <= after.counter
    && forall r :: r in after.rows && r.no <= db.counter ==> r in db.rows
  }

  lemma WriteMarkersContinues(db: Db, moment: int, ends: map<string, string>, counts: map<string, int>)
    requires Numbered(db)
    ensures Continues(db, WriteMarkers(db, moment, ends, counts))
  {
    hide Select, WriteMarkers, Intact, EntryFor, AllMarkers;
    var keys, l, added := WriteMarkersRows(db, moment, ends, counts);
    KeptIs(db.rows);
    SelectMembers(db.rows, Outside(Numbers(Superseded(db.rows))));
  }

  lemma ExecContinues(db: Db, s: Step)
    requires Inv(db) && Allowed(s)
    ensures Continues(db, Exec(db, s))
  {
    hide Select, Intact, HeadNamed, NewRow, WriteMarkers;
    SelectMembers(db.rows, Outside(Numbers(Taken(db, s))));
    match s
    case Append(e) =>
      NewRowShape(db, e);
    case DropAccount(user, moment) =>
      var chain, batch := UserChain(user), Taken(db, s);
      NewRowShape(Db(Without(db.rows, batch), db.counter),
                  MarkerEntry(chain, |batch|, Hex(LastHash(batch, chain)), moment));
    case _ =>
      TakenIsBatch(db, s);
      RemoveSound(db, Taken(db, s));
      WriteMarkersContinues(Db(Without(db.rows, Taken(db, s)), db.counter), s.moment,
                            EndsOf(Taken(db, s)), CountsOf(Taken(db, s)));
  }

  lemma {:induction false} RunFromContinues(db: Db, steps: seq<Step>)
    requires Inv(db) && AllAllowed(steps)
    ensures Continues(db, RunFrom(db, steps))
  {
    hide Inv, Exec;
    if steps != [] {
      var front := steps[..|steps| - 1];
      RunFromContinues(db, front);
      RunInv(db, front);
      ExecContinues(RunFrom(db, front), steps[|steps| - 1]);
    }
  }

  /** A number belongs to one row for ever: whatever run follows, a row that carries a number
      already handed out is the row that carried it then. Swept rows and absorbed markers take
      their numbers with them. */
  lemma NumbersNeverReused(steps: seq<Step>, more: seq<Step>)
    requires AllAllowed(steps) && AllAllowed(more)
    ensures Ordered(Run(steps + more).rows)
    ensures Run(steps).counter <= Run(steps + more).counter
    ensures forall r :: r in Run(steps + more).rows && r.no <= Run(steps).counter ==> r in Run(steps).rows
    ensures forall r, s :: r in Run(steps).rows && s in Run(steps + more).rows && r.no == s.no ==> r == s
  {
    hide RunFrom, Sound, HeadNamed;
    EveryRunInv(steps);
    RunInv(Run(steps), more);
    RunSplits(EMPTY_DB, steps, more);
    RunFromContinues(Run(steps), more);
    SoundIsNumbered(Run(steps));
    SoundIsNumbered(Run(steps + more));
    forall r, s | r in Run(steps).rows && s in Run(steps + more).rows && r.no == s.no ensures r == s {
      SameNumberSameRow(Run(steps).rows, r, s);
    }
  }

  /** No chain of any run forks: two of its rows never point at the same predecessor. */
  lemma EveryRunWithoutForks(steps: seq<Step>, c: string, i: nat, j: nat)
    requires AllAllowed(steps) && i < j < |Select(Run(steps).rows, OfChain(c))|
    ensures Select(Run(steps).rows, OfChain(c))[i].prev != Select(Run(steps).rows, OfChain(c))[j].prev
  {
    hide Run, Select, Intact;
    EveryRunIsClean(steps, c);
    NoFork(Select(Run(steps).rows, OfChain(c)), i, j);
  }

  // --------------------------------------------------------- switch history

  /** The rows of the instance chain that are no markers: only an append adds to them. */
  lemma ExecBarriers(db: Db, s: Step, q: Query)
    requires Inv(db) && Allowed(s) && (q == Barriers || q == Switches)
    ensures Select(Exec(db, s).rows, q)
            == if s.Append? && Matches(q, NewRow(db, s.entry)) then Select(db.rows, q) + [NewRow(db, s.entry)]
               else Select(db.rows, q)
  {
    hide Select, Intact, HeadNamed, NewRow, WriteMarkers, MarkerEntry;
    if s.Append? {
      SelectOne(db.rows, NewRow(db, s.entry), q);
    } else if Taken(db, s) != [] {
      var batch := Taken(db, s);
      var mid := Db(Without(db.rows, batch), db.counter);
      TakenIsBatch(db, s);
      BatchSparesInstance(db.rows, batch);
      SelectWithin(db.rows, OfChain(CHAIN_INSTANCE), q);
      SelectWithin(mid.rows, OfChain(CHAIN_INSTANCE), q);
      RemoveSound(db, batch);
      if s.DropAccount? {
        var c := UserChain(s.user);
        var e := MarkerEntry(c, |batch|, Hex(LastHash(batch, c)), s.moment);
        MarkerEntryShape(c, |batch|, Hex(LastHash(batch, c)), s.moment);
        NewRowShape(mid, e);
        SelectOne(mid.rows, NewRow(mid, e), q);
      } else {
        WriteMarkersKeeps(mid, s.moment, EndsOf(batch), CountsOf(batch), q);
      }
    }
  }

  function InstanceAppends(steps: seq<Step>): seq<Entry> {
    if steps == [] then []
    else
      var s := steps[|steps| - 1];
      InstanceAppends(steps[..|steps| - 1]) + if s.Append? && s.entry.chain == CHAIN_INSTANCE then [s.entry] else []
  }

  function EntriesOf(rows: seq<Row>): seq<Entry> {
    seq(|rows|, i requires 0 <= i < |rows| => rows[i].entry)
  }

  /** What was appended to the instance chain is all still there, in the order it happened:
      no sweep, no consolidation and no account drop removes or reorders a switch row. */
  lemma {:induction false} InstanceHistory(steps: seq<Step>)
    requires AllAllowed(steps)
    ensures EntriesOf(Select(Run(steps).rows, Barriers)) == InstanceAppends(steps)
  {
    hide Select, Inv, Exec, NewRow;
    if steps == [] {
      SelectNone([], Barriers);
    } else {
      var front, s := steps[..|steps| - 1], steps[|steps| - 1];
      InstanceHistory(front);
      EveryRunInv(front);
      ExecBarriers(Run(front), s, Barriers);
      if s.Append? {
        NewRowShape(Run(front), s.entry);
      }
    }
  }
}
