/** Writing a row, and the consolidation of the markers at the end of the instance chain. */
module Register {
  import opened Basics
  import opened Rows
  import Names

  /** The rows in key order, and the counter behind their numbers. */
  datatype Db = Db(rows: seq<Row>, counter: nat)

  const EMPTY_DB := Db([], 0)

  function LastHash(rows: seq<Row>, chain: string): Hash {
    var c := Select(rows, OfChain(chain));
    if c == [] then Genesis else c[|c| - 1].hash
  }

  lemma LastOf(rows: seq<Row>, c: string)
    ensures var all := Select(rows, OfChain(c));
            LastHash(rows, c) == LastHash(all, c) == if all == [] then Genesis else all[|all| - 1].hash
  {
    SelectWithin(rows, OfChain(c), OfChain(c));
  }

  function NewRow(db: Db, e: Entry): Row {
    var prev := LastHash(db.rows, e.chain);
    Row(db.counter + 1, e, prev, HashOf(db.counter + 1, e, prev))
  }

  function AppendRow(db: Db, e: Entry): Db {
    Db(db.rows + [NewRow(db, e)], db.counter + 1)
  }

  // ------------------------------------------------------ the trailing run

  /** Where the trailing run of markers of the instance chain begins. */
  function RunStart(inst: seq<Row>): (k: nat)
    ensures k <= |inst|
  {
    if inst == [] || !IsMarker(inst[|inst| - 1].entry) then |inst|
    else RunStart(inst[..|inst| - 1])
  }

  ghost predicate AllMarkers(run: seq<Row>) {
    forall i :: 0 <= i < |run| ==> run[i].entry.chain == CHAIN_INSTANCE && IsMarker(run[i].entry)
  }

  lemma {:induction false} RunStartIsMaximal(inst: seq<Row>)
    requires forall i :: 0 <= i < |inst| ==> inst[i].entry.chain == CHAIN_INSTANCE
    ensures AllMarkers(inst[RunStart(inst)..])
    ensures RunStart(inst) > 0 ==> !IsMarker(inst[RunStart(inst) - 1].entry)
  {
    hide IsMarker;
    if inst != [] && IsMarker(inst[|inst| - 1].entry) {
      var front, k := inst[..|inst| - 1], RunStart(inst[..|inst| - 1]);
      RunStartIsMaximal(front);
      assert inst[k..] == front[k..] + [inst[|inst| - 1]];
    }
  }

  lemma {:induction false} RunStartUnique(front: seq<Row>, run: seq<Row>)
    requires AllMarkers(run)
    requires front != [] ==> !IsMarker(front[|front| - 1].entry)
    ensures RunStart(front + run) == |front|
  {
    if run == [] {
      assert front + run == front;
    } else {
      assert (front + run)[..|front + run| - 1] == front + run[..|run| - 1];
      RunStartUnique(front, run[..|run| - 1]);
    }
  }

  /** The rows a consolidation absorbs. */
  function Superseded(rows: seq<Row>): seq<Row> {
    var inst := Select(rows, OfChain(CHAIN_INSTANCE));
    inst[RunStart(inst)..]
  }

  /** The rows that stay when the trailing run goes. */
  function Kept(rows: seq<Row>): seq<Row> {
    Select(rows, Outside(Numbers(Superseded(rows))))
  }

  // ------------------------------------------------------------ the ledger

  /** What the new markers will say: per chain the digest of the last row that went, how many
      rows it stands for, and the moment. */
  datatype Ledger =
    Ledger(ends: map<string, string>, counts: map<string, int>, ats: map<string, int>)

  function GapChains(run: seq<Row>): set<string> {
    set r | r in run && IsMarker(r.entry) :: r.entry.gapChain.value
  }

  function CountIn(counts: map<string, int>, c: string): int {
    if c in counts then counts[c] else 0
  }

  function LastEnd(markers: seq<Row>): Option<string> {
    if markers == [] then None else markers[|markers| - 1].entry.gapHash
  }

  function LastAt(markers: seq<Row>): int {
    if markers == [] then 0 else markers[|markers| - 1].entry.at
  }

  /** The end the newest marker of a chain names: the one that explains the chain's head. */
  function EndNamed(rows: seq<Row>, c: string): Option<string> {
    LastEnd(Select(rows, MarkersFor(c)))
  }

  function EndIn(ends: map<string, string>, run: seq<Row>, c: string): string {
    if c in ends then ends[c] else Get(EndNamed(run, c), "")
  }

  function AtIn(ends: map<string, string>, moment: int, run: seq<Row>, c: string): int {
    if c in ends then moment else LastAt(Select(run, MarkersFor(c)))
  }

  /** The batch's own ends and counts, with the run absorbed into them. */
  function Absorbed(run: seq<Row>, moment: int, ends: map<string, string>,
                    counts: map<string, int>): (l: Ledger)
    ensures l.ends.Keys == l.counts.Keys == l.ats.Keys == ends.Keys + GapChains(run)
  {
    var keys := ends.Keys + GapChains(run);
    Ledger(map c | c in keys :: EndIn(ends, run, c),
           map c | c in keys :: CountIn(counts, c) + RemovedSum(Select(run, MarkersFor(c))),
           map c | c in keys :: AtIn(ends, moment, run, c))
  }

  // ----------------------------------------------------------- the markers

  function MarkerEntry(c: string, count: int, end: string, at: int): Entry {
    Entry(CHAIN_INSTANCE, KIND_TOMBSTONE, at, actor := Some(ACTOR_UNKNOWN), removed := Some(count),
          gapChain := Some(c), gapHash := Some(end))
  }

  ghost predicate Covers(l: Ledger, keys: seq<string>) {
    forall c :: c in keys ==> c in l.ends && c in l.counts && c in l.ats
  }

  function EntryFor(l: Ledger, c: string): Entry
    requires c in l.ends && c in l.counts && c in l.ats
  {
    MarkerEntry(c, l.counts[c], l.ends[c], l.ats[c])
  }

  function AppendMarkers(db: Db, keys: seq<string>, l: Ledger): Db
    requires Covers(l, keys)
  {
    if keys == [] then db
    else AppendRow(AppendMarkers(db, keys[..|keys| - 1], l), EntryFor(l, keys[|keys| - 1]))
  }

  /** One consolidated marker per chain, in place of the trailing run. */
  function WriteMarkers(db: Db, moment: int, ends: map<string, string>,
                        counts: map<string, int>): Db
  {
    var l := Absorbed(Superseded(db.rows), moment, ends, counts);
    AppendMarkers(Db(Kept(db.rows), db.counter), Names.Sorted(l.ends.Keys), l)
  }

  // ------------------------------------------------------- its effect, I

  ghost predicate NewMarkers(added: seq<Row>, db: Db, keys: seq<string>, l: Ledger)
    requires Covers(l, keys)
  {
    && |added| == |keys|
    && (forall i :: 0 <= i < |added| ==>
          && added[i].no == db.counter + 1 + i
          && added[i].entry == EntryFor(l, keys[i])
          && Intact(added[i]))
    && (added != [] ==> added[0].prev == LastHash(db.rows, CHAIN_INSTANCE))
    && (forall i :: 0 < i < |added| ==> added[i].prev == added[i - 1].hash)
  }

  lemma EntryForShape(l: Ledger, c: string)
    requires c in l.ends && c in l.counts && c in l.ats
    ensures var e := EntryFor(l, c);
            e.chain == CHAIN_INSTANCE && IsMarker(e) && e.gapChain == Some(c) &&
            e.gapHash == Some(l.ends[c]) && e.removed == Some(l.counts[c]) && e.at == l.ats[c]
  {
  }

  lemma NewRowShape(db: Db, e: Entry)
    ensures var r := NewRow(db, e);
            r.no == db.counter + 1 && r.entry == e && Intact(r) && r.prev == LastHash(db.rows, e.chain)
  {
  }

  lemma LastHashOfNew(rows: seq<Row>, r: Row)
    ensures LastHash(rows + [r], r.entry.chain) == r.hash
  {
    SelectOne(rows, r, OfChain(r.entry.chain));
  }

  lemma NewMarkersMore(prior: seq<Row>, r: Row, db: Db, keys: seq<string>, l: Ledger)
    requires keys != [] && Covers(l, keys) && NewMarkers(prior, db, keys[..|keys| - 1], l)
    requires r.no == db.counter + |keys| && r.entry == EntryFor(l, keys[|keys| - 1]) && Intact(r)
    requires r.prev == if prior == [] then LastHash(db.rows, CHAIN_INSTANCE) else prior[|prior| - 1].hash
    ensures NewMarkers(prior + [r], db, keys, l)
  {
    hide EntryFor, LastHash, Intact;
    var added := prior + [r];
    forall i | 0 <= i < |added|
      ensures added[i].no == db.counter + 1 + i && added[i].entry == EntryFor(l, keys[i]) && Intact(added[i])
    {
      if i < |prior| {
        assert added[i] == prior[i] && keys[i] == keys[..|keys| - 1][i];
      }
    }
    forall i | 0 < i < |added| ensures added[i].prev == added[i - 1].hash {
      assert added[i - 1] == prior[i - 1];
      if i < |prior| {
        assert added[i] == prior[i];
      }
    }
  }

  lemma {:induction false} AppendMarkersRows(db: Db, keys: seq<string>, l: Ledger)
    returns (added: seq<Row>)
    requires Covers(l, keys)
    ensures AppendMarkers(db, keys, l) == Db(db.rows + added, db.counter + |keys|)
    ensures NewMarkers(added, db, keys, l)
    ensures LastHash(db.rows + added, CHAIN_INSTANCE)
            == if added == [] then LastHash(db.rows, CHAIN_INSTANCE) else added[|added| - 1].hash
  {
    hide HashOf, EntryFor, NewRow, LastHash, Intact, IsMarker;
    if keys == [] {
      added := [];
      assert db.rows + added == db.rows;
    } else {
      var front, c := keys[..|keys| - 1], keys[|keys| - 1];
      var prior := AppendMarkersRows(db, front, l);
      var mid := AppendMarkers(db, front, l);
      var r := NewRow(mid, EntryFor(l, c));
      EntryForShape(l, c);
      NewRowShape(mid, EntryFor(l, c));
      LastHashOfNew(mid.rows, r);
      added := prior + [r];
      assert mid.rows + [r] == db.rows + added;
      NewMarkersMore(prior, r, db, keys, l);
    }
  }

  lemma NewMarkersAreMarkers(added: seq<Row>, db: Db, keys: seq<string>, l: Ledger)
    requires Covers(l, keys) && NewMarkers(added, db, keys, l)
    ensures AllMarkers(added)
  {
    hide HashOf, EntryFor, LastHash, Intact;
    forall i | 0 <= i < |added|
      ensures added[i].entry.chain == CHAIN_INSTANCE && IsMarker(added[i].entry)
    {
      EntryForShape(l, keys[i]);
    }
  }

  lemma NewMarkersOf(added: seq<Row>, db: Db, keys: seq<string>, l: Ledger, c: string)
    requires Covers(l, keys) && NewMarkers(added, db, keys, l) && Names.Distinct(keys)
    ensures c !in keys ==> Select(added, MarkersFor(c)) == []
    ensures c in keys ==> exists r :: Select(added, MarkersFor(c)) == [r] && r.entry == EntryFor(l, c)
  {
    hide HashOf, EntryFor, LastHash, Intact, Select;
    forall i | 0 <= i < |added|
      ensures Matches(MarkersFor(c), added[i]) <==> keys[i] == c
    {
      EntryForShape(l, keys[i]);
    }
    if c !in keys {
      SelectNone(added, MarkersFor(c));
    } else {
      var i :| 0 <= i < |keys| && keys[i] == c;
      SelectSingle(added, i, MarkersFor(c));
    }
  }

  // ------------------------------------------------------ its effect, II

  ghost predicate Numbered(db: Db) {
    Ordered(db.rows) && forall r :: r in db.rows ==> 1 <= r.no <= db.counter
  }

  lemma SupersededRows(rows: seq<Row>)
    requires Ordered(rows)
    ensures AllMarkers(Superseded(rows))
    ensures forall r :: r in rows && r.no in Numbers(Superseded(rows)) ==> r in Superseded(rows)
    ensures forall r :: r in Superseded(rows) ==> r in rows
  {
    var inst := Select(rows, OfChain(CHAIN_INSTANCE));
    SelectMembers(rows, OfChain(CHAIN_INSTANCE));
    forall i | 0 <= i < |inst| ensures inst[i].entry.chain == CHAIN_INSTANCE {
      assert inst[i] in inst;
    }
    RunStartIsMaximal(inst);
    var run := Superseded(rows);
    forall r | r in rows && r.no in Numbers(run) ensures r in run {
      var s :| s in run && s.no == r.no;
      assert s in inst;
      SameNumberSameRow(rows, r, s);
    }
  }

  lemma MarkerInRun(run: seq<Row>, r: Row)
    requires AllMarkers(run)
    ensures r in run ==> r.entry.chain == CHAIN_INSTANCE && IsMarker(r.entry)
  {
    if r in run {
      var i := IndexOf(run, r);
    }
  }

  /** A condition no marker of the instance chain meets does not notice the removal. */
  lemma KeptSelect(rows: seq<Row>, q: Query)
    requires Ordered(rows)
    requires forall r :: r in rows && r.entry.chain == CHAIN_INSTANCE && IsMarker(r.entry) ==> !Matches(q, r)
    ensures Select(Kept(rows), q) == Select(rows, q)
  {
    SupersededRows(rows);
    var run := Superseded(rows);
    forall r | r in rows && Matches(q, r) ensures r.no !in Numbers(run) {
      MarkerInRun(run, r);
    }
    SelectUntouched(rows, Numbers(run), q);
  }

  lemma KeptInstance(rows: seq<Row>)
    requires Ordered(rows)
    ensures var inst := Select(rows, OfChain(CHAIN_INSTANCE));
            Select(Kept(rows), OfChain(CHAIN_INSTANCE)) == inst[..RunStart(inst)]
  {
    hide Select, RunStart, Numbers;
    var inst := Select(rows, OfChain(CHAIN_INSTANCE));
    var run, front := Superseded(rows), inst[..RunStart(inst)];
    SelectCommutes(rows, Outside(Numbers(run)), OfChain(CHAIN_INSTANCE));
    SelectOrdered(rows, OfChain(CHAIN_INSTANCE));
    assert inst == front + run;
    OrderedHalves(front, run);
    SelectBack(front, run, Numbers(run));
  }

  lemma KeptMarkers(rows: seq<Row>, c: string)
    requires Ordered(rows)
    ensures Select(rows, MarkersFor(c))
            == Select(Kept(rows), MarkersFor(c)) + Select(Superseded(rows), MarkersFor(c))
  {
    hide Select, RunStart, Kept;
    var inst := Select(rows, OfChain(CHAIN_INSTANCE));
    var front := inst[..RunStart(inst)];
    KeptInstance(rows);
    SelectWithin(rows, OfChain(CHAIN_INSTANCE), MarkersFor(c));
    SelectWithin(Kept(rows), OfChain(CHAIN_INSTANCE), MarkersFor(c));
    assert inst == front + Superseded(rows);
    SelectConcat(front, Superseded(rows), MarkersFor(c));
  }

  /** The shape of a consolidation: what stays, followed by one marker per chain in order. */
  lemma WriteMarkersRows(db: Db, moment: int, ends: map<string, string>, counts: map<string, int>)
    returns (keys: seq<string>, l: Ledger, added: seq<Row>)
    ensures l == Absorbed(Superseded(db.rows), moment, ends, counts)
    ensures keys == Names.Sorted(l.ends.Keys) && Names.Distinct(keys) && Covers(l, keys)
    ensures NewMarkers(added, Db(Kept(db.rows), db.counter), keys, l)
    ensures WriteMarkers(db, moment, ends, counts) == Db(Kept(db.rows) + added, db.counter + |keys|)
    ensures AllMarkers(added)
  {
    hide HashOf, Select, EntryFor, LastHash, Intact, NewMarkers, Absorbed, Superseded, AppendMarkers, AllMarkers,
         GapChains, Kept, Names.Before;
    l := Absorbed(Superseded(db.rows), moment, ends, counts);
    keys := Names.Sorted(l.ends.Keys);
    Names.SortedDistinct(l.ends.Keys);
    added := AppendMarkersRows(Db(Kept(db.rows), db.counter), keys, l);
    NewMarkersAreMarkers(added, Db(Kept(db.rows), db.counter), keys, l);
  }

  /** What no marker matches, a consolidation leaves as it is: every other chain, the switch
      rows, the barriers. */
  lemma WriteMarkersKeeps(db: Db, moment: int, ends: map<string, string>, counts: map<string, int>, q: Query)
    requires Numbered(db)
    requires forall r: Row :: r.entry.chain == CHAIN_INSTANCE && IsMarker(r.entry) ==> !Matches(q, r)
    ensures Select(WriteMarkers(db, moment, ends, counts).rows, q) == Select(db.rows, q)
  {
    hide HashOf, Select, EntryFor, LastHash, Intact, WriteMarkers;
    var keys, l, added := WriteMarkersRows(db, moment, ends, counts);
    KeptSelect(db.rows, q);
    SelectConcat(Kept(db.rows), added, q);
    SelectNone(added, q);
  }

  /** The run holds a marker of the chain exactly when the chain is among its gap chains. */
  lemma RunMarkers(run: seq<Row>, c: string)
    requires AllMarkers(run)
    ensures c in GapChains(run) <==> Select(run, MarkersFor(c)) != []
    ensures c in GapChains(run) ==> EndNamed(run, c).Some?
  {
    SelectMembers(run, MarkersFor(c));
    var m := Select(run, MarkersFor(c));
    if m != [] {
      assert m[0] in m && m[|m| - 1] in m;
    }
    if c in GapChains(run) {
      var r :| r in run && IsMarker(r.entry) && r.entry.gapChain.value == c;
      var i := IndexOf(run, r);
      assert r in m;
    }
  }

  lemma AbsorbedAt(run: seq<Row>, moment: int, ends: map<string, string>, counts: map<string, int>, c: string)
    requires c in ends || c in GapChains(run)
    ensures var l := Absorbed(run, moment, ends, counts);
            && l.ends[c] == EndIn(ends, run, c)
            && l.ats[c] == AtIn(ends, moment, run, c)
            && l.counts[c] == CountIn(counts, c) + RemovedSum(Select(run, MarkersFor(c)))
  {
  }

  /** What a consolidation that absorbed `gone` writes for one chain. A chain the batch did not
      touch keeps the end and the moment of its youngest marker. */
  ghost predicate OneMarkerFor(added: seq<Row>, gone: seq<Row>, moment: int, ends: map<string, string>,
                               counts: map<string, int>, c: string)
  {
    if c !in ends && gone == [] then added == []
    else
      && |added| == 1
      && added[0].entry.removed == Some(CountIn(counts, c) + RemovedSum(gone))
      && added[0].entry.gapHash == (if c in ends then Some(ends[c]) else LastEnd(gone))
      && added[0].entry.at == if c in ends then moment else LastAt(gone)
  }

  lemma LedgerMarker(l: Ledger, run: seq<Row>, moment: int, ends: map<string, string>,
                     counts: map<string, int>, c: string)
    requires AllMarkers(run) && l == Absorbed(run, moment, ends, counts)
    ensures c in l.ends <==> c in ends || Select(run, MarkersFor(c)) != []
    ensures c in l.ends ==> c in l.counts && c in l.ats
    ensures c in l.ends ==>
              forall r: Row :: r.entry == EntryFor(l, c) ==>
                OneMarkerFor([r], Select(run, MarkersFor(c)), moment, ends, counts, c)
  {
    hide Select, RemovedSum, Absorbed;
    RunMarkers(run, c);
    if c in l.ends {
      AbsorbedAt(run, moment, ends, counts, c);
      EntryForShape(l, c);
    }
  }

  lemma AddedFor(added: seq<Row>, db: Db, keys: seq<string>, l: Ledger, gone: seq<Row>,
                 moment: int, ends: map<string, string>, counts: map<string, int>, c: string)
    requires Covers(l, keys) && NewMarkers(added, db, keys, l) && Names.Distinct(keys)
    requires c in keys <==> c in ends || gone != []
    requires c in keys ==>
               forall r: Row :: r.entry == EntryFor(l, c) ==> OneMarkerFor([r], gone, moment, ends, counts, c)
    ensures OneMarkerFor(Select(added, MarkersFor(c)), gone, moment, ends, counts, c)
  {
    hide Select, EntryFor, NewMarkers;
    NewMarkersOf(added, db, keys, l, c);
  }

  /** The markers of one chain before and after a consolidation: the absorbed ones `gone` give
      way to at most one, which carries their count and the youngest end. */
  lemma MarkersAfter(db: Db, moment: int, ends: map<string, string>, counts: map<string, int>, c: string)
    returns (kept: seq<Row>, gone: seq<Row>, added: seq<Row>)
    requires Numbered(db)
    ensures Select(db.rows, MarkersFor(c)) == kept + gone
    ensures Select(WriteMarkers(db, moment, ends, counts).rows, MarkersFor(c)) == kept + added
    ensures OneMarkerFor(added, gone, moment, ends, counts, c)
  {
    hide HashOf, Select, EntryFor, LastHash, WriteMarkers, NewMarkers, Superseded, Absorbed, Kept,
         AllMarkers, OneMarkerFor;
    var keys, l, rows := WriteMarkersRows(db, moment, ends, counts);
    var run := Superseded(db.rows);
    kept, gone, added := Select(Kept(db.rows), MarkersFor(c)), Select(run, MarkersFor(c)), Select(rows, MarkersFor(c));
    SupersededRows(db.rows);
    LedgerMarker(l, run, moment, ends, counts, c);
    KeptMarkers(db.rows, c);
    SelectConcat(Kept(db.rows), rows, MarkersFor(c));
    AddedFor(rows, Db(Kept(db.rows), db.counter), keys, l, gone, moment, ends, counts, c);
  }

  /** No count is lost: per chain, the markers stand for what they stood for plus what the
      batch took. */
  lemma WriteMarkersCounts(db: Db, moment: int, ends: map<string, string>, counts: map<string, int>, c: string)
    requires Numbered(db) && ends.Keys == counts.Keys
    ensures RemovedSum(Select(WriteMarkers(db, moment, ends, counts).rows, MarkersFor(c)))
            == RemovedSum(Select(db.rows, MarkersFor(c))) + CountIn(counts, c)
  {
    hide Select, WriteMarkers, RemovedSum, LastEnd, LastAt, Ordered;
    var kept, gone, added := MarkersAfter(db, moment, ends, counts, c);
    RemovedSumNone();
    RemovedSumConcat(kept, gone);
    RemovedSumConcat(kept, added);
    if added != [] {
      assert added == [added[0]];
      RemovedSumOne(added[0]);
    }
  }

  /** The explanation survives: the newest marker of a chain names the end the batch left
      there, at the moment of the batch, or what the newest marker of that chain named before,
      at the moment it had. */
  lemma WriteMarkersNewest(db: Db, moment: int, ends: map<string, string>, counts: map<string, int>, c: string)
    requires Numbered(db)
    ensures EndNamed(WriteMarkers(db, moment, ends, counts).rows, c)
            == if c in ends then Some(ends[c]) else EndNamed(db.rows, c)
    ensures LastAt(Select(WriteMarkers(db, moment, ends, counts).rows, MarkersFor(c)))
            == if c in ends then moment else LastAt(Select(db.rows, MarkersFor(c)))
  {
    hide Select, WriteMarkers;
    var kept, gone, added := MarkersAfter(db, moment, ends, counts, c);
  }
}
