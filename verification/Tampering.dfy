/** What a clean check of a whole store proves, when a store the application left behind was
    replaced by other rows and the last row of every chain is known. */
module Tampering {
  import opened Basics
  import opened Rows
  import opened Chains
  import opened Register
  import opened Log
  import opened Batches
  import opened Runs
  import opened History
  import opened Verify

  // ------------------------------------------------ markers name what is gone

  /** The digest of a row whose number was handed out and that is not there any more. */
  ghost predicate Spent(db: Db, end: string) {
    exists d: Row :: Intact(d) && d.no <= db.counter && d.no !in Numbers(db.rows) && end == Hex(d.hash)
  }

  ghost predicate AllSpent(db: Db) {
    forall c, end :: end in Explained(db.rows, c) ==> Spent(db, end)
  }

  lemma SpentStays(db: Db, after: Db, end: string)
    requires Spent(db, end) && Continues(db, after)
    ensures Spent(after, end)
  {
    hide Intact, Hex;
    var d :| Intact(d) && d.no <= db.counter && d.no !in Numbers(db.rows) && end == Hex(d.hash);
    assert d.no !in Numbers(after.rows);
  }

  lemma ExplainedBySelection(rows: seq<Row>, c: string, end: string)
    ensures end in Explained(rows, c) <==> exists m :: m in Select(rows, MarkersFor(c)) && m.entry.gapHash == Some(end)
  {
    SelectMembers(rows, MarkersFor(c));
  }

  /** A consolidation names no end but the ones it was given and the ones already named. */
  lemma WriteMarkersNames(db: Db, moment: int, ends: map<string, string>, counts: map<string, int>,
                          c: string, end: string)
    requires Numbered(db) && end in Explained(WriteMarkers(db, moment, ends, counts).rows, c)
    ensures end in Explained(db.rows, c) || (c in ends && end == ends[c])
  {
    hide Select, WriteMarkers, RemovedSum, Explained;
    var after := WriteMarkers(db, moment, ends, counts);
    var kept, gone, added := MarkersAfter(db, moment, ends, counts, c);
    ExplainedBySelection(after.rows, c, end);
    ExplainedBySelection(db.rows, c, end);
    var m: Row :| m in kept + added && m.entry.gapHash == Some(end);
    if m in kept {
      assert m in kept + gone;
    } else if c !in ends {
      assert gone != [] && gone[|gone| - 1] in kept + gone;
    }
  }

  lemma LastHashIsOf(batch: seq<Row>, c: string)
    requires Select(batch, OfChain(c)) != []
    ensures exists r :: r in batch && r.entry.chain == c && LastHash(batch, c) == r.hash
  {
    SelectMembers(batch, OfChain(c));
    var m := Select(batch, OfChain(c));
    assert m[|m| - 1] in m;
  }

  /** A removal names no end but the digest of a row it takes and the ones already named. */
  lemma ExecNames(db: Db, s: Step, c: string, end: string)
    requires Sound(db) && !s.Append? && end in Explained(Exec(db, s).rows, c)
    ensures end in Explained(db.rows, c) || exists r :: r in Taken(db, s) && end == Hex(r.hash)
  {
    hide Select, WriteMarkers, Explained, LastHash, Without, Intact, Hex, Taken, NewRow, RegisteredEntry, SweepBatch;
    var batch := Taken(db, s);
    var mid := Db(Without(db.rows, batch), db.counter);
    SoundIsNumbered(db);
    TakenIsBatch(db, s);
    if batch != [] {
      RemoveSound(db, batch);
      WithoutMarkers(db, batch, c);
      ExplainedBySelection(mid.rows, c, end);
      ExplainedBySelection(db.rows, c, end);
      if s.DropAccount? {
        var chain := UserChain(s.user);
        DropNames(mid, chain, MarkerEntry(chain, |batch|, Hex(LastHash(batch, chain)), s.moment), c, end);
        TakenOfDrop(db, s);
        LastHashIsOf(batch, chain);
      } else {
        WriteMarkersNames(mid, s.moment, EndsOf(batch), CountsOf(batch), c, end);
        ChainsOfBatch(batch, c);
        if end !in Explained(mid.rows, c) {
          LastHashIsOf(batch, c);
        }
      }
    }
  }

  lemma TakenOfDrop(db: Db, s: Step)
    requires s.DropAccount?
    ensures Select(Taken(db, s), OfChain(UserChain(s.user))) == Taken(db, s)
  {
    SelectMembers(db.rows, OfChain(UserChain(s.user)));
    SelectAll(Taken(db, s), OfChain(UserChain(s.user)));
  }

  lemma DropNames(db: Db, chain: string, e: Entry, c: string, end: string)
    requires end in Explained(AppendRow(db, e).rows, c)
    ensures end in Explained(db.rows, c) || e.gapHash == Some(end)
  {
    hide Select, LastHash, HashOf;
    ExplainedOne(db.rows, NewRow(db, e), c);
  }

  /** What a step takes is gone for good. */
  lemma TakenIsGone(db: Db, s: Step, r: Row)
    requires Inv(db) && !s.Append? && r in Taken(db, s)
    ensures r in db.rows && r.no !in Numbers(Exec(db, s).rows)
  {
    hide Select, Exec, Taken, Hex, RegisteredEntry, Intact, RemovedSum, EndNamed, HeadNamed, Linked;
    var batch, after := Taken(db, s), Exec(db, s);
    InvIsNumbered(db);
    TakenIsBatch(db, s);
    ExecRemoves(db, s);
    ExecContinues(db, s);
    SelectMembers(db.rows, Among(Numbers(batch)));
    assert r in db.rows;
    if r.no in Numbers(after.rows) {
      var t :| t in after.rows && t.no == r.no;
      SameNumberSameRow(db.rows, r, t);
      var c := r.entry.chain;
      assert RemovedAt(db, after, batch, s.moment, c);
      SelectMembers(after.rows, OfChain(c));
      SelectMembers(Without(db.rows, batch), OfChain(c));
      SelectMembers(db.rows, Outside(Numbers(batch)));
      assert false;
    }
  }

  lemma ExecSpent(db: Db, s: Step)
    requires Inv(db) && Allowed(s) && AllSpent(db)
    ensures AllSpent(Exec(db, s))
  {
    hide Inv, Sound, Exec, Taken, Explained, Spent, Continues;
    ExecContinues(db, s);
    forall c, end | end in Explained(Exec(db, s).rows, c) ensures Spent(Exec(db, s), end) {
      StepNames(db, s, c, end);
      if end in Explained(db.rows, c) {
        SpentStays(db, Exec(db, s), end);
      } else {
        var r :| r in Taken(db, s) && end == Hex(r.hash);
        TakenIsSpent(db, s, r);
      }
    }
  }

  lemma StepNames(db: Db, s: Step, c: string, end: string)
    requires Inv(db) && Allowed(s) && end in Explained(Exec(db, s).rows, c)
    ensures end in Explained(db.rows, c) || (!s.Append? && exists r :: r in Taken(db, s) && end == Hex(r.hash))
  {
    hide Sound, HeadNamed, Taken, Explained, Hex, NewRow, RemoveBatch, DropAll;
    if s.Append? {
      NewRowShape(db, s.entry);
      ExplainedOne(db.rows, NewRow(db, s.entry), c);
    } else {
      ExecNames(db, s, c, end);
    }
  }

  lemma TakenIsSpent(db: Db, s: Step, r: Row)
    requires Inv(db) && Allowed(s) && !s.Append? && r in Taken(db, s)
    ensures Spent(Exec(db, s), Hex(r.hash))
  {
    hide Exec, Taken, Hex, Intact, HeadNamed, Linked, Select;
    TakenIsGone(db, s, r);
    ExecContinues(db, s);
    assert Intact(r) && r.no <= db.counter;
  }

  lemma {:induction false} EveryRunSpent(steps: seq<Step>)
    requires AllAllowed(steps)
    ensures AllSpent(Run(steps))
  {
    hide Inv, Exec, AllSpent;
    if steps == [] {
      NothingSpent();
    } else {
      var front := steps[..|steps| - 1];
      EveryRunSpent(front);
      EveryRunInv(front);
      ExecSpent(Run(front), steps[|steps| - 1]);
    }
  }

  lemma NothingSpent()
    ensures AllSpent(EMPTY_DB)
  {
  }

  /** No marker names the digest of a live row, so no row of a store can be cut away in front
      and pass as swept. */
  lemma LiveRowsAreUnnamed(steps: seq<Step>, r: Row, c: string)
    requires AllAllowed(steps) && r in Run(steps).rows
    ensures Hex(r.hash) !in Explained(Run(steps).rows, c)
  {
    hide Run, Explained, HeadNamed, Linked, Select;
    var db := Run(steps);
    EveryRunInv(steps);
    EveryRunSpent(steps);
    if Hex(r.hash) in Explained(db.rows, c) {
      assert Spent(db, Hex(r.hash)) && Intact(r);
      var d: Row :| Intact(d) && d.no <= db.counter && d.no !in Numbers(db.rows) && Hex(r.hash) == Hex(d.hash);
      HexInjective(r.hash, d.hash);
      HashOfInjective(r.no, r.entry, r.prev, d.no, d.entry, d.prev);
      assert false;
    }
  }

  // --------------------------------------------------- where a chain comes from

  /** The rows a chain got since it last began at genesis, the swept ones included. */
  ghost function Segment(steps: seq<Step>, c: string): seq<Row> {
    if steps == [] then []
    else
      var front, s := steps[..|steps| - 1], steps[|steps| - 1];
      if s.Append? && s.entry.chain == c then
        (if Select(Run(front).rows, OfChain(c)) == [] then [] else Segment(front, c)) + [NewRow(Run(front), s.entry)]
      else Segment(front, c)
  }

  ghost predicate Original(seg: seq<Row>) {
    Whole(seg) && Linked(seg) && FromGenesis(seg)
  }

  /** A live chain is a tail of its segment, and the segment is a chain from genesis. */
  lemma {:induction false} LiveIsTail(steps: seq<Step>, c: string)
    requires AllAllowed(steps) && c != CHAIN_INSTANCE
    ensures Original(Segment(steps, c)) && IsTail(Select(Run(steps).rows, OfChain(c)), Segment(steps, c))
  {
    hide Inv, Exec, Select, NewRow, Original, IsTail;
    if steps == [] {
      EmptySegment(c);
    } else {
      var front, s := steps[..|steps| - 1], steps[|steps| - 1];
      LiveIsTail(front, c);
      EveryRunInv(front);
      if s.Append? {
        AppendedTail(Run(front), s.entry, c, Segment(front, c));
      } else {
        RemovedTail(Run(front), s, c, Segment(front, c));
      }
    }
  }

  lemma EmptySegment(c: string)
    ensures Original([]) && IsTail(Select(EMPTY_DB.rows, OfChain(c)), [])
  {
  }

  lemma AppendedTail(db: Db, e: Entry, c: string, seg: seq<Row>)
    requires Original(seg) && IsTail(Select(db.rows, OfChain(c)), seg)
    ensures var live := Select(Exec(db, Append(e)).rows, OfChain(c));
            var all := if e.chain != c then seg
                       else (if Select(db.rows, OfChain(c)) == [] then [] else seg) + [NewRow(db, e)];
            Original(all) && IsTail(live, all)
  {
    hide Select, Intact, NewRow, LastHash;
    var r, live := NewRow(db, e), Select(db.rows, OfChain(c));
    NewRowShape(db, e);
    SelectOne(db.rows, r, OfChain(c));
    LastOf(db.rows, c);
    if e.chain == c {
      GrownTail(if live == [] then [] else seg, live, r);
    }
  }

  lemma GrownTail(seg: seq<Row>, live: seq<Row>, r: Row)
    requires Original(seg) && IsTail(live, seg) && (live == [] ==> seg == [])
    requires Intact(r) && r.prev == if live == [] then Genesis else live[|live| - 1].hash
    ensures Original(seg + [r]) && IsTail(live + [r], seg + [r])
  {
    hide Intact;
    assert live != [] ==> seg[|seg| - 1] == live[|live| - 1];
  }

  lemma RemovedTail(db: Db, s: Step, c: string, seg: seq<Row>)
    requires Inv(db) && !s.Append? && c != CHAIN_INSTANCE
    requires IsTail(Select(db.rows, OfChain(c)), seg)
    ensures IsTail(Select(Exec(db, s).rows, OfChain(c)), seg)
  {
    hide Select, Exec, Taken, Hex, RemovedSum, EndNamed, HeadNamed, Without, Intact, Linked;
    InvIsNumbered(db);
    TakenIsBatch(db, s);
    ExecRemoves(db, s);
    assert RemovedAt(db, Exec(db, s), Taken(db, s), s.moment, c);
    BatchIsFront(db.rows, Taken(db, s), c);
  }

  // ------------------------------------------------------------- the theorem

  /** Both stores have the same chains, and each of them ends in the same row. */
  ghost predicate SameEnds(a: seq<Row>, b: seq<Row>) {
    forall c :: SameEnd(Select(a, OfChain(c)), Select(b, OfChain(c)))
  }

  ghost predicate SameEnd(x: seq<Row>, y: seq<Row>) {
    (x == [] <==> y == []) && (x != [] ==> x[|x| - 1] == y[|y| - 1])
  }

  ghost predicate AllClean(rows: seq<Row>) {
    forall c :: CleanChain(rows, c)
  }

  ghost predicate SameChain(a: seq<Row>, b: seq<Row>, c: string) {
    Select(a, OfChain(c)) == Select(b, OfChain(c))
  }

  /** The chain holds all its rows, and in front of them at most rows that were once there,
      back to genesis or to an end the register still names. */
  ghost predicate PutBack(steps: seq<Step>, rows: seq<Row>, c: string) {
    var x, y := Select(Run(steps).rows, OfChain(c)), Select(rows, OfChain(c));
    IsTail(x, y) && IsTail(y, Segment(steps, c)) && HeadExplained(y, Explained(Run(steps).rows, c))
  }

  lemma CleanIsWhole(c: seq<Row>, explained: set<string>)
    ensures Clean(c, explained) <==> Whole(c) && Linked(c) && HeadExplained(c, explained)
  {
    hide HashOf;
  }

  /** The register explains the gaps of every chain but its own, so of itself nothing can be
      missing. */
  lemma RegisterIsUntouched(db: Db, rows: seq<Row>)
    requires Inv(db) && SameEnds(db.rows, rows) && CleanChain(rows, CHAIN_INSTANCE)
    ensures SameChain(rows, db.rows, CHAIN_INSTANCE)
  {
    hide Select, HashOf, HeadNamed, Hex, Explained, Clean, Intact;
    var x, y := Select(db.rows, OfChain(CHAIN_INSTANCE)), Select(rows, OfChain(CHAIN_INSTANCE));
    assert SameEnd(x, y);
    CleanIsWhole(y, Explained(rows, CHAIN_INSTANCE));
    WholeChain(db, CHAIN_INSTANCE);
    if x != [] {
      GenesisIsFirst(x, y);
      SameEndSameTail(y, x);
      if |y| < |x| {
        LinkIsNotGenesis(x, |x| - |y|);
        SelfNamed(db, rows, Hex(y[0].prev));
      }
    }
  }

  lemma WholeChain(db: Db, c: string)
    requires Sound(db)
    ensures Whole(Select(db.rows, OfChain(c))) && Linked(Select(db.rows, OfChain(c)))
  {
    hide Intact, RegisteredEntry, Select;
    SelectMembers(db.rows, OfChain(c));
    var cr := Select(db.rows, OfChain(c));
    forall i | 0 <= i < |cr| ensures Intact(cr[i]) {
      assert cr[i] in cr;
    }
  }

  lemma SelfNamed(db: Db, rows: seq<Row>, end: string)
    requires Sound(db) && IsTail(Select(rows, OfChain(CHAIN_INSTANCE)), Select(db.rows, OfChain(CHAIN_INSTANCE)))
    ensures end !in Explained(rows, CHAIN_INSTANCE)
  {
    hide Select, Intact;
    SelectMembers(rows, OfChain(CHAIN_INSTANCE));
    SelectMembers(db.rows, OfChain(CHAIN_INSTANCE));
    forall m | m in rows && m.entry.chain == CHAIN_INSTANCE ensures m in db.rows {
      assert m in Select(rows, OfChain(CHAIN_INSTANCE));
    }
  }

  lemma SameRegisterExplains(a: seq<Row>, b: seq<Row>, c: string)
    requires SameChain(a, b, CHAIN_INSTANCE)
    ensures Explained(a, c) == Explained(b, c)
  {
    hide Select;
    SelectMembers(a, OfChain(CHAIN_INSTANCE));
    SelectMembers(b, OfChain(CHAIN_INSTANCE));
    assert forall m :: Matches(MarkersFor(c), m) ==> (m in a <==> m in b) by {
      forall m | Matches(MarkersFor(c), m) ensures m in a <==> m in b {
        assert m in a <==> m in Select(a, OfChain(CHAIN_INSTANCE));
      }
    }
  }

  lemma ChainPutBack(steps: seq<Step>, rows: seq<Row>, c: string)
    requires AllAllowed(steps) && c != CHAIN_INSTANCE
    requires SameEnd(Select(Run(steps).rows, OfChain(c)), Select(rows, OfChain(c)))
    requires Explained(rows, c) == Explained(Run(steps).rows, c)
    ensures CleanChain(rows, c) <==> PutBack(steps, rows, c)
  {
    hide Select, HashOf, Hex, Explained, Run, Segment, Clean, HeadNamed, Intact;
    var db := Run(steps);
    var x, y, seg := Select(db.rows, OfChain(c)), Select(rows, OfChain(c)), Segment(steps, c);
    EveryRunInv(steps);
    WholeChain(db, c);
    LiveIsTail(steps, c);
    CleanIsWhole(y, Explained(rows, c));
    if y != [] {
      if CleanChain(rows, c) {
        NothingCutAway(steps, x, y, c);
        TailOfOriginal(x, y, seg);
      }
      if IsTail(y, seg) {
        TailIsWhole(y, seg);
      }
    }
  }

  lemma TailIsWhole(y: seq<Row>, seg: seq<Row>)
    requires IsTail(y, seg) && Whole(seg) && Linked(seg)
    ensures Whole(y) && Linked(y)
  {
    hide Intact;
    var k := |seg| - |y|;
    assert forall i :: 0 <= i < |y| ==> y[i] == seg[k + i];
  }

  lemma NothingCutAway(steps: seq<Step>, x: seq<Row>, y: seq<Row>, c: string)
    requires AllAllowed(steps) && x == Select(Run(steps).rows, OfChain(c)) && Whole(x) && Linked(x)
    requires x != [] && y != [] && x[|x| - 1] == y[|y| - 1] && Clean(y, Explained(Run(steps).rows, c))
    ensures IsTail(x, y)
  {
    hide Select, HashOf, Hex, Explained, Run, Clean, Intact;
    TamperEvidentTail(x, y, Explained(Run(steps).rows, c));
    if |y| < |x| {
      SelectMembers(Run(steps).rows, OfChain(c));
      assert x[|x| - |y| - 1] in x;
      LiveRowsAreUnnamed(steps, x[|x| - |y| - 1], c);
    }
  }

  lemma TailOfOriginal(x: seq<Row>, y: seq<Row>, seg: seq<Row>)
    requires Original(seg) && IsTail(x, seg) && Whole(y) && Linked(y)
    requires x != [] && y != [] && x[|x| - 1] == y[|y| - 1]
    ensures IsTail(y, seg)
  {
    hide Intact;
    GenesisIsFirst(seg, y);
    SameEndSameTail(y, seg);
  }

  /** The store of any run was replaced by any rows that leave every chain its last row. The
      check of them is clean exactly when the register is the run's own and every other chain
      is the run's own too, but for rows the sweeps had taken and somebody put back. Every
      edit, insertion, reordering, renumbering and every removal, in front as well, is found. */
  lemma TamperedStore(steps: seq<Step>, rows: seq<Row>)
    requires AllAllowed(steps) && SameEnds(Run(steps).rows, rows)
    ensures AllClean(rows) <==>
            && SameChain(rows, Run(steps).rows, CHAIN_INSTANCE)
            && forall c :: c != CHAIN_INSTANCE ==> PutBack(steps, rows, c)
  {
    hide Run, CleanChain, PutBack, SameChain, Inv, SameEnd, Select;
    var db := Run(steps);
    EveryRunInv(steps);
    if AllClean(rows) {
      RegisterIsUntouched(db, rows);
    }
    if SameChain(rows, db.rows, CHAIN_INSTANCE) {
      forall c ensures c != CHAIN_INSTANCE ==> (CleanChain(rows, c) <==> PutBack(steps, rows, c)) {
        SameRegisterExplains(rows, db.rows, c);
        if c != CHAIN_INSTANCE {
          ChainPutBack(steps, rows, c);
        }
      }
      SameRegisterIsClean(steps, rows);
    }
  }

  lemma SameRegisterIsClean(steps: seq<Step>, rows: seq<Row>)
    requires AllAllowed(steps) && SameChain(rows, Run(steps).rows, CHAIN_INSTANCE)
    ensures CleanChain(rows, CHAIN_INSTANCE)
  {
    hide Run, Select, Clean, Explained;
    EveryRunIsClean(steps, CHAIN_INSTANCE);
    SameRegisterExplains(rows, Run(steps).rows, CHAIN_INSTANCE);
  }

  lemma OrderedLast(a: seq<Row>)
    requires a != [] && Ordered(a)
    ensures var front, r := a[..|a| - 1], a[|a| - 1];
            && Ordered(front) && r in a
            && (forall t :: t in front <==> t in a && t != r)
            && forall t :: t in front ==> t.no < r.no
  {
    var front, r := a[..|a| - 1], a[|a| - 1];
    assert a == front + [r];
  }

  lemma {:induction false} OrderedSame(a: seq<Row>, b: seq<Row>)
    requires Ordered(a) && Ordered(b) && forall r :: r in a <==> r in b
    ensures a == b
  {
    assert a != [] ==> a[0] in b;
    assert b != [] ==> b[0] in a;
    if a != [] {
      hide Ordered;
      OrderedLast(a);
      OrderedLast(b);
      assert a[|a| - 1] == b[|b| - 1];
      OrderedSame(a[..|a| - 1], b[..|b| - 1]);
      assert a == a[..|a| - 1] + [a[|a| - 1]] && b == b[..|b| - 1] + [b[|b| - 1]];
    }
  }

  /** Where no chain got longer, the only table that checks clean is the one the run left. */
  lemma OnlyTheStoreItself(steps: seq<Step>, rows: seq<Row>)
    requires AllAllowed(steps) && SameEnds(Run(steps).rows, rows) && Ordered(rows)
    requires forall c :: |Select(rows, OfChain(c))| <= |Select(Run(steps).rows, OfChain(c))|
    ensures AllClean(rows) <==> rows == Run(steps).rows
  {
    hide Run, Select, Ordered, SameEnds, Clean, Explained;
    var db := Run(steps);
    TamperedStore(steps, rows);
    EveryRunInv(steps);
    InvIsNumbered(db);
    if AllClean(rows) {
      forall r ensures r in rows <==> r in db.rows {
        var c := r.entry.chain;
        assert c != CHAIN_INSTANCE ==> PutBack(steps, rows, c);
        SelectMembers(rows, OfChain(c));
        SelectMembers(db.rows, OfChain(c));
        assert r in Select(rows, OfChain(c)) <==> r in Select(db.rows, OfChain(c));
      }
      OrderedSame(rows, db.rows);
    }
    if rows == db.rows {
      forall c ensures CleanChain(rows, c) { EveryRunIsClean(steps, c); }
    }
  }

  // ------------------------------------------------------------ deletion only

  /** What is left of the chain is the beginning of it. */
  ghost predicate KeepsBeginning(db: Db, rows: seq<Row>, c: string) {
    Select(rows, OfChain(c)) <= Select(db.rows, OfChain(c))
  }

  ghost predicate HeadStillNamed(rows: seq<Row>, c: string) {
    HeadExplained(Select(rows, OfChain(c)), Explained(rows, c))
  }

  lemma FewerExplained(db: Db, rows: seq<Row>, c: string)
    requires forall r :: r in rows ==> r in db.rows
    ensures Explained(rows, c) <= Explained(db.rows, c)
  {
  }

  /** The head of what is left is the head of the chain: no marker names a live row. */
  lemma HeadStays(steps: seq<Step>, rows: seq<Row>, c: string, k: nat)
    requires AllAllowed(steps) && forall r :: r in rows ==> r in Run(steps).rows
    requires k < |Select(Run(steps).rows, OfChain(c))| && Select(rows, OfChain(c)) != []
    requires Select(rows, OfChain(c))[0] == Select(Run(steps).rows, OfChain(c))[k]
    requires HeadStillNamed(rows, c)
    ensures k == 0
  {
    hide Run, Select, Explained, Hex, HashOf, Intact;
    var x := Select(Run(steps).rows, OfChain(c));
    EveryRunInv(steps);
    WholeChain(Run(steps), c);
    if k > 0 {
      LinkIsNotGenesis(x, k);
      SelectMembers(Run(steps).rows, OfChain(c));
      assert x[k - 1] in x;
      LiveRowsAreUnnamed(steps, x[k - 1], c);
      FewerExplained(Run(steps), rows, c);
    }
  }

  /** Rows of a whole chain that are linked among themselves are consecutive. */
  lemma {:induction false} LinkedIsConsecutive(x: seq<Row>, y: seq<Row>, n: nat)
    requires Whole(x) && Linked(x) && Linked(y) && n <= |y|
    requires forall r :: r in y ==> r in x
    requires y != [] && x != [] && y[0] == x[0]
    ensures n <= |x| && y[..n] == x[..n]
  {
    hide Intact;
    if n > 1 {
      LinkedIsConsecutive(x, y, n - 1);
      assert y[n - 1] in y;
      var j := IndexOf(x, y[n - 1]);
      assert y[n - 1].prev == y[n - 2].hash && y[n - 2] == y[..n - 1][n - 2] == x[..n - 1][n - 2];
      SameLinkSamePlace(x, n - 2, j);
      assert y[..n] == y[..n - 1] + [y[n - 1]] && x[..n] == x[..n - 1] + [x[n - 1]];
    } else if n == 1 {
      assert y[..1] == [y[0]] && x[..1] == [x[0]];
    }
  }

  lemma SameLinkSamePlace(x: seq<Row>, i: nat, j: nat)
    requires Whole(x) && Linked(x) && i < |x| && j < |x| && x[j].prev == x[i].hash
    ensures j == i + 1
  {
    hide HashOf, Hex;
    assert Intact(x[i]);
    if j == 0 {
      FirstIsNotLinked(x, i);
    } else {
      assert x[j].prev == x[j - 1].hash && Intact(x[j - 1]);
      var a, b := x[i], x[j - 1];
      HashOfInjective(a.no, a.entry, a.prev, b.no, b.entry, b.prev);
      if i < j - 1 { NoFork(x, i, j - 1); }
      if j - 1 < i { NoFork(x, j - 1, i); }
    }
  }

  /** No row of a chain is the predecessor of its own head. */
  lemma FirstIsNotLinked(x: seq<Row>, i: nat)
    requires Whole(x) && Linked(x) && i < |x|
    ensures x[0].prev != x[i].hash
  {
    hide HashOf, Hex;
    assert Intact(x[i]);
    DigestGrows(x[i].no, x[i].entry, x[i].prev);
    if i > 0 {
      NoFork(x, 0, i);
    }
  }

  lemma PrefixIsWhole(x: seq<Row>, y: seq<Row>)
    requires y <= x && Whole(x) && Linked(x)
    ensures Whole(y) && Linked(y)
  {
    hide Intact;
  }

  /** A chain of which rows were taken checks clean exactly when what is left is its beginning
      and its head is still named. */
  lemma ChainDeleted(steps: seq<Step>, rows: seq<Row>, c: string)
    requires AllAllowed(steps) && forall r :: r in rows ==> r in Run(steps).rows
    ensures CleanChain(rows, c) <==> KeepsBeginning(Run(steps), rows, c) && HeadStillNamed(rows, c)
  {
    hide Run, Select, Explained, Clean, Intact, HashOf, Hex, HeadExplained;
    var db := Run(steps);
    var x, y := Select(db.rows, OfChain(c)), Select(rows, OfChain(c));
    EveryRunInv(steps);
    WholeChain(db, c);
    CleanIsWhole(y, Explained(rows, c));
    SelectMembers(db.rows, OfChain(c));
    SelectMembers(rows, OfChain(c));
    if CleanChain(rows, c) && y != [] {
      assert y[0] in y;
      var k := IndexOf(x, y[0]);
      HeadStays(steps, rows, c, k);
      LinkedIsConsecutive(x, y, |y|);
      assert y[..|y|] == y;
    }
    if KeepsBeginning(db, rows, c) {
      PrefixIsWhole(x, y);
    }
  }

  /** From the store of any run some rows were taken, and the rest may have been put into any
      order or repeated. The check is clean exactly when of every chain the beginning is left, and
      the register that is left names every head that is left and does not point at genesis. So
      every hole and every cut in front is found; a cut at the end and a chain that is gone as a
      whole are not, unless it is the register that lost a name the others need. */
  lemma DeletedRows(steps: seq<Step>, rows: seq<Row>)
    requires AllAllowed(steps) && forall r :: r in rows ==> r in Run(steps).rows
    ensures AllClean(rows) <==>
            forall c :: KeepsBeginning(Run(steps), rows, c) && HeadStillNamed(rows, c)
  {
    hide Run, KeepsBeginning, HeadStillNamed, CleanChain;
    forall c ensures CleanChain(rows, c) <==> KeepsBeginning(Run(steps), rows, c) && HeadStillNamed(rows, c) {
      ChainDeleted(steps, rows, c);
    }
  }

  /** A chain of an account that vanished as a whole is never noticed. */
  lemma VanishedChainIsClean(steps: seq<Step>, gone: string)
    requires AllAllowed(steps) && gone != CHAIN_INSTANCE
    ensures AllClean(WithoutChain(Run(steps).rows, gone))
  {
    hide Run, Select, Explained, Clean;
    var db := Run(steps);
    var rows := WithoutChain(db.rows, gone);
    WithoutChainSelects(db.rows, gone);
    forall c ensures CleanChain(rows, c) {
      EveryRunIsClean(steps, c);
      SameRegisterExplains(rows, db.rows, c);
      EmptyIsClean(Explained(rows, c));
    }
  }

  lemma EmptyIsClean(explained: set<string>)
    ensures Clean([], explained)
  {
  }

  function WithoutChain(rows: seq<Row>, c: string): seq<Row> {
    if rows == [] then []
    else if rows[|rows| - 1].entry.chain == c then WithoutChain(rows[..|rows| - 1], c)
    else WithoutChain(rows[..|rows| - 1], c) + [rows[|rows| - 1]]
  }

  lemma {:induction false} WithoutChainSelects(rows: seq<Row>, gone: string)
    ensures forall c :: Select(WithoutChain(rows, gone), OfChain(c))
                        == if c == gone then [] else Select(rows, OfChain(c))
  {
    if rows != [] {
      var front, r := rows[..|rows| - 1], rows[|rows| - 1];
      WithoutChainSelects(front, gone);
      forall c ensures Select(WithoutChain(rows, gone), OfChain(c))
                       == if c == gone then [] else Select(rows, OfChain(c))
      {
        SelectLast(rows, OfChain(c));
        SelectOne(WithoutChain(front, gone), r, OfChain(c));
      }
    }
  }
}
