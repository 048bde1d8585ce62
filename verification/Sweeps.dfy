/** What a whole sweep amounts to, however many batches it took. */
module Sweeps {
  import opened Basics
  import opened Rows
  import opened Register
  import opened Log
  import opened Batches
  import opened Runs

  // ------------------------------------------------ a chain lost its front

  /** From `before` to `after` the chain lost some of its oldest rows and nothing else; the
      markers stand for exactly that many more rows, and the newest one has the moment of the
      sweep and names the last row that went, which is what the new head points at. */
  ghost predicate LostFront(before: Db, after: Db, moment: int, c: string) {
    var a, b := Select(before.rows, OfChain(c)), Select(after.rows, OfChain(c));
    && |b| <= |a| && b == a[|a| - |b|..]
    && RemovedSum(Select(after.rows, MarkersFor(c)))
       == RemovedSum(Select(before.rows, MarkersFor(c))) + |a| - |b|
    && EndNamed(after.rows, c)
       == (if |a| == |b| then EndNamed(before.rows, c) else Some(Hex(a[|a| - |b| - 1].hash)))
    && LastAt(Select(after.rows, MarkersFor(c)))
       == if |a| == |b| then LastAt(Select(before.rows, MarkersFor(c))) else moment
  }

  ghost predicate AllLostFront(before: Db, after: Db, moment: int) {
    forall c :: c != CHAIN_INSTANCE ==> LostFront(before, after, moment, c)
  }

  lemma LostMore(before: Db, db: Db, s: Step)
    requires Sound(db) && !s.Append? && AllLostFront(before, db, s.moment)
    ensures AllLostFront(before, Exec(db, s), s.moment)
  {
    hide Select, Sound, RemovedSum, Exec, Taken, SweepBatch, Hex, Without, EndNamed, LastAt;
    SoundIsNumbered(db);
    TakenIsBatch(db, s);
    ExecRemoves(db, s);
    forall c | c != CHAIN_INSTANCE ensures LostFront(before, Exec(db, s), s.moment, c) {
      assert RemovedAt(db, Exec(db, s), Taken(db, s), s.moment, c) && LostFront(before, db, s.moment, c);
      BatchIsFront(db.rows, Taken(db, s), c);
    }
  }

  // ------------------------------------------------------------- retention

  /** The chain without its expired front. A row that expired behind a survivor stays. */
  function DropExpiredFront(c: seq<Row>, cutoff: int): (d: seq<Row>)
    ensures |d| <= |c| && d == c[|c| - |d|..]
    ensures forall i :: 0 <= i < |c| - |d| ==> c[i].entry.at <= cutoff
    ensures d != [] ==> d[0].entry.at > cutoff
  {
    if c == [] || c[0].entry.at > cutoff then c else DropExpiredFront(c[1..], cutoff)
  }

  lemma {:induction false} DropFrontOf(a: seq<Row>, b: seq<Row>, cutoff: int)
    requires forall r :: r in a ==> r.entry.at <= cutoff
    ensures DropExpiredFront(a + b, cutoff) == DropExpiredFront(b, cutoff)
  {
    if a == [] {
      assert a + b == b;
    } else {
      assert (a + b)[1..] == a[1..] + b;
      assert a[0] in a;
      DropFrontOf(a[1..], b, cutoff);
    }
  }

  /** A batch of the retention sweep leaves the rest of the work as it was, for its own cutoff and
      for every later one. */
  lemma ExpireStep(db: Db, s: Step, cutoff: int, c: string)
    requires Sound(db) && c != CHAIN_INSTANCE && s.Expire? && s.cutoff <= cutoff
    ensures DropExpiredFront(Select(Exec(db, s).rows, OfChain(c)), cutoff)
            == DropExpiredFront(Select(db.rows, OfChain(c)), cutoff)
  {
    hide Select, Sound, RemovedSum, Exec, Taken, SweepBatch, Without, EndNamed, DropExpiredFront, Hex;
    SoundIsNumbered(db);
    TakenIsBatch(db, s);
    ExecRemoves(db, s);
    assert RemovedAt(db, Exec(db, s), Taken(db, s), s.moment, c);
    BatchIsFront(db.rows, Taken(db, s), c);
    TakenExpired(db, s, c);
    DropFrontOf(Select(Taken(db, s), OfChain(c)), Select(Exec(db, s).rows, OfChain(c)), cutoff);
  }

  lemma TakenExpired(db: Db, s: Step, c: string)
    requires Numbered(db) && s.Expire?
    ensures forall r :: r in Select(Taken(db, s), OfChain(c)) ==> r.entry.at <= s.cutoff
  {
    hide Select, Ordered;
    var e := ExpiredNumbers(db.rows, s.cutoff);
    SelectMembers(Taken(db, s), OfChain(c));
    SelectMembers(db.rows, Among(e));
    forall r | r in Select(Taken(db, s), OfChain(c)) ensures r.entry.at <= s.cutoff {
      assert r in Select(db.rows, Among(e));
      var t :| t in db.rows && Expired(db.rows, t, s.cutoff) && t.no == r.no;
      SameNumberSameRow(db.rows, r, t);
    }
  }

  /** When a bounded read finds nothing more, every chain has given up its expired front. */
  lemma NothingExpired(db: Db, cutoff: int, limit: nat, c: string)
    requires Numbered(db) && limit > 0 && c != CHAIN_INSTANCE
    requires Batch(db.rows, ExpiredNumbers(db.rows, cutoff), limit) == []
    ensures DropExpiredFront(Select(db.rows, OfChain(c)), cutoff) == Select(db.rows, OfChain(c))
  {
    ExpiredHead(db.rows, cutoff, c);
  }

  lemma ExpiredHead(rows: seq<Row>, cutoff: int, c: string)
    requires Ordered(rows) && c != CHAIN_INSTANCE
    ensures var cr := Select(rows, OfChain(c));
            cr != [] && cr[0].entry.at <= cutoff ==> cr[0] in Select(rows, Among(ExpiredNumbers(rows, cutoff)))
  {
    hide Select;
    var cr := Select(rows, OfChain(c));
    SelectMembers(rows, OfChain(c));
    SelectOrdered(rows, OfChain(c));
    SelectMembers(rows, Among(ExpiredNumbers(rows, cutoff)));
    if cr != [] && cr[0].entry.at <= cutoff {
      var head := cr[0];
      assert head in cr;
      forall s | s in rows && s.entry.chain == c && s.entry.at > cutoff ensures head.no < s.no {
        var i := IndexOf(cr, s);
      }
      assert Expired(rows, head, cutoff);
    }
  }

  // ------------------------------------------------------------ sweepable rows

  lemma {:induction false} SelectPartition(rows: seq<Row>, some: set<int>, q: Query)
    ensures |Select(rows, q)| == |Select(Select(rows, Among(some)), q)| + |Select(Select(rows, Outside(some)), q)|
  {
    if rows != [] {
      var a, r := rows[..|rows| - 1], rows[|rows| - 1];
      SelectPartition(a, some, q);
      SelectLast(rows, q);
      SelectLast(rows, Among(some));
      SelectLast(rows, Outside(some));
      SelectOne(Select(a, Among(some)), r, q);
      SelectOne(Select(a, Outside(some)), r, q);
    }
  }

  /** What a step takes is gone from the sweepable rows, and nothing else is. */
  lemma SweepableShrinks(db: Db, s: Step)
    requires Sound(db) && !s.Append?
    ensures Select(Exec(db, s).rows, Sweepable) == Select(Without(db.rows, Taken(db, s)), Sweepable)
    ensures |Select(Exec(db, s).rows, Sweepable)| + |Taken(db, s)| == |Select(db.rows, Sweepable)|
  {
    hide Select, Intact, WriteMarkers, Taken, NewRow, MarkerEntry;
    var batch := Taken(db, s);
    var mid := Db(Without(db.rows, batch), db.counter);
    TakenIsBatch(db, s);
    SelectPartition(db.rows, Numbers(batch), Sweepable);
    SelectAll(batch, Sweepable);
    RemoveSound(db, batch);
    if batch == [] {
      SelectAll(db.rows, Outside(Numbers(batch)));
    } else if s.DropAccount? {
      var c := UserChain(s.user);
      var e := MarkerEntry(c, |batch|, Hex(LastHash(batch, c)), s.moment);
      MarkerEntryShape(c, |batch|, Hex(LastHash(batch, c)), s.moment);
      NewRowShape(mid, e);
      SelectOne(mid.rows, NewRow(mid, e), Sweepable);
    } else {
      WriteMarkersKeeps(mid, s.moment, EndsOf(batch), CountsOf(batch), Sweepable);
    }
  }

  // ------------------------------------------------------------ upper bound

  lemma SweepableSelection(rows: seq<Row>)
    requires Ordered(rows)
    ensures Select(rows, Among(SweepableNumbers(rows))) == Select(rows, Sweepable)
  {
    hide Select;
    var all := Select(rows, Sweepable);
    SweepableAreCandidates(rows);
    SelectMembers(rows, Sweepable);
    SelectWithin(rows, Sweepable, Among(SweepableNumbers(rows)));
    SelectAll(all, Among(SweepableNumbers(rows)));
  }

  function Least(a: nat, b: nat): nat { if a <= b then a else b }

  /** A batch of the upper bound is the oldest sweepable rows, whatever chain they are in. */
  lemma TrimStep(db: Db, moment: int, limit: nat)
    requires Sound(db)
    ensures var all := Select(db.rows, Sweepable);
            var k := Least(limit, |all|);
            && Taken(db, Trim(moment, limit)) == all[..k]
            && Select(Exec(db, Trim(moment, limit)).rows, Sweepable) == all[k..]
  {
    hide Select, Sound, Exec;
    var s := Trim(moment, limit);
    var all := Select(db.rows, Sweepable);
    var k := Least(limit, |all|);
    var batch := Taken(db, s);
    SoundIsNumbered(db);
    SweepableSelection(db.rows);
    SweepableShrinks(db, s);
    assert batch == all[..k] && all == batch + all[k..];
    SelectCommutes(db.rows, Outside(Numbers(batch)), Sweepable);
    SelectOrdered(db.rows, Sweepable);
    OrderedHalves(batch, all[k..]);
    assert forall r :: r in all[k..] ==> r.no in Numbers(all[k..]);
    SelectFront(batch, all[k..], Numbers(batch));
  }

  /** The store after a number of rounds of the upper bound. */
  function TrimRounds(db: Db, moment: int, limit: nat, rounds: nat): Db {
    if rounds == 0 then db
    else Exec(TrimRounds(db, moment, limit, rounds - 1), Trim(moment, limit))
  }
}
