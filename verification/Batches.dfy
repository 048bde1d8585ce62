/** The two bounded statements of a sweep, and the batch they take out of the table. */
module Batches {
  import opened Basics
  import opened Rows
  import opened Register
  import opened Log

  // -------------------------------------------------------------- batches

  function ChainsOf(batch: seq<Row>): set<string> {
    set r | r in batch :: r.entry.chain
  }

  /** The end of the block each chain gives up, and how long it is. */
  function EndsOf(batch: seq<Row>): map<string, string> {
    map c | c in ChainsOf(batch) :: Hex(LastHash(batch, c))
  }

  function CountsOf(batch: seq<Row>): map<string, int> {
    map c | c in ChainsOf(batch) :: |Select(batch, OfChain(c))|
  }

  /** One batch of either sweep: its rows are gone, and the register says so. */
  function RemoveBatch(db: Db, moment: int, batch: seq<Row>): Db {
    WriteMarkers(Db(Without(db.rows, batch), db.counter), moment, EndsOf(batch), CountsOf(batch))
  }

  /** SELECT MIN(seq) ... WHERE chain = c AND at > cutoff */
  function MinSurvivor(rows: seq<Row>, c: string, cutoff: int): (m: Option<int>)
    ensures m.None? ==> forall s :: s in rows && s.entry.chain == c ==> s.entry.at <= cutoff
    ensures m.Some? ==> exists s :: s in rows && s.entry.chain == c && s.entry.at > cutoff && s.no == m.value
    ensures m.Some? ==> forall s :: s in rows && s.entry.chain == c && s.entry.at > cutoff ==> m.value <= s.no
  {
    if rows == [] then None
    else
      var m, s := MinSurvivor(rows[..|rows| - 1], c, cutoff), rows[|rows| - 1];
      if s.entry.chain == c && s.entry.at > cutoff && (m.None? || s.no < m.value) then Some(s.no) else m
  }

  /** The row belongs to the expired front of its chain: no row of the chain that survives
      the cutoff stands before it. */
  predicate Expired(rows: seq<Row>, r: Row, cutoff: int) {
    r.entry.chain != CHAIN_INSTANCE && r.no < Get(MinSurvivor(rows, r.entry.chain, cutoff), r.no + 1)
  }

  function ExpiredNumbers(rows: seq<Row>, cutoff: int): set<int> {
    set r | r in rows && Expired(rows, r, cutoff) :: r.no
  }

  function SweepableNumbers(rows: seq<Row>): set<int> {
    Numbers(Select(rows, Sweepable))
  }

  /** SELECT ... WHERE <candidate> ORDER BY seq LIMIT limit */
  function Batch(rows: seq<Row>, candidates: set<int>, limit: nat): seq<Row> {
    var all := Select(rows, Among(candidates));
    if limit <= |all| then all[..limit] else all
  }

  /** DELETE ... WHERE <candidate> AND seq <= last */
  function DropUpTo(rows: seq<Row>, candidates: set<int>, last: int): seq<Row> {
    Select(rows, Outside(set n | n in candidates && n <= last))
  }

  ghost predicate Candidates(rows: seq<Row>, candidates: set<int>) {
    && candidates <= Numbers(rows)
    && (forall r :: r in rows && r.no in candidates ==> r.entry.chain != CHAIN_INSTANCE)
    && (forall r, s ::
          r in rows && s in rows && r.no in candidates && s.entry.chain == r.entry.chain && s.no <= r.no ==>
            s.no in candidates)
  }

  /** The row and everything before it in its chain is expired, the edge included. */
  ghost predicate InExpiredFront(rows: seq<Row>, r: Row, cutoff: int) {
    && r in rows && r.entry.chain != CHAIN_INSTANCE
    && forall s :: s in rows && s.entry.chain == r.entry.chain && s.no <= r.no ==> s.entry.at <= cutoff
  }

  /** The bounded read of the retention sweep returns the oldest rows that stand in an expired front,
      as many as it may or all there are. */
  lemma ExpiredBatchIs(rows: seq<Row>, cutoff: int, limit: nat)
    requires Ordered(rows)
    ensures var b := Batch(rows, ExpiredNumbers(rows, cutoff), limit);
            && Ordered(b) && |b| <= limit
            && (forall r :: r in b ==> InExpiredFront(rows, r, cutoff))
            && forall r :: InExpiredFront(rows, r, cutoff) && r !in b ==>
                             |b| == limit && forall s :: s in b ==> s.no < r.no
  {
    hide Select, MinSurvivor;
    var e := ExpiredNumbers(rows, cutoff);
    var all, b := Select(rows, Among(e)), Batch(rows, e, limit);
    SelectMembers(rows, Among(e));
    SelectOrdered(rows, Among(e));
    forall r ensures r in all <==> InExpiredFront(rows, r, cutoff) {
      ExpiredIsFront(rows, r, cutoff);
    }
    forall i | 0 <= i < |b| ensures InExpiredFront(rows, b[i], cutoff) {
      assert b[i] == all[i] && all[i] in all;
    }
    forall r | InExpiredFront(rows, r, cutoff) && r !in b
      ensures |b| == limit && forall s :: s in b ==> s.no < r.no
    {
      var j := IndexOf(all, r);
      assert forall i :: 0 <= i < |b| ==> all[i] == b[i] && b[i] in b;
      forall s | s in b ensures s.no < r.no {
        var i := IndexOf(b, s);
        assert all[i] == s;
      }
    }
  }

  lemma ExpiredIsFront(rows: seq<Row>, r: Row, cutoff: int)
    requires Ordered(rows)
    ensures r in rows && r.no in ExpiredNumbers(rows, cutoff) <==> InExpiredFront(rows, r, cutoff)
  {
    if r in rows && r.no in ExpiredNumbers(rows, cutoff) {
      var s :| s in rows && Expired(rows, s, cutoff) && s.no == r.no;
      SameNumberSameRow(rows, r, s);
    }
    if InExpiredFront(rows, r, cutoff) {
      assert Expired(rows, r, cutoff);
    }
  }

  lemma ExpiredAreCandidates(rows: seq<Row>, cutoff: int)
    requires Ordered(rows)
    ensures Candidates(rows, ExpiredNumbers(rows, cutoff))
  {
    var e := ExpiredNumbers(rows, cutoff);
    forall r | r in rows && r.no in e ensures Expired(rows, r, cutoff) {
      var s :| s in rows && Expired(rows, s, cutoff) && s.no == r.no;
      SameNumberSameRow(rows, r, s);
    }
  }

  lemma SweepableAreCandidates(rows: seq<Row>)
    requires Ordered(rows)
    ensures Candidates(rows, SweepableNumbers(rows))
  {
    SelectMembers(rows, Sweepable);
    forall r | r in rows && r.no in SweepableNumbers(rows) ensures Matches(Sweepable, r) {
      var s :| s in Select(rows, Sweepable) && s.no == r.no;
      SameNumberSameRow(rows, r, s);
    }
  }

  /** The removal takes exactly what the bounded read returned, and that is a front of every
      chain it touches. */
  lemma BatchRemoval(rows: seq<Row>, candidates: set<int>, limit: nat)
    requires Ordered(rows) && Candidates(rows, candidates)
    ensures var b := Batch(rows, candidates, limit);
            SweepBatch(rows, b) && (b != [] ==> DropUpTo(rows, candidates, b[|b| - 1].no) == Without(rows, b))
  {
    hide Select;
    var b := Batch(rows, candidates, limit);
    BatchIsSelection(rows, candidates, b);
    SelectMembers(rows, Among(candidates));
    if b != [] {
      BatchNumbersAre(rows, candidates, b);
      BatchIsClosed(rows, candidates, b);
      assert forall r :: r in b ==> r in Select(rows, Among(candidates));
    }
  }

  lemma BatchNumbersAre(rows: seq<Row>, candidates: set<int>, b: seq<Row>)
    requires Ordered(rows) && Candidates(rows, candidates) && b != [] && b <= Select(rows, Among(candidates))
    ensures (set n | n in candidates && n <= b[|b| - 1].no) == Numbers(b)
  {
    hide Select;
    var all := Select(rows, Among(candidates));
    SelectMembers(rows, Among(candidates));
    SelectOrdered(rows, Among(candidates));
    forall n ensures n in candidates && n <= b[|b| - 1].no <==> n in Numbers(b) {
      BatchNumbers(all, b, n);
      if n in candidates {
        var r :| r in rows && r.no == n;
        assert r in all;
      }
    }
  }

  lemma BatchIsClosed(rows: seq<Row>, candidates: set<int>, b: seq<Row>)
    requires Ordered(rows) && Candidates(rows, candidates) && b != [] && b <= Select(rows, Among(candidates))
    ensures forall r, s :: r in b && s in rows && s.entry.chain == r.entry.chain && s.no <= r.no ==> s in b
  {
    hide Select;
    var all := Select(rows, Among(candidates));
    SelectMembers(rows, Among(candidates));
    SelectOrdered(rows, Among(candidates));
    BatchNumbers(all, b, 0);
    forall r, s | r in b && s in rows && s.entry.chain == r.entry.chain && s.no <= r.no ensures s in b {
      var i := IndexOf(b, r);
      assert all[i] == r;
      assert s in all;
    }
  }

  /** The numbers of the front of an ordered selection are those up to its last one. */
  lemma BatchNumbers(all: seq<Row>, b: seq<Row>, n: int)
    requires Ordered(all) && b != [] && b <= all
    ensures (exists r :: r in all && r.no == n) && n <= b[|b| - 1].no <==> n in Numbers(b)
    ensures forall r :: r in all && r.no <= b[|b| - 1].no ==> r in b
  {
    forall r | r in all && r.no <= b[|b| - 1].no ensures r in b {
      var i := IndexOf(all, r);
      assert i < |b| && b[i] == r;
    }
    forall r | r in b ensures r in all && r.no <= b[|b| - 1].no {
      var i := IndexOf(b, r);
      assert all[i] == r;
    }
  }

  lemma BatchIsSelection(rows: seq<Row>, candidates: set<int>, b: seq<Row>)
    requires Ordered(rows) && b <= Select(rows, Among(candidates))
    ensures b == Select(rows, Among(Numbers(b)))
  {
    var all := Select(rows, Among(candidates));
    var rest := all[|b|..];
    assert all == b + rest;
    SelectMembers(rows, Among(candidates));
    SelectOrdered(rows, Among(candidates));
    OrderedHalves(b, rest);
    assert forall s :: s in b ==> s.no !in Numbers(rest);
    assert forall r :: r in rest ==> r.no in Numbers(rest);
    assert forall r :: r in rest ==> r.no !in Numbers(b);
    SelectFront(b, rest, Numbers(b));
    assert forall r :: r in b ==> r in all;
    SelectWithin(rows, Among(candidates), Among(Numbers(b)));
  }
}
