/** The audit store: its transactions as methods on the one table. */
module Store {
  import opened Basics
  import opened Rows
  import opened Chains
  import opened Register
  import opened Log
  import opened Batches
  import opened Runs
  import opened Sweeps
  import opened Bookkeeping
  import opened History
  import Names

  const SWEEP_EVERY := 500
  const SWEEP_USER_CHECK_EVERY := 20
  const DAY_SECONDS := 86400

  datatype SweepReport = SweepReport(expired: nat, trimmed: nat, tombstones: nat, usedAfter: int)

  datatype StoreOverview =
    StoreOverview(chains: nat, entries: nat, tombstones: nat, explainedEntries: int, used: int, sweepable: nat)

  /** How the store may fail a caller: before the row is there, or only in the sweep after it. */
  datatype Fault = NoFault | AppendFails | SweepFails

  /** The row of one finished call of an account. */
  function CallEntry(user: string, call: Entry): Entry {
    call.(chain := UserChain(user), kind := KIND_CALL, ncUser := Some(user))
  }

  /** The chain lost rows between the two states. */
  ghost predicate LostRows(before: Db, after: Db, c: string) {
    c != CHAIN_INSTANCE && |Select(after.rows, OfChain(c))| < |Select(before.rows, OfChain(c))|
  }

  /** Exactly the k oldest rows outside the instance chain are gone. */
  ghost predicate OldestGone(before: Db, after: Db, k: nat) {
    var all := Select(before.rows, Sweepable);
    k <= |all| && Select(after.rows, Sweepable) == all[k..]
  }

  /** Every round took a full batch, or what was left. */
  ghost predicate FullBatches(rounds: nat, batchRows: nat, total: nat, trimmed: nat) {
    var asked := rounds * batchRows;
    trimmed == if asked <= total then asked else total
  }

  /** Before each of these rounds the store was too large. */
  ghost predicate AlwaysOver(db: Db, moment: int, batchRows: nat, rounds: nat, used: Db -> int, sizeLimit: int) {
    forall m :: 0 <= m < rounds ==> used(TrimRounds(db, moment, batchRows, m)) > sizeLimit
  }

  /** The chains that lost rows joined the ones already noted. */
  ghost predicate AffectedAre(before: Db, after: Db, oldAffected: set<string>, affected: set<string>) {
    forall c :: c in affected <==> c in oldAffected || LostRows(before, after, c)
  }

  /** Every chain outside the instance chain is its old self without the expired front. */
  ghost predicate FrontsExpired(before: Db, after: Db, cutoff: int) {
    forall c :: c != CHAIN_INSTANCE ==>
      Select(after.rows, OfChain(c)) == DropExpiredFront(Select(before.rows, OfChain(c)), cutoff)
  }

  /** No chain outside the instance chain keeps more than its old self without the expired front. */
  ghost predicate ExpiredGone(before: Db, after: Db, cutoff: int) {
    forall c :: c != CHAIN_INSTANCE ==>
      IsTail(Select(after.rows, OfChain(c)), DropExpiredFront(Select(before.rows, OfChain(c)), cutoff))
  }

  function TrimsIn(steps: seq<Step>): (n: nat)
    ensures n <= |steps|
  {
    if steps == [] then 0 else TrimsIn(steps[..|steps| - 1]) + if steps[|steps| - 1].Trim? then 1 else 0
  }

  /** The store when the retention half of these steps was through. */
  function Between(before: Db, steps: seq<Step>): Db {
    RunFrom(before, steps[..|steps| - TrimsIn(steps)])
  }

  /** A sweep that ran to its end, and what it took, no more and no less. First every chain lost
      its expired front. Then the oldest rows went, in full rounds, each of them on a store that
      was too large; and after the last one the store is small enough, or nothing sweepable is
      left, or the upper bound had all the rounds it gets. */
  ghost predicate SweepDone(before: Db, after: Db, steps: seq<Step>, moment: int, retentionDays: int,
                            sizeLimit: int, used: Db -> int, batchRows: nat, maxRounds: nat)
  {
    var rounds, between := TrimsIn(steps), Between(before, steps);
    var total := |Select(between.rows, Sweepable)|;
    && rounds <= maxRounds
    && FrontsExpired(before, between, moment - retentionDays * 86400)
    && after == TrimRounds(between, moment, batchRows, rounds)
    && AlwaysOver(between, moment, batchRows, rounds, used, sizeLimit)
    && (exists k: nat :: OldestGone(between, after, k) && FullBatches(rounds, batchRows, total, k))
    && (used(after) <= sizeLimit || Select(after.rows, Sweepable) == [] || rounds == maxRounds)
  }

  /** The retention sweep under way: what is gone is accounted for, and what is still to go is
      what was to go at the start. */
  ghost predicate Swept(before: Db, db: Db, moment: int, cutoff: int, oldAffected: set<string>, affected: set<string>,
                        expired: nat)
  {
    && AllLostFront(before, db, moment)
    && (forall c :: c != CHAIN_INSTANCE ==>
          DropExpiredFront(Select(db.rows, OfChain(c)), cutoff)
          == DropExpiredFront(Select(before.rows, OfChain(c)), cutoff))
    && expired + |Select(db.rows, Sweepable)| == |Select(before.rows, Sweepable)|
    && (expired == 0 ==> db == before)
    && AffectedAre(before, db, oldAffected, affected)
  }

  lemma OutsideTwice(rows: seq<Row>, gone: set<int>, n: int)
    ensures Select(Select(rows, Outside(gone)), Outside({n})) == Select(rows, Outside(gone + {n}))
  {
    SelectCommutes(rows, Outside(gone), Outside({n}));
    OutsideBoth(rows, gone, n);
  }

  lemma {:induction false} OutsideBoth(rows: seq<Row>, gone: set<int>, n: int)
    ensures Select(Select(rows, Outside(gone)), Outside({n})) == Select(rows, Outside(gone + {n}))
  {
    if rows != [] {
      var a, r := rows[..|rows| - 1], rows[|rows| - 1];
      OutsideBoth(a, gone, n);
      SelectLast(rows, Outside(gone));
      SelectLast(rows, Outside(gone + {n}));
      SelectOne(Select(a, Outside(gone)), r, Outside({n}));
    }
  }

  class AuditStore {
    /** The table, in the order of its key, and the counter no deletion lowers. */
    var rows: seq<Row>
    var counter: nat

    ghost function Contents(): Db
      reads this
    {
      Db(rows, counter)
    }

    ghost predicate Valid()
      reads this
    {
      Inv(Contents())
    }

    constructor ()
      ensures Valid() && Contents() == EMPTY_DB
    {
      rows, counter := [], 0;
      new;
      EmptyInv();
    }

    /** The table grows by one row, which carries the next number, links to the end of its own
        chain and is intact. */
    method AppendRow(e: Entry) returns (no: nat)
      modifies this
      ensures Contents() == Register.AppendRow(old(Contents()), e)
      ensures no == counter
    {
      hide HashOf, Select;
      var last := Select(rows, OfChain(e.chain));
      var previous := if last != [] then last[|last| - 1].hash else Genesis;
      no := counter + 1;
      rows := rows + [Row(no, e, previous, HashOf(no, e, previous))];
      counter := no;
    }

    /** The append step of a run, with the number handed out. Of the entries of the application,
        none of which is a marker, it keeps the store valid. */
    method Append(e: Entry) returns (no: nat)
      modifies this
      ensures old(Valid()) && e.kind != KIND_TOMBSTONE ==> Valid()
      ensures Contents() == Exec(old(Contents()), Step.Append(e))
      ensures no == counter == old(counter) + 1
      ensures RowAdded(old(Contents()), Contents(), e)
    {
      hide Inv;
      RowIsAdded(Contents(), e);
      if Inv(Contents()) && e.kind != KIND_TOMBSTONE {
        ExecInv(Contents(), Step.Append(e));
      }
      no := AppendRow(e);
    }

    /** Drop the absorbed markers, one number at a time. */
    method DropSuperseded(superseded: seq<int>)
      modifies this`rows
      ensures rows == Select(old(rows), Outside(ToSet(superseded)))
    {
      hide Select;
      SelectAll(rows, Outside({}));
      assert ToSet(superseded[..0]) == {};
      for i := 0 to |superseded|
        invariant rows == Select(old(rows), Outside(ToSet(superseded[..i])))
      {
        OutsideTwice(old(rows), ToSet(superseded[..i]), superseded[i]);
        rows := Select(rows, Outside({superseded[i]}));
        assert ToSet(superseded[..i + 1]) == ToSet(superseded[..i]) + {superseded[i]};
      }
      assert superseded[..|superseded|] == superseded;
    }

    /** One marker per chain, in the order of their names. */
    method AppendMarkers(keys: seq<string>, ends: map<string, string>, counts: map<string, int>, ats: map<string, int>)
      requires Covers(Ledger(ends, counts, ats), keys)
      modifies this
      ensures Contents() == Register.AppendMarkers(old(Contents()), keys, Ledger(ends, counts, ats))
    {
      hide HashOf, Select, Register.AppendRow;
      ghost var l := Ledger(ends, counts, ats);
      for i := 0 to |keys|
        invariant Contents() == Register.AppendMarkers(old(Contents()), keys[..i], l)
      {
        var c := keys[i];
        assert keys[..i + 1][..i] == keys[..i];
        var no := AppendRow(MarkerEntry(c, counts[c], ends[c], ats[c]));
      }
      assert keys[..|keys|] == keys;
    }

    /** The row of that chain, and of that kind when one is asked for, with the highest number,
        or nothing when there is none. */
    method LastEntry(chain: string, kind: Option<string>) returns (e: Option<Entry>)
      requires Valid()
      ensures IsLastOf(rows, chain, kind, e)
    {
      hide Select, Ordered;
      var s := Select(rows, OfChain(chain));
      if kind.Some? {
        s := Select(s, OfKind(kind.value));
      }
      e := if s == [] then None else Some(s[|s| - 1].entry);
      InvIsNumbered(Contents());
      LastIsLastOf(rows, chain, kind);
    }

    /** The dictionaries and loops of the consolidation compute the specified one. */
    method WriteMarkers(moment: int, batchEnds: map<string, string>, batchCounts: map<string, int>)
      requires Numbered(Contents()) && batchEnds.Keys == batchCounts.Keys
      modifies this
      ensures Contents() == Register.WriteMarkers(old(Contents()), moment, batchEnds, batchCounts)
    {
      hide HashOf, Select, Absorbed, Superseded, Register.AppendMarkers, Ordered;
      var tail := Select(rows, OfChain(CHAIN_INSTANCE));
      InstanceRows(rows);
      SupersededIs(rows);
      var ends, counts, ats, superseded := AbsorbTail(tail, moment, batchEnds, batchCounts);
      DropSuperseded(superseded);
      AppendMarkers(Names.Sorted(ends.Keys), ends, counts, ats);
    }

    /** The body of one transaction of a sweep: note the batch, remove it, and explain it. */
    method CommitBatch(moment: int, candidates: set<int>, batch: seq<Row>, ghost limit: nat)
      returns (noted: nat, chains: set<string>)
      requires Numbered(Contents()) && Candidates(rows, candidates)
      requires batch == Batch(rows, candidates, limit) && batch != []
      modifies this
      ensures Contents() == RemoveBatch(old(Contents()), moment, batch)
      ensures noted == |batch| && chains == ChainsOf(batch)
    {
      hide Select, Register.WriteMarkers, Batch;
      var ends, counts;
      ends, counts, noted := NoteRemoved(batch);
      BatchRemoval(rows, candidates, limit);
      rows := DropUpTo(rows, candidates, batch[|batch| - 1].no);
      WithoutNumbered(old(Contents()), batch);
      WriteMarkers(moment, ends, counts);
      chains := ends.Keys;
    }

    /** The retention half of a sweep: the expired front of every chain goes, batch by batch.
        The outcome does not depend on the size of the batches. */
    method SweepExpired(moment: int, cutoff: int, batchRows: nat, oldAffected: set<string>)
      returns (expired: nat, affected: set<string>, ghost steps: seq<Step>)
      requires Valid() && batchRows > 0
      modifies this
      ensures Valid()
      ensures Contents() == RunFrom(old(Contents()), steps)
      ensures forall s :: s in steps ==> s == Expire(moment, cutoff, batchRows)
      ensures AllLostFront(old(Contents()), Contents(), moment)
      ensures FrontsExpired(old(Contents()), Contents(), cutoff)
      ensures expired + |Select(rows, Sweepable)| == |Select(old(rows), Sweepable)|
      ensures expired == 0 ==> Contents() == old(Contents())
      ensures AffectedAre(old(Contents()), Contents(), oldAffected, affected)
    {
      hide Select, Inv, Exec, Swept, FrontsExpired, AffectedAre, AllLostFront, RemoveBatch, Batch,
           ExpiredNumbers, RunFrom;
      ghost var before, s := Contents(), Expire(moment, cutoff, batchRows);
      expired, affected, steps := 0, oldAffected, [];
      NothingSwept(before, moment, cutoff, oldAffected);
      RunNothing(before);
      while true
        invariant Valid() && Contents() == RunFrom(before, steps)
        invariant forall t :: t in steps ==> t == s
        invariant Swept(before, Contents(), moment, cutoff, oldAffected, affected, expired)
        decreases |Select(rows, Sweepable)|
      {
        InvIsNumbered(Contents());
        var candidates := ExpiredNumbers(rows, cutoff);
        var batch := Batch(rows, candidates, batchRows);
        ghost var db := Contents();
        ExecExpire(db, moment, cutoff, batchRows);
        if batch == [] {
          SweptDone(before, db, moment, cutoff, oldAffected, affected, expired, batchRows);
          return;
        }
        ExpiredAreCandidates(rows, cutoff);
        var noted, chains := CommitBatch(moment, candidates, batch, batchRows);
        SweptMore(before, db, s, oldAffected, affected, expired);
        RunMore(before, steps, s);
        expired := expired + noted;
        affected := affected + chains;
        steps := steps + [s];
      }
    }

    /** The size half of a sweep: the oldest rows of any chain but the instance chain go, a
        bounded number of bounded batches, until the store is small enough. `used` measures
        the store and may be any function of it. */
    method SweepOverLimit(moment: int, sizeLimit: int, used: Db -> int, batchRows: nat, maxRounds: nat,
                          oldAffected: set<string>)
      returns (trimmed: nat, affected: set<string>, ghost rounds: nat)
      requires Valid() && batchRows > 0
      modifies this
      ensures Valid()
      ensures rounds <= maxRounds && Contents() == TrimRounds(old(Contents()), moment, batchRows, rounds)
      ensures AlwaysOver(old(Contents()), moment, batchRows, rounds, used, sizeLimit)
      ensures rounds == maxRounds || used(Contents()) <= sizeLimit || Select(rows, Sweepable) == []
      ensures FullBatches(rounds, batchRows, |Select(old(rows), Sweepable)|, trimmed)
      ensures OldestGone(old(Contents()), Contents(), trimmed)
      ensures trimmed == 0 <==> rounds == 0
      ensures AllLostFront(old(Contents()), Contents(), moment)
      ensures AffectedAre(old(Contents()), Contents(), oldAffected, affected)
    {
      hide Select, Inv, Exec, AllLostFront, AffectedAre, FullBatches, AlwaysOver,
           OldestGone, TrimRounds, RemoveBatch, Batch, SweepableNumbers;
      ghost var before, s := Contents(), Trim(moment, batchRows);
      trimmed, affected, rounds := 0, oldAffected, 0;
      NothingLost(before, moment, oldAffected);
      NoRounds(before, moment, batchRows, used, sizeLimit);
      var round := 0;
      while round < maxRounds
        invariant Valid() && round == rounds <= maxRounds
        invariant Contents() == TrimRounds(before, moment, batchRows, rounds)
        invariant AlwaysOver(before, moment, batchRows, rounds, used, sizeLimit)
        invariant FullBatches(rounds, batchRows, |Select(before.rows, Sweepable)|, trimmed)
        invariant OldestGone(before, Contents(), trimmed)
        invariant trimmed == 0 <==> rounds == 0
        invariant AllLostFront(before, Contents(), moment)
        invariant AffectedAre(before, Contents(), oldAffected, affected)
      {
        if used(Db(rows, counter)) <= sizeLimit {
          break;
        }
        InvIsNumbered(Contents());
        var candidates := SweepableNumbers(rows);
        var batch := Batch(rows, candidates, batchRows);
        ghost var db := Contents();
        ExecTrim(db, moment, batchRows);
        if batch == [] {
          NothingSweepable(rows, batchRows);
          break;
        }
        SweepableAreCandidates(rows);
        var noted, chains := CommitBatch(moment, candidates, batch, batchRows);
        SweepRound(before, db, s, oldAffected, affected);
        StillOver(before, moment, batchRows, rounds, used, sizeLimit);
        NextRound(before, db, moment, batchRows, rounds, trimmed);
        trimmed := trimmed + noted;
        affected := affected + chains;
        round, rounds := round + 1, rounds + 1;
      }
    }

    /** The retention window, then the upper bound. The chains that lost rows are the ones that
        got a marker. */
    method Sweep(moment: int, retentionDays: int, sizeLimit: int, used: Db -> int, batchRows: nat, maxRounds: nat)
      returns (report: SweepReport, ghost steps: seq<Step>, ghost affected: set<string>)
      requires Valid() && batchRows > 0
      modifies this
      ensures Valid() && AllAllowed(steps)
      ensures Contents() == RunFrom(old(Contents()), steps)
      ensures AllLostFront(old(Contents()), Contents(), moment)
      ensures forall s :: s in steps ==> s.Expire? || s.Trim?
      ensures report.tombstones == |affected| && report.usedAfter == used(Contents())
      ensures AffectedAre(old(Contents()), Contents(), {}, affected)
      ensures report.expired + report.trimmed + |Select(rows, Sweepable)| == |Select(old(rows), Sweepable)|
      ensures report.expired == 0 && report.trimmed == 0 ==> Contents() == old(Contents())
      ensures Select(old(rows), Sweepable) == [] ==> Contents() == old(Contents())
      ensures ExpiredGone(old(Contents()), Contents(), moment - retentionDays * 86400)
      ensures OldestGone(Between(old(Contents()), steps), Contents(), report.trimmed)
      ensures SweepDone(old(Contents()), Contents(), steps, moment, retentionDays, sizeLimit, used, batchRows,
                        maxRounds)
    {
      hide Select, Inv, Exec, AllLostFront, AffectedAre, FrontsExpired, RunFrom, TrimRounds, AlwaysOver,
           FullBatches, ExpiredGone, OldestGone, TrimsIn;
      ghost var before := Contents();
      var cutoff := moment - retentionDays * DAY_SECONDS;
      var expired, expiredChains, first := SweepExpired(moment, cutoff, batchRows, {});
      ghost var between := Contents();
      var trimmed, chains, rounds := SweepOverLimit(moment, sizeLimit, used, batchRows, maxRounds, expiredChains);
      assert forall i :: 0 <= i < |first| ==> first[i] in first;
      report := SweepReport(expired, trimmed, |chains|, used(Db(rows, counter)));
      affected := chains;
      steps := first + TrimSteps(moment, batchRows, rounds);
      TrimRoundsRun(between, moment, batchRows, rounds);
      TrimsOf(first, moment, batchRows, rounds);
      assert steps[..|steps| - rounds] == first;
      OldestCount(between, Contents(), trimmed);
      RunSplits(before, first, TrimSteps(moment, batchRows, rounds));
      LostBoth(before, between, Contents(), moment, expiredChains, chains, cutoff);
      if rounds == 0 {
        NoRounds(between, moment, batchRows, used, sizeLimit);
      }
    }

    /** The drop step of a run: afterwards the account has no rows, and nobody else lost any. */
    method DropUserChain(user: string, moment: int) returns (removed: nat)
      requires Valid()
      modifies this
      ensures Valid()
      ensures Contents() == Exec(old(Contents()), DropAccount(user, moment))
      ensures removed == |Select(old(rows), OfChain(UserChain(user)))|
      ensures removed == 0 ==> Contents() == old(Contents())
      ensures OnlyGone(old(Contents()), Contents(), {UserChain(user)})
      ensures removed > 0 ==>
                OneMarkerMore(old(rows), rows, UserChain(user), removed, moment)
    {
      hide Select, Inv, HashOf, Register.AppendRow;
      var chain := UserChain(user);
      var all := Select(rows, OfChain(chain));
      ExecInv(Contents(), DropAccount(user, moment));
      DropOnly(Contents(), user, moment);
      DropLeavesOneMarker(Contents(), user, moment);
      removed := |all|;
      if all != [] {
        LastOf(rows, chain);
        var end := all[|all| - 1].hash;
        rows := Select(rows, Outside(Numbers(all)));
        var no := AppendRow(MarkerEntry(chain, removed, Hex(end), moment));
      }
    }

    /** Exactly the accounts whose chain is silent, each once. */
    method SilentUsers(moment: int, silenceDays: int) returns (users: seq<string>)
      ensures forall u :: u in users <==>
                && (exists r :: r in rows && r.entry.chain == "u:" + u)
                && forall r :: r in rows && r.entry.chain == "u:" + u ==> r.entry.at <= moment - silenceDays * 86400
      ensures forall u :: u in users <==> Silent(rows, UserChain(u), moment - silenceDays * DAY_SECONDS)
      ensures Names.Distinct(users)
    {
      hide Names.Sorted, Names.Distinct, Names.Before;
      var cutoff := moment - silenceDays * DAY_SECONDS;
      var chains := Names.Sorted(ChainsOf(rows));
      users := [];
      for i := 0 to |chains|
        invariant users == SilentAmong(rows, chains[..i], cutoff)
      {
        assert chains[..i + 1][..i] == chains[..i];
        if USER_CHAIN_PREFIX <= chains[i] && Silent(rows, chains[i], cutoff) {
          users := users + [chains[i][|USER_CHAIN_PREFIX|..]];
        }
      }
      assert chains[..|chains|] == chains;
      SilentAreNamed(rows, cutoff);
      forall u {
        SilentIs(rows, u, cutoff);
      }
    }

    /** How much there is, and how many rows the markers stand for. After any run of the
        application that number is exact. */
    method Overview(used: Db -> int) returns (o: StoreOverview)
      ensures o.entries == |rows| && o.chains == |ChainsOf(rows)| && o.used == used(Contents())
      ensures o.tombstones == |Select(rows, OfKind(KIND_TOMBSTONE))|
      ensures o.explainedEntries == RemovedSum(Select(rows, OfKind(KIND_TOMBSTONE)))
      ensures o.sweepable == |Select(rows, Sweepable)|
      ensures forall steps :: AllAllowed(steps) && Contents() == Run(steps) ==>
                o.explainedEntries == AppendedOutside(steps) - o.sweepable
    {
      hide Select, RemovedSum, Run;
      o := StoreOverview(|ChainsOf(rows)|, |rows|, |Select(rows, OfKind(KIND_TOMBSTONE))|,
                         RemovedSum(Select(rows, OfKind(KIND_TOMBSTONE))), used(Db(rows, counter)),
                         |Select(rows, Sweepable)|);
      forall steps | AllAllowed(steps) && Contents() == Run(steps)
        ensures o.explainedEntries == AppendedOutside(steps) - o.sweepable
      {
        ExplainedEntriesExact(steps);
      }
    }

    /** The account check: a chain falls only when the account list was read, the chain has
        been silent, and its account is not on the list. */
    method DropChainsWithoutAccount(known: Option<set<string>>, moment: int, silenceDays: int)
      returns (ghost steps: seq<Step>, ghost gone: set<string>)
      requires Valid()
      modifies this
      ensures Valid() && AllAllowed(steps)
      ensures Contents() == RunFrom(old(Contents()), steps)
      ensures known.None? ==> gone == {} && steps == [] && Contents() == old(Contents())
      ensures known.Some? ==> forall u ::
                UserChain(u) in gone <==>
                u !in known.value && Silent(old(rows), UserChain(u), moment - silenceDays * DAY_SECONDS)
      ensures forall c :: c in gone ==> USER_CHAIN_PREFIX <= c
      ensures forall s :: s in steps ==> s.DropAccount?
      ensures OnlyGone(old(Contents()), Contents(), gone)
      ensures known.Some? ==> NoneWithoutAccount(rows, known.value, moment - silenceDays * DAY_SECONDS)
    {
      hide Select, Inv, Exec, Silent;
      steps, gone := [], {};
      if known.None? {
        return;
      }
      ghost var before := Contents();
      var users := SilentUsers(moment, silenceDays);
      for i := 0 to |users|
        invariant Valid() && AllAllowed(steps) && Contents() == RunFrom(before, steps)
        invariant OnlyGone(before, Contents(), gone)
        invariant forall u :: UserChain(u) in gone <==> u !in known.value && u in users[..i]
        invariant forall c :: c in gone ==> USER_CHAIN_PREFIX <= c
        invariant forall s :: s in steps ==> s.DropAccount?
      {
        assert users[..i + 1] == users[..i] + [users[i]];
        if users[i] !in known.value {
          UserChainsDiffer(users[i]);
          var removed := DropUserChain(users[i], moment);
          steps := steps + [DropAccount(users[i], moment)];
          gone := gone + {UserChain(users[i])};
        }
      }
      assert users[..|users|] == users;
      OnlyGoneSilent(before, Contents(), gone, known.value, moment - silenceDays * DAY_SECONDS);
    }

    /** One finished tool call: the row first, then the sweep when its number says so, and on
        every twentieth sweep the account check. Without a caller nothing is written, and a
        store that fails takes the steps behind the failure with it, never the call. */
    method Note(caller: Option<string>, call: Entry, fault: Fault, moment: int, retentionDays: int, sizeLimit: int,
                used: Db -> int, batchRows: nat, maxRounds: nat, known: Option<set<string>>, silenceDays: int)
      returns (ghost sweeping: seq<Step>, ghost dropping: seq<Step>, ghost gone: set<string>)
      requires Valid() && batchRows > 0
      modifies this
      ensures Valid()
      ensures forall s :: s in sweeping ==> s.Expire? || s.Trim?
      ensures forall s :: s in dropping ==> s.DropAccount?
      ensures caller.None? || fault == AppendFails ==>
                Contents() == old(Contents()) && sweeping == [] && dropping == [] && gone == {}
      ensures caller.Some? && fault != AppendFails ==>
                var append := Step.Append(CallEntry(caller.value, call));
                var row := Exec(old(Contents()), append);
                var swept := RunFrom(row, sweeping);
                var cutoff := moment - silenceDays * 86400;
                && CallWritten(old(rows), row.rows, caller.value, call)
                && Contents() == RunFrom(old(Contents()), [append] + sweeping + dropping)
                && AllAllowed([append] + sweeping + dropping)
                && (if row.counter % 500 != 0 || fault == SweepFails then sweeping == []
                    else SweepDone(row, swept, sweeping, moment, retentionDays, sizeLimit, used, batchRows, maxRounds))
                && OnlyGone(swept, Contents(), gone)
                && (forall c :: c in gone ==> USER_CHAIN_PREFIX <= c)
                && (if row.counter % 10000 != 0 || fault == SweepFails
                       || known.None? then dropping == [] && gone == {}
                    else
                      && NoneWithoutAccount(rows, known.value, cutoff)
                      && forall u :: UserChain(u) in gone <==>
                                     u !in known.value && Silent(swept.rows, UserChain(u), cutoff))
    {
      hide Select, Inv, RunFrom, SweepDone, NoneWithoutAccount, AllLostFront, AffectedAre, OnlyGone,
           FrontsExpired, OldestGone, AlwaysOver, NewRow, RemoveBatch, DropAll, Taken, Silent, Between, ExpiredGone,
           CallWritten, RowAdded;
      sweeping, dropping, gone := [], [], {};
      if caller.None? || fault == AppendFails {
        return;
      }
      ghost var before, append := Contents(), Step.Append(CallEntry(caller.value, call));
      var no := Append(CallEntry(caller.value, call));
      CallIsWritten(before, caller.value, call);
      RunOne(before, append);
      RunNothing(Exec(before, append));
      assert [append] + sweeping + dropping == [append];
      NobodyGone(Contents());
      if no % SWEEP_EVERY == 0 && fault == NoFault {
        var report, steps, affected := Sweep(moment, retentionDays, sizeLimit, used, batchRows, maxRounds);
        sweeping := steps;
        RunSplits(before, [append], sweeping);
        assert [append] + sweeping + dropping == [append] + sweeping;
        NobodyGone(Contents());
        if no % (SWEEP_EVERY * SWEEP_USER_CHECK_EVERY) == 0 {
          var drops, chains := DropChainsWithoutAccount(known, moment, silenceDays);
          dropping, gone := drops, chains;
          RunSplits(before, [append] + sweeping, dropping);
        }
      }
    }
  }

  predicate IsOf(r: Row, chain: string, kind: Option<string>) {
    r.entry.chain == chain && (kind.Some? ==> r.entry.kind == kind.value)
  }

  /** The table is the old one and one row: under the next number, with that entry, intact, and
      pointing at the row that ended its chain. */
  ghost predicate RowAdded(before: Db, after: Db, e: Entry) {
    var c := Select(before.rows, OfChain(e.chain));
    exists r: Row ::
      && after == Db(before.rows + [r], before.counter + 1)
      && r.entry == e && r.no == before.counter + 1 && Intact(r)
      && r.prev == if c == [] then Genesis else c[|c| - 1].hash
  }

  lemma RowIsAdded(db: Db, e: Entry)
    ensures RowAdded(db, Exec(db, Step.Append(e)), e)
  {
    hide Select, Intact;
    NewRowShape(db, e);
    LastOf(db.rows, e.chain);
    assert Exec(db, Step.Append(e)) == Db(db.rows + [NewRow(db, e)], db.counter + 1);
  }

  /** A call of this account in its chain: what was handed over, column by column. */
  predicate IsCallOf(e: Entry, user: string, call: Entry) {
    && e.chain == "u:" + user && e.kind == "call" && e.ncUser == Some(user)
    && e.at == call.at && e.actor == call.actor && e.tool == call.tool
    && e.clientId == call.clientId && e.authId == call.authId && e.clientName == call.clientName
    && e.outcome == call.outcome && e.reason == call.reason && e.durationMs == call.durationMs
    && e.params == call.params && e.removed == call.removed
    && e.gapChain == call.gapChain && e.gapHash == call.gapHash
  }

  /** The account's chain got this one row, and no other chain changed. */
  ghost predicate CallWritten(before: seq<Row>, after: seq<Row>, user: string, call: Entry) {
    && (exists r: Row ::
          && Select(after, OfChain("u:" + user)) == Select(before, OfChain("u:" + user)) + [r]
          && IsCallOf(r.entry, user, call))
    && forall c :: c != "u:" + user ==> Select(after, OfChain(c)) == Select(before, OfChain(c))
  }

  lemma CallIsWritten(db: Db, user: string, call: Entry)
    ensures CallWritten(db.rows, Exec(db, Step.Append(CallEntry(user, call))).rows, user, call)
  {
    hide Select;
    var e := CallEntry(user, call);
    var r := NewRow(db, e);
    NewRowShape(db, e);
    assert IsCallOf(r.entry, user, call);
    SelectOne(db.rows, r, OfChain("u:" + user));
    forall c | c != "u:" + user
      ensures Select(Exec(db, Step.Append(e)).rows, OfChain(c)) == Select(db.rows, OfChain(c))
    {
      SelectOne(db.rows, r, OfChain(c));
    }
  }

  /** The last row of a chain, or of one kind in it: of all such rows it has the highest number. */
  ghost predicate IsLastOf(rows: seq<Row>, chain: string, kind: Option<string>, e: Option<Entry>) {
    match e
    case None => forall r :: r in rows ==> !IsOf(r, chain, kind)
    case Some(entry) =>
      exists r :: r in rows && IsOf(r, chain, kind) && r.entry == entry
                  && forall s :: s in rows && IsOf(s, chain, kind) ==> s.no <= r.no
  }

  function AllOf(rows: seq<Row>, chain: string, kind: Option<string>): seq<Row> {
    if kind.Some? then Select(Select(rows, OfChain(chain)), OfKind(kind.value)) else Select(rows, OfChain(chain))
  }

  lemma AllOfMembers(rows: seq<Row>, chain: string, kind: Option<string>)
    ensures forall r :: r in AllOf(rows, chain, kind) <==> r in rows && IsOf(r, chain, kind)
  {
    hide Select;
    SelectMembers(rows, OfChain(chain));
    if kind.Some? {
      SelectMembers(Select(rows, OfChain(chain)), OfKind(kind.value));
    }
  }

  lemma AllOfOrdered(rows: seq<Row>, chain: string, kind: Option<string>)
    requires Ordered(rows)
    ensures Ordered(AllOf(rows, chain, kind))
  {
    hide Select, Ordered;
    SelectOrdered(rows, OfChain(chain));
    if kind.Some? {
      SelectOrdered(Select(rows, OfChain(chain)), OfKind(kind.value));
    }
  }

  lemma LastIsLastOf(rows: seq<Row>, chain: string, kind: Option<string>)
    requires Ordered(rows)
    ensures var s := AllOf(rows, chain, kind);
            IsLastOf(rows, chain, kind, if s == [] then None else Some(s[|s| - 1].entry))
  {
    hide AllOf, Ordered, IsOf;
    var s := AllOf(rows, chain, kind);
    AllOfMembers(rows, chain, kind);
    AllOfOrdered(rows, chain, kind);
    if s != [] {
      LastIsHighest(s);
    }
  }

  function ToSet(numbers: seq<int>): set<int> {
    set n | n in numbers
  }

  /** One more marker into the dictionaries: its count always, its end and its moment only when
      no younger end of the chain is known. */
  method AbsorbMarker(r: Row, ghost run: seq<Row>, ghost moment: int,
                      ghost batchEnds: map<string, string>, ghost batchCounts: map<string, int>,
                      oldEnds: map<string, string>, oldCounts: map<string, int>, oldAts: map<string, int>)
    returns (ends: map<string, string>, counts: map<string, int>, ats: map<string, int>)
    requires r.entry.chain == CHAIN_INSTANCE && IsMarker(r.entry) && AllMarkers(run)
    requires batchEnds.Keys == batchCounts.Keys
    requires Ledger(oldEnds, oldCounts, oldAts) == Absorbed(run, moment, batchEnds, batchCounts)
    ensures Ledger(ends, counts, ats) == Absorbed([r] + run, moment, batchEnds, batchCounts)
  {
    hide Absorbed, AllMarkers;
    var c := r.entry.gapChain.value;
    AbsorbOne(r, run, moment, batchEnds, batchCounts, c);
    ends, ats := oldEnds, oldAts;
    counts := oldCounts[c := CountIn(oldCounts, c) + RemovedOf(r.entry)];
    if c !in ends {
      ends := ends[c := r.entry.gapHash.value];
      ats := ats[c := r.entry.at];
    }
  }

  /** Walking back from the end finds the trailing run and absorbs all of it. */
  method AbsorbTail(tail: seq<Row>, moment: int, batchEnds: map<string, string>, batchCounts: map<string, int>)
    returns (ends: map<string, string>, counts: map<string, int>, ats: map<string, int>, superseded: seq<int>)
    requires batchEnds.Keys == batchCounts.Keys
    requires forall i :: 0 <= i < |tail| ==> tail[i].entry.chain == CHAIN_INSTANCE
    ensures Ledger(ends, counts, ats) == Absorbed(tail[RunStart(tail)..], moment, batchEnds, batchCounts)
    ensures ToSet(superseded) == Numbers(tail[RunStart(tail)..])
  {
    hide Select, Absorbed;
    ends, counts := batchEnds, batchCounts;
    ats := map c | c in ends :: moment;
    superseded := [];
    var i := |tail|;
    NothingAbsorbed(moment, ends, counts);
    assert tail[i..] == [];
    while i > 0 && IsMarker(tail[i - 1].entry)
      invariant 0 <= i <= |tail| && AllMarkers(tail[i..])
      invariant Ledger(ends, counts, ats) == Absorbed(tail[i..], moment, batchEnds, batchCounts)
      invariant ToSet(superseded) == Numbers(tail[i..])
    {
      assert tail[i - 1..] == [tail[i - 1]] + tail[i..];
      NumbersOne(tail[i - 1], tail[i..], superseded);
      superseded := superseded + [tail[i - 1].no];
      ends, counts, ats := AbsorbMarker(tail[i - 1], tail[i..], moment, batchEnds, batchCounts, ends, counts, ats);
      i := i - 1;
    }
    assert tail == tail[..i] + tail[i..];
    RunStartUnique(tail[..i], tail[i..]);
  }

  lemma NumbersOne(r: Row, run: seq<Row>, numbers: seq<int>)
    requires ToSet(numbers) == Numbers(run)
    ensures ToSet(numbers + [r.no]) == Numbers([r] + run)
  {
    assert forall s :: s in [r] + run <==> s in run || s == r;
    assert ToSet(numbers + [r.no]) == ToSet(numbers) + {r.no};
  }

  lemma SupersededIs(rows: seq<Row>)
    ensures var inst := Select(rows, OfChain(CHAIN_INSTANCE));
            Superseded(rows) == inst[RunStart(inst)..]
  {
  }

  lemma NothingAbsorbed(moment: int, ends: map<string, string>, counts: map<string, int>)
    requires ends.Keys == counts.Keys
    ensures Absorbed([], moment, ends, counts) == Ledger(ends, counts, map c | c in ends :: moment)
  {
    RemovedSumNone();
    forall c ensures Select([], MarkersFor(c)) == [] { SelectNone([], MarkersFor(c)); }
  }

  lemma InstanceRows(rows: seq<Row>)
    ensures forall i :: 0 <= i < |Select(rows, OfChain(CHAIN_INSTANCE))| ==>
              Select(rows, OfChain(CHAIN_INSTANCE))[i].entry.chain == CHAIN_INSTANCE
  {
    SelectMembers(rows, OfChain(CHAIN_INSTANCE));
    var inst := Select(rows, OfChain(CHAIN_INSTANCE));
    forall i | 0 <= i < |inst| ensures inst[i].entry.chain == CHAIN_INSTANCE {
      assert inst[i] in inst;
    }
  }

  lemma WithoutNumbered(db: Db, batch: seq<Row>)
    requires Numbered(db)
    ensures Numbered(Db(Without(db.rows, batch), db.counter))
  {
    SelectMembers(db.rows, Outside(Numbers(batch)));
    SelectOrdered(db.rows, Outside(Numbers(batch)));
  }

  lemma NothingLost(db: Db, moment: int, affected: set<string>)
    ensures AllLostFront(db, db, moment) && AffectedAre(db, db, affected, affected)
  {
  }

  lemma ExecExpire(db: Db, moment: int, cutoff: int, limit: nat)
    ensures var batch := Batch(db.rows, ExpiredNumbers(db.rows, cutoff), limit);
            Taken(db, Expire(moment, cutoff, limit)) == batch &&
            Exec(db, Expire(moment, cutoff, limit)) == if batch == [] then db else RemoveBatch(db, moment, batch)
  {
  }

  /** One more committed batch, seen from the start of the sweep. */
  lemma SweepRound(before: Db, db: Db, s: Step, oldAffected: set<string>, affected: set<string>)
    requires Inv(db) && !s.Append? && AllLostFront(before, db, s.moment)
    requires AffectedAre(before, db, oldAffected, affected)
    ensures Inv(Exec(db, s)) && AllLostFront(before, Exec(db, s), s.moment)
    ensures |Select(Exec(db, s).rows, Sweepable)| + |Taken(db, s)| == |Select(db.rows, Sweepable)|
    ensures AffectedAre(before, Exec(db, s), oldAffected, affected + ChainsOf(Taken(db, s)))
  {
    hide Select, Sound, Exec, Taken, HeadNamed, SweepBatch, Without, LostRows, Removed, AllLostFront, ChainsOf;
    ExecInv(db, s);
    LostMore(before, db, s);
    SweepableShrinks(db, s);
    SoundIsNumbered(db);
    TakenIsBatch(db, s);
    ExecRemoves(db, s);
    forall c ensures LostRows(before, Exec(db, s), c) <==> LostRows(before, db, c) || c in ChainsOf(Taken(db, s)) {
      LostRound(before, db, s, c);
    }
  }

  // ---- the retention sweep, round by round

  lemma NothingSwept(db: Db, moment: int, cutoff: int, affected: set<string>)
    ensures Swept(db, db, moment, cutoff, affected, affected, 0)
  {
    NothingLost(db, moment, affected);
  }

  lemma SweptMore(before: Db, db: Db, s: Step, oldAffected: set<string>, affected: set<string>, expired: nat)
    requires Inv(db) && s.Expire? && Taken(db, s) != []
    requires Swept(before, db, s.moment, s.cutoff, oldAffected, affected, expired)
    ensures Inv(Exec(db, s))
    ensures Swept(before, Exec(db, s), s.moment, s.cutoff, oldAffected, affected + ChainsOf(Taken(db, s)),
                  expired + |Taken(db, s)|)
    ensures |Select(Exec(db, s).rows, Sweepable)| < |Select(db.rows, Sweepable)|
  {
    hide Select, Sound, HeadNamed, Exec, Taken, AllLostFront, AffectedAre, DropExpiredFront;
    SweepRound(before, db, s, oldAffected, affected);
    forall c | c != CHAIN_INSTANCE
      ensures DropExpiredFront(Select(Exec(db, s).rows, OfChain(c)), s.cutoff)
              == DropExpiredFront(Select(before.rows, OfChain(c)), s.cutoff)
    {
      ExpireStep(db, s, s.cutoff, c);
    }
  }

  lemma SweptDone(before: Db, db: Db, moment: int, cutoff: int, oldAffected: set<string>, affected: set<string>,
                  expired: nat, limit: nat)
    requires Numbered(db) && limit > 0 && Batch(db.rows, ExpiredNumbers(db.rows, cutoff), limit) == []
    requires Swept(before, db, moment, cutoff, oldAffected, affected, expired)
    ensures AllLostFront(before, db, moment) && AffectedAre(before, db, oldAffected, affected)
    ensures FrontsExpired(before, db, cutoff)
    ensures expired + |Select(db.rows, Sweepable)| == |Select(before.rows, Sweepable)|
    ensures expired == 0 ==> db == before
  {
    hide Select, AllLostFront, AffectedAre, DropExpiredFront, Batch, Ordered;
    forall c | c != CHAIN_INSTANCE
      ensures Select(db.rows, OfChain(c)) == DropExpiredFront(Select(before.rows, OfChain(c)), cutoff)
    {
      NothingExpired(db, cutoff, limit, c);
    }
  }

  lemma RunNothing(db: Db)
    ensures RunFrom(db, []) == db
  {
  }

  lemma RunMore(db: Db, steps: seq<Step>, s: Step)
    ensures RunFrom(db, steps + [s]) == Exec(RunFrom(db, steps), s)
  {
    assert (steps + [s])[..|steps|] == steps;
  }

  lemma LostRound(before: Db, db: Db, s: Step, c: string)
    requires !s.Append?
    requires Sound(db) && SweepBatch(db.rows, Taken(db, s)) && Removed(db, Exec(db, s), Taken(db, s), s.moment)
    requires AllLostFront(before, db, s.moment)
    ensures LostRows(before, Exec(db, s), c) <==> LostRows(before, db, c) || c in ChainsOf(Taken(db, s))
  {
    hide Select, Exec, Taken, Without, RemovedSum, EndNamed, Intact, RegisteredEntry;
    ChainsOfBatch(Taken(db, s), c);
    if c == CHAIN_INSTANCE {
      SelectNone(Taken(db, s), OfChain(c));
    } else {
      assert RemovedAt(db, Exec(db, s), Taken(db, s), s.moment, c) && LostFront(before, db, s.moment, c);
      BatchIsFront(db.rows, Taken(db, s), c);
    }
  }

  lemma ExecTrim(db: Db, moment: int, limit: nat)
    ensures var batch := Batch(db.rows, SweepableNumbers(db.rows), limit);
            Taken(db, Trim(moment, limit)) == batch &&
            Exec(db, Trim(moment, limit)) == if batch == [] then db else RemoveBatch(db, moment, batch)
  {
  }

  /** One more round of the upper bound, seen from the start. */
  lemma NextRound(before: Db, db: Db, moment: int, batchRows: nat, rounds: nat, trimmed: nat)
    requires Sound(db) && db == TrimRounds(before, moment, batchRows, rounds)
    requires OldestGone(before, db, trimmed)
    requires FullBatches(rounds, batchRows, |Select(before.rows, Sweepable)|, trimmed)
    ensures var s := Trim(moment, batchRows);
            && Exec(db, s) == TrimRounds(before, moment, batchRows, rounds + 1)
            && OldestGone(before, Exec(db, s), trimmed + |Taken(db, s)|)
            && FullBatches(rounds + 1, batchRows, |Select(before.rows, Sweepable)|, trimmed + |Taken(db, s)|)
  {
    hide Select, Sound, Exec, Taken;
    TrimStep(db, moment, batchRows);
    assert (rounds + 1) * batchRows == rounds * batchRows + batchRows;
    var all, k := Select(before.rows, Sweepable), |Taken(db, Trim(moment, batchRows))|;
    assert all[trimmed..][k..] == all[trimmed + k..];
  }

  lemma NothingSweepable(rows: seq<Row>, limit: nat)
    requires Ordered(rows) && limit > 0 && Batch(rows, SweepableNumbers(rows), limit) == []
    ensures Select(rows, Sweepable) == []
  {
    SweepableSelection(rows);
  }

  lemma StillOver(db: Db, moment: int, batchRows: nat, rounds: nat, used: Db -> int, sizeLimit: int)
    requires AlwaysOver(db, moment, batchRows, rounds, used, sizeLimit)
    requires used(TrimRounds(db, moment, batchRows, rounds)) > sizeLimit
    ensures AlwaysOver(db, moment, batchRows, rounds + 1, used, sizeLimit)
  {
  }

  function TrimSteps(moment: int, limit: nat, rounds: nat): seq<Step> {
    if rounds == 0 then [] else TrimSteps(moment, limit, rounds - 1) + [Trim(moment, limit)]
  }

  lemma {:induction false} TrimRoundsRun(db: Db, moment: int, limit: nat, rounds: nat)
    ensures TrimRounds(db, moment, limit, rounds) == RunFrom(db, TrimSteps(moment, limit, rounds))
    ensures AllAllowed(TrimSteps(moment, limit, rounds))
    ensures forall s :: s in TrimSteps(moment, limit, rounds) ==> s.Trim?
  {
    hide Exec;
    if rounds > 0 {
      TrimRoundsRun(db, moment, limit, rounds - 1);
      var steps := TrimSteps(moment, limit, rounds);
      assert steps[..|steps| - 1] == TrimSteps(moment, limit, rounds - 1);
    }
  }

  lemma {:induction false} TrimsOf(first: seq<Step>, moment: int, limit: nat, rounds: nat)
    requires forall s :: s in first ==> !s.Trim?
    ensures TrimsIn(first + TrimSteps(moment, limit, rounds)) == rounds
    ensures |TrimSteps(moment, limit, rounds)| == rounds
  {
    var all := first + TrimSteps(moment, limit, rounds);
    if rounds > 0 {
      TrimsOf(first, moment, limit, rounds - 1);
      assert all[..|all| - 1] == first + TrimSteps(moment, limit, rounds - 1);
    } else if first != [] {
      assert all == first;
      TrimsOf(first[..|first| - 1], moment, limit, 0);
      assert first[..|first| - 1] + [] == first[..|first| - 1];
    }
  }

  lemma OldestCount(before: Db, after: Db, k: nat)
    requires OldestGone(before, after, k)
    ensures k + |Select(after.rows, Sweepable)| == |Select(before.rows, Sweepable)|
  {
  }

  lemma NoRounds(db: Db, moment: int, limit: nat, used: Db -> int, sizeLimit: int)
    ensures TrimRounds(db, moment, limit, 0) == db && AlwaysOver(db, moment, limit, 0, used, sizeLimit)
    ensures OldestGone(db, db, 0) && FullBatches(0, limit, |Select(db.rows, Sweepable)|, 0)
  {
  }

  /** What a chain loses in two goes is what it loses in one. */
  lemma LostBoth(before: Db, between: Db, after: Db, moment: int, some: set<string>, all: set<string>, cutoff: int)
    requires AllLostFront(before, between, moment) && AllLostFront(between, after, moment)
    requires AffectedAre(before, between, {}, some) && AffectedAre(between, after, some, all)
    requires FrontsExpired(before, between, cutoff)
    ensures AllLostFront(before, after, moment) && AffectedAre(before, after, {}, all)
    ensures ExpiredGone(before, after, cutoff)
  {
    hide Select, RemovedSum, EndNamed, Hex, DropExpiredFront;
    forall c
      ensures c != CHAIN_INSTANCE ==> LostFront(before, after, moment, c)
      ensures LostRows(before, after, c) <==> LostRows(before, between, c) || LostRows(between, after, c)
    {
      if c != CHAIN_INSTANCE {
        assert LostFront(before, between, moment, c) && LostFront(between, after, moment, c);
      }
    }
    forall c | c != CHAIN_INSTANCE
      ensures IsTail(Select(after.rows, OfChain(c)), DropExpiredFront(Select(before.rows, OfChain(c)), cutoff))
    {
      assert LostFront(between, after, moment, c);
    }
  }

  lemma UserChainsDiffer(u: string)
    ensures forall v :: UserChain(v) == UserChain(u) <==> u == v
    ensures USER_CHAIN_PREFIX <= UserChain(u)
  {
    forall v ensures UserChain(v) == UserChain(u) <==> u == v {
      assert UserChain(v)[|USER_CHAIN_PREFIX|..] == v && UserChain(u)[|USER_CHAIN_PREFIX|..] == u;
    }
  }

  lemma RunOne(db: Db, s: Step)
    ensures RunFrom(db, [s]) == Exec(db, s)
  {
    assert [s][..0] == [];
  }

  // ------------------------------------------------------- account chains

  /** The chain has rows, and none of them is younger than the cutoff. */
  predicate Silent(rows: seq<Row>, c: string, cutoff: int) {
    c in ChainsOf(rows) && forall r :: r in rows && r.entry.chain == c ==> r.entry.at <= cutoff
  }

  /** Outside the instance chain, the named chains are empty and every other one is untouched. */
  ghost predicate OnlyGone(before: Db, after: Db, chains: set<string>) {
    forall c :: c != CHAIN_INSTANCE ==>
      Select(after.rows, OfChain(c)) == if c in chains then [] else Select(before.rows, OfChain(c))
  }

  /** Every silent account chain belongs to a known account. */
  ghost predicate NoneWithoutAccount(rows: seq<Row>, known: set<string>, cutoff: int) {
    forall u :: Silent(rows, UserChain(u), cutoff) ==> u in known
  }

  lemma NobodyGone(db: Db)
    ensures OnlyGone(db, db, {})
  {
  }

  lemma SilentIs(rows: seq<Row>, u: string, cutoff: int)
    ensures Silent(rows, UserChain(u), cutoff) <==>
            && (exists r :: r in rows && r.entry.chain == "u:" + u)
            && forall r :: r in rows && r.entry.chain == "u:" + u ==> r.entry.at <= cutoff
  {
  }

  lemma SilentByRows(rows: seq<Row>, c: string, cutoff: int)
    ensures Silent(rows, c, cutoff)
            <==> Select(rows, OfChain(c)) != [] && forall r :: r in Select(rows, OfChain(c)) ==> r.entry.at <= cutoff
  {
    ChainsOfBatch(rows, c);
    SelectMembers(rows, OfChain(c));
  }

  lemma OnlyGoneSilent(before: Db, after: Db, gone: set<string>, known: set<string>, cutoff: int)
    requires OnlyGone(before, after, gone)
    requires forall u :: UserChain(u) in gone <==> u !in known && Silent(before.rows, UserChain(u), cutoff)
    ensures NoneWithoutAccount(after.rows, known, cutoff)
  {
    hide Silent, Select, ChainsOf;
    forall u | Silent(after.rows, UserChain(u), cutoff) ensures u in known {
      UserChainIsOutside(u);
      SilentByRows(before.rows, UserChain(u), cutoff);
      SilentByRows(after.rows, UserChain(u), cutoff);
    }
  }

  lemma DropOnly(db: Db, user: string, moment: int)
    requires Inv(db)
    ensures OnlyGone(db, Exec(db, DropAccount(user, moment)), {UserChain(user)})
  {
    hide Select, Sound, HeadNamed, SweepBatch, Exec, RemovedSum, EndNamed;
    var s := DropAccount(user, moment);
    var batch := Select(db.rows, OfChain(UserChain(user)));
    SoundIsNumbered(db);
    TakenIsBatch(db, s);
    ExecRemoves(db, s);
    forall c | c != CHAIN_INSTANCE
      ensures Select(Exec(db, s).rows, OfChain(c)) == if c == UserChain(user) then [] else Select(db.rows, OfChain(c))
    {
      assert RemovedAt(db, Exec(db, s), batch, s.moment, c);
      BatchIsFront(db.rows, batch, c);
      SelectMembers(db.rows, OfChain(UserChain(user)));
      if c == UserChain(user) {
        SelectAll(batch, OfChain(c));
      } else {
        SelectNone(batch, OfChain(c));
      }
    }
  }

  /** The register is the old one with one marker behind it, which says how many rows of the chain
      went, when, and which was the last of them. Nothing is consolidated. */
  ghost predicate OneMarkerMore(before: seq<Row>, after: seq<Row>, chain: string, removed: nat, moment: int) {
    var all := Select(before, OfChain(chain));
    && all != []
    && exists r: Row ::
      && Select(after, OfChain(CHAIN_INSTANCE)) == Select(before, OfChain(CHAIN_INSTANCE)) + [r]
      && r.entry.kind == KIND_TOMBSTONE && r.entry.gapChain == Some(chain) && r.entry.removed == Some(removed)
      && r.entry.gapHash == Some(Hex(all[|all| - 1].hash)) && r.entry.at == moment && Bare(r.entry)
  }

  lemma DropLeavesOneMarker(db: Db, user: string, moment: int)
    requires Inv(db)
    ensures var all := Select(db.rows, OfChain(UserChain(user)));
            all != [] ==>
              OneMarkerMore(db.rows, Exec(db, DropAccount(user, moment)).rows, UserChain(user), |all|, moment)
  {
    hide Select, Sound, HeadNamed, SweepBatch, NewRow, LastHash, HashOf, Hex, Without;
    var chain, s := UserChain(user), DropAccount(user, moment);
    var all := Select(db.rows, OfChain(chain));
    if all != [] {
      var mid := Db(Without(db.rows, all), db.counter);
      var e := MarkerEntry(chain, |all|, Hex(LastHash(all, chain)), moment);
      InvIsNumbered(db);
      TakenIsBatch(db, s);
      BatchSparesInstance(db.rows, all);
      LastOf(db.rows, chain);
      NewRowShape(mid, e);
      SelectOne(mid.rows, NewRow(mid, e), OfChain(CHAIN_INSTANCE));
    }
  }

  /** The accounts behind the silent user chains of a list, in its order. */
  function SilentAmong(rows: seq<Row>, chains: seq<string>, cutoff: int): seq<string> {
    if chains == [] then []
    else
      var c := chains[|chains| - 1];
      if USER_CHAIN_PREFIX <= c && Silent(rows, c, cutoff) then
        SilentAmong(rows, chains[..|chains| - 1], cutoff) + [c[|USER_CHAIN_PREFIX|..]]
      else SilentAmong(rows, chains[..|chains| - 1], cutoff)
  }

  lemma {:induction false} SilentAmongMembers(rows: seq<Row>, chains: seq<string>, cutoff: int)
    requires Names.Distinct(chains)
    ensures forall u :: u in SilentAmong(rows, chains, cutoff) <==>
                        UserChain(u) in chains && Silent(rows, UserChain(u), cutoff)
    ensures Names.Distinct(SilentAmong(rows, chains, cutoff))
  {
    hide Silent;
    if chains != [] {
      var front, c := chains[..|chains| - 1], chains[|chains| - 1];
      SilentAmongMembers(rows, front, cutoff);
      assert chains == front + [c];
      if USER_CHAIN_PREFIX <= c {
        UserChainsDiffer(c[|USER_CHAIN_PREFIX|..]);
        assert c == UserChain(c[|USER_CHAIN_PREFIX|..]);
      }
    }
  }

  lemma SilentAreNamed(rows: seq<Row>, cutoff: int)
    ensures var users := SilentAmong(rows, Names.Sorted(ChainsOf(rows)), cutoff);
            Names.Distinct(users) && forall u :: u in users <==> Silent(rows, UserChain(u), cutoff)
  {
    Names.SortedDistinct(ChainsOf(rows));
    SilentAmongMembers(rows, Names.Sorted(ChainsOf(rows)), cutoff);
  }
}
