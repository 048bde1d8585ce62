/** The retention sweep while other workers write: between any two of its batches their rows may
    come in, and another worker's sweep may take a batch. */
module Retention {
  import opened Basics
  import opened Rows
  import opened Register
  import opened Log
  import opened Batches
  import opened Runs
  import opened Sweeps
  import opened History

  /** The entries without their expired front. */
  function DropExpired(entries: seq<Entry>, cutoff: int): seq<Entry> {
    if entries == [] || entries[0].at > cutoff then entries else DropExpired(entries[1..], cutoff)
  }

  lemma EntriesTail(c: seq<Row>)
    ensures c == [] <==> EntriesOf(c) == []
    ensures c != [] ==> EntriesOf(c)[0] == c[0].entry && EntriesOf(c)[1..] == EntriesOf(c[1..])
  {
  }

  lemma {:induction false} DropExpiredRows(c: seq<Row>, cutoff: int)
    ensures EntriesOf(DropExpiredFront(c, cutoff)) == DropExpired(EntriesOf(c), cutoff)
  {
    hide EntriesOf;
    EntriesTail(c);
    if c != [] && c[0].entry.at <= cutoff {
      DropExpiredRows(c[1..], cutoff);
    }
  }

  lemma {:induction false} DropExpiredMore(entries: seq<Entry>, e: Entry, cutoff: int)
    ensures var rest := DropExpired(entries, cutoff);
            DropExpired(entries + [e], cutoff) == if rest == [] then DropExpired([e], cutoff) else rest + [e]
  {
    if entries == [] {
      assert entries + [e] == [e];
    } else if entries[0].at <= cutoff {
      assert (entries + [e])[1..] == entries[1..] + [e];
      DropExpiredMore(entries[1..], e, cutoff);
    }
  }

  /** Appends of the application, and batches of retention sweeps with cutoffs up to this one. */
  ghost predicate SweepingAmongWriters(steps: seq<Step>, cutoff: int) {
    forall i :: 0 <= i < |steps| ==>
      Allowed(steps[i]) && (steps[i].Append? || (steps[i].Expire? && steps[i].cutoff <= cutoff))
  }

  /** What was written into the chain meanwhile, in order. */
  function Meanwhile(steps: seq<Step>, c: string): seq<Entry> {
    if steps == [] then []
    else
      var s := steps[|steps| - 1];
      Meanwhile(steps[..|steps| - 1], c) + if s.Append? && s.entry.chain == c then [s.entry] else []
  }

  function EntriesIn(db: Db, c: string): seq<Entry> {
    EntriesOf(Select(db.rows, OfChain(c)))
  }

  lemma StepRetains(db: Db, s: Step, cutoff: int, c: string, all: seq<Entry>)
    requires Inv(db) && Allowed(s) && c != CHAIN_INSTANCE
    requires s.Append? || (s.Expire? && s.cutoff <= cutoff)
    requires DropExpired(EntriesIn(db, c), cutoff) == DropExpired(all, cutoff)
    ensures var more := all + if s.Append? && s.entry.chain == c then [s.entry] else [];
            DropExpired(EntriesIn(Exec(db, s), c), cutoff) == DropExpired(more, cutoff)
  {
    hide Select, Sound, HeadNamed, NewRow, RemoveBatch, DropExpired;
    assert all + [] == all;
    if s.Append? {
      var r := NewRow(db, s.entry);
      NewRowShape(db, s.entry);
      SelectOne(db.rows, r, OfChain(c));
      if s.entry.chain == c {
        assert EntriesIn(Exec(db, s), c) == EntriesIn(db, c) + [s.entry];
        DropExpiredMore(EntriesIn(db, c), s.entry, cutoff);
        DropExpiredMore(all, s.entry, cutoff);
      }
    } else {
      ExpireStep(db, s, cutoff, c);
      DropExpiredRows(Select(db.rows, OfChain(c)), cutoff);
      DropExpiredRows(Select(Exec(db, s).rows, OfChain(c)), cutoff);
    }
  }

  /** Whenever the rows of the others come in: what is still to be swept, less its expired front,
      is the old chain with everything written meanwhile behind it, less its expired front. */
  lemma {:induction false} RetentionAmongWriters(db: Db, steps: seq<Step>, cutoff: int, c: string)
    requires Inv(db) && SweepingAmongWriters(steps, cutoff) && c != CHAIN_INSTANCE
    ensures Inv(RunFrom(db, steps))
    ensures DropExpired(EntriesIn(RunFrom(db, steps), c), cutoff)
            == DropExpired(EntriesIn(db, c) + Meanwhile(steps, c), cutoff)
  {
    hide Inv, Exec, EntriesIn, DropExpired;
    if steps == [] {
      assert EntriesIn(db, c) + [] == EntriesIn(db, c);
    } else {
      var front, s := steps[..|steps| - 1], steps[|steps| - 1];
      RetentionAmongWriters(db, front, cutoff, c);
      ExecInv(RunFrom(db, front), s);
      StepRetains(RunFrom(db, front), s, cutoff, c, EntriesIn(db, c) + Meanwhile(front, c));
      assert EntriesIn(db, c) + Meanwhile(steps, c)
          == EntriesIn(db, c) + Meanwhile(front, c) + if s.Append? && s.entry.chain == c then [s.entry] else [];
    }
  }

  /** And when the sweep finds nothing more, every chain is its old entries and everything written
      meanwhile, less the expired front, wherever between the batches it was written. */
  lemma RetentionCompletes(db: Db, steps: seq<Step>, cutoff: int, limit: nat, c: string)
    requires Inv(db) && SweepingAmongWriters(steps, cutoff) && c != CHAIN_INSTANCE && limit > 0
    requires Taken(RunFrom(db, steps), Expire(0, cutoff, limit)) == []
    ensures EntriesIn(RunFrom(db, steps), c) == DropExpired(EntriesIn(db, c) + Meanwhile(steps, c), cutoff)
  {
    hide Exec, RunFrom, Sound, HeadNamed, DropExpired, Select, Batch, ExpiredNumbers, Meanwhile;
    var after := RunFrom(db, steps);
    RetentionAmongWriters(db, steps, cutoff, c);
    InvIsNumbered(after);
    NothingExpired(after, cutoff, limit, c);
    DropExpiredRows(Select(after.rows, OfChain(c)), cutoff);
  }
}
