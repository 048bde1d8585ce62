/** Recording the switch of the log at every start, and what the recorded history says. */
module Startup {
  import opened Basics
  import opened Rows
  import opened Register
  import opened Log
  import opened Runs
  import opened History
  import opened Sweeps
  import opened Store

  const SWITCH_ON := "on"
  const SWITCH_OFF := "off"

  function Direction(enabled: bool): string {
    if enabled then SWITCH_ON else SWITCH_OFF
  }

  function SwitchEntry(enabled: bool, moment: int): Entry {
    Entry(CHAIN_INSTANCE, KIND_SWITCH, moment, actor := Some(ACTOR_UNKNOWN), outcome := Some(Direction(enabled)))
  }

  /** What the log says about its own state: the last switch, or the shipped "off". */
  function Known(db: Db): Option<string> {
    var s := Select(db.rows, Switches);
    if s == [] then Some(SWITCH_OFF) else s[|s| - 1].entry.outcome
  }

  function Recorded(db: Db, enabled: bool, moment: int): Db {
    if Known(db) != Some(Direction(enabled)) then AppendRow(db, SwitchEntry(enabled, moment)) else db
  }

  /** A row that says only which way the log was switched, and when. */
  predicate IsSwitchRow(e: Entry, enabled: bool, moment: int) {
    && e.chain == "i:instance" && e.kind == "switch" && e.at == moment && e.actor == Some("unknown")
    && e.outcome == Some(if enabled then "on" else "off")
    && e.ncUser.None? && e.tool.None? && e.clientId.None? && e.authId.None? && e.clientName.None?
    && e.reason.None? && e.durationMs.None? && e.params == "[]" && e.removed.None?
    && e.gapChain.None? && e.gapHash.None?
  }

  /** A change of the switch is one row behind the register; without a change nothing is written. */
  lemma ChangeIsRecorded(db: Db, enabled: bool, moment: int)
    ensures var inst, after := Select(db.rows, OfChain("i:instance")), Recorded(db, enabled, moment);
            if Known(db) == Some(if enabled then "on" else "off") then after == db
            else exists r: Row :: Select(after.rows, OfChain("i:instance")) == inst + [r]
                               && IsSwitchRow(r.entry, enabled, moment)
  {
    hide Select, Known;
    var e := SwitchEntry(enabled, moment);
    NewRowShape(db, e);
    SelectOne(db.rows, NewRow(db, e), OfChain("i:instance"));
    assert IsSwitchRow(e, enabled, moment);
  }

  /** One start: with no file and the log off nothing happens, not even a file. Otherwise the
      change is recorded, and a file that was already there is swept. */
  function OnStart(disk: Option<Db>, enabled: bool, moment: int, sweeping: seq<Step>): Option<Db> {
    if disk.None? && !enabled then None
    else
      var db := Recorded(Get(disk, EMPTY_DB), enabled, moment);
      Some(if disk.Some? then RunFrom(db, sweeping) else db)
  }

  /** The start of the application. A store that is null is a file that does not exist, and it
      stays that way when the log is off. */
  method AuditStartup(store: AuditStore?, enabled: bool, moment: int, retentionDays: int,
                      sizeLimit: int, used: Db -> int, batchRows: nat, maxRounds: nat)
    returns (left: AuditStore?, ghost sweeping: seq<Step>)
    requires batchRows > 0 && (store != null ==> store.Valid())
    modifies store
    ensures left == null <==> store == null && !enabled
    ensures store != null ==> left == store
    ensures store == null && left != null ==> fresh(left)
    ensures forall s :: s in sweeping ==> s.Expire? || s.Trim?
    ensures left != null ==>
              var disk := if store == null then None else Some(old(store.Contents()));
              left.Valid() && OnStart(disk, enabled, moment, sweeping) == Some(left.Contents())
    ensures if store == null then sweeping == []
            else SweepDone(Recorded(old(store.Contents()), enabled, moment), store.Contents(), sweeping,
                           moment, retentionDays, sizeLimit, used, batchRows, maxRounds)
  {
    hide Select, Inv, AppendRow, AllLostFront, AffectedAre, ExpiredGone, RunFrom, SweepDone, FrontsExpired,
         OldestGone, AlwaysOver, Between, IsLastOf, Known;
    sweeping := [];
    left := store;
    if store == null {
      if !enabled {
        return;
      }
      left := new AuditStore();
    }
    InvIsNumbered(left.Contents());
    var last := left.LastEntry(CHAIN_INSTANCE, Some(KIND_SWITCH));
    LastSwitch(left.Contents(), last);
    var known := if last.Some? then last.value.outcome else Some(SWITCH_OFF);
    if known != Some(Direction(enabled)) {
      var no := left.Append(SwitchEntry(enabled, moment));
    }
    if store != null {
      var report, steps, affected := left.Sweep(moment, retentionDays, sizeLimit, used, batchRows, maxRounds);
      sweeping := steps;
    }
  }

  lemma LastSwitch(db: Db, last: Option<Entry>)
    requires Ordered(db.rows) && IsLastOf(db.rows, CHAIN_INSTANCE, Some(KIND_SWITCH), last)
    ensures Known(db) == if last.Some? then last.value.outcome else Some(SWITCH_OFF)
  {
    hide Select;
    var s := Select(db.rows, Switches);
    SelectMembers(db.rows, Switches);
    SelectOrdered(db.rows, Switches);
    if s == [] {
      assert last.None?;
    } else {
      LastIsHighest(s);
      var r :| r in db.rows && IsOf(r, CHAIN_INSTANCE, Some(KIND_SWITCH)) && r.entry == last.value
            && forall t :: t in db.rows && IsOf(t, CHAIN_INSTANCE, Some(KIND_SWITCH)) ==> t.no <= r.no;
      var i := IndexOf(s, r);
    }
  }

  // -------------------------------------------------------- the life of a log

  /** A start of the application, or any other committed transaction of it. */
  datatype Event =
    | Start(enabled: bool, moment: int, sweeping: seq<Step>)
    | Work(step: Step)

  ghost predicate Ordinary(e: Event) {
    match e
    case Start(_, _, sweeping) => forall s :: s in sweeping ==> s.Expire? || s.Trim?
    case Work(s) => Allowed(s) && !SwitchAppend(s)
  }

  function Happen(disk: Option<Db>, e: Event): Option<Db> {
    match e
    case Start(enabled, moment, sweeping) => OnStart(disk, enabled, moment, sweeping)
    case Work(s) => Some(Exec(Get(disk, EMPTY_DB), s))
  }

  function Life(events: seq<Event>): Option<Db> {
    if events == [] then None else Happen(Life(events[..|events| - 1]), events[|events| - 1])
  }

  /** The state in force: what the last start was told, off before the first. */
  function InForce(events: seq<Event>): bool {
    if events == [] then false
    else match events[|events| - 1]
         case Start(enabled, _, _) => enabled
         case Work(_) => InForce(events[..|events| - 1])
  }

  /** The changes of that state, in order. */
  function Changes(events: seq<Event>): seq<string> {
    if events == [] then []
    else
      var front, e := events[..|events| - 1], events[|events| - 1];
      if e.Start? && e.enabled != InForce(front) then Changes(front) + [Direction(e.enabled)] else Changes(front)
  }

  function Outcomes(db: Db): seq<Option<string>> {
    OutcomesOf(Select(db.rows, Switches))
  }

  function OutcomesOf(s: seq<Row>): (o: seq<Option<string>>)
    ensures |o| == |s|
  {
    if s == [] then [] else OutcomesOf(s[..|s| - 1]) + [s[|s| - 1].entry.outcome]
  }

  function AsOutcomes(changes: seq<string>): (o: seq<Option<string>>)
    ensures |o| == |changes|
  {
    if changes == [] then [] else AsOutcomes(changes[..|changes| - 1]) + [Some(changes[|changes| - 1])]
  }

  ghost predicate OrdinaryLife(events: seq<Event>) {
    forall i :: 0 <= i < |events| ==> Ordinary(events[i])
  }

  lemma {:induction false} SweepingKeepsSwitches(db: Db, steps: seq<Step>)
    requires Inv(db) && forall s :: s in steps ==> Allowed(s) && !SwitchAppend(s)
    ensures Inv(RunFrom(db, steps)) && Select(RunFrom(db, steps).rows, Switches) == Select(db.rows, Switches)
  {
    hide Select, Inv, Exec, NewRow;
    if steps != [] {
      var front, s := steps[..|steps| - 1], steps[|steps| - 1];
      assert s in steps;
      SweepingKeepsSwitches(db, front);
      StepKeepsSwitches(RunFrom(db, front), s);
    }
  }

  ghost predicate SwitchAppend(s: Step) {
    s.Append? && s.entry.chain == CHAIN_INSTANCE && s.entry.kind == KIND_SWITCH
  }

  lemma StepKeepsSwitches(db: Db, s: Step)
    requires Inv(db) && Allowed(s) && !SwitchAppend(s)
    ensures Inv(Exec(db, s)) && Select(Exec(db, s).rows, Switches) == Select(db.rows, Switches)
  {
    hide Select, Inv, Exec, NewRow;
    ExecInv(db, s);
    ExecBarriers(db, s, Switches);
    if s.Append? {
      NewRowShape(db, s.entry);
    }
  }

  lemma RecordedSwitches(db: Db, enabled: bool, moment: int)
    requires Inv(db)
    ensures var after := Recorded(db, enabled, moment);
            && Inv(after) && Known(after) == Some(Direction(enabled))
            && Outcomes(after) == if Known(db) == Some(Direction(enabled)) then Outcomes(db)
                                  else Outcomes(db) + [Some(Direction(enabled))]
  {
    hide Select, Inv, NewRow;
    if Known(db) != Some(Direction(enabled)) {
      var s := Append(SwitchEntry(enabled, moment));
      ExecInv(db, s);
      ExecBarriers(db, s, Switches);
      NewRowShape(db, s.entry);
    }
  }

  lemma StartSwitches(disk: Option<Db>, e: Event)
    requires e.Start? && Ordinary(e) && Inv(Get(disk, EMPTY_DB))
    ensures var db, after := Get(disk, EMPTY_DB), Get(Happen(disk, e), EMPTY_DB);
            && Inv(after) && Known(after) == Some(Direction(e.enabled))
            && Outcomes(after) == if Known(db) == Some(Direction(e.enabled)) then Outcomes(db)
                                  else Outcomes(db) + [Some(Direction(e.enabled))]
  {
    hide Select, Inv, Recorded, RunFrom;
    var db := Get(disk, EMPTY_DB);
    if disk.None? && !e.enabled {
      NeverSwitched();
    } else {
      RecordedSwitches(db, e.enabled, e.moment);
      SweepingKeepsSwitches(Recorded(db, e.enabled, e.moment), e.sweeping);
    }
  }

  lemma NeverSwitched()
    ensures Known(EMPTY_DB) == Some(SWITCH_OFF) && Outcomes(EMPTY_DB) == []
  {
    SelectNone([], Switches);
  }

  /** The log of a life says exactly how it was switched: its switch rows are the changes of
      the state in force, all of them and in order, and the last one is the state in force. */
  lemma {:induction false} SwitchesAreTheChanges(events: seq<Event>)
    requires OrdinaryLife(events)
    ensures var db := Get(Life(events), EMPTY_DB);
            && Inv(db)
            && Outcomes(db) == AsOutcomes(Changes(events))
            && Known(db) == Some(Direction(InForce(events)))
  {
    hide Select, Inv, Exec, OnStart;
    if events == [] {
      EmptyInv();
      NeverSwitched();
    } else {
      var front, e := events[..|events| - 1], events[|events| - 1];
      SwitchesAreTheChanges(front);
      assert Ordinary(e);
      if e.Start? {
        StartSwitches(Life(front), e);
        DirectionsDiffer();
      } else {
        StepKeepsSwitches(Get(Life(front), EMPTY_DB), e.step);
      }
    }
  }

  lemma DirectionsDiffer()
    ensures Direction(true) != Direction(false)
  {
    assert SWITCH_ON[1] == 'n' && SWITCH_OFF[1] == 'f';
  }

  /** The recorded outcomes alternate, beginning with "on". */
  lemma {:induction false} ChangesAlternate(events: seq<Event>)
    ensures InForce(events) <==> |Changes(events)| % 2 == 1
    ensures forall i :: 0 <= i < |Changes(events)| ==> Changes(events)[i] == Direction(i % 2 == 0)
  {
    if events != [] {
      ChangesAlternate(events[..|events| - 1]);
    }
  }

  lemma {:induction false} AsOutcomesAt(changes: seq<string>, i: nat)
    requires i < |changes|
    ensures AsOutcomes(changes)[i] == Some(changes[i])
  {
    if i < |changes| - 1 {
      AsOutcomesAt(changes[..|changes| - 1], i);
    }
  }

  lemma RecordedOutcomesAlternate(events: seq<Event>)
    requires OrdinaryLife(events)
    ensures var o := Outcomes(Get(Life(events), EMPTY_DB));
            forall i :: 0 <= i < |o| ==> o[i] == Some(if i % 2 == 0 then SWITCH_ON else SWITCH_OFF)
  {
    hide Inv, Life;
    SwitchesAreTheChanges(events);
    ChangesAlternate(events);
    forall i | 0 <= i < |Changes(events)| ensures AsOutcomes(Changes(events))[i] == Some(Changes(events)[i]) {
      AsOutcomesAt(Changes(events), i);
    }
  }
}
