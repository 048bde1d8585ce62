/** The braked writer of refused exchange attempts: what its rows stand for, and how close in
    time they can be. */
module Refusals {
  import opened Basics
  import opened Rows
  import opened Register
  import opened Log
  import opened Runs
  import opened Sweeps
  import opened Store

  const REFUSAL_WINDOW_SECONDS := 300

  const REASON_UNSPECIFIED := "unspecified"

  /** The frozen set of rejection identifiers. */
  const REASONS: set<string> := {
    REASON_UNSPECIFIED, "permission_denied", "unknown_id", "timeout", "unreachable", "guard_tripped",
    "exchange_malformed", "exchange_key", "exchange_issuer", "exchange_claims", "exchange_account",
    "exchange_failed"
  }

  function KnownReason(reason: Option<string>): (r: Option<string>)
    ensures r.Some? ==> r.value in REASONS
    ensures r.None? <==> reason.None?
    ensures reason.Some? && reason.value in REASONS ==> r == reason
    ensures reason.Some? && reason.value !in REASONS ==> r == Some(REASON_UNSPECIFIED)
  {
    match reason
    case None => None
    case Some(s) => Some(if s in REASONS then s else REASON_UNSPECIFIED)
  }

  function Identifier(reason: string): (id: string)
    ensures id in REASONS
  {
    Get(KnownReason(Some(reason)), REASON_UNSPECIFIED)
  }

  lemma IdentifierIs(reason: string)
    ensures Identifier(reason) == if reason in REASONS then reason else "unspecified"
  {
  }

  // ------------------------------------------------------------- the brake

  /** The open window of a reason: its first moment, and the attempts it has kept back. */
  datatype Window = Window(openedAt: int, swallowed: nat)

  /** A row the writer tried to write: what it stands for, and whether the store took it. */
  datatype Attempt = Attempt(reason: string, at: int, standsFor: nat, written: bool)

  datatype Brake = Brake(windows: map<string, Window>, attempts: seq<Attempt>)

  datatype Call = Call(reason: string, at: int, stored: bool)

  predicate Swallows(w: Window, at: int) {
    0 <= at - w.openedAt < REFUSAL_WINDOW_SECONDS
  }

  function Noted(b: Brake, c: Call): Brake {
    var id := Identifier(c.reason);
    if id in b.windows && Swallows(b.windows[id], c.at) then
      b.(windows := b.windows[id := Window(b.windows[id].openedAt, b.windows[id].swallowed + 1)])
    else
      var standsFor := if id in b.windows then b.windows[id].swallowed + 1 else 1;
      Brake(b.windows[id := Window(c.at, 0)], b.attempts + [Attempt(id, c.at, standsFor, c.stored)])
  }

  function AllNoted(calls: seq<Call>): Brake {
    if calls == [] then Brake(map[], []) else Noted(AllNoted(calls[..|calls| - 1]), calls[|calls| - 1])
  }

  // ---------------------------------------------------------- conservation

  function Calls(calls: seq<Call>, id: string): nat {
    if calls == [] then 0
    else Calls(calls[..|calls| - 1], id) + if Identifier(calls[|calls| - 1].reason) == id then 1 else 0
  }

  /** What the rows of one reason stand for, of those the store took and of those it lost. */
  function StandFor(attempts: seq<Attempt>, id: string, written: bool): nat {
    if attempts == [] then 0
    else
      var a := attempts[|attempts| - 1];
      StandFor(attempts[..|attempts| - 1], id, written)
      + if a.reason == id && a.written == written then a.standsFor else 0
  }

  function Pending(b: Brake, id: string): nat {
    if id in b.windows then b.windows[id].swallowed else 0
  }

  lemma NotedConserves(b: Brake, c: Call, id: string)
    ensures StandFor(Noted(b, c).attempts, id, true) + StandFor(Noted(b, c).attempts, id, false)
            + Pending(Noted(b, c), id)
            == StandFor(b.attempts, id, true) + StandFor(b.attempts, id, false) + Pending(b, id)
               + if Identifier(c.reason) == id then 1 else 0
  {
    var after := Noted(b, c);
    if after.attempts != b.attempts {
      assert after.attempts[..|after.attempts| - 1] == b.attempts;
    }
  }

  /** Whatever the clock does and whichever writes fail: per reason, the rows written, the rows
      lost with a failed write and the attempts still pending account for every call made. */
  lemma {:induction false} RefusalsConserved(calls: seq<Call>, id: string)
    ensures StandFor(AllNoted(calls).attempts, id, true) + StandFor(AllNoted(calls).attempts, id, false)
            + Pending(AllNoted(calls), id)
            == Calls(calls, id)
  {
    hide Noted;
    if calls != [] {
      RefusalsConserved(calls[..|calls| - 1], id);
      NotedConserves(AllNoted(calls[..|calls| - 1]), calls[|calls| - 1], id);
    }
  }

  /** Whatever reasons the calls give, the brake only ever holds known ones. */
  lemma {:induction false} WindowsStayBounded(calls: seq<Call>)
    ensures AllNoted(calls).windows.Keys <= REASONS
    ensures forall a :: a in AllNoted(calls).attempts ==> a.reason in REASONS && a.standsFor >= 1
  {
    if calls != [] {
      WindowsStayBounded(calls[..|calls| - 1]);
    }
  }

  // -------------------------------------------------------------- the rate

  /** The moments at which rows of one reason were tried. */
  function Moments(attempts: seq<Attempt>, id: string): seq<int> {
    if attempts == [] then []
    else
      var a := attempts[|attempts| - 1];
      Moments(attempts[..|attempts| - 1], id) + if a.reason == id then [a.at] else []
  }

  /** The clock stood before the window of this reason that is open. */
  predicate SetBack(b: Brake, c: Call, id: string) {
    Identifier(c.reason) == id && id in b.windows && c.at < b.windows[id].openedAt
  }

  /** No call of the reason came while the clock stood before its open window. */
  ghost predicate NeverSetBack(calls: seq<Call>, id: string) {
    forall k :: 0 <= k < |calls| ==> !SetBack(AllNoted(calls[..k]), calls[k], id)
  }

  ghost predicate Apart(m: seq<int>) {
    forall i :: 0 < i < |m| ==> m[i] - m[i - 1] >= REFUSAL_WINDOW_SECONDS
  }

  /** From any row to any later one of a reason there is a whole window for every row between. */
  ghost predicate AtRate(m: seq<int>) {
    forall i, j :: 0 <= i <= j < |m| ==> (j - i) * REFUSAL_WINDOW_SECONDS <= m[j] - m[i]
  }

  /** The window of a reason is the one its last row opened. */
  ghost predicate OpenedByLast(b: Brake, id: string) {
    var m := Moments(b.attempts, id);
    (id in b.windows <==> m != []) && (m != [] ==> b.windows[id].openedAt == m[|m| - 1])
  }

  lemma NotedApart(b: Brake, c: Call, id: string)
    requires OpenedByLast(b, id)
    ensures OpenedByLast(Noted(b, c), id)
    ensures Apart(Moments(Noted(b, c).attempts, id)) <==> Apart(Moments(b.attempts, id)) && !SetBack(b, c, id)
  {
    var after := Noted(b, c);
    if after.attempts != b.attempts {
      assert after.attempts[..|after.attempts| - 1] == b.attempts;
      var m, n := Moments(b.attempts, id), Moments(after.attempts, id);
      if Identifier(c.reason) == id {
        assert n == m + [c.at];
        assert forall i :: 0 <= i < |m| ==> n[i] == m[i];
        assert Apart(n) ==> |m| > 0 ==> n[|m|] - n[|m| - 1] >= REFUSAL_WINDOW_SECONDS;
      } else {
        assert n == m;
      }
    }
  }

  lemma {:induction false} AllApart(calls: seq<Call>, id: string)
    ensures OpenedByLast(AllNoted(calls), id)
    ensures Apart(Moments(AllNoted(calls).attempts, id)) <==> NeverSetBack(calls, id)
  {
    hide Noted, SetBack;
    if calls != [] {
      var front, c := calls[..|calls| - 1], calls[|calls| - 1];
      AllApart(front, id);
      NotedApart(AllNoted(front), c, id);
      assert forall k :: 0 <= k < |front| ==> calls[..k] == front[..k] && calls[k] == front[k];
      assert NeverSetBack(calls, id) <==> NeverSetBack(front, id) && !SetBack(AllNoted(front), c, id);
    }
  }

  lemma {:induction false} ApartFrom(m: seq<int>, i: nat, j: nat)
    requires i <= j < |m| && Apart(m)
    ensures (j - i) * REFUSAL_WINDOW_SECONDS <= m[j] - m[i]
    decreases j - i
  {
    if i < j {
      ApartFrom(m, i, j - 1);
    }
  }

  /** n rows tried for one reason need n - 1 windows, exactly when no call of that reason found
      the clock before its open window. A row counts as tried also when the store lost it. */
  lemma RefusalRate(calls: seq<Call>, id: string)
    ensures AtRate(Moments(AllNoted(calls).attempts, id)) <==> NeverSetBack(calls, id)
  {
    hide AllNoted, Moments, NeverSetBack;
    var m := Moments(AllNoted(calls).attempts, id);
    AllApart(calls, id);
    if Apart(m) {
      forall i, j | 0 <= i <= j < |m| ensures (j - i) * REFUSAL_WINDOW_SECONDS <= m[j] - m[i] {
        ApartFrom(m, i, j);
      }
    }
    if AtRate(m) {
      forall i | 0 < i < |m| ensures m[i] - m[i - 1] >= REFUSAL_WINDOW_SECONDS {
        assert (i - (i - 1)) * REFUSAL_WINDOW_SECONDS <= m[i] - m[i - 1];
      }
    }
  }

  /** The moments of the rows of one reason that the store took. */
  function StoredMoments(attempts: seq<Attempt>, id: string): seq<int> {
    if attempts == [] then []
    else
      var a := attempts[|attempts| - 1];
      StoredMoments(attempts[..|attempts| - 1], id) + if a.reason == id && a.written then [a.at] else []
  }

  /** Both are spaced, and the second does not reach beyond the first. */
  ghost predicate Thinned(m: seq<int>, n: seq<int>) {
    Apart(m) && Apart(n) && (n != [] ==> m != [] && n[|n| - 1] <= m[|m| - 1])
  }

  lemma ApartFront(m: seq<int>, at: int)
    requires Apart(m + [at])
    ensures Apart(m) && (m != [] ==> at - m[|m| - 1] >= REFUSAL_WINDOW_SECONDS)
  {
    var all := m + [at];
    assert forall i :: 0 <= i < |m| ==> all[i] == m[i];
    assert m != [] ==> all[|m|] - all[|m| - 1] >= REFUSAL_WINDOW_SECONDS;
  }

  lemma ThinnedMore(m: seq<int>, n: seq<int>, at: int)
    requires Apart(m + [at]) && Thinned(m, n)
    ensures Thinned(m + [at], n) && Thinned(m + [at], n + [at])
  {
    ApartFront(m, at);
    assert forall i :: 0 <= i < |n| ==> (n + [at])[i] == n[i];
  }

  lemma {:induction false} StoredThinned(attempts: seq<Attempt>, id: string)
    requires Apart(Moments(attempts, id))
    ensures Thinned(Moments(attempts, id), StoredMoments(attempts, id))
  {
    hide Apart, Thinned;
    if attempts == [] {
      NothingTried();
    } else {
      var front, a := attempts[..|attempts| - 1], attempts[|attempts| - 1];
      var m, n := Moments(front, id), StoredMoments(front, id);
      assert m + [] == m && n + [] == n;
      if a.reason == id {
        ApartFront(m, a.at);
        StoredThinned(front, id);
        ThinnedMore(m, n, a.at);
      } else {
        StoredThinned(front, id);
      }
    }
  }

  lemma NothingTried()
    ensures Thinned([], [])
  {
  }

  lemma {:induction false} NoneLost(calls: seq<Call>, id: string)
    requires forall c :: c in calls && Identifier(c.reason) == id ==> c.stored
    ensures StoredMoments(AllNoted(calls).attempts, id) == Moments(AllNoted(calls).attempts, id)
  {
    if calls != [] {
      var front := calls[..|calls| - 1];
      NoneLost(front, id);
      if AllNoted(calls).attempts != AllNoted(front).attempts {
        assert AllNoted(calls).attempts[..|AllNoted(calls).attempts| - 1] == AllNoted(front).attempts;
        assert calls[|calls| - 1] in calls;
      }
    }
  }

  /** The rows in the store keep the rate as well then; and when no append of the reason failed,
      only then. */
  lemma StoredRate(calls: seq<Call>, id: string)
    ensures NeverSetBack(calls, id) ==> AtRate(StoredMoments(AllNoted(calls).attempts, id))
    ensures (forall c :: c in calls && Identifier(c.reason) == id ==> c.stored) ==>
              (AtRate(StoredMoments(AllNoted(calls).attempts, id)) <==> NeverSetBack(calls, id))
  {
    hide AllNoted, Moments, StoredMoments, NeverSetBack, Identifier;
    RefusalRate(calls, id);
    AllApart(calls, id);
    var n := StoredMoments(AllNoted(calls).attempts, id);
    if NeverSetBack(calls, id) {
      StoredThinned(AllNoted(calls).attempts, id);
      forall i, j | 0 <= i <= j < |n| ensures (j - i) * REFUSAL_WINDOW_SECONDS <= n[j] - n[i] {
        ApartFrom(n, i, j);
      }
    }
    if forall c :: c in calls && Identifier(c.reason) == id ==> c.stored {
      NoneLost(calls, id);
    }
  }

  /** The calls of one reason come in the order of their moments. */
  ghost predicate Monotone(calls: seq<Call>, id: string) {
    forall i, j :: 0 <= i <= j < |calls| && Identifier(calls[i].reason) == id && Identifier(calls[j].reason) == id ==>
      calls[i].at <= calls[j].at
  }

  lemma {:induction false} OpenedByCall(calls: seq<Call>, id: string)
    requires id in AllNoted(calls).windows
    ensures exists i :: 0 <= i < |calls| && Identifier(calls[i].reason) == id
                     && calls[i].at == AllNoted(calls).windows[id].openedAt
  {
    hide Identifier;
    var front, c := calls[..|calls| - 1], calls[|calls| - 1];
    if Identifier(c.reason) != id || AllNoted(calls).windows[id].openedAt != c.at {
      OpenedByCall(front, id);
      var i :| 0 <= i < |front| && Identifier(front[i].reason) == id
            && front[i].at == AllNoted(front).windows[id].openedAt;
      assert calls[i] == front[i];
    }
  }

  /** A clock that does not step back between the calls of a reason is enough, whatever the
      calls of the other reasons say. */
  lemma RateOnASteadyClock(calls: seq<Call>, id: string)
    requires Monotone(calls, id)
    ensures AtRate(Moments(AllNoted(calls).attempts, id))
  {
    hide AllNoted, Identifier;
    forall k | 0 <= k < |calls| ensures !SetBack(AllNoted(calls[..k]), calls[k], id) {
      if id in AllNoted(calls[..k]).windows {
        OpenedByCall(calls[..k], id);
      }
    }
    RefusalRate(calls, id);
  }

  /** The rate can fail: set back once, two rows of one reason carry the same moment. */
  lemma RateCanFail()
    ensures var calls := [Call("timeout", 600, true), Call("timeout", 0, true), Call("timeout", 600, true)];
            var m := Moments(AllNoted(calls).attempts, "timeout");
            m == [600, 0, 600] && !AtRate(m)
  {
    var c1, c2, c3 := Call("timeout", 600, true), Call("timeout", 0, true), Call("timeout", 600, true);
    assert Identifier("timeout") == "timeout";
    assert [c1][..0] == [] && [c1, c2][..1] == [c1] && [c1, c2, c3][..2] == [c1, c2];
    assert AllNoted([]) == Brake(map[], []);
    OpensWindow(Brake(map[], []), c1);
    OpensWindow(AllNoted([c1]), c2);
    OpensWindow(AllNoted([c1, c2]), c3);
    var m := Moments(AllNoted([c1, c2, c3]).attempts, "timeout");
    assert (1 - 0) * REFUSAL_WINDOW_SECONDS > m[1] - m[0];
  }

  /** An attempt that is not swallowed leaves a row and opens its window. */
  lemma OpensWindow(b: Brake, c: Call)
    requires !(Identifier(c.reason) in b.windows && Swallows(b.windows[Identifier(c.reason)], c.at))
    ensures Moments(Noted(b, c).attempts, Identifier(c.reason)) == Moments(b.attempts, Identifier(c.reason)) + [c.at]
    ensures Identifier(c.reason) in Noted(b, c).windows
    ensures Noted(b, c).windows[Identifier(c.reason)].openedAt == c.at
  {
    assert Noted(b, c).attempts[..|Noted(b, c).attempts| - 1] == b.attempts;
  }

  // -------------------------------------------------------- when a row is due

  /** A call is kept back exactly when the last row tried for its reason lies less than five
      minutes before it and not after it. Every other call tries a row at its own moment, and no
      call tries one for another reason. */
  lemma WhenARowIsDue(calls: seq<Call>, c: Call, id: string)
    ensures var m, n := Moments(AllNoted(calls).attempts, id), Moments(AllNoted(calls + [c]).attempts, id);
            if Identifier(c.reason) != id || (m != [] && 0 <= c.at - m[|m| - 1] < 300) then n == m
            else n == m + [c.at]
  {
    hide Moments, AllNoted, Noted, Identifier, OpenedByLast, NeverSetBack;
    AllApart(calls, id);
    AllNotedMore(calls, c);
    NotedMoments(AllNoted(calls), c, id);
  }

  lemma AllNotedMore(calls: seq<Call>, c: Call)
    ensures AllNoted(calls + [c]) == Noted(AllNoted(calls), c)
  {
    hide Noted;
    assert (calls + [c])[..|calls|] == calls;
  }

  lemma NotedMoments(b: Brake, c: Call, id: string)
    requires OpenedByLast(b, id)
    ensures var m, n := Moments(b.attempts, id), Moments(Noted(b, c).attempts, id);
            if Identifier(c.reason) != id || (m != [] && 0 <= c.at - m[|m| - 1] < 300) then n == m
            else n == m + [c.at]
  {
    var after := Noted(b, c);
    if after.attempts != b.attempts {
      assert after.attempts[..|after.attempts| - 1] == b.attempts;
    }
  }

  // --------------------------------------------------------- rows of a life

  function RefusalEntry(id: string, at: int, standsFor: nat): Entry {
    Entry(CHAIN_EXCHANGE, KIND_REFUSAL, at, outcome := Some(OUTCOME_REJECTED), reason := Some(id),
          removed := Some(standsFor))
  }

  /** A row of the chain of refused exchanges that stands for so many attempts of a reason: six
      values and nothing else, and nobody is named in it. */
  predicate IsRefusalRow(e: Entry, id: string, at: int, standsFor: nat) {
    && e.chain == "x:exchange" && e.kind == "refusal" && e.at == at && e.outcome == Some("rejected")
    && e.reason == Some(id) && e.removed == Some(standsFor)
    && e.actor.None? && e.ncUser.None? && e.tool.None? && e.clientId.None? && e.authId.None?
    && e.clientName.None? && e.durationMs.None? && e.params == "[]" && e.gapChain.None? && e.gapHash.None?
  }

  lemma RefusalEntryIs(id: string, at: int, standsFor: nat)
    ensures IsRefusalRow(RefusalEntry(id, at, standsFor), id, at, standsFor)
  {
  }

  /** What happens to a store with a brake in front of it: a refused attempt, with the sweep it may
      have set off, or anything else another worker commits. */
  datatype Happening = Refused(call: Call, sweeping: seq<Step>) | Meanwhile(step: Step)

  ghost predicate Ordinary(h: Happening) {
    match h
    case Refused(_, sweeping) => forall s :: s in sweeping ==> !s.Append?
    case Meanwhile(s) => s.Append? ==> s.entry.chain != "x:exchange"
  }

  function CallsOf(life: seq<Happening>): seq<Call> {
    if life == [] then []
    else
      var h := life[|life| - 1];
      CallsOf(life[..|life| - 1]) + if h.Refused? then [h.call] else []
  }

  /** The transactions of a life, in order. */
  function StepsOf(life: seq<Happening>): seq<Step> {
    if life == [] then []
    else
      var front, h := life[..|life| - 1], life[|life| - 1];
      match h
      case Meanwhile(s) => StepsOf(front) + [s]
      case Refused(call, sweeping) =>
        var b := AllNoted(CallsOf(front));
        var after := Noted(b, call);
        if |after.attempts| == |b.attempts| || !call.stored then StepsOf(front)
        else
          var a := after.attempts[|after.attempts| - 1];
          StepsOf(front) + [Step.Append(RefusalEntry(a.reason, a.at, a.standsFor))] + sweeping
  }

  /** What the rows stand for that were appended to the chain of refused exchanges for a reason. */
  function AppendedFor(steps: seq<Step>, id: string): int {
    if steps == [] then 0
    else
      var s := steps[|steps| - 1];
      AppendedFor(steps[..|steps| - 1], id)
      + if s.Append? && s.entry.chain == "x:exchange" && s.entry.reason == Some(id) then RemovedOf(s.entry) else 0
  }

  lemma {:induction false} AppendedForConcat(a: seq<Step>, b: seq<Step>, id: string)
    ensures AppendedFor(a + b, id) == AppendedFor(a, id) + AppendedFor(b, id)
  {
    if b == [] {
      assert a + b == a;
    } else {
      assert (a + b)[..|a + b| - 1] == a + b[..|b| - 1];
      AppendedForConcat(a, b[..|b| - 1], id);
    }
  }

  lemma {:induction false} AppendedForNone(steps: seq<Step>, id: string)
    requires forall s :: s in steps ==> s.Append? ==> s.entry.chain != "x:exchange"
    ensures AppendedFor(steps, id) == 0
  {
    if steps != [] {
      AppendedForNone(steps[..|steps| - 1], id);
    }
  }

  lemma AppendedForOne(e: Entry, id: string)
    requires e.chain == "x:exchange"
    ensures AppendedFor([Step.Append(e)], id) == if e.reason == Some(id) then RemovedOf(e) else 0
  {
    assert [Step.Append(e)][..0] == [];
    assert AppendedFor([], id) == 0;
  }

  lemma WrittenNow(b: Brake, c: Call, id: string)
    ensures |b.attempts| <= |Noted(b, c).attempts|
    ensures var after := Noted(b, c);
            if |after.attempts| == |b.attempts| || !c.stored then
              StandFor(after.attempts, id, true) == StandFor(b.attempts, id, true)
            else
              var a := after.attempts[|after.attempts| - 1];
              && a.at == c.at && a.reason == Identifier(c.reason)
              && StandFor(after.attempts, id, true)
                 == StandFor(b.attempts, id, true) + if a.reason == id then a.standsFor else 0
  {
    var after := Noted(b, c);
    if after.attempts != b.attempts {
      assert after.attempts[..|after.attempts| - 1] == b.attempts;
    }
  }

  lemma {:induction false} RowsAreTheWritten(life: seq<Happening>, id: string)
    requires forall i :: 0 <= i < |life| ==> Ordinary(life[i])
    ensures AppendedFor(StepsOf(life), id) == StandFor(AllNoted(CallsOf(life)).attempts, id, true)
  {
    hide Noted, AppendedFor, StandFor, Identifier;
    if life == [] {
      AppendedForNone([], id);
      NothingStands(id);
    } else {
      var front, h := life[..|life| - 1], life[|life| - 1];
      RowsAreTheWritten(front, id);
      assert Ordinary(h);
      match h
      case Meanwhile(s) =>
        assert CallsOf(life) == CallsOf(front);
        AppendedForConcat(StepsOf(front), [s], id);
        AppendedForNone([s], id);
      case Refused(call, sweeping) =>
        var calls := CallsOf(front);
        AllNotedMore(calls, call);
        WrittenNow(AllNoted(calls), call, id);
        if |Noted(AllNoted(calls), call).attempts| != |AllNoted(calls).attempts| && call.stored {
          var a := Noted(AllNoted(calls), call).attempts[|Noted(AllNoted(calls), call).attempts| - 1];
          var e := RefusalEntry(a.reason, a.at, a.standsFor);
          RefusalEntryIs(a.reason, a.at, a.standsFor);
          AppendedForConcat(StepsOf(front) + [Step.Append(e)], sweeping, id);
          AppendedForConcat(StepsOf(front), [Step.Append(e)], id);
          AppendedForNone(sweeping, id);
          AppendedForOne(e, id);
        }
    }
  }

  lemma NothingStands(id: string)
    ensures StandFor(AllNoted([]).attempts, id, true) == 0
  {
  }

  /** The log accounts for every refused attempt: per reason, what the rows written to it stand
      for, with the attempts a failed write lost and the ones still kept back, is the number of
      calls, whatever other workers, the clock and the sweeps do. */
  lemma RefusalRowsAccount(life: seq<Happening>, id: string)
    requires forall i :: 0 <= i < |life| ==> Ordinary(life[i])
    ensures AppendedFor(StepsOf(life), id) + StandFor(AllNoted(CallsOf(life)).attempts, id, false)
            + Pending(AllNoted(CallsOf(life)), id)
            == Calls(CallsOf(life), id)
  {
    RowsAreTheWritten(life, id);
    RefusalsConserved(CallsOf(life), id);
  }

  /** Every such row carries the moment and the reason of a call that was stored. */
  lemma {:induction false} RefusalRowsAreCalls(life: seq<Happening>, e: Entry)
    requires forall i :: 0 <= i < |life| ==> Ordinary(life[i])
    requires Step.Append(e) in StepsOf(life) && e.chain == "x:exchange"
    ensures exists c :: c in CallsOf(life) && c.stored && c.at == e.at && e.reason == Some(Identifier(c.reason))
  {
    hide Noted, Identifier;
    if life != [] {
      var front, h := life[..|life| - 1], life[|life| - 1];
      assert Ordinary(h);
      if Step.Append(e) in StepsOf(front) {
        RefusalRowsAreCalls(front, e);
        var c :| c in CallsOf(front) && c.stored && c.at == e.at && e.reason == Some(Identifier(c.reason));
        assert c in CallsOf(life);
      } else if h.Refused? {
        WrittenNow(AllNoted(CallsOf(front)), h.call, "");
        assert h.call in CallsOf(life);
      }
    }
  }

  // ------------------------------------------------------------ the writer

  /** The chain of refused exchanges got one row that says what was tried, and no other chain
      changed. */
  ghost predicate RefusalWritten(before: seq<Row>, after: seq<Row>, a: Attempt) {
    && (exists r: Row ::
          && Select(after, OfChain("x:exchange")) == Select(before, OfChain("x:exchange")) + [r]
          && IsRefusalRow(r.entry, a.reason, a.at, a.standsFor))
    && forall c :: c != "x:exchange" ==> Select(after, OfChain(c)) == Select(before, OfChain(c))
  }

  lemma RefusalIsWritten(db: Db, a: Attempt)
    ensures RefusalWritten(db.rows, Exec(db, Step.Append(RefusalEntry(a.reason, a.at, a.standsFor))).rows, a)
  {
    hide Select;
    var e := RefusalEntry(a.reason, a.at, a.standsFor);
    var r := NewRow(db, e);
    RefusalEntryIs(a.reason, a.at, a.standsFor);
    NewRowShape(db, e);
    SelectOne(db.rows, r, OfChain("x:exchange"));
    forall c | c != "x:exchange"
      ensures Select(Exec(db, Step.Append(e)).rows, OfChain(c)) == Select(db.rows, OfChain(c))
    {
      SelectOne(db.rows, r, OfChain(c));
    }
  }

  class RefusalWriter {
    const store: AuditStore
    var windows: map<string, Window>
    ghost var attempts: seq<Attempt>

    ghost function Contents(): Brake
      reads this
    {
      Brake(windows, attempts)
    }

    constructor (store: AuditStore)
      ensures this.store == store && Contents() == Brake(map[], [])
    {
      this.store := store;
      windows, attempts := map[], [];
    }

    /** Note one refused attempt. The window is armed before the write, so a failing store is
        not asked again inside it; the attempts of that row are then lost, and counted so. */
    method NoteRefusal(reason: string, at: int, fault: Fault, retentionDays: int, sizeLimit: int,
                       used: Db -> int, batchRows: nat, maxRounds: nat)
      returns (ghost sweeping: seq<Step>)
      requires store.Valid() && batchRows > 0
      modifies this, store
      ensures store.Valid()
      ensures Contents() == Noted(old(Contents()), Call(reason, at, fault != AppendFails))
      ensures forall s :: s in sweeping ==> s.Expire? || s.Trim?
      ensures if |attempts| == |old(attempts)| || fault == AppendFails then
                store.Contents() == old(store.Contents()) && sweeping == []
              else
                var a := attempts[|attempts| - 1];
                var row := Exec(old(store.Contents()), Step.Append(RefusalEntry(a.reason, a.at, a.standsFor)));
                && a.written && store.Contents() == RunFrom(row, sweeping)
                && RefusalWritten(old(store.rows), row.rows, a)
                && if row.counter % 500 != 0 || fault == SweepFails then sweeping == []
                   else SweepDone(row, store.Contents(), sweeping, at, retentionDays, sizeLimit, used,
                                  batchRows, maxRounds)
    {
      hide Inv, Exec, AllLostFront, AffectedAre, ExpiredGone, SweepDone, FrontsExpired, OldestGone, AlwaysOver, Select,
           RunFrom, Between, RefusalWritten, IsRefusalRow, Identifier;
      sweeping := [];
      var identifier := Identifier(reason);
      if identifier in windows {
        var w := windows[identifier];
        if Swallows(w, at) {
          windows := windows[identifier := Window(w.openedAt, w.swallowed + 1)];
          return;
        }
      }
      var standsFor := if identifier in windows then windows[identifier].swallowed + 1 else 1;
      windows := windows[identifier := Window(at, 0)];
      attempts := attempts + [Attempt(identifier, at, standsFor, fault != AppendFails)];
      if fault == AppendFails {
        return;
      }
      RefusalIsWritten(store.Contents(), attempts[|attempts| - 1]);
      var no := store.Append(RefusalEntry(identifier, at, standsFor));
      RunNothing(store.Contents());
      if no % SWEEP_EVERY == 0 && fault == NoFault {
        var report, steps, affected := store.Sweep(at, retentionDays, sizeLimit, used, batchRows, maxRounds);
        sweeping := steps;
      }
    }
  }
}
