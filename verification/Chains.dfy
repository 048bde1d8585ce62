/** One hash chain: when it is whole, what an edit can hide, and the walk that reports the
    first broken place. */
module Chains {
  import opened Basics
  import opened Rows
  import Canonical

  // ----------------------------------------------------------- whole chains

  ghost predicate Whole(c: seq<Row>) {
    forall i :: 0 <= i < |c| ==> Intact(c[i])
  }

  ghost predicate Linked(c: seq<Row>) {
    forall i :: 0 < i < |c| ==> c[i].prev == c[i - 1].hash
  }

  ghost predicate IsTail(a: seq<Row>, b: seq<Row>) {
    |a| <= |b| && a == b[|b| - |a|..]
  }

  /** The first row may point at nothing before it, or at a block a marker names. */
  ghost predicate HeadExplained(c: seq<Row>, explained: set<string>) {
    c == [] || c[0].prev == Genesis || Hex(c[0].prev) in explained
  }

  /** The first n rows are whole and linked, and the head is explained. */
  ghost predicate CleanTo(c: seq<Row>, n: nat, explained: set<string>)
    requires n <= |c|
  {
    && (forall i :: 0 <= i < n ==> Intact(c[i]))
    && (forall i :: 0 < i < n ==> c[i].prev == c[i - 1].hash)
    && (n > 0 ==> HeadExplained(c, explained))
  }

  ghost predicate Clean(c: seq<Row>, explained: set<string>) {
    CleanTo(c, |c|, explained)
  }

  // -------------------------------------------------------- tamper evidence

  /** Two whole, linked chains that end in the same digest agree from the back: the shorter
      one is the tail of the longer one. */
  lemma {:induction false} SameEndSameTail(a: seq<Row>, b: seq<Row>)
    requires Whole(a) && Linked(a) && Whole(b) && Linked(b)
    requires 0 < |a| <= |b| && a[|a| - 1].hash == b[|b| - 1].hash
    ensures a == b[|b| - |a|..]
    decreases |a|
  {
    hide HashOf;
    var r, s := a[|a| - 1], b[|b| - 1];
    HashOfInjective(r.no, r.entry, r.prev, s.no, s.entry, s.prev);
    assert r == s;
    if |a| > 1 {
      var a', b' := a[..|a| - 1], b[..|b| - 1];
      assert a'[|a'| - 1].hash == b'[|b'| - 1].hash;
      SameEndSameTail(a', b');
      assert a == a' + [r] && b[|b| - |a|..] == b'[|b'| - |a'|..] + [s];
    }
  }

  /** Nothing stands before a row that points at genesis. */
  lemma GenesisIsFirst(a: seq<Row>, b: seq<Row>)
    requires Whole(a) && Linked(a) && Whole(b) && Linked(b)
    requires a != [] && b != [] && a[|a| - 1] == b[|b| - 1] && a[0].prev == Genesis
    ensures |b| <= |a|
  {
    hide HashOf;
    if |a| < |b| {
      SameEndSameTail(a, b);
      LinkIsNotGenesis(b, |b| - |a|);
      assert false;
    }
  }

  lemma LinkIsNotGenesis(c: seq<Row>, k: nat)
    requires Whole(c) && Linked(c) && 0 < k < |c|
    ensures c[k].prev != Genesis
  {
    assert Intact(c[k - 1]);
  }

  /** What a check still accepts when a chain `a` that starts at genesis was replaced by rows
      `b` that end in the same row: `a` itself, or a tail of it whose missing front is named
      by a marker, and nothing else. Every other edit, renumbering, reordering, insertion or
      interior removal yields a finding. */
  lemma TamperEvident(a: seq<Row>, b: seq<Row>, explained: set<string>)
    requires a != [] && b != [] && Clean(a, explained) && a[0].prev == Genesis
    requires a[|a| - 1] == b[|b| - 1]
    ensures Clean(b, explained) <==>
            exists k :: 0 <= k < |a| && b == a[k..] && (k == 0 || Hex(a[k - 1].hash) in explained)
  {
    hide HashOf;
    if Clean(b, explained) {
      GenesisIsFirst(a, b);
      SameEndSameTail(b, a);
      var k := |a| - |b|;
      assert b == a[k..];
      if k > 0 {
        assert b[0] == a[k] && a[k].prev == a[k - 1].hash && Intact(a[k - 1]);
        assert Hex(a[k - 1].hash) in explained;
      }
    }
    forall k | 0 <= k < |a| && b == a[k..] && (k == 0 || Hex(a[k - 1].hash) in explained)
      ensures Clean(b, explained)
    {
      assert forall i :: 0 <= i < |b| ==> b[i] == a[k + i];
    }
  }

  /** The general case, for a chain that already lost its front: what a check accepts after a
      replacement is the chain, a marked tail of it, or the chain with rows put back in front
      whose digests lead up to it. */
  lemma TamperEvidentTail(a: seq<Row>, b: seq<Row>, explained: set<string>)
    requires a != [] && b != [] && Whole(a) && Linked(a) && Clean(b, explained)
    requires a[|a| - 1] == b[|b| - 1]
    ensures |b| <= |a| ==> b == a[|a| - |b|..]
    ensures |b| < |a| ==> Hex(a[|a| - |b| - 1].hash) in explained
    ensures |a| < |b| ==> a == b[|b| - |a|..] && a[0].prev == b[|b| - |a| - 1].hash
  {
    hide HashOf;
    if |b| <= |a| {
      SameEndSameTail(b, a);
      if |b| < |a| {
        var k := |a| - |b|;
        assert b[0] == a[k] && a[k].prev == a[k - 1].hash && Intact(a[k - 1]);
      }
    } else {
      SameEndSameTail(a, b);
      assert a[0] == b[|b| - |a|];
    }
  }

  lemma {:induction false} EscapeLength(s: string)
    ensures |Canonical.Escape(s)| >= |s|
  {
    if s != "" {
      EscapeLength(s[1..]);
    }
  }

  lemma DigestGrows(no: int, e: Entry, prev: Hash)
    ensures |Hex(HashOf(no, e, prev))| > |Hex(prev)|
  {
    EscapeLength(HashOf(no, e, prev).input);
  }

  /** Two rows of one chain never point at the same predecessor: no chain forks. */
  lemma {:induction false} NoFork(c: seq<Row>, i: nat, j: nat)
    requires Whole(c) && Linked(c) && i < j < |c|
    ensures |Hex(c[i].prev)| < |Hex(c[j].prev)| && c[i].prev != c[j].prev
    decreases j - i
  {
    hide HashOf, Hex;
    var r := c[j - 1];
    assert Intact(r) && c[j].prev == r.hash;
    DigestGrows(r.no, r.entry, r.prev);
    if i < j - 1 {
      NoFork(c, i, j - 1);
    }
  }

  // --------------------------------------------------------------- the walk

  const FINDING_MODIFIED := "modified"
  const FINDING_MISSING := "missing"

  datatype ChainFinding =
    ChainFinding(chain: string, kind: string, no: int, nextNo: Option<int> := None)

  /** `f` is the finding that belongs to row i, given that everything before it is clean. */
  ghost predicate BreaksAt(c: seq<Row>, i: nat, explained: set<string>, f: ChainFinding)
    requires i < |c|
  {
    if !Intact(c[i]) then
      f == ChainFinding(f.chain, "modified", c[i].no)
    else if i == 0 then
      !HeadExplained(c, explained) && f == ChainFinding(f.chain, "missing", c[0].no)
    else
      && c[i].prev != c[i - 1].hash
      && f == ChainFinding(f.chain, "missing", c[i - 1].no, Some(c[i].no))
  }

  ghost predicate IsFirstFinding(c: seq<Row>, explained: set<string>, f: ChainFinding) {
    exists i :: 0 <= i < |c| && CleanTo(c, i, explained) && BreaksAt(c, i, explained, f)
  }

  /** There is at most one first finding, so the answer cannot depend on the batch size. */
  lemma FirstFindingUnique(c: seq<Row>, explained: set<string>, f: ChainFinding, g: ChainFinding)
    requires IsFirstFinding(c, explained, f) && IsFirstFinding(c, explained, g)
    requires f.chain == g.chain
    ensures f == g
  {
    hide HashOf;
    var i :| 0 <= i < |c| && CleanTo(c, i, explained) && BreaksAt(c, i, explained, f);
    var j :| 0 <= j < |c| && CleanTo(c, j, explained) && BreaksAt(c, j, explained, g);
    BreakEndsPrefix(c, i, explained, f, j);
    BreakEndsPrefix(c, j, explained, g, i);
    assert i == j;
  }

  lemma BreakEndsPrefix(c: seq<Row>, i: nat, explained: set<string>, f: ChainFinding, n: nat)
    requires i < |c| && BreaksAt(c, i, explained, f) && n <= |c| && CleanTo(c, n, explained)
    ensures n <= i
  {
    hide HashOf;
  }

  /** The walk has passed the first n rows without a finding, and remembers the last of them. */
  ghost predicate Walked(c: seq<Row>, n: nat, explained: set<string>, expected: Option<Hash>, previousNo: int) {
    && n <= |c| && CleanTo(c, n, explained)
    && if n == 0 then expected == None else expected == Some(c[n - 1].hash) && previousNo == c[n - 1].no
  }

  /** What the next row of the walk means. */
  lemma WalkOn(c: seq<Row>, n: nat, explained: set<string>, expected: Option<Hash>, previousNo: int, chain: string)
    requires n < |c| && Walked(c, n, explained, expected, previousNo)
    ensures var row := c[n];
            if HashOf(row.no, row.entry, row.prev) != row.hash then
              FirstBreak(c, explained, ChainFinding(chain, FINDING_MODIFIED, row.no))
            else if expected.None? then
              if row.prev != Genesis && Hex(row.prev) !in explained then
                FirstBreak(c, explained, ChainFinding(chain, FINDING_MISSING, row.no))
              else Walked(c, n + 1, explained, Some(row.hash), row.no)
            else if row.prev != expected.value then
              FirstBreak(c, explained, ChainFinding(chain, FINDING_MISSING, previousNo, Some(row.no)))
            else Walked(c, n + 1, explained, Some(row.hash), row.no)
  {
    hide HashOf, Hex;
  }

  ghost predicate FirstBreak(c: seq<Row>, explained: set<string>, f: ChainFinding) {
    IsFirstFinding(c, explained, f) && !Clean(c, explained)
  }

  lemma WalkEnds(c: seq<Row>, explained: set<string>, expected: Option<Hash>, previousNo: int)
    ensures Walked(c, 0, explained, None, 0)
    ensures Walked(c, |c|, explained, expected, previousNo) ==> Clean(c, explained)
  {
  }

  /** The batched walk finds what IsFirstFinding describes, and nothing only in a clean chain. */
  method FirstFinding(rows: seq<Row>, chain: string, explained: set<string>, batchRows: nat)
    returns (finding: Option<ChainFinding>)
    requires batchRows > 0
    ensures finding.None? <==> Clean(Select(rows, OfChain(chain)), explained)
    ensures finding.Some? ==>
              && finding.value.chain == chain
              && IsFirstFinding(Select(rows, OfChain(chain)), explained, finding.value)
  {
    hide HashOf, Hex, Walked, Clean, IsFirstFinding, Select;
    var c := Select(rows, OfChain(chain));
    var cursor := 0;
    var expected: Option<Hash> := None;
    var previousNo := 0;
    WalkEnds(c, explained, expected, previousNo);
    while true
      invariant 0 <= cursor <= |c| && Walked(c, cursor, explained, expected, previousNo)
      decreases |c| - cursor
    {
      var batch := if cursor + batchRows <= |c| then c[cursor..cursor + batchRows] else c[cursor..];
      if batch == [] {
        WalkEnds(c, explained, expected, previousNo);
        return None;
      }
      var start := cursor;
      for k := 0 to |batch|
        invariant cursor == start + k && start + |batch| <= |c| && batch == c[start..start + |batch|]
        invariant Walked(c, cursor, explained, expected, previousNo)
      {
        var row := batch[k];
        WalkOn(c, cursor, explained, expected, previousNo, chain);
        if HashOf(row.no, row.entry, row.prev) != row.hash {
          return Some(ChainFinding(chain, FINDING_MODIFIED, row.no));
        }
        if expected.None? {
          if row.prev != Genesis && Hex(row.prev) !in explained {
            return Some(ChainFinding(chain, FINDING_MISSING, row.no));
          }
        } else if row.prev != expected.value {
          return Some(ChainFinding(chain, FINDING_MISSING, previousNo, Some(row.no)));
        }
        expected := Some(row.hash);
        previousNo := row.no;
        cursor := cursor + 1;
      }
    }
  }
}
