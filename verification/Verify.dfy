/** The check of the whole store on one committed snapshot. */
module Verify {
  import opened Basics
  import opened Rows
  import opened Chains
  import opened Batches
  import opened Runs
  import Names

  function GapsOf(gaps: map<string, set<string>>, c: string): set<string> {
    if c in gaps then gaps[c] else {}
  }

  lemma ExplainedOne(rows: seq<Row>, r: Row, c: string)
    ensures Explained(rows + [r], c)
            == if Matches(MarkersFor(c), r) then Explained(rows, c) + {r.entry.gapHash.value} else Explained(rows, c)
  {
    assert forall s :: s in rows + [r] <==> s in rows || s == r;
  }

  /** An end is explained for a chain when a tombstone of the instance chain names both. */
  lemma ExplainedIs(rows: seq<Row>, c: string, end: string)
    ensures end in Explained(rows, c) <==>
            exists r :: r in rows && r.entry.chain == "i:instance" && r.entry.kind == "tombstone"
                     && r.entry.gapChain == Some(c) && r.entry.gapHash == Some(end)
  {
    if r :| r in rows && r.entry.chain == "i:instance" && r.entry.kind == "tombstone"
            && r.entry.gapChain == Some(c) && r.entry.gapHash == Some(end) {
      assert Matches(MarkersFor(c), r);
    }
  }

  /** The loop collects, for all chains at once, what Explained says for each of them. */
  method ExplainedGaps(rows: seq<Row>) returns (gaps: map<string, set<string>>)
    ensures forall c :: GapsOf(gaps, c) == Explained(rows, c)
  {
    gaps := map[];
    for i := 0 to |rows|
      invariant forall c :: GapsOf(gaps, c) == Explained(rows[..i], c)
    {
      var e := rows[i].entry;
      ghost var before := gaps;
      assert rows[..i + 1] == rows[..i] + [rows[i]];
      forall c {
        ExplainedOne(rows[..i], rows[i], c);
      }
      if e.chain == CHAIN_INSTANCE && IsMarker(e) {
        gaps := gaps[e.gapChain.value := GapsOf(gaps, e.gapChain.value) + {e.gapHash.value}];
      }
    }
    assert rows[..|rows|] == rows;
  }

  ghost predicate CleanChain(rows: seq<Row>, c: string) {
    Clean(Select(rows, OfChain(c)), Explained(rows, c))
  }

  ghost predicate FindingFor(rows: seq<Row>, c: string, f: ChainFinding) {
    f.chain == c && IsFirstFinding(Select(rows, OfChain(c)), Explained(rows, c), f)
  }

  /** The findings are the first broken place of every chain that has one, each chain once, in
      the order of their names. */
  ghost predicate Findings(rows: seq<Row>, chains: seq<string>, findings: seq<ChainFinding>)
    decreases |chains|
  {
    if chains == [] then findings == []
    else
      var c := chains[|chains| - 1];
      if CleanChain(rows, c) then Findings(rows, chains[..|chains| - 1], findings)
      else
        && findings != []
        && FindingFor(rows, c, findings[|findings| - 1])
        && Findings(rows, chains[..|chains| - 1], findings[..|findings| - 1])
  }

  method FindingOf(rows: seq<Row>, c: string, explained: set<string>, batchRows: nat)
    returns (finding: Option<ChainFinding>)
    requires batchRows > 0 && explained == Explained(rows, c)
    ensures finding.None? <==> CleanChain(rows, c)
    ensures finding.Some? ==> FindingFor(rows, c, finding.value)
  {
    hide Select, Explained, Clean, IsFirstFinding;
    finding := FirstFinding(rows, c, explained, batchRows);
  }

  lemma FindingsMore(rows: seq<Row>, chains: seq<string>, i: nat, findings: seq<ChainFinding>)
    requires i < |chains| && Findings(rows, chains[..i], findings)
    ensures CleanChain(rows, chains[i]) ==> Findings(rows, chains[..i + 1], findings)
    ensures forall f :: !CleanChain(rows, chains[i]) && FindingFor(rows, chains[i], f) ==>
                Findings(rows, chains[..i + 1], findings + [f])
  {
    hide CleanChain, FindingFor;
    assert chains[..i + 1][..i] == chains[..i];
    forall f ensures (findings + [f])[..|findings|] == findings { }
  }

  /** The findings of a snapshot, and when there are none. */
  method VerifyChains(rows: seq<Row>, batchRows: nat) returns (findings: seq<ChainFinding>)
    requires batchRows > 0
    ensures Findings(rows, Names.Sorted(ChainsOf(rows)), findings)
    ensures findings == [] <==> forall c :: CleanChain(rows, c)
  {
    hide CleanChain, FindingFor, Findings, Explained;
    var gaps := ExplainedGaps(rows);
    var chains := Names.Sorted(ChainsOf(rows));
    findings := [];
    assert Findings(rows, chains[..0], []) by { NoFindings(rows); }
    for i := 0 to |chains|
      invariant Findings(rows, chains[..i], findings)
      invariant findings == [] <==> forall j :: 0 <= j < i ==> CleanChain(rows, chains[j])
    {
      var finding := FindingOf(rows, chains[i], GapsOf(gaps, chains[i]), batchRows);
      FindingsMore(rows, chains, i, findings);
      if finding.Some? {
        findings := findings + [finding.value];
      }
    }
    assert chains[..|chains|] == chains;
    AbsentChainsAreClean(rows, chains);
  }

  lemma NoFindings(rows: seq<Row>)
    ensures Findings(rows, [], [])
  {
  }

  /** A chain without a row checks clean: a chain that vanished is not noticed. */
  lemma AbsentChainsAreClean(rows: seq<Row>, chains: seq<string>)
    requires forall c :: c in chains <==> c in ChainsOf(rows)
    ensures (forall j :: 0 <= j < |chains| ==> CleanChain(rows, chains[j])) <==> forall c :: CleanChain(rows, c)
  {
    forall c ensures c !in chains ==> CleanChain(rows, c) {
      ChainsOfBatch(rows, c);
    }
  }

  lemma {:induction false} CleanMeansNoFindings(rows: seq<Row>, chains: seq<string>, findings: seq<ChainFinding>)
    requires forall c :: CleanChain(rows, c)
    ensures Findings(rows, chains, findings) <==> findings == []
  {
    hide CleanChain;
    if chains != [] {
      CleanMeansNoFindings(rows, chains[..|chains| - 1], findings);
    }
  }

  /** Whatever run of the application led to the store, and wherever a crash ended it, the
      check of it finds nothing. */
  lemma EveryRunChecksClean(steps: seq<Step>)
    requires AllAllowed(steps)
    ensures var rows := Run(steps).rows;
            forall findings :: Findings(rows, Names.Sorted(ChainsOf(rows)), findings) <==> findings == []
  {
    hide Run, Findings, Clean;
    var rows := Run(steps).rows;
    forall c ensures CleanChain(rows, c) {
      EveryRunIsClean(steps, c);
    }
    forall findings ensures Findings(rows, Names.Sorted(ChainsOf(rows)), findings) <==> findings == [] {
      CleanMeansNoFindings(rows, Names.Sorted(ChainsOf(rows)), findings);
    }
  }
}
