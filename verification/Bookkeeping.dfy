/** The dictionaries a sweep keeps while it works, and what they come to. */
module Bookkeeping {
  import opened Rows
  import opened Register
  import opened Batches
  import opened Runs

  // -------------------------------------------------- dictionaries of a batch

  lemma BatchOne(batch: seq<Row>, r: Row, d: string)
    ensures LastHash(batch + [r], d) == if d == r.entry.chain then r.hash else LastHash(batch, d)
    ensures |Select(batch + [r], OfChain(d))| == |Select(batch, OfChain(d))| + if d == r.entry.chain then 1 else 0
    ensures ChainsOf(batch + [r]) == ChainsOf(batch) + {r.entry.chain}
  {
    hide Select;
    SelectOne(batch, r, OfChain(d));
    assert forall s :: s in batch + [r] <==> s in batch || s == r;
  }

  lemma EndsOfOne(batch: seq<Row>, r: Row)
    ensures EndsOf(batch + [r]) == EndsOf(batch)[r.entry.chain := Hex(r.hash)]
    ensures CountsOf(batch + [r])
            == CountsOf(batch)[r.entry.chain := CountIn(CountsOf(batch), r.entry.chain) + 1]
  {
    hide Select, Hex, LastHash, ChainsOf;
    var c := r.entry.chain;
    BatchOne(batch, r, c);
    ChainsOfBatch(batch, c);
    forall d | d in ChainsOf(batch) + {c}
      ensures EndsOf(batch + [r])[d] == EndsOf(batch)[c := Hex(r.hash)][d]
      ensures CountsOf(batch + [r])[d] == CountsOf(batch)[c := CountIn(CountsOf(batch), c) + 1][d]
    {
      BatchOne(batch, r, d);
    }
  }

  lemma NothingNoted()
    ensures EndsOf([]) == map[] && CountsOf([]) == map[]
  {
  }

  /** One pass over the batch computes both dictionaries of the specification. */
  method NoteRemoved(batch: seq<Row>)
    returns (ends: map<string, string>, counts: map<string, int>, noted: nat)
    ensures ends == EndsOf(batch) && counts == CountsOf(batch) && noted == |batch|
  {
    hide EndsOf, CountsOf, ChainsOf, Hex;
    ends, counts := map[], map[];
    NothingNoted();
    assert batch[..0] == [];
    for i := 0 to |batch|
      invariant ends == EndsOf(batch[..i]) && counts == CountsOf(batch[..i])
    {
      var row := batch[i];
      EndsOfOne(batch[..i], row);
      assert batch[..i + 1] == batch[..i] + [row];
      ends := ends[row.entry.chain := Hex(row.hash)];
      counts := counts[row.entry.chain := CountIn(counts, row.entry.chain) + 1];
    }
    assert batch[..|batch|] == batch;
    noted := |batch|;
  }

  /** Absorbing one more marker in front of those already absorbed: its count is added, and its
      end only matters when no younger one is known. */
  lemma AbsorbOne(r: Row, run: seq<Row>, moment: int, ends: map<string, string>, counts: map<string, int>, c: string)
    requires AllMarkers(run) && ends.Keys == counts.Keys
    requires r.entry.chain == CHAIN_INSTANCE && IsMarker(r.entry) && c == r.entry.gapChain.value
    ensures var l := Absorbed(run, moment, ends, counts);
            Absorbed([r] + run, moment, ends, counts) ==
            Ledger(if c in l.ends then l.ends else l.ends[c := r.entry.gapHash.value],
                   l.counts[c := CountIn(l.counts, c) + RemovedOf(r.entry)],
                   if c in l.ends then l.ats else l.ats[c := r.entry.at])
  {
    hide Absorbed;
    AbsorbEnds(r, run, moment, ends, counts, c);
    AbsorbAts(r, run, moment, ends, counts, c);
    AbsorbCounts(r, run, moment, ends, counts, c);
  }

  lemma AbsorbEnds(r: Row, run: seq<Row>, moment: int, ends: map<string, string>, counts: map<string, int>, c: string)
    requires AllMarkers(run)
    requires r.entry.chain == CHAIN_INSTANCE && IsMarker(r.entry) && c == r.entry.gapChain.value
    ensures var l, m := Absorbed(run, moment, ends, counts), Absorbed([r] + run, moment, ends, counts);
            m.ends == if c in l.ends then l.ends else l.ends[c := r.entry.gapHash.value]
  {
    hide Select, RemovedSum, GapChains, EndIn, AtIn, AllMarkers;
    var l, end := Absorbed(run, moment, ends, counts), r.entry.gapHash.value;
    GapChainsOne(r, run, c);
    AbsorbOneAt(r, run, moment, ends, c, c);
    forall d | d in ends.Keys + GapChains(run)
      ensures EndIn(ends, [r] + run, d) == EndIn(ends, run, d)
    {
      AbsorbOneAt(r, run, moment, ends, c, d);
    }
  }

  lemma AbsorbAts(r: Row, run: seq<Row>, moment: int, ends: map<string, string>, counts: map<string, int>, c: string)
    requires AllMarkers(run)
    requires r.entry.chain == CHAIN_INSTANCE && IsMarker(r.entry) && c == r.entry.gapChain.value
    ensures var l, m := Absorbed(run, moment, ends, counts), Absorbed([r] + run, moment, ends, counts);
            m.ats == if c in l.ends then l.ats else l.ats[c := r.entry.at]
  {
    hide Select, RemovedSum, GapChains, EndIn, AtIn, AllMarkers;
    GapChainsOne(r, run, c);
    AbsorbOneAt(r, run, moment, ends, c, c);
    forall d | d in ends.Keys + GapChains(run)
      ensures AtIn(ends, moment, [r] + run, d) == AtIn(ends, moment, run, d)
    {
      AbsorbOneAt(r, run, moment, ends, c, d);
    }
  }

  lemma AbsorbCounts(r: Row, run: seq<Row>, moment: int, ends: map<string, string>, counts: map<string, int>, c: string)
    requires AllMarkers(run) && ends.Keys == counts.Keys
    requires r.entry.chain == CHAIN_INSTANCE && IsMarker(r.entry) && c == r.entry.gapChain.value
    ensures var l, m := Absorbed(run, moment, ends, counts), Absorbed([r] + run, moment, ends, counts);
            m.counts == l.counts[c := CountIn(l.counts, c) + RemovedOf(r.entry)]
  {
    hide Select, RemovedSum, GapChains, EndIn, AtIn, AllMarkers;
    GapChainsOne(r, run, c);
    AbsorbOneAt(r, run, moment, ends, c, c);
    forall d | d in ends.Keys + GapChains(run)
      ensures RemovedSum(Select([r] + run, MarkersFor(d)))
              == RemovedSum(Select(run, MarkersFor(d))) + if d == c then RemovedOf(r.entry) else 0
    {
      AbsorbOneAt(r, run, moment, ends, c, d);
    }
  }

  lemma AbsorbOneAt(r: Row, run: seq<Row>, moment: int, ends: map<string, string>, c: string, d: string)
    requires AllMarkers(run) && r.entry.chain == CHAIN_INSTANCE && IsMarker(r.entry) && c == r.entry.gapChain.value
    ensures d in GapChains(run) || d != c ==> EndIn(ends, [r] + run, d) == EndIn(ends, run, d)
    ensures d in GapChains(run) || d != c ==> AtIn(ends, moment, [r] + run, d) == AtIn(ends, moment, run, d)
    ensures d in ends ==> EndIn(ends, [r] + run, d) == EndIn(ends, run, d)
    ensures d in ends ==> AtIn(ends, moment, [r] + run, d) == AtIn(ends, moment, run, d)
    ensures d == c && d !in ends && d !in GapChains(run) ==>
              EndIn(ends, [r] + run, d) == r.entry.gapHash.value && AtIn(ends, moment, [r] + run, d) == r.entry.at
    ensures RemovedSum(Select([r] + run, MarkersFor(d)))
            == RemovedSum(Select(run, MarkersFor(d))) + if d == c then RemovedOf(r.entry) else 0
    ensures d !in GapChains(run) ==> RemovedSum(Select(run, MarkersFor(d))) == 0
  {
    hide Select, RemovedSum, GapChains;
    MarkersOne(r, run, d);
    RunMarkers(run, d);
    RemovedSumNone();
  }

  lemma GapChainsOne(r: Row, run: seq<Row>, c: string)
    requires IsMarker(r.entry) && c == r.entry.gapChain.value
    ensures GapChains([r] + run) == GapChains(run) + {c}
  {
    assert forall s :: s in [r] + run <==> s in run || s == r;
  }

  lemma MarkersOne(r: Row, run: seq<Row>, d: string)
    ensures Select([r] + run, MarkersFor(d))
            == if Matches(MarkersFor(d), r) then [r] + Select(run, MarkersFor(d)) else Select(run, MarkersFor(d))
    ensures RemovedSum(Select([r] + run, MarkersFor(d)))
            == RemovedSum(Select(run, MarkersFor(d))) + if Matches(MarkersFor(d), r) then RemovedOf(r.entry) else 0
  {
    SelectConcat([r], run, MarkersFor(d));
    SelectOne([], r, MarkersFor(d));
    assert [] + [r] == [r];
    RemovedSumConcat([r], Select(run, MarkersFor(d)));
    RemovedSumOne(r);
  }
}
