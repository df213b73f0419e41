/** The residual substitutions of a sample relative to the node it is
    attached to: these become the new leaf's branch substitutions. */
module Differences {
  import opened Wrappers
  import opened Types
  import opened MutationCodec
  import opened Accumulate
  import Distance

  /** Every sample position the node does not record indexes the reference
      sequence. */
  predicate RootCovers(m: MutMap, muts: seq<SampleMut>, rootSeq: string) {
    forall k :: 0 <= k < |muts| && muts[k].pos !in m ==> muts[k].pos < |rootSeq|
  }

  /** One triple per sample substitution, in sample order, except where the
      node already records the sample's base; the ancestral base is the
      node's recorded base, or else the reference sequence's base. */
  function Diffs(m: MutMap, muts: seq<SampleMut>, rootSeq: string): (r: seq<Mut>)
    requires RootCovers(m, muts, rootSeq)
    ensures |r| <= |muts|
    ensures forall i :: 0 <= i < |r| && r[i].pos in m ==> r[i].anc == m[r[i].pos] && r[i].der != r[i].anc
  {
    if muts == [] then []
    else
      var init, x := Diffs(m, muts[..|muts| - 1], rootSeq), muts[|muts| - 1];
      if x.pos in m then
        if x.queryNuc != m[x.pos] then init + [Mut(m[x.pos], x.pos, x.queryNuc)] else init
      else init + [Mut(rootSeq[x.pos], x.pos, x.queryNuc)]
  }

  /** One triple for each sample substitution that does not agree with the
      node; each triple carries the node's base where the node records one,
      so the residuals never contradict the node; and they touch only sample
      positions. */
  lemma {:induction false} DiffsFacts(m: MutMap, muts: seq<SampleMut>, rootSeq: string)
    requires RootCovers(m, muts, rootSeq)
    ensures |Diffs(m, muts, rootSeq)| == |muts| - Distance.Agreements(m, muts)
    ensures Consistent(m, Diffs(m, muts, rootSeq))
    ensures MutPositions(Diffs(m, muts, rootSeq)) <= SamplePositions(muts)
    ensures forall i :: 0 <= i < |Diffs(m, muts, rootSeq)| && Diffs(m, muts, rootSeq)[i].pos !in m
              ==> Diffs(m, muts, rootSeq)[i].pos < |rootSeq|
                  && Diffs(m, muts, rootSeq)[i].anc == rootSeq[Diffs(m, muts, rootSeq)[i].pos]
  {
    if muts != [] {
      var init := muts[..|muts| - 1];
      var x := muts[|muts| - 1];
      assert RootCovers(m, init, rootSeq) by {
        forall k | 0 <= k < |init| ensures init[k] == muts[k] { }
      }
      DiffsFacts(m, init, rootSeq);
      var d0, d := Diffs(m, init, rootSeq), Diffs(m, muts, rootSeq);
      assert forall i :: 0 <= i < |d0| ==> d[i] == d0[i];
      assert SamplePositions(init) <= SamplePositions(muts) by {
        forall q | q in SamplePositions(init) ensures q in SamplePositions(muts) {
          var k :| 0 <= k < |init| && init[k].pos == q;
          assert muts[k] == init[k];
        }
      }
      assert x.pos in SamplePositions(muts) by { assert muts[|muts| - 1] == x; }
      assert MutPositions(d) <= MutPositions(d0) + {x.pos} by {
        forall q | q in MutPositions(d) ensures q in MutPositions(d0) + {x.pos} {
          var i :| 0 <= i < |d| && d[i].pos == q;
          if i < |d0| { assert d0[i] == d[i]; }
        }
      }
    }
  }

  /** Replaying the formatted residuals onto the node's map never reports
      an inconsistency and yields the overlay of the residuals. */
  lemma DiffsReplay(m: MutMap, muts: seq<SampleMut>, rootSeq: string)
    requires RootCovers(m, muts, rootSeq)
    ensures ApplyTokens(m, FormatAll(Diffs(m, muts, rootSeq))) == Ok(Overlay(m, Diffs(m, muts, rootSeq)))
  {
    DiffsFacts(m, muts, rootSeq);
    ApplyFormatted(m, Diffs(m, muts, rootSeq));
  }

  /** One more sample substitution changes the overlaid residuals at its
      own position only, and only when the node does not already agree. */
  lemma DiffsOverlaySnoc(m: MutMap, muts: seq<SampleMut>, rootSeq: string)
    requires RootCovers(m, muts, rootSeq) && muts != []
    ensures RootCovers(m, muts[..|muts| - 1], rootSeq)
    ensures var x, o0 := muts[|muts| - 1], Overlay(m, Diffs(m, muts[..|muts| - 1], rootSeq));
            Overlay(m, Diffs(m, muts, rootSeq))
              == if x.pos in m && x.queryNuc == m[x.pos] then o0 else o0[x.pos := x.queryNuc]
  {
    var init := muts[..|muts| - 1];
    assert RootCovers(m, init, rootSeq) by {
      forall k | 0 <= k < |init| ensures init[k] == muts[k] { }
    }
    var d0, d := Diffs(m, init, rootSeq), Diffs(m, muts, rootSeq);
    if d != d0 {
      assert d[..|d| - 1] == d0;
    }
  }

  /** The attachment round trip: overlaying the residuals on the node's map
      gives the sample's base at every sample position and leaves every
      other position as the node had it. */
  lemma {:induction false} LeafMatchesSample(m: MutMap, muts: seq<SampleMut>, rootSeq: string)
    requires RootCovers(m, muts, rootSeq) && DistinctPositions(muts)
    ensures forall k :: 0 <= k < |muts| ==>
              muts[k].pos in Overlay(m, Diffs(m, muts, rootSeq))
              && Overlay(m, Diffs(m, muts, rootSeq))[muts[k].pos] == muts[k].queryNuc
    ensures forall p :: p !in SamplePositions(muts) ==>
              (p in Overlay(m, Diffs(m, muts, rootSeq)) <==> p in m)
              && (p in m ==> Overlay(m, Diffs(m, muts, rootSeq))[p] == m[p])
  {
    if muts != [] {
      var init, x := muts[..|muts| - 1], muts[|muts| - 1];
      assert muts == init + [x];
      DiffsOverlaySnoc(m, muts, rootSeq);
      assert DistinctPositions(init);
      LeafMatchesSample(m, init, rootSeq);
      Distance.SamplePositionsSnoc(init, x);
      var o0, o := Overlay(m, Diffs(m, init, rootSeq)), Overlay(m, Diffs(m, muts, rootSeq));
      assert x.pos !in SamplePositions(init);
      forall k | 0 <= k < |muts| ensures muts[k].pos in o && o[muts[k].pos] == muts[k].queryNuc {
        if k < |init| {
          assert muts[k].pos != x.pos;
        }
      }
    }
  }


  /** The loop of `get_differences`, emitting formatted tokens. */
  method GetDifferences(m: MutMap, muts: seq<SampleMut>, rootSeq: string) returns (tokens: seq<string>)
    requires RootCovers(m, muts, rootSeq)
    ensures tokens == FormatAll(Diffs(m, muts, rootSeq))
  {
    tokens := [];
    var k := 0;
    while k < |muts|
      invariant 0 <= k <= |muts|
      invariant RootCovers(m, muts[..k], rootSeq)
      invariant tokens == FormatAll(Diffs(m, muts[..k], rootSeq))
    {
      var x := muts[k];
      assert muts[..k + 1][..k] == muts[..k];
      assert muts[..k + 1][k] == x;
      ghost var d0 := Diffs(m, muts[..k], rootSeq);
      if x.pos in m {
        var der := m[x.pos];
        if x.queryNuc != der {
          tokens := tokens + [Format(Mut(der, x.pos, x.queryNuc))];
          assert FormatAll(d0 + [Mut(der, x.pos, x.queryNuc)]) == FormatAll(d0) + [Format(Mut(der, x.pos, x.queryNuc))];
        }
      } else {
        var refNuc := rootSeq[x.pos];
        tokens := tokens + [Format(Mut(refNuc, x.pos, x.queryNuc))];
        assert FormatAll(d0 + [Mut(refNuc, x.pos, x.queryNuc)]) == FormatAll(d0) + [Format(Mut(refNuc, x.pos, x.queryNuc))];
      }
      k := k + 1;
    }
    assert muts[..k] == muts;
  }
}
