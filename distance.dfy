/** The distance between a node's accumulated map and a sample. */
module Distance {
  import opened Types

  /** Does the node record, at the sample substitution's position, the
      sample's own base? */
  predicate Agrees(m: MutMap, x: SampleMut) {
    x.pos in m && m[x.pos] == x.queryNuc
  }

  /** Does the node record a different base at that position? */
  predicate Disagrees(m: MutMap, x: SampleMut) {
    x.pos in m && m[x.pos] != x.queryNuc
  }

  /** How many sample substitutions agree with the node (the source's
      `shared_differences`, whose name suggests the opposite). */
  function Agreements(m: MutMap, muts: seq<SampleMut>): nat {
    if muts == [] then 0
    else Agreements(m, muts[..|muts| - 1]) + (if Agrees(m, muts[|muts| - 1]) then 1 else 0)
  }

  /** How many sample substitutions hit a recorded position with another
      base (the source's `shared_sites`). */
  function Disagreements(m: MutMap, muts: seq<SampleMut>): (d: nat)
    ensures Agreements(m, muts) + d <= |muts|
  {
    if muts == [] then 0
    else Disagreements(m, muts[..|muts| - 1]) + (if Disagrees(m, muts[|muts| - 1]) then 1 else 0)
  }

  /** The distance formula, kept exactly as the source computes it. */
  function Dist(m: MutMap, muts: seq<SampleMut>): (d: int)
    ensures |m| - |muts| <= d <= |m| + |muts|
  {
    |m| + |muts| - 2 * Agreements(m, muts) - Disagreements(m, muts)
  }

  /** The sample positions at which the node records the sample's base. */
  function AgreePositions(m: MutMap, muts: seq<SampleMut>): set<nat> {
    set k | 0 <= k < |muts| && Agrees(m, muts[k]) :: muts[k].pos
  }

  /** The positions recorded by only one side, or by both with different
      bases. A node's map also records reversions to the reference base, so
      this is not quite the set where the two genomes differ. */
  function DiffPositions(m: MutMap, muts: seq<SampleMut>): set<nat> {
    (m.Keys + SamplePositions(muts)) - AgreePositions(m, muts)
  }

  lemma SamplePositionsSnoc(init: seq<SampleMut>, x: SampleMut)
    ensures SamplePositions(init + [x]) == SamplePositions(init) + {x.pos}
  {
    var muts := init + [x];
    assert muts[|init|] == x;
    forall q | q in SamplePositions(muts) ensures q in SamplePositions(init) + {x.pos} {
      var k :| 0 <= k < |muts| && muts[k].pos == q;
      if k < |init| { assert init[k] == muts[k]; }
    }
    forall q | q in SamplePositions(init) ensures q in SamplePositions(muts) {
      var k :| 0 <= k < |init| && init[k].pos == q;
      assert muts[k] == init[k];
    }
  }

  lemma AgreePositionsSnoc(m: MutMap, init: seq<SampleMut>, x: SampleMut)
    ensures AgreePositions(m, init + [x])
         == AgreePositions(m, init) + (if Agrees(m, x) then {x.pos} else {})
  {
    var muts := init + [x];
    assert muts[|init|] == x;
    forall q | q in AgreePositions(m, muts)
      ensures q in AgreePositions(m, init) + (if Agrees(m, x) then {x.pos} else {})
    {
      var k :| 0 <= k < |muts| && Agrees(m, muts[k]) && muts[k].pos == q;
      if k < |init| { assert init[k] == muts[k]; }
    }
    forall q | q in AgreePositions(m, init) ensures q in AgreePositions(m, muts) {
      var k :| 0 <= k < |init| && Agrees(m, init[k]) && init[k].pos == q;
      assert muts[k] == init[k];
    }
  }

  /** A sample with distinct positions names |muts| positions. */
  lemma {:induction false} SamplePositionsCount(muts: seq<SampleMut>)
    requires DistinctPositions(muts)
    ensures |SamplePositions(muts)| == |muts|
  {
    if muts != [] {
      var init, x := muts[..|muts| - 1], muts[|muts| - 1];
      assert muts == init + [x];
      SamplePositionsCount(init);
      SamplePositionsSnoc(init, x);
      assert x.pos !in SamplePositions(init);
    }
  }

  /** `shared_differences` is the number of sample positions at which the
      node records the sample's base. */
  lemma {:induction false} AgreementsCount(m: MutMap, muts: seq<SampleMut>)
    requires DistinctPositions(muts)
    ensures |AgreePositions(m, muts)| == Agreements(m, muts)
  {
    if muts != [] {
      var init, x := muts[..|muts| - 1], muts[|muts| - 1];
      assert muts == init + [x];
      AgreementsCount(m, init);
      AgreePositionsSnoc(m, init, x);
      assert x.pos !in AgreePositions(m, init);
    }
  }

  /** Together the two counters count the sample positions the node records. */
  lemma {:induction false} SharedCount(m: MutMap, muts: seq<SampleMut>)
    requires DistinctPositions(muts)
    ensures |m.Keys * SamplePositions(muts)| == Agreements(m, muts) + Disagreements(m, muts)
  {
    if muts != [] {
      var init, x := muts[..|muts| - 1], muts[|muts| - 1];
      assert muts == init + [x];
      SharedCount(m, init);
      SamplePositionsSnoc(init, x);
      SharedSnoc(m.Keys, SamplePositions(init), x.pos);
      assert x.pos in m ==> Agrees(m, x) || Disagrees(m, x);
    }
  }

  /** Adding a new position to a set adds one shared position exactly when
      the node records it. */
  lemma SharedSnoc(K: set<nat>, P0: set<nat>, p: nat)
    requires p !in P0
    ensures |K * (P0 + {p})| == |K * P0| + (if p in K then 1 else 0)
  {
    if p in K {
      assert K * (P0 + {p}) == (K * P0) + {p};
    } else {
      assert K * (P0 + {p}) == K * P0;
    }
  }

  /** The formula counts the positions recorded by only one side, or by
      both with different bases, provided the sample names each position
      once. */
  lemma DistCountsDifferingPositions(m: MutMap, muts: seq<SampleMut>)
    requires DistinctPositions(muts)
    ensures Dist(m, muts) == |DiffPositions(m, muts)|
  {
    var K, P, A := m.Keys, SamplePositions(muts), AgreePositions(m, muts);
    SamplePositionsCount(muts);
    AgreementsCount(m, muts);
    SharedCount(m, muts);
    assert A <= K * P;
    assert |K + P| == |K| + |P| - |K * P|;
    assert |(K + P) - A| == |K + P| - |A|;
  }

  /** With distinct sample positions the distance is never negative. */
  lemma DistNonNegative(m: MutMap, muts: seq<SampleMut>)
    requires DistinctPositions(muts)
    ensures Dist(m, muts) >= 0
  {
    DistCountsDifferingPositions(m, muts);
  }

  /** At the root's empty map the distance is the sample's substitution
      count; for a sample without substitutions it is the node's map size. */
  lemma {:induction false} DistBaseCases(m: MutMap, muts: seq<SampleMut>)
    ensures Dist(map[], muts) == |muts|
    ensures Dist(m, []) == |m|
  {
    if muts != [] {
      DistBaseCases(m, muts[..|muts| - 1]);
    }
  }

  /** The loop of `calculate_distance`. */
  method CalculateDistance(m: MutMap, muts: seq<SampleMut>) returns (d: int)
    ensures d == Dist(m, muts)
  {
    var sharedAgree, sharedDisagree := 0, 0;
    var k := 0;
    while k < |muts|
      invariant 0 <= k <= |muts|
      invariant sharedAgree == Agreements(m, muts[..k])
      invariant sharedDisagree == Disagreements(m, muts[..k])
    {
      var x := muts[k];
      assert muts[..k + 1][..k] == muts[..k];
      if x.pos in m {
        if x.queryNuc == m[x.pos] {
          sharedAgree := sharedAgree + 1;
        } else {
          sharedDisagree := sharedDisagree + 1;
        }
      }
      k := k + 1;
    }
    assert muts[..k] == muts;
    d := |m| + |muts| - 2 * sharedAgree - sharedDisagree;
  }
}
