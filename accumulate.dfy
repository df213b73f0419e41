/** Ancestral-state accumulation along one branch: a node's map is its
    parent's map with the node's branch substitutions written over it in
    order, after each substitution's ancestral base has been checked against
    the PARENT's map (not against the map being built). */
module Accumulate {
  import opened Wrappers
  import opened Types
  import opened MutationCodec

  /** The positions a list of substitutions touches. */
  function MutPositions(muts: seq<Mut>): set<nat> {
    set k | 0 <= k < |muts| :: muts[k].pos
  }

  /** `m` with `pos := der` written for each substitution, first to last. */
  function Overlay(m: MutMap, muts: seq<Mut>): MutMap {
    if muts == [] then m
    else
      var last := muts[|muts| - 1];
      Overlay(m, muts[..|muts| - 1])[last.pos := last.der]
  }

  /** What the overlaid map holds at one position: the derived base of the
      last substitution there, or else what `m` holds. */
  lemma {:induction false} OverlayAt(m: MutMap, muts: seq<Mut>, p: nat)
    ensures p in Overlay(m, muts) <==> p in m || p in MutPositions(muts)
    ensures p !in MutPositions(muts) && p in m ==> Overlay(m, muts)[p] == m[p]
    ensures forall k :: 0 <= k < |muts| && muts[k].pos == p
                        && (forall j :: k < j < |muts| ==> muts[j].pos != p)
                        ==> p in Overlay(m, muts) && Overlay(m, muts)[p] == muts[k].der
  {
    if muts != [] {
      var init := muts[..|muts| - 1];
      OverlayAt(m, init, p);
      assert MutPositions(muts) == MutPositions(init) + {muts[|muts| - 1].pos} by {
        forall q | q in MutPositions(muts) ensures q in MutPositions(init) + {muts[|muts| - 1].pos} {
          var k :| 0 <= k < |muts| && muts[k].pos == q;
          if k < |muts| - 1 { assert init[k] == muts[k]; }
        }
        forall q | q in MutPositions(init) ensures q in MutPositions(muts) {
          var k :| 0 <= k < |init| && init[k].pos == q;
          assert muts[k] == init[k];
        }
      }
      forall k | 0 <= k < |muts| && muts[k].pos == p && (forall j :: k < j < |muts| ==> muts[j].pos != p)
        ensures p in Overlay(m, muts) && Overlay(m, muts)[p] == muts[k].der
      {
        if k < |muts| - 1 {
          assert muts[|muts| - 1].pos != p;
          assert init[k] == muts[k];
          assert forall j :: k < j < |init| ==> init[j].pos != p by {
            forall j | k < j < |init| ensures init[j].pos != p { assert init[j] == muts[j]; }
          }
        }
      }
    }
  }

  /** The branch's tokens applied over the inherited map, as the source does
      it: stop at the first token that does not parse, or whose ancestral
      base contradicts a base the INHERITED map records at its position. */
  function ApplyTokens(inherited: MutMap, tokens: seq<string>): (r: Result<MutMap, PlaceError>)
    ensures r.Err? ==> r.error.Unparsable? || r.error.Inconsistent?
    ensures r.Ok? ==> inherited.Keys <= r.value.Keys
  {
    if tokens == [] then Ok(inherited)
    else
      match ApplyTokens(inherited, tokens[..|tokens| - 1])
      case Err(e) => Err(e)
      case Ok(built) =>
        var t := tokens[|tokens| - 1];
        match ParseMutationOrThrow(t)
        case Err(e) => Err(e)
        case Ok(mu) =>
          if mu.pos in inherited && inherited[mu.pos] != mu.anc
          then Err(Inconsistent(t, mu.anc, inherited[mu.pos]))
          else Ok(built[mu.pos := mu.der])
  }

  /** A token parses and agrees with the inherited map at its position. */
  predicate TokenFits(inherited: MutMap, t: string) {
    match Parse(t)
    case None => false
    case Some(mu) => mu.pos in inherited ==> inherited[mu.pos] == mu.anc
  }

  /** Every substitution agrees with the inherited map where that map
      records a base. */
  predicate Consistent(inherited: MutMap, muts: seq<Mut>) {
    forall k :: 0 <= k < |muts| && muts[k].pos in inherited ==> inherited[muts[k].pos] == muts[k].anc
  }

  /** The triples of tokens that all parse. */
  function ParseAll(tokens: seq<string>): (ms: seq<Mut>)
    requires forall k :: 0 <= k < |tokens| ==> Parse(tokens[k]).Some?
    ensures |ms| == |tokens|
    ensures forall k :: 0 <= k < |tokens| ==> ms[k] == Parse(tokens[k]).value
  {
    seq(|tokens|, k requires 0 <= k < |tokens| => Parse(tokens[k]).value)
  }

  /** Accumulation along a branch succeeds exactly when every token parses
      and agrees with the inherited map, and then yields the inherited map
      overlaid with the parsed substitutions. */
  lemma ApplyTokensSpec(inherited: MutMap, tokens: seq<string>)
    ensures ApplyTokens(inherited, tokens).Ok?
            <==> forall k :: 0 <= k < |tokens| ==> TokenFits(inherited, tokens[k])
    ensures ApplyTokens(inherited, tokens).Ok? ==>
              (forall k :: 0 <= k < |tokens| ==> Parse(tokens[k]).Some?) &&
              ApplyTokens(inherited, tokens).value == Overlay(inherited, ParseAll(tokens))
  {
    ApplyTokensOk(inherited, tokens);
    if ApplyTokens(inherited, tokens).Ok? {
      ApplyTokensValue(inherited, tokens);
    }
  }

  lemma {:induction false} ApplyTokensOk(inherited: MutMap, tokens: seq<string>)
    ensures ApplyTokens(inherited, tokens).Ok?
            <==> forall k :: 0 <= k < |tokens| ==> TokenFits(inherited, tokens[k])
  {
    if tokens != [] {
      var init := tokens[..|tokens| - 1];
      ApplyTokensOk(inherited, init);
      assert forall k :: 0 <= k < |init| ==> init[k] == tokens[k];
    }
  }

  lemma {:induction false} ApplyTokensValue(inherited: MutMap, tokens: seq<string>)
    requires ApplyTokens(inherited, tokens).Ok?
    ensures forall k :: 0 <= k < |tokens| ==> Parse(tokens[k]).Some?
    ensures ApplyTokens(inherited, tokens).value == Overlay(inherited, ParseAll(tokens))
  {
    if tokens != [] {
      var init := tokens[..|tokens| - 1];
      ApplyTokensValue(inherited, init);
      assert forall k :: 0 <= k < |init| ==> init[k] == tokens[k];
      assert ParseAll(tokens)[..|tokens| - 1] == ParseAll(init);
    }
  }

  /** Formatted triples replay: accepted exactly when consistent with the
      inherited map, giving the overlay of the triples themselves. */
  lemma ApplyFormatted(inherited: MutMap, muts: seq<Mut>)
    ensures ApplyTokens(inherited, FormatAll(muts)).Ok? <==> Consistent(inherited, muts)
    ensures Consistent(inherited, muts) ==>
              ApplyTokens(inherited, FormatAll(muts)) == Ok(Overlay(inherited, muts))
  {
    var ts := FormatAll(muts);
    forall k | 0 <= k < |muts| ensures Parse(ts[k]) == Some(muts[k]) { ParseFormat(muts[k]); }
    ApplyTokensSpec(inherited, ts);
    if Consistent(inherited, muts) {
      assert ParseAll(ts) == muts;
    } else {
      var k :| 0 <= k < |muts| && muts[k].pos in inherited && inherited[muts[k].pos] != muts[k].anc;
      assert !TokenFits(inherited, ts[k]);
    }
  }

  /** The check reads only the inherited map: two substitutions at one
      position on the same branch are never checked against each other, so
      where the parent records nothing both are accepted whatever the second
      one claims as its ancestral base, and the second one wins. */
  lemma RepeatedPositionUnchecked(inherited: MutMap, p: nat, a1: char, d1: char, a2: char, d2: char)
    requires p !in inherited
    ensures ApplyTokens(inherited, [Format(Mut(a1, p, d1)), Format(Mut(a2, p, d2))]) == Ok(inherited[p := d2])
  {
    var muts := [Mut(a1, p, d1), Mut(a2, p, d2)];
    assert FormatAll(muts) == [Format(Mut(a1, p, d1)), Format(Mut(a2, p, d2))];
    assert Consistent(inherited, muts);
    ApplyFormatted(inherited, muts);
    assert muts[..1] == [Mut(a1, p, d1)];
    assert muts[..1][..0] == [];
    assert Overlay(inherited, muts[..1]) == inherited[p := d1];
    assert Overlay(inherited, muts) == inherited[p := d1][p := d2];
    assert inherited[p := d1][p := d2] == inherited[p := d2];
  }

  /** Once accumulation has failed on a prefix of the tokens it fails with
      the same error on the whole list. */
  lemma {:induction false} ErrorSticks(inherited: MutMap, tokens: seq<string>, j: nat)
    requires j <= |tokens| && ApplyTokens(inherited, tokens[..j]).Err?
    ensures ApplyTokens(inherited, tokens) == ApplyTokens(inherited, tokens[..j])
  {
    if j < |tokens| {
      assert tokens[..|tokens| - 1][..j] == tokens[..j];
      ErrorSticks(inherited, tokens[..|tokens| - 1], j);
    } else {
      assert tokens[..j] == tokens;
    }
  }

  /** The loop of the source over one branch's tokens (`tmp_muts`). */
  method ApplyBranch(inherited: MutMap, tokens: seq<string>) returns (r: Result<MutMap, PlaceError>)
    ensures r == ApplyTokens(inherited, tokens)
  {
    var built := inherited;
    var k := 0;
    while k < |tokens|
      invariant 0 <= k <= |tokens|
      invariant ApplyTokens(inherited, tokens[..k]) == Ok(built)
    {
      var t := tokens[k];
      assert tokens[..k + 1][..k] == tokens[..k];
      var parsed := ParseMutationOrThrow(t);
      if parsed.Err? {
        r := Err(parsed.error);
        ErrorSticks(inherited, tokens, k + 1);
        return;
      }
      var mu := parsed.value;
      if mu.pos in inherited && inherited[mu.pos] != mu.anc {
        r := Err(Inconsistent(t, mu.anc, inherited[mu.pos]));
        ErrorSticks(inherited, tokens, k + 1);
        return;
      }
      built := built[mu.pos := mu.der];
      k := k + 1;
    }
    assert tokens[..k] == tokens;
    r := Ok(built);
  }
}
