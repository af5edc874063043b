/**
 Laws of the preset merge: presets commute, a preset that was applied once is absorbed for ever, and every
 preset can only strengthen the requirements.  Hence the merge is a join over the set of active presets.
 */
module PresetLaws {
  import opened Options
  import opened PresetMerge

  lemma MergeTiersCommute(a: seq<Tier>, b: seq<Tier>, c: seq<Tier>)
    ensures MergeTiers(MergeTiers(a, b), c) == MergeTiers(MergeTiers(a, c), b)
  {
    MergedTierMembers(a, b);
    MergedTierMembers(a, c);
  }

  lemma MergeTiersAbsorb(a: seq<Tier>, b: seq<Tier>)
    ensures MergeTiers(MergeTiers(a, b), b) == MergeTiers(a, b)
  {
    MergedTierMembers(a, b);
  }

  /** Running an entity type at `BOTH` means running it at both recognizer tiers. */
  predicate Runs(tiers: seq<Tier>, t: Tier) {
    t in tiers || BOTH in tiers
  }

  lemma MergedTierMembers(a: seq<Tier>, b: seq<Tier>)
    ensures var m := MergeTiers(a, b);
            && BOTH !in m
            && (REGEX in m <==> Runs(a, REGEX) || Runs(b, REGEX))
            && (NER in m <==> Runs(a, NER) || Runs(b, NER))
  {
  }

  lemma AppliedTypeAt(r: Requirements, p: Preset, e: string)
    ensures Get(Applied(r, p).entityTypes, e) == TypeAfter(r, p.mandatoryEntityTypes, e)
  {
  }

  lemma AppliedThresholdAt(r: Requirements, p: Preset, e: string)
    ensures Get(Applied(r, p).thresholds, e) == ThresholdAfter(r, p, p.mandatoryEntityTypes, e)
  {
  }

  lemma AppliedTiersAt(r: Requirements, p: Preset, e: string)
    ensures Get(Applied(r, p).minimumTiers, e) == TiersAfter(r, p, p.minimumTiers.Keys, e)
  {
  }

  lemma AppliedAt(r: Requirements, p: Preset, e: string)
    ensures Get(Applied(r, p).entityTypes, e) == TypeAfter(r, p.mandatoryEntityTypes, e)
    ensures Get(Applied(r, p).thresholds, e) == ThresholdAfter(r, p, p.mandatoryEntityTypes, e)
    ensures Get(Applied(r, p).minimumTiers, e) == TiersAfter(r, p, p.minimumTiers.Keys, e)
  {
    AppliedTypeAt(r, p, e);
    AppliedThresholdAt(r, p, e);
    AppliedTiersAt(r, p, e);
  }

  lemma SameRequirements(a: Requirements, b: Requirements)
    requires forall e :: Get(a.entityTypes, e) == Get(b.entityTypes, e)
    requires forall e :: Get(a.thresholds, e) == Get(b.thresholds, e)
    requires forall e :: Get(a.minimumTiers, e) == Get(b.minimumTiers, e)
    requires a.checksums == b.checksums
    ensures a == b
  {
    SameMap(a.entityTypes, b.entityTypes);
    SameMap(a.thresholds, b.thresholds);
    SameMap(a.minimumTiers, b.minimumTiers);
  }

  lemma TypesCommuteAt(r: Requirements, p: Preset, q: Preset, e: string)
    ensures Get(Applied(Applied(r, p), q).entityTypes, e) == Get(Applied(Applied(r, q), p).entityTypes, e)
  {
    AppliedTypeAt(r, p, e);
    AppliedTypeAt(r, q, e);
    AppliedTypeAt(Applied(r, p), q, e);
    AppliedTypeAt(Applied(r, q), p, e);
  }

  /** The threshold of `e` after a preset, from the one before. */
  function Raised(before: Option<real>, p: Preset, e: string): Option<real> {
    if e in p.mandatoryEntityTypes then Some(RealMax(before.GetOr(0.0), Get(p.thresholds, e).GetOr(0.7))) else before
  }

  lemma RaisedAt(r: Requirements, p: Preset, e: string)
    ensures Get(Applied(r, p).thresholds, e) == Raised(Get(r.thresholds, e), p, e)
  {
    AppliedThresholdAt(r, p, e);
  }

  lemma RaisedCommutes(before: Option<real>, p: Preset, q: Preset, e: string)
    ensures Raised(Raised(before, p, e), q, e) == Raised(Raised(before, q, e), p, e)
  {
  }

  lemma ThresholdsCommuteAt(r: Requirements, p: Preset, q: Preset, e: string)
    ensures Get(Applied(Applied(r, p), q).thresholds, e) == Get(Applied(Applied(r, q), p).thresholds, e)
  {
    RaisedAt(r, p, e);
    RaisedAt(r, q, e);
    RaisedAt(Applied(r, p), q, e);
    RaisedAt(Applied(r, q), p, e);
    RaisedCommutes(Get(r.thresholds, e), p, q, e);
  }

  lemma TiersCommuteAt(r: Requirements, p: Preset, q: Preset, e: string)
    ensures Get(Applied(Applied(r, p), q).minimumTiers, e) == Get(Applied(Applied(r, q), p).minimumTiers, e)
  {
    AppliedTiersAt(r, p, e);
    AppliedTiersAt(r, q, e);
    AppliedTiersAt(Applied(r, p), q, e);
    AppliedTiersAt(Applied(r, q), p, e);
    if e in p.minimumTiers && e in q.minimumTiers {
      MergeTiersCommute(Get(r.minimumTiers, e).GetOr([]), p.minimumTiers[e], q.minimumTiers[e]);
    }
  }

  lemma AppliedCommutes(r: Requirements, p: Preset, q: Preset)
    ensures Applied(Applied(r, p), q) == Applied(Applied(r, q), p)
  {
    var a, b := Applied(Applied(r, p), q), Applied(Applied(r, q), p);
    forall e
      ensures Get(a.entityTypes, e) == Get(b.entityTypes, e)
      ensures Get(a.thresholds, e) == Get(b.thresholds, e)
      ensures Get(a.minimumTiers, e) == Get(b.minimumTiers, e)
    {
      TypesCommuteAt(r, p, q, e);
      ThresholdsCommuteAt(r, p, q, e);
      TiersCommuteAt(r, p, q, e);
    }
    SameRequirements(a, b);
  }

  lemma AppliedTwiceAt(r: Requirements, p: Preset, e: string)
    ensures var a, b := Applied(Applied(r, p), p), Applied(r, p);
            && Get(a.entityTypes, e) == Get(b.entityTypes, e)
            && Get(a.thresholds, e) == Get(b.thresholds, e)
            && Get(a.minimumTiers, e) == Get(b.minimumTiers, e)
  {
    AppliedAt(r, p, e);
    AppliedAt(Applied(r, p), p, e);
    if e in p.minimumTiers {
      MergeTiersAbsorb(Get(r.minimumTiers, e).GetOr([]), p.minimumTiers[e]);
    }
  }

  lemma AppliedTwice(r: Requirements, p: Preset)
    ensures Applied(Applied(r, p), p) == Applied(r, p)
  {
    var a, b := Applied(Applied(r, p), p), Applied(r, p);
    forall e
      ensures Get(a.entityTypes, e) == Get(b.entityTypes, e)
      ensures Get(a.thresholds, e) == Get(b.thresholds, e)
      ensures Get(a.minimumTiers, e) == Get(b.minimumTiers, e)
    {
      AppliedTwiceAt(r, p, e);
    }
    SameRequirements(a, b);
  }

  // ----- Lists of presets -----

  lemma {:induction false} PushThrough(r: Requirements, p: Preset, ps: seq<Preset>)
    ensures MergeAll(Applied(r, p), ps) == Applied(MergeAll(r, ps), p)
  {
    if ps == [] {
    } else {
      var front, q := ps[..|ps| - 1], ps[|ps| - 1];
      PushThrough(r, p, front);
      AppliedCommutes(MergeAll(r, front), p, q);
    }
  }

  /** A preset that is already in the list changes nothing when it is applied again. */
  lemma {:induction false} ActivePresetIsAbsorbed(r: Requirements, ps: seq<Preset>, p: Preset)
    requires p in ps
    ensures Applied(MergeAll(r, ps), p) == MergeAll(r, ps)
  {
    var front, q := ps[..|ps| - 1], ps[|ps| - 1];
    if p == q {
      AppliedTwice(MergeAll(r, front), p);
    } else {
      ActivePresetIsAbsorbed(r, front, p);
      AppliedCommutes(MergeAll(r, front), q, p);
    }
  }

  lemma {:induction false} ActiveListIsAbsorbed(r: Requirements, ps: seq<Preset>, qs: seq<Preset>)
    requires forall q :: q in qs ==> q in ps
    ensures MergeAll(MergeAll(r, ps), qs) == MergeAll(r, ps)
  {
    if qs == [] {
    } else {
      assert qs == qs[..|qs| - 1] + [qs[|qs| - 1]];
      ActiveListIsAbsorbed(r, ps, qs[..|qs| - 1]);
      ActivePresetIsAbsorbed(r, ps, qs[|qs| - 1]);
    }
  }

  lemma {:induction false} ListsCommute(r: Requirements, ps: seq<Preset>, qs: seq<Preset>)
    ensures MergeAll(MergeAll(r, ps), qs) == MergeAll(MergeAll(r, qs), ps)
  {
    if qs == [] {
    } else {
      var front, q := qs[..|qs| - 1], qs[|qs| - 1];
      ListsCommute(r, ps, front);
      PushThrough(MergeAll(r, front), q, ps);
    }
  }

  /** Order and repetition are irrelevant: only the set of active presets matters. */
  lemma OnlyTheSetOfPresetsMatters(r: Requirements, ps: seq<Preset>, qs: seq<Preset>)
    requires forall p :: p in ps <==> p in qs
    ensures MergeAll(r, ps) == MergeAll(r, qs)
  {
    ActiveListIsAbsorbed(r, ps, qs);
    ActiveListIsAbsorbed(r, qs, ps);
    ListsCommute(r, ps, qs);
  }

  // ----- Nothing is ever weakened -----

  /** `b` demands at least what `a` demands. */
  ghost predicate NoWeaker(a: Requirements, b: Requirements) {
    && (forall e :: e in a.entityTypes ==> e in b.entityTypes && b.entityTypes[e] == a.entityTypes[e])
    && (forall e :: e in a.thresholds ==> e in b.thresholds && a.thresholds[e] <= b.thresholds[e])
    && (forall e, t :: e in a.minimumTiers && Runs(a.minimumTiers[e], t) && t != BOTH
          ==> e in b.minimumTiers && Runs(b.minimumTiers[e], t))
    && a.checksums <= b.checksums
  }

  lemma AppliedIsNoWeaker(r: Requirements, p: Preset)
    ensures NoWeaker(r, Applied(r, p))
  {
    forall e ensures e in r.minimumTiers && e in p.minimumTiers ==> BOTH !in MergedTiers(r, p, e) {
    }
  }

  lemma NoWeakerIsTransitive(a: Requirements, b: Requirements, c: Requirements)
    requires NoWeaker(a, b) && NoWeaker(b, c)
    ensures NoWeaker(a, c)
  {
  }

  lemma {:induction false} MergeAllIsNoWeaker(r: Requirements, ps: seq<Preset>)
    ensures NoWeaker(r, MergeAll(r, ps))
  {
    if ps == [] {
    } else {
      MergeAllIsNoWeaker(r, ps[..|ps| - 1]);
      AppliedIsNoWeaker(MergeAll(r, ps[..|ps| - 1]), ps[|ps| - 1]);
      NoWeakerIsTransitive(r, MergeAll(r, ps[..|ps| - 1]), MergeAll(r, ps));
    }
  }

  /** More presets or overrides, in any order, never weaken the result. */
  lemma MorePresetsNeverWeaken(r: Requirements, ps: seq<Preset>, qs: seq<Preset>)
    requires forall p :: p in ps ==> p in qs
    ensures NoWeaker(MergeAll(r, ps), MergeAll(r, qs))
  {
    ActiveListIsAbsorbed(r, qs, ps);
    ListsCommute(r, ps, qs);
    MergeAllIsNoWeaker(MergeAll(r, ps), qs);
  }

  // ----- When the program raises -----

  /** The `k`-th preset lists no tiers for a type that nothing before it gave a tier. */
  ghost predicate HitsEmptyTiers(r: Requirements, ps: seq<Preset>, k: nat, e: string)
    requires k < |ps|
  {
    && e in ps[k].minimumTiers && ps[k].minimumTiers[e] == []
    && Get(r.minimumTiers, e).GetOr([]) == []
    && forall j :: 0 <= j < k && e in ps[j].minimumTiers ==> ps[j].minimumTiers[e] == []
  }

  lemma {:induction false} TiersSoFar(r: Requirements, ps: seq<Preset>, e: string)
    ensures Get(MergeAll(r, ps).minimumTiers, e).GetOr([]) == []
       <==> Get(r.minimumTiers, e).GetOr([]) == []
            && forall j :: 0 <= j < |ps| && e in ps[j].minimumTiers ==> ps[j].minimumTiers[e] == []
  {
    if ps == [] {
    } else {
      var front, p := ps[..|ps| - 1], ps[|ps| - 1];
      TiersSoFar(r, front, e);
      OneMoreTier(MergeAll(r, front), p, e);
      assert forall j :: 0 <= j < |front| ==> front[j] == ps[j];
    }
  }

  lemma OneMoreTier(r: Requirements, p: Preset, e: string)
    ensures Get(Applied(r, p).minimumTiers, e).GetOr([]) == []
       <==> Get(r.minimumTiers, e).GetOr([]) == [] && (e in p.minimumTiers ==> p.minimumTiers[e] == [])
  {
    AppliedAt(r, p, e);
    if e in p.minimumTiers {
      MergeTiersEmpty(Get(r.minimumTiers, e).GetOr([]), p.minimumTiers[e]);
    }
  }

  lemma MergeTiersEmpty(a: seq<Tier>, b: seq<Tier>)
    ensures MergeTiers(a, b) == [] <==> a == [] && b == []
  {
    var tiers := a + b;
    if tiers != [] {
      var t := tiers[0];
      assert t in tiers && (t.REGEX? || t.NER? || t.BOTH?);
    }
  }

  lemma TurnFailsIff(r: Requirements, ps: seq<Preset>, k: nat)
    requires k < |ps|
    ensures !TurnSucceeds(r, ps, k) <==> exists e :: HitsEmptyTiers(r, ps, k, e)
  {
    assert forall j :: 0 <= j < k ==> ps[..k][j] == ps[j];
    forall e | e in ps[k].minimumTiers
      ensures MergedTiers(MergeAll(r, ps[..k]), ps[k], e) == [] <==> HitsEmptyTiers(r, ps, k, e)
    {
      TiersSoFar(r, ps[..k], e);
      MergeTiersEmpty(Get(MergeAll(r, ps[..k]).minimumTiers, e).GetOr([]), ps[k].minimumTiers[e]);
    }
  }

  /** The merge raises exactly when some preset lists an empty tier list that nothing earlier filled. */
  lemma MergeRaisesIff(r: Requirements, ps: seq<Preset>)
    ensures !CanMergeAll(r, ps) <==> exists k, e :: 0 <= k < |ps| && HitsEmptyTiers(r, ps, k, e)
  {
    if !CanMergeAll(r, ps) {
      var k :| 0 <= k < |ps| && !TurnSucceeds(r, ps, k);
      TurnFailsIff(r, ps, k);
      var e :| HitsEmptyTiers(r, ps, k, e);
    }
    if k, e :| 0 <= k < |ps| && HitsEmptyTiers(r, ps, k, e) {
      TurnFailsIff(r, ps, k);
      assert !TurnSucceeds(r, ps, k);
    }
  }
}
