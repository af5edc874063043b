/**
 The merge of compliance presets and customer overrides into one set of detection requirements
 (compliance/merge.py).

 `DetectionState.ApplyPreset` updates four dictionaries in place, as the program does.  It is proved equal to
 the function `Applied`; the lemmas show that applying presets is commutative and absorbing, so the result is
 a join that depends only on which presets are active and never weakens a requirement.
 */
module PresetMerge {
  import opened Options

  datatype Tier = REGEX | NER | BOTH

  /** One entity type's settings as parsed from a document; absent keys are `None`. */
  datatype EntityConfig = EntityConfig(tier: Option<Tier>, confidenceThreshold: Option<real>, threshold: Option<real>)

  datatype BaseConfig = BaseConfig(
    entityTypes: map<string, EntityConfig>, requiresChecksum: set<string>, disabledEntityTypes: set<string>)

  /** `names` lists the keys of `entityTypes` in the order the dictionary holds them. */
  datatype Overrides = Overrides(
    names: seq<string>, entityTypes: map<string, EntityConfig>, requiresChecksum: set<string>)

  datatype Preset = Preset(
    id: string,
    mandatoryEntityTypes: seq<string>,
    thresholds: map<string, real>,
    minimumTiers: map<string, seq<Tier>>,
    requiresChecksum: set<string>)

  /** The four collections a preset updates. */
  datatype Requirements = Requirements(
    entityTypes: map<string, Tier>,
    thresholds: map<string, real>,
    minimumTiers: map<string, seq<Tier>>,
    checksums: set<string>)

  datatype MergeResult = MergeResult(
    merged: Requirements, sourcePresets: seq<string>, hasCustomerOverrides: bool, disabledEntityTypes: set<string>)

  // ----- Helpers of the program -----

  function TierRank(tier: Tier): nat {
    if tier == BOTH then 2 else 1
  }

  function RealMax(a: real, b: real): real {
    if b > a then b else a
  }

  function MergeTiers(existing: seq<Tier>, incoming: seq<Tier>): seq<Tier> {
    var tiers := existing + incoming;
    if BOTH in tiers || (REGEX in tiers && NER in tiers) then [REGEX, NER]
    else if NER in tiers then [NER]
    else if REGEX in tiers then [REGEX]
    else []
  }

  /** The first element of maximal rank; the program fails on an empty list. */
  function Strongest(tiers: seq<Tier>): (t: Tier)
    requires tiers != []
    ensures t in tiers && forall x :: x in tiers ==> TierRank(x) <= TierRank(t)
  {
    if |tiers| == 1 then tiers[0]
    else
      var rest := Strongest(tiers[1..]);
      if TierRank(rest) > TierRank(tiers[0]) then rest else tiers[0]
  }

  function BaseThreshold(config: EntityConfig): real {
    config.confidenceThreshold.GetOr(config.threshold.GetOr(0.7))
  }

  function NormalizedBase(base: BaseConfig): Requirements {
    Requirements(
      map e | e in base.entityTypes :: base.entityTypes[e].tier.GetOr(REGEX),
      map e | e in base.entityTypes :: BaseThreshold(base.entityTypes[e]),
      map e | e in base.entityTypes :: [base.entityTypes[e].tier.GetOr(REGEX)],
      base.requiresChecksum)
  }

  /** Overrides are applied as one more preset, after all others, whose mandatory types are all it mentions. */
  function OverridePreset(o: Overrides): Preset {
    Preset(
      "customer_overrides",
      o.names,
      map e | e in o.entityTypes :: o.entityTypes[e].confidenceThreshold.GetOr(o.entityTypes[e].threshold.GetOr(0.0)),
      map e | e in o.entityTypes && o.entityTypes[e].tier.Some? :: [o.entityTypes[e].tier.value],
      o.requiresChecksum)
  }

  function AllPresets(presets: seq<Preset>, overrides: Option<Overrides>): seq<Preset> {
    if overrides.None? then presets else presets + [OverridePreset(overrides.value)]
  }

  function PresetIds(presets: seq<Preset>): (ids: seq<string>)
    ensures |ids| == |presets| && forall i :: 0 <= i < |ids| ==> ids[i] == presets[i].id
  {
    seq(|presets|, i requires 0 <= i < |presets| => presets[i].id)
  }

  // ----- What one preset does -----

  function RaisedThreshold(r: Requirements, p: Preset, e: string): real {
    RealMax(Get(r.thresholds, e).GetOr(0.0), Get(p.thresholds, e).GetOr(0.7))
  }

  function MergedTiers(r: Requirements, p: Preset, e: string): seq<Tier>
    requires e in p.minimumTiers
  {
    MergeTiers(Get(r.minimumTiers, e).GetOr([]), p.minimumTiers[e])
  }

  function Applied(r: Requirements, p: Preset): Requirements {
    var mandatory := set e | e in p.mandatoryEntityTypes;
    Requirements(
      map e | e in r.entityTypes.Keys + mandatory :: Get(r.entityTypes, e).GetOr(REGEX),
      map e | e in r.thresholds.Keys + mandatory ::
        if e in mandatory then RaisedThreshold(r, p, e) else r.thresholds[e],
      map e | e in r.minimumTiers.Keys + p.minimumTiers.Keys ::
        if e in p.minimumTiers then MergedTiers(r, p, e) else r.minimumTiers[e],
      r.checksums + p.requiresChecksum)
  }

  /** `max` of an empty tier list raises; every other preset is applied. */
  ghost predicate CanApply(r: Requirements, p: Preset) {
    forall e :: e in p.minimumTiers ==> MergedTiers(r, p, e) != []
  }

  /** A merged tier list never contains `BOTH`, so the program's promotion of `entity_types` never fires. */
  lemma MergedTiersNeverPromote(tiers: seq<Tier>, entityTypes: map<string, Tier>, e: string)
    requires tiers != [] && BOTH !in tiers
    ensures Promoted(entityTypes, e, Strongest(tiers)) == entityTypes
  {
  }

  function Promoted(entityTypes: map<string, Tier>, e: string, strongest: Tier): map<string, Tier> {
    if TierRank(strongest) > TierRank(Get(entityTypes, e).GetOr(REGEX)) then entityTypes[e := strongest] else entityTypes
  }

  class DetectionState {
    var entityTypes: map<string, Tier>
    var thresholds: map<string, real>
    var minimumTiers: map<string, seq<Tier>>
    var checksums: set<string>

    function Contents(): Requirements
      reads this
    {
      Requirements(entityTypes, thresholds, minimumTiers, checksums)
    }

    constructor (start: Requirements)
      ensures Contents() == start
    {
      entityTypes, thresholds := start.entityTypes, start.thresholds;
      minimumTiers, checksums := start.minimumTiers, start.checksums;
    }

    /** `ok` is false when the program raises. */
    method ApplyPreset(p: Preset) returns (ok: bool)
      modifies this
      ensures ok <==> CanApply(old(Contents()), p)
      ensures ok ==> Contents() == Applied(old(Contents()), p)
    {
      ghost var r := Contents();
      RaiseMandatory(p);
      ok := RaiseTiers(p);
      checksums := checksums + p.requiresChecksum;
      if ok {
        AppliedPointwise(r, p, Contents());
      }
    }

    /** The first loop: every mandatory type is present, at no less than the preset's threshold. */
    method RaiseMandatory(p: Preset)
      modifies this`entityTypes, this`thresholds
      ensures forall e :: Get(entityTypes, e) == TypeAfter(old(Contents()), p.mandatoryEntityTypes, e)
      ensures forall e :: Get(thresholds, e) == ThresholdAfter(old(Contents()), p, p.mandatoryEntityTypes, e)
    {
      ghost var r := Contents();
      var names := p.mandatoryEntityTypes;
      for k := 0 to |names|
        invariant forall e :: Get(entityTypes, e) == TypeAfter(r, names[..k], e)
        invariant forall e :: Get(thresholds, e) == ThresholdAfter(r, p, names[..k], e)
      {
        var e := names[k];
        assert names[..k + 1] == names[..k] + [e];
        TypeStep(r, names[..k], entityTypes, e);
        ThresholdStep(r, p, names[..k], thresholds, e);
        if e !in entityTypes {
          entityTypes := entityTypes[e := REGEX];
        }
        thresholds := thresholds[e := RealMax(Get(thresholds, e).GetOr(0.0), Get(p.thresholds, e).GetOr(0.7))];
      }
      assert names[..|names|] == names;
    }

    /** The second loop, over the preset's tier lists in any order. */
    method RaiseTiers(p: Preset) returns (ok: bool)
      modifies this`entityTypes, this`minimumTiers
      ensures entityTypes == old(entityTypes)
      ensures ok <==> CanApply(old(Contents()), p)
      ensures ok ==> forall e :: Get(minimumTiers, e) == TiersAfter(old(Contents()), p, p.minimumTiers.Keys, e)
    {
      ghost var r := Contents();
      var todo := p.minimumTiers.Keys;
      while todo != {}
        invariant todo <= p.minimumTiers.Keys
        invariant entityTypes == r.entityTypes
        invariant forall e :: Get(minimumTiers, e) == TiersAfter(r, p, p.minimumTiers.Keys - todo, e)
        invariant forall e :: e in p.minimumTiers && e !in todo ==> MergedTiers(r, p, e) != []
      {
        var e :| e in todo;
        ghost var done := p.minimumTiers.Keys - todo;
        assert done + {e} == p.minimumTiers.Keys - (todo - {e});
        TiersStep(r, p, done, minimumTiers, e);
        var tiers := MergeTiers(Get(minimumTiers, e).GetOr([]), p.minimumTiers[e]);
        if tiers == [] {
          return false;
        }
        minimumTiers := minimumTiers[e := tiers];
        MergedTiersNeverPromote(MergedTiers(r, p, e), entityTypes, e);
        entityTypes := Promoted(entityTypes, e, Strongest(tiers));
        todo := todo - {e};
      }
      ok := true;
    }
  }

  function TypeAfter(r: Requirements, names: seq<string>, e: string): Option<Tier> {
    if e in names then Some(Get(r.entityTypes, e).GetOr(REGEX)) else Get(r.entityTypes, e)
  }

  function ThresholdAfter(r: Requirements, p: Preset, names: seq<string>, e: string): Option<real> {
    if e in names then Some(RaisedThreshold(r, p, e)) else Get(r.thresholds, e)
  }

  function TiersAfter(r: Requirements, p: Preset, names: set<string>, e: string): Option<seq<Tier>>
    requires names <= p.minimumTiers.Keys
  {
    if e in names then Some(MergedTiers(r, p, e)) else Get(r.minimumTiers, e)
  }

  lemma TypeStep(r: Requirements, names: seq<string>, m: map<string, Tier>, e: string)
    requires forall j :: Get(m, j) == TypeAfter(r, names, j)
    ensures forall j :: Get(if e in m then m else m[e := REGEX], j) == TypeAfter(r, names + [e], j)
  {
    forall j ensures Get(if e in m then m else m[e := REGEX], j) == TypeAfter(r, names + [e], j) {
      assert Get(m, j) == TypeAfter(r, names, j) && Get(m, e) == TypeAfter(r, names, e);
    }
  }

  lemma ThresholdStep(r: Requirements, p: Preset, names: seq<string>, m: map<string, real>, e: string)
    requires forall j :: Get(m, j) == ThresholdAfter(r, p, names, j)
    ensures var t := RealMax(Get(m, e).GetOr(0.0), Get(p.thresholds, e).GetOr(0.7));
            forall j :: Get(m[e := t], j) == ThresholdAfter(r, p, names + [e], j)
  {
    var t := RealMax(Get(m, e).GetOr(0.0), Get(p.thresholds, e).GetOr(0.7));
    forall j ensures Get(m[e := t], j) == ThresholdAfter(r, p, names + [e], j) {
      assert Get(m, j) == ThresholdAfter(r, p, names, j) && Get(m, e) == ThresholdAfter(r, p, names, e);
    }
  }

  lemma TiersStep(r: Requirements, p: Preset, done: set<string>, m: map<string, seq<Tier>>, e: string)
    requires e in p.minimumTiers && e !in done && done <= p.minimumTiers.Keys
    requires forall j :: Get(m, j) == TiersAfter(r, p, done, j)
    ensures Get(m, e) == Get(r.minimumTiers, e)
    ensures forall j :: Get(m[e := MergedTiers(r, p, e)], j) == TiersAfter(r, p, done + {e}, j)
  {
    forall j ensures Get(m[e := MergedTiers(r, p, e)], j) == TiersAfter(r, p, done + {e}, j) {
      assert Get(m, j) == TiersAfter(r, p, done, j) && Get(m, e) == TiersAfter(r, p, done, e);
    }
  }

  lemma SameMap<V>(a: map<string, V>, b: map<string, V>)
    requires forall e :: Get(a, e) == Get(b, e)
    ensures a == b
  {
    forall e ensures e in a <==> e in b {
      assert Get(a, e) == Get(b, e);
    }
    forall e | e in a ensures a[e] == b[e] {
      assert Get(a, e) == Get(b, e);
    }
  }

  lemma AppliedPointwise(r: Requirements, p: Preset, after: Requirements)
    requires forall e :: Get(after.entityTypes, e) == TypeAfter(r, p.mandatoryEntityTypes, e)
    requires forall e :: Get(after.thresholds, e) == ThresholdAfter(r, p, p.mandatoryEntityTypes, e)
    requires forall e :: Get(after.minimumTiers, e) == TiersAfter(r, p, p.minimumTiers.Keys, e)
    requires after.checksums == r.checksums + p.requiresChecksum
    ensures after == Applied(r, p)
  {
    SameMap(after.entityTypes, Applied(r, p).entityTypes);
    SameMap(after.thresholds, Applied(r, p).thresholds);
    SameMap(after.minimumTiers, Applied(r, p).minimumTiers);
  }

  // ----- Many presets -----

  function MergeAll(r: Requirements, ps: seq<Preset>): Requirements {
    if ps == [] then r else Applied(MergeAll(r, ps[..|ps| - 1]), ps[|ps| - 1])
  }

  ghost predicate CanMergeAll(r: Requirements, ps: seq<Preset>) {
    forall k :: 0 <= k < |ps| ==> TurnSucceeds(r, ps, k)
  }

  /** The `k`-th preset can be applied to the result of those before it. */
  ghost predicate TurnSucceeds(r: Requirements, ps: seq<Preset>, k: nat)
    requires k < |ps|
  {
    CanApply(MergeAll(r, ps[..k]), ps[k])
  }

  lemma MergeAllStep(r: Requirements, ps: seq<Preset>, k: nat)
    requires k < |ps|
    ensures MergeAll(r, ps[..k + 1]) == Applied(MergeAll(r, ps[..k]), ps[k])
  {
    assert ps[..k + 1][..k] == ps[..k];
  }

  function Merged(base: BaseConfig, presets: seq<Preset>, overrides: Option<Overrides>): Requirements {
    MergeAll(NormalizedBase(base), AllPresets(presets, overrides))
  }

  lemma MergeAllAppend(r: Requirements, ps: seq<Preset>, p: Preset)
    ensures MergeAll(r, ps + [p]) == Applied(MergeAll(r, ps), p)
    ensures CanMergeAll(r, ps + [p]) <==> CanMergeAll(r, ps) && CanApply(MergeAll(r, ps), p)
  {
    var all := ps + [p];
    assert all[..|ps|] == ps;
    forall k | 0 <= k < |ps| ensures TurnSucceeds(r, all, k) <==> TurnSucceeds(r, ps, k) {
      assert all[..k] == ps[..k];
    }
    assert TurnSucceeds(r, all, |ps|) <==> CanApply(MergeAll(r, ps), p);
  }

  method ApplyEach(state: DetectionState, presets: seq<Preset>) returns (ok: bool)
    modifies state
    ensures ok <==> CanMergeAll(old(state.Contents()), presets)
    ensures ok ==> state.Contents() == MergeAll(old(state.Contents()), presets)
  {
    ghost var start := state.Contents();
    for k := 0 to |presets|
      invariant state.Contents() == MergeAll(start, presets[..k])
      invariant forall j :: 0 <= j < k ==> TurnSucceeds(start, presets, j)
    {
      ok := state.ApplyPreset(presets[k]);
      assert ok <==> TurnSucceeds(start, presets, k);
      if !ok {
        return;
      }
      MergeAllStep(start, presets, k);
    }
    assert presets[..|presets|] == presets;
    ok := true;
  }

  /** `None` when the program raises. */
  method MergePresets(base: BaseConfig, presets: seq<Preset>, overrides: Option<Overrides>)
    returns (result: Option<MergeResult>)
    requires overrides.Some? ==> forall e :: e in overrides.value.names <==> e in overrides.value.entityTypes
    ensures result.Some? <==> CanMergeAll(NormalizedBase(base), AllPresets(presets, overrides))
    ensures result.Some? ==>
              result.value == MergeResult(
                Merged(base, presets, overrides), PresetIds(presets), overrides.Some?, base.disabledEntityTypes)
  {
    var start := NormalizedBase(base);
    var state := new DetectionState(start);
    var ok := ApplyEach(state, presets);
    if overrides.Some? {
      MergeAllAppend(start, presets, OverridePreset(overrides.value));
      if ok {
        ok := state.ApplyPreset(OverridePreset(overrides.value));
      }
    }
    if !ok {
      return None;
    }
    result := Some(MergeResult(state.Contents(), PresetIds(presets), overrides.Some?, base.disabledEntityTypes));
  }
}
