/**
 What the merge demands, field by field of the three kinds of documents: the base configuration, the presets and the
 overrides (compliance/merge.py).
 */
module PresetFields {
  import opened Options
  import opened PresetMerge

  // ----- One entry of a preset -----

  /** The preset makes `e` mandatory at threshold `t`; where it names none, 0.7 is meant. */
  ghost predicate PresetAsks(p: Preset, e: string, t: real) {
    e in p.mandatoryEntityTypes && t == if e in p.thresholds then p.thresholds[e] else 0.7
  }

  ghost predicate PresetLists(p: Preset, e: string, tier: Tier) {
    e in p.minimumTiers && tier in p.minimumTiers[e]
  }

  ghost predicate SomeAsks(ps: seq<Preset>, e: string, t: real) {
    exists p :: p in ps && PresetAsks(p, e, t)
  }

  ghost predicate SomeLists(ps: seq<Preset>, e: string, tier: Tier) {
    exists p :: p in ps && PresetLists(p, e, tier)
  }

  ghost predicate SomeMandates(ps: seq<Preset>, e: string) {
    exists p :: p in ps && e in p.mandatoryEntityTypes
  }

  ghost predicate SomeHasTiers(ps: seq<Preset>, e: string) {
    exists p :: p in ps && e in p.minimumTiers
  }

  ghost predicate SomeChecks(ps: seq<Preset>, c: string) {
    exists p :: p in ps && c in p.requiresChecksum
  }

  // ----- One preset more -----

  lemma MoreMandates(ps: seq<Preset>, p: Preset, e: string)
    ensures SomeMandates(ps + [p], e) <==> SomeMandates(ps, e) || e in p.mandatoryEntityTypes
    ensures SomeHasTiers(ps + [p], e) <==> SomeHasTiers(ps, e) || e in p.minimumTiers
  {
    assert p in ps + [p];
    forall q | q in ps ensures q in ps + [p] {
    }
  }

  lemma MoreAsks(ps: seq<Preset>, p: Preset, e: string, t: real)
    ensures SomeAsks(ps + [p], e, t) <==> SomeAsks(ps, e, t) || PresetAsks(p, e, t)
  {
    assert p in ps + [p];
    forall q | q in ps ensures q in ps + [p] {
    }
  }

  lemma MoreLists(ps: seq<Preset>, p: Preset, e: string, tier: Tier)
    ensures SomeLists(ps + [p], e, tier) <==> SomeLists(ps, e, tier) || PresetLists(p, e, tier)
  {
    assert p in ps + [p];
    forall q | q in ps ensures q in ps + [p] {
    }
  }

  lemma MoreChecks(ps: seq<Preset>, p: Preset, c: string)
    ensures SomeChecks(ps + [p], c) <==> SomeChecks(ps, c) || c in p.requiresChecksum
  {
    assert p in ps + [p];
    forall q | q in ps ensures q in ps + [p] {
    }
  }

  // ----- Any number of presets over any requirements -----

  lemma {:induction false} MergedTypes(r: Requirements, ps: seq<Preset>, e: string)
    ensures e in MergeAll(r, ps).entityTypes <==> e in r.entityTypes || SomeMandates(ps, e)
    ensures e in MergeAll(r, ps).entityTypes ==>
              MergeAll(r, ps).entityTypes[e] == if e in r.entityTypes then r.entityTypes[e] else REGEX
  {
    if ps != [] {
      var front, p := ps[..|ps| - 1], ps[|ps| - 1];
      assert ps == front + [p];
      MergedTypes(r, front, e);
      MoreMandates(front, p, e);
    }
  }

  /** What `r` starts from counts as asked for; a type that `r` does not have starts at 0.0. */
  ghost predicate Asked(r: Requirements, ps: seq<Preset>, e: string, t: real) {
    t == (if e in r.thresholds then r.thresholds[e] else 0.0) || SomeAsks(ps, e, t)
  }

  /** `m` is the greatest threshold asked for; without one, nothing above the start is asked for. */
  ghost predicate IsGreatestAsked(r: Requirements, ps: seq<Preset>, e: string, m: Option<real>) {
    match m
    case Some(t) => Asked(r, ps, e, t) && forall u :: Asked(r, ps, e, u) ==> u <= t
    case None => forall u :: Asked(r, ps, e, u) ==> u == 0.0
  }

  lemma OneThresholdMore(r: Requirements, m: Requirements, front: seq<Preset>, p: Preset, e: string)
    requires IsGreatestAsked(r, front, e, Get(m.thresholds, e))
    requires e !in m.thresholds ==> e !in r.thresholds
    ensures IsGreatestAsked(r, front + [p], e, Get(Applied(m, p).thresholds, e))
  {
    forall t ensures Asked(r, front + [p], e, t) <==> Asked(r, front, e, t) || PresetAsks(p, e, t) {
      MoreAsks(front, p, e, t);
    }
    if e in p.mandatoryEntityTypes {
      var asked := if e in p.thresholds then p.thresholds[e] else 0.7;
      assert PresetAsks(p, e, asked);
      assert Get(Applied(m, p).thresholds, e) == Some(RealMax(Get(m.thresholds, e).GetOr(0.0), asked));
    } else {
      assert Get(Applied(m, p).thresholds, e) == Get(m.thresholds, e);
    }
  }

  lemma {:induction false} MergedThresholds(r: Requirements, ps: seq<Preset>, e: string)
    ensures e in MergeAll(r, ps).thresholds <==> e in r.thresholds || SomeMandates(ps, e)
    ensures IsGreatestAsked(r, ps, e, Get(MergeAll(r, ps).thresholds, e))
  {
    if ps != [] {
      var front, p := ps[..|ps| - 1], ps[|ps| - 1];
      assert ps == front + [p];
      MergedThresholds(r, front, e);
      MoreMandates(front, p, e);
      OneThresholdMore(r, MergeAll(r, front), front, p, e);
    }
  }

  /** The tier list as it is, or what somebody lists on top of it. */
  ghost predicate Listed(r: Requirements, ps: seq<Preset>, e: string, tier: Tier) {
    (e in r.minimumTiers && tier in r.minimumTiers[e]) || SomeLists(ps, e, tier)
  }

  /** The list runs `tier`, itself or through `BOTH`. */
  predicate RunsTier(tiers: seq<Tier>, tier: Tier) {
    tier in tiers || BOTH in tiers
  }

  lemma MergeTiersRuns(a: seq<Tier>, b: seq<Tier>)
    ensures forall tier :: tier != BOTH ==> (RunsTier(MergeTiers(a, b), tier) <==> RunsTier(a, tier) || RunsTier(b, tier))
    ensures MergeTiers(a, b) in [[REGEX, NER], [NER], [REGEX], []]
  {
  }

  lemma {:induction false} MergedTierLists(r: Requirements, ps: seq<Preset>, e: string)
    ensures var m := MergeAll(r, ps).minimumTiers;
            && (e in m <==> e in r.minimumTiers || SomeHasTiers(ps, e))
            && (e in m && !SomeHasTiers(ps, e) ==> m[e] == r.minimumTiers[e])
            && (SomeHasTiers(ps, e) ==> m[e] in [[REGEX, NER], [NER], [REGEX], []])
            && (e in m ==> forall tier :: tier != BOTH ==>
                  (RunsTier(m[e], tier) <==> Listed(r, ps, e, tier) || Listed(r, ps, e, BOTH)))
            && (e !in m ==> forall tier :: !Listed(r, ps, e, tier))
  {
    if ps != [] {
      var front, p := ps[..|ps| - 1], ps[|ps| - 1];
      assert ps == front + [p];
      MergedTierLists(r, front, e);
      MoreMandates(front, p, e);
      forall tier ensures Listed(r, ps, e, tier) <==> Listed(r, front, e, tier) || PresetLists(p, e, tier) {
        MoreLists(front, p, e, tier);
      }
      if e in p.minimumTiers {
        MergeTiersRuns(Get(MergeAll(r, front).minimumTiers, e).GetOr([]), p.minimumTiers[e]);
      }
    }
  }

  lemma {:induction false} MergedChecksums(r: Requirements, ps: seq<Preset>, c: string)
    ensures c in MergeAll(r, ps).checksums <==> c in r.checksums || SomeChecks(ps, c)
  {
    if ps != [] {
      var front, p := ps[..|ps| - 1], ps[|ps| - 1];
      assert ps == front + [p];
      MergedChecksums(r, front, c);
      MoreChecks(front, p, c);
    }
  }

  // ----- The documents -----

  /** The keys of an entry in the order they are looked for, and what is meant if both are absent. */
  ghost predicate EntryAsks(config: EntityConfig, absent: real, t: real) {
    match config.confidenceThreshold
    case Some(c) => t == c
    case None =>
      match config.threshold
      case Some(u) => t == u
      case None => t == absent
  }

  ghost predicate BaseAsks(base: BaseConfig, e: string, t: real) {
    if e in base.entityTypes then EntryAsks(base.entityTypes[e], 0.7, t) else t == 0.0
  }

  ghost predicate OverridesAsk(overrides: Option<Overrides>, e: string, t: real) {
    overrides.Some? && e in overrides.value.entityTypes && EntryAsks(overrides.value.entityTypes[e], 0.0, t)
  }

  /** Some document asks for threshold `t` for `e`. */
  ghost predicate DocumentsAsk(base: BaseConfig, presets: seq<Preset>, overrides: Option<Overrides>, e: string, t: real) {
    BaseAsks(base, e, t) || SomeAsks(presets, e, t) || OverridesAsk(overrides, e, t)
  }

  ghost predicate Mentioned(base: BaseConfig, presets: seq<Preset>, overrides: Option<Overrides>, e: string) {
    || e in base.entityTypes || SomeMandates(presets, e)
    || (overrides.Some? && e in overrides.value.entityTypes)
  }

  /** The tier of a base entry; without one, `REGEX` is meant. */
  ghost predicate BaseLists(base: BaseConfig, e: string, tier: Tier) {
    e in base.entityTypes && (base.entityTypes[e].tier == Some(tier) || (base.entityTypes[e].tier.None? && tier == REGEX))
  }

  ghost predicate OverridesList(overrides: Option<Overrides>, e: string, tier: Tier) {
    overrides.Some? && e in overrides.value.entityTypes && overrides.value.entityTypes[e].tier == Some(tier)
  }

  ghost predicate DocumentsList(base: BaseConfig, presets: seq<Preset>, overrides: Option<Overrides>, e: string, tier: Tier) {
    BaseLists(base, e, tier) || SomeLists(presets, e, tier) || OverridesList(overrides, e, tier)
  }

  /** As in a parsed document: the listed names are the keys. */
  ghost predicate NamesAreKeys(overrides: Option<Overrides>) {
    overrides.Some? ==> forall e :: e in overrides.value.names <==> e in overrides.value.entityTypes
  }

  lemma OverrideIsAPreset(o: Overrides, e: string, t: real, tier: Tier, c: string)
    requires NamesAreKeys(Some(o))
    ensures var p := OverridePreset(o);
            && (e in p.mandatoryEntityTypes <==> e in o.entityTypes)
            && (PresetAsks(p, e, t) <==> OverridesAsk(Some(o), e, t))
            && (PresetLists(p, e, tier) <==> OverridesList(Some(o), e, tier))
            && (e in p.minimumTiers <==> e in o.entityTypes && o.entityTypes[e].tier.Some?)
            && (c in p.requiresChecksum <==> c in o.requiresChecksum)
  {
  }

  /** The overrides count as one preset more. */
  lemma AllPresetsAsk(presets: seq<Preset>, overrides: Option<Overrides>, e: string, t: real, tier: Tier, c: string)
    requires NamesAreKeys(overrides)
    ensures var all := AllPresets(presets, overrides);
            && (SomeAsks(all, e, t) <==> SomeAsks(presets, e, t) || OverridesAsk(overrides, e, t))
            && (SomeLists(all, e, tier) <==> SomeLists(presets, e, tier) || OverridesList(overrides, e, tier))
            && (SomeMandates(all, e) <==> SomeMandates(presets, e) || (overrides.Some? && e in overrides.value.entityTypes))
            && (SomeHasTiers(all, e) <==>
                  || SomeHasTiers(presets, e)
                  || (overrides.Some? && e in overrides.value.entityTypes && overrides.value.entityTypes[e].tier.Some?))
            && (SomeChecks(all, c) <==> SomeChecks(presets, c) || (overrides.Some? && c in overrides.value.requiresChecksum))
  {
    if overrides.Some? {
      var p := OverridePreset(overrides.value);
      OverrideIsAPreset(overrides.value, e, t, tier, c);
      MoreAsks(presets, p, e, t);
      MoreLists(presets, p, e, tier);
      MoreMandates(presets, p, e);
      MoreChecks(presets, p, c);
    }
  }

  lemma BaseIsNormalized(base: BaseConfig, e: string, t: real, tier: Tier)
    ensures var r := NormalizedBase(base);
            && (e in r.thresholds <==> e in base.entityTypes) && (e in r.entityTypes <==> e in base.entityTypes)
            && (e in r.minimumTiers <==> e in base.entityTypes)
            && (BaseAsks(base, e, t) <==> t == if e in r.thresholds then r.thresholds[e] else 0.0)
            && (BaseLists(base, e, tier) <==> e in r.minimumTiers && tier in r.minimumTiers[e])
            && (BaseLists(base, e, tier) <==> e in r.entityTypes && r.entityTypes[e] == tier)
            && r.checksums == base.requiresChecksum
  {
  }

  /**
   The merged threshold of a type is the greatest that any document asks for, and exactly the types that some document
   mentions have one; a type that the base does not have starts at 0.0.
   */
  lemma ThresholdIsTheGreatestAsked(base: BaseConfig, presets: seq<Preset>, overrides: Option<Overrides>, e: string)
    requires NamesAreKeys(overrides)
    ensures var m := Merged(base, presets, overrides).thresholds;
            && (e in m <==> Mentioned(base, presets, overrides, e))
            && (e in m ==>
                  && DocumentsAsk(base, presets, overrides, e, m[e])
                  && forall t :: DocumentsAsk(base, presets, overrides, e, t) ==> t <= m[e])
  {
    var r, all := NormalizedBase(base), AllPresets(presets, overrides);
    MergedThresholds(r, all, e);
    AllPresetsAsk(presets, overrides, e, 0.0, REGEX, "");
    forall t ensures Asked(r, all, e, t) <==> DocumentsAsk(base, presets, overrides, e, t) {
      AllPresetsAsk(presets, overrides, e, t, REGEX, "");
      BaseIsNormalized(base, e, t, REGEX);
    }
    BaseIsNormalized(base, e, 0.0, REGEX);
  }

  /** Exactly the mentioned types are detected, each with the base's own tier, or `REGEX` if the base names none. */
  lemma TypesAreTheMentioned(base: BaseConfig, presets: seq<Preset>, overrides: Option<Overrides>, e: string)
    requires NamesAreKeys(overrides)
    ensures var m := Merged(base, presets, overrides).entityTypes;
            && (e in m <==> Mentioned(base, presets, overrides, e))
            && (e in m ==> if e in base.entityTypes then BaseLists(base, e, m[e]) else m[e] == REGEX)
  {
    var r := NormalizedBase(base);
    MergedTypes(r, AllPresets(presets, overrides), e);
    AllPresetsAsk(presets, overrides, e, 0.0, REGEX, "");
    BaseIsNormalized(base, e, 0.0, REGEX);
    if e in r.entityTypes {
      BaseIsNormalized(base, e, 0.0, r.entityTypes[e]);
    }
  }

  /**
   The tiers that must run for a type: those that any document lists, `BOTH` standing for the two others.  Only the
   base's own entry, if nobody adds to it, keeps a `BOTH` spelled as such.
   */
  lemma TiersAreTheListed(base: BaseConfig, presets: seq<Preset>, overrides: Option<Overrides>, e: string)
    requires NamesAreKeys(overrides)
    ensures var m := Merged(base, presets, overrides).minimumTiers;
            var added := || SomeHasTiers(presets, e)
                         || (overrides.Some? && e in overrides.value.entityTypes && overrides.value.entityTypes[e].tier.Some?);
            && (e in m <==> e in base.entityTypes || added)
            && (e in m ==> forall tier :: tier != BOTH ==>
                  (RunsTier(m[e], tier) <==>
                     DocumentsList(base, presets, overrides, e, tier) || DocumentsList(base, presets, overrides, e, BOTH)))
            && (added ==> m[e] in [[REGEX, NER], [NER], [REGEX], []])
            && (e in m && !added ==> |m[e]| == 1 && BaseLists(base, e, m[e][0]))
  {
    var r, all := NormalizedBase(base), AllPresets(presets, overrides);
    MergedTierLists(r, all, e);
    AllPresetsAsk(presets, overrides, e, 0.0, REGEX, "");
    forall tier ensures Listed(r, all, e, tier) <==> DocumentsList(base, presets, overrides, e, tier) {
      AllPresetsAsk(presets, overrides, e, 0.0, tier, "");
      BaseIsNormalized(base, e, 0.0, tier);
    }
    if e in r.minimumTiers {
      BaseIsNormalized(base, e, 0.0, r.minimumTiers[e][0]);
    }
  }

  /** The checksums of all documents together. */
  lemma ChecksumsAreAll(base: BaseConfig, presets: seq<Preset>, overrides: Option<Overrides>, c: string)
    requires NamesAreKeys(overrides)
    ensures c in Merged(base, presets, overrides).checksums <==>
            || c in base.requiresChecksum || SomeChecks(presets, c)
            || (overrides.Some? && c in overrides.value.requiresChecksum)
  {
    MergedChecksums(NormalizedBase(base), AllPresets(presets, overrides), c);
    AllPresetsAsk(presets, overrides, "", 0.0, REGEX, c);
  }
}
