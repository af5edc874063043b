/**
 Start-up validation of the merged requirements (compliance/validation.py).

 The main result says exactly which violations the validator reports for a merge result, in order and with
 multiplicity.  It shows that a preset which lists `BOTH` for a mandatory type can never be satisfied.
 */
module PresetValidation {
  import opened Options
  import opened PresetMerge
  import opened PresetLaws

  datatype ViolationType = MissingType | LowThreshold | MissingTier | MissingChecksum

  datatype Violation = Violation(presetId: string, entityType: string, violationType: ViolationType)

  function HasEntity(config: MergeResult, e: string): bool {
    e !in config.disabledEntityTypes && e in config.merged.entityTypes
  }

  function ThresholdFor(config: MergeResult, e: string): real {
    Get(config.merged.thresholds, e).GetOr(0.0)
  }

  function TiersFor(config: MergeResult, e: string): seq<Tier> {
    Get(config.merged.minimumTiers, e).GetOr([])
  }

  predicate SubsetOf(required: seq<Tier>, actual: seq<Tier>) {
    forall t :: t in required ==> t in actual
  }

  /** What the validator reports for one mandatory type of one preset. */
  function ViolationsOf(p: Preset, e: string, config: MergeResult): seq<Violation> {
    if !HasEntity(config, e) then [Violation(p.id, e, MissingType)]
    else
      (if e in p.thresholds && ThresholdFor(config, e) < p.thresholds[e]
       then [Violation(p.id, e, LowThreshold)] else [])
      + (if !SubsetOf(Get(p.minimumTiers, e).GetOr([]), TiersFor(config, e))
         then [Violation(p.id, e, MissingTier)] else [])
      + (if e in p.requiresChecksum && e !in config.merged.checksums
         then [Violation(p.id, e, MissingChecksum)] else [])
  }

  function Collect(p: Preset, types: seq<string>, report: (Preset, string) -> seq<Violation>): seq<Violation> {
    if types == [] then [] else Collect(p, types[..|types| - 1], report) + report(p, types[|types| - 1])
  }

  function CollectAll(presets: seq<Preset>, report: (Preset, string) -> seq<Violation>): seq<Violation> {
    if presets == [] then []
    else
      var p := presets[|presets| - 1];
      CollectAll(presets[..|presets| - 1], report) + Collect(p, p.mandatoryEntityTypes, report)
  }

  function Reporter(config: MergeResult): (Preset, string) -> seq<Violation> {
    (p: Preset, e: string) => ViolationsOf(p, e, config)
  }

  /** The body of the inner loop. */
  method CheckType(p: Preset, e: string, config: MergeResult, before: seq<Violation>) returns (violations: seq<Violation>)
    ensures violations == before + ViolationsOf(p, e, config)
  {
    violations := before;
    if !HasEntity(config, e) {
      violations := violations + [Violation(p.id, e, MissingType)];
      return;
    }
    if e in p.thresholds && ThresholdFor(config, e) < p.thresholds[e] {
      violations := violations + [Violation(p.id, e, LowThreshold)];
    }
    var required := Get(p.minimumTiers, e).GetOr([]);
    if required != [] && !SubsetOf(required, TiersFor(config, e)) {
      violations := violations + [Violation(p.id, e, MissingTier)];
    }
    if e in p.requiresChecksum && e !in config.merged.checksums {
      violations := violations + [Violation(p.id, e, MissingChecksum)];
    }
  }

  method ValidateEffectiveConfig(activePresets: seq<Preset>, config: MergeResult) returns (violations: seq<Violation>)
    ensures violations == CollectAll(activePresets, Reporter(config))
  {
    violations := [];
    ghost var report := Reporter(config);
    for i := 0 to |activePresets|
      invariant violations == CollectAll(activePresets[..i], report)
    {
      var p := activePresets[i];
      ghost var before := violations;
      for j := 0 to |p.mandatoryEntityTypes|
        invariant violations == before + Collect(p, p.mandatoryEntityTypes[..j], report)
      {
        var e := p.mandatoryEntityTypes[j];
        CollectStep(p, p.mandatoryEntityTypes, j, report);
        violations := CheckType(p, e, config, violations);
      }
      assert p.mandatoryEntityTypes[..|p.mandatoryEntityTypes|] == p.mandatoryEntityTypes;
      CollectAllStep(activePresets, i, report);
    }
    assert activePresets[..|activePresets|] == activePresets;
  }

  lemma CollectAllStep(presets: seq<Preset>, i: nat, report: (Preset, string) -> seq<Violation>)
    requires i < |presets|
    ensures CollectAll(presets[..i + 1], report)
         == CollectAll(presets[..i], report) + Collect(presets[i], presets[i].mandatoryEntityTypes, report)
  {
    assert presets[..i + 1][..i] == presets[..i];
  }

  lemma CollectStep(p: Preset, types: seq<string>, j: nat, report: (Preset, string) -> seq<Violation>)
    requires j < |types|
    ensures Collect(p, types[..j + 1], report) == Collect(p, types[..j], report) + report(p, types[j])
  {
    assert types[..j + 1][..j] == types[..j];
  }

  // ----- What is reported, for any configuration -----

  predicate IsPresent(config: MergeResult, e: string) {
    e in config.merged.entityTypes && !(e in config.disabledEntityTypes)
  }

  /** The preset's demand on `e` that the configuration does not meet; a missing type has no further shortcomings. */
  ghost predicate Lacks(p: Preset, e: string, config: MergeResult, kind: ViolationType) {
    match kind
    case MissingType => !IsPresent(config, e)
    case LowThreshold =>
      && IsPresent(config, e) && e in p.thresholds
      && if e in config.merged.thresholds then config.merged.thresholds[e] < p.thresholds[e] else 0.0 < p.thresholds[e]
    case MissingTier =>
      && IsPresent(config, e) && e in p.minimumTiers
      && exists t :: t in p.minimumTiers[e] && !(e in config.merged.minimumTiers && t in config.merged.minimumTiers[e])
    case MissingChecksum =>
      IsPresent(config, e) && e in p.requiresChecksum && !(e in config.merged.checksums)
  }

  lemma ReportedForOne(p: Preset, e: string, config: MergeResult, v: Violation)
    ensures v in ViolationsOf(p, e, config) <==>
            v.presetId == p.id && v.entityType == e && Lacks(p, e, config, v.violationType)
  {
  }

  lemma {:induction false} ReportedForPreset(p: Preset, types: seq<string>, config: MergeResult, v: Violation)
    ensures v in Collect(p, types, Reporter(config)) <==>
            exists e :: e in types && v.presetId == p.id && v.entityType == e && Lacks(p, e, config, v.violationType)
  {
    if types != [] {
      var front, e := types[..|types| - 1], types[|types| - 1];
      assert types == front + [e];
      ReportedForPreset(p, front, config, v);
      ReportedForOne(p, e, config, v);
    }
  }

  /** A violation is reported exactly if some preset makes its type mandatory and lacks what the violation names. */
  lemma {:induction false} ReportedIff(presets: seq<Preset>, config: MergeResult, v: Violation)
    ensures v in CollectAll(presets, Reporter(config)) <==>
            exists p :: p in presets && v.presetId == p.id && v.entityType in p.mandatoryEntityTypes
                        && Lacks(p, v.entityType, config, v.violationType)
  {
    if presets != [] {
      var front, p := presets[..|presets| - 1], presets[|presets| - 1];
      assert presets == front + [p];
      ReportedIff(front, config, v);
      ReportedForPreset(p, p.mandatoryEntityTypes, config, v);
    }
  }

  // ----- What validation says about a merge -----

  /** The reference: only disabled types and tier lists that name `BOTH` are ever reported. */
  function ExpectedFor(disabled: set<string>): (Preset, string) -> seq<Violation> {
    (p: Preset, e: string) =>
      if e in disabled then [Violation(p.id, e, MissingType)]
      else if BOTH in Get(p.minimumTiers, e).GetOr([]) then [Violation(p.id, e, MissingTier)]
      else []
  }

  ghost predicate IsMergeOf(config: MergeResult, base: BaseConfig, presets: seq<Preset>, overrides: Option<Overrides>) {
    config.merged == Merged(base, presets, overrides) && config.disabledEntityTypes == base.disabledEntityTypes
  }

  /** Requirements that a preset no longer changes already meet it, except for a required `BOTH`. */
  lemma AbsorbedPresetIsMet(r: Requirements, p: Preset, e: string)
    requires Applied(r, p) == r && e in p.mandatoryEntityTypes
    ensures e in r.entityTypes
    ensures e in p.thresholds ==> p.thresholds[e] <= Get(r.thresholds, e).GetOr(0.0)
    ensures p.requiresChecksum <= r.checksums
    ensures SubsetOf(Get(p.minimumTiers, e).GetOr([]), Get(r.minimumTiers, e).GetOr([]))
       <==> BOTH !in Get(p.minimumTiers, e).GetOr([])
  {
    AppliedAt(r, p, e);
    if e in p.minimumTiers {
      MergedTierMembers(Get(r.minimumTiers, e).GetOr([]), p.minimumTiers[e]);
      forall t | t in p.minimumTiers[e] && t != BOTH
        ensures t in MergedTiers(r, p, e)
      {
        assert t == REGEX || t == NER;
      }
    }
  }

  lemma OneTypeOfAMerge(
    base: BaseConfig, presets: seq<Preset>, overrides: Option<Overrides>, config: MergeResult, p: Preset, e: string)
    requires IsMergeOf(config, base, presets, overrides)
    requires p in presets && e in p.mandatoryEntityTypes
    ensures ViolationsOf(p, e, config) == ExpectedFor(base.disabledEntityTypes)(p, e)
  {
    assert p in AllPresets(presets, overrides);
    ActivePresetIsAbsorbed(NormalizedBase(base), AllPresets(presets, overrides), p);
    OneAbsorbedType(config, p, e);
  }

  lemma OneAbsorbedType(config: MergeResult, p: Preset, e: string)
    requires Applied(config.merged, p) == config.merged && e in p.mandatoryEntityTypes
    ensures ViolationsOf(p, e, config) == ExpectedFor(config.disabledEntityTypes)(p, e)
  {
    AbsorbedPresetIsMet(config.merged, p, e);
  }

  lemma {:induction false} CollectAgrees(
    p: Preset, types: seq<string>, f: (Preset, string) -> seq<Violation>, g: (Preset, string) -> seq<Violation>)
    requires forall e :: e in types ==> f(p, e) == g(p, e)
    ensures Collect(p, types, f) == Collect(p, types, g)
  {
    if types == [] {
    } else {
      CollectAgrees(p, types[..|types| - 1], f, g);
    }
  }

  lemma {:induction false} CollectAllAgrees(
    presets: seq<Preset>, f: (Preset, string) -> seq<Violation>, g: (Preset, string) -> seq<Violation>)
    requires forall p, e :: p in presets && e in p.mandatoryEntityTypes ==> f(p, e) == g(p, e)
    ensures CollectAll(presets, f) == CollectAll(presets, g)
  {
    if presets == [] {
    } else {
      var p := presets[|presets| - 1];
      assert p in presets;
      CollectAllAgrees(presets[..|presets| - 1], f, g);
      CollectAgrees(p, p.mandatoryEntityTypes, f, g);
    }
  }

  /**
   Validating a merge against its own presets reports `missing_type` for each disabled mandatory type and
   `missing_tier` for each other mandatory type whose preset lists `BOTH`, and nothing else.
   */
  lemma MergeViolationsAreExactly(
    base: BaseConfig, presets: seq<Preset>, overrides: Option<Overrides>, config: MergeResult)
    requires IsMergeOf(config, base, presets, overrides)
    ensures CollectAll(presets, Reporter(config)) == CollectAll(presets, ExpectedFor(base.disabledEntityTypes))
  {
    forall p, e | p in presets && e in p.mandatoryEntityTypes
      ensures Reporter(config)(p, e) == ExpectedFor(base.disabledEntityTypes)(p, e)
    {
      OneTypeOfAMerge(base, presets, overrides, config, p, e);
    }
    CollectAllAgrees(presets, Reporter(config), ExpectedFor(base.disabledEntityTypes));
  }

  /** A preset is satisfiable when no mandatory type is disabled and none is required at `BOTH`. */
  ghost predicate Satisfiable(disabled: set<string>, presets: seq<Preset>) {
    forall p, e :: p in presets && e in p.mandatoryEntityTypes ==>
      e !in disabled && BOTH !in Get(p.minimumTiers, e).GetOr([])
  }

  lemma {:induction false} CollectIsEmptyIff(p: Preset, types: seq<string>, f: (Preset, string) -> seq<Violation>)
    ensures Collect(p, types, f) == [] <==> forall e :: e in types ==> f(p, e) == []
  {
    if types == [] {
    } else {
      var front, e := types[..|types| - 1], types[|types| - 1];
      CollectIsEmptyIff(p, front, f);
      assert types == front + [e];
    }
  }

  lemma {:induction false} CollectAllIsEmptyIff(presets: seq<Preset>, f: (Preset, string) -> seq<Violation>)
    ensures CollectAll(presets, f) == []
       <==> forall p, e :: p in presets && e in p.mandatoryEntityTypes ==> f(p, e) == []
  {
    if presets == [] {
    } else {
      var front, p := presets[..|presets| - 1], presets[|presets| - 1];
      CollectAllIsEmptyIff(front, f);
      CollectIsEmptyIff(p, p.mandatoryEntityTypes, f);
      assert presets == front + [p];
    }
  }

  /** Start-up succeeds exactly when every active preset is satisfiable, whatever the overrides say. */
  lemma MergeIsCompliantIff(
    base: BaseConfig, presets: seq<Preset>, overrides: Option<Overrides>, config: MergeResult)
    requires IsMergeOf(config, base, presets, overrides)
    ensures CollectAll(presets, Reporter(config)) == [] <==> Satisfiable(base.disabledEntityTypes, presets)
  {
    MergeViolationsAreExactly(base, presets, overrides, config);
    var expected := ExpectedFor(base.disabledEntityTypes);
    CollectAllIsEmptyIff(presets, expected);
    forall p, e | p in presets && e in p.mandatoryEntityTypes
      ensures expected(p, e) == []
         <==> e !in base.disabledEntityTypes && BOTH !in Get(p.minimumTiers, e).GetOr([])
    {
    }
  }
}
