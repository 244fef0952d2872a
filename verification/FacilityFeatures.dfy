// Which features are on at a facility: statewide defaults, the facility's own settings, and the rule
// that a page-level feature is never on without the feature it belongs to.
module FacilityFeatures {
  import opened Prelude

  datatype Feature =
    | OpenContent | ProviderPlatforms | ProgramManagement | LearningRecord
    | RequestContent | HelpfulLinks | UploadVideo | ResidentPrograms
    | Unknown(name: string)

  const ALL_FEATURES: seq<Feature> := [
    OpenContent, ProviderPlatforms, ProgramManagement, LearningRecord,
    RequestContent, HelpfulLinks, UploadVideo, ResidentPrograms]

  function Parent(f: Feature): Option<Feature> {
    match f
    case RequestContent => Some(OpenContent)
    case HelpfulLinks => Some(OpenContent)
    case UploadVideo => Some(OpenContent)
    case ResidentPrograms => Some(ProgramManagement)
    case _ => None
  }

  predicate Known(f: Feature) {
    !f.Unknown?
  }

  lemma ListedExactly(f: Feature)
    ensures f in ALL_FEATURES <==> Known(f)
  {
    assert ALL_FEATURES[0] == OpenContent && ALL_FEATURES[1] == ProviderPlatforms
        && ALL_FEATURES[2] == ProgramManagement
           && ALL_FEATURES[3] == LearningRecord && ALL_FEATURES[4] == RequestContent && ALL_FEATURES[5] == HelpfulLinks
           && ALL_FEATURES[6] == UploadVideo && ALL_FEATURES[7] == ResidentPrograms;
  }

  /** Rows of facility_feature_flags by primary key. */
  type Flags = map<(nat, Feature), bool>

  /** The state before the parent rule: the facility's own row, or else the statewide default. */
  predicate Resolved(flags: Flags, facility: nat, defaults: seq<Feature>, f: Feature) {
    if (facility, f) in flags then flags[(facility, f)] else f in defaults
  }

  predicate IsEffective(flags: Flags, facility: nat, defaults: seq<Feature>, f: Feature) {
    && Known(f)
    && Resolved(flags, facility, defaults, f)
    && (Parent(f).Some? ==> Resolved(flags, facility, defaults, Parent(f).value))
  }

  function EffectiveIn(flags: Flags, facility: nat, defaults: seq<Feature>): Feature -> bool {
    f => IsEffective(flags, facility, defaults, f)
  }

  function Effective(flags: Flags, facility: nat, defaults: seq<Feature>): seq<Feature> {
    Filter(ALL_FEATURES, EffectiveIn(flags, facility, defaults))
  }

  lemma EffectiveExactly(flags: Flags, facility: nat, defaults: seq<Feature>, f: Feature)
    ensures f in Effective(flags, facility, defaults) <==> IsEffective(flags, facility, defaults, f)
  {
    ListedExactly(f);
  }

  /** A sub-feature may be switched on only where its parent is effective. */
  predicate MayUpsert(flags: Flags, facility: nat, feature: Feature, enabled: bool, defaults: seq<Feature>) {
    Known(feature)
      && (enabled && Parent(feature).Some? ==> Parent(feature).value in Effective(flags, facility, defaults))
  }

  function Keys(ids: set<nat>): set<(nat, Feature)> {
    set id, f | id in ids && f in ALL_FEATURES :: (id, f)
  }

  lemma KeysExactly(ids: set<nat>)
    ensures forall id, f :: (id, f) in Keys(ids) <==> id in ids && Known(f)
  {
    forall f {
      ListedExactly(f);
    }
  }

  /** The rows written for some facilities: each feature as it is effective at the source. */
  function Copied(ids: set<nat>, effective: seq<Feature>): Flags {
    map key | key in Keys(ids) :: key.1 in effective
  }

  function ApplyToAll(flags: Flags, facilities: set<nat>, source: nat, defaults: seq<Feature>): Flags {
    flags + Copied(facilities - {source}, Effective(flags, source, defaults))
  }

  /** On by the facility's own row, or by the statewide defaults where it has none. */
  predicate IsOn(flags: Flags, facility: nat, defaults: seq<Feature>, f: Feature) {
    || ((facility, f) in flags && flags[(facility, f)])
    || ((facility, f) !in flags && f in defaults)
  }

  /** A known feature that is on, and so is the one it belongs to. */
  predicate IsOnWithParent(flags: Flags, facility: nat, defaults: seq<Feature>, f: Feature) {
    && !f.Unknown? && IsOn(flags, facility, defaults, f)
    && (f in {RequestContent, HelpfulLinks, UploadVideo} ==> IsOn(flags, facility, defaults, OpenContent))
    && (f == ResidentPrograms ==> IsOn(flags, facility, defaults, ProgramManagement))
  }

  lemma EffectiveAre(flags: Flags, facility: nat, defaults: seq<Feature>)
    ensures forall f :: f in Effective(flags, facility, defaults) <==> IsOnWithParent(flags, facility, defaults, f)
    ensures forall f | f in Effective(flags, facility, defaults) && Parent(f).Some? ::
              Parent(f).value in Effective(flags, facility, defaults)
  {
    forall f
      ensures f in Effective(flags, facility, defaults) <==> IsEffective(flags, facility, defaults, f)
      ensures IsEffective(flags, facility, defaults, f) <==> IsOnWithParent(flags, facility, defaults, f)
      ensures IsEffective(flags, facility, defaults, f) && Parent(f).Some? ==>
                IsEffective(flags, facility, defaults, Parent(f).value)
    {
      EffectiveExactly(flags, facility, defaults, f);
      EffectiveIsOn(flags, facility, defaults, f);
    }
  }

  lemma EffectiveIsOn(flags: Flags, facility: nat, defaults: seq<Feature>, f: Feature)
    ensures IsEffective(flags, facility, defaults, f) <==> IsOnWithParent(flags, facility, defaults, f)
    ensures IsEffective(flags, facility, defaults, f) && Parent(f).Some? ==>
              IsEffective(flags, facility, defaults, Parent(f).value)
  {
    assert forall g :: Resolved(flags, facility, defaults, g) == IsOn(flags, facility, defaults, g);
  }

  class FeatureTable {
    var facilities: set<nat>
    var flags: Flags

    constructor (ids: set<nat>)
      ensures facilities == ids && flags == map[]
    {
      facilities, flags := ids, map[];
    }

    method ResolveFeatures(facility: nat, defaults: seq<Feature>) returns (states: map<Feature, bool>)
      ensures forall f :: f in states <==> f in ALL_FEATURES
      ensures forall f | f in states :: states[f] == Resolved(flags, facility, defaults, f)
    {
      states := map[];
      for i := 0 to |ALL_FEATURES|
        invariant forall f :: f in states <==> f in ALL_FEATURES[..i]
        invariant forall f | f in states :: states[f] == Resolved(flags, facility, defaults, f)
      {
        var f := ALL_FEATURES[i];
        assert ALL_FEATURES[..i + 1] == ALL_FEATURES[..i] + [f];
        if (facility, f) in flags {
          states := states[f := flags[(facility, f)]];
        } else {
          states := states[f := f in defaults];
        }
      }
      assert ALL_FEATURES[..|ALL_FEATURES|] == ALL_FEATURES;
    }

    method GetFacilityFeatureAccess(facility: nat, defaults: seq<Feature>) returns (effective: seq<Feature>)
      ensures effective == Effective(flags, facility, defaults)
      ensures forall f :: f in effective <==> IsOnWithParent(flags, facility, defaults, f)
      ensures forall f | f in effective && Parent(f).Some? :: Parent(f).value in effective
    {
      var enabled := ResolveFeatures(facility, defaults);
      effective := [];
      for i := 0 to |ALL_FEATURES|
        invariant effective == Filter(ALL_FEATURES[..i], EffectiveIn(flags, facility, defaults))
      {
        var f := ALL_FEATURES[i];
        FilterSnoc(ALL_FEATURES, i, EffectiveIn(flags, facility, defaults));
        if enabled[f] && (Parent(f).None? || (Parent(f).value in enabled && enabled[Parent(f).value])) {
          effective := effective + [f];
        }
      }
      assert ALL_FEATURES[..|ALL_FEATURES|] == ALL_FEATURES;
      EffectiveAre(flags, facility, defaults);
    }

    method UpsertFacilityFeatureFlag(facility: nat, feature: Feature, enabled: bool, defaults: seq<Feature>)
        returns (ok: bool)
      modifies this`flags
      ensures ok <==> MayUpsert(old(flags), facility, feature, enabled, defaults)
      ensures ok <==>
                && !feature.Unknown?
                && (enabled && feature in {RequestContent, HelpfulLinks, UploadVideo} ==>
                      IsOn(old(flags), facility, defaults, OpenContent))
                && (enabled && feature == ResidentPrograms ==> IsOn(old(flags), facility, defaults, ProgramManagement))
      ensures flags == if ok then old(flags)[(facility, feature) := enabled] else old(flags)
    {
      ListedExactly(feature);
      if feature !in ALL_FEATURES {
        return false;
      }
      if enabled && Parent(feature).Some? {
        var effective := GetFacilityFeatureAccess(facility, defaults);
        if Parent(feature).value !in effective {
          return false;
        }
      }
      flags := flags[(facility, feature) := enabled];
      ok := true;
    }

    /** An unknown source is refused before anything is written. */
    method ApplyFacilityFeaturesToAll(source: nat, defaults: seq<Feature>) returns (ok: bool)
      modifies this`flags
      ensures ok <==> source in facilities
      ensures flags == if ok then ApplyToAll(old(flags), facilities, source, defaults) else old(flags)
    {
      if source !in facilities {
        return false;
      }
      var effective := GetFacilityFeatureAccess(source, defaults);
      var rows := RowsFor(facilities - {source}, effective);
      flags := flags + rows;
      ok := true;
    }
  }

  method RowsFor(ids: set<nat>, effective: seq<Feature>) returns (rows: Flags)
    ensures rows == Copied(ids, effective)
  {
    rows := map[];
    var rest := ids;
    while rest != {}
      invariant rest <= ids
      invariant rows == Copied(ids - rest, effective)
      decreases rest
    {
      var id :| id in rest;
      CopiedOneMore(ids - rest, id, effective);
      assert ids - rest + {id} == ids - (rest - {id});
      rows := rows + Copied({id}, effective);
      rest := rest - {id};
    }
    assert ids - rest == ids;
  }

  lemma CopiedOneMore(ids: set<nat>, id: nat, effective: seq<Feature>)
    ensures Copied(ids, effective) + Copied({id}, effective) == Copied(ids + {id}, effective)
  {
    KeysExactly(ids);
    KeysExactly({id});
    KeysExactly(ids + {id});
    assert Keys(ids + {id}) == Keys(ids) + Keys({id});
  }

  // ----- guarantees

  /** What a successful upsert does to what is effective: the feature is as set, its sub-features are
      off with it or as the facility has them, and nothing else changes, here or elsewhere. */
  lemma UpsertExactly(
    flags: Flags, facility: nat, feature: Feature, enabled: bool, defaults: seq<Feature>, other: nat, f: Feature)
    requires MayUpsert(flags, facility, feature, enabled, defaults)
    ensures f in Effective(flags[(facility, feature) := enabled], other, defaults) <==>
              if other == facility && f == feature then enabled
              else if other == facility && Parent(f) == Some(feature)
                then enabled && Resolved(flags, other, defaults, f)
              else f in Effective(flags, other, defaults)
  {
    var flags' := flags[(facility, feature) := enabled];
    EffectiveExactly(flags', other, defaults, f);
    EffectiveExactly(flags, other, defaults, f);
    UpsertEffect(flags, facility, feature, enabled, defaults, other, f);
  }

  lemma UpsertEffect(
    flags: Flags, facility: nat, feature: Feature, enabled: bool, defaults: seq<Feature>, other: nat, f: Feature)
    requires MayUpsert(flags, facility, feature, enabled, defaults)
    ensures IsEffective(flags[(facility, feature) := enabled], other, defaults, f) <==>
              if other == facility && f == feature then enabled
              else if other == facility && Parent(f) == Some(feature)
                then enabled && Resolved(flags, other, defaults, f)
              else IsEffective(flags, other, defaults, f)
  {
    if Parent(feature).Some? {
      EffectiveExactly(flags, facility, defaults, Parent(feature).value);
    }
    forall g
      ensures Resolved(flags[(facility, feature) := enabled], other, defaults, g)
           == if other == facility && g == feature then enabled else Resolved(flags, other, defaults, g)
    {
    }
  }

  lemma SameEffective(a: Flags, x: nat, dx: seq<Feature>, b: Flags, y: nat, dy: seq<Feature>)
    requires forall f :: IsEffective(a, x, dx, f) == IsEffective(b, y, dy, f)
    ensures Effective(a, x, dx) == Effective(b, y, dy)
  {
    FilterAgrees(ALL_FEATURES, EffectiveIn(a, x, dx), EffectiveIn(b, y, dy));
  }

  lemma CopiedReads(flags: Flags, ids: set<nat>, effective: seq<Feature>, id: nat, defaults: seq<Feature>, f: Feature)
    requires Known(f)
    ensures Resolved(flags + Copied(ids, effective), id, defaults, f)
         == if id in ids then f in effective else Resolved(flags, id, defaults, f)
  {
    KeysExactly(ids);
  }

  /** After applying one facility's features to all, every other facility has exactly the effective set
      the source had then, whatever the statewide defaults become; the source itself is not written. */
  lemma ApplyCopiesEffectiveSet(
    flags: Flags, facilities: set<nat>, source: nat, defaults: seq<Feature>, target: nat, later: seq<Feature>)
    requires target in facilities && target != source
    ensures var flags' := ApplyToAll(flags, facilities, source, defaults);
            && Effective(flags', target, later) == Effective(flags, source, defaults)
            && Effective(flags', source, later) == Effective(flags, source, later)
  {
    var flags' := ApplyToAll(flags, facilities, source, defaults);
    forall f
      ensures IsEffective(flags', target, later, f) == IsEffective(flags, source, defaults, f)
      ensures IsEffective(flags', source, later, f) == IsEffective(flags, source, later, f)
    {
      if Known(f) {
        ApplyReads(flags, facilities, source, defaults, target, later, f);
        if Parent(f).Some? {
          ApplyReads(flags, facilities, source, defaults, target, later, Parent(f).value);
        }
      }
    }
    SameEffective(flags', target, later, flags, source, defaults);
    SameEffective(flags', source, later, flags, source, later);
  }

  /** No row of the source, of a facility that is not there, or of an unknown feature is touched. */
  lemma ApplyTouchesOnlyOthers(
    flags: Flags, facilities: set<nat>, source: nat, defaults: seq<Feature>, facility: nat, f: Feature)
    requires facility !in facilities || facility == source || f.Unknown?
    ensures var flags' := ApplyToAll(flags, facilities, source, defaults);
            && ((facility, f) in flags' <==> (facility, f) in flags)
            && ((facility, f) in flags ==> flags'[(facility, f)] == flags[(facility, f)])
  {
    KeysExactly(facilities - {source});
  }

  lemma ApplyReads(
    flags: Flags, facilities: set<nat>, source: nat, defaults: seq<Feature>, target: nat, later: seq<Feature>,
    f: Feature)
    requires target in facilities && target != source && Known(f)
    ensures var flags' := ApplyToAll(flags, facilities, source, defaults);
            && Resolved(flags', target, later, f) == IsEffective(flags, source, defaults, f)
            && Resolved(flags', source, later, f) == Resolved(flags, source, later, f)
  {
    var effective := Effective(flags, source, defaults);
    CopiedReads(flags, facilities - {source}, effective, target, later, f);
    CopiedReads(flags, facilities - {source}, effective, source, later, f);
    EffectiveExactly(flags, source, defaults, f);
  }
}
