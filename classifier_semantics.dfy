/**
 The change classifier stated without difference records, and the proof that
 the record-scanning classifier of ui/src/pages/targeting/index.tsx:593-628
 agrees with it.
 */
module ClassifierSemantics {
  import opened TargetingTypes
  import opened DeepDiff
  import opened ChangeClassifier

  // ------------------------------------------------------------ reference definition

  /**
   A variation edit the classifier lets through: the same id, the same value,
   and `description` present on both sides or on neither; name and
   description text may differ.
   */
  predicate CosmeticVariationEdit(x: Variation, y: Variation)
  {
    x.id == y.id && x.value == y.value && (x.description.Some? <==> y.description.Some?)
  }

  /**
   A rule edit the classifier lets through: the same id, `active`, conditions
   and serve, and `name` present on both sides or on neither.
   */
  predicate CosmeticRuleEdit(x: Rule, y: Rule)
  {
    x.id == y.id && x.active == y.active && x.conditions == y.conditions && x.serve == y.serve &&
    (x.name.Some? <==> y.name.Some?)
  }

  predicate VariationsMaterial(a: seq<Variation>, b: seq<Variation>)
  {
    |a| != |b| || exists k :: 0 <= k < |a| && k < |b| && !CosmeticVariationEdit(a[k], b[k])
  }

  predicate RulesMaterial(a: seq<Rule>, b: seq<Rule>)
  {
    |a| != |b| || exists k :: 0 <= k < |a| && k < |b| && !CosmeticRuleEdit(a[k], b[k])
  }

  /** The classification stated without difference records. */
  predicate MaterialBySemantics(before: Targeting, after: Targeting)
  {
    before.disabled != after.disabled ||
    before.content.defaultServe != after.content.defaultServe ||
    before.content.disabledServe != after.content.disabledServe ||
    VariationsMaterial(before.content.variations, after.content.variations) ||
    RulesMaterial(before.content.rules, after.content.rules)
  }

  // ------------------------------------------------------------ lemmas

  lemma SecondKey(c: Change, k: nat, key: string)
    requires HasPrefix(c, [Idx(k), Key(key)])
    ensures |c.path| >= 2 && c.path[1] == Key(key)
  {
    assert c.path[..2][1] == c.path[1];
  }

  /** Within one variation, a material record exists exactly when the edit is not cosmetic. */
  lemma VariationRecordMaterial(k: nat, x: Variation, y: Variation)
    ensures AnyChange(DiffVariation([Idx(k)], x, y), MaterialVariationChange) <==> !CosmeticVariationEdit(x, y)
  {
    ValueDiffersExact();
    var p := [Idx(k)];
    var ids := DiffProperty(p + [Key("id")], x.id, y.id, DiffString);
    var names := DiffString(p + [Key("name")], x.name, y.name);
    var values := DiffString(p + [Key("value")], x.value, y.value);
    var descs := DiffProperty(p + [Key("description")], x.description, y.description, DiffString);
    assert DiffVariation(p, x, y) == ids + names + values + descs;
    assert p + [Key("name")] == [Idx(k), Key("name")];
    assert p + [Key("id")] == [Idx(k), Key("id")];
    assert p + [Key("value")] == [Idx(k), Key("value")];
    assert p + [Key("description")] == [Idx(k), Key("description")];
    DiffPropertyExact(p + [Key("id")], x.id, y.id, DiffString);
    if x.id != y.id {
      assert ids[0] in DiffVariation(p, x, y) && MaterialVariationChange(ids[0]);
    } else if x.value != y.value {
      assert values[0] in DiffVariation(p, x, y) && MaterialVariationChange(values[0]);
    } else if x.description.Some? != y.description.Some? {
      assert descs[0] in DiffVariation(p, x, y) && MaterialVariationChange(descs[0]);
    }
  }

  /** A part of a rule diff that lies under a property other than `name` is material exactly when non-empty. */
  lemma KeyedPartMaterial(cs: seq<Change>, k: nat, key: string)
    requires key != "name"
    requires forall c :: c in cs ==> HasPrefix(c, [Idx(k), Key(key)])
    ensures AnyChange(cs, MaterialRuleChange) <==> cs != []
  {
    if cs != [] {
      SecondKey(cs[0], k, key);
      assert cs[0] in cs && MaterialRuleChange(cs[0]);
    }
  }

  /** Within one rule, a material record exists exactly when the edit is not cosmetic. */
  lemma RuleRecordMaterial(k: nat, x: Rule, y: Rule)
    ensures AnyChange(DiffRule([Idx(k)], x, y), MaterialRuleChange) <==> !CosmeticRuleEdit(x, y)
  {
    ValueDiffersExact();
    ServeDifferExact();
    ConditionDifferExact();
    var p := [Idx(k)];
    var ids := DiffProperty(p + [Key("id")], x.id, y.id, DiffString);
    var actives := DiffProperty(p + [Key("active")], x.active, y.active, DiffBool);
    var names := DiffProperty(p + [Key("name")], x.name, y.name, DiffString);
    var conds := DiffConditions(p + [Key("conditions")], x.conditions, y.conditions);
    var serves := DiffProperty(p + [Key("serve")], x.serve, y.serve, DiffServe);
    assert DiffRule(p, x, y) == ids + actives + names + conds + serves;
    AnyConcat(ids + actives + names + conds, serves, MaterialRuleChange);
    AnyConcat(ids + actives + names, conds, MaterialRuleChange);
    AnyConcat(ids + actives, names, MaterialRuleChange);
    AnyConcat(ids, actives, MaterialRuleChange);

    assert p + [Key("id")] == [Idx(k), Key("id")];
    DiffPropertyExact(p + [Key("id")], x.id, y.id, DiffString);
    DiffPropertyPrefixed(p + [Key("id")], x.id, y.id, DiffString);
    KeyedPartMaterial(ids, k, "id");

    assert p + [Key("active")] == [Idx(k), Key("active")];
    DiffPropertyExact(p + [Key("active")], x.active, y.active, DiffBool);
    DiffPropertyPrefixed(p + [Key("active")], x.active, y.active, DiffBool);
    KeyedPartMaterial(actives, k, "active");

    assert p + [Key("conditions")] == [Idx(k), Key("conditions")];
    DiffArrayExact(p + [Key("conditions")], x.conditions, y.conditions, 0, DiffCondition);
    DiffArrayPrefixed(p + [Key("conditions")], x.conditions, y.conditions, 0, DiffCondition);
    KeyedPartMaterial(conds, k, "conditions");

    assert p + [Key("serve")] == [Idx(k), Key("serve")];
    DiffPropertyExact(p + [Key("serve")], x.serve, y.serve, DiffServe);
    DiffPropertyPrefixed(p + [Key("serve")], x.serve, y.serve, DiffServe);
    KeyedPartMaterial(serves, k, "serve");

    assert p + [Key("name")] == [Idx(k), Key("name")];
    NamePartMaterial(k, x.name, y.name);
  }

  lemma NamePartMaterial(k: nat, a: Option<string>, b: Option<string>)
    ensures AnyChange(DiffProperty([Idx(k), Key("name")], a, b, DiffString), MaterialRuleChange) <==>
            (a.Some? != b.Some?)
  {
    var cs := DiffProperty([Idx(k), Key("name")], a, b, DiffString);
    if a.Some? != b.Some? {
      assert cs[0] in cs && MaterialRuleChange(cs[0]);
    }
  }

  /** A material variation record comes from a non-cosmetic edit at some common index. */
  lemma VariationsMaterialWitness(a: seq<Variation>, b: seq<Variation>)
    requires |a| == |b|
    requires AnyChange(DiffArray([], a, b, 0, DiffVariation), MaterialVariationChange)
    ensures VariationsMaterial(a, b)
  {
    var k := TopLevelWitness(a, b, DiffVariation, MaterialVariationChange);
    VariationRecordMaterial(k, a[k], b[k]);
    assert !CosmeticVariationEdit(a[k], b[k]);
  }

  /** A non-cosmetic edit at index k gives a material variation record. */
  lemma VariationsMaterialAt(a: seq<Variation>, b: seq<Variation>, k: nat)
    requires k < |a| && k < |b| && !CosmeticVariationEdit(a[k], b[k])
    ensures AnyChange(DiffArray([], a, b, 0, DiffVariation), MaterialVariationChange)
  {
    VariationRecordMaterial(k, a[k], b[k]);
    TopLevelAt(a, b, DiffVariation, MaterialVariationChange, k);
  }

  lemma VariationsMaterialIff(a: seq<Variation>, b: seq<Variation>)
    ensures AnyChange(DiffVariations(a, b), MaterialVariationChange) <==> VariationsMaterial(a, b)
  {
    if |a| != |b| {
      DiffArrayLengths([], a, b, 0, DiffVariation, MaterialVariationChange);
    } else {
      if AnyChange(DiffVariations(a, b), MaterialVariationChange) {
        VariationsMaterialWitness(a, b);
      }
      if VariationsMaterial(a, b) {
        var k :| 0 <= k < |a| && k < |b| && !CosmeticVariationEdit(a[k], b[k]);
        VariationsMaterialAt(a, b, k);
      }
    }
  }

  /** A material rule record comes from a non-cosmetic edit at some common index. */
  lemma RulesMaterialWitness(a: seq<Rule>, b: seq<Rule>)
    requires |a| == |b|
    requires AnyChange(DiffArray([], a, b, 0, DiffRule), MaterialRuleChange)
    ensures RulesMaterial(a, b)
  {
    var k := TopLevelWitness(a, b, DiffRule, MaterialRuleChange);
    RuleRecordMaterial(k, a[k], b[k]);
    assert !CosmeticRuleEdit(a[k], b[k]);
  }

  /** A non-cosmetic edit at index k gives a material rule record. */
  lemma RulesMaterialAt(a: seq<Rule>, b: seq<Rule>, k: nat)
    requires k < |a| && k < |b| && !CosmeticRuleEdit(a[k], b[k])
    ensures AnyChange(DiffArray([], a, b, 0, DiffRule), MaterialRuleChange)
  {
    RuleRecordMaterial(k, a[k], b[k]);
    TopLevelAt(a, b, DiffRule, MaterialRuleChange, k);
  }

  lemma RulesMaterialIff(a: seq<Rule>, b: seq<Rule>)
    ensures AnyChange(DiffRules(a, b), MaterialRuleChange) <==> RulesMaterial(a, b)
  {
    if |a| != |b| {
      DiffArrayLengths([], a, b, 0, DiffRule, MaterialRuleChange);
    } else {
      if AnyChange(DiffRules(a, b), MaterialRuleChange) {
        RulesMaterialWitness(a, b);
      }
      if RulesMaterial(a, b) {
        var k :| 0 <= k < |a| && k < |b| && !CosmeticRuleEdit(a[k], b[k]);
        RulesMaterialAt(a, b, k);
      }
    }
  }

  /**
   The classifier in plain terms: a change is material exactly when the
   disabled state or either serve differs, a variation is added or removed or
   changes its id, value or the presence of its description, or a rule is
   added or removed or changes its id, `active`, conditions, serve or the
   presence of its name.
   */
  lemma ClassifierCharacterisation(before: Targeting, after: Targeting)
    ensures IsMaterialChange(before, after) <==> MaterialBySemantics(before, after)
  {
    ValueDiffersExact();
    DiffEmptyIffEqual(before.content.variations, after.content.variations,
                      before.content.rules, after.content.rules,
                      before.content.defaultServe, after.content.defaultServe);
    DiffEmptyIffEqual(before.content.variations, after.content.variations,
                      before.content.rules, after.content.rules,
                      before.content.disabledServe, after.content.disabledServe);
    VariationsMaterialIff(before.content.variations, after.content.variations);
    RulesMaterialIff(before.content.rules, after.content.rules);
  }

  /** Identical snapshots are never material; a material change is never a no-op. */
  lemma IdenticalNotMaterial(before: Targeting, after: Targeting)
    ensures before == after ==> !IsMaterialChange(before, after)
  {
    ClassifierCharacterisation(before, after);
  }

  /**
   Editing only the text of a variation's name or description (the properties
   staying present or absent as before) changes the snapshot but is not
   material; editing its value is.
   */
  lemma VariationTextEdit(t: Targeting, k: nat, name: string, description: string, value: string)
    requires k < |t.content.variations|
    requires t.content.variations[k].description.Some?
    ensures var v := t.content.variations[k];
            var renamed := t.(content := t.content.(variations := t.content.variations[k := v.(name := name, description := Some(description))]));
            var revalued := t.(content := t.content.(variations := t.content.variations[k := v.(value := value)]));
            !IsMaterialChange(t, renamed) && (value != v.value ==> IsMaterialChange(t, revalued))
  {
    var v := t.content.variations[k];
    var renamed := t.(content := t.content.(variations := t.content.variations[k := v.(name := name, description := Some(description))]));
    var revalued := t.(content := t.content.(variations := t.content.variations[k := v.(value := value)]));
    ClassifierCharacterisation(t, renamed);
    ClassifierCharacterisation(t, revalued);
    assert forall j :: 0 <= j < |t.content.variations| ==>
             CosmeticVariationEdit(t.content.variations[j], renamed.content.variations[j]);
    if value != v.value {
      assert !CosmeticVariationEdit(t.content.variations[k], revalued.content.variations[k]);
    }
  }

  /**
   Renaming a rule that already has a name is not material; any change to its
   conditions or its serve is.
   */
  lemma RuleEdit(t: Targeting, k: nat, name: string, conditions: seq<Condition>, serve: Option<Serve>)
    requires k < |t.content.rules|
    requires t.content.rules[k].name.Some?
    ensures var r := t.content.rules[k];
            var renamed := t.(content := t.content.(rules := t.content.rules[k := r.(name := Some(name))]));
            var rewritten := t.(content := t.content.(rules := t.content.rules[k := r.(conditions := conditions, serve := serve)]));
            !IsMaterialChange(t, renamed) &&
            ((conditions != r.conditions || serve != r.serve) ==> IsMaterialChange(t, rewritten))
  {
    var r := t.content.rules[k];
    var renamed := t.(content := t.content.(rules := t.content.rules[k := r.(name := Some(name))]));
    var rewritten := t.(content := t.content.(rules := t.content.rules[k := r.(conditions := conditions, serve := serve)]));
    ClassifierCharacterisation(t, renamed);
    ClassifierCharacterisation(t, rewritten);
    assert forall j :: 0 <= j < |t.content.rules| ==>
             CosmeticRuleEdit(t.content.rules[j], renamed.content.rules[j]);
    if conditions != r.conditions || serve != r.serve {
      assert !CosmeticRuleEdit(t.content.rules[k], rewritten.content.rules[k]);
    }
  }

  /**
   Swapping two variations is material unless they agree on everything but
   the text of their name and description: the classifier compares
   positions, not identities, so such a swap looks like two text edits.
   */
  lemma SwapVariations(t: Targeting, x: Variation, y: Variation)
    requires t.content.variations == [x, y]
    ensures var swapped := t.(content := t.content.(variations := [y, x]));
            IsMaterialChange(t, swapped) <==> !CosmeticVariationEdit(x, y)
  {
    var swapped := t.(content := t.content.(variations := [y, x]));
    ClassifierCharacterisation(t, swapped);
    assert swapped.content.variations[0] == y && swapped.content.variations[1] == x;
  }
}
