/**
 The two whole-configuration conversions of the targeting page
 (ui/src/pages/targeting/index.tsx):
 - load (lines 240-265): the persisted content becomes the edit model held by
   the page's containers; every variation, rule and condition gets a fresh id
   and every rule is expanded;
 - wire (lines 327-360): the edit model becomes the snapshot that is compared
   with the persisted one and submitted.
 Both work on deep clones that they update element by element; the methods
 below do the same on a local copy and are proved equal to the functions that
 specify them.
 */
module Normalizer {
  import opened TargetingTypes
  import opened ConditionCodec

  /** What the page's variation, rule, default-serve and disabled-serve containers hold. */
  datatype EditModel = EditModel(
    variations: seq<Variation>,
    rules: seq<Rule>,
    defaultServe: Serve,
    disabledServe: Serve)

  // ---------------------------------------------------------------- load

  /** Ids a rule consumes when loaded: its own, then one per condition. */
  function RuleIdCount(r: Rule): nat
  {
    1 + |r.conditions|
  }

  /** Ids the rules consume, in the order the load effect draws them. */
  function IdsNeeded(rules: seq<Rule>): nat
    decreases |rules|
  {
    if rules == [] then 0
    else IdsNeeded(rules[..|rules| - 1]) + RuleIdCount(rules[|rules| - 1])
  }

  predicate RulesLoadable(rules: seq<Rule>)
  {
    forall k, j :: 0 <= k < |rules| && 0 <= j < |rules[k].conditions| ==>
      Loadable(rules[k].conditions[j])
  }

  function LoadedVariations(vs: seq<Variation>, ids: seq<Id>): seq<Variation>
    requires |ids| >= |vs|
  {
    seq(|vs|, i requires 0 <= i < |vs| => vs[i].(id := Some(ids[i])))
  }

  function LoadedConditions(cs: seq<Condition>, ids: seq<Id>, userText: string): seq<Condition>
    requires |ids| >= |cs|
    requires forall j :: 0 <= j < |cs| ==> Loadable(cs[j])
  {
    seq(|cs|, j requires 0 <= j < |cs| => LoadCondition(cs[j], ids[j], userText))
  }

  /** A rule loaded with ids[0] for itself and ids[1..] for its conditions. */
  function LoadRule(r: Rule, ids: seq<Id>, userText: string): Rule
    requires |ids| == RuleIdCount(r)
    requires forall j :: 0 <= j < |r.conditions| ==> Loadable(r.conditions[j])
  {
    r.(id := Some(ids[0]),
       active := Some(true),
       conditions := LoadedConditions(r.conditions, ids[1..], userText))
  }

  function LoadedRules(rules: seq<Rule>, ids: seq<Id>, userText: string): seq<Rule>
    requires |ids| >= IdsNeeded(rules)
    requires RulesLoadable(rules)
    decreases |rules|
  {
    if rules == [] then []
    else
      var init := rules[..|rules| - 1];
      LoadedRules(init, ids, userText) +
      [LoadRule(rules[|rules| - 1], ids[IdsNeeded(init)..IdsNeeded(rules)], userText)]
  }

  /**
   The load effect. The variations take the first |variations| ids and the
   rules the following ones. A datetime condition with an empty operand list
   makes the effect throw, which is `None`.
   */
  function Load(t: Content, ids: seq<Id>, userText: string): (r: Option<EditModel>)
    requires |ids| >= |t.variations| + IdsNeeded(t.rules)
    ensures r.Some? <==> RulesLoadable(t.rules)
    ensures r.Some? ==>
              |r.value.variations| == |t.variations| && |r.value.rules| == |t.rules| &&
              r.value.defaultServe == t.defaultServe && r.value.disabledServe == t.disabledServe
  {
    if RulesLoadable(t.rules) then
      LoadedRulesLength(t.rules, ids[|t.variations|..], userText);
      Some(EditModel(
        LoadedVariations(t.variations, ids[..|t.variations|]),
        LoadedRules(t.rules, ids[|t.variations|..], userText),
        t.defaultServe,
        t.disabledServe))
    else None
  }

  // ---------------------------------------------------------------- wire

  function WireRule(r: Rule): Rule
  {
    r.(id := None,
       active := None,
       conditions := seq(|r.conditions|, j requires 0 <= j < |r.conditions| => WireCondition(r.conditions[j])))
  }

  function WiredRules(rules: seq<Rule>): seq<Rule>
  {
    seq(|rules|, k requires 0 <= k < |rules| => WireRule(rules[k]))
  }

  function WiredVariations(vs: seq<Variation>): seq<Variation>
  {
    seq(|vs|, i requires 0 <= i < |vs| => vs[i].(id := None))
  }

  /** The snapshot `{disabled, content: {rules, disabledServe, defaultServe, variations}}`. */
  function Wire(disabled: bool, m: EditModel): (r: Targeting)
    ensures r.disabled == disabled
    ensures |r.content.variations| == |m.variations| && |r.content.rules| == |m.rules|
    ensures forall i :: 0 <= i < |r.content.variations| ==> r.content.variations[i].id.None?
    ensures forall k :: 0 <= k < |r.content.rules| ==>
              r.content.rules[k].id.None? && r.content.rules[k].active.None? &&
              forall j :: 0 <= j < |r.content.rules[k].conditions| ==> r.content.rules[k].conditions[j].id.None?
  {
    Targeting(disabled, Content(WiredRules(m.rules), m.disabledServe, m.defaultServe, WiredVariations(m.variations)))
  }

  // ---------------------------------------------------------------- methods

  /** Gives each variation of a clone of `vs` its id, in order. */
  method LoadVariations(vs: seq<Variation>, ids: seq<Id>) returns (out: seq<Variation>)
    requires |ids| >= |vs|
    ensures out == LoadedVariations(vs, ids)
  {
    out := vs;
    var i := 0;
    while i < |out|
      invariant 0 <= i <= |out| == |vs|
      invariant forall k :: 0 <= k < i ==> out[k] == vs[k].(id := Some(ids[k]))
      invariant forall k :: i <= k < |out| ==> out[k] == vs[k]
    {
      out := out[i := out[i].(id := Some(ids[i]))];
      i := i + 1;
    }
  }

  /**
   Loads one cloned rule, as the body of the rules' `forEach` does: the rule's
   id, then each condition in order, then `active`. Fails at the first
   condition that cannot be loaded.
   */
  method LoadOneRule(rule: Rule, ids: seq<Id>, userText: string) returns (r: Option<Rule>)
    requires |ids| == RuleIdCount(rule)
    ensures r.Some? <==> forall j :: 0 <= j < |rule.conditions| ==> Loadable(rule.conditions[j])
    ensures r.Some? ==> r.value == LoadRule(rule, ids, userText)
  {
    var loaded := rule.(id := Some(ids[0]));
    var conds := rule.conditions;
    var j := 0;
    while j < |conds|
      invariant 0 <= j <= |conds| == |rule.conditions|
      invariant forall x :: 0 <= x < j ==>
                  Loadable(rule.conditions[x]) &&
                  conds[x] == LoadCondition(rule.conditions[x], ids[1 + x], userText)
      invariant forall x :: j <= x < |conds| ==> conds[x] == rule.conditions[x]
    {
      if !Loadable(conds[j]) {
        return None;
      }
      conds := conds[j := LoadCondition(conds[j], ids[1 + j], userText)];
      j := j + 1;
    }
    loaded := loaded.(conditions := conds, active := Some(true));
    return Some(loaded);
  }

  /** Loads a clone of `rules` one rule at a time; fails as soon as a rule does. */
  method LoadRules(rules: seq<Rule>, ids: seq<Id>, userText: string) returns (r: Option<seq<Rule>>)
    requires |ids| >= IdsNeeded(rules)
    ensures r.Some? <==> RulesLoadable(rules)
    ensures r.Some? ==> r.value == LoadedRules(rules, ids, userText)
  {
    var out := rules;
    var i := 0;
    var next := 0;
    while i < |out|
      invariant 0 <= i <= |out| == |rules|
      invariant next == IdsNeeded(rules[..i]) <= IdsNeeded(rules)
      invariant RulesLoadable(rules[..i])
      invariant out[..i] == LoadedRules(rules[..i], ids, userText)
      invariant out[i..] == rules[i..]
    {
      IdsNeededStep(rules, i);
      assert out[i] == rules[i];
      var loaded := LoadOneRule(out[i], ids[next..next + RuleIdCount(rules[i])], userText);
      if loaded.None? {
        return None;
      }
      PrefixLoadable(rules, i);
      out := out[i := loaded.value];
      next := next + RuleIdCount(rules[i]);
      i := i + 1;
      assert out[..i] == out[..i - 1] + [loaded.value];
    }
    assert rules[..i] == rules;
    assert out[..i] == out;
    r := Some(out);
  }

  lemma PrefixLoadable(rules: seq<Rule>, i: nat)
    requires i < |rules|
    requires RulesLoadable(rules[..i])
    requires forall j :: 0 <= j < |rules[i].conditions| ==> Loadable(rules[i].conditions[j])
    ensures RulesLoadable(rules[..i + 1])
    ensures rules[..i + 1][..i] == rules[..i]
  {
    assert rules[..i + 1][..i] == rules[..i];
    forall k, x | 0 <= k <= i && 0 <= x < |rules[k].conditions|
      ensures Loadable(rules[k].conditions[x])
    {
      if k < i { assert rules[..i][k] == rules[k]; }
    }
  }

  /** Strips the ids and `active` from a clone of `rules`, condition by condition. */
  method WireRules(rules: seq<Rule>) returns (out: seq<Rule>)
    ensures out == WiredRules(rules)
  {
    out := rules;
    var i := 0;
    while i < |out|
      invariant 0 <= i <= |out| == |rules|
      invariant forall k :: 0 <= k < i ==> out[k] == WireRule(rules[k])
      invariant forall k :: i <= k < |out| ==> out[k] == rules[k]
    {
      var rule := out[i];
      var conds := rule.conditions;
      var j := 0;
      while j < |conds|
        invariant 0 <= j <= |conds| == |rules[i].conditions|
        invariant forall x :: 0 <= x < j ==> conds[x] == WireCondition(rules[i].conditions[x])
        invariant forall x :: j <= x < |conds| ==> conds[x] == rules[i].conditions[x]
      {
        conds := conds[j := WireCondition(conds[j])];
        j := j + 1;
      }
      out := out[i := rule.(conditions := conds, id := None, active := None)];
      i := i + 1;
    }
  }

  /** Removes the id of each variation of a clone of `vs`. */
  method WireVariations(vs: seq<Variation>) returns (out: seq<Variation>)
    ensures out == WiredVariations(vs)
  {
    out := vs;
    var i := 0;
    while i < |out|
      invariant 0 <= i <= |out| == |vs|
      invariant forall k :: 0 <= k < i ==> out[k] == vs[k].(id := None)
      invariant forall k :: i <= k < |out| ==> out[k] == vs[k]
    {
      out := out[i := out[i].(id := None)];
      i := i + 1;
    }
  }

  // ---------------------------------------------------------------- lemmas

  lemma {:induction false} IdsNeededStep(rules: seq<Rule>, i: nat)
    requires i < |rules|
    ensures IdsNeeded(rules[..i + 1]) == IdsNeeded(rules[..i]) + RuleIdCount(rules[i])
    ensures IdsNeeded(rules[..i + 1]) <= IdsNeeded(rules)
  {
    assert rules[..i + 1][..i] == rules[..i];
    IdsNeededMonotone(rules, i + 1);
  }

  lemma {:induction false} IdsNeededMonotone(rules: seq<Rule>, i: nat)
    requires i <= |rules|
    ensures IdsNeeded(rules[..i]) <= IdsNeeded(rules)
    decreases |rules|
  {
    if i < |rules| {
      var init := rules[..|rules| - 1];
      assert rules[..i] == init[..i];
      IdsNeededMonotone(init, i);
    } else {
      assert rules[..i] == rules;
    }
  }

  /** The k-th loaded rule is rule k loaded with the ids that follow those of rules 0..k-1. */
  lemma {:induction false} LoadedRulesAt(rules: seq<Rule>, ids: seq<Id>, userText: string, k: nat)
    requires |ids| >= IdsNeeded(rules)
    requires RulesLoadable(rules)
    requires k < |rules|
    ensures |LoadedRules(rules, ids, userText)| == |rules|
    ensures IdsNeeded(rules[..k]) + RuleIdCount(rules[k]) == IdsNeeded(rules[..k + 1]) <= IdsNeeded(rules)
    ensures LoadedRules(rules, ids, userText)[k] ==
            LoadRule(rules[k], ids[IdsNeeded(rules[..k])..IdsNeeded(rules[..k + 1])], userText)
    decreases |rules|
  {
    IdsNeededStep(rules, k);
    var init := rules[..|rules| - 1];
    LoadedRulesLength(init, ids, userText);
    if k < |rules| - 1 {
      assert init[..k] == rules[..k] && init[..k + 1] == rules[..k + 1];
      LoadedRulesAt(init, ids, userText, k);
    } else {
      assert rules[..k + 1] == rules;
    }
  }

  lemma {:induction false} LoadedRulesLength(rules: seq<Rule>, ids: seq<Id>, userText: string)
    requires |ids| >= IdsNeeded(rules)
    requires RulesLoadable(rules)
    ensures |LoadedRules(rules, ids, userText)| == |rules|
    decreases |rules|
  {
    if rules != [] {
      LoadedRulesLength(rules[..|rules| - 1], ids, userText);
    }
  }

  /**
   Load keeps the number and order of variations, rules and each rule's
   conditions; it changes nothing but the ids, the rule's `active` flag (set to
   true), the segment subject and the datetime edit fields; the default and
   disabled serves pass through. It fails exactly on an unloadable condition.
   */
  lemma LoadShape(t: Content, ids: seq<Id>, userText: string)
    requires |ids| >= |t.variations| + IdsNeeded(t.rules)
    ensures Load(t, ids, userText).Some? <==> RulesLoadable(t.rules)
    ensures Load(t, ids, userText).Some? ==>
      var m := Load(t, ids, userText).value;
      m.defaultServe == t.defaultServe && m.disabledServe == t.disabledServe &&
      |m.variations| == |t.variations| &&
      (forall i :: 0 <= i < |t.variations| ==>
         m.variations[i].id.Some? && m.variations[i].(id := None) == t.variations[i].(id := None)) &&
      |m.rules| == |t.rules| &&
      (forall k :: 0 <= k < |t.rules| ==>
         m.rules[k].id.Some? && m.rules[k].active == Some(true) &&
         m.rules[k].name == t.rules[k].name && m.rules[k].serve == t.rules[k].serve &&
         |m.rules[k].conditions| == |t.rules[k].conditions| &&
         forall j :: 0 <= j < |t.rules[k].conditions| ==>
           var c, lc := t.rules[k].conditions[j], m.rules[k].conditions[j];
           lc.id.Some? && lc.ctype == c.ctype && lc.op == c.op && lc.objects == c.objects)
  {
    if RulesLoadable(t.rules) {
      var m := Load(t, ids, userText).value;
      var rids := ids[|t.variations|..];
      LoadedRulesLength(t.rules, rids, userText);
      forall k | 0 <= k < |t.rules|
        ensures m.rules[k].id.Some? && m.rules[k].active == Some(true)
        ensures m.rules[k].name == t.rules[k].name && m.rules[k].serve == t.rules[k].serve
        ensures |m.rules[k].conditions| == |t.rules[k].conditions|
        ensures forall j :: 0 <= j < |t.rules[k].conditions| ==>
                  var c, lc := t.rules[k].conditions[j], m.rules[k].conditions[j];
                  lc.id.Some? && lc.ctype == c.ctype && lc.op == c.op && lc.objects == c.objects
      {
        LoadedRulesAt(t.rules, rids, userText, k);
      }
    }
  }

  // ---------------------------------------------------------------- ids

  function VariationIds(vs: seq<Variation>): seq<Option<Id>>
  {
    seq(|vs|, i requires 0 <= i < |vs| => vs[i].id)
  }

  function ConditionIds(cs: seq<Condition>): seq<Option<Id>>
  {
    seq(|cs|, j requires 0 <= j < |cs| => cs[j].id)
  }

  /** The rule ids and condition ids in the order the load effect assigns them. */
  function RuleIds(rules: seq<Rule>): seq<Option<Id>>
    decreases |rules|
  {
    if rules == [] then []
    else
      var last := rules[|rules| - 1];
      RuleIds(rules[..|rules| - 1]) + [last.id] + ConditionIds(last.conditions)
  }

  /** Every ephemeral id of an edit model, in load order. */
  function AssignedIds(m: EditModel): seq<Option<Id>>
  {
    VariationIds(m.variations) + RuleIds(m.rules)
  }

  function AsSome(ids: seq<Id>): seq<Option<Id>>
  {
    seq(|ids|, i requires 0 <= i < |ids| => Some(ids[i]))
  }

  predicate Distinct<T(==)>(s: seq<T>)
  {
    forall a, b :: 0 <= a < b < |s| ==> s[a] != s[b]
  }

  lemma LoadRuleIds(r: Rule, ids: seq<Id>, userText: string)
    requires |ids| == RuleIdCount(r)
    requires forall j :: 0 <= j < |r.conditions| ==> Loadable(r.conditions[j])
    ensures [LoadRule(r, ids, userText).id] + ConditionIds(LoadRule(r, ids, userText).conditions) == AsSome(ids)
  {
    var l := LoadRule(r, ids, userText);
    assert ConditionIds(l.conditions) == AsSome(ids[1..]);
  }

  lemma AsSomeConcat(ids: seq<Id>, a: nat, b: nat)
    requires a <= b <= |ids|
    ensures AsSome(ids[..a]) + AsSome(ids[a..b]) == AsSome(ids[..b])
  {
  }

  lemma {:induction false} LoadedRuleIds(rules: seq<Rule>, ids: seq<Id>, userText: string)
    requires |ids| >= IdsNeeded(rules)
    requires RulesLoadable(rules)
    ensures RuleIds(LoadedRules(rules, ids, userText)) == AsSome(ids[..IdsNeeded(rules)])
    decreases |rules|
  {
    if rules != [] {
      var init := rules[..|rules| - 1];
      var last := rules[|rules| - 1];
      var a, b := IdsNeeded(init), IdsNeeded(rules);
      LoadedRuleIds(init, ids, userText);
      var loaded := LoadRule(last, ids[a..b], userText);
      var all := LoadedRules(rules, ids, userText);
      var front := LoadedRules(init, ids, userText);
      assert all == front + [loaded];
      assert all[..|all| - 1] == front;
      assert RuleIds(all) == RuleIds(front) + [loaded.id] + ConditionIds(loaded.conditions);
      LoadRuleIds(last, ids[a..b], userText);
      AsSomeConcat(ids, a, b);
    }
  }

  /**
   Load gives the entities exactly the supplied ids, one each, in the order the
   page draws them; so distinct supplied ids make every ephemeral id present
   and unique within the session.
   */
  lemma LoadAssignsFreshIds(t: Content, ids: seq<Id>, userText: string)
    requires |ids| >= |t.variations| + IdsNeeded(t.rules)
    requires RulesLoadable(t.rules)
    ensures Load(t, ids, userText).Some?
    ensures AssignedIds(Load(t, ids, userText).value) == AsSome(ids[..|t.variations| + IdsNeeded(t.rules)])
    ensures Distinct(ids) ==>
              var given := AssignedIds(Load(t, ids, userText).value);
              Distinct(given) && forall i :: 0 <= i < |given| ==> given[i].Some?
  {
    var n := |t.variations|;
    var total := n + IdsNeeded(t.rules);
    var m := Load(t, ids, userText).value;
    LoadedRuleIds(t.rules, ids[n..], userText);
    assert ids[n..][..IdsNeeded(t.rules)] == ids[n..total];
    assert VariationIds(m.variations) == AsSome(ids[..n]);
    AsSomeConcat(ids, n, total);
    if Distinct(ids) {
      DistinctPrefix(ids, total);
    }
  }

  /** Distinct ids stay distinct, and present, once wrapped. */
  lemma DistinctPrefix(ids: seq<Id>, n: nat)
    requires n <= |ids| && Distinct(ids)
    ensures Distinct(AsSome(ids[..n]))
    ensures forall i :: 0 <= i < n ==> AsSome(ids[..n])[i].Some?
  {
  }

  // ---------------------------------------------------------------- wire properties

  /**
   The wire snapshot carries the toggle's disabled state and the serves as
   given, keeps every list's length and order, and holds no id, no `active`
   and no segment subject; conditions of other types than segment and
   datetime keep subject, predicate and operands; variations change only by
   losing their id.
   */
  lemma WireStripsEditFields(disabled: bool, m: EditModel)
    ensures var w := Wire(disabled, m);
      w.disabled == disabled &&
      w.content.defaultServe == m.defaultServe && w.content.disabledServe == m.disabledServe &&
      |w.content.variations| == |m.variations| &&
      (forall i :: 0 <= i < |m.variations| ==>
         w.content.variations[i] == m.variations[i].(id := None)) &&
      |w.content.rules| == |m.rules| &&
      forall k :: 0 <= k < |m.rules| ==>
        var r, wr := m.rules[k], w.content.rules[k];
        wr.id.None? && wr.active.None? && wr.name == r.name && wr.serve == r.serve &&
        |wr.conditions| == |r.conditions| &&
        forall j :: 0 <= j < |r.conditions| ==>
          var c, wc := r.conditions[j], wr.conditions[j];
          wc.id.None? && wc.ctype == c.ctype && wc.op == c.op &&
          (c.ctype == SEGMENT_TYPE ==> wc.subject.None?) &&
          (c.ctype != SEGMENT_TYPE && c.ctype != DATETIME_TYPE ==>
             wc.subject == c.subject && wc.objects == c.objects)
  {
  }

  predicate RuleRoundTrips(r: Rule)
  {
    r.id.None? && r.active.None? &&
    forall j :: 0 <= j < |r.conditions| ==> RoundTrips(r.conditions[j])
  }

  /** A persisted content without any edit-only artefact. */
  predicate ContentRoundTrips(t: Content)
  {
    (forall i :: 0 <= i < |t.variations| ==> t.variations[i].id.None?) &&
    (forall k :: 0 <= k < |t.rules| ==> RuleRoundTrips(t.rules[k]))
  }

  lemma RuleRoundTrip(r: Rule, ids: seq<Id>, userText: string)
    requires |ids| == RuleIdCount(r)
    requires forall j :: 0 <= j < |r.conditions| ==> Loadable(r.conditions[j])
    ensures WireRule(LoadRule(r, ids, userText)) == r <==> RuleRoundTrips(r)
  {
    var w := WireRule(LoadRule(r, ids, userText));
    forall j | 0 <= j < |r.conditions|
      ensures w.conditions[j] == r.conditions[j] <==> RoundTrips(r.conditions[j])
    {
      ConditionRoundTrip(r.conditions[j], ids[1..][j], userText);
    }
    if RuleRoundTrips(r) {
      assert w.conditions == r.conditions;
    }
  }

  /**
   Loading a persisted content and wiring the edit model back gives the
   persisted content (under the same disabled state) exactly when it has no
   edit-only artefact: then the freshly opened page compares equal to the
   initial snapshot.
   */
  lemma RoundTrip(t: Content, ids: seq<Id>, userText: string, disabled: bool)
    requires |ids| >= |t.variations| + IdsNeeded(t.rules)
    requires RulesLoadable(t.rules)
    ensures Load(t, ids, userText).Some?
    ensures Wire(disabled, Load(t, ids, userText).value) == Targeting(disabled, t) <==> ContentRoundTrips(t)
  {
    var m := Load(t, ids, userText).value;
    var rids := ids[|t.variations|..];
    var w := Wire(disabled, m);
    LoadedRulesLength(t.rules, rids, userText);
    forall k | 0 <= k < |t.rules|
      ensures w.content.rules[k] == t.rules[k] <==> RuleRoundTrips(t.rules[k])
    {
      LoadedRulesAt(t.rules, rids, userText, k);
      var a, b := IdsNeeded(t.rules[..k]), IdsNeeded(t.rules[..k + 1]);
      RuleRoundTrip(t.rules[k], rids[a..b], userText);
    }
    if ContentRoundTrips(t) {
      assert w.content.rules == t.rules;
      assert w.content.variations == t.variations;
    }
  }
}
