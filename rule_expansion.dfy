/**
 Expanding the rules that hold form errors before the page scrolls to them
 (the callback installed with `setBeforeScrollCallback`,
 ui/src/pages/targeting/index.tsx:196-213). For every error name starting
 with "rule", the text between the first and second underscore is taken as a
 rule id; the first rule carrying that id is marked `active`, and the search
 for that name stops there.
 */
module RuleExpansion {
  import opened TargetingTypes
  import Validator

  /** Index of the first occurrence of ch in s, or |s| when there is none. */
  function FirstIndex(s: string, ch: char): (r: nat)
    ensures r <= |s|
    ensures ch !in s[..r]
    ensures r < |s| ==> s[r] == ch
  {
    if s == [] then 0
    else if s[0] == ch then 0
    else
      var r := 1 + FirstIndex(s[1..], ch);
      assert s[..r] == [s[0]] + s[1..][..r - 1];
      r
  }

  /**
   `name.split('_')[1]`: the field after the first underscore, up to the
   next underscore or the end; `undefined` (None) when there is no underscore.
   */
  function SecondField(name: string): (r: Option<string>)
    ensures r.None? <==> '_' !in name
    ensures r.Some? ==>
              var i := FirstIndex(name, '_');
              '_' !in r.value && r.value <= name[i + 1..] &&
              (i + 1 + |r.value| == |name| || name[i + 1 + |r.value|] == '_')
  {
    var i := FirstIndex(name, '_');
    if i == |name| then
      assert name[..i] == name;
      None
    else
      var rest := name[i + 1..];
      var j := FirstIndex(rest, '_');
      assert rest[..j] <= rest;
      Some(rest[..j])
  }

  /** Index of the first rule whose id is `id`; an absent id matches a rule without one. */
  function FindRule(rules: seq<Rule>, id: Option<Id>): (r: Option<nat>)
    ensures r.Some? ==> r.value < |rules| && rules[r.value].id == id &&
                        forall j :: 0 <= j < r.value ==> rules[j].id != id
    ensures r.None? ==> forall j :: 0 <= j < |rules| ==> rules[j].id != id
    decreases |rules|
  {
    if rules == [] then None
    else if rules[0].id == id then Some(0)
    else
      match FindRule(rules[1..], id)
      case None => None
      case Some(k) => Some(k + 1)
  }

  /** The rule an error name points at, if any. */
  function Target(rules: seq<Rule>, name: string): (r: Option<nat>)
    ensures r.Some? ==>
              StartsWith(name, "rule") && r.value < |rules| && rules[r.value].id == SecondField(name) &&
              forall j :: 0 <= j < r.value ==> rules[j].id != SecondField(name)
    ensures r.None? <==>
              !StartsWith(name, "rule") || forall j :: 0 <= j < |rules| ==> rules[j].id != SecondField(name)
  {
    if StartsWith(name, "rule") then FindRule(rules, SecondField(name)) else None
  }

  function Activate(rules: seq<Rule>, k: nat): seq<Rule>
    requires k < |rules|
  {
    rules[k := rules[k].(active := Some(true))]
  }

  /** The effect of one error name. */
  function ExpandOne(rules: seq<Rule>, name: string): seq<Rule>
  {
    match Target(rules, name)
    case Some(k) => Activate(rules, k)
    case None => rules
  }

  /** The effect of all error names, in order; nothing but `active` flags changes. */
  function ExpandAll(rules: seq<Rule>, names: seq<string>): (r: seq<Rule>)
    ensures |r| == |rules|
    ensures SameButActive(rules, r)
    decreases |names|
  {
    if names == [] then rules
    else ExpandOne(ExpandAll(rules, names[..|names| - 1]), names[|names| - 1])
  }

  /** Two rule lists that differ at most in their `active` flags. */
  predicate SameButActive(a: seq<Rule>, b: seq<Rule>)
  {
    |a| == |b| && forall k :: 0 <= k < |a| ==> a[k].(active := None) == b[k].(active := None)
  }

  /**
   The callback, as the page runs it: for each name, scan the rules in order
   and mark the first match active.
   */
  method ExpandRules(rules: seq<Rule>, names: seq<string>) returns (out: seq<Rule>)
    ensures out == ExpandAll(rules, names)
  {
    out := rules;
    var n := 0;
    while n < |names|
      invariant 0 <= n <= |names|
      invariant out == ExpandAll(rules, names[..n])
    {
      var name := names[n];
      if StartsWith(name, "rule") {
        var id := SecondField(name);
        var i := 0;
        while i < |rules|
          invariant 0 <= i <= |rules|
          invariant forall j :: 0 <= j < i ==> rules[j].id != id
        {
          if rules[i].id == id {
            out := out[i := out[i].(active := Some(true))];
            break;
          }
          i := i + 1;
        }
        TargetIgnoresActive(rules, ExpandAll(rules, names[..n]), name);
      }
      assert names[..n + 1][..n] == names[..n];
      n := n + 1;
    }
    assert names[..n] == names;
  }

  // ---------------------------------------------------------------- lemmas

  /** Looking a name up gives the same rule whatever the `active` flags are. */
  lemma TargetIgnoresActive(a: seq<Rule>, b: seq<Rule>, name: string)
    requires SameButActive(a, b)
    ensures Target(a, name) == Target(b, name)
  {
    if StartsWith(name, "rule") {
      var id := SecondField(name);
      assert forall k :: 0 <= k < |a| ==> a[k].id == b[k].id by {
        forall k | 0 <= k < |a| ensures a[k].id == b[k].id {
          assert a[k].(active := None).id == b[k].(active := None).id;
        }
      }
      FindRuleIds(a, b, id);
    }
  }

  lemma {:induction false} FindRuleIds(a: seq<Rule>, b: seq<Rule>, id: Option<Id>)
    requires |a| == |b| && forall k :: 0 <= k < |a| ==> a[k].id == b[k].id
    ensures FindRule(a, id) == FindRule(b, id)
    decreases |a|
  {
    if a != [] && a[0].id != id {
      FindRuleIds(a[1..], b[1..], id);
    }
  }

  /** Some error name points at rule k. */
  predicate Targeted(rules: seq<Rule>, names: seq<string>, k: nat)
  {
    exists i :: 0 <= i < |names| && Target(rules, names[i]) == Some(k)
  }

  lemma TargetedStep(rules: seq<Rule>, names: seq<string>, k: nat)
    requires names != []
    ensures Targeted(rules, names, k) <==>
              Targeted(rules, names[..|names| - 1], k) || Target(rules, names[|names| - 1]) == Some(k)
  {
    var init := names[..|names| - 1];
    if Targeted(rules, init, k) {
      var i :| 0 <= i < |init| && Target(rules, init[i]) == Some(k);
      assert names[i] == init[i];
    }
    if Targeted(rules, names, k) {
      var i :| 0 <= i < |names| && Target(rules, names[i]) == Some(k);
      if i < |names| - 1 {
        assert init[i] == names[i];
      }
    }
  }

  /**
   Rule k ends up active exactly when some name points at it; every other
   rule is unchanged, and no rule is ever changed in anything but `active`.
   */
  lemma {:induction false} ExpandAllEffect(rules: seq<Rule>, names: seq<string>, k: nat)
    requires k < |rules|
    ensures ExpandAll(rules, names)[k] ==
              if Targeted(rules, names, k) then rules[k].(active := Some(true)) else rules[k]
    decreases |names|
  {
    if names != [] {
      var init := names[..|names| - 1];
      var last := names[|names| - 1];
      var prev := ExpandAll(rules, init);
      ExpandAllEffect(rules, init, k);
      TargetedStep(rules, names, k);
      TargetIgnoresActive(rules, prev, last);
    }
  }

  /** The field after the first underscore of a rule's error key is its id. */
  lemma ErrorKeyNamesRule(id: string)
    requires '_' !in id
    ensures SecondField("rule_" + id + "_add") == Some(id)
  {
    SecondFieldCut(id, "add");
    assert "rule_" + id + "_" + "add" == "rule_" + id + "_add";
  }

  /** Ids present, pairwise distinct and free of underscores, as the load step hands them out. */
  predicate WellIdentified(rules: seq<Rule>)
  {
    (forall k :: 0 <= k < |rules| ==> rules[k].id.Some? && '_' !in rules[k].id.value) &&
    (forall j, k :: 0 <= j < k < |rules| ==> rules[j].id != rules[k].id)
  }

  /**
   Every rule without conditions, whose error `validateForm` reports, is
   expanded when the page scrolls to the errors; the other rules keep their
   `active` flag.
   */
  lemma ValidationErrorsExpandEmptyRules(rules: seq<Rule>, k: nat)
    requires WellIdentified(rules)
    requires k < |rules|
    ensures ExpandAll(rules, Validator.RuleErrors(rules))[k].active ==
              if |rules[k].conditions| == 0 then Some(true) else rules[k].active
  {
    var names := Validator.RuleErrors(rules);
    ExpandAllEffect(rules, names, k);
    if |rules[k].conditions| == 0 {
      var key := Validator.RuleErrorKey(rules[k]);
      Validator.RuleErrorScoping(rules, key);
      var i :| 0 <= i < |names| && names[i] == key;
      ErrorKeyOfRule(rules, k);
    } else if Targeted(rules, names, k) {
      var i :| 0 <= i < |names| && Target(rules, names[i]) == Some(k);
      Validator.RuleErrorScoping(rules, names[i]);
      assert names[i] in names;
      var j :| 0 <= j < |rules| && |rules[j].conditions| == 0 && names[i] == Validator.RuleErrorKey(rules[j]);
      ErrorKeyOfRule(rules, j);
      assert false;
    }
  }

  /** The second field of `rule_<x>_<tail>` is x when x has no underscore, whatever the tail. */
  lemma SecondFieldCut(x: string, tail: string)
    requires '_' !in x
    ensures SecondField("rule_" + x + "_" + tail) == Some(x)
  {
    var name := "rule_" + x + "_" + tail;
    assert name[..4] == "rule" && name[4] == '_';
    assert FirstIndex(name, '_') == 4;
    var rest := name[5..];
    assert rest == x + "_" + tail;
    assert rest[..|x|] == x && rest[|x|] == '_';
    assert FirstIndex(rest, '_') == |x|;
  }

  /**
   An id containing an underscore is cut at it when read back from the error
   key: a rule without conditions whose id is "a_b" reports "rule_a_b_add",
   which points at id "a", so the rule is not expanded.
   */
  lemma UnderscoreIdNotExpanded(r: Rule)
    requires r.id == Some("a_b") && |r.conditions| == 0
    ensures Validator.RuleErrors([r]) == ["rule_a_b_add"]
    ensures SecondField("rule_a_b_add") == Some("a")
    ensures ExpandAll([r], Validator.RuleErrors([r])) == [r]
  {
    UnderscoreIdKey(r);
    UnderscoreIdMissed(r);
    var names := ["rule_a_b_add"];
    assert names[..0] == [];
  }

  lemma UnderscoreIdKey(r: Rule)
    requires r.id == Some("a_b") && |r.conditions| == 0
    ensures Validator.RuleErrors([r]) == ["rule_a_b_add"]
  {
    var rules := [r];
    assert rules[..0] == [];
    assert Validator.RuleErrorKey(r) == "rule_a_b_add";
  }

  lemma UnderscoreIdMissed(r: Rule)
    requires r.id == Some("a_b")
    ensures SecondField("rule_a_b_add") == Some("a")
    ensures Target([r], "rule_a_b_add").None?
  {
    UnderscoreKeyField();
    assert |"a_b"| != |"a"|;
    assert "rule" <= "rule_a_b_add";
  }

  lemma UnderscoreKeyField()
    ensures SecondField("rule_a_b_add") == Some("a")
  {
    var key := "rule_a_b_add";
    assert key == "rule_" + "a" + "_" + "b_add";
    SecondFieldCut("a", "b_add");
  }

  /** A rule's error key points back at that rule. */
  lemma ErrorKeyOfRule(rules: seq<Rule>, k: nat)
    requires WellIdentified(rules)
    requires k < |rules|
    ensures Target(rules, Validator.RuleErrorKey(rules[k])) == Some(k)
  {
    var id := rules[k].id.value;
    assert Validator.RuleErrorKey(rules[k]) == "rule_" + id + "_add";
    ErrorKeyNamesRule(id);
    assert StartsWith("rule_" + id + "_add", "rule");
  }
}
