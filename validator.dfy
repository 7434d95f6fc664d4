/**
 The completeness check run before publishing (`validateForm`,
 ui/src/pages/targeting/index.tsx:390-421). It reports an error key for every
 rule without conditions and for every variation whose value is empty once
 whitespace is removed, and returns whether any error was reported. The
 form-library side effect (`setError`) is modelled as the returned sequence of
 error keys, in the order they are set.
 */
module Validator {
  import opened TargetingTypes

  predicate IsWhitespace(ch: char)
  {
    ch == ' ' || ch == '\t' || ch == '\n' || ch == '\r'
  }

  /** `replaceSpace` applied to a value: every whitespace character removed. */
  function ReplaceSpace(s: string): (r: string)
    ensures |r| <= |s|
    ensures forall i :: 0 <= i < |r| ==> !IsWhitespace(r[i])
    decreases |s|
  {
    if s == [] then []
    else if IsWhitespace(s[0]) then ReplaceSpace(s[1..])
    else [s[0]] + ReplaceSpace(s[1..])
  }

  /** A value is blank after `replaceSpace` exactly when it is made of whitespace only. */
  lemma {:induction false} ReplaceSpaceEmpty(s: string)
    ensures ReplaceSpace(s) == [] <==> forall i :: 0 <= i < |s| ==> IsWhitespace(s[i])
    decreases |s|
  {
    if s != [] {
      ReplaceSpaceEmpty(s[1..]);
      if IsWhitespace(s[0]) {
        assert forall i :: 1 <= i < |s| ==> s[i] == s[1..][i - 1];
      }
    }
  }

  /**
   `ReplaceSpace` is a filter that keeps order: it distributes over
   concatenation and keeps a single character exactly when that character is
   not whitespace, which together determine the result for every string.
   */
  lemma {:induction false} ReplaceSpaceFilters(a: string, b: string)
    ensures ReplaceSpace(a + b) == ReplaceSpace(a) + ReplaceSpace(b)
    ensures |a| == 1 ==> ReplaceSpace(a) == (if IsWhitespace(a[0]) then [] else a)
    decreases |a|
  {
    if a == [] {
      assert a + b == b;
    } else {
      var ab := a + b;
      assert ab[0] == a[0] && ab[1..] == a[1..] + b;
      ReplaceSpaceFilters(a[1..], b);
      if !IsWhitespace(a[0]) {
        assert ReplaceSpace(ab) == [a[0]] + ReplaceSpace(a[1..] + b);
      }
    }
  }

  /** `ReplaceSpace` keeps exactly the characters of its input that are not whitespace. */
  lemma {:induction false} ReplaceSpaceKeeps(s: string, ch: char)
    ensures ch in ReplaceSpace(s) <==> ch in s && !IsWhitespace(ch)
    decreases |s|
  {
    if s != [] {
      ReplaceSpaceKeeps(s[1..], ch);
      assert ch in s <==> ch == s[0] || ch in s[1..];
    }
  }

  predicate BlankValue(v: Variation)
  {
    ReplaceSpace(v.value) == []
  }

  function RuleErrorKey(r: Rule): string
  {
    "rule_" + JsText(r.id) + "_add"
  }

  /** The key depends on whether the toggle's return type is boolean. */
  function VariationErrorKey(v: Variation, returnType: Option<string>): string
  {
    if returnType == Some("boolean") then "variation_" + JsText(v.id) + "_normal"
    else "variation_" + JsText(v.id)
  }

  /** The rule error keys, in rule order. */
  function RuleErrors(rules: seq<Rule>): (r: seq<string>)
    ensures forall k :: 0 <= k < |r| ==> "rule_" <= r[k]
    decreases |rules|
  {
    if rules == [] then []
    else
      var last := rules[|rules| - 1];
      RuleErrors(rules[..|rules| - 1]) + (if |last.conditions| == 0 then [RuleErrorKey(last)] else [])
  }

  /** The variation error keys, in variation order. */
  function VariationErrors(vs: seq<Variation>, returnType: Option<string>): (r: seq<string>)
    ensures forall k :: 0 <= k < |r| ==> "variation_" <= r[k]
    decreases |vs|
  {
    if vs == [] then []
    else
      var last := vs[|vs| - 1];
      VariationErrors(vs[..|vs| - 1], returnType) +
      (if BlankValue(last) then [VariationErrorKey(last, returnType)] else [])
  }

  predicate HasEmptyRule(rules: seq<Rule>)
  {
    exists k :: 0 <= k < |rules| && |rules[k].conditions| == 0
  }

  predicate HasBlankVariation(vs: seq<Variation>)
  {
    exists k :: 0 <= k < |vs| && BlankValue(vs[k])
  }

  /**
   `validateForm`: the error flag is raised exactly when some rule has no
   condition or some variation is blank, and the keys are those of the
   specification functions; the inputs are values, so nothing is changed.
   */
  method ValidateForm(rules: seq<Rule>, variations: seq<Variation>, returnType: Option<string>)
    returns (isError: bool, errors: seq<string>)
    ensures errors == RuleErrors(rules) + VariationErrors(variations, returnType)
    ensures isError <==> HasEmptyRule(rules) || HasBlankVariation(variations)
    ensures isError <==> errors != []
  {
    var ruleErrors := ScanRules(rules);
    var variationErrors := ScanVariations(variations, returnType);
    errors := ruleErrors + variationErrors;
    isError := ruleErrors != [] || variationErrors != [];
    RuleErrorsEmpty(rules);
    VariationErrorsEmpty(variations, returnType);
  }

  /** The `forEach` over the rules: one key per rule without conditions, in order. */
  method ScanRules(rules: seq<Rule>) returns (errors: seq<string>)
    ensures errors == RuleErrors(rules)
  {
    errors := [];
    var i := 0;
    while i < |rules|
      invariant 0 <= i <= |rules|
      invariant errors == RuleErrors(rules[..i])
    {
      RuleErrorsStep(rules, i);
      if |rules[i].conditions| == 0 {
        errors := errors + [RuleErrorKey(rules[i])];
      }
      i := i + 1;
    }
    assert rules[..i] == rules;
  }

  /** The `forEach` over the variations: one key per blank variation, in order. */
  method ScanVariations(variations: seq<Variation>, returnType: Option<string>) returns (errors: seq<string>)
    ensures errors == VariationErrors(variations, returnType)
  {
    errors := [];
    var j := 0;
    while j < |variations|
      invariant 0 <= j <= |variations|
      invariant errors == VariationErrors(variations[..j], returnType)
    {
      VariationErrorsStep(variations, returnType, j);
      if BlankValue(variations[j]) {
        errors := errors + [VariationErrorKey(variations[j], returnType)];
      }
      j := j + 1;
    }
    assert variations[..j] == variations;
  }

  /** One more rule adds its key exactly when it has no condition. */
  lemma RuleErrorsStep(rules: seq<Rule>, i: nat)
    requires i < |rules|
    ensures RuleErrors(rules[..i + 1]) ==
            RuleErrors(rules[..i]) + (if |rules[i].conditions| == 0 then [RuleErrorKey(rules[i])] else [])
  {
    assert rules[..i + 1][..i] == rules[..i];
    assert rules[..i + 1][i] == rules[i];
  }

  /** One more variation adds its key exactly when it is blank. */
  lemma VariationErrorsStep(vs: seq<Variation>, returnType: Option<string>, j: nat)
    requires j < |vs|
    ensures VariationErrors(vs[..j + 1], returnType) ==
            VariationErrors(vs[..j], returnType) +
            (if BlankValue(vs[j]) then [VariationErrorKey(vs[j], returnType)] else [])
  {
    assert vs[..j + 1][..j] == vs[..j];
    assert vs[..j + 1][j] == vs[j];
  }

  lemma {:induction false} RuleErrorsEmpty(rules: seq<Rule>)
    ensures RuleErrors(rules) == [] <==> !HasEmptyRule(rules)
    decreases |rules|
  {
    if rules != [] {
      var init := rules[..|rules| - 1];
      RuleErrorsEmpty(init);
      if HasEmptyRule(init) {
        var k :| 0 <= k < |init| && |init[k].conditions| == 0;
        assert rules[k] == init[k];
      }
      if HasEmptyRule(rules) {
        var k :| 0 <= k < |rules| && |rules[k].conditions| == 0;
        if k < |rules| - 1 { assert init[k] == rules[k]; }
      }
    }
  }

  lemma {:induction false} VariationErrorsEmpty(vs: seq<Variation>, returnType: Option<string>)
    ensures VariationErrors(vs, returnType) == [] <==> !HasBlankVariation(vs)
    decreases |vs|
  {
    if vs != [] {
      var init := vs[..|vs| - 1];
      VariationErrorsEmpty(init, returnType);
      if HasBlankVariation(init) {
        var k :| 0 <= k < |init| && BlankValue(init[k]);
        assert vs[k] == init[k];
      }
      if HasBlankVariation(vs) {
        var k :| 0 <= k < |vs| && BlankValue(vs[k]);
        if k < |vs| - 1 { assert init[k] == vs[k]; }
      }
    }
  }

  /**
   Rule errors are scoped to their rule: the keys of a concatenation of rule
   lists are the keys of each list, so a rule's error does not depend on the
   other rules.
   */
  lemma {:induction false} RuleErrorsCompose(a: seq<Rule>, b: seq<Rule>)
    ensures RuleErrors(a + b) == RuleErrors(a) + RuleErrors(b)
    decreases |b|
  {
    if b == [] {
      assert a + b == a;
    } else {
      var initB := b[..|b| - 1];
      RuleErrorsCompose(a, initB);
      assert (a + b)[..|a + b| - 1] == a + initB;
      assert (a + b)[|a + b| - 1] == b[|b| - 1];
    }
  }

  /**
   Every rule without conditions produces its own key, and every key produced
   for rules belongs to a rule without conditions.
   */
  lemma {:induction false} RuleErrorScoping(rules: seq<Rule>, key: string)
    ensures key in RuleErrors(rules) <==>
            exists k :: 0 <= k < |rules| && |rules[k].conditions| == 0 && key == RuleErrorKey(rules[k])
    decreases |rules|
  {
    if rules != [] {
      var init := rules[..|rules| - 1];
      RuleErrorScoping(init, key);
      if key in RuleErrors(init) {
        var k :| 0 <= k < |init| && |init[k].conditions| == 0 && key == RuleErrorKey(init[k]);
        assert rules[k] == init[k];
      }
      if exists k :: 0 <= k < |rules| && |rules[k].conditions| == 0 && key == RuleErrorKey(rules[k]) {
        var k :| 0 <= k < |rules| && |rules[k].conditions| == 0 && key == RuleErrorKey(rules[k]);
        if k < |rules| - 1 {
          assert init[k] == rules[k];
        }
      }
    }
  }

  /**
   Every blank variation produces its key (with the `_normal` suffix for a
   boolean toggle), and every variation key belongs to a blank variation.
   */
  lemma {:induction false} VariationErrorScoping(vs: seq<Variation>, returnType: Option<string>, key: string)
    ensures key in VariationErrors(vs, returnType) <==>
            exists k :: 0 <= k < |vs| && BlankValue(vs[k]) && key == VariationErrorKey(vs[k], returnType)
    decreases |vs|
  {
    if vs != [] {
      var init := vs[..|vs| - 1];
      VariationErrorScoping(init, returnType, key);
      if key in VariationErrors(init, returnType) {
        var k :| 0 <= k < |init| && BlankValue(init[k]) && key == VariationErrorKey(init[k], returnType);
        assert vs[k] == init[k];
      }
      if exists k :: 0 <= k < |vs| && BlankValue(vs[k]) && key == VariationErrorKey(vs[k], returnType) {
        var k :| 0 <= k < |vs| && BlankValue(vs[k]) && key == VariationErrorKey(vs[k], returnType);
        if k < |vs| - 1 {
          assert init[k] == vs[k];
        }
      }
    }
  }
}
