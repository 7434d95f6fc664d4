/**
 The material-change classifier (ui/src/pages/targeting/index.tsx:593-628):
 when the publish dialog opens, the initial snapshot and the snapshot about to
 be published are compared, and the change is "material" when it can alter
 which variation users are served.
 - Any difference in `disabled`, `defaultServe` or `disabledServe` is material.
 - A variation difference record is material unless it is an edit (E) whose
   path names `name` or `description` in its second position.
 - A rule difference record is material unless it is an edit (E) whose path
   names `name` in its second position.
 */
module ChangeClassifier {
  import opened TargetingTypes
  import opened DeepDiff

  predicate MaterialVariationChange(c: Change)
  {
    c.kind != E || |c.path| < 2 || (c.path[1] != Key("name") && c.path[1] != Key("description"))
  }

  predicate MaterialRuleChange(c: Change)
  {
    c.kind != E || |c.path| < 2 || c.path[1] != Key("name")
  }

  predicate AnyChange(cs: seq<Change>, P: Change -> bool)
  {
    exists c :: c in cs && P(c)
  }

  /** What the page computes into `isDiffChange`. */
  function IsMaterialChange(before: Targeting, after: Targeting): (r: bool)
    ensures before.disabled != after.disabled ==> r
    ensures before.content.defaultServe != after.content.defaultServe ==> r
    ensures before.content.disabledServe != after.content.disabledServe ==> r
    ensures |before.content.variations| != |after.content.variations| ==> r
    ensures |before.content.rules| != |after.content.rules| ==> r
  {
    DiffEmptyIffEqual([], [], [], [], before.content.defaultServe, after.content.defaultServe);
    DiffEmptyIffEqual([], [], [], [], before.content.disabledServe, after.content.disabledServe);
    LengthChangeMaterial(before.content, after.content);
    DiffBool([], before.disabled, after.disabled) != [] ||
    DiffServe([], before.content.defaultServe, after.content.defaultServe) != [] ||
    DiffServe([], before.content.disabledServe, after.content.disabledServe) != [] ||
    AnyChange(DiffVariations(before.content.variations, after.content.variations), MaterialVariationChange) ||
    AnyChange(DiffRules(before.content.rules, after.content.rules), MaterialRuleChange)
  }

  /**
   The `forEach` over the variation diff: raises the flag on every record that
   is not an edit of `name` or `description`.
   */
  method ScanVariationDiff(diffVariation: seq<Change>, flag: bool) returns (isDiffChange: bool)
    ensures isDiffChange == (flag || AnyChange(diffVariation, MaterialVariationChange))
  {
    isDiffChange := flag;
    var i := 0;
    while i < |diffVariation|
      invariant 0 <= i <= |diffVariation|
      invariant isDiffChange <==> flag || exists j :: 0 <= j < i && MaterialVariationChange(diffVariation[j])
    {
      var item := diffVariation[i];
      if item.kind != E {
        isDiffChange := true;
      } else if item.kind == E && (|item.path| < 2 || (item.path[1] != Key("name") && item.path[1] != Key("description"))) {
        isDiffChange := true;
      }
      i := i + 1;
    }
    assert AnyChange(diffVariation, MaterialVariationChange) ==>
             exists j :: 0 <= j < |diffVariation| && MaterialVariationChange(diffVariation[j]);
  }

  /** The `forEach` over the rule diff: raises the flag on every record that is not an edit of `name`. */
  method ScanRuleDiff(diffRules: seq<Change>, flag: bool) returns (isDiffChange: bool)
    ensures isDiffChange == (flag || AnyChange(diffRules, MaterialRuleChange))
  {
    isDiffChange := flag;
    var k := 0;
    while k < |diffRules|
      invariant 0 <= k <= |diffRules|
      invariant isDiffChange <==> flag || exists j :: 0 <= j < k && MaterialRuleChange(diffRules[j])
    {
      var item := diffRules[k];
      if item.kind != E {
        isDiffChange := true;
      } else if item.kind == E && (|item.path| < 2 || item.path[1] != Key("name")) {
        isDiffChange := true;
      }
      k := k + 1;
    }
    assert AnyChange(diffRules, MaterialRuleChange) ==>
             exists j :: 0 <= j < |diffRules| && MaterialRuleChange(diffRules[j]);
  }

  /**
   The effect body: the flag starts false, is raised by the three top-level
   diffs, then by the scans of the variation diff and of the rule diff.
   */
  method ClassifyChange(before: Targeting, after: Targeting) returns (isDiffChange: bool)
    ensures isDiffChange == IsMaterialChange(before, after)
  {
    isDiffChange := false;
    if DiffBool([], before.disabled, after.disabled) != [] ||
       DiffServe([], before.content.defaultServe, after.content.defaultServe) != [] ||
       DiffServe([], before.content.disabledServe, after.content.disabledServe) != []
    {
      isDiffChange := true;
    }
    var diffVariation := DiffVariations(before.content.variations, after.content.variations);
    isDiffChange := ScanVariationDiff(diffVariation, isDiffChange);
    var diffRules := DiffRules(before.content.rules, after.content.rules);
    isDiffChange := ScanRuleDiff(diffRules, isDiffChange);
  }

  // ------------------------------------------------------------ lemmas

  lemma AnyConcat(a: seq<Change>, b: seq<Change>, P: Change -> bool)
    ensures AnyChange(a + b, P) <==> AnyChange(a, P) || AnyChange(b, P)
  {
    if AnyChange(a, P) {
      var c :| c in a && P(c);
      assert c in a + b;
    }
    if AnyChange(b, P) {
      var c :| c in b && P(c);
      assert c in a + b;
    }
  }

  /** A record satisfying P in the diff of one common index is a record of the array diff. */
  lemma {:induction false} DiffArrayAnyAt<T>(path: seq<PathElem>, a: seq<T>, b: seq<T>, start: nat,
                                             f: (seq<PathElem>, T, T) -> seq<Change>, P: Change -> bool, k: nat)
    requires k < |a| && k < |b|
    requires AnyChange(f(ElemPath(path, start + k), a[k], b[k]), P)
    ensures AnyChange(DiffArray(path, a, b, start, f), P)
    decreases k
  {
    var head := f(ElemPath(path, start), a[0], b[0]);
    var rest := DiffArray(path, a[1..], b[1..], start + 1, f);
    assert DiffArray(path, a, b, start, f) == head + rest;
    AnyConcat(head, rest, P);
    if k > 0 {
      assert a[1..][k - 1] == a[k] && b[1..][k - 1] == b[k];
      assert start + 1 + (k - 1) == start + k;
      DiffArrayAnyAt(path, a[1..], b[1..], start + 1, f, P, k - 1);
    }
  }

  /** A record satisfying P in the diff of equally long arrays comes from the diff of some common index. */
  lemma {:induction false} DiffArrayAnyWitness<T>(path: seq<PathElem>, a: seq<T>, b: seq<T>, start: nat,
                                                  f: (seq<PathElem>, T, T) -> seq<Change>, P: Change -> bool)
    returns (k: nat)
    requires |a| == |b|
    requires AnyChange(DiffArray(path, a, b, start, f), P)
    ensures k < |a| && AnyChange(f(ElemPath(path, start + k), a[k], b[k]), P)
    decreases |a|
  {
    var head := f(ElemPath(path, start), a[0], b[0]);
    var rest := DiffArray(path, a[1..], b[1..], start + 1, f);
    assert DiffArray(path, a, b, start, f) == head + rest;
    AnyConcat(head, rest, P);
    if AnyChange(head, P) {
      k := 0;
    } else {
      var j := DiffArrayAnyWitness(path, a[1..], b[1..], start + 1, f, P);
      assert a[1..][j] == a[j + 1] && b[1..][j] == b[j + 1];
      assert start + 1 + j == start + (j + 1);
      k := j + 1;
    }
  }

  /** Adding or removing a variation or a rule is material. */
  lemma LengthChangeMaterial(before: Content, after: Content)
    ensures |before.variations| != |after.variations| ==>
              AnyChange(DiffVariations(before.variations, after.variations), MaterialVariationChange)
    ensures |before.rules| != |after.rules| ==>
              AnyChange(DiffRules(before.rules, after.rules), MaterialRuleChange)
  {
    if |before.variations| != |after.variations| {
      DiffArrayLengths([], before.variations, after.variations, 0, DiffVariation, MaterialVariationChange);
    }
    if |before.rules| != |after.rules| {
      DiffArrayLengths([], before.rules, after.rules, 0, DiffRule, MaterialRuleChange);
    }
  }

  /** Arrays of different lengths always give an A record. */
  lemma {:induction false} DiffArrayLengths<T>(path: seq<PathElem>, a: seq<T>, b: seq<T>, start: nat,
                                               f: (seq<PathElem>, T, T) -> seq<Change>, P: Change -> bool)
    requires |a| != |b| && P(Change(A, path))
    ensures AnyChange(DiffArray(path, a, b, start, f), P)
    decreases |a| + |b|
  {
    if a == [] || b == [] {
      assert Change(A, path) in DiffArray(path, a, b, start, f);
    } else {
      var head := f(ElemPath(path, start), a[0], b[0]);
      var rest := DiffArray(path, a[1..], b[1..], start + 1, f);
      assert DiffArray(path, a, b, start, f) == head + rest;
      DiffArrayLengths(path, a[1..], b[1..], start + 1, f, P);
      AnyConcat(head, rest, P);
    }
  }

  /** `DiffArrayAnyWitness` for a top-level array. */
  lemma TopLevelWitness<T>(a: seq<T>, b: seq<T>, f: (seq<PathElem>, T, T) -> seq<Change>, P: Change -> bool)
    returns (k: nat)
    requires |a| == |b|
    requires AnyChange(DiffArray([], a, b, 0, f), P)
    ensures k < |a| && AnyChange(f([Idx(k)], a[k], b[k]), P)
  {
    k := DiffArrayAnyWitness([], a, b, 0, f, P);
    assert ElemPath([], 0 + k) == [Idx(k)];
  }

  /** `DiffArrayAnyAt` for a top-level array. */
  lemma TopLevelAt<T>(a: seq<T>, b: seq<T>, f: (seq<PathElem>, T, T) -> seq<Change>, P: Change -> bool, k: nat)
    requires k < |a| && k < |b|
    requires AnyChange(f([Idx(k)], a[k], b[k]), P)
    ensures AnyChange(DiffArray([], a, b, 0, f), P)
  {
    assert ElemPath([], 0 + k) == [Idx(k)];
    DiffArrayAnyAt([], a, b, 0, f, P, k);
  }
}
