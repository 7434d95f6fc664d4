/**
 The structural difference between two targeting values, as the `deep-diff`
 library reports it to the change classifier
 (ui/src/pages/targeting/index.tsx:593-628).

 A difference record has a kind and a path:
 - E: a primitive value differs at `path`;
 - N: a property exists only on the right-hand side;
 - D: a property exists only on the left-hand side;
 - A: an array has an element at an index the other array lacks (`path` is
   the array's path).
 Arrays are compared index by index; objects property by property. The order
 of the records is not significant to the classifier and is not modelled.
 */
module DeepDiff {
  import opened TargetingTypes

  datatype Kind = E | N | D | A

  datatype PathElem = Idx(index: nat) | Key(name: string)

  datatype Change = Change(kind: Kind, path: seq<PathElem>)

  predicate HasPrefix(c: Change, p: seq<PathElem>)
  {
    |p| <= |c.path| && c.path[..|p|] == p
  }

  /** Two primitive values: one E record when they differ. */
  function DiffValue<T(==)>(path: seq<PathElem>, a: T, b: T): seq<Change>
  {
    if a == b then [] else [Change(E, path)]
  }

  function DiffString(path: seq<PathElem>, a: string, b: string): seq<Change>
  {
    DiffValue(path, a, b)
  }

  function DiffNumber(path: seq<PathElem>, a: int, b: int): seq<Change>
  {
    DiffValue(path, a, b)
  }

  function DiffBool(path: seq<PathElem>, a: bool, b: bool): seq<Change>
  {
    DiffValue(path, a, b)
  }

  /** An optional property: N when only the right has it, D when only the left has it. */
  function DiffProperty<T>(path: seq<PathElem>, a: Option<T>, b: Option<T>,
                           f: (seq<PathElem>, T, T) -> seq<Change>): seq<Change>
  {
    match (a, b)
    case (None, None) => []
    case (None, Some(_)) => [Change(N, path)]
    case (Some(_), None) => [Change(D, path)]
    case (Some(x), Some(y)) => f(path, x, y)
  }

  /** The path of element i of the array at `path`. */
  function ElemPath(path: seq<PathElem>, i: nat): seq<PathElem>
  {
    path + [Idx(i)]
  }

  /**
   Two arrays compared from index `start` on: common indices element by
   element, then one A record per index only one side has.
   */
  function DiffArray<T>(path: seq<PathElem>, a: seq<T>, b: seq<T>, start: nat,
                        f: (seq<PathElem>, T, T) -> seq<Change>): seq<Change>
    decreases |a| + |b|
  {
    if a == [] && b == [] then []
    else if a == [] then [Change(A, path)] + DiffArray(path, [], b[1..], start + 1, f)
    else if b == [] then [Change(A, path)] + DiffArray(path, a[1..], [], start + 1, f)
    else f(ElemPath(path, start), a[0], b[0]) + DiffArray(path, a[1..], b[1..], start + 1, f)
  }

  function DiffStrings(path: seq<PathElem>, a: seq<string>, b: seq<string>): seq<Change>
  {
    DiffArray(path, a, b, 0, DiffString)
  }

  function DiffNumbers(path: seq<PathElem>, a: seq<int>, b: seq<int>): seq<Change>
  {
    DiffArray(path, a, b, 0, DiffNumber)
  }

  function DiffServe(path: seq<PathElem>, a: Serve, b: Serve): seq<Change>
  {
    DiffProperty(path + [Key("select")], a.select, b.select, DiffNumber) +
    DiffProperty(path + [Key("split")], a.split, b.split, DiffNumbers)
  }

  function DiffCondition(path: seq<PathElem>, a: Condition, b: Condition): seq<Change>
  {
    DiffProperty(path + [Key("id")], a.id, b.id, DiffString) +
    DiffString(path + [Key("type")], a.ctype, b.ctype) +
    DiffProperty(path + [Key("subject")], a.subject, b.subject, DiffString) +
    DiffString(path + [Key("predicate")], a.op, b.op) +
    DiffProperty(path + [Key("objects")], a.objects, b.objects, DiffStrings) +
    DiffProperty(path + [Key("datetime")], a.datetime, b.datetime, DiffString) +
    DiffProperty(path + [Key("timezone")], a.timezone, b.timezone, DiffString)
  }

  function DiffConditions(path: seq<PathElem>, a: seq<Condition>, b: seq<Condition>): seq<Change>
  {
    DiffArray(path, a, b, 0, DiffCondition)
  }

  function DiffVariation(path: seq<PathElem>, a: Variation, b: Variation): seq<Change>
  {
    DiffProperty(path + [Key("id")], a.id, b.id, DiffString) +
    DiffString(path + [Key("name")], a.name, b.name) +
    DiffString(path + [Key("value")], a.value, b.value) +
    DiffProperty(path + [Key("description")], a.description, b.description, DiffString)
  }

  function DiffRule(path: seq<PathElem>, a: Rule, b: Rule): seq<Change>
  {
    DiffProperty(path + [Key("id")], a.id, b.id, DiffString) +
    DiffProperty(path + [Key("active")], a.active, b.active, DiffBool) +
    DiffProperty(path + [Key("name")], a.name, b.name, DiffString) +
    DiffConditions(path + [Key("conditions")], a.conditions, b.conditions) +
    DiffProperty(path + [Key("serve")], a.serve, b.serve, DiffServe)
  }

  /** `diff(before.variations, after.variations)`, an empty list standing for `undefined`. */
  function DiffVariations(a: seq<Variation>, b: seq<Variation>): seq<Change>
  {
    DiffArray([], a, b, 0, DiffVariation)
  }

  /** `diff(before.rules, after.rules)`. */
  function DiffRules(a: seq<Rule>, b: seq<Rule>): seq<Change>
  {
    DiffArray([], a, b, 0, DiffRule)
  }

  // ------------------------------------------------------------ exactness

  /** A differ that reports nothing exactly on equal values. */
  ghost predicate Exact<T(!new)>(f: (seq<PathElem>, T, T) -> seq<Change>)
  {
    forall p, x, y :: f(p, x, y) == [] <==> x == y
  }

  /** A differ whose records all lie under the path it was given. */
  ghost predicate Prefixed<T(!new)>(f: (seq<PathElem>, T, T) -> seq<Change>)
  {
    forall p, x, y, c :: c in f(p, x, y) ==> HasPrefix(c, p)
  }

  lemma PrefixShorten(c: Change, p: seq<PathElem>, q: seq<PathElem>)
    requires HasPrefix(c, p + q)
    ensures HasPrefix(c, p)
  {
    assert c.path[..|p|] == c.path[..|p + q|][..|p|];
  }

  lemma ValueDiffersExact()
    ensures Exact(DiffString) && Prefixed(DiffString)
    ensures Exact(DiffNumber) && Prefixed(DiffNumber)
    ensures Exact(DiffBool) && Prefixed(DiffBool)
  {
    forall p: seq<PathElem>, x: string, y: string, c | c in DiffString(p, x, y)
      ensures HasPrefix(c, p)
    {
      assert c.path == p;
    }
    forall p: seq<PathElem>, x: int, y: int, c | c in DiffNumber(p, x, y)
      ensures HasPrefix(c, p)
    {
      assert c.path == p;
    }
    forall p: seq<PathElem>, x: bool, y: bool, c | c in DiffBool(p, x, y)
      ensures HasPrefix(c, p)
    {
      assert c.path == p;
    }
  }

  lemma DiffPropertyExact<T(!new)>(path: seq<PathElem>, a: Option<T>, b: Option<T>,
                             f: (seq<PathElem>, T, T) -> seq<Change>)
    requires Exact(f)
    ensures DiffProperty(path, a, b, f) == [] <==> a == b
  {
    if a.Some? && b.Some? {
      assert f(path, a.value, b.value) == [] <==> a.value == b.value;
    }
  }

  lemma DiffPropertyPrefixed<T(!new)>(path: seq<PathElem>, a: Option<T>, b: Option<T>,
                                f: (seq<PathElem>, T, T) -> seq<Change>)
    requires Prefixed(f)
    ensures forall c :: c in DiffProperty(path, a, b, f) ==> HasPrefix(c, path)
  {
  }

  /** An array diff is empty exactly on equal arrays, when the element differ is exact. */
  lemma {:induction false} DiffArrayExact<T(!new)>(path: seq<PathElem>, a: seq<T>, b: seq<T>, start: nat,
                                             f: (seq<PathElem>, T, T) -> seq<Change>)
    requires Exact(f)
    ensures DiffArray(path, a, b, start, f) == [] <==> a == b
    decreases |a| + |b|
  {
    if a != [] && b != [] {
      DiffArrayExact(path, a[1..], b[1..], start + 1, f);
      assert f(ElemPath(path, start), a[0], b[0]) == [] <==> a[0] == b[0];
      if a[0] == b[0] && a[1..] == b[1..] {
        assert a == [a[0]] + a[1..] && b == [b[0]] + b[1..];
      }
    }
  }

  lemma {:induction false} DiffArrayPrefixed<T(!new)>(path: seq<PathElem>, a: seq<T>, b: seq<T>, start: nat,
                                                f: (seq<PathElem>, T, T) -> seq<Change>)
    requires Prefixed(f)
    ensures forall c :: c in DiffArray(path, a, b, start, f) ==> HasPrefix(c, path)
    decreases |a| + |b|
  {
    if a == [] && b == [] {
    } else if a == [] {
      DiffArrayPrefixed(path, [], b[1..], start + 1, f);
    } else if b == [] {
      DiffArrayPrefixed(path, a[1..], [], start + 1, f);
    } else {
      DiffArrayPrefixed(path, a[1..], b[1..], start + 1, f);
      forall c | c in f(ElemPath(path, start), a[0], b[0])
        ensures HasPrefix(c, path)
      {
        PrefixShorten(c, path, [Idx(start)]);
      }
    }
  }

  lemma ArrayDiffersExact()
    ensures Exact(DiffStrings) && Prefixed(DiffStrings)
    ensures Exact(DiffNumbers) && Prefixed(DiffNumbers)
  {
    ValueDiffersExact();
    forall p, x, y ensures DiffStrings(p, x, y) == [] <==> x == y {
      DiffArrayExact(p, x, y, 0, DiffString);
    }
    forall p, x, y ensures forall c :: c in DiffStrings(p, x, y) ==> HasPrefix(c, p) {
      DiffArrayPrefixed(p, x, y, 0, DiffString);
    }
    forall p, x, y ensures DiffNumbers(p, x, y) == [] <==> x == y {
      DiffArrayExact(p, x, y, 0, DiffNumber);
    }
    forall p, x, y ensures forall c :: c in DiffNumbers(p, x, y) ==> HasPrefix(c, p) {
      DiffArrayPrefixed(p, x, y, 0, DiffNumber);
    }
  }

  /** Serves: no record exactly when the two serves are equal; records lie under the path. */
  lemma ServeDifferExact()
    ensures Exact(DiffServe) && Prefixed(DiffServe)
  {
    ValueDiffersExact();
    ArrayDiffersExact();
    forall p, x: Serve, y: Serve ensures DiffServe(p, x, y) == [] <==> x == y {
      DiffPropertyExact(p + [Key("select")], x.select, y.select, DiffNumber);
      DiffPropertyExact(p + [Key("split")], x.split, y.split, DiffNumbers);
    }
    forall p, x: Serve, y: Serve, c | c in DiffServe(p, x, y) ensures HasPrefix(c, p) {
      DiffPropertyPrefixed(p + [Key("select")], x.select, y.select, DiffNumber);
      DiffPropertyPrefixed(p + [Key("split")], x.split, y.split, DiffNumbers);
      if c in DiffProperty(p + [Key("select")], x.select, y.select, DiffNumber) {
        PrefixShorten(c, p, [Key("select")]);
      } else {
        PrefixShorten(c, p, [Key("split")]);
      }
    }
  }

  lemma ConditionDifferExact()
    ensures Exact(DiffCondition) && Prefixed(DiffCondition)
  {
    ValueDiffersExact();
    ArrayDiffersExact();
    forall p, x: Condition, y: Condition ensures DiffCondition(p, x, y) == [] <==> x == y {
      DiffPropertyExact(p + [Key("id")], x.id, y.id, DiffString);
      DiffPropertyExact(p + [Key("subject")], x.subject, y.subject, DiffString);
      DiffPropertyExact(p + [Key("objects")], x.objects, y.objects, DiffStrings);
      DiffPropertyExact(p + [Key("datetime")], x.datetime, y.datetime, DiffString);
      DiffPropertyExact(p + [Key("timezone")], x.timezone, y.timezone, DiffString);
    }
    forall p, x: Condition, y: Condition, c | c in DiffCondition(p, x, y) ensures HasPrefix(c, p) {
      ConditionChangePrefixed(p, x, y, c);
    }
  }

  lemma ConditionChangePrefixed(p: seq<PathElem>, x: Condition, y: Condition, c: Change)
    requires Prefixed(DiffString) && Prefixed(DiffStrings)
    requires c in DiffCondition(p, x, y)
    ensures HasPrefix(c, p)
  {
    var k: string;
    if c in DiffProperty(p + [Key("id")], x.id, y.id, DiffString) {
      k := "id";
    } else if c in DiffString(p + [Key("type")], x.ctype, y.ctype) {
      k := "type";
    } else if c in DiffProperty(p + [Key("subject")], x.subject, y.subject, DiffString) {
      k := "subject";
    } else if c in DiffString(p + [Key("predicate")], x.op, y.op) {
      k := "predicate";
    } else if c in DiffProperty(p + [Key("objects")], x.objects, y.objects, DiffStrings) {
      k := "objects";
    } else if c in DiffProperty(p + [Key("datetime")], x.datetime, y.datetime, DiffString) {
      k := "datetime";
    } else {
      assert c in DiffProperty(p + [Key("timezone")], x.timezone, y.timezone, DiffString);
      k := "timezone";
    }
    DiffPropertyPrefixed(p + [Key(k)], x.id, y.id, DiffString);
    DiffPropertyPrefixed(p + [Key(k)], x.subject, y.subject, DiffString);
    DiffPropertyPrefixed(p + [Key(k)], x.objects, y.objects, DiffStrings);
    DiffPropertyPrefixed(p + [Key(k)], x.datetime, y.datetime, DiffString);
    DiffPropertyPrefixed(p + [Key(k)], x.timezone, y.timezone, DiffString);
    assert HasPrefix(c, p + [Key(k)]);
    PrefixShorten(c, p, [Key(k)]);
  }

  lemma VariationDifferExact()
    ensures Exact(DiffVariation)
  {
    ValueDiffersExact();
    forall p, x: Variation, y: Variation ensures DiffVariation(p, x, y) == [] <==> x == y {
      DiffPropertyExact(p + [Key("id")], x.id, y.id, DiffString);
      DiffPropertyExact(p + [Key("description")], x.description, y.description, DiffString);
    }
  }

  lemma RuleDifferExact()
    ensures Exact(DiffRule)
  {
    ValueDiffersExact();
    ServeDifferExact();
    ConditionDifferExact();
    forall p, x: Rule, y: Rule ensures DiffRule(p, x, y) == [] <==> x == y {
      DiffPropertyExact(p + [Key("id")], x.id, y.id, DiffString);
      DiffPropertyExact(p + [Key("active")], x.active, y.active, DiffBool);
      DiffPropertyExact(p + [Key("name")], x.name, y.name, DiffString);
      DiffArrayExact(p + [Key("conditions")], x.conditions, y.conditions, 0, DiffCondition);
      DiffPropertyExact(p + [Key("serve")], x.serve, y.serve, DiffServe);
    }
  }

  /**
   `diff` reports nothing (is `undefined`) exactly when the two values are
   structurally equal, for variation lists, rule lists and serves alike.
   */
  lemma DiffEmptyIffEqual(va: seq<Variation>, vb: seq<Variation>, ra: seq<Rule>, rb: seq<Rule>, sa: Serve, sb: Serve)
    ensures DiffVariations(va, vb) == [] <==> va == vb
    ensures DiffRules(ra, rb) == [] <==> ra == rb
    ensures DiffServe([], sa, sb) == [] <==> sa == sb
  {
    VariationDifferExact();
    RuleDifferExact();
    ServeDifferExact();
    DiffArrayExact([], va, vb, 0, DiffVariation);
    DiffArrayExact([], ra, rb, 0, DiffRule);
  }
}
