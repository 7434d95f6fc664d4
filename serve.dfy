/**
 How a serve is shown and when it is pushed into the form
 (ui/src/pages/targeting/index.tsx): the human-readable view of a serve used
 by the publish dialog's diff (`preDiffServe`, lines 535-552), the label of
 the variation served while the toggle is disabled (`disabledText`, lines
 504-508), and the guards that decide whether a serve is written into the
 form (lines 274-283 for rule serves, 314-323 for the disabled and default
 serves).
 */
module ServeResolution {
  import opened TargetingTypes

  /** One entry of a percentage split, shown against the variation's name. */
  datatype SplitLabel = SplitLabel(name: string, weight: int)

  /** A serve in terms of variation names instead of indices. */
  datatype ServeSummary = ServeSummary(select: Option<string>, split: Option<seq<SplitLabel>>)

  /**
   The three outcomes of `preDiffServe`: `undefined` when the serve or the
   variation list is missing, a summary, or a thrown TypeError when an index
   has no variation behind it.
   */
  datatype Resolution = Unresolved | Resolved(summary: ServeSummary) | LookupError

  /** `select`, when present, names an existing variation. */
  predicate SelectInRange(s: Serve, n: nat)
  {
    s.select.Some? ==> 0 <= s.select.value < n
  }

  /** The split, when present, has no more weights than there are variations. */
  predicate SplitInRange(s: Serve, n: nat)
  {
    s.split.Some? ==> |s.split.value| <= n
  }

  function SplitLabels(weights: seq<int>, vs: seq<Variation>): seq<SplitLabel>
    requires |weights| <= |vs|
  {
    seq(|weights|, k requires 0 <= k < |weights| => SplitLabel(vs[k].name, weights[k]))
  }

  /**
   `preDiffServe`: the select index is replaced by the name of the variation
   it points at, and weight k of a split is paired with the name of variation
   k. Reading a variation that does not exist throws.
   */
  function PreDiffServe(serve: Option<Serve>, variations: Option<seq<Variation>>): (r: Resolution)
    ensures r.Unresolved? <==> serve.None? || variations.None?
    ensures r.LookupError? <==>
              serve.Some? && variations.Some? &&
              !(SelectInRange(serve.value, |variations.value|) && SplitInRange(serve.value, |variations.value|))
    ensures r.Resolved? ==>
              var s, vs := serve.value, variations.value;
              (r.summary.select.Some? <==> s.select.Some?) &&
              (s.select.Some? ==> r.summary.select.value == vs[s.select.value].name) &&
              (r.summary.split.Some? <==> s.split.Some?) &&
              (s.split.Some? ==>
                 |r.summary.split.value| == |s.split.value| &&
                 forall k :: 0 <= k < |s.split.value| ==>
                   r.summary.split.value[k] == SplitLabel(vs[k].name, s.split.value[k]))
  {
    if serve.None? || variations.None? then Unresolved
    else
      var s, vs := serve.value, variations.value;
      if !SelectInRange(s, |vs|) || !SplitInRange(s, |vs|) then LookupError
      else
        Resolved(ServeSummary(
          if s.select.Some? then Some(vs[s.select.value].name) else None,
          if s.split.Some? then Some(SplitLabels(s.split.value, vs)) else None))
  }

  /**
   `disabledText`: the name of the variation served while the toggle is
   disabled, or its value when the name is empty; nothing when `select` is
   absent or points past the list.
   */
  function DisabledText(s: Serve, vs: seq<Variation>): (r: Option<string>)
    ensures r.Some? <==> s.select.Some? && 0 <= s.select.value < |vs|
    ensures r.Some? ==>
              var v := vs[s.select.value];
              r.value == (if v.name != "" then v.name else v.value)
  {
    if s.select.Some? && 0 <= s.select.value < |vs| then
      var v := vs[s.select.value];
      Some(if v.name == "" then v.value else v.name)
    else None
  }

  // ---------------------------------------------------------------- form guards

  /**
   A rule's serve is written into the form unless it has a `select` that is
   not below the number of variations (lines 274-283).
   */
  function RuleServeProjected(serve: Option<Serve>, n: nat): (r: bool)
    ensures serve.None? ==> r
    ensures serve.Some? && SelectInRange(serve.value, n) ==> r
    ensures r && serve.Some? && serve.value.select.Some? && serve.value.select.value >= 0 ==>
              SelectInRange(serve.value, n)
  {
    serve.Some? && serve.value.select.Some? ==> serve.value.select.value < n
  }

  /** The disabled serve is written only when its `select` is below the number of variations (lines 314-320). */
  function DisabledServeProjected(s: Serve, n: nat): (r: bool)
    ensures r ==> s.select.Some?
    ensures s.select.Some? && s.select.value >= 0 ==> (r <==> SelectInRange(s, n))
  {
    s.select.Some? && s.select.value < n
  }

  /** The default serve is written whenever it has a `select` or a `split`, unchecked (lines 321-323). */
  function DefaultServeProjected(s: Serve): (r: bool)
    ensures r <==> s != Serve(None, None)
  {
    s.select.Some? || s.split.Some?
  }

  // ---------------------------------------------------------------- lemmas

  /**
   For a serve whose split fits and whose select is not negative, the rule
   guard lets the serve through exactly when the diff view can resolve it.
   */
  lemma RuleGuardMatchesResolution(serve: Serve, vs: seq<Variation>)
    requires SplitInRange(serve, |vs|)
    requires serve.select.Some? ==> serve.select.value >= 0
    ensures RuleServeProjected(Some(serve), |vs|) <==> PreDiffServe(Some(serve), Some(vs)).Resolved?
  {
  }

  /**
   For a non-negative select, the disabled-serve guard holds exactly when the
   disabled label exists, and the label is then the diff view's name for that
   variation unless the name is empty.
   */
  lemma DisabledGuardMatchesLabel(s: Serve, vs: seq<Variation>)
    requires s.select.Some? ==> s.select.value >= 0
    ensures DisabledServeProjected(s, |vs|) <==> DisabledText(s, vs).Some?
    ensures DisabledText(s, vs).Some? && SplitInRange(s, |vs|) ==>
              var r := PreDiffServe(Some(s), Some(vs));
              r.Resolved? && r.summary.select.Some? &&
              (r.summary.select.value != "" ==> DisabledText(s, vs) == r.summary.select)
  {
  }

  /**
   A negative `select` passes both the rule guard and the disabled guard,
   although no variation stands behind it: the diff view throws on it and
   the disabled label is absent.
   */
  lemma NegativeSelectPassesGuards(s: Serve, vs: seq<Variation>)
    requires s.select.Some? && s.select.value < 0
    ensures RuleServeProjected(Some(s), |vs|) && DisabledServeProjected(s, |vs|)
    ensures PreDiffServe(Some(s), Some(vs)).LookupError?
    ensures DisabledText(s, vs).None?
  {
  }

  /**
   A serve with only a split, carrying more weights than there are
   variations, passes the rule guard and the default guard, which look at
   `select` alone or not at all, and the diff view throws on it.
   */
  lemma SplitOnlyRuleServe(s: Serve, vs: seq<Variation>)
    requires s.select.None? && s.split.Some? && |s.split.value| > |vs|
    ensures RuleServeProjected(Some(s), |vs|) && DefaultServeProjected(s)
    ensures PreDiffServe(Some(s), Some(vs)).LookupError?
  {
  }

  /**
   The default-serve guard checks no index: a default serve selecting one
   past the last variation is written into the form, and the diff view throws
   on it.
   */
  lemma DefaultGuardHasNoRangeCheck(vs: seq<Variation>, split: Option<seq<int>>)
    ensures var s := Serve(Some(|vs|), split);
            DefaultServeProjected(s) && PreDiffServe(Some(s), Some(vs)).LookupError?
  {
  }

  /**
   The diff view of a serve depends on the variations only through their
   names: two lists of the same length with the same names give the same
   view, whatever their ids, values and descriptions.
   */
  lemma ResolutionSeesOnlyNames(serve: Option<Serve>, vs: seq<Variation>, ws: seq<Variation>)
    requires |vs| == |ws|
    requires forall k :: 0 <= k < |vs| ==> vs[k].name == ws[k].name
    ensures PreDiffServe(serve, Some(vs)) == PreDiffServe(serve, Some(ws))
  {
    if serve.Some? && SelectInRange(serve.value, |vs|) && SplitInRange(serve.value, |vs|) {
      var s := serve.value;
      if s.split.Some? {
        assert SplitLabels(s.split.value, vs) == SplitLabels(s.split.value, ws);
      }
    }
  }
}
