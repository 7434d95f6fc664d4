/**
 The state the targeting page keeps while a toggle's targeting is edited
 (ui/src/pages/targeting/index.tsx) and the effects that update it: loading
 the saved targeting into the edit state, rebuilding the wire snapshot,
 refreshing the "nothing to publish" flag, expanding the rules that hold
 errors, submitting the form and classifying the pending change. React runs
 each effect after a render; here each effect is a method, called in the
 order the page's effects fire.
 */
module TargetingPage {
  import opened TargetingTypes
  import opened Normalizer
  import RuleExpansion
  import Validator
  import ChangeClassifier

  class TargetingState {
    // edit state held in the page's containers
    var variations: seq<Variation>
    var rules: seq<Rule>
    var defaultServe: Serve
    var disabledServe: Serve
    // the toggle's disabled switch and the saved targeting, as given to the page
    var toggleDisabled: bool
    var initialTargeting: Option<Targeting>
    // the page's own state
    var publishTargeting: Option<Targeting>
    var publishDisabled: bool
    var dialogOpen: bool
    var isDiffChange: bool

    /** The edit state as one value. */
    function EditState(): EditModel
      reads this
    {
      EditModel(variations, rules, defaultServe, disabledServe)
    }

    /**
     A fresh page: empty lists, the containers' initial serves, no snapshot,
     publishing disabled, the dialog closed.
     */
    constructor(toggleDisabled: bool, initialTargeting: Option<Targeting>, defaultServe: Serve, disabledServe: Serve)
      ensures variations == [] && rules == []
      ensures this.defaultServe == defaultServe && this.disabledServe == disabledServe
      ensures this.toggleDisabled == toggleDisabled && this.initialTargeting == initialTargeting
      ensures publishTargeting.None? && publishDisabled && !dialogOpen && !isDiffChange
    {
      variations := [];
      rules := [];
      this.defaultServe := defaultServe;
      this.disabledServe := disabledServe;
      this.toggleDisabled := toggleDisabled;
      this.initialTargeting := initialTargeting;
      publishTargeting := None;
      publishDisabled := true;
      dialogOpen := false;
      isDiffChange := false;
    }

    /**
     The load effect (lines 240-265): when a targeting is given, its
     variations are saved with fresh ids, then its rules are loaded; if a
     datetime condition has an empty operand list the effect stops there
     (`ok` is false) and the rules and serves keep their values.
     */
    method LoadTargeting(targeting: Option<Content>, ids: seq<Id>, userText: string) returns (ok: bool)
      requires targeting.Some? ==> |ids| >= |targeting.value.variations| + IdsNeeded(targeting.value.rules)
      modifies this
      ensures ok <==> targeting.None? || RulesLoadable(targeting.value.rules)
      ensures targeting.None? ==> EditState() == old(EditState())
      ensures targeting.Some? ==>
                variations == LoadedVariations(targeting.value.variations, ids[..|targeting.value.variations|])
      ensures targeting.Some? && ok ==> EditState() == Load(targeting.value, ids, userText).value
      ensures !ok ==> rules == old(rules) && defaultServe == old(defaultServe) && disabledServe == old(disabledServe)
      ensures toggleDisabled == old(toggleDisabled) && initialTargeting == old(initialTargeting)
      ensures publishTargeting == old(publishTargeting) && publishDisabled == old(publishDisabled)
      ensures dialogOpen == old(dialogOpen) && isDiffChange == old(isDiffChange)
    {
      if targeting.None? {
        return true;
      }
      var t := targeting.value;
      var n := |t.variations|;
      variations := LoadVariations(t.variations, ids[..n]);
      var loaded := LoadRules(t.rules, ids[n..], userText);
      if loaded.None? {
        return false;
      }
      rules := loaded.value;
      defaultServe := t.defaultServe;
      disabledServe := t.disabledServe;
      ok := true;
    }

    /** The request-building effect (lines 327-360): the snapshot is the wire form of the edit state. */
    method RecomputeSnapshot()
      modifies this
      ensures publishTargeting == Some(Wire(toggleDisabled, EditState()))
      ensures EditState() == old(EditState())
      ensures toggleDisabled == old(toggleDisabled) && initialTargeting == old(initialTargeting)
      ensures publishDisabled == old(publishDisabled) && dialogOpen == old(dialogOpen) &&
              isDiffChange == old(isDiffChange)
    {
      var requestRules := WireRules(rules);
      var requestVariations := WireVariations(variations);
      publishTargeting := Some(Targeting(toggleDisabled,
                                         Content(requestRules, disabledServe, defaultServe, requestVariations)));
    }

    /**
     The dirty check (lines 362-367): once a saved targeting is known,
     publishing is disabled exactly when the snapshot equals it.
     */
    method RefreshDirtyFlag()
      modifies this
      ensures initialTargeting.Some? ==> (publishDisabled <==> publishTargeting == initialTargeting)
      ensures initialTargeting.None? ==> publishDisabled == old(publishDisabled)
      ensures EditState() == old(EditState())
      ensures toggleDisabled == old(toggleDisabled) && initialTargeting == old(initialTargeting)
      ensures publishTargeting == old(publishTargeting) && dialogOpen == old(dialogOpen) &&
              isDiffChange == old(isDiffChange)
    {
      if initialTargeting.Some? {
        publishDisabled := publishTargeting == initialTargeting;
      }
    }

    /** The scroll-to-error callback (lines 196-213) applied to the rules. */
    method ExpandErrorRules(names: seq<string>)
      modifies this
      ensures rules == RuleExpansion.ExpandAll(old(rules), names)
      ensures variations == old(variations) && defaultServe == old(defaultServe) &&
              disabledServe == old(disabledServe)
      ensures toggleDisabled == old(toggleDisabled) && initialTargeting == old(initialTargeting)
      ensures publishTargeting == old(publishTargeting) && publishDisabled == old(publishDisabled)
      ensures dialogOpen == old(dialogOpen) && isDiffChange == old(isDiffChange)
    {
      rules := RuleExpansion.ExpandRules(rules, names);
    }

    /**
     The `onSubmit` callback (lines 423-428): the edit state is validated and
     the publish dialog opens only when no error was reported. The form
     library calls it (line 631) only after the registered field validators
     pass; those validators are not part of this model.
     */
    method Submit(returnType: Option<string>) returns (errors: seq<string>)
      modifies this
      ensures errors == Validator.RuleErrors(rules) + Validator.VariationErrors(variations, returnType)
      ensures dialogOpen == (old(dialogOpen) || errors == [])
      ensures EditState() == old(EditState())
      ensures toggleDisabled == old(toggleDisabled) && initialTargeting == old(initialTargeting)
      ensures publishTargeting == old(publishTargeting) && publishDisabled == old(publishDisabled)
      ensures isDiffChange == old(isDiffChange)
    {
      var isError;
      isError, errors := Validator.ValidateForm(rules, variations, returnType);
      if !isError {
        dialogOpen := true;
      }
    }

    /**
     The classification effect (lines 593-628): with both snapshots known and
     the dialog open, the pending change is classified.
     */
    method RefreshDiffFlag()
      modifies this
      ensures initialTargeting.Some? && publishTargeting.Some? && dialogOpen ==>
                isDiffChange == ChangeClassifier.IsMaterialChange(initialTargeting.value, publishTargeting.value)
      ensures !(initialTargeting.Some? && publishTargeting.Some? && dialogOpen) ==>
                isDiffChange == old(isDiffChange)
      ensures EditState() == old(EditState())
      ensures toggleDisabled == old(toggleDisabled) && initialTargeting == old(initialTargeting)
      ensures publishTargeting == old(publishTargeting) && publishDisabled == old(publishDisabled)
      ensures dialogOpen == old(dialogOpen)
    {
      if initialTargeting.Some? && publishTargeting.Some? && dialogOpen {
        isDiffChange := ChangeClassifier.ClassifyChange(initialTargeting.value, publishTargeting.value);
      }
    }

    /**
     Opening the page on a saved targeting: load it, rebuild the snapshot,
     refresh the flag. Publishing then starts disabled exactly when the saved
     content survives the load and wire conversions unchanged; content that
     carries an id, a segment subject, or a datetime condition without exactly
     one operand leaves the page dirty before any edit.
     */
    method OpenSaved(t: Content, ids: seq<Id>, userText: string)
      requires initialTargeting == Some(Targeting(toggleDisabled, t))
      requires |ids| >= |t.variations| + IdsNeeded(t.rules)
      requires RulesLoadable(t.rules)
      modifies this
      ensures publishDisabled <==> ContentRoundTrips(t)
      ensures EditState() == Load(t, ids, userText).value
      ensures publishTargeting == Some(Wire(toggleDisabled, Load(t, ids, userText).value))
      ensures toggleDisabled == old(toggleDisabled) && initialTargeting == old(initialTargeting)
      ensures dialogOpen == old(dialogOpen) && isDiffChange == old(isDiffChange)
    {
      var ok := LoadTargeting(Some(t), ids, userText);
      RecomputeSnapshot();
      RefreshDirtyFlag();
      RoundTrip(t, ids, userText, toggleDisabled);
    }
  }
}
