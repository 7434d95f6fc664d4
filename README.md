# Targeting configuration engine of the feature-toggle targeting page

This project models the core of the targeting page of a feature-toggle
management console (`ui/src/pages/targeting/index.tsx`). The model covers:

- the saved configuration of a toggle, called its *targeting*: the disabled
  switch, the rules with their conditions and serves, the default and disabled
  serves, and the variations;
- the conversions between the saved form and the edit form the page works on;
- the dirty check that decides whether there is anything to publish;
- validation before publishing;
- the classifier that decides whether a pending change is *material*, that is,
  whether it can change which variation users are served;
- the human-readable view of serves;
- the guards that decide which serves are pushed into the form;
- the expansion of rules that hold errors;
- the publish-confirmation gate.

Modules:

| file | module | contents |
|---|---|---|
| `types.dfy` | `TargetingTypes` | data model: `Serve`, `Variation`, `Condition`, `Rule`, `Content`, `Targeting`; the JavaScript string and slice helpers the page relies on |
| `condition_codec.dfy` | `ConditionCodec` | load and wire conversion of one condition |
| `normalizer.dfy` | `Normalizer` | load (saved → edit) and wire (edit → saved) conversion of a whole targeting, imperative and functional, with the round-trip and fresh-id theorems |
| `validator.dfy` | `Validator` | `validateForm` |
| `deep_diff.dfy` | `DeepDiff` | the difference records of the `deep-diff` library, restricted to the shapes compared here |
| `classifier.dfy` | `ChangeClassifier` | the record-scanning classifier as the page runs it |
| `classifier_semantics.dfy` | `ClassifierSemantics` | the classifier stated without difference records, and the proof that the two agree |
| `serve.dfy` | `ServeResolution` | `preDiffServe`, `disabledText`, and the form guards for serves |
| `rule_expansion.dfy` | `RuleExpansion` | the scroll-to-error callback that expands rules |
| `publish_gate.dfy` | `PublishGate` | `handlePublishConfirm`'s decision |
| `session.dfy` | `TargetingPage` | the page state as a class whose methods are the page's effects |

Modelling choices:

- Optional JavaScript properties are `Option` fields. `delete` becomes `None`.
  lodash `isEqual` becomes structural equality of datatype values.
- A condition's `predicate` property is the field `op`, because `predicate` is
  a Dafny keyword.
- `uuidv4()` is replaced by a parameter `ids`, consumed in the order the load
  effect draws ids:
  1. one id per variation;
  2. then, for each rule in turn, the rule's own id followed by one id per
     condition.
- The localised "user" placeholder is a parameter `userText`.
- A string built by a template literal or by `'' +` from a possibly missing
  value is written `JsText`. It yields `"undefined"` for a missing value, as
  JavaScript does.
- The load effect throws when a datetime condition has an empty `objects`
  array. `Load` returns `None` for that input, so the model keeps the error
  path instead of excluding it by a precondition.
- `preDiffServe` throws when an index has no variation behind it. This is the
  `LookupError` outcome.

Behaviour of the code that the model makes explicit:

- **Which variation edits are cosmetic.** Only an in-place edit of a
  variation's name or description is cosmetic; an edit of its value is
  material (index.tsx:609, `ClassifierSemantics.VariationTextEdit`).
- **Adding or removing an optional property.** Only in-place edits (kind `E`)
  are exempt. Adding or removing a description, or a rule's name, is
  material.
- **Reordering.** Positions are compared, not identities, so swapping two
  variations that differ only in name and description text is not material
  (`ClassifierSemantics.SwapVariations`).
- **Guards without a full range check.** The default-serve guard checks no
  index. The rule and disabled-serve guards only check `select <
  variations.length`, so a negative `select` passes them
  (`ServeResolution.NegativeSelectPassesGuards`). The rule guard does not look
  at the split at all, so a serve with only a split that carries more weights
  than there are variations passes it (`ServeResolution.SplitOnlyRuleServe`).
- **Rule ids containing an underscore.** The scroll-to-error callback reads
  the rule id back from its error key with `split('_')[1]`, so an id that
  contains `_` is cut there and its rule is not expanded
  (`RuleExpansion.UnderscoreIdNotExpanded`). The uuids assigned on load
  contain only hyphens.
- **Datetime condition without operands.** A datetime condition saved without
  `objects` is loaded without edit fields. Without an edit, it is wired back
  with the operand `"undefinedundefined"`
  (`ConditionCodec.DatetimeWithoutOperands`).

## Model

| member | source | states |
|---|---|---|
| TargetingTypes.SliceTo | ui/src/pages/targeting/index.tsx:256 | `slice(0, n)` clamps to the string: the result is the prefix of length min(n, length) |
| TargetingTypes.SliceFrom | ui/src/pages/targeting/index.tsx:257 | `slice(n)` is the rest of the string: `SliceTo(s, n) + SliceFrom(s, n) == s` |
| TargetingTypes.JsText | ui/src/pages/targeting/index.tsx:336 | string conversion of a possibly missing value: the value itself, or "undefined" |
| ConditionCodec.LoadCondition | ui/src/pages/targeting/index.tsx:251-259 | a loaded condition has the given id; keeps type, predicate and operands; a segment condition's subject becomes the placeholder; a datetime condition with operands gets as datetime the first min(19, length) characters of its first operand and as timezone the rest, which together spell that operand; other conditions keep their datetime and timezone |
| ConditionCodec.WireCondition | ui/src/pages/targeting/index.tsx:330-341 | a wired condition has no id; a segment condition only loses its id and subject, keeping its operands, datetime and timezone; a datetime condition has the single operand datetime+timezone and no edit fields; any other condition only loses its id |
| ConditionCodec.DatetimeRoundTrip | ui/src/pages/targeting/index.tsx:255-257 | splitting the first datetime operand at 19 and concatenating it back gives exactly that operand |
| ConditionCodec.DatetimeWithoutOperands | ui/src/pages/targeting/index.tsx:334-339 | a datetime condition saved without operands is wired back with the operand "undefinedundefined" |
| ConditionCodec.ConditionRoundTrip | ui/src/pages/targeting/index.tsx:251-259 | load then wire gives a condition back exactly when it has no id, no subject if it is a segment condition, and exactly one operand and no edit fields if it is a datetime condition |
| Normalizer.Load | ui/src/pages/targeting/index.tsx:240-265 | load succeeds exactly when every datetime condition with `objects` has at least one operand; it then keeps the number of variations and rules and passes the default and disabled serves through |
| Normalizer.Wire | ui/src/pages/targeting/index.tsx:327-360 | the snapshot carries the given disabled switch, as many variations and rules as the edit state, and no id of a variation, rule or condition, and no rule `active` flag |
| Normalizer.LoadVariations | ui/src/pages/targeting/index.tsx:242-246 | the loop over the variations computes the functional load of the variations |
| Normalizer.LoadOneRule | ui/src/pages/targeting/index.tsx:249-261 | the per-rule loop succeeds exactly when every condition is loadable, and then computes the functional load of the rule |
| Normalizer.LoadRules | ui/src/pages/targeting/index.tsx:248-262 | the loop over the rules succeeds exactly when all rules are loadable, and then computes the functional load of the rules |
| Normalizer.WireRules | ui/src/pages/targeting/index.tsx:327-344 | the loop over the rules computes the functional wire conversion of the rules |
| Normalizer.WireVariations | ui/src/pages/targeting/index.tsx:346-349 | the loop over the variations computes the functional wire conversion of the variations |
| Normalizer.LoadShape | ui/src/pages/targeting/index.tsx:240-265 | load succeeds exactly when every condition is loadable; it keeps the number and order of variations, rules and conditions; it gives every entity an id and every rule `active = true`; it keeps names, serves, types, predicates and operands; it passes the default and disabled serves through |
| Normalizer.LoadAssignsFreshIds | ui/src/pages/targeting/index.tsx:242-252 | the ids assigned by load are exactly the supplied ids, in order; distinct supplied ids make every ephemeral id present and unique |
| Normalizer.WireStripsEditFields | ui/src/pages/targeting/index.tsx:327-359 | the wire snapshot carries the given disabled state and serves; it keeps every length and order; it has no id, no `active` and no segment subject; variations only lose their id |
| Normalizer.RuleRoundTrip | ui/src/pages/targeting/index.tsx:249-261 | load then wire gives a rule back exactly when it has no id, no `active`, and all of its conditions round-trip |
| Normalizer.RoundTrip | ui/src/pages/targeting/index.tsx:240-265 | load then wire gives the saved targeting back exactly when it carries no edit-only artefact |
| Validator.ReplaceSpace | ui/src/pages/targeting/index.tsx:405 | the result is no longer than the input and contains no whitespace |
| Validator.ReplaceSpaceFilters | ui/src/pages/targeting/index.tsx:405 | whitespace removal distributes over concatenation and keeps a single character exactly when it is not whitespace, which fixes the result of every string |
| Validator.ReplaceSpaceKeeps | ui/src/pages/targeting/index.tsx:405 | a character occurs in the result exactly when it occurs in the input and is not whitespace |
| Validator.ReplaceSpaceEmpty | ui/src/pages/targeting/index.tsx:405-406 | a value is blank after whitespace removal exactly when it is all whitespace |
| Validator.RuleErrors | ui/src/pages/targeting/index.tsx:394-402 | every rule key starts with `rule_` |
| Validator.VariationErrors | ui/src/pages/targeting/index.tsx:404-418 | every variation key starts with `variation_` |
| Validator.ValidateForm | ui/src/pages/targeting/index.tsx:390-421 | the error keys are those of the rules without conditions, then those of the blank variations, in order; the flag is raised exactly when one of these exists, which is exactly when a key was reported |
| Validator.ScanRules | ui/src/pages/targeting/index.tsx:394-402 | the loop over the rules reports exactly the rule keys of `RuleErrors`, in rule order |
| Validator.ScanVariations | ui/src/pages/targeting/index.tsx:404-418 | the loop over the variations reports exactly the variation keys of `VariationErrors`, in variation order |
| Validator.RuleErrorsCompose | ui/src/pages/targeting/index.tsx:394-402 | the rule keys of two concatenated lists are the keys of each list, concatenated |
| Validator.RuleErrorScoping | ui/src/pages/targeting/index.tsx:395-400 | a key is reported for the rules exactly when it is `rule_<id>_add` for a rule without conditions |
| Validator.VariationErrorScoping | ui/src/pages/targeting/index.tsx:405-417 | a key is reported for the variations exactly when it belongs to a blank variation, with the `_normal` suffix when the return type is boolean |
| DeepDiff.DiffEmptyIffEqual | ui/src/pages/targeting/index.tsx:596-615 | `diff` reports nothing exactly when the two variation lists, rule lists or serves are structurally equal |
| DeepDiff.ConditionChangePrefixed | ui/src/pages/targeting/index.tsx:615 | every record in a condition's diff lies under that condition's path |
| ChangeClassifier.IsMaterialChange | ui/src/pages/targeting/index.tsx:593-628 | a change of the disabled switch, of the default or disabled serve, or of the number of variations or rules is always material |
| ChangeClassifier.LengthChangeMaterial | ui/src/pages/targeting/index.tsx:604-624 | adding or removing a variation or a rule yields a material record |
| ChangeClassifier.ScanVariationDiff | ui/src/pages/targeting/index.tsx:604-613 | the loop over the variation records raises the flag exactly when some record is not an edit of a name or a description |
| ChangeClassifier.ScanRuleDiff | ui/src/pages/targeting/index.tsx:615-624 | the loop over the rule records raises the flag exactly when some record is not an edit of a name |
| ChangeClassifier.ClassifyChange | ui/src/pages/targeting/index.tsx:593-628 | the classification is material exactly when the disabled switch or a serve differs, or a variation or rule record is material |
| ChangeClassifier.DiffArrayAnyAt | ui/src/pages/targeting/index.tsx:604-615 | a record found in the diff of one common index is a record of the array diff |
| ChangeClassifier.DiffArrayAnyWitness | ui/src/pages/targeting/index.tsx:604-615 | in the diff of two equally long arrays, every record comes from the diff of some common index |
| ChangeClassifier.DiffArrayLengths | ui/src/pages/targeting/index.tsx:604-615 | arrays of different lengths always produce an array record (kind A), which is material |
| ClassifierSemantics.VariationRecordMaterial | ui/src/pages/targeting/index.tsx:606-612 | one variation's diff holds a material record exactly when the id or the value changes, or the description appears or disappears |
| ClassifierSemantics.RuleRecordMaterial | ui/src/pages/targeting/index.tsx:617-623 | one rule's diff holds a material record exactly when the id, `active`, conditions or serve change, or the name appears or disappears |
| ClassifierSemantics.VariationsMaterialIff | ui/src/pages/targeting/index.tsx:604-613 | the variation records contain a material one exactly when the lists differ in length or some position holds a non-cosmetic edit |
| ClassifierSemantics.RulesMaterialIff | ui/src/pages/targeting/index.tsx:615-624 | the rule records contain a material one exactly when the lists differ in length or some position holds a non-cosmetic edit |
| ClassifierSemantics.ClassifierCharacterisation | ui/src/pages/targeting/index.tsx:593-628 | the classifier agrees with the record-free definition of a material change, in both directions |
| ClassifierSemantics.IdenticalNotMaterial | ui/src/pages/targeting/index.tsx:593-628 | comparing a snapshot with itself is never material |
| ClassifierSemantics.VariationTextEdit | ui/src/pages/targeting/index.tsx:609 | editing only a variation's name or description text is not material; changing its value is |
| ClassifierSemantics.RuleEdit | ui/src/pages/targeting/index.tsx:620 | renaming a rule that has a name is not material; changing its conditions or serve is |
| ClassifierSemantics.SwapVariations | ui/src/pages/targeting/index.tsx:604-613 | swapping two variations is material exactly when they differ in more than name and description text |
| ServeResolution.PreDiffServe | ui/src/pages/targeting/index.tsx:535-552 | no summary when the serve or the variations are missing; a lookup error exactly when `select` or a split weight has no variation; otherwise `select` becomes that variation's name, and weight k is paired with variation k's name |
| ServeResolution.DisabledText | ui/src/pages/targeting/index.tsx:504-508 | a label exists exactly when `select` names an existing variation; the label is that variation's name, or its value when the name is empty |
| ServeResolution.RuleServeProjected | ui/src/pages/targeting/index.tsx:276-282 | a missing rule serve, or one whose `select` names an existing variation, is written into the form; a written serve with a non-negative `select` names an existing variation |
| ServeResolution.DisabledServeProjected | ui/src/pages/targeting/index.tsx:314-320 | the disabled serve is written only when it has a `select`; for a non-negative `select`, exactly when that variation exists |
| ServeResolution.DefaultServeProjected | ui/src/pages/targeting/index.tsx:321-323 | the default serve is written exactly when it is not empty, that is, when it has a `select` or a `split` |
| ServeResolution.RuleGuardMatchesResolution | ui/src/pages/targeting/index.tsx:276-282 | for a non-negative select and a split that fits, the rule-serve guard passes exactly when the serve can be resolved |
| ServeResolution.DisabledGuardMatchesLabel | ui/src/pages/targeting/index.tsx:314-320 | for a non-negative select, the disabled-serve guard passes exactly when the disabled label exists; that label then agrees with the name shown by the diff view |
| ServeResolution.NegativeSelectPassesGuards | ui/src/pages/targeting/index.tsx:274-320 | a negative select passes the rule and disabled guards, although the diff view throws on it and no disabled label exists |
| ServeResolution.SplitOnlyRuleServe | ui/src/pages/targeting/index.tsx:276-282 | a serve with only a split that has more weights than there are variations passes the rule and default guards, and the diff view throws on it |
| ServeResolution.DefaultGuardHasNoRangeCheck | ui/src/pages/targeting/index.tsx:321-323 | a default serve selecting past the last variation is still written into the form, and the diff view throws on it |
| ServeResolution.ResolutionSeesOnlyNames | ui/src/pages/targeting/index.tsx:543-549 | the serve view depends on the variations only through their names |
| RuleExpansion.FirstIndex | ui/src/pages/targeting/index.tsx:200 | the position of the first occurrence of a character, or the length when there is none |
| RuleExpansion.SecondField | ui/src/pages/targeting/index.tsx:200 | `split('_')[1]` is missing exactly when there is no underscore; otherwise it is the underscore-free text after the first underscore, running up to the next underscore or the end |
| RuleExpansion.FindRule | ui/src/pages/targeting/index.tsx:201-209 | the index of the first rule with the given id, or none when no rule has it |
| RuleExpansion.Target | ui/src/pages/targeting/index.tsx:199-209 | an error name points at a rule only when it starts with `rule`; it then points at the first rule whose id is the name's second field, and at none exactly when no rule has that id |
| RuleExpansion.ExpandRules | ui/src/pages/targeting/index.tsx:197-212 | the nested loop with its early exit computes the functional expansion |
| RuleExpansion.ExpandAll | ui/src/pages/targeting/index.tsx:197-212 | applying the error names in order keeps the number of rules and changes nothing but `active` flags |
| RuleExpansion.ExpandAllEffect | ui/src/pages/targeting/index.tsx:197-212 | a rule ends up active exactly when some error name points at it; every other rule is unchanged |
| RuleExpansion.ErrorKeyNamesRule | ui/src/pages/targeting/index.tsx:200 | the id read back from `rule_<id>_add` is id, for an id without underscores |
| RuleExpansion.ValidationErrorsExpandEmptyRules | ui/src/pages/targeting/index.tsx:197-212 | for present, distinct ids without underscores (the uuids handed out on load have none), the error keys of `validateForm` expand exactly the rules without conditions |
| RuleExpansion.UnderscoreIdNotExpanded | ui/src/pages/targeting/index.tsx:200 | a rule without conditions whose id is `a_b` reports the key `rule_a_b_add`, which reads back as id `a`, so that rule is not expanded |
| PublishGate.PublishConfirm | ui/src/pages/targeting/index.tsx:444-474 | asks for a reason exactly when approval is on and the comment is empty; asks for the tracking choice exactly when approval is off, no choice is made and tracking is offered; otherwise sends nothing without a snapshot, a review request with the reviewers under approval, or a save that carries `trackAccessEvents = true` exactly when the answer is "yes" and never false |
| PublishGate.RequestsNeedAnswers | ui/src/pages/targeting/index.tsx:444-474 | a request is built exactly when both gates pass and a snapshot exists; a save on a page that offers tracking implies the question was answered |
| PublishGate.GatesAreIndependent | ui/src/pages/targeting/index.tsx:445-453 | under approval the tracking answer changes nothing; without approval the comment does not decide whether a save is made |
| TargetingPage.TargetingState.constructor | ui/src/pages/targeting/index.tsx:155-169 | a fresh page has no snapshot, has publishing disabled, and has the dialog closed |
| TargetingPage.TargetingState.LoadTargeting | ui/src/pages/targeting/index.tsx:240-265 | variations are saved first; on success the edit state is the functional load; on failure the rules and serves keep their values; nothing else changes |
| TargetingPage.TargetingState.RecomputeSnapshot | ui/src/pages/targeting/index.tsx:327-360 | the snapshot becomes the wire form of the edit state under the current disabled switch |
| TargetingPage.TargetingState.RefreshDirtyFlag | ui/src/pages/targeting/index.tsx:362-367 | once the saved targeting is known, publishing is disabled exactly when the snapshot equals it |
| TargetingPage.TargetingState.ExpandErrorRules | ui/src/pages/targeting/index.tsx:196-213 | the rules become their expansion by the error names; nothing else changes |
| TargetingPage.TargetingState.Submit | ui/src/pages/targeting/index.tsx:423-428 | once the form library's field validators have passed and it calls `onSubmit`, the dialog opens exactly when `validateForm` reports no error key |
| TargetingPage.TargetingState.RefreshDiffFlag | ui/src/pages/targeting/index.tsx:593-628 | with both snapshots known and the dialog open, the flag becomes the classification of the pending change |
| TargetingPage.TargetingState.OpenSaved | ui/src/pages/targeting/index.tsx:240-367 | right after a saved targeting is opened, the edit state is its load, the snapshot is the wire form of that load, and publishing is disabled exactly when the targeting round-trips; the disabled switch, the saved targeting, the dialog and the change flag are unchanged |

## Left out

- The JSX rendering, the Joyride onboarding and its dictionary reads and writes, and the segment-list container are not modelled; they do not touch the targeting state.
- `saveToggle`, `approveToggle` and the handling of their responses (success message, `initTargeting`, resetting the comment) are network calls; `PublishGate.PublishConfirm` stops at the request it would send.
- `uuidv4()` and `moment()` are not modelled: ids come from the `ids` parameter, and the current time only feeds form values that are left out below.
- `intl.formatMessage` strings are opaque: the "user" placeholder is the `userText` parameter, and error messages are not modelled (only error keys).
- `setValue` and `setError` are not modelled as form state. `validateForm` returns the keys it sets. The projection effects are modelled only by their serve guards. The other values they write into the form (variation names and values; condition subjects, predicates, operands, and the datetime fields built from `moment()`) are not modelled.
- ServeResolution.PreDiffServe: a split entry is the pair (variation name, weight); the `weight/100 %` text formatting is not modelled. `beforeServeDiff`, `beforeRuleDiff` and `I18NRules` only feed the dialog's display and are not modelled.
- DeepDiff: the library is modelled only for the shapes compared here. The order in which it lists records, and the index and item payload of its array records, are not modelled; the classifier reads neither.
- Validator.ReplaceSpace: `replaceSpace` is not part of this model; it is taken to remove space, tab, newline and carriage return from the value.
- TargetingPage.TargetingState.LoadTargeting: a missing `variations` array, which the source replaces by `[]`, is not modelled; the content always has a variation list.
- TargetingPage.TargetingState.LoadTargeting: a throwing load effect ends with `ok = false`, leaving the variations already saved; React's handling of the exception is not modelled.
- TargetingPage.TargetingState.ExpandErrorRules: the page searches the rules captured when the callback was installed and updates the latest rules. The model searches the current rules; expansion never changes an id, so both find the same index.
- TargetingPage.TargetingState.constructor: the containers' initial serves are not part of this model and are taken as parameters.
- `handlePublishCancel`, `handleInputComment`, `handleRadioChange`, the loading spinner, the `reason`/`radioGroup` registration and `useBeforeUnload` are UI glue around the modelled decisions and are not modelled.
- The server-side `MetricCreateRequest` DTO is not part of this model.
- ServeResolution.RuleServeProjected: `select` is a number or absent; a `select` property that is present but null or not numeric, which the guard tests with `hasOwnProperty` and `Number(select) < length` (e.g. `Number(null)` is 0), is not modelled.
- ServeResolution.DisabledServeProjected: as above, a present but null `select` is treated as absent, so the model refuses `{select: null}` that the page writes into the form whenever there is at least one variation.
- ServeResolution.DefaultServeProjected: the `typeof … !== 'undefined'` test accepts a null `select` or `split`; the model has no null, so it refuses `{select: null}` that the page writes.
- ServeResolution.PreDiffServe: the `typeof serve.select === 'number'` test is modelled as presence of `select`; a present non-numeric `select` is not modelled.
- TargetingTypes.SliceTo: counts Unicode scalar values, while JavaScript's `slice` counts UTF-16 code units, so for an operand holding characters outside the Basic Multilingual Plane the datetime/timezone split point differs; the concatenation, and so the round trip, is the same either way.
