/**
 The targeting configuration of a feature toggle, in the shape the editor page
 keeps it (ui/src/pages/targeting/index.tsx).

 The page works on plain JavaScript objects whose properties may be present or
 absent; every optional property is an `Option` here, and `None` stands for a
 property that is absent (or was removed with `delete`). Structural equality of
 two such objects (lodash `isEqual`) is Dafny's value equality.
 */
module TargetingTypes {

  datatype Option<+T> = None | Some(value: T)

  /** Ephemeral client-side identifiers (uuid v4 strings in the page). */
  type Id = string

  /** Condition types the page treats specially. */
  const SEGMENT_TYPE: string := "segment"
  const DATETIME_TYPE: string := "datetime"

  /** Character position at which a datetime operand is split into date-time and zone. */
  const DATETIME_SPLIT: nat := 19

  /**
   A serve strategy as persisted: an object with an optional `select` (index of a
   variation) and an optional `split` (one weight per variation, in 1/100 of a
   percent). The page tests which of the two properties is present, so both are
   kept optional rather than folded into a tagged union.
   */
  datatype Serve = Serve(select: Option<int>, split: Option<seq<int>>)

  datatype Variation = Variation(
    id: Option<Id>,
    name: string,
    value: string,
    description: Option<string>)

  /**
   A rule condition. `datetime` and `timezone` are edit-only fields that exist
   only for conditions of type DATETIME_TYPE while they are being edited.
   */
  datatype Condition = Condition(
    id: Option<Id>,
    ctype: string,
    subject: Option<string>,
    op: string,  // the `predicate` property (a keyword in Dafny)
    objects: Option<seq<string>>,
    datetime: Option<string>,
    timezone: Option<string>)

  /** A rule; `id` and `active` (the expanded-panel flag) are edit-only. */
  datatype Rule = Rule(
    id: Option<Id>,
    active: Option<bool>,
    name: Option<string>,
    conditions: seq<Condition>,
    serve: Option<Serve>)

  /** The `content` object of a published targeting. */
  datatype Content = Content(
    rules: seq<Rule>,
    disabledServe: Serve,
    defaultServe: Serve,
    variations: seq<Variation>)

  /** The snapshot that is compared and submitted: `{disabled, content}`. */
  datatype Targeting = Targeting(disabled: bool, content: Content)

  /** What JavaScript's string conversion makes of a possibly absent string. */
  function JsText(s: Option<string>): (r: string)
    ensures s.Some? ==> r == s.value
    ensures s.None? ==> r == "undefined"
  {
    match s
    case Some(t) => t
    case None => "undefined"
  }

  /** `s.slice(0, n)`: the first n characters, or all of s when it is shorter. */
  function SliceTo(s: string, n: nat): (r: string)
    ensures |r| == if n <= |s| then n else |s|
    ensures r <= s
  {
    if n <= |s| then s[..n] else s
  }

  /** `s.slice(n)`: what follows the first n characters, or "" when s is shorter. */
  function SliceFrom(s: string, n: nat): (r: string)
    ensures |r| == if n <= |s| then |s| - n else 0
    ensures SliceTo(s, n) + r == s
  {
    if n <= |s| then s[n..] else ""
  }

  function StartsWith(s: string, prefix: string): bool
  {
    prefix <= s
  }
}
