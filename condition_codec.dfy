/**
 Conversion of one condition between its persisted form and its edit form
 (ui/src/pages/targeting/index.tsx, the per-condition bodies of the load effect
 at lines 251-259 and of the request-building effect at lines 330-341).
 */
module ConditionCodec {
  import opened TargetingTypes

  /**
   The load step reads `objects[0]` of a datetime condition whose `objects`
   property is present; on an empty array that read is `undefined` and the
   following `.slice` throws. A condition is loadable when that cannot happen.
   */
  predicate Loadable(c: Condition)
  {
    !(c.ctype == DATETIME_TYPE && c.objects.Some? && |c.objects.value| == 0)
  }

  /**
   Edit form of a condition: a fresh id; a segment condition gets the localised
   "user" placeholder as its subject; a datetime condition with operands gets
   its first operand split at character 19 into `datetime` and `timezone`.
   */
  function LoadCondition(c: Condition, id: Id, userText: string): (r: Condition)
    requires Loadable(c)
    ensures r.id == Some(id)
    ensures r.ctype == c.ctype && r.op == c.op && r.objects == c.objects
    ensures r.ctype == SEGMENT_TYPE ==> r.subject == Some(userText)
    ensures r.ctype != SEGMENT_TYPE ==> r.subject == c.subject
    ensures r.ctype == DATETIME_TYPE && c.objects.Some? ==>
              r.datetime.Some? && r.timezone.Some? &&
              |r.datetime.value| ==
                (if DATETIME_SPLIT <= |c.objects.value[0]| then DATETIME_SPLIT else |c.objects.value[0]|) &&
              r.datetime.value + r.timezone.value == c.objects.value[0]
    ensures !(r.ctype == DATETIME_TYPE && c.objects.Some?) ==>
              r.datetime == c.datetime && r.timezone == c.timezone
  {
    if c.ctype == SEGMENT_TYPE then
      c.(id := Some(id), subject := Some(userText))
    else if c.ctype == DATETIME_TYPE && c.objects.Some? then
      var first := c.objects.value[0];
      c.(id := Some(id),
         datetime := Some(SliceTo(first, DATETIME_SPLIT)),
         timezone := Some(SliceFrom(first, DATETIME_SPLIT)))
    else
      c.(id := Some(id))
  }

  /**
   Persisted form of an edited condition: the id is removed; a segment
   condition loses its subject; a datetime condition gets `objects` rebuilt
   as the single string `'' + datetime + timezone` and loses both edit fields.
   */
  function WireCondition(c: Condition): (r: Condition)
    ensures r.id.None?
    ensures r.ctype == c.ctype && r.op == c.op
    ensures r.ctype == SEGMENT_TYPE ==> r == c.(id := None, subject := None)
    ensures r.ctype == DATETIME_TYPE ==>
              r.objects == Some([JsText(c.datetime) + JsText(c.timezone)]) &&
              r.datetime.None? && r.timezone.None? && r.subject == c.subject
    ensures r.ctype != SEGMENT_TYPE && r.ctype != DATETIME_TYPE ==>
              r == c.(id := None)
  {
    var stripped := c.(id := None);
    if c.ctype == SEGMENT_TYPE then
      stripped.(subject := None)
    else if c.ctype == DATETIME_TYPE then
      stripped.(objects := Some([JsText(c.datetime) + JsText(c.timezone)]),
                datetime := None,
                timezone := None)
    else
      stripped
  }

  /** A persisted condition that survives a load followed by a wire conversion. */
  predicate RoundTrips(c: Condition)
  {
    c.id.None? &&
    (c.ctype == SEGMENT_TYPE ==> c.subject.None?) &&
    (c.ctype == DATETIME_TYPE ==>
       c.objects.Some? && |c.objects.value| == 1 && c.datetime.None? && c.timezone.None?)
  }

  /**
   The datetime split and concatenation give back the persisted operand:
   whatever the string s, `s.slice(0, 19) + s.slice(19)` is s, so a datetime
   condition loaded with operands is wired back with exactly `[objects[0]]`.
   */
  lemma DatetimeRoundTrip(c: Condition, id: Id, userText: string)
    requires c.ctype == DATETIME_TYPE && c.objects.Some? && |c.objects.value| > 0
    ensures Loadable(c)
    ensures WireCondition(LoadCondition(c, id, userText)).objects == Some([c.objects.value[0]])
  {
  }

  /**
   A datetime condition loaded without `objects` carries no edit fields, and
   the wire conversion then stringifies two absent values.
   */
  lemma DatetimeWithoutOperands(c: Condition, id: Id, userText: string)
    requires c.ctype == DATETIME_TYPE && c.objects.None? && c.datetime.None? && c.timezone.None?
    ensures Loadable(c)
    ensures WireCondition(LoadCondition(c, id, userText)).objects == Some(["undefinedundefined"])
  {
    assert "undefined" + "undefined" == "undefinedundefined";
  }

  /**
   Loading then wiring a condition gives it back exactly when it carries no
   edit-only artefact: no id, no subject on a segment condition, and for a
   datetime condition exactly one operand and no edit fields.
   */
  lemma ConditionRoundTrip(c: Condition, id: Id, userText: string)
    requires Loadable(c)
    ensures WireCondition(LoadCondition(c, id, userText)) == c <==> RoundTrips(c)
  {
    var w := WireCondition(LoadCondition(c, id, userText));
    if c.ctype == DATETIME_TYPE && c.objects.Some? {
      DatetimeRoundTrip(c, id, userText);
      assert SEGMENT_TYPE != DATETIME_TYPE;
      if w == c || RoundTrips(c) {
        assert c.objects.value == [c.objects.value[0]];
      }
    } else if c.ctype == DATETIME_TYPE {
      assert w.objects.Some? && c.objects.None?;
    }
  }
}
