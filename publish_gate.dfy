/**
 The decision taken when the publish dialog is confirmed
 (`handlePublishConfirm`, ui/src/pages/targeting/index.tsx:444-474): either a
 required input is still missing and the form is asked to show it, or a
 request is built from the current wire snapshot. With approval enabled the
 snapshot goes for review with the configured reviewers; otherwise it is
 saved, asking for access-event tracking only when the user chose "yes".
 Sending the request and handling its response are not part of this model.
 */
module PublishGate {
  import opened TargetingTypes

  datatype ApprovalInfo = ApprovalInfo(enableApproval: bool, reviewers: seq<string>)

  /** The body of a direct save: the snapshot, the comment and the optional tracking switch. */
  datatype SaveRequest = SaveRequest(targeting: Targeting, comment: string, trackAccessEvents: Option<bool>)

  datatype Outcome =
    | AskForReason
    | AskForTrackChoice
    | NothingToSend
    | SendApproval(comment: string, targeting: Targeting, reviewers: seq<string>)
    | SendSave(request: SaveRequest)

  /** `approvalInfo?.enableApproval`, with a missing record reading as false. */
  predicate ApprovalEnabled(approval: Option<ApprovalInfo>)
  {
    approval.Some? && approval.value.enableApproval
  }

  /** The two required-input gates of the dialog pass. */
  predicate GatesPass(approval: Option<ApprovalInfo>, comment: string, isCollect: string, allowEnableTrackEvents: bool)
  {
    !(ApprovalEnabled(approval) && comment == "") &&
    !(!ApprovalEnabled(approval) && isCollect == "" && allowEnableTrackEvents)
  }

  function PublishConfirm(approval: Option<ApprovalInfo>, comment: string, isCollect: string,
                          allowEnableTrackEvents: bool, publishTargeting: Option<Targeting>): (r: Outcome)
    ensures r.AskForReason? <==> ApprovalEnabled(approval) && comment == ""
    ensures r.AskForTrackChoice? <==> !ApprovalEnabled(approval) && isCollect == "" && allowEnableTrackEvents
    ensures r.NothingToSend? <==>
              GatesPass(approval, comment, isCollect, allowEnableTrackEvents) && publishTargeting.None?
    ensures r.SendApproval? <==>
              GatesPass(approval, comment, isCollect, allowEnableTrackEvents) && publishTargeting.Some? &&
              ApprovalEnabled(approval)
    ensures r.SendApproval? ==>
              r.comment == comment && r.comment != "" &&
              r.targeting == publishTargeting.value && r.reviewers == approval.value.reviewers
    ensures r.SendSave? ==>
              r.request.targeting == publishTargeting.value && r.request.comment == comment &&
              (r.request.trackAccessEvents.Some? <==> isCollect == "yes") &&
              r.request.trackAccessEvents != Some(false)
  {
    if ApprovalEnabled(approval) && comment == "" then AskForReason
    else if !ApprovalEnabled(approval) && isCollect == "" && allowEnableTrackEvents then AskForTrackChoice
    else if publishTargeting.None? then NothingToSend
    else if ApprovalEnabled(approval) then
      SendApproval(comment, publishTargeting.value, approval.value.reviewers)
    else
      SendSave(SaveRequest(publishTargeting.value, comment,
                           if isCollect == "yes" then Some(true) else None))
  }

  /**
   A request leaves the page only with a snapshot and once both gates pass:
   under approval it always carries a comment, and without approval a page
   that offers access-event tracking has had the user answer the question.
   */
  lemma RequestsNeedAnswers(approval: Option<ApprovalInfo>, comment: string, isCollect: string,
                            allowEnableTrackEvents: bool, publishTargeting: Option<Targeting>)
    ensures var r := PublishConfirm(approval, comment, isCollect, allowEnableTrackEvents, publishTargeting);
            (r.SendApproval? || r.SendSave?) <==>
              (GatesPass(approval, comment, isCollect, allowEnableTrackEvents) && publishTargeting.Some?)
    ensures var r := PublishConfirm(approval, comment, isCollect, allowEnableTrackEvents, publishTargeting);
            r.SendSave? && allowEnableTrackEvents ==> isCollect != "" && !ApprovalEnabled(approval)
  {
  }

  /**
   The outcome does not depend on the tracking answer when approval is
   enabled, and not on the comment being empty or not when it is disabled:
   each gate reads only its own input.
   */
  lemma GatesAreIndependent(approval: Option<ApprovalInfo>, comment: string, comment': string,
                            isCollect: string, isCollect': string,
                            allowEnableTrackEvents: bool, publishTargeting: Option<Targeting>)
    ensures ApprovalEnabled(approval) ==>
              PublishConfirm(approval, comment, isCollect, allowEnableTrackEvents, publishTargeting) ==
              PublishConfirm(approval, comment, isCollect', allowEnableTrackEvents, publishTargeting)
    ensures !ApprovalEnabled(approval) ==>
              (PublishConfirm(approval, comment, isCollect, allowEnableTrackEvents, publishTargeting).SendSave? <==>
               PublishConfirm(approval, comment', isCollect, allowEnableTrackEvents, publishTargeting).SendSave?)
  {
  }
}
