/** The pull-request endpoints: request validation, the call into the
    service, and the decision from the service's error to status and code. */
module PullRequestHandler {
  import opened Results
  import opened Entity
  import opened Store
  import opened Http
  import PullRequestService
  import ReviewerRepository

  datatype CreatePRRequest = CreatePRRequest(pullRequestId: PrId, pullRequestName: string, authorId: UserId)
  datatype MergePRRequest = MergePRRequest(pullRequestId: PrId)
  datatype ReassignReviewerRequest = ReassignReviewerRequest(pullRequestId: PrId, oldUserId: UserId)

  // A body is `None` when it does not decode into the request's shape; a
  // decoded request still fails binding when a required field is empty.

  predicate BindsCreate(body: Option<CreatePRRequest>)
  {
    body.Some? && Present(body.value.pullRequestId) && Present(body.value.pullRequestName) && Present(body.value.authorId)
  }

  predicate BindsMerge(body: Option<MergePRRequest>)
  {
    body.Some? && Present(body.value.pullRequestId)
  }

  predicate BindsReassign(body: Option<ReassignReviewerRequest>)
  {
    body.Some? && Present(body.value.pullRequestId) && Present(body.value.oldUserId)
  }

  /** The pull request the handler hands to the service: no reviewers and no
      timestamps yet. */
  function NewPullRequest(req: CreatePRRequest): PullRequest
  {
    PullRequest(req.pullRequestId, req.pullRequestName, req.authorId, Open, [], None, None)
  }

  // ---------------------------------------------------------------------
  // CreatePullRequest
  // ---------------------------------------------------------------------

  /** `CreatePullRequest`: 400 before the service is called, then 409 for a
      taken id, 404 for an unknown author, 500 for anything else, 201 with
      the created pull request. */
  function CreatePullRequest(st: Store, body: Option<CreatePRRequest>, draw: nat -> nat, now: Time, dbNow: Time, faults: Faults)
    : (s: Served)
    ensures !BindsCreate(body) ==> s == Served(st, Fail(StatusBadRequest, CodeNotFound, InvalidBody))
    ensures BindsCreate(body) ==>
              var o := PullRequestService.CreatePullRequest(st, NewPullRequest(body.value), draw, now, dbNow, faults);
              && s.store == o.store
              && (s.response.status == StatusCreated <==> o.result.Success?)
              && (o.result.Success? ==> s.response.body == PrBody(o.result.value))
              && (s.response.status == StatusConflict <==> o.result.Failure? && Is(o.result.error, PRExists))
              && (s.response.status == StatusNotFound <==> o.result.Failure? && Is(o.result.error, UserNotFound))
              && (s.response.status == StatusInternalServerError <==> o.result.Failure? && KindOf(o.result.error).None?)
    ensures s.response.body.ErrorBody? ==>
              s.response.body.code == (if s.response.status == StatusConflict then CodePRExists else CodeNotFound)
  {
    if !BindsCreate(body) then Served(st, Fail(StatusBadRequest, CodeNotFound, InvalidBody))
    else
      var o := PullRequestService.CreatePullRequest(st, NewPullRequest(body.value), draw, now, dbNow, faults);
      if o.result.Success? then Served(o.store, Response(StatusCreated, PrBody(o.result.value)))
      else if Is(o.result.error, PRExists) then Served(o.store, Fail(StatusConflict, CodePRExists, "PR id already exists"))
      else if Is(o.result.error, UserNotFound) then Served(o.store, Fail(StatusNotFound, CodeNotFound, "author not found"))
      else Served(o.store, Fail(StatusInternalServerError, CodeNotFound, "failed to create pull request"))
  }

  /** Without store failures a well-formed creation never answers 500: a
      taken id is a conflict, an unknown author is not found, and otherwise
      the pull request is created OPEN and stored. */
  lemma CreateResponses(st: Store, req: CreatePRRequest, draw: nat -> nat, now: Time, dbNow: Time, faults: Faults)
    requires NoFaults(faults) && BindsCreate(Some(req))
    ensures var s := CreatePullRequest(st, Some(req), draw, now, dbNow, faults);
            && (FindRow(st.prs, req.pullRequestId).Some? ==>
                  s == Served(st, Fail(StatusConflict, CodePRExists, "PR id already exists")))
            && (FindRow(st.prs, req.pullRequestId).None? && FindUser(st.users, req.authorId).None? ==>
                  s == Served(st, Fail(StatusNotFound, CodeNotFound, "author not found")))
            && (FindRow(st.prs, req.pullRequestId).None? && FindUser(st.users, req.authorId).Some? ==>
                  && s.response.status == StatusCreated
                  && s.response.body.PrBody?
                  && s.response.body.pr.id == req.pullRequestId
                  && s.response.body.pr.status == Open
                  && FindRow(s.store.prs, req.pullRequestId).Some?)
  {
    PullRequestService.CreateOutcomes(st, NewPullRequest(req), draw, now, dbNow, faults);
  }

  // ---------------------------------------------------------------------
  // MergePullRequest
  // ---------------------------------------------------------------------

  /** `MergePullRequest`: 400 before the service is called, 404 for an
      unknown pull request, 500 for anything else, 200 with the merged pull
      request. */
  function MergePullRequest(st: Store, body: Option<MergePRRequest>, now: Time, faults: Faults): (s: Served)
    ensures !BindsMerge(body) ==> s == Served(st, Fail(StatusBadRequest, CodeNotFound, InvalidBody))
    ensures BindsMerge(body) ==>
              var o := PullRequestService.MergePullRequest(st, body.value.pullRequestId, now, faults);
              && s.store == o.store
              && (s.response.status == StatusOK <==> o.result.Success?)
              && (o.result.Success? ==> s.response.body == PrBody(o.result.value))
              && (s.response.status == StatusNotFound <==> o.result.Failure? && Is(o.result.error, PRNotFound))
              && (s.response.status == StatusInternalServerError <==> o.result.Failure? && KindOf(o.result.error).None?)
    ensures s.response.body.ErrorBody? ==> s.response.body.code == CodeNotFound
  {
    if !BindsMerge(body) then Served(st, Fail(StatusBadRequest, CodeNotFound, InvalidBody))
    else
      var o := PullRequestService.MergePullRequest(st, body.value.pullRequestId, now, faults);
      if o.result.Success? then Served(o.store, Response(StatusOK, PrBody(o.result.value)))
      else if Is(o.result.error, PRNotFound) then Served(o.store, Fail(StatusNotFound, CodeNotFound, "pull request not found"))
      else Served(o.store, Fail(StatusInternalServerError, CodeNotFound, "failed to merge pull request"))
  }

  /** Without store failures a merge answers 404 exactly for an unknown pull
      request and 200 with a MERGED pull request otherwise. */
  lemma MergeResponses(st: Store, req: MergePRRequest, now: Time, faults: Faults)
    requires NoFaults(faults) && BindsMerge(Some(req))
    ensures var s := MergePullRequest(st, Some(req), now, faults);
            && (FindRow(st.prs, req.pullRequestId).None? ==>
                  s == Served(st, Fail(StatusNotFound, CodeNotFound, "pull request not found")))
            && (FindRow(st.prs, req.pullRequestId).Some? ==>
                  && s.response.status == StatusOK
                  && s.response.body.PrBody?
                  && s.response.body.pr.id == req.pullRequestId
                  && s.response.body.pr.status == Merged)
  {
    var id := req.pullRequestId;
    assert !faults(PrSelect(id)) && !faults(ReviewerSelect(id)) && !faults(PrUpdate(id));
  }

  /** Repeating a successful merge request, at any later time, gets the same
      response and changes nothing. */
  lemma MergeRequestIsIdempotent(st: Store, body: Option<MergePRRequest>, now: Time, later: Time, faults: Faults)
    requires MergePullRequest(st, body, now, faults).response.status == StatusOK
    ensures var s := MergePullRequest(st, body, now, faults);
            MergePullRequest(s.store, body, later, faults) == s
  {
    PullRequestService.MergeIsIdempotent(st, body.value.pullRequestId, now, later, faults);
  }

  // ---------------------------------------------------------------------
  // ReassignReviewer
  // ---------------------------------------------------------------------

  /** The error switch of `ReassignReviewer`; the message is the error's
      own text. */
  function ReassignFailure(e: Error): (r: Response)
    ensures r.body.ErrorBody? && r.body.message == Message(e)
    ensures r.status == StatusNotFound <==> Is(e, PRNotFound) || Is(e, UserNotFound)
    ensures r.status == StatusConflict <==> Is(e, PRMerged) || Is(e, NotAssigned) || Is(e, NoCandidate)
    ensures r.status == StatusInternalServerError <==>
              !(Is(e, PRNotFound) || Is(e, UserNotFound) || Is(e, PRMerged) || Is(e, NotAssigned) || Is(e, NoCandidate))
    ensures r.body.code == CodePRMerged <==> Is(e, PRMerged)
    ensures r.body.code == CodeNotAssigned <==> Is(e, NotAssigned)
    ensures r.body.code == CodeNoCandidate <==> Is(e, NoCandidate)
    ensures r.body.code == CodeNotFound <==> r.status != StatusConflict
  {
    if Is(e, PRNotFound) || Is(e, UserNotFound) then Fail(StatusNotFound, CodeNotFound, Message(e))
    else if Is(e, PRMerged) then Fail(StatusConflict, CodePRMerged, Message(e))
    else if Is(e, NotAssigned) then Fail(StatusConflict, CodeNotAssigned, Message(e))
    else if Is(e, NoCandidate) then Fail(StatusConflict, CodeNoCandidate, Message(e))
    else Fail(StatusInternalServerError, CodeNotFound, Message(e))
  }

  /** `ReassignReviewer`: 400 before the service is called, the error switch
      on failure, 200 with the pull request and the new reviewer. */
  function ReassignReviewer(st: Store, body: Option<ReassignReviewerRequest>, pick: nat, faults: Faults): (s: Served)
    ensures !BindsReassign(body) ==> s == Served(st, Fail(StatusBadRequest, CodeNotFound, InvalidBody))
    ensures BindsReassign(body) ==>
              var o := PullRequestService.ReassignReviewer(st, body.value.pullRequestId, body.value.oldUserId, pick, faults);
              && s.store == o.store
              && (s.response.status == StatusOK <==> o.result.Success?)
              && (o.result.Success? ==> s.response.body == ReassignBody(o.result.value.pr, o.result.value.replacedBy))
              && (o.result.Failure? ==> s.response == ReassignFailure(o.result.error))
  {
    if !BindsReassign(body) then Served(st, Fail(StatusBadRequest, CodeNotFound, InvalidBody))
    else
      var o := PullRequestService.ReassignReviewer(st, body.value.pullRequestId, body.value.oldUserId, pick, faults);
      if o.result.Success? then Served(o.store, Response(StatusOK, ReassignBody(o.result.value.pr, o.result.value.replacedBy)))
      else Served(o.store, ReassignFailure(o.result.error))
  }

  /** Without store failures the checks answer in order: unknown pull
      request 404, merged 409 PR_MERGED, not a reviewer 409 NOT_ASSIGNED,
      unknown old reviewer 404; none of them writes. */
  lemma ReassignRejections(st: Store, req: ReassignReviewerRequest, pick: nat, faults: Faults)
    requires NoFaults(faults) && BindsReassign(Some(req))
    ensures var s := ReassignReviewer(st, Some(req), pick, faults);
            var id := req.pullRequestId;
            var row := FindRow(st.prs, id);
            && (row.None? ==> s.store == st && s.response.status == StatusNotFound)
            && (row.Some? && row.value.status == Merged ==>
                  s == Served(st, Fail(StatusConflict, CodePRMerged, "cannot modify merged pull request")))
            && (row.Some? && row.value.status == Open && Assignment(id, req.oldUserId) !in st.reviewers ==>
                  s == Served(st, Fail(StatusConflict, CodeNotAssigned, "user is not assigned to this pull request")))
            && (row.Some? && row.value.status == Open && Assignment(id, req.oldUserId) in st.reviewers
                && FindUser(st.users, req.oldUserId).None? ==>
                  s.store == st && s.response.status == StatusNotFound)
  {
    var id := req.pullRequestId;
    PullRequestService.ReassignOutcomes(st, id, req.oldUserId, pick, faults);
    var o := PullRequestService.ReassignReviewer(st, id, req.oldUserId, pick, faults);
    var row := FindRow(st.prs, id);
    if row.Some? && row.value.status == Merged {
      assert o == Outcome(st, Failure(Sentinel(PRMerged)));
      MergedFailure();
    } else if row.Some? && row.value.status == Open && Assignment(id, req.oldUserId) !in st.reviewers {
      assert o == Outcome(st, Failure(Sentinel(NotAssigned)));
      NotAssignedFailure();
    }
  }

  lemma MergedFailure()
    ensures ReassignFailure(Sentinel(PRMerged))
            == Fail(StatusConflict, CodePRMerged, "cannot modify merged pull request")
  {
    assert Message(Sentinel(PRMerged)) == "cannot modify merged pull request";
  }

  lemma NotAssignedFailure()
    ensures ReassignFailure(Sentinel(NotAssigned))
            == Fail(StatusConflict, CodeNotAssigned, "user is not assigned to this pull request")
  {
    assert Message(Sentinel(NotAssigned)) == "user is not assigned to this pull request";
  }

  /** The pool of users who may take over once those checks pass. */
  function ReadyPool(st: Store, id: PrId, oldUser: UserId): set<UserId>
    requires PullRequestService.ReadyToReassign(st, id, oldUser)
  {
    PullRequestService.ReplacementPool(st, FindRow(st.prs, id).value.authorId,
      ReviewerRepository.ReviewersOf(st.reviewers, id), FindUser(st.users, oldUser).value)
  }

  /** Once those checks pass, and without store failures, an empty pool is
      409 NO_CANDIDATE and nothing is written. */
  lemma ReassignNoCandidateResponse(st: Store, req: ReassignReviewerRequest, pick: nat, faults: Faults)
    requires NoFaults(faults) && BindsReassign(Some(req))
    requires PullRequestService.ReadyToReassign(st, req.pullRequestId, req.oldUserId)
    requires ReadyPool(st, req.pullRequestId, req.oldUserId) == {}
    ensures ReassignReviewer(st, Some(req), pick, faults)
            == Served(st, Fail(StatusConflict, CodeNoCandidate, "no active replacement candidate available"))
  {
    var o := PullRequestService.ReassignReviewer(st, req.pullRequestId, req.oldUserId, pick, faults);
    PullRequestService.ReadyOutcome(st, req.pullRequestId, req.oldUserId, pick, faults);
    assert o == Outcome(st, Failure(Sentinel(NoCandidate)));
    NoCandidateFailure();
  }

  lemma NoCandidateFailure()
    ensures ReassignFailure(Sentinel(NoCandidate))
            == Fail(StatusConflict, CodeNoCandidate, "no active replacement candidate available")
  {
    assert Message(Sentinel(NoCandidate)) == "no active replacement candidate available";
  }

  /** Once those checks pass, and without store failures, a non-empty pool
      is 200 naming a member of the pool; a 500 never occurs. */
  lemma ReassignSuccessResponse(st: Store, req: ReassignReviewerRequest, pick: nat, faults: Faults)
    requires NoFaults(faults) && BindsReassign(Some(req))
    requires PullRequestService.ReadyToReassign(st, req.pullRequestId, req.oldUserId)
    requires ReadyPool(st, req.pullRequestId, req.oldUserId) != {}
    ensures var s := ReassignReviewer(st, Some(req), pick, faults);
            && s.response.status == StatusOK
            && s.response.body.ReassignBody?
            && s.response.body.replacedBy in ReadyPool(st, req.pullRequestId, req.oldUserId)
  {
    var id := req.pullRequestId;
    var o := PullRequestService.ReassignReviewer(st, id, req.oldUserId, pick, faults);
    PullRequestService.ReadyOutcome(st, id, req.oldUserId, pick, faults);
    assert PullRequestService.MayReplace(st, id, req.oldUserId, o.result.value.replacedBy);
  }
}
