/** The user endpoints: request validation, the call into the service, and
    the decision from the service's error to status and code. */
module UserHandler {
  import opened Results
  import opened Entity
  import opened Store
  import opened Http
  import UserService
  import UserRepository
  import PullRequestRepository

  datatype SetIsActiveRequest = SetIsActiveRequest(userId: UserId, isActive: bool)
  datatype DeactivateTeamRequest = DeactivateTeamRequest(teamName: TeamName)

  // A body is `None` when it does not decode into the request's shape; a
  // decoded request still fails binding when a required field is empty.
  // `is_active` is not required: a missing flag decodes as false.

  predicate BindsSetIsActive(body: Option<SetIsActiveRequest>)
  {
    body.Some? && Present(body.value.userId)
  }

  predicate BindsDeactivate(body: Option<DeactivateTeamRequest>)
  {
    body.Some? && Present(body.value.teamName)
  }

  const DeactivatedMessage: string := "Team members deactivated successfully"

  /** `SetIsActive`: 400 before the service is called, 404 for an unknown
      user, 500 for anything else, 200 with the updated user. */
  function SetIsActive(st: Store, body: Option<SetIsActiveRequest>, faults: Faults): (s: Served)
    ensures !BindsSetIsActive(body) ==> s == Served(st, Fail(StatusBadRequest, CodeNotFound, InvalidBody))
    ensures BindsSetIsActive(body) ==>
              var o := UserService.SetIsActive(st, body.value.userId, body.value.isActive, faults);
              && s.store == o.store
              && (s.response.status == StatusOK <==> o.result.Success?)
              && (o.result.Success? ==> s.response.body == UserBody(o.result.value))
              && (s.response.status == StatusNotFound <==> o.result.Failure? && Is(o.result.error, UserNotFound))
              && (s.response.status == StatusInternalServerError <==> o.result.Failure? && KindOf(o.result.error).None?)
    ensures s.response.body.ErrorBody? ==> s.response.body.code == CodeNotFound
  {
    if !BindsSetIsActive(body) then Served(st, Fail(StatusBadRequest, CodeNotFound, InvalidBody))
    else
      var o := UserService.SetIsActive(st, body.value.userId, body.value.isActive, faults);
      if o.result.Success? then Served(o.store, Response(StatusOK, UserBody(o.result.value)))
      else if Is(o.result.error, UserNotFound) then Served(o.store, Fail(StatusNotFound, CodeNotFound, "user not found"))
      else Served(o.store, Fail(StatusInternalServerError, CodeNotFound, "failed to update user"))
  }

  /** Without store failures: 404 exactly for an unknown user; otherwise 200
      with the user as stored afterwards, carrying the requested flag. */
  lemma SetIsActiveResponses(st: Store, req: SetIsActiveRequest, faults: Faults)
    requires NoFaults(faults) && BindsSetIsActive(Some(req))
    ensures var s := SetIsActive(st, Some(req), faults);
            && (FindUser(st.users, req.userId).None? ==>
                  s == Served(st, Fail(StatusNotFound, CodeNotFound, "user not found")))
            && (FindUser(st.users, req.userId).Some? ==>
                  && s.response.status == StatusOK
                  && s.response.body == UserBody(FindUser(st.users, req.userId).value.(isActive := req.isActive))
                  && FindUser(s.store.users, req.userId) == Some(s.response.body.user))
  {
    assert !faults(UserSelect(req.userId)) && !faults(UserSetActive(req.userId));
  }

  /** `GetReview`: an empty `user_id` query is 400 before the service is
      called; any service error is 500; otherwise 200 with the list. */
  function GetReview(st: Store, userId: string, faults: Faults): (s: Served)
    ensures s.store == st
    ensures !Present(userId) ==> s.response == Fail(StatusBadRequest, CodeNotFound, "user_id query parameter is required")
    ensures Present(userId) ==>
              var r := UserService.GetReviewPullRequests(st, userId, faults);
              && (s.response.status == StatusOK <==> r.Success?)
              && (r.Success? ==> s.response.body == ReviewBody(userId, r.value))
              && (r.Failure? ==> s.response == Fail(StatusInternalServerError, CodeNotFound, "failed to get review pull requests"))
  {
    if !Present(userId) then Served(st, Fail(StatusBadRequest, CodeNotFound, "user_id query parameter is required"))
    else
      var r := UserService.GetReviewPullRequests(st, userId, faults);
      if r.Failure? then Served(st, Fail(StatusInternalServerError, CodeNotFound, "failed to get review pull requests"))
      else Served(st, Response(StatusOK, ReviewBody(userId, r.value)))
  }

  /** Without store failures a present `user_id` is always answered 200,
      listing the short form of every pull request the user reviews. */
  lemma GetReviewResponses(st: Store, userId: string, faults: Faults)
    requires NoFaults(faults) && Present(userId)
    ensures var s := GetReview(st, userId, faults);
            && s.response.status == StatusOK
            && s.response.body.ReviewBody?
            && forall row | row in st.prs && Assignment(row.id, userId) in st.reviewers ::
                 UserService.RowShort(row) in s.response.body.pullRequests
  {
  }

  /** `DeactivateTeam`: 400 before the service is called, 500 for every
      service error (the deadline included), otherwise 200 with the affected
      pull requests. */
  function DeactivateTeam(st: Store, body: Option<DeactivateTeamRequest>, faults: Faults): (s: Served)
    ensures !BindsDeactivate(body) ==> s == Served(st, Fail(StatusBadRequest, CodeNotFound, InvalidBody))
    ensures BindsDeactivate(body) ==>
              var o := UserService.DeactivateTeamMembers(st, body.value.teamName, faults);
              && s.store == o.store
              && (s.response.status == StatusOK <==> o.result.Success?)
              && (o.result.Success? ==>
                    s.response.body == DeactivateBody(body.value.teamName, o.result.value, DeactivatedMessage))
              && (o.result.Failure? ==>
                    s.response == Fail(StatusInternalServerError, CodeNotFound, "failed to deactivate team members"))
  {
    if !BindsDeactivate(body) then Served(st, Fail(StatusBadRequest, CodeNotFound, InvalidBody))
    else
      var o := UserService.DeactivateTeamMembers(st, body.value.teamName, faults);
      if o.result.Failure? then Served(o.store, Fail(StatusInternalServerError, CodeNotFound, "failed to deactivate team members"))
      else Served(o.store, Response(StatusOK, DeactivateBody(body.value.teamName, o.result.value, DeactivatedMessage)))
  }

  /** Without store failures a deactivation is answered 200: the team's users
      are inactive afterwards, and the response lists, newest first, exactly
      the open pull requests some user of the team reviewed, each with the
      team's users dropped from its reviewers. */
  lemma DeactivateTeamResponses(st: Store, req: DeactivateTeamRequest, faults: Faults)
    requires NoFaults(faults) && BindsDeactivate(Some(req))
    ensures var s := DeactivateTeam(st, Some(req), faults);
            && s.response.status == StatusOK
            && s.response.body.DeactivateBody?
            && UserService.TeamDeactivated(st.users, s.store.users, req.teamName)
            && (forall p | p in s.response.body.affectedPrs ::
                  p.status == Open && forall u | u in p.assignedReviewers :: !UserService.InTeam(st.users, req.teamName, u))
            && (forall p | p in s.response.body.affectedPrs ::
                  exists row | row in st.prs && row.status == Open && UserService.TeamReviews(st, req.teamName, row.id) ::
                    p == UserService.Cleared(row, st, req.teamName))
            && (forall row | row in st.prs && row.status == Open && UserService.TeamReviews(st, req.teamName, row.id) ::
                  UserService.Cleared(row, st, req.teamName) in s.response.body.affectedPrs)
            && PullRequestRepository.NewestFirstLoaded(s.response.body.affectedPrs)
  {
  }
}
