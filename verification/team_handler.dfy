/** The team endpoints: request validation in its fixed order, the existence
    check before a creation, and the decision from the service's error to
    status and code. */
module TeamHandler {
  import opened Results
  import opened Entity
  import opened Store
  import opened Http
  import TeamService
  import UserRepository

  /** `CreateTeam`: 400 for a body that does not decode (`None`), then for
      an empty name, then for an empty member list, all before any service
      call (nothing in a team is tagged required, so binding lets both
      through); 500 when the existence check fails; 400 TEAM_EXISTS for a
      taken name, without creating anything; 500 when the creation fails;
      201 with the team. */
  function CreateTeam(st: Store, body: Option<Team>, faults: Faults): (s: Served)
    ensures body.None? ==> s == Served(st, Fail(StatusBadRequest, CodeNotFound, InvalidBody))
    ensures body.Some? && !Present(body.value.teamName) ==>
              s == Served(st, Fail(StatusBadRequest, CodeNotFound, "team_name is required"))
    ensures body.Some? && Present(body.value.teamName) && |body.value.members| == 0 ==>
              s == Served(st, Fail(StatusBadRequest, CodeNotFound, "team must have at least one member"))
    ensures s.store != st ==> body.Some? && body.value.teamName !in st.teams
    ensures s.response.status == StatusCreated ==>
              && body.Some? && s.response.body == TeamBody(body.value)
              && body.value.teamName !in st.teams && s.store.teams == st.teams + {body.value.teamName}
    ensures s.response.status == StatusBadRequest ==> s.store == st
    ensures s.response.status == StatusInternalServerError ==> s.store.users == st.users
    ensures s.response.body.ErrorBody? && s.response.body.code == CodeTeamExists ==>
              s.response.status == StatusBadRequest && body.Some? && body.value.teamName in st.teams
    ensures s.response.body.ErrorBody? ==> s.response.body.code in {CodeTeamExists, CodeNotFound}
    ensures body.Some? && Present(body.value.teamName) && |body.value.members| > 0 ==>
              var team := body.value;
              && (faults(TeamExistsQuery(team.teamName)) ==>
                    s == Served(st, Fail(StatusInternalServerError, CodeNotFound, "failed to check team exists")))
              && (!faults(TeamExistsQuery(team.teamName)) && team.teamName in st.teams ==>
                    s == Served(st, Fail(StatusBadRequest, CodeTeamExists, "team " + team.teamName + " already exists")))
              && (!faults(TeamExistsQuery(team.teamName)) && team.teamName !in st.teams ==>
                    var o := TeamService.CreateTeam(st, team, faults);
                    && s.store == o.store
                    && (s.response.status == StatusCreated <==> o.result.Success?)
                    && (o.result.Success? ==> s.response.body == TeamBody(o.result.value))
                    && (o.result.Failure? ==>
                          s.response == Fail(StatusInternalServerError, CodeNotFound, "failed to create team")))
  {
    if body.None? then Served(st, Fail(StatusBadRequest, CodeNotFound, InvalidBody))
    else
      var team := body.value;
      if !Present(team.teamName) then Served(st, Fail(StatusBadRequest, CodeNotFound, "team_name is required"))
      else if |team.members| == 0 then Served(st, Fail(StatusBadRequest, CodeNotFound, "team must have at least one member"))
      else
        var exists_ := TeamService.IsTeamExists(st, team.teamName, faults);
        if exists_.Failure? then Served(st, Fail(StatusInternalServerError, CodeNotFound, "failed to check team exists"))
        else if exists_.value then
          Served(st, Fail(StatusBadRequest, CodeTeamExists, "team " + team.teamName + " already exists"))
        else
          var o := TeamService.CreateTeam(st, team, faults);
          if o.result.Failure? then Served(o.store, Fail(StatusInternalServerError, CodeNotFound, "failed to create team"))
          else Served(o.store, Response(StatusCreated, TeamBody(o.result.value)))
  }

  /** Without store failures a valid creation request answers 400
      TEAM_EXISTS, writing nothing, for a taken name, and 201 otherwise,
      after which the team exists and every member is stored as a user of
      it. */
  lemma CreateTeamResponses(st: Store, team: Team, faults: Faults)
    requires NoFaults(faults) && Present(team.teamName) && |team.members| > 0 && TeamService.UniqueMemberIds(team)
    ensures var s := CreateTeam(st, Some(team), faults);
            && (team.teamName in st.teams ==>
                  s == Served(st, Fail(StatusBadRequest, CodeTeamExists, "team " + team.teamName + " already exists")))
            && (team.teamName !in st.teams ==>
                  && s.response == Response(StatusCreated, TeamBody(team))
                  && team.teamName in s.store.teams
                  && forall m | m in team.members ::
                       FindUser(s.store.users, m.userId) == Some(TeamService.MemberUser(m, team.teamName)))
  {
    assert !faults(TeamExistsQuery(team.teamName)) && !faults(TeamInsert(team.teamName));
    assert !faults(UserBatchTx(BeginTx)) && !faults(UserBatchTx(CommitTx));
    assert forall u :: !faults(UserBatchRow(u));
    if team.teamName !in st.teams {
      forall m | m in team.members
        ensures FindUser(CreateTeam(st, Some(team), faults).store.users, m.userId)
                == Some(TeamService.MemberUser(m, team.teamName))
      {
        var i :| 0 <= i < |team.members| && team.members[i] == m;
        TeamService.LastMemberWins(team, i);
      }
    }
  }

  /** `GetTeam`: an empty `team_name` query is 400 before the service is
      called, an unknown team 404, anything else 500, otherwise 200. */
  function GetTeam(st: Store, teamName: string, faults: Faults): (s: Served)
    ensures s.store == st
    ensures !Present(teamName) ==> s.response == Fail(StatusBadRequest, CodeNotFound, "team_name query parameter is required")
    ensures Present(teamName) ==>
              var r := TeamService.GetTeam(st, teamName, faults);
              && (s.response.status == StatusOK <==> r.Success?)
              && (r.Success? ==> s.response.body == TeamBody(r.value))
              && (s.response.status == StatusNotFound <==> r.Failure? && Is(r.error, TeamNotFound))
              && (s.response.status == StatusInternalServerError <==> r.Failure? && !Is(r.error, TeamNotFound))
    ensures s.response.body.ErrorBody? ==> s.response.body.code == CodeNotFound
  {
    if !Present(teamName) then Served(st, Fail(StatusBadRequest, CodeNotFound, "team_name query parameter is required"))
    else
      var r := TeamService.GetTeam(st, teamName, faults);
      if r.Success? then Served(st, Response(StatusOK, TeamBody(r.value)))
      else if Is(r.error, TeamNotFound) then Served(st, Fail(StatusNotFound, CodeNotFound, "team not found"))
      else Served(st, Fail(StatusInternalServerError, CodeNotFound, "failed to get team"))
  }

  /** Without store failures a present name answers 404 exactly when no team
      has it, and otherwise 200 listing one member per user of the team. */
  lemma GetTeamResponses(st: Store, teamName: string, faults: Faults)
    requires NoFaults(faults) && Present(teamName)
    ensures var s := GetTeam(st, teamName, faults);
            && (teamName !in st.teams ==> s.response == Fail(StatusNotFound, CodeNotFound, "team not found"))
            && (teamName in st.teams ==>
                  && s.response.status == StatusOK
                  && s.response.body.TeamBody?
                  && s.response.body.team.teamName == teamName
                  && forall u | u in st.users && u.teamName == teamName ::
                       TeamService.UserMember(u) in s.response.body.team.members)
  {
    assert !faults(TeamSelect(teamName)) && !faults(UserSelectTeam(teamName));
  }
}
