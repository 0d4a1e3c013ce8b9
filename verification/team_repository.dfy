/** The `teams` table: a set of team names. */
module TeamRepository {
  import opened Results
  import opened Entity
  import opened Store

  /** `Create`: inserts the name; a taken name violates the primary key and
      surfaces as a database error, not as `ErrTeamExists`. */
  function Create(st: Store, team: Team, faults: Faults): (o: Outcome<()>)
    ensures o.result.Failure? ==> o.store == st && KindOf(o.result.error).None?
    ensures o.result.Success? <==> !faults(TeamInsert(team.teamName)) && team.teamName !in st.teams
    ensures o.result.Success? ==> o.store.teams == st.teams + {team.teamName}
    ensures o.store.users == st.users && o.store.prs == st.prs && o.store.reviewers == st.reviewers
  {
    if faults(TeamInsert(team.teamName)) then Outcome(st, Failure(Wrap("create team", DbError("insert"))))
    else if team.teamName in st.teams then Outcome(st, Failure(Wrap("create team", DbError("duplicate key"))))
    else Outcome(st.(teams := st.teams + {team.teamName}), Success(()))
  }

  /** `GetByName`: the team without members; an unknown name is
      `ErrTeamNotFound`. */
  function GetByName(st: Store, name: TeamName, faults: Faults): (r: Result<Team, Error>)
    ensures faults(TeamSelect(name)) ==> r.Failure? && KindOf(r.error).None?
    ensures !faults(TeamSelect(name)) ==> (r == Failure(Sentinel(TeamNotFound)) <==> name !in st.teams)
    ensures r.Success? ==> r.value == Team(name, []) && name in st.teams
  {
    if faults(TeamSelect(name)) then Failure(Wrap("get team by name", DbError("select")))
    else if name !in st.teams then Failure(Sentinel(TeamNotFound))
    else Success(Team(name, []))
  }

  /** `Exists`. */
  function Exists(st: Store, name: TeamName, faults: Faults): (r: Result<bool, Error>)
    ensures r.Failure? <==> faults(TeamExistsQuery(name))
    ensures r.Failure? ==> KindOf(r.error).None?
    ensures r.Success? ==> (r.value <==> name in st.teams)
  {
    if faults(TeamExistsQuery(name)) then Failure(Wrap("check team exists", DbError("select")))
    else Success(name in st.teams)
  }
}
