/** The team operations: creating a team together with its users, asking
    whether a team exists, and reading a team back with its members. */
module TeamService {
  import opened Results
  import opened Seqs
  import opened Entity
  import opened Store
  import TeamRepository
  import UserRepository

  /** The user row a team member becomes. */
  function MemberUser(m: TeamMember, team: TeamName): (u: User)
    ensures u.id == m.userId && u.teamName == team
  {
    User(m.userId, m.username, team, m.isActive)
  }

  /** The member a user of the team is listed as. */
  function UserMember(u: User): TeamMember
  {
    TeamMember(u.id, u.username, u.isActive)
  }

  /** The users written for a team, in member order. */
  function MemberUsers(team: Team): (users: seq<User>)
    ensures |users| == |team.members|
    ensures forall i | 0 <= i < |users| :: users[i] == MemberUser(team.members[i], team.teamName)
  {
    seq(|team.members|, i requires 0 <= i < |team.members| => MemberUser(team.members[i], team.teamName))
  }

  /** The members of a team listed from its users, in user order. */
  function UserMembers(users: seq<User>): (members: seq<TeamMember>)
    ensures |members| == |users|
    ensures forall i | 0 <= i < |users| :: members[i] == UserMember(users[i])
  {
    seq(|users|, i requires 0 <= i < |users| => UserMember(users[i]))
  }

  /** No two members share a user id. */
  predicate UniqueMemberIds(team: Team)
  {
    forall i, j | 0 <= i < j < |team.members| :: team.members[i].userId != team.members[j].userId
  }

  /** `CreateTeam`: inserts the team, then upserts every member as a user of
      it in one transaction. A failing upsert leaves the team without its
      users: the two writes are not one transaction. */
  function CreateTeam(st: Store, team: Team, faults: Faults): (o: Outcome<Team>)
    ensures o.result.Failure? ==> KindOf(o.result.error).None?
    ensures o.store.prs == st.prs && o.store.reviewers == st.reviewers
    ensures o.result.Failure? ==> o.store.users == st.users
    ensures o.store.teams == st.teams || o.store.teams == st.teams + {team.teamName}
    ensures team.teamName in st.teams ==> o.result.Failure? && o.store == st
    ensures o.result.Success? ==>
              && o.result.value == team
              && o.store.teams == st.teams + {team.teamName}
              && team.teamName !in st.teams
              && forall id :: FindUser(o.store.users, id) ==
                   if UserRepository.LastWith(MemberUsers(team), id).Some?
                   then UserRepository.LastWith(MemberUsers(team), id) else FindUser(st.users, id)
    ensures UniqueUserIds(st.users) ==> UniqueUserIds(o.store.users)
  {
    var created := TeamRepository.Create(st, team, faults);
    if created.result.Failure? then Outcome(st, Failure(Wrap("create team", created.result.error)))
    else
      var batch := UserRepository.BatchCreateOrUpdate(created.store, MemberUsers(team), faults);
      if batch.result.Failure? then Outcome(created.store, Failure(Wrap("batch create or update users", batch.result.error)))
      else Outcome(batch.store, Success(team))
  }

  /** `IsTeamExists`. */
  function IsTeamExists(st: Store, name: TeamName, faults: Faults): (r: Result<bool, Error>)
    ensures r.Failure? <==> faults(TeamExistsQuery(name))
    ensures r.Failure? ==> KindOf(r.error).None?
    ensures r.Success? ==> (r.value <==> name in st.teams)
  {
    var exists_ := TeamRepository.Exists(st, name, faults);
    if exists_.Failure? then Failure(Wrap("check team exists", exists_.error))
    else Success(exists_.value)
  }

  /** `GetTeam`: the team and one member per user whose team it is. */
  function GetTeam(st: Store, name: TeamName, faults: Faults): (r: Result<Team, Error>)
    ensures !faults(TeamSelect(name)) ==> (r.Failure? && Is(r.error, TeamNotFound) <==> name !in st.teams)
    ensures r.Failure? ==> Is(r.error, TeamNotFound) || KindOf(r.error).None?
    ensures r.Success? ==> r.value.teamName == name && name in st.teams
    ensures r.Success? ==>
              forall m :: m in r.value.members <==> exists u | u in st.users :: u.teamName == name && m == UserMember(u)
    ensures r.Success? && UniqueUserIds(st.users) ==> UniqueMemberIds(r.value)
  {
    var team := TeamRepository.GetByName(st, name, faults);
    if team.Failure? then Failure(Wrap("get team", team.error))
    else
      var users := UserRepository.GetByTeamName(st, name, faults);
      if users.Failure? then Failure(Wrap("get team members", users.error))
      else
        var members := UserMembers(users.value);
        assert forall m :: m in members <==> exists u | u in users.value :: m == UserMember(u) by {
          forall m | m in members ensures exists u | u in users.value :: m == UserMember(u) {
            var i :| 0 <= i < |members| && members[i] == m;
            assert users.value[i] in users.value;
          }
          forall m | exists u | u in users.value :: m == UserMember(u) ensures m in members {
            var u :| u in users.value && m == UserMember(u);
            var i :| 0 <= i < |users.value| && users.value[i] == u;
            assert members[i] == m;
          }
        }
        Success(team.value.(members := members))
  }

  /** The last member with a given id is the one the upsert keeps. */
  lemma LastMemberWins(team: Team, i: nat)
    requires UniqueMemberIds(team) && i < |team.members|
    ensures UserRepository.LastWith(MemberUsers(team), team.members[i].userId)
            == Some(MemberUser(team.members[i], team.teamName))
  {
    var batch := MemberUsers(team);
    var id := team.members[i].userId;
    var last := UserRepository.LastWith(batch, id);
    assert batch[i].id == id;
    var k :| 0 <= k < |batch| && batch[k] == last.value && forall j | k < j < |batch| :: batch[j].id != id;
    assert batch[k].id == id;
    assert k == i;
  }

  /** A team created from nothing reads back with exactly the members it was
      created with, each once: a permutation of them. */
  lemma CreateThenGet(st: Store, team: Team, faults: Faults)
    requires UniqueUserIds(st.users) && UniqueMemberIds(team)
    requires forall u | u in st.users :: u.teamName != team.teamName
    requires CreateTeam(st, team, faults).result.Success?
    ensures var after := CreateTeam(st, team, faults).store;
            var got := GetTeam(after, team.teamName, faults);
            got.Success? ==> multiset(got.value.members) == multiset(team.members)
  {
    var after := CreateTeam(st, team, faults).store;
    var got := GetTeam(after, team.teamName, faults);
    if got.Success? {
      CreatedMembersAreListed(st, team, faults, after, got.value);
      ListedAreCreatedMembers(st, team, faults, after, got.value);
      UniqueMembersDistinct(got.value);
      UniqueMembersDistinct(team);
      DistinctSameElements(got.value.members, team.members);
    }
  }

  lemma UniqueMembersDistinct(team: Team)
    requires UniqueMemberIds(team)
    ensures Distinct(team.members)
  {
  }

  lemma CreatedMembersAreListed(st: Store, team: Team, faults: Faults, after: Store, got: Team)
    requires UniqueMemberIds(team)
    requires CreateTeam(st, team, faults).result.Success? && after == CreateTeam(st, team, faults).store
    requires forall m :: m in got.members <==> exists u | u in after.users :: u.teamName == team.teamName && m == UserMember(u)
    ensures forall m | m in team.members :: m in got.members
  {
    forall m | m in team.members ensures m in got.members {
      var i :| 0 <= i < |team.members| && team.members[i] == m;
      LastMemberWins(team, i);
      var u := MemberUser(m, team.teamName);
      assert FindUser(after.users, m.userId) == Some(u);
      assert u in after.users && u.teamName == team.teamName && m == UserMember(u);
    }
  }

  lemma ListedAreCreatedMembers(st: Store, team: Team, faults: Faults, after: Store, got: Team)
    requires UniqueUserIds(st.users)
    requires forall u | u in st.users :: u.teamName != team.teamName
    requires CreateTeam(st, team, faults).result.Success? && after == CreateTeam(st, team, faults).store
    requires forall m :: m in got.members <==> exists u | u in after.users :: u.teamName == team.teamName && m == UserMember(u)
    ensures forall m | m in got.members :: m in team.members
  {
    var batch := MemberUsers(team);
    assert UniqueUserIds(after.users);
    forall m | m in got.members ensures m in team.members {
      var u :| u in after.users && u.teamName == team.teamName && m == UserMember(u);
      assert FindUser(after.users, u.id) == Some(u);
      var last := UserRepository.LastWith(batch, u.id);
      var found := FindUser(st.users, u.id);
      assert found.Some? ==> found.value.teamName != team.teamName;
      assert last.Some?;
      var k :| 0 <= k < |batch| && batch[k] == last.value && forall j | k < j < |batch| :: batch[j].id != u.id;
      assert u == batch[k] == MemberUser(team.members[k], team.teamName);
      assert m == team.members[k];
    }
  }
}
