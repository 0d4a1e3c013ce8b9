/** The `users` table: rows keyed by `user_id`. */
module UserRepository {
  import opened Results
  import opened Seqs
  import opened Entity
  import opened Store

  /** `user` with its activity flag set to `active`. */
  function WithActive(user: Option<User>, active: bool): Option<User>
  {
    if user.Some? then Some(user.value.(isActive := active)) else None
  }

  /** Every row whose id is `u.id` takes the values of `u`. */
  function Overwrite(users: seq<User>, u: User): (r: seq<User>)
    ensures |r| == |users|
    ensures forall i | 0 <= i < |users| :: r[i].id == users[i].id
  {
    if |users| == 0 then []
    else [if users[0].id == u.id then u else users[0]] + Overwrite(users[1..], u)
  }

  /** After an overwrite a known id finds `u`, and no other lookup changes. */
  lemma {:induction false} OverwriteFind(users: seq<User>, u: User, id: UserId)
    ensures FindUser(Overwrite(users, u), id) ==
            if id != u.id then FindUser(users, id)
            else if FindUser(users, id).Some? then Some(u) else None
  {
    if |users| > 0 {
      OverwriteFind(users[1..], u, id);
      assert Overwrite(users, u)[1..] == Overwrite(users[1..], u);
    }
  }

  /** `INSERT ... ON CONFLICT (user_id) DO UPDATE`: a known id takes the new
      username, team and flag; an unknown id is appended. */
  function Upsert(users: seq<User>, u: User): (r: seq<User>)
    ensures FindUser(r, u.id) == Some(u)
    ensures forall id | id != u.id :: FindUser(r, id) == FindUser(users, id)
    ensures UniqueUserIds(users) ==> UniqueUserIds(r)
    ensures FindUser(users, u.id).None? ==> r == users + [u]
  {
    if FindUser(users, u.id).Some? then
      assert forall id :: FindUser(Overwrite(users, u), id) == if id == u.id then Some(u) else FindUser(users, id) by {
        forall id { OverwriteFind(users, u, id); }
      }
      Overwrite(users, u)
    else
      AppendedFind(users, u);
      users + [u]
  }

  lemma {:induction false} AppendedFind(users: seq<User>, u: User)
    requires FindUser(users, u.id).None?
    ensures FindUser(users + [u], u.id) == Some(u)
    ensures forall id | id != u.id :: FindUser(users + [u], id) == FindUser(users, id)
  {
    if |users| > 0 {
      AppendedFind(users[1..], u);
      assert (users + [u])[1..] == users[1..] + [u];
    } else {
      assert FindUser([u], u.id) == Some(u);
      forall id | id != u.id ensures FindUser([u], id) == None {
        assert [u][1..] == [];
      }
    }
  }

  /** The last user of `batch` with the given id: the write that wins. */
  function LastWith(batch: seq<User>, id: UserId): (r: Option<User>)
    ensures r.None? <==> forall u | u in batch :: u.id != id
    ensures r.Some? ==> r.value.id == id
    ensures r.Some? ==>
              exists i | 0 <= i < |batch| :: batch[i] == r.value && forall j | i < j < |batch| :: batch[j].id != id
  {
    if |batch| == 0 then None
    else
      var later := LastWith(batch[1..], id);
      assert batch == [batch[0]] + batch[1..];
      if later.Some? then
        var i :| 0 <= i < |batch[1..]| && batch[1..][i] == later.value
                 && forall j | i < j < |batch[1..]| :: batch[1..][j].id != id;
        assert batch[i + 1] == later.value;
        later
      else if batch[0].id == id then Some(batch[0])
      else None
  }

  /** One upsert per user of the batch, in batch order. */
  function UpsertAll(users: seq<User>, batch: seq<User>): (r: seq<User>)
    ensures forall id :: FindUser(r, id) == if LastWith(batch, id).Some? then LastWith(batch, id) else FindUser(users, id)
    ensures UniqueUserIds(users) ==> UniqueUserIds(r)
    decreases |batch|
  {
    if |batch| == 0 then users
    else UpsertAll(Upsert(users, batch[0]), batch[1..])
  }

  /** `UPDATE users SET is_active = $2 WHERE user_id = $1`. */
  function SetActive(users: seq<User>, id: UserId, active: bool): (r: seq<User>)
    ensures |r| == |users|
    ensures forall i | 0 <= i < |users| :: r[i].id == users[i].id
  {
    if |users| == 0 then []
    else [if users[0].id == id then users[0].(isActive := active) else users[0]] + SetActive(users[1..], id, active)
  }

  /** Setting the flag changes only the lookup of that id, and only its flag. */
  lemma {:induction false} SetActiveFind(users: seq<User>, id: UserId, active: bool, other: UserId)
    ensures FindUser(SetActive(users, id, active), other) ==
            if other == id then WithActive(FindUser(users, id), active) else FindUser(users, other)
  {
    if |users| > 0 {
      SetActiveFind(users[1..], id, active, other);
      assert SetActive(users, id, active)[1..] == SetActive(users[1..], id, active);
    }
  }

  /** `UPDATE users SET is_active = false WHERE team_name = $1`. */
  function DeactivateTeam(users: seq<User>, team: TeamName): (r: seq<User>)
    ensures |r| == |users|
    ensures forall i | 0 <= i < |users| ::
              r[i] == if users[i].teamName == team then users[i].(isActive := false) else users[i]
  {
    if |users| == 0 then []
    else [if users[0].teamName == team then users[0].(isActive := false) else users[0]]
         + DeactivateTeam(users[1..], team)
  }

  /** Deactivating a team clears the flag of exactly its users. */
  lemma {:induction false} DeactivateTeamFind(users: seq<User>, team: TeamName, id: UserId)
    ensures FindUser(DeactivateTeam(users, team), id) ==
            if FindUser(users, id).Some? && FindUser(users, id).value.teamName == team
            then WithActive(FindUser(users, id), false) else FindUser(users, id)
  {
    if |users| > 0 {
      DeactivateTeamFind(users[1..], team, id);
      assert DeactivateTeam(users, team)[1..] == DeactivateTeam(users[1..], team);
    }
  }

  /** `SELECT ... WHERE team_name = $1`, in table order. */
  function TeamUsers(users: seq<User>, team: TeamName): (r: seq<User>)
    ensures forall u | u in r :: u in users && u.teamName == team
    ensures forall u | u in users && u.teamName == team :: u in r
    ensures UniqueUserIds(users) ==> UniqueUserIds(r)
  {
    var keep := (u: User) => u.teamName == team;
    FilterKeepsUniqueIds(users, keep);
    Filter(users, keep)
  }

  /** `BatchCreateOrUpdate`: one transaction; any failing statement rolls
      every upsert back. */
  function BatchCreateOrUpdate(st: Store, batch: seq<User>, faults: Faults): (o: Outcome<()>)
    ensures o.result.Failure? <==>
              faults(UserBatchTx(BeginTx)) || faults(UserBatchTx(CommitTx))
              || exists u | u in batch :: faults(UserBatchRow(u.id))
    ensures o.result.Failure? ==> o.store == st
    ensures o.store.teams == st.teams && o.store.prs == st.prs && o.store.reviewers == st.reviewers
    ensures o.result.Success? ==>
              forall id :: FindUser(o.store.users, id) ==
                if LastWith(batch, id).Some? then LastWith(batch, id) else FindUser(st.users, id)
    ensures UniqueUserIds(st.users) ==> UniqueUserIds(o.store.users)
  {
    if faults(UserBatchTx(BeginTx)) then Outcome(st, Failure(Wrap("begin transaction", DbError("begin"))))
    else if exists u | u in batch :: faults(UserBatchRow(u.id)) then
      Outcome(st, Failure(Wrap("update user", DbError("upsert"))))
    else if faults(UserBatchTx(CommitTx)) then Outcome(st, Failure(Wrap("commit transaction", DbError("commit"))))
    else Outcome(st.(users := UpsertAll(st.users, batch)), Success(()))
  }

  /** `Update`: rewrites username, team and flag; an unknown id is
      `ErrUserNotFound`. */
  function Update(st: Store, u: User, faults: Faults): (o: Outcome<()>)
    ensures o.result.Failure? ==> o.store == st
    ensures o.store.teams == st.teams && o.store.prs == st.prs && o.store.reviewers == st.reviewers
    ensures !faults(UserUpdate(u.id)) ==> (o.result == Failure(Sentinel(UserNotFound)) <==> FindUser(st.users, u.id).None?)
    ensures o.result.Success? ==> FindUser(o.store.users, u.id) == Some(u)
    ensures forall id | id != u.id :: FindUser(o.store.users, id) == FindUser(st.users, id)
    ensures UniqueUserIds(st.users) ==> UniqueUserIds(o.store.users)
  {
    if faults(UserUpdate(u.id)) then Outcome(st, Failure(Wrap("update user", DbError("update"))))
    else if FindUser(st.users, u.id).None? then Outcome(st, Failure(Sentinel(UserNotFound)))
    else
      assert forall id :: FindUser(Overwrite(st.users, u), id) == if id == u.id then Some(u) else FindUser(st.users, id) by {
        forall id { OverwriteFind(st.users, u, id); }
      }
      Outcome(st.(users := Overwrite(st.users, u)), Success(()))
  }

  /** `GetByID`: an absent id is `ErrUserNotFound`. */
  function GetByID(st: Store, id: UserId, faults: Faults): (r: Result<User, Error>)
    ensures faults(UserSelect(id)) ==> r.Failure? && KindOf(r.error).None?
    ensures !faults(UserSelect(id)) ==> (r == Failure(Sentinel(UserNotFound)) <==> FindUser(st.users, id).None?)
    ensures r.Success? ==> r.value in st.users && r.value.id == id
    ensures r.Success? ==> FindUser(st.users, id) == Some(r.value)
  {
    if faults(UserSelect(id)) then Failure(Wrap("get user by id", DbError("select")))
    else if FindUser(st.users, id).None? then Failure(Sentinel(UserNotFound))
    else Success(FindUser(st.users, id).value)
  }

  /** `GetByTeamName`: exactly the users whose team is `team`. */
  function GetByTeamName(st: Store, team: TeamName, faults: Faults): (r: Result<seq<User>, Error>)
    ensures r.Failure? <==> faults(UserSelectTeam(team))
    ensures r.Failure? ==> KindOf(r.error).None?
    ensures r.Success? ==> forall u :: u in r.value <==> u in st.users && u.teamName == team
    ensures r.Success? && UniqueUserIds(st.users) ==> UniqueUserIds(r.value)
  {
    if faults(UserSelectTeam(team)) then Failure(Wrap("get users by team", DbError("select")))
    else Success(TeamUsers(st.users, team))
  }

  /** `SetIsActive`: changes only the flag of that user; an unknown id is
      `ErrUserNotFound`. */
  function SetIsActive(st: Store, id: UserId, active: bool, faults: Faults): (o: Outcome<()>)
    ensures o.result.Failure? ==> o.store == st
    ensures o.store.teams == st.teams && o.store.prs == st.prs && o.store.reviewers == st.reviewers
    ensures !faults(UserSetActive(id)) ==> (o.result == Failure(Sentinel(UserNotFound)) <==> FindUser(st.users, id).None?)
    ensures o.result.Success? ==> FindUser(o.store.users, id) == WithActive(FindUser(st.users, id), active)
    ensures forall other | other != id :: FindUser(o.store.users, other) == FindUser(st.users, other)
    ensures UniqueUserIds(st.users) ==> UniqueUserIds(o.store.users)
  {
    if faults(UserSetActive(id)) then Outcome(st, Failure(Wrap("set is_active", DbError("update"))))
    else if FindUser(st.users, id).None? then Outcome(st, Failure(Sentinel(UserNotFound)))
    else
      assert forall other :: FindUser(SetActive(st.users, id, active), other) ==
               if other == id then WithActive(FindUser(st.users, id), active) else FindUser(st.users, other) by {
        forall other { SetActiveFind(st.users, id, active, other); }
      }
      Outcome(st.(users := SetActive(st.users, id, active)), Success(()))
  }

  /** `DeactivateTeamMembers`: clears the flag of every user of the team and
      of nobody else; a team without users is not an error. */
  function DeactivateTeamMembers(st: Store, team: TeamName, faults: Faults): (o: Outcome<()>)
    ensures o.result.Failure? <==> faults(UserDeactivateTeam(team))
    ensures o.result.Failure? ==> o.store == st
    ensures o.store.teams == st.teams && o.store.prs == st.prs && o.store.reviewers == st.reviewers
    ensures o.result.Success? ==>
              forall id :: FindUser(o.store.users, id) ==
                if FindUser(st.users, id).Some? && FindUser(st.users, id).value.teamName == team
                then WithActive(FindUser(st.users, id), false) else FindUser(st.users, id)
    ensures UniqueUserIds(st.users) ==> UniqueUserIds(o.store.users)
  {
    if faults(UserDeactivateTeam(team)) then Outcome(st, Failure(Wrap("deactivate team members", DbError("update"))))
    else
      var users := DeactivateTeam(st.users, team);
      assert forall id :: FindUser(users, id) ==
              if FindUser(st.users, id).Some? && FindUser(st.users, id).value.teamName == team
              then WithActive(FindUser(st.users, id), false) else FindUser(st.users, id) by {
        forall id { DeactivateTeamFind(st.users, team, id); }
      }
      Outcome(st.(users := users), Success(()))
  }

  /** Filtering keeps ids unique: the survivors are distinct users of the
      table. */
  lemma FilterKeepsUniqueIds(users: seq<User>, keep: User -> bool)
    ensures UniqueUserIds(users) ==> UniqueUserIds(Filter(users, keep))
  {
    if UniqueUserIds(users) {
      assert Distinct(users);
      FilterDistinct(users, keep);
      DistinctSubsetHasUniqueIds(Filter(users, keep), users);
    }
  }

  /** Distinct users drawn from a table with unique ids have unique ids. */
  lemma DistinctSubsetHasUniqueIds(sub: seq<User>, users: seq<User>)
    requires UniqueUserIds(users) && Distinct(sub)
    requires forall u | u in sub :: u in users
    ensures UniqueUserIds(sub)
  {
    forall i, j | 0 <= i < j < |sub| ensures sub[i].id != sub[j].id {
      assert sub[i] in users && sub[j] in users;
      var a :| 0 <= a < |users| && users[a] == sub[i];
      var b :| 0 <= b < |users| && users[b] == sub[j];
      assert a != b;
    }
  }
}
