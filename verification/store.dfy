/** The persistent state the services run against, as one immutable value,
    and the oracle that decides which database statements fail. */
module Store {
  import opened Results
  import opened Seqs
  import opened Entity

  /** One row of the reviewer relation: `user` reviews `pr`. */
  datatype Assignment = Assignment(pr: PrId, user: UserId)

  /** One row of the pull-request table. Reviewers are not stored here. */
  datatype PrRow = PrRow(
    id: PrId,
    name: string,
    authorId: UserId,
    status: PRStatus,
    createdAt: Time,
    mergedAt: Option<Time>)

  /** The four tables. Sequences keep insertion order: for the reviewer
      relation that is the `assigned_at` order. */
  datatype Store = Store(
    teams: set<TeamName>,
    users: seq<User>,
    prs: seq<PrRow>,
    reviewers: seq<Assignment>)

  /** The steps of a transaction that can fail on their own. */
  datatype TxPhase = BeginTx | CommitTx

  /** Every database statement the repositories issue. */
  datatype Call =
    | TeamInsert(team: TeamName)
    | TeamSelect(team: TeamName)
    | TeamExistsQuery(team: TeamName)
    | UserBatchTx(phase: TxPhase)
    | UserBatchRow(user: UserId)
    | UserUpdate(user: UserId)
    | UserSelect(user: UserId)
    | UserSelectTeam(team: TeamName)
    | UserSetActive(user: UserId)
    | UserDeactivateTeam(team: TeamName)
    | PrInsert(pr: PrId)
    | PrSelect(pr: PrId)
    | PrUpdate(pr: PrId)
    | PrExistsQuery(pr: PrId)
    | PrSelectByReviewer(user: UserId)
    | PrSelectOpenByReviewers
    | ReviewerInsert(pr: PrId, user: UserId)
    | ReviewerDelete(pr: PrId, user: UserId)
    | ReviewerSelect(pr: PrId)
    | ReviewerExistsQuery(pr: PrId, user: UserId)
    | ReviewerReplaceTx(pr: PrId, phase: TxPhase)
    | ReviewerReplaceDelete(pr: PrId, user: UserId)
    | ReviewerReplaceInsert(pr: PrId, user: UserId)

  /** Which statements fail (connection loss, an expired deadline, ...).
      A statement that fails has no effect. */
  type Faults = Call -> bool

  /** A database in which nothing fails. */
  ghost predicate NoFaults(faults: Faults)
  {
    forall c :: !faults(c)
  }

  /** The state after an operation together with what it returned. A failed
      operation may still have changed the state when it wrote before
      failing. */
  datatype Outcome<T> = Outcome(store: Store, result: Result<T, Error>)

  /** The error a failing statement surfaces as. */
  function DbError(context: string): Error
  {
    Database(context)
  }

  predicate UniqueUserIds(users: seq<User>)
  {
    forall i, j | 0 <= i < j < |users| :: users[i].id != users[j].id
  }

  predicate UniquePrIds(prs: seq<PrRow>)
  {
    forall i, j | 0 <= i < j < |prs| :: prs[i].id != prs[j].id
  }

  /** The ids of a list of users, position by position. */
  function UserIds(users: seq<User>): (ids: seq<UserId>)
    ensures |ids| == |users|
    ensures forall i | 0 <= i < |users| :: ids[i] == users[i].id
  {
    seq(|users|, i requires 0 <= i < |users| => users[i].id)
  }

  /** Users with unique ids give a duplicate-free id list holding exactly
      their ids. */
  lemma UserIdsOfUnique(users: seq<User>)
    ensures UniqueUserIds(users) ==> Distinct(UserIds(users))
    ensures forall id :: id in UserIds(users) <==> exists u | u in users :: u.id == id
  {
    var ids := UserIds(users);
    forall id | id in ids ensures exists u | u in users :: u.id == id {
      var i :| 0 <= i < |ids| && ids[i] == id;
      assert users[i] in users;
    }
    forall id | exists u | u in users :: u.id == id ensures id in ids {
      var u :| u in users && u.id == id;
      var i :| 0 <= i < |users| && users[i] == u;
      assert ids[i] == id;
    }
  }

  /** The first row with the given id. */
  function FindRow(prs: seq<PrRow>, id: PrId): (r: Option<PrRow>)
    ensures r.Some? ==> r.value in prs && r.value.id == id
    ensures r.None? <==> forall row | row in prs :: row.id != id
    ensures UniquePrIds(prs) ==> forall row | row in prs && row.id == id :: r == Some(row)
  {
    if |prs| == 0 then None
    else if prs[0].id == id then Some(prs[0])
    else
      var r := FindRow(prs[1..], id);
      assert prs == [prs[0]] + prs[1..];
      r
  }

  /** The first user with the given id. */
  function FindUser(users: seq<User>, id: UserId): (r: Option<User>)
    ensures r.Some? ==> r.value in users && r.value.id == id
    ensures r.None? <==> forall u | u in users :: u.id != id
    ensures UniqueUserIds(users) ==> forall u | u in users && u.id == id :: r == Some(u)
  {
    if |users| == 0 then None
    else if users[0].id == id then Some(users[0])
    else
      var r := FindUser(users[1..], id);
      assert users == [users[0]] + users[1..];
      r
  }

  /** The invariants of the stored data: keys are unique, the reviewer
      relation holds no pair twice, every pair names a stored pull request,
      and no pull request is reviewed by its own author. */
  predicate Valid(st: Store)
  {
    && UniqueUserIds(st.users)
    && UniquePrIds(st.prs)
    && Distinct(st.reviewers)
    && (forall a | a in st.reviewers :: FindRow(st.prs, a.pr).Some?)
    && (forall a | a in st.reviewers && FindRow(st.prs, a.pr).Some? ::
          FindRow(st.prs, a.pr).value.authorId != a.user)
  }
}
