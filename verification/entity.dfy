/** The records of the tracker (pull requests, users, teams) and its
    sentinel errors, merged from the two entity packages of the repository
    into one data model. */
module Entity {
  import opened Results

  type UserId = string
  type PrId = string
  type TeamName = string

  /** A wall-clock instant; only its order matters. */
  type Time = int

  /** The two pull-request states, OPEN and MERGED. */
  datatype PRStatus = Open | Merged

  /** A pull request as the services hand it around. The timestamps are
      `*time.Time` in the source and may be nil, hence optional here. */
  datatype PullRequest = PullRequest(
    id: PrId,
    name: string,
    authorId: UserId,
    status: PRStatus,
    assignedReviewers: seq<UserId>,
    createdAt: Option<Time>,
    mergedAt: Option<Time>)

  /** The short form returned by the review list: no reviewers, no times. */
  datatype PullRequestShort = PullRequestShort(
    id: PrId,
    name: string,
    authorId: UserId,
    status: PRStatus)

  function ToShort(pr: PullRequest): PullRequestShort
  {
    PullRequestShort(pr.id, pr.name, pr.authorId, pr.status)
  }

  /** Two pull requests have the same short form exactly when they agree on
      id, name, author and status: reviewers and timestamps are dropped and
      nothing else is. */
  lemma ShortFormForgetsOnlyReviewersAndTimes(a: PullRequest, b: PullRequest)
    ensures ToShort(a) == ToShort(b) <==>
            a.id == b.id && a.name == b.name && a.authorId == b.authorId && a.status == b.status
    ensures a.(assignedReviewers := b.assignedReviewers, createdAt := b.createdAt, mergedAt := b.mergedAt) == b
            <==> ToShort(a) == ToShort(b)
  {
  }

  datatype User = User(id: UserId, username: string, teamName: TeamName, isActive: bool)

  /** A member as listed inside a team: a user without the team name. */
  datatype TeamMember = TeamMember(userId: UserId, username: string, isActive: bool)

  datatype Team = Team(teamName: TeamName, members: seq<TeamMember>)

  /** The sentinel errors of the domain. */
  datatype ErrorKind =
    | TeamExists | TeamNotFound | UserNotFound
    | PRExists | PRNotFound | PRMerged
    | NotAssigned | NoCandidate | InvalidInput

  /** An error value: a sentinel, a sentinel or other error wrapped with a
      context string (`fmt.Errorf("...: %w", err)`), or a failure of the
      database that is none of the sentinels. */
  datatype Error =
    | Sentinel(kind: ErrorKind)
    | Wrapped(context: string, cause: Error)
    | Database(message: string)

  /** The sentinel at the end of the wrap chain, if any. */
  function KindOf(e: Error): Option<ErrorKind>
  {
    match e
    case Sentinel(k) => Some(k)
    case Wrapped(_, cause) => KindOf(cause)
    case Database(_) => None
  }

  /** `errors.Is(e, k)`. */
  predicate Is(e: Error, k: ErrorKind)
  {
    KindOf(e) == Some(k)
  }

  /** `fmt.Errorf(context + ": %w", e)`: wrapping keeps the sentinel visible. */
  function Wrap(context: string, e: Error): (w: Error)
    ensures KindOf(w) == KindOf(e)
    ensures forall k :: Is(w, k) <==> Is(e, k)
  {
    Wrapped(context, e)
  }

  /** The machine-readable codes of the API's error body. */
  datatype ErrorCode =
    | CodeTeamExists | CodePRExists | CodePRMerged
    | CodeNotAssigned | CodeNoCandidate | CodeNotFound
}
