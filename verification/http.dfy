/** What a handler sends back: an HTTP status and a JSON body, either one of
    the success payloads or the API's error object. */
module Http {
  import opened Entity
  import opened Store

  const StatusOK: int := 200
  const StatusCreated: int := 201
  const StatusBadRequest: int := 400
  const StatusNotFound: int := 404
  const StatusConflict: int := 409
  const StatusInternalServerError: int := 500

  datatype Body =
    | ErrorBody(code: ErrorCode, message: string)
    | PrBody(pr: PullRequest)
    | ReassignBody(pr: PullRequest, replacedBy: UserId)
    | UserBody(user: User)
    | ReviewBody(userId: UserId, pullRequests: seq<PullRequestShort>)
    | DeactivateBody(teamName: TeamName, affectedPrs: seq<PullRequest>, message: string)
    | TeamBody(team: Team)

  datatype Response = Response(status: int, body: Body)

  /** The store after a request together with the response to it. */
  datatype Served = Served(store: Store, response: Response)

  /** `respondError`. */
  function Fail(status: int, code: ErrorCode, message: string): (r: Response)
    ensures r.status == status && r.body.ErrorBody? && r.body.code == code
  {
    Response(status, ErrorBody(code, message))
  }

  const InvalidBody: string := "invalid request body"

  /** A string field tagged `binding:"required"` is rejected when empty. */
  predicate Present(s: string)
  {
    s != ""
  }

  /** `err.Error()`: the wrap contexts, outermost first, then the message of
      the error at the end of the chain. */
  function Message(e: Error): string
  {
    match e
    case Sentinel(k) => SentinelMessage(k)
    case Wrapped(context, cause) => context + ": " + Message(cause)
    case Database(message) => message
  }

  function SentinelMessage(k: ErrorKind): string
  {
    match k
    case TeamExists => "team already exists"
    case TeamNotFound => "team not found"
    case UserNotFound => "user not found"
    case PRExists => "pull request already exists"
    case PRNotFound => "pull request not found"
    case PRMerged => "cannot modify merged pull request"
    case NotAssigned => "user is not assigned to this pull request"
    case NoCandidate => "no active replacement candidate available"
    case InvalidInput => "invalid input data"
  }

  /** The text of a wrapped error ends with the text of the sentinel it
      wraps, so the client still sees the cause. */
  lemma {:induction false} MessageEndsWithSentinel(e: Error)
    requires KindOf(e).Some?
    ensures exists prefix :: Message(e) == prefix + SentinelMessage(KindOf(e).value)
  {
    match e
    case Sentinel(k) =>
      assert Message(e) == "" + SentinelMessage(k);
    case Wrapped(context, cause) =>
      MessageEndsWithSentinel(cause);
      var prefix :| Message(cause) == prefix + SentinelMessage(KindOf(cause).value);
      assert Message(e) == (context + ": " + prefix) + SentinelMessage(KindOf(e).value);
  }
}
