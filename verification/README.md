# Reviewer assignment for a pull-request tracker, in Dafny

This project models the reviewer-assignment core of a small Go service. The service tracks teams, users, pull requests and the reviewers assigned to them. The model covers:

- the three services:
  - pull requests: create with up to two random reviewers, an idempotent merge, reassignment of one reviewer;
  - users: the activity flag, the review list, and bulk deactivation of a team;
  - teams: create and get.
- the four PostgreSQL repositories the services call, rewritten as pure functions over one immutable `Store` value;
- the HTTP handlers' validation order and their mapping from a service error to a status and an API error code.

Layout, one module per source unit:

| file | module | models |
|---|---|---|
| `entity.dfy` | `Entity` | pull request, short form, team, member, user, the error kinds, error wrapping, the API codes |
| `store.dfy` | `Store` | the tables, the failing-statement oracle, the data invariants (`Valid`) |
| `reviewer_repository.dfy` | `ReviewerRepository` | the `pull_request_reviewers` relation |
| `user_repository.dfy` | `UserRepository` | the `users` table |
| `team_repository.dfy` | `TeamRepository` | the `teams` table |
| `pull_request_repository.dfy` | `PullRequestRepository` | the `pull_requests` table and its joins |
| `pull_request_service.dfy` | `PullRequestService` | create, merge, reassign, `selectRandomReviewers`, `min` |
| `user_service.dfy` | `UserService` | set-active, review list, team deactivation |
| `team_service.dfy` | `TeamService` | create, exists, get |
| `http.dfy` | `Http` | responses, `respondError`, `err.Error()` |
| `*_handler.dfy` | `PullRequestHandler`, `UserHandler`, `TeamHandler` | the endpoints |
| `invariants.dfy` | `Invariants` | the data invariants and "a merged pull request is frozen" across every writing operation |
| `rand.dfy`, `seqs.dfy`, `results.dfy` | `Rand`, `Seqs`, `Results` | `rand.Shuffle`/`rand.Intn`, sequence helpers, `Option`/`Result` |

How the model stands in for what it cannot run:

- **Database.** `Store` holds:
  - `teams`, a set of names;
  - `users`, in table order;
  - `prs`, the pull-request rows;
  - `reviewers`, the (pull request, user) pairs in insertion order. The model takes this as the `assigned_at` order that `GetReviewers` sorts by; the schema behind that is listed under "## Left out".

  Every SQL statement is a `Call`. An oracle `faults: Call -> bool` decides which calls fail; this covers a lost connection, a constraint violation the code does not check for, or an expired deadline. A failing statement has no effect. A failing transaction rolls back.
- **Randomness.** `rand.Shuffle` is Go's Fisher–Yates loop driven by an arbitrary draw function `draw: nat -> nat`. `rand.Intn(n)` is `pick % n` for an arbitrary `pick`.
- **Time.** `time.Now()` is a parameter. The service's clock and the repository's clock are separate parameters (`now` and `dbNow`), because the code reads both.
- **Errors.** An error is one of:
  - a sentinel (`ErrPRMerged`, …);
  - a `fmt.Errorf("context: %w", err)` wrap;
  - a database error.

  `Is` follows the wrap chain as `errors.Is` does.
- **Request bodies.** A body that fails to decode is `None`. A decoded body that lacks a `binding:"required"` field is rejected as gin rejects it.

Where the written API description and the code differ, the model follows the code:

- **TEAM_EXISTS.** The team handler answers an existing team name with 400 and code TEAM_EXISTS, not 409 (`TeamHandler.CreateTeam`).
- **NOT_FOUND in every error body.** Every error response that has no specific code, including 400 and 500, carries the code NOT_FOUND.
- **Stored versus returned order after a reassignment.** The returned pull request has the old reviewer overwritten in place. The store drops the old pair and appends the new one, so a later read lists the new reviewer last. `Update` never writes reviewers (`PullRequestService.ReassignResponseVersusStore`).
- **Partial writes are kept:**
  - a creation whose second assignment fails keeps the pull request and the first assignment;
  - a reassignment whose final `Update` fails keeps the swap;
  - a team creation whose user batch fails keeps the team;
  - a deactivation whose removal fails keeps the team deactivated and the removals made so far.
- **No backfill on deactivation.** Deactivation only removes reviewers. It never picks replacements.
- **The deadline.** The 100 ms deadline on deactivation is one more way for a statement to fail. It does not abort the whole operation atomically.
- **Taken team name.** The team repository never returns `ErrTeamExists`. The model treats a taken name as a failing insert, a database error, which assumes a key on the team name (see "## Left out"). The handler checks existence first.

## Model

| member | source | states |
|---|---|---|
| Entity.ShortFormForgetsOnlyReviewersAndTimes | domain/entity/pull_request.go:25-40 | two pull requests have the same short form exactly when they agree on id, name, author and status; the short form forgets reviewers and timestamps and nothing else |
| Entity.Wrap | internal/service/pull_request_service.go:38-41 | wrapping with a context keeps the sentinel at the end of the chain: `errors.Is` answers the same for the wrapped error as for its cause |
| Http.MessageEndsWithSentinel | internal/http-server/handler/pull_request_handler.go:123 | the text of any error wrapping a sentinel ends with that sentinel's own message, so the reassign response still names the cause |
| Rand.Intn | internal/service/pull_request_service.go:175 | the drawn index is below the candidate count |
| Rand.Shuffle | internal/service/pull_request_service.go:209-213 | the shuffled copy is a permutation of the candidates: same length, same multiset, and still duplicate-free when they were |
| Rand.AnyElementCanComeFirst | internal/service/pull_request_service.go:211-213 | for every position some outcome of the random source brings that element to the front |
| Seqs.ReplaceFirst | internal/service/pull_request_service.go:184-189 | only the first occurrence of the old reviewer is overwritten by the new one; the length and every other position are unchanged, and a list without the old reviewer is returned as is |
| Seqs.ReplaceFirstDistinct | internal/service/pull_request_service.go:184-189 | replacing a listed reviewer by an unlisted one keeps the list duplicate-free and swaps exactly that reviewer in its element set |
| Seqs.ReplaceFirstIsRemoveThenAppend | internal/service/pull_request_service.go:178-189 | the in-place replacement of the response and the store's delete-then-append hold the same reviewers with the same multiplicities |
| ReviewerRepository.Insert | internal/repository/postgres/reviewer_repository.go:11-15 | after the insert the pair is present, nothing else was added, the old relation is a prefix of the new one, and no pair appears twice |
| ReviewerRepository.InsertIdempotent | internal/repository/postgres/reviewer_repository.go:11-15 | inserting the same pair twice is the same as inserting it once |
| ReviewerRepository.Delete | internal/repository/postgres/reviewer_repository.go:16-19 | the pair is gone, every other pair stays, nothing is added, and no pair appears twice |
| ReviewerRepository.ReviewersOf | internal/repository/postgres/reviewer_repository.go:20-25 | a user is listed for a pull request exactly when the pair is stored, and each at most once |
| ReviewerRepository.ReviewersAfterInsert | internal/repository/postgres/reviewer_repository.go:20-25 | a new assignment comes last in its own pull request's `assigned_at`-ordered list and changes no other list; an existing one changes nothing |
| ReviewerRepository.ReviewersAfterDelete | internal/repository/postgres/reviewer_repository.go:16-25 | a deletion removes that user from that pull request's list, keeping the order of the rest, and changes no other list |
| ReviewerRepository.AssignReviewer | internal/repository/postgres/reviewer_repository.go:53-60 | fails exactly when the insert fails, and then changes nothing; otherwise the relation is the insert's result and the other tables are untouched |
| ReviewerRepository.RemoveReviewer | internal/repository/postgres/reviewer_repository.go:63-70 | fails exactly when the delete fails; otherwise only that pair is removed, and removing an absent pair succeeds without change |
| ReviewerRepository.GetReviewers | internal/repository/postgres/reviewer_repository.go:73-94 | fails exactly when the query fails; otherwise lists exactly the users paired with the pull request, each once |
| ReviewerRepository.IsAssigned | internal/repository/postgres/reviewer_repository.go:97-105 | fails exactly when the query fails; otherwise true exactly when the user is among the pull request's reviewers |
| ReviewerRepository.ReplaceReviewer | internal/repository/postgres/reviewer_repository.go:108-132 | fails exactly when begin, delete, insert or commit fails, and then changes nothing; on success the old pair is gone, the new pair is present, and every other pair is kept |
| ReviewerRepository.ReplaceIsRemoveThenAssign | internal/repository/postgres/reviewer_repository.go:108-132 | when nothing fails, the replace transaction has the same result as `RemoveReviewer` followed by `AssignReviewer` |
| ReviewerRepository.ReviewersAfterReplace | internal/repository/postgres/reviewer_repository.go:108-132 | after replacing an assigned reviewer by an unassigned one, that pull request's list has the old reviewer dropped in place and the new one last; other lists are unchanged |
| UserRepository.Upsert | internal/repository/postgres/user_repository.go:14-21 | after the upsert the id finds the new values, no other id changes, an unknown id is appended, and ids stay unique |
| UserRepository.UpsertAll | internal/repository/postgres/user_repository.go:70-81 | after the whole batch every id written finds its last write in the batch; every other id is unchanged |
| UserRepository.OverwriteFind | internal/repository/postgres/user_repository.go:29-33 | rewriting a row makes a stored id find the new values, leaves an unknown id unknown, and changes no other lookup |
| UserRepository.SetActiveFind | internal/repository/postgres/user_repository.go:23-27 | setting the flag changes only that user's flag and no other user |
| UserRepository.DeactivateTeamFind | internal/repository/postgres/user_repository.go:35-39 | exactly the users of that team lose the flag; everybody else is unchanged |
| UserRepository.TeamUsers | internal/repository/postgres/user_repository.go:47-51 | lists exactly the users whose team matches, with unique ids |
| UserRepository.BatchCreateOrUpdate | internal/repository/postgres/user_repository.go:63-88 | fails exactly when begin, commit or any upsert fails, and then changes nothing; otherwise each id of the batch finds its last write in the batch and every other id is unchanged |
| UserRepository.Update | internal/repository/postgres/user_repository.go:91-109 | without a database failure, answers `ErrUserNotFound` exactly for an unknown id; on success the id finds the new values and no other id changes |
| UserRepository.GetByID | internal/repository/postgres/user_repository.go:112-129 | without a database failure, answers `ErrUserNotFound` exactly for an unknown id; otherwise returns the stored user with that id |
| UserRepository.GetByTeamName | internal/repository/postgres/user_repository.go:132-160 | fails exactly when the query fails; otherwise lists exactly the users of the team, with unique ids |
| UserRepository.SetIsActive | internal/repository/postgres/user_repository.go:163-175 | without a database failure, answers `ErrUserNotFound` exactly for an unknown id; on success only that user's flag changes |
| UserRepository.DeactivateTeamMembers | internal/repository/postgres/user_repository.go:178-186 | fails exactly when the update fails; otherwise exactly the team's users are deactivated, and an empty team is no error |
| TeamRepository.Create | internal/repository/postgres/team_repository.go:28-36 | succeeds exactly when the insert does not fail and the name is new, adding just that name; a taken name is a database error, not `ErrTeamExists` |
| TeamRepository.GetByName | internal/repository/postgres/team_repository.go:39-53 | without a database failure, answers `ErrTeamNotFound` exactly for an unknown name; otherwise the team without members |
| TeamRepository.Exists | internal/repository/postgres/team_repository.go:56-64 | fails exactly when the query fails; otherwise true exactly when the name is stored |
| PullRequestRepository.Hydrate | internal/repository/postgres/pull_request_repository.go:85-111 | a loaded pull request has a creation time and turns back into exactly the row it was read from |
| PullRequestRepository.NewestFirst | internal/repository/postgres/pull_request_repository.go:41 | the rows come out newest `created_at` first, as a permutation of the rows read |
| PullRequestRepository.LoadedRows | internal/repository/postgres/pull_request_repository.go:152-175 | loading keeps the order and the ids; every loaded pull request comes from a row read and carries that row's reviewers, and every row is loaded |
| PullRequestRepository.UpdateRows | internal/repository/postgres/pull_request_repository.go:26-30 | only name, status and merged_at of the row with that id change; id, author and creation time of every row stay, as do all other rows |
| PullRequestRepository.Create | internal/repository/postgres/pull_request_repository.go:66-82 | succeeds exactly when the insert does not fail and the id is new; the stored creation time is the repository's own clock, not the argument's; no other row changes |
| PullRequestRepository.GetByID | internal/repository/postgres/pull_request_repository.go:85-111 | without a failing select, answers `ErrPRNotFound` exactly for an unknown id; succeeds exactly when both reads succeed, with the stored row and its reviewers in `assigned_at` order |
| PullRequestRepository.Update | internal/repository/postgres/pull_request_repository.go:114-131 | without a database failure, answers `ErrPRNotFound` exactly for an unknown id; on success the row takes the new name, status and merge time and keeps its author and creation time; reviewers and other rows are never written |
| PullRequestRepository.Exists | internal/repository/postgres/pull_request_repository.go:134-142 | fails exactly when the query fails; otherwise true exactly when a row with that id is stored |
| PullRequestRepository.GetByReviewer | internal/repository/postgres/pull_request_repository.go:145-182 | lists every stored pull request of any status that the user reviews, and nothing else, each with its reviewers, each once, newest first |
| PullRequestRepository.GetOpenPRsByReviewers | internal/repository/postgres/pull_request_repository.go:185-226 | no users gives an empty list without a query; otherwise lists every OPEN pull request reviewed by at least one of the users, and nothing else, each once, newest first |
| PullRequestService.Min | internal/service/pull_request_service.go:219-224 | the result is one of the two arguments and no larger than either |
| PullRequestService.CreationCandidates | internal/service/pull_request_service.go:60-65 | keeps exactly the active members other than the author |
| PullRequestService.SelectRandomReviewers | internal/service/pull_request_service.go:200-217 | returns `min(maxCount, len)` candidates, none twice and none from outside the candidate list |
| PullRequestService.AnyCandidateCanBeSelected | internal/service/pull_request_service.go:200-217 | every candidate is selected under some outcome of the random source |
| PullRequestService.AssignAll | internal/service/pull_request_service.go:78-84 | the assignment loop succeeds exactly when no insert fails; it keeps the assignments made before a failure, adds only pairs of this pull request with chosen ids, and touches no other table |
| PullRequestService.ReviewersAfterAssignAll | internal/service/pull_request_service.go:78-84 | the pull request's stored list grows by exactly the ids assigned before the first failure, in order; other lists are unchanged |
| PullRequestService.CreatePullRequest | internal/service/pull_request_service.go:35-87 | a taken id fails with `ErrPRExists` before any write; an unknown author fails with `ErrUserNotFound` without writing; a failing insert writes nothing; every added pair names the new pull request and a user eligible for its author; success stores the row as OPEN with the repository's clock and returns it with the service's clock |
| PullRequestService.CreateOutcomes | internal/service/pull_request_service.go:37-52 | without store failures a creation fails only on a taken id or an unknown author, in that order, and otherwise succeeds |
| PullRequestService.CreateChoosesEligibleReviewers | internal/service/pull_request_service.go:54-84 | the reviewers added on success are distinct, eligible, never the author, and exactly `min(2, number eligible)` many |
| PullRequestService.CreateStoresChosenReviewers | internal/service/pull_request_service.go:78-84 | after a successful creation the stored reviewer list is exactly the reviewers returned, in the same order |
| PullRequestService.CreateThenGet | internal/service/pull_request_service.go:69-86 | reading the new pull request back gives what creation returned, except that the creation time is the repository's |
| PullRequestService.MergePullRequest | internal/service/pull_request_service.go:90-110 | an unknown id fails with `ErrPRNotFound`; an already merged pull request is returned as stored and nothing is written; otherwise the row becomes MERGED at `now` and reviewers are never touched |
| PullRequestService.MergeIsIdempotent | internal/service/pull_request_service.go:97-99 | merging again, at any later time, changes nothing and returns the same pull request, merge time included |
| PullRequestService.PlanReassignment | internal/service/pull_request_service.go:114-175 | the checks fail only with the listed errors; a chosen replacement is not the old reviewer and not yet a reviewer, and may replace the old reviewer on the open pull request |
| PullRequestService.WriteBack | internal/service/pull_request_service.go:184-193 | the write-back changes no row's stored fields and no pair; it fails only when the update fails; on success it returns the pull request with the old reviewer overwritten in place |
| PullRequestService.CommitReassignment | internal/service/pull_request_service.go:178-196 | after the swap and the write-back, at most the old pair is gone and at most the new pair is added; a failure after a write is a failing update |
| PullRequestService.ReassignReviewer | internal/service/pull_request_service.go:113-197 | rows never change; a new pair names this pull request and a user who may replace the old reviewer; only the old reviewer's pair on this open pull request can disappear; success returns the stored pull request with the old reviewer replaced in place |
| PullRequestService.ReassignOutcomes | internal/service/pull_request_service.go:114-172 | without store failures the errors come in the order: unknown pull request, merged, not a reviewer, unknown old reviewer, no candidate; the first three write nothing, and a non-empty pool succeeds |
| PullRequestService.ReassignResponseVersusStore | internal/service/pull_request_service.go:178-196 | the stored list drops the old reviewer and appends the new one last; the response replaces it in place; both hold the same reviewers, with no duplicate |
| PullRequestService.CandidatesMatchPool | internal/service/pull_request_service.go:149-172 | the candidate list is empty exactly when no active member of the old reviewer's team other than the old reviewer, the author and the current reviewers exists |
| UserService.SetIsActive | internal/service/user_service.go:35-51 | an unknown user fails with `ErrUserNotFound`; success returns the user as read with the requested flag, as now stored; no other user changes |
| UserService.SetIsActiveIdempotent | internal/service/user_service.go:35-51 | setting the same flag again returns the same user |
| UserService.GetReviewPullRequests | internal/service/user_service.go:54-69 | lists the short form of every stored pull request the user reviews, of any status, and nothing else, each id once |
| UserService.StripOne | internal/service/user_service.go:114-131 | keeps the non-member reviewers in order and removes exactly the members' pairs of that pull request; it stops at the first failing removal |
| UserService.StripAll | internal/service/user_service.go:110-134 | returns each pull request, in order, without its member reviewers; removes exactly the members' pairs of those pull requests and no other pair |
| UserService.StripAllFilters | internal/service/user_service.go:110-134 | a completed strip loop filters the reviewer relation, keeping its order |
| UserService.LoadAffected | internal/service/user_service.go:79-101 | the member ids are exactly the team's users; the affected list holds, newest first and each once, exactly the stored open pull requests some user of the team reviews, loaded with their reviewers |
| UserService.DeactivateTeamMembers | internal/service/user_service.go:73-138 | success deactivates exactly the team and removes exactly the members' pairs on open pull requests, and no other pair; the response lists, newest first and each once, exactly the open pull requests some user of the team reviewed, each with the team's users dropped from its reviewers and the rest in order; the steps come in the source's order: a failing read or a failing bulk deactivation writes nothing, once both reads and the deactivation succeed the team stays deactivated whatever the removals do, and no pair is removed unless the team was deactivated first; a failure never adds a pair |
| UserService.NobodyToDeactivate | internal/service/user_service.go:85-88 | a team without users leaves every user as it was |
| UserService.DeactivationResponseMatchesStore | internal/service/user_service.go:110-137 | each returned pull request lists exactly the reviewers the relation keeps for it, in the same order |
| TeamService.MemberUsers | internal/service/team_service.go:36-44 | one user per member, in member order, with the team name forced to the team's |
| TeamService.UserMembers | internal/service/team_service.go:78-85 | one member per user, in user order |
| TeamService.CreateTeam | internal/service/team_service.go:30-51 | a taken name fails without writing; a failing user batch leaves the team stored without its users; success returns the team unchanged, adds its name, and each member id then finds the last member written with it |
| TeamService.IsTeamExists | internal/service/team_service.go:54-62 | fails exactly when the query fails; otherwise true exactly when the team is stored |
| TeamService.GetTeam | internal/service/team_service.go:65-89 | an unknown team fails with `ErrTeamNotFound`; otherwise the members are exactly the team's users, listed as members, and with unique user ids in the store each is listed once |
| TeamService.LastMemberWins | internal/service/team_service.go:36-48 | with unique member ids, each member's own user row is the one the batch leaves |
| TeamService.CreateThenGet | internal/service/team_service.go:30-89 | a team created under a fresh name with unique member ids reads back with a permutation of the members it was created with |
| PullRequestHandler.CreatePullRequest | internal/http-server/handler/pull_request_handler.go:27-58 | an unbindable body is 400 without a service call; 201 exactly on success, 409 PR_EXISTS exactly for `ErrPRExists`, 404 exactly for `ErrUserNotFound`, 500 otherwise, code NOT_FOUND except on 409 |
| PullRequestHandler.CreateResponses | internal/http-server/handler/pull_request_handler.go:39-57 | without store failures a taken id is 409, an unknown author 404, and otherwise 201 with an OPEN pull request that is stored |
| PullRequestHandler.MergePullRequest | internal/http-server/handler/pull_request_handler.go:62-84 | an unbindable body is 400; 200 exactly on success, 404 exactly for `ErrPRNotFound`, 500 for anything else; every error body has code NOT_FOUND |
| PullRequestHandler.MergeResponses | internal/http-server/handler/pull_request_handler.go:70-83 | without store failures an unknown id is 404 and any stored id 200 with a MERGED pull request |
| PullRequestHandler.MergeRequestIsIdempotent | internal/http-server/handler/pull_request_handler.go:62-84 | repeating a successful merge request gets the same response and changes nothing |
| PullRequestHandler.ReassignFailure | internal/http-server/handler/pull_request_handler.go:102-124 | 404 exactly for not-found pull request or user; 409 exactly for merged, not assigned or no candidate, each with its own code; 500 for everything else; NOT_FOUND exactly off 409; the message is the error's text |
| PullRequestHandler.ReassignReviewer | internal/http-server/handler/pull_request_handler.go:88-132 | an unbindable body is 400 without a service call; 200 with the pull request and `replaced_by` exactly on success; any failure goes through the error switch |
| PullRequestHandler.ReassignRejections | internal/http-server/handler/pull_request_handler.go:102-124 | without store failures an unknown pull request is 404, a merged one 409 PR_MERGED, a non-reviewer 409 NOT_ASSIGNED, an unknown old reviewer 404; none writes |
| PullRequestHandler.ReassignNoCandidateResponse | internal/http-server/handler/pull_request_handler.go:117-123 | once those checks pass, an empty pool is 409 NO_CANDIDATE and nothing is written |
| PullRequestHandler.ReassignSuccessResponse | internal/http-server/handler/pull_request_handler.go:127-131 | once those checks pass, a non-empty pool is 200 naming a user of the pool |
| UserHandler.SetIsActive | internal/http-server/handler/user_handler.go:27-49 | an unbindable body or empty user id is 400 without a service call; 200 exactly on success, 404 exactly for `ErrUserNotFound`, 500 for any other error |
| UserHandler.SetIsActiveResponses | internal/http-server/handler/user_handler.go:35-48 | without store failures an unknown user is 404, otherwise 200 with the user, carrying the requested flag, as now stored |
| UserHandler.GetReview | internal/http-server/handler/user_handler.go:53-73 | an empty `user_id` is 400 without a service call; any service error is 500; otherwise 200 with the list |
| UserHandler.GetReviewResponses | internal/http-server/handler/user_handler.go:61-72 | without store failures a present user id is always 200 and lists every pull request the user reviews |
| UserHandler.DeactivateTeam | internal/http-server/handler/user_handler.go:82-103 | an unbindable body is 400; every service error, the deadline included, is 500; otherwise 200 with the affected pull requests and the fixed message |
| UserHandler.DeactivateTeamResponses | internal/http-server/handler/user_handler.go:90-102 | without store failures the answer is 200, the team is deactivated, and the body lists, newest first, exactly the open pull requests some user of the team reviewed, each with the team's users dropped from its reviewers |
| TeamHandler.CreateTeam | internal/http-server/handler/team_handler.go:27-66 | 400 for no body, then an empty name, then no members, all before any service call; then 500 exactly when the existence check fails; 400 TEAM_EXISTS exactly for a taken name, writing nothing; otherwise 201 exactly when the creation succeeds, with the team, and 500 when it fails |
| TeamHandler.CreateTeamResponses | internal/http-server/handler/team_handler.go:46-65 | without store failures a taken name is 400 TEAM_EXISTS with no write, and otherwise 201 with every member stored as a user of the team |
| TeamHandler.GetTeam | internal/http-server/handler/team_handler.go:70-92 | an empty `team_name` is 400 without a service call; 200 exactly on success, 404 exactly for `ErrTeamNotFound`, 500 otherwise |
| TeamHandler.GetTeamResponses | internal/http-server/handler/team_handler.go:78-91 | without store failures an unknown team is 404, and a stored one 200 listing a member for each of its users |
| Invariants.CreateKeepsValid | internal/service/pull_request_service.go:37-84 | creation keeps the data invariants: unique keys, no duplicate pair, every pair on a stored pull request, no author reviewing their own pull request |
| Invariants.CreateKeepsMergedFrozen | internal/service/pull_request_service.go:37-84 | creation leaves every merged pull request's row and reviewers alone |
| Invariants.MergeKeepsValid | internal/service/pull_request_service.go:90-110 | merging keeps the data invariants |
| Invariants.MergeKeepsMergedFrozen | internal/service/pull_request_service.go:97-99 | merging leaves a pull request merged before untouched |
| Invariants.ReassignKeepsValid | internal/service/pull_request_service.go:113-197 | reassignment keeps the data invariants |
| Invariants.ReassignKeepsMergedFrozen | internal/service/pull_request_service.go:121-124 | reassignment never adds or removes a reviewer of a merged pull request |
| Invariants.SetIsActiveKeepsInvariants | internal/service/user_service.go:35-51 | setting a user's flag keeps the invariants and every merged pull request |
| Invariants.CreateTeamKeepsInvariants | internal/service/team_service.go:30-51 | creating a team keeps the invariants and every merged pull request |
| Invariants.DeactivateKeepsInvariants | internal/service/user_service.go:73-138 | deactivation keeps the invariants and leaves every merged pull request's reviewers alone |

## Left out

- Logging (`s.log`, `h.log`), the zap logger, configuration, process start-up, routing, the connection pool and the statistics endpoints carry no assignment rules and are not modelled.
- Concurrency between requests and SQL isolation levels are not modelled; each operation runs alone on one store value.
- JSON encoding and gin binding are not modelled beyond "decodes or not" and "required field empty or not". The model also ignores the difference between a nil and an empty list in a response.
- `rand.Shuffle` and `rand.Intn` are any outcome of an arbitrary draw, not a uniform distribution. The reachability of each outcome is proved (`Rand.AnyElementCanComeFirst`, `PullRequestService.AnyCandidateCanBeSelected`); the probabilities are not.
- `time.Now()` is a parameter. Only the order of timestamps is modelled.
- The 100 ms deadline of the deactivation is one more failing statement in the fault oracle, not a clock.
- A `rows.Scan` or `rows.Err` failure inside a multi-row read counts as a failure of that read's statement.
- The error messages of database failures are placeholders. Only whether an error is a sentinel, and which one, is modelled.
- UserRepository.GetByTeamName: the query has no `ORDER BY`. The model returns table order, which is one admissible order; the contract states membership, not order.
- TeamService.GetTeam: states which members are listed and that each is listed once, not their order, for the same reason.
- UserService.GetReviewPullRequests: states which pull requests are listed, not their newest-first order. That order is stated on `PullRequestRepository.GetByReviewer`, whose list the service maps position by position.
- PullRequestRepository.NewestFirst: rows with equal `created_at` have no defined SQL order. The model keeps them in table order.
- The table definitions are not part of this model. The model assumes the following about the schema:
  - `assigned_at` defaults to the insertion time, so sorting by it gives insertion order. Pairs assigned at the same instant are kept in insertion order.
  - `teams.team_name` is a key, so inserting a taken name fails as a database error (`TeamRepository.Create`).
  - `pull_requests.pull_request_id` is a key, so inserting a taken id fails (`PullRequestRepository.Create`).
  - `users.user_id` is a key, which the upsert's `ON CONFLICT` needs.
  - (pull request, user) is a key of `pull_request_reviewers`, which `ON CONFLICT DO NOTHING` needs.
- `UserRepository.Update` is modelled although no service in this core calls it.
