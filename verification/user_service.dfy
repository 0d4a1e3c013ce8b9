/** The user operations: the activity flag, the review queue of a user, and
    the bulk deactivation of a team with the removal of its members from
    every open review. */
module UserService {
  import opened Results
  import opened Seqs
  import opened Entity
  import opened Store
  import ReviewerRepository
  import UserRepository
  import PullRequestRepository

  // ---------------------------------------------------------------------
  // SetIsActive
  // ---------------------------------------------------------------------

  /** `SetIsActive`: reads the user, writes the flag, and returns the user
      as read with the new flag. */
  function SetIsActive(st: Store, id: UserId, active: bool, faults: Faults): (o: Outcome<User>)
    ensures o.result.Failure? ==> o.store == st
    ensures o.store.teams == st.teams && o.store.prs == st.prs && o.store.reviewers == st.reviewers
    ensures !faults(UserSelect(id)) && FindUser(st.users, id).None? ==>
              o.result.Failure? && Is(o.result.error, UserNotFound)
    ensures o.result.Failure? ==> Is(o.result.error, UserNotFound) || KindOf(o.result.error).None?
    ensures o.result.Success? ==>
              && FindUser(st.users, id).Some?
              && o.result.value == FindUser(st.users, id).value.(isActive := active)
              && FindUser(o.store.users, id) == Some(o.result.value)
    ensures forall other | other != id :: FindUser(o.store.users, other) == FindUser(st.users, other)
    ensures UniqueUserIds(st.users) ==> UniqueUserIds(o.store.users)
  {
    var user := UserRepository.GetByID(st, id, faults);
    if user.Failure? then Outcome(st, Failure(Wrap("get user", user.error)))
    else
      var written := UserRepository.SetIsActive(st, id, active, faults);
      if written.result.Failure? then Outcome(st, Failure(Wrap("set is_active", written.result.error)))
      else Outcome(written.store, Success(user.value.(isActive := active)))
  }

  /** Setting the same flag twice is the same as setting it once. */
  lemma SetIsActiveIdempotent(st: Store, id: UserId, active: bool, faults: Faults)
    requires SetIsActive(st, id, active, faults).result.Success?
    ensures var once := SetIsActive(st, id, active, faults);
            SetIsActive(once.store, id, active, faults).result == once.result
  {
    var once := SetIsActive(st, id, active, faults);
    assert FindUser(once.store.users, id) == Some(once.result.value);
    var again := UserRepository.GetByID(once.store, id, faults);
    assert again == Success(once.result.value);
  }

  // ---------------------------------------------------------------------
  // GetReviewPullRequests
  // ---------------------------------------------------------------------

  /** The short form of a stored row. */
  function RowShort(row: PrRow): PullRequestShort
  {
    PullRequestShort(row.id, row.name, row.authorId, row.status)
  }

  /** Short forms of loaded pull requests, position by position. */
  function ShortForms(prs: seq<PullRequest>): (r: seq<PullRequestShort>)
    ensures |r| == |prs|
    ensures forall i | 0 <= i < |prs| :: r[i] == ToShort(prs[i])
  {
    seq(|prs|, i requires 0 <= i < |prs| => ToShort(prs[i]))
  }

  /** `GetReviewPullRequests`: the short form of every pull request, of any
      status, that `id` reviews; each once when ids are unique. */
  function GetReviewPullRequests(st: Store, id: UserId, faults: Faults): (r: Result<seq<PullRequestShort>, Error>)
    ensures r.Failure? ==> KindOf(r.error).None?
    ensures NoFaults(faults) ==> r.Success?
    ensures r.Success? ==>
              forall s | s in r.value :: exists row | row in st.prs :: s == RowShort(row) && Assignment(row.id, id) in st.reviewers
    ensures r.Success? ==>
              forall row | row in st.prs && Assignment(row.id, id) in st.reviewers :: RowShort(row) in r.value
    ensures r.Success? && UniquePrIds(st.prs) ==>
              forall i, j | 0 <= i < j < |r.value| :: r.value[i].id != r.value[j].id
  {
    var prs := PullRequestRepository.GetByReviewer(st, id, faults);
    if prs.Failure? then Failure(Wrap("get prs by reviewer", prs.error))
    else
      var shorts := ShortForms(prs.value);
      ShortFormsOfLoaded(st, id, prs.value);
      Success(shorts)
  }

  lemma ShortFormsOfLoaded(st: Store, id: UserId, prs: seq<PullRequest>)
    requires forall p | p in prs ::
               && p.createdAt.Some? && PullRequestRepository.Dehydrate(p) in st.prs
               && id in p.assignedReviewers
               && p.assignedReviewers == ReviewerRepository.ReviewersOf(st.reviewers, p.id)
    requires forall row | row in st.prs && Assignment(row.id, id) in st.reviewers ::
               PullRequestRepository.Hydrate(row, st.reviewers) in prs
    ensures forall s | s in ShortForms(prs) ::
              exists row | row in st.prs :: s == RowShort(row) && Assignment(row.id, id) in st.reviewers
    ensures forall row | row in st.prs && Assignment(row.id, id) in st.reviewers :: RowShort(row) in ShortForms(prs)
  {
    var shorts := ShortForms(prs);
    forall s | s in shorts
      ensures exists row | row in st.prs :: s == RowShort(row) && Assignment(row.id, id) in st.reviewers
    {
      var i :| 0 <= i < |shorts| && shorts[i] == s;
      var row := PullRequestRepository.Dehydrate(prs[i]);
      assert prs[i] in prs;
      assert s == RowShort(row);
    }
    forall row | row in st.prs && Assignment(row.id, id) in st.reviewers
      ensures RowShort(row) in shorts
    {
      var p := PullRequestRepository.Hydrate(row, st.reviewers);
      var i :| 0 <= i < |prs| && prs[i] == p;
      assert shorts[i] == RowShort(row);
    }
  }

  // ---------------------------------------------------------------------
  // DeactivateTeamMembers
  // ---------------------------------------------------------------------

  /** The reviewers of one pull request that are not in `members`. */
  function NonMembers(reviewers: seq<UserId>, members: seq<UserId>): (r: seq<UserId>)
    ensures forall u | u in r :: u in reviewers && u !in members
    ensures forall u | u in reviewers && u !in members :: u in r
  {
    Filter(reviewers, NotIn(members))
  }

  function NotIn(members: seq<UserId>): UserId -> bool
  {
    u => u !in members
  }

  /** The inner loop over one pull request's reviewers: each member is
      removed from the relation at once; the others are kept, in order. The
      loop stops at the first failing removal. */
  function StripOne(st: Store, pr: PrId, reviewers: seq<UserId>, members: seq<UserId>, faults: Faults)
    : (o: Outcome<seq<UserId>>)
    ensures o.store.teams == st.teams && o.store.users == st.users && o.store.prs == st.prs
    ensures o.result.Failure? ==> KindOf(o.result.error).None?
    ensures o.result.Success? ==> o.result.value == NonMembers(reviewers, members)
    ensures NoFaults(faults) ==> o.result.Success?
    ensures forall b | b in o.store.reviewers :: b in st.reviewers
    ensures forall b | b in st.reviewers && !(b.pr == pr && b.user in members && b.user in reviewers) ::
              b in o.store.reviewers
    ensures o.result.Success? ==>
              forall u | u in reviewers && u in members :: Assignment(pr, u) !in o.store.reviewers
    ensures Distinct(st.reviewers) ==> Distinct(o.store.reviewers)
    decreases |reviewers|
  {
    if |reviewers| == 0 then Outcome(st, Success([]))
    else
      var head := reviewers[0];
      assert reviewers == [head] + reviewers[1..];
      if head in members then
        var removed := ReviewerRepository.RemoveReviewer(st, pr, head, faults);
        if removed.result.Failure? then Outcome(removed.store, Failure(Wrap("remove reviewer", removed.result.error)))
        else StripOne(removed.store, pr, reviewers[1..], members, faults)
      else
        var rest := StripOne(st, pr, reviewers[1..], members, faults);
        if rest.result.Failure? then rest
        else Outcome(rest.store, Success([head] + rest.result.value))
  }

  /** A pull request with its member reviewers dropped. */
  function WithoutMembers(p: PullRequest, members: seq<UserId>): PullRequest
  {
    p.(assignedReviewers := NonMembers(p.assignedReviewers, members))
  }

  /** Some pull request of `prs` with id `pr` lists `u` as a reviewer. */
  predicate ListedReviewer(prs: seq<PullRequest>, pr: PrId, u: UserId)
  {
    exists p | p in prs :: p.id == pr && u in p.assignedReviewers
  }

  /** The outer loop over the open pull requests. */
  function StripAll(st: Store, prs: seq<PullRequest>, members: seq<UserId>, faults: Faults)
    : (o: Outcome<seq<PullRequest>>)
    ensures o.store.teams == st.teams && o.store.users == st.users && o.store.prs == st.prs
    ensures o.result.Failure? ==> KindOf(o.result.error).None?
    ensures NoFaults(faults) ==> o.result.Success?
    ensures o.result.Success? ==>
              && |o.result.value| == |prs|
              && forall i | 0 <= i < |prs| :: o.result.value[i] == WithoutMembers(prs[i], members)
    ensures forall b | b in o.store.reviewers :: b in st.reviewers
    ensures forall b | b in st.reviewers && !(b.user in members && ListedReviewer(prs, b.pr, b.user)) ::
              b in o.store.reviewers
    ensures o.result.Success? ==>
              forall b | b in st.reviewers && b.user in members && ListedReviewer(prs, b.pr, b.user) ::
                b !in o.store.reviewers
    ensures Distinct(st.reviewers) ==> Distinct(o.store.reviewers)
    decreases |prs|
  {
    if |prs| == 0 then Outcome(st, Success([]))
    else
      var first := StripOne(st, prs[0].id, prs[0].assignedReviewers, members, faults);
      if first.result.Failure? then Outcome(first.store, Failure(first.result.error))
      else
        var rest := StripAll(first.store, prs[1..], members, faults);
        assert prs == [prs[0]] + prs[1..];
        if rest.result.Failure? then rest
        else
          var r := [prs[0].(assignedReviewers := first.result.value)] + rest.result.value;
          assert r[1..] == rest.result.value;
          Outcome(rest.store, Success(r))
  }

  /** The pairs the inner loop leaves in place. */
  function StripOneKeeps(pr: PrId, reviewers: seq<UserId>, members: seq<UserId>): Assignment -> bool
  {
    (b: Assignment) => !(b.pr == pr && b.user in members && b.user in reviewers)
  }

  /** The pairs the outer loop leaves in place. */
  function StripAllKeeps(prs: seq<PullRequest>, members: seq<UserId>): Assignment -> bool
  {
    (b: Assignment) => !(b.user in members && ListedReviewer(prs, b.pr, b.user))
  }

  /** A completed inner loop filters the relation, keeping its order. */
  lemma {:induction false} StripOneFilters(st: Store, pr: PrId, reviewers: seq<UserId>, members: seq<UserId>, faults: Faults)
    ensures var o := StripOne(st, pr, reviewers, members, faults);
            o.result.Success? ==> o.store.reviewers == Filter(st.reviewers, StripOneKeeps(pr, reviewers, members))
    decreases |reviewers|
  {
    var o := StripOne(st, pr, reviewers, members, faults);
    if |reviewers| == 0 {
      FilterAll(st.reviewers, StripOneKeeps(pr, reviewers, members));
    } else {
      var head := reviewers[0];
      var rest := reviewers[1..];
      assert reviewers == [head] + rest;
      if head in members {
        var removed := ReviewerRepository.RemoveReviewer(st, pr, head, faults);
        if removed.result.Success? {
          StripOneFilters(removed.store, pr, rest, members, faults);
          var pair := Assignment(pr, head);
          var other: Assignment -> bool := b => b != pair;
          WithoutAsFilter(st.reviewers, pair, other);
          FilterFilter(st.reviewers, other, StripOneKeeps(pr, rest, members), StripOneKeeps(pr, reviewers, members));
        }
      } else {
        StripOneFilters(st, pr, rest, members, faults);
        FilterCongruent(st.reviewers, StripOneKeeps(pr, rest, members), StripOneKeeps(pr, reviewers, members));
      }
    }
  }

  lemma ListedReviewerCons(prs: seq<PullRequest>, pr: PrId, u: UserId)
    requires |prs| > 0
    ensures ListedReviewer(prs, pr, u) <==>
              (prs[0].id == pr && u in prs[0].assignedReviewers) || ListedReviewer(prs[1..], pr, u)
  {
    if ListedReviewer(prs, pr, u) {
      var p :| p in prs && p.id == pr && u in p.assignedReviewers;
      if p != prs[0] {
        assert p in prs[1..];
      }
    }
    if ListedReviewer(prs[1..], pr, u) {
      var p :| p in prs[1..] && p.id == pr && u in p.assignedReviewers;
      assert p in prs;
    }
    assert prs[0] in prs;
  }

  /** A completed outer loop filters the relation, keeping its order. */
  lemma {:induction false} StripAllFilters(st: Store, prs: seq<PullRequest>, members: seq<UserId>, faults: Faults)
    ensures var o := StripAll(st, prs, members, faults);
            o.result.Success? ==> o.store.reviewers == Filter(st.reviewers, StripAllKeeps(prs, members))
    decreases |prs|
  {
    var o := StripAll(st, prs, members, faults);
    if |prs| == 0 {
      FilterAll(st.reviewers, StripAllKeeps(prs, members));
    } else {
      var first := StripOne(st, prs[0].id, prs[0].assignedReviewers, members, faults);
      if first.result.Success? {
        var rest := StripAll(first.store, prs[1..], members, faults);
        if rest.result.Success? {
          StripOneFilters(st, prs[0].id, prs[0].assignedReviewers, members, faults);
          StripAllFilters(first.store, prs[1..], members, faults);
          forall b | b in st.reviewers
            ensures StripAllKeeps(prs, members)(b) ==
                    (StripOneKeeps(prs[0].id, prs[0].assignedReviewers, members)(b) && StripAllKeeps(prs[1..], members)(b))
          {
            ListedReviewerCons(prs, b.pr, b.user);
          }
          FilterFilter(st.reviewers, StripOneKeeps(prs[0].id, prs[0].assignedReviewers, members),
                       StripAllKeeps(prs[1..], members), StripAllKeeps(prs, members));
        }
      }
    }
  }

  /** `id` is the id of a user of `team`. */
  predicate InTeam(users: seq<User>, team: TeamName, id: UserId)
  {
    exists u | u in users :: u.teamName == team && u.id == id
  }

  /** Some stored row with id `pr` is open. */
  predicate OpenRow(prs: seq<PrRow>, pr: PrId)
  {
    exists row | row in prs :: row.id == pr && row.status == Open
  }

  /** Some user of `team` reviews the pull request `pr`. */
  predicate TeamReviews(st: Store, team: TeamName, pr: PrId)
  {
    exists b | b in st.reviewers :: b.pr == pr && InTeam(st.users, team, b.user)
  }

  /** Keeps the reviewers who are not users of `team`. */
  function OutsideTeam(users: seq<User>, team: TeamName): UserId -> bool
  {
    u => !InTeam(users, team, u)
  }

  /** A stored pull request as a deactivation of `team` reports it: loaded,
      with the team's users dropped from its reviewers and the rest in
      order. */
  function Cleared(row: PrRow, st: Store, team: TeamName): PullRequest
  {
    var p := PullRequestRepository.Hydrate(row, st.reviewers);
    p.(assignedReviewers := Filter(p.assignedReviewers, OutsideTeam(st.users, team)))
  }

  /** What a deactivation works on: the member ids and the open pull
      requests any member reviews. */
  datatype Affected = Affected(members: seq<UserId>, open: seq<PullRequest>)

  /** The two reads of `DeactivateTeamMembers`; a team without users stops
      before the second. */
  function LoadAffected(st: Store, team: TeamName, faults: Faults): (r: Result<Affected, Error>)
    ensures r.Failure? ==> KindOf(r.error).None?
    ensures NoFaults(faults) ==> r.Success?
    ensures r.Success? ==> forall id :: id in r.value.members <==> InTeam(st.users, team, id)
    ensures r.Success? ==>
              forall p | p in r.value.open ::
                p.status == Open && p.assignedReviewers == ReviewerRepository.ReviewersOf(st.reviewers, p.id)
    ensures r.Success? ==>
              forall b | b in st.reviewers && b.user in r.value.members ::
                ListedReviewer(r.value.open, b.pr, b.user) <==> OpenRow(st.prs, b.pr)
    ensures r.Success? ==>
              forall p | p in r.value.open ::
                p.createdAt.Some? && PullRequestRepository.Dehydrate(p) in st.prs && TeamReviews(st, team, p.id)
    ensures r.Success? ==>
              forall row | row in st.prs && row.status == Open && TeamReviews(st, team, row.id) ::
                PullRequestRepository.Hydrate(row, st.reviewers) in r.value.open
    ensures r.Success? ==> PullRequestRepository.NewestFirstLoaded(r.value.open)
    ensures r.Success? && UniquePrIds(st.prs) ==> PullRequestRepository.UniqueIds(r.value.open)
  {
    var users := UserRepository.GetByTeamName(st, team, faults);
    if users.Failure? then Failure(Wrap("get team members", users.error))
    else if |users.value| == 0 then
      assert forall u | u in st.users :: u.teamName != team;
      Success(Affected([], []))
    else
      var members := UserIds(users.value);
      UserIdsOfUnique(users.value);
      assert forall id :: id in members <==> InTeam(st.users, team, id);
      var open := PullRequestRepository.GetOpenPRsByReviewers(st, members, faults);
      if open.Failure? then Failure(Wrap("get open prs", open.error))
      else
        OpenListing(st, members, open.value);
        AffectedOpen(st, team, members, open.value);
        Success(Affected(members, open.value))
  }

  /** The open pull requests listed for the member ids are those some user
      of the team reviews. */
  lemma AffectedOpen(st: Store, team: TeamName, members: seq<UserId>, open: seq<PullRequest>)
    requires forall id :: id in members <==> InTeam(st.users, team, id)
    requires forall p | p in open ::
               && p.assignedReviewers == ReviewerRepository.ReviewersOf(st.reviewers, p.id)
               && exists v | v in members :: v in p.assignedReviewers
    requires forall row | row in st.prs && row.status == Open
                          && (exists v | v in members :: Assignment(row.id, v) in st.reviewers) ::
               PullRequestRepository.Hydrate(row, st.reviewers) in open
    ensures forall p | p in open :: TeamReviews(st, team, p.id)
    ensures forall row | row in st.prs && row.status == Open && TeamReviews(st, team, row.id) ::
              PullRequestRepository.Hydrate(row, st.reviewers) in open
  {
    forall p | p in open ensures TeamReviews(st, team, p.id) {
      var v :| v in members && v in p.assignedReviewers;
      assert Assignment(p.id, v) in st.reviewers;
    }
    forall row | row in st.prs && row.status == Open && TeamReviews(st, team, row.id)
      ensures PullRequestRepository.Hydrate(row, st.reviewers) in open
    {
      var b :| b in st.reviewers && b.pr == row.id && InTeam(st.users, team, b.user);
      assert b.user in members && Assignment(row.id, b.user) == b;
    }
  }

  lemma OpenListing(st: Store, members: seq<UserId>, open: seq<PullRequest>)
    requires forall p | p in open ::
               && p.createdAt.Some? && PullRequestRepository.Dehydrate(p) in st.prs && p.status == Open
               && p.assignedReviewers == ReviewerRepository.ReviewersOf(st.reviewers, p.id)
    requires forall row | row in st.prs && row.status == Open
                          && (exists v | v in members :: Assignment(row.id, v) in st.reviewers) ::
               PullRequestRepository.Hydrate(row, st.reviewers) in open
    ensures forall b | b in st.reviewers && b.user in members ::
              ListedReviewer(open, b.pr, b.user) <==> OpenRow(st.prs, b.pr)
  {
    forall b | b in st.reviewers && b.user in members
      ensures ListedReviewer(open, b.pr, b.user) <==> OpenRow(st.prs, b.pr)
    {
      if ListedReviewer(open, b.pr, b.user) {
        var p :| p in open && p.id == b.pr && b.user in p.assignedReviewers;
        var row := PullRequestRepository.Dehydrate(p);
        assert row in st.prs && row.id == b.pr && row.status == Open;
      }
      if OpenRow(st.prs, b.pr) {
        var row :| row in st.prs && row.id == b.pr && row.status == Open;
        assert Assignment(row.id, b.user) in st.reviewers;
        var p := PullRequestRepository.Hydrate(row, st.reviewers);
        assert p in open && p.id == b.pr && b.user in p.assignedReviewers;
      }
    }
  }

  /** The users of `team` with the flag cleared, everybody else as before. */
  ghost predicate TeamDeactivated(before: seq<User>, after: seq<User>, team: TeamName)
  {
    forall id :: FindUser(after, id) ==
      if FindUser(before, id).Some? && FindUser(before, id).value.teamName == team
      then UserRepository.WithActive(FindUser(before, id), false) else FindUser(before, id)
  }

  /** `DeactivateTeamMembers`: reads the team's users (none: nothing to do),
      reads the open pull requests any of them reviews, clears the flag of
      the whole team, then removes the members from those pull requests.
      It returns those pull requests without the removed reviewers. A
      failing removal leaves the team deactivated and the removals made so
      far in place. */
  function DeactivateTeamMembers(st: Store, team: TeamName, faults: Faults): (o: Outcome<seq<PullRequest>>)
    ensures o.store.teams == st.teams && o.store.prs == st.prs
    ensures o.result.Failure? ==> KindOf(o.result.error).None?
    ensures NoFaults(faults) ==> o.result.Success?
    ensures o.store.users == st.users || TeamDeactivated(st.users, o.store.users, team)
    ensures o.result.Success? ==> TeamDeactivated(st.users, o.store.users, team)
    ensures LoadAffected(st, team, faults).Failure? ==> o.store == st
    ensures faults(UserDeactivateTeam(team)) ==> o.store == st
    ensures LoadAffected(st, team, faults).Success? && !faults(UserDeactivateTeam(team)) ==>
              TeamDeactivated(st.users, o.store.users, team)
    ensures (exists b | b in st.reviewers :: b !in o.store.reviewers) ==> TeamDeactivated(st.users, o.store.users, team)
    ensures forall b | b in o.store.reviewers :: b in st.reviewers
    ensures forall b | b in st.reviewers && !(InTeam(st.users, team, b.user) && OpenRow(st.prs, b.pr)) ::
              b in o.store.reviewers
    ensures o.result.Success? ==>
              forall b | b in st.reviewers && InTeam(st.users, team, b.user) && OpenRow(st.prs, b.pr) ::
                b !in o.store.reviewers
    ensures o.result.Success? ==>
              forall p | p in o.result.value ::
                p.status == Open && forall u | u in p.assignedReviewers :: !InTeam(st.users, team, u)
    ensures o.result.Success? ==>
              forall p | p in o.result.value ::
                exists row | row in st.prs && row.status == Open && TeamReviews(st, team, row.id) ::
                  p == Cleared(row, st, team)
    ensures o.result.Success? ==>
              forall row | row in st.prs && row.status == Open && TeamReviews(st, team, row.id) ::
                Cleared(row, st, team) in o.result.value
    ensures o.result.Success? ==> PullRequestRepository.NewestFirstLoaded(o.result.value)
    ensures o.result.Success? && UniquePrIds(st.prs) ==> PullRequestRepository.UniqueIds(o.result.value)
    ensures UniqueUserIds(st.users) ==> UniqueUserIds(o.store.users)
    ensures Distinct(st.reviewers) ==> Distinct(o.store.reviewers)
  {
    var affected := LoadAffected(st, team, faults);
    if affected.Failure? then Outcome(st, Failure(affected.error))
    else if |affected.value.members| == 0 then
      NobodyToDeactivate(st.users, team);
      Outcome(st, Success([]))
    else
      var deactivated := UserRepository.DeactivateTeamMembers(st, team, faults);
      if deactivated.result.Failure? then Outcome(st, Failure(Wrap("deactivate team members", deactivated.result.error)))
      else
        var stripped := StripAll(deactivated.store, affected.value.open, affected.value.members, faults);
        StrippedAreOpen(affected.value.open, affected.value.members, stripped);
        if stripped.result.Success? then
          StrippedAreAffected(st, team, affected.value.members, affected.value.open, stripped.result.value);
          stripped
        else stripped
  }

  /** Position by position, the stripped list is the affected pull requests
      cleared of the team's users; so it lists exactly them, in the same
      order. */
  lemma StrippedAreAffected(st: Store, team: TeamName, members: seq<UserId>, open: seq<PullRequest>, stripped: seq<PullRequest>)
    requires forall id :: id in members <==> InTeam(st.users, team, id)
    requires forall p | p in open ::
               && p.createdAt.Some? && PullRequestRepository.Dehydrate(p) in st.prs && p.status == Open
               && p.assignedReviewers == ReviewerRepository.ReviewersOf(st.reviewers, p.id)
               && TeamReviews(st, team, p.id)
    requires forall row | row in st.prs && row.status == Open && TeamReviews(st, team, row.id) ::
               PullRequestRepository.Hydrate(row, st.reviewers) in open
    requires PullRequestRepository.NewestFirstLoaded(open)
    requires UniquePrIds(st.prs) ==> PullRequestRepository.UniqueIds(open)
    requires |stripped| == |open|
    requires forall i | 0 <= i < |open| :: stripped[i] == WithoutMembers(open[i], members)
    ensures forall p | p in stripped ::
              exists row | row in st.prs && row.status == Open && TeamReviews(st, team, row.id) ::
                p == Cleared(row, st, team)
    ensures forall row | row in st.prs && row.status == Open && TeamReviews(st, team, row.id) ::
              Cleared(row, st, team) in stripped
    ensures PullRequestRepository.NewestFirstLoaded(stripped)
    ensures UniquePrIds(st.prs) ==> PullRequestRepository.UniqueIds(stripped)
  {
    forall i | 0 <= i < |open|
      ensures stripped[i] == Cleared(PullRequestRepository.Dehydrate(open[i]), st, team)
    {
      assert open[i] in open;
      FilterCongruent(open[i].assignedReviewers, NotIn(members), OutsideTeam(st.users, team));
    }
    forall p | p in stripped
      ensures exists row | row in st.prs && row.status == Open && TeamReviews(st, team, row.id) ::
                p == Cleared(row, st, team)
    {
      var i :| 0 <= i < |stripped| && stripped[i] == p;
      assert open[i] in open;
      var row := PullRequestRepository.Dehydrate(open[i]);
      assert row in st.prs && row.status == Open && TeamReviews(st, team, row.id) && p == Cleared(row, st, team);
    }
    forall row | row in st.prs && row.status == Open && TeamReviews(st, team, row.id)
      ensures Cleared(row, st, team) in stripped
    {
      var i :| 0 <= i < |open| && open[i] == PullRequestRepository.Hydrate(row, st.reviewers);
      assert stripped[i] == Cleared(row, st, team);
    }
  }

  lemma StrippedAreOpen(open: seq<PullRequest>, members: seq<UserId>, stripped: Outcome<seq<PullRequest>>)
    requires forall p | p in open :: p.status == Open
    requires stripped.result.Success? ==>
               && |stripped.result.value| == |open|
               && forall i | 0 <= i < |open| :: stripped.result.value[i] == WithoutMembers(open[i], members)
    ensures stripped.result.Success? ==>
              forall p | p in stripped.result.value :: p.status == Open && forall u | u in p.assignedReviewers :: u !in members
  {
    if stripped.result.Success? {
      forall p | p in stripped.result.value
        ensures p.status == Open && forall u | u in p.assignedReviewers :: u !in members
      {
        var i :| 0 <= i < |stripped.result.value| && stripped.result.value[i] == p;
        assert open[i] in open;
      }
    }
  }

  /** A team nobody belongs to deactivates nobody. */
  lemma NobodyToDeactivate(users: seq<User>, team: TeamName)
    requires forall id :: !InTeam(users, team, id)
    ensures TeamDeactivated(users, users, team)
  {
    forall id ensures FindUser(users, id).Some? ==> FindUser(users, id).value.teamName != team {
      if FindUser(users, id).Some? && FindUser(users, id).value.teamName == team {
        var u := FindUser(users, id).value;
        assert u in users && u.teamName == team && u.id == id;
        assert InTeam(users, team, id);
      }
    }
  }

  /** The pull requests returned list exactly the reviewers the relation
      keeps for them, in the same order. */
  lemma DeactivationResponseMatchesStore(st: Store, team: TeamName, faults: Faults)
    ensures var o := DeactivateTeamMembers(st, team, faults);
            o.result.Success? ==>
              forall p | p in o.result.value :: p.assignedReviewers == ReviewerRepository.ReviewersOf(o.store.reviewers, p.id)
  {
    var o := DeactivateTeamMembers(st, team, faults);
    var affected := LoadAffected(st, team, faults);
    if o.result.Success? && affected.Success? && |affected.value.members| > 0 {
      var deactivated := UserRepository.DeactivateTeamMembers(st, team, faults);
      StripAllFilters(deactivated.store, affected.value.open, affected.value.members, faults);
      StrippedMatchFiltered(st.reviewers, affected.value.open, affected.value.members, o.result.value);
    }
  }

  lemma StrippedMatchFiltered(rel: seq<Assignment>, open: seq<PullRequest>, members: seq<UserId>, stripped: seq<PullRequest>)
    requires forall p | p in open :: p.assignedReviewers == ReviewerRepository.ReviewersOf(rel, p.id)
    requires |stripped| == |open|
    requires forall i | 0 <= i < |open| :: stripped[i] == WithoutMembers(open[i], members)
    ensures forall p | p in stripped ::
              p.assignedReviewers == ReviewerRepository.ReviewersOf(Filter(rel, StripAllKeeps(open, members)), p.id)
  {
    var keep := StripAllKeeps(open, members);
    forall p | p in stripped
      ensures p.assignedReviewers == ReviewerRepository.ReviewersOf(Filter(rel, keep), p.id)
    {
      var i :| 0 <= i < |stripped| && stripped[i] == p;
      var q := open[i];
      assert q in open;
      var before := ReviewerRepository.ReviewersOf(rel, q.id);
      ReviewerRepository.ReviewersOfFilter(rel, keep, q.id);
      forall u | u in before
        ensures ReviewerRepository.AtPr(keep, q.id)(u) == NotIn(members)(u)
      {
        assert ListedReviewer(open, q.id, u);
      }
      FilterCongruent(before, ReviewerRepository.AtPr(keep, q.id), NotIn(members));
    }
  }
}
