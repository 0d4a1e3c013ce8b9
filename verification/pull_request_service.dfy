/** The reviewer-assignment engine: creating a pull request with up to two
    reviewers drawn from the author's team, merging it, and handing one
    reviewer's place to another member of that reviewer's team. */
module PullRequestService {
  import opened Results
  import opened Seqs
  import opened Rand
  import opened Entity
  import opened Store
  import ReviewerRepository
  import UserRepository
  import PullRequestRepository

  /** A new pull request gets at most this many reviewers. */
  const MaxReviewers: nat := 2

  function Min(a: int, b: int): (m: int)
    ensures m <= a && m <= b
    ensures m == a || m == b
  {
    if a < b then a else b
  }

  // ---------------------------------------------------------------------
  // Choosing reviewers for a new pull request
  // ---------------------------------------------------------------------

  /** The ids of the users who may review a new pull request of `author`:
      the active members of the author's team other than the author. */
  function Eligible(st: Store, author: User): set<UserId>
  {
    set u | u in st.users && u.teamName == author.teamName && u.isActive && u.id != author.id :: u.id
  }

  /** The team members that pass the creation filter, in the order read. */
  function CreationCandidates(members: seq<User>, authorId: UserId): (c: seq<User>)
    ensures forall u | u in c :: u in members && u.id != authorId && u.isActive
    ensures forall u | u in members && u.id != authorId && u.isActive :: u in c
    ensures UniqueUserIds(members) ==> UniqueUserIds(c)
  {
    var keep := (u: User) => u.id != authorId && u.isActive;
    UserRepository.FilterKeepsUniqueIds(members, keep);
    Filter(members, keep)
  }

  /** `selectRandomReviewers`: the first `min(maxCount, len)` users of a
      shuffled copy of the candidates. */
  function SelectRandomReviewers(candidates: seq<User>, maxCount: nat, draw: nat -> nat): (r: seq<User>)
    ensures |r| == Min(maxCount, |candidates|)
    ensures forall u | u in r :: u in candidates
    ensures multiset(r) <= multiset(candidates)
    ensures UniqueUserIds(candidates) ==> UniqueUserIds(r)
  {
    if |candidates| == 0 then []
    else
      var shuffled := Shuffle(candidates, draw);
      var count := Min(maxCount, |candidates|);
      PrefixOfShuffle(candidates, shuffled, count);
      shuffled[..count]
  }

  lemma PrefixOfShuffle(candidates: seq<User>, shuffled: seq<User>, count: nat)
    requires multiset(shuffled) == multiset(candidates)
    requires Distinct(candidates) ==> Distinct(shuffled)
    requires count <= |shuffled|
    ensures multiset(shuffled[..count]) <= multiset(candidates)
    ensures forall u | u in shuffled[..count] :: u in candidates
    ensures UniqueUserIds(candidates) ==> UniqueUserIds(shuffled[..count])
  {
    var prefix := shuffled[..count];
    assert shuffled == prefix + shuffled[count..];
    assert multiset(shuffled) == multiset(prefix) + multiset(shuffled[count..]);
    forall u | u in prefix ensures u in candidates {
      assert u in multiset(prefix);
      assert u in multiset(candidates);
    }
    if UniqueUserIds(candidates) {
      assert Distinct(candidates);
      assert Distinct(prefix) by {
        forall i, j | 0 <= i < j < |prefix| ensures prefix[i] != prefix[j] {
          assert prefix[i] == shuffled[i] && prefix[j] == shuffled[j];
        }
      }
      UserRepository.DistinctSubsetHasUniqueIds(prefix, candidates);
    }
  }

  /** No candidate is left out by construction: for each one some outcome
      of the random source puts it among the selected reviewers. */
  lemma AnyCandidateCanBeSelected(candidates: seq<User>, maxCount: nat, k: nat)
    requires k < |candidates| && maxCount > 0
    ensures exists draw: nat -> nat :: candidates[k] in SelectRandomReviewers(candidates, maxCount, draw)
  {
    AnyElementCanComeFirst(candidates, k);
    var draw: nat -> nat :| Shuffle(candidates, draw)[0] == candidates[k];
    var r := SelectRandomReviewers(candidates, maxCount, draw);
    assert r == Shuffle(candidates, draw)[..Min(maxCount, |candidates|)];
    assert r[0] == candidates[k];
  }

  /** The number of ids assigned before the first failing insert. */
  function AssignedCount(pr: PrId, ids: seq<UserId>, faults: Faults): (n: nat)
    ensures n <= |ids|
    ensures forall i | 0 <= i < n :: !faults(ReviewerInsert(pr, ids[i]))
    ensures n < |ids| ==> faults(ReviewerInsert(pr, ids[n]))
  {
    if |ids| == 0 || faults(ReviewerInsert(pr, ids[0])) then 0
    else 1 + AssignedCount(pr, ids[1..], faults)
  }

  /** The loop of `AssignReviewer` calls: it stops at the first failure and
      keeps the assignments made before it. */
  function AssignAll(st: Store, pr: PrId, ids: seq<UserId>, faults: Faults): (o: Outcome<()>)
    ensures o.store.teams == st.teams && o.store.users == st.users && o.store.prs == st.prs
    ensures st.reviewers <= o.store.reviewers
    ensures forall b | b in o.store.reviewers :: b in st.reviewers || (b.pr == pr && b.user in ids)
    ensures o.result.Success? <==> AssignedCount(pr, ids, faults) == |ids|
    ensures o.result.Success? ==> forall u | u in ids :: Assignment(pr, u) in o.store.reviewers
    ensures o.result.Failure? ==> KindOf(o.result.error).None?
    ensures Distinct(st.reviewers) ==> Distinct(o.store.reviewers)
    decreases |ids|
  {
    if |ids| == 0 then Outcome(st, Success(()))
    else
      var first := ReviewerRepository.AssignReviewer(st, pr, ids[0], faults);
      if first.result.Failure? then first
      else
        var rest := AssignAll(first.store, pr, ids[1..], faults);
        assert ids == [ids[0]] + ids[1..];
        rest
  }

  /** The reviewer list of `pr` grows by exactly the ids assigned before the
      first failure, in order; other pull requests keep theirs. */
  lemma {:induction false} ReviewersAfterAssignAll(st: Store, pr: PrId, ids: seq<UserId>, faults: Faults, q: PrId)
    requires Distinct(ids)
    requires forall u | u in ids :: Assignment(pr, u) !in st.reviewers
    ensures ReviewerRepository.ReviewersOf(AssignAll(st, pr, ids, faults).store.reviewers, q) ==
            if q == pr then ReviewerRepository.ReviewersOf(st.reviewers, pr) + ids[..AssignedCount(pr, ids, faults)]
            else ReviewerRepository.ReviewersOf(st.reviewers, q)
    decreases |ids|
  {
    if |ids| > 0 && !faults(ReviewerInsert(pr, ids[0])) {
      var a := Assignment(pr, ids[0]);
      var first := ReviewerRepository.AssignReviewer(st, pr, ids[0], faults);
      var tail := ids[1..];
      assert AssignAll(st, pr, ids, faults) == AssignAll(first.store, pr, tail, faults);
      assert first.store.reviewers == ReviewerRepository.Insert(st.reviewers, a);
      ReviewerRepository.ReviewersAfterInsert(st.reviewers, a, q);
      TailFresh(st.reviewers, pr, ids);
      ReviewersAfterAssignAll(first.store, pr, tail, faults, q);
      var n := AssignedCount(pr, tail, faults);
      assert AssignedCount(pr, ids, faults) == n + 1;
      AppendPrefixStep(ReviewerRepository.ReviewersOf(st.reviewers, q),
                       ReviewerRepository.ReviewersOf(first.store.reviewers, q),
                       ReviewerRepository.ReviewersOf(AssignAll(st, pr, ids, faults).store.reviewers, q),
                       ids, n, q == pr);
    }
  }

  /** One step of the induction: a list that grew by the first id and then
      by a prefix of the rest grew by a prefix of all ids. */
  lemma AppendPrefixStep<T>(before: seq<T>, mid: seq<T>, after: seq<T>, ids: seq<T>, n: nat, grows: bool)
    requires n < |ids|
    requires mid == if grows then before + [ids[0]] else before
    requires after == if grows then mid + ids[1..][..n] else mid
    ensures after == if grows then before + ids[..n + 1] else before
  {
    if grows {
      PrefixOfTail(ids, n);
    }
  }

  lemma PrefixOfTail<T>(s: seq<T>, n: nat)
    requires n < |s|
    ensures s[..n + 1] == [s[0]] + s[1..][..n]
  {
    assert forall k | 0 <= k < n + 1 :: s[..n + 1][k] == ([s[0]] + s[1..][..n])[k];
  }

  lemma TailFresh(rel: seq<Assignment>, pr: PrId, ids: seq<UserId>)
    requires |ids| > 0 && Distinct(ids)
    requires forall u | u in ids :: Assignment(pr, u) !in rel
    ensures Distinct(ids[1..])
    ensures forall u | u in ids[1..] :: Assignment(pr, u) !in ReviewerRepository.Insert(rel, Assignment(pr, ids[0]))
  {
    var tail := ids[1..];
    forall i, j | 0 <= i < j < |tail| ensures tail[i] != tail[j] {
      assert tail[i] == ids[i + 1] && tail[j] == ids[j + 1];
    }
    forall u | u in tail ensures u != ids[0] && u in ids {
      var k :| 0 <= k < |tail| && tail[k] == u;
      assert ids[k + 1] == u;
    }
  }

  // ---------------------------------------------------------------------
  // CreatePullRequest
  // ---------------------------------------------------------------------

  /** `CreatePullRequest`: rejects a taken id, reads the author and the
      author's team, picks up to two reviewers, stores the pull request as
      OPEN, then assigns the reviewers one by one. `now` is the service's
      clock, `dbNow` the repository's (the stored `created_at`), `draw` the
      random source of the shuffle. A failing assignment leaves the pull
      request and the assignments made so far in place. */
  function CreatePullRequest(st: Store, pr: PullRequest, draw: nat -> nat, now: Time, dbNow: Time, faults: Faults)
    : (o: Outcome<PullRequest>)
    ensures !faults(PrExistsQuery(pr.id)) && FindRow(st.prs, pr.id).Some? ==>
              o == Outcome(st, Failure(Sentinel(PRExists)))
    ensures !faults(PrExistsQuery(pr.id)) && FindRow(st.prs, pr.id).None?
            && !faults(UserSelect(pr.authorId)) && FindUser(st.users, pr.authorId).None? ==>
              o.store == st && o.result.Failure? && Is(o.result.error, UserNotFound)
    ensures o.result.Failure? ==>
              Is(o.result.error, PRExists) || Is(o.result.error, UserNotFound) || KindOf(o.result.error).None?
    ensures faults(PrInsert(pr.id)) ==> o.store == st
    ensures FindRow(st.prs, pr.id).Some? ==> o.store == st
    ensures o.store.teams == st.teams && o.store.users == st.users
    ensures forall id | id != pr.id :: FindRow(o.store.prs, id) == FindRow(st.prs, id)
    ensures UniquePrIds(st.prs) ==> UniquePrIds(o.store.prs)
    ensures st.reviewers <= o.store.reviewers
    ensures forall b | b in o.store.reviewers && b !in st.reviewers ::
              && b.pr == pr.id
              && FindRow(o.store.prs, pr.id).Some? && FindRow(o.store.prs, pr.id).value.authorId == pr.authorId
              && FindUser(st.users, pr.authorId).Some?
              && b.user in Eligible(st, FindUser(st.users, pr.authorId).value)
    ensures Distinct(st.reviewers) ==> Distinct(o.store.reviewers)
    ensures o.result.Success? ==>
              && FindRow(st.prs, pr.id).None?
              && FindRow(o.store.prs, pr.id) == Some(PrRow(pr.id, pr.name, pr.authorId, Open, dbNow, pr.mergedAt))
    ensures o.result.Success? ==>
              var p := o.result.value;
              && p.id == pr.id && p.name == pr.name && p.authorId == pr.authorId
              && p.status == Open && p.createdAt == Some(now) && p.mergedAt == pr.mergedAt
              && pr.assignedReviewers <= p.assignedReviewers
              && (forall u | u in p.assignedReviewers[|pr.assignedReviewers|..] ::
                    Assignment(pr.id, u) in o.store.reviewers)
  {
    var present := PullRequestRepository.Exists(st, pr.id, faults);
    if present.Failure? then Outcome(st, Failure(Wrap("check pr exists", present.error)))
    else if present.value then Outcome(st, Failure(Sentinel(PRExists)))
    else
      var author := UserRepository.GetByID(st, pr.authorId, faults);
      if author.Failure? then Outcome(st, Failure(Wrap("get author", author.error)))
      else
        var members := UserRepository.GetByTeamName(st, author.value.teamName, faults);
        if members.Failure? then Outcome(st, Failure(Wrap("get team members", members.error)))
        else
          var reviewers := SelectRandomReviewers(CreationCandidates(members.value, pr.authorId), MaxReviewers, draw);
          var ids := UserIds(reviewers);
          ChosenAreEligible(st, author.value, members.value, reviewers);
          SaveWithReviewers(st, pr.(status := Open, createdAt := Some(now)), ids, dbNow, faults)
  }

  /** The writes of a creation: the pull-request row, then one assignment
      per chosen id. The pull request returned lists the ids after the
      reviewers it already carried. */
  function SaveWithReviewers(st: Store, pr: PullRequest, ids: seq<UserId>, dbNow: Time, faults: Faults)
    : (o: Outcome<PullRequest>)
    ensures faults(PrInsert(pr.id)) ==> o.store == st
    ensures o.result.Failure? ==> KindOf(o.result.error).None?
    ensures o.store.teams == st.teams && o.store.users == st.users
    ensures forall id | id != pr.id :: FindRow(o.store.prs, id) == FindRow(st.prs, id)
    ensures UniquePrIds(st.prs) ==> UniquePrIds(o.store.prs)
    ensures st.reviewers <= o.store.reviewers
    ensures forall b | b in o.store.reviewers && b !in st.reviewers ::
              && b.pr == pr.id && b.user in ids
              && FindRow(o.store.prs, pr.id) == Some(PrRow(pr.id, pr.name, pr.authorId, pr.status, dbNow, pr.mergedAt))
    ensures Distinct(st.reviewers) ==> Distinct(o.store.reviewers)
    ensures o.result.Success? ==>
              && FindRow(st.prs, pr.id).None?
              && FindRow(o.store.prs, pr.id) == Some(PrRow(pr.id, pr.name, pr.authorId, pr.status, dbNow, pr.mergedAt))
              && o.result.value == pr.(assignedReviewers := pr.assignedReviewers + ids)
              && (forall u | u in ids :: Assignment(pr.id, u) in o.store.reviewers)
  {
    var created := PullRequestRepository.Create(st, pr, dbNow, faults);
    if created.result.Failure? then Outcome(created.store, Failure(Wrap("create pr", created.result.error)))
    else
      var added := AssignAll(created.store, pr.id, ids, faults);
      if added.result.Failure? then
        Outcome(added.store, Failure(Wrap("assign reviewer", added.result.error)))
      else
        Outcome(added.store, Success(pr.(assignedReviewers := pr.assignedReviewers + ids)))
  }

  /** Without store failures a creation fails only on a taken id or an
      unknown author, in that order. */
  lemma CreateOutcomes(st: Store, pr: PullRequest, draw: nat -> nat, now: Time, dbNow: Time, faults: Faults)
    requires NoFaults(faults)
    ensures var o := CreatePullRequest(st, pr, draw, now, dbNow, faults);
            && (FindRow(st.prs, pr.id).Some? ==> o == Outcome(st, Failure(Sentinel(PRExists))))
            && (FindRow(st.prs, pr.id).None? && FindUser(st.users, pr.authorId).None? ==>
                  o.store == st && o.result.Failure? && Is(o.result.error, UserNotFound))
            && (FindRow(st.prs, pr.id).None? && FindUser(st.users, pr.authorId).Some? ==> o.result.Success?)
  {
    assert !faults(PrExistsQuery(pr.id)) && !faults(UserSelect(pr.authorId)) && !faults(PrInsert(pr.id));
    if FindRow(st.prs, pr.id).None? && FindUser(st.users, pr.authorId).Some? {
      var author := UserRepository.GetByID(st, pr.authorId, faults).value;
      assert !faults(UserSelectTeam(author.teamName));
      var members := UserRepository.GetByTeamName(st, author.teamName, faults).value;
      var ids := UserIds(SelectRandomReviewers(CreationCandidates(members, pr.authorId), MaxReviewers, draw));
      var saved := pr.(status := Open, createdAt := Some(now));
      var created := PullRequestRepository.Create(st, saved, dbNow, faults);
      var n := AssignedCount(saved.id, ids, faults);
      assert n == |ids|;
    }
  }

  /** Under the invariants, a successful save stores exactly `ids` as the
      reviewer list of the new pull request, in order. */
  lemma SavedReviewers(st: Store, pr: PullRequest, ids: seq<UserId>, dbNow: Time, faults: Faults)
    requires Valid(st) && Distinct(ids)
    requires SaveWithReviewers(st, pr, ids, dbNow, faults).result.Success?
    ensures ReviewerRepository.ReviewersOf(SaveWithReviewers(st, pr, ids, dbNow, faults).store.reviewers, pr.id) == ids
  {
    var created := PullRequestRepository.Create(st, pr, dbNow, faults);
    assert created.result.Success? && created.store.reviewers == st.reviewers;
    NoReviewersBeforeCreation(st, pr.id);
    AssignedFromNone(created.store, pr.id, ids, faults);
  }

  /** Assigning to a pull request with no reviewers yet, without a failure,
      leaves exactly the assigned ids as its reviewers. */
  lemma AssignedFromNone(st: Store, pr: PrId, ids: seq<UserId>, faults: Faults)
    requires Distinct(ids) && forall u :: Assignment(pr, u) !in st.reviewers
    requires ReviewerRepository.ReviewersOf(st.reviewers, pr) == []
    requires AssignAll(st, pr, ids, faults).result.Success?
    ensures ReviewerRepository.ReviewersOf(AssignAll(st, pr, ids, faults).store.reviewers, pr) == ids
  {
    ReviewersAfterAssignAll(st, pr, ids, faults, pr);
    assert ids[..|ids|] == ids;
  }

  /** The chosen reviewers are eligible, and the author is the user read. */
  lemma ChosenAreEligible(st: Store, author: User, members: seq<User>, chosen: seq<User>)
    requires forall u :: u in members <==> u in st.users && u.teamName == author.teamName
    requires forall u | u in chosen :: u in members && u.id != author.id && u.isActive
    ensures forall id | id in UserIds(chosen) :: id in Eligible(st, author)
  {
    UserIdsOfUnique(chosen);
  }

  /** The reviewers a successful creation adds are distinct eligible users,
      as many as there are eligible users, but at most two. */
  lemma CreateChoosesEligibleReviewers(st: Store, pr: PullRequest, draw: nat -> nat, now: Time, dbNow: Time, faults: Faults)
    requires UniqueUserIds(st.users)
    requires CreatePullRequest(st, pr, draw, now, dbNow, faults).result.Success?
    ensures FindUser(st.users, pr.authorId).Some?
    ensures var author := FindUser(st.users, pr.authorId).value;
            var p := CreatePullRequest(st, pr, draw, now, dbNow, faults).result.value;
            var added := p.assignedReviewers[|pr.assignedReviewers|..];
            && |added| == Min(MaxReviewers, |Eligible(st, author)|)
            && Distinct(added)
            && (forall u | u in added :: u in Eligible(st, author) && u != pr.authorId)
  {
    var author := UserRepository.GetByID(st, pr.authorId, faults).value;
    var members := UserRepository.GetByTeamName(st, author.teamName, faults).value;
    var candidates := CreationCandidates(members, pr.authorId);
    var reviewers := SelectRandomReviewers(candidates, MaxReviewers, draw);
    var ids := UserIds(reviewers);
    var o := CreatePullRequest(st, pr, draw, now, dbNow, faults);
    assert o == SaveWithReviewers(st, pr.(status := Open, createdAt := Some(now)), ids, dbNow, faults);
    assert o.result.value.assignedReviewers[|pr.assignedReviewers|..] == ids;
    UserIdsOfUnique(reviewers);
    ChosenAreEligible(st, author, members, reviewers);
    CandidatesCoverEligible(st, author, members, candidates);
  }

  /** The candidate list holds each eligible user exactly once. */
  lemma CandidatesCoverEligible(st: Store, author: User, members: seq<User>, candidates: seq<User>)
    requires UniqueUserIds(st.users) && UniqueUserIds(members) && UniqueUserIds(candidates)
    requires forall u :: u in members <==> u in st.users && u.teamName == author.teamName
    requires forall u | u in candidates :: u in members && u.id != author.id && u.isActive
    requires forall u | u in members && u.id != author.id && u.isActive :: u in candidates
    ensures |candidates| == |Eligible(st, author)|
  {
    var ids := UserIds(candidates);
    UserIdsOfUnique(candidates);
    DistinctCardinality(ids);
    assert (set x | x in ids) == Eligible(st, author);
  }

  /** After a successful creation the stored reviewer list of the new pull
      request is exactly the chosen reviewers, in the order returned. */
  lemma CreateStoresChosenReviewers(st: Store, pr: PullRequest, draw: nat -> nat, now: Time, dbNow: Time, faults: Faults)
    requires Valid(st)
    requires CreatePullRequest(st, pr, draw, now, dbNow, faults).result.Success?
    ensures var o := CreatePullRequest(st, pr, draw, now, dbNow, faults);
            var p := o.result.value;
            ReviewerRepository.ReviewersOf(o.store.reviewers, pr.id) == p.assignedReviewers[|pr.assignedReviewers|..]
  {
    var author := UserRepository.GetByID(st, pr.authorId, faults).value;
    var members := UserRepository.GetByTeamName(st, author.teamName, faults).value;
    var reviewers := SelectRandomReviewers(CreationCandidates(members, pr.authorId), MaxReviewers, draw);
    var ids := UserIds(reviewers);
    var asOpen := pr.(status := Open, createdAt := Some(now));
    var o := CreatePullRequest(st, pr, draw, now, dbNow, faults);
    assert o == SaveWithReviewers(st, asOpen, ids, dbNow, faults);
    assert o.result.value.assignedReviewers[|pr.assignedReviewers|..] == ids;
    UserIdsOfUnique(reviewers);
    SavedReviewers(st, asOpen, ids, dbNow, faults);
  }

  /** What creation stores is what it returns, except for the creation time:
      the response carries the service's clock, a later read the
      repository's. */
  lemma CreateThenGet(st: Store, pr: PullRequest, draw: nat -> nat, now: Time, dbNow: Time, faults: Faults, later: Faults)
    requires Valid(st)
    requires CreatePullRequest(st, pr, draw, now, dbNow, faults).result.Success?
    requires !later(PrSelect(pr.id)) && !later(ReviewerSelect(pr.id))
    ensures var o := CreatePullRequest(st, pr, draw, now, dbNow, faults);
            var p := o.result.value;
            PullRequestRepository.GetByID(o.store, pr.id, later) ==
              Success(p.(createdAt := Some(dbNow), assignedReviewers := p.assignedReviewers[|pr.assignedReviewers|..]))
  {
    var o := CreatePullRequest(st, pr, draw, now, dbNow, faults);
    var p := o.result.value;
    CreateStoresChosenReviewers(st, pr, draw, now, dbNow, faults);
    var row := PrRow(pr.id, pr.name, pr.authorId, Open, dbNow, pr.mergedAt);
    assert FindRow(o.store.prs, pr.id) == Some(row);
    assert PullRequestRepository.GetByID(o.store, pr.id, later) ==
           Success(PullRequestRepository.Hydrate(row, o.store.reviewers));
  }

  /** Under the invariants, a pull request that is not stored has no
      reviewers. */
  lemma NoReviewersBeforeCreation(st: Store, id: PrId)
    requires Valid(st) && FindRow(st.prs, id).None?
    ensures ReviewerRepository.ReviewersOf(st.reviewers, id) == []
    ensures forall u :: Assignment(id, u) !in st.reviewers
  {
    ReviewerRepository.ReviewersOfAbsent(st.reviewers, id);
  }

  // ---------------------------------------------------------------------
  // MergePullRequest
  // ---------------------------------------------------------------------

  /** `MergePullRequest`: marks the pull request MERGED with `now` as merge
      time; a pull request already merged is returned as stored. */
  function MergePullRequest(st: Store, id: PrId, now: Time, faults: Faults): (o: Outcome<PullRequest>)
    ensures o.result.Failure? ==> o.store == st
    ensures o.store.teams == st.teams && o.store.users == st.users && o.store.reviewers == st.reviewers
    ensures forall q | q != id :: FindRow(o.store.prs, q) == FindRow(st.prs, q)
    ensures UniquePrIds(st.prs) ==> UniquePrIds(o.store.prs)
    ensures FindRow(st.prs, id).Some? && FindRow(st.prs, id).value.status == Merged ==> o.store == st
    ensures !faults(PrSelect(id)) && FindRow(st.prs, id).None? ==> o.result.Failure? && Is(o.result.error, PRNotFound)
    ensures o.result.Failure? ==> Is(o.result.error, PRNotFound) || KindOf(o.result.error).None?
    ensures o.result.Failure? && Is(o.result.error, PRNotFound) ==> FindRow(st.prs, id).None?
    ensures o.result.Success? <==>
              && !faults(PrSelect(id)) && FindRow(st.prs, id).Some? && !faults(ReviewerSelect(id))
              && (FindRow(st.prs, id).value.status == Merged || !faults(PrUpdate(id)))
    ensures o.result.Success? ==>
              var p := o.result.value;
              var before := FindRow(st.prs, id).value;
              && p.id == id && p.status == Merged && p.createdAt == Some(before.createdAt)
              && p.name == before.name && p.authorId == before.authorId
              && p.mergedAt == (if before.status == Merged then before.mergedAt else Some(now))
              && p.assignedReviewers == ReviewerRepository.ReviewersOf(st.reviewers, id)
              && FindRow(o.store.prs, id) == Some(PullRequestRepository.Dehydrate(p))
  {
    var got := PullRequestRepository.GetByID(st, id, faults);
    if got.Failure? then Outcome(st, Failure(Wrap("get pr", got.error)))
    else if got.value.status == Merged then Outcome(st, Success(got.value))
    else
      var merged := got.value.(status := Merged, mergedAt := Some(now));
      var updated := PullRequestRepository.Update(st, merged, faults);
      if updated.result.Failure? then Outcome(updated.store, Failure(Wrap("update pr", updated.result.error)))
      else Outcome(updated.store, Success(merged))
  }

  /** Merging is idempotent: merging again, at any later time, changes
      nothing and returns the same pull request, merge time included. */
  lemma MergeIsIdempotent(st: Store, id: PrId, now: Time, later: Time, faults: Faults)
    requires MergePullRequest(st, id, now, faults).result.Success?
    ensures var o := MergePullRequest(st, id, now, faults);
            MergePullRequest(o.store, id, later, faults) == o
  {
    var o := MergePullRequest(st, id, now, faults);
    var p := o.result.value;
    var again := PullRequestRepository.GetByID(o.store, id, faults);
    assert again == Success(p);
  }

  // ---------------------------------------------------------------------
  // ReassignReviewer
  // ---------------------------------------------------------------------

  /** The result of a reassignment: the pull request as returned and the id
      of the reviewer who took the old reviewer's place. */
  datatype Reassignment = Reassignment(pr: PullRequest, replacedBy: UserId)

  /** The ids of the users who may take `previous`'s place on a pull request
      of `author` currently reviewed by `reviewing`: active members of
      `previous`'s team, other than `previous`, the author and the current
      reviewers. */
  function ReplacementPool(st: Store, author: UserId, reviewing: seq<UserId>, previous: User): set<UserId>
  {
    set u | u in st.users && u.teamName == previous.teamName && u.isActive
            && u.id != previous.id && u.id != author && u.id !in reviewing :: u.id
  }

  /** `to` may take `oldUser`'s place on the open pull request `id`. */
  predicate MayReplace(st: Store, id: PrId, oldUser: UserId, to: UserId)
  {
    && FindRow(st.prs, id).Some? && FindRow(st.prs, id).value.status == Open
    && FindUser(st.users, oldUser).Some?
    && to in ReplacementPool(st, FindRow(st.prs, id).value.authorId,
                             ReviewerRepository.ReviewersOf(st.reviewers, id),
                             FindUser(st.users, oldUser).value)
  }

  /** The team members that pass the reassignment filter, in the order read. */
  function ReassignmentCandidates(members: seq<User>, pr: PullRequest, oldUser: UserId): (c: seq<User>)
    ensures forall u | u in c ::
              u in members && u.id != oldUser && u.id != pr.authorId && u.id !in pr.assignedReviewers && u.isActive
    ensures forall u | u in members && u.id != oldUser && u.id != pr.authorId
                       && u.id !in pr.assignedReviewers && u.isActive :: u in c
  {
    Filter(members, (u: User) => u.id != oldUser && u.id != pr.authorId && u.id !in pr.assignedReviewers && u.isActive)
  }

  /** The two writes of a reassignment: the reviewer swap, in one
      transaction, then the pull request written back with `from` replaced
      by `to` in its reviewer list. A failing write-back leaves the swap in
      place. */
  function CommitReassignment(st: Store, pr: PullRequest, from: UserId, to: UserId, faults: Faults)
    : (o: Outcome<Reassignment>)
    requires pr.createdAt.Some? && FindRow(st.prs, pr.id) == Some(PullRequestRepository.Dehydrate(pr))
    ensures o.store.teams == st.teams && o.store.users == st.users
    ensures forall q :: FindRow(o.store.prs, q) == FindRow(st.prs, q)
    ensures UniquePrIds(st.prs) ==> UniquePrIds(o.store.prs)
    ensures o.result.Failure? ==> KindOf(o.result.error).None?
    ensures o.result.Failure? && o.store != st ==> faults(PrUpdate(pr.id))
    ensures forall b | b in o.store.reviewers :: b in st.reviewers || b == Assignment(pr.id, to)
    ensures forall b | b in st.reviewers && b != Assignment(pr.id, from) :: b in o.store.reviewers
    ensures Distinct(st.reviewers) ==> Distinct(o.store.reviewers)
    ensures o.result.Success? ==>
              && Assignment(pr.id, to) in o.store.reviewers
              && (from != to ==> Assignment(pr.id, from) !in o.store.reviewers)
              && o.result.value == Reassignment(pr.(assignedReviewers := ReplaceFirst(pr.assignedReviewers, from, to)), to)
  {
    var replaced := ReviewerRepository.ReplaceReviewer(st, pr.id, from, to, faults);
    if replaced.result.Failure? then Outcome(st, Failure(Wrap("replace reviewer", replaced.result.error)))
    else WriteBack(replaced.store, pr, from, to, faults)
  }

  /** The second write of a reassignment: the pull request saved with `from`
      replaced by `to` in its reviewer list. Only the row is written. */
  function WriteBack(st: Store, pr: PullRequest, from: UserId, to: UserId, faults: Faults)
    : (o: Outcome<Reassignment>)
    requires pr.createdAt.Some? && FindRow(st.prs, pr.id) == Some(PullRequestRepository.Dehydrate(pr))
    ensures o.store.teams == st.teams && o.store.users == st.users && o.store.reviewers == st.reviewers
    ensures forall q :: FindRow(o.store.prs, q) == FindRow(st.prs, q)
    ensures UniquePrIds(st.prs) ==> UniquePrIds(o.store.prs)
    ensures o.result.Failure? ==> KindOf(o.result.error).None? && faults(PrUpdate(pr.id))
    ensures o.result.Success? ==>
              o.result.value == Reassignment(pr.(assignedReviewers := ReplaceFirst(pr.assignedReviewers, from, to)), to)
  {
    var updated := pr.(assignedReviewers := ReplaceFirst(pr.assignedReviewers, from, to));
    var saved := PullRequestRepository.Update(st, updated, faults);
    if saved.result.Failure? then Outcome(st, Failure(Wrap("update pr", saved.result.error)))
    else Outcome(saved.store, Success(Reassignment(updated, to)))
  }

  /** What the checks of a reassignment settle on: the pull request as
      read and the replacement drawn. */
  datatype Plan = Plan(pr: PullRequest, to: UserId)

  /** The reads and checks of `ReassignReviewer`, in source order: the pull
      request exists, is not merged, and is reviewed by `oldUser`; `oldUser`
      and that user's team are read; one eligible member is picked with
      `rand.Intn` (`pick` is the random source). */
  function PlanReassignment(st: Store, id: PrId, oldUser: UserId, pick: nat, faults: Faults): (r: Result<Plan, Error>)
    ensures r.Failure? ==>
              || Is(r.error, PRNotFound) || Is(r.error, PRMerged) || Is(r.error, NotAssigned)
              || Is(r.error, UserNotFound) || Is(r.error, NoCandidate) || KindOf(r.error).None?
    ensures r.Success? ==>
              && FindRow(st.prs, id).Some?
              && r.value.pr == PullRequestRepository.Hydrate(FindRow(st.prs, id).value, st.reviewers)
              && r.value.pr.id == id && r.value.pr.status == Open
              && oldUser in r.value.pr.assignedReviewers
              && r.value.to != oldUser && r.value.to !in r.value.pr.assignedReviewers
              && MayReplace(st, id, oldUser, r.value.to)
  {
    var got := PullRequestRepository.GetByID(st, id, faults);
    if got.Failure? then Failure(Wrap("get pr", got.error))
    else if got.value.status == Merged then Failure(Sentinel(PRMerged))
    else
      var reviewing := ReviewerRepository.IsAssigned(st, id, oldUser, faults);
      if reviewing.Failure? then Failure(Wrap("check is assigned", reviewing.error))
      else if !reviewing.value then Failure(Sentinel(NotAssigned))
      else
        var previous := UserRepository.GetByID(st, oldUser, faults);
        if previous.Failure? then Failure(Wrap("get old reviewer", previous.error))
        else
          var members := UserRepository.GetByTeamName(st, previous.value.teamName, faults);
          if members.Failure? then Failure(Wrap("get team members", members.error))
          else
            var candidates := ReassignmentCandidates(members.value, got.value, oldUser);
            if |candidates| == 0 then Failure(Sentinel(NoCandidate))
            else
              var chosen := candidates[Intn(|candidates|, pick)];
              assert chosen in candidates;
              assert FindUser(st.users, oldUser) == Some(previous.value);
              assert chosen.id in ReplacementPool(st, got.value.authorId, got.value.assignedReviewers, previous.value);
              assert MayReplace(st, id, oldUser, chosen.id);
              Success(Plan(got.value, chosen.id))
  }

  /** `ReassignReviewer`: the checks, then the two writes. */
  function ReassignReviewer(st: Store, id: PrId, oldUser: UserId, pick: nat, faults: Faults): (o: Outcome<Reassignment>)
    ensures o.store.teams == st.teams && o.store.users == st.users
    ensures forall q :: FindRow(o.store.prs, q) == FindRow(st.prs, q)
    ensures UniquePrIds(st.prs) ==> UniquePrIds(o.store.prs)
    ensures o.result.Failure? && o.store != st ==> faults(PrUpdate(id))
    ensures o.result.Failure? ==>
              || Is(o.result.error, PRNotFound) || Is(o.result.error, PRMerged) || Is(o.result.error, NotAssigned)
              || Is(o.result.error, UserNotFound) || Is(o.result.error, NoCandidate) || KindOf(o.result.error).None?
    ensures Distinct(st.reviewers) ==> Distinct(o.store.reviewers)
    ensures forall b | b in o.store.reviewers && b !in st.reviewers :: b.pr == id && MayReplace(st, id, oldUser, b.user)
    ensures forall b | b in st.reviewers && b !in o.store.reviewers ::
              b == Assignment(id, oldUser) && FindRow(st.prs, id).Some? && FindRow(st.prs, id).value.status == Open
    ensures o.result.Success? ==>
              var r := o.result.value;
              var reviewing := ReviewerRepository.ReviewersOf(st.reviewers, id);
              && FindRow(st.prs, id).Some? && FindRow(st.prs, id).value.status == Open
              && oldUser in reviewing
              && MayReplace(st, id, oldUser, r.replacedBy)
              && Assignment(id, oldUser) !in o.store.reviewers
              && Assignment(id, r.replacedBy) in o.store.reviewers
              && (forall b | b in o.store.reviewers :: b in st.reviewers || b == Assignment(id, r.replacedBy))
              && (forall b | b in st.reviewers && b != Assignment(id, oldUser) :: b in o.store.reviewers)
              && r.pr == PullRequestRepository.Hydrate(FindRow(st.prs, id).value, st.reviewers)
                           .(assignedReviewers := ReplaceFirst(reviewing, oldUser, r.replacedBy))
  {
    var plan := PlanReassignment(st, id, oldUser, pick, faults);
    if plan.Failure? then Outcome(st, Failure(plan.error))
    else CommitReassignment(st, plan.value.pr, oldUser, plan.value.to, faults)
  }

  /** The stored reviewer list after a reassignment has the old reviewer
      dropped and the new one appended last (the `assigned_at` order a later
      read returns), while the response overwrites the old reviewer in
      place: the two lists hold the same reviewers, possibly in a different
      order. */
  lemma ReassignResponseVersusStore(st: Store, id: PrId, oldUser: UserId, pick: nat, faults: Faults)
    requires Distinct(st.reviewers)
    requires ReassignReviewer(st, id, oldUser, pick, faults).result.Success?
    ensures var o := ReassignReviewer(st, id, oldUser, pick, faults);
            var r := o.result.value;
            var before := ReviewerRepository.ReviewersOf(st.reviewers, id);
            var after := ReviewerRepository.ReviewersOf(o.store.reviewers, id);
            && after == Without(before, oldUser) + [r.replacedBy]
            && r.pr.assignedReviewers == ReplaceFirst(before, oldUser, r.replacedBy)
            && multiset(r.pr.assignedReviewers) == multiset(after)
            && Distinct(after)
  {
    var o := ReassignReviewer(st, id, oldUser, pick, faults);
    var plan := PlanReassignment(st, id, oldUser, pick, faults).value;
    var before := ReviewerRepository.ReviewersOf(st.reviewers, id);
    assert plan.pr.assignedReviewers == before;
    var replaced := ReviewerRepository.ReplaceReviewer(st, id, oldUser, plan.to, faults);
    assert o.store.reviewers == replaced.store.reviewers;
    assert !ReviewerRepository.ReplaceFails(id, oldUser, plan.to, faults);
    ReviewerRepository.ReviewersAfterReplace(st, id, oldUser, plan.to, faults, id);
    ReplaceFirstIsRemoveThenAppend(before, oldUser, plan.to);
  }

  /** Every check before the random pick passes. */
  predicate ReadyToReassign(st: Store, id: PrId, oldUser: UserId)
  {
    && FindRow(st.prs, id).Some? && FindRow(st.prs, id).value.status == Open
    && Assignment(id, oldUser) in st.reviewers
    && FindUser(st.users, oldUser).Some?
  }

  /** Without database failures a reassignment reports, in this order: an
      unknown pull request, a merged one, a user who is not its reviewer, an
      unknown user, and the lack of any eligible replacement; otherwise it
      succeeds. */
  lemma ReassignOutcomes(st: Store, id: PrId, oldUser: UserId, pick: nat, faults: Faults)
    requires NoFaults(faults)
    ensures var o := ReassignReviewer(st, id, oldUser, pick, faults);
            FindRow(st.prs, id).None? ==> o.store == st && o.result.Failure? && Is(o.result.error, PRNotFound)
    ensures var o := ReassignReviewer(st, id, oldUser, pick, faults);
            FindRow(st.prs, id).Some? && FindRow(st.prs, id).value.status == Merged ==>
              o == Outcome(st, Failure(Sentinel(PRMerged)))
    ensures var o := ReassignReviewer(st, id, oldUser, pick, faults);
            FindRow(st.prs, id).Some? && FindRow(st.prs, id).value.status == Open
            && Assignment(id, oldUser) !in st.reviewers ==>
              o == Outcome(st, Failure(Sentinel(NotAssigned)))
    ensures var o := ReassignReviewer(st, id, oldUser, pick, faults);
            FindRow(st.prs, id).Some? && FindRow(st.prs, id).value.status == Open
            && Assignment(id, oldUser) in st.reviewers && FindUser(st.users, oldUser).None? ==>
              o.store == st && o.result.Failure? && Is(o.result.error, UserNotFound)
    ensures var o := ReassignReviewer(st, id, oldUser, pick, faults);
            ReadyToReassign(st, id, oldUser) ==>
              var pool := ReplacementPool(st, FindRow(st.prs, id).value.authorId,
                                          ReviewerRepository.ReviewersOf(st.reviewers, id),
                                          FindUser(st.users, oldUser).value);
              && (pool == {} ==> o == Outcome(st, Failure(Sentinel(NoCandidate))))
              && (pool != {} ==> o.result.Success?)
  {
    assert !faults(PrSelect(id)) && !faults(ReviewerSelect(id)) && !faults(ReviewerExistsQuery(id, oldUser));
    assert !faults(UserSelect(oldUser));
    if ReadyToReassign(st, id, oldUser) {
      ReadyOutcome(st, id, oldUser, pick, faults);
    }
  }

  /** Once the checks pass, the plan fails only for want of a candidate,
      exactly when the pool is empty. */
  lemma ReadyPlan(st: Store, id: PrId, oldUser: UserId, pick: nat, faults: Faults)
    requires NoFaults(faults) && ReadyToReassign(st, id, oldUser)
    ensures var plan := PlanReassignment(st, id, oldUser, pick, faults);
            var pool := ReplacementPool(st, FindRow(st.prs, id).value.authorId,
                                        ReviewerRepository.ReviewersOf(st.reviewers, id),
                                        FindUser(st.users, oldUser).value);
            && (pool == {} ==> plan == Failure(Sentinel(NoCandidate)))
            && (pool != {} ==> plan.Success?)
  {
    assert !faults(PrSelect(id)) && !faults(ReviewerSelect(id)) && !faults(ReviewerExistsQuery(id, oldUser));
    var got := PullRequestRepository.GetByID(st, id, faults).value;
    assert !faults(UserSelect(oldUser));
    var previous := UserRepository.GetByID(st, oldUser, faults).value;
    assert !faults(UserSelectTeam(previous.teamName));
    var members := UserRepository.GetByTeamName(st, previous.teamName, faults).value;
    CandidatesMatchPool(st, members, got, oldUser, previous);
  }

  lemma ReadyOutcome(st: Store, id: PrId, oldUser: UserId, pick: nat, faults: Faults)
    requires NoFaults(faults) && ReadyToReassign(st, id, oldUser)
    ensures var o := ReassignReviewer(st, id, oldUser, pick, faults);
            var pool := ReplacementPool(st, FindRow(st.prs, id).value.authorId,
                                        ReviewerRepository.ReviewersOf(st.reviewers, id),
                                        FindUser(st.users, oldUser).value);
            && (pool == {} ==> o == Outcome(st, Failure(Sentinel(NoCandidate))))
            && (pool != {} ==> o.result.Success?)
  {
    ReadyPlan(st, id, oldUser, pick, faults);
    var plan := PlanReassignment(st, id, oldUser, pick, faults);
    if plan.Success? {
      assert !ReviewerRepository.ReplaceFails(id, oldUser, plan.value.to, faults);
      assert !faults(PrUpdate(id));
    }
  }

  /** The candidate list is empty exactly when the replacement pool is. */
  lemma CandidatesMatchPool(st: Store, members: seq<User>, pr: PullRequest, oldUser: UserId, previous: User)
    requires forall u :: u in members <==> u in st.users && u.teamName == previous.teamName
    requires previous.id == oldUser
    ensures |ReassignmentCandidates(members, pr, oldUser)| == 0 <==>
            ReplacementPool(st, pr.authorId, pr.assignedReviewers, previous) == {}
  {
    var candidates := ReassignmentCandidates(members, pr, oldUser);
    var pool := ReplacementPool(st, pr.authorId, pr.assignedReviewers, previous);
    if |candidates| > 0 {
      assert candidates[0] in candidates;
      assert candidates[0].id in pool;
    }
    if pool != {} {
      var x :| x in pool;
      var u :| u in st.users && u.teamName == previous.teamName && u.isActive
               && u.id != previous.id && u.id != pr.authorId && u.id !in pr.assignedReviewers && u.id == x;
      assert u in candidates;
    }
  }
}
