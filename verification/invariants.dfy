/** The invariants of the stored data hold across every operation of the
    services, and a merged pull request is frozen: no operation changes its
    row or its set of reviewers. */
module Invariants {
  import opened Seqs
  import opened Entity
  import opened Store
  import PullRequestService
  import UserService
  import TeamService

  /** The reviewer pairs of one pull request. */
  function PairsOf(rel: seq<Assignment>, id: PrId): (pairs: set<Assignment>)
    ensures forall b :: b in pairs <==> b in rel && b.pr == id
  {
    set b | b in rel && b.pr == id
  }

  predicate IsMerged(prs: seq<PrRow>, id: PrId)
  {
    FindRow(prs, id).Some? && FindRow(prs, id).value.status == Merged
  }

  /** Every pull request merged before keeps its row and its reviewers. */
  ghost predicate MergedFrozen(before: Store, after: Store)
  {
    forall id | IsMerged(before.prs, id) ::
      FindRow(after.prs, id) == FindRow(before.prs, id) && PairsOf(after.reviewers, id) == PairsOf(before.reviewers, id)
  }

  /** Every stored pull request is still stored, with the same author. */
  ghost predicate AuthorsKept(before: seq<PrRow>, after: seq<PrRow>)
  {
    forall q | FindRow(before, q).Some? ::
      FindRow(after, q).Some? && FindRow(after, q).value.authorId == FindRow(before, q).value.authorId
  }

  /** Every pair that was not there before names a stored pull request and
      a user who is not its author. */
  ghost predicate NewPairsSound(before: Store, after: Store)
  {
    forall a | a in after.reviewers && a !in before.reviewers ::
      FindRow(after.prs, a.pr).Some? && FindRow(after.prs, a.pr).value.authorId != a.user
  }

  /** What a write must show for the invariants to survive it: unique keys,
      no duplicate pair, authors kept, and sound new pairs. */
  lemma ValidAfter(st: Store, after: Store)
    requires Valid(st)
    requires UniqueUserIds(after.users) && UniquePrIds(after.prs) && Distinct(after.reviewers)
    requires AuthorsKept(st.prs, after.prs) && NewPairsSound(st, after)
    ensures Valid(after)
  {
  }

  /** A merged pull request whose row is unchanged keeps its pairs when no
      pair of it was added or removed. */
  lemma PairsUnchanged(before: seq<Assignment>, after: seq<Assignment>, q: PrId)
    requires forall b | b in after && b !in before :: b.pr != q
    requires forall b | b in before && b !in after :: b.pr != q
    ensures PairsOf(after, q) == PairsOf(before, q)
  {
  }

  /** Creating a pull request keeps the invariants: its new pairs all name
      the new pull request, whose row did not exist before, and none names
      its author. */
  lemma CreateKeepsValid(st: Store, pr: PullRequest, draw: nat -> nat, now: Time, dbNow: Time, faults: Faults)
    requires Valid(st)
    ensures Valid(PullRequestService.CreatePullRequest(st, pr, draw, now, dbNow, faults).store)
  {
    var after := PullRequestService.CreatePullRequest(st, pr, draw, now, dbNow, faults).store;
    if after != st {
      assert FindRow(st.prs, pr.id).None?;
      assert AuthorsKept(st.prs, after.prs);
      forall a | a in after.reviewers && a !in st.reviewers
        ensures FindRow(after.prs, a.pr).Some? && FindRow(after.prs, a.pr).value.authorId != a.user
      {
        var author := FindUser(st.users, pr.authorId).value;
        assert a.user in PullRequestService.Eligible(st, author);
      }
      ValidAfter(st, after);
    }
  }

  /** A write that only adds a row and pairs for an id that had no row
      leaves every merged pull request alone. */
  lemma FreshIdOnly(st: Store, after: Store, id: PrId)
    requires FindRow(st.prs, id).None?
    requires forall q | q != id :: FindRow(after.prs, q) == FindRow(st.prs, q)
    requires forall b | b in st.reviewers :: b in after.reviewers
    requires forall b | b in after.reviewers && b !in st.reviewers :: b.pr == id
    ensures MergedFrozen(st, after)
  {
    forall q | IsMerged(st.prs, q)
      ensures FindRow(after.prs, q) == FindRow(st.prs, q) && PairsOf(after.reviewers, q) == PairsOf(st.reviewers, q)
    {
      PairsUnchanged(st.reviewers, after.reviewers, q);
    }
  }

  lemma PrefixMembers<T>(a: seq<T>, b: seq<T>)
    requires a <= b
    ensures forall x | x in a :: x in b
  {
    forall x | x in a ensures x in b {
      var k :| 0 <= k < |a| && a[k] == x;
      assert b[k] == x;
    }
  }

  /** Creating a pull request leaves every merged one alone: the new row and
      pairs belong to an id that had no row. */
  lemma CreateKeepsMergedFrozen(st: Store, pr: PullRequest, draw: nat -> nat, now: Time, dbNow: Time, faults: Faults)
    requires Valid(st)
    ensures MergedFrozen(st, PullRequestService.CreatePullRequest(st, pr, draw, now, dbNow, faults).store)
  {
    var after := PullRequestService.CreatePullRequest(st, pr, draw, now, dbNow, faults).store;
    if after != st {
      PrefixMembers(st.reviewers, after.reviewers);
      FreshIdOnly(st, after, pr.id);
    }
  }

  /** Merging keeps the invariants: only the merged row changes, and it
      keeps its author. */
  lemma MergeKeepsValid(st: Store, id: PrId, now: Time, faults: Faults)
    requires Valid(st)
    ensures Valid(PullRequestService.MergePullRequest(st, id, now, faults).store)
  {
    var o := PullRequestService.MergePullRequest(st, id, now, faults);
    if o.store != st {
      forall q | FindRow(st.prs, q).Some?
        ensures FindRow(o.store.prs, q).Some? && FindRow(o.store.prs, q).value.authorId == FindRow(st.prs, q).value.authorId
      {
        if q == id {
          assert o.result.Success?;
        }
      }
      ValidAfter(st, o.store);
    }
  }

  /** Merging leaves a pull request merged before untouched. */
  lemma MergeKeepsMergedFrozen(st: Store, id: PrId, now: Time, faults: Faults)
    requires Valid(st)
    ensures MergedFrozen(st, PullRequestService.MergePullRequest(st, id, now, faults).store)
  {
  }

  /** Reassigning keeps the invariants: the new pair names a pull request
      that is stored and a user who is not its author. */
  lemma ReassignKeepsValid(st: Store, id: PrId, oldUser: UserId, pick: nat, faults: Faults)
    requires Valid(st)
    ensures Valid(PullRequestService.ReassignReviewer(st, id, oldUser, pick, faults).store)
  {
    var after := PullRequestService.ReassignReviewer(st, id, oldUser, pick, faults).store;
    forall a | a in after.reviewers && a !in st.reviewers
      ensures FindRow(after.prs, a.pr).Some? && FindRow(after.prs, a.pr).value.authorId != a.user
    {
      assert PullRequestService.MayReplace(st, id, oldUser, a.user);
    }
    ValidAfter(st, after);
  }

  /** Reassigning only adds and removes pairs of an open pull request. */
  lemma ReassignKeepsMergedFrozen(st: Store, id: PrId, oldUser: UserId, pick: nat, faults: Faults)
    requires Valid(st)
    ensures MergedFrozen(st, PullRequestService.ReassignReviewer(st, id, oldUser, pick, faults).store)
  {
    var after := PullRequestService.ReassignReviewer(st, id, oldUser, pick, faults).store;
    forall q | IsMerged(st.prs, q)
      ensures PairsOf(after.reviewers, q) == PairsOf(st.reviewers, q)
    {
      forall b | b in after.reviewers && b !in st.reviewers ensures b.pr != q {
        assert PullRequestService.MayReplace(st, id, oldUser, b.user);
      }
      PairsUnchanged(st.reviewers, after.reviewers, q);
    }
  }

  /** Changing a user's flag touches neither pull requests nor pairs. */
  lemma SetIsActiveKeepsInvariants(st: Store, id: UserId, active: bool, faults: Faults)
    requires Valid(st)
    ensures var after := UserService.SetIsActive(st, id, active, faults).store;
            Valid(after) && MergedFrozen(st, after)
  {
  }

  /** Creating a team touches neither pull requests nor pairs. */
  lemma CreateTeamKeepsInvariants(st: Store, team: Team, faults: Faults)
    requires Valid(st)
    ensures var after := TeamService.CreateTeam(st, team, faults).store;
            Valid(after) && MergedFrozen(st, after)
  {
  }

  /** Deactivating a team keeps the invariants and only removes pairs of
      open pull requests, so a merged one keeps its reviewers. */
  lemma DeactivateKeepsInvariants(st: Store, team: TeamName, faults: Faults)
    requires Valid(st)
    ensures var after := UserService.DeactivateTeamMembers(st, team, faults).store;
            Valid(after) && MergedFrozen(st, after)
  {
    var after := UserService.DeactivateTeamMembers(st, team, faults).store;
    forall q | IsMerged(st.prs, q)
      ensures PairsOf(after.reviewers, q) == PairsOf(st.reviewers, q)
    {
      assert !UserService.OpenRow(st.prs, q);
      PairsUnchanged(st.reviewers, after.reviewers, q);
    }
  }
}
