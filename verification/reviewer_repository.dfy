/** The `pull_request_reviewers` relation: a duplicate-free list of
    (pull request, user) pairs in `assigned_at` order. */
module ReviewerRepository {
  import opened Results
  import opened Seqs
  import opened Entity
  import opened Store

  /** `INSERT ... ON CONFLICT DO NOTHING`: a present pair is left alone, an
      absent one goes to the end. */
  function Insert(rel: seq<Assignment>, a: Assignment): (r: seq<Assignment>)
    ensures a in r
    ensures forall b | b in r :: b in rel || b == a
    ensures rel <= r
    ensures Distinct(rel) ==> Distinct(r)
  {
    if a in rel then rel else rel + [a]
  }

  /** `DELETE ... WHERE pull_request_id = $1 AND user_id = $2`. */
  function Delete(rel: seq<Assignment>, a: Assignment): (r: seq<Assignment>)
    ensures a !in r
    ensures forall b | b in r :: b in rel
    ensures forall b | b in rel && b != a :: b in r
    ensures Distinct(rel) ==> Distinct(r)
  {
    Without(rel, a)
  }

  /** The reviewers of `pr`, in assignment order. */
  function ReviewersOf(rel: seq<Assignment>, pr: PrId): (r: seq<UserId>)
    ensures forall u :: u in r <==> Assignment(pr, u) in rel
    ensures Distinct(rel) ==> Distinct(r)
  {
    if |rel| == 0 then []
    else (if rel[0].pr == pr then [rel[0].user] else []) + ReviewersOf(rel[1..], pr)
  }

  /** A pull request without pairs has no reviewers. */
  lemma {:induction false} ReviewersOfAbsent(rel: seq<Assignment>, pr: PrId)
    requires forall a | a in rel :: a.pr != pr
    ensures ReviewersOf(rel, pr) == []
  {
    if |rel| > 0 {
      assert rel[0] in rel;
      assert forall a | a in rel[1..] :: a in rel;
      ReviewersOfAbsent(rel[1..], pr);
    }
  }

  /** The users `u` whose pair with `pr` passes `keep`. */
  function AtPr(keep: Assignment -> bool, pr: PrId): UserId -> bool
  {
    u => keep(Assignment(pr, u))
  }

  /** Filtering the relation filters each pull request's reviewer list the
      same way and keeps its order. */
  lemma {:induction false} ReviewersOfFilter(rel: seq<Assignment>, keep: Assignment -> bool, pr: PrId)
    ensures ReviewersOf(Filter(rel, keep), pr) == Filter(ReviewersOf(rel, pr), AtPr(keep, pr))
  {
    if |rel| > 0 {
      ReviewersOfFilter(rel[1..], keep, pr);
      var head := if keep(rel[0]) then [rel[0]] else [];
      assert Filter(rel, keep) == head + Filter(rel[1..], keep);
      ReviewersOfConcat(head, Filter(rel[1..], keep), pr);
      var users := if rel[0].pr == pr then [rel[0].user] else [];
      FilterConcat(users, ReviewersOf(rel[1..], pr), AtPr(keep, pr));
      if keep(rel[0]) {
        assert head[1..] == [];
      }
      if rel[0].pr == pr {
        assert users[1..] == [];
        assert rel[0] == Assignment(pr, rel[0].user);
      }
    }
  }

  /** Assigning is idempotent: a second identical assignment changes nothing. */
  lemma InsertIdempotent(rel: seq<Assignment>, a: Assignment)
    ensures Insert(Insert(rel, a), a) == Insert(rel, a)
  {
  }

  lemma {:induction false} ReviewersOfConcat(a: seq<Assignment>, b: seq<Assignment>, pr: PrId)
    ensures ReviewersOf(a + b, pr) == ReviewersOf(a, pr) + ReviewersOf(b, pr)
  {
    if |a| == 0 {
      assert a + b == b;
    } else {
      var head := if a[0].pr == pr then [a[0].user] else [];
      var ab := a + b;
      assert ab[0] == a[0];
      assert ab[1..] == a[1..] + b;
      ReviewersOfConcat(a[1..], b, pr);
      calc {
        ReviewersOf(ab, pr);
        head + ReviewersOf(ab[1..], pr);
        head + (ReviewersOf(a[1..], pr) + ReviewersOf(b, pr));
        (head + ReviewersOf(a[1..], pr)) + ReviewersOf(b, pr);
        ReviewersOf(a, pr) + ReviewersOf(b, pr);
      }
    }
  }

  /** A new assignment appears last in the reviewer list of its own pull
      request and leaves every other list as it was. */
  lemma ReviewersAfterInsert(rel: seq<Assignment>, a: Assignment, pr: PrId)
    ensures ReviewersOf(Insert(rel, a), pr) ==
            if a.pr == pr && a !in rel then ReviewersOf(rel, pr) + [a.user] else ReviewersOf(rel, pr)
  {
    if a !in rel {
      ReviewersOfConcat(rel, [a], pr);
      assert ReviewersOf([a], pr) == ReviewersOf([a][1..], pr) + (if a.pr == pr then [a.user] else []) by {
        assert [a][1..] == [];
      }
    }
  }

  lemma ReviewersOfSingleton(x: Assignment, pr: PrId)
    ensures ReviewersOf([x], pr) == if x.pr == pr then [x.user] else []
  {
    assert [x][1..] == [];
  }

  lemma ReviewersAfterDeleteOne(x: Assignment, a: Assignment, pr: PrId)
    ensures ReviewersOf(Delete([x], a), pr) ==
            if a.pr == pr then Without(ReviewersOf([x], pr), a.user) else ReviewersOf([x], pr)
  {
    WithoutSingleton(x, a);
    ReviewersOfSingleton(x, pr);
    WithoutSingleton(x.user, a.user);
    if x == a {
      assert ReviewersOf([], pr) == [];
    }
  }

  /** Deleting a pair removes that user from that pull request's list, in
      place, and leaves every other list as it was. */
  lemma {:induction false} ReviewersAfterDelete(rel: seq<Assignment>, a: Assignment, pr: PrId)
    ensures ReviewersOf(Delete(rel, a), pr) ==
            if a.pr == pr then Without(ReviewersOf(rel, pr), a.user) else ReviewersOf(rel, pr)
  {
    if |rel| > 0 {
      var head, tail := [rel[0]], rel[1..];
      assert rel == head + tail;
      ReviewersAfterDelete(tail, a, pr);
      ReviewersAfterDeleteOne(rel[0], a, pr);
      WithoutConcat(head, tail, a);
      ReviewersOfConcat(Delete(head, a), Delete(tail, a), pr);
      ReviewersOfConcat(head, tail, pr);
      WithoutConcat(ReviewersOf(head, pr), ReviewersOf(tail, pr), a.user);
    }
  }

  /** `AssignReviewer`. */
  function AssignReviewer(st: Store, pr: PrId, user: UserId, faults: Faults): (o: Outcome<()>)
    ensures o.result.Failure? <==> faults(ReviewerInsert(pr, user))
    ensures o.result.Failure? ==> o.store == st
    ensures o.store.teams == st.teams && o.store.users == st.users && o.store.prs == st.prs
    ensures o.result.Success? ==> o.store.reviewers == Insert(st.reviewers, Assignment(pr, user))
  {
    if faults(ReviewerInsert(pr, user)) then Outcome(st, Failure(Wrap("assign reviewer", DbError("insert"))))
    else Outcome(st.(reviewers := Insert(st.reviewers, Assignment(pr, user))), Success(()))
  }

  /** `RemoveReviewer`: removing an absent pair succeeds and changes nothing. */
  function RemoveReviewer(st: Store, pr: PrId, user: UserId, faults: Faults): (o: Outcome<()>)
    ensures o.result.Failure? <==> faults(ReviewerDelete(pr, user))
    ensures o.result.Failure? ==> o.store == st
    ensures o.store.teams == st.teams && o.store.users == st.users && o.store.prs == st.prs
    ensures o.result.Success? ==> o.store.reviewers == Delete(st.reviewers, Assignment(pr, user))
    ensures Assignment(pr, user) !in st.reviewers ==> o.store == st
  {
    if faults(ReviewerDelete(pr, user)) then Outcome(st, Failure(Wrap("remove reviewer", DbError("delete"))))
    else
      WithoutUnchanged(st.reviewers, Assignment(pr, user));
      Outcome(st.(reviewers := Delete(st.reviewers, Assignment(pr, user))), Success(()))
  }

  /** `GetReviewers`: the user ids paired with `pr`, oldest assignment first. */
  function GetReviewers(st: Store, pr: PrId, faults: Faults): (r: Result<seq<UserId>, Error>)
    ensures r.Failure? <==> faults(ReviewerSelect(pr))
    ensures r.Success? ==> forall u :: u in r.value <==> Assignment(pr, u) in st.reviewers
    ensures r.Success? && Distinct(st.reviewers) ==> Distinct(r.value)
  {
    if faults(ReviewerSelect(pr)) then Failure(Wrap("get reviewers", DbError("select")))
    else Success(ReviewersOf(st.reviewers, pr))
  }

  /** `IsAssigned`: the EXISTS query agrees with the reviewer list. */
  function IsAssigned(st: Store, pr: PrId, user: UserId, faults: Faults): (r: Result<bool, Error>)
    ensures r.Failure? <==> faults(ReviewerExistsQuery(pr, user))
    ensures r.Success? ==> (r.value <==> user in ReviewersOf(st.reviewers, pr))
  {
    if faults(ReviewerExistsQuery(pr, user)) then Failure(Wrap("check is assigned", DbError("select")))
    else Success(Assignment(pr, user) in st.reviewers)
  }

  /** The statements of the replace transaction that can fail. */
  predicate ReplaceFails(pr: PrId, from: UserId, to: UserId, faults: Faults)
  {
    || faults(ReviewerReplaceTx(pr, BeginTx))
    || faults(ReviewerReplaceDelete(pr, from))
    || faults(ReviewerReplaceInsert(pr, to))
    || faults(ReviewerReplaceTx(pr, CommitTx))
  }

  /** `ReplaceReviewer`: delete then insert in one transaction; when any
      step fails the transaction is rolled back and nothing changes. */
  function ReplaceReviewer(st: Store, pr: PrId, from: UserId, to: UserId, faults: Faults): (o: Outcome<()>)
    ensures o.result.Failure? <==> ReplaceFails(pr, from, to, faults)
    ensures o.result.Failure? ==> o.store == st
    ensures o.store.teams == st.teams && o.store.users == st.users && o.store.prs == st.prs
    ensures o.result.Success? ==>
              && Assignment(pr, to) in o.store.reviewers
              && (from != to ==> Assignment(pr, from) !in o.store.reviewers)
              && (forall b | b in o.store.reviewers :: b in st.reviewers || b == Assignment(pr, to))
              && (forall b | b in st.reviewers && b != Assignment(pr, from) :: b in o.store.reviewers)
    ensures Distinct(st.reviewers) ==> Distinct(o.store.reviewers)
  {
    if faults(ReviewerReplaceTx(pr, BeginTx)) then
      Outcome(st, Failure(Wrap("begin transaction", DbError("begin"))))
    else if faults(ReviewerReplaceDelete(pr, from)) then
      Outcome(st, Failure(Wrap("remove old reviewer", DbError("delete"))))
    else if faults(ReviewerReplaceInsert(pr, to)) then
      Outcome(st, Failure(Wrap("assign new reviewer", DbError("insert"))))
    else if faults(ReviewerReplaceTx(pr, CommitTx)) then
      Outcome(st, Failure(Wrap("commit transaction", DbError("commit"))))
    else
      var removed := Delete(st.reviewers, Assignment(pr, from));
      Outcome(st.(reviewers := Insert(removed, Assignment(pr, to))), Success(()))
  }

  /** When nothing fails, replacing is exactly `RemoveReviewer` followed by
      `AssignReviewer`. */
  lemma ReplaceIsRemoveThenAssign(st: Store, pr: PrId, from: UserId, to: UserId, faults: Faults)
    requires NoFaults(faults)
    ensures ReplaceReviewer(st, pr, from, to, faults) ==
            AssignReviewer(RemoveReviewer(st, pr, from, faults).store, pr, to, faults)
  {
    assert !faults(ReviewerReplaceTx(pr, BeginTx)) && !faults(ReviewerReplaceDelete(pr, from));
    assert !faults(ReviewerReplaceInsert(pr, to)) && !faults(ReviewerReplaceTx(pr, CommitTx));
    assert !faults(ReviewerDelete(pr, from)) && !faults(ReviewerInsert(pr, to));
  }

  /** After a successful replace of an assigned reviewer by an unassigned
      one, the stored list of that pull request has the old reviewer removed
      in place and the new one appended last; other lists are unchanged. */
  lemma ReviewersAfterReplace(st: Store, pr: PrId, from: UserId, to: UserId, faults: Faults, q: PrId)
    requires !ReplaceFails(pr, from, to, faults)
    requires Assignment(pr, to) !in st.reviewers && from != to
    ensures ReviewersOf(ReplaceReviewer(st, pr, from, to, faults).store.reviewers, q) ==
            if q == pr then Without(ReviewersOf(st.reviewers, pr), from) + [to]
            else ReviewersOf(st.reviewers, q)
  {
    var removed := Delete(st.reviewers, Assignment(pr, from));
    ReviewersAfterDelete(st.reviewers, Assignment(pr, from), q);
    ReviewersAfterInsert(removed, Assignment(pr, to), q);
  }
}
