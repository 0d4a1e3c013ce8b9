/** The `pull_requests` table. A stored row carries no reviewers: they are
    read from the reviewer relation whenever a pull request is loaded. */
module PullRequestRepository {
  import opened Results
  import opened Seqs
  import opened Entity
  import opened Store
  import ReviewerRepository

  /** A loaded pull request: the row plus its reviewers in assignment order. */
  function Hydrate(row: PrRow, rel: seq<Assignment>): (pr: PullRequest)
    ensures pr.createdAt.Some? && Dehydrate(pr) == row
  {
    PullRequest(row.id, row.name, row.authorId, row.status,
                ReviewerRepository.ReviewersOf(rel, row.id), Some(row.createdAt), row.mergedAt)
  }

  /** The row a loaded pull request came from. */
  function Dehydrate(pr: PullRequest): PrRow
    requires pr.createdAt.Some?
  {
    PrRow(pr.id, pr.name, pr.authorId, pr.status, pr.createdAt.value, pr.mergedAt)
  }

  function HydrateAll(rows: seq<PrRow>, rel: seq<Assignment>): (prs: seq<PullRequest>)
    ensures |prs| == |rows|
    ensures forall i | 0 <= i < |rows| :: prs[i] == Hydrate(rows[i], rel)
  {
    seq(|rows|, i requires 0 <= i < |rows| => Hydrate(rows[i], rel))
  }

  /** Pull requests listed by id at most once. */
  predicate UniqueIds(prs: seq<PullRequest>)
  {
    forall i, j | 0 <= i < j < |prs| :: prs[i].id != prs[j].id
  }

  /** `ORDER BY created_at DESC` on rows. */
  predicate NewestFirstOrder(rows: seq<PrRow>)
  {
    forall i, j | 0 <= i < j < |rows| :: rows[i].createdAt >= rows[j].createdAt
  }

  /** `ORDER BY created_at DESC` on loaded pull requests. */
  predicate NewestFirstLoaded(prs: seq<PullRequest>)
  {
    && (forall i | 0 <= i < |prs| :: prs[i].createdAt.Some?)
    && (forall i, j | 0 <= i < j < |prs| :: prs[i].createdAt.value >= prs[j].createdAt.value)
  }

  function InsertByTime(row: PrRow, sorted: seq<PrRow>): (r: seq<PrRow>)
    requires NewestFirstOrder(sorted)
    ensures NewestFirstOrder(r)
    ensures multiset(r) == multiset(sorted) + multiset{row}
    ensures forall x | x in r :: x == row || x in sorted
  {
    if |sorted| == 0 || row.createdAt >= sorted[0].createdAt then [row] + sorted
    else
      var head, tail := sorted[0], sorted[1..];
      assert sorted == [head] + tail;
      HeadIsNewest(sorted);
      var rest := InsertByTime(row, tail);
      PrependNewest(head, rest);
      [head] + rest
  }

  lemma HeadIsNewest(rows: seq<PrRow>)
    requires NewestFirstOrder(rows) && |rows| > 0
    ensures forall x | x in rows[1..] :: rows[0].createdAt >= x.createdAt
  {
    forall x | x in rows[1..] ensures rows[0].createdAt >= x.createdAt {
      var k :| 0 <= k < |rows[1..]| && rows[1..][k] == x;
      assert rows[k + 1] == x;
    }
  }

  lemma PrependNewest(head: PrRow, rows: seq<PrRow>)
    requires NewestFirstOrder(rows)
    requires forall x | x in rows :: head.createdAt >= x.createdAt
    ensures NewestFirstOrder([head] + rows)
  {
    var r := [head] + rows;
    forall i, j | 0 <= i < j < |r| ensures r[i].createdAt >= r[j].createdAt {
      assert r[j] == rows[j - 1];
      if i > 0 {
        assert r[i] == rows[i - 1];
      }
    }
  }

  lemma {:induction false} InsertByTimeUnique(row: PrRow, sorted: seq<PrRow>)
    requires NewestFirstOrder(sorted) && UniquePrIds(sorted)
    requires forall x | x in sorted :: x.id != row.id
    ensures UniquePrIds(InsertByTime(row, sorted))
  {
    if !(|sorted| == 0 || row.createdAt >= sorted[0].createdAt) {
      assert sorted == [sorted[0]] + sorted[1..];
      InsertByTimeUnique(row, sorted[1..]);
      var rest := InsertByTime(row, sorted[1..]);
      var r := [sorted[0]] + rest;
      assert r == InsertByTime(row, sorted);
      assert r[1..] == rest;
      assert forall x | x in rest :: x.id != sorted[0].id;
    }
  }

  /** A stable sort, newest first; rows with equal times keep table order. */
  function NewestFirst(rows: seq<PrRow>): (r: seq<PrRow>)
    ensures NewestFirstOrder(r)
    ensures multiset(r) == multiset(rows)
    ensures forall x | x in r :: x in rows
    ensures forall x | x in rows :: x in r
  {
    if |rows| == 0 then []
    else
      assert rows == [rows[0]] + rows[1..];
      var r := InsertByTime(rows[0], NewestFirst(rows[1..]));
      assert forall x | x in rows :: x in multiset(r);
      r
  }

  lemma {:induction false} NewestFirstUnique(rows: seq<PrRow>)
    ensures UniquePrIds(rows) ==> UniquePrIds(NewestFirst(rows))
  {
    if |rows| > 0 && UniquePrIds(rows) {
      assert rows == [rows[0]] + rows[1..];
      NewestFirstUnique(rows[1..]);
      InsertByTimeUnique(rows[0], NewestFirst(rows[1..]));
    }
  }

  /** Filtering keeps ids unique: the survivors are distinct rows of the
      table, and two distinct rows of the table never share an id. */
  lemma FilterKeepsUniqueIds(rows: seq<PrRow>, keep: PrRow -> bool)
    ensures UniquePrIds(rows) ==> UniquePrIds(Filter(rows, keep))
  {
    if UniquePrIds(rows) {
      assert Distinct(rows);
      FilterDistinct(rows, keep);
      var r := Filter(rows, keep);
      forall i, j | 0 <= i < j < |r| ensures r[i].id != r[j].id {
        assert r[i] != r[j];
        assert r[i] in rows && r[j] in rows;
        var a :| 0 <= a < |rows| && rows[a] == r[i];
        var b :| 0 <= b < |rows| && rows[b] == r[j];
        assert a != b;
      }
    }
  }

  /** Loading keeps the order, the ids and the rows: each loaded pull
      request comes from one of the rows and each row is loaded. */
  lemma LoadedRows(rows: seq<PrRow>, rel: seq<Assignment>)
    requires NewestFirstOrder(rows)
    ensures NewestFirstLoaded(HydrateAll(rows, rel))
    ensures UniquePrIds(rows) ==> UniqueIds(HydrateAll(rows, rel))
    ensures forall p | p in HydrateAll(rows, rel) ::
              p.createdAt.Some? && Dehydrate(p) in rows
              && p.assignedReviewers == ReviewerRepository.ReviewersOf(rel, p.id)
    ensures forall row | row in rows :: Hydrate(row, rel) in HydrateAll(rows, rel)
  {
    var loaded := HydrateAll(rows, rel);
    forall row | row in rows ensures Hydrate(row, rel) in loaded {
      var i :| 0 <= i < |rows| && rows[i] == row;
      assert loaded[i] == Hydrate(row, rel);
    }
  }

  /** `UPDATE pull_requests SET pull_request_name, status, merged_at`: every
      row with that id takes the three fields; author and creation time stay. */
  function UpdateRows(prs: seq<PrRow>, pr: PullRequest): (r: seq<PrRow>)
    ensures |r| == |prs|
    ensures forall i | 0 <= i < |prs| :: r[i].id == prs[i].id && r[i].authorId == prs[i].authorId
                                          && r[i].createdAt == prs[i].createdAt
    ensures FindRow(r, pr.id) ==
              if FindRow(prs, pr.id).Some?
              then Some(FindRow(prs, pr.id).value.(name := pr.name, status := pr.status, mergedAt := pr.mergedAt))
              else None
    ensures forall id | id != pr.id :: FindRow(r, id) == FindRow(prs, id)
  {
    if |prs| == 0 then []
    else
      var rest := UpdateRows(prs[1..], pr);
      var head := if prs[0].id == pr.id
                  then prs[0].(name := pr.name, status := pr.status, mergedAt := pr.mergedAt)
                  else prs[0];
      var r := [head] + rest;
      assert r[1..] == rest;
      r
  }

  /** `Create`: inserts the row with the repository's own clock `dbNow` as
      `created_at`; the `CreatedAt` of the argument is not stored. A taken
      id violates the primary key. */
  function Create(st: Store, pr: PullRequest, dbNow: Time, faults: Faults): (o: Outcome<()>)
    ensures o.result.Failure? ==> o.store == st && KindOf(o.result.error).None?
    ensures o.result.Success? <==> !faults(PrInsert(pr.id)) && FindRow(st.prs, pr.id).None?
    ensures o.store.teams == st.teams && o.store.users == st.users && o.store.reviewers == st.reviewers
    ensures o.result.Success? ==>
              FindRow(o.store.prs, pr.id) == Some(PrRow(pr.id, pr.name, pr.authorId, pr.status, dbNow, pr.mergedAt))
    ensures forall id | id != pr.id :: FindRow(o.store.prs, id) == FindRow(st.prs, id)
    ensures UniquePrIds(st.prs) ==> UniquePrIds(o.store.prs)
  {
    if faults(PrInsert(pr.id)) then Outcome(st, Failure(Wrap("create pull request", DbError("insert"))))
    else if FindRow(st.prs, pr.id).Some? then
      Outcome(st, Failure(Wrap("create pull request", DbError("duplicate key"))))
    else
      var row := PrRow(pr.id, pr.name, pr.authorId, pr.status, dbNow, pr.mergedAt);
      AppendedFindRow(st.prs, row);
      Outcome(st.(prs := st.prs + [row]), Success(()))
  }

  lemma {:induction false} AppendedFindRow(prs: seq<PrRow>, row: PrRow)
    requires FindRow(prs, row.id).None?
    ensures FindRow(prs + [row], row.id) == Some(row)
    ensures forall id | id != row.id :: FindRow(prs + [row], id) == FindRow(prs, id)
  {
    if |prs| > 0 {
      AppendedFindRow(prs[1..], row);
      assert (prs + [row])[1..] == prs[1..] + [row];
    } else {
      assert FindRow([row], row.id) == Some(row);
      forall id | id != row.id ensures FindRow([row], id) == None {
        assert [row][1..] == [];
      }
    }
  }

  /** `GetByID`: an absent id is `ErrPRNotFound`; otherwise the stored row
      with the reviewers read from the relation. */
  function GetByID(st: Store, id: PrId, faults: Faults): (r: Result<PullRequest, Error>)
    ensures faults(PrSelect(id)) ==> r.Failure? && KindOf(r.error).None?
    ensures !faults(PrSelect(id)) ==> (r == Failure(Sentinel(PRNotFound)) <==> FindRow(st.prs, id).None?)
    ensures r.Success? <==> !faults(PrSelect(id)) && FindRow(st.prs, id).Some? && !faults(ReviewerSelect(id))
    ensures r.Success? ==> r.value == Hydrate(FindRow(st.prs, id).value, st.reviewers)
    ensures r.Failure? && r.error != Sentinel(PRNotFound) ==> KindOf(r.error).None?
  {
    if faults(PrSelect(id)) then Failure(Wrap("get pull request by id", DbError("select")))
    else if FindRow(st.prs, id).None? then Failure(Sentinel(PRNotFound))
    else
      var reviewers := ReviewerRepository.GetReviewers(st, id, faults);
      if reviewers.Failure? then Failure(Wrap("get reviewers", reviewers.error))
      else Success(Hydrate(FindRow(st.prs, id).value, st.reviewers))
  }

  /** `Update`: rewrites only name, status and merged_at; author, creation
      time and reviewers are never written. An absent id is `ErrPRNotFound`. */
  function Update(st: Store, pr: PullRequest, faults: Faults): (o: Outcome<()>)
    ensures o.result.Failure? ==> o.store == st
    ensures o.store.teams == st.teams && o.store.users == st.users && o.store.reviewers == st.reviewers
    ensures !faults(PrUpdate(pr.id)) ==> (o.result == Failure(Sentinel(PRNotFound)) <==> FindRow(st.prs, pr.id).None?)
    ensures o.result.Success? <==> !faults(PrUpdate(pr.id)) && FindRow(st.prs, pr.id).Some?
    ensures o.result.Success? ==>
              var before := FindRow(st.prs, pr.id).value;
              FindRow(o.store.prs, pr.id) ==
                Some(PrRow(pr.id, pr.name, before.authorId, pr.status, before.createdAt, pr.mergedAt))
    ensures forall id | id != pr.id :: FindRow(o.store.prs, id) == FindRow(st.prs, id)
    ensures |o.store.prs| == |st.prs|
    ensures forall i | 0 <= i < |st.prs| :: o.store.prs[i].id == st.prs[i].id && o.store.prs[i].authorId == st.prs[i].authorId
  {
    if faults(PrUpdate(pr.id)) then Outcome(st, Failure(Wrap("update pull request", DbError("update"))))
    else if FindRow(st.prs, pr.id).None? then Outcome(st, Failure(Sentinel(PRNotFound)))
    else Outcome(st.(prs := UpdateRows(st.prs, pr)), Success(()))
  }

  /** `Exists`: true exactly when a row with that id is stored. */
  function Exists(st: Store, id: PrId, faults: Faults): (r: Result<bool, Error>)
    ensures r.Failure? <==> faults(PrExistsQuery(id))
    ensures r.Failure? ==> KindOf(r.error).None?
    ensures r.Success? ==> (r.value <==> exists row | row in st.prs :: row.id == id)
  {
    if faults(PrExistsQuery(id)) then Failure(Wrap("check pr exists", DbError("select")))
    else Success(FindRow(st.prs, id).Some?)
  }

  /** Loads every row, failing when the reviewer read of any of them fails. */
  function LoadAll(st: Store, rows: seq<PrRow>, faults: Faults): (r: Result<seq<PullRequest>, Error>)
    ensures r.Success? ==> r.value == HydrateAll(rows, st.reviewers)
    ensures r.Failure? ==> KindOf(r.error).None?
    ensures NoFaults(faults) ==> r.Success?
  {
    if exists row | row in rows :: faults(ReviewerSelect(row.id)) then
      Failure(Wrap("get reviewers", DbError("select")))
    else Success(HydrateAll(rows, st.reviewers))
  }

  /** `GetByReviewer`: every pull request of any status that `user` reviews,
      each once, newest first. */
  function GetByReviewer(st: Store, user: UserId, faults: Faults): (r: Result<seq<PullRequest>, Error>)
    ensures r.Failure? ==> KindOf(r.error).None?
    ensures faults(PrSelectByReviewer(user)) ==> r.Failure?
    ensures NoFaults(faults) ==> r.Success?
    ensures r.Success? ==>
              forall p | p in r.value ::
                && p.createdAt.Some? && Dehydrate(p) in st.prs
                && p.assignedReviewers == ReviewerRepository.ReviewersOf(st.reviewers, p.id)
                && user in p.assignedReviewers
    ensures r.Success? ==>
              forall row | row in st.prs && Assignment(row.id, user) in st.reviewers ::
                Hydrate(row, st.reviewers) in r.value
    ensures r.Success? ==> NewestFirstLoaded(r.value)
    ensures r.Success? && UniquePrIds(st.prs) ==> UniqueIds(r.value)
  {
    if faults(PrSelectByReviewer(user)) then Failure(Wrap("get prs by reviewer", DbError("select")))
    else
      var keep := (row: PrRow) => Assignment(row.id, user) in st.reviewers;
      var matching := Filter(st.prs, keep);
      var rows := NewestFirst(matching);
      FilterKeepsUniqueIds(st.prs, keep);
      NewestFirstUnique(matching);
      LoadedRows(rows, st.reviewers);
      LoadAll(st, rows, faults)
  }

  /** `GetOpenPRsByReviewers`: every OPEN pull request reviewed by at least
      one of `users`, each once, newest first; no users, no pull requests. */
  function GetOpenPRsByReviewers(st: Store, users: seq<UserId>, faults: Faults): (r: Result<seq<PullRequest>, Error>)
    ensures r.Failure? ==> KindOf(r.error).None?
    ensures |users| == 0 ==> r == Success([])
    ensures |users| > 0 && faults(PrSelectOpenByReviewers) ==> r.Failure?
    ensures NoFaults(faults) ==> r.Success?
    ensures r.Success? ==>
              forall p | p in r.value ::
                && p.createdAt.Some? && Dehydrate(p) in st.prs && p.status == Open
                && p.assignedReviewers == ReviewerRepository.ReviewersOf(st.reviewers, p.id)
                && exists v | v in users :: v in p.assignedReviewers
    ensures r.Success? ==>
              forall row | row in st.prs && row.status == Open
                           && (exists v | v in users :: Assignment(row.id, v) in st.reviewers) ::
                Hydrate(row, st.reviewers) in r.value
    ensures r.Success? ==> NewestFirstLoaded(r.value)
    ensures r.Success? && UniquePrIds(st.prs) ==> UniqueIds(r.value)
  {
    if |users| == 0 then Success([])
    else if faults(PrSelectOpenByReviewers) then Failure(Wrap("get open prs by reviewers", DbError("select")))
    else
      var keep := (row: PrRow) => row.status == Open && exists v | v in users :: Assignment(row.id, v) in st.reviewers;
      var matching := Filter(st.prs, keep);
      var rows := NewestFirst(matching);
      FilterKeepsUniqueIds(st.prs, keep);
      NewestFirstUnique(matching);
      LoadedRows(rows, st.reviewers);
      LoadAll(st, rows, faults)
  }
}
