/** The read-only views of caselookup/views.py: search, status and history of
    a case number across the Active, Complete and Reviewed tables.  All three
    sit behind `role_required('Lead')` and change nothing. */
module CaseLookup {
  import opened Common
  import opened Records
  import opened Roles

  predicate SortedByReviewTime(s: seq<Row<ReviewedClaim>>)
  {
    forall i, j :: 0 <= i < j < |s| ==> s[i].rec.reviewTime <= s[j].rec.reviewTime
  }

  /** Insert `x` into a sorted sequence after every row reviewed no later. */
  function InsertByReviewTime(x: Row<ReviewedClaim>, s: seq<Row<ReviewedClaim>>): (r: seq<Row<ReviewedClaim>>)
    requires SortedByReviewTime(s)
    ensures SortedByReviewTime(r)
    ensures multiset(r) == multiset(s) + multiset{x}
  {
    if |s| == 0 then [x]
    else if x.rec.reviewTime < s[0].rec.reviewTime then [x] + s
    else
      var rest := InsertByReviewTime(x, s[1..]);
      InsertBehindHead(x, s, rest);
      [s[0]] + rest
  }

  /** The recursive step of the insertion: the head of `s` goes in front of
      the insertion into the tail. */
  lemma InsertBehindHead(x: Row<ReviewedClaim>, s: seq<Row<ReviewedClaim>>, rest: seq<Row<ReviewedClaim>>)
    requires SortedByReviewTime(s) && |s| > 0 && s[0].rec.reviewTime <= x.rec.reviewTime
    requires SortedByReviewTime(rest) && multiset(rest) == multiset(s[1..]) + multiset{x}
    ensures SortedByReviewTime([s[0]] + rest)
    ensures multiset([s[0]] + rest) == multiset(s) + multiset{x}
  {
    assert s == [s[0]] + s[1..];
    forall k | 0 <= k < |rest| ensures s[0].rec.reviewTime <= rest[k].rec.reviewTime {
      assert rest[k] in multiset(rest);
      if rest[k] != x {
        assert rest[k] in multiset(s[1..]);
        var j :| 0 <= j < |s[1..]| && s[1..][j] == rest[k];
        assert s[j + 1] == rest[k];
      }
    }
    var r := [s[0]] + rest;
    forall i, j | 0 <= i < j < |r| ensures r[i].rec.reviewTime <= r[j].rec.reviewTime {
      if i > 0 {
        assert r[i] == rest[i - 1] && r[j] == rest[j - 1];
      } else {
        assert r[j] == rest[j - 1];
      }
    }
  }

  /** `.order_by('review_time')`: the rows ascending by review time. */
  function SortByReviewTime(s: seq<Row<ReviewedClaim>>): (r: seq<Row<ReviewedClaim>>)
    ensures SortedByReviewTime(r)
    ensures multiset(r) == multiset(s)
    ensures |r| == |s|
  {
    if |s| == 0 then []
    else
      assert s == s[..|s| - 1] + [s[|s| - 1]];
      var r := InsertByReviewTime(s[|s| - 1], SortByReviewTime(s[..|s| - 1]));
      assert |r| == |multiset(r)| == |multiset(s)| == |s|;
      r
  }

  /** The last row of a sorted sequence has the greatest review time. */
  lemma SortedLastIsMax(sorted: seq<Row<ReviewedClaim>>, x: Row<ReviewedClaim>)
    requires SortedByReviewTime(sorted) && x in sorted
    ensures x.rec.reviewTime <= sorted[|sorted| - 1].rec.reviewTime
  {
    var j :| 0 <= j < |sorted| && sorted[j] == x;
  }

  /** `.order_by('-review_time').first()`: a row of the greatest review time. */
  function Latest(rows: seq<Row<ReviewedClaim>>): (r: Row<ReviewedClaim>)
    requires |rows| > 0
    ensures r in rows
    ensures forall i :: 0 <= i < |rows| ==> rows[i].rec.reviewTime <= r.rec.reviewTime
  {
    var sorted := SortByReviewTime(rows);
    assert forall x :: x in rows <==> x in sorted by {
      forall x ensures x in rows <==> x in sorted {
        assert x in rows <==> x in multiset(rows);
        assert x in sorted <==> x in multiset(sorted);
      }
    }
    assert forall i :: 0 <= i < |rows| ==> rows[i].rec.reviewTime <= sorted[|sorted| - 1].rec.reviewTime by {
      forall i | 0 <= i < |rows| ensures rows[i].rec.reviewTime <= sorted[|sorted| - 1].rec.reviewTime {
        SortedLastIsMax(sorted, rows[i]);
      }
    }
    sorted[|sorted| - 1]
  }

  /** What `search_case` found, and where. */
  datatype Found =
    | ActiveHit(claim: ActiveClaim)
    | CompleteHit(row: Row<CompleteClaim>)
    | ReviewedHit(latest: Row<ReviewedClaim>, totalReviews: nat)

  /** `search_case`: the Active table first, then Complete, then the latest
      Reviewed row with the number of reviews.  Each `objects.get` raises on
      more than one row, which the view does not catch (500). */
  function SearchCase(db: Db, caller: User, casenum: CaseNum): (r: Response<Found>)
    ensures r.Forbidden? <==> !RoleRequired(caller.groups, LEAD)
    ensures r.NotFound? <==>
              && RoleRequired(caller.groups, LEAD)
              && !HasActive(db.active, casenum)
              && |CompleteFor(db.complete, casenum)| == 0
              && |ReviewedFor(db.reviewed, casenum)| == 0
    ensures r.Ok? || r.Forbidden? || r.NotFound? || r.ServerError?
    ensures r.Ok? && r.body.ActiveHit? ==>
              r.body.claim.casenum == casenum && r.body.claim in db.active
    ensures r.Ok? && r.body.CompleteHit? ==>
              !HasActive(db.active, casenum) && CompleteFor(db.complete, casenum) == [r.body.row]
    ensures r.Ok? && r.body.ReviewedHit? ==>
              && !HasActive(db.active, casenum)
              && |CompleteFor(db.complete, casenum)| == 0
              && r.body.totalReviews == |ReviewedFor(db.reviewed, casenum)|
              && r.body.latest in ReviewedFor(db.reviewed, casenum)
              && forall i :: 0 <= i < |ReviewedFor(db.reviewed, casenum)| ==>
                   ReviewedFor(db.reviewed, casenum)[i].rec.reviewTime <= r.body.latest.rec.reviewTime
  {
    HasActiveIffFiltered(db.active, casenum);
    var active := ActiveFor(db.active, casenum);
    var complete := CompleteFor(db.complete, casenum);
    var reviewed := ReviewedFor(db.reviewed, casenum);
    if !RoleRequired(caller.groups, LEAD) then Forbidden
    else if |active| > 1 then ServerError
    else if |active| == 1 then
      WhereHas(db.active, ActiveOf(casenum), active[0]);
      Ok(ActiveHit(active[0]))
    else if |complete| > 1 then ServerError
    else if |complete| == 1 then Ok(CompleteHit(complete[0]))
    else if |reviewed| > 0 then Ok(ReviewedHit(Latest(reviewed), |reviewed|))
    else NotFound
  }

  /** On a valid store, an active claim of the case is always what search
      reports, whatever the other tables hold. */
  lemma SearchPrefersActive(db: Db, caller: User, casenum: CaseNum)
    requires Valid(db) && RoleRequired(caller.groups, LEAD) && HasActive(db.active, casenum)
    ensures |ActiveFor(db.active, casenum)| == 1
    ensures SearchCase(db, caller, casenum) == Ok(ActiveHit(ActiveFor(db.active, casenum)[0]))
  {
    HasActiveIffFiltered(db.active, casenum);
    ActiveForAtMostOne(db.active, casenum);
  }

  /** Search fails with 500 exactly when a lookup by case number meets
      several rows: only possible in the Complete table on a valid store. */
  lemma SearchServerError(db: Db, caller: User, casenum: CaseNum)
    requires Valid(db) && RoleRequired(caller.groups, LEAD)
    ensures SearchCase(db, caller, casenum).ServerError? <==>
              !HasActive(db.active, casenum) && |CompleteFor(db.complete, casenum)| > 1
  {
    HasActiveIffFiltered(db.active, casenum);
    ActiveForAtMostOne(db.active, casenum);
  }

  /** What `get_case_status` reports. */
  datatype CaseStatus =
    | ActiveStatus(claimedBy: UserId)
    | CompleteStatus(reviewingLead: Option<UserId>)
    | ReviewedStatus(reviewStatus: string)

  /** `get_case_status`: the same priority as search; the Complete stage
      names the reviewing lead only when one is set. */
  function GetCaseStatus(db: Db, caller: User, casenum: CaseNum): (r: Response<CaseStatus>)
    ensures r.Forbidden? <==> !RoleRequired(caller.groups, LEAD)
    ensures r.NotFound? <==>
              && RoleRequired(caller.groups, LEAD)
              && !HasActive(db.active, casenum)
              && |CompleteFor(db.complete, casenum)| == 0
              && |ReviewedFor(db.reviewed, casenum)| == 0
    ensures r.Ok? || r.Forbidden? || r.NotFound? || r.ServerError?
  {
    HasActiveIffFiltered(db.active, casenum);
    var active := ActiveFor(db.active, casenum);
    var complete := CompleteFor(db.complete, casenum);
    var reviewed := ReviewedFor(db.reviewed, casenum);
    if !RoleRequired(caller.groups, LEAD) then Forbidden
    else if |active| > 0 then
      (if |active| > 1 then ServerError else Ok(ActiveStatus(active[0].user)))
    else if |complete| > 0 then
      (if |complete| > 1 then ServerError else Ok(CompleteStatus(complete[0].rec.lead)))
    else if |reviewed| > 0 then Ok(ReviewedStatus(Latest(reviewed).rec.status))
    else NotFound
  }

  /** Status is search with less detail: the same outcome, the same stage,
      the claim's owner, the reviewing lead and the latest review status. */
  lemma StatusAgreesWithSearch(db: Db, caller: User, casenum: CaseNum)
    ensures var s := SearchCase(db, caller, casenum);
            var t := GetCaseStatus(db, caller, casenum);
            && (s.Ok? <==> t.Ok?) && (s.Forbidden? <==> t.Forbidden?)
            && (s.NotFound? <==> t.NotFound?) && (s.ServerError? <==> t.ServerError?)
            && (s.Ok? && s.body.ActiveHit? ==> t.body == ActiveStatus(s.body.claim.user))
            && (s.Ok? && s.body.CompleteHit? ==> t.body == CompleteStatus(s.body.row.rec.lead))
            && (s.Ok? && s.body.ReviewedHit? ==> t.body == ReviewedStatus(s.body.latest.rec.status))
  {
  }

  /** One entry of the history timeline. */
  datatype Entry =
    | ActiveStage(claim: ActiveClaim)
    | CompleteStage(row: Row<CompleteClaim>)
    | ReviewedStage(review: Row<ReviewedClaim>)

  /** Timeline order: active, then complete, then reviews by review time. */
  function Rank(e: Entry): nat
  {
    match e
    case ActiveStage(_) => 0
    case CompleteStage(_) => 1
    case ReviewedStage(_) => 2
  }

  predicate InOrder(e: Entry, f: Entry)
  {
    Rank(e) < Rank(f) ||
    (e.ReviewedStage? && f.ReviewedStage? && e.review.rec.reviewTime <= f.review.rec.reviewTime)
  }

  predicate Ordered(t: seq<Entry>)
  {
    forall i, j :: 0 <= i < j < |t| ==> InOrder(t[i], t[j])
  }

  function ReviewedStages(rows: seq<Row<ReviewedClaim>>): (t: seq<Entry>)
    ensures |t| == |rows|
    ensures forall i :: 0 <= i < |rows| ==> t[i] == ReviewedStage(rows[i])
  {
    seq(|rows|, i requires 0 <= i < |rows| => ReviewedStage(rows[i]))
  }

  /** The reviews recorded in a timeline, in timeline order. */
  function Reviews(t: seq<Entry>): seq<Row<ReviewedClaim>>
  {
    if |t| == 0 then []
    else (if t[0].ReviewedStage? then [t[0].review] else []) + Reviews(t[1..])
  }

  lemma {:induction false} ReviewsOfStages(head: seq<Entry>, rows: seq<Row<ReviewedClaim>>)
    requires forall i :: 0 <= i < |head| ==> !head[i].ReviewedStage?
    ensures Reviews(head + ReviewedStages(rows)) == rows
  {
    if |head| > 0 {
      assert (head + ReviewedStages(rows))[1..] == head[1..] + ReviewedStages(rows);
      ReviewsOfStages(head[1..], rows);
    } else if |rows| > 0 {
      assert ReviewedStages(rows)[1..] == ReviewedStages(rows[1..]);
      ReviewsOfStages([], rows[1..]);
      assert head + ReviewedStages(rows) == ReviewedStages(rows);
      assert head + ReviewedStages(rows[1..]) == ReviewedStages(rows[1..]);
    } else {
      assert head + ReviewedStages(rows) == [];
    }
  }

  /** The timeline before the reviews: the active entry and the complete
      entry, each when present. */
  function Head(active: seq<ActiveClaim>, complete: seq<Row<CompleteClaim>>): (h: seq<Entry>)
    requires |active| <= 1 && |complete| <= 1
    ensures |h| == |active| + |complete|
    ensures |active| == 1 ==> h[0] == ActiveStage(active[0])
    ensures |complete| == 1 ==> h[|active|] == CompleteStage(complete[0])
    ensures Ordered(h)
    ensures forall i :: 0 <= i < |h| ==> Rank(h[i]) < 2
  {
    (if |active| == 1 then [ActiveStage(active[0])] else []) +
    (if |complete| == 1 then [CompleteStage(complete[0])] else [])
  }

  /** Reviews sorted by time, after entries of the earlier stages, keep the
      timeline ordered. */
  lemma StagesOrdered(head: seq<Entry>, rows: seq<Row<ReviewedClaim>>)
    requires Ordered(head) && SortedByReviewTime(rows)
    requires forall i :: 0 <= i < |head| ==> Rank(head[i]) < 2
    ensures Ordered(head + ReviewedStages(rows))
  {
    var t := head + ReviewedStages(rows);
    forall i, j | 0 <= i < j < |t| ensures InOrder(t[i], t[j]) {
      if i >= |head| {
        assert t[i] == ReviewedStage(rows[i - |head|]);
        assert t[j] == ReviewedStage(rows[j - |head|]);
      } else if j < |head| {
        assert t[i] == head[i] && t[j] == head[j];
      } else {
        assert t[i] == head[i];
        assert t[j] == ReviewedStage(rows[j - |head|]);
      }
    }
  }

  /** `get_case_history` as a value: the active entry, the complete entry,
      then every review of the case in ascending review time; 404 when the
      timeline is empty. */
  function CaseHistory(db: Db, caller: User, casenum: CaseNum): (r: Response<seq<Entry>>)
    ensures r.Forbidden? <==> !RoleRequired(caller.groups, LEAD)
    ensures r.Ok? || r.Forbidden? || r.NotFound? || r.ServerError?
    ensures r.ServerError? <==>
              RoleRequired(caller.groups, LEAD) &&
              (|ActiveFor(db.active, casenum)| > 1 || |CompleteFor(db.complete, casenum)| > 1)
    ensures r.NotFound? <==>
              && RoleRequired(caller.groups, LEAD)
              && |ActiveFor(db.active, casenum)| == 0
              && |CompleteFor(db.complete, casenum)| == 0
              && |ReviewedFor(db.reviewed, casenum)| == 0
    ensures r.Ok? ==>
              |r.body| == |ActiveFor(db.active, casenum)| + |CompleteFor(db.complete, casenum)|
                          + |ReviewedFor(db.reviewed, casenum)|
    ensures r.Ok? ==> |r.body| > 0
    ensures r.Ok? && |ActiveFor(db.active, casenum)| > 0 ==>
              r.body[0] == ActiveStage(ActiveFor(db.active, casenum)[0])
    ensures r.Ok? && |CompleteFor(db.complete, casenum)| > 0 ==>
              r.body[|ActiveFor(db.active, casenum)|] == CompleteStage(CompleteFor(db.complete, casenum)[0])
  {
    var active := ActiveFor(db.active, casenum);
    var complete := CompleteFor(db.complete, casenum);
    if !RoleRequired(caller.groups, LEAD) then Forbidden
    else if |active| > 1 || |complete| > 1 then ServerError
    else
      var timeline := Timeline(active, complete, ReviewedFor(db.reviewed, casenum));
      if |timeline| == 0 then NotFound else Ok(timeline)
  }

  /** The timeline of a case from its rows in the three tables: one entry
      per row, the earlier stages first, the reviews by review time. */
  function Timeline(active: seq<ActiveClaim>, complete: seq<Row<CompleteClaim>>,
                    reviewed: seq<Row<ReviewedClaim>>): (t: seq<Entry>)
    requires |active| <= 1 && |complete| <= 1
    ensures |t| == |active| + |complete| + |reviewed|
    ensures t[..|active| + |complete|] == Head(active, complete)
    ensures forall k :: |active| + |complete| <= k < |t| ==> t[k].ReviewedStage?
    ensures Reviews(t) == SortByReviewTime(reviewed)
    ensures Ordered(t)
  {
    var head := Head(active, complete);
    var sorted := SortByReviewTime(reviewed);
    StagesOrdered(head, sorted);
    ReviewsOfStages(head, sorted);
    assert (head + ReviewedStages(sorted))[..|head|] == head;
    head + ReviewedStages(sorted)
  }

  /** An Ok timeline is in stage order (active, complete, reviews by review
      time), and its reviews are exactly the reviews of the case, in
      ascending review time. */
  lemma HistoryHoldsAllReviews(db: Db, caller: User, casenum: CaseNum)
    requires CaseHistory(db, caller, casenum).Ok?
    ensures Ordered(CaseHistory(db, caller, casenum).body)
    ensures var t := Reviews(CaseHistory(db, caller, casenum).body);
            && multiset(t) == multiset(ReviewedFor(db.reviewed, casenum))
            && SortedByReviewTime(t)
  {
    var active := ActiveFor(db.active, casenum);
    var complete := CompleteFor(db.complete, casenum);
    assert CaseHistory(db, caller, casenum).body == Timeline(active, complete, ReviewedFor(db.reviewed, casenum));
  }

  /** History has nothing to show exactly when search finds nothing. */
  lemma HistoryNotFoundIffSearchNotFound(db: Db, caller: User, casenum: CaseNum)
    requires Valid(db)
    ensures CaseHistory(db, caller, casenum).NotFound? <==> SearchCase(db, caller, casenum).NotFound?
  {
    HasActiveIffFiltered(db.active, casenum);
  }

  /** `get_case_history` as the view builds it: append the active entry and
      the complete entry when present, then each review in a loop. */
  method GetCaseHistory(db: Db, caller: User, casenum: CaseNum) returns (r: Response<seq<Entry>>)
    ensures r == CaseHistory(db, caller, casenum)
  {
    if !RoleRequired(caller.groups, LEAD) {
      return Forbidden;
    }
    var active := ActiveFor(db.active, casenum);
    var complete := CompleteFor(db.complete, casenum);
    if |active| > 1 || |complete| > 1 {
      return ServerError;
    }
    var timeline: seq<Entry> := [];
    if |active| == 1 {
      timeline := timeline + [ActiveStage(active[0])];
    }
    if |complete| == 1 {
      timeline := timeline + [CompleteStage(complete[0])];
    }
    assert timeline == Head(active, complete);
    var reviews := SortByReviewTime(ReviewedFor(db.reviewed, casenum));
    timeline := AppendReviews(timeline, reviews);
    if |timeline| == 0 {
      return NotFound;
    }
    return Ok(timeline);
  }

  /** The loop of `get_case_history`: one reviewed entry appended per
      review, in the order given. */
  method AppendReviews(head: seq<Entry>, reviews: seq<Row<ReviewedClaim>>) returns (timeline: seq<Entry>)
    ensures timeline == head + ReviewedStages(reviews)
  {
    timeline := head;
    for i := 0 to |reviews|
      invariant timeline == head + ReviewedStages(reviews[..i])
    {
      AppendStage(reviews, i);
      timeline := timeline + [ReviewedStage(reviews[i])];
    }
    assert reviews[..|reviews|] == reviews;
  }

  lemma AppendStage(rows: seq<Row<ReviewedClaim>>, i: nat)
    requires i < |rows|
    ensures ReviewedStages(rows[..i + 1]) == ReviewedStages(rows[..i]) + [ReviewedStage(rows[i])]
  {
  }

  /** A case completed twice (see ActiveClaims.ReclaimAfterComplete) makes
      search and status fail with 500, because the Complete table then has
      two rows for it. */
  lemma DuplicateCompleteBreaksLookup(db: Db, caller: User, casenum: CaseNum)
    requires Valid(db) && RoleRequired(caller.groups, LEAD)
    requires !HasActive(db.active, casenum) && |CompleteFor(db.complete, casenum)| > 1
    ensures SearchCase(db, caller, casenum) == ServerError
    ensures GetCaseStatus(db, caller, casenum) == ServerError
    ensures CaseHistory(db, caller, casenum) == ServerError
  {
    HasActiveIffFiltered(db.active, casenum);
  }
}
