/** The views of completeclaim/views.py as steps on the store: beginning and
    finishing a review, listing completed claims, and the ping sub-workflow
    (acknowledge, resolve) on reviewed claims.  Each view first runs its
    `group_required` decorator; a refused caller gets 403 and the store is
    left as it was. */
module CompleteClaims {
  import opened Common
  import opened Records
  import opened Roles
  import ActiveClaims

  /** `begin_review`: the caller becomes the reviewing lead of the completed
      claim with key `id`, replacing any earlier lead. */
  function BeginReview(db: Db, caller: User, id: nat): (s: Step<Row<CompleteClaim>>)
    ensures s.response.Forbidden? <==> !GroupRequired(caller.groups, One(LEAD))
    ensures s.response.NotFound? <==> GroupRequired(caller.groups, One(LEAD)) && !HasId(db.complete, id)
    ensures !s.response.Created? ==> s.db == db && (s.response.Forbidden? || s.response.NotFound?)
    ensures s.response.Created? ==>
              && s.response.body.id == id
              && s.response.body.rec.lead == Some(caller.name)
              && |s.db.complete| == |db.complete|
              && s.db.(complete := db.complete) == db
    ensures s.response.Created? && Valid(db) ==>
              (forall k :: 0 <= k < |db.complete| ==>
                    && s.db.complete[k].id == db.complete[k].id
                    && s.db.complete[k].rec.(lead := None) == db.complete[k].rec.(lead := None)
                    && (s.db.complete[k].id == id ==> s.db.complete[k] == s.response.body)
                    && (s.db.complete[k].id != id ==> s.db.complete[k] == db.complete[k]))
    ensures Valid(db) ==> Valid(s.db)
  {
    if !GroupRequired(caller.groups, One(LEAD)) then
      Step(db, Forbidden)
    else
      match IndexOf(db.complete, id)
      case None => Step(db, NotFound)
      case Some(i) =>
        var row := Row(id, db.complete[i].rec.(lead := Some(caller.name)));
        assert Valid(db) ==> Valid(db.(complete := db.complete[i := row])) by {
          if Valid(db) { ReplaceKeepsIds(db.complete, i, row.rec, db.nextId); }
        }
        assert UniqueIds(db.complete) ==>
                 forall k :: 0 <= k < |db.complete| && db.complete[k].id == id ==> k == i;
        Step(db.(complete := db.complete[i := row]), Created(row))
  }

  /** Two leads beginning the same review: the second one wins. */
  lemma LastReviewerWins(db: Db, first: User, second: User, id: nat)
    requires Valid(db)
    requires BeginReview(db, first, id).response.Created?
    requires GroupRequired(second.groups, One(LEAD))
    ensures var s1 := BeginReview(db, first, id);
            var s2 := BeginReview(s1.db, second, id);
            && s2.response.Created?
            && s2.response.body.rec == s1.response.body.rec.(lead := Some(second.name))
  {
    var s1 := BeginReview(db, first, id);
    var i := IndexOf(db.complete, id).value;
    assert s1.db.complete[i].id == id;
  }

  /** `review_complete_claim`: turn the completed claim with key `id` into a
      reviewed claim.  The key is looked up first (404); then the status must
      be given and non-empty (400).  The owner and the caller are user
      objects, which are never falsy, so the view's test on them refuses
      nothing.  `comment` defaults to the empty string. */
  function ReviewCompleteClaim(db: Db, caller: User, id: nat, status: Option<string>,
                               comment: Option<string>, now: nat): (s: Step<Row<ReviewedClaim>>)
    ensures s.response.Forbidden? <==> !GroupRequired(caller.groups, One(LEAD))
    ensures s.response.NotFound? <==> GroupRequired(caller.groups, One(LEAD)) && !HasId(db.complete, id)
    ensures s.response.BadRequest? <==>
              && GroupRequired(caller.groups, One(LEAD))
              && HasId(db.complete, id)
              && (status.None? || status.value == "")
    ensures !s.response.Created? ==> s.db == db
    ensures s.response.Forbidden? || s.response.NotFound? || s.response.BadRequest? || s.response.Created?
    ensures Valid(db) ==> Valid(s.db)
  {
    if !GroupRequired(caller.groups, One(LEAD)) then
      Step(db, Forbidden)
    else
      match IndexOf(db.complete, id)
      case None => Step(db, NotFound)
      case Some(i) =>
        var claim := db.complete[i].rec;
        if status.None? || status.value == "" then
          Step(db, BadRequest)
        else
          var row := Row(db.nextId, ReviewedClaim(claim.casenum, claim.user, caller.name,
                                                  claim.claimTime, claim.completeTime, now,
                                                  status.value, comment.GetOr(""), None));
          var db' := db.(complete := RemoveAt(db.complete, i),
                         reviewed := db.reviewed + [row],
                         nextId := db.nextId + 1);
          assert Valid(db) ==> Valid(db') by {
            if Valid(db) {
              RemoveAtKeepsIds(db.complete, i, db.nextId);
            }
          }
          Step(db', Created(row))
  }

  /** A successful review deletes the completed claim and appends one
      reviewed claim carrying its case number, claim and completion times,
      with its owner as tech, the caller as lead, the given status and the
      comment (empty when none was sent). */
  lemma ReviewMovesClaim(db: Db, caller: User, id: nat, status: Option<string>,
                         comment: Option<string>, now: nat)
    requires Valid(db)
    requires ReviewCompleteClaim(db, caller, id, status, comment, now).response.Created?
    ensures var s := ReviewCompleteClaim(db, caller, id, status, comment, now);
            var old_ := db.complete[IndexOf(db.complete, id).value].rec;
            var row := s.response.body;
            && row.id == db.nextId
            && row.rec == ReviewedClaim(old_.casenum, old_.user, caller.name, old_.claimTime,
                                        old_.completeTime, now, status.value, comment.GetOr(""), None)
            && status.value != ""
            && !HasId(s.db.complete, id)
            && |s.db.complete| == |db.complete| - 1
            && (forall r :: r in db.complete && r.id != id ==> r in s.db.complete)
            && s.db.reviewed == db.reviewed + [row]
            && s.db.active == db.active && s.db.evaluations == db.evaluations
            && s.db.parents == db.parents
  {
    var i := IndexOf(db.complete, id).value;
    RemoveAtKeepsIds(db.complete, i, db.nextId);
    var rest := RemoveAt(db.complete, i);
    forall r | r in db.complete && r.id != id ensures r in rest {
      var k :| 0 <= k < |db.complete| && db.complete[k] == r;
      assert k != i;
      if k < i { assert rest[k] == r; } else { assert rest[k - 1] == r; }
    }
  }

  /** `list_complete_claims`: every completed claim, for members of Lead. */
  function ListCompleteClaims(db: Db, caller: User): (r: Response<seq<Row<CompleteClaim>>>)
    ensures r.Ok? <==> GroupRequired(caller.groups, One(LEAD))
    ensures r.Ok? ==> r.body == db.complete
    ensures !r.Ok? ==> r == Forbidden
  {
    if GroupRequired(caller.groups, One(LEAD)) then Ok(db.complete) else Forbidden
  }

  /** The ping sub-workflow: a pinged claim may be acknowledged, an
      acknowledged one resolved; nothing else moves. */
  predicate PingEdge(from: Status, to: Status)
  {
    (IsPingSeverity(from) && to == Acknowledged) || (from == Acknowledged && to == Resolved)
  }

  /** The conditions and the update of `acknowledge_ping` on one claim: the
      status must be a ping severity (400), then the caller must be its tech
      (403); the claim becomes acknowledged, by the caller at time `now`,
      with the comment sent ("" when none is). */
  function Acknowledge(claim: ReviewedClaim, caller: UserId, ackComment: Option<string>, now: nat)
    : (r: Response<ReviewedClaim>)
    ensures r.BadRequest? <==> !IsPinged(claim.status)
    ensures r.Forbidden? <==> IsPinged(claim.status) && claim.tech != caller
    ensures r.Ok? <==> IsPinged(claim.status) && claim.tech == caller
    ensures r.Ok? ==> && r.body.status == Name(Acknowledged)
                      && r.body.ack == Some(Acknowledgement(caller, now, ackComment.GetOr("")))
                      && r.body.(status := claim.status, ack := claim.ack) == claim
  {
    if !IsPinged(claim.status) then BadRequest
    else if claim.tech != caller then Forbidden
    else Ok(claim.(status := Name(Acknowledged), ack := Some(Acknowledgement(caller, now, ackComment.GetOr("")))))
  }

  /** The condition and the update of `resolve_ping` on one claim: only an
      acknowledged claim becomes resolved. */
  function Resolve(claim: ReviewedClaim): (r: Response<ReviewedClaim>)
    ensures r.Ok? <==> claim.status == Name(Acknowledged)
    ensures !r.Ok? ==> r == BadRequest
    ensures r.Ok? ==> r.body == claim.(status := Name(Resolved))
  {
    if claim.status != Name(Acknowledged) then BadRequest
    else Ok(claim.(status := Name(Resolved)))
  }

  /** Every successful acknowledge or resolve is an edge of the ping
      sub-workflow. */
  lemma PingStepsFollowMachine(claim: ReviewedClaim, caller: UserId, ackComment: Option<string>, now: nat)
    ensures Acknowledge(claim, caller, ackComment, now).Ok? ==>
              && ParseStatus(claim.status).Some?
              && PingEdge(ParseStatus(claim.status).value,
                          ParseStatus(Acknowledge(claim, caller, ackComment, now).body.status).value)
    ensures Resolve(claim).Ok? ==>
              && ParseStatus(claim.status).Some?
              && PingEdge(ParseStatus(claim.status).value, ParseStatus(Resolve(claim).body.status).value)
  {
  }

  /** Resolved and the three positive outcomes are final: neither step
      accepts them, whoever asks; a pinged claim cannot skip acknowledge. */
  lemma FinalStatuses(claim: ReviewedClaim, caller: UserId, ackComment: Option<string>, now: nat)
    ensures claim.status in {Name(Resolved), Name(Checked), Name(Done), Name(Kudos)} ==>
              Acknowledge(claim, caller, ackComment, now) == BadRequest && Resolve(claim) == BadRequest
    ensures IsPinged(claim.status) ==> Resolve(claim) == BadRequest
    ensures claim.status == Name(Acknowledged) ==> Acknowledge(claim, caller, ackComment, now) == BadRequest
  {
  }

  /** `acknowledge_ping` on the store: members of Tech only (403), then the
      key (404), then the conditions of Acknowledge.  On success the row
      with key `id` becomes what Acknowledge makes of it; nothing else
      changes. */
  function AcknowledgePing(db: Db, caller: User, id: nat, ackComment: Option<string>, now: nat)
    : (s: Step<Row<ReviewedClaim>>)
    ensures s.response.Forbidden? <==>
              || !GroupRequired(caller.groups, One(TECH))
              || (HasId(db.reviewed, id) &&
                  Acknowledge(db.reviewed[IndexOf(db.reviewed, id).value].rec, caller.name, ackComment, now).Forbidden?)
    ensures s.response.NotFound? <==> GroupRequired(caller.groups, One(TECH)) && !HasId(db.reviewed, id)
    ensures s.response.BadRequest? <==>
              && GroupRequired(caller.groups, One(TECH))
              && HasId(db.reviewed, id)
              && !IsPinged(db.reviewed[IndexOf(db.reviewed, id).value].rec.status)
    ensures !s.response.Ok? ==> s.db == db
    ensures s.response.Ok? ==>
              && HasId(db.reviewed, id)
              && (var i := IndexOf(db.reviewed, id).value;
                  && Acknowledge(db.reviewed[i].rec, caller.name, ackComment, now).Ok?
                  && s.response.body == Row(id, Acknowledge(db.reviewed[i].rec, caller.name, ackComment, now).body)
                  && s.db == db.(reviewed := db.reviewed[i := s.response.body]))
    ensures Valid(db) ==> Valid(s.db)
  {
    if !GroupRequired(caller.groups, One(TECH)) then
      Step(db, Forbidden)
    else
      match IndexOf(db.reviewed, id)
      case None => Step(db, NotFound)
      case Some(i) =>
        match Acknowledge(db.reviewed[i].rec, caller.name, ackComment, now)
        case Ok(claim) => Updated(db, i, claim)
        case BadRequest => Step(db, BadRequest)
        case Forbidden => Step(db, Forbidden)
  }

  /** `resolve_ping` on the store: members of Lead only (403), then the key
      (404), then the condition of Resolve.  On success the row with key
      `id` becomes what Resolve makes of it; nothing else changes. */
  function ResolvePing(db: Db, caller: User, id: nat): (s: Step<Row<ReviewedClaim>>)
    ensures s.response.Forbidden? <==> !GroupRequired(caller.groups, One(LEAD))
    ensures s.response.NotFound? <==> GroupRequired(caller.groups, One(LEAD)) && !HasId(db.reviewed, id)
    ensures s.response.BadRequest? <==>
              && GroupRequired(caller.groups, One(LEAD))
              && HasId(db.reviewed, id)
              && db.reviewed[IndexOf(db.reviewed, id).value].rec.status != Name(Acknowledged)
    ensures !s.response.Ok? ==> s.db == db
    ensures s.response.Ok? ==>
              && HasId(db.reviewed, id)
              && (var i := IndexOf(db.reviewed, id).value;
                  && Resolve(db.reviewed[i].rec).Ok?
                  && s.response.body == Row(id, Resolve(db.reviewed[i].rec).body)
                  && s.db == db.(reviewed := db.reviewed[i := s.response.body]))
    ensures Valid(db) ==> Valid(s.db)
  {
    if !GroupRequired(caller.groups, One(LEAD)) then
      Step(db, Forbidden)
    else
      match IndexOf(db.reviewed, id)
      case None => Step(db, NotFound)
      case Some(i) =>
        match Resolve(db.reviewed[i].rec)
        case Ok(claim) => Updated(db, i, claim)
        case BadRequest => Step(db, BadRequest)
  }

  /** The store after `claim.save()` on the reviewed row at position i. */
  function Updated(db: Db, i: nat, claim: ReviewedClaim): (s: Step<Row<ReviewedClaim>>)
    requires i < |db.reviewed|
    ensures s.response == Ok(Row(db.reviewed[i].id, claim))
    ensures s.db == db.(reviewed := db.reviewed[i := Row(db.reviewed[i].id, claim)])
    ensures UniqueIds(db.reviewed) ==> RowUpdated(db, s.db, s.response.body)
    ensures Valid(db) ==> Valid(s.db)
  {
    var row := Row(db.reviewed[i].id, claim);
    assert Valid(db) ==> Valid(db.(reviewed := db.reviewed[i := row])) by {
      if Valid(db) { ReplaceKeepsIds(db.reviewed, i, claim, db.nextId); }
    }
    assert UniqueIds(db.reviewed) ==>
             forall k :: 0 <= k < |db.reviewed| && db.reviewed[k].id == row.id ==> k == i;
    Step(db.(reviewed := db.reviewed[i := row]), Ok(row))
  }

  /** `after` differs from `before` only in the reviewed row keyed like `row`,
      which now holds `row`. */
  predicate RowUpdated(before: Db, after: Db, row: Row<ReviewedClaim>)
  {
    && after.(reviewed := before.reviewed) == before
    && |after.reviewed| == |before.reviewed|
    && HasId(before.reviewed, row.id)
    && forall k :: 0 <= k < |before.reviewed| ==>
         after.reviewed[k] == if before.reviewed[k].id == row.id then row else before.reviewed[k]
  }

  /** A resolved row stays resolved through any acknowledge or resolve
      request, by anyone, on any key. */
  lemma ResolvedStaysResolved(db: Db, caller: User, id: nat, ackComment: Option<string>, now: nat, k: nat)
    requires Valid(db) && k < |db.reviewed| && db.reviewed[k].rec.status == Name(Resolved)
    ensures AcknowledgePing(db, caller, id, ackComment, now).db.reviewed[k] == db.reviewed[k]
    ensures ResolvePing(db, caller, id).db.reviewed[k] == db.reviewed[k]
  {
    AcknowledgeKeepsResolved(db, caller, id, ackComment, now, k);
    ResolveKeepsResolved(db, caller, id, k);
  }

  lemma AcknowledgeKeepsResolved(db: Db, caller: User, id: nat, ackComment: Option<string>, now: nat, k: nat)
    requires Valid(db) && k < |db.reviewed| && db.reviewed[k].rec.status == Name(Resolved)
    ensures AcknowledgePing(db, caller, id, ackComment, now).db.reviewed[k] == db.reviewed[k]
  {
    NamesDistinct(Resolved, PingedLow);
    NamesDistinct(Resolved, PingedMed);
    NamesDistinct(Resolved, PingedHigh);
    if db.reviewed[k].id == id {
      IndexOfUnique(db.reviewed, k);
    }
  }

  lemma ResolveKeepsResolved(db: Db, caller: User, id: nat, k: nat)
    requires Valid(db) && k < |db.reviewed| && db.reviewed[k].rec.status == Name(Resolved)
    ensures ResolvePing(db, caller, id).db.reviewed[k] == db.reviewed[k]
  {
    NamesDistinct(Resolved, Acknowledged);
    if db.reviewed[k].id == id {
      IndexOfUnique(db.reviewed, k);
    }
  }

  /** The tech of a pinged row acknowledges it: only that row changes, and
      it records the tech, the time and the comment. */
  lemma AcknowledgeOwnPing(db: Db, tech: User, n: nat, ackComment: Option<string>, now: nat)
    requires Valid(db) && n < |db.reviewed| && TECH in tech.groups
    requires IsPinged(db.reviewed[n].rec.status) && db.reviewed[n].rec.tech == tech.name
    ensures var s := AcknowledgePing(db, tech, db.reviewed[n].id, ackComment, now);
            && s.response.Ok? && s.response.body.rec.status == Name(Acknowledged)
            && s.response.body.rec.ack == Some(Acknowledgement(tech.name, now, ackComment.GetOr("")))
            && s.db.reviewed == db.reviewed[n := s.response.body]
            && Valid(s.db)
  {
    assert GroupRequired(tech.groups, One(TECH));
    IndexOfUnique(db.reviewed, n);
  }

  /** A lead resolves an acknowledged row: only that row changes. */
  lemma ResolveAcknowledged(db: Db, lead: User, n: nat)
    requires Valid(db) && n < |db.reviewed| && LEAD in lead.groups
    requires db.reviewed[n].rec.status == Name(Acknowledged)
    ensures var s := ResolvePing(db, lead, db.reviewed[n].id);
            && s.response.Ok? && s.response.body.rec.status == Name(Resolved)
            && s.db.reviewed == db.reviewed[n := s.response.body]
            && Valid(s.db)
  {
    assert GroupRequired(lead.groups, One(LEAD));
    IndexOfUnique(db.reviewed, n);
  }

  /** The ping cycle: a row pinged for its tech is acknowledged by that
      tech, then resolved by a lead, after which a second acknowledge is
      refused and changes nothing. */
  lemma PingCycle(db: Db, tech: User, lead: User, n: nat, t0: nat, t1: nat)
    requires Valid(db) && n < |db.reviewed|
    requires TECH in tech.groups && LEAD in lead.groups
    requires IsPinged(db.reviewed[n].rec.status) && db.reviewed[n].rec.tech == tech.name
    ensures var key := db.reviewed[n].id;
            var s2 := AcknowledgePing(db, tech, key, Some("fixed"), t0);
            var s3 := ResolvePing(s2.db, lead, key);
            var s4 := AcknowledgePing(s3.db, tech, key, None, t1);
            && s2.response.Ok? && s2.response.body.rec.status == Name(Acknowledged)
            && s3.response.Ok? && s3.response.body.rec.status == Name(Resolved)
            && s4.response == BadRequest && s4.db == s3.db
  {
    var key := db.reviewed[n].id;
    AcknowledgeOwnPing(db, tech, n, Some("fixed"), t0);
    var s2 := AcknowledgePing(db, tech, key, Some("fixed"), t0);
    assert s2.db.reviewed[n].id == key;
    ResolveAcknowledged(s2.db, lead, n);
    var s3 := ResolvePing(s2.db, lead, key);
    assert s3.db.reviewed[n].id == key;
    AcknowledgeResolvedRefused(s3.db, tech, n, None, t1);
  }

  /** Acknowledging a resolved row is refused with 400 and changes nothing. */
  lemma AcknowledgeResolvedRefused(db: Db, tech: User, n: nat, ackComment: Option<string>, now: nat)
    requires Valid(db) && n < |db.reviewed| && TECH in tech.groups
    requires db.reviewed[n].rec.status == Name(Resolved)
    ensures AcknowledgePing(db, tech, db.reviewed[n].id, ackComment, now) == Step(db, BadRequest)
  {
    NamesDistinct(Resolved, PingedLow);
    NamesDistinct(Resolved, PingedMed);
    NamesDistinct(Resolved, PingedHigh);
    IndexOfUnique(db.reviewed, n);
    assert GroupRequired(tech.groups, One(TECH));
  }

  /** Reviewing a completed claim with a ping severity puts a pinged row,
      owned by the claim's tech, at the end of the Reviewed table. */
  lemma ReviewAsPing(db: Db, lead: User, id: nat, severity: Status, comment: Option<string>, t: nat)
    requires Valid(db) && HasId(db.complete, id) && IsPingSeverity(severity)
    requires LEAD in lead.groups
    ensures var s := ReviewCompleteClaim(db, lead, id, Some(Name(severity)), comment, t);
            && s.response.Created?
            && Valid(s.db)
            && s.db.reviewed[|db.reviewed|] == s.response.body
            && IsPinged(s.response.body.rec.status)
            && s.response.body.rec.tech == db.complete[IndexOf(db.complete, id).value].rec.user
  {
    assert GroupRequired(lead.groups, One(LEAD));
    ReviewMovesClaim(db, lead, id, Some(Name(severity)), comment, t);
  }

  /** A lead begins the review of a completed claim and then reviews it:
      the reviewed claim carries the owner, the lead and both timestamps,
      and the completed claim is gone. */
  lemma BeginThenReview(db: Db, lead: User, i: nat, status: string, comment: Option<string>, t: nat)
    requires Valid(db) && i < |db.complete|
    requires LEAD in lead.groups && status != ""
    ensures var c := db.complete[i].rec;
            var id := db.complete[i].id;
            var s3 := BeginReview(db, lead, id);
            var s4 := ReviewCompleteClaim(s3.db, lead, id, Some(status), comment, t);
            && s3.response.Created? && s3.response.body.rec.lead == Some(lead.name)
            && s4.response.Created?
            && s4.response.body.rec == ReviewedClaim(c.casenum, c.user, lead.name, c.claimTime,
                                                      c.completeTime, t, status, comment.GetOr(""), None)
            && !HasId(s4.db.complete, id)
  {
    var id := db.complete[i].id;
    assert GroupRequired(lead.groups, One(LEAD));
    IndexOfUnique(db.complete, i);
    var s3 := BeginReview(db, lead, id);
    assert s3.db.complete[i].id == id;
    IndexOfUnique(s3.db.complete, i);
    ReviewMovesClaim(s3.db, lead, id, Some(status), comment, t);
  }

  /** The whole lifecycle of one case: a tech claims and completes it, a
      lead begins the review and reviews it with kudos.  The reviewed claim
      carries the tech, the lead and both earlier timestamps, and the
      completed claim is gone. */
  lemma HappyPath(db: Db, tech: User, lead: User, casenum: CaseNum, t0: nat, t1: nat, t2: nat)
    requires Valid(db) && !HasActive(db.active, casenum)
    requires LEAD in lead.groups
    ensures var s1 := ActiveClaims.CreateActiveClaim(db, tech, casenum, t0);
            var s2 := ActiveClaims.CompleteActiveClaim(s1.db, tech, casenum, t1);
            var id := s2.response.body.id;
            var s3 := BeginReview(s2.db, lead, id);
            var s4 := ReviewCompleteClaim(s3.db, lead, id, Some("kudos"), Some("great"), t2);
            && s1.response.Created? && s2.response.Created?
            && s2.response.body.rec == CompleteClaim(casenum, tech.name, None, t0, t1)
            && !HasActive(s2.db.active, casenum)
            && s3.response.Created? && s3.response.body.rec.lead == Some(lead.name)
            && s4.response.Created?
            && s4.response.body.rec == ReviewedClaim(casenum, tech.name, lead.name, t0, t1, t2, "kudos", "great", None)
            && !HasId(s4.db.complete, id)
  {
    ActiveClaims.ClaimAndComplete(db, tech, casenum, t0, t1);
    var s1 := ActiveClaims.CreateActiveClaim(db, tech, casenum, t0);
    var s2 := ActiveClaims.CompleteActiveClaim(s1.db, tech, casenum, t1);
    BeginThenReview(s2.db, lead, |db.complete|, "kudos", Some("great"), t2);
  }
}
