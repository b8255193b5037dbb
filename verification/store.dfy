/** The database as one mutable object: a field per table and the next
    primary key.  Each method is a view that changes the store, written as
    the view does it (look up, check, create, save, delete), and is proved
    to leave the store and answer exactly as the view's step function in
    ActiveClaims, CompleteClaims, Evaluations and ParentCases says; the
    properties of those functions are proved there. */
module Storage {
  import opened Common
  import opened Records
  import opened Roles
  import ActiveClaims
  import CompleteClaims
  import Evaluations
  import ParentCases

  class Store {
    var active: seq<ActiveClaim>
    var complete: seq<Row<CompleteClaim>>
    var reviewed: seq<Row<ReviewedClaim>>
    var evaluations: seq<Row<Evaluation>>
    var parents: seq<ParentCase>
    var nextId: nat

    /** The value of the whole store. */
    function Snapshot(): Db
      reads this
    {
      Db(active, complete, reviewed, evaluations, parents, nextId)
    }

    /** The unique indexes and the primary keys hold. */
    predicate Valid()
      reads this
    {
      Records.Valid(Snapshot())
    }

    /** A fresh, empty database. */
    constructor()
      ensures Snapshot() == Empty
      ensures Valid()
    {
      active, complete, reviewed, evaluations, parents, nextId := [], [], [], [], [], 0;
    }

    /** `create_active_claim`. */
    method CreateActiveClaim(caller: User, casenum: CaseNum, now: nat) returns (r: Response<ActiveClaim>)
      requires Valid()
      modifies this
      ensures Valid()
      ensures Step(Snapshot(), r) == ActiveClaims.CreateActiveClaim(old(Snapshot()), caller, casenum, now)
    {
      ghost var before := Snapshot();
      if |ActiveFor(active, casenum)| > 0 {
        return BadRequest;
      }
      var claim := ActiveClaim(casenum, caller.name, now);
      active := active + [claim];
      r := Created(claim);
      assert Snapshot() == ActiveClaims.CreateActiveClaim(before, caller, casenum, now).db;
    }

    /** `complete_active_claim`: create the completed claim, then delete
        the active one. */
    method CompleteActiveClaim(caller: User, casenum: CaseNum, now: nat) returns (r: Response<Row<CompleteClaim>>)
      requires Valid()
      modifies this
      ensures Valid()
      ensures Step(Snapshot(), r) == ActiveClaims.CompleteActiveClaim(old(Snapshot()), caller, casenum, now)
    {
      ghost var before := Snapshot();
      var matches := ActiveFor(active, casenum);
      if |matches| == 0 {
        return NotFound;
      }
      // the unique index leaves exactly one row for `objects.get`
      ActiveForAtMostOne(active, casenum);
      ghost var after := ActiveClaims.CompleteActiveClaim(before, caller, casenum, now);
      var claim := matches[0];
      var row := Row(nextId, CompleteClaim(claim.casenum, claim.user, None, claim.claimTime, now));
      assert after.response == Created(row);
      complete := complete + [row];
      nextId := nextId + 1;
      active := Where(active, ActiveNotOf(casenum));
      r := Created(row);
      assert Snapshot() == after.db;
    }

    /** `list_active_claims`: every active claim; nothing changes. */
    method ListActiveClaims() returns (r: seq<ActiveClaim>)
      ensures r == active
    {
      r := active;
    }

    /** `begin_review`: set the lead and save. */
    method BeginReview(caller: User, id: nat) returns (r: Response<Row<CompleteClaim>>)
      requires Valid()
      modifies this
      ensures Valid()
      ensures Step(Snapshot(), r) == CompleteClaims.BeginReview(old(Snapshot()), caller, id)
    {
      ghost var before := Snapshot();
      if !GroupRequired(caller.groups, One(LEAD)) {
        return Forbidden;
      }
      var found := IndexOf(complete, id);
      if found.None? {
        return NotFound;
      }
      var i := found.value;
      var row := Row(id, complete[i].rec.(lead := Some(caller.name)));
      complete := complete[i := row];
      r := Created(row);
      assert Snapshot() == CompleteClaims.BeginReview(before, caller, id).db;
    }

    /** `review_complete_claim`: create the reviewed claim, then delete the
        completed one. */
    method ReviewCompleteClaim(caller: User, id: nat, status: Option<string>, comment: Option<string>, now: nat)
      returns (r: Response<Row<ReviewedClaim>>)
      requires Valid()
      modifies this
      ensures Valid()
      ensures Step(Snapshot(), r) == CompleteClaims.ReviewCompleteClaim(old(Snapshot()), caller, id, status, comment, now)
    {
      ghost var before := Snapshot();
      if !GroupRequired(caller.groups, One(LEAD)) {
        return Forbidden;
      }
      var found := IndexOf(complete, id);
      if found.None? {
        return NotFound;
      }
      var i := found.value;
      var claim := complete[i].rec;
      if status.None? || status.value == "" {
        return BadRequest;
      }
      var row := Row(nextId, ReviewedClaim(claim.casenum, claim.user, caller.name, claim.claimTime,
                                           claim.completeTime, now, status.value, comment.GetOr(""), None));
      reviewed := reviewed + [row];
      nextId := nextId + 1;
      complete := RemoveAt(complete, i);
      r := Created(row);
      assert Snapshot() == CompleteClaims.ReviewCompleteClaim(before, caller, id, status, comment, now).db;
    }

    /** `list_complete_claims`: nothing changes. */
    method ListCompleteClaims(caller: User) returns (r: Response<seq<Row<CompleteClaim>>>)
      ensures r == CompleteClaims.ListCompleteClaims(Snapshot(), caller)
    {
      if !GroupRequired(caller.groups, One(LEAD)) {
        return Forbidden;
      }
      r := Ok(complete);
    }

    /** `acknowledge_ping`: check the status, then the owner; set the status
        and who acknowledged, when and with what comment, and save. */
    method AcknowledgePing(caller: User, id: nat, ackComment: Option<string>, now: nat)
      returns (r: Response<Row<ReviewedClaim>>)
      requires Valid()
      modifies this
      ensures Valid()
      ensures Step(Snapshot(), r) == CompleteClaims.AcknowledgePing(old(Snapshot()), caller, id, ackComment, now)
    {
      ghost var before := Snapshot();
      if !GroupRequired(caller.groups, One(TECH)) {
        return Forbidden;
      }
      var found := IndexOf(reviewed, id);
      if found.None? {
        return NotFound;
      }
      var i := found.value;
      var claim := reviewed[i].rec;
      if !IsPinged(claim.status) {
        return BadRequest;
      }
      if claim.tech != caller.name {
        return Forbidden;
      }
      var row := Row(id, claim.(status := Name(Acknowledged),
                                ack := Some(Acknowledgement(caller.name, now, ackComment.GetOr("")))));
      reviewed := reviewed[i := row];
      r := Ok(row);
      assert Snapshot() == CompleteClaims.AcknowledgePing(before, caller, id, ackComment, now).db;
    }

    /** `resolve_ping`: only from acknowledged; set status and save. */
    method ResolvePing(caller: User, id: nat) returns (r: Response<Row<ReviewedClaim>>)
      requires Valid()
      modifies this
      ensures Valid()
      ensures Step(Snapshot(), r) == CompleteClaims.ResolvePing(old(Snapshot()), caller, id)
    {
      ghost var before := Snapshot();
      if !GroupRequired(caller.groups, One(LEAD)) {
        return Forbidden;
      }
      var found := IndexOf(reviewed, id);
      if found.None? {
        return NotFound;
      }
      var i := found.value;
      var claim := reviewed[i].rec;
      if claim.status != Name(Acknowledged) {
        return BadRequest;
      }
      var row := Row(id, claim.(status := Name(Resolved)));
      reviewed := reviewed[i := row];
      r := Ok(row);
      assert Snapshot() == CompleteClaims.ResolvePing(before, caller, id).db;
    }

    /** `update_evaluation`: 404, then the owner-or-Manager check, then the
        serializer's verdict; save with a new update time. */
    method UpdateEvaluation(caller: User, id: nat, fields: EvaluationFields, valid: bool, now: nat)
      returns (r: Response<Row<Evaluation>>)
      requires Valid()
      modifies this
      ensures Valid()
      ensures Step(Snapshot(), r) == Evaluations.UpdateEvaluation(old(Snapshot()), caller, id, fields, valid, now)
    {
      ghost var before := Snapshot();
      if !RoleRequired(caller.groups, LEAD) {
        return Forbidden;
      }
      var found := IndexOf(evaluations, id);
      if found.None? {
        return NotFound;
      }
      var i := found.value;
      var e := evaluations[i].rec;
      var userLevel := HighestRoleLevel(caller.groups);
      if e.evaluator != caller.name && userLevel < RoleLevel(MANAGER) {
        return Forbidden;
      }
      if !valid {
        return BadRequest;
      }
      var row := Row(id, Evaluation(e.evaluator, fields, e.createdAt, now));
      evaluations := evaluations[i := row];
      r := Ok(row);
      assert Snapshot() == Evaluations.UpdateEvaluation(before, caller, id, fields, valid, now).db;
    }

    /** `delete_evaluation`: 404, then the owner-or-Manager check; delete. */
    method DeleteEvaluation(caller: User, id: nat) returns (r: Response<()>)
      requires Valid()
      modifies this
      ensures Valid()
      ensures Step(Snapshot(), r) == Evaluations.DeleteEvaluation(old(Snapshot()), caller, id)
    {
      ghost var before := Snapshot();
      if !RoleRequired(caller.groups, LEAD) {
        return Forbidden;
      }
      var found := IndexOf(evaluations, id);
      if found.None? {
        return NotFound;
      }
      var i := found.value;
      var userLevel := HighestRoleLevel(caller.groups);
      if evaluations[i].rec.evaluator != caller.name && userLevel < RoleLevel(MANAGER) {
        return Forbidden;
      }
      evaluations := RemoveAt(evaluations, i);
      r := NoContent;
      assert Snapshot() == Evaluations.DeleteEvaluation(before, caller, id).db;
    }

    /** `create_parent_case`: a failed insert is answered with 400. */
    method CreateParentCase(caller: User, caseNumber: Option<CaseNum>, description: Option<string>,
                            solution: Option<string>, now: nat) returns (r: Response<ParentCase>)
      requires Valid()
      modifies this
      ensures Valid()
      ensures Step(Snapshot(), r) ==
                ParentCases.CreateParentCase(old(Snapshot()), caller, caseNumber, description, solution, now)
    {
      ghost var before := Snapshot();
      var stored := if solution.Some? && solution.value != "" then solution else None;
      if caseNumber.None? || description.None? || ParentCases.HasParent(parents, caseNumber.value) {
        return BadRequest;
      }
      var created := ParentCase(caseNumber.value, description.value, stored, true, now, caller.name);
      parents := parents + [created];
      r := Ok(created);
      assert Snapshot() == ParentCases.CreateParentCase(before, caller, caseNumber, description, solution, now).db;
    }
  }
}
