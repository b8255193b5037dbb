/** The views of activeclaim/views.py as steps on the store: claiming a case
    and completing it.  Neither view has a role decorator: any authenticated
    user may call them. */
module ActiveClaims {
  import opened Common
  import opened Records

  /** `create_active_claim`: refuse a case number that is already claimed,
      otherwise add a claim owned by the caller, timestamped `now`. */
  function CreateActiveClaim(db: Db, caller: User, casenum: CaseNum, now: nat): (s: Step<ActiveClaim>)
    ensures s.response.BadRequest? <==> HasActive(db.active, casenum)
    ensures s.response.BadRequest? ==> s.db == db
    ensures !s.response.BadRequest? ==>
              && s.response == Created(ActiveClaim(casenum, caller.name, now))
              && ActiveFor(s.db.active, casenum) == [ActiveClaim(casenum, caller.name, now)]
              && |s.db.active| == |db.active| + 1
              && (forall c :: c != casenum ==> ActiveFor(s.db.active, c) == ActiveFor(db.active, c))
              && s.db.(active := db.active) == db
    ensures Valid(db) ==> Valid(s.db)
  {
    HasActiveIffFiltered(db.active, casenum);
    if |ActiveFor(db.active, casenum)| > 0 then
      Step(db, BadRequest)
    else
      var claim := ActiveClaim(casenum, caller.name, now);
      var active' := db.active + [claim];
      assert ActiveFor(active', casenum) == [claim] by {
        WhereAppend(db.active, [claim], ActiveOf(casenum));
        assert Where([claim], ActiveOf(casenum)) == [claim];
      }
      assert forall c :: c != casenum ==> ActiveFor(active', c) == ActiveFor(db.active, c) by {
        forall c | c != casenum ensures ActiveFor(active', c) == ActiveFor(db.active, c) {
          WhereAppend(db.active, [claim], ActiveOf(c));
          assert Where([claim], ActiveOf(c)) == [];
        }
      }
      assert ActiveUnique(db.active) ==> ActiveUnique(active') by {
        if ActiveUnique(db.active) {
          forall i, j | 0 <= i < j < |active'| ensures active'[i].casenum != active'[j].casenum {
            if j == |db.active| {
              assert active'[i] == db.active[i];
            }
          }
        }
      }
      Step(db.(active := active'), Created(claim))
  }

  /** The claims of every other case survive removing the claims of `c`. */
  lemma RemoveCaseKeepsOthers(active: seq<ActiveClaim>, c: CaseNum, other: CaseNum)
    requires other != c
    ensures ActiveFor(Where(active, ActiveNotOf(c)), other) == ActiveFor(active, other)
  {
    WhereWhere(active, ActiveNotOf(c), ActiveOf(other), ActiveOf(other));
  }

  /** Removing the claims of `c` leaves none of them and takes away exactly
      as many rows as there were. */
  lemma RemoveCaseCount(active: seq<ActiveClaim>, c: CaseNum)
    ensures |Where(active, ActiveNotOf(c))| == |active| - |ActiveFor(active, c)|
    ensures ActiveFor(Where(active, ActiveNotOf(c)), c) == []
    ensures ActiveUnique(active) ==> ActiveUnique(Where(active, ActiveNotOf(c)))
  {
    var all := (a: ActiveClaim) => true;
    WhereDisjointCount(active, ActiveOf(c), ActiveNotOf(c), all);
    WhereAll(active, all);
    var rest := Where(active, ActiveNotOf(c));
    WhereNone(rest, ActiveOf(c));
    if ActiveUnique(active) {
      WhereKeepsUnique(active, ActiveNotOf(c));
    }
  }

  /** A filtered table keeps the unique index. */
  lemma {:induction false} WhereKeepsUnique(active: seq<ActiveClaim>, p: ActiveClaim -> bool)
    requires ActiveUnique(active)
    ensures ActiveUnique(Where(active, p))
  {
    if |active| > 0 {
      WhereKeepsUnique(active[1..], p);
      var rest := Where(active[1..], p);
      WhereMembers(active[1..], p);
      if p(active[0]) {
        var r := [active[0]] + rest;
        forall i, j | 0 <= i < j < |r| ensures r[i].casenum != r[j].casenum {
          if i == 0 {
            assert r[j] in active[1..];
            var k :| 0 <= k < |active[1..]| && active[1..][k] == r[j];
            assert active[k + 1] == r[j];
          } else {
            assert r[i] == rest[i - 1] && r[j] == rest[j - 1];
          }
        }
      }
    }
  }

  /** `complete_active_claim`: move the claim of `casenum` into the Complete
      table.  `objects.get` on a missing case gives 404; on several rows it
      raises, which the view does not catch (500). */
  function CompleteActiveClaim(db: Db, caller: User, casenum: CaseNum, now: nat): (s: Step<Row<CompleteClaim>>)
    ensures s.response.NotFound? <==> !HasActive(db.active, casenum)
    ensures s.response.NotFound? || s.response.ServerError? ==> s.db == db
    ensures Valid(db) ==> !s.response.ServerError?
    ensures s.response.NotFound? || s.response.ServerError? || s.response.Created?
    ensures Valid(db) ==> Valid(s.db)
  {
    HasActiveIffFiltered(db.active, casenum);
    assert Valid(db) ==> |ActiveFor(db.active, casenum)| <= 1 by {
      if Valid(db) { ActiveForAtMostOne(db.active, casenum); }
    }
    var matches := ActiveFor(db.active, casenum);
    if |matches| == 0 then
      Step(db, NotFound)
    else if |matches| > 1 then
      Step(db, ServerError)
    else
      var claim := matches[0];
      var row := Row(db.nextId, CompleteClaim(claim.casenum, claim.user, None, claim.claimTime, now));
      var active' := Where(db.active, ActiveNotOf(casenum));
      assert Valid(db) ==> Valid(db.(active := active', complete := db.complete + [row], nextId := db.nextId + 1)) by {
        if Valid(db) { CompletionKeepsValid(db, casenum, row); }
      }
      Step(db.(active := active', complete := db.complete + [row], nextId := db.nextId + 1), Created(row))
  }

  /** Dropping the claims of a case and appending a completed claim under
      the next key keeps the store valid. */
  lemma CompletionKeepsValid(db: Db, casenum: CaseNum, row: Row<CompleteClaim>)
    requires Valid(db) && row.id == db.nextId
    ensures Valid(db.(active := Where(db.active, ActiveNotOf(casenum)), complete := db.complete + [row],
                      nextId := db.nextId + 1))
  {
    RemoveCaseCount(db.active, casenum);
    AppendFreshKeepsIds(db.complete, row, db.nextId);
  }

  /** A successful completion carries the owner and claim time of the one
      active claim of the case into a new CompleteClaim with no reviewing
      lead and completion time `now`; that case has no active claim left,
      every other case keeps its claims, and only the Complete table and the
      key counter change besides. */
  lemma CompleteMovesClaim(db: Db, caller: User, casenum: CaseNum, now: nat)
    requires CompleteActiveClaim(db, caller, casenum, now).response.Created?
    ensures var s := CompleteActiveClaim(db, caller, casenum, now);
            var row := s.response.body;
            && ActiveFor(db.active, casenum) == [ActiveClaim(casenum, row.rec.user, row.rec.claimTime)]
            && row == Row(db.nextId, CompleteClaim(casenum, row.rec.user, None, row.rec.claimTime, now))
            && !HasActive(s.db.active, casenum)
            && |s.db.active| == |db.active| - 1
            && (forall c :: c != casenum ==> ActiveFor(s.db.active, c) == ActiveFor(db.active, c))
            && s.db.complete == db.complete + [row]
            && s.db.nextId == db.nextId + 1
            && s.db.reviewed == db.reviewed
            && s.db.evaluations == db.evaluations
            && s.db.parents == db.parents
  {
    var s := CompleteActiveClaim(db, caller, casenum, now);
    var matches := ActiveFor(db.active, casenum);
    assert |matches| == 1;
    var claim := matches[0];
    var active' := Where(db.active, ActiveNotOf(casenum));
    var row := Row(db.nextId, CompleteClaim(claim.casenum, claim.user, None, claim.claimTime, now));
    assert s == Step(db.(active := active', complete := db.complete + [row], nextId := db.nextId + 1), Created(row));
    assert claim.casenum == casenum by {
      assert ActiveOf(casenum)(claim);
    }
    RemoveCaseCount(db.active, casenum);
    HasActiveIffFiltered(active', casenum);
    forall c | c != casenum ensures ActiveFor(active', c) == ActiveFor(db.active, c) {
      RemoveCaseKeepsOthers(db.active, casenum, c);
    }
    assert matches == [ActiveClaim(casenum, claim.user, claim.claimTime)];
  }

  /** Claiming a case that is not active and then completing it succeeds:
      the CompleteClaim appended to the table has the claimant as owner, no
      lead, and the claim and completion times; it is the one new
      CompleteClaim of that case, and the store stays valid. */
  lemma ClaimAndComplete(db: Db, tech: User, casenum: CaseNum, t0: nat, t1: nat)
    requires Valid(db) && !HasActive(db.active, casenum)
    ensures var s1 := CreateActiveClaim(db, tech, casenum, t0);
            var s2 := CompleteActiveClaim(s1.db, tech, casenum, t1);
            && s1.response.Created? && HasActive(s1.db.active, casenum)
            && s1.db.complete == db.complete
            && s2.response.Created? && Valid(s2.db) && !HasActive(s2.db.active, casenum)
            && s2.response.body.rec == CompleteClaim(casenum, tech.name, None, t0, t1)
            && s2.db.complete == db.complete + [s2.response.body]
            && |CompleteFor(s2.db.complete, casenum)| == |CompleteFor(db.complete, casenum)| + 1
  {
    var s1 := CreateActiveClaim(db, tech, casenum, t0);
    assert HasActive(s1.db.active, casenum) by {
      assert s1.db.active[|db.active|].casenum == casenum;
    }
    var s2 := CompleteActiveClaim(s1.db, tech, casenum, t1);
    CompleteMovesClaim(s1.db, tech, casenum, t1);
    var r2 := s2.response.body;
    WhereAppend(db.complete, [r2], CompleteOf(casenum));
    assert Where([r2], CompleteOf(casenum)) == [r2];
  }

  /** A claim, once completed, can be claimed again: the case is then both
      active and complete, and after the second completion the Complete
      table holds two rows of one case number.  Only the Active table is
      checked before a claim. */
  lemma ReclaimAfterComplete(db: Db, tech: User, casenum: CaseNum, t0: nat, t1: nat, t2: nat, t3: nat)
    requires Valid(db) && !HasActive(db.active, casenum) && |CompleteFor(db.complete, casenum)| == 0
    ensures var s1 := CreateActiveClaim(db, tech, casenum, t0);
            var s2 := CompleteActiveClaim(s1.db, tech, casenum, t1);
            var s3 := CreateActiveClaim(s2.db, tech, casenum, t2);
            var s4 := CompleteActiveClaim(s3.db, tech, casenum, t3);
            && s1.response.Created? && s2.response.Created?
            && s3.response.Created? && s4.response.Created?
            && HasActive(s3.db.active, casenum) && |CompleteFor(s3.db.complete, casenum)| == 1
            && !HasActive(s4.db.active, casenum) && |CompleteFor(s4.db.complete, casenum)| == 2
  {
    ClaimAndComplete(db, tech, casenum, t0, t1);
    var s2 := CompleteActiveClaim(CreateActiveClaim(db, tech, casenum, t0).db, tech, casenum, t1);
    ClaimAndComplete(s2.db, tech, casenum, t2, t3);
  }
}
