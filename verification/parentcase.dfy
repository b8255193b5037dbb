/** The views of parentcase/views.py: listing the active parent cases and
    creating one.  Neither has a role decorator. */
module ParentCases {
  import opened Common
  import opened Records

  predicate HasParent(parents: seq<ParentCase>, caseNumber: CaseNum)
  {
    exists i :: 0 <= i < |parents| && parents[i].caseNumber == caseNumber
  }

  function IsActive(): ParentCase -> bool
  {
    (p: ParentCase) => p.active
  }

  /** `get_active_parent_cases`: the rows with `active = true`, in table order. */
  function GetActiveParentCases(db: Db): (r: seq<ParentCase>)
    ensures forall i :: 0 <= i < |r| ==> r[i].active && r[i] in db.parents
    ensures forall i :: 0 <= i < |db.parents| && db.parents[i].active ==> db.parents[i] in r
  {
    WhereMembers(db.parents, IsActive());
    Where(db.parents, IsActive())
  }

  /** `if request.data.get('solution')`: a missing or empty solution is
      stored as null, any other is stored as given. */
  function NormaliseSolution(solution: Option<string>): (r: Option<string>)
    ensures r.None? <==> solution.None? || solution.value == ""
    ensures r.Some? ==> r == solution
  {
    if solution.Some? && solution.value != "" then solution else None
  }

  /** `create_parent_case`: the insert fails, and the view answers 400 with
      nothing stored, when the case number or the description is missing
      (both columns are NOT NULL) or the case number is already taken
      (unique column).  Otherwise one active row owned by the caller is
      added and returned with 200. */
  function CreateParentCase(db: Db, caller: User, caseNumber: Option<CaseNum>, description: Option<string>,
                            solution: Option<string>, now: nat): (s: Step<ParentCase>)
    ensures s.response.BadRequest? <==>
              caseNumber.None? || description.None? || HasParent(db.parents, caseNumber.value)
    ensures s.response.BadRequest? || s.response.Ok?
    ensures s.response.BadRequest? ==> s.db == db
    ensures s.response.Ok? ==>
              && s.response.body == ParentCase(caseNumber.value, description.value,
                                               NormaliseSolution(solution), true, now, caller.name)
              && s.db.parents == db.parents + [s.response.body]
              && s.db.(parents := db.parents) == db
    ensures Valid(db) ==> Valid(s.db)
  {
    if caseNumber.None? || description.None? || HasParent(db.parents, caseNumber.value) then
      Step(db, BadRequest)
    else
      var created := ParentCase(caseNumber.value, description.value, NormaliseSolution(solution), true, now, caller.name);
      Step(db.(parents := db.parents + [created]), Ok(created))
  }

  /** A created parent case is active, so the listing shows it afterwards,
      and every case listed before is still listed. */
  lemma CreatedIsListed(db: Db, caller: User, caseNumber: Option<CaseNum>, description: Option<string>,
                        solution: Option<string>, now: nat)
    requires CreateParentCase(db, caller, caseNumber, description, solution, now).response.Ok?
    ensures var s := CreateParentCase(db, caller, caseNumber, description, solution, now);
            GetActiveParentCases(s.db) == GetActiveParentCases(db) + [s.response.body]
  {
    var s := CreateParentCase(db, caller, caseNumber, description, solution, now);
    WhereAppend(db.parents, [s.response.body], IsActive());
    assert Where([s.response.body], IsActive()) == [s.response.body];
  }

  /** A second create with a case number already stored fails and stores
      nothing, whatever the other fields say. */
  lemma DuplicateRefused(db: Db, caller: User, caseNumber: CaseNum, description: string,
                         solution: Option<string>, other: User, description2: string,
                         solution2: Option<string>, t1: nat, t2: nat)
    requires !HasParent(db.parents, caseNumber)
    ensures var s1 := CreateParentCase(db, caller, Some(caseNumber), Some(description), solution, t1);
            var s2 := CreateParentCase(s1.db, other, Some(caseNumber), Some(description2), solution2, t2);
            && s1.response.Ok? && s2.response == BadRequest && s2.db == s1.db
  {
    var s1 := CreateParentCase(db, caller, Some(caseNumber), Some(description), solution, t1);
    assert s1.db.parents[|db.parents|].caseNumber == caseNumber;
  }
}
