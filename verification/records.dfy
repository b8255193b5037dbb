/** The records of the store (the Django models ActiveClaim, CompleteClaim,
    ReviewedClaim, Evaluation and ParentCase), the status vocabulary of a
    reviewed claim, and the value of the whole store. */
module Records {
  import opened Common

  /** A case number is an 8-character string; the model does not rely on
      its length. */
  type CaseNum = string

  /** activeclaim/models.py: the case number is unique in this table. */
  datatype ActiveClaim = ActiveClaim(casenum: CaseNum, user: UserId, claimTime: nat)

  /** A completed claim, with the reviewing lead once a review has begun. */
  datatype CompleteClaim = CompleteClaim(
    casenum: CaseNum,
    user: UserId,
    lead: Option<UserId>,
    claimTime: nat,
    completeTime: nat)

  /** Who acknowledged a ping, when, and with which comment. */
  datatype Acknowledgement = Acknowledgement(user: UserId, time: nat, comment: string)

  /** A reviewed claim.  `status` is kept as the string the reviewing lead
      sent, since the review view accepts any non-empty string; `ack` is set
      once the tech acknowledges a ping. */
  datatype ReviewedClaim = ReviewedClaim(
    casenum: CaseNum,
    tech: UserId,
    lead: UserId,
    claimTime: nat,
    completeTime: nat,
    reviewTime: nat,
    status: string,
    comment: string,
    ack: Option<Acknowledgement>)

  /** The eight statuses the views and the metrics know. */
  datatype Status =
    | Checked | Done | Kudos
    | PingedLow | PingedMed | PingedHigh
    | Acknowledged | Resolved

  function Name(s: Status): string
  {
    match s
    case Checked => "checked"
    case Done => "done"
    case Kudos => "kudos"
    case PingedLow => "pingedlow"
    case PingedMed => "pingedmed"
    case PingedHigh => "pingedhigh"
    case Acknowledged => "acknowledged"
    case Resolved => "resolved"
  }

  function ParseStatus(name: string): (s: Option<Status>)
  {
    if name == "checked" then Some(Checked)
    else if name == "done" then Some(Done)
    else if name == "kudos" then Some(Kudos)
    else if name == "pingedlow" then Some(PingedLow)
    else if name == "pingedmed" then Some(PingedMed)
    else if name == "pingedhigh" then Some(PingedHigh)
    else if name == "acknowledged" then Some(Acknowledged)
    else if name == "resolved" then Some(Resolved)
    else None
  }

  /** Name and ParseStatus are inverse: every status has a distinct name,
      and a parsed name is the name of its status. */
  lemma StatusNamesRoundTrip(s: Status, name: string)
    ensures ParseStatus(Name(s)) == Some(s)
    ensures ParseStatus(name).Some? ==> Name(ParseStatus(name).value) == name
  {
  }

  /** Distinct statuses have distinct names. */
  lemma NamesDistinct(a: Status, b: Status)
    requires a != b
    ensures Name(a) != Name(b)
  {
    StatusNamesRoundTrip(a, "");
    StatusNamesRoundTrip(b, "");
  }

  predicate IsPingSeverity(s: Status) { s == PingedLow || s == PingedMed || s == PingedHigh }

  /** `status in ['pingedlow', 'pingedmed', 'pingedhigh']` on the stored string. */
  predicate IsPinged(name: string)
  {
    name == Name(PingedLow) || name == Name(PingedMed) || name == Name(PingedHigh)
  }

  lemma IsPingedParses(name: string)
    ensures IsPinged(name) <==> ParseStatus(name).Some? && IsPingSeverity(ParseStatus(name).value)
  {
  }

  /** The fields of an evaluation a request may write: everything except the
      key, the evaluator and the two timestamps. */
  datatype EvaluationFields = EvaluationFields(
    tech: UserId,
    periodStart: nat,
    periodEnd: nat,
    casesReviewed: int,
    qualityScore: Option<real>,
    pingCount: int,
    kudosCount: int,
    strengths: string,
    areasForImprovement: string,
    additionalComments: string,
    overallRating: Option<int>)

  datatype Evaluation = Evaluation(
    evaluator: UserId,
    fields: EvaluationFields,
    createdAt: nat,
    updatedAt: nat)

  /** parentcase/models.py: the case number is unique in this table. */
  datatype ParentCase = ParentCase(
    caseNumber: CaseNum,
    description: string,
    solution: Option<string>,
    active: bool,
    timeCreated: nat,
    user: UserId)

  /** The whole store: one table per model, in primary-key order, and the
      next primary key to hand out. */
  datatype Db = Db(
    active: seq<ActiveClaim>,
    complete: seq<Row<CompleteClaim>>,
    reviewed: seq<Row<ReviewedClaim>>,
    evaluations: seq<Row<Evaluation>>,
    parents: seq<ParentCase>,
    nextId: nat)

  /** What a view returns: the store after it, and the HTTP outcome. */
  datatype Step<T> = Step(db: Db, response: Response<T>)

  /** The unique index on ActiveClaim.casenum. */
  predicate ActiveUnique(active: seq<ActiveClaim>)
  {
    forall i, j :: 0 <= i < j < |active| ==> active[i].casenum != active[j].casenum
  }

  /** The unique index on ParentCase.case_number. */
  predicate ParentUnique(parents: seq<ParentCase>)
  {
    forall i, j :: 0 <= i < j < |parents| ==> parents[i].caseNumber != parents[j].caseNumber
  }

  /** What the database guarantees of every state: unique indexes and
      primary keys that are distinct and below the next key. */
  predicate Valid(db: Db)
  {
    && ActiveUnique(db.active)
    && ParentUnique(db.parents)
    && UniqueIds(db.complete) && IdsBelow(db.complete, db.nextId)
    && UniqueIds(db.reviewed) && IdsBelow(db.reviewed, db.nextId)
    && UniqueIds(db.evaluations) && IdsBelow(db.evaluations, db.nextId)
  }

  /** The store before anything has been created. */
  const Empty := Db([], [], [], [], [], 0)

  lemma EmptyIsValid()
    ensures Valid(Empty)
  {
  }

  /** The conditions `casenum=c` of the queries, one per table. */
  function ActiveOf(c: CaseNum): ActiveClaim -> bool
  {
    (a: ActiveClaim) => a.casenum == c
  }

  function ActiveNotOf(c: CaseNum): ActiveClaim -> bool
  {
    (a: ActiveClaim) => a.casenum != c
  }

  function CompleteOf(c: CaseNum): Row<CompleteClaim> -> bool
  {
    (r: Row<CompleteClaim>) => r.rec.casenum == c
  }

  function ReviewedOf(c: CaseNum): Row<ReviewedClaim> -> bool
  {
    (r: Row<ReviewedClaim>) => r.rec.casenum == c
  }

  /** `ActiveClaim.objects.filter(casenum=c)` and its two companions. */
  function ActiveFor(active: seq<ActiveClaim>, c: CaseNum): seq<ActiveClaim>
  {
    Where(active, ActiveOf(c))
  }

  function CompleteFor(complete: seq<Row<CompleteClaim>>, c: CaseNum): seq<Row<CompleteClaim>>
  {
    Where(complete, CompleteOf(c))
  }

  function ReviewedFor(reviewed: seq<Row<ReviewedClaim>>, c: CaseNum): seq<Row<ReviewedClaim>>
  {
    Where(reviewed, ReviewedOf(c))
  }

  predicate HasActive(active: seq<ActiveClaim>, c: CaseNum)
  {
    exists i :: 0 <= i < |active| && active[i].casenum == c
  }

  /** `ActiveClaim.objects.filter(casenum=c).exists()` agrees with the filter. */
  lemma {:induction false} HasActiveIffFiltered(active: seq<ActiveClaim>, c: CaseNum)
    ensures HasActive(active, c) <==> |ActiveFor(active, c)| > 0
  {
    WhereMembers(active, ActiveOf(c));
    if HasActive(active, c) {
      var i :| 0 <= i < |active| && active[i].casenum == c;
      assert active[i] in ActiveFor(active, c);
    }
    if |ActiveFor(active, c)| > 0 {
      var x := ActiveFor(active, c)[0];
      var i :| 0 <= i < |active| && active[i] == x;
    }
  }

  /** Under the unique index, the claims of a case are at most one. */
  lemma {:induction false} ActiveForAtMostOne(active: seq<ActiveClaim>, c: CaseNum)
    requires ActiveUnique(active)
    ensures |ActiveFor(active, c)| <= 1
  {
    if |active| > 0 {
      ActiveForAtMostOne(active[1..], c);
      if active[0].casenum == c {
        assert !HasActive(active[1..], c);
        HasActiveIffFiltered(active[1..], c);
      }
    }
  }
}
