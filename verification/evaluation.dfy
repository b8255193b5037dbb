/** The evaluation rules of evaluation/views.py: the suggested rating, the
    list filters, who may update or delete an evaluation, and the metrics
    computed from a tech's reviewed claims.  Every view here sits behind
    `role_required('Lead')`. */
module Evaluations {
  import opened Common
  import opened Records
  import opened Roles

  /** `_calculate_suggested_rating`: thresholds on quality score and ping
      rate, both percentages; no rating without a quality score. */
  function SuggestedRating(qualityScore: Option<real>, pingRate: real): (r: Option<int>)
    ensures r.None? <==> qualityScore.None?
    ensures r.Some? ==> 1 <= r.value <= 5
    ensures r == Some(5) <==> qualityScore.Some? && qualityScore.value >= 95.0 && pingRate < 5.0
    ensures r == Some(1) <==> qualityScore.Some? && qualityScore.value < 50.0
  {
    match qualityScore
    case None => None
    case Some(q) =>
      if q >= 95.0 && pingRate < 5.0 then Some(5)
      else if q >= 85.0 && pingRate < 10.0 then Some(4)
      else if q >= 70.0 && pingRate < 20.0 then Some(3)
      else if q >= 50.0 then Some(2)
      else Some(1)
  }

  /** A better quality score never lowers the suggested rating. */
  lemma RatingMonotoneInQuality(q1: real, q2: real, pingRate: real)
    requires q1 <= q2
    ensures SuggestedRating(Some(q1), pingRate).value <= SuggestedRating(Some(q2), pingRate).value
  {
  }

  /** A higher ping rate never raises the suggested rating. */
  lemma RatingAntitoneInPingRate(q: real, p1: real, p2: real)
    requires p1 <= p2
    ensures SuggestedRating(Some(q), p2).value <= SuggestedRating(Some(q), p1).value
  {
  }

  /** A query parameter filters only when given and non-empty (`if tech_id:`). */
  predicate Given(param: Option<UserId>)
  {
    param.Some? && param.value != ""
  }

  function TechIs(param: Option<UserId>): Row<Evaluation> -> bool
  {
    (e: Row<Evaluation>) => !Given(param) || e.rec.fields.tech == param.value
  }

  function EvaluatorIs(param: Option<UserId>): Row<Evaluation> -> bool
  {
    (e: Row<Evaluation>) => !Given(param) || e.rec.evaluator == param.value
  }

  /** An evaluation meets every filter that is given. */
  predicate Matches(techId: Option<UserId>, evaluatorId: Option<UserId>, e: Row<Evaluation>)
  {
    (!Given(techId) || e.rec.fields.tech == techId.value) &&
    (!Given(evaluatorId) || e.rec.evaluator == evaluatorId.value)
  }

  function BothMatch(techId: Option<UserId>, evaluatorId: Option<UserId>): Row<Evaluation> -> bool
  {
    (e: Row<Evaluation>) => Matches(techId, evaluatorId, e)
  }

  /** `list_evaluations`: the evaluations matching the filters one after the
      other, which is matching both at once. */
  function ListEvaluations(db: Db, caller: User, techId: Option<UserId>, evaluatorId: Option<UserId>)
    : (r: Response<seq<Row<Evaluation>>>)
    ensures r.Forbidden? <==> !RoleRequired(caller.groups, LEAD)
    ensures r.Ok? || r.Forbidden?
    ensures r.Ok? ==> r.body == Where(db.evaluations, BothMatch(techId, evaluatorId))
  {
    if !RoleRequired(caller.groups, LEAD) then Forbidden
    else
      var byTech := Where(db.evaluations, TechIs(techId));
      var both := Where(byTech, EvaluatorIs(evaluatorId));
      WhereWhere(db.evaluations, TechIs(techId), EvaluatorIs(evaluatorId), BothMatch(techId, evaluatorId));
      Ok(both)
  }

  /** An evaluation is listed iff it is stored and meets every given
      filter; with no filter, the listing is the whole table in order. */
  lemma ListedIffMatches(db: Db, caller: User, techId: Option<UserId>, evaluatorId: Option<UserId>)
    requires RoleRequired(caller.groups, LEAD)
    ensures ListEvaluations(db, caller, techId, evaluatorId).Ok?
    ensures forall e :: e in ListEvaluations(db, caller, techId, evaluatorId).body <==>
                          e in db.evaluations && Matches(techId, evaluatorId, e)
    ensures !Given(techId) && !Given(evaluatorId) ==>
              ListEvaluations(db, caller, techId, evaluatorId).body == db.evaluations
  {
    WhereMembers(db.evaluations, BothMatch(techId, evaluatorId));
    if !Given(techId) && !Given(evaluatorId) {
      WhereAll(db.evaluations, BothMatch(techId, evaluatorId));
    }
  }

  /** Only the original evaluator, or a user of Manager level, may change
      an evaluation; Manager is the top of the hierarchy, so that level is
      reached only by belonging to Manager. */
  predicate MayChange(e: Evaluation, caller: User): (ok: bool)
    ensures ok <==> e.evaluator == caller.name || MANAGER in caller.groups
  {
    MaxLevelIsMaximum(caller.groups);
    e.evaluator == caller.name || MaxLevel(caller.groups) >= RoleLevel(MANAGER)
  }

  /** `update_evaluation`: 404 before the ownership check, 403 unless owner
      or Manager, 400 when the serializer rejects the data (`valid`).  The
      key, the evaluator and the creation time are read-only; `updated_at`
      becomes `now`. */
  function UpdateEvaluation(db: Db, caller: User, id: nat, fields: EvaluationFields, valid: bool, now: nat)
    : (s: Step<Row<Evaluation>>)
    ensures s.response.NotFound? <==> RoleRequired(caller.groups, LEAD) && !HasId(db.evaluations, id)
    ensures s.response.Forbidden? <==>
              || !RoleRequired(caller.groups, LEAD)
              || (HasId(db.evaluations, id) && !MayChange(db.evaluations[IndexOf(db.evaluations, id).value].rec, caller))
    ensures s.response.BadRequest? <==>
              && RoleRequired(caller.groups, LEAD)
              && HasId(db.evaluations, id)
              && MayChange(db.evaluations[IndexOf(db.evaluations, id).value].rec, caller)
              && !valid
    ensures s.response.Ok? || s.response.Forbidden? || s.response.NotFound? || s.response.BadRequest?
    ensures !s.response.Ok? ==> s.db == db
    ensures s.response.Ok? ==>
              var i := IndexOf(db.evaluations, id).value;
              var old_ := db.evaluations[i].rec;
              && valid
              && s.response.body == Row(id, Evaluation(old_.evaluator, fields, old_.createdAt, now))
              && s.db == db.(evaluations := db.evaluations[i := s.response.body])
    ensures Valid(db) ==> Valid(s.db)
  {
    if !RoleRequired(caller.groups, LEAD) then Step(db, Forbidden)
    else match IndexOf(db.evaluations, id)
      case None => Step(db, NotFound)
      case Some(i) =>
        var e := db.evaluations[i].rec;
        if !MayChange(e, caller) then Step(db, Forbidden)
        else if !valid then Step(db, BadRequest)
        else
          var row := Row(id, Evaluation(e.evaluator, fields, e.createdAt, now));
          assert Valid(db) ==> Valid(db.(evaluations := db.evaluations[i := row])) by {
            if Valid(db) { ReplaceKeepsIds(db.evaluations, i, row.rec, db.nextId); }
          }
          Step(db.(evaluations := db.evaluations[i := row]), Ok(row))
  }

  /** `delete_evaluation`: the same 404 and 403 rules; on success (204) the
      row with that key is gone and nothing else changed. */
  function DeleteEvaluation(db: Db, caller: User, id: nat): (s: Step<()>)
    ensures s.response.NotFound? <==> RoleRequired(caller.groups, LEAD) && !HasId(db.evaluations, id)
    ensures s.response.Forbidden? <==>
              || !RoleRequired(caller.groups, LEAD)
              || (HasId(db.evaluations, id) && !MayChange(db.evaluations[IndexOf(db.evaluations, id).value].rec, caller))
    ensures s.response.NotFound? || s.response.Forbidden? || s.response.NoContent?
    ensures !s.response.NoContent? ==> s.db == db
    ensures s.response.NoContent? ==>
              && |s.db.evaluations| == |db.evaluations| - 1
              && multiset(s.db.evaluations) + multiset{db.evaluations[IndexOf(db.evaluations, id).value]}
                 == multiset(db.evaluations)
              && s.db.(evaluations := db.evaluations) == db
    ensures Valid(db) && s.response.NoContent? ==> Valid(s.db) && !HasId(s.db.evaluations, id)
  {
    if !RoleRequired(caller.groups, LEAD) then Step(db, Forbidden)
    else match IndexOf(db.evaluations, id)
      case None => Step(db, NotFound)
      case Some(i) =>
        if !MayChange(db.evaluations[i].rec, caller) then Step(db, Forbidden)
        else
          assert Valid(db) ==>
                   (Valid(db.(evaluations := RemoveAt(db.evaluations, i))) && !HasId(RemoveAt(db.evaluations, i), id)) by {
            if Valid(db) { RemoveAtKeepsIds(db.evaluations, i, db.nextId); }
          }
          Step(db.(evaluations := RemoveAt(db.evaluations, i)), NoContent)
  }

  /** A Manager may update or delete any existing evaluation, whoever wrote it. */
  lemma ManagerMayChangeAny(db: Db, manager: User, id: nat, fields: EvaluationFields, now: nat)
    requires MANAGER in manager.groups && HasId(db.evaluations, id)
    ensures UpdateEvaluation(db, manager, id, fields, true, now).response.Ok?
    ensures DeleteEvaluation(db, manager, id).response.NoContent?
  {
    MaxLevelIsMaximum(manager.groups);
    assert RoleRequired(manager.groups, LEAD);
  }

  /** A Lead may change only evaluations it wrote itself. */
  lemma LeadChangesOnlyOwn(db: Db, lead: User, id: nat, fields: EvaluationFields, now: nat)
    requires forall g :: g in lead.groups ==> RoleLevel(g) < RoleLevel(MANAGER)
    requires HasId(db.evaluations, id)
    requires db.evaluations[IndexOf(db.evaluations, id).value].rec.evaluator != lead.name
    ensures !UpdateEvaluation(db, lead, id, fields, true, now).response.Ok?
    ensures !DeleteEvaluation(db, lead, id).response.NoContent?
  {
    MaxLevelIsMaximum(lead.groups);
  }

  /** `ping_statuses`: the three severities and the two later stages of
      the ping cycle. */
  const PingStatuses: seq<string> :=
    [Name(PingedLow), Name(PingedMed), Name(PingedHigh), Name(Acknowledged), Name(Resolved)]

  /** The statuses counted as positive reviews. */
  const PositiveStatuses: seq<string> := [Name(Kudos), Name(Checked), Name(Done)]

  function StatusIn(names: seq<string>): Row<ReviewedClaim> -> bool
  {
    (r: Row<ReviewedClaim>) => r.rec.status in names
  }

  /** `reviewed_claims.filter(status__in=names).count()`. */
  function CountIn(rows: seq<Row<ReviewedClaim>>, names: seq<string>): nat
  {
    |Where(rows, StatusIn(names))|
  }

  /** `reviewed_claims.filter(status=s).count()`. */
  function CountOf(rows: seq<Row<ReviewedClaim>>, s: Status): nat
  {
    CountIn(rows, [Name(s)])
  }

  /** Counting a list of names plus one more name adds the count of that name. */
  lemma CountInSplit(rows: seq<Row<ReviewedClaim>>, names: seq<string>, n: string)
    requires n !in names
    ensures CountIn(rows, names + [n]) == CountIn(rows, names) + CountIn(rows, [n])
  {
    WhereDisjointCount(rows, StatusIn(names), StatusIn([n]), StatusIn(names + [n]));
  }

  /** The metrics of `generate_evaluation_data`, over the tech's reviewed
      claims in the period. */
  datatype Metrics = Metrics(
    casesReviewed: nat,
    qualityScore: Option<real>,
    pingCount: nat,
    pingRate: real,
    kudos: nat,
    checked: nat,
    done: nat,
    pingedLow: nat,
    pingedMed: nat,
    pingedHigh: nat,
    acknowledged: nat,
    resolved: nat,
    suggestedRating: Option<int>)

  /** The counts and the two percentages, before rounding. */
  function ComputeMetrics(rows: seq<Row<ReviewedClaim>>): (m: Metrics)
    ensures m.casesReviewed == |rows|
    ensures m.qualityScore.None? <==> |rows| == 0
    ensures |rows| == 0 ==> m.pingRate == 0.0
    ensures m.suggestedRating == SuggestedRating(m.qualityScore, m.pingRate)
  {
    var total := |rows|;
    var kudos := CountOf(rows, Kudos);
    var checked := CountOf(rows, Checked);
    var done := CountOf(rows, Done);
    var pings := CountIn(rows, PingStatuses);
    var positive := kudos + checked + done;
    var quality := if total > 0 then Some(positive as real / total as real * 100.0) else None;
    var pingRate := if total > 0 then pings as real / total as real * 100.0 else 0.0;
    Metrics(total, quality, pings, pingRate, kudos, checked, done,
            CountOf(rows, PingedLow), CountOf(rows, PingedMed), CountOf(rows, PingedHigh),
            CountOf(rows, Acknowledged), CountOf(rows, Resolved),
            SuggestedRating(quality, pingRate))
  }

  /** The three severities together count as the sum of their counts. */
  lemma SeverityCountSplits(rows: seq<Row<ReviewedClaim>>)
    ensures CountIn(rows, [Name(PingedLow), Name(PingedMed), Name(PingedHigh)]) ==
              CountOf(rows, PingedLow) + CountOf(rows, PingedMed) + CountOf(rows, PingedHigh)
  {
    var lo, me, hi := Name(PingedLow), Name(PingedMed), Name(PingedHigh);
    CountInSplit(rows, [lo], me);
    assert [lo] + [me] == [lo, me];
    CountInSplit(rows, [lo, me], hi);
    assert [lo, me] + [hi] == [lo, me, hi];
  }

  /** The severities and acknowledged together count as the sum of their
      counts. */
  lemma SeverityAndAckCountSplits(rows: seq<Row<ReviewedClaim>>)
    ensures CountIn(rows, [Name(PingedLow), Name(PingedMed), Name(PingedHigh), Name(Acknowledged)]) ==
              CountOf(rows, PingedLow) + CountOf(rows, PingedMed) + CountOf(rows, PingedHigh)
              + CountOf(rows, Acknowledged)
  {
    var severities := [Name(PingedLow), Name(PingedMed), Name(PingedHigh)];
    SeverityCountSplits(rows);
    NamesDistinct(Acknowledged, PingedLow);
    NamesDistinct(Acknowledged, PingedMed);
    NamesDistinct(Acknowledged, PingedHigh);
    CountInSplit(rows, severities, Name(Acknowledged));
    assert severities + [Name(Acknowledged)] ==
           [Name(PingedLow), Name(PingedMed), Name(PingedHigh), Name(Acknowledged)];
  }

  /** The ping count is the sum of the counts of its five statuses. */
  lemma PingCountSplits(rows: seq<Row<ReviewedClaim>>)
    ensures CountIn(rows, PingStatuses) ==
              CountOf(rows, PingedLow) + CountOf(rows, PingedMed) + CountOf(rows, PingedHigh)
              + CountOf(rows, Acknowledged) + CountOf(rows, Resolved)
  {
    var earlier := [Name(PingedLow), Name(PingedMed), Name(PingedHigh), Name(Acknowledged)];
    SeverityAndAckCountSplits(rows);
    NamesDistinct(Resolved, PingedLow);
    NamesDistinct(Resolved, PingedMed);
    NamesDistinct(Resolved, PingedHigh);
    NamesDistinct(Resolved, Acknowledged);
    CountInSplit(rows, earlier, Name(Resolved));
    assert earlier + [Name(Resolved)] == PingStatuses;
  }

  /** Positive reviews are the sum of the counts of kudos, checked and done. */
  lemma PositiveCountSplits(rows: seq<Row<ReviewedClaim>>)
    ensures CountIn(rows, PositiveStatuses) ==
              CountOf(rows, Kudos) + CountOf(rows, Checked) + CountOf(rows, Done)
  {
    var ku, ch, dn := Name(Kudos), Name(Checked), Name(Done);
    CountInSplit(rows, [ku], ch);
    assert [ku] + [ch] == [ku, ch];
    CountInSplit(rows, [ku, ch], dn);
    assert [ku, ch] + [dn] == PositiveStatuses;
  }

  /** No review is both positive and a ping, so the two counts together
      never exceed the number of reviews. */
  lemma PositiveAndPingsBounded(rows: seq<Row<ReviewedClaim>>)
    ensures CountIn(rows, PositiveStatuses) + CountIn(rows, PingStatuses) <= |rows|
  {
    var all := (r: Row<ReviewedClaim>) => true;
    var both := PositiveStatuses + PingStatuses;
    WhereDisjointCount(rows, StatusIn(PositiveStatuses), StatusIn(PingStatuses), StatusIn(both));
    WhereMonotoneCount(rows, StatusIn(both), all);
    WhereAll(rows, all);
  }

  /** The ping count is the sum of its five breakdown counts; positive
      reviews and pings together never exceed the cases reviewed. */
  lemma MetricsCounts(rows: seq<Row<ReviewedClaim>>)
    ensures var m := ComputeMetrics(rows);
            && m.pingCount == m.pingedLow + m.pingedMed + m.pingedHigh + m.acknowledged + m.resolved
            && m.kudos + m.checked + m.done == CountIn(rows, PositiveStatuses)
            && m.kudos + m.checked + m.done + m.pingCount <= m.casesReviewed
  {
    PingCountSplits(rows);
    PositiveCountSplits(rows);
    PositiveAndPingsBounded(rows);
  }

  /** Two shares of a positive total that together do not exceed it are
      percentages adding up to at most 100. */
  lemma SharesArePercentages(a: real, b: real, t: real)
    requires t > 0.0 && 0.0 <= a && 0.0 <= b && a + b <= t
    ensures 0.0 <= a / t * 100.0 <= 100.0
    ensures 0.0 <= b / t * 100.0 <= 100.0
    ensures a / t * 100.0 + b / t * 100.0 <= 100.0
  {
    assert a / t + b / t == (a + b) / t;
    assert (a + b) / t <= t / t;
    assert 0.0 <= a / t && 0.0 <= b / t;
  }

  /** Quality score and ping rate are percentages, and their sum is at most
      100: a review is never both positive and a ping. */
  lemma MetricsArePercentages(rows: seq<Row<ReviewedClaim>>)
    ensures var m := ComputeMetrics(rows);
            && 0.0 <= m.pingRate <= 100.0
            && (m.qualityScore.Some? ==>
                  && 0.0 <= m.qualityScore.value <= 100.0
                  && m.qualityScore.value + m.pingRate <= 100.0)
  {
    MetricsCounts(rows);
    var m := ComputeMetrics(rows);
    if |rows| > 0 {
      SharesArePercentages((m.kudos + m.checked + m.done) as real, m.pingCount as real, |rows| as real);
    }
  }

  /** `generate_evaluation_data`: 404 for an unknown tech (`tech` is None),
      400 unless both dates are given and valid (None otherwise), then the
      metrics over the tech's reviews with review time in the closed
      interval.  It changes nothing. */
  function GenerateEvaluationData(db: Db, caller: User, tech: Option<UserId>, start: Option<nat>, end: Option<nat>)
    : (r: Response<Metrics>)
    ensures r.Forbidden? <==> !RoleRequired(caller.groups, LEAD)
    ensures r.NotFound? <==> RoleRequired(caller.groups, LEAD) && tech.None?
    ensures r.BadRequest? <==> RoleRequired(caller.groups, LEAD) && tech.Some? && (start.None? || end.None?)
    ensures r.Ok? || r.Forbidden? || r.NotFound? || r.BadRequest?
    ensures r.Ok? ==> r.body == ComputeMetrics(Where(db.reviewed, InPeriod(tech.value, start.value, end.value)))
  {
    if !RoleRequired(caller.groups, LEAD) then Forbidden
    else if tech.None? then NotFound
    else if start.None? || end.None? then BadRequest
    else
      var rows := Where(db.reviewed, InPeriod(tech.value, start.value, end.value));
      Ok(ComputeMetrics(rows))
  }

  /** The figures `generate_evaluation_data` answers agree with each other:
      the ping breakdown adds up to the ping count, positive reviews and
      pings together are at most the cases reviewed, and quality score and
      ping rate are percentages whose sum is at most 100. */
  lemma EvaluationDataConsistent(db: Db, caller: User, tech: Option<UserId>, start: Option<nat>, end: Option<nat>)
    requires GenerateEvaluationData(db, caller, tech, start, end).Ok?
    ensures var m := GenerateEvaluationData(db, caller, tech, start, end).body;
            && m.pingCount == m.pingedLow + m.pingedMed + m.pingedHigh + m.acknowledged + m.resolved
            && m.kudos + m.checked + m.done + m.pingCount <= m.casesReviewed
            && 0.0 <= m.pingRate <= 100.0
            && (m.qualityScore.Some? ==>
                  && 0.0 <= m.qualityScore.value <= 100.0
                  && m.qualityScore.value + m.pingRate <= 100.0)
  {
    var rows := Where(db.reviewed, InPeriod(tech.value, start.value, end.value));
    MetricsCounts(rows);
    MetricsArePercentages(rows);
  }

  /** `filter(tech_id=user, review_time__gte=start, review_time__lte=end)`. */
  function InPeriod(tech: UserId, start: nat, end: nat): Row<ReviewedClaim> -> bool
  {
    (c: Row<ReviewedClaim>) => c.rec.tech == tech && start <= c.rec.reviewTime <= end
  }
}
