# CaseClaimAPI claim workflow in Dafny

This project models the request handlers of CaseClaimAPI, a help-desk service
that follows support cases through a workflow:

- a technician claims a case (ActiveClaim);
- the technician completes it (CompleteClaim);
- a lead reviews it (ReviewedClaim);
- a review may "ping" the technician, who acknowledges the ping, after which a
  lead resolves it.

Beside the workflow it models:

- the role hierarchy and the two authorization decorators;
- the case lookups (search, status, history);
- the rules for evaluations: the suggested rating, the list filters, who may
  change an evaluation, and the metrics computed from reviews;
- the parent-case views.

## Modules

- `Common` (common.dfy) holds the shared types:
  - `Option`;
  - the HTTP outcomes, `Response`;
  - users;
  - table rows keyed by an auto-assigned primary key, `Row`;
  - the ORM's `.filter()` as `Where`, with its algebra (distribution over
    concatenation, conjunction, disjoint counts).
- `Roles` (roles.dfy) covers user/decorators.py:
  - `ROLE_HIERARCHY`;
  - the highest-level loop, as a method proved against a recursive
    reference definition;
  - `role_required` and `group_required`, as predicates over the user's
    group names.
- `Records` (records.dfy) holds the stored records and the eight status names.
  - `Db` is the value of all tables.
  - `Valid` is what the database guarantees: the unique indexes on the
    active case number and the parent case number, and distinct primary keys
    below the next key.
- `ActiveClaims`, `CompleteClaims`, `CaseLookup`, `Evaluations` and
  `ParentCases` hold one module per views file.
  - Each view is a function from the store (and the caller, the request, the
    time `now`) to the new store and the response. It runs the view's
    decorator first.
  - The lemmas about these functions state what the views promise.
- `Storage` (store.dfy) holds the class `Store`, with one field per table.
  - Each state-changing view is a method that updates the fields in place,
    as the view does.
  - Each method keeps `Valid()` and is proved to produce exactly the store
    and the response of the view's function.
- `CaseLookup.GetCaseHistory` is a method whose loop appends the reviews to
  the timeline, as the view does.

## Behaviour of the code worth knowing

- **A case can be live twice.** Claiming a case checks only the Active table,
  so a case can be active and complete at once.
  - After claim, complete, claim, the case is both active and complete.
  - After a second completion, the Complete table holds two rows for it.
    `ActiveClaims.ReclaimAfterComplete` proves this.
  - Search, status and history then look the case up with `objects.get`,
    which raises on two rows. The views do not catch that (a 500).
    `CaseLookup.DuplicateCompleteBreaksLookup` proves this.
- **Claim and complete have no role check.** Any authenticated user may call
  them. Claiming a case that is already active answers 400.
- **Several views check exact group membership**, not "Lead or above". These
  are `begin_review`, `review_complete_claim`, `list_complete_claims` and
  `resolve_ping` (group Lead) and `acknowledge_ping` (group Tech).
  - A Manager outside the Lead group is refused by them.
    `Roles.ManagerOutsideLeadGroup` proves this.
  - The case-lookup and evaluation views use the hierarchical check.
- **The review view refuses only a missing or empty status.** Its test also
  names the claim's owner and the caller, but both are user objects, which
  are never falsy.
  - It accepts any non-empty status string, so the stored status is a string.
  - The status choices in reviewedclaim/models.py:13-21 omit `acknowledged`,
    which `acknowledge_ping` stores anyway.
- **Acknowledging records who, when and why.** `acknowledge_ping` sets the
  status, the acknowledging user, the acknowledge time and the comment; the
  model keeps all four.

## Model

| member | source | states |
|---|---|---|
| `Roles.RoleLevel` | user/decorators.py:6-11 | levels are in 0..4; 0 exactly for names outside the hierarchy; 4 exactly for Manager |
| `Roles.MaxLevel` | user/decorators.py:14-24 | the level reached over the groups bounds the level of each group and is at most 4 |
| `Roles.MaxLevelIsMaximum` | user/decorators.py:14-24 | the user's level bounds every group's level, is 0 or reached by some group, and is at most 4 |
| `Roles.HighestRoleLevel` | user/decorators.py:14-24 | the accumulator loop computes the maximum level over the groups (0 with none), at most 4 |
| `Roles.NoRoleMeansLevelZero` | user/decorators.py:17-24 | a user whose groups are all outside the hierarchy (or who has none) has level 0 |
| `Roles.LevelMonotone` | user/decorators.py:19-22 | adding groups never lowers the level |
| `Roles.RoleRequired` | user/decorators.py:43-66 | admits iff the minimum's level is 0 or some group reaches it |
| `Roles.LeadRequiredAdmits` | user/decorators.py:43-66 | `role_required('Lead')` admits exactly holders of Lead, Phone Analyst or Manager |
| `Roles.UnknownRoleAdmitsAll` | user/decorators.py:57-60 | a minimum role outside the hierarchy admits every user |
| `Roles.NameList` | user/decorators.py:31-34 | a single group name is the one-element list of it; a list is kept as given |
| `Roles.AnyMember` | user/decorators.py:36 | true iff some listed name is one of the user's groups |
| `Roles.GroupRequired` | user/decorators.py:27-40 | admits iff the user belongs to at least one listed group |
| `Roles.ManagerOutsideLeadGroup` | user/decorators.py:31-37 | a Manager outside Lead passes `role_required('Lead')` but fails `group_required('Lead')` |
| `Roles.GroupImpliesRole` | user/decorators.py:27-66 | membership in a named group implies passing `role_required` for that name |
| `Records.StatusNamesRoundTrip` | reviewedclaim/models.py:13-21 | status names and parsing are inverse |
| `Records.NamesDistinct` | reviewedclaim/models.py:13-21 | distinct statuses have distinct stored names |
| `Records.IsPingedParses` | completeclaim/views.py:151 | the pinged test holds exactly for the names of the three severities |
| `Records.EmptyIsValid` | activeclaim/models.py:5 | the empty database satisfies the unique indexes and key invariants |
| `Records.HasActiveIffFiltered` | activeclaim/views.py:20 | `filter(casenum=c).exists()` agrees with the filter being non-empty |
| `Records.ActiveForAtMostOne` | activeclaim/models.py:5 | under the unique index, a case number has at most one active claim |
| `Common.Where` | activeclaim/views.py:20 | `.filter(...)` keeps only elements satisfying the condition and never more than there were |
| `Common.RemoveAt` | completeclaim/views.py:110 | `.delete()` removes exactly the row at that position, keeping the others in order (one fewer, same multiset minus it) |
| `Common.IndexOf` | completeclaim/views.py:64 | `objects.get(pk=id)` finds the row with that key, or none iff no row has it; the position is unique under distinct keys |
| `Common.WhereMembers` | caselookup/views.py:85 | a filter keeps exactly the stored elements that satisfy the condition |
| `ActiveClaims.CreateActiveClaim` | activeclaim/views.py:19-27 | 400 with the store unchanged iff the case is already active; otherwise one claim owned by the caller is added, others untouched, and the unique index is kept |
| `ActiveClaims.CompleteActiveClaim` | activeclaim/views.py:32-46 | 404 with the store unchanged iff the case is not active; no 500 on a valid store; validity kept |
| `ActiveClaims.CompleteMovesClaim` | activeclaim/views.py:34-41 | a completion carries owner and claim time into a new CompleteClaim with no lead; the active claim is gone, the active count drops by one, other cases keep their claims |
| `ActiveClaims.RemoveCaseCount` | activeclaim/views.py:41 | deleting a case's claim removes exactly its rows and keeps the unique index |
| `ActiveClaims.ClaimAndComplete` | activeclaim/views.py:19-44 | claiming an inactive case and completing it succeeds and appends exactly one CompleteClaim, owned by the claimant, with no lead and the claim and completion times; the case is left inactive and the store valid |
| `ActiveClaims.ReclaimAfterComplete` | activeclaim/views.py:20-41 | claim, complete, claim leaves a case both active and complete; a second completion leaves two CompleteClaims for it |
| `CompleteClaims.BeginReview` | completeclaim/views.py:61-83 | 403 outside group Lead, 404 on a missing key; otherwise only that row's lead changes, to the caller |
| `CompleteClaims.LastReviewerWins` | completeclaim/views.py:64-66 | a second `begin_review` overwrites the first lead |
| `CompleteClaims.ReviewCompleteClaim` | completeclaim/views.py:88-127 | 403 outside group Lead, then 404 on a missing key, then 400 iff the status is missing or empty, with nothing changed; validity kept |
| `CompleteClaims.ReviewMovesClaim` | completeclaim/views.py:95-110 | a review appends one ReviewedClaim with the claim's case, owner as tech, caller as lead, both times, the status and the comment (default ""), and deletes the CompleteClaim |
| `CompleteClaims.ListCompleteClaims` | completeclaim/views.py:129-136 | members of Lead get every completed claim; others get 403 |
| `CompleteClaims.Acknowledge` | completeclaim/views.py:148-169 | 400 unless pinged, checked before ownership (403); success sets acknowledged, the acknowledging user, the time and the comment (default ""), nothing else |
| `CompleteClaims.Resolve` | completeclaim/views.py:187-198 | succeeds only from acknowledged, setting resolved; 400 otherwise |
| `CompleteClaims.PingStepsFollowMachine` | completeclaim/views.py:151-198 | every successful acknowledge or resolve is an edge pinged→acknowledged or acknowledged→resolved |
| `CompleteClaims.FinalStatuses` | completeclaim/views.py:151-194 | resolved, checked, done and kudos are refused by both steps; pinged cannot be resolved directly; acknowledged cannot be acknowledged again |
| `CompleteClaims.AcknowledgePing` | completeclaim/views.py:138-175 | 403 outside group Tech, 404 on a missing key, then the conditions of Acknowledge; on success the row with that key becomes Acknowledge's result and no other row or table changes |
| `CompleteClaims.ResolvePing` | completeclaim/views.py:177-204 | 403 outside group Lead, 404 on a missing key, 400 unless acknowledged; on success the row with that key becomes Resolve's result and no other row or table changes |
| `CompleteClaims.Updated` | completeclaim/views.py:169 | saving a reviewed row replaces that row only and keeps validity |
| `CompleteClaims.ResolvedStaysResolved` | completeclaim/views.py:187-198 | no acknowledge or resolve request changes a resolved row |
| `CompleteClaims.AcknowledgeOwnPing` | completeclaim/views.py:148-169 | the tech of a pinged row acknowledges it, recording the tech, the time and the comment; only that row changes |
| `CompleteClaims.ResolveAcknowledged` | completeclaim/views.py:187-198 | a Lead resolves an acknowledged row; only that row changes |
| `CompleteClaims.PingCycle` | completeclaim/views.py:142-198 | acknowledge by the tech, resolve by a lead, then a second acknowledge is 400 and changes nothing |
| `CompleteClaims.AcknowledgeResolvedRefused` | completeclaim/views.py:151-155 | acknowledging a resolved row is 400 and changes nothing |
| `CompleteClaims.ReviewAsPing` | completeclaim/views.py:94-108 | reviewing with a ping severity appends a pinged row owned by the claim's tech |
| `CompleteClaims.BeginThenReview` | completeclaim/views.py:62-110 | begin review then review yields the ReviewedClaim with owner, lead and both times, and removes the CompleteClaim |
| `CompleteClaims.HappyPath` | completeclaim/views.py:62-110 | claim, complete, begin review and review with kudos give the expected records at each step |
| `CaseLookup.InsertByReviewTime` | caselookup/views.py:142 | inserting into a list sorted by review time keeps it sorted and adds exactly that row |
| `CaseLookup.SortByReviewTime` | caselookup/views.py:142 | `order_by('review_time')` is sorted ascending and a permutation of the rows |
| `CaseLookup.Latest` | caselookup/views.py:85-90 | the first row by descending review time is one of the rows and has the greatest review time |
| `CaseLookup.SearchCase` | caselookup/views.py:44-95 | 403 below Lead; 404 iff absent from all three tables; an active hit is that case's claim; a complete hit means no active claim and exactly that row; a reviewed hit has the total count and the latest review |
| `CaseLookup.SearchPrefersActive` | caselookup/views.py:65-70 | on a valid store a case with an active claim has exactly one, and search reports it whatever the other tables hold |
| `CaseLookup.SearchServerError` | caselookup/views.py:65-82 | on a valid store search fails with 500 iff the case is not active and has several CompleteClaims |
| `CaseLookup.GetCaseStatus` | caselookup/views.py:165-209 | 403 below Lead; 404 iff absent from all three tables |
| `CaseLookup.StatusAgreesWithSearch` | caselookup/views.py:175-202 | status gives the same outcome and stage as search, with the owner, the reviewing lead (when set) or the latest review status |
| `CaseLookup.Head` | caselookup/views.py:114-139 | the case's active claim as the first entry and its completed claim right after it, each present exactly when its table has the case |
| `CaseLookup.StagesOrdered` | caselookup/views.py:142-154 | reviews sorted by time, after the earlier stages, keep the timeline ordered |
| `CaseLookup.ReviewsOfStages` | caselookup/views.py:143-154 | the reviews recorded in the timeline are exactly the appended reviews, in order |
| `CaseLookup.CaseHistory` | caselookup/views.py:102-162 | 403 below Lead; 500 iff several active or several complete rows; 404 iff the case is in no table; on success the timeline is non-empty, as long as the three counts together, starts with the case's active claim when there is one and has its completed claim next |
| `CaseLookup.Timeline` | caselookup/views.py:113-154 | the active and complete entries first, then only review entries, whose reviews are the case's reviews sorted by review time; the whole timeline is ordered |
| `CaseLookup.HistoryHoldsAllReviews` | caselookup/views.py:113-154 | an Ok timeline is in stage order, and its reviews are exactly the case's reviews, ascending by review time |
| `CaseLookup.HistoryNotFoundIffSearchNotFound` | caselookup/views.py:156-160 | on a valid store history is 404 exactly when search is |
| `CaseLookup.GetCaseHistory` | caselookup/views.py:113-162 | the view's appends build exactly the response of `CaseHistory` |
| `CaseLookup.AppendReviews` | caselookup/views.py:143-154 | the loop appends one reviewed entry per review, in the given order |
| `CaseLookup.DuplicateCompleteBreaksLookup` | caselookup/views.py:75-81 | two CompleteClaims of an inactive case make search, status and history fail with 500 |
| `Evaluations.SuggestedRating` | evaluation/views.py:325-343 | None iff no quality score, else 1..5; 5 iff quality >= 95 and ping rate < 5; 1 iff quality < 50 |
| `Evaluations.RatingMonotoneInQuality` | evaluation/views.py:334-343 | for a fixed ping rate, a higher quality never lowers the rating |
| `Evaluations.RatingAntitoneInPingRate` | evaluation/views.py:334-343 | for a fixed quality, a higher ping rate never raises the rating |
| `Evaluations.ListEvaluations` | evaluation/views.py:97-121 | 403 below Lead; the two successive filters equal one conjunctive filter |
| `Evaluations.ListedIffMatches` | evaluation/views.py:109-118 | listed iff stored and matching every given non-empty filter; all with no filter |
| `Evaluations.MayChange` | evaluation/views.py:180-189 | the caller may change an evaluation iff they are its evaluator or belong to Manager |
| `Evaluations.UpdateEvaluation` | evaluation/views.py:168-199 | answers only 200, 403, 404 or 400; 404 before the ownership check; 403 iff below Lead or neither evaluator nor Manager; 400 iff a permitted caller sends invalid data; so 200 iff permitted, the key exists and the data is valid; success keeps key, evaluator and creation time, sets fields and update time, changes nothing else |
| `Evaluations.DeleteEvaluation` | evaluation/views.py:202-227 | the same 404 and 403 rules; 204 removes exactly that evaluation; refusals change nothing |
| `Evaluations.ManagerMayChangeAny` | evaluation/views.py:183-190 | a Manager may update or delete any existing evaluation |
| `Evaluations.LeadChangesOnlyOwn` | evaluation/views.py:186-190 | a user below Manager cannot update or delete another evaluator's evaluation |
| `Evaluations.CountInSplit` | evaluation/views.py:283 | counting a list of statuses plus one more adds that status's count |
| `Evaluations.ComputeMetrics` | evaluation/views.py:275-290 | cases reviewed is the row count; quality is None iff there are no rows, and then the ping rate is 0; the rating is derived from both |
| `Evaluations.PingCountSplits` | evaluation/views.py:282-317 | the ping count is the sum of the pingedlow, pingedmed, pingedhigh, acknowledged and resolved counts |
| `Evaluations.PositiveCountSplits` | evaluation/views.py:278-286 | positive reviews are the kudos, checked and done counts |
| `Evaluations.PositiveAndPingsBounded` | evaluation/views.py:278-290 | positive reviews and pings together never exceed the cases reviewed |
| `Evaluations.MetricsCounts` | evaluation/views.py:275-290 | the breakdown adds up to the ping count, and positive plus pings is at most the total |
| `Evaluations.MetricsArePercentages` | evaluation/views.py:285-290 | quality score and ping rate lie in 0..100 and their sum is at most 100 |
| `Evaluations.GenerateEvaluationData` | evaluation/views.py:230-322 | 403 below Lead, 404 for an unknown tech, 400 unless both dates are given; on success the metrics of the tech's reviews in the closed period |
| `Evaluations.EvaluationDataConsistent` | evaluation/views.py:275-322 | the answered ping breakdown adds up to the ping count, positive plus pings is at most the cases reviewed, and quality and ping rate are percentages summing to at most 100 |
| `ParentCases.GetActiveParentCases` | parentcase/views.py:16-19 | exactly the stored parent cases with active set |
| `ParentCases.NormaliseSolution` | parentcase/views.py:26-28 | a missing or empty solution becomes None; any other is kept verbatim |
| `ParentCases.CreateParentCase` | parentcase/views.py:24-38 | 400 with nothing stored iff case number or description is missing or the case number is taken; otherwise one active row owned by the caller is appended |
| `ParentCases.CreatedIsListed` | parentcase/views.py:16-36 | after a create, the active listing is the earlier listing plus the new case |
| `ParentCases.DuplicateRefused` | parentcase/views.py:29-38 | a second create with the same case number is 400 and stores nothing |
| `Storage.Store.constructor` | activeclaim/models.py:4-8 | a new store is empty and valid |
| `Storage.Store.CreateActiveClaim` | activeclaim/views.py:19-27 | updates the tables in place exactly as `ActiveClaims.CreateActiveClaim` and keeps validity |
| `Storage.Store.CompleteActiveClaim` | activeclaim/views.py:32-46 | creates the completed claim, deletes the active one, as `ActiveClaims.CompleteActiveClaim` |
| `Storage.Store.ListActiveClaims` | activeclaim/views.py:51-54 | returns exactly the active claims and changes nothing |
| `Storage.Store.BeginReview` | completeclaim/views.py:62-83 | sets the lead in place, as `CompleteClaims.BeginReview` |
| `Storage.Store.ReviewCompleteClaim` | completeclaim/views.py:89-127 | creates then deletes in place, as `CompleteClaims.ReviewCompleteClaim` |
| `Storage.Store.ListCompleteClaims` | completeclaim/views.py:133-136 | answers as `CompleteClaims.ListCompleteClaims` and changes nothing |
| `Storage.Store.AcknowledgePing` | completeclaim/views.py:142-175 | saves the acknowledged row, with user, time and comment, in place, as `CompleteClaims.AcknowledgePing` |
| `Storage.Store.ResolvePing` | completeclaim/views.py:181-204 | saves the resolved row in place, as `CompleteClaims.ResolvePing` |
| `Storage.Store.UpdateEvaluation` | evaluation/views.py:172-199 | computes the caller's level with the decorator's loop and saves in place, as `Evaluations.UpdateEvaluation` |
| `Storage.Store.DeleteEvaluation` | evaluation/views.py:206-227 | deletes in place, as `Evaluations.DeleteEvaluation` |
| `Storage.Store.CreateParentCase` | parentcase/views.py:24-38 | inserts in place, as `ParentCases.CreateParentCase` |

## Left out

- WebSocket notifications sent by `begin_review` and `review_complete_claim`: asynchronous broadcast I/O with no effect on the store.
- Concurrency: every view is one atomic step. The race between the existence test and the insert in `create_active_claim` is not modelled; the unique index would turn the losing insert into an uncaught error.
- Authentication: the session or token check in front of every view. The caller is an already authenticated `User`, given by name and group names.
- Timestamps: `auto_now_add` and `auto_now` values and `timezone.now()` are the `now` parameter of each view.
- Order of equal review times: the database's order among reviews with the same review time is unspecified. The model places them in key order and proves nothing about ties.
- `Evaluations.ListEvaluations`: the model lists in key order. It does not apply the model's default ordering by descending creation time.
- `Evaluations.ComputeMetrics`: `round(..., 2)` on quality score and ping rate is not modelled; the percentages are exact reals.
- `Evaluations.GenerateEvaluationData`:
  - date parsing (`strptime`) and moving the end date to 23:59:59 are not modelled;
  - the dates are given already parsed, `None` when missing or malformed;
  - the tech is given as `None` when the user id does not exist (404).
- `Evaluations.UpdateEvaluation`:
  - serializer validation is the `valid` parameter;
  - a PATCH's merging of the given fields into the stored ones is not modelled;
  - the new field values are given whole.
- The other evaluation views, `create_evaluation`, `get_user_evaluations` and `get_evaluation_detail`, are not part of this model.
- `ParentCases.CreateParentCase`: the only insert failures modelled are a missing case number, a missing description and a duplicate case number. Field-length limits and other exceptions a store might raise are not modelled.
- Field lengths (`max_length`) of all models are not enforced.
- `CompleteClaims.ReviewCompleteClaim`: a request that sends `"comment": null` explicitly
  reaches the insert with a null comment, which the NOT NULL text column
  rejects with an uncaught error (a 500). The model does not tell an explicit
  null from a missing comment, and stores "" for both.
- Schema: the model follows the schema the views presume, not the model
  files shipped beside them.
  - The views treat `user_id`, `tech_id` and `lead_id` as fields holding
    users, give CompleteClaim a reviewing lead, and give ReviewedClaim the
    acknowledgement fields.
  - activeclaim/models.py:4-8, completeclaim/models.py:4-9 and
    reviewedclaim/models.py:4-25 declare `user`, `tech` and `lead` as text
    fields and have neither the lead of a CompleteClaim nor any
    acknowledgement field. With them, `active_claim.user_id.username`
    (caselookup/views.py:119) and `claim.user_id.username`
    (caselookup/views.py:181) would name attributes that do not exist.
  - Users are compared by user name, which Django keeps unique.
  - Under reviewedclaim/migrations/0002_alter_reviewedclaim_lead_alter_reviewedclaim_tech.py,
    `tech` is a foreign key and `claim.tech_id` its integer key. There
    `claim.tech_id != request.user` (completeclaim/views.py:158) compares a
    key with a user, always holds, and every acknowledge of a pinged claim
    would answer 403. The model compares the tech with the caller instead.
- Serializers, URL routing, `get_routes`, reports, user views, the user-creation signal and the routed views that have no source here (`unclaim_active_claim`, manual pings, parent-case updates, user role editing).
