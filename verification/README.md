# Verified model of the career platform's protocols and evaluation arithmetic

This project models the parts of the repository whose correctness is an argument rather than a
test case, and proves what their documentation promises. Four kinds of thing are modelled.

**Sessions and emailed links** (`AuthStore`, `Authentication`, `AuthSafety`, `AuthEffects`,
`AuthLinks`, `AuthChains`). A refresh token rotates inside a family; replaying a spent one ends
the family, and so does an idle one; a password change ends every session of the account. The
class `AuthService` holds what is committed and what the current request sees, and its methods change
both step by step, as the service does; `Handle` commits on a normal return and rolls back on a
raise. Each method is proved equal to a specification function, and the lemmas are about runs of
those functions: any number of requests of any kind, in any order, under settings that may
change between requests unless a lemma says otherwise.

**Tables under upserts** (`Applications`, `CareerEntities`, `CandidateSkills`, `FetchBudget`).
The applications table with its tombstones refines a plain map; a resume re-parse is described
for every key of the table; user decisions about skills outlive extraction; and the scheduler's
check, fetch and record steps are interleaved for any number of processes.

**Evaluation arithmetic** (`Sequences`, `Ties`, `Ranks`, `LengthBaseline`, `TieValue`,
`Correlation`, `CorrelationValue`, `Ndcg`, `NdcgRange`, `NdcgValue`, `Tfidf`, `TfidfValue`, `RealArith`).
Floats are exact reals. The tied-rank scan and the length baseline are the same loop over groups
of a sorted order, so both are instances of one theory of shares (`Ties`). The bounds are
Cauchy-Schwarz and the rearrangement inequality, proved from nothing; each metric's value is
stated by a law of its own.

**The marking sheet** (`SheetScan`, `SheetSections`, `SheetMarks`, `SheetGrammar`, `SheetSearch`,
`ReviewSheet`, `ReviewShown`, `ReviewParser`, `ReviewRefusals`, `ReviewRoundTrip`,
`ReviewReadBack`, `ReviewVerdicts`, `ReviewExact`, `ReviewForgery`). A sheet is printed around
untrusted answer text, marks are typed into it, and it is read back. The regular expressions are
followed character by character, and what each matches is said again as the pieces of text a
match is made of. What the reader accepts, refuses and records is stated for every text; the
round trip is stated with the exact condition on the answers, and with an answer that breaks it.

**Identifiers** (`Uuid7`). Bit fields shifted and OR-ed into place, per section 5.7 of RFC 9562.

`Prelude` holds the `Option` and `Result` datatypes.

## What the code does that its text does not say

- `backend/app/workers/job_fetch_scheduler.py:50-54` says two processes at worst duplicate one
  request. For N processes and fetches of at most P pages the exact bound is the budget less one
  plus N times P (`OverspendBounded`). With at least two queries configured it is reached for
  every budget, every P and every N from one on (`OverspendReached`).
- `backend/app/api/v1/skills.py:186-210` sets `is_user_verified` on a row without looking at
  `is_rejected`. On a rejected row the table's own CHECK (`backend/app/models/skill.py:176-179`)
  refuses the write. `RefusedExactly` says which operations end so after any run, and
  `EditAfterRemovalRefused` gives the shortest such run.
- `backend/app/repositories/career.py:37-76` is one INSERT; two entries with one key make it fail
  as a whole unless the row is held by the user. `UpsertFailsExactly` gives the condition, and
  `StoreEntities` shows that de-duplication before it always avoids it.
- `ml/evaluation/metrics.py:61-82` takes any integer labels. With a negative one in a pool of
  several the score can leave [0, 1] (`NegativeScore`); `RangeExactly` says when it cannot.
- `ml/evaluation/read_scoring_review.py:57` accepts a heading wherever a line begins, and the
  SCORES line is the last of a section. An answer with a filled SCORES line and a heading below
  it therefore records marks on a sheet nobody has typed into: `ForgedMarksRecorded` for any such
  sheet, `FreshSheetWithMarks` for one. `ReadsBackExactly` and `FreshSheetExactly` give the exact
  conditions on the answers.
- `ml/evaluation/read_scoring_review.py:95` reads the digits at the start of what was typed and
  nothing after them, so a mark that is not a whole number is rounded down without an error:
  8.5 is recorded as 0.8 (`NumbersRoundDown`).
- `backend/app/core/config.py:289-294` accepts an idle window equal to the access token's lifetime,
  saying that a refresh happens only when that token has expired. At equality a refresh at the
  very moment of expiry finds the session idle (`RefreshAtAccessExpiry`); what the bound does give
  is that no session is idle while its access token is good (`CoherentExactly`).

## Model

| member | source | states |
|---|---|---|
| Authentication.AuthService.IssueTokenPair | backend/app/services/auth.py:504-548 | a new token of the family is stored with its lifetime, and the one it replaces is revoked pointing at it; nothing is committed |
| Authentication.AuthService.IssueVerificationToken | backend/app/services/auth.py:85-115 | every outstanding link of the account and purpose is used up before the new one is stored |
| Authentication.AuthService.ConsumeVerificationToken | backend/app/services/auth.py:117-153 | only a stored, unused, unexpired link of this purpose is marked used; every other case is refused and writes nothing |
| Authentication.AuthService.EndFamily | backend/app/services/auth.py:341-352 | the family's live rows are revoked and the revocation is committed at once |
| Authentication.AuthService.Register | backend/app/services/auth.py:156-211 | a taken address is refused; otherwise account, first session and verification link are created together |
| Authentication.AuthService.Login | backend/app/services/auth.py:214-253 | a session in a fresh family, or the same refusal for every reason |
| Authentication.AuthService.Refresh | backend/app/services/auth.py:256-338 | reuse is decided before expiry, expiry before idleness, idleness before the account; only the first and third commit before raising |
| Authentication.AuthService.Logout | backend/app/services/auth.py:354-364 | revokes the presented token if it is stored and live, and never fails |
| Authentication.AuthService.ChangePassword | backend/app/services/auth.py:367-386 | with the right current password, replaces it and revokes every live token of the account |
| Authentication.AuthService.RequestPasswordReset | backend/app/services/auth.py:389-430 | always answers alike; issues a link only for an active account with a password |
| Authentication.AuthService.ResetPassword | backend/app/services/auth.py:432-455 | consumes the link first, so a refusal after it is left to the rollback; success revokes every session and confirms the address |
| Authentication.AuthService.VerifyEmail | backend/app/services/auth.py:458-473 | consumes the link and confirms the address once |
| Authentication.AuthService.ResendVerification | backend/app/services/auth.py:475-501 | issues a link unless the address is already confirmed |
| Authentication.AuthService.Handle | backend/app/core/database.py:70-84 | one request is one step of the specification: committed on return, rolled back on a raise, except for what was committed on the way |
| Authentication.AuthService.HandleAll | backend/app/core/database.py:70-84 | any list of requests leaves the tables of the specified run, and each answer is the one given in the state the requests before it left |
| AuthSafety.ServeEvolves | backend/app/services/auth.py:156-548 | whatever the request, rows keep identity and stay revoked, at most one token is new, and it starts a family or replaces the live token of one; the same for links |
| AuthSafety.RunKeepsValid | backend/app/services/auth.py:504-548 | over any run a family stays with one account and only its latest token can be live, and ids are never reused |
| AuthSafety.OneLiveTokenPerSession | backend/app/repositories/refresh_token.py:32-52 | from empty tables, in every reachable state: at most one live token per family and one unused link per account and purpose |
| AuthSafety.EndsFamily | backend/app/services/auth.py:264-323 | presenting a revoked token, or a live one past the idle window, is refused, and in the committed tables the family is dead and every other row as it was |
| AuthSafety.DeathIsFinal | backend/app/repositories/refresh_token.py:37-52 | a family without a live token never has one again, through any run |
| AuthSafety.RefusedSessionIsOver | backend/app/services/auth.py:269-323 | after any history, such a refusal and any further run, no token of that family is accepted, not even one rotated to since |
| AuthSafety.OldSessionsStayOver | backend/app/repositories/refresh_token.py:54-64 | if every session of an account begun before some id is dead, that holds through any run |
| AuthSafety.NewPasswordEndsSessions | backend/app/services/auth.py:367-455 | after a committed change or reset no refresh token issued earlier is ever accepted for that account; whatever is accepted comes from a session begun later |
| AuthSafety.RunKeepsIdentity | backend/app/repositories/refresh_token.py:21-30 | a row still present after any run is the same token: owner, family and expiry unchanged |
| AuthEffects.RefreshAnswer | backend/app/services/auth.py:256-338 | any refresh is answered by the first test that fails: stored, unrevoked, unexpired, not idle, account active; else with tokens of the row's account |
| AuthEffects.RefreshRotates | backend/app/services/auth.py:329-338 | a successful refresh hands out a token never seen before, live in the same family with the configured lifetime; the one presented is revoked now and points at it; every other row of every table is equal |
| AuthEffects.SpentIsReuse | backend/app/services/auth.py:269-294 | a revoked token is answered as reuse after any run that leaves its row stored, and as unknown once its row is purged |
| AuthEffects.NeverHonouredTwice | backend/app/services/auth.py:269-338 | a token honoured once is reuse the next moment, and refused after any run |
| AuthEffects.RotatedTokenWorks | backend/app/services/auth.py:504-548 | the token handed out is accepted next if and only if both windows are still open |
| AuthEffects.RefreshAtAccessExpiry | backend/app/core/config.py:289-295 | a live token presented the moment the access token expires is idle if and only if the idle window is no longer than that lifetime |
| AuthEffects.LoginExactly | backend/app/services/auth.py:214-253 | signing in succeeds if and only if the address leads to an active account with this password; it then opens one session in a family no row has, and changes nothing else |
| AuthEffects.RegisterExactly | backend/app/services/auth.py:156-211 | registering succeeds if and only if the address is free; the account holds the password, the session is new, and one link is good for the configured hours |
| AuthEffects.LogoutExactly | backend/app/services/auth.py:354-364 | always answered alike; the presented token, if stored and live, is revoked now, and nothing else changes |
| AuthEffects.LogoutEndsSession | backend/app/services/auth.py:354-364 | after signing out with a live token and any run, no refresh is answered from its family |
| AuthEffects.ChangeExactly | backend/app/services/auth.py:367-386 | a change succeeds if and only if the account is active and the current password right; the new one is stored and exactly the account's live tokens are revoked |
| AuthEffects.ResetTakesEffect | backend/app/services/auth.py:432-455 | an answered reset spends its link, stores the new password, confirms an unconfirmed address and revokes exactly the account's live tokens |
| AuthEffects.VerifyTakesEffect | backend/app/services/auth.py:458-473 | an answered verification spends its link and dates the confirmation unless it was dated before; password, sessions and addresses are as they were |
| AuthEffects.NewPasswordSignsIn | backend/app/services/auth.py:214-455 | after a committed change or reset and any run that leaves the account alone, its address signs in with the new password and no other |
| AuthEffects.RequestResetExactly | backend/app/services/auth.py:389-430 | a link good for the configured minutes goes out exactly for an active account with a password, using up its earlier ones; otherwise nothing changes; the answer is the same |
| AuthEffects.ResendExactly | backend/app/services/auth.py:475-501 | refused for no active account, nothing for a confirmed one, else a new link that uses up the earlier ones |
| AuthEffects.PurgeTokensExactly | backend/app/repositories/refresh_token.py:78-89 | deletes exactly the tokens that expired before the cutoff; a survivor changes only by a pointer to a deleted row being cleared |
| AuthEffects.PurgeLinksExactly | backend/app/repositories/verification.py:51-57 | deletes exactly the links that expired before the cutoff |
| AuthEffects.RunKeepsAccounts | backend/app/services/auth.py:156-211 | over any run every address leads to an account of its own |
| AuthLinks.LinkHonouredExactly | backend/app/models/verification.py:70-78 | a link works if and only if stored, for this purpose, unused, strictly before expiry, with an account that may use it; working spends it |
| AuthLinks.SpentStaysSpent | backend/app/repositories/verification.py:48-57 | a spent link is spent after any run, purges included |
| AuthLinks.LinkConsumedOnce | backend/app/services/auth.py:117-153 | no link is consumed by two committed requests of a run, for any purposes |
| AuthLinks.RaisingRollsBack | backend/app/core/database.py:70-84 | a request that raises leaves the committed tables as they were, unless it raised to end a session |
| AuthLinks.RefusedResetKeepsLink | backend/app/services/auth.py:432-439 | a reset refused after marking its link used leaves the link usable in the committed tables |
| AuthLinks.ResendReplacesLink | backend/app/services/auth.py:94-114 | after a resend the new link is the only unused one of its account and purpose |
| AuthChains.RotationKeepsChain | backend/app/services/auth.py:533-542 | rotating the live token extends the family's chain by one row |
| AuthChains.RunKeepsChain | backend/app/repositories/refresh_token.py:32-52 | without purging, every family is one chain in order of issue: each row points at the next of its family and account, only the last at none |
| AuthChains.ReplacementIsNeverShared | backend/app/repositories/refresh_token.py:32-35 | no two rows name the same replacement |
| AuthChains.PurgeKeepsChain | backend/app/repositories/refresh_token.py:78-89 | with expiries in order of issue a purge deletes a prefix: no pointer dangles, no surviving row changes |
| AuthChains.RunKeepsSteady | backend/app/models/user.py:189-199 | under one configuration and a clock that never runs back, purges included, chains hold, every row carries the configured lifetime, and consecutive rotations are less than the idle window apart |
| AuthChains.AcceptedExactly | backend/app/core/config.py:281-301 | under a configuration the validator accepts, refresh succeeds if and only if the token is unrevoked, within the idle window, and its account active: absolute expiry never decides |
| AuthChains.BoundIsExact | backend/app/core/config.py:296-300 | the validator's upper bound holds if and only if every expired token is also idle |
| AuthChains.CoherentExactly | backend/app/core/config.py:281-301 | the validator accepts exactly the settings under which no session is idle while its access token is good and every expired refresh token is idle |
| AuthChains.PurgeIsHarmless | backend/app/repositories/refresh_token.py:78-89 | a purge up to a cutoff changes the acceptance of no token presented at or after it |
| AuthChains.PurgedWasWorthless | backend/app/repositories/refresh_token.py:78-89 | a row such a purge deletes would not have been accepted at any later point of any run had it been kept |
| Applications.ApplicationRepository.Upsert | backend/app/repositories/application.py:20-109 | the abstract map gains exactly the wanted relation, the row returned shows it, tombstones are untouched; asking for neither saved nor applied fails and changes nothing |
| Applications.ApplicationRepository.GetForJob | backend/app/repositories/application.py:111-119 | returns the live row if and only if the map has the pair, with the map's value |
| Applications.ApplicationRepository.ForJobs | backend/app/repositories/application.py:121-139 | returns exactly the requested jobs the map has, each with the live row of that user and job, which shows the map's value |
| Applications.ApplicationRepository.SoftDelete | backend/app/repositories/application.py:141-160 | removes the pair from the map, keeps every tombstone, and reports whether there was one |
| Applications.UpsertRefines | backend/app/repositories/application.py:63-109 | the statement keeps both CHECKs and one live row per pair, writes one map entry and no other row, and keeps the creation time of a row it updates |
| Applications.DeleteRefines | backend/app/repositories/application.py:141-160 | soft deletion removes one map entry and alters only the live row's deletion time |
| Applications.RunRefines | backend/app/models/application.py:136-194 | any run over the table shows the run over a plain map, with index, CHECKs and tombstones kept throughout |
| Applications.ShowsIsUnique | backend/app/models/application.py:145-151 | a table shows one map only, so the refinement is not vacuous |
| Applications.ResavingNeverRevives | backend/app/models/application.py:140-144 | saving again after a removal, whatever happens to other pairs in between: the removed row keeps all it recorded under its deletion time, and the pair's only live row is a new one, a bare bookmark created now |
| Applications.StatedExactly | backend/app/repositories/application.py:20-109 | what the live row holds once a relationship is stated: status, bookmark, date, snapshot only with an application, creation time kept; no other row changes and a row is added only without a live one |
| Applications.NeitherRefused | backend/app/models/application.py:182-194 | asking for neither is an integrity error and leaves every row alone |
| Applications.RunKeepsCoherent | backend/app/models/application.py:161-194 | over any run a row is applied exactly when dated, and a bookmark carries no snapshot |
| CareerEntities.Deduplicate | backend/app/services/resume/entities.py:652-667 | the loop returns the first entry of each key, in order |
| CareerEntities.DedupedKeepsFirsts | backend/app/services/resume/entities.py:653-658 | an entry is kept if no earlier one shares its key, and dropped only for an earlier one |
| CareerEntities.DedupedExactly | backend/app/services/resume/entities.py:652-667 | exactly the entries no earlier one shares a key with are kept, in the order they stood |
| CareerEntities.CareerEntityRepository.UpsertFromExtraction | backend/app/repositories/career.py:37-76 | fails, changing nothing, exactly on a repeated key not held by the user; otherwise the table is the statement's |
| CareerEntities.CareerEntityRepository.DeleteStaleRows | backend/app/repositories/career.py:78-99 | deletes the version's unverified rows outside the keys, and counts them |
| CareerEntities.CareerEntityRepository.StoreEntities | backend/app/services/resume/pipeline.py:400-425 | for any extraction, repeats included, the upsert cannot fail and the table is the re-parse of the de-duplicated entries |
| CareerEntities.UpsertMeetsSpec | backend/app/repositories/career.py:50-76 | with distinct keys every row is inserted, overwritten or left to the user, and no other key changes |
| CareerEntities.UpsertFailsExactly | backend/app/repositories/career.py:50-76 | the statement fails if and only if two entries share a key no verified row holds |
| CareerEntities.ReparseExactly | backend/app/repositories/career.py:37-99 | the version's unverified rows are exactly the extracted keys the user does not hold, with the extracted content; verified rows, other users and other documents are untouched |
| CareerEntities.ReparseIdempotent | backend/app/repositories/career.py:37-99 | parsing the same document again changes nothing but timestamps |
| CareerEntities.ResumeLeavesWithItsRows | backend/app/repositories/career.py:101-116 | deleting a resume removes the user's rows from its versions, verified or not, and no others |
| CareerEntities.AssertedHolds | backend/app/api/v1/career.py:103-178 | through any run of re-parses, edits, additions and deletions a row the user asserted keeps its identity and provenance and holds what the user last wrote, until the user or the deletion of its own resume removes it |
| CareerEntities.OnlyTheUserAsserts | backend/app/api/v1/career.py:103-163 | a row becomes the user's only by the user's own addition or accepted edit, never by a parse |
| CareerEntities.EditExactly | backend/app/api/v1/career.py:128-170 | an accepted edit of a stored row, extracted or not, writes the content and makes it the user's, keeping identity, provenance and creation time; any other edit changes nothing |
| CareerEntities.AddAndDeleteExactly | backend/app/api/v1/career.py:103-178 | an addition stores the user's own row, of no resume, unless the key is taken; a deletion removes the row; no other key changes |
| CareerEntities.WhatTheUserWroteHolds | backend/app/api/v1/career.py:103-170 | what the user wrote, over an extraction or from nothing, is held after any run that does not remove the row, or what the user wrote there since |
| CandidateSkills.CandidateSkillRepository.UpsertFromExtraction | backend/app/repositories/skill.py:148-192 | true exactly when a row was written, which is exactly when no decision stands; an out-of-range confidence fails |
| CandidateSkills.CandidateSkillRepository.Reject | backend/app/repositories/skill.py:194-207 | the row is kept, marked rejected and unverified, and leaves the list |
| CandidateSkills.CandidateSkillRepository.DeleteForResume | backend/app/repositories/skill.py:249-273 | removes and counts the user's rows from the resume's versions, decided or not |
| CandidateSkills.RunKeepsValid | backend/app/models/skill.py:164-180 | over any run no row is both verified and rejected and confidences stay fractions |
| CandidateSkills.RefusedExactly | backend/app/api/v1/skills.py:186-210 | after any run from the empty table, the database refuses exactly an extraction whose confidence is no fraction and an edit of a removed skill; removing and adding back never break a CHECK |
| CandidateSkills.EditAfterRemovalRefused | backend/app/api/v1/skills.py:186-210 | extract, remove, edit: the edit fails on the CHECK and changes nothing |
| CandidateSkills.ExtractionDefers | backend/app/repositories/skill.py:148-192 | extraction touches only its own pair, writes it if and only if undecided, and never adds a second row |
| CandidateSkills.RejectionHolds | backend/app/repositories/skill.py:120-129 | a rejected skill stays rejected and unlisted through any run that neither adds it back nor deletes its resume |
| CandidateSkills.RejectionLifts | backend/app/api/v1/skills.py:136-153 | each of the two does end it: adding back lists the skill beyond the reach of any resume deletion, deletion forgets the decision |
| CandidateSkills.ConfirmationHolds | backend/app/repositories/skill.py:148-192 | a confirmed row is exactly as it was through any run without a rejection or the deletion of its resume |
| CandidateSkills.UserExactly | backend/app/api/v1/skills.py:89-234 | the answer and the row left by confirming, removing and adding, for a missing, standing and rejected row each |
| CandidateSkills.DeletionExactly | backend/app/repositories/skill.py:249-273 | a resume takes exactly the user's rows that came from its versions |
| CandidateSkills.AssertedStaysListed | backend/app/repositories/skill.py:120-192 | a skill confirmed or added is verified and listed, and exactly so after any run that neither removes it nor deletes the resume it came from |
| FetchBudget.Scheduler.Record | backend/app/repositories/job_fetch.py:56-89 | appends one row |
| FetchBudget.Scheduler.RunOneFetch | backend/app/workers/job_fetch_scheduler.py:47-122 | records exactly when the fetch reports, a query is chosen, the day's spend is below the budget, and not both every query was asked in the last 90 days and the spend has reached the smaller budget; one row is added, for at least one request, and the answer says whether; a tick alone is a check step followed by a record or raise step |
| FetchBudget.StepStaysWithin | backend/app/workers/job_fetch_scheduler.py:58-108 | no step of any process takes spent plus in-flight past the cap less one plus a fetch of every process |
| FetchBudget.OverspendBounded | backend/app/workers/job_fetch_scheduler.py:50-54 | for N processes interleaved in any way, across any midnight, no day's recorded requests exceed the budget less one plus N fetches; budget + N - 1 with single pages |
| FetchBudget.OverspendReached | backend/app/workers/job_fetch_scheduler.py:50-54 | with at least two queries configured, for every budget, every page limit and every number of processes from one on some run reaches that bound exactly |
| FetchBudget.ExhaustedSpendsLess | backend/app/workers/job_fetch_scheduler.py:72-78 | once every query was asked recently enough to last the run, the smaller budget bounds the day in the same way |
| FetchBudget.DayWithinSince | backend/app/repositories/job_fetch.py:16-39 | the day's spend never exceeds what the check reads since midnight, also when read on an earlier day |
| FetchBudget.TodayExactly | backend/app/repositories/job_fetch.py:30-39 | with no row stamped on a later day, what the check reads is the day's spend to the request |
| FetchBudget.MidnightExactly | backend/app/repositories/job_fetch.py:30-39 | the start of the day is the multiple of a day at most a day before now, and is where the day's number begins |
| FetchBudget.SpentGrows | backend/app/repositories/job_fetch.py:16-28 | one more row adds what it spent to its own day and to no other |
| Ranks.ComputeTiedRanks | ml/evaluation/metrics.py:210-229 | the nested scan computes, for each value, those below it plus the middle of those equal to it |
| Ranks.RanksSum | ml/evaluation/metrics.py:210-229 | the ranks of n values sum to n(n+1)/2 |
| Ranks.RanksFollowValues | ml/evaluation/metrics.py:210-229 | ranks order and tie exactly as the values do |
| Ranks.RanksRearrange | ml/evaluation/metrics.py:210-229 | presenting the values in another order presents the same ranks in that order |
| Ranks.RanksOnlySeeOrder | ml/evaluation/metrics.py:119-146 | two sequences have equal ranks if and only if they order their positions alike |
| Ranks.RanksAreShares | ml/evaluation/metrics.py:210-229 | averaged ranks are the places 1 to n dealt out with ties pooling |
| Ties.GroupEnd | ml/evaluation/metrics.py:222-224 | the inner loop finds the last place of a maximal run of equal keys |
| Ties.FillGroup | ml/evaluation/metrics.py:226-227 | the write loop gives every item of the run its share and alters nobody else's |
| Ties.SharesConserve | ml/evaluation/scoring_baselines.py:85-97 | pooling ties loses and invents nothing |
| Ties.SharesFollowKeys | ml/evaluation/scoring_baselines.py:58-97 | a larger key never gets less, equal keys get the same, and strictly more when the values dealt differ |
| LengthBaseline.PredictByLength | ml/evaluation/scoring_baselines.py:58-97 | lists of different length are refused; otherwise the predictions are the sorted marks dealt out by length |
| LengthBaseline.DealOut | ml/evaluation/scoring_baselines.py:82-97 | the nested scan gives each item the average of the marks its group spans |
| LengthBaseline.TotalConserved | ml/evaluation/scoring_baselines.py:58-72 | the predictions sum to the human marks |
| LengthBaseline.PredictionsFollowLength | ml/evaluation/scoring_baselines.py:58-72 | longer never predicts less, equal lengths predict alike, and every prediction lies between two awarded marks |
| LengthBaseline.DistinctLengthsPermuteMarks | ml/evaluation/scoring_baselines.py:58-72 | with distinct lengths the predictions are the marks rearranged, the k-th shortest taking the k-th lowest |
| LengthBaseline.ArrivalOrderIrrelevant | ml/evaluation/scoring_baselines.py:58-97 | neither the order of the answers nor that of the marks matters |
| TieValue.PredictionExactly | ml/evaluation/scoring_baselines.py:58-97 | the answers of one length pool the marks at their places in ascending order, after one mark for every shorter answer, and each takes its part of that sum |
| TieValue.RankExactly | ml/evaluation/metrics.py:210-229 | twice a rank is twice the number of items below, plus the number tied, plus one |
| Correlation.CauchySchwarz | ml/evaluation/metrics.py:149-188 | the squared inner product is at most the product of the squared norms |
| Correlation.PearsonSound | ml/evaluation/metrics.py:149-188 | symmetric, in [-1, 1], and None exactly for fewer than two items or a constant side |
| Correlation.SpearmanSound | ml/evaluation/metrics.py:119-146 | the same for the rank correlation |
| Correlation.SpearmanSeesOrderOnly | ml/evaluation/metrics.py:119-146 | unchanged when either side is replaced by one ordered alike |
| Correlation.IncreasingKeepsOrder | ml/evaluation/metrics.py:119-146 | any strictly increasing transform orders alike, so Spearman is unchanged by it |
| Correlation.BiasedMarkerCorrelatesPerfectly | ml/evaluation/metrics.py:149-207 | a marker wrong by a constant correlates at exactly 1 while the mean absolute error is that constant's size |
| Correlation.ErrorZeroExactly | ml/evaluation/metrics.py:191-207 | the error is never negative, and zero if and only if the two sides agree everywhere |
| CorrelationValue.PearsonValue | ml/evaluation/metrics.py:149-188 | the coefficient times the root of the product of the two sums of squared deviations is the sum of the products of deviations |
| CorrelationValue.SpearmanValue | ml/evaluation/metrics.py:119-146 | the same of the tied ranks |
| CorrelationValue.PearsonOfLine | ml/evaluation/metrics.py:149-188 | replacing a side by a rising line of it keeps the coefficient, by a falling one negates it, refusals and None included |
| CorrelationValue.PearsonPerfect | ml/evaluation/metrics.py:149-188 | a side against a rising line of itself gives exactly 1, against a falling one exactly -1 |
| CorrelationValue.SpearmanReversed | ml/evaluation/metrics.py:119-146 | turning one side's order round, ties included, negates the rank correlation |
| CorrelationValue.SpearmanPerfect | ml/evaluation/metrics.py:119-146 | the same order gives exactly 1 and the opposite order exactly -1, ties and all |
| CorrelationValue.ErrorGrows | ml/evaluation/metrics.py:191-207 | each item adds the distance between its two marks to the error times the number of items |
| CorrelationValue.ErrorOfOne | ml/evaluation/metrics.py:191-207 | one item's error is its distance, and no items have none |
| CorrelationValue.RefusedExactly | ml/evaluation/metrics.py:119-207 | lists of different length are refused and nothing else is |
| Ndcg.DcgLargestBestFirst | ml/evaluation/metrics.py:53-58 | for any labels and any k no ordering beats best-first, and one equals it if and only if its first k labels are the same |
| Ndcg.TopOfBestIsAhead | ml/evaluation/metrics.py:61-82 | labels drawn from a pool score at most the pool's best of the same number, with equality only for those labels in that order |
| Ndcg.NdcgInRange | ml/evaluation/metrics.py:61-82 | against a pool holding the ranked labels, None exactly when the pool carries no gain, otherwise in [0, 1] |
| Ndcg.NdcgPerfectExactly | ml/evaluation/metrics.py:61-82 | 1 exactly when the first k labels are the best first k |
| NdcgRange.RangeExactly | ml/evaluation/metrics.py:61-82 | for every pool of labels of either sign: each selection from it, in any order and cut anywhere, has NDCG None or in [0, 1] if and only if the pool has no negative label or a single distinct one |
| NdcgRange.NegativeScore | ml/evaluation/metrics.py:61-82 | a concrete pool with a negative label whose NDCG is -1/2, under every logarithm |
| Ndcg.AheadOnPrefixes | ml/evaluation/metrics.py:53-58 | a sequence ahead on every prefix sum is ahead under any decreasing discount, level only if identical |
| NdcgValue.GainLaw | ml/evaluation/metrics.py:18-58 | the gain is 0 at 0, and one label more doubles it and one, for labels of either sign |
| NdcgValue.GainIsOnly | ml/evaluation/metrics.py:53-58 | no other function of the label does both |
| NdcgValue.ScaleGains | ml/evaluation/metrics.py:18-21 | the labels of the scale gain 0, 1, 3 and 7: an excellent match is worth more than two good ones |
| NdcgValue.NextTerm | ml/evaluation/metrics.py:53-58 | the label at place i before the cutoff adds its gain over log2(i + 2), a later one nothing, and no label makes no sum |
| NdcgValue.ScoreExactly | ml/evaluation/metrics.py:61-82 | refused exactly for a cutoff below one, None exactly when the best order of the pool sums to nothing, else what times that sum is the ranking's own; without a pool its own labels are it |
| Tfidf.SparseDotIsFull | ml/evaluation/baselines.py:122-127 | iterating the smaller vector gives the dot product over all coordinates |
| Tfidf.FullDotBounded | ml/evaluation/baselines.py:122-132 | Cauchy-Schwarz for vectors held as dictionaries |
| Tfidf.CosineSymmetric | ml/evaluation/baselines.py:122-132 | the cosine does not depend on the order of its arguments |
| Tfidf.CosineInRange | ml/evaluation/baselines.py:122-132 | between positive vectors in [0, 1], and 0 exactly when no coordinate is shared |
| Tfidf.CosineWithSelf | ml/evaluation/baselines.py:122-132 | a non-empty positive vector has cosine 1 with itself |
| Tfidf.SmoothedIdfAtLeastOne | ml/evaluation/baselines.py:89-94 | every smoothed weight is at least 1 |
| Tfidf.RankingInRange | ml/evaluation/baselines.py:74-104 | every document gets a score in [0, 1], 0 exactly when it shares no token with the query |
| Tfidf.IdenticalScoresOne | ml/evaluation/baselines.py:74-119 | a posting with the query's tokens in any order scores 1 |
| TfidfValue.WeightExactly | ml/evaluation/baselines.py:85-94 | exactly the tokens of some document have a weight, and in c of n documents it is ln(n + 1) - ln(c + 1) + 1 |
| TfidfValue.RarerWeighsMore | ml/evaluation/baselines.py:89-94 | a token in every document weighs 1, and of two the one in fewer documents weighs more |
| TfidfValue.CoordinateExactly | ml/evaluation/baselines.py:107-119 | a vector holds exactly the text's weighted tokens, each its weight once and ln of its number of places times more |
| TfidfValue.DotGrows | ml/evaluation/baselines.py:122-127 | a coordinate both vectors gain adds its product to the dot product, and one only the first gains adds nothing |
| TfidfValue.CosineExactly | ml/evaluation/baselines.py:122-132 | the cosine times the two lengths is the dot product; without coordinates it is 0 |
| ReviewSheet.BuildSheet | ml/evaluation/make_scoring_review.py:121-164 | succeeds exactly when every question has a role and one answer per letter, and prints the specified sheet |
| ReviewSheet.SheetHidesProfiles | ml/evaluation/make_scoring_review.py:121-128 | relabelling every profile prints the same sheet, character for character |
| ReviewRoundTrip.SheetIsDocument | ml/evaluation/make_scoring_review.py:140-164 | the joined text is a document of plain lines and answers, with whatever is typed in |
| ReviewReadBack.PrintedExactly | ml/evaluation/make_scoring_review.py:140-162 | the ids printed are exactly those of the answers to some question, five a question |
| ReviewShown.QuestionShown | ml/evaluation/make_scoring_review.py:140-162 | each question stands on the sheet with its own number, topic, role, text and rubric, and below it its five answers lettered A to E in the shuffled order, each with its own id, text and line |
| ReviewShown.LetterExactly | ml/evaluation/make_scoring_review.py:141-150 | the answer under each letter is the one the shuffle puts there out of the question's answers in the order given |
| ReviewShown.BlankLine | ml/evaluation/make_scoring_review.py:117-118 | the line under an answer of a fresh sheet, character for character |
| ReviewShown.DecimalExactly | ml/evaluation/make_scoring_review.py:147-150 | a printed number is its numeral without leading zeros |
| SheetSections.SplitDocument | ml/evaluation/read_scoring_review.py:135-147 | splitting a printed document gives each answer's section, the answer's own headings splitting it further and nothing else |
| SheetSections.SectionsFoundExactly | ml/evaluation/read_scoring_review.py:57-57 | the ids of the sections found are the ids printed if and only if no answer contains a heading; what is then read is the matter of `ReadsBackExactly` |
| SheetMarks.ScoresLineFound | ml/evaluation/read_scoring_review.py:66-85 | whatever the answer says, SCORES lines included, the line read is the one printed below it |
| SheetMarks.MarkFound | ml/evaluation/read_scoring_review.py:94-101 | on that line what is read for each dimension is the reading of its own entry, whatever is typed in the others on one line without an equals sign, also when one name begins like another |
| SheetScan.DigestFound | ml/evaluation/read_scoring_review.py:58-58 | the first comment matched is the printed one |
| SheetGrammar.HeadingExactly | ml/evaluation/read_scoring_review.py:57-57 | a heading is matched if and only if the text is the pieces of one, with the only possible id and rest |
| SheetGrammar.MarkExactly | ml/evaluation/read_scoring_review.py:95-101 | an entry is matched if and only if the text is the name, spaces, an equals sign, spaces, and a blank or all the digits that stand there |
| SheetGrammar.FindMarkExactly | ml/evaluation/read_scoring_review.py:95-95 | the entry read is the one at the first place with a word boundary where one matches; none exactly when nowhere |
| SheetGrammar.CommentExactly | ml/evaluation/read_scoring_review.py:58-58 | a digest comment is matched at a position if and only if the text there is the pieces of one |
| SheetGrammar.FindDigestExactly | ml/evaluation/read_scoring_review.py:58-58 | the search gives the first comment of the text by position, and nothing exactly when there is none |
| SheetSearch.LinesExactly | ml/evaluation/read_scoring_review.py:79-81 | the lines are the only ones the text can be cut into at its breaks |
| SheetSearch.ScoresExactly | ml/evaluation/read_scoring_review.py:79-81 | stripping a line and asking how it starts is asking for SCORES after spaces |
| SheetSearch.ScoresLineExactly | ml/evaluation/read_scoring_review.py:79-85 | the line read is the last of the section that begins with SCORES; none exactly when no line does |
| SheetSearch.SplitNone | ml/evaluation/read_scoring_review.py:135-137 | text without a heading at the beginning of a line has no section |
| SheetSearch.SplitFirst | ml/evaluation/read_scoring_review.py:135-147 | the first such heading ends the preamble, names the section, and what follows it is cut on in the same way |
| ReviewParser.CollectMarks | ml/evaluation/read_scoring_review.py:88-110 | the loop over the dimensions stops at the first fault or collects marks and blanks |
| ReviewParser.MarksIn | ml/evaluation/read_scoring_review.py:88-118 | None for an untouched row, an error for one marked in part, else its marks |
| ReviewParser.ParseReview | ml/evaluation/read_scoring_review.py:121-149 | digest first, then section by section, the first fault deciding |
| ReviewRefusals.ReviewAcceptsExactly | ml/evaluation/read_scoring_review.py:121-149 | any text is read if and only if its first digest comment is the expected one, it has a section, and every section names a known answer and has a SCORES line whose row is blank or filled |
| ReviewRefusals.DigestDecides | ml/evaluation/read_scoring_review.py:123-137 | for any text: no comment at any position is refused for that, a first comment with another digest is refused naming it, and no section is refused third |
| ReviewRefusals.FaultReported | ml/evaluation/read_scoring_review.py:139-149 | otherwise the first section at fault is the one reported |
| ReviewRefusals.NoLineRefused | ml/evaluation/read_scoring_review.py:79-85 | a known section is refused for its missing SCORES line exactly when no line begins with the word |
| ReviewRefusals.FirstEntryFault | ml/evaluation/read_scoring_review.py:94-109 | the first entry missing or above ten decides, and its fault carries the name and number |
| ReviewRefusals.PartMarkedExactly | ml/evaluation/read_scoring_review.py:111-117 | a row marked in part is refused with how many marks it has and the blank names in order |
| ReviewRefusals.MarksRecordedExactly | ml/evaluation/read_scoring_review.py:138-149 | for any text that is read, an answer has marks exactly when a section filled its row, and they are the last such section's over ten |
| ReviewReadBack.ReviewIsFold | ml/evaluation/read_scoring_review.py:135-149 | reading any clean sheet, for every typing on one line without an equals sign and for any answers, is one fold over the sections its answers make; a sheet without questions is refused |
| ReviewVerdicts.VerdictExactly | ml/evaluation/read_scoring_review.py:88-118 | a row is read if and only if untouched or filled with numbers from 0 to 10, and a filled one gives each number over ten |
| ReviewVerdicts.NumbersRoundDown | ml/evaluation/read_scoring_review.py:95-108 | a typed decimal number is read rounded down, so as another number exactly when it is not whole |
| ReviewVerdicts.ReadAsTyped | ml/evaluation/read_scoring_review.py:95-108 | an entry is read as exactly what was typed if and only if it is a blank or all digits |
| ReviewVerdicts.RecordedExactly | ml/evaluation/read_scoring_review.py:139-149 | recording row by row succeeds exactly when every row is untouched or complete, and adds exactly the touched rows |
| ReviewExact.ReadsBackExactly | ml/evaluation/read_scoring_review.py:121-149 | the sheet reads back row by row, for every typing on one line without an equals sign, if and only if it has a question and every printed answer leaves its row alone: no heading, or everything its headings cut off has a known id and a blank row and its last heading names the answer itself |
| ReviewExact.MarkedSheetReadsBack | ml/evaluation/read_scoring_review.py:121-149 | under that condition parsing succeeds if and only if every row is untouched or complete, and then yields exactly the filled rows with marks over ten |
| ReviewExact.FreshSheetExactly | ml/evaluation/read_scoring_review.py:121-149 | a sheet nobody typed into parses to no marks if and only if everything its answers' headings cut off is readable and blank and their last headings name known answers |
| ReviewExact.StaleSheetRefused | ml/evaluation/read_scoring_review.py:128-133 | a sheet made for other answers is refused naming the digest found |
| ReviewForgery.ForgedMarksRecorded | ml/evaluation/read_scoring_review.py:66-85 | on any sheet with an answer made of a filled SCORES line and the heading of a known answer, the others without headings, reading with nothing typed records those marks under the answer and nothing else |
| ReviewForgery.FreshSheetWithMarks | ml/evaluation/read_scoring_review.py:66-85 | there is a printable sheet that records five nines with nothing typed into it |
| Uuid7.Uuid7 | backend/app/core/ids.py:32-42 | the OR-ed value is the sum of the five fields at their places |
| Uuid7.PackedIsLayout | backend/app/core/ids.py:32-42 | fields that fit do not overlap: OR is addition |
| Uuid7.FieldsRecovered | backend/app/core/ids.py:32-54 | the value is below 2^128 and every field is read back from it |
| Uuid7.GeneratedIdReads | backend/app/core/ids.py:45-54 | version 7, variant 0b10, and the timestamp read back is the clock if and only if it is below 2^48 |
| Uuid7.TimestampExactly | backend/app/core/ids.py:45-54 | a timestamp is read from exactly the values with variant bits 10 and version bits 0111, and is what stands above the lowest 80 bits |
| Uuid7.OrBits | backend/app/core/ids.py:32-42 | the operator is the bitwise one: each bit is the disjunction of the two there |
| Uuid7.AndBits | backend/app/core/ids.py:32-54 | each bit is the conjunction of the two there |
| Uuid7.LaterIsLarger | backend/app/core/ids.py:32-42 | a later millisecond gives a larger id whatever the random bits, and ids are equal only with equal fields |

## Left out

- Requests inside one database transaction of another: authentication requests run one at a time. A racing refresh can leave a live sibling, which the comment at `backend/app/services/auth.py:308-309` accepts.
- Hashing, bcrypt, JWT and the random generators: one fresh number names a token's row, hash and plaintext, and passwords are compared as text.
- One clock reading serves a whole request; the service reads the clock once per row.
- Sending mail never fails; a failure after the service returns is the `failsLate` flag of an event. Profiles, last-login and rehash writes, and the audit columns of a token are not rows of the model.
- The email index is a map from a case-folded address to its account; folding itself is not modelled.
- Activating and deactivating accounts is an operator's step of the model; no code of the repository performs it.
- After a purge a deleted row can no longer trigger reuse detection; `PurgeIsHarmless` speaks of acceptance only.
- AuthChains.RunKeepsChain: purging and a change of configuration together can set a pointer to null; with purges the chain is proved under one configuration (`RunKeepsSteady`).
- The rest of the application lifecycle (later statuses, events, paging) and `list_for_user` orderings.
- Columns of career and skill rows that no rule here reads (proficiency, years, dates) are one payload or absent; the tables are keyed by their unique index, which the upsert names as its arbiter.
- `fetch_and_import` and the choice of the next query enter the scheduler by contract only: at most the allowed pages, any query or none. Manual fetches are not part of a run. A row's database timestamp may lie anywhere between the check that opened its transaction and the write.
- `scheduler_loop` and its delays.
- Floating-point rounding: floats are reals; square root and logarithms are parameters with the laws they need.
- Ndcg.NdcgInRange: labels of the pool are taken as non-negative, as on the scale the labels are drawn from; `RangeExactly` gives the exact condition for labels of either sign.
- `tokenize` and its stop words: documents arrive as token lists.
- `precision_at_k`, `recall_at_k`, `reciprocal_rank`, `confusion_at`, `constant_baseline` and `rank_random` would add only easy members.
- The marking sheet's header prose is given as lines around the digest comment; for reading back, no line of it may be a heading and no `<` may precede the digest. The computation of the digest is not modelled.
- The seeded shuffle is any permutation that depends on the question's position and the number of its answers only.
- Word characters beyond ASCII: they could only stand before a dimension's name on a line the generator did not write.
- What a marker types is anything on one line without an equals sign in place of each blank; other edits of a printed sheet are covered by the parser's specification but not by the round trip.
- ReviewExact.MarkedSheetReadsBack: answers are required to leave their rows alone, which `ReadsBackExactly` shows is the exact condition.
- A clock before 1970 for `uuid7`.
- HTTP routing, storage, providers, matching, interviews, the optimiser and the frontend.
