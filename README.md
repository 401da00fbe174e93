# Modex backend: the controller workflow, modelled in Dafny

Modex is a competition-management web backend (Express and Sequelize over
MySQL). Users register and log in. Admins create competitions with stages
and qualification questions. Users answer the questions and are approved up
to each competition's capacity. Qualified users form teams of five with
invite codes. Judges, at most three per competition, score the submissions
teams make for each stage.

This project models the seven controllers that hold those rules:
authentication, competitions, stages, qualification, teams, judging and
submissions. The database is one class, `Backend.Platform`. Each table is a
`map` from auto-increment id to a row datatype, and each has a next-id
counter; the qualification answers are a `seq` in insertion order. Each
controller action is one method. Each action with an error path of its own
returns an `Outcome` that carries the HTTP status class and the handler's
exact error message. The read-only listings and the disqualification sweep,
whose only failure is the database's 500, return their rows or their count
directly. A method's `modifies` clause names only the tables the handler writes. A route's
`authorize(...)` guard becomes a `requires` on the stored role of the acting
user. Conditions the handler checks itself (a missing body field, an unknown
id, a falsy team id) are error outcomes, never preconditions.

`Backend.Platform.Valid()` is the invariant that every action keeps:

- every key of a table is positive and below its counter;
- e-mail addresses are unique;
- invite codes are unique;
- every team reference exists, and every leader is a member of their team;
- no team has more members than its capacity, and a team marked complete is full;
- no team is both complete and disqualified;
- a competition has at most three judges, and a user is assigned to a competition at most once;
- there is at most one score per (submission, Judge row) and one submission per (team, stage).

The pure rules of each controller live in their own module, with lemmas
about them:

- validation chains and defaults;
- partial updates: idempotent, and the identity when nothing changes;
- the answer replacement: replacing twice is replacing once, and other users' answers are kept;
- the upload filters;
- the upserts: twice is once, and the later write wins.

Module layout:

- `wrappers.dfy`: Option and Outcome.
- `js.dfy`: JavaScript truthiness, `trim`, ASCII `toLowerCase` (exact for the upload patterns), unanchored regex alternation, `path.extname`.
- `lookup.dfy`: `findOne` (the matching row with the lowest id), uniqueness of a key, and `ORDER BY` as an insertion sort over ids.
- `entities.dfy`: one datatype per model.
- `auth.dfy`, `competitions.dfy`, `stages.dfy`, `qualification.dfy`, `teams.dfy`, `judging.dfy`, `submissions.dfy`: the pure rules of each controller.
- `platform.dfy`: the class.

Where the code and its intent part ways, the model follows the code, with two exceptions: the User model's columns, and the column getCompetitions orders by (both under "## Left out").

- deleteStage answers an unknown stage id with "Competition not found".
- updateCompetition may lower the capacity below the number already qualified (`Competitions.PatchMayUndercutQualifiedCount`).
- scoreSubmission uses the user's first Judge row whatever its competition.

## Model

| member | source | states |
|---|---|---|
| Js.TrimEmptyIff | backend/src/controllers/authController.js:37 | `trim()` of a string is empty exactly when every character is white space |
| Js.TrimIdempotent | backend/src/controllers/competitionController.js:62 | trimming a trimmed string changes nothing |
| Js.ToLowerIdempotent | backend/src/controllers/competitionController.js:26 | lower-casing twice is lower-casing once |
| Js.ExtNameOfSuffix | backend/src/controllers/submissionController.js:25 | the extension of `base.ext` (with `ext` free of dots and `base` non-empty) is `.ext` |
| Js.ExtNameLower | backend/src/controllers/submissionController.js:25 | the extension of the lower-cased name is the lower-cased extension |
| Lookup.FindOne | backend/src/controllers/teamController.js:30 | a key is found exactly when some row matches; it is a matching row and no lower id matches |
| Lookup.InsertKeepsUnique | backend/src/controllers/authController.js:43-62 | observing a key that no row has, then inserting, keeps the key unique |
| Lookup.UpdateKeepsUnique | backend/src/controllers/judgeController.js:82-86 | updating a row without changing its key keeps the key unique |
| Ordering.Insert | backend/src/controllers/stageController.js:33-36 | inserting into an ordered list of ids keeps it ordered, adds exactly the new id and keeps ids distinct |
| Ordering.SortByKey | backend/src/controllers/stageController.js:33-36 | the result lists exactly the given ids, each once, in ascending key order |
| Ordering.FindAllOrdered | backend/src/controllers/qualificationController.js:67-70 | `findAll` with `ORDER BY`: exactly the matching rows, each once, in ascending order of the column |
| Auth.MatchesEmailIff | backend/src/controllers/authController.js:24-25 | the executable e-mail check accepts exactly the strings of shape `x@y.z` with each part a non-empty run free of white space and '@' |
| Auth.SelectRole | backend/src/controllers/authController.js:53 | the requested role when it names one of the four roles, otherwise member |
| Auth.SelectRoleRoundTrip | backend/src/controllers/authController.js:53 | requesting a role by its name yields that role |
| Auth.FullName | backend/src/controllers/authController.js:50 | the full name is trimmed and non-empty when the first name has a non-space character |
| Js.Utf16Length | backend/src/controllers/authController.js:31 | `length` counts UTF-16 code units: between one and two per character, and exactly one per character when none lies outside the Basic Multilingual Plane |
| Js.Utf16LengthOfEmoji | backend/src/controllers/authController.js:31 | three emoji are three characters but six code units |
| Auth.OneLetterDomainMatches | backend/src/controllers/authController.js:24-27 | the handler's pattern accepts `a@b.c`, an address with a one-letter top-level domain |
| Auth.ValidateRegistration | backend/src/controllers/authController.js:18-40 | the four 400s in handler order, each with its own message (missing field, e-mail shape, password shorter than 6 UTF-16 code units, blank first or last name); success exactly when all checks pass, with the trimmed full name and the selected role |
| Auth.NewAccount | backend/src/controllers/authController.js:57-62 | the stored account holds the hashed password, is not qualified and belongs to no team |
| Auth.ViewOf | backend/src/controllers/authController.js:182-193 | the reported isQualified is the stored flag or admin; teamId is reported exactly when it is truthy |
| Backend.Platform.Register | backend/src/controllers/authController.js:18-62 | validation errors as above; 400 for a registered e-mail; then 500 "Registration failed" with nothing written when the column's `isEmail` validator (backend/src/models/User.js:15-17) refuses the address; otherwise exactly one new account under the next id, so e-mails stay unique |
| Backend.Platform.Login | backend/src/controllers/authController.js:120-193 | 400 without both fields; success exactly when the account of the e-mail accepts the password; an unknown e-mail and a wrong password give the same 401 |
| Backend.Platform.GetProfile | backend/src/controllers/authController.js:217-233 | 404 for an unknown user; otherwise the projection with isQualified = flag or admin |
| Competitions.NewCompetition | backend/src/controllers/competitionController.js:44-67 | 400 for a missing or blank name, then for a truthy maximum that is not a number of at least 1; a new competition is a draft with the trimmed name, a trimmed or null description and capacity 100 by default |
| Competitions.PatchCompetition | backend/src/controllers/competitionController.js:124-137 | name, description, status and capacity change only when given truthy (a capacity sent as text, "0" included, is truthy); a bad status or a capacity text that is not a number is a 500; nothing else changes |
| Competitions.PatchCompetitionIdempotent | backend/src/controllers/competitionController.js:124-137 | applying the same update twice is applying it once |
| Competitions.NoCompetitionChangeIsIdentity | backend/src/controllers/competitionController.js:124-137 | an update with no fields leaves the competition as it was |
| Competitions.PatchMayUndercutQualifiedCount | backend/src/controllers/competitionController.js:136 | an update may set the capacity below the count already qualified |
| Competitions.PatchTextZeroSetsZero | backend/src/controllers/competitionController.js:136 | the form text "0" sets the capacity to 0, while the JSON number 0 leaves it unchanged |
| Competitions.BannerIgnoresNameCase | backend/src/controllers/competitionController.js:24-32 | the banner filter does not depend on the case of the file name |
| Competitions.BannerNeedsImageMimetype | backend/src/controllers/competitionController.js:24-32 | a .png name is refused when the mimetype names no image type: both tests must pass |
| Backend.Platform.CreateCompetition | backend/src/controllers/competitionController.js:44-67 | the validation error unchanged, or exactly one new competition under the next id |
| Backend.Platform.GetCompetitions | backend/src/controllers/competitionController.js:82-84 | every competition once, newest first |
| Backend.Platform.GetCompetition | backend/src/controllers/competitionController.js:95-107 | 404 for an unknown id, otherwise that competition |
| Backend.Platform.UpdateCompetition | backend/src/controllers/competitionController.js:120-137 | 404 for an unknown id; otherwise the patched row replaces that one row and no other |
| Backend.Platform.DeleteCompetition | backend/src/controllers/competitionController.js:149-159 | 404 for an unknown id; otherwise exactly that competition is removed |
| Stages.NewStage | backend/src/controllers/stageController.js:12-21 | order 0 and scoring automatic by default, inactive; a missing name or a bad scoring type is a 500 |
| Stages.PatchStage | backend/src/controllers/stageController.js:55-62 | order and isActive are overwritten whenever given, even 0 or false; the text fields only when truthy |
| Stages.PatchStageIdempotent | backend/src/controllers/stageController.js:55-62 | applying the same update twice is applying it once |
| Stages.NoStageChangeIsIdentity | backend/src/controllers/stageController.js:55-62 | an update with no fields leaves the stage as it was |
| Stages.PatchWithCreationFields | backend/src/controllers/stageController.js:12-21 | updating a new stage with its own creation fields changes only isActive |
| Backend.Platform.CreateStage | backend/src/controllers/stageController.js:7-21 | 404 for an unknown competition; otherwise the stage under the next id or the 500 |
| Backend.Platform.GetStages | backend/src/controllers/stageController.js:33-36 | exactly that competition's stages, each once, in ascending order |
| Backend.Platform.UpdateStage | backend/src/controllers/stageController.js:50-62 | 404 for an unknown id; otherwise the patched stage replaces that one row |
| Backend.Platform.DeleteStage | backend/src/controllers/stageController.js:76-82 | 404 (with the competition message) for an unknown id; otherwise exactly that stage is removed |
| Qualification.QuestionTypeNamed | backend/src/controllers/qualificationController.js:34-35 | exactly the three type names are accepted |
| Qualification.NewQuestion | backend/src/controllers/qualificationController.js:30-54 | the three 400s in order; options kept only for multiple choice, order 0 by default, required unless explicitly false |
| Backend.Platform.CreateQuestion | backend/src/controllers/qualificationController.js:30-55 | validation error, then 404 for an unknown competition, else one new question under the next id |
| Backend.Platform.GetQuestions | backend/src/controllers/qualificationController.js:67-70 | exactly that competition's questions, each once, in ascending order |
| Qualification.ReplaceYieldsSubmitted | backend/src/controllers/qualificationController.js:99-112 | after delete-then-insert the user's answers for the competition are exactly the submitted ones |
| Qualification.ReplaceKeepsOthers | backend/src/controllers/qualificationController.js:99-101 | answers of other users and other competitions are untouched |
| Qualification.ReplaceTwice | backend/src/controllers/qualificationController.js:99-112 | submitting twice is the same as submitting the second list once: answers replace, never merge |
| Qualification.WithoutTwice | backend/src/controllers/qualificationController.js:99-101 | deleting a user's answers twice is deleting them once |
| Qualification.OfWithoutOther | backend/src/controllers/qualificationController.js:99-101 | the delete keeps the rows of every other (user, competition) |
| Qualification.OfConcat | backend/src/controllers/qualificationController.js:115-117 | the `findAll` of two row lists is the concatenation of their `findAll`s |
| Qualification.StorablePrefix | backend/src/controllers/qualificationController.js:104-111 | the inserts that succeed before the first answer without a question id (NOT NULL) |
| Qualification.RecordOf | backend/src/controllers/qualificationController.js:105-111 | the stored answer row; the file path is null unless truthy |
| Qualification.Records | backend/src/controllers/qualificationController.js:104-112 | one row per submitted answer, in order |
| Qualification.RecordsAnswer | backend/src/controllers/qualificationController.js:119-121 | the stored rows answer question q exactly when some submitted answer names q |
| Qualification.EveryRequiredAnsweredIff | backend/src/controllers/qualificationController.js:119-121 | the `every`/`some` check holds exactly when every required question id occurs among the submitted ones, whatever the answer text |
| Backend.Platform.SubmitAnswers | backend/src/controllers/qualificationController.js:85-126 | 404, then 400 with no questions (answers intact); otherwise the user's answers for the competition are replaced by the stored prefix, and the flag says whether every required question was answered |
| Backend.Platform.StoreAnswers | backend/src/controllers/qualificationController.js:104-112 | the insert loop appends the records of the storable prefix and stops at the first failing insert |
| Backend.Platform.AllRequiredAnswered | backend/src/controllers/qualificationController.js:115-121 | re-reading the user's rows gives the submitted records, and the result is the every-required-answered condition |
| Backend.Platform.GetAnswers | backend/src/controllers/qualificationController.js:152-158 | exactly the answers of that competition |
| Qualification.Approved | backend/src/controllers/qualificationController.js:190-192 | the approved user is qualified now, is a leader, and keeps every other field |
| Backend.Platform.ApproveUser | backend/src/controllers/qualificationController.js:172-196 | 404 competition, 400 capacity (before the user lookup), 404 user, 400 already qualified, nothing written on an error; success approves the user and raises the count by one, so it stays within capacity |
| Teams.Members | backend/src/models/index.js:16 | the members of a team are the users whose teamId is the team |
| Teams.JoinAddsOne | backend/src/controllers/teamController.js:80-82 | putting a user who is in no team into a team adds exactly that member and changes no other team |
| Teams.CreateKeepsValid | backend/src/controllers/teamController.js:34-44 | a team with a fresh code whose leader was in no team keeps the team invariant and has one member |
| Teams.JoinKeepsValid | backend/src/controllers/teamController.js:70-92 | a join into a team with room, marked complete exactly when it fills, keeps the team invariant |
| Teams.MarkFullKeepsValid | backend/src/controllers/teamController.js:74-78 | marking a full team complete keeps the team invariant |
| Teams.UpdateKeepingTeamKeepsValid | backend/src/controllers/teamController.js:141-142 | a user update that keeps the team id keeps the team invariant |
| Teams.TeamWithCode | backend/src/controllers/teamController.js:30 | a team is found exactly when one has the code, and it has the code |
| Teams.FirstFreshCode | backend/src/controllers/teamController.js:26-32 | the first candidate code that no team uses; every earlier one is in use |
| Backend.Platform.FreshInviteCode | backend/src/controllers/teamController.js:26-32 | the retry loop ends with the first unused candidate |
| Backend.Platform.CreateTeam | backend/src/controllers/teamController.js:13-44 | 403, 400, 404 in that order with nothing written; on success a team of five led by the actor, with a code no team had, and the actor its only member, with role leader |
| Backend.Platform.JoinTeam | backend/src/controllers/teamController.js:57-92 | 400 in a team, 404 unknown code, 400 complete or disqualified, 400 full (marked complete); a join sets teamId and role member, grows the team by one, completes it exactly when full |
| Backend.Platform.JoinFound | backend/src/controllers/teamController.js:70-92 | the three outcomes once the team is found, as above |
| Backend.Platform.GetTeam | backend/src/controllers/teamController.js:103-116 | 404 without a truthy team id; otherwise the team with exactly its members, the leader among them |
| Backend.Platform.GetTeams | backend/src/controllers/teamController.js:153-163 | exactly the competition's teams, each with its members |
| Backend.Platform.AssignTeamRole | backend/src/controllers/teamController.js:128-142 | 403 unless the actor leads a team, 404 unless the target is a member of it; only the target's team role changes |
| Teams.DisqualifyTargets | backend/src/controllers/teamController.js:174-183 | exactly the teams of the competition that are not complete, not disqualified and below capacity |
| Teams.SweepKeepsValid | backend/src/controllers/teamController.js:185-188 | the sweep keeps the team invariant |
| Teams.SweepIdempotent | backend/src/controllers/teamController.js:174-188 | a second sweep of the competition finds nothing to mark |
| Teams.SweepLeavesOthers | backend/src/controllers/teamController.js:174-188 | teams of other competitions, and complete, disqualified or full teams, are untouched |
| Teams.MarkOneMore | backend/src/controllers/teamController.js:185-188 | marking teams one at a time builds the same table as marking the set |
| Backend.Platform.DisqualifyIncompleteTeams | backend/src/controllers/teamController.js:174-192 | the teams become the targets marked disqualified, and the result is their count |
| Backend.Platform.MarkAll | backend/src/controllers/teamController.js:185-188 | the loop marks exactly the given teams |
| Judging.AssignAddsOne | backend/src/controllers/judgeController.js:35-38 | a new Judge row adds one judge to its competition and none to others |
| Judging.AssignKeepsValid | backend/src/controllers/judgeController.js:22-38 | a new assignment to a competition with fewer than three judges keeps the cap and uniqueness |
| Judging.FullCompetitionHasThree | backend/src/controllers/judgeController.js:30-33 | under the invariant the handler's "three or more" is exactly three |
| Judging.JudgeRowOf | backend/src/controllers/judgeController.js:67 | the user's Judge row with the lowest id, found exactly when the user has one |
| Judging.ScoreOf | backend/src/controllers/judgeController.js:77-79 | the score of (submission, Judge row), found exactly when it exists |
| Judging.Rescore | backend/src/controllers/judgeController.js:82-84 | the value is replaced; comments only by non-empty ones; the key stays |
| Judging.RescoreIdempotent | backend/src/controllers/judgeController.js:82-84 | marking twice alike is marking once |
| Judging.RescoreLatestWins | backend/src/controllers/judgeController.js:82-84 | the later value wins; with non-empty comments the earlier mark leaves no trace |
| Backend.Platform.AssignJudge | backend/src/controllers/judgeController.js:7-40 | 404 competition, 404 user; then the role becomes judge even when 400 duplicate or 400 three judges follows; success adds exactly one Judge row |
| Backend.Platform.AddJudge | backend/src/controllers/judgeController.js:22-38 | the duplicate and cap checks, then exactly one new row |
| Backend.Platform.GetJudges | backend/src/controllers/judgeController.js:50-53 | exactly the competition's judges, never more than three |
| Backend.Platform.ScoreSubmission | backend/src/controllers/judgeController.js:67-93 | 403 without a Judge row, 404 unknown submission, 500 without a score; otherwise the existing score is rescored or a new one created, so one score per (submission, Judge row) |
| Backend.Platform.GetSubmissionsForJudging | backend/src/controllers/judgeController.js:107-123 | 403 unless a judge of the competition; otherwise exactly the submissions of that competition and stage |
| Submissions.SubmissionIgnoresNameCase | backend/src/controllers/submissionController.js:24-26 | the submission filter does not depend on the case of the file name |
| Submissions.PdfNameAccepted | backend/src/controllers/submissionController.js:24-26 | a .pdf name is accepted whatever the mimetype: either test suffices |
| Submissions.ImageMimetypeAccepted | backend/src/controllers/submissionController.js:26 | an image mimetype is accepted whatever the name |
| Submissions.BannerFileIsSubmissionFile | backend/src/controllers/submissionController.js:24-26 | every file the banner filter accepts, the submission filter accepts |
| Submissions.Resubmit | backend/src/controllers/submissionController.js:56-57 | content only replaced by truthy content, the file only when uploaded; team, stage and competition kept |
| Submissions.ResubmitIdempotent | backend/src/controllers/submissionController.js:56-57 | resubmitting the same request twice is resubmitting once |
| Submissions.EmptyResubmitIsIdentity | backend/src/controllers/submissionController.js:56-57 | a resubmission with no content and no file changes nothing |
| Submissions.NewSubmission | backend/src/controllers/submissionController.js:62-68 | the competition is the stage's; the file path is null without a file |
| Submissions.SubmissionOf | backend/src/controllers/submissionController.js:48-50 | the (team, stage) submission, found exactly when it exists |
| Backend.Platform.CreateSubmission | backend/src/controllers/submissionController.js:39-68 | 403 without a team, 404 unknown stage; otherwise the existing row is updated or a new one inserted, so one submission per (team, stage) |
| Backend.Platform.GetSubmissions | backend/src/controllers/submissionController.js:80-86 | exactly the stage's submissions, no two of one team |
| Backend.Platform.GetTeamSubmission | backend/src/controllers/submissionController.js:100-107 | 403 without a team; otherwise the team's submission for the stage, if any |

## Left out

- Password hashing and `comparePassword` (bcrypt), and the `isEmail` validator of validator.js that the e-mail column runs, are parameters of `Register` and `Login`; the JWT token and the secret configuration branch are not modelled: foreign library calls and environment.
- The authentication middleware is not part of this model. Each action takes the acting user's id, and its role guard is a precondition on that user's stored role.
- Multer disk storage, file names, file-size limits and `fs.unlinkSync` of a replaced file are filesystem I/O. Only the two `fileFilter` predicates are modelled. `uploadAnswerFile` is a file upload with no state rule.
- The announcement controller, sockets, WebRTC signalling, seeding, app wiring and the frontend are outside the core.
- The two check-then-act races (approval against capacity, join against the member count) are outside the sequential model. So the "full" branch of joinTeam is reachable only with data written behind the handler's back; the model keeps the branch.
- JSON response shapes and association `include`s are reduced to row ids, rows and member sets.
- `JSON.parse` of string options in createQuestion is not modelled: options are stored as given.
- Foreign-key constraints and cascades on delete are not modelled. Deleting a competition or a stage leaves rows that name it.
- The MySQL collation is not modelled: invite codes and e-mails match exactly, not case-insensitively.
- `Backend.Platform.GetCompetitions`: as written, the query orders by `created_at`. The Competition table has no such column: timestamps are on and `underscored` is not set, so the column is `createdAt`. Every GET /competitions would then fail with the catch-all 500. The model gives the evidently intended order instead, newest first by `createdAt`.
- `Backend.Platform.GetAnswers`: the query has no `ORDER BY`, so the database leaves the row order open; the model returns the answers in insertion order, one of the orders it may give.
- `maxQualifiedUsers` of createCompetition and updateCompetition, which a form upload sends as text, is a `Competitions.NumberField`: a JSON number, a numeric text (truthy even when "0") or a text that is not a number. Every other number from the request is an integer or absent; non-integer and numeric-string inputs there are not modelled, and null and undefined are one `None`.
- The User row has the shape register writes: email, password, fullName and role. backend/src/models/User.js declares `firstName` and `lastName` as NOT NULL columns and no `fullName`, so as written its `User.create` would fail those not-null checks; the model takes the controllers' shape instead of modelling that failure.
- Stage dates are opaque strings; DATE parsing is not modelled.
- Score values are integers; the DECIMAL(10,2) column is not modelled as a decimal.
- Ids are natural numbers; id 0 is never a key, so a missing or zero id on a lookup is the handler's 404.
- `Backend.Platform.AssignTeamRole`: an absent `teamRole` is stored as null (`None`); Sequelize's leaving an undefined attribute unchanged is not modelled.
- `Backend.Platform.CreateTeam`: the invite-code generator is a caller-supplied sequence of candidates that must contain an unused code, since the source loop has no bound.
- `Backend.Platform.ApproveUser`: `isQualified` is one flag per user, as in the source, not per competition.
- `Backend.Platform.ScoreSubmission`: the submission's competition is not checked against the judge's, as in the source.
- `Submissions.SubmissionFileAccepted`: `xlsx?` is written as its equivalent "xls" alternative.
