/** The backend as one store: a table per model, each a map from the row's
    auto-increment id to the row, and one method per controller action. An
    action on behalf of a signed-in user takes that user's id as `actor`;
    the role each route demands becomes a precondition on the actor's
    stored role. Every action keeps `Valid()`, and fails without changing
    anything unless its contract says otherwise. */
module Backend {
  import opened Wrappers
  import opened Js
  import opened Entities
  import opened Lookup
  import opened Ordering
  import Auth
  import Competitions
  import Stages
  import Qualification
  import Teams
  import Judging
  import Submissions

  /** What holds of the users and teams tables between any two actions. */
  ghost predicate PeopleOk(users: map<nat, User>, nextUser: nat, teams: map<nat, Team>, nextTeam: nat) {
    && IdsBelow(users, nextUser)
    && IdsBelow(teams, nextTeam)
    && UniqueBy(users, Auth.EmailOf)
    && Teams.TeamsValid(users, teams)
  }

  /** The competitions, stages and questions tables hold auto-increment ids. */
  ghost predicate ContestOk(competitions: map<nat, Competition>, nextCompetition: nat, stages: map<nat, Stage>, nextStage: nat,
                            questions: map<nat, Question>, nextQuestion: nat) {
    && IdsBelow(competitions, nextCompetition)
    && IdsBelow(stages, nextStage)
    && IdsBelow(questions, nextQuestion)
  }

  /** What holds of the judges and scores tables between any two actions:
      the judge cap, and one score per submission and Judge row. */
  ghost predicate JudgingOk(judges: map<nat, JudgeAssignment>, nextJudge: nat, scores: map<nat, Score>, nextScore: nat) {
    && IdsBelow(judges, nextJudge)
    && IdsBelow(scores, nextScore)
    && Judging.JudgesValid(judges)
    && UniqueBy(scores, Judging.ScoreKey)
  }

  /** A team has at most one submission per stage. */
  ghost predicate SubmissionsOk(submissions: map<nat, Submission>, nextSubmission: nat) {
    && IdsBelow(submissions, nextSubmission)
    && UniqueBy(submissions, Submissions.SubmissionKey)
  }

  /** A successful join keeps the users and teams invariant. */
  lemma JoinKeepsPeopleOk(users: map<nat, User>, nextUser: nat, teams: map<nat, Team>, nextTeam: nat, t: nat, u: nat,
                          users': map<nat, User>, teams': map<nat, Team>)
    requires PeopleOk(users, nextUser, teams, nextTeam)
    requires t in teams && u in users && users[u].teamId.None?
    requires !teams[t].isComplete && !teams[t].isDisqualified && Teams.MemberCount(users, t) < teams[t].maxMembers
    requires users' == users[u := users[u].(teamId := Some(t), teamRole := Some(Teams.MemberRole))]
    requires teams' == teams[t := teams[t].(isComplete := Teams.MemberCount(users', t) >= teams[t].maxMembers)]
    ensures PeopleOk(users', nextUser, teams', nextTeam)
  {
    assert Teams.TeamsValid(users', teams') by {
      Teams.JoinKeepsValid(users, teams, t, u, users', teams');
    }
    assert UniqueBy(users', Auth.EmailOf) by {
      UpdateKeepsUnique(users, Auth.EmailOf, u, users'[u]);
    }
    assert IdsBelow(teams', nextTeam) && IdsBelow(users', nextUser) by {
      assert teams'.Keys == teams.Keys && users'.Keys == users.Keys;
    }
  }

  /** Saving a user without changing their team or e-mail address keeps the
      users and teams invariant. */
  lemma SaveKeepsPeopleOk(users: map<nat, User>, nextUser: nat, teams: map<nat, Team>, nextTeam: nat, u: nat, rec: User)
    requires PeopleOk(users, nextUser, teams, nextTeam)
    requires u in users && rec.teamId == users[u].teamId && rec.email == users[u].email
    ensures PeopleOk(users[u := rec], nextUser, teams, nextTeam)
  {
    UpdateKeepsUnique(users, Auth.EmailOf, u, rec);
    Teams.UpdateKeepingTeamKeepsValid(users, teams, u, rec);
  }

  /** A new account in no team, with an address no account has, keeps the
      users and teams invariant. */
  lemma NewUserKeepsPeopleOk(users: map<nat, User>, nextUser: nat, teams: map<nat, Team>, nextTeam: nat, rec: User)
    requires PeopleOk(users, nextUser, teams, nextTeam)
    requires rec.teamId.None? && !Auth.EmailRegistered(users, rec.email)
    ensures nextUser !in users && PeopleOk(users[nextUser := rec], nextUser + 1, teams, nextTeam)
  {
    InsertKeepsIdsBelow(users, nextUser, rec);
    InsertKeepsUnique(users, Auth.EmailOf, nextUser, rec);
    Teams.NewUserKeepsValid(users, teams, nextUser, rec);
  }

  /** A new team with its leader keeps the users and teams invariant. */
  lemma CreateKeepsPeopleOk(users: map<nat, User>, nextUser: nat, teams: map<nat, Team>, nextTeam: nat, team: Team, u: nat)
    requires PeopleOk(users, nextUser, teams, nextTeam)
    requires u in users && users[u].teamId.None?
    requires team.leaderId == u && team.maxMembers == Teams.TeamSize && !team.isComplete && !team.isDisqualified
    requires !Teams.CodeInUse(teams, team.inviteCode)
    ensures nextTeam !in teams
    ensures PeopleOk(users[u := users[u].(teamId := Some(nextTeam), teamRole := Some(Teams.LeaderRole))], nextUser,
                     teams[nextTeam := team], nextTeam + 1)
    ensures Teams.MemberCount(users[u := users[u].(teamId := Some(nextTeam), teamRole := Some(Teams.LeaderRole))], nextTeam) == 1
  {
    InsertKeepsIdsBelow(teams, nextTeam, team);
    Teams.CreateKeepsValid(users, teams, nextTeam, team, u);
    UpdateKeepsUnique(users, Auth.EmailOf, u, users[u].(teamId := Some(nextTeam), teamRole := Some(Teams.LeaderRole)));
  }

  /** Marking a full team complete keeps the users and teams invariant. */
  lemma MarkFullKeepsPeopleOk(users: map<nat, User>, nextUser: nat, teams: map<nat, Team>, nextTeam: nat, t: nat)
    requires PeopleOk(users, nextUser, teams, nextTeam)
    requires t in teams && !teams[t].isDisqualified && Teams.MemberCount(users, t) >= teams[t].maxMembers
    ensures PeopleOk(users, nextUser, teams[t := teams[t].(isComplete := true)], nextTeam)
  {
    Teams.MarkFullKeepsValid(users, teams, t);
  }

  /** The disqualification sweep keeps the users and teams invariant. */
  lemma SweepKeepsPeopleOk(users: map<nat, User>, nextUser: nat, teams: map<nat, Team>, nextTeam: nat, c: nat)
    requires PeopleOk(users, nextUser, teams, nextTeam)
    ensures PeopleOk(users, nextUser, Teams.MarkDisqualified(teams, Teams.DisqualifyTargets(users, teams, c)), nextTeam)
  {
    Teams.SweepKeepsValid(users, teams, c);
  }

  class Platform {
    var users: map<nat, User>
    var nextUser: nat
    var competitions: map<nat, Competition>
    var nextCompetition: nat
    var stages: map<nat, Stage>
    var nextStage: nat
    var questions: map<nat, Question>
    var nextQuestion: nat
    /** The QualificationAnswers table, in insertion order. */
    var answers: seq<Answer>
    var teams: map<nat, Team>
    var nextTeam: nat
    var judges: map<nat, JudgeAssignment>
    var nextJudge: nat
    var scores: map<nat, Score>
    var nextScore: nat
    var submissions: map<nat, Submission>
    var nextSubmission: nat

    /** What holds between any two actions: ids are fresh auto-increment
        values, e-mail addresses are unique, the team invariant, the judge
        cap, and one score per (submission, Judge row) and one submission
        per (team, stage). */
    ghost predicate Valid()
      reads this
    {
      && PeopleOk(users, nextUser, teams, nextTeam)
      && ContestOk(competitions, nextCompetition, stages, nextStage, questions, nextQuestion)
      && JudgingOk(judges, nextJudge, scores, nextScore)
      && SubmissionsOk(submissions, nextSubmission)
    }

    /** The invariant of the users and teams tables. */
    ghost predicate PeopleValid()
      reads this
    {
      PeopleOk(users, nextUser, teams, nextTeam)
    }

    /** The invariant of the judges and scores tables. */
    ghost predicate JudgingValid()
      reads this
    {
      JudgingOk(judges, nextJudge, scores, nextScore)
    }

    /** The invariant of the submissions table. */
    ghost predicate SubmissionsValid()
      reads this
    {
      SubmissionsOk(submissions, nextSubmission)
    }

    /** An empty database. */
    constructor ()
      ensures Valid()
      ensures users == map[] && competitions == map[] && stages == map[] && questions == map[]
      ensures answers == [] && teams == map[] && judges == map[] && scores == map[] && submissions == map[]
    {
      users, nextUser := map[], 1;
      competitions, nextCompetition := map[], 1;
      stages, nextStage := map[], 1;
      questions, nextQuestion := map[], 1;
      answers := [];
      teams, nextTeam := map[], 1;
      judges, nextJudge := map[], 1;
      scores, nextScore := map[], 1;
      submissions, nextSubmission := map[], 1;
    }

    /* ---------- authController ---------- */

    /** POST /auth/register: the validation chain, then the unique e-mail
        check, then the new account under the next id. `emailAccepted` is
        the `isEmail` validator of the e-mail column, which `User.create`
        runs and whose refusal the handler answers with a 500. */
    method Register(req: Auth.RegisterRequest, hash: string -> string, emailAccepted: string -> bool)
      returns (r: Outcome<nat>)
      requires Valid()
      modifies this`users, this`nextUser
      ensures Valid()
      ensures Auth.ValidateRegistration(req).IsError() ==> r == Reject(Auth.ValidateRegistration(req))
      ensures Auth.ValidateRegistration(req).Ok? && Auth.EmailRegistered(old(users), req.email.value)
              ==> r == BadRequest(Auth.MsgEmailTaken)
      ensures Auth.ValidateRegistration(req).Ok? && !Auth.EmailRegistered(old(users), req.email.value)
              && !emailAccepted(req.email.value)
              ==> r == ServerError(Auth.MsgRegistrationFailed)
      ensures r.Ok? <==> && Auth.ValidateRegistration(req).Ok?
                         && !Auth.EmailRegistered(old(users), req.email.value)
                         && emailAccepted(req.email.value)
      ensures r.Ok? ==> && r.value == old(nextUser) && nextUser == old(nextUser) + 1
                        && users == old(users)[r.value := Auth.NewAccount(Auth.ValidateRegistration(req).value, hash)]
      ensures r.IsError() ==> users == old(users) && nextUser == old(nextUser)
    {
      var v := Auth.ValidateRegistration(req);
      if v.IsError() {
        return Reject(v);
      }
      var email := v.value.email;
      var existing := FindOne(users, (u: User) => u.email == email, nextUser);
      if existing.Some? {
        return BadRequest(Auth.MsgEmailTaken);
      }
      if !emailAccepted(email) {
        return ServerError(Auth.MsgRegistrationFailed);
      }
      var id := InsertUser(Auth.NewAccount(v.value, hash));
      r := Ok(id);
    }

    /** `User.create`: a new account, in no team and with an address no
        account has, under the next id. */
    method InsertUser(account: User) returns (id: nat)
      requires Valid() && account.teamId.None? && !Auth.EmailRegistered(users, account.email)
      modifies this`users, this`nextUser
      ensures Valid()
      ensures id == old(nextUser) && nextUser == old(nextUser) + 1 && users == old(users)[id := account]
    {
      id := nextUser;
      NewUserKeepsPeopleOk(users, nextUser, teams, nextTeam, account);
      users := users[id := account];
      nextUser := nextUser + 1;
    }

    /** POST /auth/login: a missing field is a 400; an unknown address and a
        wrong password are the same 401; otherwise the account's projection. */
    method Login(email: Option<string>, password: Option<string>, matches: (string, string) -> bool)
      returns (r: Outcome<Auth.UserView>)
      requires Valid()
      ensures !(Truthy(email) && Truthy(password)) ==> r == BadRequest(Auth.MsgCredentialsRequired)
      ensures Truthy(email) && Truthy(password) ==>
                (r.Ok? <==> exists u :: u in users && users[u].email == email.value && matches(password.value, users[u].password))
      ensures Truthy(email) && Truthy(password) && r.IsError() ==> r == Unauthorized(Auth.MsgInvalidCredentials)
      ensures r.Ok? ==> exists u :: u in users && users[u].email == email.value && r.value == Auth.ViewOf(u, users[u])
    {
      if !(Truthy(email) && Truthy(password)) {
        return BadRequest(Auth.MsgCredentialsRequired);
      }
      var e := email.value;
      var found := FindOne(users, (u: User) => u.email == e, nextUser);
      if found.None? {
        return Unauthorized(Auth.MsgInvalidCredentials);
      }
      var k := found.value;
      if !matches(password.value, users[k].password) {
        forall u | u in users && users[u].email == e ensures u == k {
          assert Auth.EmailOf(users[u]) == Auth.EmailOf(users[k]);
        }
        return Unauthorized(Auth.MsgInvalidCredentials);
      }
      r := Ok(Auth.ViewOf(k, users[k]));
    }

    /** GET /auth/profile: the signed-in account's projection. */
    method GetProfile(actor: nat) returns (r: Outcome<Auth.UserView>)
      ensures actor !in users ==> r == NotFound(Auth.MsgUserNotFound)
      ensures actor in users ==> r.Ok? && r.value == Auth.ViewOf(actor, users[actor])
      ensures r.Ok? ==> (r.value.isQualified <==> users[actor].isQualified || users[actor].role == Admin)
    {
      if actor !in users {
        return NotFound(Auth.MsgUserNotFound);
      }
      r := Ok(Auth.ViewOf(actor, users[actor]));
    }

    /* ---------- competitionController ---------- */

    /** POST /competitions (admin): the validated competition under the next id. */
    method CreateCompetition(actor: nat, req: Competitions.CompetitionRequest, banner: Option<string>, now: int)
      returns (r: Outcome<nat>)
      requires Valid() && actor in users && users[actor].role == Admin
      modifies this`competitions, this`nextCompetition
      ensures Valid()
      ensures Competitions.NewCompetition(req, banner, now).IsError() ==> r == Reject(Competitions.NewCompetition(req, banner, now))
      ensures r.Ok? <==> Competitions.NewCompetition(req, banner, now).Ok?
      ensures r.Ok? ==> && r.value == old(nextCompetition) && nextCompetition == old(nextCompetition) + 1
                        && competitions == old(competitions)[r.value := Competitions.NewCompetition(req, banner, now).value]
      ensures r.IsError() ==> competitions == old(competitions) && nextCompetition == old(nextCompetition)
    {
      var created := Competitions.NewCompetition(req, banner, now);
      if created.IsError() {
        return Reject(created);
      }
      var id := InsertCompetition(created.value);
      r := Ok(id);
    }

    /** `Competition.create`: a new competition under the next id. */
    method InsertCompetition(c: Competition) returns (id: nat)
      requires Valid()
      modifies this`competitions, this`nextCompetition
      ensures Valid()
      ensures id == old(nextCompetition) && nextCompetition == old(nextCompetition) + 1
      ensures competitions == old(competitions)[id := c]
    {
      id := nextCompetition;
      competitions := competitions[id := c];
      nextCompetition := nextCompetition + 1;
    }

    /** GET /competitions: every competition once, newest first. */
    method GetCompetitions() returns (r: seq<nat>)
      ensures forall i :: 0 <= i < |r| ==> r[i] in competitions
      ensures forall k :: k in competitions ==> k in r
      ensures Distinct(r)
      ensures forall i, j :: 0 <= i < j < |r| ==> competitions[r[i]].createdAt >= competitions[r[j]].createdAt
    {
      r := FindAllOrdered(competitions, (c: Competition) => true, (c: Competition) => -c.createdAt);
    }

    /** GET /competitions/:id. */
    method GetCompetition(id: nat) returns (r: Outcome<Competition>)
      ensures id !in competitions ==> r == NotFound(Competitions.MsgCompetitionNotFound)
      ensures id in competitions ==> r == Ok(competitions[id])
    {
      if id !in competitions {
        return NotFound(Competitions.MsgCompetitionNotFound);
      }
      r := Ok(competitions[id]);
    }

    /** PUT /competitions/:id (admin): the partial update of one competition. */
    method UpdateCompetition(actor: nat, id: nat, patch: Competitions.CompetitionPatch, banner: Option<string>)
      returns (r: Outcome<Competition>)
      requires Valid() && actor in users && users[actor].role == Admin
      modifies this`competitions
      ensures Valid()
      ensures id !in old(competitions) ==> r == NotFound(Competitions.MsgCompetitionNotFound)
      ensures id in old(competitions) ==> r == Competitions.PatchCompetition(old(competitions)[id], patch, banner)
      ensures r.Ok? ==> competitions == old(competitions)[id := r.value]
      ensures r.IsError() ==> competitions == old(competitions)
    {
      if id !in competitions {
        return NotFound(Competitions.MsgCompetitionNotFound);
      }
      r := Competitions.PatchCompetition(competitions[id], patch, banner);
      if r.Ok? {
        competitions := competitions[id := r.value];
      }
    }

    /** DELETE /competitions/:id (admin): only that competition goes. */
    method DeleteCompetition(actor: nat, id: nat) returns (r: Outcome<()>)
      requires Valid() && actor in users && users[actor].role == Admin
      modifies this`competitions
      ensures Valid()
      ensures id !in old(competitions) ==> r == NotFound(Competitions.MsgCompetitionNotFound) && competitions == old(competitions)
      ensures id in old(competitions) ==> r == Ok(()) && competitions == old(competitions) - {id}
    {
      if id !in competitions {
        return NotFound(Competitions.MsgCompetitionNotFound);
      }
      competitions := competitions - {id};
      r := Ok(());
    }

    /* ---------- stageController ---------- */

    /** POST /stages (admin): the competition must exist; then the stage with
        its defaults under the next id. */
    method CreateStage(actor: nat, req: Stages.StageRequest) returns (r: Outcome<nat>)
      requires Valid() && actor in users && users[actor].role == Admin
      modifies this`stages, this`nextStage
      ensures Valid()
      ensures req.competitionId !in competitions ==> r == NotFound(Stages.MsgCompetitionNotFound)
      ensures req.competitionId in competitions && Stages.NewStage(req).IsError() ==> r == Reject(Stages.NewStage(req))
      ensures r.Ok? <==> req.competitionId in competitions && Stages.NewStage(req).Ok?
      ensures r.Ok? ==> && r.value == old(nextStage) && nextStage == old(nextStage) + 1
                        && stages == old(stages)[r.value := Stages.NewStage(req).value]
      ensures r.IsError() ==> stages == old(stages) && nextStage == old(nextStage)
    {
      if req.competitionId !in competitions {
        return NotFound(Stages.MsgCompetitionNotFound);
      }
      var created := Stages.NewStage(req);
      if created.IsError() {
        return Reject(created);
      }
      var id := nextStage;
      stages := stages[id := created.value];
      nextStage := nextStage + 1;
      r := Ok(id);
    }

    /** GET /stages/:competitionId: that competition's stages, each once, by
        ascending `order`. */
    method GetStages(c: nat) returns (r: seq<nat>)
      ensures forall i :: 0 <= i < |r| ==> r[i] in stages && stages[r[i]].competitionId == c
      ensures forall s :: s in stages && stages[s].competitionId == c ==> s in r
      ensures Distinct(r)
      ensures forall i, j :: 0 <= i < j < |r| ==> stages[r[i]].order <= stages[r[j]].order
    {
      r := FindAllOrdered(stages, (s: Stage) => s.competitionId == c, (s: Stage) => s.order);
    }

    /** PUT /stages/:id (admin): the partial update of one stage. */
    method UpdateStage(actor: nat, id: nat, patch: Stages.StagePatch) returns (r: Outcome<Stage>)
      requires Valid() && actor in users && users[actor].role == Admin
      modifies this`stages
      ensures Valid()
      ensures id !in old(stages) ==> r == NotFound(Stages.MsgStageNotFound)
      ensures id in old(stages) ==> r == Stages.PatchStage(old(stages)[id], patch)
      ensures r.Ok? ==> stages == old(stages)[id := r.value]
      ensures r.IsError() ==> stages == old(stages)
    {
      if id !in stages {
        return NotFound(Stages.MsgStageNotFound);
      }
      r := Stages.PatchStage(stages[id], patch);
      if r.Ok? {
        stages := stages[id := r.value];
      }
    }

    /** DELETE /stages/:id (admin): only that stage goes. An unknown id is
        answered with the competition's 404 message. */
    method DeleteStage(actor: nat, id: nat) returns (r: Outcome<()>)
      requires Valid() && actor in users && users[actor].role == Admin
      modifies this`stages
      ensures Valid()
      ensures id !in old(stages) ==> r == NotFound(Stages.MsgCompetitionNotFound) && stages == old(stages)
      ensures id in old(stages) ==> r == Ok(()) && stages == old(stages) - {id}
    {
      if id !in stages {
        return NotFound(Stages.MsgCompetitionNotFound);
      }
      stages := stages - {id};
      r := Ok(());
    }

    /* ---------- qualificationController ---------- */

    /** POST /qualification/questions (admin): the validation of the body,
        then the competition must exist; then the question under the next id. */
    method CreateQuestion(actor: nat, req: Qualification.QuestionRequest) returns (r: Outcome<nat>)
      requires Valid() && actor in users && users[actor].role == Admin
      modifies this`questions, this`nextQuestion
      ensures Valid()
      ensures Qualification.NewQuestion(req).IsError() ==> r == Reject(Qualification.NewQuestion(req))
      ensures Qualification.NewQuestion(req).Ok? && req.competitionId.value !in competitions
              ==> r == NotFound(Qualification.MsgCompetitionNotFound)
      ensures r.Ok? <==> Qualification.NewQuestion(req).Ok? && req.competitionId.value in competitions
      ensures r.Ok? ==> && r.value == old(nextQuestion) && nextQuestion == old(nextQuestion) + 1
                        && questions == old(questions)[r.value := Qualification.NewQuestion(req).value]
      ensures r.IsError() ==> questions == old(questions) && nextQuestion == old(nextQuestion)
    {
      var created := Qualification.NewQuestion(req);
      if created.IsError() {
        return Reject(created);
      }
      if req.competitionId.value !in competitions {
        return NotFound(Qualification.MsgCompetitionNotFound);
      }
      var id := InsertQuestion(created.value);
      r := Ok(id);
    }

    /** `QualificationQuestion.create`: a new question under the next id. */
    method InsertQuestion(q: Question) returns (id: nat)
      requires Valid()
      modifies this`questions, this`nextQuestion
      ensures Valid()
      ensures id == old(nextQuestion) && nextQuestion == old(nextQuestion) + 1
      ensures questions == old(questions)[id := q]
    {
      id := nextQuestion;
      questions := questions[id := q];
      nextQuestion := nextQuestion + 1;
    }

    /** GET /qualification/questions/:competitionId: that competition's
        questions, each once, by ascending `order`. */
    method GetQuestions(c: nat) returns (r: seq<nat>)
      ensures forall i :: 0 <= i < |r| ==> r[i] in questions && questions[r[i]].competitionId == c
      ensures forall q :: q in questions && questions[q].competitionId == c ==> q in r
      ensures Distinct(r)
      ensures forall i, j :: 0 <= i < j < |r| ==> questions[r[i]].order <= questions[r[j]].order
    {
      r := FindAllOrdered(questions, (q: Question) => q.competitionId == c, (q: Question) => q.order);
    }

    /** POST /qualification/answers/:competitionId: the competition must exist
        and have a required question. Then the actor's answers for it are
        destroyed and the submitted ones stored one by one; the insert of an
        answer that names no question is refused, which ends the action with
        the answers before it stored. The result says whether every required
        question is named by some submitted answer. */
    method SubmitAnswers(actor: nat, c: nat, inputs: Option<seq<Qualification.AnswerInput>>) returns (r: Outcome<bool>)
      requires Valid() && actor in users
      modifies this`answers
      ensures Valid()
      ensures c !in competitions ==> r == NotFound(Qualification.MsgCompetitionNotFound) && answers == old(answers)
      ensures c in competitions && Qualification.RequiredOf(questions, c) == {}
              ==> r == BadRequest(Qualification.MsgNoQuestions) && answers == old(answers)
      ensures c in competitions && Qualification.RequiredOf(questions, c) != {} && inputs.None?
              ==> r == ServerError(Qualification.MsgSubmitFailed) && answers == Qualification.Without(old(answers), actor, c)
      ensures c in competitions && Qualification.RequiredOf(questions, c) != {} && inputs.Some? ==>
                var n := Qualification.StorablePrefix(inputs.value);
                && answers == Qualification.Replace(old(answers), actor, c, Qualification.Records(actor, c, inputs.value[..n]))
                && (n < |inputs.value| ==> r == ServerError(Qualification.MsgSubmitFailed))
                && (n == |inputs.value| ==> r.Ok?)
      ensures r.Ok? ==> && inputs.Some?
                        && Qualification.Of(answers, actor, c) == Qualification.Records(actor, c, inputs.value)
                        && (r.value <==> forall q :: q in Qualification.RequiredOf(questions, c) ==>
                                           exists k :: 0 <= k < |inputs.value| && inputs.value[k].questionId == Some(q))
    {
      if c !in competitions {
        return NotFound(Qualification.MsgCompetitionNotFound);
      }
      var required := Qualification.RequiredOf(questions, c);
      if required == {} {
        return BadRequest(Qualification.MsgNoQuestions);
      }
      var before := answers;
      answers := Qualification.Without(answers, actor, c);
      if inputs.None? {
        return ServerError(Qualification.MsgSubmitFailed);
      }
      var ins := inputs.value;
      var n := StoreAnswers(actor, c, ins);
      if n < |ins| {
        return ServerError(Qualification.MsgSubmitFailed);
      }
      assert ins[..n] == ins;
      var all := AllRequiredAnswered(actor, c, before, ins, required);
      r := Ok(all);
    }

    /** The insert loop of submitAnswers: the answers are stored in order
        until the first one that names no question. */
    method StoreAnswers(actor: nat, c: nat, ins: seq<Qualification.AnswerInput>) returns (n: nat)
      requires Valid()
      modifies this`answers
      ensures Valid()
      ensures n == Qualification.StorablePrefix(ins)
      ensures answers == old(answers) + Qualification.Records(actor, c, ins[..n])
    {
      var i := 0;
      while i < |ins| && ins[i].questionId.Some?
        invariant 0 <= i <= |ins|
        invariant forall k :: 0 <= k < i ==> ins[k].questionId.Some?
        invariant answers == old(answers) + Qualification.Records(actor, c, ins[..i])
      {
        Qualification.RecordsSnoc(actor, c, ins[..i], ins[i]);
        assert ins[..i + 1] == ins[..i] + [ins[i]];
        answers := answers + [Qualification.RecordOf(actor, c, ins[i])];
        i := i + 1;
      }
      Qualification.StorablePrefixIs(ins, i);
      n := i;
    }

    /** allRequiredAnswered, read back from the table after the answers of
        the actor were replaced: `required.every(q => submitted.some(...))`. */
    method AllRequiredAnswered(actor: nat, c: nat, before: seq<Answer>, ins: seq<Qualification.AnswerInput>, required: set<nat>)
      returns (all: bool)
      requires forall k :: 0 <= k < |ins| ==> ins[k].questionId.Some?
      requires answers == Qualification.Replace(before, actor, c, Qualification.Records(actor, c, ins))
      ensures Qualification.Of(answers, actor, c) == Qualification.Records(actor, c, ins)
      ensures all <==> forall q :: q in required ==> exists k :: 0 <= k < |ins| && ins[k].questionId == Some(q)
    {
      // the required questions as findAll lists them (by id; the check does not depend on the order)
      var requiredList := SortByKey(required, map q | q in required :: q);
      Qualification.RecordsOwned(actor, c, ins);
      Qualification.ReplaceYieldsSubmitted(before, actor, c, Qualification.Records(actor, c, ins));
      var submitted := Qualification.Of(answers, actor, c);
      Qualification.EveryRequiredAnsweredIff(actor, c, ins, requiredList);
      all := Qualification.EveryRequiredAnswered(requiredList, submitted);
    }

    /** GET /qualification/answers/:competitionId (admin): that competition's
        answers. The query sets no order; the model returns them in the
        order they were stored. */
    method GetAnswers(actor: nat, c: nat) returns (r: seq<Answer>)
      requires Valid() && actor in users && users[actor].role == Admin
      ensures forall a :: a in r <==> a in answers && a.competitionId == c
      ensures r == Qualification.OfCompetition(answers, c)
    {
      r := Qualification.OfCompetition(answers, c);
    }

    /** POST /qualification/approve/:userId (admin): the competition must
        exist and be below its capacity, the user must exist and not be
        qualified; then the user is approved and the competition's count
        grows by one, which keeps it within the capacity. */
    method ApproveUser(actor: nat, userId: nat, c: nat, now: int) returns (r: Outcome<User>)
      requires Valid() && actor in users && users[actor].role == Admin
      modifies this`users, this`competitions
      ensures Valid()
      ensures c !in old(competitions) ==> r == NotFound(Qualification.MsgCompetitionNotFound)
      ensures c in old(competitions) && old(competitions)[c].currentQualifiedCount >= old(competitions)[c].maxQualifiedUsers
              ==> r == BadRequest(Qualification.MsgMaxQualifiedReached)
      ensures c in old(competitions) && old(competitions)[c].currentQualifiedCount < old(competitions)[c].maxQualifiedUsers ==>
                && (userId !in old(users) ==> r == NotFound(Qualification.MsgUserNotFound))
                && (userId in old(users) && old(users)[userId].isQualified ==> r == BadRequest(Qualification.MsgAlreadyQualified))
      ensures r.Ok? <==> && c in old(competitions)
                         && old(competitions)[c].currentQualifiedCount < old(competitions)[c].maxQualifiedUsers
                         && userId in old(users) && !old(users)[userId].isQualified
      ensures r.Ok? ==> && users == old(users)[userId := Qualification.Approved(old(users)[userId], now)]
                        && r.value == users[userId]
                        && competitions == old(competitions)[c := old(competitions)[c].(currentQualifiedCount := old(competitions)[c].currentQualifiedCount + 1)]
                        && competitions[c].currentQualifiedCount <= competitions[c].maxQualifiedUsers
      ensures r.IsError() ==> users == old(users) && competitions == old(competitions)
    {
      if c !in competitions {
        return NotFound(Qualification.MsgCompetitionNotFound);
      }
      var comp := competitions[c];
      if comp.currentQualifiedCount >= comp.maxQualifiedUsers {
        return BadRequest(Qualification.MsgMaxQualifiedReached);
      }
      if userId !in users {
        return NotFound(Qualification.MsgUserNotFound);
      }
      if users[userId].isQualified {
        return BadRequest(Qualification.MsgAlreadyQualified);
      }
      var approved := Qualification.Approved(users[userId], now);
      SaveUser(userId, approved);
      competitions := competitions[c := comp.(currentQualifiedCount := comp.currentQualifiedCount + 1)];
      r := Ok(approved);
    }

    /* ---------- teamController ---------- */

    /** A user whose team id is falsy is in no team: under the invariant no
        team has id 0. */
    lemma NoTeamIfFalsy(u: nat)
      requires Valid() && u in users && !TruthyNat(users[u].teamId)
      ensures users[u].teamId.None?
    {
    }

    /** The retry loop of createTeam: candidate codes are drawn in order
        until one is used by no team. */
    method FreshInviteCode(codes: seq<string>) returns (code: string)
      requires Valid() && Teams.SomeCodeFresh(teams, codes)
      ensures code == codes[Teams.FirstFreshCode(teams, codes)]
      ensures !Teams.CodeInUse(teams, code)
    {
      var first := Teams.FirstFreshCode(teams, codes);
      var i := 0;
      var isUnique := false;
      code := codes[0];
      while !isUnique
        invariant i <= |codes|
        invariant !isUnique ==> i <= first
        invariant isUnique ==> 0 < i && i - 1 == first && code == codes[i - 1]
        decreases |codes| - i
      {
        code := codes[i];
        var existing := Teams.TeamWithCode(teams, code, nextTeam);
        if existing.None? {
          isUnique := true;
        }
        i := i + 1;
      }
    }

    /** POST /teams: a leader or a qualified user who is in no team creates a
        team of the competition, with a fresh invite code and room for
        five, and becomes its leader and only member. A team without a name
        is refused by the database. */
    method CreateTeam(actor: nat, c: nat, name: Option<string>, codes: seq<string>) returns (r: Outcome<nat>)
      requires Valid() && actor in users
      requires Teams.SomeCodeFresh(teams, codes)
      modifies this`users, this`teams, this`nextTeam
      ensures Valid()
      ensures !Teams.MayCreateTeam(old(users)[actor]) ==> r == Forbidden(Teams.MsgOnlyQualified)
      ensures Teams.MayCreateTeam(old(users)[actor]) && TruthyNat(old(users)[actor].teamId) ==> r == BadRequest(Teams.MsgAlreadyInTeam)
      ensures Teams.MayCreateTeam(old(users)[actor]) && !TruthyNat(old(users)[actor].teamId) ==>
                && (c !in competitions ==> r == NotFound(Teams.MsgCompetitionNotFound))
                && (c in competitions && name.None? ==> r == ServerError(Teams.MsgCreateFailed))
      ensures r.Ok? <==> Teams.MayCreateTeam(old(users)[actor]) && !TruthyNat(old(users)[actor].teamId)
                         && c in competitions && name.Some?
      ensures r.Ok? ==>
                var team := Team(name.value, codes[Teams.FirstFreshCode(old(teams), codes)], c, actor, false, false, Teams.TeamSize);
                && r.value == old(nextTeam) && nextTeam == old(nextTeam) + 1
                && teams == old(teams)[r.value := team]
                && users == old(users)[actor := old(users)[actor].(teamId := Some(r.value), teamRole := Some(Teams.LeaderRole))]
                && !Teams.CodeInUse(old(teams), team.inviteCode)
                && Teams.Members(users, r.value) == {actor}
      ensures r.IsError() ==> users == old(users) && teams == old(teams) && nextTeam == old(nextTeam)
    {
      var u := users[actor];
      if !Teams.MayCreateTeam(u) {
        return Forbidden(Teams.MsgOnlyQualified);
      }
      if TruthyNat(u.teamId) {
        return BadRequest(Teams.MsgAlreadyInTeam);
      }
      if c !in competitions {
        return NotFound(Teams.MsgCompetitionNotFound);
      }
      var code := FreshInviteCode(codes);
      if name.None? {
        return ServerError(Teams.MsgCreateFailed);
      }
      NoTeamIfFalsy(actor);
      var id := InsertTeam(Team(name.value, code, c, actor, false, false, Teams.TeamSize), actor);
      r := Ok(id);
    }

    /** `Team.create` followed by saving the leader with the new team id. */
    method InsertTeam(team: Team, leader: nat) returns (id: nat)
      requires PeopleValid() && leader in users && users[leader].teamId.None?
      requires team.leaderId == leader && team.maxMembers == Teams.TeamSize && !team.isComplete && !team.isDisqualified
      requires !Teams.CodeInUse(teams, team.inviteCode)
      modifies this`users, this`teams, this`nextTeam
      ensures PeopleValid()
      ensures id == old(nextTeam) && nextTeam == old(nextTeam) + 1 && teams == old(teams)[id := team]
      ensures users == old(users)[leader := old(users)[leader].(teamId := Some(id), teamRole := Some(Teams.LeaderRole))]
      ensures Teams.Members(users, id) == {leader}
    {
      id := nextTeam;
      CreateKeepsPeopleOk(users, nextUser, teams, nextTeam, team, leader);
      users := users[leader := users[leader].(teamId := Some(id), teamRole := Some(Teams.LeaderRole))];
      teams := teams[id := team];
      nextTeam := nextTeam + 1;
    }

    /** POST /teams/join: a user in no team joins the team with the invite
        code unless it is complete, disqualified or full; a full team is
        marked complete as the user is turned away. After a join the team is
        complete exactly when it has reached its capacity. A missing code is
        refused by the database query. */
    method JoinTeam(actor: nat, code: Option<string>) returns (r: Outcome<nat>)
      requires Valid() && actor in users
      modifies this`users, this`teams
      ensures Valid()
      ensures TruthyNat(old(users)[actor].teamId) ==> r == BadRequest(Teams.MsgAlreadyInTeam)
      ensures !TruthyNat(old(users)[actor].teamId) && code.None? ==> r == ServerError(Teams.MsgJoinFailed)
      ensures !TruthyNat(old(users)[actor].teamId) && code.Some? ==>
                var found := Teams.TeamWithCode(old(teams), code.value, nextTeam);
                && (found.None? ==> r == NotFound(Teams.MsgInvalidInviteCode))
                && (found.Some? ==> JoinOutcome(old(users), old(teams), actor, found.value, r, users, teams))
      ensures r.IsError() && r != BadRequest(Teams.MsgTeamFull) ==> users == old(users) && teams == old(teams)
    {
      var u := users[actor];
      if TruthyNat(u.teamId) {
        return BadRequest(Teams.MsgAlreadyInTeam);
      }
      if code.None? {
        return ServerError(Teams.MsgJoinFailed);
      }
      var found := Teams.TeamWithCode(teams, code.value, nextTeam);
      if found.None? {
        return NotFound(Teams.MsgInvalidInviteCode);
      }
      NoTeamIfFalsy(actor);
      r := JoinFound(actor, found.value);
    }

    /** joinTeam once the team with the invite code is found. */
    method JoinFound(actor: nat, t: nat) returns (r: Outcome<nat>)
      requires Valid() && actor in users && users[actor].teamId.None? && t in teams
      modifies this`users, this`teams
      ensures Valid()
      ensures JoinOutcome(old(users), old(teams), actor, t, r, users, teams)
      ensures r.IsError() && r != BadRequest(Teams.MsgTeamFull) ==> users == old(users) && teams == old(teams)
    {
      var team := teams[t];
      if team.isComplete || team.isDisqualified {
        return BadRequest(Teams.MsgFullOrDisqualified);
      }
      if Teams.MemberCount(users, t) >= team.maxMembers {
        MarkComplete(t);
        return BadRequest(Teams.MsgTeamFull);
      }
      AddMember(actor, t);
      r := Ok(t);
    }

    /** Saving a full team as complete. */
    method MarkComplete(t: nat)
      requires Valid()
      requires t in teams && !teams[t].isDisqualified && Teams.MemberCount(users, t) >= teams[t].maxMembers
      modifies this`teams
      ensures Valid()
      ensures teams == old(teams)[t := old(teams)[t].(isComplete := true)]
    {
      MarkFullKeepsPeopleOk(users, nextUser, teams, nextTeam, t);
      teams := teams[t := teams[t].(isComplete := true)];
    }

    /** What joinTeam does once the team with the code is found: its three
        rejections, and the join that grows the team by one member. */
    ghost predicate JoinOutcome(users0: map<nat, User>, teams0: map<nat, Team>, actor: nat, t: nat,
                                r: Outcome<nat>, users1: map<nat, User>, teams1: map<nat, Team>)
      requires actor in users0 && t in teams0
    {
      var team := teams0[t];
      && (team.isComplete || team.isDisqualified ==> r == BadRequest(Teams.MsgFullOrDisqualified))
      && (!team.isComplete && !team.isDisqualified && Teams.MemberCount(users0, t) >= team.maxMembers ==>
            r == BadRequest(Teams.MsgTeamFull) && users1 == users0 && teams1 == teams0[t := team.(isComplete := true)])
      && (!team.isComplete && !team.isDisqualified && Teams.MemberCount(users0, t) < team.maxMembers ==>
            && r == Ok(t)
            && users1 == users0[actor := users0[actor].(teamId := Some(t), teamRole := Some(Teams.MemberRole))]
            && Teams.MemberCount(users1, t) == Teams.MemberCount(users0, t) + 1
            && teams1 == teams0[t := team.(isComplete := Teams.MemberCount(users1, t) >= team.maxMembers)])
    }

    /** Saving the user with the team id, then re-reading the team and
        marking it complete if the join filled it. */
    method AddMember(actor: nat, t: nat)
      requires Valid()
      requires actor in users && users[actor].teamId.None? && t in teams
      requires !teams[t].isComplete && !teams[t].isDisqualified && Teams.MemberCount(users, t) < teams[t].maxMembers
      modifies this`users, this`teams
      ensures Valid()
      ensures users == old(users)[actor := old(users)[actor].(teamId := Some(t), teamRole := Some(Teams.MemberRole))]
      ensures Teams.MemberCount(users, t) == Teams.MemberCount(old(users), t) + 1
      ensures teams == old(teams)[t := old(teams)[t].(isComplete := Teams.MemberCount(users, t) >= old(teams)[t].maxMembers)]
    {
      var account := users[actor].(teamId := Some(t), teamRole := Some(Teams.MemberRole));
      var users' := users[actor := account];
      Teams.JoinAddsOne(users, actor, t, account);
      var teams' := teams[t := teams[t].(isComplete := Teams.MemberCount(users', t) >= teams[t].maxMembers)];
      assert PeopleOk(users', nextUser, teams', nextTeam) by {
        JoinKeepsPeopleOk(users, nextUser, teams, nextTeam, t, actor, users', teams');
      }
      users := users';
      teams := teams';
    }

    /** GET /teams/my-team: the actor's team with its members. */
    method GetTeam(actor: nat) returns (r: Outcome<Teams.TeamView>)
      requires Valid() && actor in users
      ensures !TruthyNat(users[actor].teamId) ==> r == NotFound(Teams.MsgNotInTeam)
      ensures TruthyNat(users[actor].teamId) ==>
                var t := users[actor].teamId.value;
                r.Ok? && r.value.id == t && t in teams && r.value.team == teams[t] && actor in r.value.members
      ensures r.Ok? ==> forall u :: u in r.value.members <==> u in users && users[u].teamId == Some(r.value.id)
      ensures r.Ok? ==> teams[r.value.id].leaderId in r.value.members
    {
      var teamId := users[actor].teamId;
      if !TruthyNat(teamId) {
        return NotFound(Teams.MsgNotInTeam);
      }
      var t := teamId.value;
      r := Ok(Teams.TeamView(t, teams[t], Teams.Members(users, t)));
    }

    /** GET /teams/competition/:competitionId: the competition's teams with
        their members. */
    method GetTeams(actor: nat, c: nat) returns (r: set<Teams.TeamView>)
      requires Valid() && actor in users
      ensures forall v :: v in r ==> v.id in teams && v.team == teams[v.id] && v.team.competitionId == c
      ensures forall v :: v in r ==> v.members == Teams.Members(users, v.id) && v.team.leaderId in v.members
      ensures forall t :: t in teams && teams[t].competitionId == c ==> Teams.TeamView(t, teams[t], Teams.Members(users, t)) in r
    {
      r := set t | t in teams && teams[t].competitionId == c :: Teams.TeamView(t, teams[t], Teams.Members(users, t));
    }

    /** PUT /teams/assign-role: the leader of a team gives one of its
        members a team role; nothing else changes. `target` is the parsed
        `userId` of the body, None when it is not a number. */
    method AssignTeamRole(actor: nat, target: Option<int>, role: Option<string>) returns (r: Outcome<nat>)
      requires Valid() && actor in users
      modifies this`users
      ensures Valid()
      ensures !(TruthyNat(old(users)[actor].teamId) && old(users)[actor].teamRole == Some(Teams.LeaderRole))
              ==> r == Forbidden(Teams.MsgOnlyLeaderAssigns)
      ensures TruthyNat(old(users)[actor].teamId) && old(users)[actor].teamRole == Some(Teams.LeaderRole) ==>
                (r.Ok? <==> target.Some? && target.value >= 0 && target.value in Teams.Members(old(users), old(users)[actor].teamId.value))
      ensures r.IsError() && r != Forbidden(Teams.MsgOnlyLeaderAssigns) ==> r == NotFound(Teams.MsgMemberNotFound)
      ensures r.Ok? ==> && target == Some(r.value as int) && r.value in old(users)
                        && old(users)[r.value].teamId == old(users)[actor].teamId
                        && users == old(users)[r.value := old(users)[r.value].(teamRole := role)]
      ensures r.IsError() ==> users == old(users)
    {
      var u := users[actor];
      if !(TruthyNat(u.teamId) && u.teamRole == Some(Teams.LeaderRole)) {
        return Forbidden(Teams.MsgOnlyLeaderAssigns);
      }
      var members := Teams.Members(users, u.teamId.value);
      if !(target.Some? && target.value >= 0 && target.value as nat in members) {
        return NotFound(Teams.MsgMemberNotFound);
      }
      var m := target.value as nat;
      SaveUser(m, users[m].(teamRole := role));
      r := Ok(m);
    }

    /** Saving a user without changing their team or e-mail address. */
    method SaveUser(u: nat, rec: User)
      requires PeopleValid() && u in users && rec.teamId == users[u].teamId && rec.email == users[u].email
      modifies this`users
      ensures PeopleValid() && users == old(users)[u := rec]
    {
      SaveKeepsPeopleOk(users, nextUser, teams, nextTeam, u, rec);
      users := users[u := rec];
    }

    /** POST /teams/disqualify/:competitionId (admin): every team of the
        competition that is neither complete nor disqualified and has fewer
        members than its capacity is disqualified, one at a time; the result
        is how many. */
    method DisqualifyIncompleteTeams(actor: nat, c: nat) returns (n: nat)
      requires Valid() && actor in users && users[actor].role == Admin
      modifies this`teams
      ensures Valid()
      ensures teams == Teams.MarkDisqualified(old(teams), Teams.DisqualifyTargets(users, old(teams), c))
      ensures n == |Teams.DisqualifyTargets(users, old(teams), c)|
    {
      var targets := DisqualifyTeams(c);
      n := |targets|;
    }

    /** Disqualifying the teams the sweep selects keeps the team invariant. */
    method DisqualifyTeams(c: nat) returns (targets: set<nat>)
      requires PeopleValid()
      modifies this`teams
      ensures PeopleValid()
      ensures targets == Teams.DisqualifyTargets(users, old(teams), c)
      ensures teams == Teams.MarkDisqualified(old(teams), targets)
    {
      targets := Teams.DisqualifyTargets(users, teams, c);
      SweepKeepsPeopleOk(users, nextUser, teams, nextTeam, c);
      MarkAll(targets);
    }

    /** Saving the teams of `targets` as disqualified, one at a time. */
    method MarkAll(targets: set<nat>)
      requires targets <= teams.Keys
      modifies this`teams
      ensures teams == Teams.MarkDisqualified(old(teams), targets)
    {
      var rest := targets;
      while rest != {}
        invariant rest <= targets
        invariant teams == Teams.MarkDisqualified(old(teams), targets - rest)
        decreases rest
      {
        var t :| t in rest;
        Teams.MarkOneMore(old(teams), targets - rest, t);
        assert (targets - rest) + {t} == targets - (rest - {t});
        teams := teams[t := teams[t].(isDisqualified := true)];
        rest := rest - {t};
      }
      assert targets - rest == targets;
    }

    /* ---------- judgeController ---------- */

    /** POST /judges/assign (admin): the user becomes a judge, and is assigned
        to the competition unless already assigned or the competition has
        three judges. The role changes even when the assignment is refused. */
    method AssignJudge(actor: nat, userId: nat, c: nat) returns (r: Outcome<nat>)
      requires Valid() && actor in users && users[actor].role == Admin
      modifies this`users, this`judges, this`nextJudge
      ensures Valid()
      ensures c !in competitions ==> r == NotFound(Judging.MsgCompetitionNotFound)
      ensures c in competitions && userId !in old(users) ==> r == NotFound(Judging.MsgUserNotFound)
      ensures c !in competitions || userId !in old(users) ==> users == old(users)
      ensures c in competitions && userId in old(users) ==>
                && users == old(users)[userId := old(users)[userId].(role := Judge)]
                && (Judging.Assigned(old(judges), userId, c) ==> r == BadRequest(Judging.MsgAlreadyAssigned))
                && (!Judging.Assigned(old(judges), userId, c) && Judging.JudgeCount(old(judges), c) >= Judging.MaxJudges ==>
                      r == BadRequest(Judging.MsgTooManyJudges))
      ensures r.Ok? <==> c in competitions && userId in old(users) && !Judging.Assigned(old(judges), userId, c)
                         && Judging.JudgeCount(old(judges), c) < Judging.MaxJudges
      ensures r.Ok? ==> && r.value == old(nextJudge) && nextJudge == old(nextJudge) + 1
                        && judges == old(judges)[r.value := JudgeAssignment(userId, c)]
                        && Judging.JudgeCount(judges, c) == Judging.JudgeCount(old(judges), c) + 1
                        && Judging.Assigned(judges, userId, c)
      ensures r.IsError() ==> judges == old(judges) && nextJudge == old(nextJudge)
    {
      if c !in competitions {
        return NotFound(Judging.MsgCompetitionNotFound);
      }
      if userId !in users {
        return NotFound(Judging.MsgUserNotFound);
      }
      if users[userId].role != Judge {
        SaveUser(userId, users[userId].(role := Judge));
      }
      r := AddJudge(userId, c);
    }

    /** assignJudge once the competition and the user are found. */
    method AddJudge(userId: nat, c: nat) returns (r: Outcome<nat>)
      requires JudgingValid()
      modifies this`judges, this`nextJudge
      ensures JudgingValid()
      ensures Judging.Assigned(old(judges), userId, c) ==> r == BadRequest(Judging.MsgAlreadyAssigned)
      ensures !Judging.Assigned(old(judges), userId, c) && Judging.JudgeCount(old(judges), c) >= Judging.MaxJudges ==>
                r == BadRequest(Judging.MsgTooManyJudges)
      ensures r.Ok? <==> !Judging.Assigned(old(judges), userId, c) && Judging.JudgeCount(old(judges), c) < Judging.MaxJudges
      ensures r.Ok? ==> && r.value == old(nextJudge) && nextJudge == old(nextJudge) + 1
                        && judges == old(judges)[r.value := JudgeAssignment(userId, c)]
                        && Judging.JudgeCount(judges, c) == Judging.JudgeCount(old(judges), c) + 1
                        && Judging.Assigned(judges, userId, c)
      ensures r.IsError() ==> judges == old(judges) && nextJudge == old(nextJudge)
    {
      var existing := FindOne(judges, (a: JudgeAssignment) => a == JudgeAssignment(userId, c), nextJudge);
      if existing.Some? {
        return BadRequest(Judging.MsgAlreadyAssigned);
      }
      if |Judging.JudgesOf(judges, c)| >= Judging.MaxJudges {
        return BadRequest(Judging.MsgTooManyJudges);
      }
      var id := InsertJudge(JudgeAssignment(userId, c));
      assert judges[id] == JudgeAssignment(userId, c);
      r := Ok(id);
    }

    /** `Judge.create` for a new assignment to a competition with room. */
    method InsertJudge(a: JudgeAssignment) returns (id: nat)
      requires JudgingValid()
      requires !Judging.Assigned(judges, a.userId, a.competitionId)
      requires Judging.JudgeCount(judges, a.competitionId) < Judging.MaxJudges
      modifies this`judges, this`nextJudge
      ensures JudgingValid()
      ensures id == old(nextJudge) && nextJudge == old(nextJudge) + 1 && judges == old(judges)[id := a]
      ensures Judging.JudgeCount(judges, a.competitionId) == Judging.JudgeCount(old(judges), a.competitionId) + 1
    {
      id := nextJudge;
      InsertKeepsIdsBelow(judges, nextJudge, a);
      Judging.AssignKeepsValid(judges, id, a);
      Judging.AssignAddsOne(judges, id, a);
      judges := judges[id := a];
      nextJudge := nextJudge + 1;
    }

    /** GET /judges/:competitionId: the competition's judges, never more
        than three. */
    method GetJudges(c: nat) returns (r: set<nat>)
      requires Valid()
      ensures forall j :: j in r <==> j in judges && judges[j].competitionId == c
      ensures |r| <= Judging.MaxJudges
    {
      r := Judging.JudgesOf(judges, c);
      assert Judging.JudgeCount(judges, c) <= Judging.MaxJudges;
    }

    /** POST /judges/score (judge): the user's first Judge row marks the
        submission; a second mark by the same row overwrites the first, so a
        submission has at most one score per Judge row. The score column is
        NOT NULL, so a request without a score fails. */
    method ScoreSubmission(actor: nat, submissionId: nat, value: Option<int>, comments: Option<string>) returns (r: Outcome<nat>)
      requires Valid() && actor in users && users[actor].role == Judge
      modifies this`scores, this`nextScore
      ensures Valid()
      ensures Judging.JudgeRowOf(judges, actor, nextJudge).None? ==> r == Forbidden(Judging.MsgNotAJudge)
      ensures Judging.JudgeRowOf(judges, actor, nextJudge).Some? ==>
                && (submissionId !in submissions ==> r == NotFound(Judging.MsgSubmissionNotFound))
                && (submissionId in submissions && value.None? ==> r == ServerError(Judging.MsgScoreFailed))
      ensures r.Ok? <==> Judging.JudgeRowOf(judges, actor, nextJudge).Some? && submissionId in submissions && value.Some?
      ensures r.Ok? ==>
                var jr := Judging.JudgeRowOf(judges, actor, nextJudge).value;
                var existing := Judging.ScoreOf(old(scores), submissionId, jr, old(nextScore));
                && r.value in scores && Judging.ScoreKey(scores[r.value]) == (submissionId, jr)
                && scores[r.value].value == value.value
                && (existing.Some? ==> r.value == existing.value && nextScore == old(nextScore)
                                       && scores == old(scores)[r.value := Judging.Rescore(old(scores)[r.value], value.value, comments)])
                && (existing.None? ==> r.value == old(nextScore) && nextScore == old(nextScore) + 1
                                       && scores == old(scores)[r.value := Score(submissionId, jr, value.value, comments)])
      ensures r.IsError() ==> scores == old(scores) && nextScore == old(nextScore)
    {
      var judge := Judging.JudgeRowOf(judges, actor, nextJudge);
      if judge.None? {
        return Forbidden(Judging.MsgNotAJudge);
      }
      if submissionId !in submissions {
        return NotFound(Judging.MsgSubmissionNotFound);
      }
      var jr := judge.value;
      var existing := Judging.ScoreOf(scores, submissionId, jr, nextScore);
      if value.None? {
        return ServerError(Judging.MsgScoreFailed);
      }
      if existing.Some? {
        var k := existing.value;
        SaveScore(k, Judging.Rescore(scores[k], value.value, comments));
        r := Ok(k);
      } else {
        var id := InsertScore(Score(submissionId, jr, value.value, comments));
        r := Ok(id);
      }
    }

    /** Saving a score row without changing its submission or Judge row. */
    method SaveScore(k: nat, s: Score)
      requires JudgingValid() && k in scores && Judging.ScoreKey(s) == Judging.ScoreKey(scores[k])
      modifies this`scores
      ensures JudgingValid() && scores == old(scores)[k := s]
    {
      assert UniqueBy(scores[k := s], Judging.ScoreKey) by {
        UpdateKeepsUnique(scores, Judging.ScoreKey, k, s);
      }
      scores := scores[k := s];
    }

    /** `Score.create` for a submission the Judge row has not marked yet. */
    method InsertScore(s: Score) returns (id: nat)
      requires JudgingValid()
      requires forall k :: k in scores ==> Judging.ScoreKey(scores[k]) != Judging.ScoreKey(s)
      modifies this`scores, this`nextScore
      ensures JudgingValid()
      ensures id == old(nextScore) && nextScore == old(nextScore) + 1 && scores == old(scores)[id := s]
    {
      id := nextScore;
      InsertKeepsIdsBelow(scores, nextScore, s);
      InsertKeepsUnique(scores, Judging.ScoreKey, id, s);
      scores := scores[id := s];
      nextScore := nextScore + 1;
    }

    /** GET /judges/submissions/:competitionId/:stageId (judge): a judge of
        the competition sees the submissions of the competition's stage. */
    method GetSubmissionsForJudging(actor: nat, c: nat, stageId: nat) returns (r: Outcome<set<nat>>)
      requires Valid() && actor in users && users[actor].role == Judge
      ensures !Judging.Assigned(judges, actor, c) ==> r == Forbidden(Judging.MsgNotAssigned)
      ensures Judging.Assigned(judges, actor, c) ==> r.Ok?
      ensures r.Ok? ==> forall s :: s in r.value <==> s in submissions && submissions[s].competitionId == c && submissions[s].stageId == stageId
    {
      var judge := FindOne(judges, (a: JudgeAssignment) => a == JudgeAssignment(actor, c), nextJudge);
      if judge.None? {
        return Forbidden(Judging.MsgNotAssigned);
      }
      r := Ok(set s | s in submissions && submissions[s].competitionId == c && submissions[s].stageId == stageId);
    }

    /* ---------- submissionController ---------- */

    /** POST /submissions: the actor's team submits for a stage. The first
        submission of a team for a stage creates its row, in the stage's
        competition; later ones update that row, so a team has at most one
        submission per stage. */
    method CreateSubmission(actor: nat, stageId: nat, content: Option<string>, file: Option<string>) returns (r: Outcome<nat>)
      requires Valid() && actor in users
      modifies this`submissions, this`nextSubmission
      ensures Valid()
      ensures !TruthyNat(users[actor].teamId) ==> r == Forbidden(Submissions.MsgNoTeam)
      ensures TruthyNat(users[actor].teamId) && stageId !in stages ==> r == NotFound(Submissions.MsgStageNotFound)
      ensures r.Ok? <==> TruthyNat(users[actor].teamId) && stageId in stages
      ensures r.Ok? ==>
                var team := users[actor].teamId.value;
                var existing := Submissions.SubmissionOf(old(submissions), team, stageId, old(nextSubmission));
                && r.value in submissions && Submissions.SubmissionKey(submissions[r.value]) == (team, stageId)
                && (existing.Some? ==> && r.value == existing.value && nextSubmission == old(nextSubmission)
                                       && submissions == old(submissions)[r.value := Submissions.Resubmit(old(submissions)[r.value], content, file)])
                && (existing.None? ==> && r.value == old(nextSubmission) && nextSubmission == old(nextSubmission) + 1
                                       && submissions == old(submissions)[r.value := Submissions.NewSubmission(team, stageId, stages[stageId], content, file)]
                                       && submissions[r.value].competitionId == stages[stageId].competitionId)
      ensures r.IsError() ==> submissions == old(submissions) && nextSubmission == old(nextSubmission)
    {
      var teamId := users[actor].teamId;
      if !TruthyNat(teamId) {
        return Forbidden(Submissions.MsgNoTeam);
      }
      if stageId !in stages {
        return NotFound(Submissions.MsgStageNotFound);
      }
      var team := teamId.value;
      var existing := Submissions.SubmissionOf(submissions, team, stageId, nextSubmission);
      if existing.Some? {
        var k := existing.value;
        SaveSubmission(k, Submissions.Resubmit(submissions[k], content, file));
        r := Ok(k);
      } else {
        var id := InsertSubmission(Submissions.NewSubmission(team, stageId, stages[stageId], content, file));
        r := Ok(id);
      }
    }

    /** Saving a submission row without changing its team or stage. */
    method SaveSubmission(k: nat, sub: Submission)
      requires SubmissionsValid() && k in submissions
      requires Submissions.SubmissionKey(sub) == Submissions.SubmissionKey(submissions[k])
      modifies this`submissions
      ensures SubmissionsValid() && submissions == old(submissions)[k := sub]
    {
      assert UniqueBy(submissions[k := sub], Submissions.SubmissionKey) by {
        UpdateKeepsUnique(submissions, Submissions.SubmissionKey, k, sub);
      }
      submissions := submissions[k := sub];
    }

    /** `Submission.create` for a team and stage that have no row yet. */
    method InsertSubmission(sub: Submission) returns (id: nat)
      requires SubmissionsValid()
      requires forall k :: k in submissions ==> Submissions.SubmissionKey(submissions[k]) != Submissions.SubmissionKey(sub)
      modifies this`submissions, this`nextSubmission
      ensures SubmissionsValid()
      ensures id == old(nextSubmission) && nextSubmission == old(nextSubmission) + 1
      ensures submissions == old(submissions)[id := sub]
    {
      id := nextSubmission;
      InsertKeepsIdsBelow(submissions, nextSubmission, sub);
      InsertKeepsUnique(submissions, Submissions.SubmissionKey, id, sub);
      submissions := submissions[id := sub];
      nextSubmission := nextSubmission + 1;
    }

    /** GET /submissions/stage/:stageId (admin or judge): every submission
        for the stage. */
    method GetSubmissions(actor: nat, stageId: nat) returns (r: set<nat>)
      requires Valid() && actor in users && users[actor].role in {Admin, Judge}
      ensures forall s :: s in r <==> s in submissions && submissions[s].stageId == stageId
      ensures forall s, s' :: s in r && s' in r && s != s' ==> submissions[s].teamId != submissions[s'].teamId
    {
      r := set s | s in submissions && submissions[s].stageId == stageId;
      forall s, s' | s in r && s' in r && s != s' ensures submissions[s].teamId != submissions[s'].teamId {
        assert Submissions.SubmissionKey(submissions[s]) != Submissions.SubmissionKey(submissions[s']);
      }
    }

    /** GET /submissions/my-submission/:stageId: the submission of the actor's
        team for the stage, if it has one. */
    method GetTeamSubmission(actor: nat, stageId: nat) returns (r: Outcome<Option<nat>>)
      requires Valid() && actor in users
      ensures !TruthyNat(users[actor].teamId) ==> r == Forbidden(Submissions.MsgNoTeam)
      ensures TruthyNat(users[actor].teamId) ==> r.Ok?
      ensures r.Ok? ==> var team := users[actor].teamId.value;
                        && (r.value.Some? <==> exists s :: s in submissions && Submissions.SubmissionKey(submissions[s]) == (team, stageId))
                        && (r.value.Some? ==> r.value.value in submissions && Submissions.SubmissionKey(submissions[r.value.value]) == (team, stageId))
    {
      var teamId := users[actor].teamId;
      if !TruthyNat(teamId) {
        return Forbidden(Submissions.MsgNoTeam);
      }
      var found := Submissions.SubmissionOf(submissions, teamId.value, stageId, nextSubmission);
      r := Ok(found);
    }
  }
}
