/** One record per database model (backend/src/models). Every table is a map
    from the row's auto-increment id to the record, so ids are not repeated
    inside the records. Timestamps are integers supplied by the caller. */
module Entities {
  import opened Wrappers

  /** User.role. */
  datatype Role = Admin | Judge | Leader | Member

  /** A user account. `password` is whatever the password hook stored (the
      hash); `teamRole` is free text chosen by the team leader. */
  datatype User = User(
    email: string,
    password: string,
    fullName: string,
    role: Role,
    isQualified: bool,
    qualifiedAt: Option<int>,
    teamId: Option<nat>,
    teamRole: Option<string>)

  /** Competition.status. */
  datatype CompetitionStatus = Draft | Active | Finished

  datatype Competition = Competition(
    name: string,
    description: Option<string>,
    bannerImage: Option<string>,
    status: CompetitionStatus,
    maxQualifiedUsers: int,
    currentQualifiedCount: int,
    createdAt: int)

  /** A team. Its members are the users whose `teamId` is the team's id, so
      the leader is one of them. */
  datatype Team = Team(
    name: string,
    inviteCode: string,
    competitionId: nat,
    leaderId: nat,
    isComplete: bool,
    isDisqualified: bool,
    maxMembers: int)

  /** QualificationQuestion.type. */
  datatype QuestionType = Text | MultipleChoice | FileUpload

  datatype Question = Question(
    competitionId: nat,
    question: string,
    kind: QuestionType,
    options: Option<seq<string>>,
    order: int,
    isRequired: bool)

  datatype Answer = Answer(
    userId: nat,
    questionId: nat,
    competitionId: nat,
    answer: Option<string>,
    filePath: Option<string>)

  /** Stage.scoringType. */
  datatype ScoringType = Automatic | Manual

  /** A stage. The dates are kept as the text the administrator sent. */
  datatype Stage = Stage(
    competitionId: nat,
    name: string,
    description: Option<string>,
    order: int,
    scoringType: ScoringType,
    instructions: Option<string>,
    startDate: Option<string>,
    endDate: Option<string>,
    isActive: bool)

  datatype Submission = Submission(
    teamId: nat,
    stageId: nat,
    competitionId: nat,
    content: Option<string>,
    filePath: Option<string>)

  /** A Judge row: the assignment of a user to a competition. */
  datatype JudgeAssignment = JudgeAssignment(userId: nat, competitionId: nat)

  /** A Score row. `judgeId` is the id of a JudgeAssignment row; `value` is the
      DECIMAL(10,2) score, stored as the request sends it (an integer in
      this model) and never computed with. */
  datatype Score = Score(
    submissionId: nat,
    judgeId: nat,
    value: int,
    comments: Option<string>)
}
