/** The state rules behind backend/src/controllers/judgeController.js: the
    cap of three judges per competition, the uniqueness of assignments, and
    the score upsert. */
module Judging {
  import opened Wrappers
  import opened Js
  import opened Entities
  import opened Lookup

  const MsgCompetitionNotFound := "Competition not found"
  const MsgUserNotFound := "User not found"
  const MsgAlreadyAssigned := "Judge already assigned to this competition"
  const MsgTooManyJudges := "Maximum 3 judges per competition"
  const MsgNotAJudge := "User is not a judge"
  const MsgSubmissionNotFound := "Submission not found"
  const MsgScoreFailed := "Failed to score submission"
  const MsgNotAssigned := "Not assigned as judge for this competition"

  const MaxJudges := 3

  /** The Judge rows of competition `c`. */
  function JudgesOf(judges: map<nat, JudgeAssignment>, c: nat): (s: set<nat>)
    ensures forall j :: j in s <==> j in judges && judges[j].competitionId == c
  {
    set j | j in judges && judges[j].competitionId == c
  }

  function JudgeCount(judges: map<nat, JudgeAssignment>, c: nat): nat {
    |JudgesOf(judges, c)|
  }

  /** A Judge row is its own key: a user is assigned to a competition at most once. */
  function AssignmentKey(a: JudgeAssignment): JudgeAssignment {
    a
  }

  /** What holds of the Judge rows between any two actions. */
  ghost predicate JudgesValid(judges: map<nat, JudgeAssignment>) {
    && UniqueBy(judges, AssignmentKey)
    && forall c :: JudgeCount(judges, c) <= MaxJudges
  }

  /** A new Judge row adds exactly one judge to its competition and none to
      any other. */
  lemma AssignAddsOne(judges: map<nat, JudgeAssignment>, k: nat, a: JudgeAssignment)
    requires k !in judges
    ensures JudgesOf(judges[k := a], a.competitionId) == JudgesOf(judges, a.competitionId) + {k}
    ensures JudgeCount(judges[k := a], a.competitionId) == JudgeCount(judges, a.competitionId) + 1
    ensures forall c :: c != a.competitionId ==> JudgesOf(judges[k := a], c) == JudgesOf(judges, c)
  {
    assert k !in JudgesOf(judges, a.competitionId);
  }

  /** An assignment made only when it is new and the competition has fewer
      than three judges keeps the invariant. */
  lemma AssignKeepsValid(judges: map<nat, JudgeAssignment>, k: nat, a: JudgeAssignment)
    requires JudgesValid(judges) && k !in judges
    requires forall j :: j in judges ==> judges[j] != a
    requires JudgeCount(judges, a.competitionId) < MaxJudges
    ensures JudgesValid(judges[k := a])
  {
    var judges' := judges[k := a];
    AssignAddsOne(judges, k, a);
    InsertKeepsUnique(judges, AssignmentKey, k, a);
    forall c ensures JudgeCount(judges', c) <= MaxJudges {
      assert JudgeCount(judges, c) <= MaxJudges;
      if c != a.competitionId {
        assert JudgesOf(judges', c) == JudgesOf(judges, c);
      } else {
        assert JudgeCount(judges', c) == JudgeCount(judges, c) + 1;
      }
    }
  }

  /** Under the invariant a competition with three judges takes no more:
      the cap of the invariant is the cap the handler enforces. */
  lemma FullCompetitionHasThree(judges: map<nat, JudgeAssignment>, c: nat)
    requires JudgesValid(judges) && JudgeCount(judges, c) >= MaxJudges
    ensures JudgeCount(judges, c) == MaxJudges
  {
  }

  /** `Judge.findOne({ where: { userId } })`: the user's Judge row with the
      smallest id, whatever its competition. */
  function JudgeRowOf(judges: map<nat, JudgeAssignment>, user: nat, next: nat): (r: Option<nat>)
    requires IdsBelow(judges, next)
    ensures r.Some? <==> exists j :: j in judges && judges[j].userId == user
    ensures r.Some? ==> r.value in judges && judges[r.value].userId == user
    ensures r.Some? ==> forall j :: j in judges && j < r.value ==> judges[j].userId != user
  {
    FindOne(judges, (a: JudgeAssignment) => a.userId == user, next)
  }

  /** The user is a judge of the competition. */
  predicate Assigned(judges: map<nat, JudgeAssignment>, user: nat, c: nat) {
    exists j :: j in judges && judges[j] == JudgeAssignment(user, c)
  }

  /* ---------- Scores ---------- */

  /** A Score row is identified by its submission and its Judge row. */
  function ScoreKey(s: Score): (nat, nat) {
    (s.submissionId, s.judgeId)
  }

  /** The existing score after a new mark: the value is replaced, the
      comments only by non-empty ones; the score stays attached to the same
      submission and Judge row. */
  function Rescore(s: Score, value: int, comments: Option<string>): (r: Score)
    ensures ScoreKey(r) == ScoreKey(s) && r.value == value
    ensures Truthy(comments) ==> r.comments == comments
    ensures !Truthy(comments) ==> r.comments == s.comments
  {
    s.(value := value, comments := OrElse(comments, s.comments))
  }

  /** `Score.findOne({ where: { submissionId, judgeId } })`. */
  function ScoreOf(scores: map<nat, Score>, submissionId: nat, judgeId: nat, next: nat): (r: Option<nat>)
    requires IdsBelow(scores, next)
    ensures r.Some? <==> exists s :: s in scores && ScoreKey(scores[s]) == (submissionId, judgeId)
    ensures r.Some? ==> r.value in scores && ScoreKey(scores[r.value]) == (submissionId, judgeId)
  {
    FindOne(scores, (s: Score) => ScoreKey(s) == (submissionId, judgeId), next)
  }

  /** Marking twice with the same value and comments is marking once. */
  lemma RescoreIdempotent(s: Score, value: int, comments: Option<string>)
    ensures Rescore(Rescore(s, value, comments), value, comments) == Rescore(s, value, comments)
  {
  }

  /** A later mark overrides an earlier one, apart from comments that the
      later mark leaves empty. */
  lemma RescoreLatestWins(s: Score, v1: int, c1: Option<string>, v2: int, c2: Option<string>)
    ensures Rescore(Rescore(s, v1, c1), v2, c2).value == v2
    ensures Truthy(c2) ==> Rescore(Rescore(s, v1, c1), v2, c2) == Rescore(s, v2, c2)
  {
  }
}
