/** The pure rules of backend/src/controllers/submissionController.js: the
    upload filter and the two halves of the submission upsert. */
module Submissions {
  import opened Wrappers
  import opened Js
  import opened Entities
  import opened Lookup
  import Competitions

  const MsgNoTeam := "User must be in a team"
  const MsgStageNotFound := "Stage not found"

  /** The alternatives of /pdf|xlsx?|csv|jpeg|jpg|png|gif|webp/. The pattern
      `xlsx?` occurs in a text exactly when "xls" does, so "xls" stands for it. */
  const SubmissionExtensions: seq<string> := ["pdf", "xls", "csv", "jpeg", "jpg", "png", "gif", "webp"]

  /** The alternatives of /pdf|excel|spreadsheet|csv|image/. */
  const SubmissionMimetypes: seq<string> := ["pdf", "excel", "spreadsheet", "csv", "image"]

  /** The submission upload filter: the (case-sensitive) mimetype or the
      lower-cased extension of the file name mentions an allowed type. */
  predicate SubmissionFileAccepted(originalName: string, mimetype: string) {
    MatchesAny(mimetype, SubmissionMimetypes) || MatchesAny(ToLower(ExtName(originalName)), SubmissionExtensions)
  }

  /** The case of the file name does not matter to the filter. */
  lemma SubmissionIgnoresNameCase(originalName: string, mimetype: string)
    ensures SubmissionFileAccepted(ToLower(originalName), mimetype) == SubmissionFileAccepted(originalName, mimetype)
  {
    ExtNameLower(originalName);
    ToLowerIdempotent(ExtName(originalName));
  }

  /** A file named `base.pdf` is accepted whatever its mimetype. */
  lemma PdfNameAccepted(base: string, mimetype: string)
    requires base != []
    ensures SubmissionFileAccepted(base + ".pdf", mimetype)
  {
    ExtNameOfSuffix(base, "pdf");
    assert base + ".pdf" == base + "." + "pdf";
    assert ToLower(".pdf") == ".pdf";
    assert OccursAt(".pdf", SubmissionExtensions[0], 1);
    assert Contains(".pdf", SubmissionExtensions[0]);
  }

  /** Either test alone admits a file: an image mimetype admits a file of
      any name. */
  lemma ImageMimetypeAccepted(originalName: string, mimetype: string)
    requires Contains(mimetype, "image")
    ensures SubmissionFileAccepted(originalName, mimetype)
  {
    assert SubmissionMimetypes[4] == "image";
  }

  /** Every file the banner filter accepts, the submission filter accepts. */
  lemma BannerFileIsSubmissionFile(originalName: string, mimetype: string)
    requires Competitions.BannerAccepted(originalName, mimetype)
    ensures SubmissionFileAccepted(originalName, mimetype)
  {
    var ext := ToLower(ExtName(originalName));
    var k :| 0 <= k < |Competitions.ImageTypes| && Contains(ext, Competitions.ImageTypes[k]);
    assert Competitions.ImageTypes[k] == SubmissionExtensions[k + 3];
  }

  /** A repeated submission of team and stage: the content is replaced only
      by non-empty content, the file only when one is uploaded; the team,
      stage and competition stay. */
  function Resubmit(s: Submission, content: Option<string>, file: Option<string>): (r: Submission)
    ensures r.teamId == s.teamId && r.stageId == s.stageId && r.competitionId == s.competitionId
    ensures Truthy(content) ==> r.content == content
    ensures !Truthy(content) ==> r.content == s.content
    ensures file.Some? ==> r.filePath == file
    ensures file.None? ==> r.filePath == s.filePath
  {
    s.(content := OrElse(content, s.content), filePath := if file.Some? then file else s.filePath)
  }

  /** Resubmitting the same request is resubmitting it once. */
  lemma ResubmitIdempotent(s: Submission, content: Option<string>, file: Option<string>)
    ensures Resubmit(Resubmit(s, content, file), content, file) == Resubmit(s, content, file)
  {
  }

  /** A resubmission with neither content nor a file changes nothing. */
  lemma EmptyResubmitIsIdentity(s: Submission)
    ensures Resubmit(s, None, None) == s
  {
  }

  /** The first submission of a team for a stage: its competition is the
      stage's, and it has a file only when one is uploaded. */
  function NewSubmission(teamId: nat, stageId: nat, stage: Stage, content: Option<string>, file: Option<string>): (r: Submission)
    ensures r.teamId == teamId && r.stageId == stageId && r.competitionId == stage.competitionId
    ensures r.content == content && r.filePath == file
  {
    Submission(teamId, stageId, stage.competitionId, content, file)
  }

  /** A Submission row is identified by its team and stage. */
  function SubmissionKey(s: Submission): (nat, nat) {
    (s.teamId, s.stageId)
  }

  /** `Submission.findOne({ where: { teamId, stageId } })`. */
  function SubmissionOf(subs: map<nat, Submission>, teamId: nat, stageId: nat, next: nat): (r: Option<nat>)
    requires IdsBelow(subs, next)
    ensures r.Some? <==> exists s :: s in subs && SubmissionKey(subs[s]) == (teamId, stageId)
    ensures r.Some? ==> r.value in subs && SubmissionKey(subs[r.value]) == (teamId, stageId)
  {
    FindOne(subs, (s: Submission) => SubmissionKey(s) == (teamId, stageId), next)
  }
}
