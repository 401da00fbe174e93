/** The pure rules of backend/src/controllers/competitionController.js: the
    validation and defaults of a new competition, the partial update, and the
    banner upload filter. */
module Competitions {
  import opened Wrappers
  import opened Js
  import opened Entities

  const MsgNameRequired := "Competition name is required"
  const MsgMaxNotPositive := "Max qualified users must be a positive number"
  const MsgCompetitionNotFound := "Competition not found"
  const MsgUpdateFailed := "Failed to update competition"

  const DefaultMaxQualifiedUsers := 100

  /** A numeric field of a request body: absent (or ""), a text that is not a
      number, or a value `n` sent as a JSON number or as a text such as "50"
      (a form upload sends text, and the text "0" is truthy). */
  datatype NumberField = Absent | NotANumber | Given(n: int, asText: bool)

  /** JavaScript truthiness of the field. */
  predicate TruthyNumber(f: NumberField) {
    match f
    case Absent => false
    case NotANumber => true
    case Given(n, asText) => asText || n != 0
  }

  /** The check `maxQualifiedUsers && (isNaN(maxQualifiedUsers) || maxQualifiedUsers < 1)` fails. */
  predicate AcceptableMax(f: NumberField) {
    !TruthyNumber(f) || (f.Given? && f.n >= 1)
  }

  /** A name that `!name || name.trim().length < 1` lets through. */
  predicate AcceptableName(name: Option<string>) {
    Truthy(name) && Trim(name.value) != []
  }

  /** The body of POST /competitions (the banner file travels separately). */
  datatype CompetitionRequest = CompetitionRequest(
    name: Option<string>,
    description: Option<string>,
    maxQualifiedUsers: NumberField)

  /** The competition that createCompetition stores, or its 400. A new
      competition is a draft with no qualified users and a positive capacity. */
  function NewCompetition(req: CompetitionRequest, banner: Option<string>, now: int): (r: Outcome<Competition>)
    ensures !AcceptableName(req.name) ==> r == BadRequest(MsgNameRequired)
    ensures AcceptableName(req.name) && !AcceptableMax(req.maxQualifiedUsers) ==> r == BadRequest(MsgMaxNotPositive)
    ensures r.Ok? <==> AcceptableName(req.name) && AcceptableMax(req.maxQualifiedUsers)
    ensures r.Ok? ==> r.value.name != [] && r.value.name == Trim(req.name.value) && Trim(r.value.name) == r.value.name
    ensures r.Ok? ==> r.value.description == if Truthy(req.description) then Some(Trim(req.description.value)) else None
    ensures r.Ok? ==> r.value.maxQualifiedUsers ==
                      if TruthyNumber(req.maxQualifiedUsers) then req.maxQualifiedUsers.n else DefaultMaxQualifiedUsers
    ensures r.Ok? ==> 0 == r.value.currentQualifiedCount < r.value.maxQualifiedUsers
    ensures r.Ok? ==> r.value.status == Draft && r.value.bannerImage == banner && r.value.createdAt == now
  {
    if !AcceptableName(req.name) then BadRequest(MsgNameRequired)
    else if !AcceptableMax(req.maxQualifiedUsers) then BadRequest(MsgMaxNotPositive)
    else
      var name := Trim(req.name.value);
      TrimIdempotent(req.name.value);
      Ok(Competition(
        name := name,
        description := if Truthy(req.description) then Some(Trim(req.description.value)) else None,
        bannerImage := banner,
        status := Draft,
        maxQualifiedUsers := if TruthyNumber(req.maxQualifiedUsers) then req.maxQualifiedUsers.n
                             else DefaultMaxQualifiedUsers,
        currentQualifiedCount := 0,
        createdAt := now))
  }

  /** The status a text names, if any (the ENUM of Competition.status). */
  function StatusNamed(s: string): (r: Option<CompetitionStatus>)
    ensures r.Some? <==> s == "draft" || s == "active" || s == "finished"
  {
    if s == "draft" then Some(Draft)
    else if s == "active" then Some(Active)
    else if s == "finished" then Some(Finished)
    else None
  }

  /** The body of PUT /competitions/:id. */
  datatype CompetitionPatch = CompetitionPatch(
    name: Option<string>,
    description: Option<string>,
    status: Option<string>,
    maxQualifiedUsers: NumberField)

  /** A patch that changes no field. */
  const NoCompetitionChange := CompetitionPatch(None, None, None, Absent)

  /** updateCompetition's new record: each field sent with a truthy value
      replaces the stored one (name and description are not trimmed, and the
      capacity is not compared with the qualified count, and the text "0" of
      a form upload is truthy); a new banner replaces the old one; nothing
      else changes. A status outside the ENUM, and a capacity text that is
      not a number, are refused by the database when the record is saved. */
  function PatchCompetition(c: Competition, p: CompetitionPatch, banner: Option<string>): (r: Outcome<Competition>)
    ensures r.IsError() <==> || (Truthy(p.status) && StatusNamed(p.status.value).None?)
                             || p.maxQualifiedUsers.NotANumber?
    ensures r.IsError() ==> r == ServerError(MsgUpdateFailed)
    ensures r.Ok? ==> r.value.name == if Truthy(p.name) then p.name.value else c.name
    ensures r.Ok? ==> r.value.description == if Truthy(p.description) then p.description else c.description
    ensures r.Ok? ==> r.value.status == if Truthy(p.status) then StatusNamed(p.status.value).value else c.status
    ensures r.Ok? ==> r.value.maxQualifiedUsers ==
                      if TruthyNumber(p.maxQualifiedUsers) then p.maxQualifiedUsers.n else c.maxQualifiedUsers
    ensures r.Ok? ==> r.value.bannerImage == if banner.Some? then banner else c.bannerImage
    ensures r.Ok? ==> r.value.currentQualifiedCount == c.currentQualifiedCount && r.value.createdAt == c.createdAt
  {
    if || (Truthy(p.status) && StatusNamed(p.status.value).None?)
       || p.maxQualifiedUsers.NotANumber?
    then ServerError(MsgUpdateFailed)
    else
      var c1 := if banner.Some? then c.(bannerImage := banner) else c;
      var c2 := if Truthy(p.name) then c1.(name := p.name.value) else c1;
      var c3 := if Truthy(p.description) then c2.(description := p.description) else c2;
      var c4 := if Truthy(p.status) then c3.(status := StatusNamed(p.status.value).value) else c3;
      var c5 := if TruthyNumber(p.maxQualifiedUsers) then c4.(maxQualifiedUsers := p.maxQualifiedUsers.n) else c4;
      Ok(c5)
  }

  /** Sending the same update twice has the effect of sending it once. */
  lemma PatchCompetitionIdempotent(c: Competition, p: CompetitionPatch, banner: Option<string>)
    requires PatchCompetition(c, p, banner).Ok?
    ensures PatchCompetition(PatchCompetition(c, p, banner).value, p, banner) == PatchCompetition(c, p, banner)
  {
  }

  /** An update with no fields and no file leaves the competition as it was. */
  lemma NoCompetitionChangeIsIdentity(c: Competition)
    ensures PatchCompetition(c, NoCompetitionChange, None) == Ok(c)
  {
  }

  /** Nothing stops an update from lowering the capacity below the number of
      users already qualified. */
  lemma PatchMayUndercutQualifiedCount(c: Competition, n: int)
    requires n != 0 && n < c.currentQualifiedCount
    ensures PatchCompetition(c, CompetitionPatch(None, None, None, Given(n, false)), None).Ok?
    ensures PatchCompetition(c, CompetitionPatch(None, None, None, Given(n, false)), None).value.maxQualifiedUsers
            < c.currentQualifiedCount
  {
  }

  /** A form upload sends the capacity as text, and the text "0" is truthy:
      it sets a capacity of 0 even though the JSON number 0 changes nothing. */
  lemma PatchTextZeroSetsZero(c: Competition)
    requires c.maxQualifiedUsers != 0
    ensures PatchCompetition(c, CompetitionPatch(None, None, None, Given(0, true)), None) == Ok(c.(maxQualifiedUsers := 0))
    ensures PatchCompetition(c, CompetitionPatch(None, None, None, Given(0, false)), None) == Ok(c)
  {
  }

  /** The alternatives of /jpeg|jpg|png|gif|webp/. */
  const ImageTypes: seq<string> := ["jpeg", "jpg", "png", "gif", "webp"]

  /** The banner upload filter: both the lower-cased extension of the file
      name and the (case-sensitive) mimetype must mention an image type. */
  predicate BannerAccepted(originalName: string, mimetype: string) {
    MatchesAny(ToLower(ExtName(originalName)), ImageTypes) && MatchesAny(mimetype, ImageTypes)
  }

  /** The case of the file name does not matter to the banner filter. */
  lemma BannerIgnoresNameCase(originalName: string, mimetype: string)
    ensures BannerAccepted(ToLower(originalName), mimetype) == BannerAccepted(originalName, mimetype)
  {
    ExtNameLower(originalName);
    ToLowerIdempotent(ExtName(originalName));
  }

  /** The banner filter needs both tests: a correct extension alone is refused. */
  lemma BannerNeedsImageMimetype(base: string, mimetype: string)
    requires base != [] && !MatchesAny(mimetype, ImageTypes)
    ensures !BannerAccepted(base + ".png", mimetype)
  {
  }
}
