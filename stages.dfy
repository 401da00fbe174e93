/** The pure rules of backend/src/controllers/stageController.js: the
    defaults of a new stage and the partial update. */
module Stages {
  import opened Wrappers
  import opened Js
  import opened Entities

  const MsgCompetitionNotFound := "Competition not found"
  const MsgStageNotFound := "Stage not found"
  const MsgCreateFailed := "Failed to create stage"
  const MsgUpdateFailed := "Failed to update stage"

  /** The scoring type a text names, if any (the ENUM of Stage.scoringType). */
  function ScoringTypeNamed(s: string): (r: Option<ScoringType>)
    ensures r.Some? <==> s == "automatic" || s == "manual"
  {
    if s == "automatic" then Some(Automatic)
    else if s == "manual" then Some(Manual)
    else None
  }

  /** The body of POST /stages. `order` is None when it is absent, and so
      are the text fields. */
  datatype StageRequest = StageRequest(
    competitionId: nat,
    name: Option<string>,
    description: Option<string>,
    order: Option<int>,
    scoringType: Option<string>,
    instructions: Option<string>,
    startDate: Option<string>,
    endDate: Option<string>)

  /** The stage that createStage stores once its competition is known to
      exist: order 0 and automatic scoring unless given, inactive. A missing
      name or an unknown scoring type is refused by the database. */
  function NewStage(req: StageRequest): (r: Outcome<Stage>)
    ensures r.IsError() <==> req.name.None? || (Truthy(req.scoringType) && ScoringTypeNamed(req.scoringType.value).None?)
    ensures r.IsError() ==> r == ServerError(MsgCreateFailed)
    ensures r.Ok? ==> r.value.competitionId == req.competitionId && r.value.name == req.name.value
    ensures r.Ok? ==> r.value.order == if req.order.Some? then req.order.value else 0
    ensures r.Ok? ==> r.value.scoringType ==
                      if Truthy(req.scoringType) then ScoringTypeNamed(req.scoringType.value).value else Automatic
    ensures r.Ok? ==> && r.value.description == req.description && r.value.instructions == req.instructions
                      && r.value.startDate == req.startDate && r.value.endDate == req.endDate
    ensures r.Ok? ==> !r.value.isActive
  {
    if req.name.None? then ServerError(MsgCreateFailed)
    else if Truthy(req.scoringType) && ScoringTypeNamed(req.scoringType.value).None? then ServerError(MsgCreateFailed)
    else
      Ok(Stage(
        competitionId := req.competitionId,
        name := req.name.value,
        description := req.description,
        order := if req.order.Some? && req.order.value != 0 then req.order.value else 0,
        scoringType := if Truthy(req.scoringType) then ScoringTypeNamed(req.scoringType.value).value else Automatic,
        instructions := req.instructions,
        startDate := req.startDate,
        endDate := req.endDate,
        isActive := false))
  }

  /** The body of PUT /stages/:id; None is a field left out of the body. */
  datatype StagePatch = StagePatch(
    name: Option<string>,
    description: Option<string>,
    order: Option<int>,
    scoringType: Option<string>,
    instructions: Option<string>,
    startDate: Option<string>,
    endDate: Option<string>,
    isActive: Option<bool>)

  const NoStageChange := StagePatch(None, None, None, None, None, None, None, None)

  /** A text field of the update: replaced only by a truthy value. */
  function Overwrite(old_: Option<string>, new_: Option<string>): (r: Option<string>)
    ensures Truthy(new_) ==> r == new_
    ensures !Truthy(new_) ==> r == old_
  {
    if Truthy(new_) then new_ else old_
  }

  /** updateStage's new record: order and isActive are replaced whenever they
      are sent, even by 0 or false; the text fields and the scoring type only
      by a truthy value; the competition never changes. */
  function PatchStage(s: Stage, p: StagePatch): (r: Outcome<Stage>)
    ensures r.IsError() <==> Truthy(p.scoringType) && ScoringTypeNamed(p.scoringType.value).None?
    ensures r.IsError() ==> r == ServerError(MsgUpdateFailed)
    ensures r.Ok? ==> r.value.competitionId == s.competitionId
    ensures r.Ok? ==> r.value.name == if Truthy(p.name) then p.name.value else s.name
    ensures r.Ok? ==> r.value.order == if p.order.Some? then p.order.value else s.order
    ensures r.Ok? ==> r.value.isActive == if p.isActive.Some? then p.isActive.value else s.isActive
    ensures r.Ok? ==> r.value.scoringType ==
                      if Truthy(p.scoringType) then ScoringTypeNamed(p.scoringType.value).value else s.scoringType
    ensures r.Ok? ==> && r.value.description == (if Truthy(p.description) then p.description else s.description)
                      && r.value.instructions == (if Truthy(p.instructions) then p.instructions else s.instructions)
                      && r.value.startDate == (if Truthy(p.startDate) then p.startDate else s.startDate)
                      && r.value.endDate == (if Truthy(p.endDate) then p.endDate else s.endDate)
  {
    if Truthy(p.scoringType) && ScoringTypeNamed(p.scoringType.value).None? then ServerError(MsgUpdateFailed)
    else
      Ok(s.(
        name := if Truthy(p.name) then p.name.value else s.name,
        description := Overwrite(s.description, p.description),
        order := if p.order.Some? then p.order.value else s.order,
        scoringType := if Truthy(p.scoringType) then ScoringTypeNamed(p.scoringType.value).value else s.scoringType,
        instructions := Overwrite(s.instructions, p.instructions),
        startDate := Overwrite(s.startDate, p.startDate),
        endDate := Overwrite(s.endDate, p.endDate),
        isActive := if p.isActive.Some? then p.isActive.value else s.isActive))
  }

  /** Sending the same update twice has the effect of sending it once. */
  lemma PatchStageIdempotent(s: Stage, p: StagePatch)
    requires PatchStage(s, p).Ok?
    ensures PatchStage(PatchStage(s, p).value, p) == PatchStage(s, p)
  {
  }

  /** An empty update body leaves the stage as it was. */
  lemma NoStageChangeIsIdentity(s: Stage)
    ensures PatchStage(s, NoStageChange) == Ok(s)
  {
  }

  /** A stage created and then updated with its own creation fields is
      unchanged, apart from the activity flag the update may set. */
  lemma PatchWithCreationFields(req: StageRequest, active: bool)
    requires NewStage(req).Ok?
    ensures PatchStage(NewStage(req).value,
                       StagePatch(req.name, req.description, req.order, req.scoringType,
                                  req.instructions, req.startDate, req.endDate, Some(active)))
            == Ok(NewStage(req).value.(isActive := active))
  {
  }
}
