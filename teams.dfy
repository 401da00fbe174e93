/** The state rules behind backend/src/controllers/teamController.js: team
    membership, the invariant every action keeps, the invite-code search,
    and the disqualification sweep. */
module Teams {
  import opened Wrappers
  import opened Entities
  import opened Lookup

  const MsgOnlyQualified := "Only qualified users can create teams"
  const MsgAlreadyInTeam := "User is already in a team"
  const MsgCompetitionNotFound := "Competition not found"
  const MsgCreateFailed := "Failed to create team"
  const MsgInvalidInviteCode := "Invalid invite code"
  const MsgFullOrDisqualified := "Team is full or disqualified"
  const MsgTeamFull := "Team is full"
  const MsgJoinFailed := "Failed to join team"
  const MsgNotInTeam := "User is not in a team"
  const MsgOnlyLeaderAssigns := "Only team leader can assign roles"
  const MsgMemberNotFound := "Member not found in team"

  /** The size of every team createTeam makes. */
  const TeamSize := 5
  const LeaderRole := "leader"
  const MemberRole := "member"

  /** The `members` association: the users whose teamId is `t` (the leader
      among them). */
  function Members(users: map<nat, User>, t: nat): (s: set<nat>)
    ensures forall u :: u in s <==> u in users && users[u].teamId == Some(t)
  {
    set u | u in users && users[u].teamId == Some(t)
  }

  function MemberCount(users: map<nat, User>, t: nat): nat {
    |Members(users, t)|
  }

  /** Every team a user names exists. */
  ghost predicate TeamRefsExist(users: map<nat, User>, teams: map<nat, Team>) {
    forall u :: u in users && users[u].teamId.Some? ==> users[u].teamId.value in teams
  }

  /** Every team's leader is one of its members. */
  ghost predicate LeadersAreMembers(users: map<nat, User>, teams: map<nat, Team>) {
    forall t :: t in teams ==> teams[t].leaderId in users && users[teams[t].leaderId].teamId == Some(t)
  }

  /** No team has more members than its capacity, and a team marked complete is full. */
  ghost predicate WithinCapacity(users: map<nat, User>, teams: map<nat, Team>) {
    && (forall t {:trigger MemberCount(users, t)} :: t in teams ==> MemberCount(users, t) <= teams[t].maxMembers)
    && (forall t {:trigger MemberCount(users, t)} :: t in teams && teams[t].isComplete ==> MemberCount(users, t) >= teams[t].maxMembers)
  }

  /** No team is both complete and disqualified. */
  ghost predicate FlagsExclusive(teams: map<nat, Team>) {
    forall t :: t in teams ==> !(teams[t].isComplete && teams[t].isDisqualified)
  }

  /** No two teams share an invite code. */
  ghost predicate CodesUnique(teams: map<nat, Team>) {
    UniqueBy(teams, CodeOf)
  }

  function CodeOf(t: Team): string {
    t.inviteCode
  }

  /** What holds of the teams between any two actions. */
  ghost predicate TeamsValid(users: map<nat, User>, teams: map<nat, Team>) {
    && TeamRefsExist(users, teams)
    && LeadersAreMembers(users, teams)
    && WithinCapacity(users, teams)
    && FlagsExclusive(teams)
    && CodesUnique(teams)
  }

  /** A team as the team queries return it: the row and its members. */
  datatype TeamView = TeamView(id: nat, team: Team, members: set<nat>)

  /* ---------- Membership changes ---------- */

  /** Putting a user who is in no team into team `t` adds exactly that user
      to `t` and changes no other team. */
  lemma JoinAddsOne(users: map<nat, User>, u: nat, t: nat, rec: User)
    requires u in users && users[u].teamId.None? && rec.teamId == Some(t)
    ensures Members(users[u := rec], t) == Members(users, t) + {u}
    ensures MemberCount(users[u := rec], t) == MemberCount(users, t) + 1
    ensures forall t' :: t' != t ==> Members(users[u := rec], t') == Members(users, t')
  {
    assert u !in Members(users, t);
  }

  /** Changes that keep every user's team keep every team's members. */
  lemma SameTeamsSameMembers(users: map<nat, User>, users': map<nat, User>)
    requires users.Keys == users'.Keys
    requires forall u :: u in users ==> users'[u].teamId == users[u].teamId
    ensures forall t :: Members(users', t) == Members(users, t)
  {
  }

  /** A new account belongs to no team, so no team's members change. */
  lemma NewUserKeepsMembers(users: map<nat, User>, u: nat, rec: User)
    requires u !in users && rec.teamId.None?
    ensures forall t :: Members(users[u := rec], t) == Members(users, t)
  {
  }

  /** A user whose team is unchanged keeps the invariant for any other update. */
  lemma UpdateKeepingTeamKeepsValid(users: map<nat, User>, teams: map<nat, Team>, u: nat, rec: User)
    requires TeamsValid(users, teams) && u in users && rec.teamId == users[u].teamId
    ensures TeamsValid(users[u := rec], teams)
  {
    SameTeamsSameMembers(users, users[u := rec]);
    var users' := users[u := rec];
    forall t | t in teams ensures MemberCount(users', t) == MemberCount(users, t) {
      assert Members(users', t) == Members(users, t);
    }
    assert WithinCapacity(users', teams);
  }

  /** A new account keeps the invariant. */
  lemma NewUserKeepsValid(users: map<nat, User>, teams: map<nat, Team>, u: nat, rec: User)
    requires TeamsValid(users, teams) && u !in users && rec.teamId.None?
    ensures TeamsValid(users[u := rec], teams)
  {
    NewUserKeepsMembers(users, u, rec);
    var users' := users[u := rec];
    forall t | t in teams ensures MemberCount(users', t) == MemberCount(users, t) {
      assert Members(users', t) == Members(users, t);
    }
    assert WithinCapacity(users', teams);
  }

  /** createTeam's guard: a leader, or a qualified user. */
  predicate MayCreateTeam(u: User) {
    u.role == Leader || u.isQualified
  }

  /** Marking a full team complete, as joinTeam does when it turns a user
      away, keeps the invariant. */
  lemma MarkFullKeepsValid(users: map<nat, User>, teams: map<nat, Team>, t: nat)
    requires TeamsValid(users, teams)
    requires t in teams && !teams[t].isDisqualified && MemberCount(users, t) >= teams[t].maxMembers
    ensures TeamsValid(users, teams[t := teams[t].(isComplete := true)])
  {
    var teams' := teams[t := teams[t].(isComplete := true)];
    assert WithinCapacity(users, teams');
    UpdateKeepsUnique(teams, CodeOf, t, teams'[t]);
  }

  /* ---------- Invite codes ---------- */

  /** `Team.findOne({ where: { inviteCode } })` finds a team. */
  predicate CodeInUse(teams: map<nat, Team>, code: string) {
    exists t :: t in teams && teams[t].inviteCode == code
  }

  /** `Team.findOne({ where: { inviteCode } })`: the team with the code, if any. */
  function TeamWithCode(teams: map<nat, Team>, code: string, next: nat): (r: Option<nat>)
    requires IdsBelow(teams, next)
    ensures r.Some? <==> CodeInUse(teams, code)
    ensures r.Some? ==> r.value in teams && teams[r.value].inviteCode == code
  {
    FindOne(teams, (t: Team) => t.inviteCode == code, next)
  }

  /** Under the invariant, the team found by a code is the only team with it. */
  lemma TeamWithCodeUnique(teams: map<nat, Team>, code: string, next: nat, t: nat)
    requires CodesUnique(teams) && IdsBelow(teams, next)
    requires t in teams && teams[t].inviteCode == code
    ensures TeamWithCode(teams, code, next) == Some(t)
  {
    var r := TeamWithCode(teams, code, next);
    assert CodeOf(teams[r.value]) == CodeOf(teams[t]);
  }

  predicate SomeCodeFresh(teams: map<nat, Team>, codes: seq<string>) {
    exists i :: 0 <= i < |codes| && !CodeInUse(teams, codes[i])
  }

  /** The position of the code the retry loop settles on: the first candidate
      no team uses. */
  function FirstFreshCode(teams: map<nat, Team>, codes: seq<string>): (i: nat)
    requires SomeCodeFresh(teams, codes)
    ensures i < |codes| && !CodeInUse(teams, codes[i])
    ensures forall k :: 0 <= k < i ==> CodeInUse(teams, codes[k])
  {
    if !CodeInUse(teams, codes[0]) then 0
    else
      assert SomeCodeFresh(teams, codes[1..]) by {
        var i :| 0 <= i < |codes| && !CodeInUse(teams, codes[i]);
        assert codes[1..][i - 1] == codes[i];
      }
      1 + FirstFreshCode(teams, codes[1..])
  }

  /** A team created with its leader keeps the invariant: its code is
      fresh and its leader, who was in no team, is its only member. */
  lemma CreateKeepsValid(users: map<nat, User>, teams: map<nat, Team>, t: nat, team: Team, u: nat)
    requires TeamsValid(users, teams)
    requires t !in teams && u in users && users[u].teamId.None?
    requires team.leaderId == u && team.maxMembers == TeamSize && !team.isComplete && !team.isDisqualified
    requires !CodeInUse(teams, team.inviteCode)
    ensures TeamsValid(users[u := users[u].(teamId := Some(t), teamRole := Some(LeaderRole))], teams[t := team])
    ensures MemberCount(users[u := users[u].(teamId := Some(t), teamRole := Some(LeaderRole))], t) == 1
  {
    var users' := users[u := users[u].(teamId := Some(t), teamRole := Some(LeaderRole))];
    var teams' := teams[t := team];
    assert Members(users, t) == {} by {
      forall v | v in users ensures users[v].teamId != Some(t) {
      }
    }
    JoinAddsOne(users, u, t, users'[u]);
    assert Members(users', t) == {u};
    assert TeamRefsExist(users', teams');
    assert LeadersAreMembers(users', teams') by {
      forall t' | t' in teams ensures teams[t'].leaderId != u {
      }
    }
    assert WithinCapacity(users', teams') by {
      forall t' | t' in teams' && t' != t
        ensures MemberCount(users', t') == MemberCount(users, t')
      {
      }
    }
    assert FlagsExclusive(teams');
    assert CodesUnique(teams') by {
      forall t' | t' in teams ensures CodeOf(teams[t']) != CodeOf(team) {
      }
      InsertKeepsUnique(teams, CodeOf, t, team);
    }
  }

  /** A successful join keeps the invariant: the team had room, and it is
      marked complete exactly when the join fills it. */
  lemma JoinKeepsValid(users: map<nat, User>, teams: map<nat, Team>, t: nat, u: nat,
                       users': map<nat, User>, teams': map<nat, Team>)
    requires TeamsValid(users, teams)
    requires t in teams && u in users && users[u].teamId.None?
    requires !teams[t].isComplete && !teams[t].isDisqualified && MemberCount(users, t) < teams[t].maxMembers
    requires users' == users[u := users[u].(teamId := Some(t), teamRole := Some(MemberRole))]
    requires teams' == teams[t := teams[t].(isComplete := MemberCount(users', t) >= teams[t].maxMembers)]
    ensures TeamsValid(users', teams')
  {
    JoinKeepsLeaders(users, teams, t, u, users', teams');
    JoinKeepsCapacity(users, teams, t, u, users', teams');
    JoinKeepsFlags(teams, t, teams');
  }

  lemma JoinKeepsFlags(teams: map<nat, Team>, t: nat, teams': map<nat, Team>)
    requires FlagsExclusive(teams) && CodesUnique(teams)
    requires t in teams && !teams[t].isDisqualified
    requires teams'.Keys == teams.Keys
    requires forall t' :: t' in teams && t' != t ==> teams'[t'] == teams[t']
    requires teams'[t] == teams[t].(isComplete := teams'[t].isComplete)
    ensures FlagsExclusive(teams') && CodesUnique(teams')
  {
    assert teams' == teams[t := teams'[t]];
    UpdateKeepsUnique(teams, CodeOf, t, teams'[t]);
  }

  lemma JoinKeepsLeaders(users: map<nat, User>, teams: map<nat, Team>, t: nat, u: nat,
                         users': map<nat, User>, teams': map<nat, Team>)
    requires LeadersAreMembers(users, teams) && TeamRefsExist(users, teams)
    requires t in teams && u in users && users[u].teamId.None?
    requires users' == users[u := users[u].(teamId := Some(t), teamRole := Some(MemberRole))]
    requires teams'.Keys == teams.Keys && forall t' :: t' in teams ==> teams'[t'].leaderId == teams[t'].leaderId
    ensures LeadersAreMembers(users', teams') && TeamRefsExist(users', teams')
  {
    forall t' | t' in teams ensures teams[t'].leaderId != u {
    }
  }

  lemma JoinKeepsCapacity(users: map<nat, User>, teams: map<nat, Team>, t: nat, u: nat,
                          users': map<nat, User>, teams': map<nat, Team>)
    requires WithinCapacity(users, teams)
    requires t in teams && u in users && users[u].teamId.None?
    requires MemberCount(users, t) < teams[t].maxMembers
    requires users' == users[u := users[u].(teamId := Some(t), teamRole := Some(MemberRole))]
    requires teams' == teams[t := teams[t].(isComplete := MemberCount(users', t) >= teams[t].maxMembers)]
    ensures WithinCapacity(users', teams')
  {
    JoinAddsOne(users, u, t, users'[u]);
    forall t' | t' in teams' && t' != t
      ensures MemberCount(users', t') == MemberCount(users, t')
    {
    }
  }

  /* ---------- Disqualification ---------- */

  /** The teams disqualifyIncompleteTeams marks: of competition `c`, neither
      complete nor disqualified, with fewer members than their capacity. */
  function DisqualifyTargets(users: map<nat, User>, teams: map<nat, Team>, c: nat): (s: set<nat>)
    ensures forall t :: t in s <==>
              && t in teams && teams[t].competitionId == c
              && !teams[t].isComplete && !teams[t].isDisqualified
              && MemberCount(users, t) < teams[t].maxMembers
  {
    set t | t in teams && teams[t].competitionId == c && !teams[t].isComplete && !teams[t].isDisqualified
                       && MemberCount(users, t) < teams[t].maxMembers
  }

  /** The teams with those in `s` marked disqualified. */
  function MarkDisqualified(teams: map<nat, Team>, s: set<nat>): (r: map<nat, Team>)
    ensures r.Keys == teams.Keys
    ensures forall t :: t in teams ==> r[t] == if t in s then teams[t].(isDisqualified := true) else teams[t]
  {
    map t | t in teams :: if t in s then teams[t].(isDisqualified := true) else teams[t]
  }

  /** Marking one more team, one at a time, builds the same map. */
  lemma MarkOneMore(teams: map<nat, Team>, s: set<nat>, t: nat)
    requires t in teams && t !in s
    ensures MarkDisqualified(teams, s)[t := teams[t].(isDisqualified := true)] == MarkDisqualified(teams, s + {t})
  {
  }

  /** The sweep keeps the invariant: it only marks teams that are not complete. */
  lemma SweepKeepsValid(users: map<nat, User>, teams: map<nat, Team>, c: nat)
    requires TeamsValid(users, teams)
    ensures TeamsValid(users, MarkDisqualified(teams, DisqualifyTargets(users, teams, c)))
  {
    var teams' := MarkDisqualified(teams, DisqualifyTargets(users, teams, c));
    SameKeysKeepUnique(teams, teams', CodeOf);
  }

  /** A second sweep of the same competition finds nothing to mark. */
  lemma SweepIdempotent(users: map<nat, User>, teams: map<nat, Team>, c: nat)
    ensures DisqualifyTargets(users, MarkDisqualified(teams, DisqualifyTargets(users, teams, c)), c) == {}
  {
    var after := MarkDisqualified(teams, DisqualifyTargets(users, teams, c));
    forall t | t in after && after[t].competitionId == c && !after[t].isComplete
      ensures after[t].isDisqualified || MemberCount(users, t) >= after[t].maxMembers
    {
    }
  }

  /** The sweep touches neither other competitions' teams nor teams that are
      complete, disqualified or full. */
  lemma SweepLeavesOthers(users: map<nat, User>, teams: map<nat, Team>, c: nat, t: nat)
    requires t in teams
    requires teams[t].competitionId != c || teams[t].isComplete || teams[t].isDisqualified
             || MemberCount(users, t) >= teams[t].maxMembers
    ensures MarkDisqualified(teams, DisqualifyTargets(users, teams, c))[t] == teams[t]
  {
  }
}
