/** The pure rules of backend/src/controllers/authController.js: the
    registration validation chain, the role chosen for a new account, the
    full name, and the user projection sent by login and by the profile query. */
module Auth {
  import opened Wrappers
  import opened Js
  import opened Entities

  const MsgAllFieldsRequired := "All fields are required"
  const MsgInvalidEmail := "Invalid email format"
  const MsgPasswordTooShort := "Password must be at least 6 characters long"
  const MsgEmptyName := "First name and last name cannot be empty"
  const MsgEmailTaken := "Email already registered"
  const MsgCredentialsRequired := "Email and password are required"
  const MsgInvalidCredentials := "Invalid credentials"
  const MsgUserNotFound := "User not found"
  const MsgRegistrationFailed := "Registration failed"

  const MinPasswordLength := 6

  /* ---------- The e-mail pattern ^[^\s@]+@[^\s@]+\.[^\s@]+$ ---------- */

  /** A character of the class `[^\s@]`. */
  predicate EmailChar(c: char) {
    !IsSpace(c) && c != '@'
  }

  predicate AllEmailChars(s: string) {
    forall k :: 0 <= k < |s| ==> EmailChar(s[k])
  }

  /** The reading of the pattern: three non-empty runs of `[^\s@]`, the first
      two joined by '@' and the last two by '.'. */
  ghost predicate EmailShape(s: string) {
    exists i, j ::
      && 0 < i && i + 1 < j && j + 1 < |s|
      && s[i] == '@' && s[j] == '.'
      && AllEmailChars(s[..i]) && AllEmailChars(s[i + 1..j]) && AllEmailChars(s[j + 1..])
  }

  /** The index of the first `c` in `s`, or -1. */
  function IndexOf(s: string, c: char): (r: int)
    ensures -1 <= r < |s|
    ensures r >= 0 ==> s[r] == c
    ensures forall k :: 0 <= k < |s| && (r < 0 || k < r) ==> s[k] != c
  {
    if s == [] then -1
    else if s[0] == c then 0
    else
      var r := IndexOf(s[1..], c);
      if r < 0 then -1 else r + 1
  }

  /** A direct check of the pattern: no white space at all, a first '@' that
      is not the first character, no second '@', and a '.' after the '@' that
      is neither right after it nor the last character. */
  function MatchesEmail(s: string): bool {
    var at := IndexOf(s, '@');
    && at > 0
    && (forall k :: 0 <= k < |s| ==> !IsSpace(s[k]))
    && (forall k :: at < k < |s| ==> s[k] != '@')
    && (exists k :: at + 1 < k < |s| - 1 && s[k] == '.')
  }

  lemma MatchesEmailSound(s: string)
    requires MatchesEmail(s)
    ensures EmailShape(s)
  {
    var at := IndexOf(s, '@');
    var j :| at + 1 < j < |s| - 1 && s[j] == '.';
    assert AllEmailChars(s[..at]) by {
      forall k | 0 <= k < at ensures EmailChar(s[..at][k]) {
        assert s[..at][k] == s[k];
      }
    }
    var host := s[at + 1..j];
    assert AllEmailChars(host) by {
      forall k | 0 <= k < |host| ensures EmailChar(host[k]) {
        assert host[k] == s[at + 1 + k];
      }
    }
    var tld := s[j + 1..];
    assert AllEmailChars(tld) by {
      forall k | 0 <= k < |tld| ensures EmailChar(tld[k]) {
        assert tld[k] == s[j + 1 + k];
      }
    }
  }

  lemma MatchesEmailComplete(s: string, i: int, j: int)
    requires 0 < i && i + 1 < j && j + 1 < |s|
    requires s[i] == '@' && s[j] == '.'
    requires AllEmailChars(s[..i]) && AllEmailChars(s[i + 1..j]) && AllEmailChars(s[j + 1..])
    ensures MatchesEmail(s)
  {
    forall k | 0 <= k < |s| && k != i && k != j ensures EmailChar(s[k]) {
      if k < i {
        assert s[k] == s[..i][k];
      } else if k < j {
        assert s[k] == s[i + 1..j][k - i - 1];
      } else {
        assert s[k] == s[j + 1..][k - j - 1];
      }
    }
    assert IndexOf(s, '@') == i;
  }

  /** The direct check accepts exactly the strings the pattern matches. */
  lemma MatchesEmailIff(s: string)
    ensures MatchesEmail(s) <==> EmailShape(s)
  {
    if MatchesEmail(s) {
      MatchesEmailSound(s);
    }
    if EmailShape(s) {
      var i, j :| && 0 < i && i + 1 < j && j + 1 < |s|
                  && s[i] == '@' && s[j] == '.'
                  && AllEmailChars(s[..i]) && AllEmailChars(s[i + 1..j]) && AllEmailChars(s[j + 1..]);
      MatchesEmailComplete(s, i, j);
    }
  }

  /** The handler's pattern lets through a one-letter top-level domain,
      which the column's `isEmail` validator refuses. */
  lemma OneLetterDomainMatches()
    ensures EmailShape("a@b.c")
  {
    var s := "a@b.c";
    assert s[1] == '@' && s[3] == '.';
    assert s[..1] == "a" && s[2..3] == "b" && s[4..] == "c";
    assert AllEmailChars(s[..1]) && AllEmailChars(s[2..3]) && AllEmailChars(s[4..]);
  }

  /* ---------- Registration ---------- */

  /** The column the unique e-mail check looks at. */
  function EmailOf(u: User): string {
    u.email
  }

  /** Some account has the e-mail address. */
  predicate EmailRegistered(users: map<nat, User>, email: string) {
    exists u :: u in users && users[u].email == email
  }

  /** The account register creates: the password as the creation hook
      stores it, not qualified, in no team. */
  function NewAccount(reg: Registration, hash: string -> string): (u: User)
    ensures u.email == reg.email && u.password == hash(reg.password)
    ensures u.fullName == reg.fullName && u.role == reg.role
    ensures !u.isQualified && u.qualifiedAt.None? && u.teamId.None? && u.teamRole.None?
  {
    User(reg.email, hash(reg.password), reg.fullName, reg.role, false, None, None, None)
  }

  /** The body of POST /auth/register. */
  datatype RegisterRequest = RegisterRequest(
    email: Option<string>,
    password: Option<string>,
    firstName: Option<string>,
    lastName: Option<string>,
    role: Option<string>)

  /** What a valid registration stores (before the password hook hashes it). */
  datatype Registration = Registration(email: string, password: string, fullName: string, role: Role)

  /** The text of each role. */
  function RoleName(r: Role): string {
    match r
    case Admin => "admin"
    case Judge => "judge"
    case Leader => "leader"
    case Member => "member"
  }

  predicate IsRoleName(s: string) {
    s == "admin" || s == "judge" || s == "leader" || s == "member"
  }

  /** The role of a new account: the requested one when it names a role,
      otherwise 'member'. */
  function SelectRole(requested: Option<string>): (r: Role)
    ensures requested.Some? && IsRoleName(requested.value) ==> RoleName(r) == requested.value
    ensures !(requested.Some? && IsRoleName(requested.value)) ==> r == Member
  {
    if requested == Some("admin") then Admin
    else if requested == Some("judge") then Judge
    else if requested == Some("leader") then Leader
    else Member
  }

  /** Every role can be requested by its name. */
  lemma SelectRoleRoundTrip(r: Role)
    ensures SelectRole(Some(RoleName(r))) == r
  {
  }

  /** `${firstName} ${lastName}`.trim(): never empty when the first name has
      a non-space character. */
  function FullName(firstName: string, lastName: string): (r: string)
    ensures Trim(firstName) != [] ==> r != []
    ensures Trim(r) == r
  {
    FullNameFacts(firstName, lastName);
    Trim(firstName + " " + lastName)
  }

  lemma FullNameFacts(firstName: string, lastName: string)
    ensures Trim(firstName) != [] ==> Trim(firstName + " " + lastName) != []
    ensures Trim(Trim(firstName + " " + lastName)) == Trim(firstName + " " + lastName)
  {
    var tail := " " + lastName;
    var joined := firstName + tail;
    assert firstName + " " + lastName == joined;
    TrimIdempotent(joined);
    TrimPrefixNonEmpty(firstName, tail);
  }

  /** All four required fields are present and non-empty. */
  predicate HasRequiredFields(req: RegisterRequest) {
    Truthy(req.email) && Truthy(req.password) && Truthy(req.firstName) && Truthy(req.lastName)
  }

  /** The registration rules that do not consult the store, in the order the
      handler checks them; each failure is a 400 with its own message. */
  function ValidateRegistration(req: RegisterRequest): (r: Outcome<Registration>)
    ensures !HasRequiredFields(req) ==> r == BadRequest(MsgAllFieldsRequired)
    ensures HasRequiredFields(req) && !EmailShape(req.email.value) ==> r == BadRequest(MsgInvalidEmail)
    ensures HasRequiredFields(req) && EmailShape(req.email.value) && Utf16Length(req.password.value) < MinPasswordLength
            ==> r == BadRequest(MsgPasswordTooShort)
    ensures && HasRequiredFields(req) && EmailShape(req.email.value)
            && Utf16Length(req.password.value) >= MinPasswordLength
            && (Trim(req.firstName.value) == [] || Trim(req.lastName.value) == [])
            ==> r == BadRequest(MsgEmptyName)
    ensures r.Ok? <==>
            && HasRequiredFields(req)
            && EmailShape(req.email.value)
            && Utf16Length(req.password.value) >= MinPasswordLength
            && Trim(req.firstName.value) != []
            && Trim(req.lastName.value) != []
    ensures r.IsError() ==> r.BadRequest?
    ensures r.Ok? ==> r.value.email == req.email.value && r.value.password == req.password.value
    ensures r.Ok? ==> r.value.fullName != [] && r.value.fullName == FullName(req.firstName.value, req.lastName.value)
    ensures r.Ok? ==> r.value.role == SelectRole(req.role)
  {
    if !HasRequiredFields(req) then BadRequest(MsgAllFieldsRequired)
    else
      MatchesEmailIff(req.email.value);
      if !MatchesEmail(req.email.value) then BadRequest(MsgInvalidEmail)
      else if Utf16Length(req.password.value) < MinPasswordLength then BadRequest(MsgPasswordTooShort)
      else if Trim(req.firstName.value) == [] || Trim(req.lastName.value) == [] then BadRequest(MsgEmptyName)
      else
        Ok(Registration(
          req.email.value,
          req.password.value,
          FullName(req.firstName.value, req.lastName.value),
          SelectRole(req.role)))
  }

  /* ---------- The user projection of login and profile ---------- */

  /** The `user` object of the login and profile responses. In the login
      response a `None` team is an absent key; in the profile it is null. */
  datatype UserView = UserView(
    id: nat,
    email: string,
    fullName: string,
    role: Role,
    isQualified: bool,
    teamId: Option<nat>)

  /** An id read the way `if (user.teamId)` and `user.teamId || null` read it. */
  function TruthyId(t: Option<nat>): Option<nat> {
    if TruthyNat(t) then t else None
  }

  /** Admins are reported as qualified whatever their stored flag. */
  function ViewOf(id: nat, u: User): (v: UserView)
    ensures v.isQualified <==> u.isQualified || u.role == Admin
    ensures v.id == id && v.email == u.email && v.fullName == u.fullName && v.role == u.role
    ensures v.teamId.Some? <==> u.teamId.Some? && u.teamId.value != 0
    ensures v.teamId.Some? ==> v.teamId == u.teamId
  {
    UserView(id, u.email, u.fullName, u.role, u.isQualified || u.role == Admin, TruthyId(u.teamId))
  }
}
