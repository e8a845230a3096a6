/** The two maps of the SCIM test server and what each request handler does to them. */
module Directory {
  import opened Text
  import opened Scim
  import Normalize
  import TeamPatch
  import UserPatch

  datatype Store = Store(users: map<string, ScimUser>, teams: map<string, ScimTeam>)

  function NextId<V>(entries: map<string, V>): string {
    Decimal(|entries| + 1)
  }

  predicate NameTaken(users: map<string, ScimUser>, name: string) {
    exists id :: id in users && users[id].userName == name
  }

  predicate TeamNameTaken(teams: map<string, ScimTeam>, name: string) {
    exists id :: id in teams && teams[id].displayName == name
  }

  // ----- users --------------------------------------------------------------------------------

  function CreateUser(s: Store, u: ScimUser): (Store, Reply<ScimUser>) {
    if u.userName == "" then (s, Failure(400))
    else if NameTaken(s.users, u.userName) then (s, Failure(409))
    else
      var stored := Normalize.ForCreate(u).(id := NextId(s.users));
      (s.(users := s.users[stored.id := stored]), Success(201, stored))
  }

  function PutUser(s: Store, id: string, u: ScimUser): (Store, Reply<ScimUser>) {
    if id !in s.users then (s, Failure(404))
    else
      var stored := Normalize.CompleteSchemas(u).(id := id);
      (s.(users := s.users[id := stored]), Success(200, stored))
  }

  function PatchUser(s: Store, id: string, ops: seq<PatchOperation>): (Store, Reply<ScimUser>) {
    if id !in s.users then (s, Failure(404))
    else
      var stored := UserPatch.ApplyAll(s.users[id], ops);
      (s.(users := s.users[id := stored]), Success(200, stored))
  }

  function DeleteUser(s: Store, id: string): (Store, Reply<()>) {
    if id !in s.users then (s, Failure(404)) else (s.(users := s.users - {id}), Success(204, ()))
  }

  // ----- invitations --------------------------------------------------------------------------

  const REPLACEMENT_CHARACTER := '\U{FFFD}'

  function Utf8Length(c: char): nat {
    if c < '\U{80}' then 1 else if c < '\U{800}' then 2 else if c < '\U{10000}' then 3 else 4
  }

  /** Upper-cases the first byte. A longer UTF-8 sequence is destroyed by that: its first byte
      becomes the replacement character, and the other ones, now stray, read as that too. */
  function Capitalize(s: string): string {
    if s == "" then s
    else if 'a' <= s[0] <= 'z' then [(s[0] as int - 'a' as int + 'A' as int) as char] + s[1..]
    else if s[0] < '\U{80}' then s
    else seq(Utf8Length(s[0]), i requires 0 <= i < Utf8Length(s[0]) => REPLACEMENT_CHARACTER) + s[1..]
  }

  function InvitedName(address: string): ScimName {
    var words := Split(Split(address, "@")[0], ".");
    var first := Capitalize(words[0]);
    var last := if |words| > 1 then Capitalize(words[1]) else "";
    var formatted := TrimSpace(first + " " + last);
    ScimName(first, last, if formatted == "" then address else formatted)
  }

  function InvitedUser(id: string, address: string): ScimUser {
    ScimUser(id, Some([USER_SCHEMA]), InvitedName(address), address, [ScimEmail(address, "work", true)],
             true, "", "", [], [], LICENSE_ENTERPRISE, NO_EXTENSION)
  }

  /** An invited user is as complete as a created one, unless nothing before the `@` gives a name. */
  lemma InvitedIsComplete(id: string, address: string)
    requires IsInvitation(address)
    ensures Normalize.Complete(InvitedUser(id, address))
            <==> InvitedName(address).givenName != "" || InvitedName(address).familyName != ""
  {
    var u := InvitedUser(id, address);
    IndexOfChar(address, '@');
    assert address != " ";
    assert u.name.formatted != "";
  }

  /** Only something that looks like an address, and not like a user id, creates a user. */
  predicate IsInvitation(requested: string) {
    !HasPrefix(requested, "1") && Contains(requested, "@")
  }

  function Invite(s: Store, workspaces: seq<string>, workspace: string, requested: string): (Store, Reply<string>) {
    if workspace !in workspaces then (s, Failure(404))
    else if IsInvitation(requested) then
      var id := NextId(s.users);
      (s.(users := s.users[id := InvitedUser(id, requested)]), Success(200, id))
    else if requested in s.users then (s, Success(200, requested))
    else (s, Failure(404))
  }

  // ----- teams --------------------------------------------------------------------------------

  function CompleteTeam(t: ScimTeam, id: string): ScimTeam {
    t.(id := id, schemas := Some(t.schemas.GetOr([GROUP_SCHEMA])), resourceType := RESOURCE_TYPE_GROUP)
  }

  function CreateTeam(s: Store, t: ScimTeam): (Store, Reply<ScimTeam>) {
    if t.displayName == "" then (s, Failure(400))
    else if TeamNameTaken(s.teams, t.displayName) then (s, Failure(409))
    else
      var stored := CompleteTeam(t, NextId(s.teams));
      (s.(teams := s.teams[stored.id := stored]), Success(201, stored))
  }

  function PutTeam(s: Store, id: string, t: ScimTeam): (Store, Reply<ScimTeam>) {
    if id !in s.teams then (s, Failure(404))
    else (s.(teams := s.teams[id := CompleteTeam(t, id)]), Success(200, CompleteTeam(t, id)))
  }

  function PatchTeam(s: Store, id: string, ops: seq<PatchOperation>): (Store, Reply<()>) {
    if id !in s.teams then (s, Failure(404))
    else (s.(teams := s.teams[id := TeamPatch.ApplyAll(s.users, s.teams[id], ops)]), Success(204, ()))
  }

  /** The user an addUser request resolves to: a known id stands for itself, anything else for some
      user of that name (which one, the map iteration decides). */
  predicate AddTarget(users: map<string, ScimUser>, requested: string, target: Option<string>) {
    if requested in users then target == Some(requested)
    else
      match target
      case Some(id) => id in users && users[id].userName == requested
      case None => !NameTaken(users, requested)
  }

  /** The id a removeUser request resolves to: names are looked up only when the request does not
      begin with the digit 1, and an unknown name stands for itself. */
  predicate RemoveTarget(users: map<string, ScimUser>, requested: string, target: string) {
    if HasPrefix(requested, "1") then target == requested
    else if NameTaken(users, requested) then target in users && users[target].userName == requested
    else target == requested
  }

  function AddToTeam(s: Store, teamId: string, target: Option<string>): (Store, Reply<()>) {
    if teamId !in s.teams || target.None? then (s, Failure(404))
    else
      var team := s.teams[teamId];
      if target.value in TeamPatch.IdSet(team.members) then (s, Success(200, ()))
      else
        var members := team.members + [TeamPatch.NewMember(s.users, target.value)];
        (s.(teams := s.teams[teamId := team.(members := members)]), Success(200, ()))
  }

  function RemoveFromTeam(s: Store, teamId: string, target: string): (Store, Reply<()>) {
    if teamId !in s.teams then (s, Failure(404))
    else
      var team := s.teams[teamId];
      (s.(teams := s.teams[teamId := team.(members := TeamPatch.Without(team.members, {target}))]), Success(200, ()))
  }

  // ----- membership report --------------------------------------------------------------------

  datatype Membership = Membership(gid: string, userGid: string, userName: string, email: string, teamGid: string,
      teamName: string)

  function ReportOne(s: Store, teamId: string, team: ScimTeam, user: ScimUser, memberId: string): Membership {
    Membership("tm-" + teamId + "-" + memberId, user.id, user.name.formatted, user.userName, team.id, team.displayName)
  }

  /** The members that still exist as users, in member order. */
  function Present(users: map<string, ScimUser>, members: seq<ScimMember>): seq<ScimMember> {
    if members == [] then []
    else
      var rest := Present(users, members[..|members| - 1]);
      var last := members[|members| - 1];
      if last.value in users then rest + [last] else rest
  }

  lemma {:induction false} PresentMembers(users: map<string, ScimUser>, members: seq<ScimMember>)
    ensures forall m :: m in Present(users, members) <==> m in members && m.value in users
    ensures |Present(users, members)| <= |members|
  {
    if members != [] {
      PresentMembers(users, members[..|members| - 1]);
      assert members == members[..|members| - 1] + [members[|members| - 1]];
    }
  }

  /** Reporting members is dropping the ones that are gone: the order is that of the team. */
  lemma {:induction false} PresentIsWithout(users: map<string, ScimUser>, members: seq<ScimMember>, gone: set<string>)
    requires forall m | m in members :: m.value in gone <==> m.value !in users
    ensures Present(users, members) == TeamPatch.Without(members, gone)
  {
    if members != [] {
      assert members == members[..|members| - 1] + [members[|members| - 1]];
      PresentIsWithout(users, members[..|members| - 1], gone);
    }
  }

  function Report(s: Store, teamId: string, team: ScimTeam, members: seq<ScimMember>): (r: seq<Membership>)
    requires forall m | m in members :: m.value in s.users
  {
    seq(|members|, i requires 0 <= i < |members| =>
      assert members[i] in members;
      ReportOne(s, teamId, team, s.users[members[i].value], members[i].value))
  }

  /** A limit parameter that is no positive number falls back to 50. */
  function Limit(param: string): (limit: nat)
    ensures limit > 0
  {
    match Atoi(param)
    case Some(n) => if n > 0 then n else 50
    case None => 50
  }

  /** The limit is the number the parameter prints, if that is positive, and else 50. */
  lemma LimitIs(n: int)
    requires MIN_INT <= n <= MAX_INT
    ensures Limit(Itoa(n)) == if n > 0 then n else 50
    ensures Limit("") == 50
  {
    AtoiItoa(n);
  }

  datatype MembershipPage = MembershipPage(data: seq<Membership>, offset: string)

  function Memberships(s: Store, teamId: string, limitParam: string): Reply<MembershipPage> {
    if teamId !in s.teams then Failure(404)
    else
      var team := s.teams[teamId];
      PresentMembers(s.users, team.members);
      var all := Report(s, teamId, team, Present(s.users, team.members));
      var limit := Limit(limitParam);
      Success(200, if |all| > limit then MembershipPage(all[..limit], Decimal(limit)) else MembershipPage(all, ""))
  }
}
