/** What each request stores and answers, field by field, on every path. */
module Outcomes {
  import opened Text
  import opened Scim
  import opened Directory
  import Filter
  import MemberLists
  import Normalize
  import Sync
  import TeamPatch
  import UserPatch

  const ENTERPRISE_URN := "urn:ietf:params:scim:schemas:extension:enterprise:2.0:User"
  const USER_URN := "urn:ietf:params:scim:schemas:core:2.0:User"
  const GROUP_URN := "urn:ietf:params:scim:schemas:core:2.0:Group"

  /** A success leaves this entry under this id, and answers with it; no other entry changes. */
  predicate Stored<V(==)>(before: map<string, V>, after: map<string, V>, reply: Reply<V>, status: nat, id: string) {
    reply.Success? && reply.status == status && after == before[id := reply.body]
  }

  // ----- creating a user ----------------------------------------------------------------------

  /** POST of a user: 400 without a name, 409 for a name in use, else 201 with the new entry. */
  lemma CreateUserAnswers(s: Store, u: ScimUser)
    ensures var (t, reply) := CreateUser(s, u);
            var taken := exists id :: id in s.users && s.users[id].userName == u.userName;
            && t.teams == s.teams
            && (reply.Failure? ==> t == s)
            && (reply == Failure(400) <==> u.userName == "")
            && (reply == Failure(409) <==> u.userName != "" && taken)
            && (reply.Success? <==> u.userName != "" && !taken)
            && (reply.Success? ==> Stored(s.users, t.users, reply, 201, Decimal(|s.users| + 1)))
            && (reply.Success? ==> reply.body.id == Decimal(|s.users| + 1))
  {
    hide Normalize.ForCreate;
  }

  /** The user that a creation stores and answers with: what the request says, and what the gaps are
      filled with. */
  lemma CreatedUser(s: Store, u: ScimUser)
    requires CreateUser(s, u).1.Success?
    ensures var v := CreateUser(s, u).1.body;
            && v.userName == u.userName && v.active == u.active && v.title == u.title
            && v.preferredLanguage == u.preferredLanguage && v.addresses == u.addresses
            && v.phoneNumbers == u.phoneNumbers && v.extension == u.extension
            && v.userType == (if u.userType == "" then "enterprise" else u.userType)
            && (Sync.Reports(v, "enterprise") <==> u.userType in {"", "enterprise"})
            && (Sync.Reports(v, "view only") <==> u.userType == "view only")
            && SchemasFilled(u, v) && EmailsTyped(u.emails, v.emails) && NameFilled(u.name, v.name)
  {
    ReportsLicense(CreateUser(s, u).1.body);
    NamesFilled(u.name);
    hide Sync.Reports, Normalize.SplitName, Normalize.JoinName, NameFilled, NameTaken;
  }

  lemma ReportsLicense(v: ScimUser)
    ensures Sync.Reports(v, "enterprise") <==> v.userType == "enterprise"
    ensures Sync.Reports(v, "view only") <==> v.userType == "view only"
  {
    Sync.ReportsUserType(v, "enterprise");
    Sync.ReportsUserType(v, "view only");
  }

  /** Schemas as given, or the core user schema alone; then the enterprise one where it is missing. */
  predicate SchemasFilled(u: ScimUser, v: ScimUser) {
    var base := u.schemas.GetOr([USER_URN]);
    v.schemas == Some(if u.extension != NO_EXTENSION && ENTERPRISE_URN !in base then base + [ENTERPRISE_URN] else base)
  }

  /** The first primary address has type "work" if it had none; all else is as given. */
  predicate EmailsTyped(before: seq<ScimEmail>, after: seq<ScimEmail>) {
    && |after| == |before|
    && forall i | 0 <= i < |before| ::
         after[i] == if before[i].primary && before[i].kind == "" && forall j | 0 <= j < i :: !before[j].primary
                     then ScimEmail(before[i].value, "work", true) else before[i]
  }

  /** How the name fields are filled from each other. */
  predicate NameFilled(name: ScimName, filled: ScimName) {
    var parts := name.givenName != "" || name.familyName != "";
    && (name.formatted != "" ==> filled.formatted == name.formatted)
    && (parts ==> filled.givenName == name.givenName && filled.familyName == name.familyName)
    && (!parts && name.formatted == "" ==> filled == name)
    && (!parts && ' ' in name.formatted ==>
          name.formatted == filled.givenName + " " + filled.familyName && ' ' !in filled.givenName)
    && (!parts && ' ' !in name.formatted ==> filled.givenName == name.formatted && filled.familyName == "")
    && (parts && name.formatted == "" ==> filled.formatted == TrimSpace(name.givenName + " " + name.familyName))
    && (name.formatted == "" && Solid(name.givenName) && Solid(name.familyName) ==>
          filled.formatted == name.givenName + " " + name.familyName)
  }

  /** A text that neither begins nor ends with white space. */
  predicate Solid(s: string) {
    s != "" && !IsSpace(s[0]) && !IsSpace(s[|s| - 1])
  }

  lemma NamesFilled(name: ScimName)
    ensures NameFilled(name, Normalize.SplitName(Normalize.JoinName(name)))
  {
    if name.givenName == name.familyName == "" {
      Normalize.SplitNameRejoins(name);
    } else if Solid(name.givenName) && Solid(name.familyName) {
      SolidStays(name.givenName + " " + name.familyName);
    }
  }

  lemma SolidStays(s: string)
    requires Solid(s)
    ensures TrimSpace(s) == s
  {
  }

  /** What the client makes of a user before it sends it: nothing but the schemas changes, and an
      empty list of them is not sent. */
  lemma ClientCompletes(u: ScimUser)
    ensures var created, replaced := Normalize.CompleteSchemas(u), Normalize.CompleteSchemasForPut(u);
            var base := u.schemas.GetOr([USER_URN]);
            && created == u.(schemas := created.schemas) && SchemasFilled(u, created)
            && replaced == u.(schemas := Some(base + if u.extension != NO_EXTENSION && ENTERPRISE_URN in base
                                                     then [ENTERPRISE_URN] else []))
            && Normalize.Wire(u) == if u.schemas == Some([]) then u.(schemas := None) else u
  {
    var base := u.schemas.GetOr([USER_URN]);
    assert base + [] == base;
  }

  // ----- replacing, patching and deleting a user ----------------------------------------------

  /** PUT of a user: 404, or 200 with the request's user under the old id, schemas completed. */
  lemma PutUserAnswers(s: Store, id: string, u: ScimUser)
    ensures var (t, reply) := PutUser(s, id, u);
            && t.teams == s.teams
            && (id !in s.users <==> reply == Failure(404))
            && (id !in s.users ==> t == s)
            && (id in s.users ==> Stored(s.users, t.users, reply, 200, id))
            && (id in s.users ==> reply.body == u.(id := id, schemas := reply.body.schemas))
            && (id in s.users ==> SchemasFilled(u, reply.body))
  {
  }

  /** PATCH of a user: 404, or 200 with the patched user. */
  lemma PatchUserAnswers(s: Store, id: string, ops: seq<PatchOperation>)
    ensures var (t, reply) := PatchUser(s, id, ops);
            && t.teams == s.teams
            && (id !in s.users <==> reply == Failure(404))
            && (id !in s.users ==> t == s)
            && (id in s.users ==> Stored(s.users, t.users, reply, 200, id))
  {
  }

  /** Each field of the patched user is the last well-typed value written to it, or as it was. */
  lemma PatchedUser(s: Store, id: string, ops: seq<PatchOperation>, f: UserPatch.Field) returns (last: int)
    requires id in s.users
    ensures -1 <= last < |ops|
    ensures forall j | last < j < |ops| :: UserPatch.Written(ops[j], f).None?
    ensures var v := PatchUser(s, id, ops).1.body;
            if last < 0 then UserPatch.Get(v, f) == UserPatch.Get(s.users[id], f)
            else UserPatch.Written(ops[last], f) == Some(UserPatch.Get(v, f))
  {
    last := UserPatch.LastWriterWins(s.users[id], ops, f);
  }

  /** The fields of a stored user that no PATCH changes. */
  lemma PatchUserKeeps(s: Store, id: string, ops: seq<PatchOperation>)
    requires id in s.users
    ensures var u, v := s.users[id], PatchUser(s, id, ops).1.body;
            && v.id == u.id && v.schemas == u.schemas && v.emails == u.emails && v.addresses == u.addresses
            && v.phoneNumbers == u.phoneNumbers && v.name.givenName == u.name.givenName
            && v.name.familyName == u.name.familyName
            && v.extension == u.extension.(department := v.extension.department)
  {
    UserPatch.RestUntouched(s.users[id], ops);
  }

  /** DELETE of a user: 404, or 204, and the entry is gone. */
  lemma DeleteUserAnswers(s: Store, id: string)
    ensures var (t, reply) := DeleteUser(s, id);
            && t == s.(users := s.users - {id})
            && reply == if id in s.users then Success(204, ()) else Failure(404)
  {
    assert id !in s.users ==> s.users - {id} == s.users;
  }

  // ----- inviting a user ----------------------------------------------------------------------

  /** An invitation: 404 for an unknown workspace; else an address that does not begin with the digit
      1 creates a user, and anything else must be a known id. */
  lemma InviteAnswers(s: Store, workspaces: seq<string>, workspace: string, requested: string)
    ensures var (t, reply) := Invite(s, workspaces, workspace, requested);
            var address := '@' in requested && requested[0] != '1';
            var id := Decimal(|s.users| + 1);
            && t.teams == s.teams
            && reply == (if workspace !in workspaces then Failure(404)
                         else if address then Success(200, id)
                         else if requested in s.users then Success(200, requested)
                         else Failure(404))
            && (workspace !in workspaces || !address ==> t == s)
            && (workspace in workspaces && address ==>
                  id in t.users && t.users == s.users[id := t.users[id]] && Invited(t.users[id], id, requested))
  {
    LooksInvited(requested);
    InvitedIs(Decimal(|s.users| + 1), requested);
    hide IsInvitation, InvitedUser, Invited;
  }

  lemma LooksInvited(requested: string)
    ensures IsInvitation(requested) <==> '@' in requested && requested[0] != '1'
  {
    IndexOfChar(requested, '@');
    assert HasPrefix(requested, "1") <==> requested != "" && requested[0] == '1';
  }

  lemma InvitedIs(id: string, address: string)
    ensures Invited(InvitedUser(id, address), id, address)
  {
    hide InvitedName;
  }

  /** An invited user: active, with the enterprise license and the address as name and email. */
  predicate Invited(u: ScimUser, id: string, address: string) {
    && u.id == id && u.userName == address && u.active && u.userType == "enterprise"
    && u.emails == [ScimEmail(address, "work", true)] && u.schemas == Some([USER_URN])
    && u.title == u.preferredLanguage == "" && u.addresses == [] && u.phoneNumbers == []
    && u.extension == NO_EXTENSION
  }

  lemma FirstPart(head: string, c: char, tail: string)
    requires c !in head
    ensures Split(head + [c] + tail, [c])[0] == head
    ensures Split(head + [c] + tail, [c])[1..] == Split(tail, [c])
    ensures Split(head, [c]) == [head]
  {
    var s := head + [c] + tail;
    assert s[|head|..|head| + 1] == [c];
    forall j | 0 <= j < |head| ensures !OccursAt(s, [c], j) && !OccursAt(head, [c], j) {
      assert s[j..j + 1] == head[j..j + 1] == [head[j]];
    }
    Filter.IndexUnique(s, [c], |head|);
    assert s[..|head|] == head && s[|head| + 1..] == tail;
  }

  lemma InvitedWords(id: string, local: string, domain: string)
    requires '@' !in local
    ensures var name, words := InvitedUser(id, local + "@" + domain).name, Split(local, ".");
            && name.givenName == Capitalize(words[0])
            && name.familyName == if |words| > 1 then Capitalize(words[1]) else ""
  {
    FirstPart(local, '@', domain);
    hide Split, Capitalize;
  }

  /** The names of an invited user are the first two words, parted by dots, before the `@`; what
      follows a second dot is lost. */
  lemma InvitedNames(id: string, first: string, last: string, more: string, domain: string)
    requires '@' !in first + last + more && '.' !in first + last && (more == "" || more[0] == '.')
    ensures var name := InvitedUser(id, first + "@" + domain).name;
            name.givenName == Capitalize(first) && name.familyName == ""
    ensures var name := InvitedUser(id, first + "." + (last + more) + "@" + domain).name;
            name.givenName == Capitalize(first) && name.familyName == Capitalize(last)
  {
    hide Split, Capitalize, InvitedUser;
    var rest := last + more;
    FirstPart(first, '.', rest);
    InvitedWords(id, first, domain);
    assert '@' !in first + "." + rest;
    InvitedWords(id, first + "." + rest, domain);
    FirstPart(last, '.', if more == "" then "" else more[1..]);
    assert rest == if more == "" then last else last + "." + more[1..];
    assert Split(first + "." + rest, ".")[1] == Split(first + "." + rest, ".")[1..][0];
  }

  /** Both names in one text, or the whole address when there is neither. */
  lemma InvitedFormatted(id: string, address: string)
    ensures var name := InvitedUser(id, address).name;
            var both := TrimSpace(name.givenName + " " + name.familyName);
            name.formatted == if both != "" then both else address
  {
  }

  /** The first letter in upper case: ASCII letters only, and the rest of the text as it was. */
  lemma CapitalizeIs(s: string)
    ensures Capitalize("") == ""
    ensures s != "" && s[0] < '\U{80}' ==>
              |Capitalize(s)| == |s| && Capitalize(s)[1..] == s[1..]
              && Capitalize(s)[0] == if 'a' <= s[0] <= 'z' then (s[0] as int - 32) as char else s[0]
    ensures s != "" && s[0] >= '\U{80}' ==>
              |Capitalize(s)| > |s| && s[1..] == Capitalize(s)[|Capitalize(s)| - |s| + 1..]
              && forall i | 0 <= i <= |Capitalize(s)| - |s| :: Capitalize(s)[i] == '\U{FFFD}'
  {
  }

  // ----- the membership report ----------------------------------------------------------------

  lemma MembershipsAnswers(s: Store, teamId: string, limitParam: string)
    ensures var reply := Memberships(s, teamId, limitParam);
            reply.status == (if teamId in s.teams then 200 else 404) && (reply.Success? <==> teamId in s.teams)
  {
  }

  // ----- teams --------------------------------------------------------------------------------

  /** The request's team, with this id, type Group, and the group schema if it named none. */
  predicate TeamFilled(t: ScimTeam, id: string, stored: ScimTeam) {
    && stored.id == id && stored.resourceType == "Group"
    && stored.displayName == t.displayName && stored.members == t.members
    && stored.schemas == Some(t.schemas.GetOr([GROUP_URN]))
  }

  /** POST of a team: 400 without a name, 409 for a name in use, else 201 with the new entry. */
  lemma CreateTeamAnswers(s: Store, team: ScimTeam)
    ensures var (t, reply) := CreateTeam(s, team);
            var taken := exists id :: id in s.teams && s.teams[id].displayName == team.displayName;
            var id := Decimal(|s.teams| + 1);
            && t.users == s.users
            && (reply.Failure? ==> t == s)
            && (reply == Failure(400) <==> team.displayName == "")
            && (reply == Failure(409) <==> team.displayName != "" && taken)
            && (reply.Success? <==> team.displayName != "" && !taken)
            && (reply.Success? ==> Stored(s.teams, t.teams, reply, 201, id) && TeamFilled(team, id, reply.body))
  {
  }

  /** PUT of a team: 404, or 200 with the request's team under the old id. */
  lemma PutTeamAnswers(s: Store, id: string, team: ScimTeam)
    ensures var (t, reply) := PutTeam(s, id, team);
            && t.users == s.users
            && (id !in s.teams <==> reply == Failure(404))
            && (id !in s.teams ==> t == s)
            && (id in s.teams ==> Stored(s.teams, t.teams, reply, 200, id) && TeamFilled(team, id, reply.body))
  {
  }

  /** PATCH of a team: 404, or 204; of the stored team the id, type and schemas stay, and its members
      are old entries or show the users they stand for. */
  lemma PatchTeamAnswers(s: Store, id: string, ops: seq<PatchOperation>)
    ensures var (t, reply) := PatchTeam(s, id, ops);
            && t.users == s.users
            && reply == (if id in s.teams then Success(204, ()) else Failure(404))
            && (id !in s.teams ==> t == s)
            && (id in s.teams ==> id in t.teams && t.teams == s.teams[id := t.teams[id]])
    ensures id in s.teams ==>
              var team, stored := s.teams[id], PatchTeam(s, id, ops).0.teams[id];
              && stored == team.(displayName := stored.displayName, members := stored.members)
              && (forall m | m in stored.members ::
                    (m in team.members && !MemberLists.HasReplacement(ops)) || MemberLists.ShowsUser(s.users, m))
  {
    if id in s.teams {
      TeamPatch.OtherTeamFields(s.users, s.teams[id], ops);
      MemberLists.PatchedMembers(s.users, s.teams[id], ops);
    }
  }

  /** addUser: 404 for an unknown team, or for a text that is neither an id nor a name of a user; else
      200, and the user is a member, shown by name, last in the list if it was not one before. */
  lemma AddToTeamAnswers(s: Store, teamId: string, requested: string, found: Option<string>)
    requires AddTarget(s.users, requested, found)
    ensures var (t, reply) := AddToTeam(s, teamId, found);
            var known := requested in s.users || exists id :: id in s.users && s.users[id].userName == requested;
            && t.users == s.users
            && reply == (if teamId in s.teams && known then Success(200, ()) else Failure(404))
            && (reply.Failure? ==> t == s)
    ensures teamId in s.teams && found.Some? ==>
              var id, team := found.value, s.teams[teamId];
              var members := AddToTeam(s, teamId, found).0.teams[teamId].members;
              && id in s.users
              && (if requested in s.users then id == requested else s.users[id].userName == requested)
              && AddToTeam(s, teamId, found).0 == s.(teams := s.teams[teamId := team.(members := members)])
              && members == if exists m :: m in team.members && m.value == id then team.members
                            else team.members + [ScimMember(id, s.users[id].name.formatted, "")]
  {
    if teamId in s.teams && found.Some? {
      var team := s.teams[teamId];
      assert found.value in TeamPatch.IdSet(team.members) <==>
             exists m :: m in team.members && m.value == found.value;
      assert s.teams[teamId := team] == s.teams && team.(members := team.members) == team;
    }
  }

  /** removeUser: 404 for an unknown team, else 200, and no entry of the resolved id is left. A name
      is resolved only when it does not begin with the digit 1 and some user has it. */
  lemma RemoveFromTeamAnswers(s: Store, teamId: string, requested: string, target: string)
    requires RemoveTarget(s.users, requested, target)
    ensures var (t, reply) := RemoveFromTeam(s, teamId, target);
            && t.users == s.users
            && reply == (if teamId in s.teams then Success(200, ()) else Failure(404))
            && (reply.Failure? ==> t == s)
    ensures var named := exists id :: id in s.users && s.users[id].userName == requested;
            if named && (requested == "" || requested[0] != '1')
            then target in s.users && s.users[target].userName == requested
            else target == requested
    ensures teamId in s.teams ==>
              var team := s.teams[teamId];
              var members := RemoveFromTeam(s, teamId, target).0.teams[teamId].members;
              && RemoveFromTeam(s, teamId, target).0 == s.(teams := s.teams[teamId := team.(members := members)])
              && forall m :: m in members <==> m in team.members && m.value != target
  {
    assert HasPrefix(requested, "1") <==> requested != "" && requested[0] == '1';
    if teamId in s.teams {
      TeamPatch.WithoutMembers(s.teams[teamId].members, {target});
    }
  }
}
