/** The SCIM test server: two maps behind request handlers. Each handler is proved against the
    function of `Directory` that says what the request does to the store. */
module Server {
  import opened Text
  import opened Scim
  import opened Directory
  import Filter
  import Normalize
  import TeamPatch
  import UserPatch

  // ----- searches over a map, in no particular order ------------------------------------------

  method FindByName(users: map<string, ScimUser>, name: string) returns (found: Option<string>)
    ensures found.Some? ==> found.value in users && users[found.value].userName == name
    ensures found.None? ==> !NameTaken(users, name)
  {
    var rest := users.Keys;
    while rest != {}
      invariant rest <= users.Keys
      invariant forall id | id in users && id !in rest :: users[id].userName != name
      decreases rest
    {
      var id :| id in rest;
      if users[id].userName == name {
        return Some(id);
      }
      rest := rest - {id};
    }
    return None;
  }

  method FindTeamByName(teams: map<string, ScimTeam>, name: string) returns (found: Option<string>)
    ensures found.Some? ==> found.value in teams && teams[found.value].displayName == name
    ensures found.None? ==> !TeamNameTaken(teams, name)
  {
    var rest := teams.Keys;
    while rest != {}
      invariant rest <= teams.Keys
      invariant forall id | id in teams && id !in rest :: teams[id].displayName != name
      decreases rest
    {
      var id :| id in rest;
      if teams[id].displayName == name {
        return Some(id);
      }
      rest := rest - {id};
    }
    return None;
  }

  /** A list of all entries of a map, each once, in some order of the keys. */
  ghost predicate Lists<V>(entries: map<string, V>, values: seq<V>) {
    exists order: seq<string> :: ListsInOrder(entries, order, values)
  }

  ghost predicate ListsInOrder<V>(entries: map<string, V>, order: seq<string>, values: seq<V>) {
    && TeamPatch.NoDuplicates(order)
    && (forall id :: id in order <==> id in entries)
    && |values| == |order|
    && forall i | 0 <= i < |order| :: order[i] in entries && values[i] == entries[order[i]]
  }

  lemma {:induction false} DistinctCount(order: seq<string>)
    requires TeamPatch.NoDuplicates(order)
    ensures |TeamPatch.ToSet(order)| == |order|
  {
    if order != [] {
      var front, last := order[..|order| - 1], order[|order| - 1];
      DistinctCount(front);
      assert order == front + [last];
      TeamPatch.ToSetSnoc(front, last);
    }
  }

  lemma ListsCount<V>(entries: map<string, V>, values: seq<V>)
    requires Lists(entries, values)
    ensures |values| == |entries|
  {
    var order :| ListsInOrder(entries, order, values);
    DistinctCount(order);
    assert TeamPatch.ToSet(order) == entries.Keys;
  }

  method ListAll<V>(entries: map<string, V>) returns (values: seq<V>)
    ensures Lists(entries, values)
  {
    var rest := entries.Keys;
    values := [];
    ghost var order: seq<string> := [];
    while rest != {}
      invariant rest <= entries.Keys
      invariant forall id :: id in order <==> id in entries && id !in rest
      invariant TeamPatch.NoDuplicates(order)
      invariant |values| == |order|
      invariant forall i | 0 <= i < |order| :: order[i] in entries && values[i] == entries[order[i]]
      decreases rest
    {
      var id :| id in rest;
      values, order := values + [entries[id]], order + [id];
      rest := rest - {id};
    }
    assert ListsInOrder(entries, order, values);
  }

  // ----- the loops of a team PATCH ------------------------------------------------------------

  method IsMember(members: seq<ScimMember>, id: string) returns (found: bool)
    ensures found <==> id in TeamPatch.IdSet(members)
  {
    found := false;
    for i := 0 to |members|
      invariant !found && forall j | 0 <= j < i :: members[j].value != id
    {
      if members[i].value == id {
        assert members[i] in members;
        return true;
      }
    }
  }

  lemma DropOneMore(members: seq<ScimMember>, i: nat, id: string)
    requires i < |members|
    ensures TeamPatch.Without(members[..i + 1], {id})
            == TeamPatch.Without(members[..i], {id}) + (if members[i].value == id then [] else [members[i]])
    ensures members[i].value == id ==> id in TeamPatch.IdSet(members)
  {
    assert members[..i + 1][..i] == members[..i];
    assert members[i] in members;
  }

  method DropMember(members: seq<ScimMember>, id: string) returns (rest: seq<ScimMember>, found: bool)
    ensures rest == TeamPatch.Without(members, {id})
    ensures found <==> id in TeamPatch.IdSet(members)
  {
    rest, found := [], false;
    for i := 0 to |members|
      invariant rest == TeamPatch.Without(members[..i], {id})
      invariant found ==> id in TeamPatch.IdSet(members)
      invariant !found ==> forall j | 0 <= j < i :: members[j].value != id
    {
      DropOneMore(members, i, id);
      if members[i].value != id {
        rest := rest + [members[i]];
      } else {
        found := true;
      }
    }
    assert members[..|members|] == members;
  }

  lemma AddOneMore(users: map<string, ScimUser>, members: seq<ScimMember>, ids: seq<string>, id: string)
    ensures var now := TeamPatch.AddMembers(users, members, ids);
            TeamPatch.AddMembers(users, members, ids + [id])
            == if id in TeamPatch.IdSet(now) then now else now + [TeamPatch.NewMember(users, id)]
  {
    var have := TeamPatch.IdSet(members);
    var added := TeamPatch.FirstNew(ids, have);
    assert (ids + [id])[..|ids|] == ids;
    TeamPatch.IdSetOfNew(users, added);
    TeamPatch.IdSetConcat(members, TeamPatch.NewMembers(users, added));
    assert id in TeamPatch.ToSet(added) <==> id in added;
    if id !in have && id !in added {
      assert TeamPatch.NewMembers(users, added + [id])
          == TeamPatch.NewMembers(users, added) + [TeamPatch.NewMember(users, id)];
    }
  }

  method AddEach(users: map<string, ScimUser>, members: seq<ScimMember>, items: seq<Json>) returns (r: seq<ScimMember>)
    ensures r == TeamPatch.AddMembers(users, members, TeamPatch.IdsIn(items))
  {
    r := members;
    for i := 0 to |items|
      invariant r == TeamPatch.AddMembers(users, members, TeamPatch.IdsIn(items[..i]))
    {
      assert items[..i + 1][..i] == items[..i];
      var id := TeamPatch.EntryId(items[i]);
      if id.Some? {
        AddOneMore(users, members, TeamPatch.IdsIn(items[..i]), id.value);
        var found := IsMember(r, id.value);
        if !found {
          var display := "";
          if id.value in users {
            display := users[id.value].name.formatted;
          }
          r := r + [ScimMember(id.value, display, "")];
        }
      }
    }
    assert items[..|items|] == items;
  }

  method RemoveEach(members: seq<ScimMember>, items: seq<Json>) returns (r: seq<ScimMember>)
    ensures r == TeamPatch.Without(members, TeamPatch.ToSet(TeamPatch.IdsIn(items)))
  {
    r := members;
    TeamPatch.WithoutIdentity(members, {});
    assert TeamPatch.ToSet(TeamPatch.IdsIn(items[..0])) == {};
    for i := 0 to |items|
      invariant r == TeamPatch.Without(members, TeamPatch.ToSet(TeamPatch.IdsIn(items[..i])))
    {
      assert items[..i + 1][..i] == items[..i];
      var id := TeamPatch.EntryId(items[i]);
      if id.Some? {
        var ids := TeamPatch.IdsIn(items[..i]);
        TeamPatch.ToSetSnoc(ids, id.value);
        TeamPatch.WithoutTwice(members, TeamPatch.ToSet(ids), {id.value});
        var found;
        r, found := DropMember(r, id.value);
      }
    }
    assert items[..|items|] == items;
  }

  method CollectEach(users: map<string, ScimUser>, items: seq<Json>) returns (r: seq<ScimMember>)
    ensures r == TeamPatch.NewMembers(users, TeamPatch.IdsIn(items))
  {
    r := [];
    for i := 0 to |items|
      invariant r == TeamPatch.NewMembers(users, TeamPatch.IdsIn(items[..i]))
    {
      assert items[..i + 1][..i] == items[..i];
      var id := TeamPatch.EntryId(items[i]);
      if id.Some? {
        var display := "";
        if id.value in users {
          display := users[id.value].name.formatted;
        }
        r := r + [ScimMember(id.value, display, "")];
      }
    }
    assert items[..|items|] == items;
  }

  // ----- the loop over an object value --------------------------------------------------------

  function ReplaceKey(u: ScimUser, key: string, v: Json): ScimUser {
    if key == "active" then u.(active := UserPatch.FlagOr(v, u.active))
    else if key == "title" then u.(title := UserPatch.TextOr(v, u.title))
    else if key == "name" then
      u.(name := u.name.(formatted := UserPatch.TextOr(Member(v, "formatted"), u.name.formatted)))
    else if key == "userName" then u.(userName := UserPatch.TextOr(v, u.userName))
    else if key == "preferredLanguage" then u.(preferredLanguage := UserPatch.TextOr(v, u.preferredLanguage))
    else if key == "userType" then u.(userType := UserPatch.TextOr(v, u.userType))
    else if key == ENTERPRISE_SCHEMA then
      u.(extension := u.extension.(department := UserPatch.TextOr(Member(v, "department"), u.extension.department)))
    else u
  }

  /** One key of the object value does what the single-path replace it translates to does. */
  lemma KeyIsPath(u: ScimUser, key: string, v: Json)
    ensures ReplaceKey(u, key, v)
            == match UserPatch.Translate(key, v)
               case Some(op) => UserPatch.ApplyOperation(u, op)
               case None => u
  {
    hide UserPatch.TextOr, UserPatch.FlagOr, UserPatch.ReplaceObject, Member;
    assert |ENTERPRISE_SCHEMA| > 40 && |UserPatch.DEPARTMENT_PATH| > 40;
    assert "userName"[4] == 'N' && "userType"[4] == 'T';
  }

  lemma OneMoreKey(u: ScimUser, value: map<string, Json>, order: seq<string>, key: string)
    requires key in value && forall k | k in order :: k in value
    ensures UserPatch.ApplyAll(u, UserPatch.TranslateAll(value, order + [key]))
            == ReplaceKey(UserPatch.ApplyAll(u, UserPatch.TranslateAll(value, order)), key, value[key])
  {
    hide ReplaceKey, UserPatch.Translate, UserPatch.ApplyOperation;
    assert (order + [key])[..|order|] == order;
    var front := UserPatch.TranslateAll(value, order);
    KeyIsPath(UserPatch.ApplyAll(u, front), key, value[key]);
    if UserPatch.Translate(key, value[key]).Some? {
      assert (front + [UserPatch.Translate(key, value[key]).value])[..|front|] == front;
    }
  }

  /** The keys come in whatever order the map yields them; the result does not depend on it. */
  method ReplaceEachKey(u: ScimUser, value: map<string, Json>) returns (r: ScimUser)
    ensures r == UserPatch.ReplaceObject(u, value)
  {
    r := u;
    var rest := value.Keys;
    ghost var order := [];
    while rest != {}
      invariant rest <= value.Keys
      invariant forall key :: key in order <==> key in value && key !in rest
      invariant r == UserPatch.ApplyAll(u, UserPatch.TranslateAll(value, order))
      decreases rest
    {
      var key :| key in rest;
      var v := value[key];
      OneMoreKey(u, value, order, key);
      order := order + [key];
      if key == "active" {
        if v.JBool? { r := r.(active := v.flag); }
      } else if key == "title" {
        if v.JString? { r := r.(title := v.text); }
      } else if key == "name" {
        if v.JObject? && "formatted" in v.fields && v.fields["formatted"].JString? {
          r := r.(name := r.name.(formatted := v.fields["formatted"].text));
        }
      } else if key == "userName" {
        if v.JString? { r := r.(userName := v.text); }
      } else if key == "preferredLanguage" {
        if v.JString? { r := r.(preferredLanguage := v.text); }
      } else if key == "userType" {
        if v.JString? { r := r.(userType := v.text); }
      } else if key == ENTERPRISE_SCHEMA {
        if v.JObject? && "department" in v.fields && v.fields["department"].JString? {
          r := r.(extension := r.extension.(department := v.fields["department"].text));
        }
      }
      rest := rest - {key};
    }
    UserPatch.ObjectFormIsPathForm(u, value, order);
  }

  // ----- the server ---------------------------------------------------------------------------

  class ScimTestServer {
    var users: map<string, ScimUser>
    var teams: map<string, ScimTeam>
    var workspaces: seq<string>

    ghost function Contents(): Store
      reads this
    {
      Store(users, teams)
    }

    constructor ()
      ensures Contents() == Store(map[], map[]) && workspaces == ["1"]
    {
      users, teams, workspaces := map[], map[], ["1"];
    }

    method GetUser(id: string) returns (reply: Reply<ScimUser>)
      ensures reply == if id in users then Success(200, users[id]) else Failure(404)
    {
      if id !in users {
        return Failure(404);
      }
      return Success(200, users[id]);
    }

    /** Without a filter every user is listed once; with one, a single match at most. */
    method GetUsers(filter: string) returns (found: seq<ScimUser>)
      ensures filter == "" ==> Lists(users, found)
      ensures filter != "" ==> |found| <= 1
      ensures filter != ""
              ==> Filter.Selects(users, (u: ScimUser) => u.userName, Filter.Parse(Filter.USER_NAME, filter),
                                 if found == [] then None else Some(found[0]))
    {
      if filter != "" {
        found := [];
        assert Filter.USER_NAME + " eq" == "userName eq";
        if Contains(filter, "userName eq") {
          var parts := Split(filter, "eq");
          if |parts| == 2 {
            var id := FindByName(users, TrimQuotes(TrimSpace(parts[1])));
            if id.Some? {
              found := [users[id.value]];
            }
          }
        }
      } else {
        found := ListAll(users);
      }
    }

    method GetTeams(filter: string) returns (found: seq<ScimTeam>)
      ensures filter == "" ==> Lists(teams, found)
      ensures filter != "" ==> |found| <= 1
      ensures filter != ""
              ==> Filter.Selects(teams, (t: ScimTeam) => t.displayName, Filter.Parse(Filter.DISPLAY_NAME, filter),
                                 if found == [] then None else Some(found[0]))
    {
      if filter != "" {
        found := [];
        assert Filter.DISPLAY_NAME + " eq" == "displayName eq";
        if Contains(filter, "displayName eq") {
          var parts := Split(filter, "eq");
          if |parts| == 2 {
            var id := FindTeamByName(teams, TrimQuotes(TrimSpace(parts[1])));
            if id.Some? {
              found := [teams[id.value]];
            }
          }
        }
      } else {
        found := ListAll(teams);
      }
    }

    method CreateUser(body: ScimUser) returns (reply: Reply<ScimUser>)
      modifies this`users
      ensures (Contents(), reply) == Directory.CreateUser(old(Contents()), body)
    {
      var user := body;
      if user.userName == "" {
        return Failure(400);
      }
      var existing := FindByName(users, user.userName);
      if existing.Some? {
        return Failure(409);
      }
      user := user.(id := Decimal(|users| + 1));
      user := Normalize.EnsureSchemas(user);
      var name := Normalize.EnsureNames(user.name);
      user := user.(name := name);
      var emails := Normalize.SetPrimaryType(user.emails);
      user := user.(emails := emails);
      if user.userType == "" {
        user := user.(userType := LICENSE_ENTERPRISE);
      }
      users := users[user.id := user];
      return Success(201, user);
    }

    method PutUser(id: string, body: ScimUser) returns (reply: Reply<ScimUser>)
      modifies this`users
      ensures (Contents(), reply) == Directory.PutUser(old(Contents()), id, body)
    {
      if id !in users {
        return Failure(404);
      }
      var user := body.(id := id);
      user := Normalize.EnsureSchemas(user);
      users := users[id := user];
      return Success(200, user);
    }

    method PatchUser(id: string, ops: seq<PatchOperation>) returns (reply: Reply<ScimUser>)
      modifies this`users
      ensures (Contents(), reply) == Directory.PatchUser(old(Contents()), id, ops)
    {
      if id !in users {
        return Failure(404);
      }
      var user := users[id];
      for i := 0 to |ops|
        invariant users == old(users)
        invariant user == UserPatch.ApplyAll(old(users)[id], ops[..i])
      {
        assert ops[..i + 1][..i] == ops[..i];
        var op := ops[i];
        if op.op == "replace" {
          if op.path == "" {
            if op.value.JObject? {
              user := ReplaceEachKey(user, op.value.fields);
            }
          } else {
            user := ReplaceOne(user, op.path, op.value);
          }
        }
      }
      assert ops[..|ops|] == ops;
      users := users[id := user];
      return Success(200, user);
    }

    static method ReplaceOne(u: ScimUser, path: string, v: Json) returns (r: ScimUser)
      ensures r == UserPatch.ReplacePath(u, path, v)
    {
      r := u;
      if path == "active" {
        if v.JBool? { r := r.(active := v.flag); }
      } else if path == "title" {
        if v.JString? { r := r.(title := v.text); }
      } else if path == UserPatch.NAME_FORMATTED {
        if v.JString? { r := r.(name := r.name.(formatted := v.text)); }
      } else if path == "userName" {
        if v.JString? { r := r.(userName := v.text); }
      } else if path == "preferredLanguage" {
        if v.JString? { r := r.(preferredLanguage := v.text); }
      } else if path == "userType" {
        if v.JString? { r := r.(userType := v.text); }
      } else if path == UserPatch.DEPARTMENT_PATH {
        if v.JString? { r := r.(extension := r.extension.(department := v.text)); }
      }
    }

    method DeleteUser(id: string) returns (reply: Reply<()>)
      modifies this`users
      ensures (Contents(), reply) == Directory.DeleteUser(old(Contents()), id)
    {
      if id !in users {
        return Failure(404);
      }
      users := users - {id};
      return Success(204, ());
    }

    method AddUserToWorkspace(workspace: string, requested: string) returns (reply: Reply<string>)
      modifies this`users
      ensures (Contents(), reply) == Directory.Invite(old(Contents()), workspaces, workspace, requested)
    {
      var known := false;
      for i := 0 to |workspaces|
        invariant !known && workspace !in workspaces[..i] && users == old(users)
      {
        if workspaces[i] == workspace {
          known := true;
          break;
        }
      }
      assert workspaces[..|workspaces|] == workspaces;
      if !known {
        return Failure(404);
      }
      if !HasPrefix(requested, "1") && Contains(requested, "@") {
        var id := Decimal(|users| + 1);
        var nameParts := Split(Split(requested, "@")[0], ".");
        var first, last := Capitalize(nameParts[0]), "";
        if |nameParts| > 1 {
          last := Capitalize(nameParts[1]);
        }
        var formatted := TrimSpace(first + " " + last);
        if formatted == "" {
          formatted := requested;
        }
        users := users[id := ScimUser(id, Some([USER_SCHEMA]), ScimName(first, last, formatted), requested,
                                      [ScimEmail(requested, "work", true)], true, "", "", [], [],
                                      LICENSE_ENTERPRISE, NO_EXTENSION)];
        return Success(200, id);
      }
      if requested !in users {
        return Failure(404);
      }
      return Success(200, requested);
    }

    method CreateTeam(body: ScimTeam) returns (reply: Reply<ScimTeam>)
      modifies this`teams
      ensures (Contents(), reply) == Directory.CreateTeam(old(Contents()), body)
    {
      var team := body;
      if team.displayName == "" {
        return Failure(400);
      }
      var existing := FindTeamByName(teams, team.displayName);
      if existing.Some? {
        return Failure(409);
      }
      team := team.(id := Decimal(|teams| + 1));
      if team.schemas.None? {
        team := team.(schemas := Some([GROUP_SCHEMA]));
      }
      team := team.(resourceType := RESOURCE_TYPE_GROUP);
      teams := teams[team.id := team];
      return Success(201, team);
    }

    method PutTeam(id: string, body: ScimTeam) returns (reply: Reply<ScimTeam>)
      modifies this`teams
      ensures (Contents(), reply) == Directory.PutTeam(old(Contents()), id, body)
    {
      if id !in teams {
        return Failure(404);
      }
      var team := body.(id := id);
      if team.schemas.None? {
        team := team.(schemas := Some([GROUP_SCHEMA]));
      }
      team := team.(resourceType := RESOURCE_TYPE_GROUP);
      teams := teams[id := team];
      return Success(200, team);
    }

    method PatchTeam(id: string, ops: seq<PatchOperation>) returns (reply: Reply<()>)
      modifies this`teams
      ensures (Contents(), reply) == Directory.PatchTeam(old(Contents()), id, ops)
    {
      if id !in teams {
        return Failure(404);
      }
      var team := teams[id];
      for i := 0 to |ops|
        invariant teams == old(teams)
        invariant team == TeamPatch.ApplyAll(users, old(teams)[id], ops[..i])
      {
        assert ops[..i + 1][..i] == ops[..i];
        var op := ops[i];
        var members := team.members;
        if op.op == "add" {
          if op.path == MEMBERS_PATH && op.value.JArray? {
            members := AddEach(users, members, op.value.items);
          }
        } else if op.op == "remove" {
          if op.path == MEMBERS_PATH && op.value.JArray? {
            members := RemoveEach(members, op.value.items);
          }
        } else if op.op == "replace" {
          if op.path == MEMBERS_PATH {
            if op.value.JArray? {
              members := CollectEach(users, op.value.items);
            }
          } else if op.path == "displayName" {
            if op.value.JString? {
              team := team.(displayName := op.value.text);
            }
          }
        }
        team := team.(members := members);
      }
      assert ops[..|ops|] == ops;
      teams := teams[id := team];
      return Success(204, ());
    }

    /** `found` is what the request resolved to. */
    method AddUserToTeam(teamId: string, requested: string) returns (reply: Reply<()>, found: Option<string>)
      modifies this`teams
      ensures teamId in old(teams) ==> AddTarget(users, requested, found)
      ensures (Contents(), reply) == AddToTeam(old(Contents()), teamId, found)
    {
      if teamId !in teams {
        return Failure(404), None;
      }
      var team := teams[teamId];
      found := Some(requested);
      if requested !in users {
        found := FindByName(users, requested);
        if found.None? {
          return Failure(404), None;
        }
      }
      var already := IsMember(team.members, found.value);
      if already {
        return Success(200, ()), found;
      }
      team := team.(members := team.members + [ScimMember(found.value, users[found.value].name.formatted, "")]);
      teams := teams[teamId := team];
      return Success(200, ()), found;
    }

    /** `target` is what the request resolved to. */
    method RemoveUserFromTeam(teamId: string, requested: string) returns (reply: Reply<()>, target: string)
      modifies this`teams
      ensures teamId in old(teams) ==> RemoveTarget(users, requested, target)
      ensures (Contents(), reply) == RemoveFromTeam(old(Contents()), teamId, target)
    {
      target := requested;
      if teamId !in teams {
        return Failure(404), target;
      }
      var team := teams[teamId];
      if !HasPrefix(requested, "1") {
        var named := FindByName(users, requested);
        if named.Some? {
          target := named.value;
        }
      }
      var rest, memberFound := DropMember(team.members, target);
      if memberFound {
        teams := teams[teamId := team.(members := rest)];
      } else {
        TeamPatch.WithoutIdentity(team.members, {target});
        assert team.(members := rest) == team && teams[teamId := team] == teams;
      }
      return Success(200, ()), target;
    }

    method TeamMemberships(teamId: string, limitParam: string) returns (reply: Reply<MembershipPage>)
      ensures reply == Memberships(Contents(), teamId, limitParam)
    {
      if teamId !in teams {
        return Failure(404);
      }
      var team := teams[teamId];
      var data: seq<Membership> := [];
      for i := 0 to |team.members|
        invariant forall m :: m in Present(users, team.members[..i]) ==> m.value in users
        invariant data == Report(Contents(), teamId, team, Present(users, team.members[..i]))
      {
        assert team.members[..i + 1][..i] == team.members[..i];
        var member := team.members[i];
        if member.value in users {
          var user := users[member.value];
          data := data + [Membership("tm-" + teamId + "-" + member.value, user.id, user.name.formatted,
              user.userName, team.id, team.displayName)];
        }
      }
      assert team.members[..|team.members|] == team.members;
      var limit := 50;
      var n := Atoi(limitParam);
      if n.Some? && n.value > 0 {
        limit := n.value;
      }
      if |data| > limit {
        return Success(200, MembershipPage(data[..limit], Decimal(limit)));
      }
      return Success(200, MembershipPage(data, ""));
    }
  }
}
