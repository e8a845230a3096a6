/** What holds after every finite run of requests against the server. */
module Runs {
  import opened Text
  import opened Scim
  import opened Directory
  import Normalize
  import TeamPatch
  import UserPatch

  /** A request, together with the answer map iteration gave to its name lookup. */
  datatype Request =
    | RCreateUser(user: ScimUser)
    | RPutUser(id: string, user: ScimUser)
    | RPatchUser(id: string, ops: seq<PatchOperation>)
    | RDeleteUser(id: string)
    | RInvite(workspaces: seq<string>, workspace: string, requested: string)
    | RCreateTeam(team: ScimTeam)
    | RPutTeam(id: string, team: ScimTeam)
    | RPatchTeam(id: string, ops: seq<PatchOperation>)
    | RAddToTeam(id: string, requested: string, found: Option<string>)
    | RRemoveFromTeam(id: string, requested: string, target: string)

  function Next(s: Store, r: Request): Store {
    match r
    case RCreateUser(u) => CreateUser(s, u).0
    case RPutUser(id, u) => PutUser(s, id, u).0
    case RPatchUser(id, ops) => PatchUser(s, id, ops).0
    case RDeleteUser(id) => DeleteUser(s, id).0
    case RInvite(workspaces, workspace, requested) => Invite(s, workspaces, workspace, requested).0
    case RCreateTeam(t) => CreateTeam(s, t).0
    case RPutTeam(id, t) => PutTeam(s, id, t).0
    case RPatchTeam(id, ops) => PatchTeam(s, id, ops).0
    case RAddToTeam(id, _, found) => AddToTeam(s, id, found).0
    case RRemoveFromTeam(id, _, target) => RemoveFromTeam(s, id, target).0
  }

  function Run(s: Store, rs: seq<Request>): Store
    decreases |rs|
  {
    if rs == [] then s else Run(Next(s, rs[0]), rs[1..])
  }

  lemma RunTwo(s: Store, a: Request, b: Request)
    ensures Run(s, [a, b]) == Next(Next(s, a), b)
  {
    assert [a, b][1..] == [b] && [b][1..] == [];
    assert Run(Next(s, a), [b]) == Run(Next(Next(s, a), b), []);
  }

  // ----- well-formedness and frames -----------------------------------------------------------

  predicate WellFormed(s: Store) {
    && (forall id | id in s.users :: WellFormedUser(id, s.users[id]))
    && (forall id | id in s.teams :: WellFormedTeam(id, s.teams[id]))
  }

  datatype Place = UserAt(id: string) | TeamAt(id: string)

  /** The one key of the one map a request may write. */
  function PlaceOf(s: Store, r: Request): Place {
    match r
    case RCreateUser(_) => UserAt(NextId(s.users))
    case RInvite(_, _, _) => UserAt(NextId(s.users))
    case RPutUser(id, _) => UserAt(id)
    case RPatchUser(id, _) => UserAt(id)
    case RDeleteUser(id) => UserAt(id)
    case RCreateTeam(_) => TeamAt(NextId(s.teams))
    case RPutTeam(id, _) => TeamAt(id)
    case RPatchTeam(id, _) => TeamAt(id)
    case RAddToTeam(id, _, _) => TeamAt(id)
    case RRemoveFromTeam(id, _, _) => TeamAt(id)
  }

  predicate SameBut<V(==)>(before: map<string, V>, after: map<string, V>, id: string) {
    before - {id} == after - {id}
  }

  lemma WriteFrame<V>(entries: map<string, V>, id: string, v: V)
    ensures SameBut(entries, entries[id := v], id)
    ensures SameBut(entries, entries, id)
  {
  }

  lemma DeleteFrame<V>(entries: map<string, V>, id: string)
    ensures SameBut(entries, entries - {id}, id)
    ensures SameBut(entries, entries, id)
  {
  }

  lemma UserRequestFrame(s: Store, r: Request)
    requires PlaceOf(s, r).UserAt?
    ensures Next(s, r).teams == s.teams && SameBut(s.users, Next(s, r).users, PlaceOf(s, r).id)
  {
    hide SameBut, Normalize.ForCreate, Normalize.CompleteSchemas, UserPatch.ApplyAll;
    var id, users := PlaceOf(s, r).id, Next(s, r).users;
    if r.RDeleteUser? {
      DeleteFrame(s.users, id);
    } else if id in users {
      WriteFrame(s.users, id, users[id]);
      assert users == s.users || users == s.users[id := users[id]];
    } else {
      DeleteFrame(s.users, id);
    }
  }

  lemma TeamRequestFrame(s: Store, r: Request)
    requires PlaceOf(s, r).TeamAt?
    ensures Next(s, r).users == s.users && SameBut(s.teams, Next(s, r).teams, PlaceOf(s, r).id)
  {
    hide SameBut, TeamPatch.ApplyAll, TeamPatch.Without, TeamPatch.NewMember;
    var id, teams := PlaceOf(s, r).id, Next(s, r).teams;
    if id in teams {
      WriteFrame(s.teams, id, teams[id]);
      assert teams == s.teams || teams == s.teams[id := teams[id]];
    } else {
      DeleteFrame(s.teams, id);
    }
  }

  /** Every request, successful or not, changes at most one entry of one map. */
  lemma OneEntryChanges(s: Store, r: Request)
    ensures var t := Next(s, r);
            match PlaceOf(s, r)
            case UserAt(id) => t.teams == s.teams && SameBut(s.users, t.users, id)
            case TeamAt(id) => t.users == s.users && SameBut(s.teams, t.teams, id)
  {
    hide Next, SameBut;
    if PlaceOf(s, r).UserAt? {
      UserRequestFrame(s, r);
    } else {
      TeamRequestFrame(s, r);
    }
  }

  predicate WellFormedUser(id: string, u: ScimUser) {
    u.id == id
  }

  predicate WellFormedTeam(id: string, t: ScimTeam) {
    t.id == id && t.resourceType == RESOURCE_TYPE_GROUP
  }

  lemma WrittenEntryIsWellFormed(s: Store, r: Request)
    requires WellFormed(s)
    ensures var t := Next(s, r);
            match PlaceOf(s, r)
            case UserAt(id) => id in t.users ==> WellFormedUser(id, t.users[id])
            case TeamAt(id) => id in t.teams ==> WellFormedTeam(id, t.teams[id])
  {
    if r.RPatchUser? && r.id in s.users {
      UserPatch.RestUntouched(s.users[r.id], r.ops);
    } else if r.RPatchTeam? && r.id in s.teams {
      TeamPatch.OtherTeamFields(s.users, s.teams[r.id], r.ops);
    }
  }

  lemma OneEntryPointwise<V>(before: map<string, V>, after: map<string, V>, id: string, k: string)
    requires SameBut(before, after, id) && k != id
    ensures k in before <==> k in after
    ensures k in before ==> before[k] == after[k]
  {
    assert k in before <==> k in before - {id};
    assert k in after <==> k in after - {id};
  }

  lemma StepKeepsWellFormed(s: Store, r: Request)
    requires WellFormed(s)
    ensures WellFormed(Next(s, r))
  {
    var t := Next(s, r);
    OneEntryChanges(s, r);
    WrittenEntryIsWellFormed(s, r);
    match PlaceOf(s, r)
    case UserAt(id) =>
      forall k | k in t.users && k != id ensures WellFormedUser(k, t.users[k]) {
        OneEntryPointwise(s.users, t.users, id, k);
      }
    case TeamAt(id) =>
      forall k | k in t.teams && k != id ensures WellFormedTeam(k, t.teams[k]) {
        OneEntryPointwise(s.teams, t.teams, id, k);
      }
  }

  lemma {:induction false} StaysWellFormed(s: Store, rs: seq<Request>)
    requires WellFormed(s)
    ensures WellFormed(Run(s, rs))
    decreases |rs|
  {
    if rs != [] {
      StepKeepsWellFormed(s, rs[0]);
      StaysWellFormed(Next(s, rs[0]), rs[1..]);
    }
  }

  // ----- id allocation ------------------------------------------------------------------------

  /** The decimals of 1 to n. */
  function FirstIds(n: nat): set<string> {
    if n == 0 then {} else FirstIds(n - 1) + {Decimal(n)}
  }

  predicate Contiguous<V>(entries: map<string, V>) {
    entries.Keys == FirstIds(|entries|)
  }

  lemma {:induction false} FirstIdsMembers(n: nat, m: nat)
    ensures Decimal(m) in FirstIds(n) <==> 1 <= m <= n
  {
    if n > 0 {
      FirstIdsMembers(n - 1, m);
      DecimalInjective(m, n);
    }
  }

  lemma {:induction false} FirstIdsCount(n: nat)
    ensures |FirstIds(n)| == n
  {
    if n > 0 {
      FirstIdsCount(n - 1);
      FirstIdsMembers(n - 1, n);
    }
  }

  lemma NextIdIsNew<V>(entries: map<string, V>)
    requires Contiguous(entries)
    ensures NextId(entries) !in entries
  {
    FirstIdsMembers(|entries|, |entries| + 1);
  }

  lemma UpdateKeepsContiguous<V>(entries: map<string, V>, id: string, v: V)
    requires Contiguous(entries) && (id in entries || id == NextId(entries))
    ensures Contiguous(entries[id := v])
  {
    NextIdIsNew(entries);
    var after := entries[id := v];
    assert after.Keys == entries.Keys + {id};
    if id in entries {
      assert after.Keys == entries.Keys;
      assert |after| == |entries|;
    } else {
      assert |after| == |entries| + 1;
    }
  }

  lemma OneStepIds(s: Store, r: Request)
    ensures Contiguous(s.teams) ==> Contiguous(Next(s, r).teams)
    ensures Contiguous(s.users) && !r.RDeleteUser? ==> Contiguous(Next(s, r).users)
  {
    var t := Next(s, r);
    OneEntryChanges(s, r);
    match PlaceOf(s, r)
    case UserAt(id) =>
      if Contiguous(s.users) && !r.RDeleteUser? && t != s {
        assert t.users == s.users[id := t.users[id]];
        UpdateKeepsContiguous(s.users, id, t.users[id]);
      }
    case TeamAt(id) =>
      if Contiguous(s.teams) && t != s {
        assert t.teams == s.teams[id := t.teams[id]];
        UpdateKeepsContiguous(s.teams, id, t.teams[id]);
      }
  }

  /** On every run of all handlers the team keys stay the decimals 1..n, and so do the user keys as
      long as no user is deleted; the next id is then always unused. */
  lemma {:induction false} IdsStayContiguous(s: Store, rs: seq<Request>)
    ensures Contiguous(s.teams) ==>
              Contiguous(Run(s, rs).teams) && NextId(Run(s, rs).teams) !in Run(s, rs).teams
    ensures Contiguous(s.users) && (forall r | r in rs :: !r.RDeleteUser?) ==>
              Contiguous(Run(s, rs).users) && NextId(Run(s, rs).users) !in Run(s, rs).users
    decreases |rs|
  {
    if rs == [] {
      if Contiguous(s.teams) {
        NextIdIsNew(s.teams);
      }
      if Contiguous(s.users) {
        NextIdIsNew(s.users);
      }
    } else {
      OneStepIds(s, rs[0]);
      IdsStayContiguous(Next(s, rs[0]), rs[1..]);
      assert rs[0] in rs && forall r | r in rs[1..] :: r in rs;
    }
  }

  /** The request is one that the server answers by allocating an id. */
  predicate Creates(s: Store, r: Request) {
    match r
    case RCreateUser(u) => u.userName != "" && !NameTaken(s.users, u.userName)
    case RInvite(workspaces, workspace, requested) => workspace in workspaces && IsInvitation(requested)
    case _ => false
  }

  function NewName(r: Request): string
    requires r.RCreateUser? || r.RInvite?
  {
    if r.RCreateUser? then r.user.userName else r.requested
  }

  /** Creations and invitations write the entry under the next id: they overwrite one exactly when
      the decimal of the number of users plus one is a key, and then the store does not grow. */
  lemma CreationTakesNextId(s: Store, r: Request)
    requires Creates(s, r)
    ensures var id, t := NextId(s.users), Next(s, r);
            && t.users.Keys == s.users.Keys + {id}
            && t.users[id].userName == NewName(r)
            && (forall k | k in s.users && k != id :: t.users[k] == s.users[k])
            && |t.users| == |s.users| + (if id in s.users then 0 else 1)
  {
    hide Normalize.ForCreate, InvitedName, NameTaken, IsInvitation;
    var id, t := NextId(s.users), Next(s, r);
    assert t.users == s.users[id := t.users[id]];
    if r.RCreateUser? {
      Normalize.CreateOnlyFillsGaps(r.user);
    }
    WriteGrows(s.users, id, t.users[id]);
  }

  lemma WriteGrows<V>(entries: map<string, V>, id: string, v: V)
    ensures entries[id := v].Keys == entries.Keys + {id}
    ensures |entries[id := v]| == |entries| + (if id in entries then 0 else 1)
  {
    var after := entries[id := v];
    assert after.Keys == entries.Keys + {id};
    assert |after.Keys| == |after| && |entries.Keys| == |entries|;
    assert id in entries ==> after.Keys == entries.Keys;
  }

  function Deletions(ids: seq<string>): seq<Request> {
    seq(|ids|, i requires 0 <= i < |ids| => RDeleteUser(ids[i]))
  }

  lemma DeletionIsRemoval(s: Store, id: string)
    ensures Next(s, RDeleteUser(id)) == s.(users := s.users - {id})
  {
    assert id !in s.users ==> s.users - {id} == s.users;
  }

  lemma {:induction false} DeletionsRun(s: Store, ids: seq<string>, r: Request)
    ensures Run(s, Deletions(ids) + [r]) == Next(s.(users := s.users - TeamPatch.ToSet(ids)), r)
    decreases |ids|
  {
    hide Next;
    var rs := Deletions(ids) + [r];
    if ids == [] {
      assert rs == [r] && [r][1..] == [];
      assert s.users - TeamPatch.ToSet(ids) == s.users;
      assert Run(Next(s, r), []) == Next(s, r);
    } else {
      var left := s.users - {ids[0]};
      DeletionIsRemoval(s, ids[0]);
      DeletionsRun(s.(users := left), ids[1..], r);
      assert rs[0] == RDeleteUser(ids[0]) && rs[1..] == Deletions(ids[1..]) + [r];
      assert left - TeamPatch.ToSet(ids[1..]) == s.users - TeamPatch.ToSet(ids);
    }
  }

  lemma NextIdAfterDeletions<V>(entries: map<string, V>, gone: set<string>)
    requires Contiguous(entries) && gone <= entries.Keys
    ensures |gone| <= |entries| && |entries - gone| == |entries| - |gone|
    ensures (entries - gone).Keys == entries.Keys - gone
    ensures var next := NextId(entries - gone);
            && next == Decimal(|entries| - |gone| + 1)
            && (gone != {} ==> next in entries)
            && (next in entries - gone <==> gone != {} && next !in gone)
  {
    var left := entries - gone;
    assert left.Keys == entries.Keys - gone;
    assert |left.Keys| == |left| && |entries.Keys| == |entries|;
    assert entries.Keys == left.Keys + gone;
    if gone != {} {
      assert |gone| > 0;
      FirstIdsMembers(|entries|, |left| + 1);
    } else {
      FirstIdsMembers(|entries|, |entries| + 1);
    }
  }

  /** The store `t` when, after the removal of `gone` from the users of `s`, one of this name has
      been created: its id is n minus the number of removed users plus 1, so it overwrites another
      user exactly when something was removed, but not that id. */
  predicate TookNextId(s: Store, gone: set<string>, name: string, t: Store) {
    && |gone| <= |s.users|
    && var next := Decimal(|s.users| - |gone| + 1);
       && t.users.Keys == s.users.Keys - gone + {next}
       && t.users[next].userName == name
       && (gone != {} ==> next in s.users)
       && |t.users| == |s.users| - |gone| + (if gone != {} && next !in gone then 0 else 1)
  }

  lemma CreateAfterRemoval(s: Store, gone: set<string>, r: Request)
    requires Contiguous(s.users) && gone <= s.users.Keys && Creates(s.(users := s.users - gone), r)
    ensures TookNextId(s, gone, NewName(r), Next(s.(users := s.users - gone), r))
  {
    hide Next, Creates, NewName, FirstIds;
    NextIdAfterDeletions(s.users, gone);
    CreationTakesNextId(s.(users := s.users - gone), r);
  }

  /** From a store with the ids 1 to n: any deletions, then a creation or an invitation. */
  lemma CreateAfterDeletions(s: Store, ids: seq<string>, r: Request)
    requires Contiguous(s.users)
    requires Creates(s.(users := s.users - TeamPatch.ToSet(ids)), r)
    ensures TookNextId(s, TeamPatch.ToSet(ids) * s.users.Keys, NewName(r), Run(s, Deletions(ids) + [r]))
  {
    hide Next, Run, Creates, NewName, Contiguous, TookNextId;
    var gone := TeamPatch.ToSet(ids) * s.users.Keys;
    assert s.users - TeamPatch.ToSet(ids) == s.users - gone;
    DeletionsRun(s, ids, r);
    CreateAfterRemoval(s, gone, r);
  }

  // ----- user names ---------------------------------------------------------------------------

  predicate NamesOk(users: map<string, ScimUser>) {
    && (forall id | id in users :: users[id].userName != "")
    && (forall i, j | i in users && j in users && users[i].userName == users[j].userName :: i == j)
  }

  predicate FreeFor(users: map<string, ScimUser>, id: string, name: string) {
    name != "" && forall k | k in users && users[k].userName == name :: k == id
  }

  /** What a caller of PUT, PATCH or invite must look at: the server itself checks only creation. */
  predicate NameSafe(s: Store, r: Request) {
    match r
    case RPutUser(id, u) => id in s.users ==> FreeFor(s.users, id, u.userName)
    case RPatchUser(id, ops) =>
      id in s.users && (exists i | 0 <= i < |ops| :: UserPatch.Written(ops[i], UserPatch.UserName).Some?)
      ==> FreeFor(s.users, id, UserPatch.ApplyAll(s.users[id], ops).userName)
    case RInvite(workspaces, workspace, requested) =>
      workspace in workspaces && IsInvitation(requested) ==> FreeFor(s.users, NextId(s.users), requested)
    case _ => true
  }

  lemma WriteKeepsNames(users: map<string, ScimUser>, id: string, u: ScimUser)
    requires NamesOk(users)
    ensures NamesOk(users[id := u]) <==> FreeFor(users, id, u.userName)
  {
    var after := users[id := u];
    assert id in after && after[id] == u;
    assert forall k | k in users && k != id :: k in after && after[k] == users[k];
  }

  /** For one request the guard is exact. */
  lemma OneStepNames(s: Store, r: Request)
    requires NamesOk(s.users)
    ensures NamesOk(Next(s, r).users) <==> NameSafe(s, r)
  {
    hide Normalize.ForCreate, UserPatch.ApplyAll, UserPatch.Written, IsInvitation, InvitedName;
    match r
    case RCreateUser(u) =>
      Normalize.CreateOnlyFillsGaps(u);
      WriteKeepsNames(s.users, NextId(s.users), Normalize.ForCreate(u).(id := NextId(s.users)));
    case RPutUser(id, u) =>
      WriteKeepsNames(s.users, id, Normalize.CompleteSchemas(u).(id := id));
    case RPatchUser(id, ops) =>
      if id in s.users {
        var last := UserPatch.LastWriterWins(s.users[id], ops, UserPatch.UserName);
        WriteKeepsNames(s.users, id, UserPatch.ApplyAll(s.users[id], ops));
      }
    case RInvite(_, _, requested) =>
      WriteKeepsNames(s.users, NextId(s.users), InvitedUser(NextId(s.users), requested));
    case _ =>
  }

  predicate NameSafeRun(s: Store, rs: seq<Request>)
    decreases |rs|
  {
    rs == [] || (NameSafe(s, rs[0]) && NameSafeRun(Next(s, rs[0]), rs[1..]))
  }

  /** User names stay non-empty and pairwise distinct, even where a creation overwrites an entry. */
  lemma {:induction false} NamesStayDistinct(s: Store, rs: seq<Request>)
    requires NamesOk(s.users) && NameSafeRun(s, rs)
    ensures NamesOk(Run(s, rs).users)
    decreases |rs|
  {
    if rs != [] {
      OneStepNames(s, rs[0]);
      NamesStayDistinct(Next(s, rs[0]), rs[1..]);
    }
  }

  /** Requests that can never need the guard, read off the request alone. */
  predicate LeavesNamesAlone(r: Request) {
    && !r.RPutUser? && !r.RInvite?
    && (r.RPatchUser? ==> forall i | 0 <= i < |r.ops| :: UserPatch.Written(r.ops[i], UserPatch.UserName).None?)
  }

  lemma {:induction false} QuietRunIsNameSafe(s: Store, rs: seq<Request>)
    requires forall r | r in rs :: LeavesNamesAlone(r)
    ensures NameSafeRun(s, rs)
    decreases |rs|
  {
    if rs != [] {
      assert rs[0] in rs && forall r | r in rs[1..] :: r in rs;
      QuietRunIsNameSafe(Next(s, rs[0]), rs[1..]);
    }
  }

  // ----- duplicate-free teams -----------------------------------------------------------------

  predicate TeamsDuplicateFree(s: Store) {
    forall id | id in s.teams :: TeamPatch.NoDuplicates(TeamPatch.Ids(s.teams[id].members))
  }

  predicate ListsDuplicateFree(r: Request) {
    match r
    case RCreateTeam(t) => TeamPatch.NoDuplicates(TeamPatch.Ids(t.members))
    case RPutTeam(_, t) => TeamPatch.NoDuplicates(TeamPatch.Ids(t.members))
    case RPatchTeam(_, ops) => TeamPatch.ReplacesWithoutRepeats(ops)
    case _ => true
  }

  lemma AppendKeepsNoDuplicates(members: seq<ScimMember>, m: ScimMember)
    requires TeamPatch.NoDuplicates(TeamPatch.Ids(members)) && m.value !in TeamPatch.IdSet(members)
    ensures TeamPatch.NoDuplicates(TeamPatch.Ids(members + [m]))
  {
    assert forall i | 0 <= i < |members| :: members[i] in members && TeamPatch.Ids(members)[i] == members[i].value;
    assert TeamPatch.Ids(members + [m]) == TeamPatch.Ids(members) + [m.value];
  }

  lemma OneStepDuplicates(s: Store, r: Request)
    requires TeamsDuplicateFree(s) && ListsDuplicateFree(r)
    ensures TeamsDuplicateFree(Next(s, r))
  {
    match r
    case RPatchTeam(id, ops) =>
      if id in s.teams {
        TeamPatch.NoDuplicatesKept(s.users, s.teams[id], ops);
      }
    case RAddToTeam(id, _, found) =>
      if id in s.teams && found.Some? && found.value !in TeamPatch.IdSet(s.teams[id].members) {
        AppendKeepsNoDuplicates(s.teams[id].members, TeamPatch.NewMember(s.users, found.value));
      }
    case RRemoveFromTeam(id, _, target) =>
      if id in s.teams {
        TeamPatch.WithoutNoDuplicates(s.teams[id].members, {target});
      }
    case _ =>
  }

  /** No team ever lists a user twice, on any run whose own lists do not. */
  lemma {:induction false} TeamsStayDuplicateFree(s: Store, rs: seq<Request>)
    requires TeamsDuplicateFree(s) && forall r | r in rs :: ListsDuplicateFree(r)
    ensures TeamsDuplicateFree(Run(s, rs))
    decreases |rs|
  {
    if rs != [] {
      assert rs[0] in rs && forall r | r in rs[1..] :: r in rs;
      OneStepDuplicates(s, rs[0]);
      TeamsStayDuplicateFree(Next(s, rs[0]), rs[1..]);
    }
  }

  // ----- addUser and removeUser ---------------------------------------------------------------

  lemma AppendThenWithout(members: seq<ScimMember>, m: ScimMember, target: string)
    requires m.value !in TeamPatch.IdSet(members)
    ensures TeamPatch.Without(members + [m], {target}) == members <==> m.value == target
  {
    TeamPatch.WithoutConcat(members, [m], {target});
    TeamPatch.WithoutIdentity(members, {target});
    if m.value == target {
      TeamPatch.IdSetConcat([], [m]);
      TeamPatch.WithoutAll([m], {target});
    } else {
      assert m in members + [m];
      assert m in members ==> m.value in TeamPatch.IdSet(members);
    }
  }

  /** Adding a user who is not in the team and removing what the second request resolves to
      restores the store exactly when both requests resolve to the same id. */
  lemma AddThenRemoveUser(s: Store, teamId: string, requested: string, found: string, target: string)
    requires teamId in s.teams && AddTarget(s.users, requested, Some(found))
    requires found !in TeamPatch.IdSet(s.teams[teamId].members)
    ensures Run(s, [RAddToTeam(teamId, requested, Some(found)), RRemoveFromTeam(teamId, requested, target)]) == s
            <==> found == target
  {
    var add, remove := RAddToTeam(teamId, requested, Some(found)), RRemoveFromTeam(teamId, requested, target);
    var team := s.teams[teamId];
    var m := TeamPatch.NewMember(s.users, found);
    var end := team.(members := TeamPatch.Without(team.members + [m], {target}));
    RunTwo(s, add, remove);
    AppendThenWithout(team.members, m, target);
    var middle := Next(s, add);
    assert middle == s.(teams := s.teams[teamId := team.(members := team.members + [m])]);
    assert Next(middle, remove) == s.(teams := s.teams[teamId := end]);
    assert s.teams[teamId := end][teamId] == end;
    assert end == team ==> s.teams[teamId := end] == s.teams;
  }

  /** With distinct user names it can be seen beforehand whether an addUser and a removeUser with
      the same text undo each other: a known id must begin with the digit 1 or be nobody else's
      name, and a name must not begin with that digit. */
  lemma AddThenRemoveSameText(s: Store, teamId: string, requested: string, found: string, target: string)
    requires teamId in s.teams && NamesOk(s.users)
    requires AddTarget(s.users, requested, Some(found)) && RemoveTarget(s.users, requested, target)
    requires found !in TeamPatch.IdSet(s.teams[teamId].members)
    ensures Run(s, [RAddToTeam(teamId, requested, Some(found)), RRemoveFromTeam(teamId, requested, target)]) == s
            <==> if requested in s.users
                 then HasPrefix(requested, "1") ||
                       forall k | k in s.users && s.users[k].userName == requested :: k == requested
                 else !HasPrefix(requested, "1")
  {
    AddThenRemoveUser(s, teamId, requested, found, target);
  }

  /** The two membership interfaces agree: addUser and removeUser leave the store that a PATCH with
      a single entry for the resolved id leaves. */
  lemma RestAndScimAgree(s: Store, teamId: string, id: string)
    ensures AddToTeam(s, teamId, Some(id)).0 == PatchTeam(s, teamId, [TeamPatch.AddOp([MemberEntry(id)])]).0
    ensures RemoveFromTeam(s, teamId, id).0 == PatchTeam(s, teamId, [TeamPatch.RemoveOp([MemberEntry(id)])]).0
  {
    if teamId in s.teams {
      var team := s.teams[teamId];
      TeamPatch.SingleEntry(s.users, MemberEntry(id), id);
      SinglePatch(s.users, team, TeamPatch.AddOp([MemberEntry(id)]));
      SinglePatch(s.users, team, TeamPatch.RemoveOp([MemberEntry(id)]));
      TeamPatch.AddedTo(s.users, team.members, id);
      assert s.teams[teamId := team] == s.teams;
      assert team.(members := team.members) == team;
    }
  }

  function MemberEntry(id: string): Json {
    JObject(map["value" := JString(id)])
  }

  lemma SinglePatch(users: map<string, ScimUser>, team: ScimTeam, op: PatchOperation)
    ensures TeamPatch.ApplyAll(users, team, [op]) == TeamPatch.ApplyOperation(users, team, op)
  {
    assert [op][..0] == [];
  }

  // ----- deleted users ------------------------------------------------------------------------

  /** The membership report: members that still exist, in order, cut to the limit, with an offset
      exactly when something was cut. */
  lemma ReportIsProjection(s: Store, teamId: string, limitParam: string)
    requires teamId in s.teams && WellFormed(s)
    ensures var page := Memberships(s, teamId, limitParam).body;
            var present := Present(s.users, s.teams[teamId].members);
            var limit := Limit(limitParam);
            && |page.data| == (if |present| <= limit then |present| else limit)
            && (forall i | 0 <= i < |page.data| ::
                 var id := present[i].value;
                 && id in s.users
                 && page.data[i] == Membership("tm-" + teamId + "-" + id, id, s.users[id].name.formatted,
                                               s.users[id].userName, teamId, s.teams[teamId].displayName))
            && (page.offset != "" <==> |present| > limit)
            && (page.offset != "" ==> Atoi(page.offset) == Some(limit))
  {
    var present := Present(s.users, s.teams[teamId].members);
    PresentMembers(s.users, s.teams[teamId].members);
    assert forall i | 0 <= i < |present| :: present[i] in present;
    AtoiItoa(Limit(limitParam));
  }

  /** No request of the run is one that is answered by allocating this id. */
  predicate NeverAllocates(s: Store, rs: seq<Request>, id: string)
    decreases |rs|
  {
    rs == []
    || (!(Creates(s, rs[0]) && NextId(s.users) == id) && NeverAllocates(Next(s, rs[0]), rs[1..], id))
  }

  lemma AbsentOneStep(s: Store, r: Request, id: string)
    requires id !in s.users
    ensures id in Next(s, r).users <==> Creates(s, r) && NextId(s.users) == id
  {
    OneEntryChanges(s, r);
    if Creates(s, r) {
      CreationTakesNextId(s, r);
    }
  }

  /** An id that is absent stays absent all through a run exactly when the run never allocates it. */
  lemma {:induction false} StaysAbsent(s: Store, rs: seq<Request>, id: string)
    requires id !in s.users
    ensures NeverAllocates(s, rs, id) <==> forall i | 0 <= i <= |rs| :: id !in Run(s, rs[..i]).users
    decreases |rs|
  {
    if rs != [] {
      var next := Next(s, rs[0]);
      AbsentOneStep(s, rs[0], id);
      forall i | 0 < i <= |rs| ensures Run(s, rs[..i]) == Run(next, rs[1..][..i - 1]) {
        assert rs[..i][1..] == rs[1..][..i - 1];
      }
      hide Next, Creates, Run;
      if id in next.users {
        assert rs[1..][..0] == [] && Run(s, rs[..1]) == Run(next, []);
      } else {
        StaysAbsent(next, rs[1..], id);
        assert Run(s, rs[..0]) == s;
        assert (forall i | 0 <= i <= |rs| :: id !in Run(s, rs[..i]).users)
          <==> (forall i | 0 <= i <= |rs[1..]| :: id !in Run(next, rs[1..][..i]).users) by {
          assert forall i | 0 <= i <= |rs[1..]| :: Run(next, rs[1..][..i]) == Run(s, rs[..i + 1]);
        }
      }
    }
  }

  /** A deleted user is reported in no team after any further run that does not allocate the id
      again, although deleting leaves every member list as it is. */
  lemma DeletedIsNotReported(s: Store, id: string, rs: seq<Request>, teamId: string, limitParam: string)
    requires WellFormed(s) && NeverAllocates(Next(s, RDeleteUser(id)), rs, id)
    ensures Next(s, RDeleteUser(id)).teams == s.teams
    ensures var page := Memberships(Run(Next(s, RDeleteUser(id)), rs), teamId, limitParam);
            page.Success? ==> forall m | m in page.body.data :: m.userGid != id
  {
    var d := Next(s, RDeleteUser(id));
    var t := Run(d, rs);
    StepKeepsWellFormed(s, RDeleteUser(id));
    StaysWellFormed(d, rs);
    StaysAbsent(d, rs, id);
    assert rs[..|rs|] == rs;
    if teamId in t.teams {
      ReportIsProjection(t, teamId, limitParam);
      var data := Memberships(t, teamId, limitParam).body.data;
      forall m | m in data ensures m.userGid != id {
        var i :| 0 <= i < |data| && data[i] == m;
      }
    }
  }
}
