/** License operations on the same user that do overlap: when a write overwrites an enterprise
    license, and what no interleaving can do. */
module Overlap {
  import opened Text
  import opened Scim
  import opened Directory
  import opened License
  import opened Interleaving
  import Runs
  import UserPatch

  // ----- a schedule that downgrades -----------------------------------------------------------

  /** With overlap the no-downgrade rule fails: a view-only Grant that has read "no license" writes
      after an enterprise Grant, while both sequential orders end with enterprise. */
  lemma OverlapCanDowngrade(s: Store, user: string)
    requires user in s.users && s.users[user].userType == ""
    ensures var view, full := Operation(Grant, user, LICENSE_VIEW_ONLY), Operation(Grant, user, LICENSE_ENTERPRISE);
            var events := [ReadStep(0), ReadStep(1), WriteStep(1), WriteStep(0)];
            && Schedule(s, [view, full], events)
            && Exec(s, [view, full], events) == Config(WithType(s, user, LICENSE_VIEW_ONLY), {0, 1}, map[])
            && RunAll(s, [view, full]) == RunAll(s, [full, view]) == WithType(s, user, LICENSE_ENTERPRISE)
  {
    var view, full := Operation(Grant, user, LICENSE_VIEW_ONLY), Operation(Grant, user, LICENSE_ENTERPRISE);
    var ops := [view, full];
    var events := [ReadStep(0), ReadStep(1), WriteStep(1), WriteStep(0)];
    DowngradeSteps(s, ops, user);
    assert events[..0] == [];
    forall i | 0 <= i < 4 { ExecSnoc(s, ops, events, i); }
    assert events[..1] == [ReadStep(0)];
    assert events[..4] == events;
    GrantsInAnyOrder(s, view, full, user);
  }

  function WithType(s: Store, user: string, license: string): Store
    requires user in s.users
  {
    s.(users := s.users[user := s.users[user].(userType := license)])
  }

  lemma DowngradeSteps(s: Store, ops: seq<Operation>, user: string)
    requires user in s.users && s.users[user].userType == ""
    requires ops == [Operation(Grant, user, LICENSE_VIEW_ONLY), Operation(Grant, user, LICENSE_ENTERPRISE)]
    ensures var view, full := LicensePatch(LICENSE_VIEW_ONLY), LicensePatch(LICENSE_ENTERPRISE);
            var c1 := Config(s, {0}, map[0 := view]);
            var c2 := Config(s, {0, 1}, map[0 := view, 1 := full]);
            var c3 := Config(WithType(s, user, LICENSE_ENTERPRISE), {0, 1}, map[0 := view]);
            var c4 := Config(WithType(s, user, LICENSE_VIEW_ONLY), {0, 1}, map[]);
            && Enabled(Start(s), ops, ReadStep(0)) && Step(Start(s), ops, ReadStep(0)) == c1
            && Enabled(c1, ops, ReadStep(1)) && Step(c1, ops, ReadStep(1)) == c2
            && Enabled(c2, ops, WriteStep(1)) && Step(c2, ops, WriteStep(1)) == c3
            && Enabled(c3, ops, WriteStep(0)) && Step(c3, ops, WriteStep(0)) == c4
  {
    assert |LICENSE_ENTERPRISE| == 10 && |LICENSE_VIEW_ONLY| == 9;
    var view, full := LicensePatch(LICENSE_VIEW_ONLY), LicensePatch(LICENSE_ENTERPRISE);
    PatchEffect(s.users[user]);
    PatchEffect(WithType(s, user, LICENSE_ENTERPRISE).users[user]);
    assert (map[0 := view, 1 := full]) - {1} == map[0 := view];
    assert (map[0 := view]) - {0} == map[];
    assert map[0 := view][1 := full] == map[0 := view, 1 := full];
    var e := WithType(s, user, LICENSE_ENTERPRISE);
    assert e.users[user := e.users[user].(userType := LICENSE_VIEW_ONLY)] == WithType(s, user, LICENSE_VIEW_ONLY).users;
  }

  lemma GrantsInAnyOrder(s: Store, view: Operation, full: Operation, user: string)
    requires user in s.users && s.users[user].userType == ""
    requires view == Operation(Grant, user, LICENSE_VIEW_ONLY) && full == Operation(Grant, user, LICENSE_ENTERPRISE)
    ensures RunAll(s, [view, full]) == RunAll(s, [full, view]) == WithType(s, user, LICENSE_ENTERPRISE)
  {
    assert |LICENSE_ENTERPRISE| == 10 && |LICENSE_VIEW_ONLY| == 9;
    RunTwo(s, view, full);
    RunTwo(s, full, view);
    var v, e := WithType(s, user, LICENSE_VIEW_ONLY), WithType(s, user, LICENSE_ENTERPRISE);
    ApplyIsEffect(s, view);
    ApplyIsEffect(v, full);
    ApplyIsEffect(s, full);
    ApplyIsEffect(e, view);
    assert v.users[user := e.users[user]] == e.users;
    assert e.users[user := e.users[user]] == e.users;
  }

  lemma RunTwo(s: Store, a: Operation, b: Operation)
    ensures RunAll(s, [a, b]) == Apply(Apply(s, a).0, b).0
  {
    assert [a, b][..1] == [a] && [a][..0] == [];
    assert RunAll(s, [a]) == Apply(RunAll(s, []), a).0;
  }

  lemma ExecSnoc(s: Store, ops: seq<Operation>, events: seq<Event>, i: nat)
    requires i < |events|
    ensures var c := Exec(s, ops, events[..i]);
            Exec(s, ops, events[..i + 1]) == if Enabled(c, ops, events[i]) then Step(c, ops, events[i]) else c
  {
    assert events[..i + 1][..i] == events[..i];
  }

  // ----- with overlap: when enterprise is overwritten -----------------------------------------

  /** The patch an operation sends, whatever it has read. */
  predicate Dictated(op: Operation, patch: seq<PatchOperation>) {
    match op.verb
    case Grant => Known(op.license) && patch == LicensePatch(op.license)
    case Revoke =>
      || (op.license == LICENSE_ENTERPRISE && patch == LicensePatch(LICENSE_VIEW_ONLY))
      || (op.license == LICENSE_VIEW_ONLY && patch == DEACTIVATE_PATCH)
  }

  lemma {:induction false} PendingIsDictated(s: Store, ops: seq<Operation>, events: seq<Event>)
    ensures var c := Exec(s, ops, events);
            && c.pending.Keys <= c.started
            && forall n | n in c.pending :: n < |ops| && Dictated(ops[n], c.pending[n])
  {
    if events != [] {
      PendingIsDictated(s, ops, events[..|events| - 1]);
    }
  }

  predicate Writes(ops: seq<Operation>, e: Event, user: string) {
    e.WriteStep? && e.n < |ops| && ops[e.n].user == user
  }

  /** Between `r` and `i` an enterprise Grant has written, and after it nobody but revocations of the
      view-only license, which leave the type alone. */
  predicate EnterpriseWritten(ops: seq<Operation>, events: seq<Event>, user: string, r: nat, i: nat)
    requires i <= |events|
  {
    exists j :: r < j < i && Writes(ops, events[j], user) && LastTypeWrite(ops, events, user, j, i)
  }

  predicate LastTypeWrite(ops: seq<Operation>, events: seq<Event>, user: string, j: nat, i: nat)
    requires j < i <= |events| && Writes(ops, events[j], user)
  {
    && ops[events[j].n] == Operation(Grant, user, LICENSE_ENTERPRISE)
    && forall k | j < k < i && Writes(ops, events[k], user) ::
         ops[events[k].n] == Operation(Revoke, user, LICENSE_VIEW_ONLY)
  }

  lemma OneMoreEvent(ops: seq<Operation>, events: seq<Event>, user: string, r: nat, m: nat)
    requires r <= m < |events| && events[r].ReadStep?
    ensures EnterpriseWritten(ops, events, user, r, m + 1)
            <==> if !Writes(ops, events[m], user) then EnterpriseWritten(ops, events, user, r, m)
                 else
                   || ops[events[m].n] == Operation(Grant, user, LICENSE_ENTERPRISE)
                   || (ops[events[m].n] == Operation(Revoke, user, LICENSE_VIEW_ONLY)
                       && EnterpriseWritten(ops, events, user, r, m))
  {
    if EnterpriseWritten(ops, events, user, r, m) {
      var j :| r < j < m && Writes(ops, events[j], user) && LastTypeWrite(ops, events, user, j, m);
      assert LastTypeWrite(ops, events, user, j, m + 1)
        <==> Writes(ops, events[m], user) ==> ops[events[m].n] == Operation(Revoke, user, LICENSE_VIEW_ONLY);
    }
    if EnterpriseWritten(ops, events, user, r, m + 1) {
      var j :| r < j < m + 1 && Writes(ops, events[j], user) && LastTypeWrite(ops, events, user, j, m + 1);
      assert j < m ==> LastTypeWrite(ops, events, user, j, m);
    }
    if Writes(ops, events[m], user) && ops[events[m].n] == Operation(Grant, user, LICENSE_ENTERPRISE) {
      assert LastTypeWrite(ops, events, user, m, m + 1);
    }
  }

  /** What one event does to the type of a user. */
  lemma TypeStep(c: Config, ops: seq<Operation>, e: Event, user: string)
    requires Enabled(c, ops, e) && user in c.store.users
    requires forall n | n in c.pending :: n < |ops| && Dictated(ops[n], c.pending[n])
    requires e.RequestStep? ==> Runs.PlaceOf(c.store, e.request) != Runs.UserAt(user)
    ensures var d := Step(c, ops, e);
            && user in d.store.users
            && (d.store.users[user].userType == LICENSE_ENTERPRISE
                <==> if !Writes(ops, e, user) then c.store.users[user].userType == LICENSE_ENTERPRISE
                     else
                       || ops[e.n] == Operation(Grant, user, LICENSE_ENTERPRISE)
                       || (ops[e.n] == Operation(Revoke, user, LICENSE_VIEW_ONLY)
                           && c.store.users[user].userType == LICENSE_ENTERPRISE))
  {
    assert |LICENSE_ENTERPRISE| == 10 && |LICENSE_VIEW_ONLY| == 9;
    match e
    case ReadStep(_) =>
    case WriteStep(n) => PatchEffect(c.store.users[user]);
    case RequestStep(r) =>
      Runs.OneEntryChanges(c.store, r);
      if Runs.PlaceOf(c.store, r).UserAt? {
        Runs.OneEntryPointwise(c.store.users, Runs.Next(c.store, r).users, Runs.PlaceOf(c.store, r).id, user);
      }
  }

  /** No request writes this user between two points of the schedule. */
  predicate RequestsElsewhere(s: Store, ops: seq<Operation>, events: seq<Event>, user: string, r: nat, i: nat)
    requires i <= |events|
  {
    forall k | r < k < i && events[k].RequestStep? ::
      Runs.PlaceOf(Exec(s, ops, events[..k]).store, events[k].request) != Runs.UserAt(user)
  }

  lemma {:induction false} TypeSince(s: Store, ops: seq<Operation>, events: seq<Event>, user: string, r: nat, i: nat)
    requires Schedule(s, ops, events) && r <= i <= |events| && r < |events| && events[r].ReadStep?
    requires RequestsElsewhere(s, ops, events, user, r, i)
    requires var u := Read(Exec(s, ops, events[..r]).store, user);
             u.Some? && u.value.userType != LICENSE_ENTERPRISE
    ensures var v := Read(Exec(s, ops, events[..i]).store, user);
            v.Some? && (v.value.userType == LICENSE_ENTERPRISE <==> EnterpriseWritten(ops, events, user, r, i))
    decreases i
  {
    hide Step, Dictated, LastTypeWrite, Exec, Enabled;
    if r < i {
      var m := i - 1;
      var c := Exec(s, ops, events[..m]);
      TypeSince(s, ops, events, user, r, m);
      ExecSnoc(s, ops, events, m);
      assert Enabled(c, ops, events[m]);
      PendingIsDictated(s, ops, events[..m]);
      TypeStep(c, ops, events[m], user);
      OneMoreEvent(ops, events, user, r, m);
    }
  }

  lemma {:induction false} StaysStarted(s: Store, ops: seq<Operation>, events: seq<Event>, n: nat, r: nat, i: nat)
    requires r <= i <= |events| && n in Exec(s, ops, events[..r]).started
    ensures n in Exec(s, ops, events[..i]).started
    ensures n in Exec(s, ops, events[..i]).pending ==> n in Exec(s, ops, events[..r]).pending
    decreases i
  {
    if r < i {
      StaysStarted(s, ops, events, n, r, i - 1);
      ExecSnoc(s, ops, events, i - 1);
    }
  }

  /** The write of a view-only Grant overwrites an enterprise license exactly when, since it read, an
      enterprise Grant on the same user has written and no later write has changed the type. */
  lemma DowngradeExactly(s: Store, ops: seq<Operation>, events: seq<Event>, n: nat, user: string, r: nat, i: nat)
    requires Schedule(s, ops, events) && r < |events| && i < |events| && n < |ops|
    requires ops[n] == Operation(Grant, user, LICENSE_VIEW_ONLY)
    requires events[r] == ReadStep(n) && events[i] == WriteStep(n)
    requires RequestsElsewhere(s, ops, events, user, r, i)
    ensures r < i
    ensures var u := Read(Exec(s, ops, events[..i]).store, user);
            u.Some? && (u.value.userType == LICENSE_ENTERPRISE <==> EnterpriseWritten(ops, events, user, r, i))
  {
    assert Enabled(Exec(s, ops, events[..r]), ops, events[r]) && Enabled(Exec(s, ops, events[..i]), ops, events[i]);
    PendingIsDictated(s, ops, events[..i]);
    if i < r {
      StaysStarted(s, ops, events, n, i, r);
    }
    ExecSnoc(s, ops, events, r);
    StaysStarted(s, ops, events, n, r + 1, i);
    PendingIsDictated(s, ops, events[..r]);
    TypeSince(s, ops, events, user, r, i);
  }

  // ----- with any overlap ---------------------------------------------------------------------

  predicate LicensePatchOnly(patch: seq<PatchOperation>) {
    patch == LicensePatch(LICENSE_ENTERPRISE) || patch == LicensePatch(LICENSE_VIEW_ONLY) || patch == DEACTIVATE_PATCH
  }

  /** How far any interleaving can move a user: a known type stays known, an inactive user stays
      inactive, nothing else changes. */
  predicate Drifts(u: ScimUser, v: ScimUser) {
    && (Known(u.userType) ==> Known(v.userType))
    && (v.active ==> u.active)
    && v == u.(active := v.active, userType := v.userType)
  }

  lemma DriftsOn(u: ScimUser, v: ScimUser, w: ScimUser)
    ensures Drifts(u, v) && Drifts(v, w) ==> Drifts(u, w)
    ensures Drifts(u, u)
  {
  }

  lemma StepDrifts(c: Config, ops: seq<Operation>, e: Event)
    requires Enabled(c, ops, e) && !e.RequestStep? && forall n | n in c.pending :: LicensePatchOnly(c.pending[n])
    ensures var d := Step(c, ops, e);
            && d.store.teams == c.store.teams && d.store.users.Keys == c.store.users.Keys
            && (forall id | id in c.store.users :: Drifts(c.store.users[id], d.store.users[id]))
            && (forall n | n in d.pending :: LicensePatchOnly(d.pending[n]))
  {
    if e.WriteStep? && ops[e.n].user in c.store.users {
      PatchEffect(c.store.users[ops[e.n].user]);
    }
  }

  lemma {:induction false} AnyInterleaving(s: Store, ops: seq<Operation>, events: seq<Event>)
    requires Schedule(s, ops, events) && LicenseOnly(events)
    ensures var c := Exec(s, ops, events);
            && c.store.teams == s.teams && c.store.users.Keys == s.users.Keys
            && (forall id | id in s.users :: Drifts(s.users[id], c.store.users[id]))
            && (forall n | n in c.pending :: LicensePatchOnly(c.pending[n]))
  {
    hide Step, Enabled, Drifts, LicensePatchOnly;
    if events != [] {
      var front, e := events[..|events| - 1], events[|events| - 1];
      var c := Exec(s, ops, front);
      FrontOfSchedule(s, ops, events);
      AnyInterleaving(s, ops, front);
      StepDrifts(c, ops, e);
      forall id | id in s.users ensures Drifts(s.users[id], Step(c, ops, e).store.users[id]) {
        DriftsOn(s.users[id], c.store.users[id], Step(c, ops, e).store.users[id]);
      }
    } else {
      forall id | id in s.users { DriftsOn(s.users[id], s.users[id], s.users[id]); }
    }
  }
}
