/** License operations that run at the same time as each other and as other requests: each reads
    the user in one step and sends its patch, if it has one, in a later step. */
module Interleaving {
  import opened Text
  import opened Scim
  import opened Directory
  import opened License
  import Runs
  import TeamPatch
  import UserPatch

  /** A step of the operation with the given number, or a whole request of some other client. */
  datatype Event = ReadStep(n: nat) | WriteStep(n: nat) | RequestStep(request: Runs.Request)

  datatype Config = Config(store: Store, started: set<nat>, pending: map<nat, seq<PatchOperation>>)

  predicate Enabled(c: Config, ops: seq<Operation>, e: Event) {
    match e
    case ReadStep(n) => n < |ops| && n !in c.started
    case WriteStep(n) => n < |ops| && n in c.pending
    case RequestStep(_) => true
  }

  function Step(c: Config, ops: seq<Operation>, e: Event): Config
    requires Enabled(c, ops, e)
  {
    match e
    case ReadStep(n) =>
      var started := c.started + {n};
      (match Decide(ops[n], Read(c.store, ops[n].user))
       case Answer(_) => c.(started := started)
       case Patch(patch) => c.(started := started, pending := c.pending[n := patch]))
    case WriteStep(n) =>
      c.(store := PatchUser(c.store, ops[n].user, c.pending[n]).0, pending := c.pending - {n})
    case RequestStep(r) => c.(store := Runs.Next(c.store, r))
  }

  function Start(s: Store): Config {
    Config(s, {}, map[])
  }

  /** Steps that are not enabled do nothing; schedules do not contain them. */
  function Exec(s: Store, ops: seq<Operation>, events: seq<Event>): Config {
    if events == [] then Start(s)
    else
      var c := Exec(s, ops, events[..|events| - 1]);
      var e := events[|events| - 1];
      if Enabled(c, ops, e) then Step(c, ops, e) else c
  }

  predicate Schedule(s: Store, ops: seq<Operation>, events: seq<Event>) {
    forall i | 0 <= i < |events| :: Enabled(Exec(s, ops, events[..i]), ops, events[i])
  }

  /** No pending operation is on this user. */
  predicate Idle(c: Config, ops: seq<Operation>, id: string) {
    forall n | n in c.pending && n < |ops| :: ops[n].user != id
  }

  predicate NoneOverlapped(c: Config, ops: seq<Operation>, e: Event) {
    match e
    case ReadStep(n) => n < |ops| ==> Idle(c, ops, ops[n].user)
    case WriteStep(_) => true
    case RequestStep(r) => Runs.PlaceOf(c.store, r).UserAt? ==> Idle(c, ops, Runs.PlaceOf(c.store, r).id)
  }

  /** While an operation still has to write, no other one on the same user starts and no request
      writes that user; requests on other users and on teams are free to come in between. */
  predicate NonOverlapping(s: Store, ops: seq<Operation>, events: seq<Event>) {
    forall i | 0 <= i < |events| :: NoneOverlapped(Exec(s, ops, events[..i]), ops, events[i])
  }

  /** The sequential run: every operation is done as a whole where it reads, every request where it
      stands. */
  function Serial(s: Store, ops: seq<Operation>, events: seq<Event>): Store {
    if events == [] then s
    else
      var before := Serial(s, ops, events[..|events| - 1]);
      match events[|events| - 1]
      case ReadStep(n) => if n < |ops| then Apply(before, ops[n]).0 else before
      case WriteStep(_) => before
      case RequestStep(r) => Runs.Next(before, r)
  }

  predicate LicenseOnly(events: seq<Event>) {
    forall e | e in events :: !e.RequestStep?
  }

  /** The operations in the order of their reads. */
  function Order(ops: seq<Operation>, events: seq<Event>): seq<Operation> {
    if events == [] then []
    else
      var rest := Order(ops, events[..|events| - 1]);
      var e := events[|events| - 1];
      if e.ReadStep? && e.n < |ops| then rest + [ops[e.n]] else rest
  }

  lemma {:induction false} SerialIsRunInOrder(s: Store, ops: seq<Operation>, events: seq<Event>)
    requires LicenseOnly(events)
    ensures Serial(s, ops, events) == RunAll(s, Order(ops, events))
  {
    hide Apply;
    if events != [] {
      var front, e := events[..|events| - 1], events[|events| - 1];
      var rest := Order(ops, front);
      SerialIsRunInOrder(s, ops, front);
      assert e in events;
      if e.ReadStep? && e.n < |ops| {
        assert (rest + [ops[e.n]])[..|rest|] == rest;
      }
    }
  }

  lemma FrontOfSchedule(s: Store, ops: seq<Operation>, events: seq<Event>)
    requires events != [] && Schedule(s, ops, events)
    ensures var front := events[..|events| - 1];
            && Schedule(s, ops, front)
            && Enabled(Exec(s, ops, front), ops, events[|events| - 1])
            && (NonOverlapping(s, ops, events) ==>
                  NonOverlapping(s, ops, front) && NoneOverlapped(Exec(s, ops, front), ops, events[|events| - 1]))
  {
    var front := events[..|events| - 1];
    assert forall i | 0 <= i < |front| :: front[..i] == events[..i] && front[i] == events[i];
    assert Enabled(Exec(s, ops, events[..|front|]), ops, events[|front|]);
  }

  /** The order of the reads names every started operation exactly once. */
  lemma {:induction false} OrderIsRearrangement(s: Store, ops: seq<Operation>, events: seq<Event>)
      returns (at: seq<nat>)
    requires Schedule(s, ops, events)
    ensures |at| == |Order(ops, events)|
    ensures forall k | 0 <= k < |at| :: at[k] < |ops| && Order(ops, events)[k] == ops[at[k]]
    ensures forall j, k | 0 <= j < k < |at| :: at[j] != at[k]
    ensures forall n :: n in at <==> n in Exec(s, ops, events).started
  {
    at := [];
    if events != [] {
      FrontOfSchedule(s, ops, events);
      at := OrderIsRearrangement(s, ops, events[..|events| - 1]);
      if events[|events| - 1].ReadStep? {
        at := at + [events[|events| - 1].n];
      }
    }
  }

  // ----- without overlap: the sequential run --------------------------------------------------

  /** The pending operation still sees the user it has read. */
  predicate Fresh(c: Config, ops: seq<Operation>, n: nat)
    requires n in c.pending
  {
    && n < |ops|
    && ops[n].user in c.store.users
    && Decide(ops[n], Some(c.store.users[ops[n].user])) == Patch(c.pending[n])
  }

  predicate OnePerUser(pending: map<nat, seq<PatchOperation>>, ops: seq<Operation>) {
    forall m, n | m in pending && n in pending && m < |ops| && n < |ops| && ops[m].user == ops[n].user :: m == n
  }

  lemma OneMore(c: Config, ops: seq<Operation>, n: nat, patch: seq<PatchOperation>)
    requires OnePerUser(c.pending, ops) && n < |ops| && Idle(c, ops, ops[n].user)
    ensures OnePerUser(c.pending[n := patch], ops)
  {
  }

  lemma OneFewer(pending: map<nat, seq<PatchOperation>>, ops: seq<Operation>, n: nat)
    requires OnePerUser(pending, ops) && n in pending && n < |ops|
    ensures OnePerUser(pending - {n}, ops)
    ensures forall m | m in pending - {n} && m < |ops| :: ops[m].user != ops[n].user
  {
  }

  /** `v` is the store with every pending patch already applied. */
  predicate Settles(c: Config, ops: seq<Operation>, v: Store) {
    && c.pending.Keys <= c.started
    && v.teams == c.store.teams
    && v.users.Keys == c.store.users.Keys
    && (forall n | n in c.pending :: Fresh(c, ops, n) && SettlesOne(c, ops, v, n))
    && OnePerUser(c.pending, ops)
    && (forall id | id in v.users && Idle(c, ops, id) :: v.users[id] == c.store.users[id])
  }

  predicate SettlesOne(c: Config, ops: seq<Operation>, v: Store, n: nat)
    requires n in c.pending && Fresh(c, ops, n) && v.users.Keys == c.store.users.Keys
  {
    v.users[ops[n].user] == UserPatch.ApplyAll(c.store.users[ops[n].user], c.pending[n])
  }

  lemma AddPending(c: Config, ops: seq<Operation>, n: nat, patch: seq<PatchOperation>, v: Store)
    requires Settles(c, ops, v) && n < |ops| && n !in c.pending
    requires ops[n].user in v.users && Idle(c, ops, ops[n].user)
    requires Decide(ops[n], Some(c.store.users[ops[n].user])) == Patch(patch)
    ensures var user := ops[n].user;
            Settles(c.(started := c.started + {n}, pending := c.pending[n := patch]), ops,
                    v.(users := v.users[user := UserPatch.ApplyAll(v.users[user], patch)]))
  {
    hide Decide, UserPatch.ApplyAll, OnePerUser;
    OneMore(c, ops, n, patch);
    var user := ops[n].user;
    var d := c.(started := c.started + {n}, pending := c.pending[n := patch]);
    var w := v.(users := v.users[user := UserPatch.ApplyAll(v.users[user], patch)]);
    assert w.users.Keys == v.users.Keys;
    forall m | m in d.pending ensures Fresh(d, ops, m) && SettlesOne(d, ops, w, m) {
      if m != n {
        assert Fresh(c, ops, m) && SettlesOne(c, ops, v, m);
      }
    }
    forall id | id in w.users && Idle(d, ops, id) ensures w.users[id] == d.store.users[id] {
      assert n in d.pending;
      assert forall m | m in c.pending :: m in d.pending;
      assert Idle(c, ops, id);
    }
  }

  lemma ReadSettles(c: Config, ops: seq<Operation>, n: nat, v: Store)
    requires Settles(c, ops, v) && Enabled(c, ops, ReadStep(n)) && NoneOverlapped(c, ops, ReadStep(n))
    ensures Settles(Step(c, ops, ReadStep(n)), ops, Apply(v, ops[n]).0)
    ensures Decide(ops[n], Read(c.store, ops[n].user)) == Decide(ops[n], Read(v, ops[n].user))
  {
    var user := ops[n].user;
    assert Idle(c, ops, user);
    assert Read(c.store, user) == Read(v, user);
    match Decide(ops[n], Read(c.store, user))
    case Answer(_) => StartedOnly(c, ops, n, v);
    case Patch(patch) => AddPending(c, ops, n, patch, v);
  }

  lemma StartedOnly(c: Config, ops: seq<Operation>, n: nat, v: Store)
    requires Settles(c, ops, v)
    ensures Settles(c.(started := c.started + {n}), ops, v)
  {
    var d := c.(started := c.started + {n});
    forall m | m in d.pending ensures Fresh(d, ops, m) && SettlesOne(d, ops, v, m) {
      assert Fresh(c, ops, m) && SettlesOne(c, ops, v, m);
    }
    forall id | id in v.users && Idle(d, ops, id) ensures v.users[id] == d.store.users[id] {
      assert Idle(c, ops, id);
    }
  }

  lemma WriteSettles(c: Config, ops: seq<Operation>, n: nat, v: Store)
    requires Settles(c, ops, v) && Enabled(c, ops, WriteStep(n))
    ensures Settles(Step(c, ops, WriteStep(n)), ops, v)
  {
    var user := ops[n].user;
    assert Fresh(c, ops, n) && SettlesOne(c, ops, v, n);
    OneFewer(c.pending, ops, n);
    hide Decide, UserPatch.ApplyAll, OnePerUser;
    var d := c.(store := c.store.(users := c.store.users[user := v.users[user]]), pending := c.pending - {n});
    assert Step(c, ops, WriteStep(n)) == d;
    assert d.store.users.Keys == c.store.users.Keys;
    forall m | m in d.pending ensures Fresh(d, ops, m) && SettlesOne(d, ops, v, m) {
      assert m in c.pending && m != n && Fresh(c, ops, m) && SettlesOne(c, ops, v, m);
    }
    forall id | id in v.users && Idle(d, ops, id) ensures v.users[id] == d.store.users[id] {
      if id != user {
        assert forall m | m in c.pending :: m == n || m in d.pending;
        assert Idle(c, ops, id);
      }
    }
  }

  // ----- requests that come in between --------------------------------------------------------

  /** Two stores that differ in nothing a request looks at, other than the user it writes. */
  predicate Alike(a: Store, b: Store) {
    && a.teams == b.teams
    && a.users.Keys == b.users.Keys
    && forall id | id in a.users ::
         a.users[id].name == b.users[id].name && a.users[id].userName == b.users[id].userName
  }

  lemma SettlesAlike(c: Config, ops: seq<Operation>, v: Store)
    requires Settles(c, ops, v)
    ensures Alike(c.store, v)
  {
    hide Decide, UserPatch.ApplyAll, OnePerUser;
    forall id | id in c.store.users
      ensures c.store.users[id].name == v.users[id].name && c.store.users[id].userName == v.users[id].userName
    {
      if n :| n in c.pending && n < |ops| && ops[n].user == id {
        assert Fresh(c, ops, n) && SettlesOne(c, ops, v, n);
        DecidedPatch(ops[n], c.store.users[id], c.pending[n]);
      } else {
        assert Idle(c, ops, id);
      }
    }
  }

  lemma DecidedPatch(op: Operation, u: ScimUser, patch: seq<PatchOperation>)
    requires Decide(op, Some(u)) == Patch(patch)
    ensures var v := UserPatch.ApplyAll(u, patch);
            v.name == u.name && v.userName == u.userName
  {
    PatchEffect(u);
  }

  lemma {:induction false} PatchAlike(a: Store, b: Store, team: ScimTeam, ops: seq<PatchOperation>)
    requires Alike(a, b)
    ensures TeamPatch.ApplyAll(a.users, team, ops) == TeamPatch.ApplyAll(b.users, team, ops)
  {
    if ops != [] {
      PatchAlike(a, b, team, ops[..|ops| - 1]);
      forall ids ensures TeamPatch.NewMembers(a.users, ids) == TeamPatch.NewMembers(b.users, ids) {
        assert forall id: string :: TeamPatch.NewMember(a.users, id) == TeamPatch.NewMember(b.users, id);
      }
    }
  }

  lemma TeamRequestAlike(a: Store, b: Store, r: Runs.Request)
    requires Alike(a, b) && Runs.PlaceOf(a, r).TeamAt?
    ensures Runs.Next(a, r).teams == Runs.Next(b, r).teams
  {
    if r.RPatchTeam? && r.id in a.teams {
      PatchAlike(a, b, a.teams[r.id], r.ops);
    }
  }

  predicate SameAt(a: map<string, ScimUser>, b: map<string, ScimUser>, id: string) {
    (id in a <==> id in b) && (id in a ==> a[id] == b[id])
  }

  lemma UserRequestAlike(a: Store, b: Store, r: Runs.Request)
    requires Alike(a, b) && Runs.PlaceOf(a, r).UserAt?
    requires SameAt(a.users, b.users, Runs.PlaceOf(a, r).id)
    ensures Runs.PlaceOf(b, r) == Runs.PlaceOf(a, r)
    ensures SameAt(Runs.Next(a, r).users, Runs.Next(b, r).users, Runs.PlaceOf(a, r).id)
  {
    assert |a.users.Keys| == |a.users| && |b.users.Keys| == |b.users|;
    assert forall name :: NameTaken(a.users, name) <==> NameTaken(b.users, name);
  }

  lemma RequestSettles(c: Config, ops: seq<Operation>, r: Runs.Request, v: Store)
    requires Settles(c, ops, v) && NoneOverlapped(c, ops, RequestStep(r))
    ensures Settles(c.(store := Runs.Next(c.store, r)), ops, Runs.Next(v, r))
  {
    hide Runs.Next, Runs.SameBut, Settles;
    SettlesAlike(c, ops, v);
    Runs.OneEntryChanges(c.store, r);
    Runs.OneEntryChanges(v, r);
    match Runs.PlaceOf(c.store, r)
    case TeamAt(_) =>
      TeamRequestAlike(c.store, v, r);
      OtherTeamsSettle(c, ops, v, Runs.Next(v, r).teams);
    case UserAt(id) =>
      IdleSettles(c, ops, v, id);
      UserRequestAlike(c.store, v, r);
      forall k: string | k != id
        ensures SameAt(c.store.users, Runs.Next(c.store, r).users, k) && SameAt(v.users, Runs.Next(v, r).users, k)
      {
        Runs.OneEntryPointwise(c.store.users, Runs.Next(c.store, r).users, id, k);
        Runs.OneEntryPointwise(v.users, Runs.Next(v, r).users, id, k);
      }
      ElsewhereSettles(c, ops, v, id, Runs.Next(c.store, r), Runs.Next(v, r));
  }

  lemma IdleSettles(c: Config, ops: seq<Operation>, v: Store, id: string)
    requires Settles(c, ops, v) && Idle(c, ops, id)
    ensures SameAt(c.store.users, v.users, id)
  {
  }

  lemma OtherTeamsSettle(c: Config, ops: seq<Operation>, v: Store, teams: map<string, ScimTeam>)
    requires Settles(c, ops, v)
    ensures Settles(c.(store := c.store.(teams := teams)), ops, v.(teams := teams))
  {
    hide Decide, UserPatch.ApplyAll, OnePerUser;
    var d := c.(store := c.store.(teams := teams));
    forall n | n in d.pending ensures Fresh(d, ops, n) && SettlesOne(d, ops, v.(teams := teams), n) {
      assert Fresh(c, ops, n) && SettlesOne(c, ops, v, n);
    }
    forall id | id in v.users && Idle(d, ops, id) ensures v.users[id] == d.store.users[id] {
      assert Idle(c, ops, id);
    }
  }

  /** A change of one idle user, the same on both sides, keeps the invariant. */
  lemma ElsewhereSettles(c: Config, ops: seq<Operation>, v: Store, id: string, store: Store, w: Store)
    requires Settles(c, ops, v) && Idle(c, ops, id)
    requires store.teams == c.store.teams && w.teams == v.teams
    requires forall k: string | k != id :: SameAt(c.store.users, store.users, k) && SameAt(v.users, w.users, k)
    requires SameAt(store.users, w.users, id)
    ensures Settles(c.(store := store), ops, w)
  {
    hide Decide, UserPatch.ApplyAll, OnePerUser;
    var d := c.(store := store);
    forall k: string ensures k in w.users.Keys <==> k in store.users.Keys {
      assert k != id ==> SameAt(c.store.users, store.users, k) && SameAt(v.users, w.users, k);
    }
    forall n | n in d.pending ensures Fresh(d, ops, n) && SettlesOne(d, ops, w, n) {
      assert Fresh(c, ops, n) && SettlesOne(c, ops, v, n);
      assert SameAt(c.store.users, store.users, ops[n].user) && SameAt(v.users, w.users, ops[n].user);
    }
    forall k | k in w.users && Idle(d, ops, k) ensures w.users[k] == store.users[k] {
      assert Idle(c, ops, k);
      assert k != id ==> SameAt(c.store.users, store.users, k) && SameAt(v.users, w.users, k);
    }
  }

  // ----- the theorems on schedules without overlap --------------------------------------------

  lemma {:induction false} ScheduleSettles(s: Store, ops: seq<Operation>, events: seq<Event>)
    requires Schedule(s, ops, events) && NonOverlapping(s, ops, events)
    ensures Settles(Exec(s, ops, events), ops, Serial(s, ops, events))
  {
    hide Settles, Step;
    if events == [] {
      StartSettles(s, ops);
    } else {
      var front, e := events[..|events| - 1], events[|events| - 1];
      FrontOfSchedule(s, ops, events);
      ScheduleSettles(s, ops, front);
      EventSettles(Exec(s, ops, front), ops, e, Serial(s, ops, front));
    }
  }

  lemma StartSettles(s: Store, ops: seq<Operation>)
    ensures Settles(Start(s), ops, s)
  {
  }

  lemma EventSettles(c: Config, ops: seq<Operation>, e: Event, v: Store)
    requires Settles(c, ops, v) && Enabled(c, ops, e) && NoneOverlapped(c, ops, e)
    ensures var w := match e
                     case ReadStep(n) => Apply(v, ops[n]).0
                     case WriteStep(_) => v
                     case RequestStep(r) => Runs.Next(v, r);
            Settles(Step(c, ops, e), ops, w)
  {
    match e
    case ReadStep(n) => ReadSettles(c, ops, n, v);
    case WriteStep(n) => WriteSettles(c, ops, n, v);
    case RequestStep(r) => RequestSettles(c, ops, r, v);
  }

  /** Every interleaving without overlap, run to the end, leaves the store of the sequential run, in
      which each operation is done as a whole where it reads; without other requests that is the
      run of the operations in the order of their reads. */
  lemma NonOverlappingIsSequential(s: Store, ops: seq<Operation>, events: seq<Event>)
    requires Schedule(s, ops, events) && NonOverlapping(s, ops, events)
    requires Exec(s, ops, events).pending == map[]
    ensures Exec(s, ops, events).store == Serial(s, ops, events)
    ensures LicenseOnly(events) ==> Exec(s, ops, events).store == RunAll(s, Order(ops, events))
  {
    ScheduleSettles(s, ops, events);
    assert Exec(s, ops, events).store.users == Serial(s, ops, events).users;
    if LicenseOnly(events) {
      SerialIsRunInOrder(s, ops, events);
    }
  }

  /** If moreover each user's operations are read in the order of the list, it is the store of the
      list itself, whatever the order between users. */
  lemma PerUserOrderSuffices(s: Store, ops: seq<Operation>, events: seq<Event>)
    requires Schedule(s, ops, events) && NonOverlapping(s, ops, events) && LicenseOnly(events)
    requires Exec(s, ops, events).pending == map[]
    requires forall id | id in s.users :: OpsOn(Order(ops, events), id) == OpsOn(ops, id)
    ensures Exec(s, ops, events).store == RunAll(s, ops)
  {
    NonOverlappingIsSequential(s, ops, events);
    OrdersAgree(s, Order(ops, events), ops);
  }

  /** Without overlap every operation also decides as in the sequential run, and a Grant of the
      view-only license never overwrites an enterprise license. */
  lemma NonOverlappingDecisions(s: Store, ops: seq<Operation>, events: seq<Event>, i: nat)
    requires Schedule(s, ops, events) && NonOverlapping(s, ops, events) && i < |events|
    ensures var c, v, e := Exec(s, ops, events[..i]), Serial(s, ops, events[..i]), events[i];
            && (e.ReadStep? ==>
                  && e.n < |ops|
                  && Decide(ops[e.n], Read(c.store, ops[e.n].user)) == Decide(ops[e.n], Read(v, ops[e.n].user)))
            && (e.WriteStep? ==>
                  e.n < |ops| && ops[e.n].user in c.store.users
                  && (ops[e.n] == Operation(Grant, ops[e.n].user, LICENSE_VIEW_ONLY) ==>
                        c.store.users[ops[e.n].user].userType != LICENSE_ENTERPRISE))
  {
    var front := events[..i];
    var c := Exec(s, ops, front);
    assert forall j | 0 <= j < i :: front[..j] == events[..j] && front[j] == events[j];
    ScheduleSettles(s, ops, front);
    match events[i]
    case ReadStep(n) => ReadSettles(c, ops, n, Serial(s, ops, front));
    case WriteStep(n) => assert Fresh(c, ops, n);
    case RequestStep(_) =>
  }
}
