/** The license protocol: Grant and Revoke as a read of the user followed by at most one patch. */
module License {
  import opened Text
  import opened Scim
  import opened Directory
  import Server
  import Sync
  import UserPatch

  datatype Verb = Grant | Revoke

  datatype Operation = Operation(verb: Verb, user: string, license: string)

  datatype Outcome = Done | AlreadyExists | AlreadyRevoked | Rejected

  // ----- the patches the client builds --------------------------------------------------------

  function LicensePatch(license: string): seq<PatchOperation> {
    [PatchOperation("replace", "userType", JString(license))]
  }

  const DEACTIVATE_PATCH := [PatchOperation("replace", "active", JBool(false))]

  predicate Known(license: string) {
    license == LICENSE_ENTERPRISE || license == LICENSE_VIEW_ONLY
  }

  /** What an operation decides from the user it has read: an answer, or a patch to send. */
  datatype Decision = Answer(outcome: Outcome) | Patch(ops: seq<PatchOperation>)

  function Decide(op: Operation, read: Option<ScimUser>): Decision {
    if read.None? || (op.verb == Grant && !Known(op.license)) then Answer(Rejected)
    else
      var userType := read.value.userType;
      match op.verb
      case Grant =>
        if op.license == LICENSE_VIEW_ONLY && userType == LICENSE_ENTERPRISE then Answer(Done)
        else if userType == op.license then Answer(AlreadyExists)
        else Patch(LicensePatch(op.license))
      case Revoke =>
        if userType != op.license then Answer(AlreadyRevoked)
        else if op.license == LICENSE_ENTERPRISE then Patch(LicensePatch(LICENSE_VIEW_ONLY))
        else if op.license == LICENSE_VIEW_ONLY then Patch(DEACTIVATE_PATCH)
        else Answer(Rejected)
  }

  function Read(s: Store, id: string): Option<ScimUser> {
    if id in s.users then Some(s.users[id]) else None
  }

  /** One operation run without interference: read, decide, patch through the server. */
  function Apply(s: Store, op: Operation): (Store, Outcome) {
    match Decide(op, Read(s, op.user))
    case Answer(outcome) => (s, outcome)
    case Patch(ops) => (PatchUser(s, op.user, ops).0, Done)
  }

  // ----- the connector ------------------------------------------------------------------------

  const RESOURCE_USER := "user"
  const RESOURCE_LICENSE := "license"

  class LicenseConnector {
    const server: Server.ScimTestServer

    constructor (server: Server.ScimTestServer)
      ensures this.server == server
    {
      this.server := server;
    }

    method Grant(principalType: string, userId: string, entitlementType: string, license: string)
        returns (outcome: Outcome)
      modifies server`users
      ensures (server.Contents(), outcome)
              == if principalType == RESOURCE_USER && entitlementType == RESOURCE_LICENSE
                 then Apply(old(server.Contents()), Operation(Verb.Grant, userId, license))
                 else (old(server.Contents()), Rejected)
    {
      if principalType != RESOURCE_USER {
        return Rejected;
      }
      if entitlementType != RESOURCE_LICENSE {
        return Rejected;
      }
      if license != LICENSE_ENTERPRISE && license != LICENSE_VIEW_ONLY {
        return Rejected;
      }
      var read := server.GetUser(userId);
      if read.Failure? {
        return Rejected;
      }
      var user := read.body;
      if license == LICENSE_VIEW_ONLY && user.userType == LICENSE_ENTERPRISE {
        return Done;
      }
      if user.userType == license {
        return AlreadyExists;
      }
      var written := server.PatchUser(userId, LicensePatch(license));
      if written.Failure? {
        return Rejected;
      }
      return Done;
    }

    method Revoke(principalType: string, userId: string, entitlementType: string, license: string)
        returns (outcome: Outcome)
      modifies server`users
      ensures (server.Contents(), outcome)
              == if principalType == RESOURCE_USER && entitlementType == RESOURCE_LICENSE
                 then Apply(old(server.Contents()), Operation(Verb.Revoke, userId, license))
                 else (old(server.Contents()), Rejected)
    {
      if principalType != RESOURCE_USER {
        return Rejected;
      }
      if entitlementType != RESOURCE_LICENSE {
        return Rejected;
      }
      var read := server.GetUser(userId);
      if read.Failure? {
        return Rejected;
      }
      if read.body.userType != license {
        return AlreadyRevoked;
      }
      var written: Reply<ScimUser>;
      if license == LICENSE_ENTERPRISE {
        written := server.PatchUser(userId, LicensePatch(LICENSE_VIEW_ONLY));
      } else if license == LICENSE_VIEW_ONLY {
        written := server.PatchUser(userId, DEACTIVATE_PATCH);
      } else {
        return Rejected;
      }
      if written.Failure? {
        return Rejected;
      }
      return Done;
    }
  }

  // ----- what an operation does to a user -----------------------------------------------------

  /** The two ways a license patch can change a user. */
  lemma PatchEffect(u: ScimUser)
    ensures forall license :: UserPatch.ApplyAll(u, LicensePatch(license)) == u.(userType := license)
    ensures UserPatch.ApplyAll(u, DEACTIVATE_PATCH) == u.(active := false)
  {
    forall license ensures UserPatch.ApplyAll(u, LicensePatch(license)) == u.(userType := license) {
      OnePatch(u, LicensePatch(license)[0]);
      assert "userType"[0] == 'u' && |"userType"| == 8 && |"name.formatted"| == 14 && |"userName"| == 8;
      assert "userType"[4] == 'T' && "userName"[4] == 'N';
    }
    OnePatch(u, DEACTIVATE_PATCH[0]);
  }

  lemma OnePatch(u: ScimUser, op: PatchOperation)
    ensures UserPatch.ApplyAll(u, [op]) == UserPatch.ApplyOperation(u, op)
  {
    assert [op][..0] == [];
  }

  /** The intended meaning, as a table: enterprise beats view-only, losing enterprise leaves
      view-only, losing view-only deactivates. */
  function Effect(u: ScimUser, op: Operation): ScimUser {
    match (op.verb, op.license == LICENSE_ENTERPRISE, op.license == LICENSE_VIEW_ONLY)
    case (Grant, true, _) => u.(userType := LICENSE_ENTERPRISE)
    case (Grant, _, true) => if u.userType == LICENSE_ENTERPRISE then u else u.(userType := LICENSE_VIEW_ONLY)
    case (Revoke, true, _) => if u.userType == LICENSE_ENTERPRISE then u.(userType := LICENSE_VIEW_ONLY) else u
    case (Revoke, _, true) => if u.userType == LICENSE_VIEW_ONLY then u.(active := false) else u
    case _ => u
  }

  /** Read, decide and patch together do what the table says to the one user named, and nothing to
      anyone else. */
  lemma ApplyIsEffect(s: Store, op: Operation)
    ensures Apply(s, op).0
            == if op.user in s.users then s.(users := s.users[op.user := Effect(s.users[op.user], op)]) else s
  {
    assert LICENSE_ENTERPRISE != LICENSE_VIEW_ONLY by {
      assert |LICENSE_ENTERPRISE| == 10 && |LICENSE_VIEW_ONLY| == 9;
    }
    if op.user in s.users {
      var u := s.users[op.user];
      PatchEffect(u);
      if Decide(op, Some(u)).Answer? {
        assert Effect(u, op) == u;
        assert s.users[op.user := u] == s.users;
      }
    }
  }

  /** What Grant answers, and the store it leaves: a view-only Grant to an enterprise user is
      answered with success but changes nothing. */
  lemma GrantAnswers(s: Store, user: string, license: string)
    ensures var (t, answer) := Apply(s, Operation(Grant, user, license));
            && (answer == Rejected <==> user !in s.users || license !in {"enterprise", "view only"})
            && (answer == AlreadyExists <==>
                  user in s.users && license in {"enterprise", "view only"} && s.users[user].userType == license)
            && (answer == Done <==>
                  user in s.users && license in {"enterprise", "view only"} && s.users[user].userType != license)
            && t == if answer == Done && s.users[user].userType != "enterprise"
                    then s.(users := s.users[user := s.users[user].(userType := license)]) else s
  {
    ApplyIsEffect(s, Operation(Grant, user, license));
  }

  /** What Revoke answers, and the store it leaves: an unknown license is rejected only where it is
      the user's type, and is already revoked elsewhere. */
  lemma RevokeAnswers(s: Store, user: string, license: string)
    ensures var (t, answer) := Apply(s, Operation(Revoke, user, license));
            && (answer == AlreadyRevoked <==> user in s.users && s.users[user].userType != license)
            && (answer == Done <==>
                  user in s.users && s.users[user].userType == license && license in {"enterprise", "view only"})
            && (answer == Rejected <==>
                  user in s.users ==> s.users[user].userType == license && license !in {"enterprise", "view only"})
            && t == if answer != Done then s
                    else if license == "enterprise"
                    then s.(users := s.users[user := s.users[user].(userType := "view only")])
                    else s.(users := s.users[user := s.users[user].(active := false)])
  {
    assert |LICENSE_ENTERPRISE| == 10 && |LICENSE_VIEW_ONLY| == 9;
    ApplyIsEffect(s, Operation(Revoke, user, license));
  }

  // ----- sequential runs ----------------------------------------------------------------------

  function RunAll(s: Store, ops: seq<Operation>): Store {
    if ops == [] then s else Apply(RunAll(s, ops[..|ops| - 1]), ops[|ops| - 1]).0
  }

  /** The operations on one user, in order. */
  function OpsOn(ops: seq<Operation>, user: string): seq<Operation> {
    if ops == [] then []
    else
      var rest := OpsOn(ops[..|ops| - 1], user);
      var last := ops[|ops| - 1];
      if last.user == user then rest + [last] else rest
  }

  function FoldEffects(u: ScimUser, ops: seq<Operation>): ScimUser {
    if ops == [] then u else Effect(FoldEffects(u, ops[..|ops| - 1]), ops[|ops| - 1])
  }

  /** A run of operations on any users is, for each user, the run of that user's operations. */
  lemma {:induction false} RunIsPerUser(s: Store, ops: seq<Operation>)
    ensures var t := RunAll(s, ops);
            && t.teams == s.teams && t.users.Keys == s.users.Keys
            && forall id | id in s.users :: t.users[id] == FoldEffects(s.users[id], OpsOn(ops, id))
  {
    if ops != [] {
      var front, op := ops[..|ops| - 1], ops[|ops| - 1];
      RunIsPerUser(s, front);
      ApplyIsEffect(RunAll(s, front), op);
      forall id | id in s.users ensures RunAll(s, ops).users[id] == FoldEffects(s.users[id], OpsOn(ops, id)) {
        var rest := OpsOn(front, id);
        if op.user == id {
          assert (rest + [op])[..|rest|] == rest;
        }
      }
    }
  }

  /** Operations on different users commute: two orders that agree user by user end in one store. */
  lemma OrdersAgree(s: Store, a: seq<Operation>, b: seq<Operation>)
    requires forall id | id in s.users :: OpsOn(a, id) == OpsOn(b, id)
    ensures RunAll(s, a) == RunAll(s, b)
  {
    RunIsPerUser(s, a);
    RunIsPerUser(s, b);
    assert RunAll(s, a).users == RunAll(s, b).users;
  }

  predicate OnEnterprise(op: Operation, user: string) {
    op.user == user && op.license == LICENSE_ENTERPRISE
  }

  /** The final type is enterprise exactly when the last operation on the user's enterprise license
      was a Grant, or when there was none and the type was enterprise from the start. */
  lemma {:induction false} FinalType(s: Store, ops: seq<Operation>, user: string)
    requires user in s.users
    ensures user in RunAll(s, ops).users
    ensures var isEnterprise := RunAll(s, ops).users[user].userType == LICENSE_ENTERPRISE;
            && ((forall i | 0 <= i < |ops| :: !OnEnterprise(ops[i], user))
                ==> isEnterprise == (s.users[user].userType == LICENSE_ENTERPRISE))
            && (forall i | 0 <= i < |ops| && OnEnterprise(ops[i], user)
                && (forall j | i < j < |ops| :: !OnEnterprise(ops[j], user)) ::
                  isEnterprise == ops[i].verb.Grant?)
  {
    hide Apply;
    assert |LICENSE_ENTERPRISE| == 10 && |LICENSE_VIEW_ONLY| == 9;
    if ops != [] {
      var front := ops[..|ops| - 1];
      FinalType(s, front, user);
      ApplyIsEffect(RunAll(s, front), ops[|ops| - 1]);
      assert forall j | 0 <= j < |front| :: front[j] == ops[j];
    }
  }

  /** The revocations that deactivate: of the view-only license while that is the type. */
  predicate Deactivates(s: Store, ops: seq<Operation>, i: nat, user: string)
    requires i < |ops|
  {
    && ops[i] == Operation(Revoke, user, LICENSE_VIEW_ONLY)
    && var before := RunAll(s, ops[..i]);
       user in before.users && before.users[user].userType == LICENSE_VIEW_ONLY
  }

  /** A user is active in the end exactly when active at the start and never deactivated; nothing
      but the type and the active flag ever changes. */
  lemma {:induction false} FinalActive(s: Store, ops: seq<Operation>, user: string)
    requires user in s.users
    ensures user in RunAll(s, ops).users
    ensures var u, v := s.users[user], RunAll(s, ops).users[user];
            && (v.active <==> u.active && forall i | 0 <= i < |ops| :: !Deactivates(s, ops, i, user))
            && v == u.(active := v.active, userType := v.userType)
  {
    hide Apply;
    assert |LICENSE_ENTERPRISE| == 10 && |LICENSE_VIEW_ONLY| == 9;
    if ops != [] {
      var n := |ops| - 1;
      var front := ops[..n];
      FinalActive(s, front, user);
      ApplyIsEffect(RunAll(s, front), ops[n]);
      forall i | 0 <= i < n ensures Deactivates(s, front, i, user) <==> Deactivates(s, ops, i, user) {
        assert front[..i] == ops[..i];
      }
      assert (forall i | 0 <= i < |ops| :: !Deactivates(s, ops, i, user))
        <==> (forall i | 0 <= i < n :: !Deactivates(s, front, i, user)) && !Deactivates(s, ops, n, user);
    }
  }

  // ----- agreement with the sync --------------------------------------------------------------

  function Rank(license: string): nat {
    if license == LICENSE_ENTERPRISE then 2 else if license == LICENSE_VIEW_ONLY then 1 else 0
  }

  /** In every state: Grant answers already-exists exactly when the next sync reports the license,
      Revoke answers already-revoked exactly when it does not. */
  lemma SyncAgrees(s: Store, user: string, license: string)
    requires user in s.users && Known(license)
    ensures Apply(s, Operation(Grant, user, license)).1 == AlreadyExists <==> Sync.Reports(s.users[user], license)
    ensures Apply(s, Operation(Revoke, user, license)).1 == AlreadyRevoked <==> !Sync.Reports(s.users[user], license)
  {
    assert |LICENSE_ENTERPRISE| == 10 && |LICENSE_VIEW_ONLY| == 9;
    Sync.ReportsUserType(s.users[user], license);
  }

  /** After a Grant that does not fail the reported license ranks at least as high as the one asked
      for; after a Revoke that does something, enterprise is gone and view-only is reported, and
      revoking view-only deactivates the user but leaves the license reported. */
  lemma SyncFollows(s: Store, user: string, license: string)
    requires user in s.users && Known(license)
    ensures var granted := Apply(s, Operation(Grant, user, license)).0.users;
            user in granted && exists l: string :: Sync.Reports(granted[user], l) && Rank(l) >= Rank(license)
    ensures var revoked := Apply(s, Operation(Revoke, user, license)).0.users;
            && user in revoked
            && !Sync.Reports(revoked[user], LICENSE_ENTERPRISE)
               == (license == LICENSE_ENTERPRISE || s.users[user].userType != LICENSE_ENTERPRISE)
            && (Sync.Reports(s.users[user], license) ==> Sync.Reports(revoked[user], LICENSE_VIEW_ONLY))
            && (Sync.Reports(s.users[user], license) && license == LICENSE_VIEW_ONLY ==> !revoked[user].active)
  {
    assert |LICENSE_ENTERPRISE| == 10 && |LICENSE_VIEW_ONLY| == 9;
    ApplyIsEffect(s, Operation(Grant, user, license));
    ApplyIsEffect(s, Operation(Revoke, user, license));
    var g := Effect(s.users[user], Operation(Grant, user, license));
    var r := Effect(s.users[user], Operation(Revoke, user, license));
    Sync.ReportsUserType(g, g.userType);
    Sync.ReportsUserType(s.users[user], license);
    Sync.ReportsUserType(r, LICENSE_ENTERPRISE);
    Sync.ReportsUserType(r, LICENSE_VIEW_ONLY);
    assert Sync.Reports(g, g.userType) && Rank(g.userType) >= Rank(license);
  }
}
