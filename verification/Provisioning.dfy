/** License operations seen as requests to the server, so that everything `Runs` proves of request
    runs holds of runs that contain them; and the test data as a first state. */
module Provisioning {
  import opened Text
  import opened Scim
  import opened Directory
  import opened License
  import opened Runs
  import MemberLists
  import Sync
  import TeamPatch
  import UserPatch

  /** A request that neither deletes nor renames a user nor repeats a member. */
  predicate Harmless(r: Request) {
    LeavesNamesAlone(r) && ListsDuplicateFree(r) && r.RPatchUser?
  }

  /** The PATCH an operation sends; an empty one stands for sending none. */
  function AsRequest(s: Store, op: Operation): Request {
    match Decide(op, Read(s, op.user))
    case Answer(_) => RPatchUser(op.user, [])
    case Patch(ops) => RPatchUser(op.user, ops)
  }

  lemma OperationIsRequest(s: Store, op: Operation)
    ensures Apply(s, op).0 == Next(s, AsRequest(s, op))
    ensures Harmless(AsRequest(s, op))
  {
    assert |"userName"| == 8 && |"userType"| == 8 && |"active"| == 6;
    assert "userName"[4] == 'N' && "userType"[4] == 'T';
    if op.user in s.users {
      assert s.users[op.user := s.users[op.user]] == s.users;
    }
  }

  lemma {:induction false} RunSnoc(s: Store, rs: seq<Request>, r: Request)
    ensures Run(s, rs + [r]) == Next(Run(s, rs), r)
    decreases |rs|
  {
    if rs == [] {
      assert [r][1..] == [];
      assert Run(Next(s, r), []) == Next(s, r);
    } else {
      RunSnoc(Next(s, rs[0]), rs[1..], r);
      assert (rs + [r])[1..] == rs[1..] + [r];
    }
  }

  /** Every run of license operations is a run of harmless PATCH requests. */
  lemma {:induction false} LicenseRunIsRequestRun(s: Store, ops: seq<Operation>) returns (rs: seq<Request>)
    ensures Run(s, rs) == RunAll(s, ops)
    ensures forall r | r in rs :: Harmless(r)
  {
    rs := [];
    if ops != [] {
      var front, op := ops[..|ops| - 1], ops[|ops| - 1];
      rs := LicenseRunIsRequestRun(s, front);
      var r := AsRequest(RunAll(s, front), op);
      OperationIsRequest(RunAll(s, front), op);
      RunSnoc(s, rs, r);
      rs := rs + [r];
    }
  }

  predicate Sound(s: Store) {
    WellFormed(s) && Contiguous(s.teams) && Contiguous(s.users) && NamesOk(s.users) && TeamsDuplicateFree(s)
  }

  /** License operations keep every store invariant. */
  lemma LicenseRunsKeepSound(s: Store, ops: seq<Operation>)
    requires Sound(s)
    ensures Sound(RunAll(s, ops))
  {
    var rs := LicenseRunIsRequestRun(s, ops);
    assert forall r | r in rs :: Harmless(r);
    StaysWellFormed(s, rs);
    IdsStayContiguous(s, rs);
    QuietRunIsNameSafe(s, rs);
    NamesStayDistinct(s, rs);
    TeamsStayDuplicateFree(s, rs);
  }

  // ----- the test data ------------------------------------------------------------------------

  function TestUser(id: string, first: string, last: string, address: string, title: string, license: string,
      department: string): ScimUser {
    ScimUser(id, Some([USER_SCHEMA, ENTERPRISE_SCHEMA]), ScimName(first, last, first + " " + last), address,
             [ScimEmail(address, "work", true)], true, title, "", [], [], license,
                 NO_EXTENSION.(department := department))
  }

  function TestTeam(id: string, name: string, members: seq<ScimMember>): ScimTeam {
    ScimTeam(id, Some([GROUP_SCHEMA]), name, members, RESOURCE_TYPE_GROUP)
  }

  const JOHN := TestUser("1", "John", "Doe", "john.doe@example.com", "Software Engineer", "enterprise", "Engineering")
  const JANE := TestUser("2", "Jane", "Smith", "jane.smith@example.com", "Product Manager", "view only", "Product")
  const ALEX := TestUser("3", "Alex", "Johnson", "alex.johnson@example.com", "Designer", "", "Design")

  lemma ThreeEntries<V>(a: V, b: V, c: V)
    ensures var m := map["1" := a, "2" := b, "3" := c];
            && m.Keys == {"1", "2", "3"} && m["1"] == a && m["2"] == b && m["3"] == c
            && Contiguous(m)
  {
    var m := map["1" := a, "2" := b, "3" := c];
    assert "1"[0] == '1' && "2"[0] == '2' && "3"[0] == '3';
    assert m.Keys == {"1", "2", "3"};
    assert |m.Keys| == 3;
    assert Decimal(1) == "1" && Decimal(2) == "2" && Decimal(3) == "3";
    assert FirstIds(0) == {};
    assert FirstIds(1) == {"1"};
    assert FirstIds(2) == {"1", "2"};
  }

  lemma ThreeUsers(users: map<string, ScimUser>)
    requires users.Keys == {"1", "2", "3"}
    requires users["1"].id == "1" && users["2"].id == "2" && users["3"].id == "3"
    requires 0 < |users["1"].userName| < |users["2"].userName| < |users["3"].userName|
    ensures NamesOk(users) && forall id | id in users :: WellFormedUser(id, users[id])
  {
    assert forall id | id in users :: id == "1" || id == "2" || id == "3";
  }

  lemma ThreeTeams(teams: map<string, ScimTeam>)
    requires teams.Keys == {"1", "2", "3"}
    requires WellFormedTeam("1", teams["1"]) && WellFormedTeam("2", teams["2"]) && WellFormedTeam("3", teams["3"])
    requires |teams["1"].members| <= 1 && |teams["2"].members| <= 1 && |teams["3"].members| <= 1
    ensures forall id | id in teams :: WellFormedTeam(id, teams[id]) && |teams[id].members| <= 1
  {
    assert forall id | id in teams :: id == "1" || id == "2" || id == "3";
  }

  lemma ThreeOfEach(users: map<string, ScimUser>, teams: map<string, ScimTeam>)
    requires users.Keys == teams.Keys == {"1", "2", "3"} && Contiguous(users) && Contiguous(teams)
    requires users["1"].id == "1" && users["2"].id == "2" && users["3"].id == "3"
    requires 0 < |users["1"].userName| < |users["2"].userName| < |users["3"].userName|
    requires WellFormedTeam("1", teams["1"]) && WellFormedTeam("2", teams["2"]) && WellFormedTeam("3", teams["3"])
    requires |teams["1"].members| <= 1 && |teams["2"].members| <= 1 && |teams["3"].members| <= 1
    ensures Sound(Store(users, teams))
  {
    ThreeUsers(users);
    ThreeTeams(teams);
  }

  lemma TestAddresses()
    ensures |JOHN.userName| == 20 && |JANE.userName| == 22 && |ALEX.userName| == 24
    ensures JOHN.id == "1" && JANE.id == "2" && ALEX.id == "3"
  {
  }

  const ENGINEERING := TestTeam("1", "Engineering", [ScimMember("1", "John Doe", "")])
  const PRODUCT := TestTeam("2", "Product", [ScimMember("2", "Jane Smith", "")])
  const MARKETING := TestTeam("3", "Marketing", [])

  function TestData(): Store {
    Store(map["1" := JOHN, "2" := JANE, "3" := ALEX], map["1" := ENGINEERING, "2" := PRODUCT, "3" := MARKETING])
  }

  /** The state the server starts in satisfies every invariant. */
  lemma TestDataIsSound()
    ensures Sound(TestData())
  {
    ThreeEntries(JOHN, JANE, ALEX);
    ThreeEntries(ENGINEERING, PRODUCT, MARKETING);
    TestAddresses();
    ThreeOfEach(TestData().users, TestData().teams);
  }

  /** What a first sync reports: three active users, one with each license and one with none; and
      the two members of teams are listed as PATCH requests would have listed them. */
  lemma TestDataReports()
    ensures forall license: string :: Sync.Reports(JOHN, license) <==> license == "enterprise"
    ensures forall license: string :: Sync.Reports(JANE, license) <==> license == "view only"
    ensures forall license: string :: !Sync.Reports(ALEX, license)
    ensures JOHN.active && JANE.active && ALEX.active
    ensures var users := TestData().users;
            forall m | m in ENGINEERING.members || m in PRODUCT.members || m in MARKETING.members ::
              m.value in users && MemberLists.ShowsUser(users, m)
  {
    assert |"enterprise"| == 10 && |"view only"| == 9;
    forall license: string
      ensures Sync.Reports(JOHN, license) <==> license == "enterprise"
      ensures Sync.Reports(JANE, license) <==> license == "view only"
      ensures !Sync.Reports(ALEX, license)
    {
      Sync.ReportsUserType(JOHN, license);
      Sync.ReportsUserType(JANE, license);
      Sync.ReportsUserType(ALEX, license);
    }
    hide Sync.Reports;
    assert JOHN.name.formatted == "John Doe" && JANE.name.formatted == "Jane Smith";
  }
}
