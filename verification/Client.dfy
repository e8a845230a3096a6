/** The SCIM client of the connector, calling the test server directly. */
module Client {
  import opened Text
  import opened Scim
  import opened Directory
  import Filter
  import Normalize
  import Paging
  import Server
  import Sync

  /** A user handed to the client by pointer: the client completes it in place. */
  class UserRef {
    var user: ScimUser

    constructor (user: ScimUser)
      ensures this.user == user
    {
      this.user := user;
    }
  }

  /** The body a client decodes from the reply: the one sent, apart from an empty list of schemas. */
  function Decoded(reply: Reply<ScimUser>): (r: Reply<ScimUser>)
    ensures r.status == reply.status && (r.Success? <==> reply.Success?)
    ensures reply.Success? && reply.body.schemas != Some([]) ==> r.body == reply.body
  {
    match reply
    case Success(status, body) => Success(status, Normalize.Wire(body))
    case Failure(status) => Failure(status)
  }

  method CreateScimUser(server: Server.ScimTestServer, ref: UserRef) returns (reply: Reply<ScimUser>)
    modifies ref, server`users
    ensures ref.user == Normalize.CompleteSchemas(old(ref.user))
    ensures var (contents, answer) := CreateUser(old(server.Contents()), Normalize.Wire(ref.user));
            server.Contents() == contents && reply == Decoded(answer)
  {
    ref.user := Normalize.EnsureSchemas(ref.user);
    var answer := server.CreateUser(Normalize.Wire(ref.user));
    return Decoded(answer);
  }

  method UpdateScimUser(server: Server.ScimTestServer, id: string, ref: UserRef) returns (reply: Reply<ScimUser>)
    modifies ref, server`users
    ensures ref.user == Normalize.CompleteSchemasForPut(old(ref.user))
    ensures var (contents, answer) := PutUser(old(server.Contents()), id, Normalize.Wire(ref.user));
            server.Contents() == contents && reply == Decoded(answer)
  {
    if ref.user.schemas.None? {
      ref.user := ref.user.(schemas := Some([USER_SCHEMA]));
    }
    if ref.user.extension != NO_EXTENSION {
      var has := Normalize.HasSchema(ref.user.schemas.value, ENTERPRISE_SCHEMA);
      if has {
        ref.user := ref.user.(schemas := Some(ref.user.schemas.value + [ENTERPRISE_SCHEMA]));
      }
    }
    var answer := server.PutUser(id, Normalize.Wire(ref.user));
    return Decoded(answer);
  }

  /** A lookup by name finds a user of that name whenever there is one, for every name a filter can
      carry; a name with `eq` in it is never found. */
  method GetScimUserByUsername(server: Server.ScimTestServer, name: string) returns (found: Option<ScimUser>)
    ensures Filter.Lookup(Filter.USER_NAME, server.users, (u: ScimUser) => u.userName, name, found)
    ensures Filter.Printable(name) ==> (found.Some? <==> NameTaken(server.users, name))
    ensures Filter.Printable(name) && found.Some? ==> found.value.userName == name
    ensures Contains(name, "eq") ==> found == None
  {
    var listed := server.GetUsers(Filter.Print(Filter.USER_NAME, name));
    found := if |listed| == 0 then None else Some(listed[0]);
    Filter.ParsePrint(Filter.USER_NAME, name);
    if Filter.Printable(name) {
      Filter.LookupFinds(Filter.USER_NAME, server.users, (u: ScimUser) => u.userName, name, found);
    }
  }

  method GetScimTeamByDisplayName(server: Server.ScimTestServer, name: string) returns (found: Option<ScimTeam>)
    ensures Filter.Lookup(Filter.DISPLAY_NAME, server.teams, (t: ScimTeam) => t.displayName, name, found)
    ensures Filter.Printable(name) ==> (found.Some? <==> TeamNameTaken(server.teams, name))
    ensures Filter.Printable(name) && found.Some? ==> found.value.displayName == name
    ensures Contains(name, "eq") ==> found == None
  {
    var listed := server.GetTeams(Filter.Print(Filter.DISPLAY_NAME, name));
    found := if |listed| == 0 then None else Some(listed[0]);
    Filter.ParsePrint(Filter.DISPLAY_NAME, name);
    if Filter.Printable(name) {
      Filter.LookupFinds(Filter.DISPLAY_NAME, server.teams, (t: ScimTeam) => t.displayName, name, found);
    }
  }

  /** Syncing against the test server: the first page already holds the resource of every user,
      each once, and there is no next page. */
  method SyncUsers(server: Server.ScimTestServer) returns (page: Paging.Page<Sync.Resource>)
    requires |server.users| < MAX_INT
    ensures page.next == "" && |page.resources| == |server.users|
    ensures exists all: seq<ScimUser> :: Server.Lists(server.users, all)
             && page.resources == Paging.Rendered(all, Sync.ResourceOf)
  {
    var all := server.GetUsers("");
    Server.ListsCount(server.users, all);
    var listed := Sync.List(true, (count, start) => Some(Paging.ListResponse(|all|, all)), "");
    page := listed.value;
    Paging.ReturnEverything(all, Sync.ResourceOf);
  }
}
