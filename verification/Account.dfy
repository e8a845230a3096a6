/** Account creation: from a request profile through the connector, the client and the server to
    what the next sync reports. */
module Account {
  import opened Text
  import opened Scim
  import opened Directory
  import Client
  import Normalize
  import Server
  import Sync

  // ----- the connector ------------------------------------------------------------------------

  /** A profile entry that is a non-empty string. */
  function Given(profile: map<string, Json>, key: string): (text: Option<string>)
    ensures text.Some? <==> key in profile && profile[key].JString? && profile[key].text != ""
    ensures text.Some? ==> profile[key] == JString(text.value)
  {
    var v := Member(JObject(profile), key);
    if v.JString? && v.text != "" then Some(v.text) else None
  }

  function FullName(first: string, last: string): ScimName {
    ScimName(first, last, if first != "" && last != "" then first + " " + last else first + last)
  }

  /** The user an account request asks for. */
  function AccountUser(profile: map<string, Json>, email: string): ScimUser {
    ScimUser("", Some([USER_SCHEMA]),
             FullName(Given(profile, "first_name").GetOr(""), Given(profile, "last_name").GetOr("")),
             email, [ScimEmail(email, "work", true)], true, "", "", [], [],
             Given(profile, "license_type").GetOr(LICENSE_VIEW_ONLY), NO_EXTENSION)
  }

  /** The text at a key of the profile, or none. */
  function TextAt(profile: map<string, Json>, key: string): string {
    if key in profile && profile[key].JString? then profile[key].text else ""
  }

  /** The account is the one the profile asks for: an active user under the next id, with this email
      as its name and only address, the names and the license of the profile, and a resource that
      shows it. */
  predicate NewAccount(profile: map<string, Json>, before: map<string, ScimUser>, after: map<string, ScimUser>,
                       resource: Sync.Resource) {
    var id := Decimal(|before| + 1);
    && id in after && after == before[id := after[id]]
    && IsAccountOf(profile, after[id], id)
    && resource.id == id && resource.enabled && resource.email == TextAt(profile, "email")
    && resource.displayName == (if after[id].name.formatted != "" then after[id].name.formatted
                                else TextAt(profile, "email"))
  }

  predicate IsAccountOf(profile: map<string, Json>, u: ScimUser, id: string) {
    var email, first, last := TextAt(profile, "email"), TextAt(profile, "first_name"), TextAt(profile, "last_name");
    && u.id == id && u.active && u.userName == email != "" && u.emails == [ScimEmail(email, "work", true)]
    && u.name.givenName == first && u.name.familyName == last
    && (first != "" && last != "" ==> u.name.formatted == first + " " + last)
    && (first == "" ==> u.name.formatted == last)
    && (last == "" ==> u.name.formatted == first)
    && u.userType == (if TextAt(profile, "license_type") != "" then TextAt(profile, "license_type") else "view only")
    && u.schemas == Some(["urn:ietf:params:scim:schemas:core:2.0:User"])
    && u.title == u.preferredLanguage == "" && u.addresses == [] && u.phoneNumbers == []
    && u.extension == NO_EXTENSION
  }

  datatype Created = Account(resource: Sync.Resource) | NoAccount

  /** The part of the connector that fills the user field by field. */
  method BuildUser(profile: map<string, Json>, email: string) returns (user: ScimUser)
    ensures user == AccountUser(profile, email)
  {
    user := ScimUser("", Some([USER_SCHEMA]), NO_NAME, email, [ScimEmail(email, "work", true)],
                     true, "", "", [], [], "", NO_EXTENSION);
    if Given(profile, "first_name").Some? {
      user := user.(name := user.name.(givenName := Given(profile, "first_name").value));
    }
    if Given(profile, "last_name").Some? {
      user := user.(name := user.name.(familyName := Given(profile, "last_name").value));
    }
    if user.name.givenName != "" || user.name.familyName != "" {
      if user.name.givenName != "" && user.name.familyName != "" {
        user := user.(name := user.name.(formatted := user.name.givenName + " " + user.name.familyName));
      } else if user.name.givenName != "" {
        user := user.(name := user.name.(formatted := user.name.givenName));
      } else {
        user := user.(name := user.name.(formatted := user.name.familyName));
      }
    }
    if Given(profile, "license_type").Some? {
      user := user.(userType := Given(profile, "license_type").value);
    } else {
      user := user.(userType := LICENSE_VIEW_ONLY);
    }
  }

  method CreateAccount(server: Server.ScimTestServer, profile: map<string, Json>, defaultWorkspace: string)
      returns (r: Created)
    modifies server`users
    ensures var before := old(server.Contents());
            var email := Given(profile, "email");
            if email.None? || (Given(profile, "workspace_id").None? && defaultWorkspace == "")
               || NameTaken(before.users, email.value)
            then server.Contents() == before && r == NoAccount
            else
              var stored := AccountUser(profile, email.value).(id := NextId(before.users));
              server.Contents() == before.(users := before.users[stored.id := stored])
                  && r == Account(Sync.ResourceOf(stored))
    ensures r.Account? ==> NewAccount(profile, old(server.users), server.users, r.resource)
  {
    var email := Given(profile, "email");
    if email.None? {
      return NoAccount;
    }
    var workspace := defaultWorkspace;
    if Given(profile, "workspace_id").Some? {
      workspace := Given(profile, "workspace_id").value;
    }
    if workspace == "" {
      return NoAccount;
    }
    var user := BuildUser(profile, email.value);
    NothingToComplete(profile, email.value);
    assert user.userName == email.value != "";
    hide AccountUser, Given, NewAccount, Sync.ResourceOf, Normalize.ForCreate, Normalize.CompleteSchemas;
    var ref := new Client.UserRef(user);
    var created := Client.CreateScimUser(server, ref);
    if created.Failure? {
      return NoAccount;
    }
    var resource := Sync.EnterpriseUserResource(created.body);
    NewAccountFields(profile, email.value, old(server.users));
    return Account(resource);
  }

  lemma AccountUserIs(profile: map<string, Json>, email: string, id: string)
    requires Given(profile, "email") == Some(email)
    ensures IsAccountOf(profile, AccountUser(profile, email).(id := id), id)
  {
    assert forall key: string :: Given(profile, key).GetOr("") == TextAt(profile, key);
    hide Given, TextAt;
  }

  lemma AccountResource(profile: map<string, Json>, u: ScimUser, id: string)
    requires IsAccountOf(profile, u, id)
    ensures var r := Sync.ResourceOf(u);
            && r.id == id && r.enabled && r.email == TextAt(profile, "email")
            && r.displayName == (if u.name.formatted != "" then u.name.formatted else TextAt(profile, "email"))
  {
    Sync.ResourceFields(u);
    Sync.PrimarySelection(u, 0);
    hide Sync.ResourceOf, Sync.Carries, TextAt;
  }

  lemma NewAccountFields(profile: map<string, Json>, email: string, before: map<string, ScimUser>)
    requires Given(profile, "email") == Some(email)
    ensures var stored := AccountUser(profile, email).(id := NextId(before));
            NewAccount(profile, before, before[stored.id := stored], Sync.ResourceOf(stored))
  {
    var id := NextId(before);
    AccountUserIs(profile, email, id);
    AccountResource(profile, AccountUser(profile, email).(id := id), id);
    hide IsAccountOf, Sync.ResourceOf, AccountUser, Given, TextAt;
  }

  /** The built user is complete: the client's and the server's completion and the encoding in
      between change nothing in it. */
  lemma NothingToComplete(profile: map<string, Json>, email: string)
    ensures var u := AccountUser(profile, email);
            && Normalize.CompleteSchemas(u) == u
            && Normalize.Wire(u) == u
            && Normalize.ForCreate(u) == u
            && forall id :: Normalize.Wire(u.(id := id)) == u.(id := id)
  {
    var u := AccountUser(profile, email);
    Normalize.FixedPoints(u);
    assert u.schemas.value != [];
  }

  /** A new account is reported with the license asked for when that is a known one; without a
      license in the request, with the view-only license. */
  lemma NewAccountIsReported(profile: map<string, Json>, email: string, id: string, license: string)
    ensures Sync.Reports(AccountUser(profile, email).(id := id), license)
            <==> license == Given(profile, "license_type").GetOr(LICENSE_VIEW_ONLY)
                 && license in {LICENSE_ENTERPRISE, LICENSE_VIEW_ONLY}
    ensures Given(profile, "license_type") == None ==>
               Sync.Reports(AccountUser(profile, email).(id := id), LICENSE_VIEW_ONLY)
  {
    Sync.ReportsUserType(AccountUser(profile, email).(id := id), license);
    Sync.ReportsUserType(AccountUser(profile, email).(id := id), LICENSE_VIEW_ONLY);
  }
}
