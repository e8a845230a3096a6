/** What a sync reports: the resource built from a user, the license grant it carries, and a page
    of the user list. */
module Sync {
  import opened Text
  import opened Scim
  import Paging

  // ----- the resource of a user ---------------------------------------------------------------

  datatype Resource = Resource(displayName: string, id: string, email: string, profile: map<string, Json>,
      enabled: bool)

  /** The first element that passes a test, as long as the loop has looked at `s`. */
  function First<T>(s: seq<T>, test: T -> bool): Option<T> {
    if s == [] then None
    else
      match First(s[..|s| - 1], test)
      case Some(v) => Some(v)
      case None => if test(s[|s| - 1]) then Some(s[|s| - 1]) else None
  }

  lemma {:induction false} FirstPosition<T>(s: seq<T>, test: T -> bool, i: nat)
    requires i < |s| && test(s[i]) && forall j | 0 <= j < i :: !test(s[j])
    ensures First(s, test) == Some(s[i])
  {
    if i < |s| - 1 {
      FirstPosition(s[..|s| - 1], test, i);
    } else {
      NoFirst(s[..|s| - 1], test);
    }
  }

  lemma {:induction false} NoFirst<T>(s: seq<T>, test: T -> bool)
    requires forall j | 0 <= j < |s| :: !test(s[j])
    ensures First(s, test) == None
  {
    if s != [] {
      NoFirst(s[..|s| - 1], test);
    }
  }

  method Search<T>(s: seq<T>, test: T -> bool) returns (found: Option<T>)
    ensures found == First(s, test)
  {
    for i := 0 to |s|
      invariant forall j | 0 <= j < i :: !test(s[j])
    {
      if test(s[i]) {
        FirstPosition(s, test, i);
        return Some(s[i]);
      }
    }
    NoFirst(s, test);
    return None;
  }

  const PRIMARY_EMAIL := (e: ScimEmail) => e.primary
  const PRIMARY_ADDRESS := (a: ScimAddress) => a.primary
  const PRIMARY_PHONE := (p: ScimPhoneNumber) => p.primary

  /** The value of the first primary address; the first address when that gives nothing. */
  function MainEmail(emails: seq<ScimEmail>): string {
    var primary := match First(emails, PRIMARY_EMAIL) case Some(e) => e.value case None => "";
    if primary == "" && emails != [] then emails[0].value else primary
  }

  const NO_ADDRESS := ScimAddress("", "", "", "", false)
  const NO_PHONE := ScimPhoneNumber("", "", false)

  function MainAddress(addresses: seq<ScimAddress>): ScimAddress {
    if addresses == [] then NO_ADDRESS else First(addresses, PRIMARY_ADDRESS).GetOr(addresses[0])
  }

  function MainPhone(phones: seq<ScimPhoneNumber>): ScimPhoneNumber {
    if phones == [] then NO_PHONE else First(phones, PRIMARY_PHONE).GetOr(phones[0])
  }

  /** An optional profile entry, left out when it is empty. */
  function SetText(profile: map<string, Json>, key: string, v: string): map<string, Json> {
    if v == "" then profile else profile[key := JString(v)]
  }

  /** The entries for the texts that are not empty. */
  function Entries(texts: map<string, string>): map<string, Json> {
    map key | key in texts && texts[key] != "" :: JString(texts[key])
  }

  function Required(u: ScimUser): map<string, Json> {
    map["login" := JString(u.userName), "user_id" := JString(u.id), "title" := JString(u.title),
        "active" := JBool(u.active), "user_type" := JString(u.userType)]
  }

  function NameTexts(name: ScimName): map<string, string> {
    map["name" := name.formatted, "first_name" := name.givenName, "last_name" := name.familyName]
  }

  function ExtensionTexts(e: ScimEnterpriseExtension): map<string, string> {
    map["department" := e.department, "organization" := e.organization, "cost_center" := e.costCenter,
        "division" := e.division, "employee_number" := e.employeeNumber, "manager_id" := e.manager.GetOr("")]
  }

  function ContactTexts(u: ScimUser): map<string, string> {
    var address := MainAddress(u.addresses);
    map["country" := address.country, "region" := address.region, "locality" := address.locality,
        "phone" := MainPhone(u.phoneNumbers).value, "preferred_language" := u.preferredLanguage]
  }

  /** The resource of a user: five entries of the profile are always there, every other one exactly
      when its text is not empty. */
  function ResourceOf(u: ScimUser): Resource {
    Resource(if u.name.formatted == "" then u.userName else u.name.formatted, u.id, MainEmail(u.emails),
             Required(u) + Entries(NameTexts(u.name)) + Entries(ExtensionTexts(u.extension)) + Entries(ContactTexts(u)),
             u.active)
  }

  lemma ThreeTexts(p: map<string, Json>, texts: map<string, string>, k1: string, v1: string, k2: string, v2: string,
                   k3: string, v3: string)
    requires k1 != k2 && k1 != k3 && k2 != k3 && texts.Keys !! {k1, k2, k3}
    ensures SetText(SetText(SetText(p + Entries(texts), k1, v1), k2, v2), k3, v3)
            == p + Entries(texts[k1 := v1][k2 := v2][k3 := v3])
  {
    OneText(p, texts, k1, v1);
    OneText(p, texts[k1 := v1], k2, v2);
    OneText(p, texts[k1 := v1][k2 := v2], k3, v3);
  }

  lemma NoTexts(p: map<string, Json>)
    ensures p + Entries(map[]) == p
  {
  }

  lemma OneText(p: map<string, Json>, texts: map<string, string>, key: string, v: string)
    requires key !in texts
    ensures SetText(p + Entries(texts), key, v) == p + Entries(texts[key := v])
  {
  }

  method AddName(required: map<string, Json>, name: ScimName) returns (profile: map<string, Json>)
    ensures profile == required + Entries(NameTexts(name))
  {
    profile := SetText(required, "name", name.formatted);
    profile := SetText(profile, "first_name", name.givenName);
    profile := SetText(profile, "last_name", name.familyName);
  }

  method AddExtension(entries: map<string, Json>, e: ScimEnterpriseExtension) returns (profile: map<string, Json>)
    ensures profile == entries + Entries(ExtensionTexts(e))
  {
    profile := SetText(entries, "department", e.department);
    profile := SetText(profile, "organization", e.organization);
    profile := SetText(profile, "cost_center", e.costCenter);
    profile := SetText(profile, "division", e.division);
    profile := SetText(profile, "employee_number", e.employeeNumber);
    if e.manager.Some? {
      profile := SetText(profile, "manager_id", e.manager.value);
    }
    NoTexts(entries);
    ThreeTexts(entries, map[], "department", e.department, "organization", e.organization, "cost_center", e.costCenter);
    ghost var texts := map["department" := e.department, "organization" := e.organization,
                           "cost_center" := e.costCenter];
    ThreeTexts(entries, texts, "division", e.division, "employee_number", e.employeeNumber, "manager_id",
               e.manager.GetOr(""));
    hide Entries;
  }

  method AddContact(entries: map<string, Json>, u: ScimUser) returns (profile: map<string, Json>)
    ensures profile == entries + Entries(ContactTexts(u))
  {
    profile := entries;
    if |u.addresses| > 0 {
      var found := Search(u.addresses, PRIMARY_ADDRESS);
      var address := found.GetOr(u.addresses[0]);
      profile := SetText(profile, "country", address.country);
      profile := SetText(profile, "region", address.region);
      profile := SetText(profile, "locality", address.locality);
    }
    if |u.phoneNumbers| > 0 {
      var found := Search(u.phoneNumbers, PRIMARY_PHONE);
      profile := SetText(profile, "phone", found.GetOr(u.phoneNumbers[0]).value);
    }
    profile := SetText(profile, "preferred_language", u.preferredLanguage);
    NoTexts(entries);
    ghost var a, phone := MainAddress(u.addresses), MainPhone(u.phoneNumbers).value;
    ThreeTexts(entries, map[], "country", a.country, "region", a.region, "locality", a.locality);
    ghost var texts := map["country" := a.country, "region" := a.region, "locality" := a.locality];
    OneText(entries, texts, "phone", phone);
    OneText(entries, texts["phone" := phone], "preferred_language", u.preferredLanguage);
    hide Entries;
  }

  method EnterpriseUserResource(u: ScimUser) returns (r: Resource)
    ensures r == ResourceOf(u)
  {
    var email := "";
    var primary := Search(u.emails, PRIMARY_EMAIL);
    if primary.Some? {
      email := primary.value.value;
    }
    if email == "" && |u.emails| > 0 {
      email := u.emails[0].value;
    }
    var profile := map["login" := JString(u.userName), "user_id" := JString(u.id), "title" := JString(u.title),
                       "active" := JBool(u.active), "user_type" := JString(u.userType)];
    profile := AddName(profile, u.name);
    profile := AddExtension(profile, u.extension);
    profile := AddContact(profile, u);
    var displayName := u.name.formatted;
    if displayName == "" {
      displayName := u.userName;
    }
    return Resource(displayName, u.id, email, profile, u.active);
  }

  // ----- the resource, field by field ---------------------------------------------------------

  /** The entry holds this text, or is missing when the text is empty. */
  predicate Carries(profile: map<string, Json>, key: string, text: string) {
    (key in profile <==> text != "") && (text != "" ==> profile[key] == JString(text))
  }

  lemma UnionCarries(required: map<string, Json>, a: map<string, string>, b: map<string, string>,
                     c: map<string, string>)
    requires required.Keys !! a.Keys && required.Keys !! b.Keys && required.Keys !! c.Keys
    requires a.Keys !! b.Keys && a.Keys !! c.Keys && b.Keys !! c.Keys
    ensures var p := required + Entries(a) + Entries(b) + Entries(c);
            && (forall key | key in required :: key in p && p[key] == required[key])
            && (forall key | key in a :: Carries(p, key, a[key]))
            && (forall key | key in b :: Carries(p, key, b[key]))
            && (forall key | key in c :: Carries(p, key, c[key]))
            && p.Keys <= required.Keys + a.Keys + b.Keys + c.Keys
  {
  }

  lemma TextsApart(u: ScimUser)
    ensures NameTexts(u.name).Keys !! ExtensionTexts(u.extension).Keys
    ensures NameTexts(u.name).Keys !! ContactTexts(u).Keys
    ensures ExtensionTexts(u.extension).Keys !! ContactTexts(u).Keys
  {
    assert "country"[0] == 'c' && "region"[0] == 'r' && "locality"[0] == 'l' && "phone"[0] == 'p';
    assert "cost_center"[2] == 's' && "country"[2] == 'u' && "preferred_language"[0] == 'p';
  }

  lemma RequiredApart(u: ScimUser)
    ensures Required(u).Keys !! NameTexts(u.name).Keys
    ensures Required(u).Keys !! ContactTexts(u).Keys
    ensures Required(u).Keys !! ExtensionTexts(u.extension).Keys
  {
    RequiredApartFromExtension(u);
    hide ExtensionTexts;
  }

  lemma RequiredApartFromExtension(u: ScimUser)
    ensures Required(u).Keys !! ExtensionTexts(u.extension).Keys
  {
  }

  lemma ProfileIsUnion(u: ScimUser)
    ensures var p := ResourceOf(u).profile;
            && (forall key | key in Required(u) :: key in p && p[key] == Required(u)[key])
            && (forall key | key in NameTexts(u.name) :: Carries(p, key, NameTexts(u.name)[key]))
            && (forall key | key in ExtensionTexts(u.extension) :: Carries(p, key, ExtensionTexts(u.extension)[key]))
            && (forall key | key in ContactTexts(u) :: Carries(p, key, ContactTexts(u)[key]))
            && p.Keys <= Required(u).Keys + NameTexts(u.name).Keys + ExtensionTexts(u.extension).Keys
                         + ContactTexts(u).Keys
  {
    TextsApart(u);
    RequiredApart(u);
    hide Required, NameTexts, ExtensionTexts, ContactTexts, Entries;
    UnionCarries(Required(u), NameTexts(u.name), ExtensionTexts(u.extension), ContactTexts(u));
  }

  /** What the resource says of a user, except for the entries of which there may be several. */
  lemma ResourceFields(u: ScimUser)
    ensures var r := ResourceOf(u);
            && (r.enabled <==> u.active)
            && r.id == u.id
            && r.displayName == (if u.name.formatted != "" then u.name.formatted else u.userName)
    ensures var p := ResourceOf(u).profile;
            && {"login", "user_id", "title", "active", "user_type"} <= p.Keys
            && p["login"] == JString(u.userName) && p["user_id"] == JString(u.id) && p["title"] == JString(u.title)
            && p["active"] == JBool(u.active) && p["user_type"] == JString(u.userType)
    ensures var p := ResourceOf(u).profile;
            && Carries(p, "name", u.name.formatted)
            && Carries(p, "first_name", u.name.givenName)
            && Carries(p, "last_name", u.name.familyName)
            && Carries(p, "preferred_language", u.preferredLanguage)
    ensures var p, e := ResourceOf(u).profile, u.extension;
            && Carries(p, "department", e.department)
            && Carries(p, "organization", e.organization)
            && Carries(p, "cost_center", e.costCenter)
            && Carries(p, "division", e.division)
            && Carries(p, "employee_number", e.employeeNumber)
            && Carries(p, "manager_id", e.manager.GetOr(""))
  {
    ProfileIsUnion(u);
    ExtensionFields(u);
    hide Carries, Entries, MainAddress, MainPhone, ExtensionTexts;
    assert "login" in Required(u) && "user_id" in Required(u) && "title" in Required(u) && "active" in Required(u);
    assert "user_type" in Required(u);
    var n, c := NameTexts(u.name), ContactTexts(u);
    assert "name" in n && "first_name" in n && "last_name" in n && "preferred_language" in c;
  }

  lemma ExtensionFields(u: ScimUser)
    ensures var p, e := ResourceOf(u).profile, u.extension;
            && Carries(p, "department", e.department)
            && Carries(p, "organization", e.organization)
            && Carries(p, "cost_center", e.costCenter)
            && Carries(p, "division", e.division)
            && Carries(p, "employee_number", e.employeeNumber)
            && Carries(p, "manager_id", e.manager.GetOr(""))
  {
    ProfileIsUnion(u);
    hide Carries, Entries, NameTexts, ContactTexts, Required;
    var e := ExtensionTexts(u.extension);
    assert "department" in e && "organization" in e && "cost_center" in e && "division" in e;
    assert "employee_number" in e && "manager_id" in e;
  }

  /** There are no entries but these. */
  lemma ResourceKeys(u: ScimUser)
    ensures ResourceOf(u).profile.Keys
            <= {"login", "user_id", "title", "active", "user_type", "name", "first_name", "last_name", "department",
                "organization", "cost_center", "division", "employee_number", "manager_id", "country", "region",
                "locality", "phone", "preferred_language"}
  {
    ProfileIsUnion(u);
  }

  /** The profile carries this address. */
  predicate CarriesAddress(profile: map<string, Json>, a: ScimAddress) {
    Carries(profile, "country", a.country) && Carries(profile, "region", a.region)
    && Carries(profile, "locality", a.locality)
  }

  lemma SelectedContacts(u: ScimUser)
    ensures CarriesAddress(ResourceOf(u).profile, MainAddress(u.addresses))
    ensures Carries(ResourceOf(u).profile, "phone", MainPhone(u.phoneNumbers).value)
  {
    ProfileIsUnion(u);
    hide Carries, Entries, MainAddress, MainPhone;
    var c := ContactTexts(u);
    assert "country" in c && "region" in c && "locality" in c && "phone" in c;
  }

  /** Which email, address and phone number the resource carries: the first primary one, or the
      first of all when no primary one is there (for emails also when the primary one is empty). */
  lemma PrimarySelection(u: ScimUser, i: nat)
    ensures var email := ResourceOf(u).email;
            && (i < |u.emails| && u.emails[i].primary && (forall j | 0 <= j < i :: !u.emails[j].primary) ==>
                  email == if u.emails[i].value == "" then u.emails[0].value else u.emails[i].value)
            && (u.emails != [] && (forall j | 0 <= j < |u.emails| :: !u.emails[j].primary) ==>
                  email == u.emails[0].value)
            && (u.emails == [] ==> email == "")
    ensures var p := ResourceOf(u).profile;
            && (i < |u.addresses| && u.addresses[i].primary && (forall j | 0 <= j < i :: !u.addresses[j].primary) ==>
                  CarriesAddress(p, u.addresses[i]))
            && (u.addresses != [] && (forall j | 0 <= j < |u.addresses| :: !u.addresses[j].primary) ==>
                  CarriesAddress(p, u.addresses[0]))
            && (u.addresses == [] ==> "country" !in p && "region" !in p && "locality" !in p)
    ensures var p, phones := ResourceOf(u).profile, u.phoneNumbers;
            && (i < |phones| && phones[i].primary && (forall j | 0 <= j < i :: !phones[j].primary) ==>
                  Carries(p, "phone", phones[i].value))
            && (phones != [] && (forall j | 0 <= j < |phones| :: !phones[j].primary) ==>
                  Carries(p, "phone", phones[0].value))
            && (phones == [] ==> "phone" !in p)
  {
    SelectedContacts(u);
    assert ResourceOf(u).email == MainEmail(u.emails);
    FirstOf(u.emails, PRIMARY_EMAIL, i);
    FirstOf(u.addresses, PRIMARY_ADDRESS, i);
    FirstOf(u.phoneNumbers, PRIMARY_PHONE, i);
    hide ResourceOf, First;
  }

  lemma FirstOf<T>(s: seq<T>, test: T -> bool, i: nat)
    ensures i < |s| && test(s[i]) && (forall j | 0 <= j < i :: !test(s[j])) ==> First(s, test) == Some(s[i])
    ensures (forall j | 0 <= j < |s| :: !test(s[j])) ==> First(s, test) == None
  {
    if i < |s| && test(s[i]) && forall j | 0 <= j < i :: !test(s[j]) {
      FirstPosition(s, test, i);
    }
    if forall j | 0 <= j < |s| :: !test(s[j]) {
      NoFirst(s, test);
    }
  }

  // ----- license grants -----------------------------------------------------------------------

  datatype LicenseGrant = LicenseGrant(principal: string, license: string, id: string)

  /** The grants of a user resource: one for a known license, none otherwise. */
  function Grants(r: Resource): seq<LicenseGrant> {
    var userType := Member(JObject(r.profile), "user_type");
    if !userType.JString? || userType.text == "" then []
    else if userType.text == "enterprise" then [LicenseGrant(r.id, LICENSE_ENTERPRISE, LICENSE_ENTERPRISE + ":" + r.id)]
    else if userType.text == "view only" then [LicenseGrant(r.id, LICENSE_VIEW_ONLY, LICENSE_VIEW_ONLY + ":" + r.id)]
    else []
  }

  /** A sync reports this license for this user. */
  predicate Reports(u: ScimUser, license: string) {
    exists i :: 0 <= i < |Grants(ResourceOf(u))| && Grants(ResourceOf(u))[i].license == license
  }

  /** A sync reports a license exactly when it is a known one and the user's type. */
  lemma ReportsUserType(u: ScimUser, license: string)
    ensures Reports(u, license) <==> license == u.userType && license in {LICENSE_ENTERPRISE, LICENSE_VIEW_ONLY}
    ensures var grants := Grants(ResourceOf(u));
            && |grants| <= 1
            && forall i | 0 <= i < |grants| ::
                 grants[i].principal == u.id && grants[i].id == grants[i].license + ":" + u.id
  {
    ResourceFields(u);
    hide ResourceOf;
    var grants := Grants(ResourceOf(u));
    if u.userType in {LICENSE_ENTERPRISE, LICENSE_VIEW_ONLY} {
      assert grants[0].license == u.userType;
    }
  }

  // ----- the user list ------------------------------------------------------------------------

  /** One page of the sync, for any server given as its answer to a count and a start index, which
      may be a failure. Without a parent there is nothing to list. */
  method List(hasParent: bool, serve: (int, int) -> Option<Paging.ListResponse<ScimUser>>, token: string)
      returns (page: Option<Paging.Page<Resource>>)
    ensures page == if !hasParent then Some(Paging.Page([], ""))
                    else
                      match serve(100, Paging.StartIndex(token))
                      case Some(response) => Some(Paging.PageOf(Paging.StartIndex(token), response, ResourceOf))
                      case None => None
  {
    if !hasParent {
      return Some(Paging.Page([], ""));
    }
    var startIdx := 1;
    if token != "" {
      var idx := Atoi(token);
      if idx.Some? && idx.value > 0 {
        startIdx := idx.value;
      }
    }
    var answer := serve(Paging.RESOURCES_PAGE_SIZE, startIdx);
    if answer.None? {
      return None;
    }
    var response := answer.value;
    var rv := [];
    for i := 0 to |response.resources|
      invariant |rv| == i
      invariant forall j | 0 <= j < i :: rv[j] == ResourceOf(response.resources[j])
    {
      var r := EnterpriseUserResource(response.resources[i]);
      rv := rv + [r];
    }
    assert rv == Paging.Rendered(response.resources, ResourceOf);
    var nextToken := "";
    if |response.resources| > 0 {
      var nextStartIdx := Wrap(startIdx + |response.resources|);
      if nextStartIdx <= response.total {
        nextToken := Itoa(nextStartIdx);
      }
    }
    return Some(Paging.Page(rv, nextToken));
  }
}
