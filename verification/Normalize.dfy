/** How a user is completed on its way in: by the client before a request and by the server before
    the write. Creation is idempotent; the enterprise schema is tracked with its multiplicity. */
module Normalize {
  import opened Text
  import opened Scim

  // ----- schemas ------------------------------------------------------------------------------

  /** JSON encoding with `omitempty`: an empty list is left out, so the receiver decodes nil. */
  function Wire(u: ScimUser): ScimUser {
    if u.schemas == Some([]) then u.(schemas := None) else u
  }

  function AddEnterprise(schemas: seq<string>, extension: ScimEnterpriseExtension): seq<string> {
    if extension != NO_EXTENSION && ENTERPRISE_SCHEMA !in schemas then schemas + [ENTERPRISE_SCHEMA] else schemas
  }

  /** The schema completion of the client's create and of the server's create and PUT. */
  function CompleteSchemas(u: ScimUser): ScimUser {
    u.(schemas := Some(AddEnterprise(u.schemas.GetOr([USER_SCHEMA]), u.extension)))
  }

  /** The schema completion of the client's PUT, whose test is not negated: the URI is appended
      when it is already there. */
  function CompleteSchemasForPut(u: ScimUser): ScimUser {
    var schemas := u.schemas.GetOr([USER_SCHEMA]);
    u.(schemas := Some(if u.extension != NO_EXTENSION && ENTERPRISE_SCHEMA in schemas
                       then schemas + [ENTERPRISE_SCHEMA] else schemas))
  }

  method HasSchema(schemas: seq<string>, wanted: string) returns (found: bool)
    ensures found <==> wanted in schemas
  {
    found := false;
    for i := 0 to |schemas|
      invariant !found && wanted !in schemas[..i]
    {
      if schemas[i] == wanted {
        return true;
      }
    }
    assert schemas[..|schemas|] == schemas;
  }

  method EnsureSchemas(u: ScimUser) returns (r: ScimUser)
    ensures r == CompleteSchemas(u)
  {
    r := u;
    if r.schemas.None? {
      r := r.(schemas := Some([USER_SCHEMA]));
    }
    if r.extension != NO_EXTENSION {
      var has := HasSchema(r.schemas.value, ENTERPRISE_SCHEMA);
      if !has {
        r := r.(schemas := Some(r.schemas.value + [ENTERPRISE_SCHEMA]));
      }
    }
  }

  function EnterpriseCount(u: ScimUser): nat {
    multiset(u.schemas.GetOr([]))[ENTERPRISE_SCHEMA]
  }

  lemma SchemaCounts(u: ScimUser)
    ensures EnterpriseCount(Wire(u)) == EnterpriseCount(u)
    ensures EnterpriseCount(CompleteSchemas(u))
            == if u.extension != NO_EXTENSION && EnterpriseCount(u) == 0 then 1 else EnterpriseCount(u)
    ensures EnterpriseCount(CompleteSchemasForPut(u))
            == if u.extension != NO_EXTENSION && EnterpriseCount(u) > 0
               then EnterpriseCount(u) + 1 else EnterpriseCount(u)
  {
    assert ENTERPRISE_SCHEMA != USER_SCHEMA by {
      assert |ENTERPRISE_SCHEMA| == 58 && |USER_SCHEMA| == 42;
    }
    assert multiset([USER_SCHEMA])[ENTERPRISE_SCHEMA] == 0;
  }

  /** POST through client and server: with extension data the URI ends up listed, once for an input
      that listed it at most once; without extension data its multiplicity is kept. */
  lemma EnterpriseSchemaOnCreate(u: ScimUser)
    ensures var stored := CompleteSchemas(Wire(CompleteSchemas(u)));
            EnterpriseCount(stored)
            == if u.extension == NO_EXTENSION || EnterpriseCount(u) > 0 then EnterpriseCount(u) else 1
  {
    SchemaCounts(u);
    SchemaCounts(CompleteSchemas(u));
    SchemaCounts(Wire(CompleteSchemas(u)));
  }

  /** PUT through client and server: the URI ends up listed too, but an input with extension data
      that already lists it gains one copy more. */
  lemma EnterpriseSchemaOnPut(u: ScimUser)
    ensures var stored := CompleteSchemas(Wire(CompleteSchemasForPut(u)));
            EnterpriseCount(stored)
            == if u.extension == NO_EXTENSION then EnterpriseCount(u) else EnterpriseCount(u) + 1
  {
    SchemaCounts(u);
    SchemaCounts(CompleteSchemasForPut(u));
    SchemaCounts(Wire(CompleteSchemasForPut(u)));
  }

  // ----- names --------------------------------------------------------------------------------

  function JoinName(name: ScimName): ScimName {
    if name.formatted == "" && (name.givenName != "" || name.familyName != "")
    then name.(formatted := TrimSpace(name.givenName + " " + name.familyName))
    else name
  }

  function SplitName(name: ScimName): ScimName {
    if name.formatted != "" && name.givenName == "" && name.familyName == "" then
      var parts := SplitOnce(name.formatted, " ");
      name.(givenName := parts[0], familyName := if |parts| > 1 then parts[1] else "")
    else name
  }

  method EnsureNames(name: ScimName) returns (r: ScimName)
    ensures r == SplitName(JoinName(name))
  {
    r := name;
    if r.formatted == "" && (r.givenName != "" || r.familyName != "") {
      r := r.(formatted := TrimSpace(r.givenName + " " + r.familyName));
    }
    if r.formatted != "" && r.givenName == "" && r.familyName == "" {
      var parts := SplitOnce(r.formatted, " ");
      r := r.(givenName := parts[0]);
      if |parts| > 1 {
        r := r.(familyName := parts[1]);
      }
    }
  }

  /** Splitting loses no text: a name with a space is given name, space, family name; without one
      it is the given name. */
  lemma SplitNameRejoins(name: ScimName)
    requires name.givenName == name.familyName == ""
    ensures var s := SplitName(name);
            s.formatted == name.formatted
            && (' ' in name.formatted ==> name.formatted == s.givenName + " " + s.familyName)
            && (' ' !in name.formatted ==> name.formatted == s.givenName && s.familyName == "")
    ensures ' ' !in SplitName(name).givenName
  {
    hide Index;
    var f := name.formatted;
    var i := Index(f, " ");
    IndexOfChar(f, ' ');
    if i >= 0 {
      assert f == f[..i] + " " + f[i + 1..];
    }
  }

  // ----- emails -------------------------------------------------------------------------------

  predicate FirstPrimary(emails: seq<ScimEmail>, i: nat)
    requires i < |emails|
  {
    emails[i].primary && forall j | 0 <= j < i :: !emails[j].primary
  }

  /** The first primary address gets type "work" when it has none; the others are left alone. */
  function TypePrimary(emails: seq<ScimEmail>): seq<ScimEmail> {
    seq(|emails|, i requires 0 <= i < |emails| =>
      if FirstPrimary(emails, i) && emails[i].kind == "" then emails[i].(kind := "work") else emails[i])
  }

  method SetPrimaryType(emails: seq<ScimEmail>) returns (typed: seq<ScimEmail>)
    ensures typed == TypePrimary(emails)
  {
    typed := emails;
    for i := 0 to |emails|
      invariant typed == emails
      invariant forall j | 0 <= j < i :: !emails[j].primary
    {
      if emails[i].primary {
        if emails[i].kind == "" {
          typed := typed[i := emails[i].(kind := "work")];
        }
        return;
      }
    }
  }

  // ----- creation -----------------------------------------------------------------------------

  /** Everything the server's create fills in, apart from the id. */
  function ForCreate(u: ScimUser): ScimUser {
    CompleteSchemas(u).(name := SplitName(JoinName(u.name)),
                        emails := TypePrimary(u.emails),
                        userType := if u.userType == "" then LICENSE_ENTERPRISE else u.userType)
  }

  /** A complete user: exactly the fixed points of `ForCreate`. */
  predicate Complete(u: ScimUser) {
    && u.schemas.Some?
    && (u.extension != NO_EXTENSION ==> ENTERPRISE_SCHEMA in u.schemas.value)
    && (u.name.formatted == "" ==> TrimSpace(u.name.givenName + " " + u.name.familyName) == "")
    && (u.name.givenName == u.name.familyName == "" && u.name.formatted != "" ==> u.name.formatted == " ")
    && (forall i | 0 <= i < |u.emails| && FirstPrimary(u.emails, i) :: u.emails[i].kind != "")
    && u.userType != ""
  }

  lemma FixedPoints(u: ScimUser)
    ensures ForCreate(u) == u <==> Complete(u)
  {
  }

  /** Creation normalisation is idempotent. */
  lemma CreateIdempotent(u: ScimUser)
    ensures ForCreate(ForCreate(u)) == ForCreate(u)
    ensures Complete(ForCreate(u))
  {
    var emails := TypePrimary(u.emails);
    assert forall i | 0 <= i < |emails| :: emails[i].primary == u.emails[i].primary;
    assert forall i | 0 <= i < |emails| :: FirstPrimary(emails, i) <==> FirstPrimary(u.emails, i);
    FixedPoints(ForCreate(u));
  }

  /** Creation only fills gaps: whatever the request says is stored as it says it. */
  lemma CreateOnlyFillsGaps(u: ScimUser)
    ensures var v := ForCreate(u);
            && v.(schemas := u.schemas, name := u.name, emails := u.emails, userType := u.userType) == u
            && (u.userType != "" ==> v.userType == u.userType)
            && (u.name.formatted != "" ==> v.name.formatted == u.name.formatted)
            && (u.name.givenName != "" || u.name.familyName != "" ==>
                  v.name.givenName == u.name.givenName && v.name.familyName == u.name.familyName)
            && |v.emails| == |u.emails|
            && (forall i | 0 <= i < |u.emails| ::
                 v.emails[i].value == u.emails[i].value && v.emails[i].primary == u.emails[i].primary)
            && (forall i | 0 <= i < |u.emails| && v.emails[i] != u.emails[i] ::
                 FirstPrimary(u.emails, i) && u.emails[i].kind == "")
            && (u.schemas.Some? ==> u.schemas.value <= v.schemas.value)
  {
  }
}
