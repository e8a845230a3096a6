/** The SCIM entities of pkg/asana/models.go and decoded JSON values. */
module Scim {
  import opened Text

  /** A decoded `interface{}` value; an absent value is `JNull`. */
  datatype Json =
    | JNull
    | JBool(flag: bool)
    | JNumber(number: real)
    | JString(text: string)
    | JArray(items: seq<Json>)
    | JObject(fields: map<string, Json>)

  /** Indexing a decoded object: a missing key, or a value that is no object, reads as null. */
  function Member(v: Json, key: string): Json {
    if v.JObject? && key in v.fields then v.fields[key] else JNull
  }

  datatype ScimName = ScimName(givenName: string, familyName: string, formatted: string)

  datatype ScimEmail = ScimEmail(value: string, kind: string, primary: bool)

  datatype ScimAddress = ScimAddress(locality: string, region: string, country: string, kind: string, primary: bool)

  datatype ScimPhoneNumber = ScimPhoneNumber(value: string, kind: string, primary: bool)

  /** `manager` is a pointer in the source, hence the option. */
  datatype ScimEnterpriseExtension = ScimEnterpriseExtension(
    department: string, costCenter: string, organization: string,
    division: string, employeeNumber: string, manager: Option<string>)

  /** `schemas` tells a nil slice (`None`) from an empty one: the normalisers test for nil. */
  datatype ScimUser = ScimUser(
    id: string, schemas: Option<seq<string>>, name: ScimName, userName: string,
    emails: seq<ScimEmail>, active: bool, title: string, preferredLanguage: string,
    addresses: seq<ScimAddress>, phoneNumbers: seq<ScimPhoneNumber>, userType: string,
    extension: ScimEnterpriseExtension)

  datatype ScimMember = ScimMember(value: string, display: string, kind: string)

  datatype ScimTeam = ScimTeam(
    id: string, schemas: Option<seq<string>>, displayName: string,
    members: seq<ScimMember>, resourceType: string)

  datatype PatchOperation = PatchOperation(op: string, path: string, value: Json)

  const USER_SCHEMA := "urn:ietf:params:scim:schemas:core:2.0:User"
  const ENTERPRISE_SCHEMA := "urn:ietf:params:scim:schemas:extension:enterprise:2.0:User"
  const GROUP_SCHEMA := "urn:ietf:params:scim:schemas:core:2.0:Group"
  const RESOURCE_TYPE_GROUP := "Group"
  const MEMBERS_PATH := "members"

  const LICENSE_ENTERPRISE := "enterprise"
  const LICENSE_VIEW_ONLY := "view only"

  const NO_NAME := ScimName("", "", "")
  const NO_EXTENSION := ScimEnterpriseExtension("", "", "", "", "", None)

  /** What a request asks for and what it gets: a status code, and a body on success. */
  datatype Reply<+T> = Success(status: nat, body: T) | Failure(status: nat)
}
