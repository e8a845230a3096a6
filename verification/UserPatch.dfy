/** What a PATCH of a user does (RFC 7644 section 3.5.2): the last well-typed write to a field wins,
    in path form and in object form alike. */
module UserPatch {
  import opened Text
  import opened Scim

  // ----- the server's two forms of replace ----------------------------------------------------

  const NAME_FORMATTED := "name.formatted"
  const DEPARTMENT_PATH := ENTERPRISE_SCHEMA + ":department"

  function TextOr(v: Json, current: string): string {
    if v.JString? then v.text else current
  }

  function FlagOr(v: Json, current: bool): bool {
    if v.JBool? then v.flag else current
  }

  /** A path-less replace: every key of the value is looked up once, so no order is involved. */
  function ReplaceObject(u: ScimUser, value: map<string, Json>): ScimUser {
    var v := JObject(value);
    u.(active := FlagOr(Member(v, "active"), u.active),
       title := TextOr(Member(v, "title"), u.title),
       name := u.name.(formatted := TextOr(Member(Member(v, "name"), "formatted"), u.name.formatted)),
       userName := TextOr(Member(v, "userName"), u.userName),
       preferredLanguage := TextOr(Member(v, "preferredLanguage"), u.preferredLanguage),
       userType := TextOr(Member(v, "userType"), u.userType),
       extension := u.extension.(
         department := TextOr(Member(Member(v, ENTERPRISE_SCHEMA), "department"), u.extension.department)))
  }

  function ReplacePath(u: ScimUser, path: string, v: Json): ScimUser {
    if path == "active" then u.(active := FlagOr(v, u.active))
    else if path == "title" then u.(title := TextOr(v, u.title))
    else if path == NAME_FORMATTED then u.(name := u.name.(formatted := TextOr(v, u.name.formatted)))
    else if path == "userName" then u.(userName := TextOr(v, u.userName))
    else if path == "preferredLanguage" then u.(preferredLanguage := TextOr(v, u.preferredLanguage))
    else if path == "userType" then u.(userType := TextOr(v, u.userType))
    else if path == DEPARTMENT_PATH then u.(extension := u.extension.(department := TextOr(v, u.extension.department)))
    else u
  }

  function ApplyOperation(u: ScimUser, op: PatchOperation): ScimUser {
    if op.op != "replace" then u
    else if op.path == "" then if op.value.JObject? then ReplaceObject(u, op.value.fields) else u
    else ReplacePath(u, op.path, op.value)
  }

  function ApplyAll(u: ScimUser, ops: seq<PatchOperation>): ScimUser {
    if ops == [] then u
    else ApplyOperation(ApplyAll(u, ops[..|ops| - 1]), ops[|ops| - 1])
  }

  // ----- the patchable fields -----------------------------------------------------------------

  datatype Field = Active | Title | FormattedName | UserName | PreferredLanguage | UserType | Department

  function Get(u: ScimUser, f: Field): Json {
    match f
    case Active => JBool(u.active)
    case Title => JString(u.title)
    case FormattedName => JString(u.name.formatted)
    case UserName => JString(u.userName)
    case PreferredLanguage => JString(u.preferredLanguage)
    case UserType => JString(u.userType)
    case Department => JString(u.extension.department)
  }

  predicate WellTyped(f: Field, v: Json) {
    if f == Active then v.JBool? else v.JString?
  }

  /** The path that names a field, and the place of the same field inside an object value. */
  function Path(f: Field): string {
    match f
    case Active => "active"
    case Title => "title"
    case FormattedName => NAME_FORMATTED
    case UserName => "userName"
    case PreferredLanguage => "preferredLanguage"
    case UserType => "userType"
    case Department => DEPARTMENT_PATH
  }

  function InObject(f: Field, value: Json): Json {
    match f
    case FormattedName => Member(Member(value, "name"), "formatted")
    case Department => Member(Member(value, ENTERPRISE_SCHEMA), "department")
    case _ => Member(value, Path(f))
  }

  /** The value an operation writes to a field, if it writes one. */
  function Written(op: PatchOperation, f: Field): (w: Option<Json>)
    ensures w.Some? ==> WellTyped(f, w.value)
  {
    if op.op != "replace" then None
    else
      var v := if op.path == "" then InObject(f, op.value)
               else if op.path == Path(f) then op.value
               else JNull;
      if WellTyped(f, v) then Some(v) else None
  }

  /** The part of a user no PATCH can reach. */
  function Untouchable(u: ScimUser): ScimUser {
    u.(active := false, title := "", name := u.name.(formatted := ""), userName := "",
       preferredLanguage := "", userType := "", extension := u.extension.(department := ""))
  }

  lemma PathsDiffer(f: Field, g: Field)
    ensures Path(f) == Path(g) ==> f == g
    ensures Path(f) != ""
  {
    assert |DEPARTMENT_PATH| > 40;
    assert "userName"[4] == 'N' && "userType"[4] == 'T';
  }

  lemma PathOperation(u: ScimUser, path: string, v: Json, f: Field)
    ensures Get(ReplacePath(u, path, v), f) == if path == Path(f) && WellTyped(f, v) then v else Get(u, f)
    ensures Untouchable(ReplacePath(u, path, v)) == Untouchable(u)
  {
    hide ReplacePath, Untouchable, Get;
    if g: Field :| path == Path(g) {
      PathsDiffer(f, g);
      PathWrite(u, g, v);
    } else {
      OtherPath(u, path, v);
    }
  }

  lemma OtherPath(u: ScimUser, path: string, v: Json)
    requires forall g: Field :: path != Path(g)
    ensures ReplacePath(u, path, v) == u
  {
    assert path != Path(Active) && path != Path(Title) && path != Path(FormattedName) && path != Path(UserName)
        && path != Path(PreferredLanguage) && path != Path(UserType) && path != Path(Department);
  }

  lemma PathWrite(u: ScimUser, g: Field, v: Json)
    ensures var w := ReplacePath(u, Path(g), v);
            && Untouchable(w) == Untouchable(u)
            && forall f: Field :: Get(w, f) == if f == g && WellTyped(g, v) then v else Get(u, f)
  {
    PathsDiffer(g, Active);
    PathsDiffer(g, Title);
    PathsDiffer(g, FormattedName);
    PathsDiffer(g, UserName);
    PathsDiffer(g, PreferredLanguage);
    PathsDiffer(g, UserType);
    PathsDiffer(g, Department);
  }

  lemma ObjectOperation(u: ScimUser, value: map<string, Json>, f: Field)
    ensures Get(ReplaceObject(u, value), f)
            == if WellTyped(f, InObject(f, JObject(value))) then InObject(f, JObject(value)) else Get(u, f)
    ensures Untouchable(ReplaceObject(u, value)) == Untouchable(u)
  {
  }

  lemma OneOperation(u: ScimUser, op: PatchOperation, f: Field)
    ensures Get(ApplyOperation(u, op), f) == Written(op, f).GetOr(Get(u, f))
    ensures Untouchable(ApplyOperation(u, op)) == Untouchable(u)
  {
    hide ReplacePath, ReplaceObject, Untouchable;
    if op.op == "replace" && op.path != "" {
      PathOperation(u, op.path, op.value, f);
    } else if op.op == "replace" && op.value.JObject? {
      ObjectOperation(u, op.value.fields, f);
    }
  }

  /** Two users that agree on every patchable field and on the rest are the same user. */
  lemma SameUser(u: ScimUser, v: ScimUser)
    requires Untouchable(u) == Untouchable(v)
    requires forall f: Field :: Get(u, f) == Get(v, f)
    ensures u == v
  {
    assert Get(u, Active) == Get(v, Active) && Get(u, Title) == Get(v, Title) && Get(u, UserName) == Get(v, UserName);
    assert Get(u, FormattedName) == Get(v, FormattedName) && Get(u, Department) == Get(v, Department);
    assert Get(u, PreferredLanguage) == Get(v, PreferredLanguage) && Get(u, UserType) == Get(v, UserType);
  }

  /** Last writer wins: after any operation list each field holds what the last operation that
      writes it wrote, or its old value (`last` is then -1) when none does. */
  lemma {:induction false} LastWriterWins(u: ScimUser, ops: seq<PatchOperation>, f: Field) returns (last: int)
    ensures -1 <= last < |ops|
    ensures forall j | last < j < |ops| :: Written(ops[j], f).None?
    ensures last >= 0 ==> Written(ops[last], f) == Some(Get(ApplyAll(u, ops), f))
    ensures last == -1 ==> Get(ApplyAll(u, ops), f) == Get(u, f)
  {
    hide ApplyOperation, Written, Get;
    last := -1;
    if ops != [] {
      var front, op := ops[..|ops| - 1], ops[|ops| - 1];
      OneOperation(ApplyAll(u, front), op, f);
      last := LastWriterWins(u, front, f);
      assert forall j | 0 <= j < |front| :: front[j] == ops[j];
      if Written(op, f).Some? {
        last := |front|;
      }
    }
  }

  /** No PATCH reaches anything but the patchable fields. */
  lemma {:induction false} RestUntouched(u: ScimUser, ops: seq<PatchOperation>)
    ensures Untouchable(ApplyAll(u, ops)) == Untouchable(u)
  {
    hide ApplyOperation, Untouchable;
    if ops != [] {
      var front := ops[..|ops| - 1];
      RestUntouched(u, front);
      OneOperation(ApplyAll(u, front), ops[|ops| - 1], Active);
    }
  }

  /** Sending a PATCH twice is the same as sending it once. */
  lemma PatchTwice(u: ScimUser, ops: seq<PatchOperation>)
    ensures ApplyAll(ApplyAll(u, ops), ops) == ApplyAll(u, ops)
  {
    var once := ApplyAll(u, ops);
    forall f: Field ensures Get(ApplyAll(once, ops), f) == Get(once, f) {
      var last := LastWriterWins(u, ops, f);
      var again := LastWriterWins(once, ops, f);
      assert last == again;
    }
    RestUntouched(once, ops);
    SameUser(ApplyAll(once, ops), once);
  }

  // ----- object form and path form ------------------------------------------------------------

  /** The single-path replace that one key of an object value stands for, if it stands for one. */
  function Translate(key: string, v: Json): Option<PatchOperation> {
    if key == "name" then Some(PatchOperation("replace", NAME_FORMATTED, Member(v, "formatted")))
    else if key == ENTERPRISE_SCHEMA then Some(PatchOperation("replace", DEPARTMENT_PATH, Member(v, "department")))
    else if key in {"active", "title", "userName", "preferredLanguage", "userType"} then
      Some(PatchOperation("replace", key, v))
    else None
  }

  function TranslateAll(value: map<string, Json>, order: seq<string>): seq<PatchOperation>
    requires forall key | key in order :: key in value
  {
    if order == [] then []
    else
      var rest := TranslateAll(value, order[..|order| - 1]);
      var key := order[|order| - 1];
      match Translate(key, value[key])
      case Some(op) => rest + [op]
      case None => rest
  }

  /** The key of an object value that can write a field. */
  function KeyOf(f: Field): string {
    match f
    case FormattedName => "name"
    case Department => ENTERPRISE_SCHEMA
    case _ => Path(f)
  }

  function WholeObject(value: map<string, Json>): PatchOperation {
    PatchOperation("replace", "", JObject(value))
  }

  lemma TranslatedWrite(value: map<string, Json>, key: string, f: Field)
    requires key in value
    ensures match Translate(key, value[key])
            case Some(op) => Written(op, f) == if key == KeyOf(f) then Written(WholeObject(value), f) else None
            case None => key != KeyOf(f)
  {
    assert |ENTERPRISE_SCHEMA| > 40;
    forall g: Field { PathsDiffer(f, g); }
    assert |"preferredLanguage"| == 17 && |"userName"| == 8 && |"userType"| == 8 && |"title"| == 5
        && |"active"| == 6 && |"name"| == 4;
    assert "userName"[4] == 'N' && "userType"[4] == 'T';
  }

  lemma {:induction false} TranslatedGet(u: ScimUser, value: map<string, Json>, order: seq<string>, f: Field)
    requires forall key | key in order :: key in value
    ensures Get(ApplyAll(u, TranslateAll(value, order)), f)
            == (if KeyOf(f) in order then Written(WholeObject(value), f).GetOr(Get(u, f)) else Get(u, f))
    ensures Untouchable(ApplyAll(u, TranslateAll(value, order))) == Untouchable(u)
  {
    hide ApplyOperation, Get, Untouchable, Translate, KeyOf, Written, WholeObject;
    if order != [] {
      var front, key := order[..|order| - 1], order[|order| - 1];
      assert order == front + [key];
      var rest := TranslateAll(value, front);
      TranslatedGet(u, value, front, f);
      TranslatedWrite(value, key, f);
      if Translate(key, value[key]).Some? {
        var op := Translate(key, value[key]).value;
        assert (rest + [op])[..|rest|] == rest;
        OneOperation(ApplyAll(u, rest), op, f);
      }
    }
  }

  /** A path-less replace equals the sequence of single-path replaces its keys translate to, taken
      in any order that lists every key, so the unspecified iteration order of the map is harmless. */
  lemma ObjectFormIsPathForm(u: ScimUser, value: map<string, Json>, order: seq<string>)
    requires forall key :: key in order <==> key in value
    ensures ApplyAll(u, TranslateAll(value, order)) == ReplaceObject(u, value)
  {
    var whole := WholeObject(value);
    forall f: Field ensures Get(ApplyAll(u, TranslateAll(value, order)), f) == Get(ReplaceObject(u, value), f) {
      TranslatedGet(u, value, order, f);
      OneOperation(u, whole, f);
      if KeyOf(f) !in value {
        assert InObject(f, JObject(value)) == JNull;
      }
    }
    TranslatedGet(u, value, order, Active);
    OneOperation(u, whole, Active);
    SameUser(ApplyAll(u, TranslateAll(value, order)), ReplaceObject(u, value));
  }

  // ----- the forms of one operation, written out ----------------------------------------------

  /** What a replace with a path does: each of seven paths sets its field to a value of the right
      type, and anything else is ignored. */
  lemma PathForms(u: ScimUser, v: Json)
    ensures ApplyOperation(u, PatchOperation("replace", "active", v)) == if v.JBool? then u.(active := v.flag) else u
    ensures ApplyOperation(u, PatchOperation("replace", "title", v)) == if v.JString? then u.(title := v.text) else u
    ensures ApplyOperation(u, PatchOperation("replace", "name.formatted", v))
            == if v.JString? then u.(name := u.name.(formatted := v.text)) else u
    ensures ApplyOperation(u, PatchOperation("replace", "userName", v))
            == if v.JString? then u.(userName := v.text) else u
    ensures ApplyOperation(u, PatchOperation("replace", "preferredLanguage", v))
            == if v.JString? then u.(preferredLanguage := v.text) else u
    ensures ApplyOperation(u, PatchOperation("replace", "userType", v))
            == if v.JString? then u.(userType := v.text) else u
    ensures ApplyOperation(u, PatchOperation(
                "replace", "urn:ietf:params:scim:schemas:extension:enterprise:2.0:User:department", v))
            == if v.JString? then u.(extension := u.extension.(department := v.text)) else u
  {
    assert |"preferredLanguage"| == 17 && |"userName"| == 8 && |"userType"| == 8 && |"title"| == 5
        && |"active"| == 6 && |"name.formatted"| == 14;
    assert "userName"[4] == 'N' && "userType"[4] == 'T' && |DEPARTMENT_PATH| > 40;
    assert DEPARTMENT_PATH == "urn:ietf:params:scim:schemas:extension:enterprise:2.0:User:department";
    hide ReplaceObject;
  }

  /** Any other operation leaves the user as it is. */
  lemma OtherFormsIgnored(u: ScimUser, op: PatchOperation)
    requires || op.op != "replace"
             || (op.path == "" && !op.value.JObject?)
             || (op.path !in {"", "active", "title", "name.formatted", "userName", "preferredLanguage", "userType",
                              "urn:ietf:params:scim:schemas:extension:enterprise:2.0:User:department"})
    ensures ApplyOperation(u, op) == u
  {
    assert DEPARTMENT_PATH == "urn:ietf:params:scim:schemas:extension:enterprise:2.0:User:department";
  }

  /** The text at a key of an object value, or what stands there now. */
  function TextAt(value: map<string, Json>, key: string, current: string): string {
    if key in value && value[key].JString? then value[key].text else current
  }

  /** The same at a key of an object inside the value. */
  function TextInside(value: map<string, Json>, outer: string, key: string, current: string): string {
    if outer in value && value[outer].JObject? then TextAt(value[outer].fields, key, current) else current
  }

  /** What a replace without a path does with an object value. */
  lemma ObjectForm(u: ScimUser, value: map<string, Json>)
    ensures var v := ApplyOperation(u, PatchOperation("replace", "", JObject(value)));
            && v.active == (if "active" in value && value["active"].JBool? then value["active"].flag else u.active)
            && v.title == TextAt(value, "title", u.title)
            && v.name == u.name.(formatted := TextInside(value, "name", "formatted", u.name.formatted))
            && v.userName == TextAt(value, "userName", u.userName)
            && v.preferredLanguage == TextAt(value, "preferredLanguage", u.preferredLanguage)
            && v.userType == TextAt(value, "userType", u.userType)
            && v.extension == u.extension.(department := TextInside(
                 value, "urn:ietf:params:scim:schemas:extension:enterprise:2.0:User", "department",
                 u.extension.department))
  {
  }
}
