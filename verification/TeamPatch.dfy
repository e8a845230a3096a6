/** What a PATCH of a team does to its member list and display name
    (RFC 7644 section 3.5.2), stated list-wise and set-wise. */
module TeamPatch {
  import opened Text
  import opened Scim

  // ----- reading the value of an operation ----------------------------------------------------

  /** The id named by one entry of a members value; ill-typed entries name none. */
  function EntryId(entry: Json): Option<string> {
    var v := Member(entry, "value");
    if v.JString? then Some(v.text) else None
  }

  /** The ids named by a members value, in order. */
  function IdsIn(items: seq<Json>): seq<string> {
    if items == [] then []
    else
      var rest := IdsIn(items[..|items| - 1]);
      match EntryId(items[|items| - 1])
      case Some(id) => rest + [id]
      case None => rest
  }

  function IdSet(members: seq<ScimMember>): set<string> {
    set m | m in members :: m.value
  }

  function ToSet(ids: seq<string>): set<string> {
    set id | id in ids
  }

  // ----- the three member operations ----------------------------------------------------------

  /** A fresh member entry; the display name comes from the directory when the user is there. */
  function NewMember(users: map<string, ScimUser>, id: string): ScimMember {
    ScimMember(id, if id in users then users[id].name.formatted else "", "")
  }

  function NewMembers(users: map<string, ScimUser>, ids: seq<string>): (members: seq<ScimMember>)
    ensures |members| == |ids|
    ensures forall i | 0 <= i < |ids| :: members[i].value == ids[i]
  {
    seq(|ids|, i requires 0 <= i < |ids| => NewMember(users, ids[i]))
  }

  /** The first occurrences in `ids` of the ids that are not in `have`. */
  function FirstNew(ids: seq<string>, have: set<string>): seq<string> {
    if ids == [] then []
    else
      var rest := FirstNew(ids[..|ids| - 1], have);
      var last := ids[|ids| - 1];
      if last in have || last in rest then rest else rest + [last]
  }

  function AddMembers(users: map<string, ScimUser>, members: seq<ScimMember>, ids: seq<string>): seq<ScimMember> {
    members + NewMembers(users, FirstNew(ids, IdSet(members)))
  }

  /** The order-preserving filter that drops the members whose id is in `gone`. */
  function Without(members: seq<ScimMember>, gone: set<string>): seq<ScimMember> {
    if members == [] then []
    else
      var rest := Without(members[..|members| - 1], gone);
      var last := members[|members| - 1];
      if last.value in gone then rest else rest + [last]
  }

  lemma {:induction false} WithoutMembers(members: seq<ScimMember>, gone: set<string>)
    ensures forall m :: m in Without(members, gone) <==> m in members && m.value !in gone
  {
    if members != [] {
      WithoutMembers(members[..|members| - 1], gone);
      assert members == members[..|members| - 1] + [members[|members| - 1]];
    }
  }

  function ApplyOperation(users: map<string, ScimUser>, team: ScimTeam, op: PatchOperation): ScimTeam {
    if op.path == MEMBERS_PATH && op.value.JArray? then
      var ids := IdsIn(op.value.items);
      if op.op == "add" then team.(members := AddMembers(users, team.members, ids))
      else if op.op == "remove" then team.(members := Without(team.members, ToSet(ids)))
      else if op.op == "replace" then team.(members := NewMembers(users, ids))
      else team
    else if op.op == "replace" && op.path == "displayName" && op.value.JString? then
      team.(displayName := op.value.text)
    else team
  }

  function ApplyAll(users: map<string, ScimUser>, team: ScimTeam, ops: seq<PatchOperation>): ScimTeam {
    if ops == [] then team
    else ApplyOperation(users, ApplyAll(users, team, ops[..|ops| - 1]), ops[|ops| - 1])
  }

  // ----- lists --------------------------------------------------------------------------------

  lemma ToSetSnoc(ids: seq<string>, last: string)
    ensures ToSet(ids + [last]) == ToSet(ids) + {last}
  {
    assert forall id :: id in ids + [last] <==> id in ids || id == last;
  }

  lemma {:induction false} FirstNewSet(ids: seq<string>, have: set<string>)
    ensures ToSet(FirstNew(ids, have)) == ToSet(ids) - have
  {
    if ids != [] {
      var front, last := ids[..|ids| - 1], ids[|ids| - 1];
      FirstNewSet(front, have);
      assert ids == front + [last];
      assert last in FirstNew(front, have) <==> last in ToSet(FirstNew(front, have));
      ToSetSnoc(front, last);
      ToSetSnoc(FirstNew(front, have), last);
    }
  }

  /** Each id that `add` appends stands where it first occurs in the request, and the order of
      first occurrences is kept: position k of the result is the k-th of increasing positions. */
  lemma {:induction false} FirstNewOrder(ids: seq<string>, have: set<string>) returns (at: seq<nat>)
    ensures |at| == |FirstNew(ids, have)|
    ensures forall k | 0 <= k < |at| :: at[k] < |ids| && ids[at[k]] == FirstNew(ids, have)[k]
    ensures forall k | 0 <= k < |at| :: ids[at[k]] !in have && ids[at[k]] !in ids[..at[k]]
    ensures forall j, k | 0 <= j < k < |at| :: at[j] < at[k]
    ensures forall i | 0 <= i < |ids| && ids[i] !in have && ids[i] !in ids[..i] :: i in at
  {
    if ids == [] {
      at := [];
    } else {
      var n := |ids| - 1;
      var front, last := ids[..n], ids[n];
      assert ids == front + [last];
      FirstNewSet(front, have);
      assert last in front && last !in have ==> last in ToSet(front) - have;
      assert last in FirstNew(front, have) <==> last in ToSet(FirstNew(front, have));
      assert forall i | 0 <= i < n :: front[..i] == ids[..i];
      at := FirstNewOrder(front, have);
      if last !in have && last !in front {
        at := at + [n];
      }
    }
  }

  predicate NoDuplicates<T(==)>(s: seq<T>) {
    forall i, j | 0 <= i < j < |s| :: s[i] != s[j]
  }

  function Ids(members: seq<ScimMember>): seq<string> {
    seq(|members|, i requires 0 <= i < |members| => members[i].value)
  }

  lemma {:induction false} FirstNewNoDuplicates(ids: seq<string>, have: set<string>)
    ensures NoDuplicates(FirstNew(ids, have))
    ensures NoDuplicates(ids) && ToSet(ids) !! have ==> FirstNew(ids, have) == ids
  {
    if ids != [] {
      var front := ids[..|ids| - 1];
      assert ids == front + [ids[|ids| - 1]];
      FirstNewNoDuplicates(front, have);
      FirstNewSet(front, have);
      assert forall id :: id in FirstNew(front, have) <==> id in ToSet(front) - have;
    }
  }

  /** `remove` keeps the other members in their order: position k of the result is the k-th of the
      increasing positions of the members to keep. */
  lemma {:induction false} WithoutOrder(members: seq<ScimMember>, gone: set<string>) returns (at: seq<nat>)
    ensures |at| == |Without(members, gone)|
    ensures forall k | 0 <= k < |at| :: at[k] < |members| && members[at[k]] == Without(members, gone)[k]
    ensures forall j, k | 0 <= j < k < |at| :: at[j] < at[k]
    ensures forall i | 0 <= i < |members| :: i in at <==> members[i].value !in gone
  {
    at := [];
    if members != [] {
      var n := |members| - 1;
      at := WithoutOrder(members[..n], gone);
      assert forall i | 0 <= i < n :: members[..n][i] == members[i];
      if members[n].value !in gone {
        at := at + [n];
      }
    }
  }

  lemma {:induction false} WithoutTwice(members: seq<ScimMember>, a: set<string>, b: set<string>)
    ensures Without(Without(members, a), b) == Without(members, a + b)
  {
    if members != [] {
      var front, last := members[..|members| - 1], members[|members| - 1];
      WithoutTwice(front, a, b);
      if last.value !in a {
        assert (Without(front, a) + [last])[..|Without(front, a)|] == Without(front, a);
      }
    }
  }

  lemma {:induction false} WithoutConcat(a: seq<ScimMember>, b: seq<ScimMember>, gone: set<string>)
    ensures Without(a + b, gone) == Without(a, gone) + Without(b, gone)
  {
    if b == [] {
      assert a + b == a;
    } else {
      WithoutConcat(a, b[..|b| - 1], gone);
      assert (a + b)[..|a + b| - 1] == a + b[..|b| - 1];
    }
  }

  lemma {:induction false} WithoutIdentity(members: seq<ScimMember>, gone: set<string>)
    ensures Without(members, gone) == members <==> IdSet(members) !! gone
    ensures |Without(members, gone)| <= |members|
  {
    if members != [] {
      var front, last := members[..|members| - 1], members[|members| - 1];
      assert members == front + [last];
      assert IdSet(members) == IdSet(front) + {last.value};
      WithoutIdentity(front, gone);
    }
  }

  lemma {:induction false} WithoutAll(members: seq<ScimMember>, gone: set<string>)
    requires IdSet(members) <= gone
    ensures Without(members, gone) == []
  {
    if members != [] {
      var front, last := members[..|members| - 1], members[|members| - 1];
      assert members == front + [last];
      IdSetConcat(front, [last]);
      assert last in [last] && last.value in IdSet([last]);
      WithoutAll(front, gone);
    }
  }

  lemma {:induction false} WithoutNoDuplicates(members: seq<ScimMember>, gone: set<string>)
    requires NoDuplicates(Ids(members))
    ensures NoDuplicates(Ids(Without(members, gone)))
  {
    if members != [] {
      var front, last := members[..|members| - 1], members[|members| - 1];
      assert forall i | 0 <= i < |front| :: Ids(front)[i] == Ids(members)[i];
      WithoutNoDuplicates(front, gone);
      WithoutMembers(front, gone);
      assert forall m | m in Without(front, gone) :: m.value != last.value by {
        forall m | m in front ensures m.value != last.value {
          var i :| 0 <= i < |front| && front[i] == m;
          assert Ids(members)[i] != Ids(members)[|front|];
        }
      }
      var rest := Without(front, gone);
      assert forall i | 0 <= i < |rest| :: Ids(rest)[i] == rest[i].value && rest[i] in rest;
      if last.value !in gone {
        assert Ids(rest + [last]) == Ids(rest) + [last.value];
      }
    }
  }

  lemma IdSetOfNew(users: map<string, ScimUser>, ids: seq<string>)
    ensures IdSet(NewMembers(users, ids)) == ToSet(ids)
    ensures Ids(NewMembers(users, ids)) == ids
  {
    var ms := NewMembers(users, ids);
    forall id | id in ids ensures id in IdSet(ms) {
      var i :| 0 <= i < |ids| && ids[i] == id;
      assert ms[i] in ms;
    }
  }

  lemma IdSetConcat(a: seq<ScimMember>, b: seq<ScimMember>)
    ensures IdSet(a + b) == IdSet(a) + IdSet(b)
  {
    assert forall m :: m in a + b <==> m in a || m in b;
  }

  lemma AddedIds(users: map<string, ScimUser>, members: seq<ScimMember>, ids: seq<string>)
    ensures IdSet(AddMembers(users, members, ids)) == IdSet(members) + ToSet(ids)
  {
    var added := FirstNew(ids, IdSet(members));
    FirstNewSet(ids, IdSet(members));
    IdSetOfNew(users, added);
    IdSetConcat(members, NewMembers(users, added));
  }

  lemma AddedNoDuplicates(users: map<string, ScimUser>, members: seq<ScimMember>, ids: seq<string>)
    requires NoDuplicates(Ids(members))
    ensures NoDuplicates(Ids(AddMembers(users, members, ids)))
  {
    var added := FirstNew(ids, IdSet(members));
    var all := AddMembers(users, members, ids);
    FirstNewNoDuplicates(ids, IdSet(members));
    FirstNewSet(ids, IdSet(members));
    forall i, j | 0 <= i < j < |all| ensures Ids(all)[i] != Ids(all)[j] {
      if i < |members| <= j {
        assert members[i] in members;
        assert added[j - |members|] in ToSet(added);
      } else if j < |members| {
        assert Ids(members)[i] != Ids(members)[j];
      }
    }
  }

  // ----- the set-level reference --------------------------------------------------------------

  /** The ids a members value names, without order or multiplicity. */
  function NamedIds(items: seq<Json>): set<string> {
    set entry | entry in items && EntryId(entry).Some? :: EntryId(entry).value
  }

  function FoldOne(ids: set<string>, op: PatchOperation): set<string> {
    if op.path != MEMBERS_PATH || !op.value.JArray? then ids
    else if op.op == "add" then ids + NamedIds(op.value.items)
    else if op.op == "remove" then ids - NamedIds(op.value.items)
    else if op.op == "replace" then NamedIds(op.value.items)
    else ids
  }

  function FoldIds(ids: set<string>, ops: seq<PatchOperation>): set<string>
    decreases |ops|
  {
    if ops == [] then ids else FoldIds(FoldOne(ids, ops[0]), ops[1..])
  }

  lemma {:induction false} IdsInSet(items: seq<Json>)
    ensures ToSet(IdsIn(items)) == NamedIds(items)
  {
    if items != [] {
      var front, last := items[..|items| - 1], items[|items| - 1];
      assert items == front + [last];
      IdsInSet(front);
      if EntryId(last).Some? {
        ToSetSnoc(IdsIn(front), EntryId(last).value);
      }
    }
  }

  lemma {:induction false} ApplyAllFront(users: map<string, ScimUser>, team: ScimTeam, ops: seq<PatchOperation>)
    requires ops != []
    ensures ApplyAll(users, team, ops) == ApplyAll(users, ApplyOperation(users, team, ops[0]), ops[1..])
  {
    if |ops| > 1 {
      var front := ops[..|ops| - 1];
      ApplyAllFront(users, team, front);
      assert front[1..] == ops[1..][..|ops| - 2];
    } else {
      assert ops[..0] == [];
    }
  }

  lemma OneOperationIds(users: map<string, ScimUser>, team: ScimTeam, op: PatchOperation)
    ensures IdSet(ApplyOperation(users, team, op).members) == FoldOne(IdSet(team.members), op)
  {
    if op.value.JArray? {
      var ids := IdsIn(op.value.items);
      IdsInSet(op.value.items);
      AddedIds(users, team.members, ids);
      WithoutMembers(team.members, ToSet(ids));
      IdSetOfNew(users, ids);
    }
  }

  /** What one operation on the members does to each id; any other verb does nothing. */
  lemma MemberForms(users: map<string, ScimUser>, team: ScimTeam, op: PatchOperation, id: string)
    requires op.path == "members" && op.value.JArray?
    ensures var named := exists entry :: entry in op.value.items && entry.JObject? && "value" in entry.fields
                                         && entry.fields["value"] == JString(id);
            var before := exists m :: m in team.members && m.value == id;
            var after := exists m :: m in ApplyOperation(users, team, op).members && m.value == id;
            after <==> if op.op == "add" then before || named
                       else if op.op == "remove" then before && !named
                       else if op.op == "replace" then named
                       else before
  {
    OneOperationIds(users, team, op);
    var now := ApplyOperation(users, team, op).members;
    assert id in IdSet(team.members) <==> exists m :: m in team.members && m.value == id;
    assert id in IdSet(now) <==> exists m :: m in now && m.value == id;
    assert id in NamedIds(op.value.items) <==>
           exists entry :: entry in op.value.items && entry.JObject? && "value" in entry.fields
                           && entry.fields["value"] == JString(id);
  }

  /** Outside the members only a text for the display name is replaced. */
  lemma OtherForms(users: map<string, ScimUser>, team: ScimTeam, op: PatchOperation)
    requires op.path != "members" || !op.value.JArray?
    ensures ApplyOperation(users, team, op)
            == if op.op == "replace" && op.path == "displayName" && op.value.JString?
               then team.(displayName := op.value.text) else team
  {
    assert "members"[0] == 'm' && "displayName"[0] == 'd';
  }

  /** For every operation list and every JSON value: the member ids after a PATCH are the fold of
      union, difference and replacement. */
  lemma {:induction false} MemberIdsAreFold(users: map<string, ScimUser>, team: ScimTeam, ops: seq<PatchOperation>)
    ensures IdSet(ApplyAll(users, team, ops).members) == FoldIds(IdSet(team.members), ops)
    decreases |ops|
  {
    if ops != [] {
      var next := ApplyOperation(users, team, ops[0]);
      ApplyAllFront(users, team, ops);
      OneOperationIds(users, team, ops[0]);
      MemberIdsAreFold(users, next, ops[1..]);
    }
  }

  // ----- one id at a time ---------------------------------------------------------------------

  /** Whether one operation settles if an id is a member, and how. */
  function Settles(op: PatchOperation, id: string): Option<bool> {
    if op.path != MEMBERS_PATH || !op.value.JArray? then None
    else if op.op == "replace" then Some(id in NamedIds(op.value.items))
    else if op.op == "add" && id in NamedIds(op.value.items) then Some(true)
    else if op.op == "remove" && id in NamedIds(op.value.items) then Some(false)
    else None
  }

  function Verdict(ops: seq<PatchOperation>, id: string): Option<bool>
    decreases |ops|
  {
    if ops == [] then None
    else
      match Verdict(ops[1..], id)
      case Some(b) => Some(b)
      case None => Settles(ops[0], id)
  }

  lemma {:induction false} FoldIsVerdict(ids: set<string>, ops: seq<PatchOperation>, id: string)
    ensures id in FoldIds(ids, ops) <==> Verdict(ops, id).GetOr(id in ids)
    decreases |ops|
  {
    if ops != [] {
      FoldIsVerdict(FoldOne(ids, ops[0]), ops[1..], id);
    }
  }

  /** The last operation that names an id decides whether it ends up a member. */
  lemma LastOperationDecides(users: map<string, ScimUser>, team: ScimTeam, ops: seq<PatchOperation>, id: string)
    ensures id in IdSet(ApplyAll(users, team, ops).members) <==> Verdict(ops, id).GetOr(id in IdSet(team.members))
  {
    MemberIdsAreFold(users, team, ops);
    FoldIsVerdict(IdSet(team.members), ops, id);
  }

  lemma SingleEntry(users: map<string, ScimUser>, entry: Json, id: string)
    requires EntryId(entry) == Some(id)
    ensures IdsIn([entry]) == [id] && ToSet([id]) == {id}
  {
    assert [entry][..0] == [];
  }

  lemma AddedTo(users: map<string, ScimUser>, members: seq<ScimMember>, id: string)
    ensures AddMembers(users, members, [id])
            == if id in IdSet(members) then members else members + [NewMember(users, id)]
  {
    assert [id][..0] == [];
    assert FirstNew([id], IdSet(members)) == if id in IdSet(members) then [] else [id];
  }

  // ----- ill-typed input ----------------------------------------------------------------------

  function WellTypedEntries(items: seq<Json>): seq<Json> {
    if items == [] then []
    else
      var rest := WellTypedEntries(items[..|items| - 1]);
      var last := items[|items| - 1];
      if EntryId(last).Some? then rest + [last] else rest
  }

  predicate Effective(op: PatchOperation) {
    || (op.path == MEMBERS_PATH && op.op in {"add", "remove", "replace"} && op.value.JArray?)
    || (op.path == "displayName" && op.op == "replace" && op.value.JString?)
  }

  /** The request with every ill-typed entry and every operation the server does not know cut out. */
  function Cleaned(ops: seq<PatchOperation>): seq<PatchOperation> {
    if ops == [] then []
    else
      var rest := Cleaned(ops[..|ops| - 1]);
      var last := ops[|ops| - 1];
      if !Effective(last) then rest
      else if last.value.JArray? then rest + [last.(value := JArray(WellTypedEntries(last.value.items)))]
      else rest + [last]
  }

  lemma {:induction false} CleanEntriesNameTheSame(items: seq<Json>)
    ensures IdsIn(WellTypedEntries(items)) == IdsIn(items)
  {
    if items != [] {
      var rest := WellTypedEntries(items[..|items| - 1]);
      CleanEntriesNameTheSame(items[..|items| - 1]);
      assert (rest + [items[|items| - 1]])[..|rest|] == rest;
    }
  }

  /** Ill-typed entries, unknown operations and unknown paths act as if they were absent. */
  lemma {:induction false} IllTypedActsAsAbsent(users: map<string, ScimUser>, team: ScimTeam, ops: seq<PatchOperation>)
    ensures ApplyAll(users, team, ops) == ApplyAll(users, team, Cleaned(ops))
  {
    if ops != [] {
      var front, last := ops[..|ops| - 1], ops[|ops| - 1];
      var rest := Cleaned(front);
      IllTypedActsAsAbsent(users, team, front);
      if Effective(last) {
        if last.value.JArray? {
          CleanEntriesNameTheSame(last.value.items);
        }
        var clean := Cleaned(ops)[|rest|];
        assert Cleaned(ops)[..|rest|] == rest;
        assert ApplyAll(users, team, Cleaned(ops)) == ApplyOperation(users, ApplyAll(users, team, rest), clean);
      }
    }
  }

  // ----- round trip and duplicates ------------------------------------------------------------

  function AddOp(items: seq<Json>): PatchOperation {
    PatchOperation("add", MEMBERS_PATH, JArray(items))
  }

  function RemoveOp(items: seq<Json>): PatchOperation {
    PatchOperation("remove", MEMBERS_PATH, JArray(items))
  }

  lemma AddThenRemoveIsWithout(users: map<string, ScimUser>, members: seq<ScimMember>, ids: seq<string>)
    ensures Without(AddMembers(users, members, ids), ToSet(ids)) == Without(members, ToSet(ids))
  {
    var added := FirstNew(ids, IdSet(members));
    FirstNewSet(ids, IdSet(members));
    IdSetOfNew(users, added);
    WithoutConcat(members, NewMembers(users, added), ToSet(ids));
    WithoutAll(NewMembers(users, added), ToSet(ids));
  }

  /** Adding and then removing the same entries restores the team exactly when none of them was a
      member before. */
  lemma AddThenRemoveRestores(users: map<string, ScimUser>, team: ScimTeam, items: seq<Json>)
    ensures ApplyAll(users, team, [AddOp(items), RemoveOp(items)]) == team
            <==> IdSet(team.members) !! NamedIds(items)
  {
    var ids := IdsIn(items);
    var ops := [AddOp(items), RemoveOp(items)];
    IdsInSet(items);
    AddThenRemoveIsWithout(users, team.members, ids);
    WithoutIdentity(team.members, ToSet(ids));
    assert ops[..1] == [AddOp(items)] && [AddOp(items)][..0] == [];
    assert ApplyAll(users, team, [AddOp(items)]) == ApplyOperation(users, team, AddOp(items));
    assert ApplyAll(users, team, ops).members == Without(team.members, ToSet(ids));
  }

  /** The guard under which a PATCH cannot introduce a duplicate: no replacement list repeats an id. */
  predicate ReplacesWithoutRepeats(ops: seq<PatchOperation>) {
    forall op | op in ops && op.op == "replace" && op.path == MEMBERS_PATH && op.value.JArray? ::
      NoDuplicates(IdsIn(op.value.items))
  }

  lemma {:induction false} NoDuplicatesKept(users: map<string, ScimUser>, team: ScimTeam, ops: seq<PatchOperation>)
    requires NoDuplicates(Ids(team.members)) && ReplacesWithoutRepeats(ops)
    ensures NoDuplicates(Ids(ApplyAll(users, team, ops).members))
  {
    if ops != [] {
      var front, op := ops[..|ops| - 1], ops[|ops| - 1];
      var t := ApplyAll(users, team, front);
      NoDuplicatesKept(users, team, front);
      if op.path == MEMBERS_PATH && op.value.JArray? {
        var ids := IdsIn(op.value.items);
        AddedNoDuplicates(users, t.members, ids);
        WithoutNoDuplicates(t.members, ToSet(ids));
        IdSetOfNew(users, ids);
      }
    }
  }

  /** For one replacement the guard is exact: a repeated id in the request is a repeated member. */
  lemma ReplaceKeepsRepeats(users: map<string, ScimUser>, team: ScimTeam, items: seq<Json>)
    ensures NoDuplicates(Ids(ApplyAll(users, team, [PatchOperation("replace", MEMBERS_PATH, JArray(items))]).members))
            <==> NoDuplicates(IdsIn(items))
  {
    var op := PatchOperation("replace", MEMBERS_PATH, JArray(items));
    assert [op][..0] == [];
    assert ApplyAll(users, team, [op]) == ApplyOperation(users, ApplyAll(users, team, []), op);
    IdSetOfNew(users, IdsIn(items));
  }

  /** A PATCH never touches the id, the schemas or the resource type, and the display name ends as
      the last well-typed replacement of it says. */
  lemma {:induction false} OtherTeamFields(users: map<string, ScimUser>, team: ScimTeam, ops: seq<PatchOperation>)
    ensures var r := ApplyAll(users, team, ops);
            r.id == team.id && r.schemas == team.schemas && r.resourceType == team.resourceType
    ensures (forall i | 0 <= i < |ops| :: !SetsDisplayName(ops[i]))
             ==> ApplyAll(users, team, ops).displayName == team.displayName
    ensures forall i | 0 <= i < |ops| && SetsDisplayName(ops[i])
             && (forall j | i < j < |ops| :: !SetsDisplayName(ops[j])) ::
              ApplyAll(users, team, ops).displayName == ops[i].value.text
  {
    if ops != [] {
      var front := ops[..|ops| - 1];
      OtherTeamFields(users, team, front);
      assert forall j | 0 <= j < |front| :: front[j] == ops[j];
    }
  }

  predicate SetsDisplayName(op: PatchOperation) {
    op.op == "replace" && op.path == "displayName" && op.value.JString?
  }
}
