/** The member list a team PATCH leaves, entry by entry: what is kept, what is appended and in which
    order, when it repeats an id, and when sending the PATCH twice changes it again. */
module MemberLists {
  import opened Text
  import opened Scim
  import opened TeamPatch

  // ----- a request as a list of single edits --------------------------------------------------

  datatype Edit = Add(id: string) | Remove(id: string)

  predicate Replaces(op: PatchOperation) {
    op.path == MEMBERS_PATH && op.value.JArray? && op.op == "replace"
  }

  /** The additions and removals an operation asks for, one id after another. */
  function EditsOf(op: PatchOperation): seq<Edit> {
    if op.path != MEMBERS_PATH || !op.value.JArray? then []
    else if op.op == "add" then Adds(IdsIn(op.value.items))
    else if op.op == "remove" then Removes(IdsIn(op.value.items))
    else []
  }

  function Adds(ids: seq<string>): seq<Edit> {
    seq(|ids|, i requires 0 <= i < |ids| => Add(ids[i]))
  }

  function Removes(ids: seq<string>): seq<Edit> {
    seq(|ids|, i requires 0 <= i < |ids| => Remove(ids[i]))
  }

  function EditOne(users: map<string, ScimUser>, members: seq<ScimMember>, e: Edit): seq<ScimMember> {
    match e
    case Add(id) => if id in IdSet(members) then members else members + [NewMember(users, id)]
    case Remove(id) => Without(members, {id})
  }

  function EditAll(users: map<string, ScimUser>, members: seq<ScimMember>, edits: seq<Edit>): seq<ScimMember> {
    if edits == [] then members
    else EditOne(users, EditAll(users, members, edits[..|edits| - 1]), edits[|edits| - 1])
  }

  lemma {:induction false} EditConcat(users: map<string, ScimUser>, members: seq<ScimMember>,
                                      a: seq<Edit>, b: seq<Edit>)
    ensures EditAll(users, members, a + b) == EditAll(users, EditAll(users, members, a), b)
  {
    if b == [] {
      assert a + b == a;
    } else {
      var front := b[..|b| - 1];
      EditConcat(users, members, a, front);
      assert (a + b)[..|a + b| - 1] == a + front;
    }
  }

  lemma {:induction false} AddsAreEdits(users: map<string, ScimUser>, members: seq<ScimMember>, ids: seq<string>)
    ensures EditAll(users, members, Adds(ids)) == AddMembers(users, members, ids)
  {
    var have := IdSet(members);
    if ids == [] {
      assert AddMembers(users, members, ids) == members;
    } else {
      var front, last := ids[..|ids| - 1], ids[|ids| - 1];
      AddsAreEdits(users, members, front);
      assert Adds(ids)[..|ids| - 1] == Adds(front);
      AddedIds(users, members, front);
      FirstNewSet(front, have);
      assert last in FirstNew(front, have) <==> last in ToSet(FirstNew(front, have));
      assert last in IdSet(AddMembers(users, members, front)) <==> last in have || last in FirstNew(front, have);
      if last !in have && last !in FirstNew(front, have) {
        assert AddMembers(users, members, ids) == AddMembers(users, members, front) + [NewMember(users, last)];
      }
    }
  }

  lemma {:induction false} RemovesAreEdits(users: map<string, ScimUser>, members: seq<ScimMember>, ids: seq<string>)
    ensures EditAll(users, members, Removes(ids)) == Without(members, ToSet(ids))
  {
    if ids == [] {
      assert ToSet(ids) == {};
      WithoutIdentity(members, {});
    } else {
      var front, last := ids[..|ids| - 1], ids[|ids| - 1];
      RemovesAreEdits(users, members, front);
      assert Removes(ids)[..|ids| - 1] == Removes(front);
      WithoutTwice(members, ToSet(front), {last});
      ToSetSnoc(front, last);
      assert ids == front + [last];
    }
  }

  lemma OperationIsEdits(users: map<string, ScimUser>, team: ScimTeam, op: PatchOperation)
    requires !Replaces(op)
    ensures ApplyOperation(users, team, op).members == EditAll(users, team.members, EditsOf(op))
  {
    if op.value.JArray? {
      AddsAreEdits(users, team.members, IdsIn(op.value.items));
      RemovesAreEdits(users, team.members, IdsIn(op.value.items));
    }
  }

  /** The list that the last replacement of a request sets; without one, the list it starts from. */
  function Base(users: map<string, ScimUser>, members: seq<ScimMember>, ops: seq<PatchOperation>): seq<ScimMember> {
    if ops == [] then members
    else if Replaces(ops[|ops| - 1]) then NewMembers(users, IdsIn(ops[|ops| - 1].value.items))
    else Base(users, members, ops[..|ops| - 1])
  }

  /** The edits after the last replacement. */
  function EditsSince(ops: seq<PatchOperation>): seq<Edit> {
    if ops == [] || Replaces(ops[|ops| - 1]) then []
    else EditsSince(ops[..|ops| - 1]) + EditsOf(ops[|ops| - 1])
  }

  lemma {:induction false} PatchIsEdits(users: map<string, ScimUser>, team: ScimTeam, ops: seq<PatchOperation>)
    ensures ApplyAll(users, team, ops).members == EditAll(users, Base(users, team.members, ops), EditsSince(ops))
  {
    hide ApplyOperation;
    if ops != [] {
      var front, op := ops[..|ops| - 1], ops[|ops| - 1];
      PatchIsEdits(users, team, front);
      if Replaces(op) {
        Replacement(users, ApplyAll(users, team, front), op);
      } else {
        OperationIsEdits(users, ApplyAll(users, team, front), op);
        EditConcat(users, Base(users, team.members, front), EditsSince(front), EditsOf(op));
      }
    }
  }

  lemma Replacement(users: map<string, ScimUser>, team: ScimTeam, op: PatchOperation)
    requires Replaces(op)
    ensures ApplyOperation(users, team, op).members == NewMembers(users, IdsIn(op.value.items))
  {
  }

  // ----- kept and appended members ------------------------------------------------------------

  function Removed(edits: seq<Edit>): set<string> {
    set e | e in edits && e.Remove? :: e.id
  }

  lemma RemovedSnoc(edits: seq<Edit>, e: Edit)
    ensures Removed(edits + [e]) == Removed(edits) + if e.Remove? then {e.id} else {}
  {
    assert forall d :: d in edits + [e] <==> d in edits || d == e;
  }

  /** The members that a run of edits has appended and not taken away again, when it starts from a
      list with the ids `have`. */
  function Appended(users: map<string, ScimUser>, have: set<string>, edits: seq<Edit>): seq<ScimMember> {
    if edits == [] then []
    else
      var front := edits[..|edits| - 1];
      var rest := Appended(users, have, front);
      match edits[|edits| - 1]
      case Add(id) =>
        if id in have - Removed(front) || id in IdSet(rest) then rest else rest + [NewMember(users, id)]
      case Remove(id) => Without(rest, {id})
  }

  /** After any edits: the old members never removed, in their order, then the appended ones. */
  lemma {:induction false} KeptThenAppended(users: map<string, ScimUser>, members: seq<ScimMember>, edits: seq<Edit>)
    ensures EditAll(users, members, edits)
            == Without(members, Removed(edits)) + Appended(users, IdSet(members), edits)
  {
    if edits == [] {
      assert Removed(edits) == {};
      WithoutIdentity(members, {});
    } else {
      var front, e := edits[..|edits| - 1], edits[|edits| - 1];
      var kept, rest := Without(members, Removed(front)), Appended(users, IdSet(members), front);
      KeptThenAppended(users, members, front);
      assert edits == front + [e];
      RemovedSnoc(front, e);
      match e
      case Add(id) =>
        IdSetConcat(kept, rest);
        WithoutIds(members, Removed(front));
        assert Removed(edits) == Removed(front);
        assert kept + (rest + [NewMember(users, id)]) == kept + rest + [NewMember(users, id)];
      case Remove(id) =>
        WithoutConcat(kept, rest, {id});
        WithoutTwice(members, Removed(front), {id});
    }
  }

  lemma WithoutIds(members: seq<ScimMember>, gone: set<string>)
    ensures IdSet(Without(members, gone)) == IdSet(members) - gone
  {
    WithoutMembers(members, gone);
  }

  /** The order-preserving filter that keeps the members whose id is in `ids`. */
  function Only(members: seq<ScimMember>, ids: set<string>): seq<ScimMember> {
    if members == [] then []
    else
      var rest := Only(members[..|members| - 1], ids);
      var last := members[|members| - 1];
      if last.value in ids then rest + [last] else rest
  }

  lemma OnlySnoc(members: seq<ScimMember>, m: ScimMember, ids: set<string>)
    ensures Only(members + [m], ids) == Only(members, ids) + if m.value in ids then [m] else []
    ensures Without(members + [m], ids) == Without(members, ids) + if m.value in ids then [] else [m]
    ensures IdSet(members + [m]) == IdSet(members) + {m.value}
  {
    assert (members + [m])[..|members|] == members;
    IdSetConcat(members, [m]);
    assert m in [m];
  }

  lemma {:induction false} OnlyWithout(members: seq<ScimMember>, ids: set<string>, gone: set<string>)
    ensures Only(Without(members, gone), ids) == Only(members, ids - gone)
    ensures Without(Only(members, ids), gone) == Only(members, ids - gone)
  {
    if members != [] {
      var front, last := members[..|members| - 1], members[|members| - 1];
      OnlyWithout(front, ids, gone);
      OnlySnoc(Without(front, gone), last, ids);
      OnlySnoc(Only(front, ids), last, gone);
    }
  }

  lemma {:induction false} OnlyIds(members: seq<ScimMember>, ids: set<string>)
    ensures IdSet(Only(members, ids)) == IdSet(members) * ids
    ensures IdSet(members) <= ids ==> Only(members, ids) == members
  {
    if members != [] {
      var front, last := members[..|members| - 1], members[|members| - 1];
      assert members == front + [last];
      OnlyIds(front, ids);
      OnlySnoc(front, last, ids);
      OnlySnoc(Only(front, ids), last, ids);
    }
  }

  /** What is appended after a removal of the same id: it does not depend on the list at the start. */
  function Readded(users: map<string, ScimUser>, edits: seq<Edit>): seq<ScimMember> {
    if edits == [] then []
    else
      var front := edits[..|edits| - 1];
      var rest := Readded(users, front);
      match edits[|edits| - 1]
      case Add(id) =>
        if id !in Removed(front) || id in IdSet(rest) then rest else rest + [NewMember(users, id)]
      case Remove(id) => Without(rest, {id})
  }

  lemma {:induction false} ReaddedIsOnly(users: map<string, ScimUser>, have: set<string>, edits: seq<Edit>)
    ensures Only(Appended(users, have, edits), Removed(edits)) == Readded(users, edits)
  {
    if edits != [] {
      var front, e := edits[..|edits| - 1], edits[|edits| - 1];
      var rest, gone := Appended(users, have, front), Removed(front);
      ReaddedIsOnly(users, have, front);
      assert edits == front + [e];
      RemovedSnoc(front, e);
      match e
      case Add(id) =>
        assert Removed(edits) == gone;
        OnlySnoc(rest, NewMember(users, id), gone);
        OnlyIds(rest, gone);
      case Remove(id) =>
        OnlyWithout(rest, gone + {id}, {id});
        OnlyWithout(rest, gone, {id});
        assert gone + {id} - {id} == gone - {id};
    }
  }

  /** The member list after a PATCH: of the list the last replacement sets (or the old one) what is
      never removed after it, in its order, then the appended members. */
  lemma PatchedList(users: map<string, ScimUser>, team: ScimTeam, ops: seq<PatchOperation>)
    ensures var base, edits := Base(users, team.members, ops), EditsSince(ops);
            ApplyAll(users, team, ops).members
            == Without(base, Removed(edits)) + Appended(users, IdSet(base), edits)
  {
    PatchIsEdits(users, team, ops);
    KeptThenAppended(users, Base(users, team.members, ops), EditsSince(ops));
  }

  /** A member entry as the server builds it: the user's formatted name, if the id is a user's. */
  predicate ShowsUser(users: map<string, ScimUser>, m: ScimMember) {
    m.kind == "" && m.display == if m.value in users then users[m.value].name.formatted else ""
  }

  /** Every member after a PATCH is an old one, entry and all, or shows the user it stands for; after
      a replacement every member does the latter. */
  lemma {:induction false} PatchedMembers(users: map<string, ScimUser>, team: ScimTeam, ops: seq<PatchOperation>)
    ensures forall m | m in ApplyAll(users, team, ops).members ::
              (m in team.members && !HasReplacement(ops)) || ShowsUser(users, m)
  {
    if ops != [] {
      var front, op := ops[..|ops| - 1], ops[|ops| - 1];
      var before := ApplyAll(users, team, front);
      PatchedMembers(users, team, front);
      assert ops == front + [op];
      assert HasReplacement(ops) <==> HasReplacement(front) || Replaces(op);
      if op.value.JArray? {
        WithoutMembers(before.members, ToSet(IdsIn(op.value.items)));
      }
    }
  }

  /** An old entry that no operation names stays as it is. */
  lemma OldMembersStay(users: map<string, ScimUser>, team: ScimTeam, ops: seq<PatchOperation>)
    requires !HasReplacement(ops)
    ensures forall m | m in team.members && m.value !in Removed(EditsSince(ops)) ::
              m in ApplyAll(users, team, ops).members
  {
    PatchedList(users, team, ops);
    BaseAgain(users, team.members, [], ops);
    WithoutMembers(team.members, Removed(EditsSince(ops)));
  }

  // ----- duplicates ---------------------------------------------------------------------------

  lemma ConcatNoDuplicates(a: seq<ScimMember>, b: seq<ScimMember>)
    requires NoDuplicates(Ids(b)) && IdSet(a) !! IdSet(b)
    ensures NoDuplicates(Ids(a + b)) <==> NoDuplicates(Ids(a))
  {
    var both := Ids(a + b);
    assert both == Ids(a) + Ids(b);
    if NoDuplicates(Ids(a)) {
      forall i, j | 0 <= i < j < |both| ensures both[i] != both[j] {
        if i < |a| <= j {
          assert a[i] in a && b[j - |a|] in b;
          assert a[i].value in IdSet(a) && b[j - |a|].value in IdSet(b);
        } else if j < |a| {
          assert Ids(a)[i] != Ids(a)[j];
        } else {
          assert Ids(b)[i - |a|] != Ids(b)[j - |a|];
        }
      }
    }
    if NoDuplicates(both) {
      assert forall i | 0 <= i < |a| :: both[i] == Ids(a)[i];
    }
  }

  /** A PATCH leaves a list that repeats no id exactly when the list of its last replacement (or the
      old list) repeats none but those the request removes after it. */
  lemma DuplicatesExactly(users: map<string, ScimUser>, team: ScimTeam, ops: seq<PatchOperation>)
    ensures NoDuplicates(Ids(ApplyAll(users, team, ops).members))
            <==> NoDuplicates(Ids(Without(Base(users, team.members, ops), Removed(EditsSince(ops)))))
  {
    var base, edits := Base(users, team.members, ops), EditsSince(ops);
    var kept, appended := Without(base, Removed(edits)), Appended(users, IdSet(base), edits);
    PatchedList(users, team, ops);
    AppendedIds(users, IdSet(base), edits);
    WithoutIds(base, Removed(edits));
    ConcatNoDuplicates(kept, appended);
  }

  // ----- where the appended members come from -------------------------------------------------

  /** Whether the edit at `i` adds an id for good: no later edit removes it. */
  predicate AddsForGood(edits: seq<Edit>, i: nat) {
    i < |edits| && edits[i].Add? && forall j | i < j < |edits| :: edits[j] != Remove(edits[i].id)
  }

  lemma AddsForGoodSnoc(edits: seq<Edit>, e: Edit, i: nat)
    ensures AddsForGood(edits + [e], i)
            <==> if i == |edits| then e.Add? else AddsForGood(edits, i) && e != Remove(edits[i].id)
  {
    if i < |edits| && AddsForGood(edits + [e], i) {
      assert (edits + [e])[|edits|] != Remove(edits[i].id);
      assert forall j | i < j < |edits| :: (edits + [e])[j] == edits[j];
    }
  }

  /** Each listed member was added for good at its place, which is new in the order. */
  predicate PlacesFit(edits: seq<Edit>, list: seq<ScimMember>, at: seq<nat>) {
    && |at| == |list|
    && (forall k | 0 <= k < |at| :: AddsForGood(edits, at[k]) && edits[at[k]].id == list[k].value)
    && (forall j, k | 0 <= j < k < |at| :: at[j] < at[k])
  }

  /** An id that stays after being added at `i`. */
  predicate Stays(have: set<string>, edits: seq<Edit>, i: nat) {
    AddsForGood(edits, i) && (edits[i].id in have ==> edits[i].id in Removed(edits))
  }

  ghost predicate PlacesFound(have: set<string>, edits: seq<Edit>, at: seq<nat>) {
    forall i: nat | Stays(have, edits, i) :: PlaceUpTo(edits, at, i)
  }

  predicate PlaceUpTo(edits: seq<Edit>, at: seq<nat>, i: nat) {
    exists k :: 0 <= k < |at| && at[k] <= i < |edits| && edits[at[k]] == edits[i]
  }

  lemma {:induction false} AppendedIds(users: map<string, ScimUser>, have: set<string>, edits: seq<Edit>)
    ensures var list := Appended(users, have, edits);
            && NoDuplicates(Ids(list))
            && (forall m | m in list :: m.value in have ==> m.value in Removed(edits))
            && (forall m | m in list :: m == NewMember(users, m.value))
  {
    if edits != [] {
      var front, e := edits[..|edits| - 1], edits[|edits| - 1];
      var rest := Appended(users, have, front);
      AppendedIds(users, have, front);
      assert edits == front + [e];
      RemovedSnoc(front, e);
      match e
      case Add(id) =>
        assert Ids(rest + [NewMember(users, id)]) == Ids(rest) + [id];
        assert forall i | 0 <= i < |rest| :: rest[i] in rest && Ids(rest)[i] == rest[i].value;
      case Remove(id) =>
        WithoutMembers(rest, {id});
        WithoutNoDuplicates(rest, {id});
    }
  }

  /** Each appended member is added for good at one place of the request, the first such place for
      its id, and these places are in the order of the list. */
  lemma {:induction false} Places(users: map<string, ScimUser>, have: set<string>, edits: seq<Edit>)
      returns (at: seq<nat>)
    ensures PlacesFit(edits, Appended(users, have, edits), at) && PlacesFound(have, edits, at)
  {
    at := [];
    if edits != [] {
      var n := |edits| - 1;
      var front, e := edits[..n], edits[n];
      var rest := Appended(users, have, front);
      var before := Places(users, have, front);
      assert edits == front + [e];
      match e
      case Add(id) => at := PlacesAfterAdd(users, have, front, before, id);
      case Remove(id) => at := PlacesAfterRemove(users, have, front, before, id);
    }
  }

  lemma PlacesAfterAdd(users: map<string, ScimUser>, have: set<string>, edits: seq<Edit>, before: seq<nat>, id: string)
      returns (at: seq<nat>)
    requires PlacesFit(edits, Appended(users, have, edits), before) && PlacesFound(have, edits, before)
    ensures var now := edits + [Add(id)];
            PlacesFit(now, Appended(users, have, now), at) && PlacesFound(have, now, at)
  {
    var now, list := edits + [Add(id)], Appended(users, have, edits);
    assert now[..|edits|] == edits;
    RemovedSnoc(edits, Add(id));
    forall k | 0 <= k < |before| ensures AddsForGood(now, before[k]) && now[before[k]] == edits[before[k]] {
      AddsForGoodSnoc(edits, Add(id), before[k]);
    }
    at := before;
    if !(id in have - Removed(edits) || id in IdSet(list)) {
      at := before + [|edits|];
    }
    forall i: nat | Stays(have, now, i) ensures PlaceUpTo(now, at, i) {
      if i < |edits| {
        PlacedBefore(have, edits, before, Add(id), i);
        var k :| 0 <= k < |before| && before[k] <= i && now[before[k]] == now[i];
        assert at[k] == before[k];
      } else if id in IdSet(list) {
        var k :| 0 <= k < |list| && list[k].value == id;
        assert AddsForGood(edits, before[k]) && at[k] <= i && now[at[k]] == now[i];
      } else {
        assert at[|before|] <= i;
      }
    }
  }

  lemma PlacesAfterRemove(
      users: map<string, ScimUser>, have: set<string>, edits: seq<Edit>, before: seq<nat>, id: string)
      returns (at: seq<nat>)
    requires PlacesFit(edits, Appended(users, have, edits), before) && PlacesFound(have, edits, before)
    ensures var now := edits + [Remove(id)];
            PlacesFit(now, Appended(users, have, now), at) && PlacesFound(have, now, at)
  {
    hide Without;
    var now, list := edits + [Remove(id)], Appended(users, have, edits);
    assert now[..|edits|] == edits;
    RemovedSnoc(edits, Remove(id));
    var kept := WithoutOrder(list, {id});
    at := seq(|kept|, k requires 0 <= k < |kept| => before[kept[k]]);
    forall k | 0 <= k < |kept| ensures AddsForGood(now, at[k]) && now[at[k]] == edits[before[kept[k]]] {
      AddsForGoodSnoc(edits, Remove(id), at[k]);
    }
    FoundAfterRemove(have, edits, list, before, kept, at, id);
  }

  lemma FoundAfterRemove(have: set<string>, edits: seq<Edit>, list: seq<ScimMember>, before: seq<nat>, kept: seq<nat>,
                         at: seq<nat>, id: string)
    requires PlacesFit(edits, list, before) && PlacesFound(have, edits, before)
    requires forall k: nat | k < |list| && list[k].value != id :: k in kept
    requires |at| == |kept| && forall k | 0 <= k < |at| :: kept[k] < |before| && at[k] == before[kept[k]]
    ensures PlacesFound(have, edits + [Remove(id)], at)
  {
    var now := edits + [Remove(id)];
    forall i: nat | Stays(have, now, i) ensures PlaceUpTo(now, at, i) {
      assert i < |edits|;
      PlacedBefore(have, edits, before, Remove(id), i);
      var k :| 0 <= k < |before| && before[k] <= i && edits[before[k]] == edits[i];
      assert list[k].value != id && k in kept;
      var l :| 0 <= l < |kept| && kept[l] == k;
      assert at[l] <= i && now[at[l]] == now[i];
    }
  }

  lemma PlacedBefore(have: set<string>, edits: seq<Edit>, before: seq<nat>, e: Edit, i: nat)
    requires PlacesFound(have, edits, before) && Stays(have, edits + [e], i) && i < |edits|
    ensures PlaceUpTo(edits, before, i) && edits[i] == (edits + [e])[i] && e != Remove(edits[i].id)
  {
    AddsForGoodSnoc(edits, e, i);
    RemovedSnoc(edits, e);
    assert Stays(have, edits, i);
  }

  // ----- the second time ----------------------------------------------------------------------

  lemma AddedIsMember(users: map<string, ScimUser>, members: seq<ScimMember>, edits: seq<Edit>, i: nat)
    requires AddsForGood(edits, i)
    ensures edits[i].id in IdSet(EditAll(users, members, edits))
  {
    var have, gone := IdSet(members), Removed(edits);
    var appended := Appended(users, have, edits);
    KeptThenAppended(users, members, edits);
    IdSetConcat(Without(members, gone), appended);
    WithoutIds(members, gone);
    if edits[i].id !in have - gone {
      var at := Places(users, have, edits);
      assert Stays(have, edits, i) && PlaceUpTo(edits, at, i);
      var k :| 0 <= k < |at| && at[k] <= i && edits[at[k]] == edits[i];
      assert appended[k] in appended && appended[k].value == edits[i].id;
    }
  }

  lemma AppendedAgain(users: map<string, ScimUser>, members: seq<ScimMember>, edits: seq<Edit>)
    ensures var have := IdSet(EditAll(users, members, edits));
            IdSet(Appended(users, have, edits)) <= Removed(edits)
  {
    var have := IdSet(EditAll(users, members, edits));
    var list := Appended(users, have, edits);
    var at := Places(users, have, edits);
    AppendedIds(users, have, edits);
    forall m | m in list ensures m.value in Removed(edits) {
      var k :| 0 <= k < |list| && list[k] == m;
      AddedIsMember(users, members, edits, at[k]);
    }
  }

  /** The list after the first and after the second time: what stays is kept in place, and of the
      appended members the ones that the request also removes move to the end. */
  lemma TwoRuns(users: map<string, ScimUser>, members: seq<ScimMember>, edits: seq<Edit>)
    ensures var once, gone := EditAll(users, members, edits), Removed(edits);
            var kept, appended := Without(members, gone), Appended(users, IdSet(members), edits);
            && once == kept + appended
            && EditAll(users, once, edits) == kept + (Without(appended, gone) + Only(appended, gone))
  {
    hide Without, Only, Appended, EditAll, Readded;
    var once, gone := EditAll(users, members, edits), Removed(edits);
    var kept, appended := Without(members, gone), Appended(users, IdSet(members), edits);
    KeptThenAppended(users, members, edits);
    KeptThenAppended(users, once, edits);
    WithoutConcat(kept, appended, gone);
    WithoutTwice(members, gone, gone);
    assert gone + gone == gone;
    AppendedAgain(users, members, edits);
    OnlyIds(Appended(users, IdSet(once), edits), gone);
    ReaddedIsOnly(users, IdSet(once), edits);
    ReaddedIsOnly(users, IdSet(members), edits);
  }

  /** A member of `gone` stands before one that is not. */
  predicate GoneBeforeOther(list: seq<ScimMember>, gone: set<string>) {
    exists i, j :: 0 <= i < j < |list| && list[i].value in gone && list[j].value !in gone
  }

  lemma {:induction false} SplitKeepsList(list: seq<ScimMember>, gone: set<string>)
    ensures Without(list, gone) + Only(list, gone) == list <==> !GoneBeforeOther(list, gone)
  {
    if list != [] {
      var front, last := list[..|list| - 1], list[|list| - 1];
      assert list == front + [last];
      SplitKeepsList(front, gone);
      OnlySnoc(front, last, gone);
      if last.value in gone {
        assert Without(list, gone) + Only(list, gone) == Without(front, gone) + Only(front, gone) + [last];
        SplitEndsGone(front, last, gone);
      } else {
        SplitEndsOther(front, last, gone);
      }
    }
  }

  lemma SplitEndsGone(front: seq<ScimMember>, last: ScimMember, gone: set<string>)
    requires last.value in gone
    ensures GoneBeforeOther(front + [last], gone) <==> GoneBeforeOther(front, gone)
  {
    var list := front + [last];
    if GoneBeforeOther(front, gone) {
      var i, j :| 0 <= i < j < |front| && front[i].value in gone && front[j].value !in gone;
      assert list[i].value in gone && list[j].value !in gone;
    }
  }

  lemma SplitEndsOther(front: seq<ScimMember>, last: ScimMember, gone: set<string>)
    requires last.value !in gone
    ensures Without(front, gone) + [last] + Only(front, gone) == front + [last]
            <==> !GoneBeforeOther(front + [last], gone)
  {
    hide Without, Only;
    var list, rest := front + [last], Only(front, gone);
    OnlyIds(front, gone);
    WithoutIdentity(front, gone);
    if rest == [] {
      assert IdSet(rest) == {};
      assert forall id :: id in IdSet(front) && id in gone ==> id in IdSet(front) * gone;
      assert front + [last] + rest == list;
      forall i | 0 <= i < |front| ensures list[i].value !in gone {
        assert front[i] in front && front[i].value in IdSet(front);
      }
    } else {
      var m := rest[|rest| - 1];
      assert m in rest && m.value in IdSet(rest);
      assert (Without(front, gone) + [last] + rest)[|Without(front, gone)| + |rest|] == m;
      var i :| 0 <= i < |front| && front[i].value == m.value;
      assert list[i].value in gone && list[|front|].value !in gone;
    }
  }

  /** The edit at `i` adds for good an id that the request has removed before. */
  predicate Readds(edits: seq<Edit>, i: nat) {
    AddsForGood(edits, i) && Remove(edits[i].id) in edits
  }

  /** The edit at `i` is the first addition of an id that is not in `have` and never removed. */
  predicate AddsNew(edits: seq<Edit>, have: set<string>, i: nat) {
    && i < |edits| && edits[i].Add? && edits[i].id !in have
    && Remove(edits[i].id) !in edits && forall k | 0 <= k < i :: edits[k] != edits[i]
  }

  /** The request re-adds an id before it adds a new one. */
  predicate ReaddsBeforeNew(edits: seq<Edit>, have: set<string>) {
    exists i, j :: 0 <= i < j < |edits| && Readds(edits, i) && AddsNew(edits, have, j)
  }

  lemma OrderInRequest(users: map<string, ScimUser>, have: set<string>, edits: seq<Edit>)
    ensures GoneBeforeOther(Appended(users, have, edits), Removed(edits)) <==> ReaddsBeforeNew(edits, have)
  {
    var list := Appended(users, have, edits);
    var at := Places(users, have, edits);
    AppendedIds(users, have, edits);
    assert forall m | m in list :: m.value in have ==> m.value in Removed(edits);
    if GoneBeforeOther(list, Removed(edits)) {
      var k, l :| 0 <= k < l < |list| && list[k].value in Removed(edits) && list[l].value !in Removed(edits);
      assert list[l] in list;
      OrderFromList(edits, have, list, at, k, l);
    }
    if ReaddsBeforeNew(edits, have) {
      var i, j :| 0 <= i < j < |edits| && Readds(edits, i) && AddsNew(edits, have, j);
      OrderFromRequest(edits, have, list, at, i, j);
    }
  }

  lemma OrderFromList(edits: seq<Edit>, have: set<string>, list: seq<ScimMember>, at: seq<nat>, k: nat, l: nat)
    requires PlacesFit(edits, list, at) && PlacesFound(have, edits, at) && NoDuplicates(Ids(list)) && k < l < |list|
    requires list[k].value in Removed(edits) && list[l].value !in Removed(edits) && list[l].value !in have
    ensures ReaddsBeforeNew(edits, have)
  {
    assert Readds(edits, at[k]);
    FirstPlace(edits, have, list, at, l);
    assert AddsNew(edits, have, at[l]);
  }

  lemma OrderFromRequest(edits: seq<Edit>, have: set<string>, list: seq<ScimMember>, at: seq<nat>, i: nat, j: nat)
    requires PlacesFit(edits, list, at) && PlacesFound(have, edits, at)
    requires i < j && Readds(edits, i) && AddsNew(edits, have, j)
    ensures GoneBeforeOther(list, Removed(edits))
  {
    assert Stays(have, edits, i) && PlaceUpTo(edits, at, i);
    assert Stays(have, edits, j) && PlaceUpTo(edits, at, j);
    var k :| 0 <= k < |at| && at[k] <= i && edits[at[k]] == edits[i];
    var l :| 0 <= l < |at| && at[l] <= j && edits[at[l]] == edits[j];
    assert list[k].value in Removed(edits) && list[l].value !in Removed(edits);
  }

  lemma FirstPlace(edits: seq<Edit>, have: set<string>, list: seq<ScimMember>, at: seq<nat>, l: nat)
    requires PlacesFit(edits, list, at) && PlacesFound(have, edits, at) && NoDuplicates(Ids(list)) && l < |list|
    requires list[l].value !in have && list[l].value !in Removed(edits)
    ensures forall i | 0 <= i < at[l] :: edits[i] != edits[at[l]]
  {
    forall i | 0 <= i < at[l] ensures edits[i] != edits[at[l]] {
      if Stays(have, edits, i) {
        assert PlaceUpTo(edits, at, i);
        var k :| 0 <= k < |at| && at[k] <= i && edits[at[k]] == edits[i];
        assert Ids(list)[k] != Ids(list)[l];
      }
    }
  }

  lemma {:induction false} BaseAgain(users: map<string, ScimUser>, a: seq<ScimMember>, b: seq<ScimMember>,
                                     ops: seq<PatchOperation>)
    ensures Base(users, a, ops) == (if HasReplacement(ops) then Base(users, b, ops) else a)
  {
    if ops != [] {
      var front, op := ops[..|ops| - 1], ops[|ops| - 1];
      assert ops == front + [op];
      assert HasReplacement(ops) <==> HasReplacement(front) || Replaces(op);
      BaseAgain(users, a, b, front);
    }
  }

  predicate HasReplacement(ops: seq<PatchOperation>) {
    exists op :: op in ops && Replaces(op)
  }

  lemma {:induction false} LastDisplayName(ops: seq<PatchOperation>) returns (last: int)
    ensures -1 <= last < |ops|
    ensures last >= 0 ==> SetsDisplayName(ops[last])
    ensures forall j | last < j < |ops| :: !SetsDisplayName(ops[j])
  {
    last := |ops| - 1;
    if ops != [] && !SetsDisplayName(ops[last]) {
      last := LastDisplayName(ops[..last]);
    }
  }

  lemma OtherThanMembers(users: map<string, ScimUser>, team: ScimTeam, ops: seq<PatchOperation>)
    ensures var once := ApplyAll(users, team, ops);
            ApplyAll(users, once, ops) == once.(members := ApplyAll(users, once, ops).members)
  {
    var last := LastDisplayName(ops);
    OtherTeamFields(users, team, ops);
    OtherTeamFields(users, ApplyAll(users, team, ops), ops);
  }

  /** Sending a PATCH twice leaves the same team, in the same order, as sending it once exactly when
      it replaces the members or re-adds no member before it adds a new one. */
  lemma PatchTwiceSameList(users: map<string, ScimUser>, team: ScimTeam, ops: seq<PatchOperation>)
    ensures ApplyAll(users, ApplyAll(users, team, ops), ops) == ApplyAll(users, team, ops)
            <==> HasReplacement(ops) || !ReaddsBeforeNew(EditsSince(ops), IdSet(team.members))
  {
    var once, edits := ApplyAll(users, team, ops), EditsSince(ops);
    OtherThanMembers(users, team, ops);
    PatchIsEdits(users, team, ops);
    PatchIsEdits(users, once, ops);
    BaseAgain(users, team.members, once.members, ops);
    BaseAgain(users, once.members, team.members, ops);
    if !HasReplacement(ops) {
      var kept := Without(team.members, Removed(edits));
      var appended := Appended(users, IdSet(team.members), edits);
      TwoRuns(users, team.members, edits);
      SplitKeepsList(appended, Removed(edits));
      OrderInRequest(users, IdSet(team.members), edits);
      var moved := Without(appended, Removed(edits)) + Only(appended, Removed(edits));
      assert (kept + moved)[|kept|..] == moved && (kept + appended)[|kept|..] == appended;
    }
  }

  /** The members are the same after the second time as after the first. */
  lemma PatchTwiceSameMembers(users: map<string, ScimUser>, team: ScimTeam, ops: seq<PatchOperation>)
    ensures var once := ApplyAll(users, team, ops);
            IdSet(ApplyAll(users, once, ops).members) == IdSet(once.members)
  {
    var once := ApplyAll(users, team, ops);
    forall id ensures id in IdSet(ApplyAll(users, once, ops).members) <==> id in IdSet(once.members) {
      LastOperationDecides(users, team, ops, id);
      LastOperationDecides(users, once, ops, id);
    }
  }

  /** Remove y, add y, add x. */
  function Reordering(x: string, y: string): seq<PatchOperation> {
    var ex, ey := JObject(map["value" := JString(x)]), JObject(map["value" := JString(y)]);
    [RemoveOp([ey]), AddOp([ey]), AddOp([ex])]
  }

  lemma ReorderingEdits(users: map<string, ScimUser>, members: seq<ScimMember>, x: string, y: string)
    ensures EditsSince(Reordering(x, y)) == [Remove(y), Add(y), Add(x)]
    ensures Base(users, members, Reordering(x, y)) == members
  {
    var ops := Reordering(x, y);
    SingleEntry(users, ops[0].value.items[0], y);
    SingleEntry(users, ops[2].value.items[0], x);
    assert ops[..2] == [ops[0], ops[1]] && ops[..2][..1] == [ops[0]] && [ops[0]][..0] == [];
    assert EditsSince([ops[0]]) == EditsSince([]) + EditsOf(ops[0]) == [Remove(y)];
    assert EditsSince(ops[..2]) == EditsSince([ops[0]]) + EditsOf(ops[1]) == [Remove(y), Add(y)];
    assert Base(users, members, [ops[0]]) == Base(users, members, []) == Base(users, members, ops[..2]);
  }

  lemma ThreeEdits(users: map<string, ScimUser>, members: seq<ScimMember>, a: Edit, b: Edit, c: Edit)
    ensures EditAll(users, members, [a, b, c]) == EditOne(users, EditOne(users, EditOne(users, members, a), b), c)
  {
    assert [a, b, c][..2] == [a, b] && [a, b][..1] == [a] && [a][..0] == [];
    assert EditAll(users, members, [a, b]) == EditOne(users, EditAll(users, members, [a]), b);
    assert EditAll(users, members, [a]) == EditOne(users, EditAll(users, members, []), a);
  }

  lemma AddsLast(users: map<string, ScimUser>, members: seq<ScimMember>, id: string)
    requires id !in IdSet(members)
    ensures EditOne(users, members, Add(id)) == members + [NewMember(users, id)]
    ensures IdSet(members + [NewMember(users, id)]) == IdSet(members) + {id}
  {
    OnlySnoc(members, NewMember(users, id), {});
  }

  lemma ReorderOnce(users: map<string, ScimUser>, members: seq<ScimMember>, x: string, y: string)
    requires x != y && x !in IdSet(members)
    ensures y !in IdSet(Without(members, {y})) && x !in IdSet(Without(members, {y}))
    ensures EditAll(users, members, [Remove(y), Add(y), Add(x)])
            == Without(members, {y}) + [NewMember(users, y), NewMember(users, x)]
  {
    hide Without, EditAll;
    var others, my := Without(members, {y}), NewMember(users, y);
    ThreeEdits(users, members, Remove(y), Add(y), Add(x));
    WithoutIds(members, {y});
    AddsLast(users, others, y);
    AddsLast(users, others + [my], x);
  }

  lemma WithoutSecondLast(others: seq<ScimMember>, m: ScimMember, last: ScimMember)
    requires m.value !in IdSet(others) && m.value != last.value
    ensures Without(others + [m, last], {m.value}) == others + [last]
  {
    hide Without;
    assert others + [m, last] == others + [m] + [last];
    OnlySnoc(others + [m], last, {m.value});
    OnlySnoc(others, m, {m.value});
    WithoutIdentity(others, {m.value});
  }

  lemma ReorderAgain(users: map<string, ScimUser>, others: seq<ScimMember>, x: string, y: string)
    requires x != y && x !in IdSet(others) && y !in IdSet(others)
    ensures EditAll(users, others + [NewMember(users, y), NewMember(users, x)], [Remove(y), Add(y), Add(x)])
            == others + [NewMember(users, x), NewMember(users, y)]
  {
    hide Without, EditAll, IdSet;
    var mx, my := NewMember(users, x), NewMember(users, y);
    var a, b := others + [mx], others + [mx] + [my];
    ThreeEdits(users, others + [my, mx], Remove(y), Add(y), Add(x));
    WithoutSecondLast(others, my, mx);
    AddsLast(users, others, x);
    AddsLast(users, a, y);
    assert EditOne(users, b, Add(x)) == b;
    assert b == others + [mx, my];
  }

  /** Any team without x: re-adding y and then adding x puts y before x the first time, and x before
      y the second time. */
  lemma PatchTwiceCanReorder(users: map<string, ScimUser>, team: ScimTeam, x: string, y: string)
    requires x != y && x !in IdSet(team.members)
    ensures var once := ApplyAll(users, team, Reordering(x, y));
            var others, mx, my := Without(team.members, {y}), NewMember(users, x), NewMember(users, y);
            once.members == others + [my, mx] && ApplyAll(users, once, Reordering(x, y)).members == others + [mx, my]
  {
    hide Without, EditAll, ApplyAll, EditsSince, Base, Reordering;
    var once := ApplyAll(users, team, Reordering(x, y));
    ReorderingEdits(users, team.members, x, y);
    ReorderingEdits(users, once.members, x, y);
    PatchIsEdits(users, team, Reordering(x, y));
    PatchIsEdits(users, once, Reordering(x, y));
    ReorderOnce(users, team.members, x, y);
    ReorderAgain(users, Without(team.members, {y}), x, y);
  }
}
