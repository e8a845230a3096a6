/** The cache of allowed workspaces: filled once under a mutex, read without it. */
module Workspace {
  import opened Text
  import opened Scim

  /** A workspace the token can see, with the token's role in it. */
  datatype Record = Record(gid: string, isGuest: bool)

  datatype Fetched = Fetched(records: seq<Record>) | FetchError

  /** The ids to keep: all of them for a service account, the non-guest ones otherwise. */
  function Allowed(serviceAccount: bool, records: seq<Record>): seq<string> {
    if records == [] then []
    else
      (if serviceAccount || !records[0].isGuest then [records[0].gid] else [])
      + Allowed(serviceAccount, records[1..])
  }

  lemma {:induction false} AllowedSnoc(serviceAccount: bool, records: seq<Record>, r: Record)
    ensures Allowed(serviceAccount, records + [r])
            == if serviceAccount || !r.isGuest
               then Allowed(serviceAccount, records) + [r.gid]
               else Allowed(serviceAccount, records)
  {
    if records == [] {
      assert [r][1..] == [];
    } else {
      AllowedSnoc(serviceAccount, records[1..], r);
      assert (records + [r])[1..] == records[1..] + [r];
    }
  }

  /** The allowed ids are those of the records that are no guest's, or of all of them for a service
      account, in the order of the records. */
  lemma {:induction false} AllowedOrder(serviceAccount: bool, records: seq<Record>) returns (at: seq<nat>)
    ensures |at| == |Allowed(serviceAccount, records)|
    ensures forall k | 0 <= k < |at| :: at[k] < |records| && records[at[k]].gid == Allowed(serviceAccount, records)[k]
    ensures forall j, k | 0 <= j < k < |at| :: at[j] < at[k]
    ensures forall i | 0 <= i < |records| :: i in at <==> serviceAccount || !records[i].isGuest
  {
    at := [];
    if records != [] {
      var n := |records| - 1;
      at := AllowedOrder(serviceAccount, records[..n]);
      AllowedFront(serviceAccount, records);
      hide Allowed;
      assert forall i | 0 <= i < n :: records[..n][i] == records[i];
      if serviceAccount || !records[n].isGuest {
        at := at + [n];
      }
    }
  }

  lemma AllowedFront(serviceAccount: bool, records: seq<Record>)
    requires records != []
    ensures var last := records[|records| - 1];
            Allowed(serviceAccount, records)
            == Allowed(serviceAccount, records[..|records| - 1])
               + if serviceAccount || !last.isGuest then [last.gid] else []
  {
    AllowedSnoc(serviceAccount, records[..|records| - 1], records[|records| - 1]);
    assert records == records[..|records| - 1] + [records[|records| - 1]];
  }

  /** What the cache holds for good once a fetch has come back. */
  function Final(serviceAccount: bool, fetched: Fetched): seq<string> {
    if fetched.FetchError? then [] else Allowed(serviceAccount, fetched.records)
  }

  // ----- one caller ---------------------------------------------------------------------------

  datatype WorkspaceInfo = WorkspaceInfo(gid: string, name: string, isOrganization: bool)

  class WorkspaceConnector {
    var allowedWorkspaces: Option<seq<string>>
    const useServiceAccount: bool

    constructor (useServiceAccount: bool)
      ensures allowedWorkspaces == None && this.useServiceAccount == useServiceAccount
    {
      allowedWorkspaces := None;
      this.useServiceAccount := useServiceAccount;
    }

    /** A filled cache is kept, whatever a fetch would say; an empty one is filled for good, with
        nothing when the fetch fails. */
    method LoadAllowedWorkspaces(fetch: Fetched) returns (ok: bool)
      modifies this
      ensures allowedWorkspaces == Some(old(allowedWorkspaces).GetOr(Final(useServiceAccount, fetch)))
      ensures ok <==> old(allowedWorkspaces).Some? || fetch.Fetched?
    {
      if allowedWorkspaces.Some? {
        return true;
      }
      allowedWorkspaces := Some([]);
      if fetch.FetchError? {
        return false;
      }
      for i := 0 to |fetch.records|
        invariant allowedWorkspaces == Some(Allowed(useServiceAccount, fetch.records[..i]))
      {
        AllowedSnoc(useServiceAccount, fetch.records[..i], fetch.records[i]);
        assert fetch.records[..i + 1] == fetch.records[..i] + [fetch.records[i]];
        if useServiceAccount || !fetch.records[i].isGuest {
          allowedWorkspaces := Some(allowedWorkspaces.value + [fetch.records[i].gid]);
        }
      }
      assert fetch.records[..|fetch.records|] == fetch.records;
      return true;
    }

    /** Lists the cached workspaces in order; a failing lookup of one of them fails the list. */
    method List(fetch: Fetched, lookup: string -> Option<WorkspaceInfo>) returns (r: Option<seq<WorkspaceInfo>>)
      modifies this
      ensures allowedWorkspaces == Some(old(allowedWorkspaces).GetOr(Final(useServiceAccount, fetch)))
      ensures r.Some? <==> && (old(allowedWorkspaces).Some? || fetch.Fetched?)
                           && forall id | id in allowedWorkspaces.value :: lookup(id).Some?
      ensures r.Some? ==> |r.value| == |allowedWorkspaces.value|
      ensures r.Some? ==> forall i | 0 <= i < |r.value| :: lookup(allowedWorkspaces.value[i]) == Some(r.value[i])
    {
      if allowedWorkspaces.None? {
        var ok := LoadAllowedWorkspaces(fetch);
        if !ok {
          return None;
        }
      }
      var rv: seq<WorkspaceInfo> := [];
      for i := 0 to |allowedWorkspaces.value|
        invariant |rv| == i
        invariant forall j | 0 <= j < i :: lookup(allowedWorkspaces.value[j]) == Some(rv[j])
      {
        var info := lookup(allowedWorkspaces.value[i]);
        if info.None? {
          assert allowedWorkspaces.value[i] in allowedWorkspaces.value;
          return None;
        }
        rv := rv + [info.value];
      }
      return Some(rv);
    }
  }

  // ----- many callers -------------------------------------------------------------------------

  /** Where a call of List is. `Reading` and `Iterating` remember whether the call went through the
      mutex. */
  datatype Phase =
    | Checking                                            // about to test the field for nil, unlocked
    | Waiting                                             // about to take the mutex
    | Locked                                              // about to test the field again
    | Fetching                                            // the field is set, the answer is not there yet
    | Filling(rest: seq<Record>)                          // appending one record after another
    | Reading(waited: bool)                               // about to read the field, unlocked
    | Iterating(snapshot: seq<string>, waited: bool)      // going over what was read
    | Failed                                              // returned the fetch error

  datatype State = State(cache: Option<seq<string>>, holder: Option<nat>, calls: seq<Phase>, answers: seq<Fetched>)

  /** One step of one call; `answer` is what the fetch says if this is the step that fetches. */
  datatype Turn = Turn(call: nat, answer: Fetched)

  function Move(serviceAccount: bool, s: State, turn: Turn): State {
    if turn.call >= |s.calls| then s
    else
      var t := turn.call;
      match s.calls[t]
      case Checking => s.(calls := s.calls[t := if s.cache.None? then Waiting else Reading(false)])
      case Waiting => if s.holder.None? then s.(calls := s.calls[t := Locked], holder := Some(t)) else s
      case Locked =>
        if s.cache.Some? then s.(calls := s.calls[t := Reading(true)], holder := None)
        else s.(calls := s.calls[t := Fetching], cache := Some([]))
      case Fetching =>
        if turn.answer.FetchError? then
          s.(calls := s.calls[t := Failed], holder := None, answers := s.answers + [turn.answer])
        else s.(calls := s.calls[t := Filling(turn.answer.records)], answers := s.answers + [turn.answer])
      case Filling(rest) =>
        if rest == [] then s.(calls := s.calls[t := Reading(true)], holder := None)
        else s.(calls := s.calls[t := Filling(rest[1..])],
                cache := Some(s.cache.GetOr([]) + Allowed(serviceAccount, rest[..1])))
      case Reading(waited) => s.(calls := s.calls[t := Iterating(s.cache.GetOr([]), waited)])
      case Iterating(_, _) => s
      case Failed => s
  }

  function Moves(serviceAccount: bool, s: State, turns: seq<Turn>): State {
    if turns == [] then s
    else Move(serviceAccount, Moves(serviceAccount, s, turns[..|turns| - 1]), turns[|turns| - 1])
  }

  /** Any number of calls, none of which has done anything yet. */
  predicate Initial(s: State) {
    s.cache == None && s.holder == None && s.answers == [] && forall t | 0 <= t < |s.calls| :: s.calls[t] == Checking
  }

  predicate Inside(p: Phase) {
    p.Locked? || p.Fetching? || p.Filling?
  }

  predicate Loading(p: Phase) {
    p.Fetching? || p.Filling?
  }

  /** A fetch has come back and nobody is filling the cache any more. */
  predicate Loaded(s: State) {
    |s.answers| == 1 && forall t | 0 <= t < |s.calls| :: !Loading(s.calls[t])
  }

  /** What one call may know, given the rest of the state. */
  predicate CallOk(serviceAccount: bool, s: State, t: nat)
    requires t < |s.calls|
  {
    match s.calls[t]
    case Checking => true
    case Waiting => true
    case Locked => true
    case Fetching => s.cache == Some([]) && s.answers == []
    case Filling(rest) =>
      && |s.answers| == 1 && s.answers[0].Fetched? && s.cache.Some?
      && s.cache.value + Allowed(serviceAccount, rest) == Final(serviceAccount, s.answers[0])
    case Reading(waited) => s.cache.Some? && (waited ==> Loaded(s))
    case Iterating(snapshot, waited) => s.cache.Some? && snapshot <= s.cache.value
        && (waited ==> Loaded(s) && snapshot == s.cache.value)
    case Failed => s.answers == [FetchError]
  }

  predicate Invariant(serviceAccount: bool, s: State) {
    && (forall t | 0 <= t < |s.calls| :: Inside(s.calls[t]) <==> s.holder == Some(t))
    && (s.holder.Some? ==> s.holder.value < |s.calls|)
    && (s.cache.None? ==> s.answers == [])
    && (s.cache.Some? && (forall t | 0 <= t < |s.calls| :: !Loading(s.calls[t])) ==>
          |s.answers| == 1 && s.cache.value == Final(serviceAccount, s.answers[0]))
    && |s.answers| <= 1
    && (forall t | 0 <= t < |s.calls| :: CallOk(serviceAccount, s, t))
    && (forall t, u | 0 <= t < u < |s.calls| :: !(s.calls[t].Failed? && s.calls[u].Failed?))
  }

  lemma CacheGrows(serviceAccount: bool, s: State, turn: Turn)
    requires Invariant(serviceAccount, s)
    ensures var n := Move(serviceAccount, s, turn);
            s.cache.Some? ==> n.cache.Some? && s.cache.value <= n.cache.value
  {
  }

  lemma OwnCallStaysOk(serviceAccount: bool, s: State, turn: Turn)
    requires Invariant(serviceAccount, s) && turn.call < |s.calls|
    ensures CallOk(serviceAccount, Move(serviceAccount, s, turn), turn.call)
  {
    var t := turn.call;
    var n := Move(serviceAccount, s, turn);
    assert CallOk(serviceAccount, s, t);
    if s.calls[t].Filling? && s.calls[t].rest != [] {
      AllowedFirst(serviceAccount, s.cache.value, s.calls[t].rest);
    }
  }

  lemma AllowedCons(serviceAccount: bool, rest: seq<Record>)
    requires rest != []
    ensures Allowed(serviceAccount, rest) == Allowed(serviceAccount, [rest[0]]) + Allowed(serviceAccount, rest[1..])
  {
    assert [rest[0]][1..] == [];
  }

  lemma AllowedFirst(serviceAccount: bool, kept: seq<string>, rest: seq<Record>)
    requires rest != []
    ensures kept + Allowed(serviceAccount, rest[..1]) + Allowed(serviceAccount, rest[1..])
             == kept + Allowed(serviceAccount, rest)
  {
    AllowedCons(serviceAccount, rest);
    hide Allowed;
    assert rest[..1] == [rest[0]];
  }

  lemma OtherCallStaysOk(serviceAccount: bool, s: State, turn: Turn, u: nat)
    requires Invariant(serviceAccount, s) && turn.call < |s.calls| && u < |s.calls| && u != turn.call
    ensures var n := Move(serviceAccount, s, turn);
            && u < |n.calls| && n.calls[u] == s.calls[u]
            && CallOk(serviceAccount, n, u)
            && !(n.calls[turn.call].Failed? && n.calls[u].Failed?)
  {
    var n := Move(serviceAccount, s, turn);
    assert CallOk(serviceAccount, s, u) && CallOk(serviceAccount, s, turn.call);
    CacheGrows(serviceAccount, s, turn);
    assert Inside(s.calls[u]) <==> s.holder == Some(u);
    assert forall k | 0 <= k < |s.calls| && k != turn.call :: n.calls[k] == s.calls[k];
  }

  /** The parts of the invariant that speak of no single call. */
  lemma MoveKeepsShared(serviceAccount: bool, s: State, turn: Turn)
    requires Invariant(serviceAccount, s) && turn.call < |s.calls|
    ensures var n := Move(serviceAccount, s, turn);
            && |n.calls| == |s.calls|
            && (forall t | 0 <= t < |n.calls| :: Inside(n.calls[t]) <==> n.holder == Some(t))
            && (n.holder.Some? ==> n.holder.value < |n.calls|)
            && (n.cache.None? ==> n.answers == [])
            && |n.answers| <= 1
            && (n.cache.Some? && (forall t | 0 <= t < |n.calls| :: !Loading(n.calls[t])) ==>
                  |n.answers| == 1 && n.cache.value == Final(serviceAccount, n.answers[0]))
  {
    var t := turn.call;
    var n := Move(serviceAccount, s, turn);
    assert CallOk(serviceAccount, s, t);
    assert n.calls[t] == s.calls[t] || n.calls == s.calls[t := n.calls[t]];
    assert Loading(s.calls[t]) ==> s.holder == Some(t);
    assert forall u | 0 <= u < |s.calls| && u != t :: n.calls[u] == s.calls[u];
    if !Loading(n.calls[t]) && !Loading(s.calls[t]) && (forall u | 0 <= u < |n.calls| :: !Loading(n.calls[u])) {
      assert forall u | 0 <= u < |s.calls| :: !Loading(s.calls[u]);
    }
  }

  lemma MoveKeepsInvariant(serviceAccount: bool, s: State, turn: Turn)
    requires Invariant(serviceAccount, s)
    ensures Invariant(serviceAccount, Move(serviceAccount, s, turn))
  {
    var t := turn.call;
    var n := Move(serviceAccount, s, turn);
    if t < |s.calls| {
      hide Move, CallOk;
      MoveKeepsShared(serviceAccount, s, turn);
      OwnCallStaysOk(serviceAccount, s, turn);
      forall u | 0 <= u < |s.calls| && u != t
        ensures n.calls[u] == s.calls[u] && CallOk(serviceAccount, n, u) && !(n.calls[t].Failed? && n.calls[u].Failed?)
      {
        OtherCallStaysOk(serviceAccount, s, turn, u);
      }
    }
  }

  lemma {:induction false} InvariantHolds(serviceAccount: bool, s: State, turns: seq<Turn>)
    requires Initial(s)
    ensures Invariant(serviceAccount, Moves(serviceAccount, s, turns))
  {
    if turns != [] {
      InvariantHolds(serviceAccount, s, turns[..|turns| - 1]);
      MoveKeepsInvariant(serviceAccount, Moves(serviceAccount, s, turns[..|turns| - 1]), turns[|turns| - 1]);
    }
  }

  lemma InvariantHasOneAnswer(serviceAccount: bool, s: State, turns: seq<Turn>)
    requires Initial(s)
    ensures |Moves(serviceAccount, s, turns).answers| <= 1
    ensures Loaded(Moves(serviceAccount, s, turns)) ==>
              |Moves(serviceAccount, s, turns).answers| == 1
              && Moves(serviceAccount, s, turns).cache
                  == Some(Final(serviceAccount, Moves(serviceAccount, s, turns).answers[0]))
  {
    InvariantHolds(serviceAccount, s, turns);
  }

  lemma LoadedStays(serviceAccount: bool, s: State, turn: Turn)
    requires Invariant(serviceAccount, s) && Loaded(s)
    ensures var n := Move(serviceAccount, s, turn);
            Loaded(n) && n.answers == s.answers && n.cache == s.cache
  {
    if turn.call < |s.calls| {
      assert CallOk(serviceAccount, s, turn.call);
    }
  }

  /** Any number of calls in any interleaving fetch at most once, and once that answer is in, the
      cache is final: later moves change neither it nor the answer. */
  lemma {:induction false} FetchedOnce(serviceAccount: bool, s: State, turns: seq<Turn>, more: seq<Turn>)
    requires Initial(s)
    ensures var now, later := Moves(serviceAccount, s, turns), Moves(serviceAccount, s, turns + more);
            && |later.answers| <= 1
            && (Loaded(now) ==> && later.answers == now.answers
                                && now.cache == later.cache == Some(Final(serviceAccount, now.answers[0]))
                                && Loaded(later))
    decreases |more|
  {
    hide Move, Invariant, Loaded, Initial;
    InvariantHasOneAnswer(serviceAccount, s, turns + more);
    InvariantHolds(serviceAccount, s, turns + more);
    if more == [] {
      assert turns + more == turns;
    } else {
      var front, last := more[..|more| - 1], more[|more| - 1];
      FetchedOnce(serviceAccount, s, turns, front);
      assert (turns + more)[..|turns + more| - 1] == turns + front;
      if Loaded(Moves(serviceAccount, s, turns)) {
        InvariantHolds(serviceAccount, s, turns + front);
        LoadedStays(serviceAccount, Moves(serviceAccount, s, turns + front), last);
      }
    }
  }

  /** What calls see. When the one fetch succeeds, every snapshot is a prefix of the final list, and
      the whole list for a call that went through the mutex. When it fails, exactly the call that
      fetched may return the error, and all others go over nothing. */
  lemma Snapshots(serviceAccount: bool, s: State, turns: seq<Turn>, t: nat)
    requires Initial(s)
    ensures var c := Moves(serviceAccount, s, turns);
            && |c.answers| <= 1
            && (t < |c.calls| && c.calls[t].Iterating? ==>
                  && (c.answers == [] || c.answers[0].FetchError? ==> c.calls[t].snapshot == [])
                  && (c.answers != [] ==> c.calls[t].snapshot <= Final(serviceAccount, c.answers[0]))
                  && (c.calls[t].waited ==>
                         c.answers != [] && c.calls[t].snapshot == Final(serviceAccount, c.answers[0])))
            && (t < |c.calls| && c.calls[t].Failed? ==>
                  c.answers == [FetchError] && forall u | 0 <= u < |c.calls| && u != t :: !c.calls[u].Failed?)
  {
    InvariantHolds(serviceAccount, s, turns);
    var c := Moves(serviceAccount, s, turns);
    if t < |c.calls| {
      assert CallOk(serviceAccount, c, t);
      if c.cache.Some? {
        CacheIsPrefix(serviceAccount, c);
      }
    }
  }

  lemma CacheIsPrefix(serviceAccount: bool, s: State)
    requires Invariant(serviceAccount, s) && s.cache.Some?
    ensures s.answers == [] || s.answers[0].FetchError? ==> s.cache.value == []
    ensures s.answers != [] ==> s.cache.value <= Final(serviceAccount, s.answers[0])
  {
    if t: nat :| t < |s.calls| && Loading(s.calls[t]) {
      assert CallOk(serviceAccount, s, t);
    }
  }

  lemma {:induction false} AnswersStay(serviceAccount: bool, s: State, turns: seq<Turn>, more: seq<Turn>)
    requires Initial(s)
    ensures Moves(serviceAccount, s, turns).answers <= Moves(serviceAccount, s, turns + more).answers
    ensures |Moves(serviceAccount, s, turns + more).answers| <= 1
    decreases |more|
  {
    InvariantHolds(serviceAccount, s, turns + more);
    if more == [] {
      assert turns + more == turns;
    } else {
      AnswersStay(serviceAccount, s, turns, more[..|more| - 1]);
      assert (turns + more)[..|turns + more| - 1] == turns + more[..|more| - 1];
    }
  }

  /** Nothing that a call still has to append would change the cache. */
  predicate NothingToAppend(serviceAccount: bool, s: State) {
    forall t | 0 <= t < |s.calls| && s.calls[t].Filling? :: Allowed(serviceAccount, s.calls[t].rest) == []
  }

  lemma CacheIsFinal(serviceAccount: bool, s: State, fetched: Fetched)
    requires Invariant(serviceAccount, s) && s.cache.Some? && s.answers <= [fetched]
    ensures s.cache.value == Final(serviceAccount, fetched)
            <==> (s.answers == [] ==> Final(serviceAccount, fetched) == []) && NothingToAppend(serviceAccount, s)
  {
    CacheIsPrefix(serviceAccount, s);
    if t: nat :| t < |s.calls| && Loading(s.calls[t]) {
      assert CallOk(serviceAccount, s, t) && s.holder == Some(t);
      assert forall u | 0 <= u < |s.calls| && Inside(s.calls[u]) :: u == t;
    }
  }

  /** An unlocked read sees the whole final list exactly when nothing is left to append, and the
      fetch, if it has yet to come back, will bring nothing. */
  lemma ReadSeesAllExactly(serviceAccount: bool, s: State, turns: seq<Turn>, turn: Turn, more: seq<Turn>)
    requires Initial(s)
    requires var c := Moves(serviceAccount, s, turns);
             turn.call < |c.calls| && c.calls[turn.call].Reading?
    requires Moves(serviceAccount, s, turns + more).answers != []
    ensures var c := Moves(serviceAccount, s, turns);
            var final := Final(serviceAccount, Moves(serviceAccount, s, turns + more).answers[0]);
            var read := Move(serviceAccount, c, turn).calls[turn.call];
            && read.Iterating?
            && (read.snapshot == final <==> (c.answers == [] ==> final == []) && NothingToAppend(serviceAccount, c))
  {
    var c, later := Moves(serviceAccount, s, turns), Moves(serviceAccount, s, turns + more);
    InvariantHolds(serviceAccount, s, turns);
    AnswersStay(serviceAccount, s, turns, more);
    assert CallOk(serviceAccount, c, turn.call);
    assert later.answers == [later.answers[0]];
    CacheIsFinal(serviceAccount, c, later.answers[0]);
  }

  /** Once loading is over, every call that has yet to read goes over exactly the final list, and
      none fails, whatever else happens in between. */
  lemma {:induction false} AfterLoading(serviceAccount: bool, s: State, turns: seq<Turn>, more: seq<Turn>, t: nat)
    requires Initial(s)
    requires var c := Moves(serviceAccount, s, turns);
             Loaded(c) && t < |c.calls| && !c.calls[t].Iterating? && !c.calls[t].Failed?
    ensures var c, later := Moves(serviceAccount, s, turns), Moves(serviceAccount, s, turns + more);
            && t < |later.calls| && !later.calls[t].Failed?
            && (later.calls[t].Iterating? ==> later.calls[t].snapshot == Final(serviceAccount, c.answers[0]))
    decreases |more|
  {
    if more == [] {
      assert turns + more == turns;
    } else {
      var front, last := more[..|more| - 1], more[|more| - 1];
      AfterLoading(serviceAccount, s, turns, front, t);
      FetchedOnce(serviceAccount, s, turns, front);
      assert (turns + more)[..|turns + more| - 1] == turns + front;
    }
  }

  /** The states of the run below, after so many turns. */
  function EarlyState(r: Record, turns: nat): State {
    if turns == 0 then State(None, None, [Checking, Checking], [])
    else if turns == 1 then State(None, None, [Waiting, Checking], [])
    else if turns == 2 then State(None, Some(0), [Locked, Checking], [])
    else if turns == 3 then State(Some([]), Some(0), [Fetching, Checking], [])
    else if turns == 4 then State(Some([]), Some(0), [Fetching, Reading(false)], [])
    else if turns == 5 then State(Some([]), Some(0), [Fetching, Iterating([], false)], [])
    else if turns == 6 then State(Some([]), Some(0), [Filling([r]), Iterating([], false)], [Fetched([r])])
    else if turns == 7 then State(Some([r.gid]), Some(0), [Filling([]), Iterating([], false)], [Fetched([r])])
    else State(Some([r.gid]), None, [Reading(true), Iterating([], false)], [Fetched([r])])
  }

  function EarlyTurns(r: Record): seq<Turn> {
    var a, b := Turn(0, Fetched([r])), Turn(1, Fetched([r]));
    [a, a, a, b, b, a, a, a]
  }

  lemma EarlyStep(serviceAccount: bool, r: Record, i: nat)
    requires i < 8 && (serviceAccount || !r.isGuest)
    ensures Move(serviceAccount, EarlyState(r, i), EarlyTurns(r)[i]) == EarlyState(r, i + 1)
  {
    if i == 6 {
      FillOne(serviceAccount, r);
    }
  }

  lemma FillOne(serviceAccount: bool, r: Record)
    requires serviceAccount || !r.isGuest
    ensures [] + Allowed(serviceAccount, [r][..1]) == [r.gid] && [r][1..] == []
  {
    assert [r][1..] == [] && [r][..1] == [r];
  }

  lemma {:induction false} EarlyRun(serviceAccount: bool, r: Record, i: nat)
    requires i <= 8 && (serviceAccount || !r.isGuest)
    ensures Moves(serviceAccount, EarlyState(r, 0), EarlyTurns(r)[..i]) == EarlyState(r, i)
  {
    hide Move;
    if i > 0 {
      EarlyRun(serviceAccount, r, i - 1);
      EarlyStep(serviceAccount, r, i - 1);
      MovesSnoc(serviceAccount, EarlyState(r, 0), EarlyTurns(r), i - 1);
    }
  }

  /** The unlocked read can come too early: with one call about to fetch, another one already goes
      over the empty list and misses workspaces that the fetch then finds. */
  lemma EarlyReaderSeesNothing(serviceAccount: bool, r: Record)
    requires serviceAccount || !r.isGuest
    ensures var s := State(None, None, [Checking, Checking], []);
            && Initial(s)
            && Moves(serviceAccount, s, EarlyTurns(r))
               == State(Some([r.gid]), None, [Reading(true), Iterating([], false)], [Fetched([r])])
  {
    EarlyRun(serviceAccount, r, 8);
    assert EarlyTurns(r)[..8] == EarlyTurns(r);
  }

  lemma MovesSnoc(serviceAccount: bool, s: State, turns: seq<Turn>, i: nat)
    requires i < |turns|
    ensures Moves(serviceAccount, s, turns[..i + 1])
             == Move(serviceAccount, Moves(serviceAccount, s, turns[..i]), turns[i])
  {
    assert turns[..i + 1][..i] == turns[..i];
  }
}
