/** The 1-based walk over the pages of a SCIM list (RFC 7644 section 3.4.2.4), for any server and
    any rendering of the listed items. */
module Paging {
  import opened Text

  const RESOURCES_PAGE_SIZE: int := 100

  datatype ListResponse<+T> = ListResponse(total: int, resources: seq<T>)

  datatype Page<+R> = Page(resources: seq<R>, next: string)

  function Rendered<T, R>(items: seq<T>, render: T -> R): seq<R> {
    seq(|items|, i requires 0 <= i < |items| => render(items[i]))
  }

  /** A token that is no positive number counts as the first page. */
  function StartIndex(token: string): (start: nat)
    ensures 1 <= start <= MAX_INT
  {
    match Atoi(token)
    case Some(n) => if n > 0 then n else 1
    case None => 1
  }

  function NextToken<T>(start: nat, response: ListResponse<T>): string {
    var next := Wrap(start + |response.resources|);
    if |response.resources| > 0 && next <= response.total then Itoa(next) else ""
  }

  function PageOf<T, R>(start: nat, response: ListResponse<T>, render: T -> R): Page<R> {
    Page(Rendered(response.resources, render), NextToken(start, response))
  }

  function PageAt<T, R>(serve: (int, int) -> ListResponse<T>, render: T -> R, token: string): Page<R> {
    PageOf(StartIndex(token), serve(RESOURCES_PAGE_SIZE, StartIndex(token)), render)
  }

  /** A server that obeys section 3.4.2.4: it serves a stable list, says how long that is, and
      answers every start index in range with a non-empty run of at most `count` items. How long
      each run is, the server decides. (With the largest `int` many items the index past the end
      would overflow.) */
  ghost predicate Obeys<T>(serve: (int, int) -> ListResponse<T>, all: seq<T>) {
    && |all| < MAX_INT
    && forall count, start | count > 0 && start > 0 :: Answers(serve(count, start), all, count, start)
  }

  ghost predicate Answers<T>(r: ListResponse<T>, all: seq<T>, count: int, start: int)
    requires start > 0
  {
    var k := |r.resources|;
    && r.total == |all|
    && if start <= |all| then 1 <= k <= count && start - 1 + k <= |all| && r.resources == all[start - 1..start - 1 + k]
       else k == 0
  }

  lemma TokenRoundTrip(n: nat)
    requires 1 <= n <= MAX_INT
    ensures StartIndex(Itoa(n)) == n
  {
    AtoiItoa(n);
  }

  lemma NextOf<T>(start: nat, r: ListResponse<T>, all: seq<T>)
    requires 1 <= start <= MAX_INT && |all| < MAX_INT && Answers(r, all, RESOURCES_PAGE_SIZE, start)
    ensures var next := NextToken(start, r);
            && (next == "" <==> start + |r.resources| > |all|)
            && (next != "" ==> StartIndex(next) == start + |r.resources| && |r.resources| > 0)
  {
    var n := start + |r.resources|;
    if n <= |all| {
      TokenRoundTrip(n);
    }
  }

  /** Past the largest `int` the next index wraps around, and the token starts the list again; this
      is why `Obeys` speaks of shorter lists. */
  lemma OverflowRestarts<T>(start: nat, r: ListResponse<T>)
    requires start <= MAX_INT && start + |r.resources| == MAX_INT + 1 && r.total >= 0
    ensures NextToken(start, r) != "" && StartIndex(NextToken(start, r)) == 1
  {
    AtoiItoa(MIN_INT);
  }

  lemma NextStart<T, R>(serve: (int, int) -> ListResponse<T>, render: T -> R, all: seq<T>, token: string)
    requires Obeys(serve, all)
    ensures var start := StartIndex(token);
            var k := |serve(RESOURCES_PAGE_SIZE, start).resources|;
            var next := PageAt(serve, render, token).next;
            && (next == "" <==> start + k > |all|)
            && (next != "" ==> StartIndex(next) == start + k && k > 0)
  {
    var start := StartIndex(token);
    var r := serve(RESOURCES_PAGE_SIZE, start);
    assert Answers(r, all, RESOURCES_PAGE_SIZE, start);
    NextOf(start, r, all);
  }

  /** What is left to serve from a token on. */
  function Left<T>(all: seq<T>, token: string): seq<T> {
    if StartIndex(token) <= |all| then all[StartIndex(token) - 1..] else []
  }

  /** The pages a caller gets by following tokens until the empty one. */
  ghost function Follow<T, R>(serve: (int, int) -> ListResponse<T>, render: T -> R, all: seq<T>, token: string)
      : (pages: seq<Page<R>>)
    requires Obeys(serve, all)
    ensures pages != []
    decreases |Left(all, token)|
  {
    var page := PageAt(serve, render, token);
    NextStart(serve, render, all, token);
    if page.next == "" then [page] else [page] + Follow(serve, render, all, page.next)
  }

  function Joined<R>(pages: seq<Page<R>>): seq<R> {
    if pages == [] then [] else pages[0].resources + Joined(pages[1..])
  }

  lemma JoinedCons<R>(page: Page<R>, pages: seq<Page<R>>)
    ensures Joined([page] + pages) == page.resources + Joined(pages)
  {
    assert ([page] + pages)[1..] == pages;
  }

  lemma RenderedConcat<T, R>(a: seq<T>, b: seq<T>, render: T -> R)
    ensures Rendered(a + b, render) == Rendered(a, render) + Rendered(b, render)
  {
  }

  /** A page takes its items off the front of what is left; without a next token it takes all. */
  lemma LeftStep<T, R>(serve: (int, int) -> ListResponse<T>, render: T -> R, all: seq<T>, token: string)
    requires Obeys(serve, all)
    ensures var r := serve(RESOURCES_PAGE_SIZE, StartIndex(token)).resources;
            var next := PageAt(serve, render, token).next;
            Left(all, token) == r + if next == "" then [] else Left(all, next)
  {
    hide StartIndex, NextToken;
    var start := StartIndex(token);
    assert Answers(serve(RESOURCES_PAGE_SIZE, start), all, RESOURCES_PAGE_SIZE, start);
    NextStart(serve, render, all, token);
  }

  /** From any token the walk yields exactly the rest of the list, in order, one item a call at the
      least. */
  lemma {:induction false} WalkFrom<T, R>(serve: (int, int) -> ListResponse<T>, render: T -> R, all: seq<T>,
      token: string)
    requires Obeys(serve, all)
    ensures Joined(Follow(serve, render, all, token)) == Rendered(Left(all, token), render)
    ensures |Follow(serve, render, all, token)| <= if Left(all, token) == [] then 1 else |Left(all, token)|
    decreases |Left(all, token)|
  {
    var page := PageAt(serve, render, token);
    var r := serve(RESOURCES_PAGE_SIZE, StartIndex(token)).resources;
    LeftStep(serve, render, all, token);
    NextStart(serve, render, all, token);
    if page.next == "" {
      JoinedCons(page, []);
      assert [page] + [] == [page];
    } else {
      WalkFrom(serve, render, all, page.next);
      JoinedCons(page, Follow(serve, render, all, page.next));
      RenderedConcat(r, Left(all, page.next), render);
    }
  }

  /** From the empty token every item comes exactly once, in order, in at most n calls. */
  lemma FullWalk<T, R>(serve: (int, int) -> ListResponse<T>, render: T -> R, all: seq<T>)
    requires Obeys(serve, all)
    ensures Joined(Follow(serve, render, all, "")) == Rendered(all, render)
    ensures |Follow(serve, render, all, "")| <= if all == [] then 1 else |all|
  {
    WalkFrom(serve, render, all, "");
    assert Left(all, "") == all;
  }

  /** A server that ignores count and start index and returns everything is walked in one call. */
  lemma ReturnEverything<T, R>(all: seq<T>, render: T -> R)
    requires |all| < MAX_INT
    ensures PageAt((count, start) => ListResponse(|all|, all), render, "") == Page(Rendered(all, render), "")
  {
  }
}
