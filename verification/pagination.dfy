/** The cursor-pagination loop of `TextMining.search`.

    The search service is modelled as the sequence of outcomes it gives to
    the successive requests of one search: the k-th request is answered by
    `rs[k]`. A request that raises (transport error, malformed JSON, a
    missing `hitCount` or `resultList`) is a `Fail`. Because the loop
    retries a failure forever, the length of `rs` is the loop's fuel: a
    search that has used every outcome without ending is `OutOfFuel`. */
module Pagination {
  import opened Wrappers
  import Query

  type PaperId = string

  /** A parsed page: its `hitCount`, the ids of its `resultList`, and its
      `nextCursorMark`, which may be missing. */
  datatype Page = Page(hitCount: int, ids: seq<PaperId>, nextCursor: Option<string>)

  datatype Outcome = Fail | Ok(page: Page)

  /** The loop ends on a page that reports no hits, or whose next cursor is
      the cursor just used. With no hits the cursor is not even read, so a
      missing `nextCursorMark` does not matter then. */
  predicate Ends(p: Page, cursor: string)
  {
    p.hitCount == 0 || p.nextCursor == Some(cursor)
  }

  /** The ids a request adds to the result list: those of a parsed page.
      A page whose `nextCursorMark` is missing has its ids appended before
      the lookup of the cursor raises. */
  function Gained(o: Outcome): seq<PaperId>
  {
    if o.Ok? then o.page.ids else []
  }

  /** The cursor of the next request after a request that did not end the
      loop: the page's next cursor, or the same cursor when the request
      raised (a failure, or a page without `nextCursorMark`). */
  function NextCursor(cursor: string, o: Outcome): string
  {
    if o.Ok? && o.page.nextCursor.Some? then o.page.nextCursor.value else cursor
  }

  /** The result of one search: the ids gathered, the cursor of every request
      made, and for a finished search the `hitCount` of its final page. */
  datatype SearchRun =
    | Finished(ids: seq<PaperId>, hitCount: int, cursors: seq<string>)
    | OutOfFuel(ids: seq<PaperId>, cursors: seq<string>)

  /** The loop, from a state with the given cursor and the ids gathered so far. */
  function Paginate(rs: seq<Outcome>, cursor: string, ids: seq<PaperId>, cursors: seq<string>): SearchRun
    decreases |rs|
  {
    if |rs| == 0 then OutOfFuel(ids, cursors)
    else
      var ids' := ids + Gained(rs[0]);
      var cursors' := cursors + [cursor];
      if rs[0].Ok? && Ends(rs[0].page, cursor) then Finished(ids', rs[0].page.hitCount, cursors')
      else Paginate(rs[1..], NextCursor(cursor, rs[0]), ids', cursors')
  }

  /** `search(term)`: start from the initial cursor with no ids. */
  function Search(rs: seq<Outcome>): SearchRun
  {
    Paginate(rs, Query.InitialCursor, [], [])
  }

  // ---- Reference definitions, indexed by request number ----

  /** The cursor of request `k`. */
  function CursorAt(rs: seq<Outcome>, k: nat): string
    requires k <= |rs|
  {
    if k == 0 then Query.InitialCursor else NextCursor(CursorAt(rs, k - 1), rs[k - 1])
  }

  /** Request `k` ends the loop. */
  predicate EndsAt(rs: seq<Outcome>, k: nat)
    requires k < |rs|
  {
    rs[k].Ok? && Ends(rs[k].page, CursorAt(rs, k))
  }

  /** The ids gathered by the first `k` requests, in request order. */
  function IdsUpTo(rs: seq<Outcome>, k: nat): seq<PaperId>
    requires k <= |rs|
  {
    if k == 0 then [] else IdsUpTo(rs, k - 1) + Gained(rs[k - 1])
  }

  /** The run `r` is the loop's run over `rs`: every request used the cursor
      the previous ones left, the ids are those of the requests made, no
      request but the last ended the loop, a finished run ended at its last
      request with that page's `hitCount`, and a run out of fuel used every
      outcome without ending. */
  ghost predicate Follows(rs: seq<Outcome>, r: SearchRun)
  {
    && |r.cursors| <= |rs|
    && (forall i :: 0 <= i < |r.cursors| ==> r.cursors[i] == CursorAt(rs, i))
    && r.ids == IdsUpTo(rs, |r.cursors|)
    && (forall j :: 0 <= j < |r.cursors| - 1 ==> !EndsAt(rs, j))
    && (r.Finished? ==> |r.cursors| >= 1 && EndsAt(rs, |r.cursors| - 1)
                        && r.hitCount == rs[|r.cursors| - 1].page.hitCount)
    && (r.OutOfFuel? ==> |r.cursors| == |rs| && forall j :: 0 <= j < |rs| ==> !EndsAt(rs, j))
  }

  /** From a state reached after `k` requests none of which ended the loop,
      the loop runs as the reference says. */
  lemma {:induction false} PaginateFrom(rs: seq<Outcome>, k: nat, cursors: seq<string>)
    requires k <= |rs|
    requires |cursors| == k && forall i :: 0 <= i < k ==> cursors[i] == CursorAt(rs, i)
    requires forall j :: 0 <= j < k ==> !EndsAt(rs, j)
    ensures k <= |Paginate(rs[k..], CursorAt(rs, k), IdsUpTo(rs, k), cursors).cursors|
    ensures Follows(rs, Paginate(rs[k..], CursorAt(rs, k), IdsUpTo(rs, k), cursors))
    decreases |rs| - k
  {
    var r := Paginate(rs[k..], CursorAt(rs, k), IdsUpTo(rs, k), cursors);
    if k == |rs| {
      assert r == OutOfFuel(IdsUpTo(rs, k), cursors);
      RunOutFollows(rs, cursors);
    } else {
      var c := CursorAt(rs, k);
      var cursors' := cursors + [c];
      assert rs[k..][0] == rs[k];
      NextCursors(rs, k, cursors);
      if EndsAt(rs, k) {
        assert r == Finished(IdsUpTo(rs, k + 1), rs[k].page.hitCount, cursors');
        FinishedFollows(rs, k, cursors');
      } else {
        assert rs[k..][1..] == rs[k + 1..];
        assert r == Paginate(rs[k + 1..], CursorAt(rs, k + 1), IdsUpTo(rs, k + 1), cursors');
        PaginateFrom(rs, k + 1, cursors');
      }
    }
  }

  /** Request `k` appends its own cursor to the cursors of the requests before it. */
  lemma NextCursors(rs: seq<Outcome>, k: nat, cursors: seq<string>)
    requires k < |rs|
    requires |cursors| == k && forall i :: 0 <= i < k ==> cursors[i] == CursorAt(rs, i)
    ensures forall i :: 0 <= i < k + 1 ==> (cursors + [CursorAt(rs, k)])[i] == CursorAt(rs, i)
  {
  }

  /** A run that ends at request `k`, the first to end the loop, follows the reference. */
  lemma FinishedFollows(rs: seq<Outcome>, k: nat, cursors: seq<string>)
    requires k < |rs| && EndsAt(rs, k)
    requires |cursors| == k + 1 && forall i :: 0 <= i < k + 1 ==> cursors[i] == CursorAt(rs, i)
    requires forall j :: 0 <= j < k ==> !EndsAt(rs, j)
    ensures Follows(rs, Finished(IdsUpTo(rs, k + 1), rs[k].page.hitCount, cursors))
  {
  }

  /** A run that used every outcome without ending follows the reference. */
  lemma RunOutFollows(rs: seq<Outcome>, cursors: seq<string>)
    requires |cursors| == |rs| && forall i :: 0 <= i < |rs| ==> cursors[i] == CursorAt(rs, i)
    requires forall j :: 0 <= j < |rs| ==> !EndsAt(rs, j)
    ensures Follows(rs, OutOfFuel(IdsUpTo(rs, |rs|), cursors))
  {
  }

  /** What `search` returns: it makes requests until the first page that ends
      the loop, each request using the cursor the previous ones left; the
      result is the in-order concatenation of the ids of every parsed page,
      the final one included. */
  lemma SearchSpec(rs: seq<Outcome>)
    ensures var r := Search(rs);
      && |r.cursors| <= |rs|
      && (forall i :: 0 <= i < |r.cursors| ==> r.cursors[i] == CursorAt(rs, i))
      && r.ids == IdsUpTo(rs, |r.cursors|)
      && (forall j :: 0 <= j < |r.cursors| - 1 ==> !EndsAt(rs, j))
      && (r.Finished? <==> exists j :: 0 <= j < |rs| && EndsAt(rs, j))
      && (r.Finished? ==> |r.cursors| >= 1 && EndsAt(rs, |r.cursors| - 1)
                          && r.hitCount == rs[|r.cursors| - 1].page.hitCount)
      && (r.OutOfFuel? ==> |r.cursors| == |rs|)
  {
    assert rs[0..] == rs;
    PaginateFrom(rs, 0, []);
  }

  /** A request that raised leaves the cursor unchanged: the next request
      retries with the same cursor. A parsed, non-final page moves the
      cursor to its `nextCursorMark` when it has one. */
  lemma RetryKeepsCursor(rs: seq<Outcome>, k: nat)
    requires k + 1 < |Search(rs).cursors|
    ensures k + 1 < |rs|
    ensures rs[k].Fail? ==> Search(rs).cursors[k + 1] == Search(rs).cursors[k]
    ensures rs[k].Ok? && rs[k].page.nextCursor.None? ==> Search(rs).cursors[k + 1] == Search(rs).cursors[k]
    ensures rs[k].Ok? && rs[k].page.nextCursor.Some? ==> Search(rs).cursors[k + 1] == rs[k].page.nextCursor.value
  {
    SearchSpec(rs);
  }

  /** The ids are a list, not a set: a page without `nextCursorMark` has its
      ids appended and is then asked for again, so the same ids come twice. */
  lemma RetriedPageDuplicatesIds()
    ensures Search([Ok(Page(1, ["p1"], None)), Ok(Page(1, ["p1"], Some("*")))])
         == Finished(["p1", "p1"], 1, ["*", "*"])
  {
    var rs := [Ok(Page(1, ["p1"], None)), Ok(Page(1, ["p1"], Some("*")))];
    assert rs[1..][1..] == [];
  }

  /** A server that hands back the same cursor twice stops the loop at the
      second page. */
  lemma RepeatedCursorStops(h1: int, h2: int, ids1: seq<PaperId>, ids2: seq<PaperId>, c: string, rest: seq<Outcome>)
    requires h1 != 0 && c != Query.InitialCursor
    ensures Search([Ok(Page(h1, ids1, Some(c))), Ok(Page(h2, ids2, Some(c)))] + rest)
         == Finished(ids1 + ids2, h2, [Query.InitialCursor, c])
  {
    var rs := [Ok(Page(h1, ids1, Some(c))), Ok(Page(h2, ids2, Some(c)))] + rest;
    assert rs[0] == Ok(Page(h1, ids1, Some(c)));
    assert rs[1..][0] == Ok(Page(h2, ids2, Some(c)));
    assert Search(rs) == Paginate(rs[1..], c, [] + ids1, [] + [Query.InitialCursor]);
    assert [] + ids1 == ids1;
    assert [] + [Query.InitialCursor] + [c] == [Query.InitialCursor, c];
  }
}
