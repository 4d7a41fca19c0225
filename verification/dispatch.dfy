/** `TextMining.search_all` and `TextMining.can_be_found`: one search per
    term, and the bookkeeping counters of the `TextMining` object.

    The thread pool only changes the order in which searches complete;
    results are collected in submission order, so the model is a
    sequential fold. Each submitted search gets its own stream of server
    outcomes, `feeds[i]` for `terms[i]`. */
module Dispatch {
  import opened Wrappers
  import opened Pagination

  /** The state of a `TextMining` object: the current category and the
      `processed`, `total` and `papers` counters. */
  datatype Miner = Miner(kind: string, processed: int, total: int, papers: int)

  /** The ids found for term `i`. */
  function Found(feeds: seq<seq<Outcome>>, i: nat): seq<PaperId>
    requires i < |feeds|
  {
    Search(feeds[i]).ids
  }

  /** The final `hitCount`s of the first `n` searches, added up. */
  function TotalHits(feeds: seq<seq<Outcome>>, n: nat): int
    requires n <= |feeds|
  {
    if n == 0 then 0
    else TotalHits(feeds, n - 1) + (var r := Search(feeds[n - 1]); if r.Finished? then r.hitCount else 0)
  }

  /** Every one of the first `n` searches ends. */
  predicate AllFinish(feeds: seq<seq<Outcome>>, n: nat)
    requires n <= |feeds|
  {
    forall i :: 0 <= i < n ==> Search(feeds[i]).Finished?
  }

  /** Term `i` is the last occurrence of its term that found something. */
  predicate LastFinding(terms: seq<string>, feeds: seq<seq<Outcome>>, n: nat, i: nat)
    requires n <= |terms| == |feeds| && i < n
  {
    |Found(feeds, i)| > 0 && forall j :: i < j < n && terms[j] == terms[i] ==> |Found(feeds, j)| == 0
  }

  /** `search(term)`: a finished search adds its final `hitCount` to
      `papers` and one to `processed`; a search out of fuel never returns,
      so it leaves no trace. */
  function SearchTerm(m: Miner, rs: seq<Outcome>): (Miner, SearchRun)
  {
    var r := Search(rs);
    if r.Finished? then (m.(processed := m.processed + 1, papers := m.papers + r.hitCount), r)
    else (m, r)
  }

  /** The fold over the first `n` futures, in submission order. */
  function Collect(terms: seq<string>, feeds: seq<seq<Outcome>>, n: nat, start: Miner): Option<(map<string, seq<PaperId>>, Miner)>
    requires n <= |terms| == |feeds|
  {
    if n == 0 then Some((map[], start))
    else
      match Collect(terms, feeds, n - 1, start)
      case None => None
      case Some((dic, m)) =>
        var (m', r) := SearchTerm(m, feeds[n - 1]);
        if r.OutOfFuel? then None
        else Some((if |r.ids| > 0 then dic[terms[n - 1] := r.ids] else dic, m'))
  }

  /** `search_all(terms, kind)`: sets the category, resets `processed` and
      `papers`, sets `total` to the number of terms, then collects the
      results. `None` when some search never ends. */
  function SearchAll(m: Miner, terms: seq<string>, kind: string, feeds: seq<seq<Outcome>>): Option<(map<string, seq<PaperId>>, Miner)>
    requires |terms| == |feeds|
  {
    Collect(terms, feeds, |terms|, Miner(kind, 0, |terms|, 0))
  }

  lemma {:induction false} CollectFinishes(terms: seq<string>, feeds: seq<seq<Outcome>>, n: nat, start: Miner)
    requires n <= |terms| == |feeds|
    ensures Collect(terms, feeds, n, start).Some? <==> AllFinish(feeds, n)
    ensures Collect(terms, feeds, n, start).Some? ==>
      Collect(terms, feeds, n, start).value.1
        == start.(processed := start.processed + n, papers := start.papers + TotalHits(feeds, n))
    decreases n
  {
    if n > 0 {
      CollectFinishes(terms, feeds, n - 1, start);
    }
  }

  /** The keys of `dic` are exactly the terms among the first `n` whose search found ids. */
  ghost predicate KeysAreFindings(terms: seq<string>, feeds: seq<seq<Outcome>>, n: nat, dic: map<string, seq<PaperId>>)
    requires n <= |terms| == |feeds|
  {
    forall t :: t in dic <==> exists i :: 0 <= i < n && terms[i] == t && |Found(feeds, i)| > 0
  }

  lemma {:induction false} CollectKeys(terms: seq<string>, feeds: seq<seq<Outcome>>, n: nat, start: Miner)
    requires n <= |terms| == |feeds|
    ensures Collect(terms, feeds, n, start).Some? ==>
      KeysAreFindings(terms, feeds, n, Collect(terms, feeds, n, start).value.0)
    decreases n
  {
    if n > 0 && Collect(terms, feeds, n, start).Some? {
      CollectKeys(terms, feeds, n - 1, start);
      var dic := Collect(terms, feeds, n - 1, start).value.0;
      var dic' := Collect(terms, feeds, n, start).value.0;
      assert KeysAreFindings(terms, feeds, n - 1, dic);
      assert dic' == if |Found(feeds, n - 1)| > 0 then dic[terms[n - 1] := Found(feeds, n - 1)] else dic;
      forall t
        ensures t in dic' <==> exists i :: 0 <= i < n && terms[i] == t && |Found(feeds, i)| > 0
      {
        if t in dic' && !(t == terms[n - 1] && |Found(feeds, n - 1)| > 0) {
          assert t in dic;
          var i :| 0 <= i < n - 1 && terms[i] == t && |Found(feeds, i)| > 0;
        }
        if exists i :: 0 <= i < n && terms[i] == t && |Found(feeds, i)| > 0 {
          var i :| 0 <= i < n && terms[i] == t && |Found(feeds, i)| > 0;
          if i < n - 1 {
            assert t in dic;
          }
        }
      }
    }
  }

  lemma {:induction false} CollectValues(terms: seq<string>, feeds: seq<seq<Outcome>>, n: nat, start: Miner)
    requires n <= |terms| == |feeds|
    ensures Collect(terms, feeds, n, start).Some? ==>
      var dic := Collect(terms, feeds, n, start).value.0;
      forall i :: 0 <= i < n && LastFinding(terms, feeds, n, i) ==> terms[i] in dic && dic[terms[i]] == Found(feeds, i)
    decreases n
  {
    if n > 0 && Collect(terms, feeds, n, start).Some? {
      CollectValues(terms, feeds, n - 1, start);
      var dic := Collect(terms, feeds, n - 1, start).value.0;
      var dic' := Collect(terms, feeds, n, start).value.0;
      assert dic' == if |Found(feeds, n - 1)| > 0 then dic[terms[n - 1] := Found(feeds, n - 1)] else dic;
      forall i | 0 <= i < n && LastFinding(terms, feeds, n, i)
        ensures terms[i] in dic' && dic'[terms[i]] == Found(feeds, i)
      {
        if i < n - 1 {
          assert LastFinding(terms, feeds, n - 1, i);
        }
      }
    }
  }

  /** What `search_all` returns: a map whose keys are exactly the terms whose
      search found ids, each mapped to the list of the last such search of
      that term; `processed` and `papers` restart from 0, so afterwards
      `processed` counts the terms and `papers` adds up each search's final
      `hitCount`; `total` is the number of terms. */
  lemma SearchAllSpec(m: Miner, terms: seq<string>, kind: string, feeds: seq<seq<Outcome>>)
    requires |terms| == |feeds|
    ensures SearchAll(m, terms, kind, feeds).Some? <==> AllFinish(feeds, |terms|)
    ensures SearchAll(m, terms, kind, feeds).Some? ==>
      var (dic, m') := SearchAll(m, terms, kind, feeds).value;
      && KeysAreFindings(terms, feeds, |terms|, dic)
      && (forall i :: 0 <= i < |terms| && LastFinding(terms, feeds, |terms|, i) ==> dic[terms[i]] == Found(feeds, i))
      && m' == Miner(kind, |terms|, |terms|, TotalHits(feeds, |terms|))
  {
    var start := Miner(kind, 0, |terms|, 0);
    CollectFinishes(terms, feeds, |terms|, start);
    CollectKeys(terms, feeds, |terms|, start);
    CollectValues(terms, feeds, |terms|, start);
  }

  /** With distinct terms, every term that found ids is mapped to exactly its
      own list, and a term with no ids (a zero-hit term) is absent. */
  lemma SearchAllDistinct(m: Miner, terms: seq<string>, kind: string, feeds: seq<seq<Outcome>>, i: nat)
    requires |terms| == |feeds| && i < |terms|
    requires forall a, b :: 0 <= a < b < |terms| ==> terms[a] != terms[b]
    requires SearchAll(m, terms, kind, feeds).Some?
    ensures var dic := SearchAll(m, terms, kind, feeds).value.0;
      (terms[i] in dic <==> |Found(feeds, i)| > 0)
      && (terms[i] in dic ==> dic[terms[i]] == Found(feeds, i))
  {
    SearchAllSpec(m, terms, kind, feeds);
    if |Found(feeds, i)| > 0 {
      assert LastFinding(terms, feeds, |terms|, i);
    }
  }

  /** The indices of the terms whose first page reports hits. */
  function FoundIndices(firsts: seq<Outcome>, n: nat): set<nat>
    requires n <= |firsts|
  {
    set i: nat | i < n && firsts[i].Ok? && firsts[i].page.hitCount > 0
  }

  /** The count of `can_be_found` over the first `n` terms; the first failed
      request raises out of it. */
  function CountFound(firsts: seq<Outcome>, n: nat): Result<nat>
    requires n <= |firsts|
  {
    if n == 0 then Success(0)
    else
      match CountFound(firsts, n - 1)
      case Failure(e) => Failure(e)
      case Success(c) =>
        if firsts[n - 1].Fail? then Failure(RequestFailed)
        else Success(c + (if firsts[n - 1].page.hitCount > 0 then 1 else 0))
  }

  lemma {:induction false} CountFoundSpec(firsts: seq<Outcome>, n: nat)
    requires n <= |firsts|
    ensures CountFound(firsts, n).Success? <==> forall i :: 0 <= i < n ==> firsts[i].Ok?
    ensures CountFound(firsts, n).Success? ==> CountFound(firsts, n).value == |FoundIndices(firsts, n)|
    ensures |FoundIndices(firsts, n)| <= n
    decreases n
  {
    if n > 0 {
      CountFoundSpec(firsts, n - 1);
      if firsts[n - 1].Ok? && firsts[n - 1].page.hitCount > 0 {
        assert FoundIndices(firsts, n) == FoundIndices(firsts, n - 1) + {n - 1};
      } else {
        assert FoundIndices(firsts, n) == FoundIndices(firsts, n - 1);
      }
    }
  }

  /** `can_be_found(terms, kind)`: sets the category and asks for the first
      page of each term (`firsts[i]` answers `terms[i]`). */
  function CanBeFound(m: Miner, terms: seq<string>, kind: string, firsts: seq<Outcome>): (Miner, Result<nat>)
    requires |firsts| == |terms|
  {
    (m.(kind := kind), CountFound(firsts, |terms|))
  }

  /** `can_be_found` counts the terms whose first page reports at least one
      hit, and fails when any request fails; it sets the category either way. */
  lemma CanBeFoundSpec(m: Miner, terms: seq<string>, kind: string, firsts: seq<Outcome>)
    requires |firsts| == |terms|
    ensures CanBeFound(m, terms, kind, firsts).0 == m.(kind := kind)
    ensures CanBeFound(m, terms, kind, firsts).1.Success? <==> forall i :: 0 <= i < |terms| ==> firsts[i].Ok?
    ensures CanBeFound(m, terms, kind, firsts).1.Success? ==>
      var c := CanBeFound(m, terms, kind, firsts).1.value;
      c == |FoundIndices(firsts, |terms|)| && c <= |terms|
  {
    CountFoundSpec(firsts, |terms|);
  }
}
