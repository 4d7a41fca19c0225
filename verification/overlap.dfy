/** `find_overlap(mets, gos)`: the cross join of the GO search results with
    the metabolite search results. Each (GO term, metabolite) pair emits one
    row per paper that both found. Note the argument order: metabolites come
    first, but every row names the GO term first. */
module Overlap {
  import opened Pagination

  /** One direct association: a paper that mentions both terms. */
  datatype Row = Row(go: string, metabolite: string, paper: PaperId)

  type Found = map<string, seq<PaperId>>

  /** `r` is evidenced by the two search results: its paper is among the ids
      of its GO term and among the ids of its metabolite. */
  ghost predicate Evidence(mets: Found, gos: Found, r: Row)
  {
    r.go in gos && r.metabolite in mets && r.paper in gos[r.go] && r.paper in mets[r.metabolite]
  }

  /** The rows of one (GO term, metabolite) pair: `set(go_ids) & set(met_ids)`. */
  function Shared(goIds: seq<PaperId>, metIds: seq<PaperId>): (s: set<PaperId>)
    ensures forall p :: p in s <==> p in goIds && p in metIds
  {
    (set p | p in goIds) * (set p | p in metIds)
  }

  /** The row table: exactly one row for every evidenced (GO term,
      metabolite, paper) triple, and no other row. */
  method FindOverlap(mets: Found, gos: Found) returns (rows: seq<Row>)
    ensures forall r :: r in rows <==> Evidence(mets, gos, r)
    ensures forall i, j :: 0 <= i < j < |rows| ==> rows[i] != rows[j]
  {
    rows := [];
    var goLeft := gos.Keys;
    while goLeft != {}
      invariant goLeft <= gos.Keys
      invariant forall r :: r in rows <==> Evidence(mets, gos, r) && r.go !in goLeft
      invariant forall i, j :: 0 <= i < j < |rows| ==> rows[i] != rows[j]
      decreases goLeft
    {
      var g :| g in goLeft;
      var metLeft := mets.Keys;
      while metLeft != {}
        invariant metLeft <= mets.Keys
        invariant forall r :: r in rows <==>
          Evidence(mets, gos, r) && (r.go !in goLeft || (r.go == g && r.metabolite !in metLeft))
        invariant forall i, j :: 0 <= i < j < |rows| ==> rows[i] != rows[j]
        decreases metLeft
      {
        var m :| m in metLeft;
        var shared := Shared(gos[g], mets[m]);
        while shared != {}
          invariant shared <= Shared(gos[g], mets[m])
          invariant forall r :: r in rows <==>
            Evidence(mets, gos, r)
            && (r.go !in goLeft || (r.go == g && (r.metabolite !in metLeft || (r.metabolite == m && r.paper !in shared))))
          invariant forall i, j :: 0 <= i < j < |rows| ==> rows[i] != rows[j]
          decreases shared
        {
          var p :| p in shared;
          assert Row(g, m, p) !in rows;
          rows := rows + [Row(g, m, p)];
          shared := shared - {p};
        }
        metLeft := metLeft - {m};
      }
      goLeft := goLeft - {g};
    }
  }

  /** A worked example: GO results A -> {p1, p2}, B -> {p3} and metabolite
      results X -> {p1}, Y -> {p2, p3} give exactly the rows (A, X, p1),
      (A, Y, p2) and (B, Y, p3). */
  lemma WorkedExample(rows: seq<Row>)
    requires var mets := map["X" := ["p1"], "Y" := ["p2", "p3"]];
      var gos := map["A" := ["p1", "p2"], "B" := ["p3"]];
      forall r :: r in rows <==> Evidence(mets, gos, r)
    ensures forall r :: r in rows <==> r in {Row("A", "X", "p1"), Row("A", "Y", "p2"), Row("B", "Y", "p3")}
  {
    var mets := map["X" := ["p1"], "Y" := ["p2", "p3"]];
    var gos := map["A" := ["p1", "p2"], "B" := ["p3"]];
    assert Evidence(mets, gos, Row("A", "X", "p1"));
    assert Evidence(mets, gos, Row("A", "Y", "p2"));
    assert Evidence(mets, gos, Row("B", "Y", "p3"));
    forall r | Evidence(mets, gos, r)
      ensures r in {Row("A", "X", "p1"), Row("A", "Y", "p2"), Row("B", "Y", "p3")}
    {
      assert r.go == "A" || r.go == "B";
      assert r.metabolite == "X" || r.metabolite == "Y";
    }
  }
}
