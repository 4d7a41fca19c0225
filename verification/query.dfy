/** The Europe PMC search URL built for one term (`TextMining.query_builder`). */
module Query {
  import opened Strings

  const SearchBase := "https://www.ebi.ac.uk/europepmc/webservices/rest/search"

  /** The cursor of the first page, the default of `query_builder`'s `cursor`. */
  const InitialCursor := "*"

  /** The full-text sections every query searches, in the order they are written. */
  const FullTextFields := ["ABSTRACT", "RESULTS", "METHODS", "TABLE", "SUPPL", "FIG"]

  /** The fixed restrictions that follow the category scope. */
  const Restrictions := " AND PUB_TYPE:\"Journal Article\" AND SRC:\"MED\" AND ORGANISM:\"HUMAN\""

  /** A term quoted as the value of a search field. */
  function Quoted(term: string): string
  {
    "\"" + term + "\""
  }

  /** The category-specific scope of the `prefix` table: metabolites are wrapped in a
      ChEBI cross-reference, GO terms in a GO cross-reference, any other
      category passes the term through unchanged. */
  function Scope(kind: string, term: string): string
  {
    if kind == "Metabolite" then "CHEBITERM:" + Quoted(term)
    else if kind == "GO" then "GOTERM:" + Quoted(term)
    else term
  }

  /** The OR of the six field clauses as the format string writes it. */
  function FieldDisjunction(term: string): string
  {
    Clause("ABSTRACT", term) + " OR " + Clause("RESULTS", term) + " OR " + Clause("METHODS", term)
    + " OR " + Clause("TABLE", term) + " OR " + Clause("SUPPL", term) + " OR " + Clause("FIG", term)
  }

  /** One field clause, `FIELD:"term"`. */
  function Clause(field: string, term: string): string
  {
    field + ":" + Quoted(term)
  }

  /** The boolean query expression for a term of the given category. */
  function QueryExpr(term: string, kind: string): string
  {
    "(" + FieldDisjunction(term) + ")" + (" AND " + Scope(kind, term) + Restrictions)
  }

  /** The fixed request parameters that precede the cursor. */
  const MetaHead := "&synonym=true&resultType=idlist&pageSize=1000&cursorMark="

  const UrlTail := "&format=json"

  /** Everything of the URL that precedes the cursor; it does not depend on the cursor. */
  function UrlHead(term: string, kind: string): string
  {
    SearchBase + "?query=" + QueryExpr(term, kind) + MetaHead
  }

  /** `query_builder(term, cursor)` with `self.type == kind`. */
  function QueryUrl(term: string, kind: string, cursor: string): string
  {
    UrlHead(term, kind) + cursor + UrlTail
  }

  /** The clauses of all six full-text fields, in order. */
  function Clauses(term: string): seq<string>
  {
    [Clause("ABSTRACT", term), Clause("RESULTS", term), Clause("METHODS", term),
     Clause("TABLE", term), Clause("SUPPL", term), Clause("FIG", term)]
  }

  lemma JoinSix(sep: string, c0: string, c1: string, c2: string, c3: string, c4: string, c5: string)
    ensures Join(sep, [c0, c1, c2, c3, c4, c5]) == c0 + sep + c1 + sep + c2 + sep + c3 + sep + c4 + sep + c5
  {
    JoinCons(sep, c4, [c5]);
    assert [c4] + [c5] == [c4, c5];
    JoinCons(sep, c3, [c4, c5]);
    assert [c3] + [c4, c5] == [c3, c4, c5];
    JoinCons(sep, c2, [c3, c4, c5]);
    assert [c2] + [c3, c4, c5] == [c2, c3, c4, c5];
    JoinCons(sep, c1, [c2, c3, c4, c5]);
    assert [c1] + [c2, c3, c4, c5] == [c1, c2, c3, c4, c5];
    JoinCons(sep, c0, [c1, c2, c3, c4, c5]);
    assert [c0] + [c1, c2, c3, c4, c5] == [c0, c1, c2, c3, c4, c5];
    var j4 := c4 + sep + c5;
    var j3 := c3 + sep + j4;
    var j2 := c2 + sep + j3;
    var j1 := c1 + sep + j2;
    var p0 := c0 + sep;
    var p1 := p0 + c1 + sep;
    var p2 := p1 + c2 + sep;
    var p3 := p2 + c3 + sep;
    Reassociate(p0, c1, sep, j2);
    Reassociate(p1, c2, sep, j3);
    Reassociate(p2, c3, sep, j4);
    Reassociate(p3, c4, sep, c5);
  }

  /** `p + (x + s + j) == p + x + s + j`. */
  lemma Reassociate(p: string, x: string, s: string, j: string)
    ensures p + (x + s + j) == p + x + s + j
  {
  }

  /** The literal format string is the OR-join of the six field clauses,
      one per full-text field. */
  lemma FieldDisjunctionIsJoin(term: string)
    ensures FieldDisjunction(term) == Join(" OR ", Clauses(term))
    ensures |Clauses(term)| == |FullTextFields|
    ensures forall k :: 0 <= k < |FullTextFields| ==> Clauses(term)[k] == FullTextFields[k] + ":\"" + term + "\""
  {
    JoinSix(" OR ", Clause("ABSTRACT", term), Clause("RESULTS", term), Clause("METHODS", term),
      Clause("TABLE", term), Clause("SUPPL", term), Clause("FIG", term));
  }

  /** A substring of a piece is a substring of any string that contains the piece. */
  lemma ContainsWithin(a: string, s: string, b: string, needle: string)
    requires Contains(s, needle)
    ensures Contains(a + s + b, needle)
  {
    var i :| 0 <= i <= |s| && needle <= s[i..];
    var whole := a + s + b;
    assert whole[|a| + i..] == s[i..] + b;
  }

  /** Every piece of a join is a substring of the join. */
  lemma {:induction false} JoinContainsPiece(sep: string, xs: seq<string>, k: nat)
    requires k < |xs|
    ensures Contains(Join(sep, xs), xs[k])
    decreases |xs|
  {
    if |xs| == 1 {
      ContainsMiddle("", xs[0], "");
      assert "" + xs[0] + "" == xs[0];
    } else {
      var j := Join(sep, xs[1..]);
      JoinCons(sep, xs[0], xs[1..]);
      assert [xs[0]] + xs[1..] == xs;
      if k == 0 {
        ContainsMiddle("", xs[0], sep + j);
        assert "" + xs[0] + (sep + j) == xs[0] + sep + j;
      } else {
        JoinContainsPiece(sep, xs[1..], k - 1);
        assert xs[1..][k - 1] == xs[k];
        ContainsWithin(xs[0] + sep, j, "", xs[k]);
        assert xs[0] + sep + j + "" == xs[0] + sep + j;
      }
    }
  }

  /** A substring of any piece of a URL laid out like `QueryUrl` is a substring of the URL. */
  lemma ContainsInUrl(base: string, q: string, fd: string, rest: string, meta: string, c: string, tail: string, needle: string)
    requires Contains(fd, needle) || Contains(")" + rest, needle) || Contains(meta + c + tail, needle)
    ensures Contains(base + q + ("(" + fd + ")" + rest) + meta + c + tail, needle)
  {
    var url := base + q + ("(" + fd + ")" + rest) + meta + c + tail;
    if Contains(fd, needle) {
      ContainsWithin(base + q + "(", fd, ")" + rest + meta + c + tail, needle);
      assert url == base + q + "(" + fd + (")" + rest + meta + c + tail);
    } else if Contains(")" + rest, needle) {
      ContainsWithin(base + q + "(" + fd, ")" + rest, meta + c + tail, needle);
      assert url == base + q + "(" + fd + (")" + rest) + (meta + c + tail);
    } else {
      ContainsWithin(base + q + ("(" + fd + ")" + rest), meta + c + tail, "", needle);
      assert url == base + q + ("(" + fd + ")" + rest) + (meta + c + tail) + "";
    }
  }

  /** Every query searches for the exact term in each of the six full-text fields. */
  lemma QueryNamesEveryField(term: string, kind: string, cursor: string, k: nat)
    requires k < |FullTextFields|
    ensures Contains(QueryUrl(term, kind, cursor), FullTextFields[k] + ":\"" + term + "\"")
  {
    var cs := Clauses(term);
    FieldDisjunctionIsJoin(term);
    JoinContainsPiece(" OR ", cs, k);
    ContainsInUrl(SearchBase, "?query=", FieldDisjunction(term), " AND " + Scope(kind, term) + Restrictions,
      MetaHead, cursor, UrlTail, cs[k]);
  }

  /** After the field clauses comes the category scope, then the fixed article,
      source and organism restrictions. The scope is a ChEBI term for
      metabolites, a GO term for GO names and the bare term for any other category. */
  lemma QueryScopedByCategory(term: string, kind: string, cursor: string)
    ensures Contains(QueryUrl(term, kind, cursor), ")" + (" AND " + Scope(kind, term) + Restrictions))
    ensures kind == "Metabolite" ==> Scope(kind, term) == "CHEBITERM:\"" + term + "\""
    ensures kind == "GO" ==> Scope(kind, term) == "GOTERM:\"" + term + "\""
    ensures kind != "Metabolite" && kind != "GO" ==> Scope(kind, term) == term
  {
    ScopeInUrl(term, kind, cursor);
  }

  lemma ScopeInUrl(term: string, kind: string, cursor: string)
    ensures Contains(QueryUrl(term, kind, cursor), ")" + (" AND " + Scope(kind, term) + Restrictions))
  {
    var rest := " AND " + Scope(kind, term) + Restrictions;
    ContainsMiddle("", ")" + rest, "");
    assert "" + (")" + rest) + "" == ")" + rest;
    ContainsInUrl(SearchBase, "?query=", FieldDisjunction(term), rest, MetaHead, cursor, UrlTail, ")" + rest);
  }

  /** Every query asks for synonym expansion, an id list and pages of 1000
      results, and ends with the cursor followed by the JSON format flag. */
  lemma QueryFixedParameters(term: string, kind: string, cursor: string)
    ensures Contains(QueryUrl(term, kind, cursor), MetaHead + cursor + UrlTail)
    ensures MetaHead == "&synonym=true&resultType=idlist&pageSize=1000&cursorMark=" && UrlTail == "&format=json"
    ensures var url := QueryUrl(term, kind, cursor);
      |url| >= |cursor| + |UrlTail| && url[|url| - |cursor| - |UrlTail|..] == cursor + UrlTail
  {
    ParametersInUrl(term, kind, cursor);
    CursorEndsUrl(term, kind, cursor);
  }

  lemma ParametersInUrl(term: string, kind: string, cursor: string)
    ensures Contains(QueryUrl(term, kind, cursor), MetaHead + cursor + UrlTail)
  {
    var tail := MetaHead + cursor + UrlTail;
    ContainsMiddle("", tail, "");
    assert "" + tail + "" == tail;
    ContainsInUrl(SearchBase, "?query=", FieldDisjunction(term), " AND " + Scope(kind, term) + Restrictions,
      MetaHead, cursor, UrlTail, tail);
  }

  lemma CursorEndsUrl(term: string, kind: string, cursor: string)
    ensures var url := QueryUrl(term, kind, cursor);
      |url| >= |cursor| + |UrlTail| && url[|url| - |cursor| - |UrlTail|..] == cursor + UrlTail
  {
    var url := QueryUrl(term, kind, cursor);
    assert url == UrlHead(term, kind) + (cursor + UrlTail);
  }

  /** The cursor can be read back from the URL: two queries for the same term
      and category are equal only when their cursors are. */
  lemma QueryCursorInjective(term: string, kind: string, c1: string, c2: string)
    requires QueryUrl(term, kind, c1) == QueryUrl(term, kind, c2)
    ensures c1 == c2
  {
    var head := UrlHead(term, kind);
    var u1 := QueryUrl(term, kind, c1);
    var u2 := QueryUrl(term, kind, c2);
    assert |c1| == |c2|;
    assert u1[|head|..|head| + |c1|] == c1;
    assert u2[|head|..|head| + |c2|] == c2;
  }
}
