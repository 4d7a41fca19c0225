/** `get_expanded_df`: every association row is repeated once for each
    catalogue ancestor of its GO term, the term itself included.

    The table is a list of `Overlap.Row`s. The ancestors are joined with a tab
    and split again on a tab, as the source does through pandas; the model
    keeps that round trip, so a catalogue name containing a tab is split. */
module Expansion {
  import opened Wrappers
  import opened Strings
  import opened Seqs
  import opened Ontology
  import opened Overlap

  const Tab: char := '\t'

  /** The `Gene Ontology` column. */
  function GoTerms(rows: seq<Row>): seq<string>
  {
    seq(|rows|, i requires 0 <= i < |rows| => rows[i].go)
  }

  /** One row per element of `chain`, with the row's metabolite and paper. */
  function Explode(r: Row, chain: seq<string>): seq<Row>
  {
    seq(|chain|, j requires 0 <= j < |chain| => Row(chain[j], r.metabolite, r.paper))
  }

  /** The `Ancestors` column, split and exploded; the first row whose GO term
      has no chain raises `KeyError`. */
  function ExpandRows(rows: seq<Row>, total: map<string, seq<string>>): Result<seq<Row>>
    decreases |rows|
  {
    if |rows| == 0 then Success([])
    else if rows[0].go !in total then Failure(KeyError(rows[0].go))
    else
      match ExpandRows(rows[1..], total)
      case Failure(e) => Failure(e)
      case Success(rest) => Success(Explode(rows[0], Split(Join([Tab], total[rows[0].go]), Tab)) + rest)
  }

  /** `get_expanded_df(ebi, df, options)`: `gos` and `names` are the catalogue
      columns `GOID` and `Name`. */
  function Expand(rows: seq<Row>, gos: seq<string>, names: seq<string>, service: Service): Result<seq<Row>>
  {
    var ancestors := Ancestors(GoTerms(rows), gos, names, service);
    if ancestors.Failure? then Failure(ancestors.error) else ExpandRows(rows, ancestors.value)
  }

  /** The reference expansion: row `i` becomes the block of rows of its own
      chain, blocks in row order. */
  function Reference(rows: seq<Row>, total: map<string, seq<string>>): seq<Row>
    requires forall i :: 0 <= i < |rows| ==> rows[i].go in total
  {
    Flatten(seq(|rows|, i requires 0 <= i < |rows| => Explode(rows[i], total[rows[i].go])))
  }

  /** Chains are nonempty and free of tabs. */
  ghost predicate TabFree(total: map<string, seq<string>>)
  {
    forall go :: go in total ==> |total[go]| >= 1 && forall x :: x in total[go] ==> Tab !in x
  }

  /** Without tabs in the chains, the tab round trip is the identity: the
      expansion succeeds exactly when every row's GO term has a chain, and
      is then the reference expansion. */
  lemma {:induction false} ExpandRowsSpec(rows: seq<Row>, total: map<string, seq<string>>)
    requires TabFree(total)
    ensures ExpandRows(rows, total).Success? <==> forall i :: 0 <= i < |rows| ==> rows[i].go in total
    ensures ExpandRows(rows, total).Failure? ==> ExpandRows(rows, total).error.KeyError?
    ensures ExpandRows(rows, total).Success? ==> ExpandRows(rows, total).value == Reference(rows, total)
    decreases |rows|
  {
    if |rows| > 0 {
      ExpandRowsSpec(rows[1..], total);
      if rows[0].go in total {
        var chain := total[rows[0].go];
        SplitJoin(chain, Tab);
        assert forall i :: 1 <= i < |rows| ==> rows[1..][i - 1] == rows[i];
        if ExpandRows(rows, total).Success? {
          var blocks := seq(|rows|, i requires 0 <= i < |rows| => Explode(rows[i], total[rows[i].go]));
          var tail := seq(|rows[1..]|, i requires 0 <= i < |rows[1..]| => Explode(rows[1..][i], total[rows[1..][i].go]));
          assert blocks[1..] == tail;
          assert Flatten(blocks) == blocks[0] + Flatten(tail);
        }
      }
    }
  }

  /** Every row of the reference expansion carries the metabolite and paper
      of some input row and a term of that row's chain, and every term of
      every row's chain appears with that row's metabolite and paper. */
  lemma {:induction false} ReferenceRows(rows: seq<Row>, total: map<string, seq<string>>)
    requires forall i :: 0 <= i < |rows| ==> rows[i].go in total
    ensures forall o :: o in Reference(rows, total) ==>
      exists i :: 0 <= i < |rows| && o.metabolite == rows[i].metabolite && o.paper == rows[i].paper
                  && o.go in total[rows[i].go]
    ensures forall i, x :: 0 <= i < |rows| && x in total[rows[i].go] ==>
      Row(x, rows[i].metabolite, rows[i].paper) in Reference(rows, total)
    decreases |rows|
  {
    if |rows| > 0 {
      ReferenceRows(rows[1..], total);
      var blocks := seq(|rows|, i requires 0 <= i < |rows| => Explode(rows[i], total[rows[i].go]));
      var tail := seq(|rows[1..]|, i requires 0 <= i < |rows[1..]| => Explode(rows[1..][i], total[rows[1..][i].go]));
      assert blocks[1..] == tail;
      assert Reference(rows, total) == blocks[0] + Reference(rows[1..], total);
      forall o | o in Reference(rows, total)
        ensures exists i :: 0 <= i < |rows| && o.metabolite == rows[i].metabolite && o.paper == rows[i].paper
                            && o.go in total[rows[i].go]
      {
        if o in blocks[0] {
          var j :| 0 <= j < |blocks[0]| && blocks[0][j] == o;
          assert o.go in total[rows[0].go];
        } else {
          var i :| 0 <= i < |rows[1..]| && o.metabolite == rows[1..][i].metabolite && o.paper == rows[1..][i].paper
                   && o.go in total[rows[1..][i].go];
          assert rows[1..][i] == rows[i + 1];
        }
      }
      forall i, x | 0 <= i < |rows| && x in total[rows[i].go]
        ensures Row(x, rows[i].metabolite, rows[i].paper) in Reference(rows, total)
      {
        if i == 0 {
          var j :| 0 <= j < |total[rows[0].go]| && total[rows[0].go][j] == x;
          assert blocks[0][j] == Row(x, rows[i].metabolite, rows[i].paper);
        } else {
          assert rows[1..][i - 1] == rows[i];
        }
      }
    }
  }

  /** Every chain ends with its own key and consists of catalogue names. */
  ghost predicate ChainsOver(total: map<string, seq<string>>, names: seq<string>)
  {
    forall k :: k in total ==>
      |total[k]| >= 1 && total[k][|total[k]| - 1] == k && forall x :: x in total[k] ==> x in names
  }

  /** `out` expands `rows` over the chains `total` of catalogue names: every
      input row survives with its own GO term, every output row names a
      catalogue term and keeps the metabolite and paper of an input row whose
      chain holds that term, and every term of a row's chain appears with
      that row's metabolite and paper. */
  ghost predicate Expanded(rows: seq<Row>, total: map<string, seq<string>>, names: seq<string>, out: seq<Row>)
  {
    && (forall i :: 0 <= i < |rows| ==> rows[i].go in total && rows[i] in out)
    && (forall o :: o in out ==> o.go in names)
    && (forall i, x :: 0 <= i < |rows| && rows[i].go in total && x in total[rows[i].go] ==>
          Row(x, rows[i].metabolite, rows[i].paper) in out)
    && (forall o :: o in out ==> exists i :: 0 <= i < |rows| && rows[i].go in total && o.metabolite == rows[i].metabolite
                                              && o.paper == rows[i].paper && o.go in total[rows[i].go])
  }

  /** Over chains of catalogue names, every row of the reference expansion
      names a catalogue term. */
  lemma ReferenceNames(rows: seq<Row>, total: map<string, seq<string>>, names: seq<string>)
    requires ChainsOver(total, names)
    requires forall i :: 0 <= i < |rows| ==> rows[i].go in total
    ensures forall o :: o in Reference(rows, total) ==> o.go in names
  {
    ReferenceRows(rows, total);
    forall o | o in Reference(rows, total)
      ensures o.go in names
    {
      var i :| 0 <= i < |rows| && o.metabolite == rows[i].metabolite && o.paper == rows[i].paper
               && o.go in total[rows[i].go];
    }
  }

  /** When every chain ends with its own key, every input row appears in the
      reference expansion unchanged. */
  lemma ReferenceKeepsRows(rows: seq<Row>, total: map<string, seq<string>>, names: seq<string>)
    requires ChainsOver(total, names)
    requires forall i :: 0 <= i < |rows| ==> rows[i].go in total
    ensures forall i :: 0 <= i < |rows| ==> rows[i] in Reference(rows, total)
  {
    ReferenceRows(rows, total);
    forall i | 0 <= i < |rows|
      ensures rows[i] in Reference(rows, total)
    {
      var chain := total[rows[i].go];
      assert chain[|chain| - 1] in chain;
      assert Row(rows[i].go, rows[i].metabolite, rows[i].paper) == rows[i];
    }
  }

  /** Chains of tab-free catalogue names are tab-free. */
  lemma NamesTabFree(total: map<string, seq<string>>, names: seq<string>)
    requires ChainsOver(total, names) && forall x :: x in names ==> Tab !in x
    ensures TabFree(total)
  {
  }

  /** The expansion of rows over chains of tab-free catalogue names. */
  lemma ExpandedRows(rows: seq<Row>, total: map<string, seq<string>>, names: seq<string>)
    requires ChainsOver(total, names) && forall x :: x in names ==> Tab !in x
    requires ExpandRows(rows, total).Success?
    ensures Expanded(rows, total, names, ExpandRows(rows, total).value)
  {
    NamesTabFree(total, names);
    ExpandRowsSpec(rows, total);
    ReferenceExpanded(rows, total, names);
  }

  /** The reference expansion over chains of catalogue names is an
      expansion. */
  lemma ReferenceExpanded(rows: seq<Row>, total: map<string, seq<string>>, names: seq<string>)
    requires ChainsOver(total, names)
    requires forall i :: 0 <= i < |rows| ==> rows[i].go in total
    ensures Expanded(rows, total, names, Reference(rows, total))
  {
    ReferenceRows(rows, total);
    ReferenceNames(rows, total, names);
    ReferenceKeepsRows(rows, total, names);
  }

  /** When the catalogue names contain no tab, a successful expansion is the
      reference expansion over the ancestor chains: each input row becomes,
      in order, one row per element of its GO term's chain. So every
      expanded row names a catalogue term and keeps the metabolite and paper
      of an input row, and every input row survives with its own GO term. */
  lemma ExpandSpec(rows: seq<Row>, gos: seq<string>, names: seq<string>, service: Service)
    requires forall x :: x in names ==> Tab !in x
    ensures Expand(rows, gos, names, service).Success? ==>
      && (forall i :: 0 <= i < |rows| ==> rows[i].go in Ancestors(GoTerms(rows), gos, names, service).value)
      && Expand(rows, gos, names, service).value == Reference(rows, Ancestors(GoTerms(rows), gos, names, service).value)
    ensures Expand(rows, gos, names, service).Success? ==>
      Expanded(rows, Ancestors(GoTerms(rows), gos, names, service).value, names, Expand(rows, gos, names, service).value)
  {
    var ancestors := Ancestors(GoTerms(rows), gos, names, service);
    if ancestors.Success? {
      AncestorsChains(GoTerms(rows), gos, names, service);
      assert ChainsOver(ancestors.value, names);
      assert Expand(rows, gos, names, service) == ExpandRows(rows, ancestors.value);
      if ExpandRows(rows, ancestors.value).Success? {
        NamesTabFree(ancestors.value, names);
        ExpandRowsSpec(rows, ancestors.value);
        ExpandedRows(rows, ancestors.value, names);
      }
    }
  }

  /** A catalogue name containing a tab is split apart: the row expands into
      more rows than its chain has entries. */
  lemma TabInNameSplits(r: Row, total: map<string, seq<string>>, k: nat)
    requires r.go in total && k < |total[r.go]| && Tab in total[r.go][k]
    ensures ExpandRows([r], total).Success?
    ensures |ExpandRows([r], total).value| > |total[r.go]|
  {
    SplitJoinBreaks(total[r.go], Tab, k);
    assert [r][1..] == [];
  }
}
