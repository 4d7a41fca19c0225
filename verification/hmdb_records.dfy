/** The record side of the `HMDB` class: which metabolite records are kept
    (`is_drug` and the selection test of `parse_hmdb`), what
    `process_metabolite` writes for a kept record, and the count of
    processed records.

    A record is its parsed XML element, reduced to what the code reads: its
    direct children in document order, and the elements below its `pathway`
    children in document order (`findall("pathway//")`). */
module HmdbRecords {
  import opened Wrappers
  import opened Strings
  import opened Seqs
  import opened HmdbConfig

  /** An XML element: its tag and its text, `None` when it has none. */
  datatype Element = Element(tag: string, text: Option<string>)

  datatype Record = Record(children: seq<Element>, pathway: seq<Element>)

  // ---- ElementTree lookups ----

  /** `findall(tag)`, read for the texts: the texts of the children with
      that tag, in order. */
  function TextsOf(es: seq<Element>, tag: string): seq<Option<string>>
  {
    if |es| == 0 then []
    else (if es[0].tag == tag then [es[0].text] else []) + TextsOf(es[1..], tag)
  }

  /** `findtext(tag)`: `None` when there is no child with that tag, otherwise
      the text of the first one, the empty string when it has none. */
  function FirstText(es: seq<Element>, tag: string): Option<string>
  {
    if |es| == 0 then None
    else if es[0].tag == tag then Some(if es[0].text.Some? then es[0].text.value else "")
    else FirstText(es[1..], tag)
  }

  function FindAll(r: Record, tag: string): seq<Option<string>>
  {
    TextsOf(r.children, tag)
  }

  function FindText(r: Record, tag: string): Option<string>
  {
    FirstText(r.children, tag)
  }

  /** `findtext` answers exactly when `findall` finds something, with the
      first text found, an empty one for an element without text. */
  lemma {:induction false} FindTextIsFirstOfFindAll(es: seq<Element>, tag: string)
    ensures FirstText(es, tag).Some? <==> |TextsOf(es, tag)| > 0
    ensures FirstText(es, tag).Some? ==>
      FirstText(es, tag).value == (if TextsOf(es, tag)[0].Some? then TextsOf(es, tag)[0].value else "")
    ensures FirstText(es, tag).Some? <==> exists i :: 0 <= i < |es| && es[i].tag == tag
    decreases |es|
  {
    if |es| > 0 {
      FindTextIsFirstOfFindAll(es[1..], tag);
      if es[0].tag != tag && exists i :: 0 <= i < |es| && es[i].tag == tag {
        var i :| 0 <= i < |es| && es[i].tag == tag;
        assert es[1..][i - 1].tag == tag;
      }
      if exists i :: 0 <= i < |es[1..]| && es[1..][i].tag == tag {
        var i :| 0 <= i < |es[1..]| && es[1..][i].tag == tag;
        assert es[i + 1].tag == tag;
      }
    }
  }

  /** Python's `str(x)` of a `findtext` result. */
  function Str(x: Option<string>): string
  {
    if x.Some? then x.value else "None"
  }

  /** `{x.text for x in chunk.findall("term")}`. */
  function Terms(r: Record): set<Option<string>>
  {
    set x | x in FindAll(r, "term")
  }

  // ---- is_drug ----

  const DrugMarker: string := "is only found in individuals that have used or taken"
  const NaturalProcess: string := "Naturally occurring process"
  const BiologicalRole: string := "Biological role"
  const OrganicCompounds: string := "Organic compounds"

  /** `re.search(pattern, subject)`: `Some(found)`, or `None` when the
      pattern is not a valid regular expression. */
  type RegexSearch = (string, string) -> Option<bool>

  /** The characters `re.escape` puts a backslash before. */
  const RegexSpecial: set<char> := {'(', ')', '[', ']', '{', '}', '?', '*', '+', '-', '|', '^', '$', '\\',
                                    '.', '&', '~', '#', ' ', '\t', '\n', '\r', '\U{000B}', '\U{000C}'}

  /** `re.escape(s)`. */
  function Escape(s: string): string
  {
    if |s| == 0 then ""
    else (if s[0] in RegexSpecial then ['\\', s[0]] else [s[0]]) + Escape(s[1..])
  }

  /** `s.lower()`, for ASCII letters. */
  function Lower(s: string): string
  {
    seq(|s|, i requires 0 <= i < |s| => if 'A' <= s[i] <= 'Z' then (s[i] as int + 32) as char else s[i])
  }

  /** The pattern of the third test: the name is used as is, the IUPAC name
      escaped, and the whole lower-cased. */
  function DrugPattern(name: string, iupac: string): string
  {
    Lower(".*(" + name + "|" + Escape(iupac) + ").*(Action|Metabolism) Pathway")
  }

  /** `"".join(terms).lower()`, the set's iteration order taken as the order
      of first occurrence. */
  function TermSubject(r: Record): string
    requires AllSome(Dedup(FindAll(r, "term")))
  {
    Lower(Join("", Texts(Dedup(FindAll(r, "term")))))
  }

  /** One of the three tests raises: the description is missing (`in None`),
      the IUPAC name is missing (`re.escape(None)`), a term has no text (the
      join), or the pattern is invalid. */
  predicate Raises(r: Record, search: RegexSearch)
  {
    || FindText(r, "description").None?
    || FindText(r, "traditional_iupac").None?
    || !AllSome(Dedup(FindAll(r, "term")))
    || search(DrugPattern(Str(FindText(r, "name")), FindText(r, "traditional_iupac").value), TermSubject(r)).None?
  }

  /** First test: the description says the compound is only found in users. */
  predicate DescriptionTest(r: Record)
  {
    FindText(r, "description").Some? && Contains(FindText(r, "description").value, DrugMarker)
  }

  /** Second test: tagged as a drug and not as a naturally occurring process. */
  predicate TermsTest(r: Record)
  {
    Some(NaturalProcess) !in Terms(r) && Some("Drug") in Terms(r)
  }

  /** Third test: some term names an action or metabolism pathway of it. */
  predicate RegexTest(r: Record, search: RegexSearch)
    requires !Raises(r, search)
  {
    search(DrugPattern(Str(FindText(r, "name")), FindText(r, "traditional_iupac").value), TermSubject(r)) == Some(true)
  }

  /** `is_drug(chunk, terms)`. The three tests are built as a list before
      `any` looks at them, so an exception in any one of them, caught by the
      bare `except`, makes the answer `False`. */
  function IsDrug(r: Record, search: RegexSearch): bool
  {
    var description := FindText(r, "description");
    var iupac := FindText(r, "traditional_iupac");
    if description.None? || iupac.None? then false
    else
      var terms := Dedup(FindAll(r, "term"));
      if !AllSome(terms) then false
      else
        match search(DrugPattern(Str(FindText(r, "name")), iupac.value), Lower(Join("", Texts(terms))))
        case None => false
        case Some(found) =>
          Contains(description.value, DrugMarker)
          || (Some(NaturalProcess) !in Terms(r) && Some("Drug") in Terms(r))
          || found
  }

  /** A record is a drug exactly when none of the tests raises and one of
      them holds. */
  lemma IsDrugSpec(r: Record, search: RegexSearch)
    ensures IsDrug(r, search) <==> !Raises(r, search) && (DescriptionTest(r) || TermsTest(r) || RegexTest(r, search))
  {
  }

  /** The eager list: a record tagged `Drug`, and not as a naturally
      occurring process, is still not a drug when it has no IUPAC name. */
  lemma MissingIupacHidesDrugTag(r: Record, search: RegexSearch)
    requires TermsTest(r) && FindText(r, "traditional_iupac").None?
    ensures !IsDrug(r, search)
  {
  }

  // ---- the selection of parse_hmdb ----

  /** The test of `parse_hmdb` for processing a record. */
  predicate Selected(r: Record, search: RegexSearch)
  {
    && (Some(BiologicalRole) in Terms(r) || Some(NaturalProcess) in Terms(r))
    && !IsDrug(r, search)
    && Str(FindText(r, "kingdom")) == OrganicCompounds
  }

  /** A selected record has a biological role or a natural process among its
      terms, has kingdom "Organic compounds" (a missing kingdom reads as
      "None"), and passes every drug test that does not raise; a record
      tagged `Drug` without `Naturally occurring process` gets through only
      when a test raises. Conversely, such terms and kingdom, with either a
      raising test or three failing ones, select the record. */
  lemma SelectedSpec(r: Record, search: RegexSearch)
    ensures Selected(r, search) ==>
      && (Some(BiologicalRole) in Terms(r) || Some(NaturalProcess) in Terms(r))
      && FindText(r, "kingdom") == Some(OrganicCompounds)
      && (TermsTest(r) ==> Raises(r, search))
      && (!Raises(r, search) ==> !DescriptionTest(r) && !RegexTest(r, search))
    ensures (Some(BiologicalRole) in Terms(r) || Some(NaturalProcess) in Terms(r))
         && FindText(r, "kingdom") == Some(OrganicCompounds) && Raises(r, search)
         ==> Selected(r, search)
    ensures Selected(r, search) <==>
      && (Some(BiologicalRole) in Terms(r) || Some(NaturalProcess) in Terms(r))
      && FindText(r, "kingdom") == Some(OrganicCompounds)
      && (Raises(r, search) || (!DescriptionTest(r) && !TermsTest(r) && !RegexTest(r, search)))
  {
    IsDrugSpec(r, search);
    assert "None" != OrganicCompounds by {
      assert "None"[0] != OrganicCompounds[0];
    }
  }

  // ---- process_metabolite ----

  /** The repeated children written one row each. */
  const RepeatedTags: seq<string> := ["accession", "uniprot_id", "biospecimen", "cellular"]

  /** The fields `process_metabolite` writes to. */
  const WrittenFields: seq<string> := ["name", "class", "super_class"] + RepeatedTags + ["pathway"]

  /** Lines 140-143: the text of every `name` element directly followed by a
      `kegg_map_id` element that has text. */
  function PathwayNames(es: seq<Element>): seq<Option<string>>
  {
    if |es| < 2 then []
    else
      (if es[0].tag == "name" && es[1].tag == "kegg_map_id" && es[1].text.Some? then [es[0].text] else [])
      + PathwayNames(es[1..])
  }

  /** Element `i` is a name written as a pathway. */
  predicate PairedAt(es: seq<Element>, i: nat)
  {
    i + 1 < |es| && es[i].tag == "name" && es[i + 1].tag == "kegg_map_id" && es[i + 1].text.Some?
  }

  /** The pathway names are the texts of exactly the paired name elements;
      since the element after a paired name is not a name, at most one row
      comes from every two elements. */
  lemma {:induction false} PathwayNamesSpec(es: seq<Element>)
    ensures forall x :: x in PathwayNames(es) <==> exists i :: 0 <= i < |es| && PairedAt(es, i) && es[i].text == x
    ensures |PathwayNames(es)| <= |es| / 2
    decreases |es|
  {
    if |es| >= 2 {
      PathwayNamesSpec(es[1..]);
      forall x
        ensures x in PathwayNames(es) <==> exists i :: 0 <= i < |es| && PairedAt(es, i) && es[i].text == x
      {
        if exists i :: 0 <= i < |es| && PairedAt(es, i) && es[i].text == x {
          var i :| 0 <= i < |es| && PairedAt(es, i) && es[i].text == x;
          if i > 0 {
            assert PairedAt(es[1..], i - 1) && es[1..][i - 1].text == x;
          }
        }
        if x in PathwayNames(es[1..]) {
          var i :| 0 <= i < |es[1..]| && PairedAt(es[1..], i) && es[1..][i].text == x;
          assert PairedAt(es, i + 1);
        }
      }
      if PairedAt(es, 0) {
        if |es| >= 3 {
          PathwayNamesSpec(es[2..]);
          assert es[1..][1..] == es[2..];
        }
      }
    }
  }

  /** One row `[accession, x]` per value. */
  function Rows(acc: string, xs: seq<string>): string
  {
    if |xs| == 0 then "" else Line([acc, xs[0]]) + Rows(acc, xs[1..])
  }

  /** `for x in xs: write(tag, [accession, x])`. */
  function WriteEach(h: Hmdb, tag: string, acc: Option<string>, xs: seq<Option<string>>): Result<Hmdb>
    decreases |xs|
  {
    if |xs| == 0 then Success(h)
    else
      var h' :- Write(h, tag, [acc, xs[0]]);
      WriteEach(h', tag, acc, xs[1..])
  }

  /** The loop over `["accession", "uniprot_id", "biospecimen", "cellular"]`. */
  function WriteTags(h: Hmdb, tags: seq<string>, r: Record, acc: Option<string>): Result<Hmdb>
    decreases |tags|
  {
    if |tags| == 0 then Success(h)
    else
      var h' :- WriteEach(h, tags[0], acc, FindAll(r, tags[0]));
      WriteTags(h', tags[1..], r, acc)
  }

  /** The ChEBI pair of a record: its accession with the prefixed ChEBI id. */
  function ChebiEntry(r: Record): seq<(Option<string>, string)>
  {
    var chebi := FindText(r, "chebi_id");
    if chebi.Some? then [(FindText(r, "accession"), "CHEBI:" + chebi.value)] else []
  }

  /** The name written: its double quotes replaced by single quotes. */
  function CleanName(name: string): string
  {
    Replace(name, '"', '\'')
  }

  /** Lines 128-130: the name, the class and the super class, one row each;
      a missing class or super class is written as "None". */
  function WriteSingles(h: Hmdb, r: Record, acc: Option<string>, name: string): Result<Hmdb>
  {
    var h1 :- Write(h, "name", [acc, Some(CleanName(name))]);
    var h2 :- Write(h1, "class", [acc, Some(Str(FindText(r, "class")))]);
    Write(h2, "super_class", [acc, Some(Str(FindText(r, "super_class")))])
  }

  /** Lines 132-143: the repeated children, the ChEBI pair, the pathway names. */
  function WriteRest(h: Hmdb, r: Record, acc: Option<string>): Result<Hmdb>
  {
    var h4 :- WriteTags(h, RepeatedTags, r, acc);
    var h5 := h4.(mapping := h4.mapping + ChebiEntry(r));
    WriteEach(h5, "pathway", acc, PathwayNames(r.pathway))
  }

  /** `process_metabolite(chunk)`: the writes in source order, each able to
      raise; the count 1 on success. */
  function ProcessMetabolite(h: Hmdb, r: Record): Result<(Hmdb, nat)>
  {
    var acc := FindText(r, "accession");
    var name := FindText(r, "name");
    if name.None? then Failure(AttributeError)
    else
      var h3 :- WriteSingles(h, r, acc, name.value);
      var h6 :- WriteRest(h3, r, acc);
      Success((h6, 1))
  }

  // ---- what process_metabolite writes ----

  /** Every value a record's writes need is there: a name, an accession, and
      text in every repeated child and every paired pathway name. */
  predicate Complete(r: Record)
  {
    && FindText(r, "name").Some? && FindText(r, "accession").Some?
    && (forall t :: t in RepeatedTags ==> AllSome(FindAll(r, t)))
    && AllSome(PathwayNames(r.pathway))
  }

  /** The row of a single-valued field. */
  function SingleRow(r: Record, acc: string, name: string, f: string): string
  {
    if f == "name" then Line([acc, CleanName(name)])
    else if f == "class" then Line([acc, Str(FindText(r, "class"))])
    else if f == "super_class" then Line([acc, Str(FindText(r, "super_class"))])
    else ""
  }

  /** What a processed record adds to the file of field `f`: its single
      row, its repeated rows and its pathway rows, of which at most one is
      not empty since the fields differ. */
  function Added(r: Record, f: string): string
    requires Complete(r)
  {
    var acc := FindText(r, "accession").value;
    SingleRow(r, acc, FindText(r, "name").value, f)
    + (if f in RepeatedTags then Rows(acc, Texts(FindAll(r, f))) else "")
    + (if f == "pathway" then Rows(acc, Texts(PathwayNames(r.pathway))) else "")
  }

  /** Rows of a list, split after its first value. */
  lemma RowsCons(acc: string, xs: seq<Option<string>>)
    requires |xs| >= 1 && AllSome(xs)
    ensures AllSome(xs[1..])
    ensures Rows(acc, Texts(xs)) == Line([acc, xs[0].value]) + Rows(acc, Texts(xs[1..]))
  {
    assert Texts(xs)[1..] == Texts(xs[1..]);
  }

  /** `write` over a list fails exactly when it writes something and the
      field has no file, the accession is missing or a value is `None`;
      otherwise the field's file gains one row per value, in order, and
      nothing else changes. */
  lemma {:induction false} WriteEachSpec(h: Hmdb, tag: string, acc: Option<string>, xs: seq<Option<string>>)
    ensures WriteEach(h, tag, acc, xs).Success? <==> |xs| == 0 || (tag in h.files && acc.Some? && AllSome(xs))
    ensures |xs| == 0 ==> WriteEach(h, tag, acc, xs) == Success(h)
    ensures WriteEach(h, tag, acc, xs).Success? && |xs| > 0 ==>
      && WriteEach(h, tag, acc, xs).value.files == h.files[tag := h.files[tag] + Rows(acc.value, Texts(xs))]
      && WriteEach(h, tag, acc, xs).value.(files := h.files) == h
    decreases |xs|
  {
    if |xs| > 0 {
      WritePair(h, tag, acc, xs[0]);
      AllSomeCons(xs);
      var w := Write(h, tag, [acc, xs[0]]);
      if w.Success? {
        var h1 := w.value;
        WriteEachSpec(h1, tag, acc, xs[1..]);
        assert WriteEach(h, tag, acc, xs) == WriteEach(h1, tag, acc, xs[1..]);
        if WriteEach(h, tag, acc, xs).Success? {
          RowsCons(acc.value, xs);
          var line := Line([acc.value, xs[0].value]);
          var rest := Rows(acc.value, Texts(xs[1..]));
          if |xs| == 1 {
            assert rest == "";
            assert line + rest == line;
          } else {
            Concat3(h.files[tag], line, rest);
          }
        }
      }
    }
  }

  /** One `write(tag, [accession, x])`. */
  lemma WritePair(h: Hmdb, tag: string, acc: Option<string>, x: Option<string>)
    ensures Write(h, tag, [acc, x]).Success? <==> tag in h.files && acc.Some? && x.Some?
    ensures Write(h, tag, [acc, x]).Success? ==>
      Write(h, tag, [acc, x]).value == h.(files := h.files[tag := h.files[tag] + Line([acc.value, x.value])])
  {
    var vals := [acc, x];
    assert AllSome(vals) <==> acc.Some? && x.Some? by {
      assert vals[0] == acc && vals[1] == x;
    }
    if AllSome(vals) {
      assert Texts(vals) == [acc.value, x.value];
    }
  }

  /** A list holds no `None` when its head and its tail hold none. */
  lemma AllSomeCons(xs: seq<Option<string>>)
    requires |xs| >= 1
    ensures AllSome(xs) <==> xs[0].Some? && AllSome(xs[1..])
  {
    assert forall i :: 1 <= i < |xs| ==> xs[1..][i - 1] == xs[i];
  }

  /** The loop over the repeated tags: it fails exactly when a tag with
      children has no file or a child without text; otherwise each tag's
      file gains one row per child, and nothing else changes. */
  lemma {:induction false} WriteTagsSpec(h: Hmdb, tags: seq<string>, r: Record, acc: string)
    requires Distinct(tags)
    ensures WriteTags(h, tags, r, Some(acc)).Success?
        <==> forall t :: t in tags ==> |FindAll(r, t)| == 0 || (t in h.files && AllSome(FindAll(r, t)))
    ensures WriteTags(h, tags, r, Some(acc)).Success? ==>
      var h' := WriteTags(h, tags, r, Some(acc)).value;
      && (forall t :: t in tags ==> AllSome(FindAll(r, t)))
      && h'.files.Keys == h.files.Keys
      && (forall f :: f in h.files && f !in tags ==> h'.files[f] == h.files[f])
      && (forall f :: f in h.files && f in tags ==> h'.files[f] == h.files[f] + Rows(acc, Texts(FindAll(r, f))))
      && h'.(files := h.files) == h
    decreases |tags|
  {
    if |tags| > 0 {
      var t := tags[0];
      var xs := FindAll(r, t);
      WriteEachSpec(h, t, Some(acc), xs);
      assert forall u :: u in tags <==> u == t || u in tags[1..];
      assert t !in tags[1..] by {
        forall i | 0 <= i < |tags[1..]|
          ensures tags[1..][i] != t
        {
          assert tags[1..][i] == tags[i + 1];
        }
      }
      assert Distinct(tags[1..]) by {
        forall i, j | 0 <= i < j < |tags[1..]|
          ensures tags[1..][i] != tags[1..][j]
        {
          assert tags[1..][i] == tags[i + 1] && tags[1..][j] == tags[j + 1];
        }
      }
      var w := WriteEach(h, t, Some(acc), xs);
      if w.Success? {
        var h1 := w.value;
        WriteTagsSpec(h1, tags[1..], r, acc);
        if |xs| == 0 {
          assert Texts(xs) == [];
          assert Rows(acc, Texts(xs)) == "";
          assert forall f :: f in h.files ==> h.files[f] + "" == h.files[f];
        }
      }
    }
  }

  /** Every field `process_metabolite` writes to has a file. */
  predicate Writable(h: Hmdb)
  {
    forall f :: f in WrittenFields ==> f in h.files
  }

  lemma RepeatedTagsDistinct()
    ensures Distinct(RepeatedTags)
    ensures "name" !in RepeatedTags && "class" !in RepeatedTags && "super_class" !in RepeatedTags
    ensures "pathway" !in RepeatedTags
  {
  }

  /** The double quotes of a name become single quotes, so with a quote-free
      accession the name row reads back as the accession and the cleaned
      name, which differs from the name only where it held a double quote. */
  lemma NameRowRoundTrip(acc: string, name: string)
    requires '"' !in acc
    ensures '"' !in CleanName(name)
    ensures DecodeRow(Line([acc, CleanName(name)])) == Some([acc, CleanName(name)])
    ensures |CleanName(name)| == |name|
    ensures forall i :: 0 <= i < |name| && name[i] != '"' ==> CleanName(name)[i] == name[i]
  {
    ReplaceRemoves(name, '"', '\'');
    LineRoundTrip([acc, CleanName(name)]);
  }

  /** Whether the three single rows are written: the writes fail exactly
      when the accession is missing or one of the three fields has no file,
      and they open no file. */
  lemma WriteSinglesOutcome(h: Hmdb, r: Record, acc: Option<string>, name: string)
    ensures WriteSingles(h, r, acc, name).Success?
        <==> acc.Some? && "name" in h.files && "class" in h.files && "super_class" in h.files
    ensures WriteSingles(h, r, acc, name).Success? ==> WriteSingles(h, r, acc, name).value.files.Keys == h.files.Keys
  {
    WritePair(h, "name", acc, Some(CleanName(name)));
    var w1 := Write(h, "name", [acc, Some(CleanName(name))]);
    if w1.Success? {
      WritePair(w1.value, "class", acc, Some(Str(FindText(r, "class"))));
      var w2 := Write(w1.value, "class", [acc, Some(Str(FindText(r, "class")))]);
      if w2.Success? {
        WritePair(w2.value, "super_class", acc, Some(Str(FindText(r, "super_class"))));
      }
    }
  }

  /** The three single rows: the writes fail exactly when the accession is
      missing or one of the three fields has no file; otherwise each of the
      three files gains its row and nothing else changes. */
  lemma WriteSinglesSpec(h: Hmdb, r: Record, acc: Option<string>, name: string)
    ensures WriteSingles(h, r, acc, name).Success?
        <==> acc.Some? && "name" in h.files && "class" in h.files && "super_class" in h.files
    ensures WriteSingles(h, r, acc, name).Success? ==>
      var h' := WriteSingles(h, r, acc, name).value;
      && h'.files.Keys == h.files.Keys
      && (forall f :: f in h.files ==> h'.files[f] == h.files[f] + SingleRow(r, acc.value, name, f))
      && h'.(files := h.files) == h
  {
    WriteSinglesOutcome(h, r, acc, name);
    if WriteSingles(h, r, acc, name).Success? {
      var a := acc.value;
      var c := Str(FindText(r, "class"));
      var sc := Str(FindText(r, "super_class"));
      WritePair(h, "name", acc, Some(CleanName(name)));
      var h1 := Write(h, "name", [acc, Some(CleanName(name))]).value;
      WritePair(h1, "class", acc, Some(c));
      var h2 := Write(h1, "class", [acc, Some(c)]).value;
      WritePair(h2, "super_class", acc, Some(sc));
      var h3 := WriteSingles(h, r, acc, name).value;
      assert h3 == Write(h2, "super_class", [acc, Some(sc)]).value;
      forall f | f in h.files
        ensures h3.files[f] == h.files[f] + SingleRow(r, a, name, f)
      {
        if f != "name" && f != "class" && f != "super_class" {
          assert h.files[f] + "" == h.files[f];
        }
      }
    }
  }

  /** The pathway rows as a growth of every file. */
  lemma PathwayStep(h: Hmdb, acc: string, ps: seq<Option<string>>)
    requires AllSome(ps) && "pathway" in h.files
    ensures WriteEach(h, "pathway", Some(acc), ps).Success?
    ensures var h' := WriteEach(h, "pathway", Some(acc), ps).value;
      && h'.files.Keys == h.files.Keys
      && (forall f :: f in h.files ==>
            h'.files[f] == h.files[f] + (if f == "pathway" then Rows(acc, Texts(ps)) else ""))
      && h'.(files := h.files) == h
  {
    WriteEachSpec(h, "pathway", Some(acc), ps);
    var h' := WriteEach(h, "pathway", Some(acc), ps).value;
    forall f | f in h.files
      ensures h'.files[f] == h.files[f] + (if f == "pathway" then Rows(acc, Texts(ps)) else "")
    {
      if |ps| == 0 {
        assert Texts(ps) == [];
      }
      if f != "pathway" || |ps| == 0 {
        assert h.files[f] + "" == h.files[f];
      }
    }
  }

  /** Whether the rows after the single rows are written: only when every
      repeated child and every paired pathway name has text, and always
      when, besides, their files are open. */
  lemma WriteRestOutcome(h: Hmdb, r: Record, a: string)
    ensures WriteRest(h, r, Some(a)).Success? ==>
      && (forall t :: t in RepeatedTags ==> AllSome(FindAll(r, t)))
      && AllSome(PathwayNames(r.pathway))
    ensures (forall t :: t in RepeatedTags ==> t in h.files && AllSome(FindAll(r, t)))
         && "pathway" in h.files && AllSome(PathwayNames(r.pathway))
         ==> WriteRest(h, r, Some(a)).Success?
  {
    RepeatedTagsDistinct();
    WriteTagsSpec(h, RepeatedTags, r, a);
    var w4 := WriteTags(h, RepeatedTags, r, Some(a));
    if w4.Success? {
      var h4 := w4.value;
      WriteEachSpec(h4.(mapping := h4.mapping + ChebiEntry(r)), "pathway", Some(a), PathwayNames(r.pathway));
    }
  }

  /** The rows after the single rows: every file gains its repeated rows
      and pathway rows, and the ChEBI pair is appended. */
  lemma WriteRestSpec(h: Hmdb, r: Record, a: string)
    ensures WriteRest(h, r, Some(a)).Success? ==>
      && (forall t :: t in RepeatedTags ==> AllSome(FindAll(r, t)))
      && AllSome(PathwayNames(r.pathway))
    ensures (forall t :: t in RepeatedTags ==> t in h.files && AllSome(FindAll(r, t)))
         && "pathway" in h.files && AllSome(PathwayNames(r.pathway))
         ==> WriteRest(h, r, Some(a)).Success?
    ensures WriteRest(h, r, Some(a)).Success? ==>
      var h' := WriteRest(h, r, Some(a)).value;
      && h'.files.Keys == h.files.Keys
      && (forall f :: f in h.files ==>
            h'.files[f] == h.files[f]
              + (if f in RepeatedTags then Rows(a, Texts(FindAll(r, f))) else "")
              + (if f == "pathway" then Rows(a, Texts(PathwayNames(r.pathway))) else ""))
      && h'.mapping == h.mapping + ChebiEntry(r)
      && h'.(files := h.files, mapping := h.mapping) == h
  {
    WriteRestOutcome(h, r, a);
    if WriteRest(h, r, Some(a)).Success? {
      WriteRestEffect(h, r, a);
      forall f | f in h.files
        ensures WriteRest(h, r, Some(a)).value.files[f] == h.files[f]
              + (if f in RepeatedTags then Rows(a, Texts(FindAll(r, f))) else "")
              + (if f == "pathway" then Rows(a, Texts(PathwayNames(r.pathway))) else "")
      {
        WriteRestFile(h, r, a, f);
      }
    }
  }

  /** The file of one field after the rows that follow the single rows. */
  lemma WriteRestFile(h: Hmdb, r: Record, a: string, f: string)
    requires WriteRest(h, r, Some(a)).Success? && f in h.files
    ensures (forall t :: t in RepeatedTags ==> AllSome(FindAll(r, t))) && AllSome(PathwayNames(r.pathway))
    ensures f in WriteRest(h, r, Some(a)).value.files
    ensures WriteRest(h, r, Some(a)).value.files[f] == h.files[f]
              + (if f in RepeatedTags then Rows(a, Texts(FindAll(r, f))) else "")
              + (if f == "pathway" then Rows(a, Texts(PathwayNames(r.pathway))) else "")
  {
    WriteRestOutcome(h, r, a);
    var h4 := WriteTags(h, RepeatedTags, r, Some(a)).value;
    TagsFile(h, r, a, f);
    var h5 := h4.(mapping := h4.mapping + ChebiEntry(r));
    PathwayFile(h5, a, PathwayNames(r.pathway), f);
    assert WriteRest(h, r, Some(a)).value == WriteEach(h5, "pathway", Some(a), PathwayNames(r.pathway)).value;
  }

  /** The file of one field after the loop over the repeated tags. */
  lemma TagsFile(h: Hmdb, r: Record, a: string, f: string)
    requires WriteTags(h, RepeatedTags, r, Some(a)).Success? && f in h.files
    ensures forall t :: t in RepeatedTags ==> AllSome(FindAll(r, t))
    ensures f in WriteTags(h, RepeatedTags, r, Some(a)).value.files
    ensures WriteTags(h, RepeatedTags, r, Some(a)).value.files[f]
         == h.files[f] + (if f in RepeatedTags then Rows(a, Texts(FindAll(r, f))) else "")
  {
    RepeatedTagsDistinct();
    WriteTagsSpec(h, RepeatedTags, r, a);
    if f !in RepeatedTags {
      assert h.files[f] + "" == h.files[f];
    }
  }

  /** The file of one field after the pathway rows. */
  lemma PathwayFile(h: Hmdb, a: string, ps: seq<Option<string>>, f: string)
    requires WriteEach(h, "pathway", Some(a), ps).Success? && f in h.files
    ensures AllSome(ps)
    ensures f in WriteEach(h, "pathway", Some(a), ps).value.files
    ensures WriteEach(h, "pathway", Some(a), ps).value.files[f]
         == h.files[f] + (if f == "pathway" then Rows(a, Texts(ps)) else "")
  {
    WriteEachSpec(h, "pathway", Some(a), ps);
    var h' := WriteEach(h, "pathway", Some(a), ps).value;
    if |ps| == 0 {
      assert Texts(ps) == [];
      assert h'.files[f] == h.files[f] + "";
    } else if f != "pathway" {
      assert h'.files[f] == h.files[f] + "";
    }
  }

  /** The rows after the single rows open no file, append the ChEBI pair,
      and change nothing else. */
  lemma WriteRestEffect(h: Hmdb, r: Record, a: string)
    requires WriteRest(h, r, Some(a)).Success?
    ensures var h' := WriteRest(h, r, Some(a)).value;
      && h'.files.Keys == h.files.Keys
      && h'.mapping == h.mapping + ChebiEntry(r)
      && h'.(files := h.files, mapping := h.mapping) == h
  {
    RepeatedTagsDistinct();
    WriteTagsSpec(h, RepeatedTags, r, a);
    var h4 := WriteTags(h, RepeatedTags, r, Some(a)).value;
    var h5 := h4.(mapping := h4.mapping + ChebiEntry(r));
    WriteEachSpec(h5, "pathway", Some(a), PathwayNames(r.pathway));
  }

  /** Whether `process_metabolite` succeeds: a record without a name raises
      `AttributeError`; with a file for every written field it succeeds
      exactly when every value written is there, and it never succeeds
      otherwise. */
  lemma ProcessOutcome(h: Hmdb, r: Record)
    ensures FindText(r, "name").None? ==> ProcessMetabolite(h, r) == Failure(AttributeError)
    ensures ProcessMetabolite(h, r).Success? ==> Complete(r) && ProcessMetabolite(h, r).value.1 == 1
    ensures Writable(h) && Complete(r) ==> ProcessMetabolite(h, r).Success?
  {
    var acc := FindText(r, "accession");
    var name := FindText(r, "name");
    if name.Some? {
      WriteSinglesOutcome(h, r, acc, name.value);
      var w3 := WriteSingles(h, r, acc, name.value);
      if w3.Success? {
        WriteRestOutcome(w3.value, r, acc.value);
        assert ProcessMetabolite(h, r).Success? == WriteRest(w3.value, r, acc).Success?;
      }
      if Writable(h) && Complete(r) {
        ProcessSucceeds(h, r);
      }
    }
  }

  /** With a file for every written field, a record with every value
      written is processed. */
  lemma ProcessSucceeds(h: Hmdb, r: Record)
    requires Writable(h) && Complete(r)
    ensures ProcessMetabolite(h, r).Success?
  {
    var acc := FindText(r, "accession");
    var name := FindText(r, "name").value;
    WritableFields(h);
    WriteSinglesOutcome(h, r, acc, name);
    var h3 := WriteSingles(h, r, acc, name).value;
    SameKeysWritable(h, h3);
    WritableFields(h3);
    WriteRestOutcome(h3, r, acc.value);
  }

  /** The fields an object with every written field open has files for. */
  lemma WritableFields(h: Hmdb)
    requires Writable(h)
    ensures "name" in h.files && "class" in h.files && "super_class" in h.files && "pathway" in h.files
    ensures forall t :: t in RepeatedTags ==> t in h.files
  {
    assert WrittenFields[0] == "name" && WrittenFields[1] == "class" && WrittenFields[2] == "super_class";
    assert WrittenFields[7] == "pathway";
    assert forall i :: 0 <= i < |RepeatedTags| ==> WrittenFields[3 + i] == RepeatedTags[i];
  }

  /** What a successful `process_metabolite` changes: every file gains
      exactly the rows of the record for its field, the ChEBI pair is
      appended when the record has a ChEBI id, and nothing else changes. */
  lemma ProcessEffect(h: Hmdb, r: Record)
    requires ProcessMetabolite(h, r).Success?
    ensures Complete(r)
    ensures var h' := ProcessMetabolite(h, r).value.0;
      && h'.files.Keys == h.files.Keys
      && (forall f :: f in h.files ==> h'.files[f] == h.files[f] + Added(r, f))
      && h'.mapping == h.mapping + ChebiEntry(r)
      && h'.(files := h.files, mapping := h.mapping) == h
  {
    var acc := FindText(r, "accession");
    var a := acc.value;
    var name := FindText(r, "name").value;
    WriteSinglesSpec(h, r, acc, name);
    var h3 := WriteSingles(h, r, acc, name).value;
    WriteRestSpec(h3, r, a);
    var h6 := WriteRest(h3, r, acc).value;
    assert ProcessMetabolite(h, r).value.0 == h6;
    assert Complete(r);
    forall f | f in h.files
      ensures h6.files[f] == h.files[f] + Added(r, f)
    {
      var s := SingleRow(r, a, name, f);
      var t := if f in RepeatedTags then Rows(a, Texts(FindAll(r, f))) else "";
      var p := if f == "pathway" then Rows(a, Texts(PathwayNames(r.pathway))) else "";
      assert h3.files[f] == h.files[f] + s;
      assert h6.files[f] == h3.files[f] + t + p;
      assert Added(r, f) == s + t + p;
      Concat4(h.files[f], s, t, p);
    }
  }

  /** A successful `process_metabolite` closes no file and opens none. */
  lemma ProcessKeeps(h: Hmdb, r: Record)
    requires ProcessMetabolite(h, r).Success?
    ensures ProcessMetabolite(h, r).value.0.files.Keys == h.files.Keys
    ensures Writable(h) ==> Writable(ProcessMetabolite(h, r).value.0)
  {
    ProcessEffect(h, r);
  }

  /** The file of one field after a successful `process_metabolite`. */
  lemma ProcessFile(h: Hmdb, r: Record, f: string)
    requires ProcessMetabolite(h, r).Success? && f in h.files
    ensures Complete(r)
    ensures f in ProcessMetabolite(h, r).value.0.files
    ensures ProcessMetabolite(h, r).value.0.files[f] == h.files[f] + Added(r, f)
  {
    ProcessEffect(h, r);
  }

  /** Everything but the files after a successful `process_metabolite`. */
  lemma ProcessMapping(h: Hmdb, r: Record)
    requires ProcessMetabolite(h, r).Success?
    ensures Complete(r)
    ensures var h' := ProcessMetabolite(h, r).value.0;
      && h'.files.Keys == h.files.Keys
      && h'.mapping == h.mapping + ChebiEntry(r)
      && h'.(files := h.files, mapping := h.mapping) == h
  {
    ProcessEffect(h, r);
  }

  /** Appending three pieces one after the other appends their concatenation. */
  lemma Concat4(w: string, x: string, y: string, z: string)
    ensures w + x + y + z == w + (x + y + z)
  {
  }

  // ---- parse_hmdb ----

  /** The fields of the line pattern, in the order `parse_hmdb` gives them. */
  const HmdbFields: seq<string> := ["accession", "chebi_id", "uniprot_id", "class", "kegg_map_id",
                                    "super_class", "description", "traditional_iupac", "biospecimen",
                                    "cellular", "name", "pathway", "term", "kingdom"]

  /** The fields read but not given an output file. */
  const HmdbExcluded: seq<string> := ["term", "kegg_map_id", "chebi_id", "description", "traditional_iupac"]

  /** The loop of `parse_hmdb` over the first `n` records: a record that
      passes `keep` is processed and counted, any other is skipped, and an exception in
      `process_metabolite` ends the loop. */
  function ProcessUpTo(h: Hmdb, rs: seq<Record>, n: nat, keep: Record -> bool): Result<(Hmdb, nat)>
    requires n <= |rs|
  {
    if n == 0 then Success((h, 0))
    else
      var prev :- ProcessUpTo(h, rs, n - 1, keep);
      if keep(rs[n - 1]) then
        var step :- ProcessMetabolite(prev.0, rs[n - 1]);
        Success((step.0, prev.1 + step.1))
      else Success(prev)
  }

  /** The object after `set_variables` in `parse_hmdb`. */
  const HmdbSetUp: Hmdb := SetVariables(Fresh, "metabolite", HmdbFields, HmdbExcluded)

  /** `parse_hmdb`, given the records of the file in order: the final object
      and the count of processed records. The loop variable `n` is bound
      only by a first record, so the closing log message raises
      `UnboundLocalError` when the file has none. */
  function ParseHmdb(rs: seq<Record>, search: RegexSearch): Result<(Hmdb, nat)>
  {
    ParseFrom(HmdbSetUp, rs, search)
  }

  /** The loop of `parse_hmdb` and its closing log message, from the object
      `h`. */
  function ParseFrom(h: Hmdb, rs: seq<Record>, search: RegexSearch): Result<(Hmdb, nat)>
  {
    var done :- ProcessUpTo(h, rs, |rs|, Selection(search));
    if |rs| == 0 then Failure(UnboundLocalError) else Success(done)
  }

  /** A file without records fails at the log message; otherwise the result
      is that of the loop. */
  lemma ParseFromLoop(h: Hmdb, rs: seq<Record>, search: RegexSearch)
    ensures |rs| == 0 ==> ParseFrom(h, rs, search) == Failure(UnboundLocalError)
    ensures |rs| > 0 ==> ParseFrom(h, rs, search) == ProcessUpTo(h, rs, |rs|, Selection(search))
  {
  }

  /** The test of `parse_hmdb` as a filter on records. */
  function Selection(search: RegexSearch): Record -> bool
  {
    r => Selected(r, search)
  }

  /** The indices below `n` of the kept records. */
  ghost function KeptBelow(rs: seq<Record>, n: nat, keep: Record -> bool): set<nat>
  {
    set i: nat | i < n && i < |rs| && keep(rs[i])
  }

  /** Every kept record below `n` has what `process_metabolite` reads. */
  ghost predicate KeptComplete(rs: seq<Record>, n: nat, keep: Record -> bool)
  {
    forall i :: 0 <= i < n && i < |rs| && keep(rs[i]) ==> Complete(rs[i])
  }

  /** The rows the kept records below `n` add to the file of `f`, in
      record order. */
  ghost function AddedUpTo(rs: seq<Record>, n: nat, f: string, keep: Record -> bool): string
    requires n <= |rs| && KeptComplete(rs, n, keep)
  {
    if n == 0 then ""
    else AddedUpTo(rs, n - 1, f, keep) + (if keep(rs[n - 1]) then Added(rs[n - 1], f) else "")
  }

  /** The ChEBI pairs of the kept records below `n`, in record order. */
  ghost function ChebiUpTo(rs: seq<Record>, n: nat, keep: Record -> bool): seq<(Option<string>, string)>
    requires n <= |rs|
  {
    if n == 0 then []
    else ChebiUpTo(rs, n - 1, keep) + (if keep(rs[n - 1]) then ChebiEntry(rs[n - 1]) else [])
  }

  /** With a file for every written field, the loop succeeds exactly when
      every selected record has what `process_metabolite` reads; it counts
      exactly the selected records and keeps every file open. */
  lemma {:induction false} ProcessUpToOutcome(h: Hmdb, rs: seq<Record>, n: nat, keep: Record -> bool)
    requires n <= |rs| && Writable(h)
    ensures ProcessUpTo(h, rs, n, keep).Success? <==> KeptComplete(rs, n, keep)
    ensures ProcessUpTo(h, rs, n, keep).Success? ==>
      && ProcessUpTo(h, rs, n, keep).value.1 == |KeptBelow(rs, n, keep)|
      && ProcessUpTo(h, rs, n, keep).value.0.files.Keys == h.files.Keys
  {
    if n > 0 {
      ProcessUpToOutcome(h, rs, n - 1, keep);
      KeptStep(rs, n, keep);
      var prev := ProcessUpTo(h, rs, n - 1, keep);
      if prev.Success? {
        var h1 := prev.value.0;
        SameKeysWritable(h, h1);
        if keep(rs[n - 1]) {
          ProcessOutcome(h1, rs[n - 1]);
          if ProcessMetabolite(h1, rs[n - 1]).Success? {
            ProcessKeeps(h1, rs[n - 1]);
          }
        }
      }
    }
  }

  /** Record `n - 1` joins the kept records below `n` exactly when it passes
      the filter. */
  lemma KeptStep(rs: seq<Record>, n: nat, keep: Record -> bool)
    requires 0 < n <= |rs|
    ensures |KeptBelow(rs, n, keep)| == |KeptBelow(rs, n - 1, keep)| + (if keep(rs[n - 1]) then 1 else 0)
    ensures KeptComplete(rs, n, keep) <==> KeptComplete(rs, n - 1, keep) && (keep(rs[n - 1]) ==> Complete(rs[n - 1]))
  {
    var sel := KeptBelow(rs, n - 1, keep);
    if keep(rs[n - 1]) {
      assert KeptBelow(rs, n, keep) == sel + {n - 1};
      assert n - 1 !in sel;
    } else {
      assert KeptBelow(rs, n, keep) == sel;
    }
  }

  /** Writability depends only on which files are open. */
  lemma SameKeysWritable(h: Hmdb, h': Hmdb)
    requires Writable(h) && h'.files.Keys == h.files.Keys
    ensures Writable(h')
  {
  }

  /** A successful loop keeps the text a file had and appends to it the
      rows of the kept records, in record order. */
  lemma {:induction false} ProcessUpToFile(h: Hmdb, rs: seq<Record>, n: nat, keep: Record -> bool, f: string)
    requires n <= |rs| && ProcessUpTo(h, rs, n, keep).Success? && f in h.files
    ensures KeptComplete(rs, n, keep)
    ensures f in ProcessUpTo(h, rs, n, keep).value.0.files
    ensures ProcessUpTo(h, rs, n, keep).value.0.files[f] == h.files[f] + AddedUpTo(rs, n, f, keep)
  {
    if n == 0 {
      assert h.files[f] + "" == h.files[f];
    } else {
      ProcessUpToFile(h, rs, n - 1, keep, f);
      KeptStep(rs, n, keep);
      var prev := ProcessUpTo(h, rs, n - 1, keep).value;
      var h1 := prev.0;
      var before := AddedUpTo(rs, n - 1, f, keep);
      if keep(rs[n - 1]) {
        ProcessFile(h1, rs[n - 1], f);
        var step := ProcessMetabolite(h1, rs[n - 1]).value;
        assert ProcessUpTo(h, rs, n, keep).value.0 == step.0;
        assert AddedUpTo(rs, n, f, keep) == before + Added(rs[n - 1], f);
        Concat3(h.files[f], before, Added(rs[n - 1], f));
      } else {
        assert ProcessUpTo(h, rs, n, keep).value.0 == h1;
        assert AddedUpTo(rs, n, f, keep) == before + "";
      }
    }
  }

  /** A successful loop appends the ChEBI pairs of the kept records, in
      record order, and changes neither the set of files nor the tags and
      the pattern. */
  lemma {:induction false} ProcessUpToEffect(h: Hmdb, rs: seq<Record>, n: nat, keep: Record -> bool)
    requires n <= |rs| && ProcessUpTo(h, rs, n, keep).Success?
    ensures KeptComplete(rs, n, keep)
    ensures var h' := ProcessUpTo(h, rs, n, keep).value.0;
      && h'.files.Keys == h.files.Keys
      && h'.mapping == h.mapping + ChebiUpTo(rs, n, keep)
      && h'.(files := h.files, mapping := h.mapping) == h
  {
    if n == 0 {
      assert h.mapping + [] == h.mapping;
    } else {
      ProcessUpToEffect(h, rs, n - 1, keep);
      var h1 := ProcessUpTo(h, rs, n - 1, keep).value.0;
      if keep(rs[n - 1]) {
        ProcessMapping(h1, rs[n - 1]);
      } else {
        assert ChebiUpTo(rs, n, keep) == ChebiUpTo(rs, n - 1, keep) + [];
      }
    }
  }

  /** The fields given an output file: those `process_metabolite` writes
      to, and `kingdom`. */
  const HmdbOpened: set<string> := {"accession", "uniprot_id", "class", "super_class", "biospecimen", "cellular", "name", "pathway", "kingdom"}

  lemma OpenedAreFields()
    ensures forall f :: f in HmdbOpened ==> f in HmdbFields
  {
    assert HmdbFields[0] == "accession" && HmdbFields[2] == "uniprot_id" && HmdbFields[3] == "class";
    assert HmdbFields[5] == "super_class" && HmdbFields[8] == "biospecimen" && HmdbFields[9] == "cellular";
    assert HmdbFields[10] == "name" && HmdbFields[11] == "pathway" && HmdbFields[13] == "kingdom";
  }

  lemma OpenedNotExcluded()
    ensures forall f :: f in HmdbOpened ==> f !in HmdbExcluded
  {
    forall f | f in HmdbOpened
      ensures f !in HmdbExcluded
    {
      forall i | 0 <= i < |HmdbExcluded|
        ensures HmdbExcluded[i] != f
      {
      }
    }
  }

  lemma FieldsOpened()
    ensures forall f :: f in HmdbFields && f !in HmdbExcluded ==> f in HmdbOpened
  {
    forall i | 0 <= i < |HmdbFields| && HmdbFields[i] !in HmdbExcluded
      ensures HmdbFields[i] in HmdbOpened
    {
      assert HmdbExcluded[0] == "term" && HmdbExcluded[1] == "kegg_map_id" && HmdbExcluded[2] == "chebi_id";
      assert HmdbExcluded[3] == "description" && HmdbExcluded[4] == "traditional_iupac";
    }
  }

  /** The fields read and not excluded are the fields `process_metabolite`
      writes to, and `kingdom`. */
  lemma FieldsNotExcluded()
    ensures (set f | f in HmdbFields && f !in HmdbExcluded) == HmdbOpened
  {
    OpenedAreFields();
    OpenedNotExcluded();
    FieldsOpened();
  }

  lemma OpenedFields()
    ensures SetFiles(map[], HmdbFields, HmdbExcluded).Keys
         == HmdbOpened
  {
    SetFilesKeys(map[], HmdbFields, HmdbExcluded);
    FieldsNotExcluded();
  }

  lemma WrittenFieldsKept()
    ensures forall f :: f in WrittenFields ==> f in HmdbOpened
  {
  }

  /** `parse_hmdb` opens a file for exactly the fields it reads and does not
      exclude. */
  lemma HmdbFileKeys()
    ensures HmdbSetUp.files.Keys
         == HmdbOpened
  {
    OpenedFields();
    assert HmdbSetUp.files == SetFiles(map[], HmdbFields, HmdbExcluded);
  }

  /** Among them is every field `process_metabolite` writes to. */
  lemma HmdbWritable()
    ensures Writable(HmdbSetUp)
  {
    HmdbFileKeys();
    KeptWritable(HmdbSetUp);
  }

  lemma KeptWritable(h: Hmdb)
    requires h.files.Keys == HmdbOpened
    ensures Writable(h)
  {
    WrittenFieldsKept();
  }

  /** `parse_hmdb` starts with an empty mapping. */
  lemma HmdbNoMapping()
    ensures HmdbSetUp.mapping == []
  {
  }

  /** Every file holds only its header row `ID,<field>`. */
  ghost predicate Headed(h: Hmdb)
  {
    forall f :: f in h.files ==> h.files[f] == Line(["ID", f])
  }

  /** Each file `parse_hmdb` opens holds only its header row `ID,<field>`. */
  lemma HmdbHeaders()
    ensures Headed(HmdbSetUp)
  {
    assert HmdbSetUp.files == SetFiles(map[], HmdbFields, HmdbExcluded);
    SetFilesSpec(map[], HmdbFields, HmdbExcluded);
  }

  /** From an object with a file for every written field, the loop of
      `parse_hmdb` succeeds exactly when every selected record has what
      `process_metabolite` reads, and then counts the selected records. */
  lemma SelectionOutcome(h: Hmdb, rs: seq<Record>, search: RegexSearch)
    requires Writable(h)
    ensures ProcessUpTo(h, rs, |rs|, Selection(search)).Success? <==>
      forall i :: 0 <= i < |rs| && Selected(rs[i], search) ==> Complete(rs[i])
    ensures ProcessUpTo(h, rs, |rs|, Selection(search)).Success? ==>
      ProcessUpTo(h, rs, |rs|, Selection(search)).value.1 == |set i: nat | i < |rs| && Selected(rs[i], search)|
  {
    var keep := Selection(search);
    ProcessUpToOutcome(h, rs, |rs|, keep);
    SelectionKeeps(rs, search);
  }

  /** The filter keeps exactly the selected records. */
  lemma SelectionKeeps(rs: seq<Record>, search: RegexSearch)
    ensures KeptComplete(rs, |rs|, Selection(search)) <==>
      forall i :: 0 <= i < |rs| && Selected(rs[i], search) ==> Complete(rs[i])
    ensures KeptBelow(rs, |rs|, Selection(search)) == set i: nat | i < |rs| && Selected(rs[i], search)
  {
    var keep := Selection(search);
    forall i | 0 <= i < |rs|
      ensures keep(rs[i]) == Selected(rs[i], search)
    {
    }
  }

  /** `parse_hmdb` succeeds exactly when the file has a record and every
      selected record has what `process_metabolite` reads, and then counts
      the selected records; a file without records raises
      `UnboundLocalError`. */
  lemma ParseHmdbOutcome(rs: seq<Record>, search: RegexSearch)
    ensures |rs| == 0 ==> ParseHmdb(rs, search) == Failure(UnboundLocalError)
    ensures ParseHmdb(rs, search).Success? <==>
      |rs| > 0 && forall i :: 0 <= i < |rs| && Selected(rs[i], search) ==> Complete(rs[i])
    ensures ParseHmdb(rs, search).Success? ==>
      ParseHmdb(rs, search).value.1 == |set i: nat | i < |rs| && Selected(rs[i], search)|
  {
    HmdbWritable();
    ParseFromLoop(HmdbSetUp, rs, search);
    SelectionOutcome(HmdbSetUp, rs, search);
  }

  /** From any object, a successful loop leaves every file holding its old
      text followed by the rows of the kept records, and appends their
      ChEBI pairs to the mapping. */
  lemma ProcessUpToOutput(h: Hmdb, rs: seq<Record>, keep: Record -> bool)
    requires ProcessUpTo(h, rs, |rs|, keep).Success?
    ensures KeptComplete(rs, |rs|, keep)
    ensures var h' := ProcessUpTo(h, rs, |rs|, keep).value.0;
      && h'.files.Keys == h.files.Keys
      && (forall f :: f in h.files ==> h'.files[f] == h.files[f] + AddedUpTo(rs, |rs|, f, keep))
      && h'.mapping == h.mapping + ChebiUpTo(rs, |rs|, keep)
  {
    ProcessUpToEffect(h, rs, |rs|, keep);
    forall f | f in h.files
      ensures ProcessUpTo(h, rs, |rs|, keep).value.0.files[f] == h.files[f] + AddedUpTo(rs, |rs|, f, keep)
    {
      ProcessUpToFile(h, rs, |rs|, keep, f);
    }
  }

  /** After a successful `parse_hmdb` every output file is its header row
      followed by the rows of the selected records, in file order, and the
      mapping holds the ChEBI pairs of the selected records. */
  lemma ParseHmdbOutput(rs: seq<Record>, search: RegexSearch)
    requires ParseHmdb(rs, search).Success?
    ensures KeptComplete(rs, |rs|, Selection(search))
    ensures var h := ParseHmdb(rs, search).value.0;
      && h.files.Keys == HmdbSetUp.files.Keys
      && (forall f :: f in h.files ==> h.files[f] == Line(["ID", f]) + AddedUpTo(rs, |rs|, f, Selection(search)))
      && h.mapping == ChebiUpTo(rs, |rs|, Selection(search))
  {
    HmdbHeaders();
    HmdbNoMapping();
    ParseFromLoop(HmdbSetUp, rs, search);
    HeaderedOutput(HmdbSetUp, rs, Selection(search));
  }

  /** The loop started from files holding only their header rows and an
      empty mapping. */
  lemma HeaderedOutput(h: Hmdb, rs: seq<Record>, keep: Record -> bool)
    requires Headed(h) && h.mapping == []
    requires ProcessUpTo(h, rs, |rs|, keep).Success?
    ensures KeptComplete(rs, |rs|, keep)
    ensures var h' := ProcessUpTo(h, rs, |rs|, keep).value.0;
      && h'.files.Keys == h.files.Keys
      && (forall f :: f in h'.files ==> h'.files[f] == Line(["ID", f]) + AddedUpTo(rs, |rs|, f, keep))
      && h'.mapping == ChebiUpTo(rs, |rs|, keep)
  {
    ProcessUpToOutput(h, rs, keep);
    assert [] + ChebiUpTo(rs, |rs|, keep) == ChebiUpTo(rs, |rs|, keep);
  }
}
