/** The set-up and output side of the `HMDB` class: the line pattern built by
    `set_variables`, the output files opened by `set_files`, and the row
    format of `write`.

    An output file is modelled by its text so far; opening a file in write
    mode starts it empty. */
module HmdbConfig {
  import opened Wrappers
  import opened Strings
  import Chunker

  /** The state of an `HMDB` object: the chunk tags, the line pattern, the
      text of each open output file by field, and the HMDB -> ChEBI pairs. */
  datatype Hmdb = Hmdb(chunkStart: string, chunkEnd: string, pattern: string,
                       files: map<string, string>, mapping: seq<(Option<string>, string)>)

  /** A fresh object: no pattern yet, no files, no mapping. */
  const Fresh: Hmdb := Hmdb("", "", "", map[], [])

  // ---- write ----

  /** One output row: every value between double quotes, separated by
      commas, ended by a newline. Embedded quotes are not escaped. */
  function Line(vals: seq<string>): string
  {
    "\"" + Join("\",\"", vals) + "\"\n"
  }

  /** The list holds no `None`. */
  predicate AllSome(vals: seq<Option<string>>)
  {
    forall i :: 0 <= i < |vals| ==> vals[i].Some?
  }

  /** The values of a list known to hold no `None`. */
  function Texts(vals: seq<Option<string>>): seq<string>
    requires AllSome(vals)
  {
    seq(|vals|, i requires 0 <= i < |vals| && vals[i].Some? => vals[i].value)
  }

  /** `write(field, vals)`: a field without an open file raises `KeyError`,
      a `None` among the values raises `TypeError` in the join; otherwise
      the row is appended to the field's file. */
  function Write(h: Hmdb, field: string, vals: seq<Option<string>>): Result<Hmdb>
  {
    if field !in h.files then Failure(KeyError(field))
    else if !AllSome(vals) then Failure(TypeError)
    else Success(h.(files := h.files[field := h.files[field] + Line(Texts(vals))]))
  }

  // ---- reading a row back ----

  /** The text up to the next double quote, and what follows that quote. */
  function ReadQuoted(s: string): (r: Option<(string, string)>)
    ensures r.Some? ==> |r.value.1| < |s|
    decreases |s|
  {
    if |s| == 0 then None
    else if s[0] == '"' then Some(("", s[1..]))
    else
      match ReadQuoted(s[1..])
      case None => None
      case Some((v, rest)) => Some(([s[0]] + v, rest))
  }

  /** A reader for rows of double-quoted, comma-separated values ended by a
      newline, where a value runs up to the next double quote. */
  function DecodeRow(s: string): Option<seq<string>>
    decreases |s|
  {
    if |s| == 0 || s[0] != '"' then None
    else
      match ReadQuoted(s[1..])
      case None => None
      case Some((v, rest)) =>
        if rest == "\n" then Some([v])
        else if |rest| >= 1 && rest[0] == ',' then
          match DecodeRow(rest[1..])
          case None => None
          case Some(vs) => Some([v] + vs)
        else None
  }

  lemma {:induction false} ReadQuotedOf(v: string, t: string)
    requires '"' !in v
    ensures ReadQuoted(v + "\"" + t) == Some((v, t))
    decreases |v|
  {
    if |v| == 0 {
      assert v + "\"" + t == "\"" + t;
    } else {
      assert (v + "\"" + t)[1..] == v[1..] + "\"" + t;
      ReadQuotedOf(v[1..], t);
      assert [v[0]] + v[1..] == v;
    }
  }

  lemma LineCons(v: string, rest: seq<string>)
    requires |rest| >= 1
    ensures Line([v] + rest) == "\"" + v + "\"" + "," + Line(rest)
  {
    assert ([v] + rest)[1..] == rest;
    assert Join("\",\"", [v] + rest) == v + "\",\"" + Join("\",\"", rest);
  }

  /** A row written from values without double quotes reads back as those
      values. */
  lemma {:induction false} LineRoundTrip(vals: seq<string>)
    requires |vals| >= 1
    requires forall i :: 0 <= i < |vals| ==> '"' !in vals[i]
    ensures DecodeRow(Line(vals)) == Some(vals)
    decreases |vals|
  {
    var v := vals[0];
    if |vals| == 1 {
      var s := Line(vals);
      assert s == "\"" + (v + "\"" + "\n");
      assert s[1..] == v + "\"" + "\n";
      ReadQuotedOf(v, "\n");
      assert vals == [v];
    } else {
      var rest := vals[1..];
      assert vals == [v] + rest;
      LineCons(v, rest);
      assert Line(vals) == "\"" + (v + "\"" + ("," + Line(rest)));
      ReadQuotedOf(v, "," + Line(rest));
      assert ("," + Line(rest))[1..] == Line(rest);
      assert "," + Line(rest) != "\n";
      LineRoundTrip(rest);
    }
  }

  /** A double quote inside a value is written as is, so the row no longer
      reads back as its values. */
  lemma EmbeddedQuoteBreaksRow()
    ensures DecodeRow(Line(["a", "b\"c"])) != Some(["a", "b\"c"])
  {
    var s := Line(["a", "b\"c"]);
    var second := "\"b\"c\"\n";
    assert s == "\"" + ("a" + "\"" + ("," + second));
    ReadQuotedOf("a", "," + second);
    assert ("," + second)[1..] == second;
    assert second[1..] == "b" + "\"" + "c\"\n";
    ReadQuotedOf("b", "c\"\n");
    assert DecodeRow(second) == None;
  }

  /** `write` fails exactly when the field has no file or a value is `None`;
      otherwise only the field's file changes, and it gains one row that
      reads back as the values when they hold no double quote. */
  lemma WriteSpec(h: Hmdb, field: string, vals: seq<Option<string>>)
    ensures Write(h, field, vals).Success? <==> field in h.files && AllSome(vals)
    ensures field !in h.files ==> Write(h, field, vals) == Failure(KeyError(field))
    ensures Write(h, field, vals).Success? ==>
      var h' := Write(h, field, vals).value;
      && h'.files.Keys == h.files.Keys
      && (forall f :: f in h.files && f != field ==> h'.files[f] == h.files[f])
      && |h'.files[field]| > |h.files[field]|
      && h'.files[field][..|h.files[field]|] == h.files[field]
      && (|vals| >= 1 && (forall i :: 0 <= i < |vals| ==> '"' !in vals[i].value) ==>
            DecodeRow(h'.files[field][|h.files[field]|..]) == Some(Texts(vals)))
      && h'.(files := h.files) == h
  {
    if Write(h, field, vals).Success? {
      var h' := Write(h, field, vals).value;
      var added := Line(Texts(vals));
      assert h'.files[field] == h.files[field] + added;
      assert h'.files[field][|h.files[field]|..] == added;
      if |vals| >= 1 && (forall i :: 0 <= i < |vals| ==> '"' !in vals[i].value) {
        LineRoundTrip(Texts(vals));
      }
    }
  }

  // ---- set_files ----

  /** `set_files(fields, exclude)`: a fresh file, holding the header row
      `ID,<field>`, for every field not excluded. */
  function SetFiles(files: map<string, string>, fields: seq<string>, exclude: seq<string>): map<string, string>
    decreases |fields|
  {
    if |fields| == 0 then files
    else
      var f := fields[0];
      SetFiles(if f !in exclude then files[f := Line(["ID", f])] else files, fields[1..], exclude)
  }

  /** The files opened are exactly those of the fields not excluded, each
      holding only its header row; files opened before are left alone. */
  lemma {:induction false} SetFilesSpec(files: map<string, string>, fields: seq<string>, exclude: seq<string>)
    ensures forall f :: f in SetFiles(files, fields, exclude) <==> f in files || (f in fields && f !in exclude)
    ensures forall f :: f in fields && f !in exclude ==> SetFiles(files, fields, exclude)[f] == Line(["ID", f])
    ensures forall f :: f in files && f !in fields ==> SetFiles(files, fields, exclude)[f] == files[f]
    ensures forall f :: f in files && f in exclude ==> SetFiles(files, fields, exclude)[f] == files[f]
    decreases |fields|
  {
    if |fields| > 0 {
      var f := fields[0];
      var files' := if f !in exclude then files[f := Line(["ID", f])] else files;
      SetFilesSpec(files', fields[1..], exclude);
      assert forall g :: g in fields <==> g == f || g in fields[1..];
    }
  }

  /** The set of fields with an open file after `set_files`. */
  lemma SetFilesKeys(files: map<string, string>, fields: seq<string>, exclude: seq<string>)
    ensures SetFiles(files, fields, exclude).Keys == files.Keys + (set f | f in fields && f !in exclude)
  {
    SetFilesSpec(files, fields, exclude);
  }

  // ---- set_variables ----

  /** The field alternatives of the pattern: each field name followed by `>`. */
  function Alternatives(fields: seq<string>): seq<string>
  {
    seq(|fields|, i requires 0 <= i < |fields| => fields[i] + ">")
  }

  /** `set_variables(source, chunk_by, fields, exclude)`. */
  function SetVariables(h: Hmdb, chunkBy: string, fields: seq<string>, exclude: seq<string>): Hmdb
  {
    var start := "<" + chunkBy;
    var end := "</" + chunkBy;
    h.(chunkStart := start, chunkEnd := end,
       pattern := "(" + start + "|" + end + "|" + Join("|", Alternatives(fields)) + ")",
       files := SetFiles(h.files, fields, exclude))
  }

  /** The branches of the pattern's alternation: the opening tag, the
      closing tag, then one branch per field. */
  function Branches(chunkBy: string, fields: seq<string>): seq<string>
  {
    ["<" + chunkBy, "</" + chunkBy] + Alternatives(fields)
  }

  /** The pattern is one parenthesised alternation of its branches. With no
      field at all it ends in an empty branch, which every line matches. */
  lemma PatternSpec(h: Hmdb, chunkBy: string, fields: seq<string>, exclude: seq<string>)
    ensures var h' := SetVariables(h, chunkBy, fields, exclude);
      && h'.chunkStart == "<" + chunkBy && h'.chunkEnd == "</" + chunkBy
      && (|fields| >= 1 ==> h'.pattern == "(" + Join("|", Branches(chunkBy, fields)) + ")")
      && (|fields| == 0 ==> h'.pattern == "(" + Join("|", Branches(chunkBy, fields) + [""]) + ")")
  {
    var start := "<" + chunkBy;
    var end := "</" + chunkBy;
    assert Join("|", [start, end]) == start + "|" + end by {
      assert [start, end][1..] == [end];
    }
    if |fields| >= 1 {
      JoinAppend("|", [start, end], Alternatives(fields));
    } else {
      JoinAppend("|", [start, end], [""]);
      assert Alternatives(fields) == [];
    }
  }

  /** When neither the tag nor any field name holds a `|`, splitting the
      pattern's inside on `|` gives back exactly the branches. */
  lemma PatternBranches(h: Hmdb, chunkBy: string, fields: seq<string>, exclude: seq<string>)
    requires |fields| >= 1
    requires '|' !in chunkBy && forall i :: 0 <= i < |fields| ==> '|' !in fields[i]
    ensures var p := SetVariables(h, chunkBy, fields, exclude).pattern;
      |p| >= 2 && Split(p[1..|p| - 1], '|') == Branches(chunkBy, fields)
  {
    PatternSpec(h, chunkBy, fields, exclude);
    var bs := Branches(chunkBy, fields);
    forall k | 0 <= k < |bs|
      ensures '|' !in bs[k]
    {
      if k >= 2 {
        assert bs[k] == fields[k - 2] + ">";
      }
    }
    SplitJoin(bs, '|');
    var p := SetVariables(h, chunkBy, fields, exclude).pattern;
    assert p[1..|p| - 1] == Join("|", bs);
  }

  /** A reading of the pattern as a search for any of its branches as a
      literal substring: exact when no name holds a regular-expression
      metacharacter. */
  predicate LiteralSearch(branches: seq<string>, line: string)
  {
    exists b :: b in branches && Contains(line, b)
  }

  /** The pattern of `set_variables` as a line test for `chunk`. */
  function PatternMatcher(chunkBy: string, fields: seq<string>): string -> bool
  {
    line => LiteralSearch(Branches(chunkBy, fields), line)
  }

  /** Every line holding the closing tag matches the pattern: the chunker's
      assumption about closing-tag lines holds for it. */
  lemma PatternMatchesClosingLines(chunkBy: string, fields: seq<string>)
    ensures Chunker.ClosingLinesMatch(PatternMatcher(chunkBy, fields), "</" + chunkBy)
  {
    forall line | Contains(line, "</" + chunkBy)
      ensures PatternMatcher(chunkBy, fields)(line)
    {
      assert Branches(chunkBy, fields)[1] == "</" + chunkBy;
    }
  }

  /** Chunking a file with the pattern and closing tag of `set_variables`
      gives groups that each end with their own closing-tag line, hold no
      other one, and hold only lines the pattern matches. */
  lemma PatternGroupsWellFormed(h: Hmdb, lines: seq<string>, chunkBy: string, fields: seq<string>, exclude: seq<string>)
    requires |lines| >= 2
    ensures var h' := SetVariables(h, chunkBy, fields, exclude);
      var gs := Chunker.Chunk(lines, PatternMatcher(chunkBy, fields), h'.chunkEnd);
      && gs.Success?
      && forall k :: 0 <= k < |gs.value| ==>
           Chunker.WellFormedGroup(gs.value[k], PatternMatcher(chunkBy, fields), h'.chunkEnd)
  {
    PatternMatchesClosingLines(chunkBy, fields);
    Chunker.ChunkSpec(lines, PatternMatcher(chunkBy, fields), "</" + chunkBy);
  }
}
