/** `HMDB.chunk`: the line-level grouping of the HMDB XML file into one
    group of lines per metabolite record.

    The file is given as the list of its decoded lines, each with its line
    terminator. Whether a line matches the pattern is the parameter
    `matches`; the parsing of a group's text by ElementTree is not
    modelled, so a group is its list of kept lines. */
module Chunker {
  import opened Wrappers
  import opened Strings
  import opened Seqs

  /** The lines read before `while s` stops: `readline` returns the empty
      string only at the end of the file, so the loop ends at the first
      empty line of the list. */
  function UntilEmpty(lines: seq<string>): seq<string>
  {
    if |lines| == 0 || lines[0] == "" then [] else [lines[0]] + UntilEmpty(lines[1..])
  }

  /** The lines that match, in order. */
  function Filter(lines: seq<string>, matches: string -> bool): seq<string>
  {
    if |lines| == 0 then []
    else (if matches(lines[0]) then [lines[0]] else []) + Filter(lines[1..], matches)
  }

  /** The loop body of `chunk`: the buffer `data` collects matching lines, and
      a line holding the closing tag emits the buffer and empties it. */
  function Group(lines: seq<string>, matches: string -> bool, chunkEnd: string, data: seq<string>): seq<seq<string>>
    decreases |lines|
  {
    if |lines| == 0 then []
    else
      var data' := data + (if matches(lines[0]) then [lines[0]] else []);
      if Contains(lines[0], chunkEnd) then [data'] + Group(lines[1..], matches, chunkEnd, [])
      else Group(lines[1..], matches, chunkEnd, data')
  }

  /** `chunk()`: the two `next(f)` calls raise `StopIteration` inside the
      generator on a file of fewer than two lines, which Python turns into
      `RuntimeError`. */
  function Chunk(lines: seq<string>, matches: string -> bool, chunkEnd: string): Result<seq<seq<string>>>
  {
    if |lines| < 2 then Failure(RuntimeError)
    else Success(Group(UntilEmpty(lines[2..]), matches, chunkEnd, []))
  }

  // ---- Reference definitions ----

  /** The number of lines holding the closing tag. */
  function CountClosing(lines: seq<string>, chunkEnd: string): nat
  {
    if |lines| == 0 then 0
    else (if Contains(lines[0], chunkEnd) then 1 else 0) + CountClosing(lines[1..], chunkEnd)
  }

  /** The lines up to and including the last line holding the closing tag;
      empty when there is none. */
  function UpToLastClosing(lines: seq<string>, chunkEnd: string): seq<string>
  {
    if |lines| == 0 then []
    else
      var rest := UpToLastClosing(lines[1..], chunkEnd);
      if |rest| > 0 || Contains(lines[0], chunkEnd) then [lines[0]] + rest else []
  }

  /** Every closing-tag line matches the pattern. */
  ghost predicate ClosingLinesMatch(matches: string -> bool, chunkEnd: string)
  {
    forall l :: Contains(l, chunkEnd) ==> matches(l)
  }

  /** A group is a run of matching lines whose only closing-tag line is its
      last one. */
  ghost predicate WellFormedGroup(g: seq<string>, matches: string -> bool, chunkEnd: string)
  {
    && |g| >= 1 && Contains(g[|g| - 1], chunkEnd)
    && (forall j :: 0 <= j < |g| - 1 ==> !Contains(g[j], chunkEnd))
    && (forall j :: 0 <= j < |g| ==> matches(g[j]))
  }

  // ---- Properties ----

  /** The lines read are a prefix of the file holding no empty line, and
      either the whole file or followed by an empty line. */
  lemma {:induction false} UntilEmptySpec(lines: seq<string>)
    ensures var r := UntilEmpty(lines);
      && r <= lines
      && (forall i :: 0 <= i < |r| ==> r[i] != "")
      && (|r| == |lines| || lines[|r|] == "")
    decreases |lines|
  {
    if |lines| > 0 && lines[0] != "" {
      UntilEmptySpec(lines[1..]);
    }
  }

  /** One group per closing-tag line. */
  lemma {:induction false} GroupCount(lines: seq<string>, matches: string -> bool, chunkEnd: string, data: seq<string>)
    ensures |Group(lines, matches, chunkEnd, data)| == CountClosing(lines, chunkEnd)
    decreases |lines|
  {
    if |lines| > 0 {
      GroupCount(lines[1..], matches, chunkEnd, []);
      GroupCount(lines[1..], matches, chunkEnd, data + (if matches(lines[0]) then [lines[0]] else []));
    }
  }

  /** The groups, read one after the other, are the buffered lines followed by
      the matching lines up to the last closing-tag line: lines after it are
      never emitted, and with no closing-tag line nothing is. */
  lemma {:induction false} GroupContents(lines: seq<string>, matches: string -> bool, chunkEnd: string, data: seq<string>)
    ensures Flatten(Group(lines, matches, chunkEnd, data))
         == if UpToLastClosing(lines, chunkEnd) == [] then [] else data + Filter(UpToLastClosing(lines, chunkEnd), matches)
    decreases |lines|
  {
    if |lines| > 0 {
      var l := lines[0];
      var keep := if matches(l) then [l] else [];
      var rest := UpToLastClosing(lines[1..], chunkEnd);
      var tail := Filter(rest, matches);
      FilterCons(l, rest, matches);
      if Contains(l, chunkEnd) {
        GroupContents(lines[1..], matches, chunkEnd, []);
        ClosingStep(lines, matches, chunkEnd, data);
        assert UpToLastClosing(lines, chunkEnd) == [l] + rest;
        assert Flatten(Group(lines[1..], matches, chunkEnd, [])) == tail by {
          if rest == [] {
            assert tail == [];
          } else {
            assert [] + tail == tail;
          }
        }
        Concat3(data, keep, tail);
      } else {
        GroupContents(lines[1..], matches, chunkEnd, data + keep);
        assert Group(lines, matches, chunkEnd, data) == Group(lines[1..], matches, chunkEnd, data + keep);
        if rest != [] {
          assert UpToLastClosing(lines, chunkEnd) == [l] + rest;
          Concat3(data, keep, tail);
        } else {
          assert UpToLastClosing(lines, chunkEnd) == [];
        }
      }
    }
  }

  /** A closing-tag line emits the buffer with that line, if it matches, in
      front of the groups of the lines after it. */
  lemma ClosingStep(lines: seq<string>, matches: string -> bool, chunkEnd: string, data: seq<string>)
    requires |lines| > 0 && Contains(lines[0], chunkEnd)
    ensures Flatten(Group(lines, matches, chunkEnd, data))
         == data + (if matches(lines[0]) then [lines[0]] else []) + Flatten(Group(lines[1..], matches, chunkEnd, []))
  {
    var data' := data + (if matches(lines[0]) then [lines[0]] else []);
    var gs := Group(lines[1..], matches, chunkEnd, []);
    assert Group(lines, matches, chunkEnd, data) == [data'] + gs;
    assert ([data'] + gs)[1..] == gs;
  }

  lemma FilterCons(x: string, rest: seq<string>, matches: string -> bool)
    ensures Filter([x] + rest, matches) == (if matches(x) then [x] else []) + Filter(rest, matches)
  {
    assert ([x] + rest)[1..] == rest;
  }

  /** When every closing-tag line matches, every group is well formed: it
      ends with its closing-tag line, holds no other one, and holds only
      matching lines. */
  lemma {:induction false} GroupShape(lines: seq<string>, matches: string -> bool, chunkEnd: string, data: seq<string>)
    requires ClosingLinesMatch(matches, chunkEnd)
    requires forall j :: 0 <= j < |data| ==> matches(data[j]) && !Contains(data[j], chunkEnd)
    ensures forall k :: 0 <= k < |Group(lines, matches, chunkEnd, data)| ==>
      WellFormedGroup(Group(lines, matches, chunkEnd, data)[k], matches, chunkEnd)
    decreases |lines|
  {
    if |lines| > 0 {
      var data' := data + (if matches(lines[0]) then [lines[0]] else []);
      if Contains(lines[0], chunkEnd) {
        GroupShape(lines[1..], matches, chunkEnd, []);
        assert matches(lines[0]);
        assert WellFormedGroup(data', matches, chunkEnd);
        var gs := Group(lines[1..], matches, chunkEnd, []);
        assert forall k :: 1 <= k < |[data'] + gs| ==> ([data'] + gs)[k] == gs[k - 1];
      } else {
        GroupShape(lines[1..], matches, chunkEnd, data');
      }
    }
  }

  /** What `chunk` yields: an error on a file of fewer than two lines;
      otherwise, over the lines after the first two and before the first
      empty one, one group per closing-tag line, the groups together being
      the matching lines up to the last closing-tag line; when closing-tag
      lines match, each group ends with its own closing-tag line. */
  lemma ChunkSpec(lines: seq<string>, matches: string -> bool, chunkEnd: string)
    ensures Chunk(lines, matches, chunkEnd).Failure? <==> |lines| < 2
    ensures Chunk(lines, matches, chunkEnd).Failure? ==> Chunk(lines, matches, chunkEnd).error == RuntimeError
    ensures |lines| >= 2 ==>
      var body := UntilEmpty(lines[2..]);
      var gs := Chunk(lines, matches, chunkEnd).value;
      && body <= lines[2..]
      && |gs| == CountClosing(body, chunkEnd)
      && Flatten(gs) == Filter(UpToLastClosing(body, chunkEnd), matches)
      && (ClosingLinesMatch(matches, chunkEnd) ==>
            forall k :: 0 <= k < |gs| ==> WellFormedGroup(gs[k], matches, chunkEnd))
  {
    if |lines| >= 2 {
      var body := UntilEmpty(lines[2..]);
      UntilEmptySpec(lines[2..]);
      GroupCount(body, matches, chunkEnd, []);
      GroupContents(body, matches, chunkEnd, []);
      assert [] + Filter(UpToLastClosing(body, chunkEnd), matches) == Filter(UpToLastClosing(body, chunkEnd), matches);
      if UpToLastClosing(body, chunkEnd) == [] {
        assert Filter([], matches) == [];
      }
      if ClosingLinesMatch(matches, chunkEnd) {
        GroupShape(body, matches, chunkEnd, []);
      }
    }
  }

  /** A closing-tag line that does not match still ends its group, but the
      group then lacks it. */
  lemma UnmatchedClosingLine(matches: string -> bool)
    requires matches("<a>") && !matches("</m>")
    ensures Chunk(["h1", "h2", "<a>", "</m>"], matches, "</m>") == Success([["<a>"]])
  {
    var lines := ["h1", "h2", "<a>", "</m>"];
    assert lines[2..] == ["<a>", "</m>"];
    assert Contains("</m>", "</m>") by {
      assert "</m>" <= "</m>"[0..];
    }
    assert !Contains("<a>", "</m>") by {
      forall i | 0 <= i <= 3
        ensures !("</m>" <= "<a>"[i..])
      {
      }
    }
    assert ["<a>", "</m>"][1..] == ["</m>"];
    assert ["</m>"][1..] == [];
    assert UntilEmpty(lines[2..]) == ["<a>", "</m>"];
    var none: seq<string> := [];
    assert none + ["<a>"] == ["<a>"];
    assert ["<a>"] + none == ["<a>"];
    assert Group(["<a>", "</m>"], matches, "</m>", []) == Group(["</m>"], matches, "</m>", ["<a>"]);
    assert Group(none, matches, "</m>", []) == [];
    assert Group(["</m>"], matches, "</m>", ["<a>"]) == [["<a>"]] + Group(none, matches, "</m>", []);
    var groups: seq<seq<string>> := [];
    assert [["<a>"]] + groups == [["<a>"]];
    assert Chunk(lines, matches, "</m>") == Success(Group(["<a>", "</m>"], matches, "</m>", []));
  }
}
