/** The line classifier and summary builder `generate_summary`, which both
    helper scripts carry as identical copies. The text of
    `git diff --cached <path>` is a parameter here; running Git is not
    part of this model. */
module DiffSummary {
  import opened Text

  /** The three lists the summary is built from. */
  datatype Bucket = Added | Modified | Deleted

  /** Where one diff line goes: into a bucket with the text kept for it,
      or nowhere. */
  datatype Route = Keep(bucket: Bucket, text: string) | Drop

  /** The routing of one line of `git diff` output. */
  function Classify(line: string): (r: Route)
    ensures r.Keep? ==> |line| > 0
    ensures r.Keep? && r.bucket == Added <==> |line| > 0 && line[0] == '+' && !("+++" <= line)
    ensures r.Keep? && r.bucket == Deleted <==> |line| > 0 && line[0] == '-' && !("---" <= line)
    ensures r.Keep? && r.bucket == Modified <==> |line| > 0 && line[0] == ' '
    ensures r.Keep? && r.bucket != Deleted ==> r.text == line[1..]
    ensures r.Keep? && r.bucket == Deleted ==> r.text == "Removed " + line[1..]
  {
    if "+" <= line && !("+++" <= line) then Keep(Added, line[1..])
    else if "-" <= line && !("---" <= line) then Keep(Deleted, "Removed " + line[1..])
    else if " " <= line && !("@@" <= line) then Keep(Modified, line[1..])
    else Drop
  }

  /** What one line contributes to bucket `b`: nothing, or one entry. */
  function Contribution(line: string, b: Bucket): seq<string> {
    var r := Classify(line);
    if r.Keep? && r.bucket == b then [r.text] else []
  }

  /** The contents of bucket `b` after the classifying loop has read `lines`,
      in the order the lines were read. */
  function BucketLines(lines: seq<string>, b: Bucket): seq<string> {
    if |lines| == 0 then []
    else BucketLines(lines[..|lines| - 1], b) + Contribution(lines[|lines| - 1], b)
  }

  /** A section under its heading line, or nothing when the joined bucket
      text is empty. */
  function Section(heading: string, body: string): string {
    if body == "" then "" else heading + body + "\n\n"
  }

  /** The summary built from the three joined bucket texts. */
  function Render(added: string, modified: string, deleted: string): string {
    Strip(Section("Added:\n", added) + Section("Modified:\n", modified) + Section("Deleted:\n", deleted))
  }

  /** The summary of a diff text, as `generate_summary` computes it. */
  function SummaryOf(diff: string): string {
    var lines := Split(diff, '\n');
    Render(Join(BucketLines(lines, Added), '\n'),
           Join(BucketLines(lines, Modified), '\n'),
           Join(BucketLines(lines, Deleted), '\n'))
  }

  /** `generate_summary`: the classifying loop over the lines of the diff,
      then the assembly of the sections. */
  method GenerateSummary(diff: string) returns (summary: string)
    ensures summary == SummaryOf(diff)
  {
    var addedLines, modifiedLines, deletedLines := ClassifyLines(Split(diff, '\n'));
    var addedSummary := Join(addedLines, '\n');
    var modifiedSummary := Join(modifiedLines, '\n');
    var deletedSummary := Join(deletedLines, '\n');
    ghost var expected := Render(addedSummary, modifiedSummary, deletedSummary);
    assert SummaryOf(diff) == expected;
    summary := "";
    AppendSection(summary, "Added:\n", addedSummary);
    if addedSummary != "" {
      summary := summary + "Added:\n" + addedSummary + "\n\n";
    }
    assert summary == Section("Added:\n", addedSummary);
    AppendSection(summary, "Modified:\n", modifiedSummary);
    if modifiedSummary != "" {
      summary := summary + "Modified:\n" + modifiedSummary + "\n\n";
    }
    assert summary == Section("Added:\n", addedSummary) + Section("Modified:\n", modifiedSummary);
    AppendSection(summary, "Deleted:\n", deletedSummary);
    if deletedSummary != "" {
      summary := summary + "Deleted:\n" + deletedSummary + "\n\n";
    }
    assert summary == Section("Added:\n", addedSummary) + Section("Modified:\n", modifiedSummary)
                      + Section("Deleted:\n", deletedSummary);
    summary := Strip(summary);
  }

  /** Appending a section with `summary +=` when its body is non-empty. */
  lemma AppendSection(prefix: string, heading: string, body: string)
    ensures (if body != "" then prefix + heading + body + "\n\n" else prefix) == prefix + Section(heading, body)
  {
  }

  /** The loop of `generate_summary` that appends each line of the diff to
      the bucket it is routed to. */
  method ClassifyLines(lines: seq<string>)
    returns (addedLines: seq<string>, modifiedLines: seq<string>, deletedLines: seq<string>)
    ensures addedLines == BucketLines(lines, Added)
    ensures modifiedLines == BucketLines(lines, Modified)
    ensures deletedLines == BucketLines(lines, Deleted)
  {
    addedLines, modifiedLines, deletedLines := [], [], [];
    var i := 0;
    while i < |lines|
      invariant 0 <= i <= |lines|
      invariant addedLines == BucketLines(lines[..i], Added)
      invariant modifiedLines == BucketLines(lines[..i], Modified)
      invariant deletedLines == BucketLines(lines[..i], Deleted)
    {
      var line := lines[i];
      BucketLinesStep(lines, i, Added);
      BucketLinesStep(lines, i, Modified);
      BucketLinesStep(lines, i, Deleted);
      if "+" <= line && !("+++" <= line) {
        addedLines := addedLines + [line[1..]];
      } else if "-" <= line && !("---" <= line) {
        deletedLines := deletedLines + ["Removed " + line[1..]];
      } else if " " <= line && !("@@" <= line) {
        modifiedLines := modifiedLines + [line[1..]];
      }
      i := i + 1;
    }
    assert lines[..i] == lines;
  }

  /** One more line read extends each bucket by that line's contribution. */
  lemma BucketLinesStep(lines: seq<string>, i: nat, b: Bucket)
    requires i < |lines|
    ensures BucketLines(lines[..i + 1], b) == BucketLines(lines[..i], b) + Contribution(lines[i], b)
  {
    assert lines[..i + 1][..i] == lines[..i];
  }

  /** Each bucket keeps the input order of its lines: reading two runs of
      lines one after the other fills the bucket with the first run's
      entries followed by the second's. */
  lemma {:induction false} BucketLinesAppend(xs: seq<string>, ys: seq<string>, b: Bucket)
    ensures BucketLines(xs + ys, b) == BucketLines(xs, b) + BucketLines(ys, b)
    decreases |ys|
  {
    if |ys| == 0 {
      assert xs + ys == xs;
    } else {
      var ys' := ys[..|ys| - 1];
      var last := ys[|ys| - 1];
      var zs := xs + ys;
      assert zs[..|zs| - 1] == xs + ys';
      assert zs[|zs| - 1] == last;
      assert BucketLines(zs, b) == BucketLines(xs + ys', b) + Contribution(last, b);
      BucketLinesAppend(xs, ys', b);
      assert BucketLines(ys, b) == BucketLines(ys', b) + Contribution(last, b);
    }
  }

  /** One line fills exactly the bucket it is routed to. */
  lemma BucketLinesOne(line: string, b: Bucket)
    ensures BucketLines([line], b) == Contribution(line, b)
  {
    assert [line][..0] == [];
  }

  /** Every entry of a bucket comes from some line routed to that bucket,
      and no bucket is longer than the input. */
  lemma {:induction false} BucketLinesSource(lines: seq<string>, b: Bucket)
    ensures |BucketLines(lines, b)| <= |lines|
    ensures forall e :: e in BucketLines(lines, b) ==>
              exists j :: 0 <= j < |lines| && Classify(lines[j]) == Keep(b, e)
    decreases |lines|
  {
    if |lines| > 0 {
      var init := lines[..|lines| - 1];
      BucketLinesSource(init, b);
      forall e | e in BucketLines(lines, b)
        ensures exists j :: 0 <= j < |lines| && Classify(lines[j]) == Keep(b, e)
      {
        if e in BucketLines(init, b) {
          var j :| 0 <= j < |init| && Classify(init[j]) == Keep(b, e);
          assert lines[j] == init[j];
        } else {
          assert Classify(lines[|lines| - 1]) == Keep(b, e);
        }
      }
    }
  }

  /** A diff given as a list of lines (none holding a newline) is summarised
      from the buckets of exactly those lines. */
  lemma SummaryOfLines(lines: seq<string>)
    requires |lines| >= 1
    requires forall i :: 0 <= i < |lines| ==> '\n' !in lines[i]
    ensures SummaryOf(Join(lines, '\n')) ==
            Render(Join(BucketLines(lines, Added), '\n'),
                   Join(BucketLines(lines, Modified), '\n'),
                   Join(BucketLines(lines, Deleted), '\n'))
  {
    SplitJoin(lines, '\n');
  }

  /** The summary is empty exactly when all three joined buckets are empty,
      and it never starts or ends with whitespace. */
  lemma RenderEmpty(added: string, modified: string, deleted: string)
    ensures var r := Render(added, modified, deleted);
      (r == "" <==> added == "" && modified == "" && deleted == "") &&
      (r == "" || (!IsSpace(r[0]) && !IsSpace(r[|r| - 1])))
  {
    var s := Section("Added:\n", added) + Section("Modified:\n", modified) + Section("Deleted:\n", deleted);
    if added != "" {
      assert s[0] == 'A';
    } else if modified != "" {
      assert s[0] == 'M';
    } else if deleted != "" {
      assert s[0] == 'D';
    } else {
      assert s == "";
    }
  }

  /** Sections come in the order Added, Modified, Deleted: the summary opens
      with the heading of the first bucket whose joined text is non-empty. */
  lemma RenderOrder(added: string, modified: string, deleted: string)
    ensures var r := Render(added, modified, deleted);
      (added != "" ==> "Added:" <= r) &&
      (added == "" && modified != "" ==> "Modified:" <= r) &&
      (added == "" && modified == "" && deleted != "" ==> "Deleted:" <= r)
  {
    var s := Section("Added:\n", added) + Section("Modified:\n", modified) + Section("Deleted:\n", deleted);
    if added != "" {
      assert "Added:" <= s;
      StripKeepsPrefix("Added:", s);
    } else if modified != "" {
      assert "Modified:" <= s;
      StripKeepsPrefix("Modified:", s);
    } else if deleted != "" {
      assert "Deleted:" <= s;
      StripKeepsPrefix("Deleted:", s);
    }
  }

  /** Whichever buckets have text, the summary is their sections in the
      order Added, Modified, Deleted, less the blank line after the last
      one, provided the last non-empty bucket ends in non-whitespace. */
  lemma RenderSections(added: string, modified: string, deleted: string)
    requires added != "" || modified != "" || deleted != ""
    requires var last := if deleted != "" then deleted else if modified != "" then modified else added;
      !IsSpace(last[|last| - 1])
    ensures Render(added, modified, deleted) + "\n\n" ==
              Section("Added:\n", added) + Section("Modified:\n", modified) + Section("Deleted:\n", deleted)
  {
    var a, m := Section("Added:\n", added), Section("Modified:\n", modified);
    if deleted != "" {
      assert a + m == "" || (a + m)[0] == 'A' || (a + m)[0] == 'M';
      assert a + m + Section("Deleted:\n", deleted) == a + m + "Deleted:\n" + deleted + "\n\n";
      LastSection(a + m, "Deleted:\n", deleted);
    } else if modified != "" {
      assert a + m + "" == a + "Modified:\n" + modified + "\n\n";
      LastSection(a, "Modified:\n", modified);
    } else {
      assert a + m + "" == "" + "Added:\n" + added + "\n\n";
      LastSection("", "Added:\n", added);
    }
  }

  /** Sections before a last one whose body ends in non-whitespace: stripping
      removes only the blank line after that last section. */
  lemma LastSection(prefix: string, heading: string, body: string)
    requires heading != "" && !IsSpace(heading[0])
    requires prefix == "" || !IsSpace(prefix[0])
    requires body != "" && !IsSpace(body[|body| - 1])
    ensures Strip(prefix + heading + body + "\n\n") + "\n\n" == prefix + heading + body + "\n\n"
  {
    var u := prefix + heading + body;
    assert u[0] == if prefix == "" then heading[0] else prefix[0];
    assert u[|u| - 1] == body[|body| - 1];
    StripTrailing(u, "\n\n");
  }

  /** When all three buckets have text, and the deleted lines end in
      non-whitespace, the summary is the three sections in the order Added,
      Modified, Deleted, separated by blank lines. */
  lemma RenderAll(added: string, modified: string, deleted: string)
    requires added != "" && modified != "" && deleted != ""
    requires !IsSpace(deleted[|deleted| - 1])
    ensures Render(added, modified, deleted) ==
              "Added:\n" + added + "\n\nModified:\n" + modified + "\n\nDeleted:\n" + deleted
  {
    var u := "Added:\n" + added + "\n\nModified:\n" + modified + "\n\nDeleted:\n" + deleted;
    assert Section("Added:\n", added) + Section("Modified:\n", modified) + Section("Deleted:\n", deleted)
      == u + "\n\n";
    assert u[0] == 'A';
    assert u[|u| - 1] == deleted[|deleted| - 1];
    StripTrailing(u, "\n\n");
  }

  /** When only one bucket has text, and that text ends in non-whitespace,
      the summary is that bucket's section without the blank line after it. */
  lemma RenderSingle(body: string)
    requires body != "" && !IsSpace(body[|body| - 1])
    ensures Render(body, "", "") == "Added:\n" + body
    ensures Render("", body, "") == "Modified:\n" + body
    ensures Render("", "", body) == "Deleted:\n" + body
  {
    SectionAlone("Added:\n", body);
    SectionAlone("Modified:\n", body);
    SectionAlone("Deleted:\n", body);
    assert Section("Added:\n", body) + Section("Modified:\n", "") + Section("Deleted:\n", "")
      == Section("Added:\n", body);
    assert Section("Added:\n", "") + Section("Modified:\n", body) + Section("Deleted:\n", "")
      == Section("Modified:\n", body);
    assert Section("Added:\n", "") + Section("Modified:\n", "") + Section("Deleted:\n", body)
      == Section("Deleted:\n", body);
  }

  /** A section whose heading starts and whose body ends with non-whitespace
      loses only its closing blank line to stripping. */
  lemma SectionAlone(heading: string, body: string)
    requires heading != "" && !IsSpace(heading[0])
    requires body != "" && !IsSpace(body[|body| - 1])
    ensures Strip(Section(heading, body)) == heading + body
  {
    var u := heading + body;
    assert u[0] == heading[0];
    assert u[|u| - 1] == body[|body| - 1];
    StripTrailing(u, "\n\n");
  }

  /** A lone `+` line adds an empty entry, which joins to the empty text,
      so no Added section appears and the summary is empty. */
  lemma LonePlusGivesNoSection()
    ensures BucketLines(["+"], Added) == [""]
    ensures SummaryOf("+") == ""
  {
    SummaryOfLines(["+"]);
    BucketLinesOne("+", Added);
    BucketLinesOne("+", Modified);
    BucketLinesOne("+", Deleted);
    assert Classify("+") == Keep(Added, "");
    RenderEmpty("", "", "");
  }

  /** A run of lines that are all dropped leaves every bucket empty. */
  lemma {:induction false} BucketLinesDropped(lines: seq<string>, b: Bucket)
    requires forall i :: 0 <= i < |lines| ==> Classify(lines[i]) == Drop
    ensures BucketLines(lines, b) == []
    decreases |lines|
  {
    if |lines| > 0 {
      BucketLinesDropped(lines[..|lines| - 1], b);
    }
  }
}
