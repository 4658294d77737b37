/** The two-stage narrative pipeline `generate_change_message`: for each
    file that differs between two versions of a repository it asks the
    completion backend why the file was changed, asks it again to restate
    that answer in the author's own voice, and records the restated answer
    without its first line. The repository is given as a value (the working
    tree and the tree of every commit the repository can resolve), the list
    of changed paths as Git computed it, and the backend as the sequence of
    outcomes of its successive calls. */
module ChangeMessage {
  import opened Text

  type Path = string

  /** The files of one version, by path; a path that is not a key does not
      exist in that version. */
  type Tree = map<Path, string>

  /** The pseudo-version naming the files as they are on disk. */
  const Staged: string := "STAGED"

  /** What stands in for the contents of a file a version does not have. */
  const Missing: string := "File does not exist in this version of the repository."

  /** The working tree, and the tree of each version name `repo.commit`
      resolves (`HEAD`, `HEAD~n`, hashes, branch names). */
  datatype Repository = Repository(workingTree: Tree, commits: map<string, Tree>)

  /** One call of the completion backend: the text of its first choice, a
      `RateLimitError`, or any other exception. */
  datatype Outcome = Answer(text: string) | RateLimited | Failure

  /** Why `generate_change_message` raises instead of returning. */
  datatype Error =
    | BeforeIsStaged           // the first assertion
    | SameVersions             // the second assertion
    | UnknownVersion(version: string)  // `repo.commit` cannot resolve the name
    | BackendFailure           // an exception other than `RateLimitError`

  datatype Result<T> = Ok(value: T) | Err(error: Error)

  /** The `file_texts` dictionary: its keys in insertion order, and the
      value stored under each. */
  datatype FileTexts = FileTexts(order: seq<Path>, text: map<Path, string>)

  /** What the call returns: the dictionary, or with `return_prompts` the
      dictionary and the list of every prompt sent. */
  datatype Reply = Texts(texts: FileTexts) | TextsAndPrompts(texts: FileTexts, prompts: seq<string>)

  // ---------------------------------------------------------------------
  // Post-processing of the refined answer

  /** The index of the first newline at or after `from`, or `|s|` when
      there is none. */
  function LineEnd(s: string, from: nat): (e: nat)
    requires from <= |s|
    ensures from <= e <= |s|
    ensures e == |s| || s[e] == '\n'
    decreases |s| - from
  {
    if from < |s| && s[from] != '\n' then LineEnd(s, from + 1) else from
  }

  /** No newline is skipped on the way to the end of the line. */
  lemma {:induction false} LineEndScans(s: string, from: nat)
    requires from <= |s|
    ensures forall k :: from <= k < LineEnd(s, from) ==> s[k] != '\n'
    decreases |s| - from
  {
    if from < |s| && s[from] != '\n' {
      LineEndScans(s, from + 1);
    }
  }

  /** The line of a text made of a newline-free head, a newline and a tail
      ends where the head does. */
  lemma {:induction false} LineEndAtHead(h: string, t: string, from: nat)
    requires '\n' !in h && from <= |h|
    ensures LineEnd(h + "\n" + t, from) == |h|
    decreases |h| - from
  {
    var s := h + "\n" + t;
    if from < |h| {
      assert s[from] == h[from];
      LineEndAtHead(h, t, from + 1);
    } else {
      assert s[from] == '\n';
    }
  }

  /** `remove_first_line`: the text after the first newline, or the empty
      text when there is none. */
  function RemoveFirstLine(s: string): string
  {
    var e := LineEnd(s, 0);
    if e == |s| then "" else s[e + 1..]
  }

  /** What `remove_first_line` leaves: nothing when the text is one line,
      and otherwise exactly what follows the first newline. */
  lemma RemoveFirstLineSplitsAtNewline(s: string)
    ensures '\n' !in s ==> RemoveFirstLine(s) == ""
    ensures '\n' in s ==>
              var r := RemoveFirstLine(s);
              |r| < |s| && s == s[..|s| - |r| - 1] + "\n" + r && '\n' !in s[..|s| - |r| - 1]
  {
    var e := LineEnd(s, 0);
    LineEndScans(s, 0);
    if e < |s| {
      assert s == s[..e] + "\n" + s[e + 1..];
      assert forall k :: 0 <= k < e ==> s[..e][k] != '\n';
    } else {
      assert forall k :: 0 <= k < |s| ==> s[k] != '\n';
    }
  }

  /** `remove_first_line` as the source writes it: split at newlines, drop
      the first piece, join the rest with newlines. */
  lemma RemoveFirstLineIsSplitJoin(s: string)
    ensures RemoveFirstLine(s) == Join(Split(s, '\n')[1..], '\n')
  {
    var lines := Split(s, '\n');
    JoinSplit(s, '\n');
    RemoveFirstLineSplitsAtNewline(s);
    if |lines| > 1 {
      assert Join(lines, '\n') == lines[0] + "\n" + Join(lines[1..], '\n');
      var r := RemoveFirstLine(s);
      var head := s[..|s| - |r| - 1];
      assert s == lines[0] + "\n" + Join(lines[1..], '\n');
      NewlineSplitUnique(head, r, lines[0], Join(lines[1..], '\n'));
    }
  }

  /** A text cut at its first newline has one head. */
  lemma NewlineSplitUnique(h1: string, t1: string, h2: string, t2: string)
    requires h1 + "\n" + t1 == h2 + "\n" + t2
    requires '\n' !in h1 && '\n' !in h2
    ensures h1 == h2 && t1 == t2
  {
    var s := h1 + "\n" + t1;
    LineEndAtHead(h1, t1, 0);
    LineEndAtHead(h2, t2, 0);
    assert h1 == s[..|h1|] == h2;
    assert t1 == s[|h1| + 1..] == t2;
  }

  /** A scaffold line such as "Here's a rewritten version:" in front of the
      answer is removed, and nothing else is touched. */
  lemma RemoveFirstLineDropsHeader(header: string, body: string)
    requires '\n' !in header
    ensures RemoveFirstLine(header + "\n" + body) == body
  {
    var s := header + "\n" + body;
    assert s[|header|] == '\n';
    RemoveFirstLineSplitsAtNewline(s);
    var r := RemoveFirstLine(s);
    NewlineSplitUnique(s[..|s| - |r| - 1], r, header, body);
  }

  // ---------------------------------------------------------------------
  // Content lookup

  /** The files a resolvable version stands for: the working tree for
      `STAGED`, the commit's tree otherwise. */
  predicate Resolves(repo: Repository, version: string) {
    version == Staged || version in repo.commits
  }

  function TreeAt(repo: Repository, version: string): Tree
    requires Resolves(repo, version)
  {
    if version == Staged then repo.workingTree else repo.commits[version]
  }

  /** `get_file_contents` (with `get_current_file_contents` for `STAGED`)
      on the files of a resolved version: the file's text, or the
      placeholder sentence when the version has no such file. */
  function FileContents(tree: Tree, path: Path): string {
    if path in tree then tree[path] else Missing
  }

  // ---------------------------------------------------------------------
  // Prompt templates

  /** The question asked about one file, naming it by its base name. */
  function ComparisonQuery(path: Path): string {
    "Those are the changes of a file " + Basename(path) + " in my project (before and after). "
    + "What could be the reason those changes were made? "
    + "Use a single listing with possible reasons in your answer "
    + "without any other paragraphs. Focus on the reasons of the changes "
    + "and not on the changes themselves. Keep it short."
  }

  /** The first prompt for one file: the question, then the file before and
      after the change under their headings. */
  function ComparisonPrompt(path: Path, before: string, after: string): string
  {
    ComparisonQuery(path) + "\n\n\nBEFORE CHANGES:\n" + before + "\n\n\nAFTER CHANGES:\n" + after
  }

  /** The comparison prompt opens with the question naming the file and
      ends with the file after the change, under its heading; the file
      before the change sits between the two headings. */
  lemma ComparisonPromptReadBack(path: Path, before: string, after: string)
    ensures var prompt := ComparisonPrompt(path, before, after);
      var query := ComparisonQuery(path);
      |prompt| == |query| + 19 + |before| + 18 + |after| &&
      prompt[..|query|] == query &&
      prompt[|query| + 19..|query| + 19 + |before|] == before &&
      prompt[|prompt| - |after|..] == after
  {
    FramedReadBack(ComparisonQuery(path), "\n\n\nBEFORE CHANGES:\n", before, "\n\n\nAFTER CHANGES:\n", after);
  }

  /** The parts of a text made of a query, a heading, a body, a second
      heading and a second body can be read back by their lengths. */
  lemma FramedReadBack(query: string, heading1: string, body1: string, heading2: string, body2: string)
    ensures var s := query + heading1 + body1 + heading2 + body2;
      |s| == |query| + |heading1| + |body1| + |heading2| + |body2| &&
      s[..|query|] == query &&
      s[|query| + |heading1|..|query| + |heading1| + |body1|] == body1 &&
      s[|s| - |body2|..] == body2
  {
    var head := query + heading1;
    var s := query + heading1 + body1 + heading2 + body2;
    assert s == head + body1 + (heading2 + body2);
    assert s[..|query|] == head[..|query|];
    assert s[|head|..|head| + |body1|] == body1;
  }

  /** The instruction to restate an answer in the author's voice. The two
      literals it is made of are joined without a space, as in the source. */
  const RefineQuery: string :=
    "Reformulate the following so that it doesn't seem as if the writer "
    + "comments on someone else's work but instead comments on his own work "
    + "(and of course knows why he did what he did). For example, 'suggests' "
    + "or 'may have been' is a bad formulation for my cause."
    + "No need for full sentences and make it so I can copy paste it."

  /** The second prompt for one file: the instruction, a blank line, and the
      answer to the first prompt. */
  function RefinementPrompt(answer: string): string
  {
    RefineQuery + "\n\n" + answer
  }

  /** The answer can be read back from the refinement prompt, after the
      instruction and the blank line. */
  lemma RefinementPromptReadBack(answer: string)
    ensures RefineQuery <= RefinementPrompt(answer)
    ensures |RefinementPrompt(answer)| == |RefineQuery| + 2 + |answer|
    ensures RefinementPrompt(answer)[|RefineQuery| + 2..] == answer
  {
    var prompt := RefinementPrompt(answer);
    assert prompt == RefineQuery + ("\n\n" + answer);
    assert prompt[..|RefineQuery|] == RefineQuery;
  }

  /** Different answers give different refinement prompts. */
  lemma RefinementPromptInjective(a: string, b: string)
    requires RefinementPrompt(a) == RefinementPrompt(b)
    ensures a == b
  {
    RefinementPromptReadBack(a);
    RefinementPromptReadBack(b);
  }

  // ---------------------------------------------------------------------
  // The pipeline

  /** The narrative recorded for a file: the refined answer stripped and
      without its first line. */
  function Narrative(refined: string): string {
    RemoveFirstLine(Strip(refined))
  }

  /** How the loop turns files and answers into prompts and narratives: the
      comparison prompt of a file from its path and its two contents, the
      refinement prompt from a kept answer, the answer kept from a
      comparison reply, and the narrative kept from a refinement reply. */
  datatype Templates = Templates(comparison: (Path, string, string) -> string,
                                 refinement: string -> string,
                                 answer: string -> string,
                                 narrative: string -> string)

  /** The templates `generate_change_message` uses. */
  const SourceTemplates: Templates := Templates(ComparisonPrompt, RefinementPrompt, Strip, Narrative)

  /** The index of the first of the first `calls` backend calls that did not
      answer, or `calls` when they all answered. */
  function FirstRefusal(backend: seq<Outcome>, calls: nat): (i: nat)
    requires calls <= |backend|
    ensures i <= calls
    ensures forall j :: 0 <= j < i ==> backend[j].Answer?
    ensures i < calls ==> !backend[i].Answer?
  {
    if calls == 0 then 0
    else
      var i := FirstRefusal(backend, calls - 1);
      if i < calls - 1 || !backend[calls - 1].Answer? then i else calls
  }

  /** Once the calls before `m` all answered and call `m` did not, the
      first refusal among any longer run of calls is `m`. */
  lemma {:induction false} FirstRefusalStops(backend: seq<Outcome>, m: nat, calls: nat)
    requires m < calls <= |backend|
    requires FirstRefusal(backend, m) == m && !backend[m].Answer?
    ensures FirstRefusal(backend, calls) == m
    decreases calls
  {
    if calls > m + 1 {
      FirstRefusalStops(backend, m, calls - 1);
    }
  }

  // ---------------------------------------------------------------------
  // The dictionary of narratives

  /** `file_texts[file_path] = ...`: a new key goes to the end, an existing
      key keeps its place and gets the new value. */
  function Store(texts: FileTexts, path: Path, narrative: string): FileTexts {
    FileTexts(if path in texts.text then texts.order else texts.order + [path],
              texts.text[path := narrative])
  }

  /** The first `n` paths in order of first occurrence: the key order of a
      dictionary filled by assigning to these paths in turn. */
  function Distinct(paths: seq<Path>, n: nat): seq<Path>
    requires n <= |paths|
  {
    if n == 0 then []
    else
      var init := Distinct(paths, n - 1);
      if paths[n - 1] in init then init else init + [paths[n - 1]]
  }

  /** The key order holds each of the first `n` paths, and nothing else. */
  lemma {:induction false} DistinctMembers(paths: seq<Path>, n: nat, p: Path)
    requires n <= |paths|
    ensures p in Distinct(paths, n) <==> p in paths[..n]
  {
    if n > 0 {
      DistinctMembers(paths, n - 1, p);
      assert paths[..n] == paths[..n - 1] + [paths[n - 1]];
    }
  }

  predicate NoDuplicates(paths: seq<Path>) {
    forall a, b :: 0 <= a < b < |paths| ==> paths[a] != paths[b]
  }

  /** The key order holds no path twice. */
  lemma {:induction false} DistinctUnique(paths: seq<Path>, n: nat)
    requires n <= |paths|
    ensures NoDuplicates(Distinct(paths, n))
  {
    if n > 0 {
      DistinctUnique(paths, n - 1);
    }
  }

  /** Without repeated paths the key order is the order of the paths. */
  lemma {:induction false} DistinctNoDuplicates(paths: seq<Path>, n: nat)
    requires n <= |paths| && NoDuplicates(paths)
    ensures Distinct(paths, n) == paths[..n]
  {
    if n > 0 {
      DistinctNoDuplicates(paths, n - 1);
      assert paths[n - 1] !in paths[..n - 1];
      assert paths[..n - 1] + [paths[n - 1]] == paths[..n];
    }
  }

  /** The dictionary after the first `k` files have had both their calls
      answered: file `j` recorded the narrative kept from call `2 * j + 1`. */
  function Recorded(changed: seq<Path>, backend: seq<Outcome>, t: Templates, k: nat): FileTexts
    requires k <= |changed| && 2 * k <= |backend|
    requires forall j :: 0 <= j < k ==> backend[2 * j + 1].Answer?
  {
    if k == 0 then FileTexts([], map[])
    else Store(Recorded(changed, backend, t, k - 1), changed[k - 1], t.narrative(backend[2 * k - 1].text))
  }

  /** Its keys are the recorded paths, listed once each in order of first
      occurrence. */
  lemma {:induction false} RecordedKeys(changed: seq<Path>, backend: seq<Outcome>, t: Templates, k: nat)
    requires k <= |changed| && 2 * k <= |backend|
    requires forall j :: 0 <= j < k ==> backend[2 * j + 1].Answer?
    ensures Recorded(changed, backend, t, k).order == Distinct(changed, k)
    ensures forall p :: p in Recorded(changed, backend, t, k).text <==> p in Distinct(changed, k)
  {
    if k > 0 {
      RecordedKeys(changed, backend, t, k - 1);
    }
  }

  /** Among the first `n` paths, index `j` holds the last occurrence of its
      path. */
  predicate LastOccurrence(paths: seq<Path>, n: nat, j: nat)
    requires j < n <= |paths|
  {
    forall j' :: j < j' < n ==> paths[j'] != paths[j]
  }

  /** Each path holds the narrative kept from the refinement reply of the
      last file recorded under it. */
  lemma {:induction false} RecordedValue(changed: seq<Path>, backend: seq<Outcome>, t: Templates, k: nat, j: nat)
    requires k <= |changed| && 2 * k <= |backend|
    requires forall j :: 0 <= j < k ==> backend[2 * j + 1].Answer?
    requires j < k && LastOccurrence(changed, k, j)
    ensures changed[j] in Recorded(changed, backend, t, k).text
    ensures Recorded(changed, backend, t, k).text[changed[j]] == t.narrative(backend[2 * j + 1].text)
  {
    if j < k - 1 {
      assert changed[k - 1] != changed[j];
      RecordedValue(changed, backend, t, k - 1, j);
    }
  }

  /** With the source's templates, each path holds the refined answer of
      the last file recorded under it, stripped and without its first line. */
  lemma SourceNarrative(changed: seq<Path>, backend: seq<Outcome>, k: nat, j: nat)
    requires k <= |changed| && 2 * k <= |backend|
    requires forall j :: 0 <= j < k ==> backend[2 * j + 1].Answer?
    requires j < k && LastOccurrence(changed, k, j)
    ensures changed[j] in Recorded(changed, backend, SourceTemplates, k).text
    ensures Recorded(changed, backend, SourceTemplates, k).text[changed[j]] ==
              RemoveFirstLine(Strip(backend[2 * j + 1].text))
  {
    RecordedValue(changed, backend, SourceTemplates, k, j);
  }

  /** Without repeated paths the dictionary lists the recorded paths in the
      order they were processed. */
  lemma RecordedInOrder(changed: seq<Path>, backend: seq<Outcome>, t: Templates, k: nat)
    requires k <= |changed| && 2 * k <= |backend| && NoDuplicates(changed)
    requires forall j :: 0 <= j < k ==> backend[2 * j + 1].Answer?
    ensures Recorded(changed, backend, t, k).order == changed[..k]
  {
    RecordedKeys(changed, backend, t, k);
    DistinctNoDuplicates(changed, k);
  }

  // ---------------------------------------------------------------------
  // The trace of prompts

  /** The comparison prompt of one file between two versions. */
  function ComparisonFor(t: Templates, before: Tree, after: Tree, path: Path): string {
    t.comparison(path, FileContents(before, path), FileContents(after, path))
  }

  /** The contents of a file in a resolved version: the working tree's for
      `STAGED`, the commit's otherwise, and the placeholder sentence when
      that tree has no such file. */
  lemma ContentsAt(repo: Repository, version: string, path: Path)
    requires Resolves(repo, version)
    ensures version == Staged ==>
              FileContents(TreeAt(repo, version), path) ==
                (if path in repo.workingTree then repo.workingTree[path] else Missing)
    ensures version != Staged ==>
              FileContents(TreeAt(repo, version), path) ==
                (if path in repo.commits[version] then repo.commits[version][path] else Missing)
  {
  }

  /** With the source's templates, the comparison prompt of a file is built
      from its contents in each version, or from the placeholder sentence
      for a version without the file. */
  lemma SourceComparisonShowsContents(before: Tree, after: Tree, path: Path)
    ensures ComparisonFor(SourceTemplates, before, after, path) ==
              ComparisonPrompt(path, if path in before then before[path] else Missing,
                               if path in after then after[path] else Missing)
  {
  }

  /** The prompts sent for the first `k` files once their comparison calls
      answered: for each, its comparison prompt, then the refinement prompt
      of the answer kept. */
  function Sent(changed: seq<Path>, backend: seq<Outcome>, before: Tree, after: Tree, t: Templates,
                k: nat): (prompts: seq<string>)
    requires k <= |changed| && 2 * k <= |backend|
    requires forall j :: 0 <= j < k ==> backend[2 * j].Answer?
    ensures |prompts| == 2 * k
  {
    if k == 0 then []
    else
      Sent(changed, backend, before, after, t, k - 1)
      + [ComparisonFor(t, before, after, changed[k - 1])]
      + [t.refinement(t.answer(backend[2 * (k - 1)].text))]
  }

  /** Prompt `2 * j` is the comparison prompt of file `j`, and prompt
      `2 * j + 1` the refinement prompt of the answer kept from call
      `2 * j`. */
  lemma {:induction false} SentAt(changed: seq<Path>, backend: seq<Outcome>, before: Tree, after: Tree,
                                  t: Templates, k: nat, j: nat)
    requires k <= |changed| && 2 * k <= |backend|
    requires forall j :: 0 <= j < k ==> backend[2 * j].Answer?
    requires j < k
    ensures Sent(changed, backend, before, after, t, k)[2 * j] == ComparisonFor(t, before, after, changed[j])
    ensures Sent(changed, backend, before, after, t, k)[2 * j + 1] == t.refinement(t.answer(backend[2 * j].text))
  {
    if j < k - 1 {
      SentAt(changed, backend, before, after, t, k - 1, j);
    }
  }

  /** Every prompt sent when the first refusal is call `i` of the
      `2 * |changed|` calls: the two prompts of each file whose comparison
      answered and, when call `i` is a comparison, its prompt too: one
      prompt per call made, the refused one included. */
  function Trace(changed: seq<Path>, backend: seq<Outcome>, before: Tree, after: Tree, t: Templates,
                 i: nat): (prompts: seq<string>)
    requires i <= 2 * |changed| <= |backend|
    requires forall c :: 0 <= c < i ==> backend[c].Answer?
    ensures |prompts| == if i < 2 * |changed| then i + 1 else i
  {
    var k := i / 2;
    if i == 2 * |changed| then Sent(changed, backend, before, after, t, k)
    else if i == 2 * k then
      Sent(changed, backend, before, after, t, k) + [ComparisonFor(t, before, after, changed[k])]
    else Sent(changed, backend, before, after, t, k + 1)
  }

  /** In the trace, for file `j`, prompt `2 * j` is its comparison prompt
      and prompt `2 * j + 1` the refinement prompt of the answer kept from
      call `2 * j`. */
  lemma TraceAt(changed: seq<Path>, backend: seq<Outcome>, before: Tree, after: Tree, t: Templates,
                i: nat, j: nat)
    requires i <= 2 * |changed| <= |backend|
    requires forall c :: 0 <= c < i ==> backend[c].Answer?
    ensures 2 * j <= i && j < |changed| ==>
              Trace(changed, backend, before, after, t, i)[2 * j] == ComparisonFor(t, before, after, changed[j])
    ensures 2 * j + 1 <= i ==>
              Trace(changed, backend, before, after, t, i)[2 * j + 1] == t.refinement(t.answer(backend[2 * j].text))
  {
    var k := i / 2;
    if i == 2 * |changed| {
      TraceComplete(changed, backend, before, after, t);
      if j < k {
        SentAt(changed, backend, before, after, t, k, j);
      }
    } else if i == 2 * k {
      TraceAtComparison(changed, backend, before, after, t, k);
      if j < k {
        SentAt(changed, backend, before, after, t, k, j);
      }
    } else {
      TraceAtRefinement(changed, backend, before, after, t, k);
      if j <= k {
        SentAt(changed, backend, before, after, t, k + 1, j);
      }
    }
  }

  /** Refusing the comparison call of file `k` leaves that comparison prompt
      as the last one sent. */
  lemma {:induction false} TraceAtComparison(changed: seq<Path>, backend: seq<Outcome>, before: Tree, after: Tree,
                                             t: Templates, k: nat)
    requires k < |changed| && 2 * |changed| <= |backend|
    requires forall c :: 0 <= c < 2 * k ==> backend[c].Answer?
    ensures Trace(changed, backend, before, after, t, 2 * k) ==
              Sent(changed, backend, before, after, t, k) + [ComparisonFor(t, before, after, changed[k])]
  {
    assert (2 * k) / 2 == k;
  }

  /** Refusing the refinement call of file `k` leaves its refinement prompt
      as the last one sent. */
  lemma {:induction false} TraceAtRefinement(changed: seq<Path>, backend: seq<Outcome>, before: Tree, after: Tree,
                                             t: Templates, k: nat)
    requires k < |changed| && 2 * |changed| <= |backend|
    requires forall c :: 0 <= c < 2 * k + 1 ==> backend[c].Answer?
    ensures Trace(changed, backend, before, after, t, 2 * k + 1) == Sent(changed, backend, before, after, t, k + 1)
  {
    assert (2 * k + 1) / 2 == k;
  }

  /** With no refusal, every file's two prompts were sent. */
  lemma {:induction false} TraceComplete(changed: seq<Path>, backend: seq<Outcome>, before: Tree, after: Tree,
                                         t: Templates)
    requires 2 * |changed| <= |backend|
    requires forall c :: 0 <= c < 2 * |changed| ==> backend[c].Answer?
    ensures Trace(changed, backend, before, after, t, 2 * |changed|) ==
              Sent(changed, backend, before, after, t, |changed|)
  {
    assert (2 * |changed|) / 2 == |changed|;
  }

  /** With the source's templates, the answer kept from each answered
      comparison call can be read back from the refinement prompt that
      follows it in the trace, after the instruction and the blank line. */
  lemma SourceTraceReadBack(changed: seq<Path>, backend: seq<Outcome>, before: Tree, after: Tree,
                            i: nat, j: nat)
    requires i <= 2 * |changed| <= |backend|
    requires forall c :: 0 <= c < i ==> backend[c].Answer?
    requires 2 * j + 1 <= i
    ensures var trace := Trace(changed, backend, before, after, SourceTemplates, i);
      2 * j + 1 < |trace| && |RefineQuery| + 2 <= |trace[2 * j + 1]| &&
      trace[2 * j + 1][|RefineQuery| + 2..] == Strip(backend[2 * j].text)
  {
    TraceAt(changed, backend, before, after, SourceTemplates, i, j);
    RefinementPromptReadBack(Strip(backend[2 * j].text));
  }

  /** A file whose two calls both answered adds its two prompts and its
      narrative, and moves the first refusal past both calls. */
  lemma {:induction false} FileStep(changed: seq<Path>, backend: seq<Outcome>, before: Tree, after: Tree,
                                    t: Templates, k: nat)
    requires k < |changed| && 2 * |changed| <= |backend|
    requires FirstRefusal(backend, 2 * k) == 2 * k
    requires backend[2 * k].Answer? && backend[2 * k + 1].Answer?
    ensures FirstRefusal(backend, 2 * k + 2) == 2 * k + 2
    ensures Sent(changed, backend, before, after, t, k + 1) ==
              Sent(changed, backend, before, after, t, k) + [ComparisonFor(t, before, after, changed[k])]
              + [t.refinement(t.answer(backend[2 * k].text))]
    ensures Recorded(changed, backend, t, k + 1) ==
              Store(Recorded(changed, backend, t, k), changed[k], t.narrative(backend[2 * k + 1].text))
  {
    assert FirstRefusal(backend, 2 * k + 1) == 2 * k + 1;
  }

  // ---------------------------------------------------------------------
  // generate_change_message

  /** The version pair passes both assertions. */
  predicate ValidPair(before: string, after: string) {
    before != Staged && before != after
  }

  /** `generate_change_message`. The assertions are checked first, then the
      two version names are resolved (after before before, as
      `get_changed_files` does), then each changed file is processed in
      turn; the first `RateLimitError` ends the loop and what is recorded so
      far is returned, any other backend exception propagates. */
  method GenerateChangeMessage(repo: Repository, changed: seq<Path>, backend: seq<Outcome>,
                               returnPrompts: bool := false, versionBefore: string := "HEAD",
                               versionAfter: string := Staged)
    returns (r: Result<Reply>)
    requires 2 * |changed| <= |backend|
    ensures versionBefore == Staged ==> r == Err(BeforeIsStaged)
    ensures versionBefore != Staged && versionBefore == versionAfter ==> r == Err(SameVersions)
    ensures ValidPair(versionBefore, versionAfter) && !Resolves(repo, versionAfter) ==>
              r == Err(UnknownVersion(versionAfter))
    ensures (ValidPair(versionBefore, versionAfter) && Resolves(repo, versionAfter) &&
             !Resolves(repo, versionBefore)) ==> r == Err(UnknownVersion(versionBefore))
    ensures (ValidPair(versionBefore, versionAfter) && Resolves(repo, versionBefore) &&
             Resolves(repo, versionAfter)) ==>
              var i := FirstRefusal(backend, 2 * |changed|);
              if i < 2 * |changed| && backend[i].Failure? then r == Err(BackendFailure)
              else
                r.Ok? && (r.value.TextsAndPrompts? <==> returnPrompts) &&
                r.value.texts == Recorded(changed, backend, SourceTemplates, i / 2) &&
                (returnPrompts ==>
                   r.value.prompts == Trace(changed, backend, TreeAt(repo, versionBefore), TreeAt(repo, versionAfter),
                                            SourceTemplates, i))
  {
    if versionBefore == Staged {
      return Err(BeforeIsStaged);
    }
    if versionBefore == versionAfter {
      return Err(SameVersions);
    }
    if versionAfter != Staged && versionAfter !in repo.commits {
      return Err(UnknownVersion(versionAfter));
    }
    if versionBefore !in repo.commits {
      return Err(UnknownVersion(versionBefore));
    }

    var failed, fileTexts, prompts :=
      NarrateFiles(changed, backend, TreeAt(repo, versionBefore), TreeAt(repo, versionAfter), SourceTemplates);
    if failed {
      return Err(BackendFailure);
    }
    if returnPrompts {
      r := Ok(TextsAndPrompts(fileTexts, prompts));
    } else {
      r := Ok(Texts(fileTexts));
    }
  }

  /** The loop of `generate_change_message` over the changed files, between
      the files of the two resolved versions. It stops at the first call
      that does not answer: `failed` tells whether that call raised an
      exception other than `RateLimitError`; otherwise the dictionary holds
      the files whose two calls answered and the trace every prompt sent,
      the unanswered one included. */
  method NarrateFiles(changed: seq<Path>, backend: seq<Outcome>, before: Tree, after: Tree, t: Templates)
    returns (failed: bool, fileTexts: FileTexts, prompts: seq<string>)
    requires 2 * |changed| <= |backend|
    ensures var i := FirstRefusal(backend, 2 * |changed|);
      (failed <==> i < 2 * |changed| && backend[i].Failure?) &&
      fileTexts == Recorded(changed, backend, t, i / 2) &&
      prompts == Trace(changed, backend, before, after, t, i)
  {
    failed := false;
    prompts := [];
    fileTexts := FileTexts([], map[]);
    ghost var stop := 2 * |changed|;
    var k := 0;
    while k < |changed|
      invariant 0 <= k <= |changed|
      invariant FirstRefusal(backend, 2 * k) == 2 * k
      invariant prompts == Sent(changed, backend, before, after, t, k)
      invariant fileTexts == Recorded(changed, backend, t, k)
    {
      var path := changed[k];
      prompts := prompts + [ComparisonFor(t, before, after, path)];
      var comparison := backend[2 * k];
      if !comparison.Answer? {
        failed := comparison.Failure?;
        stop := 2 * k;
        FirstRefusalStops(backend, stop, 2 * |changed|);
        TraceAtComparison(changed, backend, before, after, t, k);
        assert stop / 2 == k;
        break;
      }
      var answer := t.answer(comparison.text);
      prompts := prompts + [t.refinement(answer)];
      var refined := backend[2 * k + 1];
      if !refined.Answer? {
        failed := refined.Failure?;
        stop := 2 * k + 1;
        FirstRefusalStops(backend, stop, 2 * |changed|);
        TraceAtRefinement(changed, backend, before, after, t, k);
        assert stop / 2 == k;
        break;
      }
      fileTexts := Store(fileTexts, path, t.narrative(refined.text));
      FileStep(changed, backend, before, after, t, k);
      k := k + 1;
    }
    if stop == 2 * |changed| {
      TraceComplete(changed, backend, before, after, t);
      assert stop / 2 == k;
    }
  }
}
