# gpt-commit-message-helper, modelled in Dafny

The repository has two helper scripts that ask a completion backend for text
about the changes staged in a Git repository. This project models their
deterministic core and proves properties of it.

- `generate_summary` (`diff_summary.dfy`, module `DiffSummary`). Both scripts
  carry an identical copy. It sorts the lines of a `git diff --cached` into
  three buckets (added, modified, deleted), renders up to three labelled
  sections and strips the result. The diff text is a parameter.
- `generate_change_message` (`change_message.dfy`, module `ChangeMessage`).
  It checks the version pair and resolves both versions. For each changed
  file it sends a comparison prompt, then a refinement prompt built from the
  stripped answer. It records the refined answer, stripped and without its
  first line, in an insertion-ordered dictionary. The first call that does
  not answer stops the loop.
  - The repository is a value: the working tree plus the tree of every
    resolvable version.
  - The backend is the sequence of outcomes of its successive calls: call
    `2j` is file `j`'s comparison, call `2j + 1` its refinement.
  - The loop (`NarrateFiles`) is written against a `Templates` value, which
    holds the two prompt builders and the two reply post-processors.
    `GenerateChangeMessage` passes `SourceTemplates`, the functions the
    script uses.
- `generate_commit_message` (`commit_message.dfy`, module `CommitMessage`).
  It builds one fragment per staged file from its path and diff summary,
  joins the fragments and frames them with a fixed header and footer. It
  makes one backend call and maps the two kinds of failure to two fixed
  messages. The backend is a function from the prompt to the outcome of the
  call.
  - The prompt functions take the summariser as a parameter.
    `AssemblePrompt` and `GenerateCommitMessage` use `SummaryOf`.
- Python string builtins the scripts rely on (`text.dfy`, module `Text`):
  `split`/`join` with a one-character separator, `strip()`, `"".join` and
  `os.path.basename`.

Imperative code is modelled as methods proved against specification
functions:
- the classifying loop and the `summary +=` assembly;
- the per-file loop of `generate_change_message`, with its `break`;
- the fragment loop of `generate_commit_message`.

Text computed by expressions is modelled as functions.

## Model

| member | source | states |
|---|---|---|
| DiffSummary.Classify | gpt_change_message.py:76-82 | `+` but not `+++` goes to Added with `line[1:]`; `-` but not `---` goes to Deleted with `"Removed " + line[1:]`; a leading space goes to Modified with `line[1:]` (each as an if-and-only-if); anything else is dropped. gpt_commit_message.py:32-38 is an identical copy |
| DiffSummary.ClassifyLines | gpt_change_message.py:72-82 | the loop leaves each bucket equal to `BucketLines` of the lines read |
| DiffSummary.BucketLinesStep | gpt_change_message.py:76-82 | reading one more line extends each bucket by that line's contribution |
| DiffSummary.BucketLinesAppend | gpt_change_message.py:73-82 | buckets keep input order: two runs of lines fill a bucket with the first run's entries, then the second's |
| DiffSummary.BucketLinesOne | gpt_change_message.py:76-82 | a single line fills exactly the bucket it is routed to |
| DiffSummary.BucketLinesSource | gpt_change_message.py:76-82 | every bucket entry comes from some input line routed to that bucket with that text; no bucket is longer than the input |
| DiffSummary.BucketLinesDropped | gpt_change_message.py:76-82 | lines that are all dropped leave every bucket empty |
| DiffSummary.GenerateSummary | gpt_change_message.py:72-95 | the method's result is `SummaryOf(diff)`: buckets of the split lines, joined, rendered and stripped |
| DiffSummary.AppendSection | gpt_change_message.py:89-94 | a conditional `summary +=` appends exactly the section of that bucket |
| DiffSummary.SummaryOfLines | gpt_change_message.py:76 | a diff given as newline-free lines is summarised from the buckets of exactly those lines |
| DiffSummary.RenderEmpty | gpt_change_message.py:88-95 | the summary is empty exactly when all three joined buckets are empty, and never starts or ends with whitespace |
| DiffSummary.RenderOrder | gpt_change_message.py:88-94 | the summary opens with the heading of the first non-empty bucket, Added before Modified before Deleted (gpt_commit_message.py:44-51 is an identical copy) |
| DiffSummary.RenderSections | gpt_change_message.py:88-95 | for any combination of non-empty buckets whose last one ends in non-whitespace, the summary is their sections in the order Added, Modified, Deleted, without the blank line after the last |
| DiffSummary.RenderAll | gpt_change_message.py:88-95 | with all three buckets non-empty (the last ending in non-whitespace), the summary is the Added, Modified and Deleted sections in that order, separated by blank lines |
| DiffSummary.RenderSingle | gpt_change_message.py:88-95 | with one non-empty bucket whose text ends in non-whitespace, the summary is its heading and text, without the trailing blank line |
| DiffSummary.SectionAlone | gpt_change_message.py:90-95 | stripping a lone section whose body ends in non-whitespace removes only its closing blank line |
| DiffSummary.LonePlusGivesNoSection | gpt_change_message.py:77-95 | the diff `"+"` adds an empty entry, emits no Added section and gives the empty summary |
| Text.Split | gpt_change_message.py:45 | `split` never returns an empty list, no piece holds the separator, and there is one piece exactly when the text has no separator |
| Text.JoinSplit | gpt_change_message.py:45-47 | joining the pieces of a split gives back the text |
| Text.SplitJoin | gpt_change_message.py:45-47 | splitting a join of separator-free pieces gives back the pieces |
| Text.ConcatAppend | gpt_commit_message.py:63 | `"".join` distributes over list concatenation |
| Text.Strip | gpt_change_message.py:95 | the result is the input with a run of leading and a run of trailing whitespace removed; it is empty exactly when the input is all whitespace, and otherwise starts and ends with non-whitespace |
| Text.StripUnpadded | gpt_change_message.py:95 | a text without surrounding whitespace is left alone |
| Text.StripKeepsPrefix | gpt_change_message.py:95 | a prefix that starts and ends with non-whitespace survives stripping |
| Text.StripTrailing | gpt_change_message.py:95 | stripping removes exactly the trailing whitespace of a text that starts with non-whitespace |
| Text.Basename | gpt_change_message.py:140 | `basename` is the longest `/`-free suffix of the path: a suffix, holding no `/`, preceded by `/` when shorter than the path |
| ChangeMessage.RemoveFirstLineIsSplitJoin | gpt_change_message.py:44-47 | `remove_first_line` equals joining all pieces but the first of the split at newlines |
| ChangeMessage.RemoveFirstLineSplitsAtNewline | gpt_change_message.py:44-47 | a one-line text gives `""`; otherwise the text is a newline-free head, a newline and the result |
| ChangeMessage.RemoveFirstLineDropsHeader | gpt_change_message.py:196 | a newline-free first line is removed and the rest is returned untouched |
| ChangeMessage.ComparisonPromptReadBack | gpt_change_message.py:138-146 | the comparison prompt opens with the question naming the file, holds the before contents after `BEFORE CHANGES:` and ends with the after contents |
| ChangeMessage.FramedReadBack | gpt_change_message.py:146 | the parts of the framed prompt can be read back by their lengths |
| ChangeMessage.ContentsAt | gpt_change_message.py:36-60 | a file's contents in a resolved version come from the working tree for `STAGED` and from the commit's tree otherwise, and are the placeholder sentence where that tree has no such file |
| ChangeMessage.SourceComparisonShowsContents | gpt_change_message.py:36-60 | with the script's templates, the comparison prompt is built from the file's contents in each of the two trees, or from the placeholder sentence where a tree has no such file |
| ChangeMessage.RefinementPromptReadBack | gpt_change_message.py:166-173 | the refinement prompt is the instruction, a blank line and the answer, which can be read back from it |
| ChangeMessage.RefinementPromptInjective | gpt_change_message.py:173 | different answers give different refinement prompts |
| ChangeMessage.FirstRefusal | gpt_change_message.py:149-194 | the index of the first unanswered call: all calls before it answered, and it did not |
| ChangeMessage.FirstRefusalStops | gpt_change_message.py:162-164 | once a call is refused, later calls do not change where the loop stops |
| ChangeMessage.DistinctMembers | gpt_change_message.py:197 | the dictionary's key order holds exactly the recorded paths |
| ChangeMessage.DistinctUnique | gpt_change_message.py:197 | the key order holds no path twice |
| ChangeMessage.DistinctNoDuplicates | gpt_change_message.py:197 | with distinct changed paths the key order is the order of processing |
| ChangeMessage.RecordedKeys | gpt_change_message.py:134-197 | after `k` completed files the keys are the first `k` changed paths, in order of first occurrence |
| ChangeMessage.RecordedValue | gpt_change_message.py:196-197 | each key holds the narrative kept from the refinement reply of the last file recorded under it |
| ChangeMessage.SourceNarrative | gpt_change_message.py:176-197 | with the script's templates that narrative is `remove_first_line(strip(refined answer))` |
| ChangeMessage.RecordedInOrder | gpt_change_message.py:133-134 | with distinct changed paths the keys are exactly the first `k` changed paths, in order |
| ChangeMessage.Sent | gpt_change_message.py:147-174 | after `k` files whose comparisons answered, exactly `2k` prompts were sent |
| ChangeMessage.SentAt | gpt_change_message.py:146-174 | prompt `2j` is file `j`'s comparison prompt and prompt `2j + 1` the refinement prompt of the answer kept from call `2j` |
| ChangeMessage.Trace | gpt_change_message.py:147-194 | the trace holds one prompt per call made, the refused one included: `2k + 1` prompts when file `k`'s comparison is refused, `2k + 2` when its refinement is, `2n` with no refusal |
| ChangeMessage.TraceAt | gpt_change_message.py:146-174 | every prompt in the trace is the comparison prompt of its file or the refinement prompt of the answer before it |
| ChangeMessage.TraceAtComparison | gpt_change_message.py:147-164 | a refused comparison call leaves its prompt last in the trace |
| ChangeMessage.TraceAtRefinement | gpt_change_message.py:174-194 | a refused refinement call leaves its prompt last in the trace |
| ChangeMessage.TraceComplete | gpt_change_message.py:134-197 | with no refusal the trace holds both prompts of every file |
| ChangeMessage.SourceTraceReadBack | gpt_change_message.py:160-173 | with the script's templates, each stripped comparison answer can be read back from the refinement prompt after it |
| ChangeMessage.FileStep | gpt_change_message.py:134-197 | a file whose two calls answered adds its two prompts and its narrative, and the loop moves past both calls |
| ChangeMessage.NarrateFiles | gpt_change_message.py:133-197 | the loop stops at the first refused call; it fails exactly when that call raised a non-rate-limit error; the dictionary holds the files completed before it; the trace is every prompt sent |
| ChangeMessage.GenerateChangeMessage | gpt_change_message.py:98-201 | `STAGED` as the before version, or equal versions, fail before anything else; then an unresolvable after version fails before the before version is tried (as in `get_changed_files`, lines 18-32); otherwise a non-rate-limit backend error fails, and any other run returns the dictionary of the completed files, with the trace of every prompt sent exactly when `return_prompts` is set |
| CommitMessage.Fragments | gpt_commit_message.py:57-61 | one fragment per staged file, in order, each `"Change in file: " + path + "\n" + "Summary: " + summary + "\n"` |
| CommitMessage.FragmentsAppend | gpt_commit_message.py:57-61 | the fragments of two runs of files are the first run's, then the second's |
| CommitMessage.FragmentsInOrder | gpt_commit_message.py:57-63 | the joined fragments of the first `j` files start the prompt text: files are described in staged order |
| CommitMessage.PromptReadBack | gpt_commit_message.py:63-64 | the prompt is the header, a blank line, the joined fragments and the footer, and each part can be read back |
| CommitMessage.PromptWithoutFiles | gpt_commit_message.py:63-64 | with no staged file the header is followed by `"\n\n\n\nCommit Message:"` |
| CommitMessage.AssemblePrompt | gpt_commit_message.py:55-64 | the loop and the framing produce `Prompt(files, SummaryOf)` |
| CommitMessage.GenerateCommitMessage | gpt_commit_message.py:54-85 | the reply is `ReplyTo` of the backend's outcome for exactly the assembled prompt |
| CommitMessage.ReplyCarriesPrompt | gpt_commit_message.py:76-85 | the prompt comes back exactly when `return_prompt` is set and the backend answered, and it is the prompt sent |
| CommitMessage.ReplyMessage | gpt_commit_message.py:76-85 | the message is the stripped completion, or the request-error message, or the generic error message, and the two error messages differ |
| CommitMessage.ErrorMessagesUnpadded | gpt_commit_message.py:80-85 | both error messages start and end with non-whitespace |
| CommitMessage.ReplyMessageStripped | gpt_commit_message.py:76-85 | whatever the backend does, the message has no leading or trailing whitespace |

## Left out

- GitPython is not modelled: `Repo`, `repo.commit`, `repo.index`, `.diff`, tree lookup and blob reading. The changed and staged paths are inputs, and each version is a tree of paths to text. Resolving a version is `version in commits`.
- `get_current_file_contents` reads the file from disk. The model reads the working tree of the repository value. Errors other than a missing file (a directory, a permission error) are not modelled.
- UTF-8 decoding of blobs is not modelled; file contents are already text.
- `subprocess.run(["git", "diff", "--cached", ...])` is not modelled; the diff text is a parameter.
- The OpenAI client calls, the system-role messages, the model and engine names, `max_tokens`, `stop` and the temperature are not modelled. The backend is an oracle that returns a text or an error kind. Temperature is a float read from the environment and has no effect on control flow.
- `print` calls and the `__main__` blocks are not modelled. The blocks pass `sys.argv` where a repository path is expected.
- `scripts/ipy_random_experiments.py` is not modelled. It is an interactive notebook that holds earlier drafts of the two prompts of `generate_change_message`.
- ChangeMessage.GenerateChangeMessage: an exception other than `RateLimitError` propagates, modelled as `Err(BackendFailure)`, and nothing is returned.
- ChangeMessage.GenerateChangeMessage: the backend oracle must answer every possible call (`2 * |changed| <= |backend|`). Entries after the first refusal are never read, so every run is modelled by an oracle padded to `2 * |changed|` entries.
- ChangeMessage.NarrateFiles: stated for any `Templates`. The `Templates` record is not part of the source; it keeps the literal prompts and `strip` out of the loop's proof. `GenerateChangeMessage` fixes it to `SourceTemplates`, the script's own functions.
- CommitMessage.Fragments: stated for any summariser. `AssemblePrompt` and `GenerateCommitMessage` fix it to `SummaryOf`.
- Text.Strip: `str.isspace` is given by its list of whitespace code points, not by Unicode property tables.
