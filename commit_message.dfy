/** `generate_commit_message`: one prompt made of a fixed header and a
    fragment per staged file (its path and the summary of its staged diff),
    sent once to the completion backend; the stripped completion is the
    commit message, and the two kinds of backend failure map to two fixed
    messages. The staged files are given with the text of their
    `git diff --cached`, and the backend as a function from the prompt to
    the outcome of the call. */
module CommitMessage {
  import opened Text
  import opened DiffSummary

  /** A staged path with the output of `git diff --cached <path>`. */
  datatype StagedFile = StagedFile(path: string, diff: string)

  /** The outcome of `openai.Completion.create`: the text of its first
      choice, a `RequestException`, or any other exception. */
  datatype Completion = Completed(text: string) | RequestError | OtherError

  /** What the call returns: the message, or with `return_prompt` the
      message and the prompt. */
  datatype Reply = Message(message: string) | MessageAndPrompt(message: string, prompt: string)

  /** The instruction the prompt opens with. */
  const Header: string :=
    "Generate a summary for the following git changes in a software project. "
    + "Use mostly natural language for description."

  /** What closes the prompt, after the fragments. */
  const Footer: string := "\n\nCommit Message:"

  /** The message returned when the backend raised any other exception. */
  const ErrorMessage: string := "Error: Could not generate commit message"

  /** The message returned when the backend raised a `RequestException`. */
  const ApiErrorMessage: string := ErrorMessage + " due to OpenAI API error"

  /** The part of the prompt about one staged file. */
  function Fragment(path: string, summary: string): string {
    "Change in file: " + path + "\n" + "Summary: " + summary + "\n"
  }

  /** The fragment of one staged file, with the summary `summarize` gives
      its diff (`generate_summary`, that is `SummaryOf`, in the source). */
  function FileFragment(file: StagedFile, summarize: string -> string): string {
    Fragment(file.path, summarize(file.diff))
  }

  /** The fragments of the staged files, one per file and in their order. */
  function Fragments(files: seq<StagedFile>, summarize: string -> string): (r: seq<string>)
    ensures |r| == |files|
    ensures forall j :: 0 <= j < |files| ==> r[j] == FileFragment(files[j], summarize)
  {
    if |files| == 0 then []
    else Fragments(files[..|files| - 1], summarize) + [FileFragment(files[|files| - 1], summarize)]
  }

  /** The fragments of two runs of files are those of the first run, then
      those of the second. */
  lemma {:induction false} FragmentsAppend(xs: seq<StagedFile>, ys: seq<StagedFile>, summarize: string -> string)
    ensures Fragments(xs + ys, summarize) == Fragments(xs, summarize) + Fragments(ys, summarize)
    decreases |ys|
  {
    if |ys| > 0 {
      var n := |ys| - 1;
      assert (xs + ys)[..|xs| + n] == xs + ys[..n];
      FragmentsAppend(xs, ys[..n], summarize);
    }
  }

  /** Taking one more file adds its fragment at the end. */
  lemma FragmentsStep(files: seq<StagedFile>, k: nat, summarize: string -> string)
    requires k < |files|
    ensures Fragments(files[..k + 1], summarize) == Fragments(files[..k], summarize) + [FileFragment(files[k], summarize)]
  {
    assert files[..k + 1][..k] == files[..k];
  }

  /** The prompt sent for the staged files. */
  function Prompt(files: seq<StagedFile>, summarize: string -> string): string {
    Header + "\n\n" + Concat(Fragments(files, summarize)) + Footer
  }

  /** The fragments can be read back from the prompt, between the header
      with its blank line and the footer. */
  lemma PromptReadBack(files: seq<StagedFile>, summarize: string -> string)
    ensures var prompt := Prompt(files, summarize);
      |prompt| == |Header| + 2 + |Concat(Fragments(files, summarize))| + |Footer| &&
      prompt[..|Header|] == Header &&
      prompt[|Header| + 2..|prompt| - |Footer|] == Concat(Fragments(files, summarize)) &&
      prompt[|prompt| - |Footer|..] == Footer
  {
    var text := Concat(Fragments(files, summarize));
    var prompt := Prompt(files, summarize);
    assert prompt == Header + ("\n\n" + text + Footer);
    assert prompt == (Header + "\n\n" + text) + Footer;
    assert prompt[|Header| + 2..|prompt| - |Footer|] == (Header + "\n\n" + text)[|Header| + 2..];
  }

  /** With no staged file the header is followed by four newlines and the
      footer line. */
  lemma PromptWithoutFiles(summarize: string -> string)
    ensures Prompt([], summarize) == Header + "\n\n\n\nCommit Message:"
  {
    assert Concat(Fragments([], summarize)) == "";
  }

  /** The fragments of the first `j` files start the text of the prompt:
      files are described in the order they are staged. */
  lemma FragmentsInOrder(files: seq<StagedFile>, summarize: string -> string, j: nat)
    requires j <= |files|
    ensures Concat(Fragments(files[..j], summarize)) <= Concat(Fragments(files, summarize))
  {
    assert files == files[..j] + files[j..];
    FragmentsAppend(files[..j], files[j..], summarize);
    ConcatAppend(Fragments(files[..j], summarize), Fragments(files[j..], summarize));
  }

  /** The loop of `generate_commit_message` that builds one fragment per
      staged file, then the join and the framing of the prompt. */
  method AssemblePrompt(files: seq<StagedFile>) returns (prompt: string)
    ensures prompt == Prompt(files, SummaryOf)
  {
    var prompts := [];
    var k := 0;
    while k < |files|
      invariant 0 <= k <= |files|
      invariant prompts == Fragments(files[..k], SummaryOf)
    {
      FragmentsStep(files, k, SummaryOf);
      var file := files[k];
      var fragment := "Change in file: " + file.path + "\n";
      var summary := GenerateSummary(file.diff);
      fragment := fragment + "Summary: " + summary + "\n";
      prompts := prompts + [fragment];
      k := k + 1;
    }
    assert files[..k] == files;
    var promptText := Concat(prompts);
    prompt := Header + "\n\n" + promptText + Footer;
  }

  /** What `generate_commit_message` returns when the backend answers
      `completion` for the prompt: the stripped completion, paired with the
      prompt when it is asked for, or one of the two fixed messages. */
  function ReplyTo(completion: Completion, prompt: string, returnPrompt: bool): Reply {
    match completion
    case Completed(text) =>
      if returnPrompt then MessageAndPrompt(Strip(text), prompt) else Message(Strip(text))
    case RequestError => Message(ApiErrorMessage)
    case OtherError => Message(ErrorMessage)
  }

  /** `generate_commit_message` over the staged files, with `complete` the
      outcome of the backend for each possible prompt. */
  method GenerateCommitMessage(files: seq<StagedFile>, complete: string -> Completion, returnPrompt: bool := false)
    returns (r: Reply)
    ensures r == ReplyTo(complete(Prompt(files, SummaryOf)), Prompt(files, SummaryOf), returnPrompt)
  {
    var prompt := AssemblePrompt(files);
    var response := complete(prompt);
    match response {
      case Completed(text) =>
        var message := Strip(text);
        if returnPrompt {
          return MessageAndPrompt(message, prompt);
        }
        return Message(message);
      case RequestError =>
        return Message(ApiErrorMessage);
      case OtherError =>
        return Message(ErrorMessage);
    }
  }

  /** The prompt comes back exactly when it was asked for and the backend
      answered, and it is then the prompt sent; a failure returns a message
      alone, whatever `return_prompt` says. */
  lemma ReplyCarriesPrompt(completion: Completion, prompt: string, returnPrompt: bool)
    ensures var r := ReplyTo(completion, prompt, returnPrompt);
      (r.MessageAndPrompt? <==> returnPrompt && completion.Completed?) &&
      (r.MessageAndPrompt? ==> r.prompt == prompt)
  {
  }

  /** The message is the stripped completion when the backend answered,
      and otherwise one of the two error messages, which differ. */
  lemma ReplyMessage(completion: Completion, prompt: string, returnPrompt: bool)
    ensures var m := ReplyTo(completion, prompt, returnPrompt).message;
      (completion.Completed? ==> m == Strip(completion.text)) &&
      (completion.RequestError? ==> m == ApiErrorMessage) &&
      (completion.OtherError? ==> m == ErrorMessage) &&
      ApiErrorMessage != ErrorMessage
  {
    assert |ApiErrorMessage| != |ErrorMessage|;
  }

  /** Both error messages start and end with a non-whitespace character. */
  lemma ErrorMessagesUnpadded()
    ensures !IsSpace(ErrorMessage[0]) && !IsSpace(ErrorMessage[|ErrorMessage| - 1])
    ensures !IsSpace(ApiErrorMessage[0]) && !IsSpace(ApiErrorMessage[|ApiErrorMessage| - 1])
  {
    var tail := " due to OpenAI API error";
    assert ErrorMessage[0] == 'E' && ErrorMessage[|ErrorMessage| - 1] == 'e';
    assert ApiErrorMessage[0] == 'E';
    assert ApiErrorMessage[|ApiErrorMessage| - 1] == tail[|tail| - 1] == 'r';
  }

  /** Whatever the backend does, the message has no leading or trailing
      whitespace. */
  lemma ReplyMessageStripped(completion: Completion, prompt: string, returnPrompt: bool)
    ensures var m := ReplyTo(completion, prompt, returnPrompt).message;
      m == "" || (!IsSpace(m[0]) && !IsSpace(m[|m| - 1]))
  {
    ErrorMessagesUnpadded();
  }
}
