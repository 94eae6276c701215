/**
  The engine call of `process_with_qwen` with the subprocess taken out: the
  command vector it builds, the outcomes `subprocess.run` can have, and how
  an outcome becomes the `(success, text)` pair. Also the two prompts the
  orchestrator sends, as far as they depend on the items.
 */
module Engine {
  import opened Text
  import opened Items

  /** The argv: `command.split()` when the command holds a space, the command alone otherwise,
      then `-p` and the prompt. */
  function Argv(command: string, prompt: string): seq<string> {
    (if ' ' in command then Words(command) else [command]) + ["-p", prompt]
  }

  /** How a run of the argv can end. */
  datatype Outcome =
    | Exited(code: int, stdout: string, stderr: string)  // the process finished with this return code
    | TimedOut                                            // `TimeoutExpired` after 300 seconds
    | NotFound                                            // `FileNotFoundError`
    | Crashed(error: string)                              // any other exception, as `str(e)`

  /** The `(success, response or error message)` pair. */
  datatype Reply = Reply(success: bool, text: string)

  const TimeoutMessage := "Qwen Code timed out after 5 minutes"

  function Classify(command: string, o: Outcome): Reply {
    match o
    case Exited(code, out, err) =>
      if code == 0 then Reply(true, out)
      else Reply(false, if err != "" then err else "Exit code: " + IntToString(code))
    case TimedOut => Reply(false, TimeoutMessage)
    case NotFound => Reply(false, "Qwen Code not found. Tried: " + command)
    case Crashed(e) => Reply(false, "Unexpected error: " + e)
  }

  /** The fixed text around the items in the two prompts. */
  datatype Wording = Wording(needsIntro: string, needsOutro: string, approvedIntro: string, approvedOutro: string)

  /** The engine as the orchestrator calls it: the command `_find_qwen` settled on, the prompt
      wording, and `run`, which stands for running an argv (a parameter, not a process). */
  datatype Caller = Caller(command: string, wording: Wording, run: seq<string> -> Outcome)

  /** One engine call. */
  function Ask(c: Caller, prompt: string): Reply {
    Classify(c.command, c.run(Argv(c.command, prompt)))
  }

  /** The argv ends in `-p` and the prompt. A command without a space is passed whole. A command
      with one is cut into non-empty, whitespace-free pieces that together hold exactly its
      non-whitespace characters, in order. */
  lemma ArgvShape(command: string, prompt: string)
    ensures |Argv(command, prompt)| >= 2
    ensures Argv(command, prompt)[|Argv(command, prompt)| - 2] == "-p"
    ensures Argv(command, prompt)[|Argv(command, prompt)| - 1] == prompt
    ensures ' ' !in command ==> Argv(command, prompt) == [command, "-p", prompt]
    ensures ' ' in command ==>
      var pieces := Argv(command, prompt)[..|Argv(command, prompt)| - 2];
      Concat(pieces) == RemoveSpaces(command) &&
      forall i :: 0 <= i < |pieces| ==> |pieces[i]| > 0 && NoSpace(pieces[i])
  {
    if ' ' in command {
      var r := Argv(command, prompt);
      assert r[..|r| - 2] == Words(command);
      WordsKeepLetters(command);
    }
  }

  /** A command written as whitespace-free words joined by single spaces is split back into
      exactly those words, so `"npx qwen"` runs `npx` with the argument `qwen`. */
  lemma ArgvJoined(ws: seq<string>, prompt: string)
    requires |ws| >= 2
    requires forall i :: 0 <= i < |ws| ==> |ws[i]| > 0 && NoSpace(ws[i])
    ensures Argv(Join(ws, ' '), prompt) == ws + ["-p", prompt]
  {
    var command := Join(ws, ' ');
    assert command == ws[0] + [' '] + Join(ws[1..], ' ');
    assert command[|ws[0]|] == ' ';
    WordsJoin(ws);
  }

  /** Success exactly when the process exited with code 0, and then the text is its stdout.
      A failure always carries a non-empty message, stderr when there is one. */
  lemma ClassifySpec(command: string, o: Outcome)
    ensures Classify(command, o).success <==> o.Exited? && o.code == 0
    ensures Classify(command, o).success ==> Classify(command, o).text == o.stdout
    ensures o.Exited? && o.code != 0 && o.stderr != "" ==> Classify(command, o).text == o.stderr
    ensures !Classify(command, o).success ==> |Classify(command, o).text| > 0
  {
  }

  /** The lines `- name`, one per item. */
  function ItemLines(items: seq<Entry>): seq<string> {
    seq(|items|, i requires 0 <= i < |items| => "- " + items[i].name)
  }

  /** `'\n'.join(f"- {item.name}" for item in items)`. */
  function ItemList(items: seq<Entry>): string {
    Join(ItemLines(items), '\n')
  }

  /** The wording of `process_needs_action` and `process_approved`. */
  const QwenWording := Wording(
    "You are the AI Employee. Process the following pending items in the Needs_Action folder:\n\n",
    "\n\nFor each item:\n1. Read the file content\n2. Understand what action is needed\n3. If the action requires approval, create a file in /Pending_Approval/\n4. If the action can be done directly, do it and move the file to /Done/\n5. If you need more information, update the file with questions\n\nReference the Company_Handbook.md for rules and guidelines.\nReference the Business_Goals.md for context on priorities.\n\nAfter processing, update the Dashboard.md with a summary of what was done.",
    "You are the AI Employee. The following action has been APPROVED by a human:\n\nFile: ",
    "\n\nExecute this approved action now. After completing the action:\n1. Log the action in the daily log\n2. Move this file to /Done/\n3. Update the Dashboard.md\n\nIf the action cannot be completed, move the file to /Rejected/ with an explanation.")

  /** The prompt of `process_needs_action`. */
  function NeedsActionPrompt(w: Wording, items: seq<Entry>): string {
    w.needsIntro + ItemList(items) + w.needsOutro
  }

  /** The prompt of `process_approved` for one item. */
  function ApprovedPrompt(w: Wording, e: Entry): string {
    w.approvedIntro + e.name + "\n\nContent:\n" + e.node.content + w.approvedOutro
  }

  lemma ContainsSelf(t: string)
    ensures Contains(t, t)
  {
    assert t[..|t|] == t;
  }

  /** For a non-empty list of names without line breaks, the item list is one line `- name` per
      item, in the given order. */
  lemma ItemListLines(items: seq<Entry>)
    requires |items| > 0
    requires forall i :: 0 <= i < |items| ==> '\n' !in items[i].name
    ensures |Split(ItemList(items), '\n')| == |items|
    ensures forall i :: 0 <= i < |items| ==> Split(ItemList(items), '\n')[i] == "- " + items[i].name
  {
    var lines := ItemLines(items);
    forall i | 0 <= i < |lines| ensures '\n' !in lines[i] {
      assert lines[i] == "- " + items[i].name;
    }
    SplitJoin(lines, '\n');
  }

  /** Every pending item appears in the prompt as its own `- name` entry. */
  lemma NeedsActionPromptLists(w: Wording, items: seq<Entry>, k: nat)
    requires k < |items|
    ensures Contains(NeedsActionPrompt(w, items), "- " + items[k].name)
  {
    var lines := ItemLines(items);
    ContainsSelf(lines[k]);
    JoinContains(lines, '\n', k, lines[k]);
    ContainsInfix(w.needsIntro, ItemList(items), w.needsOutro, lines[k]);
  }

  /** The approval prompt carries the item's name and its whole content. */
  lemma ApprovedPromptShows(w: Wording, e: Entry)
    ensures Contains(ApprovedPrompt(w, e), e.name)
    ensures Contains(ApprovedPrompt(w, e), e.node.content)
  {
    ContainsSelf(e.name);
    ContainsInfix(w.approvedIntro, e.name, "\n\nContent:\n", e.name);
    ContainsExtendRight(w.approvedIntro + e.name + "\n\nContent:\n", e.node.content, e.name);
    ContainsExtendRight(w.approvedIntro + e.name + "\n\nContent:\n" + e.node.content, w.approvedOutro, e.name);
    ContainsSelf(e.node.content);
    ContainsInfix(w.approvedIntro + e.name + "\n\nContent:\n", e.node.content, w.approvedOutro, e.node.content);
  }
}
