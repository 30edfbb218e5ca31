/** The prompt sent to the language model (`callOllamaQwen2` and
    `approvedWordsList` in backend/server.js): a fixed instruction text,
    the first 50 approved words, the recent conversation when there is
    one, and the user's (English) input. */
module Prompt {
  import opened Seqs
  import opened Conversation

  /** How many approved words the prompt names. */
  const ListedWords: nat := 50

  const WordSeparator: string := ", "

  /** `words.slice(0, 50).join(', ')`: the list names the first 50 words in
      order; when there are more, the full list continues past it with one
      more separator and the remaining words. */
  function ApprovedWordsList(words: seq<string>): (r: string)
    ensures |words| <= ListedWords ==> r == Join(words, WordSeparator)
    ensures |words| > ListedWords ==>
      Join(words, WordSeparator) == r + WordSeparator + Join(words[ListedWords..], WordSeparator)
  {
    if |words| > ListedWords then
      JoinSplitAt(words, WordSeparator, ListedWords);
      Join(words[..ListedWords], WordSeparator)
    else
      Join(words, WordSeparator)
  }

  function RoleName(e: Entry): string {
    match e
    case UserTurn(_, _) => "user"
    case AssistantTurn(_) => "assistant"
  }

  /** `${msg.role}: ${msg.content}`: the entry's content, verbatim, after a
      non-empty role label. */
  function ContextLine(e: Entry): (r: string)
    ensures |r| > |e.content|
    ensures IsSuffix(": " + e.content, r)
    ensures IsPrefix("user: ", r) <==> e.UserTurn?
    ensures IsPrefix("assistant: ", r) <==> e.AssistantTurn?
    ensures e.UserTurn? ==> |r| == |"user: "| + |e.content|
    ensures e.AssistantTurn? ==> |r| == |"assistant: "| + |e.content|
  {
    var r := RoleName(e) + ": " + e.content;
    assert r[|r| - |": " + e.content|..] == ": " + e.content;
    assert r[0] == RoleName(e)[0];
    r
  }

  /** One line per entry, in order; line `i` carries entry `i`'s content. */
  function ContextLines(es: History): (r: seq<string>)
    ensures |r| == |es|
    ensures forall i | 0 <= i < |r| :: IsSuffix(es[i].content, r[i])
  {
    seq(|es|, i requires 0 <= i < |es| => ContextLine(es[i]))
  }

  /** The recent conversation, one `role: content` line per entry. */
  function HistoryContext(h: History): string {
    Join(ContextLines(Recent(h)), "\n")
  }

  /** The "Recent conversation" block, or nothing. */
  function ContextBlock(h: History): string {
    var context := HistoryContext(h);
    if context != "" then "Recent conversation:\n" + context + "\n\n" else ""
  }

  const Preamble: string :=
    "You are a friendly conversation partner for English language practice. \n\n"
    + "STRICT RULES:\n"
    + "1. Use ONLY these approved words: "

  const Rules: string :=
    "\n2. Use only present tense or past tense verbs.\n\n"

  const UserSays: string := "\n\nUser says: \""

  const Closing: string := "\"\n\nReply following the rules above:"

  /** The full prompt for one user input: it opens with the instructions and
      the word list and closes with the quoted input and the final
      instruction, whatever the history holds. */
  function BuildPrompt(wordList: string, h: History, input: string): (p: string)
    ensures IsPrefix(Preamble + wordList, p)
    ensures IsSuffix(input + Closing, p)
  {
    var head := Preamble + wordList;
    var tail := input + Closing;
    var middle := Rules + ContextBlock(h) + UserSays;
    ConcatEnds(head, middle, tail);
    head + middle + tail
  }

  /** Every one of the last 6 entries reaches the prompt: its
      `role: content` line occurs in it. */
  lemma RecentLinesInPrompt(wordList: string, h: History, input: string, i: nat)
    requires i < |Recent(h)|
    ensures IsInfix(ContextLine(Recent(h)[i]), BuildPrompt(wordList, h, input))
  {
    var lines := ContextLines(Recent(h));
    var line := ContextLine(Recent(h)[i]);
    assert lines[i] == line;
    JoinHasPart(lines, "\n", i);
    var context := HistoryContext(h);
    assert context != "" by {
      var k: nat :| InfixAt(line, context, k);
    }
    InfixWithin(line, "Recent conversation:\n", context, "\n\n");
    var block := ContextBlock(h);
    InfixWithin(line, Rules, block, UserSays);
    InfixWithin(line, Preamble + wordList, Rules + block + UserSays, input + Closing);
  }

  /** With a non-empty history the prompt carries the whole block: the
      heading, then the last 6 entries' lines, oldest first, one per line,
      then a blank line. */
  lemma BlockInPrompt(wordList: string, h: History, input: string)
    requires |h| > 0
    ensures IsInfix("Recent conversation:\n" + Join(ContextLines(Recent(h)), "\n") + "\n\n",
                    BuildPrompt(wordList, h, input))
  {
    var block := ContextBlock(h);
    ContextBlockIffHistory(h);
    assert InfixAt(block, block, 0);
    InfixWithin(block, Rules, block, UserSays);
    InfixWithin(block, Preamble + wordList, Rules + block + UserSays, input + Closing);
  }

  /** The recent entries appear in the order they were recorded: the line
      of each entry is followed directly, after a line break, by the line
      of the next one. */
  lemma RecentLinesInOrder(wordList: string, h: History, input: string, i: nat)
    requires i + 1 < |Recent(h)|
    ensures IsInfix(ContextLine(Recent(h)[i]) + "\n" + ContextLine(Recent(h)[i + 1]),
                    BuildPrompt(wordList, h, input))
  {
    var lines := ContextLines(Recent(h));
    var pair := ContextLine(Recent(h)[i]) + "\n" + ContextLine(Recent(h)[i + 1]);
    assert lines[i] == ContextLine(Recent(h)[i]) && lines[i + 1] == ContextLine(Recent(h)[i + 1]);
    JoinHasNeighbours(lines, "\n", i);
    var context := HistoryContext(h);
    ContextBlockIffHistory(h);
    InfixWithin(pair, "Recent conversation:\n", context, "\n\n");
    var block := ContextBlock(h);
    InfixWithin(pair, Rules, block, UserSays);
    InfixWithin(pair, Preamble + wordList, Rules + block + UserSays, input + Closing);
  }

  /** The context block appears exactly when the history is non-empty. */
  lemma ContextBlockIffHistory(h: History)
    ensures ContextBlock(h) != "" <==> |h| > 0
  {
  }

  /** With an empty history the prompt is the instructions, the word list
      and the input, with no conversation block. */
  lemma PromptWithoutHistory(wordList: string, input: string)
    ensures BuildPrompt(wordList, [], input)
      == Preamble + wordList + (Rules + UserSays) + (input + Closing)
  {
  }

  /** Entries older than the last 6 cannot influence the prompt: prepending
      any older entries to a history of at least 6 leaves it unchanged. */
  lemma PromptIgnoresOlderEntries(wordList: string, older: History, h: History, input: string)
    requires |h| >= ContextEntries
    ensures BuildPrompt(wordList, older + h, input) == BuildPrompt(wordList, h, input)
  {
    var full := older + h;
    assert Recent(full) == Recent(h) by {
      assert Recent(full) == full[|full| - ContextEntries..];
      assert Recent(h) == h[|h| - ContextEntries..];
      assert full[|full| - ContextEntries..] == h[|h| - ContextEntries..];
    }
  }
}
