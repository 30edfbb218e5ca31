/** The process-wide conversation memory of the relay
    (`conversationHistory` in backend/server.js): a FIFO buffer to which
    every successful model call appends one user entry and one assistant
    entry, after which it is cut back to its last 12 entries. Prompts read
    back only its last 6 entries. */
module Conversation {
  import opened Seqs

  /** One remembered message. User entries carry the practice language
      tag; assistant entries do not. */
  datatype Entry =
    | UserTurn(content: string, lang: string)
    | AssistantTurn(content: string)

  type History = seq<Entry>

  /** Entries kept after an update. */
  const MaxEntries: nat := 12

  /** Entries read back into a prompt. */
  const ContextEntries: nat := 6

  /** The history after one successful model call: the user input and the
      reply are pushed, then the buffer is cut to its last 12 entries. The
      new pair is at the end, preceded by the most recent prior entries in
      their original order. */
  function Record(h: History, input: string, lang: string, reply: string): (h': History)
    ensures |h'| == Min(|h| + 2, MaxEntries)
    ensures h'[|h'| - 2] == UserTurn(input, lang)
    ensures h'[|h'| - 1] == AssistantTurn(reply)
    ensures h'[..|h'| - 2] == h[|h| - (|h'| - 2)..]
  {
    var pushed := h + [UserTurn(input, lang), AssistantTurn(reply)];
    if |pushed| > MaxEntries then pushed[|pushed| - MaxEntries..] else pushed
  }

  /** `conversationHistory.slice(-6)`: the prompt context. */
  function Recent(h: History): (r: History)
    ensures |r| == Min(|h|, ContextEntries)
    ensures h == h[..|h| - |r|] + r
  {
    Last(h, ContextEntries)
  }

  /** The shape every reachable history has: at most 12 entries, an even
      number of them, user entries at even positions and assistant entries
      at odd ones. */
  ghost predicate WellFormed(h: History) {
    && |h| <= MaxEntries
    && |h| % 2 == 0
    && forall i | 0 <= i < |h| :: h[i].UserTurn? <==> i % 2 == 0
  }

  /** Recording one exchange keeps the history well formed: pairs are
      pushed, and the number of entries cut off is even because 12 is. */
  lemma RecordPreservesWellFormed(h: History, input: string, lang: string, reply: string)
    ensures WellFormed(h) ==> WellFormed(Record(h, input, lang, reply))
  {
    if !WellFormed(h) {
      return;
    }
    var pushed := h + [UserTurn(input, lang), AssistantTurn(reply)];
    assert forall i | 0 <= i < |pushed| :: pushed[i].UserTurn? <==> i % 2 == 0 by {
      forall i | 0 <= i < |pushed|
        ensures pushed[i].UserTurn? <==> i % 2 == 0
      {
        if i < |h| {
          assert pushed[i] == h[i];
        }
      }
    }
    if |pushed| > MaxEntries {
      var cut := |pushed| - MaxEntries;
      assert cut == 2;
      var h' := pushed[cut..];
      forall i | 0 <= i < |h'|
        ensures h'[i].UserTurn? <==> i % 2 == 0
      {
        assert h'[i] == pushed[i + cut];
      }
    }
  }

  /** One successful model call, as far as the history is concerned. */
  datatype Exchange = Exchange(input: string, lang: string, reply: string)

  /** The history after a run of successful calls, starting from the empty
      buffer the process begins with. */
  function Replay(xs: seq<Exchange>): History
    decreases |xs|
  {
    if |xs| == 0 then []
    else
      var x := xs[|xs| - 1];
      Record(Replay(xs[..|xs| - 1]), x.input, x.lang, x.reply)
  }

  /** Every entry ever pushed, oldest first, with nothing evicted. */
  function Transcript(xs: seq<Exchange>): History
    decreases |xs|
  {
    if |xs| == 0 then []
    else
      var x := xs[|xs| - 1];
      Transcript(xs[..|xs| - 1]) + [UserTurn(x.input, x.lang), AssistantTurn(x.reply)]
  }

  /** The buffer is exactly the last 12 entries of the full transcript:
      trimming after every push loses nothing that trimming once at the end
      would keep. */
  lemma {:induction false} ReplayIsLastOfTranscript(xs: seq<Exchange>)
    ensures Replay(xs) == Last(Transcript(xs), MaxEntries)
    decreases |xs|
  {
    if |xs| > 0 {
      var prefix := xs[..|xs| - 1];
      var x := xs[|xs| - 1];
      var pair := [UserTurn(x.input, x.lang), AssistantTurn(x.reply)];
      ReplayIsLastOfTranscript(prefix);
      LastOfLast(Transcript(prefix), pair, MaxEntries);
    }
  }

  /** Starting from the empty buffer, the history is always well formed. */
  lemma {:induction false} ReplayWellFormed(xs: seq<Exchange>)
    ensures WellFormed(Replay(xs))
    decreases |xs|
  {
    if |xs| > 0 {
      var x := xs[|xs| - 1];
      ReplayWellFormed(xs[..|xs| - 1]);
      RecordPreservesWellFormed(Replay(xs[..|xs| - 1]), x.input, x.lang, x.reply);
    }
  }

  /** In a well-formed history the prompt context is whole exchanges: an
      even number of entries, at most 6, opening with a user entry. */
  lemma RecentIsWholeExchanges(h: History)
    requires WellFormed(h)
    ensures |Recent(h)| % 2 == 0
    ensures |Recent(h)| > 0 ==> Recent(h)[0].UserTurn?
  {
  }
}
