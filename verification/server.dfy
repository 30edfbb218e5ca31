/** The single route of the relay, `POST /api/process-speech`
    (backend/server.js), lifted out of its HTTP surroundings: translate the
    user's text to English, ask the language model for a reply, post-process
    it, translate it back and report the words used. The two remote
    services and the Unicode case mappings are parameters. */
module Server {
  import opened Wrappers
  import opened Seqs
  import opened JsText
  import opened Emoji
  import opened ReplyFilter
  import opened Conversation
  import opened Prompt
  import opened DeepL

  /** The language model endpoint: a reply for a prompt, or None when the
      request fails or the answer carries no text. */
  type Generator = string -> Option<string>

  datatype Services = Services(translate: Translator, generate: Generator)

  /** `toUpperCase` of one BMP character and `toLowerCase` of a whole
      string; both are Unicode tables outside this model. */
  datatype CaseMapping = CaseMapping(upper: char -> string, lower: string -> string)

  /** Target language used when the request names none. */
  const DefaultLang: string := "ES"

  datatype ModelCall = ModelCall(reply: string, history: History)

  /** `callOllamaQwen2`: build the prompt from the current history, ask the
      model, and on success trim the answer, strip its emoji and remember
      the exchange. On failure the reply is "Error" and the history is
      untouched. */
  function CallModel(h: History, wordList: string, input: string, lang: string, generate: Generator): (c: ModelCall)
    ensures generate(BuildPrompt(wordList, h, input)).None? ==>
      c.reply == ModelError && c.history == h
    ensures generate(BuildPrompt(wordList, h, input)).Some? ==>
      && c.reply == RemoveEmojis(Trim(generate(BuildPrompt(wordList, h, input)).value))
      && EmojiFree(c.reply)
      && c.history == Record(h, input, lang, c.reply)
    ensures c.history == h || c.history == Record(h, input, lang, c.reply)
    ensures WellFormed(h) ==> WellFormed(c.history)
  {
    match generate(BuildPrompt(wordList, h, input))
    case None => ModelCall(ModelError, h)
    case Some(raw) =>
      var reply := RemoveEmojis(Trim(raw));
      RecordPreservesWellFormed(h, input, lang, reply);
      ModelCall(reply, Record(h, input, lang, reply))
  }

  /** What the model said is what is remembered, less the emoji: every
      other code point of the trimmed answer occurs in the stored reply as
      often as in the answer, and no emoji occurs at all. */
  lemma CallModelKeepsAnswer(h: History, wordList: string, input: string, lang: string,
                             generate: Generator, raw: string, ch: char)
    requires generate(BuildPrompt(wordList, h, input)) == Some(raw)
    ensures !IsEmoji(ch) ==>
      multiset(CallModel(h, wordList, input, lang, generate).reply)[ch] == multiset(Trim(raw))[ch]
    ensures IsEmoji(ch) ==> ch !in CallModel(h, wordList, input, lang, generate).reply
  {
    RemoveEmojisCounts(Trim(raw), ch);
  }

  predicate IsCountedWord(w: string) {
    Utf16Length(w) > 1
  }

  /** `text.split(/\s+/).filter(w => w.length > 1)` on the lower-cased
      reply: whitespace-free pieces of more than one code unit. Every piece
      of the split longer than one code unit is reported as many times as
      it occurs, and nothing else is reported. */
  function WordsUsed(lowered: string): (ws: seq<string>)
    ensures forall k | 0 <= k < |ws| :: NoSpace(ws[k]) && Utf16Length(ws[k]) > 1 && ws[k] != []
    ensures forall w :: w in ws <==> w in SplitOnSpaces(lowered) && Utf16Length(w) > 1
    ensures forall w ::
      multiset(ws)[w] == if Utf16Length(w) > 1 then multiset(SplitOnSpaces(lowered))[w] else 0
  {
    var pieces := SplitOnSpaces(lowered);
    CountedWordsCounts(pieces);
    Filter(pieces, IsCountedWord)
  }

  lemma CountedWordsCounts(pieces: seq<string>)
    ensures forall w :: w in Filter(pieces, IsCountedWord) <==> w in pieces && Utf16Length(w) > 1
    ensures forall w ::
      multiset(Filter(pieces, IsCountedWord))[w] == if Utf16Length(w) > 1 then multiset(pieces)[w] else 0
  {
    forall w
      ensures multiset(Filter(pieces, IsCountedWord))[w] ==
        if Utf16Length(w) > 1 then multiset(pieces)[w] else 0
    {
      FilterCounts(pieces, IsCountedWord, w);
    }
  }

  /** For any words separated by any non-empty runs of whitespace, the
      report is those words longer than one code unit, in order, repeats
      included; when every word is that long, it is the words themselves. */
  lemma WordsUsedOfSpacedWords(ws: seq<string>, gaps: seq<string>)
    requires SplitShape(ws, gaps)
    ensures WordsUsed(Interleave(ws, gaps)) == Filter(ws, IsCountedWord)
    ensures (forall k | 0 <= k < |ws| :: Utf16Length(ws[k]) > 1) ==> WordsUsed(Interleave(ws, gaps)) == ws
  {
    SplitRoundTrip(ws, gaps);
    if forall k | 0 <= k < |ws| :: Utf16Length(ws[k]) > 1 {
      assert forall k | 0 <= k < |ws| :: IsCountedWord(ws[k]);
      FilterKeepsAll(ws, IsCountedWord);
    }
  }

  datatype Response = Response(
    userText: string,
    englishInput: string,
    aiTextRaw: string,
    aiText: string,
    aiTextX: string,
    targetLang: string,
    approvedWordsCount: nat,
    wordsUsed: seq<string>)

  datatype Outcome = Outcome(response: Response, history: History)

  /** One request. Every helper it calls absorbs its own failures, so it
      always produces a response; the history changes only by recording
      this request's English input and stored reply. */
  function ProcessSpeech(h: History, words: seq<string>, text: string, targetLang: Option<string>,
                         services: Services, cases: CaseMapping): (o: Outcome)
    ensures o.response.userText == text
    ensures o.response.targetLang == targetLang.GetOr(DefaultLang)
    ensures o.response.approvedWordsCount == |words|
    ensures o.history == h
      || o.history == Record(h, o.response.englishInput, o.response.targetLang, o.response.aiTextRaw)
  {
    var lang := targetLang.GetOr(DefaultLang);
    var englishInput := Translate(services.translate, text, lang, "EN");
    var call := CallModel(h, ApprovedWordsList(words), englishInput, lang, services.generate);
    var aiText := FilterToApprovedWords(call.reply, cases.upper);
    var aiTextX := Translate(services.translate, aiText, "EN", lang);
    Outcome(
      Response(text, englishInput, call.reply, aiText, aiTextX, lang, |words|, WordsUsed(cases.lower(aiText))),
      call.history)
  }

  /** Requests keep the shared history well formed. */
  lemma ProcessSpeechKeepsHistoryWellFormed(h: History, words: seq<string>, text: string,
                                            targetLang: Option<string>, services: Services, cases: CaseMapping)
    requires WellFormed(h)
    ensures WellFormed(ProcessSpeech(h, words, text, targetLang, services, cases).history)
  {
    var o := ProcessSpeech(h, words, text, targetLang, services, cases);
    if o.history != h {
      RecordPreservesWellFormed(h, o.response.englishInput, o.response.targetLang, o.response.aiTextRaw);
    }
  }

  /** The reply text sent back: the fallback sentence exactly when the
      model's stored reply is under 10 code units (always so when the
      model call failed), otherwise a sentence ending in a full stop; the
      reported words are whitespace-free and longer than one code unit. */
  lemma ProcessSpeechReplyShape(h: History, words: seq<string>, text: string,
                                targetLang: Option<string>, services: Services, cases: CaseMapping)
    ensures
      var r := ProcessSpeech(h, words, text, targetLang, services, cases).response;
      && (r.aiTextRaw == ModelError ==> r.aiText == Fallback)
      && (r.aiText == Fallback <==> Utf16Length(r.aiTextRaw) < MinReplyLength)
      && (r.aiText != Fallback ==> |r.aiText| > 0 && r.aiText[|r.aiText| - 1] == '.')
      && (forall k | 0 <= k < |r.wordsUsed| :: NoSpace(r.wordsUsed[k]) && Utf16Length(r.wordsUsed[k]) > 1)
  {
  }

  /** A failed translation of the user's text leaves the model to answer
      the canned English greeting; a failed model call leaves the history
      as it was. */
  lemma ProcessSpeechFailures(h: History, words: seq<string>, text: string,
                              targetLang: Option<string>, services: Services, cases: CaseMapping)
    ensures
      var o := ProcessSpeech(h, words, text, targetLang, services, cases);
      var lang := targetLang.GetOr(DefaultLang);
      && (services.translate(text, lang, "EN").None? ==> o.response.englishInput == "Hello! How are you?")
      && (services.generate(BuildPrompt(ApprovedWordsList(words), h, o.response.englishInput)).None? ==>
            o.history == h && o.response.aiTextRaw == ModelError && o.response.aiText == Fallback)
  {
  }

  /** When every translation fails, the model is asked about the canned
      English greeting and the user is answered with the canned reply for
      the practice language. */
  lemma AlwaysFailingTranslator(h: History, words: seq<string>, text: string,
                                targetLang: Option<string>, services: Services, cases: CaseMapping)
    requires forall a, b, c :: services.translate(a, b, c).None?
    ensures
      var r := ProcessSpeech(h, words, text, targetLang, services, cases).response;
      && r.englishInput == "Hello! How are you?"
      && r.aiTextX == FallbackFor(targetLang.GetOr(DefaultLang))
  {
  }

  /** The answer is trimmed before its emoji are stripped, so an emoji at
      either end can leave whitespace behind. For instance "Hello friend "
      followed by a grinning face is remembered as "Hello friend ", and is
      post-processed with a space in front of the appended full stop. */
  lemma StoredReplyCanEndInSpace(h: History, wordList: string, input: string, lang: string,
                                 generate: Generator, upper: char -> string, text: string, emoji: char)
    requires |text| > 0 && !IsJsSpace(text[0]) && EmojiFree(text) && IsEmoji(emoji)
    requires generate(BuildPrompt(wordList, h, input)) == Some(text + [emoji])
    ensures CallModel(h, wordList, input, lang, generate).reply == text
    ensures IsJsSpace(text[|text| - 1]) && Utf16Length(text) >= MinReplyLength ==>
      var out := FilterToApprovedWords(text, upper);
      |out| >= 2 && IsJsSpace(out[|out| - 2]) && out[|out| - 1] == '.'
  {
    TrailingEmojiStripped(text, emoji);
    if IsJsSpace(text[|text| - 1]) && Utf16Length(text) >= MinReplyLength {
      SpaceBeforeFullStop(text, upper);
    }
  }

  /** One emoji after a text that starts visibly is all the stripping
      removes; trailing whitespace before it stays. */
  lemma TrailingEmojiStripped(text: string, emoji: char)
    requires |text| > 0 && !IsJsSpace(text[0]) && EmojiFree(text) && IsEmoji(emoji)
    ensures RemoveEmojis(Trim(text + [emoji])) == text
  {
    var raw := text + [emoji];
    assert raw[|raw| - 1] == emoji;
    assert !IsJsSpace(emoji);
    TrimKeepsVisibleEnds(raw);
    RemoveEmojisConcat(text, [emoji]);
    FilterSingleton(emoji, IsKept);
    RemoveEmojisKeepsEmojiFree(text);
  }

  /** A long enough reply ending in whitespace keeps that whitespace right
      before the appended full stop. */
  lemma SpaceBeforeFullStop(text: string, upper: char -> string)
    requires |text| > 0 && IsJsSpace(text[|text| - 1]) && Utf16Length(text) >= MinReplyLength
    ensures
      var out := FilterToApprovedWords(text, upper);
      |out| >= 2 && IsJsSpace(out[|out| - 2]) && out[|out| - 1] == '.'
  {
    var out := FilterToApprovedWords(text, upper);
    assert |text| >= 2;
    var body := UpperFirst(text[0], upper) + text[1..];
    assert out[..|out| - 1] == body;
    assert body[|body| - 1] == text[|text| - 1];
  }

  /** An emoji at the start of the answer is stripped after trimming, so
      whitespace that followed it is remembered at the head of the reply.
      The post-processing then upper-cases that whitespace, which for
      whitespace is the identity, and the reply comes back with no letter
      capitalised and only a full stop appended. */
  lemma StoredReplyCanStartWithSpace(h: History, wordList: string, input: string, lang: string,
                                     generate: Generator, upper: char -> string, emoji: char, text: string)
    requires |text| > 0 && !IsJsSpace(text[|text| - 1]) && EmojiFree(text) && IsEmoji(emoji)
    requires generate(BuildPrompt(wordList, h, input)) == Some([emoji] + text)
    ensures CallModel(h, wordList, input, lang, generate).reply == text
    ensures IsJsSpace(text[0]) && upper(text[0]) == [text[0]] && Utf16Length(text) >= MinReplyLength ==>
      FilterToApprovedWords(text, upper) == text + "."
  {
    LeadingEmojiStripped(emoji, text);
    if IsJsSpace(text[0]) && upper(text[0]) == [text[0]] && Utf16Length(text) >= MinReplyLength {
      UnchangedHeadKeepsReply(text, upper);
    }
  }

  /** One emoji before a text that ends visibly is all the stripping
      removes; leading whitespace after it stays. */
  lemma LeadingEmojiStripped(emoji: char, text: string)
    requires |text| > 0 && !IsJsSpace(text[|text| - 1]) && EmojiFree(text) && IsEmoji(emoji)
    ensures RemoveEmojis(Trim([emoji] + text)) == text
  {
    var raw := [emoji] + text;
    assert raw[0] == emoji;
    assert !IsJsSpace(emoji);
    TrimKeepsVisibleEnds(raw);
    RemoveEmojisConcat([emoji], text);
    FilterSingleton(emoji, IsKept);
    RemoveEmojisKeepsEmojiFree(text);
  }
}
