/** `filterToApprovedWords` (backend/server.js): the cosmetic transform
    applied to every model reply. Despite its name it takes no word list
    and removes nothing: a short reply is replaced by a fixed sentence,
    any other reply gets its first character upper-cased and a full stop
    appended. */
module ReplyFilter {
  import opened JsText

  /** The safety fallback. It does not end in a full stop. */
  const Fallback: string := "It seems there was a problem"

  /** The string the model call returns when it fails. */
  const ModelError: string := "Error"

  /** Replies shorter than this many UTF-16 code units are replaced. */
  const MinReplyLength: nat := 10

  /** `reply.charAt(0).toUpperCase()`. For a code point below U+10000 this
      is the case mapping `upper`, which may return several characters.
      For a code point above, `charAt(0)` is a lone high surrogate that
      upper-casing leaves alone, and concatenating it with `reply.slice(1)`
      restores the original code point. */
  function UpperFirst(c: char, upper: char -> string): string {
    if c as int < 0x1_0000 then upper(c) else [c]
  }

  /** The post-processed reply. The fallback is chosen exactly when the
      reply is shorter than 10 code units (an empty reply and the error
      marker "Error" are both that short); otherwise the result is the
      reply with its head upper-cased, the rest untouched, and a final
      full stop, so the two kinds of result can always be told apart. */
  function FilterToApprovedWords(reply: string, upper: char -> string): (r: string)
    ensures r == Fallback <==> Utf16Length(reply) < MinReplyLength
    ensures r != Fallback ==>
      && |reply| > 0 && |r| > 0
      && r[|r| - 1] == '.'
      && r[..|r| - 1] == UpperFirst(reply[0], upper) + reply[1..]
    ensures r == Fallback ==> r[|r| - 1] != '.'
  {
    ErrorMarkerIsShort();
    if Utf16Length(reply) < MinReplyLength || reply == ModelError then
      Fallback
    else
      var r := UpperFirst(reply[0], upper) + reply[1..] + ".";
      assert r[|r| - 1] == '.' != Fallback[|Fallback| - 1];
      r
  }

  /** A reply of at least 10 code units is never replaced: it is the
      reply with its head upper-cased and a full stop appended. */
  lemma LongReplyKept(reply: string, upper: char -> string)
    requires Utf16Length(reply) >= MinReplyLength
    ensures |reply| > 0
    ensures FilterToApprovedWords(reply, upper) == UpperFirst(reply[0], upper) + reply[1..] + "."
  {
    ErrorMarkerIsShort();
    assert reply != ModelError;
  }

  /** A long enough reply whose head the upper-casing leaves alone (a code
      point above U+FFFF, or one with no upper-case form) comes back
      verbatim with only a full stop appended. */
  lemma UnchangedHeadKeepsReply(reply: string, upper: char -> string)
    requires |reply| > 0 && Utf16Length(reply) >= MinReplyLength
    requires reply[0] as int >= 0x1_0000 || upper(reply[0]) == [reply[0]]
    ensures FilterToApprovedWords(reply, upper) == reply + "."
  {
    HeadRestored(reply, upper);
    LongReplyKept(reply, upper);
  }

  lemma HeadRestored(reply: string, upper: char -> string)
    requires |reply| > 0
    requires reply[0] as int >= 0x1_0000 || upper(reply[0]) == [reply[0]]
    ensures UpperFirst(reply[0], upper) + reply[1..] == reply
  {
    assert [reply[0]] + reply[1..] == reply;
  }

  /** The comparison with "Error" never decides anything: that string is
      already shorter than 10 code units. */
  lemma ErrorMarkerIsShort()
    ensures Utf16Length(ModelError) < MinReplyLength
  {
  }
}
