/** `removeEmojis` (backend/server.js): deletes every code point in six
    fixed ranges and keeps everything else in order. */
module Emoji {
  import opened Seqs

  /** The six ranges of the removal pattern: emoticons, miscellaneous
      symbols and pictographs, transport and map symbols, regional
      indicators, miscellaneous symbols, dingbats. */
  predicate IsEmoji(c: char) {
    var n := c as int;
    || (0x1F600 <= n <= 0x1F64F)
    || (0x1F300 <= n <= 0x1F5FF)
    || (0x1F680 <= n <= 0x1F6FF)
    || (0x1F1E0 <= n <= 0x1F1FF)
    || (0x2600 <= n <= 0x26FF)
    || (0x2700 <= n <= 0x27BF)
  }

  predicate IsKept(c: char) {
    !IsEmoji(c)
  }

  predicate EmojiFree(s: string) {
    forall k | 0 <= k < |s| :: !IsEmoji(s[k])
  }

  /** The text with every code point of the six ranges deleted. */
  function RemoveEmojis(s: string): (r: string)
    ensures EmojiFree(r)
    ensures |r| <= |s|
  {
    Filter(s, IsKept)
  }

  /** Every code point outside the ranges is kept as many times as it
      occurs; every code point inside them is gone. */
  lemma RemoveEmojisCounts(s: string, c: char)
    ensures !IsEmoji(c) ==> multiset(RemoveEmojis(s))[c] == multiset(s)[c]
    ensures IsEmoji(c) ==> c !in RemoveEmojis(s)
  {
    FilterCounts(s, IsKept, c);
    if IsEmoji(c) {
      assert multiset(RemoveEmojis(s))[c] == 0;
    }
  }

  /** Removal works piecewise, so the kept code points stay in their
      original relative order. */
  lemma RemoveEmojisConcat(a: string, b: string)
    ensures RemoveEmojis(a + b) == RemoveEmojis(a) + RemoveEmojis(b)
  {
    FilterConcat(a, b, IsKept);
  }

  /** Text with no emoji passes through unchanged. */
  lemma RemoveEmojisKeepsEmojiFree(s: string)
    requires EmojiFree(s)
    ensures RemoveEmojis(s) == s
  {
    assert forall k | 0 <= k < |s| :: IsKept(s[k]);
    FilterKeepsAll(s, IsKept);
  }

  /** Stripping twice is the same as stripping once. */
  lemma RemoveEmojisIdempotent(s: string)
    ensures RemoveEmojis(RemoveEmojis(s)) == RemoveEmojis(s)
  {
    RemoveEmojisKeepsEmojiFree(RemoveEmojis(s));
  }
}
