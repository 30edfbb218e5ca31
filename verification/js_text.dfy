/** The JavaScript string primitives the relay relies on: `.length`,
    `trim()` and `split(/\s+/)`. A JavaScript string is modelled as its
    sequence of code points; `.length` counts UTF-16 code units. */
module JsText {
  import opened Seqs

  /** UTF-16 code units needed for one code point. */
  function CodeUnits(c: char): nat {
    if c as int >= 0x1_0000 then 2 else 1
  }

  /** `s.length`: one unit per code point below U+10000, two above. */
  function Utf16Length(s: string): (n: nat)
    ensures |s| <= n <= 2 * |s|
    ensures n == 0 <==> |s| == 0
  {
    if |s| == 0 then 0 else CodeUnits(s[0]) + Utf16Length(s[1..])
  }

  /** ECMAScript WhiteSpace and LineTerminator code points: what `trim()`
      removes and what `\s` matches. */
  predicate IsJsSpace(c: char) {
    var n := c as int;
    || n == 0x09 || n == 0x0A || n == 0x0B || n == 0x0C || n == 0x0D
    || n == 0x20 || n == 0xA0 || n == 0x1680
    || (0x2000 <= n <= 0x200A)
    || n == 0x2028 || n == 0x2029 || n == 0x202F || n == 0x205F
    || n == 0x3000 || n == 0xFEFF
  }

  predicate NoSpace(s: string) {
    forall k | 0 <= k < |s| :: !IsJsSpace(s[k])
  }

  /** Length of the maximal run of whitespace at the start of `s`. */
  function LeadingSpaces(s: string): (n: nat)
    ensures n <= |s|
    ensures forall k | 0 <= k < n :: IsJsSpace(s[k])
    ensures n < |s| ==> !IsJsSpace(s[n])
  {
    if |s| == 0 || !IsJsSpace(s[0]) then 0 else 1 + LeadingSpaces(s[1..])
  }

  /** Length of the maximal run of whitespace at the end of `s`. */
  function TrailingSpaces(s: string): (n: nat)
    ensures n <= |s|
    ensures forall k | |s| - n <= k < |s| :: IsJsSpace(s[k])
    ensures n < |s| ==> !IsJsSpace(s[|s| - n - 1])
  {
    if |s| == 0 || !IsJsSpace(s[|s| - 1]) then 0
    else 1 + TrailingSpaces(s[..|s| - 1])
  }

  /** `s.trim()`: the infix of `s` left after removing whitespace from both
      ends. Everything removed is whitespace, and what is left neither
      starts nor ends with whitespace. */
  function Trim(s: string): (r: string)
    ensures LeadingSpaces(s) + |r| <= |s|
    ensures r == s[LeadingSpaces(s)..LeadingSpaces(s) + |r|]
    ensures forall k | LeadingSpaces(s) + |r| <= k < |s| :: IsJsSpace(s[k])
    ensures |r| > 0 ==> !IsJsSpace(r[0]) && !IsJsSpace(r[|r| - 1])
    ensures NoSpace(s) ==> r == s
  {
    var rest := s[LeadingSpaces(s)..];
    rest[..|rest| - TrailingSpaces(rest)]
  }

  lemma TrimIdempotent(s: string)
    ensures Trim(Trim(s)) == Trim(s)
  {
  }

  /** A string that starts and ends with a visible code point is its own
      trim. */
  lemma TrimKeepsVisibleEnds(s: string)
    requires |s| > 0 && !IsJsSpace(s[0]) && !IsJsSpace(s[|s| - 1])
    ensures Trim(s) == s
  {
  }

  /** Index of the first whitespace code point, or |s| when there is none. */
  function FirstSpace(s: string): (i: nat)
    ensures i <= |s|
    ensures forall k | 0 <= k < i :: !IsJsSpace(s[k])
    ensures i < |s| ==> IsJsSpace(s[i])
  {
    if |s| == 0 || IsJsSpace(s[0]) then 0 else 1 + FirstSpace(s[1..])
  }

  /** End of the whitespace run that starts at the first whitespace code
      point. */
  function RunEnd(s: string): (j: nat)
    requires FirstSpace(s) < |s|
    ensures FirstSpace(s) < j <= |s|
  {
    var i := FirstSpace(s);
    assert s[i..][0] == s[i];
    i + LeadingSpaces(s[i..])
  }

  /** The pieces between maximal runs of whitespace, cut at the first run
      and recursing on what follows it. */
  function Pieces(s: string): seq<string>
    decreases |s|
  {
    if FirstSpace(s) == |s| then [s]
    else [s[..FirstSpace(s)]] + Pieces(s[RunEnd(s)..])
  }

  /** One step of the recursion, at the first run of whitespace. */
  lemma PiecesStep(s: string)
    requires FirstSpace(s) < |s|
    ensures Pieces(s) == [s[..FirstSpace(s)]] + Pieces(s[RunEnd(s)..])
  {
  }

  /** The first run is all whitespace and is followed by a visible code
      point or by the end. */
  lemma RunAt(s: string)
    requires FirstSpace(s) < |s|
    ensures AllSpace(s[FirstSpace(s)..RunEnd(s)])
    ensures RunEnd(s) < |s| ==> !IsJsSpace(s[RunEnd(s)])
  {
    var i := FirstSpace(s);
    var n := LeadingSpaces(s[i..]);
    assert RunEnd(s) == i + n;
    RunFrom(s, i);
  }

  /** The maximal run of whitespace starting at any position `i`. */
  lemma RunFrom(s: string, i: nat)
    requires i <= |s|
    ensures AllSpace(s[i..i + LeadingSpaces(s[i..])])
    ensures i + LeadingSpaces(s[i..]) < |s| ==> !IsJsSpace(s[i + LeadingSpaces(s[i..])])
  {
    var t := s[i..];
    var n := LeadingSpaces(t);
    assert forall k | 0 <= k < n :: s[i..i + n][k] == t[k];
    assert i + n < |s| ==> t[n] == s[i + n];
  }

  /** The pieces have the shape `split(/\s+/)` promises. */
  lemma {:induction false} PiecesShape(s: string)
    ensures |Pieces(s)| >= 1
    ensures forall k | 0 <= k < |Pieces(s)| :: NoSpace(Pieces(s)[k])
    ensures forall k | 0 < k < |Pieces(s)| - 1 :: Pieces(s)[k] != []
    ensures |s| > 0 && !IsJsSpace(s[0]) ==> Pieces(s)[0] != []
    ensures NoSpace(s) ==> Pieces(s) == [s]
    decreases |s|
  {
    var i := FirstSpace(s);
    if i < |s| {
      var j := RunEnd(s);
      PiecesStep(s);
      RunAt(s);
      PiecesShape(s[j..]);
      var rest := Pieces(s[j..]);
      assert forall k | 0 < k < |Pieces(s)| :: Pieces(s)[k] == rest[k - 1];
      assert forall k | 0 <= k < i :: s[..i][k] == s[k];
      assert j < |s| ==> s[j..][0] == s[j];
    }
  }

  /** `s.split(/\s+/)`: the pieces between maximal runs of whitespace. A
      leading run yields an empty first piece, a trailing run an empty last
      piece, and the empty string yields one empty piece; every other piece
      is non-empty and no piece holds whitespace. */
  function SplitOnSpaces(s: string): (r: seq<string>)
    ensures |r| >= 1
    ensures forall k | 0 <= k < |r| :: NoSpace(r[k])
    ensures forall k | 0 < k < |r| - 1 :: r[k] != []
    ensures |s| > 0 && !IsJsSpace(s[0]) ==> r[0] != []
    ensures NoSpace(s) ==> r == [s]
  {
    PiecesShape(s);
    Pieces(s)
  }

  /** The pieces, concatenated, are the input with its whitespace removed:
      no other code point is lost, duplicated or reordered. */
  lemma SplitKeepsEverythingButSpaces(s: string)
    ensures Join(SplitOnSpaces(s), []) == Filter(s, IsVisible)
  {
    PiecesKeepVisible(s);
  }

  lemma {:induction false} PiecesKeepVisible(s: string)
    ensures Join(Pieces(s), []) == Filter(s, IsVisible)
    decreases |s|
  {
    var i := FirstSpace(s);
    if i == |s| {
      FilterKeepsAll(s, IsVisible);
    } else {
      var j := RunEnd(s);
      PiecesStep(s);
      PiecesShape(s[j..]);
      PiecesKeepVisible(s[j..]);
      JoinCons(s[..i], Pieces(s[j..]));
      FilterOfRunSplit(s, i, j);
    }
  }

  /** Joining with an empty separator after consing one piece. */
  lemma {:induction false} JoinCons(x: string, rest: seq<string>)
    requires |rest| >= 1
    ensures Join([x] + rest, []) == x + Join(rest, [])
  {
  }

  /** Removing whitespace from a string cut into a visible prefix, a
      whitespace run and the rest keeps the prefix and drops the run. */
  lemma FilterOfRunSplit(s: string, i: nat, j: nat)
    requires i <= j <= |s|
    requires forall k | 0 <= k < i :: !IsJsSpace(s[k])
    requires forall k | i <= k < j :: IsJsSpace(s[k])
    ensures Filter(s, IsVisible) == s[..i] + Filter(s[j..], IsVisible)
  {
    var a, b, c := s[..i], s[i..j], s[j..];
    ThreeParts(s, i, j);
    assert forall k | 0 <= k < |a| :: a[k] == s[k];
    assert forall k | 0 <= k < |b| :: b[k] == s[i + k];
    FilterKeepDropRest(a, b, c, IsVisible);
  }

  predicate IsVisible(c: char) {
    !IsJsSpace(c)
  }

  predicate AllSpace(g: string) {
    forall k | 0 <= k < |g| :: IsJsSpace(g[k])
  }

  /** `ws[0] + gaps[0] + ws[1] + ... + ws[|ws| - 1]`: pieces with the given
      separators between them. */
  function Interleave(ws: seq<string>, gaps: seq<string>): (s: string)
    requires |ws| == |gaps| + 1
    ensures IsPrefix(ws[0], s)
    decreases |gaps|
  {
    if |gaps| == 0 then ws[0]
    else ws[0] + gaps[0] + Interleave(ws[1..], gaps[1..])
  }

  lemma InterleaveCons(w: string, g: string, ws: seq<string>, gaps: seq<string>)
    requires |ws| == |gaps| + 1
    ensures Interleave([w] + ws, [g] + gaps) == w + g + Interleave(ws, gaps)
  {
    assert ([w] + ws)[1..] == ws;
    assert ([g] + gaps)[1..] == gaps;
  }

  /** The shape `split(/\s+/)` produces: whitespace-free pieces, every inner
      piece non-empty, consecutive pieces separated by a non-empty run of
      whitespace. */
  predicate SplitShape(ws: seq<string>, gaps: seq<string>) {
    && |ws| == |gaps| + 1
    && (forall k | 0 <= k < |ws| :: NoSpace(ws[k]))
    && (forall k | 0 < k < |ws| - 1 :: ws[k] != [])
    && (forall k | 0 <= k < |gaps| :: gaps[k] != [] && AllSpace(gaps[k]))
  }

  /** The whitespace runs the split cuts at, in order. */
  function SpaceRuns(s: string): seq<string>
    decreases |s|
  {
    if FirstSpace(s) == |s| then []
    else [s[FirstSpace(s)..RunEnd(s)]] + SpaceRuns(s[RunEnd(s)..])
  }

  /** The same step for the runs. */
  lemma RunsStep(s: string)
    requires FirstSpace(s) < |s|
    ensures SpaceRuns(s) == [s[FirstSpace(s)..RunEnd(s)]] + SpaceRuns(s[RunEnd(s)..])
  {
  }

  /** One run fewer than pieces. */
  lemma {:induction false} RunsCount(s: string)
    ensures |SpaceRuns(s)| == |Pieces(s)| - 1
    decreases |s|
  {
    var i := FirstSpace(s);
    if i < |s| {
      var j := RunEnd(s);
      PiecesStep(s);
      RunsStep(s);
      RunsCount(s[j..]);
    }
  }

  /** Every run is non-empty and all whitespace. */
  lemma {:induction false} RunsAreSpace(s: string)
    ensures forall k | 0 <= k < |SpaceRuns(s)| :: SpaceRuns(s)[k] != [] && AllSpace(SpaceRuns(s)[k])
    decreases |s|
  {
    var i := FirstSpace(s);
    if i < |s| {
      var j := RunEnd(s);
      RunsStep(s);
      RunAt(s);
      RunsAreSpace(s[j..]);
      var gs := SpaceRuns(s[j..]);
      assert forall k | 0 < k < |SpaceRuns(s)| :: SpaceRuns(s)[k] == gs[k - 1];
    }
  }

  /** Every string is its split pieces put back together with the
      whitespace runs between them, and those pieces and runs have the
      split shape. */
  lemma SplitRebuilds(s: string)
    ensures SplitShape(SplitOnSpaces(s), SpaceRuns(s))
    ensures Interleave(SplitOnSpaces(s), SpaceRuns(s)) == s
  {
    RunsCount(s);
    RunsAreSpace(s);
    PiecesRebuild(s);
  }

  lemma {:induction false} PiecesRebuild(s: string)
    ensures |SpaceRuns(s)| == |Pieces(s)| - 1
    ensures Interleave(Pieces(s), SpaceRuns(s)) == s
    decreases |s|
  {
    RunsCount(s);
    var i := FirstSpace(s);
    if i < |s| {
      var j := RunEnd(s);
      PiecesStep(s);
      RunsStep(s);
      PiecesRebuild(s[j..]);
      InterleaveCons(s[..i], s[i..j], Pieces(s[j..]), SpaceRuns(s[j..]));
      ThreeParts(s, i, j);
    }
  }

  /** A whitespace run followed by nothing or by a visible code point is
      exactly the leading run. */
  lemma LeadingSpacesOfRun(g: string, rest: string)
    requires AllSpace(g)
    requires rest == [] || !IsJsSpace(rest[0])
    ensures LeadingSpaces(g + rest) == |g|
  {
    var t := g + rest;
    assert forall k | 0 <= k < |g| :: t[k] == g[k];
    assert |rest| > 0 ==> t[|g|] == rest[0];
  }

  /** One step of the split: a visible piece, a whitespace run and a rest
      that does not start with whitespace split as the piece followed by the
      split of the rest. */
  lemma PiecesCons(w: string, g: string, rest: string)
    requires NoSpace(w) && g != [] && AllSpace(g)
    requires rest == [] || !IsJsSpace(rest[0])
    ensures Pieces(w + g + rest) == [w] + Pieces(rest)
  {
    var s := w + g + rest;
    SliceThree(w, g, rest);
    FirstSpaceAfterPiece(w, g, rest);
    LeadingSpacesOfRun(g, rest);
    assert RunEnd(s) == |w| + |g|;
    PiecesStep(s);
  }

  lemma FirstSpaceAfterPiece(w: string, g: string, rest: string)
    requires NoSpace(w) && g != [] && IsJsSpace(g[0])
    ensures FirstSpace(w + g + rest) == |w|
  {
    var s := w + g + rest;
    assert forall k | 0 <= k < |w| :: s[k] == w[k];
    assert s[|w|] == g[0];
  }

  /** Dropping the first piece and the first run keeps the split shape. */
  lemma ShapeTail(ws: seq<string>, gaps: seq<string>)
    requires SplitShape(ws, gaps) && |gaps| > 0
    ensures SplitShape(ws[1..], gaps[1..])
  {
    assert forall k | 0 <= k < |ws| - 1 :: ws[1..][k] == ws[k + 1];
    assert forall k | 0 <= k < |gaps| - 1 :: gaps[1..][k] == gaps[k + 1];
  }

  /** After the first run, the rest of an interleaving starts with a
      visible code point or is empty. */
  lemma TailStartsVisible(ws: seq<string>, gaps: seq<string>)
    requires SplitShape(ws, gaps) && |gaps| > 0
    ensures Interleave(ws[1..], gaps[1..]) == [] || !IsJsSpace(Interleave(ws[1..], gaps[1..])[0])
  {
    assert IsPrefix(ws[1], Interleave(ws[1..], gaps[1..]));
    assert |ws| > 2 ==> ws[1] != [];
  }

  /** Splitting undoes interleaving, for every list of pieces and runs of
      the split shape. With SplitRebuilds this fixes the split exactly: the
      pieces are the only ones of that shape that rebuild the string. */
  lemma SplitRoundTrip(ws: seq<string>, gaps: seq<string>)
    requires SplitShape(ws, gaps)
    ensures SplitOnSpaces(Interleave(ws, gaps)) == ws
  {
    PiecesOfInterleave(ws, gaps);
  }

  lemma {:induction false} PiecesOfInterleave(ws: seq<string>, gaps: seq<string>)
    requires SplitShape(ws, gaps)
    ensures Pieces(Interleave(ws, gaps)) == ws
    decreases |gaps|
  {
    if |gaps| > 0 {
      var rest := Interleave(ws[1..], gaps[1..]);
      ShapeTail(ws, gaps);
      TailStartsVisible(ws, gaps);
      PiecesCons(ws[0], gaps[0], rest);
      PiecesOfInterleave(ws[1..], gaps[1..]);
      assert [ws[0]] + ws[1..] == ws;
    }
  }
}
