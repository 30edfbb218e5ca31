/** Generic sequence operations shared by the string-handling parts of the
    relay: JavaScript's `Array.prototype.filter`, `join` and `slice(-n)`,
    stated over Dafny sequences. */
module Seqs {

  function Min(a: int, b: int): int {
    if a <= b then a else b
  }

  predicate IsPrefix<T(==)>(a: seq<T>, b: seq<T>) {
    |a| <= |b| && b[..|a|] == a
  }

  predicate IsSuffix<T(==)>(a: seq<T>, b: seq<T>) {
    |a| <= |b| && b[|b| - |a|..] == a
  }

  /** `a` occurs in `b` starting at position `k`. */
  predicate InfixAt<T(==)>(a: seq<T>, b: seq<T>, k: nat) {
    k + |a| <= |b| && b[k..k + |a|] == a
  }

  ghost predicate IsInfix<T>(a: seq<T>, b: seq<T>) {
    exists k: nat :: InfixAt(a, b, k)
  }

  /** An infix of the middle part is an infix of the whole. */
  lemma InfixWithin<T>(a: seq<T>, p: seq<T>, m: seq<T>, q: seq<T>)
    requires IsInfix(a, m)
    ensures IsInfix(a, p + m + q)
  {
    var k: nat :| InfixAt(a, m, k);
    var s := p + m + q;
    assert s[|p| + k..|p| + k + |a|] == m[k..k + |a|];
    assert InfixAt(a, s, |p| + k);
  }

  /** Every part of a join occurs in it. */
  lemma {:induction false} JoinHasPart<T>(xs: seq<seq<T>>, sep: seq<T>, i: nat)
    requires i < |xs|
    ensures IsInfix(xs[i], Join(xs, sep))
    decreases i
  {
    var s := Join(xs, sep);
    if |xs| == 1 {
      assert InfixAt(xs[i], s, 0);
    } else if i == 0 {
      assert s[..|xs[0]|] == xs[0];
      assert InfixAt(xs[0], s, 0);
    } else {
      JoinHasPart(xs[1..], sep, i - 1);
      InfixWithin(xs[i], xs[0] + sep, Join(xs[1..], sep), []);
      assert xs[0] + sep + Join(xs[1..], sep) + [] == s;
    }
  }

  /** A non-empty join opens with its first part. */
  lemma JoinStartsWithFirst<T>(xs: seq<seq<T>>, sep: seq<T>)
    requires |xs| > 0
    ensures IsPrefix(xs[0], Join(xs, sep))
  {
    var s := Join(xs, sep);
    if |xs| > 1 {
      assert s[..|xs[0]|] == xs[0];
    }
  }

  /** Neighbouring parts of a join occur in it next to each other, in
      order, with the separator between them. */
  lemma {:induction false} JoinHasNeighbours<T>(xs: seq<seq<T>>, sep: seq<T>, i: nat)
    requires i + 1 < |xs|
    ensures IsInfix(xs[i] + sep + xs[i + 1], Join(xs, sep))
    decreases i
  {
    var s := Join(xs, sep);
    var rest := Join(xs[1..], sep);
    assert s == xs[0] + sep + rest;
    if i == 0 {
      JoinStartsWithFirst(xs[1..], sep);
      var pair := xs[0] + sep + xs[1];
      assert rest[..|xs[1]|] == xs[1];
      assert s[..|pair|] == pair;
      assert InfixAt(pair, s, 0);
    } else {
      JoinHasNeighbours(xs[1..], sep, i - 1);
      InfixWithin(xs[i] + sep + xs[i + 1], xs[0] + sep, rest, []);
      assert xs[0] + sep + rest + [] == s;
    }
  }

  /** The outer parts of a three-part concatenation are its prefix and
      suffix. */
  lemma ConcatEnds<T>(a: seq<T>, b: seq<T>, c: seq<T>)
    ensures IsPrefix(a, a + b + c) && IsSuffix(c, a + b + c)
  {
    var s := a + b + c;
    assert s[..|a|] == a;
    assert s[|s| - |c|..] == c;
  }

  /** Cutting a sequence at two points and putting the three parts back
      together gives the sequence. */
  lemma ThreeParts<T>(s: seq<T>, i: nat, j: nat)
    requires i <= j <= |s|
    ensures s == s[..i] + s[i..j] + s[j..]
  {
  }

  /** The parts of a three-part concatenation, read back by slicing. */
  lemma SliceThree<T>(a: seq<T>, b: seq<T>, c: seq<T>)
    ensures (a + b + c)[..|a|] == a
    ensures (a + b + c)[|a|..] == b + c
    ensures (a + b + c)[|a| + |b|..] == c
  {
  }

  /** `xs.filter(keep)`: the elements of `xs` that satisfy `keep`, in order. */
  function Filter<T>(xs: seq<T>, keep: T -> bool): (r: seq<T>)
    ensures |r| <= |xs|
    ensures forall k | 0 <= k < |r| :: keep(r[k])
  {
    if |xs| == 0 then []
    else if keep(xs[0]) then [xs[0]] + Filter(xs[1..], keep)
    else Filter(xs[1..], keep)
  }

  /** Filtering distributes over concatenation: together with the two
      single-element cases below it fixes Filter as "keep in order". */
  lemma {:induction false} FilterConcat<T>(a: seq<T>, b: seq<T>, keep: T -> bool)
    ensures Filter(a + b, keep) == Filter(a, keep) + Filter(b, keep)
    decreases |a|
  {
    if |a| == 0 {
      assert a + b == b;
    } else {
      assert (a + b)[1..] == a[1..] + b;
      FilterConcat(a[1..], b, keep);
    }
  }

  lemma FilterSingleton<T>(x: T, keep: T -> bool)
    ensures keep(x) ==> Filter([x], keep) == [x]
    ensures !keep(x) ==> Filter([x], keep) == []
  {
  }

  /** A sequence all of whose elements are kept is left unchanged. */
  lemma {:induction false} FilterKeepsAll<T>(xs: seq<T>, keep: T -> bool)
    requires forall k | 0 <= k < |xs| :: keep(xs[k])
    ensures Filter(xs, keep) == xs
    decreases |xs|
  {
    if |xs| > 0 {
      FilterKeepsAll(xs[1..], keep);
    }
  }

  /** A sequence none of whose elements is kept filters to nothing. */
  lemma {:induction false} FilterKeepsNone<T>(xs: seq<T>, keep: T -> bool)
    requires forall k | 0 <= k < |xs| :: !keep(xs[k])
    ensures Filter(xs, keep) == []
    decreases |xs|
  {
    if |xs| > 0 {
      FilterKeepsNone(xs[1..], keep);
    }
  }

  /** Filtering a kept prefix, then a dropped run, then anything. */
  lemma FilterKeepDropRest<T>(a: seq<T>, b: seq<T>, c: seq<T>, keep: T -> bool)
    requires forall k | 0 <= k < |a| :: keep(a[k])
    requires forall k | 0 <= k < |b| :: !keep(b[k])
    ensures Filter(a + b + c, keep) == a + Filter(c, keep)
  {
    var bc := b + c;
    assert a + b + c == a + bc;
    assert Filter(bc, keep) == Filter(c, keep) by {
      FilterConcat(b, c, keep);
      FilterKeepsNone(b, keep);
    }
    assert Filter(a, keep) == a by {
      FilterKeepsAll(a, keep);
    }
    FilterConcat(a, bc, keep);
  }

  /** Every kept value occurs exactly as often as in the input; every
      dropped value does not occur at all. */
  lemma {:induction false} FilterCounts<T>(xs: seq<T>, keep: T -> bool, x: T)
    ensures keep(x) ==> multiset(Filter(xs, keep))[x] == multiset(xs)[x]
    ensures !keep(x) ==> multiset(Filter(xs, keep))[x] == 0
    decreases |xs|
  {
    if |xs| > 0 {
      FilterCounts(xs[1..], keep, x);
      assert xs == [xs[0]] + xs[1..];
      assert multiset(xs) == multiset([xs[0]]) + multiset(xs[1..]);
    }
  }

  /** `xs.join(sep)`: the elements separated by `sep`; "" for no elements. */
  function Join<T>(xs: seq<seq<T>>, sep: seq<T>): seq<T>
    decreases |xs|
  {
    if |xs| == 0 then []
    else if |xs| == 1 then xs[0]
    else xs[0] + sep + Join(xs[1..], sep)
  }

  /** Cutting the list of parts at any inner position `k` cuts the joined
      string at one separator. */
  lemma {:induction false} JoinSplitAt<T>(xs: seq<seq<T>>, sep: seq<T>, k: nat)
    requires 0 < k < |xs|
    ensures Join(xs, sep) == Join(xs[..k], sep) + sep + Join(xs[k..], sep)
    decreases k
  {
    if k > 1 {
      JoinSplitAt(xs[1..], sep, k - 1);
      assert xs[1..][..k - 1] == xs[1..k];
      assert xs[1..][k - 1..] == xs[k..];
      assert xs[..k][1..] == xs[1..k];
    } else {
      assert xs[..1] == [xs[0]];
      assert xs[1..] == xs[k..];
    }
  }

  /** `xs.slice(-n)` for n > 0: the last `n` elements, or all of them when
      there are fewer. */
  function Last<T>(xs: seq<T>, n: nat): (r: seq<T>)
    ensures |r| == Min(n, |xs|)
    ensures xs == xs[..|xs| - |r|] + r
  {
    xs[|xs| - Min(n, |xs|)..]
  }

  /** Taking the last `n` twice, with more elements appended in between, is
      the same as taking the last `n` once at the end. */
  lemma LastOfLast<T>(a: seq<T>, b: seq<T>, n: nat)
    ensures Last(Last(a, n) + b, n) == Last(a + b, n)
  {
  }
}
