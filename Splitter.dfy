/**
 * The splitter of the lottery-pick extractor: every way of cutting a digit
 * string into an ordered sequence of 1- and 2-character tokens, listed in the
 * order the recursive generator yields them (1-character branch first, then
 * the 2-character branch, depth first).
 */
module Splitter {

  /** A partition of a string: its tokens, in order. */
  type Partition = seq<string>

  /** A token is 1 or 2 characters long. */
  predicate IsToken(t: string) {
    1 <= |t| <= 2
  }

  predicate AllTokens(p: Partition) {
    forall i :: 0 <= i < |p| ==> IsToken(p[i])
  }

  /** The string the tokens of `p` spell when written one after the other. */
  function Concat(p: Partition): string
    decreases |p|
  {
    if |p| == 0 then "" else p[0] + Concat(p[1..])
  }

  /** `p` cuts `s` into tokens with no gap and no overlap. */
  predicate IsTokenization(p: Partition, s: string) {
    AllTokens(p) && Concat(p) == s
  }

  /** `p` is `current` followed by a tokenization of `s`. */
  predicate Extends(p: Partition, current: Partition, s: string) {
    |current| <= |p| && p[..|current|] == current && IsTokenization(p[|current|..], s)
  }

  /**
   * Enumeration order: `p` comes before `q` when, at the first position where
   * their token lengths differ, `p` has the shorter token.
   */
  predicate ShapeLess(p: Partition, q: Partition)
    decreases |p|
  {
    |p| > 0 && |q| > 0 &&
    (|p[0]| < |q[0]| || (|p[0]| == |q[0]| && ShapeLess(p[1..], q[1..])))
  }

  /** Each partition of `r` comes strictly before every later one. */
  predicate StrictlyOrdered(r: seq<Partition>) {
    forall i, j :: 0 <= i < j < |r| ==> ShapeLess(r[i], r[j])
  }

  /** Number of ways to write n as an ordered sum of 1s and 2s. */
  function Compositions(n: nat): nat {
    if n <= 1 then 1 else Compositions(n - 1) + Compositions(n - 2)
  }

  /**
   * All partitions of `current` extended by a tokenization of `input`, in the
   * order the generator yields them: `current` itself when `input` is empty,
   * then those whose next token is 1 character, then those whose next token
   * is 2 characters.
   */
  function Split(input: string, current: Partition): (r: seq<Partition>)
    ensures r != []
    ensures |input| == 0 ==> r == [current]
    decreases |input|
  {
    (if |input| == 0 then [current] else [])
    + (if |input| >= 1 then Split(input[1..], current + [input[..1]]) else [])
    + (if |input| >= 2 then Split(input[2..], current + [input[..2]]) else [])
  }

  /** Every partition of `input`, starting from the empty token list. */
  function GetCombinations(input: string): (r: seq<Partition>)
    ensures |input| == 0 ==> r == [[]]
  {
    Split(input, [])
  }

  // ---------------------------------------------------------------------------
  // Splitting is sound: every partition emitted spells the input back.

  lemma ConcatAppend(t: string, rest: Partition)
    ensures Concat([t] + rest) == t + Concat(rest)
  {
  }

  /** One token in front of a partition that extends `current + [t]`. */
  lemma ExtendsStep(p: Partition, current: Partition, t: string, rest: string)
    requires IsToken(t)
    requires Extends(p, current + [t], rest)
    ensures Extends(p, current, t + rest)
  {
  }

  /** Every emitted partition is `current` followed by tokens spelling `input`. */
  lemma {:induction false} SplitSound(input: string, current: Partition)
    ensures forall p :: p in Split(input, current) ==> Extends(p, current, input)
    decreases |input|
  {
    if |input| == 0 {
      assert Split(input, current) == [current];
      assert current[|current|..] == [];
      return;
    }
    var c1 := current + [input[..1]];
    SplitSound(input[1..], c1);
    assert input == input[..1] + input[1..];
    forall p | p in Split(input[1..], c1) ensures Extends(p, current, input) {
      ExtendsStep(p, current, input[..1], input[1..]);
    }
    if |input| >= 2 {
      var c2 := current + [input[..2]];
      SplitSound(input[2..], c2);
      assert input == input[..2] + input[2..];
      forall p | p in Split(input[2..], c2) ensures Extends(p, current, input) {
        ExtendsStep(p, current, input[..2], input[2..]);
      }
    }
  }

  // ---------------------------------------------------------------------------
  // Splitting is complete: every tokenization of the input is emitted.

  lemma {:induction false} SplitComplete(input: string, current: Partition, tail: Partition)
    requires IsTokenization(tail, input)
    ensures current + tail in Split(input, current)
    decreases |input|
  {
    if |tail| == 0 {
      assert current + tail == current;
      return;
    }
    var t := tail[0];
    var rest := tail[1..];
    assert tail == [t] + rest;
    ConcatAppend(t, rest);
    assert input == t + Concat(rest);
    assert input[..|t|] == t && input[|t|..] == Concat(rest);
    assert AllTokens(rest) by {
      forall i | 0 <= i < |rest| ensures IsToken(rest[i]) { assert rest[i] == tail[i + 1]; }
    }
    var c := current + [t];
    SplitComplete(input[|t|..], c, rest);
    assert current + tail == c + rest;
  }

  /** The partitions of `input` are exactly its tokenizations. */
  lemma GetCombinationsExact(input: string)
    ensures forall p :: p in GetCombinations(input) <==> IsTokenization(p, input)
  {
    SplitSound(input, []);
    forall p | p in GetCombinations(input) ensures IsTokenization(p, input) {
      assert p[0..] == p;
    }
    forall p | IsTokenization(p, input) ensures p in GetCombinations(input) {
      SplitComplete(input, [], p);
      assert [] + p == p;
    }
  }

  // ---------------------------------------------------------------------------
  // The enumeration order.

  lemma {:induction false} ShapeLessAt(p: Partition, q: Partition, k: nat)
    requires k < |p| && k < |q|
    requires p[..k] == q[..k]
    requires |p[k]| < |q[k]|
    ensures ShapeLess(p, q)
    decreases k
  {
    if k > 0 {
      assert p[0] == p[..k][0] == q[..k][0] == q[0];
      assert p[1..][..k - 1] == p[..k][1..] == q[..k][1..] == q[1..][..k - 1];
      ShapeLessAt(p[1..], q[1..], k - 1);
    }
  }

  lemma {:induction false} ShapeLessIrreflexive(p: Partition)
    ensures !ShapeLess(p, p)
    decreases |p|
  {
    if |p| > 0 {
      ShapeLessIrreflexive(p[1..]);
    }
  }

  /** The token after `current` in any partition that extends `current + [t]`. */
  lemma NextToken(p: Partition, current: Partition, t: string, rest: string)
    requires Extends(p, current + [t], rest)
    ensures |current| < |p| && p[..|current|] == current && p[|current|] == t
  {
  }

  /**
   * Two strictly ordered runs stay strictly ordered when joined, provided
   * every partition of the first has a 1-character next token and every
   * partition of the second a 2-character one.
   */
  lemma OrderedJoin(b: seq<Partition>, c: seq<Partition>, current: Partition, input: string)
    requires |input| >= 2
    requires StrictlyOrdered(b) && StrictlyOrdered(c)
    requires forall x :: x in b ==> Extends(x, current + [input[..1]], input[1..])
    requires forall y :: y in c ==> Extends(y, current + [input[..2]], input[2..])
    ensures StrictlyOrdered(b + c)
  {
    var r := b + c;
    forall i, j | 0 <= i < j < |r| ensures ShapeLess(r[i], r[j]) {
      if j < |b| {
        assert r[i] == b[i] && r[j] == b[j];
      } else if |b| <= i {
        assert r[i] == c[i - |b|] && r[j] == c[j - |b|];
      } else {
        assert r[i] == b[i] && r[j] == c[j - |b|];
        assert b[i] in b && c[j - |b|] in c;
        NextToken(b[i], current, input[..1], input[1..]);
        NextToken(c[j - |b|], current, input[..2], input[2..]);
        ShapeLessAt(r[i], r[j], |current|);
      }
    }
  }

  /**
   * The generator lists partitions in strictly increasing ShapeLess order; in
   * particular it never lists one partition twice.
   */
  lemma {:induction false} SplitOrdered(input: string, current: Partition)
    ensures StrictlyOrdered(Split(input, current))
    decreases |input|
  {
    if |input| == 0 {
      return;
    }
    var c1 := current + [input[..1]];
    var b := Split(input[1..], c1);
    SplitOrdered(input[1..], c1);
    if |input| == 1 {
      assert Split(input, current) == b;
      return;
    }
    var c2 := current + [input[..2]];
    var c := Split(input[2..], c2);
    SplitOrdered(input[2..], c2);
    SplitSound(input[1..], c1);
    SplitSound(input[2..], c2);
    OrderedJoin(b, c, current, input);
    assert Split(input, current) == b + c;
  }

  /**
   * Every partition whose next token has 1 character is listed before every
   * partition whose next token has 2 characters.
   */
  lemma ShorterFirstTokenFirst(input: string, current: Partition)
    ensures var r := Split(input, current);
      forall i, j ::
        (0 <= i < |r| && 0 <= j < |r| && |current| < |r[i]| && |current| < |r[j]| &&
         |r[i][|current|]| == 1 && |r[j][|current|]| == 2) ==> i < j
  {
    var r := Split(input, current);
    SplitSound(input, current);
    SplitOrdered(input, current);
    forall i, j | 0 <= i < |r| && 0 <= j < |r| && |current| < |r[i]| && |current| < |r[j]| &&
      |r[i][|current|]| == 1 && |r[j][|current|]| == 2
      ensures i < j
    {
      if j < i {
        assert ShapeLess(r[j], r[i]);
        assert r[i] in r && r[j] in r;
        assert r[j][..|current|] == r[i][..|current|] == current;
        PrefixShapeLess(r[j], r[i], |current|);
      } else if i == j {
        assert false;
      }
    }
  }

  /** Behind an equal prefix, ShapeLess compares the first differing token lengths. */
  lemma {:induction false} PrefixShapeLess(p: Partition, q: Partition, k: nat)
    requires k < |p| && k < |q| && p[..k] == q[..k]
    requires ShapeLess(p, q)
    ensures |p[k]| <= |q[k]|
    decreases k
  {
    if k > 0 {
      assert p[0] == p[..k][0] == q[..k][0] == q[0];
      assert p[1..][..k - 1] == p[..k][1..] == q[..k][1..] == q[1..][..k - 1];
      PrefixShapeLess(p[1..], q[1..], k - 1);
    }
  }

  /** The generator never lists one partition twice. */
  lemma GetCombinationsDistinct(input: string)
    ensures var r := GetCombinations(input);
      forall i, j :: 0 <= i < j < |r| ==> r[i] != r[j]
  {
    var r := GetCombinations(input);
    SplitOrdered(input, []);
    forall i, j | 0 <= i < j < |r| ensures r[i] != r[j] {
      assert ShapeLess(r[i], r[j]);
      ShapeLessIrreflexive(r[i]);
    }
  }

  /** The number of partitions obeys count(n) = count(n-1) + count(n-2). */
  lemma {:induction false} SplitCount(input: string, current: Partition)
    ensures |Split(input, current)| == Compositions(|input|)
    decreases |input|
  {
    if |input| >= 1 {
      SplitCount(input[1..], current + [input[..1]]);
    }
    if |input| >= 2 {
      SplitCount(input[2..], current + [input[..2]]);
    }
  }

  /** A tokenization has between half as many and as many tokens as characters. */
  lemma {:induction false} TokenizationLength(p: Partition, s: string)
    requires IsTokenization(p, s)
    ensures |p| <= |s| <= 2 * |p|
    decreases |p|
  {
    if |p| > 0 {
      assert AllTokens(p[1..]) by {
        forall i | 0 <= i < |p[1..]| ensures IsToken(p[1..][i]) { assert p[1..][i] == p[i + 1]; }
      }
      TokenizationLength(p[1..], Concat(p[1..]));
    }
  }

  /** No partition comes before one made of 1-character tokens only. */
  lemma {:induction false} NothingBeforeSingles(p: Partition, q: Partition)
    requires AllTokens(p)
    requires forall i :: 0 <= i < |q| ==> |q[i]| == 1
    ensures !ShapeLess(p, q)
    decreases |p|
  {
    if |p| > 0 && |q| > 0 {
      assert AllTokens(p[1..]) by {
        forall i | 0 <= i < |p[1..]| ensures IsToken(p[1..][i]) { assert p[1..][i] == p[i + 1]; }
      }
      assert forall i :: 0 <= i < |q[1..]| ==> |q[1..][i]| == 1 by {
        forall i | 0 <= i < |q[1..]| ensures |q[1..][i]| == 1 { assert q[1..][i] == q[i + 1]; }
      }
      NothingBeforeSingles(p[1..], q[1..]);
    }
  }
}
