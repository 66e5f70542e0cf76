/**
 * The selector of the lottery-pick extractor: a length fast-reject, then
 * three filters over the splitter's partitions (seven tokens, no repeated
 * token, every token a number in 1..59 without a leading zero), and the
 * first surviving partition, or None.
 */
module LottoPick {
  import opened Wrappers
  import opened Splitter

  const NumInASet: nat := 7
  const MinStrLen: nat := NumInASet * 1
  const MaxStrLen: nat := NumInASet * 2
  const MinLottoNum: nat := 1
  const MaxLottoNum: nat := 59

  // ---------------------------------------------------------------------------
  // Decimal numerals: the part of int.Parse that digit tokens reach.

  predicate IsDigit(c: char) {
    '0' <= c <= '9'
  }

  predicate IsDigitString(s: string) {
    forall i :: 0 <= i < |s| ==> IsDigit(s[i])
  }

  /** A non-empty string of decimal digits. */
  predicate IsNumeral(s: string) {
    |s| > 0 && IsDigitString(s)
  }

  function DigitValue(c: char): (d: nat)
    requires IsDigit(c)
    ensures d <= 9
    ensures d == 0 <==> c == '0'
  {
    (c as int) - ('0' as int)
  }

  function Pow10(n: nat): (r: nat)
    ensures r >= 1
  {
    if n == 0 then 1 else 10 * Pow10(n - 1)
  }

  /**
   * The value of a string of decimal digits. It has fewer than |t| + 1
   * digits, and exactly |t| when the first digit is not zero.
   */
  function Parse(t: string): (n: nat)
    requires IsDigitString(t)
    ensures n < Pow10(|t|)
    ensures |t| > 0 && t[0] != '0' ==> Pow10(|t| - 1) <= n
    decreases |t|
  {
    if |t| == 0 then 0
    else
      var init := t[..|t| - 1];
      assert |t| > 1 ==> init[0] == t[0];
      10 * Parse(init) + DigitValue(t[|t| - 1])
  }

  /** Equal-length digit strings with equal values are equal. */
  lemma {:induction false} ParseInjectiveSameLength(a: string, b: string)
    requires IsDigitString(a) && IsDigitString(b) && |a| == |b|
    requires Parse(a) == Parse(b)
    ensures a == b
    decreases |a|
  {
    if |a| > 0 {
      var a', b' := a[..|a| - 1], b[..|b| - 1];
      var x, y := Parse(a'), Parse(b');
      var d, e := DigitValue(a[|a| - 1]), DigitValue(b[|b| - 1]);
      assert 10 * x + d == 10 * y + e;
      assert x == y && d == e;
      ParseInjectiveSameLength(a', b');
      assert a[|a| - 1] == b[|b| - 1];
      assert a == a' + [a[|a| - 1]] && b == b' + [b[|b| - 1]];
    }
  }

  /** Numerals without a leading zero have distinct values exactly when they differ. */
  lemma {:induction false} ParseInjective(a: string, b: string)
    requires IsNumeral(a) && IsNumeral(b) && a[0] != '0' && b[0] != '0'
    ensures Parse(a) == Parse(b) <==> a == b
  {
    if |a| < |b| {
      Pow10Monotone(|a|, |b| - 1);
    } else if |b| < |a| {
      Pow10Monotone(|b|, |a| - 1);
    } else if Parse(a) == Parse(b) {
      ParseInjectiveSameLength(a, b);
    }
  }

  lemma {:induction false} Pow10Monotone(m: nat, n: nat)
    requires m <= n
    ensures Pow10(m) <= Pow10(n)
    decreases n
  {
    if m < n {
      Pow10Monotone(m, n - 1);
    }
  }

  // ---------------------------------------------------------------------------
  // The three filters.

  /** Filter 1: exactly NumInASet tokens. */
  predicate HasPickSize(p: Partition) {
    |p| == NumInASet
  }

  /** Filter 2: grouping the tokens by their text, every group has one member. */
  predicate NoDuplicates(p: Partition) {
    forall i :: 0 <= i < |p| ==> multiset(p)[p[i]] == 1
  }

  /** A token that is a lottery number: in MinLottoNum..MaxLottoNum, no leading zero. */
  predicate IsLottoNumber(t: string) {
    IsNumeral(t) && MinLottoNum <= Parse(t) <= MaxLottoNum && t[0] != '0'
  }

  /** Filter 3: every token is a lottery number. */
  predicate AllLottoNumbers(p: Partition) {
    forall i :: 0 <= i < |p| ==> IsLottoNumber(p[i])
  }

  /** A partition passing all three filters. */
  predicate IsPick(p: Partition) {
    HasPickSize(p) && NoDuplicates(p) && AllLottoNumbers(p)
  }

  /** Pairwise distinct tokens. */
  ghost predicate Distinct(p: Partition) {
    forall i, j :: 0 <= i < j < |p| ==> p[i] != p[j]
  }

  lemma {:induction false} MultisetCountDistinct(p: Partition)
    requires Distinct(p)
    ensures forall i :: 0 <= i < |p| ==> multiset(p)[p[i]] == 1
    decreases |p|
  {
    if |p| > 0 {
      var q := p[..|p| - 1];
      var last := p[|p| - 1];
      assert p == q + [last];
      assert Distinct(q);
      MultisetCountDistinct(q);
      assert last !in q;
      forall i | 0 <= i < |p| ensures multiset(p)[p[i]] == 1 {
        if i < |p| - 1 {
          assert p[i] == q[i] && p[i] != last;
        }
      }
    }
  }

  /** The duplicate filter, grouping by token text, keeps exactly the partitions of distinct tokens. */
  lemma NoDuplicatesIsDistinct(p: Partition)
    ensures NoDuplicates(p) <==> Distinct(p)
  {
    if Distinct(p) {
      MultisetCountDistinct(p);
    } else {
      var i, j :| 0 <= i < j < |p| && p[i] == p[j];
      var x := p[i];
      assert p == p[..j] + [p[j]] + p[j + 1..];
      assert p[..j][i] == x;
      assert multiset(p)[x] == multiset(p[..j])[x] + 1 + multiset(p[j + 1..])[x];
      assert multiset(p)[x] >= 2;
    }
  }

  /**
   * The duplicate filter compares token text; once leading zeros are excluded
   * that is the same as comparing numbers, so a pick holds seven different
   * numbers.
   */
  lemma PickNumbersDistinct(p: Partition)
    requires IsPick(p)
    ensures forall i, j :: 0 <= i < j < |p| ==> Parse(p[i]) != Parse(p[j])
  {
    NoDuplicatesIsDistinct(p);
    forall i, j | 0 <= i < j < |p| ensures Parse(p[i]) != Parse(p[j]) {
      assert IsLottoNumber(p[i]) && IsLottoNumber(p[j]);
      ParseInjective(p[i], p[j]);
    }
  }

  // ---------------------------------------------------------------------------
  // LINQ Where, over a materialised sequence.

  /** The elements of `s` satisfying `f`, in the order of `s`. */
  function Where<T(!new)>(s: seq<T>, f: T -> bool): (r: seq<T>)
    ensures |r| <= |s|
    ensures forall x :: x in r <==> x in s && f(x)
    decreases |s|
  {
    if |s| == 0 then [] else (if f(s[0]) then [s[0]] else []) + Where(s[1..], f)
  }

  /** The head of Where(s, f) is the first element of `s` satisfying `f`. */
  lemma {:induction false} WhereHead<T(!new)>(s: seq<T>, f: T -> bool)
    ensures Where(s, f) == [] <==> forall k :: 0 <= k < |s| ==> !f(s[k])
    ensures Where(s, f) != [] ==>
      exists k :: 0 <= k < |s| && s[k] == Where(s, f)[0] && f(s[k]) &&
        forall j :: 0 <= j < k ==> !f(s[j])
    decreases |s|
  {
    if |s| > 0 && !f(s[0]) {
      WhereHead(s[1..], f);
      assert forall k :: 1 <= k < |s| ==> s[k] == s[1..][k - 1];
      if Where(s, f) != [] {
        var k :| 0 <= k < |s[1..]| && s[1..][k] == Where(s[1..], f)[0] && f(s[1..][k]) &&
          forall j :: 0 <= j < k ==> !f(s[1..][j]);
        assert s[k + 1] == Where(s, f)[0];
        forall j | 0 <= j < k + 1 ensures !f(s[j]) {
          if j > 0 { assert s[j] == s[1..][j - 1]; }
        }
      }
    } else if |s| > 0 {
      assert s[0] == Where(s, f)[0];
    }
  }

  /** Applying two filters in turn is filtering by their conjunction. */
  lemma {:induction false} WhereWhere<T(!new)>(s: seq<T>, f: T -> bool, g: T -> bool, h: T -> bool)
    requires forall x :: h(x) == (f(x) && g(x))
    ensures Where(Where(s, f), g) == Where(s, h)
    decreases |s|
  {
    if |s| > 0 {
      WhereWhere(s[1..], f, g, h);
      assert h(s[0]) == (f(s[0]) && g(s[0]));
      var t := Where(s, f);
      if f(s[0]) {
        assert t == [s[0]] + Where(s[1..], f);
        assert t[0] == s[0] && t[1..] == Where(s[1..], f);
        assert Where(t, g) == (if g(t[0]) then [t[0]] else []) + Where(t[1..], g);
      } else {
        assert t == Where(s[1..], f);
      }
    }
  }

  /** Where keeps a ShapeLess-ordered list ordered. */
  lemma {:induction false} WhereOrdered(s: seq<Partition>, f: Partition -> bool)
    requires StrictlyOrdered(s)
    ensures StrictlyOrdered(Where(s, f))
    decreases |s|
  {
    if |s| > 0 {
      var rest := Where(s[1..], f);
      assert StrictlyOrdered(s[1..]) by {
        forall i, j | 0 <= i < j < |s[1..]| ensures ShapeLess(s[1..][i], s[1..][j]) {
          assert s[1..][i] == s[i + 1] && s[1..][j] == s[j + 1];
        }
      }
      WhereOrdered(s[1..], f);
      if f(s[0]) {
        var r := [s[0]] + rest;
        assert Where(s, f) == r;
        forall i, j | 0 <= i < j < |r| ensures ShapeLess(r[i], r[j]) {
          if i == 0 {
            assert r[j] == rest[j - 1] && rest[j - 1] in s[1..];
            var k :| 0 <= k < |s[1..]| && s[1..][k] == r[j];
            assert s[k + 1] == r[j];
          } else {
            assert r[i] == rest[i - 1] && r[j] == rest[j - 1];
          }
        }
      }
    }
  }

  // ---------------------------------------------------------------------------
  // The selector.

  /**
   * The first partition of `inputStr` that passes the three filters, or None;
   * None straight away when the length rules out seven 1- or 2-digit numbers.
   */
  function GetLottoPick(inputStr: string): (r: Option<Partition>)
    requires IsDigitString(inputStr)
    ensures |inputStr| < MinStrLen || |inputStr| > MaxStrLen ==> r == None
    ensures r.Some? ==> IsPick(r.value) && r.value in GetCombinations(inputStr)
  {
    var inputLen := |inputStr|;
    if inputLen < MinStrLen || inputLen > MaxStrLen then None
    else
      var perm := GetCombinations(inputStr);
      var perm1 := Where(perm, HasPickSize);
      if |perm1| <= 0 then None
      else
        var perm2 := Where(perm1, NoDuplicates);
        if |perm2| <= 0 then None
        else
          var perm3 := Where(perm2, AllLottoNumbers);
          if |perm3| <= 0 then None
          else
            assert perm3[0] in perm3;
            Some(perm3[0])
  }

  /**
   * The filter chain with its early exits selects the head of the partitions
   * filtered once by all three conditions together.
   */
  lemma PipelineIsOneFilter(inputStr: string)
    requires IsDigitString(inputStr)
    requires MinStrLen <= |inputStr| <= MaxStrLen
    ensures var picks := Where(GetCombinations(inputStr), IsPick);
      GetLottoPick(inputStr) == if picks == [] then None else Some(picks[0])
  {
    var perm := GetCombinations(inputStr);
    var hd := (p: Partition) => HasPickSize(p) && NoDuplicates(p);
    WhereWhere(perm, HasPickSize, NoDuplicates, hd);
    WhereWhere(Where(perm, hd), AllLottoNumbers, AllLottoNumbers, AllLottoNumbers);
    WhereWhere(perm, hd, AllLottoNumbers, IsPick);
  }

  /** A returned pick is a partition of the input into 1- and 2-digit tokens. */
  lemma PickIsPartition(inputStr: string)
    requires IsDigitString(inputStr)
    ensures var r := GetLottoPick(inputStr);
      r.Some? ==> IsTokenization(r.value, inputStr)
  {
    GetCombinationsExact(inputStr);
  }

  /** None exactly when no partition of the input is a valid pick. */
  lemma NoneIffNoPick(inputStr: string)
    requires IsDigitString(inputStr)
    ensures GetLottoPick(inputStr).None? <==>
      forall q :: IsTokenization(q, inputStr) ==> !IsPick(q)
  {
    var r := GetLottoPick(inputStr);
    GetCombinationsExact(inputStr);
    if |inputStr| < MinStrLen || |inputStr| > MaxStrLen {
      forall q | IsTokenization(q, inputStr) ensures !IsPick(q) {
        TokenizationLength(q, inputStr);
      }
    } else {
      PipelineIsOneFilter(inputStr);
      var perm := GetCombinations(inputStr);
      if r.None? {
        forall q | IsTokenization(q, inputStr) ensures !IsPick(q) {
          assert q in perm;
        }
      }
    }
  }

  /**
   * A returned pick is the first partition, in the generator's order, that
   * passes the filters.
   */
  lemma PickIsFirstInEnumeration(inputStr: string)
    requires IsDigitString(inputStr)
    ensures var r := GetLottoPick(inputStr); var perm := GetCombinations(inputStr);
      r.Some? ==>
        exists k :: 0 <= k < |perm| && perm[k] == r.value &&
          forall j :: 0 <= j < k ==> !IsPick(perm[j])
  {
    if MinStrLen <= |inputStr| <= MaxStrLen {
      PipelineIsOneFilter(inputStr);
      WhereHead(GetCombinations(inputStr), IsPick);
    }
  }

  /**
   * Among all valid picks of the input, the returned one comes first in
   * enumeration order: at the first position where its token lengths differ
   * from another valid pick's, its token is the shorter.
   */
  lemma PickIsLeast(inputStr: string)
    requires IsDigitString(inputStr)
    ensures var r := GetLottoPick(inputStr);
      r.Some? ==> forall q :: IsTokenization(q, inputStr) && IsPick(q) && q != r.value ==>
        ShapeLess(r.value, q)
  {
    var r := GetLottoPick(inputStr);
    if r.Some? {
      var perm := GetCombinations(inputStr);
      PipelineIsOneFilter(inputStr);
      GetCombinationsExact(inputStr);
      SplitOrdered(inputStr, []);
      WhereOrdered(perm, IsPick);
      var picks := Where(perm, IsPick);
      forall q | IsTokenization(q, inputStr) && IsPick(q) && q != r.value
        ensures ShapeLess(r.value, q)
      {
        assert q in picks;
        var j :| 0 <= j < |picks| && picks[j] == q;
        assert j != 0;
      }
    }
  }

  /** `s` cut into 1-character tokens. */
  function Singles(s: string): (p: Partition)
    ensures |p| == |s|
    ensures forall i :: 0 <= i < |s| ==> p[i] == [s[i]]
  {
    seq(|s|, i requires 0 <= i < |s| => [s[i]])
  }

  lemma {:induction false} SinglesSpell(s: string)
    ensures IsTokenization(Singles(s), s)
    decreases |s|
  {
    if |s| > 0 {
      SinglesSpell(s[1..]);
      assert Singles(s) == [[s[0]]] + Singles(s[1..]);
      ConcatAppend([s[0]], Singles(s[1..]));
      assert s == [s[0]] + s[1..];
    }
  }

  /** Seven different non-zero digits, each taken alone, make a valid pick. */
  lemma SinglesArePick(s: string)
    requires |s| == NumInASet
    requires forall i :: 0 <= i < |s| ==> '1' <= s[i] <= '9'
    requires forall i, j :: 0 <= i < j < |s| ==> s[i] != s[j]
    ensures IsTokenization(Singles(s), s) && IsPick(Singles(s))
  {
    var p := Singles(s);
    SinglesSpell(s);
    forall i | 0 <= i < |p| ensures IsLottoNumber(p[i]) {
      assert p[i][..0] == "";
      assert Parse(p[i]) == DigitValue(s[i]);
    }
    assert Distinct(p) by {
      forall i, j | 0 <= i < j < |p| ensures p[i] != p[j] {
        assert p[i][0] == s[i] && p[j][0] == s[j];
      }
    }
    NoDuplicatesIsDistinct(p);
  }

  /** Seven different non-zero digits are picked one digit per number. */
  lemma SinglesSelected(s: string)
    requires |s| == NumInASet
    requires forall i :: 0 <= i < |s| ==> '1' <= s[i] <= '9'
    requires forall i, j :: 0 <= i < j < |s| ==> s[i] != s[j]
    ensures GetLottoPick(s) == Some(Singles(s))
  {
    var p := Singles(s);
    SinglesArePick(s);
    NoneIffNoPick(s);
    PickIsPartition(s);
    PickIsLeast(s);
    var r := GetLottoPick(s);
    if r.value != p {
      NothingBeforeSingles(r.value, p);
    }
  }

  /** The first sample of the driver. */
  lemma DriverFirstSample(s: string)
    requires s == "1234567"
    ensures GetLottoPick(s) == Some(["1", "2", "3", "4", "5", "6", "7"])
  {
    SinglesSelected(s);
    assert Singles(s) == ["1", "2", "3", "4", "5", "6", "7"];
  }

  /** The fourth sample of the driver has 15 digits and is rejected on length. */
  lemma DriverFourthSample()
    ensures GetLottoPick("472844278465445") == None
  {
  }
}
