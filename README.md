# LottoPick: a verified model of the lottery-pick extractor

The extractor in `LottoPick` takes a string of decimal digits and looks for a
lottery pick hidden in it: seven different numbers from 1 to 59, written one
after the other without separators. It has two parts.

- The **splitter** (`Split`, `GetCombinations`) lists every way to cut the
  string into an ordered sequence of 1- and 2-character tokens. At each
  position it tries the 1-character token first and then the 2-character
  token, depth first. Empty input gives one partition: the tokens collected
  so far.
- The **selector** (`GetLottoPick`) first rejects strings shorter than 7 or
  longer than 14 characters. It then keeps the partitions with exactly 7
  tokens, then those with no repeated token, then those whose every token
  is a number in 1..59 that does not start with `'0'`. It returns the first
  survivor, or `null` (here `None`) when a stage leaves nothing.

The model is pure, as the source is. `Split` returns the whole list of
partitions, in the order the C# generator yields them. LINQ `Where` becomes
the function `Where` over that list. `int.Parse` of a digit token becomes
the decimal-value function `Parse`.

Files:
- `Wrappers.dfy`: the `Option` type that stands for a nullable list.
- `Splitter.dfy`: partitions, `Concat`, `Split`, `GetCombinations`, and the
  enumeration order `ShapeLess`, with their lemmas.
- `LottoPick.dfy`: `Parse`, the three filters, `Where`, `GetLottoPick`,
  and the theorems about the selected pick.

The enumeration order is stated independently of `Split`. `ShapeLess(p, q)`
compares the token lengths of `p` and `q` lexicographically: at the first
position where they differ, `p` has the shorter token. `Split` lists
partitions in strictly increasing `ShapeLess` order. The selected pick is
therefore the `ShapeLess`-least valid pick of the input.

Where the comments in Program.cs and its code differ, the model follows the code:
- The comment at Program.cs:51 speaks of a "duplicated number", but the
  filter at Program.cs:52 groups tokens by their text, not by their numeric
  value. `PickNumbersDistinct` proves that, once the third filter has
  excluded leading zeros, the numbers of a pick are distinct too.
- The comment at Program.cs:56-57 speaks of the item pattern "0X" (2-digit
  tokens), but the test at Program.cs:59 rejects every token whose first
  character is `'0'`. The single token `"0"` is also out of range, so both
  readings reject the same tokens.

`GetLottoPick` is a Dafny function, so it is deterministic: the same input
always gives the same result.

## Model

| member | source | states |
|---|---|---|
| `Splitter.Split` | csharp/unclemorty/unclemorty/Program.cs:90-115 | The generator always yields at least one partition, and for empty input exactly one: the tokens collected so far. |
| `Splitter.GetCombinations` | csharp/unclemorty/unclemorty/Program.cs:81-84 | Starts from the empty token list, so empty input yields exactly the empty partition. |
| `Splitter.SplitSound` | csharp/unclemorty/unclemorty/Program.cs:90-115 | Every partition yielded by `Split(input, current)` is `current` followed by 1- or 2-character tokens that concatenate to exactly `input`. |
| `Splitter.SplitComplete` | csharp/unclemorty/unclemorty/Program.cs:90-115 | Every cut of `input` into 1- and 2-character tokens, appended to `current`, is among the yielded partitions. |
| `Splitter.GetCombinationsExact` | csharp/unclemorty/unclemorty/Program.cs:81-84 | A sequence is among the partitions of `input` if and only if its tokens have 1 or 2 characters and concatenate to `input`. |
| `Splitter.SplitOrdered` | csharp/unclemorty/unclemorty/Program.cs:98-114 | The partitions come in strictly increasing token-length lexicographic order. This is the 1-character-branch-first, depth-first order. |
| `Splitter.ShorterFirstTokenFirst` | csharp/unclemorty/unclemorty/Program.cs:98-114 | Every partition whose next token has 1 character comes before every partition whose next token has 2 characters. |
| `Splitter.GetCombinationsDistinct` | csharp/unclemorty/unclemorty/Program.cs:81-115 | No partition is yielded twice. |
| `Splitter.SplitCount` | csharp/unclemorty/unclemorty/Program.cs:98-114 | The number of partitions of an n-character string is the number of ordered sums of 1s and 2s equal to n, so count(n) = count(n-1) + count(n-2). |
| `Splitter.TokenizationLength` | csharp/unclemorty/unclemorty/Program.cs:30-32 | A cut into 1- and 2-character tokens has between half as many and as many tokens as the string has characters. This is why 7 tokens need 7 to 14 characters. |
| `LottoPick.Parse` | csharp/unclemorty/unclemorty/Program.cs:59 | The value of a digit string has at most as many digits as the string, and exactly as many when it does not start with `'0'`. |
| `LottoPick.ParseInjective` | csharp/unclemorty/unclemorty/Program.cs:59 | Two numerals without a leading zero have the same value if and only if they are the same text. |
| `LottoPick.NoDuplicatesIsDistinct` | csharp/unclemorty/unclemorty/Program.cs:52 | Grouping tokens by text and requiring one-member groups is the same as requiring pairwise different tokens, in both directions. |
| `LottoPick.HasPickSize` | csharp/unclemorty/unclemorty/Program.cs:47 | The partition has exactly 7 tokens (definition of the first filter). |
| `LottoPick.NoDuplicates` | csharp/unclemorty/unclemorty/Program.cs:52 | Every token's text occurs exactly once in the partition (definition of the second filter). |
| `LottoPick.IsLottoNumber` | csharp/unclemorty/unclemorty/Program.cs:59 | The token is a digit string with value in 1..59 whose first character is not `'0'` (definition). |
| `LottoPick.AllLottoNumbers` | csharp/unclemorty/unclemorty/Program.cs:58-60 | Every token of the partition is a lottery number (definition of the third filter). |
| `LottoPick.IsPick` | csharp/unclemorty/unclemorty/Program.cs:47-60 | The partition passes all three filters (definition, their conjunction). |
| `LottoPick.PickNumbersDistinct` | csharp/unclemorty/unclemorty/Program.cs:52-60 | The seven numbers of a partition passing all filters are pairwise different as numbers, not only as text. |
| `LottoPick.Where` | csharp/unclemorty/unclemorty/Program.cs:47 | The filtered list is no longer than the input list and holds exactly the elements satisfying the predicate. |
| `LottoPick.WhereHead` | csharp/unclemorty/unclemorty/Program.cs:70 | A filtered list is empty exactly when no element satisfies the predicate. Otherwise its first element is the first satisfying element of the original list. |
| `LottoPick.WhereWhere` | csharp/unclemorty/unclemorty/Program.cs:47-60 | Two filters applied in turn equal one filter by their conjunction. |
| `LottoPick.GetLottoPick` | csharp/unclemorty/unclemorty/Program.cs:27-71 | Inputs shorter than 7 or longer than 14 characters give `None`. Any returned partition is one of the input's partitions and passes all three filters. |
| `LottoPick.PipelineIsOneFilter` | csharp/unclemorty/unclemorty/Program.cs:44-70 | For inputs of admissible length, the filter chain with its early `null` returns gives the head of the partitions filtered once by all three conditions, or `None` if there are none. |
| `LottoPick.PickIsPartition` | csharp/unclemorty/unclemorty/Program.cs:45-70 | A returned pick is made of 1- and 2-digit tokens that concatenate to the input. |
| `LottoPick.NoneIffNoPick` | csharp/unclemorty/unclemorty/Program.cs:39-70 | The result is `None` if and only if no cut of the input into 1- and 2-character tokens passes all three filters. So the length fast-reject loses no pick. |
| `LottoPick.PickIsFirstInEnumeration` | csharp/unclemorty/unclemorty/Program.cs:65-70 | A returned pick sits at some position of the generator's list, and no earlier partition passes all filters. |
| `LottoPick.PickIsLeast` | csharp/unclemorty/unclemorty/Program.cs:65-70 | A returned pick comes before every other valid pick of the input in token-length lexicographic order. |
| `LottoPick.SinglesSelected` | csharp/unclemorty/unclemorty/Program.cs:27-71 | Seven different non-zero digits are picked one digit per number. |
| `LottoPick.DriverFirstSample` | csharp/unclemorty/unclemorty/Program.cs:122-127 | The driver's sample `"1234567"` yields `["1","2","3","4","5","6","7"]`. |
| `LottoPick.DriverFourthSample` | csharp/unclemorty/unclemorty/Program.cs:122-127 | The driver's 15-digit sample `"472844278465445"` yields `None`. |

## Left out

- `GetInstance` and `mInstance` (Program.cs:8-17): a lazily created singleton. It holds no state, so it has no effect on the result.
- `Debug` (Program.cs:73-79): console printing, switched off by the local `debug = 0`.
- `MainClass.Main` (Program.cs:118-157): console I/O. The model states two of its samples as lemmas. The others are not stated, because proving them means enumerating too many partitions.
- Laziness of `yield` and of LINQ's deferred evaluation, and the repeated `Count()` re-enumerations: the model builds each list in full. The results are the same.
- `GetLottoPick`: requires the input to be all decimal digits. `int.Parse` would throw on other characters in some cases and accept signs in others, and the model does not capture either behaviour.
- `int.Parse` overflow: tokens have at most two digits, so it cannot happen.
