# Util helpers of Unity-Utilities, modelled in Dafny

`util.dfy` holds one module, `Util`, for the one static C# class `Util` in
`Util.cs`. It models the class's total, sequential string and integer
helpers:

- the whitespace test `StrIsNullOrWhiteSpace`;
- the wrap-around counters `ModInc` and `ModDec`;
- the Photon client-state names `ClientStateToString`;
- the array renderer `FullArrayToString`;
- the two `RemoveFromString` overloads, named `RemoveCharFromString` and
  `RemoveCharsFromString` here because Dafny has no overloading;
- `ReplaceFirstInString`;
- the hex-colour shorthand expander `HexExpand`;
- `Swap` and the six boolean gates.

Each helper is stated against a reference definition, and lemmas prove the
properties the class is used for:

- **Removal.** `Filter` is the reference for character deletion.
- **Round trips.** `CyclicSucc`/`CyclicPred` are inverse steps round a cycle,
  and `Halved` gives back what `Doubled` expanded.
- **Replacement.** `IsFirstOccurrence` pins down the leftmost match.

How C# constructs are modelled:

- A C# reference that may be null is an `Option`. This covers the string
  passed to `StrIsNullOrWhiteSpace` and the array passed to
  `FullArrayToString`. The other helpers dereference their arguments
  unchecked, so their parameters are plain, non-null values.
- A `ref` parameter is an input plus an out-parameter that carries the new
  value. This covers `ModInc`, `ModDec` and `Swap`.
- C#'s `int` is the newtype `int32`. `++value` and `--value` wrap round as
  unchecked C# arithmetic does (`Wrap32`).
- `char.IsWhiteSpace` is the fixed set of 25 characters .NET counts as
  whitespace (`WhiteSpaceChars`).
- `str.Split(...)` followed by `string.Join("", ...)` is modelled literally:
  `Split` keeps empty pieces, and `Join` is `string.Join`. The lemma
  `JoinSplitIsFilter` proves that the pair deletes the separators.
- `str.IndexOf(oldValue)` is an ordinal leftmost match (`IndexOf`). The
  empty pattern is found at index 0.
- The elements of the array given to `FullArrayToString` appear as the
  strings their `ToString()` produces.

Where the documentation and the code disagree, the model follows the code.
The doc comment of `RemoveFromString(string, string)` (Util.cs:106-112) speaks
of removing a substring. The code removes every character that occurs in
`charsToRemove`, wherever it stands.

## Model

| member | source | states |
|---|---|---|
| `Util.IsWhiteSpace` | Util.cs:16 | `char.IsWhiteSpace`: U+0009..U+000D, the spaces U+2000..U+200A, ' ', U+00A0 and U+3000 are whitespace, and no character above U+3000 is |
| `Util.StrIsNullOrWhiteSpace` | Util.cs:11-19 | true iff the input is null or every character is .NET whitespace; true for ""; false as soon as one character is not whitespace |
| `Util.Wrap32` | Util.cs:34 | unchecked C# `int` arithmetic: identity on the 32-bit range, int.MaxValue+1 becomes int.MinValue and int.MinValue-1 becomes int.MaxValue, result congruent modulo 2^32 |
| `Util.CyclicSuccInRange` | Util.cs:34-36 | on [0, modulus) the cyclic successor is value+1, or 0 after modulus-1 |
| `Util.CyclicPredInRange` | Util.cs:41-43 | on [0, modulus) the cyclic predecessor is value-1, or modulus-1 before 0 |
| `Util.ModInc` | Util.cs:32-37 | for 0 <= value < modulus the new value stays in [0, modulus) and is (value+1) mod modulus, so modulus-1 goes to 0; out of range: value+1, or 0 once value+1 reaches modulus, and int.MaxValue wraps to int.MinValue |
| `Util.ModDec` | Util.cs:39-44 | for 0 <= value < modulus the new value stays in [0, modulus) and is (value-1) mod modulus, so 0 goes to modulus-1; a positive value steps down by one; int.MinValue wraps to int.MaxValue and stays there |
| `Util.CyclicSuccPredInverse` | Util.cs:32-44 | on [0, modulus) ModDec undoes ModInc and ModInc undoes ModDec |
| `Util.SuccIteratedShifts` | Util.cs:32-37 | k increments from a value in range give (value+k) mod modulus; modulus increments come back to the start |
| `Util.ClientStateToString` | Util.cs:50-76 | the result is "???" exactly when the state is outside 0..20, and is never empty |
| `Util.ClientStateNameReadsBack` | Util.cs:50-76 | each of the 21 names maps back to its own state |
| `Util.ClientStateNamesDistinct` | Util.cs:50-76 | two different states in 0..20 have different names |
| `Util.Join` | Util.cs:103 | `string.Join`: no items give ""; otherwise the result starts with the first item |
| `Util.JoinSnoc` | Util.cs:85-87 | one more element adds exactly one ", " and the element at the end: there is no trailing separator |
| `Util.JoinLength` | Util.cs:81-89 | the joined text is as long as the elements plus one separator for each gap |
| `Util.FullArrayToString` | Util.cs:78-92 | null gives "null"; an empty array gives "[ ]"; otherwise "[" + the elements joined by ", " + "]" |
| `Util.Split` | Util.cs:103 | `String.Split` returns one more piece than there are separators, empty pieces included, and no piece contains a separator |
| `Util.JoinSplitSingle` | Util.cs:103 | joining the pieces of a split on one character with that character gives the string back, so the pieces are exactly the runs between separators |
| `Util.Filter` | Util.cs:101-116 | deletion leaves none of the removed characters and shortens the string by their count |
| `Util.JoinSplitIsFilter` | Util.cs:103 | joining the pieces of a split with "" equals deleting the separator characters |
| `Util.FilterKeepsOthers` | Util.cs:101-116 | every character that is not removed occurs as often as before |
| `Util.FilterAppend` | Util.cs:101-116 | deletion works character by character: deleting from a + b gives the deletions of a and of b, in that order |
| `Util.RemoveCharFromString` | Util.cs:101-104 | the result has no charToRemove, keeps every other character with its count and in order, and is shorter by the number of charToRemove in str |
| `Util.RemoveCharIdempotent` | Util.cs:101-104 | removing the same character twice gives the same string as removing it once |
| `Util.SplitSeparators` | Util.cs:115 | the characters `Split(char[])` splits on: those of charsToRemove, or .NET whitespace when the array is empty |
| `Util.RemoveCharsFromString` | Util.cs:113-116 | as written: deletes every character that occurs in charsToRemove, not a substring; an empty charsToRemove deletes .NET whitespace |
| `Util.RemoveCharsFromStringCorrected` | Util.cs:113-116 | as written, except that an empty charsToRemove removes nothing: deletes the characters of charsToRemove and keeps every other character with its count |
| `Util.RemoveNothingStripsWhiteSpace` | Util.cs:115 | with an empty charsToRemove, "a b" becomes "ab" as written, but stays "a b" in the corrected version |
| `Util.IndexOfFrom` | Util.cs:120 | the result is -1 or an occurrence at or after `from`, and there is no occurrence from `from` up to the result |
| `Util.IndexOf` | Util.cs:120 | the result is -1 iff the pattern does not occur; otherwise it is the leftmost occurrence; the empty pattern is found at 0 |
| `Util.ReplaceFirstInString` | Util.cs:118-124 | no occurrence gives str unchanged; otherwise the text before the leftmost occurrence, then newValue, then the text after that occurrence, untouched; the length changes by the length of newValue minus that of oldValue; an empty oldValue prepends newValue |
| `Util.ReplaceFirstUndo` | Util.cs:118-124 | replacing newValue back by oldValue restores str when the inserted text is the leftmost occurrence of newValue |
| `Util.Doubled` | Util.cs:212-215 | doubling makes a string twice as long |
| `Util.DoubledAt` | Util.cs:212-215 | input character i sits at positions 2i and 2i+1 of the doubled string |
| `Util.DoubledSnoc` | Util.cs:213-214 | appending one character appends it twice to the doubled string |
| `Util.HalvedDoubled` | Util.cs:201-218 | taking every other character of the expansion gives back the shorthand |
| `Util.HexExpand` | Util.cs:201-218 | "", "red" and strings of the wrong length come back unchanged; a 3-character input becomes its 6-character doubling; a '#'-prefixed 4-character input keeps the '#' and doubles the other 3, giving 7 characters |
| `Util.Swap` | Util.cs:220-225 | each location ends up holding the other's old value |
| `Util.And` | Util.cs:280 | true exactly when both inputs are true |
| `Util.Nand` | Util.cs:281 | Nand(a, b) is the negation of And(a, b) |
| `Util.Or` | Util.cs:282 | true exactly when at least one input is true |
| `Util.Nor` | Util.cs:283 | Nor(a, b) is the negation of Or(a, b) |
| `Util.Xor` | Util.cs:284 | Xor(a, b) is true iff a and b differ |
| `Util.Xnor` | Util.cs:285 | Xnor(a, b) is the negation of Xor(a, b): true iff a and b agree |
| `Util.GateLaws` | Util.cs:280-285 | the truth tables of And and Or, commutativity, identities, De Morgan for Nand and Nor, and Xor as And(Or, Nand) |

## Left out

- `QuitApplication` (Util.cs:21-30) is not modelled. It controls the host
  process and writes to the console.
- `Log`, `LogBasic` and `logLevel` (Util.cs:174-199) are not modelled. They
  write to the console. As written they also name identifiers that are not
  declared (`textColorName`, `debugLevel`).
- `ObjectHasMethod`, `TypeHasMethod`, both `GetMethod` overloads and
  `StandardBindingFlags` (Util.cs:131-159) are not modelled. They are thin
  wrappers over .NET reflection.
- `SetTextColor` (Util.cs:126-129) is not modelled. It calls
  `ColorUtility.ToHtmlStringRGB` on a colour with float channels.
- These float helpers are not modelled: `Abs`, `MinAngleBetween`,
  `MinAngleVectorBetween`, the three `VectorsEqual` overloads, `WrapMod` and
  `Modf` (Util.cs:166-172, 227-278). Their results depend on IEEE rounding
  and on float-to-int truncation.
- Null arguments to the string helpers are not modelled; here the types
  cannot be null. In C# a null `str` in `RemoveFromString` or
  `ReplaceFirstInString`, a null `charsToRemove`, and a null `hexString`
  throw a NullReferenceException. A null `oldValue` makes `IndexOf` throw an
  ArgumentNullException. A null `newValue` is concatenated as "", so it
  behaves as `ReplaceFirstInString(str, oldValue, "")` in the model.
- A null element of the array given to `FullArrayToString` is not modelled.
  It renders as "". Elements are taken as already-rendered strings.
- `IndexOf` is culture-sensitive in .NET, but it is modelled as an ordinal
  comparison.
- Strings are sequences of Unicode scalar values, not UTF-16 code units.
  Lone surrogates cannot be represented. A character outside the Basic
  Multilingual Plane is one element here but two units in C#, so lengths
  and indices differ for such strings. For example, C# gives U+1F600
  followed by "a" Length 3, and `HexExpand` (Util.cs:207) then doubles it
  unit by unit. The model returns it unchanged. `IndexOf` positions shift the same way.
- `WhiteSpaceChars` follows the Unicode 6.3-and-later tables (as in .NET
  Core and .NET 5 and later). A runtime built on older tables also counts
  U+180E MONGOLIAN VOWEL SEPARATOR as whitespace. The set leaves it out.
- `Swap` is modelled on values. `ref` aliasing (`Swap(ref x, ref x)`) is not
  captured; it leaves x unchanged, as the model does.

## Findings

| source | as written | input that shows it | evidently intended | confidence | as-written member | corrected member |
|---|---|---|---|---|---|---|
| Util.cs:113-116 | `str.Split(charsToRemove.ToCharArray())` with an empty `charsToRemove` passes an empty separator array, and .NET's `Split` then splits on whitespace, so every whitespace character is removed | `RemoveFromString("a b", "")` returns "ab" | nothing to remove, so "a b" is returned unchanged | medium, not executed | `Util.RemoveNothingStripsWhiteSpace` | `Util.RemoveCharsFromStringCorrected` |
