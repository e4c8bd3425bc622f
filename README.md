# StringSanitizer, modelled in Dafny

A model of `FloppyShelf.Utilities.TextHelpers.StringSanitizer`, a static C#
class of string utilities, with proofs of what its operations promise. It has
four groups of operations:

- **Invalid-character removal.** `RemoveInvalidPathCharacters`,
  `RemoveInvalidFileNameCharacters` and `RemoveInvalidCharacters` (path
  removal, then file-name removal) keep the characters that are not in the
  host's invalid-character tables.
- **Single-occurrence replacement.** `ReplaceFirstOccurrenceOfStringInText`
  and `ReplaceLastOccurrenceOfStringInText` share `ReplaceOccurrence`. It finds
  the lowest or highest ordinal index of the search text and splices the
  replacement in there.
- **Non-matching character discovery.** `FindNonMatchingCharacters` tests each
  character on its own against a regular expression. It returns the characters
  that fail, each once, in the order each was first seen.
- **Formatting.** `FindNonMatchingCharactersFormatted` labels each such
  character with `FormatSpecialCharacter` (`[Space]`, `[Newline]`, `[Tab]`,
  or the character itself) and joins the labels with `", "`.

Every operation is a pure function, and so is the model. Files:

- `wrappers.dfy`: module `Wrappers`. `Option<T>` stands for a C# reference
  that may be null: `None` is null.
- `text_primitives.dfy`: module `TextPrimitives`. The base-library operations
  the class is built from:
  - `Where` (Enumerable.Where), proved against the independent specification
    `IsFiltering`: a subsequence that keeps every occurrence of every passing
    character and nothing else;
  - `Distinct` (Enumerable.Distinct), proved against "no duplicates, the same
    characters, ordered by first occurrence";
  - `IndexOf` and `LastIndexOf` (ordinal), proved against `OccursAt`;
  - `Splice` (the `Substring` concatenation), described by its prefix, its
    suffix, the inserted text and its length;
  - `Join` (String.Join), with `Split` undoing it for non-empty lists of parts
    that contain no space, as labels are. Parts that contain ", " do not come
    back (`SplitCutsPartWithSeparator`: `["a, b"]` splits into `["a", "b"]`).
- `string_sanitizer.dfy`: module `StringSanitizer`. The class's nine
  operations and the lemmas about them.
- `string_sanitizer_examples.dfy`: module `StringSanitizerExamples`. The
  scenarios of the repository's unit tests, stated as lemmas.

How the class's inputs are modelled:

- A string that may be null is an `Option<string>`. The `string.IsNullOrEmpty`
  guard is `IsNullOrEmpty`.
- `Path.GetInvalidPathChars()` and `Path.GetInvalidFileNameChars()` query the
  host operating system. They become the parameters `invalidPathChars` and
  `invalidFileNameChars`, of type `set<char>`.
- A regular expression is its pattern string together with `isMatch`, a
  `char -> bool` that gives `Regex.IsMatch` on each one-character string. The
  pattern string is kept only for its null-or-empty guard.
- In C#, concatenating a null string adds nothing. So a null `replaceText` is
  taken as `""` (`replaceText.GetOr("")`).

The documentation comment of `RemoveInvalidCharacters` speaks of characters
"invalid in both file paths and file names". The code removes a character that
is invalid in either table. The model follows the code: the result is filtering
by the union of the two tables.

## Model

| member | source | states |
|---|---|---|
| `StringSanitizer.IsNullOrEmpty` | FloppyShelf.Utilities.TextHelpers/StringSanitizer.cs:21 | `string.IsNullOrEmpty`, the guard of every operation (also :39, :55, :99, :121): true exactly for null and "" |
| `StringSanitizer.NotIn` | FloppyShelf.Utilities.TextHelpers/StringSanitizer.cs:45 | the test `c => !invalidChars.Contains(c)` of both removals (also :61): holds exactly for characters outside the table |
| `StringSanitizer.RemoveInvalidPathCharacters` | FloppyShelf.Utilities.TextHelpers/StringSanitizer.cs:37-46 | null and "" come back unchanged; otherwise the result is exactly the filtering of the input by "not an invalid path character" (`IsFiltering`), so no invalid path character remains |
| `StringSanitizer.RemoveInvalidFileNameCharacters` | FloppyShelf.Utilities.TextHelpers/StringSanitizer.cs:53-62 | the same, for the file-name table |
| `StringSanitizer.RemoveInvalidCharacters` | FloppyShelf.Utilities.TextHelpers/StringSanitizer.cs:19-30 | null and "" come back unchanged; otherwise the result is the filtering of the input by the union of both tables, and holds no character of either table |
| `StringSanitizer.RemovalComposes` | FloppyShelf.Utilities.TextHelpers/StringSanitizer.cs:24-27 | for every string, path removal followed by file-name removal is `Where` by the union of the tables |
| `StringSanitizer.RemoveInvalidCharactersIsWhere` | FloppyShelf.Utilities.TextHelpers/StringSanitizer.cs:19-30 | `RemoveInvalidCharacters` of a string is `Where` by the union, "" included |
| `StringSanitizer.RemovalIsIdempotent` | FloppyShelf.Utilities.TextHelpers/StringSanitizer.cs:19-62 | applying any of the three removals to its own output changes nothing |
| `StringSanitizer.RemovalOrderIsIrrelevant` | FloppyShelf.Utilities.TextHelpers/StringSanitizer.cs:19-30 | path removal then file-name removal equals file-name removal then path removal |
| `StringSanitizer.ReplaceOccurrence` | FloppyShelf.Utilities.TextHelpers/StringSanitizer.cs:96-111 | a null or "" text or search, or a search that does not occur, returns the text unchanged; otherwise the result is text before + replacement (null as "") + text after, at an occurrence with none below it (first) or none above it (last) |
| `StringSanitizer.ReplaceFirstOccurrenceOfStringInText` | FloppyShelf.Utilities.TextHelpers/StringSanitizer.cs:71-74 | the same three unchanged cases; otherwise the splice at the lowest index where the search text occurs |
| `StringSanitizer.ReplaceLastOccurrenceOfStringInText` | FloppyShelf.Utilities.TextHelpers/StringSanitizer.cs:83-86 | the same three unchanged cases; otherwise the splice at the highest index where the search text occurs |
| `StringSanitizer.ReplaceFirstAt` | FloppyShelf.Utilities.TextHelpers/StringSanitizer.cs:102-110 | for non-empty text and search, when p is the first occurrence the result is the splice of the replacement at p |
| `StringSanitizer.ReplaceLastAt` | FloppyShelf.Utilities.TextHelpers/StringSanitizer.cs:102-110 | for non-empty text and search, when p is the last occurrence the result is the splice of the replacement at p |
| `StringSanitizer.FirstAndLastAgreeOnSingleOccurrence` | FloppyShelf.Utilities.TextHelpers/StringSanitizer.cs:102-110 | when the search text occurs at exactly one index, replacing the first and replacing the last occurrence give the same result |
| `StringSanitizer.ReplaceFirstKeepsLaterOccurrences` | FloppyShelf.Utilities.TextHelpers/StringSanitizer.cs:102-110 | only one occurrence is replaced: every occurrence lying wholly after the first one is still in the result, shifted by the change in length |
| `StringSanitizer.ReplaceLastKeepsEarlierOccurrences` | FloppyShelf.Utilities.TextHelpers/StringSanitizer.cs:102-110 | every occurrence lying wholly before the last one is still in the result, at the same index |
| `StringSanitizer.FindNonMatchingCharacters` | FloppyShelf.Utilities.TextHelpers/StringSanitizer.cs:119-128 | a null or "" input or pattern gives nothing; otherwise the result has no duplicates, holds exactly the input characters that fail the pattern, and lists them in order of first occurrence in the input |
| `StringSanitizer.Fails` | FloppyShelf.Utilities.TextHelpers/StringSanitizer.cs:127 | the test `c => !regex.IsMatch(c.ToString())`: holds exactly for characters the pattern rejects |
| `StringSanitizer.FindNonMatchingCharactersIsDetermined` | FloppyShelf.Utilities.TextHelpers/StringSanitizer.cs:127 | those three properties determine the result: any list that has them is the one returned |
| `StringSanitizer.FormatSpecialCharacter` | FloppyShelf.Utilities.TextHelpers/StringSanitizer.cs:150-159 | exactly space, newline and tab get a multi-character label; every other character maps to itself; no label contains a space |
| `StringSanitizer.Labels` | FloppyShelf.Utilities.TextHelpers/StringSanitizer.cs:142 | the `Select(FormatSpecialCharacter)`: one label per character, as many labels as characters; `ParseLabelsOfLabels` shows they read back to the characters |
| `StringSanitizer.ParseLabelInvertsFormat` | FloppyShelf.Utilities.TextHelpers/StringSanitizer.cs:152-158 | each label names back its character (`[Space]`, `[Newline]`, `[Tab]`, or the character), so distinct characters get distinct labels |
| `StringSanitizer.FindNonMatchingCharactersFormatted` | FloppyShelf.Utilities.TextHelpers/StringSanitizer.cs:137-143 | the output is "" exactly when `FindNonMatchingCharacters` returns nothing (so also for a null or "" input or pattern) |
| `StringSanitizer.ParseLabelsOfLabels` | FloppyShelf.Utilities.TextHelpers/StringSanitizer.cs:142 | the labels of a list of characters parse back to that list |
| `StringSanitizer.FormattedRoundTrip` | FloppyShelf.Utilities.TextHelpers/StringSanitizer.cs:137-159 | the output loses nothing: splitting it at ", " and parsing the labels gives back exactly the non-matching characters, in order |
| `TextPrimitives.Where` | FloppyShelf.Utilities.TextHelpers/StringSanitizer.cs:45 | the result is no longer than the input and holds exactly the input characters that pass the test |
| `TextPrimitives.WhereCharacterization` | FloppyShelf.Utilities.TextHelpers/StringSanitizer.cs:45 | being the filtering of s (a subsequence, only passing characters, every passing character as often as in s) is equivalent to being `Where(s, ...)` |
| `TextPrimitives.WhereWhere` | FloppyShelf.Utilities.TextHelpers/StringSanitizer.cs:24-27 | filtering by one test and then another is filtering once by both |
| `TextPrimitives.Distinct` | FloppyShelf.Utilities.TextHelpers/StringSanitizer.cs:127 | no duplicates, the same characters as the input, in order of first occurrence |
| `TextPrimitives.DistinctWhereOrder` | FloppyShelf.Utilities.TextHelpers/StringSanitizer.cs:127 | after `Where`, `Distinct` orders the kept characters by first occurrence in the unfiltered input |
| `TextPrimitives.FirstOccurrenceOrderUnique` | FloppyShelf.Utilities.TextHelpers/StringSanitizer.cs:127 | two duplicate-free lists of the same characters, both ordered by first occurrence, are equal |
| `TextPrimitives.IndexOf` | FloppyShelf.Utilities.TextHelpers/StringSanitizer.cs:103 | -1 exactly when the search text does not occur; otherwise an index where it occurs, with no occurrence below it |
| `TextPrimitives.LastIndexOf` | FloppyShelf.Utilities.TextHelpers/StringSanitizer.cs:104 | -1 exactly when the search text does not occur; otherwise an index where it occurs, with no occurrence above it |
| `TextPrimitives.Splice` | FloppyShelf.Utilities.TextHelpers/StringSanitizer.cs:110 | the prefix before p and the suffix after the replaced stretch are kept, the insert sits at p, and the length changes by the difference |
| `TextPrimitives.SpliceKeepsOccurrences` | FloppyShelf.Utilities.TextHelpers/StringSanitizer.cs:110 | occurrences wholly before the replaced stretch stay in place; those wholly after it move by the change in length |
| `TextPrimitives.Join` | FloppyShelf.Utilities.TextHelpers/StringSanitizer.cs:142 | `String.Join`: "" for no parts, and the first part is a prefix of the result; the round trip is `SplitJoin` |
| `TextPrimitives.SplitJoin` | FloppyShelf.Utilities.TextHelpers/StringSanitizer.cs:142 | joining with ", " parts that contain no space is undone by splitting at ", " |
| `TextPrimitives.SplitCutsPartWithSeparator` | FloppyShelf.Utilities.TextHelpers/StringSanitizer.cs:142 | the round trip needs parts without ", ": the single part "a, b", joined and split, comes back as "a" and "b" |
| `StringSanitizerExamples.ReplaceFirstExample` | FloppyShelf.Utilities.TextHelpers.Tests/StringSanitizerTests.cs:77-84 | "hello world, hello!" with the first "hello" replaced by "hi" is "hi world, hello!" |
| `StringSanitizerExamples.ReplaceLastExample` | FloppyShelf.Utilities.TextHelpers.Tests/StringSanitizerTests.cs:90-97 | with the last "hello" replaced it is "hello world, hi!" |
| `StringSanitizerExamples.ReplaceNotFoundExample` | FloppyShelf.Utilities.TextHelpers.Tests/StringSanitizerTests.cs:145-151 | a search text that does not occur leaves "nothing to replace here" unchanged |
| `StringSanitizerExamples.FindNonMatchingExample` | FloppyShelf.Utilities.TextHelpers.Tests/StringSanitizerTests.cs:103-111 | the characters of "abc123" failing "[a-z]" are "123" |
| `StringSanitizerExamples.FindNonMatchingFullMatchExample` | FloppyShelf.Utilities.TextHelpers.Tests/StringSanitizerTests.cs:157-164 | every character of "abc" matches "[a-c]", so the result is empty |
| `StringSanitizerExamples.FindNonMatchingWhitespaceExample` | FloppyShelf.Utilities.TextHelpers.Tests/StringSanitizerTests.cs:117-125 | the characters of "a b\nc\t" failing "[a-z]" are space, newline and tab |
| `StringSanitizerExamples.FormattedWhitespace` | FloppyShelf.Utilities.TextHelpers/StringSanitizer.cs:137-158 | whenever the characters found are space, newline and tab, the report is "[Space], [Newline], [Tab]" |
| `StringSanitizerExamples.FormattedExample` | FloppyShelf.Utilities.TextHelpers.Tests/StringSanitizerTests.cs:117-125 | the formatted report for "a b\nc\t" and "[a-z]" is "[Space], [Newline], [Tab]" |
| `StringSanitizerExamples.RemoveInvalidCharactersNullOrEmptyExample` | FloppyShelf.Utilities.TextHelpers.Tests/StringSanitizerTests.cs:131-139 | null stays null and "" stays "" |
| `StringSanitizerExamples.RemoveInvalidCharactersDropsMiddle` | FloppyShelf.Utilities.TextHelpers.Tests/StringSanitizerTests.cs:16-31 | text of valid stretches around a stretch of invalid characters (the shape of the tests' input) comes back as just the valid stretches |

## Left out

- The contents of the invalid-character tables. They come from the host
  operating system, so they are parameters here and no table is fixed.
- The test suite's removal of control characters from those tables before
  checking. That happens on the test side, not in the library.
- The .NET regular-expression engine. A pattern is modelled only by its
  verdict on each one-character string. A malformed pattern makes `new Regex`
  throw an exception, and the model does not represent that case.
- UTF-16: surrogate pairs and lone surrogate code units. A C# `char` becomes a
  Dafny `char`, and comparison is ordinal, so equality of characters is enough.
- Arrays and allocation. The `char[]` that `FindNonMatchingCharacters` returns
  is a `string` (a `seq<char>`) here; the C# extension-method syntax is not
  modelled.
- The removal test scenarios are stated for any text made of valid and invalid
  stretches and any tables, not for the one literal input the tests use.
