# NamedMessageFormat in Dafny

A model of `com.accenture.NamedMessageFormat`, a small Java class for named
placeholders on top of `java.text.MessageFormat`. A formatter owns a template
such as `Test Date: {myDate, time, dd.MM.yyyy}`. Its `format(map)` method does
the following:

- It scans the template with the regular expression `\{(.*?)\}`.
- It cuts each placeholder's name out with `split(",")[0].substring(1)`.
- It checks the name against `^[a-zA-Z_][a-zA-Z0-9_]+$` and throws
  `NamedMessageFormatException` at the first name that fails.
- It rewrites every occurrence of the name inside the placeholder to the
  placeholder's index `i`.
- If the map has the name, it appends the value to a growing argument list.
- It renders the rewritten placeholder with `MessageFormat.format`.
- It assembles the output with `appendReplacement` and `appendTail`.

The model is organised as follows:

- `Formatter` (module `NamedMessageFormat`) is a class with the `pattern`
  field, a constructor, `GetPattern`, `SetPattern` and a `Format` method. The
  method's loop does what the Java `for` loop does.
- `Format` is proved equal to the specification `FormatSemantics.FormatSpec`.
  The properties the class promises are proved as lemmas about `FormatSpec`.
- `MessageFormat.format` is a parameter, `render: (string, seq<V>) -> string`.
  Map values have the type parameter `V`.
- The exception is `Result.Failure(InvalidName(name))`.
- `Scanner` hand-codes `\{(.*?)\}` together with `Matcher.find`. This includes
  Java's rule that `.` matches no line terminator (`\n`, `\r`, U+0085, U+2028,
  U+2029).
- `NameGrammar` holds the name cut and the name grammar.
- `Replace` is `String.replace`. `Decimal` is `String.valueOf` of the index.
- `TemplateAssembly` and `AssembledFormat` cover templates written as literal
  text and placeholders. When no literal holds `{` and no placeholder body
  holds `}` or a line terminator, they prove that the scan recovers exactly
  those parts. When, in addition, each name is valid and comma-free and
  does not recur in the rest of its own placeholder, they prove what such a
  template formats to: each literal copied, and placeholder k rendered on
  its own as `{k,rest_k}` with the values of names 0 .. k.

The model follows the code's quirks:

- A placeholder without a comma, `{name}`, gets the name `name}`, so it always
  throws. `{1bad}` is rejected with the name `1bad}`, because the closing
  brace stays in the name, and `Hi {name}, ...` throws rather than
  formatting.
- Names must be at least two characters long.
- A name missing from the map appends nothing, so list positions drift from
  the indices.
- A repeated name gets a fresh index and a fresh append each time.
- `String.replace` also rewrites the name where it occurs again inside its own
  placeholder.

## Model

| member | source | states |
|---|---|---|
| `NamedMessageFormat.Formatter.constructor` | src/main/java/com/accenture/NamedMessageFormat.java:33-35 | the new formatter holds the given template |
| `NamedMessageFormat.Formatter.GetPattern` | src/main/java/com/accenture/NamedMessageFormat.java:80-82 | returns the current template |
| `NamedMessageFormat.Formatter.SetPattern` | src/main/java/com/accenture/NamedMessageFormat.java:84-86 | replaces the template |
| `NamedMessageFormat.Formatter.Format` | src/main/java/com/accenture/NamedMessageFormat.java:44-78 | the scan loop, with its argument list and output buffer, returns exactly `FormatSpec(pattern, map, render)`: the first invalid name's exception, or the assembled output |
| `Scanner.IsMatch` | src/main/java/com/accenture/NamedMessageFormat.java:25 | definition: a match is `{`, a run without line terminators, and the first `}` that ends it |
| `Scanner.CloseFrom` | src/main/java/com/accenture/NamedMessageFormat.java:25 | lazy `.*?` then `\}`: the first `}` at or after k when no line terminator comes before it, and None otherwise |
| `Scanner.MatchAt` | src/main/java/com/accenture/NamedMessageFormat.java:25 | a match at p exists exactly when `{` at p has a clean run up to a `}`, and the result is that match |
| `Scanner.MatchEndIsUnique` | src/main/java/com/accenture/NamedMessageFormat.java:25 | a match starting at a given position has only one possible end, the first `}` |
| `Scanner.NextMatch` | src/main/java/com/accenture/NamedMessageFormat.java:49-50 | `find` returns the leftmost match at or after `from`, and None only when no match starts in the rest |
| `Scanner.MatchesFrom` | src/main/java/com/accenture/NamedMessageFormat.java:50 | repeated `find`: every result is a match, results are in increasing order and do not overlap |
| `Scanner.GapsHoldNoMatch` | src/main/java/com/accenture/NamedMessageFormat.java:50 | no match of the pattern starts in the literal text between the returned matches |
| `Scanner.EveryMatchStartsInAChosenOne` | src/main/java/com/accenture/NamedMessageFormat.java:50 | every match of the pattern starts inside one of the returned matches, so the scan skips nothing |
| `Scanner.NoMatchesIffNoPlaceholder` | src/main/java/com/accenture/NamedMessageFormat.java:49-50 | the scan returns nothing exactly when the pattern matches nowhere in the template |
| `Scanner.GapIsRange` | src/main/java/com/accenture/NamedMessageFormat.java:72-75 | proof step: the literal text before each match, and after the last one, is a well-formed range of the template |
| `NameGrammar.CommaIndex` | src/main/java/com/accenture/NamedMessageFormat.java:54 | `split(",")[0]` ends at the first comma, or takes the whole text when it has none |
| `NameGrammar.ExtractName` | src/main/java/com/accenture/NamedMessageFormat.java:54 | the name is the text after the opening `{` up to the first comma, and it contains no comma |
| `NameGrammar.ExtractNameOfParts` | src/main/java/com/accenture/NamedMessageFormat.java:54 | for `{` + name + `,...`, where name has no comma, the extracted name is name |
| `NameGrammar.CommaFreePlaceholderIsRejected` | src/main/java/com/accenture/NamedMessageFormat.java:54-57 | `{body}` without a comma yields the name `body}`, which never passes the grammar |
| `NameGrammar.ValidNameSplitsMatch` | src/main/java/com/accenture/NamedMessageFormat.java:54-57 | a match whose name is valid is `{` + name + `,` + rest |
| `NameGrammar.IsValidName` | src/main/java/com/accenture/NamedMessageFormat.java:27 | definition of `^[a-zA-Z_][a-zA-Z0-9_]+$`: at least two characters, a letter or `_` first, then letters, digits or `_` |
| `NameGrammar.ShortNamesAreRejected` | src/main/java/com/accenture/NamedMessageFormat.java:27 | empty and one-character names fail the grammar |
| `NameGrammar.BadCharacterIsRejected` | src/main/java/com/accenture/NamedMessageFormat.java:27 | a leading digit, or any character outside [a-zA-Z0-9_], fails the grammar |
| `NameGrammar.TestNames` | src/test/java/com/accenture/NamedMessageFormatTest.java:35-39 | `myDate`, `simpleInt` and `numberPercent` are valid; `!myDate`, `213simpleInt` and `..numberPercent` are not |
| `Decimal.DecimalString` | src/main/java/com/accenture/NamedMessageFormat.java:62 | `String.valueOf(i)` is a non-empty string of digits with no leading zero |
| `Decimal.DecimalValue` | src/main/java/com/accenture/NamedMessageFormat.java:62 | reference definition: reads a digit string back as a number, the partner of `DecimalString` |
| `Decimal.DecimalRoundTrip` | src/main/java/com/accenture/NamedMessageFormat.java:62 | reading the decimal string back gives the index |
| `Decimal.DecimalStringInjective` | src/main/java/com/accenture/NamedMessageFormat.java:62 | distinct indices are written differently |
| `Replace.ReplaceAll` | src/main/java/com/accenture/NamedMessageFormat.java:62 | definition of `String.replace`: occurrences of the target, found left to right without overlap, are replaced |
| `Replace.ReplaceAllAbsent` | src/main/java/com/accenture/NamedMessageFormat.java:62 | `String.replace` leaves a string without the target unchanged |
| `Replace.ReplaceAllBySelf` | src/main/java/com/accenture/NamedMessageFormat.java:62 | `ReplaceAll(s, t, t) == s`: replacing the target by itself gives back the string |
| `Replace.ReplaceAllLeading` | src/main/java/com/accenture/NamedMessageFormat.java:62 | proof step: an occurrence at the front is replaced and the scan resumes after it |
| `Replace.ReplaceAllSkip` | src/main/java/com/accenture/NamedMessageFormat.java:62 | proof step: a character that cannot start the target is copied |
| `Replace.ReplaceAllAfterOpeningThen` | src/main/java/com/accenture/NamedMessageFormat.java:62 | in `{` + name + `,` + rest, the name is replaced, the braces and comma kept, and rest rewritten on its own |
| `Replace.ReplaceAllTwice` | src/main/java/com/accenture/NamedMessageFormat.java:62 | both occurrences of the target are replaced, not only the first |
| `NamedMessageFormatException.NamedFormatError.Message` | src/main/java/com/accenture/NamedMessageFormatException.java:10-13 | the message is `FIRST_LETTER_IS_NUMBER`, then `:`, then the name |
| `NamedMessageFormatException.MessageDeterminesName` | src/main/java/com/accenture/NamedMessageFormatException.java:11-13 | two exceptions with the same message carry the same name |
| `FormatSemantics.MatchText` | src/main/java/com/accenture/NamedMessageFormat.java:52 | `group()` is the match text, opening with `{` and closing with `}` |
| `FormatSemantics.NamesOf` | src/main/java/com/accenture/NamedMessageFormat.java:52-54 | one name per match, in order, each cut from its match |
| `FormatSemantics.Names` | src/main/java/com/accenture/NamedMessageFormat.java:50-54 | one name per match of the scan, in discovery order |
| `FormatSemantics.Literal` | src/main/java/com/accenture/NamedMessageFormat.java:72-75 | definition: the template text before match k, or after the last match, that `appendReplacement` and `appendTail` copy |
| `FormatSemantics.Arguments` | src/main/java/com/accenture/NamedMessageFormat.java:46-68 | definition: the list after the given names, the value of each name the map holds, in order; a missing name adds nothing |
| `FormatSemantics.IndexedText` | src/main/java/com/accenture/NamedMessageFormat.java:62 | definition: match k with every occurrence of its name replaced by `String.valueOf(k)` |
| `FormatSemantics.Fragment` | src/main/java/com/accenture/NamedMessageFormat.java:70 | definition: the renderer applied to the indexed text of match k and the list after names 0 .. k |
| `FormatSemantics.OutputFrom` | src/main/java/com/accenture/NamedMessageFormat.java:50-75 | definition: literal k, fragment k, literal k + 1, ..., up to the text after the last match |
| `FormatSemantics.FormatSpec` | src/main/java/com/accenture/NamedMessageFormat.java:44-78 | definition of one call: the first invalid name's exception, or else the output from literal 0 |
| `FormatSemantics.FormatFrom` | src/main/java/com/accenture/NamedMessageFormat.java:50-75 | definition of the loop's remaining work from a scan position, round and list, written as the loop runs |
| `FormatSemantics.LeadingValid` | src/main/java/com/accenture/NamedMessageFormat.java:57-60 | the position of the first invalid name: every name before it is valid |
| `FormatSemantics.ArgumentsStep` | src/main/java/com/accenture/NamedMessageFormat.java:66-68 | proof step: round i appends the value of name i when the map has it, and nothing otherwise |
| `FormatSemantics.LeadingValidStops` | src/main/java/com/accenture/NamedMessageFormat.java:57-60 | the first invalid name stops the scan at its own round |
| `FormatSemantics.ResumedScan` | src/main/java/com/accenture/NamedMessageFormat.java:50 | `find` resumed after match k - 1 returns matches k, k + 1, ... |
| `FormatSemantics.FormatFromValidRound` | src/main/java/com/accenture/NamedMessageFormat.java:50-72 | proof step: one round past a valid name appends the literal text and the fragment rendered from `replace(name, i)`, then continues with the longer list |
| `FormatSemantics.FormatFromRound` | src/main/java/com/accenture/NamedMessageFormat.java:50-75 | the loop resumed after k valid rounds yields the first invalid name's exception or the rest of the output |
| `FormatSemantics.FormatFromStart` | src/main/java/com/accenture/NamedMessageFormat.java:44-78 | the loop run from the start of the template computes `FormatSpec` |
| `ArgumentProperties.PresentValues` | src/main/java/com/accenture/NamedMessageFormat.java:66-68 | reference definition: the values of the names the map holds, read from the front |
| `ArgumentProperties.ArgumentsArePresentValues` | src/main/java/com/accenture/NamedMessageFormat.java:46-68 | the argument list is the in-order list of the values of the names the map holds |
| `ArgumentProperties.ArgumentsAppend` | src/main/java/com/accenture/NamedMessageFormat.java:66-68 | the list for two runs of names is the two lists one after the other |
| `ArgumentProperties.ArgumentsLength` | src/main/java/com/accenture/NamedMessageFormat.java:66-68 | the list is at most as long as the names seen, and exactly as long iff every name is in the map |
| `ArgumentProperties.ArgumentsAllPresent` | src/main/java/com/accenture/NamedMessageFormat.java:66-68 | with every name in the map, entry j is the value of name j |
| `ArgumentProperties.ArgumentsOfPresentPrefix` | src/main/java/com/accenture/NamedMessageFormat.java:66-70 | with names 0 .. k in the map, the list passed for placeholder k has k + 1 entries, entry j the value of name j |
| `ArgumentProperties.ArgumentsOnlyGrow` | src/main/java/com/accenture/NamedMessageFormat.java:46-67 | the list after k names is a prefix of the final list |
| `ArgumentProperties.PresentNameLengthens` | src/main/java/com/accenture/NamedMessageFormat.java:66-68 | a later name that the map holds makes the list strictly longer |
| `ArgumentProperties.ArgumentsSameOnNames` | src/main/java/com/accenture/NamedMessageFormat.java:66-68 | maps that agree on the names give the same list |
| `ArgumentProperties.MissingNameShiftsPositions` | src/main/java/com/accenture/NamedMessageFormat.java:66-70 | a missing name among 0 .. k leaves the list for placeholder k without an entry k |
| `ArgumentProperties.DriftExample` | src/main/java/com/accenture/NamedMessageFormat.java:66-68 | with `aa` missing, the value of `bb` sits at position 0 although its placeholder reads `{1}` |
| `FormatProperties.NoPlaceholderLeavesTemplateUnchanged` | src/main/java/com/accenture/NamedMessageFormat.java:49-77 | with no match in the template, `format` returns the template unchanged |
| `FormatProperties.NoOpeningBraceLeavesTemplateUnchanged` | src/main/java/com/accenture/NamedMessageFormat.java:49-77 | a template without `{` is returned unchanged, whatever the map and renderer |
| `FormatProperties.TilingIsSuffix` | src/main/java/com/accenture/NamedMessageFormat.java:72-75 | from literal k on, the literal segments and match texts rebuild the rest of the template |
| `FormatProperties.TemplateIsTiled` | src/main/java/com/accenture/NamedMessageFormat.java:72-75 | the literals copied to the output and the matches replaced by fragments cover the whole template, in order |
| `FormatProperties.FailsExactlyOnInvalidName` | src/main/java/com/accenture/NamedMessageFormat.java:57-60 | `format` fails iff some name is invalid, and then with the first invalid name |
| `FormatProperties.FailureMessageNamesThePlaceholder` | src/main/java/com/accenture/NamedMessageFormat.java:57-60 | the exception names a placeholder's invalid name, and its message is the constant, `:`, and that name |
| `FormatProperties.CommaFreePlaceholderAborts` | src/main/java/com/accenture/NamedMessageFormat.java:54-60 | any placeholder without a comma makes the call throw |
| `FormatProperties.IndexReplacesName` | src/main/java/com/accenture/NamedMessageFormat.java:62 | placeholder k with a valid name becomes `{` + k + `,` + its rest, with the name also rewritten in the rest |
| `FormatProperties.FragmentIsPositional` | src/main/java/com/accenture/NamedMessageFormat.java:62-70 | when names 0 .. k are in the map and name k does not occur again in the rest of its placeholder, fragment k renders `{k,` + that rest with a list of k + 1 values, entry j the value of name j |
| `FormatProperties.NameRepeatedInsidePlaceholderIsRewritten` | src/main/java/com/accenture/NamedMessageFormat.java:62 | `{n,n}` becomes `{k,k}`, not `{k,n}` |
| `FormatProperties.RepeatedNameGetsFreshIndex` | src/main/java/com/accenture/NamedMessageFormat.java:50-68 | two placeholders with the same name get different indices, and the later one appends again |
| `FormatProperties.IndexedTextStartsWithIndex` | src/main/java/com/accenture/NamedMessageFormat.java:62 | the rewritten placeholder starts with `{`, its index and a comma |
| `FormatProperties.OutputFromSameOnNames` | src/main/java/com/accenture/NamedMessageFormat.java:45-70 | the output from literal k on depends only on the map's entries for the template's names |
| `FormatProperties.OutputDependsOnlyOnNamedEntries` | src/main/java/com/accenture/NamedMessageFormat.java:45-70 | maps that agree on the template's names give the same result, so other keys and insertion order do not matter |
| `TemplateAssembly.PlaceholderFound` | src/main/java/com/accenture/NamedMessageFormat.java:50 | after literal text without `{`, `find` returns the next `{body}` when body holds no `}` and no line terminator |
| `TemplateAssembly.AssembledTemplateRoundTrip` | src/main/java/com/accenture/NamedMessageFormat.java:49-50 | when no literal holds `{` and no body holds `}` or a line terminator, scanning lit_0 `{b_0}` lit_1 ... lit_n recovers exactly the bodies and the literals |
| `AssembledFormat.PlaceholderRendered` | src/main/java/com/accenture/NamedMessageFormat.java:54-70 | placeholder k written `{name,rest}`, with name valid, comma-free and not occurring again in rest + `}`, is rendered as `{k,rest}` with the list of names 0 .. k |
| `AssembledFormat.AssembledNames` | src/main/java/com/accenture/NamedMessageFormat.java:50-54 | for literals without `{`, and placeholders `{name,rest}` with name valid, comma-free and not recurring in rest, and body free of `}` and line terminators: the scan yields the names, placeholders and literals |
| `AssembledFormat.FormatOfAssembled` | src/main/java/com/accenture/NamedMessageFormat.java:44-78 | under the same conditions as `AssembledNames`, formatting the assembled template succeeds and interleaves its literals with the rendered `{k,rest_k}` |
| `AssembledFormat.RenderedIsPositional` | src/main/java/com/accenture/NamedMessageFormat.java:66-70 | with every name in the map, the lists built are the prefixes of the values in placeholder order |
| `AssembledFormat.NamedEqualsPositional` | src/main/java/com/accenture/NamedMessageFormat.java:44-78 | for literals without `{`, names that are valid, comma-free, in the map and not recurring in the rest of their placeholder, and rests without `}` or line terminators: the output is lit_0, then `{0,rest_0}` rendered alone with value 0, lit_1, then `{1,rest_1}` rendered alone with values 0 .. 1, and so on up to lit_n |
| `TestScenarios.InvalidFirstNameIsReported` | src/main/java/com/accenture/NamedMessageFormat.java:57-60 | an invalid name in the first placeholder is the one reported, whatever follows |
| `TestScenarios.CorruptPatternIsRejected` | src/test/java/com/accenture/NamedMessageFormatTest.java:69-72 | the test's corrupt template fails with `!myDate` |
| `TestScenarios.BraceStaysInCommaFreeName` | src/main/java/com/accenture/NamedMessageFormat.java:54-60 | `{1bad}` fails with the name `1bad}` |
| `TestScenarios.NamedPatternFormats` | src/test/java/com/accenture/NamedMessageFormatTest.java:61-66 | the test's named template gives its literals with `{0, time, dd.MM.yyyy}`, `{1, number, integer}` and `{2, number, percent}` each rendered on its own, with the first one, two and three values in placeholder order |

## Left out

- `java.text.MessageFormat.format` is the parameter `render`. Its date, number and percent rendering, and its handling of missing indices, are not modelled. Its exceptions for a malformed type or style are not modelled either, because `render` is total.
- NamedMessageFormat.Formatter.Format: fragments are appended literally. `Matcher.appendReplacement` treats `$` and `\` in the fragment as group references and escapes; that is not modelled.
- The copy of the map into a `ConcurrentHashMap` is not modelled; the map is an immutable Dafny `map`. The `NullPointerException` on null keys or values is not modelled either, nor the one for a null map or a null template: Dafny's `map` and `string` have no null.
- Thread safety and the concurrent test are not modelled, because Dafny has no threads. `Format` reads `pattern` once, at entry, and keeps all per-call state local.
- The loop counter `i` is a Java `int`; the model's index is unbounded. The two agree, because a Java string has at most 2^31 - 1 characters and each match takes at least two, so `i` stays below 2^30.
- Positions count Unicode code points, while Java's `Matcher` counts UTF-16 units. The matched texts and the output are the same.
- The text of `FIRST_LETTER_IS_NUMBER` is left unspecified (`FirstLetterIsNumber`); only its place in the message is modelled.
- Replace.ReplaceAll: an empty target is excluded. For an empty target Java inserts the replacement before, between and after all characters (`"ab".replace("", "-")` is `"-a-b-"`), but `format` only replaces names that passed the grammar, which have at least two characters.
- NameGrammar.ExtractName: text that starts with a comma is excluded. There Java's `split(",")[0]` is empty and `substring(1)` throws; for text made only of commas `split(",")` returns an empty array and `[0]` throws first. Every match starts with `{`, so neither case arises in `format`.
- The JUnit harness and `new Date()` are not modelled. The test's values are parameters of the scenario lemmas.
