# DemoService: the subset-sum gateway

`DemoService.calculateSubsetsFromForm` answers a request made of two raw
strings: a total and a comma-separated list of integers. It first looks in
a history repository for a record whose total and list strings are
exactly the request's. If one exists, its stored result is returned. If
not, the service:

- splits the list at commas, trims each piece and reads it with
  `Integer.valueOf`, collecting the values into a set;
- reads the total with `Integer.valueOf`, without trimming;
- hands the set, as a list, and the total to an enumerator of the subsets
  that sum to the total;
- serializes the subsets with `serializeNestedSet`;
- saves a record holding the raw strings and the result, and returns the
  result.

`serializeNestedSet` fills a `StringBuilder`. For each subset it appends
`[`, then each element followed by a comma. It then replaces the last
comma in the whole builder by `] `. The final text is trimmed.

The project is split into modules:

- `Wrappers`: `Option` and `Result`.
- `JavaLang`: the exceptions, the 32-bit `int` range, `Integer.valueOf`
  and `Integer.toString`.
- `JavaStrings`: `String.trim`, `String.split` with a one-character
  pattern, and the index arithmetic of `lastIndexOf` and `replace`.
- `StringBuilders`: a `StringBuilder` class whose characters are a field
  that its methods update.
- `HistoryStore`: the `History` record and a `HistoryRepository` class
  whose records field is a sequence in insertion order.
- `FormParsing`: how the list and the total are read.
- `Serialization`: two things. `Serialized` is the serializer as written.
  `Format` is the layout the output is meant to have: each subset as `[a,b]`,
  subsets separated by single spaces.
- `Service`: the `DemoService` class, with `CalculateSubsetsFromForm` and
  `SerializeNestedSet` written as imperative methods over the builder and
  the repository.

The enumerator (`RangeAddends`) is a function parameter of type
`Enumerator`, from the addend list and the sum to the subsets found. Each
subset is given in its set's iteration order. The `HashSet` iteration order
of the addend set is a parameter too (`SetOrder`). A ghost counter
`enumeratorCalls` records each call to it.

## Model

| member | source | states |
|---|---|---|
| Service.DemoService.CalculateSubsetsFromForm | src/main/java/com/example/demo/service/DemoService.java:37-72 | A record with the request's exact raw strings answers it: no save, no enumeration. On a miss the result is the list-then-total parse, the enumeration of the set in the `HashSet` order of the raw list, and the serialization. The enumerator runs once iff both strings parse. Exactly one record with the raw strings and the result is appended, iff the result is not an exception. Unique keys are preserved. After any successful call, the lookup for the request finds that record. |
| Service.DemoService.constructor | src/main/java/com/example/demo/service/DemoService.java:32-34 | The service holds the given repository, and no enumeration has happened yet. |
| Service.ParseForm | src/main/java/com/example/demo/service/DemoService.java:48-56 | The list is read before the total, so a bad list throws first. Its meaning is given by `ParsedList`, `TotalLiteral` and `TotalRead`; `ParseFailureFirst`, `PaddedTotalFails` and `RawStringKeys` state consequences. |
| Service.Computed | src/main/java/com/example/demo/service/DemoService.java:48-62 | The result of a request no record answers: parse the list, then the total, hand the enumerator the set in the order `order` gives for the raw list, and serialize. `CalculateSubsetsFromForm` returns it on a miss; `ParseFailureFirst` and `PaddedTotalFails` state when it fails. |
| Service.ParseFailureFirst | src/main/java/com/example/demo/service/DemoService.java:48-56 | A list or total that does not read throws before any listing or enumeration, whatever the order and the enumerator; a bad list throws its own error first. |
| Service.SetListed | src/main/java/com/example/demo/service/DemoService.java:58 | Every finite set of `int`s has a listing with each element once and nothing else, so the requirement that the `HashSet` order lists the parsed set can always be met. |
| Service.RepeatedRequest | src/main/java/com/example/demo/service/DemoService.java:39-44 | Repeating a request that succeeded returns the same string. Over the pair of calls, at most one record is saved and the enumerator runs at most once. |
| Service.RawStringKeys | src/main/java/com/example/demo/service/DemoService.java:39 | `"2,3,5"` and `"2, 3, 5"` parse to the same addends, yet a record saved under one does not answer a lookup of the other: the store is keyed on raw strings. |
| Service.PaddedTotalFails | src/main/java/com/example/demo/service/DemoService.java:56 | A total containing any blank character, padding included, never computes. When the list parses, the error is `NumberFormatException` of the raw total. |
| Service.NoMatchAppended | src/main/java/com/example/demo/service/DemoService.java:39 | Saving a record under another key leaves every lookup of a key unchanged. |
| Service.DemoService.SerializeNestedSet | src/main/java/com/example/demo/service/DemoService.java:74-89 | The builder loop returns exactly `Serialized(subsets)`. That is either the trimmed builder text or the exception of the first `replace` that throws, after which no further subset is visited. |
| Service.DemoService.AppendSubsetTo | src/main/java/com/example/demo/service/DemoService.java:78-85 | One outer step leaves the builder holding `AppendSubset` of its old text. When `replace` throws, it reports that exception and the builder keeps the appended `[` and element texts, with no comma replaced. |
| Service.DemoService.AppendElements | src/main/java/com/example/demo/service/DemoService.java:80-82 | The inner loop appends each element's decimal text and a comma, in order, and nothing else. |
| HistoryStore.FindFirst | src/main/java/com/example/demo/service/DemoService.java:39 | The answer is `None` iff no record has both raw strings. Otherwise it is the first such record in insertion order. |
| HistoryStore.HistoryRepository.FindFirstByTotalAndList | src/main/java/com/example/demo/service/DemoService.java:39 | The scanning lookup returns exactly `FindFirst` of the stored records. |
| HistoryStore.HistoryRepository.Save | src/main/java/com/example/demo/service/DemoService.java:69 | Saving appends exactly the one record. |
| HistoryStore.SaveAfterMiss | src/main/java/com/example/demo/service/DemoService.java:39-69 | A record saved after a failed lookup keeps keys unique, and a lookup of its key then finds it. |
| HistoryStore.FindFirstAppended | src/main/java/com/example/demo/service/DemoService.java:69 | When no record has a key, appending a record with that key makes the lookup find it. |
| HistoryStore.FindFirstStable | src/main/java/com/example/demo/service/DemoService.java:69 | A later save never changes the answer for a key that already has a record. |
| FormParsing.CollectToSetMeaning | src/main/java/com/example/demo/service/DemoService.java:48-54 | Collecting succeeds iff every piece reads. On success, the set holds exactly the values read. On failure, the error is that of the first piece that does not read. |
| FormParsing.ReadAddend | src/main/java/com/example/demo/service/DemoService.java:52-53 | One piece trimmed, then read by `Integer.valueOf`; the exception carries the trimmed literal. `ReadDigit`, `ReadEmpty` and `PaddingIgnored` state what it accepts. |
| FormParsing.CollectToSet | src/main/java/com/example/demo/service/DemoService.java:51-54 | The stream maps each piece and collects into a set, stopping at the first failure. Its meaning is `CollectToSetMeaning`. |
| FormParsing.ParseAddends | src/main/java/com/example/demo/service/DemoService.java:51-54 | The pieces trimmed and read as `int`s, collected into a set. Its meaning is `CollectToSetMeaning` with `ReadAddend`. |
| FormParsing.ParseList | src/main/java/com/example/demo/service/DemoService.java:48-54 | The addend set of the raw list. Its meaning is `ParsedList`. |
| FormParsing.ParsedList | src/main/java/com/example/demo/service/DemoService.java:48-54 | The list parses iff every piece of `split(",")` reads as a trimmed `int`. The set is then exactly the pieces' values, with duplicates collapsed. Otherwise the first unreadable piece throws. |
| FormParsing.CollectSameReads | src/main/java/com/example/demo/service/DemoService.java:51-54 | Pieces that read alike one by one collect to the same set or the same error. |
| FormParsing.PaddingIgnored | src/main/java/com/example/demo/service/DemoService.java:52-53 | Pieces that trim to the same literals give the same addend set or the same error. |
| FormParsing.ReadDigit | src/main/java/com/example/demo/service/DemoService.java:52-53 | Any text that is blank padding followed by one digit reads as that digit. |
| FormParsing.ParseTotal | src/main/java/com/example/demo/service/DemoService.java:56 | `Integer.valueOf` on the untrimmed total; an accepted value is in the `int` range. Its meaning is given by `TotalLiteral`, `TotalRead` and `PaddedTotalRejected`. |
| FormParsing.TotalLiteral | src/main/java/com/example/demo/service/DemoService.java:56 | A total that is an optional sign and at least one digit reads as their signed value when it fits in an `int`, and otherwise throws `NumberFormatException` of the raw total. |
| FormParsing.TotalRead | src/main/java/com/example/demo/service/DemoService.java:56 | A total that reads is exactly an optional sign followed by at least one digit, with nothing trimmed, and its value is theirs. A total that does not read throws `NumberFormatException` of the raw string. |
| FormParsing.PaddedTotalRejected | src/main/java/com/example/demo/service/DemoService.java:56 | A total with a blank character anywhere, padding included, throws `NumberFormatException`. |
| FormParsing.TrailingCommaIgnored | src/main/java/com/example/demo/service/DemoService.java:50 | A trailing comma after a non-empty list changes nothing, because `split` drops trailing empty pieces. |
| FormParsing.EmptyListRejected | src/main/java/com/example/demo/service/DemoService.java:50-53 | The empty list is one empty piece and throws `NumberFormatException("")`. |
| FormParsing.EmptyMiddleTokenRejected | src/main/java/com/example/demo/service/DemoService.java:50-53 | An empty piece between two commas (`"1,,2"`) throws `NumberFormatException("")`. |
| FormParsing.ReadEmpty | src/main/java/com/example/demo/service/DemoService.java:52-53 | An empty piece trims to the empty literal, which throws. |
| FormParsing.SeparatorsOnlyGiveEmptySet | src/main/java/com/example/demo/service/DemoService.java:50-54 | A list of only a comma splits into no pieces and reads as the empty set, not as an error. |
| FormParsing.DuplicateLiteralsCollapse | src/main/java/com/example/demo/service/DemoService.java:54 | `"1,1,2"` reads as the two-element set `{1, 2}`. |
| FormParsing.SpacedListSameSet | src/main/java/com/example/demo/service/DemoService.java:48-54 | `"2,3,5"` and `"2, 3, 5"` both read as `{2, 3, 5}`. |
| FormParsing.SplitThree | src/main/java/com/example/demo/service/DemoService.java:50 | Three comma-free pieces joined by commas, the last non-empty, split back into exactly those pieces. |
| FormParsing.CollectThree | src/main/java/com/example/demo/service/DemoService.java:54 | Three readable pieces collect to the set of their three values. |
| FormParsing.CollectStopsAtSecond | src/main/java/com/example/demo/service/DemoService.java:53-54 | After one readable piece, an unreadable second piece is the error of the whole stream. |
| JavaLang.ParseInt | src/main/java/com/example/demo/service/DemoService.java:53 | An accepted literal is an optional sign and at least one ASCII digit, with no other character. Its value is in the `int` range, and negative only after a minus sign. `ParseIntDecomposes`, `ParseIntAccepts` and `ParseIntRejectsOutOfRange` together pin it down. |
| JavaLang.ParseIntAccepts | src/main/java/com/example/demo/service/DemoService.java:53 | Every optional sign followed by at least one ASCII digit whose value fits in an `int` is accepted, with that value; leading zeros and a plus sign are allowed. |
| JavaLang.ParseIntRejectsOutOfRange | src/main/java/com/example/demo/service/DemoService.java:53 | An optional sign followed by at least one digit whose value is outside the `int` range is rejected. |
| JavaLang.ParseIntDecomposes | src/main/java/com/example/demo/service/DemoService.java:53 | An accepted literal is an optional sign followed by at least one digit, and its value is the signed value of those digits. |
| JavaLang.SignAndLeadingZeros | src/main/java/com/example/demo/service/DemoService.java:53 | `"+5"` reads as 5 and `"007"` as 7. |
| JavaLang.ParseIntToString | src/main/java/com/example/demo/service/DemoService.java:81 | Reading back the decimal text of any `int` gives that `int`. |
| JavaLang.ParseIntRejectsBlank | src/main/java/com/example/demo/service/DemoService.java:56 | A literal containing any blank character is rejected: `Integer.valueOf` does not trim. |
| JavaLang.IntToString | src/main/java/com/example/demo/service/DemoService.java:81 | `i + ","` renders `i` as digits after an optional minus sign, present iff `i` is negative. |
| JavaLang.NaturalText | src/main/java/com/example/demo/service/DemoService.java:81 | The text of a natural number is all digits, denotes the number and has no leading zero. |
| JavaStrings.TrimSlice | src/main/java/com/example/demo/service/DemoService.java:52 | `trim()` keeps a text with a non-blank character at each end. The input is the leading blanks, then that text, then only blank characters. |
| JavaStrings.TrimPadded | src/main/java/com/example/demo/service/DemoService.java:52 | Trimming blank padding off either side of a trimmed text gives back that text, so the decomposition is unique. |
| JavaStrings.Trim | src/main/java/com/example/demo/service/DemoService.java:52 | `String.trim`. Its meaning is `TrimSlice` and `TrimPadded`. |
| JavaStrings.LeadingBlanks | src/main/java/com/example/demo/service/DemoService.java:52 | The count of front characters `trim` removes: all are blank, and the next one, if any, is not. |
| JavaStrings.TrailingBlanks | src/main/java/com/example/demo/service/DemoService.java:52 | The count of back characters `trim` removes: all are blank, and the one before, if any, is not. |
| JavaStrings.SplitAll | src/main/java/com/example/demo/service/DemoService.java:50 | Every piece between commas is comma-free, and the pieces joined by commas give back the input. |
| JavaStrings.DropTrailingEmpty | src/main/java/com/example/demo/service/DemoService.java:50 | `split` drops exactly the trailing empty pieces: the result is a prefix whose last piece is non-empty, and only empty pieces were dropped. |
| JavaStrings.Split | src/main/java/com/example/demo/service/DemoService.java:50 | `split(",")` pieces are comma-free. The result is empty only for a non-empty string of commas, and its last piece is empty only for the empty input. |
| JavaStrings.SplitJoin | src/main/java/com/example/demo/service/DemoService.java:50 | Comma-free pieces whose last is non-empty split back from their join. |
| JavaStrings.SplitAllJoin | src/main/java/com/example/demo/service/DemoService.java:50 | Splitting the join of comma-free pieces at every comma, empty pieces kept, gives back exactly those pieces. |
| JavaStrings.SplitIgnoresTrailingSeparator | src/main/java/com/example/demo/service/DemoService.java:50 | One more trailing comma after a non-empty string does not change the pieces. |
| JavaStrings.JoinSnoc | src/main/java/com/example/demo/service/DemoService.java:80-84 | Joining one more piece appends a separator and that piece. |
| JavaStrings.JoinAvoids | src/main/java/com/example/demo/service/DemoService.java:80-84 | A character that is neither the separator nor in any piece is not in the join. |
| JavaStrings.LastIndexOf | src/main/java/com/example/demo/service/DemoService.java:83 | The index is -1 or holds the character, and no later position holds it. |
| JavaStrings.Replace | src/main/java/com/example/demo/service/DemoService.java:84 | `replace` throws iff `start` is negative, beyond the length or beyond `end`. Otherwise the text before `start` is kept, `str` is inserted, and the text from `min(end, length)` on follows. |
| StringBuilders.StringBuilder.Append | src/main/java/com/example/demo/service/DemoService.java:79-81 | The builder's characters gain exactly the appended text. |
| StringBuilders.StringBuilder.ToString | src/main/java/com/example/demo/service/DemoService.java:88 | `toString()` gives exactly the builder's characters, which `SerializeNestedSet` then trims. |
| StringBuilders.StringBuilder.LastIndexOf | src/main/java/com/example/demo/service/DemoService.java:83 | The backward scan returns the last index of the character, or -1. |
| StringBuilders.StringBuilder.Replace | src/main/java/com/example/demo/service/DemoService.java:84 | The builder holds the replaced text, or reports the exception and keeps its characters. |
| StringBuilders.StringBuilder.constructor | src/main/java/com/example/demo/service/DemoService.java:75 | A new builder is empty. |
| Serialization.ElementsTextStep | src/main/java/com/example/demo/service/DemoService.java:80-82 | One more inner step appends one element's text and a comma. |
| Serialization.ElementsText | src/main/java/com/example/demo/service/DemoService.java:80-82 | What the inner `forEach` appends for one subset: each element's decimal text followed by a comma. Its meaning is `ElementsTextStep`, `ElementsTextJoin` and `ElementsShape`. |
| Serialization.AppendSubset | src/main/java/com/example/demo/service/DemoService.java:79-84 | One step of the outer `forEach`. `AppendNonEmptySubset` gives it for a non-empty subset, `EmptySubsetWithoutCommaThrows` and `EmptyAfterPair` for an empty one. |
| Serialization.Built | src/main/java/com/example/demo/service/DemoService.java:77-86 | The builder contents after the outer loop. `BuiltStep` is its one-step meaning, `BuiltWellFormed` and `BuiltShape` what it holds. |
| Serialization.Serialized | src/main/java/com/example/demo/service/DemoService.java:74-89 | The method as written. `SerializeWellFormed` and `SerializedMatchesFormat` relate it to `Format`. |
| Serialization.BuiltStep | src/main/java/com/example/demo/service/DemoService.java:77-86 | One more outer step applies `AppendSubset` to the text so far. After an exception the result stays that exception. |
| Serialization.ElementsTextJoin | src/main/java/com/example/demo/service/DemoService.java:80-82 | The elements of a non-empty subset, each followed by a comma, are the comma-joined elements and one comma. |
| Serialization.AppendNonEmptySubset | src/main/java/com/example/demo/service/DemoService.java:79-84 | For a non-empty subset, the last comma is the one just appended, so the step adds exactly `[a,b,...] `. |
| Serialization.BuiltWellFormed | src/main/java/com/example/demo/service/DemoService.java:77-86 | With no empty subset, the builder holds the intended format followed by one space, or nothing when there are no subsets. |
| Serialization.SerializeWellFormed | src/main/java/com/example/demo/service/DemoService.java:74-89 | With no empty subset, the output is exactly the subsets as `[a,b]` separated by single spaces. That text is already trimmed. No subsets give `""`. |
| Serialization.TrimFormatted | src/main/java/com/example/demo/service/DemoService.java:88 | The final `trim()` removes exactly the trailing space. |
| Serialization.FormatSnoc | src/main/java/com/example/demo/service/DemoService.java:77-86 | One more subset adds a space and its bracketed text. |
| Serialization.FormatEnds | src/main/java/com/example/demo/service/DemoService.java:74-89 | A non-empty output starts with `[` and ends with `]`. |
| Serialization.BuiltFailureSticks | src/main/java/com/example/demo/service/DemoService.java:77-86 | Once `replace` has thrown, later subsets do not change the outcome. |
| Serialization.FirstSubsetEmptyThrows | src/main/java/com/example/demo/service/DemoService.java:83-84 | An empty first subset has no comma to find. `lastIndexOf` gives -1, and `replace(-1, 0, "] ")` throws `StringIndexOutOfBoundsException`. |
| Serialization.SerializedMatchesFormat | src/main/java/com/example/demo/service/DemoService.java:74-89 | The output is the intended format iff no subset is empty. |
| Serialization.EmptySubsetSpoils | src/main/java/com/example/demo/service/DemoService.java:77-88 | Any empty subset, in any position, keeps the output from being the intended format: either `replace` throws or the text has no `[]`, while the intended format does. |
| Serialization.FormatShowsEmptySubset | src/main/java/com/example/demo/service/DemoService.java:77-86 | The intended format of subsets with an empty one contains `[]`. |
| Serialization.JoinShowsEmptyBrackets | src/main/java/com/example/demo/service/DemoService.java:77-86 | A joined text shows `[]` when one of its pieces is `[]`. |
| Serialization.BuiltShape | src/main/java/com/example/demo/service/DemoService.java:77-86 | Whatever the builder holds after a run that has not thrown has no `[` directly before `]`, and every comma follows a digit. |
| Serialization.AppendSubsetShape | src/main/java/com/example/demo/service/DemoService.java:79-84 | One outer step that does not throw keeps that shape. |
| Serialization.AppendedShape | src/main/java/com/example/demo/service/DemoService.java:79-82 | Appending `[` and an elements text to a text of that shape keeps the shape. |
| Serialization.ReplacedShape | src/main/java/com/example/demo/service/DemoService.java:84 | In a text of that shape, replacing the last comma by `] ` keeps the shape. |
| Serialization.ElementsShape | src/main/java/com/example/demo/service/DemoService.java:80-82 | The elements text holds no bracket, and each of its commas follows a digit. |
| Serialization.IntToStringEndsInDigit | src/main/java/com/example/demo/service/DemoService.java:81 | The decimal text of an `int` ends in a digit. |
| Serialization.TrimKeepsNoEmptyBrackets | src/main/java/com/example/demo/service/DemoService.java:88 | `trim()` does not create a `[]`. |
| Serialization.EmptySubsetWithoutCommaThrows | src/main/java/com/example/demo/service/DemoService.java:83-84 | An empty subset after a builder text with no comma makes `lastIndexOf` give -1, and `replace(-1, 0, "] ")` throws `StringIndexOutOfBoundsException`. |
| Serialization.EmptySubsetAfterSingletonExample | src/main/java/com/example/demo/service/DemoService.java:77-88 | For the subsets `[5]` then `[]`, the method throws `StringIndexOutOfBoundsException` for start -1, end 0 and length 5. |
| Serialization.SingletonBuilt | src/main/java/com/example/demo/service/DemoService.java:77-86 | The subset `[5]` alone builds `[5] `. |
| Serialization.LastIndexOfBefore | src/main/java/com/example/demo/service/DemoService.java:83 | Appending text without the character does not move its last index. |
| Serialization.EmptySubsetAfterPairExample | src/main/java/com/example/demo/service/DemoService.java:77-88 | For the subsets `[1,2]` then `[]`, the output is `[1] 2] [`. |
| Serialization.EmptyAfterPair | src/main/java/com/example/demo/service/DemoService.java:79-84 | After `[1,2] `, an empty subset rewrites the comma inside `[1,2]`. |
| Serialization.PairBuilt | src/main/java/com/example/demo/service/DemoService.java:77-86 | The subset `[1,2]` alone builds `[1,2] `. |
| Serialization.FormatBracketCount | src/main/java/com/example/demo/service/DemoService.java:79-84 | The intended output has exactly one `[` per subset. |
| Serialization.BracketedCount | src/main/java/com/example/demo/service/DemoService.java:79-84 | One bracketed subset holds exactly one `[`. |
| Serialization.NumeralsAvoid | src/main/java/com/example/demo/service/DemoService.java:81 | Element texts never contain a bracket, a comma or a space. |
| Serialization.FormatRoundTrip | src/main/java/com/example/demo/service/DemoService.java:74-89 | Splitting the intended output at spaces, stripping the brackets, splitting at commas and reading each literal gives back the subsets, for `int` elements and no empty subset. |
| Serialization.GroupsRoundTrip | src/main/java/com/example/demo/service/DemoService.java:77-86 | The bracketed groups read back to the subsets. |
| Serialization.GroupRoundTrip | src/main/java/com/example/demo/service/DemoService.java:79-84 | One bracketed non-empty subset reads back to its elements. |
| Serialization.NumeralsRoundTrip | src/main/java/com/example/demo/service/DemoService.java:80-82 | The element texts of `int`s read back to the elements. |

## Left out

- Logging (`LOGGER`, lines 28 and 42) and the `@Auditable` aspect (line 36) have no effect on results and are not modelled.
- Spring wiring, JPA persistence and transactions are not modelled. The repository is an in-memory sequence in insertion order, which is assumed to be the order `findFirstByTotalAndList` searches.
- The `History` entity's setters and generated id are not modelled: a record is a value of total, list and result.
- The `Form` provider type is reduced to its two strings. Null strings, a null form and a null enumerator result are not modelled.
- Concurrent requests are not modelled: two requests racing past the same miss could both save.
- `RangeAddends` and its `calculateAddendsForSum` are not part of this model. The enumerator is a function parameter, and nothing is proved about which subsets it returns.
- `HashSet` iteration order is not computed. The order in which `new LinkedList<>(addendSet)` lists the addends is a parameter of type `SetOrder`, a function of the raw list string, since the values and their insertion order both come from it. It is only required to list the parsed set, each element once. Each subset is taken in the order the enumerator gives. Nothing is claimed that depends on a particular order.
- JavaLang.ParseInt: accepts only ASCII digits, whereas `Character.digit` also accepts other Unicode decimal digits.
- JavaStrings.Replace: the three throw conditions carry one exception value (start, clipped end, length). Java's messages, which differ between them, are not modelled.
- Serialization.FormatRoundTrip: reads the output back by splitting at single spaces. That is the same cut as at `] [`, because element texts hold no space.
- The empty-subset behaviour is modelled as the code does it. An empty subset throws `StringIndexOutOfBoundsException` when the builder holds no comma yet, as for a first subset or after only one-element subsets. Otherwise it rewrites the last comma of an earlier subset and leaves a stray `[`. It is not counted as a defect, because whether the enumerator ever yields an empty subset depends on `RangeAddends`, which is not part of this model.
