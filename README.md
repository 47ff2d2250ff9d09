# Cartesian product generator — Dafny model

This project models the core of a small Java command-line tool that reads two
finite sets typed by the user and prints their Cartesian product A × B.

- `InputParser` turns a line such as `{1, 2, 3}` or `apple, banana` into a list
  of `SetElement`s. It trims the line, strips set braces, splits on commas,
  drops empty pieces and validates each piece against `[a-zA-Z0-9\s._-]+`.
  It also builds sets from an array or an integer range, removes duplicates
  and formats a set for display.
- `CartesianProductService` validates the two lists and builds A × B in row-major
  order in three ways: nested loops, recursion over a shared accumulator list,
  and a stream `flatMap`. It answers queries over a product: its cardinality,
  its numeric pairs, whether a pair of values occurs, and simple counts.
- `SetElement` is a trimmed value tagged with its set's name. Its equality looks
  at the value only. `CartesianPair` is an ordered pair of elements.

Files:

| file | contents |
|---|---|
| `outcomes.dfy` | `Option` (Java `null`), `Result` (a value or a thrown exception's message), `Outcome` (a check that passes or throws) |
| `java_text.dfy` | the JDK behaviour the core relies on: `String.trim`, `String.split(",")`, `Collectors.joining`, `String.valueOf(int)`, `String.hashCode`, `int` wrap-around |
| `seqs.dfy` | order-preserving selection (`Subseq`) |
| `model.dfy` | `SetElement` and `CartesianPair` |
| `input_parser.dfy` | `InputParser` |
| `product_service.dfy` | `CartesianProductService` |

How Java is modelled:

- A Java `null` argument that the source checks for is an `Option`. An exception is a
  `Failure` carrying its exact message.
- `parseSet`'s console warning about duplicates is returned as a boolean flag beside the result.
- Imperative code stays imperative:
  - `parseSet` and `parseRange` are loops;
  - `generateCartesianProduct` is two nested loops;
  - `generateRecursive` recurses over a `PairList` object whose `items` it extends in place.
- Three methods are proved equal to a declarative function, and the properties are proved
  about those functions: `ParseSet` equals `ParseSetResult`; `GenerateCartesianProduct` and
  `GenerateCartesianProductRecursive` equal `GenerateCartesianProductStream`. The other methods
  state their results directly: `ParseRange` gives the elements in closed form, `CheckDuplicates`
  returns `HasDuplicates`, `PairList.Add` appends one pair, and `GenerateRecursive` appends the
  rows of the rest of A to its accumulator.
- `Double.parseDouble` and double arithmetic stay abstract. They are the function
  parameters `isNumeric: string -> bool` and `Numerics<D>`.

## Model

| member | source | states |
|---|---|---|
| JavaText.Trim | src/main/java/com/Cartesian/Model/SetElement.java:20 | `String.trim`: the result has no blank (code point ≤ U+0020) at either end and is no longer than the input |
| JavaText.TrimIsSlice | src/main/java/com/Cartesian/Model/SetElement.java:20 | what trim keeps is a contiguous slice of the input with only blanks before and after it |
| JavaText.TrimUnique | src/main/java/com/Cartesian/Model/SetElement.java:20 | any trimmed slice padded on both sides only by blanks is exactly what trim returns |
| JavaText.TrimIdempotent | src/main/java/com/Cartesian/Util/InputParser.java:40 | trimming twice equals trimming once (parseSet trims text that is trimmed again later) |
| JavaText.TrimEmptyIff | src/main/java/com/Cartesian/Util/InputParser.java:35 | `trim().isEmpty()` holds exactly when the text is blanks only |
| JavaText.TrimPadded | src/main/java/com/Cartesian/Util/InputParser.java:52 | a trimmed text padded with blanks trims back to itself |
| JavaText.SplitAll | src/main/java/com/Cartesian/Util/InputParser.java:43 | splitting on commas yields at least one piece and no piece holds a comma |
| JavaText.JoinSplitAll | src/main/java/com/Cartesian/Util/InputParser.java:43 | joining the comma-separated pieces with commas gives the text back |
| JavaText.SplitAllJoin | src/main/java/com/Cartesian/Util/InputParser.java:43 | splitting comma-free pieces joined with commas gives the pieces back |
| JavaText.JoinWith | src/main/java/com/Cartesian/Util/InputParser.java:195-197 | `Collectors.joining(sep)`: the pieces in order with `sep` between neighbours; `SplitAllJoin` and `TokensOfJoined` prove that splitting undoes it |
| JavaText.DropTrailingEmpty | src/main/java/com/Cartesian/Util/InputParser.java:43 | removes exactly the trailing empty pieces, as `split` does: a prefix, everything after it empty, its own last piece non-empty |
| JavaText.Split | src/main/java/com/Cartesian/Util/InputParser.java:43 | no piece of `split(",")` holds a comma |
| JavaText.SplitEmptyIff | src/main/java/com/Cartesian/Util/InputParser.java:43-47 | `split(",")` returns no pieces exactly when the text is one or more commas and nothing else |
| JavaText.IntToString | src/main/java/com/Cartesian/Util/InputParser.java:166 | `String.valueOf(int)`: digits only, with a leading minus exactly for negative numbers, and no leading zero except for 0 itself |
| JavaText.IntToStringRoundTrip | src/main/java/com/Cartesian/Util/InputParser.java:166 | reading back the numeral of an integer gives the integer |
| JavaText.IntToStringInjective | src/main/java/com/Cartesian/Util/InputParser.java:164-167 | different integers have different numerals |
| JavaText.WrapInt | src/main/java/com/Cartesian/Model/SetElement.java:74 | the Java `int` congruent to a value modulo 2^32; values already in range are kept |
| JavaText.StringHash | src/main/java/com/Cartesian/Model/SetElement.java:74 | `String.hashCode` is a Java `int` |
| Model.NewSetElement | src/main/java/com/Cartesian/Model/SetElement.java:19-22 | the value is stored trimmed, a null value becomes "", the set name is kept |
| Model.NewSetElementKeepsTrimmed | src/main/java/com/Cartesian/Model/SetElement.java:19-22 | a value that is already trimmed is stored unchanged |
| Model.ElementEquals | src/main/java/com/Cartesian/Model/SetElement.java:64-70 | `SetElement.equals` on two elements: the values are equal; its properties are `ElementEqualsIgnoresSetName` and `ElementEqualsIsEquivalence` |
| Model.ElementEqualsIgnoresSetName | src/main/java/com/Cartesian/Model/SetElement.java:64-70 | two elements are equal exactly when their values agree, whatever their set names |
| Model.ElementEqualsIsEquivalence | src/main/java/com/Cartesian/Model/SetElement.java:64-70 | equality of elements is reflexive, symmetric and transitive |
| Model.ElementHashCode | src/main/java/com/Cartesian/Model/SetElement.java:72-75 | `Objects.hash(value)` is a Java `int` |
| Model.ElementHashAgreesWithEquals | src/main/java/com/Cartesian/Model/SetElement.java:64-75 | equal elements have equal hash codes |
| Model.ElementToString | src/main/java/com/Cartesian/Model/SetElement.java:77-80 | the display form is the value itself; `ElementToStringIsEqualityKey` states what that means for equality |
| Model.ElementToStringIsEqualityKey | src/main/java/com/Cartesian/Model/SetElement.java:64-80 | two elements display alike exactly when they are equal |
| Model.IsNumeric | src/main/java/com/Cartesian/Model/SetElement.java:44-51 | `isNumeric`: `Double.parseDouble` accepts the value, decided by the abstract parameter `isNumeric` |
| Model.GetNumericValue | src/main/java/com/Cartesian/Model/SetElement.java:44-62 | null exactly when the value is not numeric, otherwise the parsed value |
| Model.NewPair | src/main/java/com/Cartesian/Model/CartesianPair.java:19-25 | succeeds exactly when both members are non-null and keeps them in order; otherwise throws "Pair elements cannot be null" |
| Model.IsNumericPair | src/main/java/com/Cartesian/Model/CartesianPair.java:47-49 | `isNumericPair`: both members are numeric |
| Model.GetSum | src/main/java/com/Cartesian/Model/CartesianPair.java:47-60 | null exactly when the pair is not numeric, otherwise the sum of the parsed members |
| Model.GetProduct | src/main/java/com/Cartesian/Model/CartesianPair.java:47-71 | null exactly when the pair is not numeric, otherwise the product of the parsed members |
| Model.PairEquals | src/main/java/com/Cartesian/Model/CartesianPair.java:73-80 | `CartesianPair.equals`: first members equal and second members equal, each by `SetElement.equals`; its properties are `PairEqualsIsOrdered` and `PairEqualsIsEquivalence` |
| Model.PairEqualsIsOrdered | src/main/java/com/Cartesian/Model/CartesianPair.java:73-80 | (a, b) equals (b, a) only when a equals b |
| Model.PairEqualsIsEquivalence | src/main/java/com/Cartesian/Model/CartesianPair.java:73-80 | equality of pairs is reflexive, symmetric and transitive |
| Model.PairHashCode | src/main/java/com/Cartesian/Model/CartesianPair.java:82-85 | `Objects.hash(first, second)` is a Java `int` |
| Model.PairHashAgreesWithEquals | src/main/java/com/Cartesian/Model/CartesianPair.java:73-85 | equal pairs have equal hash codes |
| Model.PairToString | src/main/java/com/Cartesian/Model/CartesianPair.java:87-90 | the display form is parenthesised and four characters longer than the two values |
| Model.PairToStringInjective | src/main/java/com/Cartesian/Model/CartesianPair.java:87-90 | when neither first value holds a comma, equal display forms mean equal pairs |
| Model.PairToDetailedString | src/main/java/com/Cartesian/Model/CartesianPair.java:96-99 | the detailed form is parenthesised and ten characters longer than the values and set names |
| InputParser.RemoveSetNotation | src/main/java/com/Cartesian/Util/InputParser.java:93-105 | the result is trimmed and no longer than the input; text with no brace at its ends is only trimmed |
| InputParser.RemoveSetNotationUnwraps | src/main/java/com/Cartesian/Util/InputParser.java:93-105 | a text wrapped in one pair of braces comes back trimmed, and only one brace is removed from each side |
| InputParser.RemoveSetNotationLeadingOnly | src/main/java/com/Cartesian/Util/InputParser.java:96-98 | a leading brace is removed even without a closing one |
| InputParser.RemoveSetNotationTrailingOnly | src/main/java/com/Cartesian/Util/InputParser.java:100-102 | a trailing brace is removed even without an opening one |
| InputParser.IsAllowedChar | src/main/java/com/Cartesian/Util/InputParser.java:120 | one character of the class `[a-zA-Z0-9\s._-]`; comma and braces are outside it |
| InputParser.IsValidElement | src/main/java/com/Cartesian/Util/InputParser.java:114-121 | `isValidElement` on a non-null text: it is not empty and every character is in the class |
| InputParser.ValidElementHasNoDelimiter | src/main/java/com/Cartesian/Util/InputParser.java:114-121 | a valid element contains no comma and no brace |
| InputParser.FirstInvalidIndex | src/main/java/com/Cartesian/Util/InputParser.java:51-63 | the token at which the loop throws: invalid, with every token before it valid |
| InputParser.Tokens | src/main/java/com/Cartesian/Util/InputParser.java:40-43 | the pieces parseSet loops over: the trimmed line, without set notation, split on commas |
| InputParser.TrimmedTokens | src/main/java/com/Cartesian/Util/InputParser.java:51-56 | the tokens the loop keeps are non-empty and trimmed, and there are no more of them than tokens |
| InputParser.TrimmedTokensConcat | src/main/java/com/Cartesian/Util/InputParser.java:51-56 | skipping empty tokens distributes over concatenation |
| InputParser.TrimmedTokensAllSurvive | src/main/java/com/Cartesian/Util/InputParser.java:51-56 | tokens that are not blank all survive, each one trimmed and in order |
| InputParser.TrimmedTokensOfSplit | src/main/java/com/Cartesian/Util/InputParser.java:43-56 | the trailing empty pieces that `split` drops would have been skipped anyway |
| InputParser.ElementsOfTrimmed | src/main/java/com/Cartesian/Util/InputParser.java:65 | elements built from trimmed values carry exactly those values and the set name |
| InputParser.ParseSetResult | src/main/java/com/Cartesian/Util/InputParser.java:35-37 | a null or blank input throws "Input cannot be null or empty for set …" |
| InputParser.ParseSet | src/main/java/com/Cartesian/Util/InputParser.java:34-84 | the loop returns or throws exactly what `ParseSetResult` states, and the duplicate warning is raised exactly when the returned list repeats a value |
| InputParser.CheckDuplicates | src/main/java/com/Cartesian/Util/InputParser.java:73-81 | the distinct count falls below the size exactly when some value is repeated |
| InputParser.ScanTokens | src/main/java/com/Cartesian/Util/InputParser.java:49-66 | the loop over the pieces: blank pieces skipped, the first invalid piece throws, every other piece appended; `ScanTokensMeaning` states its result without recursion |
| InputParser.ParseTokens | src/main/java/com/Cartesian/Util/InputParser.java:43-70 | what parseSet does after the blank check: no pieces, an invalid piece and no survivors each throw their message; `ParseSetResultMeaning` states all outcomes |
| InputParser.ScanFailureSticks | src/main/java/com/Cartesian/Util/InputParser.java:59-63 | once an invalid token has thrown, later tokens change nothing |
| InputParser.ScanTokensMeaning | src/main/java/com/Cartesian/Util/InputParser.java:49-66 | the loop succeeds exactly when every kept token is valid, returning one element per kept token; otherwise it throws for the first invalid one |
| InputParser.ParseSetResultMeaning | src/main/java/com/Cartesian/Util/InputParser.java:34-84 | the full outcome of parseSet: the blank-input error, the no-elements error, the invalid-element error for the first invalid token, the no-valid-elements error, or the elements of the kept tokens |
| InputParser.ParseSetSuccess | src/main/java/com/Cartesian/Util/InputParser.java:49-83 | a successful parse returns at least one element; the values are the kept tokens in order, and each is valid, trimmed and tagged with the set name |
| InputParser.ParseSetRejectsInvalidToken | src/main/java/com/Cartesian/Util/InputParser.java:59-63 | any invalid kept token makes parseSet throw |
| InputParser.BlankHasNoTokens | src/main/java/com/Cartesian/Util/InputParser.java:35-56 | a blank line leaves no token standing |
| InputParser.ParseSetRejectsNoSurvivors | src/main/java/com/Cartesian/Util/InputParser.java:68-70 | a non-blank line whose tokens are all blank (e.g. `{}`) throws "Set … contains no valid elements" |
| InputParser.ParseSetRejectsOnlyCommas | src/main/java/com/Cartesian/Util/InputParser.java:43-47 | a line that is only commas once unwrapped throws "No elements found in set …" |
| InputParser.ValueSetMembers | src/main/java/com/Cartesian/Util/InputParser.java:73-76 | the distinct values are exactly the values that occur in the list |
| InputParser.DistinctValueCount | src/main/java/com/Cartesian/Util/InputParser.java:73-76 | `map(getValue).distinct().count()`: one per element whose value is new; `DistinctValueCountIsCardinality` makes it the number of different values |
| InputParser.DistinctValueCountIsCardinality | src/main/java/com/Cartesian/Util/InputParser.java:73-76 | the distinct count is the number of different values |
| InputParser.HasDuplicates | src/main/java/com/Cartesian/Util/InputParser.java:78 | the warning condition as a scan: some element repeats an earlier value; `HasDuplicatesIff` and `DuplicateWarningIff` tie it to the count and to positions |
| InputParser.HasDuplicatesIff | src/main/java/com/Cartesian/Util/InputParser.java:73-78 | the duplicate scan succeeds exactly when some value occurs at two positions |
| InputParser.DuplicateWarningIff | src/main/java/com/Cartesian/Util/InputParser.java:73-78 | the distinct count is at most the size, and below it exactly when a value repeats |
| InputParser.RemoveDuplicates | src/main/java/com/Cartesian/Util/InputParser.java:178-182 | de-duplication keeps the same set of values |
| InputParser.RemoveDuplicatesIsDistinct | src/main/java/com/Cartesian/Util/InputParser.java:178-182 | no value occurs twice in the result |
| InputParser.RemoveDuplicatesIsSubsequence | src/main/java/com/Cartesian/Util/InputParser.java:178-182 | the result only deletes elements and keeps the order of the rest |
| InputParser.RemoveDuplicatesKeepsFirstOccurrences | src/main/java/com/Cartesian/Util/InputParser.java:178-182 | the first element carrying each value is in the result (its position is fixed by `RemoveDuplicatesIsFirstOccurrences`) |
| InputParser.FirstOccurrences | src/main/java/com/Cartesian/Util/InputParser.java:178-182 | the reference for an ordered `distinct()`: the elements that no earlier element equals, in their original order |
| InputParser.RemoveDuplicatesIsFirstOccurrences | src/main/java/com/Cartesian/Util/InputParser.java:178-182 | the result is exactly the first occurrences of the values, in their original order |
| InputParser.FirstOccurrencesKeepOrder | src/main/java/com/Cartesian/Util/InputParser.java:178-182 | of two first occurrences at positions i < j, the one at i comes first in the result |
| InputParser.RemoveDuplicatesExample | src/main/java/com/Cartesian/Util/InputParser.java:178-182 | the elements of the line `1,2,1` de-duplicate to the elements 1 then 2 |
| InputParser.RemoveDuplicatesOfDistinct | src/main/java/com/Cartesian/Util/InputParser.java:178-182 | a list without repeated values is unchanged |
| InputParser.RemoveDuplicatesIdempotent | src/main/java/com/Cartesian/Util/InputParser.java:178-182 | removing duplicates twice equals removing them once |
| InputParser.ParseSetFromArray | src/main/java/com/Cartesian/Util/InputParser.java:131-143 | throws exactly for a null or empty array, with its message; otherwise the non-blank entries, trimmed, in order, tagged with the set name |
| InputParser.ParseSetFromArraySkipsValidation | src/main/java/com/Cartesian/Util/InputParser.java:131-143 | an entry parseSet rejects as invalid is accepted from an array |
| InputParser.ParseSetFromArrayMayBeEmpty | src/main/java/com/Cartesian/Util/InputParser.java:138-142 | a non-empty array whose entries are all blank gives an empty list (parseSet never succeeds with one, by `ParseSetSuccess`) |
| InputParser.NumeralIsValid | src/main/java/com/Cartesian/Util/InputParser.java:166 | a range element's numeral passes parseSet's validation |
| InputParser.ParseRange | src/main/java/com/Cartesian/Util/InputParser.java:155-170 | throws exactly when start > end; otherwise end − start + 1 elements holding the numerals of start…end in order, every one valid and none repeated |
| InputParser.FormatSet | src/main/java/com/Cartesian/Util/InputParser.java:190-200 | "∅" exactly for a null or empty list; otherwise the text starts with "{ " and ends with " }" |
| InputParser.ParseFormatRoundTrip | src/main/java/com/Cartesian/Util/InputParser.java:34-84 | parsing the formatted text of a non-empty list of valid, trimmed values gives back the same values in the same order |
| InputParser.TokensOfJoined | src/main/java/com/Cartesian/Util/InputParser.java:195-197 | splitting values joined with ", " and trimming the pieces gives the values back |
| CartesianProductService.ValidateSets | src/main/java/com/Cartesian/Service/CartesianProductService.java:147-161 | passes exactly when both lists are non-null and non-empty; otherwise fails with the null, empty-A and empty-B messages, in that order |
| CartesianProductService.Row | src/main/java/com/Cartesian/Service/CartesianProductService.java:93-94 | the row of a pairs a with each element of B, in B's order |
| CartesianProductService.FlatMapRows | src/main/java/com/Cartesian/Service/CartesianProductService.java:93-96 | `setA.stream().flatMap(row)`: the rows of the elements of A one after the other; `FlatMapRowsIsProduct` proves it is the row-major product |
| CartesianProductService.GeneratedProductEntry | src/main/java/com/Cartesian/Service/CartesianProductService.java:93-96 | the product has |A| * |B| pairs and pair i * |B| + j is (A[i], B[j]), with Java's `*` |
| CartesianProductService.FlatMapRowsConcat | src/main/java/com/Cartesian/Service/CartesianProductService.java:92-95 | the rows of A + A' are the rows of A followed by the rows of A' |
| CartesianProductService.FlatMapRowsIsProduct | src/main/java/com/Cartesian/Service/CartesianProductService.java:92-95 | flatMap of rows is A × B in row-major order: |A| · |B| pairs, with (A[i], B[j]) at i · |B| + j |
| CartesianProductService.MulIsMultiplication | src/main/java/com/Cartesian/Service/CartesianProductService.java:123 | the repeated addition used for row offsets is multiplication |
| CartesianProductService.ProductEntry | src/main/java/com/Cartesian/Service/CartesianProductService.java:36-40 | in a row-major product, the pair at offset i · |B| + j exists and is (A[i], B[j]) |
| CartesianProductService.ProductIndex | src/main/java/com/Cartesian/Service/CartesianProductService.java:33-41 | every pair of a row-major product sits at some row i < |A| and column j < |B| and is (A[i], B[j]) |
| CartesianProductService.ProductIsUnique | src/main/java/com/Cartesian/Service/CartesianProductService.java:28-97 | a row-major product of A and B is unique, so any two ways of building one agree |
| CartesianProductService.GenerateCartesianProductStream | src/main/java/com/Cartesian/Service/CartesianProductService.java:88-97 | succeeds exactly when validation passes, otherwise throws its message; the result is A × B in row-major order |
| CartesianProductService.GenerateCartesianProduct | src/main/java/com/Cartesian/Service/CartesianProductService.java:28-44 | the nested loops give the same result as the stream version, and that result is A × B in row-major order |
| CartesianProductService.PairList.constructor | src/main/java/com/Cartesian/Service/CartesianProductService.java:59 | `new ArrayList<>()`: the accumulator starts empty |
| CartesianProductService.PairList.Add | src/main/java/com/Cartesian/Service/CartesianProductService.java:73 | appends one pair to the accumulator |
| CartesianProductService.GenerateRecursive | src/main/java/com/Cartesian/Service/CartesianProductService.java:65-77 | the accumulator gains the rows of A[indexA..] after what it held, and the same list is returned |
| CartesianProductService.RowsFrom | src/main/java/com/Cartesian/Service/CartesianProductService.java:71-76 | the rows from index i on are the row of A[i] followed by the rows after it |
| CartesianProductService.GenerateCartesianProductRecursive | src/main/java/com/Cartesian/Service/CartesianProductService.java:55-60 | the recursive version gives the same result as the stream version, and that result is A × B in row-major order |
| CartesianProductService.FilterNumericPairs | src/main/java/com/Cartesian/Service/CartesianProductService.java:105-109 | every pair kept is numeric, and no more pairs are kept than there are |
| CartesianProductService.FilterNumericPairsIsExact | src/main/java/com/Cartesian/Service/CartesianProductService.java:105-109 | every numeric pair is kept as often as it occurs, and nothing else |
| CartesianProductService.FilterNumericPairsIsSubsequence | src/main/java/com/Cartesian/Service/CartesianProductService.java:105-109 | the filter keeps the product's order |
| CartesianProductService.FilterNumericPairsConcat | src/main/java/com/Cartesian/Service/CartesianProductService.java:105-109 | filtering distributes over concatenation |
| CartesianProductService.GetCardinality | src/main/java/com/Cartesian/Service/CartesianProductService.java:119-124 | never negative; zero exactly when a list is null or empty |
| CartesianProductService.CardinalityIsProductSize | src/main/java/com/Cartesian/Service/CartesianProductService.java:119-124 | whenever generation succeeds, the cardinality is the number of pairs generated |
| CartesianProductService.CardinalityOfNullList | src/main/java/com/Cartesian/Service/CartesianProductService.java:119-124 | with a null list the cardinality is 0, while generation throws "Sets cannot be null" |
| CartesianProductService.ContainsPair | src/main/java/com/Cartesian/Service/CartesianProductService.java:134-138 | true exactly when some pair has the given first and second values; a null value matches nothing |
| CartesianProductService.ContainsPairOfProduct | src/main/java/com/Cartesian/Service/CartesianProductService.java:134-138 | in A × B, containsPair holds exactly for the value of some a in A together with the value of some b in B |
| CartesianProductService.ContainedPairComesFromSets | src/main/java/com/Cartesian/Service/CartesianProductService.java:134-138 | a pair of values found in A × B is the value of some a in A with the value of some b in B |
| CartesianProductService.ProductHoldsPair | src/main/java/com/Cartesian/Service/CartesianProductService.java:134-138 | A × B contains the values of A[i] and B[j] for every i and j |
| CartesianProductService.GenerateStatistics | src/main/java/com/Cartesian/Service/CartesianProductService.java:169-177 | the three counts of the `Statistics` record: the total is the product's size; the numeric count is the number of numeric pairs, between 0 and the total; numeric plus non-numeric is the total |
| CartesianProductService.NumericPairsOfRow | src/main/java/com/Cartesian/Service/CartesianProductService.java:170-172 | a row of a numeric a holds as many numeric pairs as B has numeric elements; a row of a non-numeric a holds none |
| CartesianProductService.NumericPairsOfProduct | src/main/java/com/Cartesian/Service/CartesianProductService.java:170-172 | the numeric pairs of A × B number (numeric elements of A) × (numeric elements of B) |

## Left out

- `Main.java` (the console menu and the reading of input) is not part of this model. Neither are
  the constructors of `InvalidSetException` that take a cause (only its message is modelled).
- Console output: `parseSet`'s duplicate warning is a boolean result. `generateStatistics` is modelled
  by its three counts, not by the layout of the text it prints.
- Floating point: `Double.parseDouble`, `+` and `*` on doubles are abstract parameters
  (`isNumeric`, `Numerics<D>`). Nothing is proved about the values they compute.
- ParseRange: uses mathematical integers. In Java, with an `end` of `Integer.MAX_VALUE` the
  test `i <= end` always holds and `i++` wraps to `Integer.MIN_VALUE`, so the call never leaves
  the loop normally: the list grows until the JVM throws `OutOfMemoryError`, where the model
  returns a list of `end - start + 1` elements.
- GetCardinality: uses mathematical integers. Java's `setA.size() * setB.size()` can overflow.
- Null entries inside lists and arrays, and null set names, are not modelled. The lists passed to
  `removeDuplicates`, `filterNumericPairs`, `containsPair` and `generateStatistics` are never null
  here; Java would throw a `NullPointerException` on one.
- GenerateRecursive: Java makes one nested call per element of A and does not eliminate tail
  calls, so a long enough A (say 100 000 elements from `parseRange`) ends in a
  `StackOverflowError` where the loop and stream versions return. The model has no call-depth
  limit, and `GenerateCartesianProductRecursive` agrees with the other two on every input.
- `equals` against `null` or an object of another class (always false in Java) is not modelled:
  both equalities compare two values of the same type.
- StringHash: follows `String.hashCode` over Dafny characters. It equals Java's value for text
  in the Basic Multilingual Plane and differs for supplementary characters, which Java hashes
  as two UTF-16 units.
- Getters (`getValue`, `getSetName`, `getFirst`, `getSecond`) are the datatype fields.
