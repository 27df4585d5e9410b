# SwiftOpenAPI: identifier case conversion, key encoding strategies and the Parameter Object

This project models three parts of SwiftOpenAPI in Dafny and proves properties of the model.
SwiftOpenAPI is a Swift library that builds OpenAPI documents from Swift types.

- **Case conversion and type names** (`String++.swift`).
  - `toSnakeCase(separator:)` turns a Swift name such as `URLSession` into a wire key such as `url_session`. It is a one-pass scanner with one boolean of look-ahead state.
  - `toCamelCase(separator:)` goes the other way. It keeps the leading and trailing separator runs, splits the middle into words and re-cases the first letter of each word.
  - The `decapitalized` and `encapitalized` helpers.
  - `typeName(_:)` folds the reflected description of a type, for example `Swift.Array<MyApp.Pet>`, into one alphanumeric identifier.
- **Key encoding strategies** (`KeyEncodingStrategy.swift`). A strategy is a record holding a total `String -> String` function. The factories are `custom`, `convertToSnakeCase`, `convertToSnakeCase(separator:)` and `default`.
- **The Parameter Object** of the OpenAPI Specification, section 4.7.12 of OpenAPI 3.0.3 (`ParameterObject.swift`).
  - Its initializer, which forces a path parameter to be required.
  - The `Location` and `Style` enumerations with their raw values.

Modules (one file each):

| module | file | contents |
|---|---|---|
| `Ascii` | `ascii.dfy` | character classes and case mapping, restricted to ASCII |
| `Sequences` | `sequences.dfy` | `components(separatedBy:)`, `split(separator:)`, `joined()`, and `JoinWith`, the model's own inverse of splitting, used to state round trips |
| `Snake` | `snake_case.dfy` | `toSnakeCase`: a positional specification, the scanner as a method, and its properties |
| `Camel` | `camel_case.dfy` | `toCamelCase`, `decapitalized`, `encapitalized`: a value specification, the method with the backwards index loop, and its properties |
| `CaseRoundTrip` | `case_round_trip.dfy` | when `toSnakeCase` undoes `toCamelCase`, and a counterexample showing why the conditions are needed |
| `TypeNames` | `type_name.dfy` | `typeName` over the reflected text |
| `KeyEncoding` | `key_encoding_strategy.dfy` | the strategy record and its factories |
| `Parameters` | `parameter_object.dfy` | `ParameterObject`, its initializer, `Location`, `Style` |

How the imperative code is modelled:
- `toSnakeCase` is a `for` loop. `Snake.ToSnakeCase` keeps that loop and is proved to return `Snake.SnakeCase`.
  - `SnakeCase` is a positional specification. `BreakBefore(s, sep, i)` says whether a separator goes in front of `s[i]`.
  - The loop invariant ties the scanner's flag `separateOnUppercase` to `BreakBefore`.
- `toCamelCase` has a `repeat … while` loop that steps back over the trailing separators. `Camel.ToCamelCase` keeps that loop and is proved to return `Camel.CamelCase`.
- Swift's closures call `toSnakeCase`. Here they call the specification function, because a Dafny function cannot call a method. `KeyEncoding.EncodeWithScanner` shows that the scanner agrees with the strategy.
- The initializer and the enumerations are pure value code. They become a datatype with a constructor function.

Two behaviours of the code that are easy to miss:
- **Single word.** `toCamelCase` returns a key range of fewer than two words unchanged, so `"Foo"` stays `"Foo"`: the first letter is lowercased only when there are at least two words (`Camel.CamelCaseSingleWord`, `Camel.CamelCaseIdentity`).
- **Round trip.** `toSnakeCase` undoes `toCamelCase` on lowercase words when every word after the first has at least two letters (`CaseRoundTrip.SnakeCaseUndoesCamelCase`), and a one-letter later word can break it: `"a_b_c"` becomes `"aBC"`, which becomes `"a_bc"` (`CaseRoundTrip.RoundTripNeedsLongWords`).

## Model

| member | source | states |
|---|---|---|
| Ascii.Lower | Sources/SwiftOpenAPI/Common/String++.swift:62 | `lowercased()` of a character: an uppercase letter becomes the lowercase letter 32 code points above; everything else is left alone; the result is never uppercase |
| Ascii.Upper | Sources/SwiftOpenAPI/Common/String++.swift:71 | `uppercased()` of a character: a lowercase letter becomes the uppercase letter 32 code points below; everything else is left alone; the result is never lowercase |
| Ascii.CaseInverses | Sources/SwiftOpenAPI/Common/String++.swift:68-71 | lowercasing undoes uppercasing on a lowercase letter, and uppercasing undoes lowercasing on an uppercase one |
| Sequences.SplitBy | Sources/SwiftOpenAPI/Common/String++.swift:7 | `components(separatedBy:)` gives at least one piece, and no piece contains a separator |
| Sequences.NonEmpty | Sources/SwiftOpenAPI/Common/String++.swift:34 | the omission of empty pieces in `split(separator:)`: no more pieces than before, each one non-empty and one of the original pieces |
| Sequences.Filter | Sources/SwiftOpenAPI/Common/String++.swift:17-19 | the kept characters, in order: no longer than the input, and every character satisfies the test |
| Sequences.SplitAround | Sources/SwiftOpenAPI/Common/String++.swift:7 | splitting distributes over a separator: the pieces of `a + [c] + b` are the pieces of `a` followed by the pieces of `b` |
| Sequences.SplitFree | Sources/SwiftOpenAPI/Common/String++.swift:7 | a string that contains no separator is a single piece |
| Sequences.JoinSplit | Sources/SwiftOpenAPI/Common/String++.swift:7 | joining the pieces with the one separator character gives back the string |
| Sequences.SplitJoin | Sources/SwiftOpenAPI/Common/String++.swift:7 | splitting a join of separator-free pieces gives back the pieces |
| Sequences.ConcatSplit | Sources/SwiftOpenAPI/Common/String++.swift:17-19 | concatenating the pieces removes exactly the separator characters and keeps the rest in order |
| Sequences.NonEmptyConcat | Sources/SwiftOpenAPI/Common/String++.swift:34 | dropping empty pieces does not change their concatenation |
| Sequences.JoinLength | Sources/SwiftOpenAPI/Common/String++.swift:39 | the separator-free `joined()` of the words is one character shorter per gap than their join with separators (`JoinWith`) |
| Snake.SnakePrefix | Sources/SwiftOpenAPI/Common/String++.swift:47-63 | the output for the first n characters has n characters plus one per separator inserted before them |
| Snake.SnakeCase | Sources/SwiftOpenAPI/Common/String++.swift:42-65 | the output has the input's length plus one per inserted separator, and it is empty exactly when the input is empty (the `guard !isEmpty`) |
| Snake.ToSnakeCase | Sources/SwiftOpenAPI/Common/String++.swift:42-65 | the scanner, with its `separateOnUppercase` flag, returns `SnakeCase` on every input |
| Snake.LowerAll | Sources/SwiftOpenAPI/Common/String++.swift:62 | the input lowercased character by character: same length, each character passed through `lowercased()` |
| Snake.SnakeCaseUnbroken | Sources/SwiftOpenAPI/Common/String++.swift:43-63 | deleting the separators from the output gives the lowercased input with its separators deleted: nothing but separators is added, and nothing is dropped or reordered |
| Snake.SnakePieceUnbroken | Sources/SwiftOpenAPI/Common/String++.swift:50-62 | once separators are deleted, the output for one input character is that character lowercased with its separators deleted |
| Snake.SnakeCaseLayout | Sources/SwiftOpenAPI/Common/String++.swift:47-63 | each input character, lowercased, sits at a fixed place in the output, after the separators inserted before it; an *inserted* separator immediately precedes it exactly when `BreakBefore` holds (when it does not hold, no separator is inserted there, though a separator from the input may still come right before it) |
| Snake.SnakeCaseFirst | Sources/SwiftOpenAPI/Common/String++.swift:51 | the first output character is the first input character lowercased, so an *inserted* separator never comes first (a separator from the input, as in `"_a"`, is kept in front) |
| Snake.SnakePrefixExtends | Sources/SwiftOpenAPI/Common/String++.swift:44-63 | the output only grows by appending: a shorter prefix's output is a prefix of a longer one's |
| Snake.InsertedSeparator | Sources/SwiftOpenAPI/Common/String++.swift:50-59 | with a separator that is not uppercase, an inserted separator stands right before an input character that is uppercase, and right after `s[i-1]` lowercased, where the input character `s[i-1]` is not the separator ("foo_Bar" gets no second separator) |
| Snake.AcronymRule | Sources/SwiftOpenAPI/Common/String++.swift:55-56 | between two uppercase letters the output has a separator exactly when the second letter is followed by a lowercase one; otherwise it has the first letter lowercased |
| Snake.SnakeCaseNoUpper | Sources/SwiftOpenAPI/Common/String++.swift:50-62 | with a separator that is not uppercase, the output contains no uppercase letter |
| Snake.SnakeCaseFixed | Sources/SwiftOpenAPI/Common/String++.swift:57-62 | a string without uppercase letters is its own snake case |
| Snake.SnakeCaseIdempotent | Sources/SwiftOpenAPI/Common/String++.swift:50-62 | snake-casing twice gives the same result as snake-casing once, when the separator is not uppercase |
| Snake.SnakeCaseUserId | Sources/SwiftOpenAPI/Common/String++.swift:50-53 | "userId" becomes "user_id" |
| Snake.SnakeCaseUserID | Sources/SwiftOpenAPI/Common/String++.swift:55-56 | "userID" becomes "user_id": a trailing acronym stays one word |
| Snake.SnakeCaseURLSession | Sources/SwiftOpenAPI/Common/String++.swift:55-56 | "URLSession" becomes "url_session": a leading acronym ends before the letter that starts a lowercase word |
| Snake.SnakeCaseAfterSeparator | Sources/SwiftOpenAPI/Common/String++.swift:59 | "foo_Bar" becomes "foo_bar": no separator is added after an existing one |
| Camel.Decapitalized | Sources/SwiftOpenAPI/Common/String++.swift:68 | `decapitalized`: same length, the first character lowercased, all other characters unchanged |
| Camel.Encapitalized | Sources/SwiftOpenAPI/Common/String++.swift:71 | `encapitalized`: same length, the first character uppercased, all other characters unchanged |
| Camel.CapitalizationOverrides | Sources/SwiftOpenAPI/Common/String++.swift:68-71 | applying both helpers one after the other keeps only the effect of the second |
| Camel.CapitalizationKeeps | Sources/SwiftOpenAPI/Common/String++.swift:68-71 | a word whose first character already has the target case is unchanged |
| Camel.MapEncapitalized | Sources/SwiftOpenAPI/Common/String++.swift:39 | `words[1...].map(\.encapitalized)`: the same number of words, each one encapitalized |
| Camel.LeadLen | Sources/SwiftOpenAPI/Common/String++.swift:23 | `firstIndex(where: { $0 != separator })`: everything before the index is the separator, and the character at the index is not |
| Camel.TrailLen | Sources/SwiftOpenAPI/Common/String++.swift:26-29 | the trailing separator run: everything after it in the string is the separator, and the character just before it is not |
| Camel.Core | Sources/SwiftOpenAPI/Common/String++.swift:31 | the key range is empty exactly when the string is all separators; otherwise it neither starts nor ends with a separator, and the two runs do not overlap |
| Camel.ToCamelCase | Sources/SwiftOpenAPI/Common/String++.swift:22-40 | the Swift code, with its backwards `repeat … while` loop, returns `CamelCase` on every input |
| Camel.KeyRange | Sources/SwiftOpenAPI/Common/String++.swift:26-37 | the indices the loops of `toCamelCase` stop at bound exactly the key range: the last non-separator index comes just before the trailing run, the slice between the indices is the key range, and the three slices reassemble the input into the expected output |
| Camel.WordsAround | Sources/SwiftOpenAPI/Common/String++.swift:34 | the words of `a + [sep] + b` are the words of `a` followed by the words of `b` |
| Camel.WordsOfSeparators | Sources/SwiftOpenAPI/Common/String++.swift:34 | a string of separators only has no words |
| Camel.WordsOfJoin | Sources/SwiftOpenAPI/Common/String++.swift:34 | splitting non-empty separator-free words joined by the separator gives back the words |
| Camel.WordsLength | Sources/SwiftOpenAPI/Common/String++.swift:34 | the words hold at most the text's characters, less one separator for each gap |
| Camel.MapEncapitalizedLength | Sources/SwiftOpenAPI/Common/String++.swift:39 | encapitalizing the later words does not change their total length |
| Camel.CamelCaseIdentity | Sources/SwiftOpenAPI/Common/String++.swift:23-39 | the output equals the input exactly when the key range holds fewer than two words (empty input, all separators, a single word); with two or more words the output is shorter |
| Camel.CamelCaseKeepsRuns | Sources/SwiftOpenAPI/Common/String++.swift:23-39 | in every case the output starts with the input's leading separator run and ends with its trailing one, verbatim |
| Camel.RunsAroundWords | Sources/SwiftOpenAPI/Common/String++.swift:31-39 | with two or more words, the output begins with the leading separator run and ends with the trailing one |
| Camel.CamelCaseOfWords | Sources/SwiftOpenAPI/Common/String++.swift:34-39 | on words joined by single separators between separator runs: a single word is returned unchanged; two or more words are joined with no separator, the first decapitalized and the others encapitalized |
| Camel.CamelCaseUserId | Sources/SwiftOpenAPI/Common/String++.swift:39 | "user_id" becomes "userId" |
| Camel.CamelCaseSingleWord | Sources/SwiftOpenAPI/Common/String++.swift:36-38 | "Foo" stays "Foo": a single word gets no case change |
| CaseRoundTrip.SnakeCaseAtCapitals | Sources/SwiftOpenAPI/Common/String++.swift:50-62 | with a separator that is not lowercase, on text that does not start with a capital and whose only capitals follow lowercase letters, `toSnakeCase` puts a separator before each capital and lowercases it |
| CaseRoundTrip.BreakAtCapitalsAppend | Sources/SwiftOpenAPI/Common/String++.swift:47-63 | breaking before capitals distributes over concatenation |
| CaseRoundTrip.EncapitalizedWords | Sources/SwiftOpenAPI/Common/String++.swift:39 | in encapitalized lowercase words of two or more letters, each capital starts a word and follows a lowercase letter |
| CaseRoundTrip.BreakAtCapitalsOfCamelWords | Sources/SwiftOpenAPI/Common/String++.swift:39-63 | breaking the camel-cased form of two or more words before its capitals restores the separators between the words |
| CaseRoundTrip.SnakeCaseUndoesCamelCase | Sources/SwiftOpenAPI/Common/String++.swift:22-65 | `toSnakeCase(toCamelCase(x)) == x`. Here x is lowercase ASCII words joined by single separators, with any leading and trailing separator runs. Every word after the first has at least two letters, and the separator is not a letter |
| CaseRoundTrip.CamelCaseUndoesSnakeCase | Sources/SwiftOpenAPI/Common/String++.swift:22-65 | `toCamelCase(toSnakeCase(y)) == y` for every y that `toCamelCase` makes from such an x, under the same conditions |
| CaseRoundTrip.CamelCaseOneLetterWords | Sources/SwiftOpenAPI/Common/String++.swift:39 | "a_b_c" becomes "aBC" |
| CaseRoundTrip.SnakeCaseTrailingCapitals | Sources/SwiftOpenAPI/Common/String++.swift:55-56 | "aBC" becomes "a_bc": trailing capitals read as an acronym |
| CaseRoundTrip.RoundTripNeedsLongWords | Sources/SwiftOpenAPI/Common/String++.swift:22-65 | the round trip fails on "a_b_c" and gives "a_bc", so the two-letter condition is needed |
| TypeNames.AlnumRunsJoined | Sources/SwiftOpenAPI/Common/String++.swift:16-19 | cutting each segment at its non-alphanumerics and joining the bits keeps exactly the alphanumerics, in order |
| TypeNames.TypeName | Sources/SwiftOpenAPI/Common/String++.swift:5-20 | the result is the alphanumerics of the segments that remain once each delimiter-separated piece with a dot has lost its first dotted segment, in their original order; it contains only alphanumerics |
| TypeNames.DropModuleNoDot | Sources/SwiftOpenAPI/Common/String++.swift:10-14 | a piece without a dot is kept whole |
| TypeNames.DropModuleFirstDot | Sources/SwiftOpenAPI/Common/String++.swift:10-14 | a piece with a dot loses everything up to and including its first dot; the later dots are cut out as well |
| TypeNames.DropModuleOfDotted | Sources/SwiftOpenAPI/Common/String++.swift:10-14 | a dotted name `M.T` of alphanumeric parts keeps only `T` |
| TypeNames.FilterKeepsAll | Sources/SwiftOpenAPI/Common/String++.swift:17-19 | a segment that is all alphanumerics passes through unchanged |
| TypeNames.GenericPieces | Sources/SwiftOpenAPI/Common/String++.swift:7 | `M.T<N.U>` is cut into `M.T`, `N.U` and the empty piece after `>` |
| TypeNames.GenericSegments | Sources/SwiftOpenAPI/Common/String++.swift:9-15 | those three pieces lose their module names and leave `T`, `U` and the empty segment |
| TypeNames.TypeNameOfGeneric | Sources/SwiftOpenAPI/Common/String++.swift:5-20 | `M.T<N.U>` is named `TU`: the module names are dropped and the generic argument is kept |
| TypeNames.TypeNameKeepsArguments | Sources/SwiftOpenAPI/Common/String++.swift:5-20 | two instances of one generic type with different argument names get different names (`Array<Foo>` and `Array<Bar>` stay apart) |
| KeyEncoding.Custom | Sources/SwiftOpenAPI/Encoders/KeyEncodingStrategy.swift:12-14 | `custom(f).encode(s) == f(s)` for every s |
| KeyEncoding.ConvertToSnakeCaseSeparator | Sources/SwiftOpenAPI/Encoders/KeyEncodingStrategy.swift:20-24 | `convertToSnakeCase(separator: c).encode(s)` is `s.toSnakeCase(separator: c)` for every s |
| KeyEncoding.ConvertToSnakeCase | Sources/SwiftOpenAPI/Encoders/KeyEncodingStrategy.swift:16-18 | `convertToSnakeCase` encodes every name as the underscore instance of `convertToSnakeCase(separator:)` does |
| KeyEncoding.Default | Sources/SwiftOpenAPI/Encoders/KeyEncodingStrategy.swift:10 | `default`, in its initial value, encodes every name as `toSnakeCase(separator: "_")` does |
| KeyEncoding.DefaultIsSnakeCase | Sources/SwiftOpenAPI/Encoders/KeyEncodingStrategy.swift:10-18 | `default` and `convertToSnakeCase` give the same key for every name |
| KeyEncoding.EncodeWithScanner | Sources/SwiftOpenAPI/Encoders/KeyEncodingStrategy.swift:21-23 | the closure's call to the `toSnakeCase` scanner gives the key the strategy specifies |
| KeyEncoding.ConvertToSnakeCaseUserId | Sources/SwiftOpenAPI/Encoders/KeyEncodingStrategy.swift:16-18 | `convertToSnakeCase.encode("userId") == "user_id"` |
| KeyEncoding.SnakeCaseKeysHaveNoUpper | Sources/SwiftOpenAPI/Encoders/KeyEncodingStrategy.swift:20-24 | keys produced with a separator that is not uppercase contain no uppercase letter |
| KeyEncoding.SnakeCaseKeysAreStable | Sources/SwiftOpenAPI/Encoders/KeyEncodingStrategy.swift:20-24 | encoding an already encoded key again with the same strategy changes nothing |
| Parameters.LocationFromRawValue | Sources/SwiftOpenAPI/Objects/ParameterObject.swift:79-81 | `Location(rawValue:)` returns a case only for that case's raw value, and rejects every string that is no case's raw value |
| Parameters.StyleFromRawValue | Sources/SwiftOpenAPI/Objects/ParameterObject.swift:83-91 | `Style(rawValue:)` returns a case only for that case's raw value, and rejects every string that is no case's raw value |
| Parameters.LocationRoundTrip | Sources/SwiftOpenAPI/Objects/ParameterObject.swift:79-81 | parsing a location's raw value gives the location back |
| Parameters.StyleRoundTrip | Sources/SwiftOpenAPI/Objects/ParameterObject.swift:83-91 | parsing a style's raw value gives the style back |
| Parameters.LocationsAreFour | Sources/SwiftOpenAPI/Objects/ParameterObject.swift:79-81 | every location is one of query, header, path and cookie, and their raw values are all different |
| Parameters.StylesAreSeven | Sources/SwiftOpenAPI/Objects/ParameterObject.swift:83-91 | every style is one of the seven cases, and their raw values are all different |
| Parameters.MakeParameter | Sources/SwiftOpenAPI/Objects/ParameterObject.swift:58-74 | the initializer makes a path parameter required and stores `required` verbatim (nil included) for any other location. Every other field equals its argument, and there are no specification extensions |
| Parameters.PathIgnoresRequired | Sources/SwiftOpenAPI/Objects/ParameterObject.swift:64 | for a path parameter, the `required` argument makes no difference to the constructed value |
| Parameters.MakeParameterIdempotent | Sources/SwiftOpenAPI/Objects/ParameterObject.swift:60-74 | rebuilding a constructed parameter from its own fields gives it back, so the normalisation is idempotent |

## Left out

- Unicode. Character classes and case mapping are ASCII only: `isUppercase`, `isLowercase`, `lowercased()`, `uppercased()` and `CharacterSet.alphanumerics`. Full Unicode mapping is defined by the platform library and can change the length of a string.
- The reflection `String(reflecting:)` of `typeName` (String++.swift:6). `TypeNames.TypeName` takes the reflected text as its input.
- `.lazy` in `typeName`. It changes only when the work is done, not the result.
- `String.Index` arithmetic. Indices are integer positions.
- `KeyEncoding.Default`: the mutability of the process-wide `static var default` (KeyEncodingStrategy.swift:10). It is modelled by its initial value, as a constant.
- Function equality. Strategies are compared name by name, because Swift closures have no equality.
- `ParametersList.encode` and `decode` (ParameterObject.swift:98-124). They only delegate to `ParametersEncoder`, which is not part of this model, and they update a schema registry it owns.
- Codable. Encoding and decoding of `ParameterObject` is not modelled. In Swift, decoding does not go through the initializer, so the path rule is not enforced on decoded values.
- The types `ReferenceOr<SchemaObject>`, `AnyValue`, `ComponentsMap<ExampleObject>`, `ContentObject` and `SpecificationExtensions`. They are not part of this model and are kept opaque as type parameters.
- Mutation after construction. `ParameterObject`'s fields are `var` and can be changed after construction. The path rule is modelled only where the code enforces it, in the initializer.
- Rules stated only in doc comments and not implemented by the code (ParameterObject.swift:17-18, 37-43): the default style and explode per location, the reserved characters for `allowReserved`, and the special header names.
- Swift's field `in`. It is called `location`, since `in` is a Dafny keyword.
- Literal examples of `toCamelCase` on repeated separators. Dropping the empty pieces they produce is covered by the general laws `Camel.WordsAround` and `Camel.WordsOfSeparators`.
- `Package@swift-5.9.swift`. It is the build manifest and holds no logic.
- Default arguments: `separator: Character = "_"` of `toCamelCase` and `toSnakeCase` (String++.swift:22, 42) and the `nil` defaults of `ParameterObject.init` (ParameterObject.swift:60). Dafny callers pass `'_'` or `None` explicitly, so no behaviour is lost.
