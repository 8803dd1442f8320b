# AdditionalTextConstantGenerator in Dafny

A model of the pure core of the AdditionalTextConstantGenerator source generator, with proofs about it.

In C#, a type is declared `partial` and marked `[AdditionalTextConstants(extension, path)]`. The generator then looks up the project's additional texts in that directory with that extension. It gives the type one string constant per file:

- the constant's name is mangled from the file name;
- its value is the file's text with quotes doubled;
- its doc comment previews the first lines of the file.

The model follows the generator's pipeline stage by stage, in these modules:

- `Options` (`options.dfy`): the three build properties read from the analyzer configuration (`GeneratorOptions`).
- `Attributes` (`attributes.dfy`): how the attribute's arguments are decoded. Positional arguments fill in defaults, and named arguments override them in order (`AttributeData`).
- `Generator` (`generator.dfy`), in three parts:
  - **Globs.** Each declaration gets a glob: its resolved search path and its extension. Each additional text gets the glob of its own path.
  - **Matching.** The match rule is shared by the pre-filter and the fan-out. The fan-out pairs a text's content with every declaration it matches.
  - **Join.** The pairs are grouped by declaration, and then each declaration is left-joined with its group. `Run` composes every stage: from declarations and texts to one generation input per declaration.
- `Grouping` (`grouping.dfy`): the grouping step, generic in key and value.
- `ContentCreator` (`content.dfy`): the content of one text, in three parts.
  - The doc-comment preview: at most ten lines, plus a `... N more lines` summary. When there are exactly eleven lines, all are shown.
  - The XML escape of each previewed line.
  - The escape that doubles quotes in the constant's value.
- `NameGenerators` (`names.dfy`): the identifier mangler. It works as follows:
  - valid characters are copied;
  - characters from a fixed table become `_name_`, and any other invalid character becomes `_uHEX_`;
  - consecutive escapes share one underscore;
  - a name that does not start with a letter or `_` gets `_` in front, and then the first character is upper-cased;
  - the name falls back to the full file name when the stem mangles to nothing or to the enclosing type's name.
- `Paths` and `Unicode` (`platform.dfy`): platform behaviour the model takes as parameters.
  - `PathOps` holds the `System.IO.Path` functions. `fullPath` returns `None` where `Path.GetFullPath` throws `ArgumentException`.
  - `CharTables` holds the Unicode categories outside ASCII and the culture's `char.ToUpper`.
  - `WellFormed` states the few facts the mangler's proofs need from these tables, and `AsciiTablesWellFormed` shows that some tables satisfy them.
- `Strings` (`strings.dfy`) and `Wrappers` (`wrappers.dfy`): `string.Replace` for a single character, hexadecimal numerals, and `Option`.

`Environment.NewLine` is the parameter `nl`. An additional text's `SourceText` is given as its lines and its full content.

Some details of the code that the model keeps:

- The mangler treats `LetterNumber` characters as valid (`NameGenerators.cs:125`).
- The table of character names has 35 entries.
- An extension of `.*` is a wildcard only on the declaration's side. A text whose extension is literally `.*` matches only a declaration of `.*` in the same directory.
- `Path.GetDirectoryName` gives `""` for a bare file name, and null for a root path (or an empty one). A declaration whose search path cannot be made absolute gets the search path `""`, so it matches bare file names (`Generator.FailedSearchPathMatchesBareFile`).

A declaration context is the type's namespace and enclosing types, its name and its decoded attribute. Types of the same name in different namespaces or enclosing types are different contexts, and each gets every matching text's content once (`Generator.SameNameElsewhereIsDistinct`). `Generator.RunContents` also covers a context that occurs more than once in the declaration list: it gets every matching text's content once per occurrence.

## Model

| member | source | states |
|---|---|---|
| `Options.FromConfig` | AdditionalTextConstantGenerator/GeneratorOptions.cs:12-19 | Without `build_property.DesignTimeBuild` the build is not design-time. `ProjectDir` and `RootNamespace` are their property's value when it is present and `""` otherwise. |
| `Options.DesignTimeBuildSpellings` | AdditionalTextConstantGenerator/GeneratorOptions.cs:14-16 | Design-time mode is on if and only if the property is present and spells `true` in any mix of upper and lower case. |
| `Options.OtherKeysChangeNothing` | AdditionalTextConstantGenerator/GeneratorOptions.cs:14-18 | Adding, changing or removing a property whose key differs, ignoring case, from all three option keys leaves all three options as they were. |
| `Options.EachOptionReadsOneKey` | AdditionalTextConstantGenerator/GeneratorOptions.cs:14-18 | Two configurations that agree on one option's property give that option the same value. |
| `Attributes.ApplyNamedArguments` | AdditionalTextConstantGenerator/AttributeData.cs:19-52 | The named-argument loop never changes the file path. |
| `Attributes.ApplyNamedArgumentsAppend` | AdditionalTextConstantGenerator/AttributeData.cs:21-51 | The named arguments are applied in order: applying `a + b` is applying `a`, then `b`. |
| `Attributes.ApplyNamedArgumentsLastWins` | AdditionalTextConstantGenerator/AttributeData.cs:21-51 | After the loop, each field holds the last value of its type given under its key. With no such value, it keeps what it held before. |
| `Attributes.FromSyntax` | AdditionalTextConstantGenerator/AttributeData.cs:54 | `FilePath` is the path of the declaring syntax tree, whatever the arguments. |
| `Attributes.FromSyntaxFields` | AdditionalTextConstantGenerator/AttributeData.cs:9-54 | Named strings override positional strings, which override `.txt` and the type's name. The trace flag is the last named `bool`, or `false`. |
| `Attributes.PositionalDefaults` | AdditionalTextConstantGenerator/AttributeData.cs:17-18 | Without named arguments, `ExtensionArg` is `.txt` when there is no first argument or it is not a string, and is that string otherwise. `PathArg` is the same with the second argument and the type's name. The trace log is off. |
| `Attributes.IgnoredArgumentChangesNothing` | AdditionalTextConstantGenerator/AttributeData.cs:23-50 | A named argument with a `null` value, an unknown key, or a value of the wrong type changes nothing, wherever it is inserted. |
| `Attributes.StringTraceLogIsIgnored` | AdditionalTextConstantGenerator/AttributeData.cs:28-34 | A string under `DiagnosticTraceLog` is one such ignored argument. |
| `ContentCreator.DocEscapeAppend` | AdditionalTextConstantGenerator/AdditionalTextContentCreator.cs:50-55 | The doc-comment escape of a concatenation is the concatenation of the escapes. |
| `ContentCreator.DocEscapeSingle` | AdditionalTextConstantGenerator/AdditionalTextContentCreator.cs:50-55 | Each character escapes to its entity (`&amp;`, `&lt;`, `&gt;`, `&quot;`, `&apos;`) or to itself. |
| `ContentCreator.EscapeForDocCommentsIsOnePass` | AdditionalTextConstantGenerator/AdditionalTextContentCreator.cs:50-55 | Because `&` is replaced first, the five chained replacements equal one left-to-right pass that replaces each character by its entity. No entity is escaped twice. |
| `ContentCreator.EscapeForDocCommentsIsWellFormed` | AdditionalTextConstantGenerator/AdditionalTextContentCreator.cs:50-55 | The escaped line contains no `<`, `>`, `"` or `'`, and every `&` in it starts one of the five entities. |
| `ContentCreator.EscapeForDocCommentsRoundTrip` | AdditionalTextConstantGenerator/AdditionalTextContentCreator.cs:50-55 | Decoding the five entities gives back the original line. |
| `ContentCreator.EscapeForDocCommentsPlain` | AdditionalTextConstantGenerator/AdditionalTextContentCreator.cs:50-55 | A line with none of `& < > " '` is left as it is. |
| `ContentCreator.EscapeForConstant` | AdditionalTextConstantGenerator/AdditionalTextContentCreator.cs:58-59 | The escaped text is longer than the input by the number of quotes. |
| `ContentCreator.EscapeForConstantRoundTrip` | AdditionalTextConstantGenerator/AdditionalTextContentCreator.cs:58-59 | Quotes in the escaped text come in pairs, and collapsing each pair gives back the input. |
| `ContentCreator.DocLinesAppend` | AdditionalTextConstantGenerator/AdditionalTextContentCreator.cs:39-43 | The doc lines of two runs of lines are the doc lines of the first run, then those of the second. |
| `ContentCreator.PreviewLoopShort` | AdditionalTextConstantGenerator/AdditionalTextContentCreator.cs:22-44 | With at most eleven lines in all, the loop emits every remaining line and no summary. |
| `ContentCreator.PreviewLoopLong` | AdditionalTextConstantGenerator/AdditionalTextContentCreator.cs:31-37 | With more than eleven lines, the loop emits the lines up to the tenth, then the summary of the rest. |
| `ContentCreator.PreviewTruncation` | AdditionalTextConstantGenerator/AdditionalTextContentCreator.cs:22-44 | With at most eleven lines, the preview shows them all. Otherwise it shows the first ten, then `... N more lines`, where N is the number not shown and is at least 2. |
| `ContentCreator.GenerateAdditionalTextContent` | AdditionalTextConstantGenerator/AdditionalTextContentCreator.cs:9-47 | The path is the text's own in both branches. The preview is absent exactly when the text cannot be read, and the content is then `""`. Otherwise the doc comment is every line when there are at most eleven, and the first ten plus the `... N more lines` summary when there are more; the content collapses back to the text. |
| `Strings.NatToString` | AdditionalTextConstantGenerator/NameGenerators.cs:90 | A code point's `X` format is non-empty, uses only the digits `0-9A-F`, and starts with `0` only for zero, so it has no leading zeros (`E9`, not `00E9`). |
| `Strings.ParseNatToString` | AdditionalTextConstantGenerator/NameGenerators.cs:90 | Reading the hexadecimal digits back gives the code point. |
| `NameGenerators.EscapeOne` | AdditionalTextConstantGenerator/NameGenerators.cs:67-93 | Every character contributes at least one character to the name. |
| `NameGenerators.EscapeCharacters` | AdditionalTextConstantGenerator/NameGenerators.cs:63-99 | The escaped name is at least as long as the file name. |
| `NameGenerators.ConvertToStringConstantName` | AdditionalTextConstantGenerator/NameGenerators.cs:57-114 | The name is empty exactly when the file name is. Its first character is the upper-cased first escaped character when that may start a name, and the upper-cased `_` otherwise. After it comes the escaped string, without its first character in the first case and whole in the second. |
| `NameGenerators.GetStringConstantName` | AdditionalTextConstantGenerator/NameGenerators.cs:8-16 | The name comes from the stem unless that name is empty or equals the enclosing type's name. Then it comes from the full file name, which is not checked again. |
| `NameGenerators.GetStringConstantNameIsIdentifier` | AdditionalTextConstantGenerator/NameGenerators.cs:8-16 | Whichever name is chosen, a non-empty one is a C# identifier. It is empty exactly when the stem's name was unusable and the full file name is empty. |
| `NameGenerators.AlphanumericIsValid` | AdditionalTextConstantGenerator/NameGenerators.cs:116-141 | ASCII letters and digits are valid, and an ASCII alphanumeric that is not a digit is a letter. |
| `NameGenerators.CharacterNameIsAlphanumeric` | AdditionalTextConstantGenerator/NameGenerators.cs:18-55 | Every name in the table is a non-empty word of ASCII letters. |
| `NameGenerators.TableCharactersAreInvalid` | AdditionalTextConstantGenerator/NameGenerators.cs:18-55 | No table character is valid, so every table entry is reachable. |
| `NameGenerators.EscapeNameIsAlphanumeric` | AdditionalTextConstantGenerator/NameGenerators.cs:74-93 | A replacement name is non-empty ASCII letters and digits and does not start with a digit. |
| `NameGenerators.EscapeOneIsValid` | AdditionalTextConstantGenerator/NameGenerators.cs:67-93 | One character's replacement contains only valid characters. A valid character is copied. An escape opens with `_`, or with a letter right after another escape. |
| `NameGenerators.EscapeCharactersIsValid` | AdditionalTextConstantGenerator/NameGenerators.cs:63-99 | Every character of the escaped string is valid. |
| `NameGenerators.EscapeCharactersAppend` | AdditionalTextConstantGenerator/NameGenerators.cs:63-99 | Scanning `a + b` is scanning `a`, then scanning `b` from the "previous escaped" flag that `a` leaves. |
| `NameGenerators.EscapeValidCons` | AdditionalTextConstantGenerator/NameGenerators.cs:69-73 | The loop's case for a valid character, stated over the rest of the name: the character is copied and the flag is cleared. |
| `NameGenerators.EscapeInvalidCons` | AdditionalTextConstantGenerator/NameGenerators.cs:74-93 | The loop's case for an invalid character, stated over the rest of the name: its name followed by `_`, preceded by `_` only when the previous character was not escaped; the flag is set. |
| `NameGenerators.EscapeInvalidCharacter` | AdditionalTextConstantGenerator/NameGenerators.cs:74-93 | A table character's escape is its table name. Any other invalid character's escape is `u` followed by hexadecimal digits that read back as its code point. |
| `NameGenerators.SupplementaryCharacterIsOneEscape` | AdditionalTextConstantGenerator/NameGenerators.cs:84-98 | A code point above U+FFFF, a surrogate pair in the C# string, becomes a single `u` escape of the whole code point. |
| `NameGenerators.EscapeAllValid` | AdditionalTextConstantGenerator/NameGenerators.cs:69-73 | A string of valid characters is copied unchanged. |
| `NameGenerators.EscapeAfterValidRun` | AdditionalTextConstantGenerator/NameGenerators.cs:67-93 | After a run of valid characters, an escape always opens with `_`. |
| `NameGenerators.ConvertValidName` | AdditionalTextConstantGenerator/NameGenerators.cs:101-111 | A valid name whose first character may start a name is returned with only that character upper-cased. |
| `NameGenerators.ConvertLeadingDigit` | AdditionalTextConstantGenerator/NameGenerators.cs:101-105 | A valid name whose first character may not start one, such as a digit, gets `_` in front. |
| `NameGenerators.ConvertInvalidHead` | AdditionalTextConstantGenerator/NameGenerators.cs:74-111 | A name whose first character is escaped starts with the upper-cased `_` and the escape, and the rest follows. |
| `NameGenerators.ConvertValidHead` | AdditionalTextConstantGenerator/NameGenerators.cs:101-111 | A name that starts with a letter gets no `_` in front: its first character, upper-cased, is followed by the rest of the escaped name. |
| `NameGenerators.ConvertIsIdentifier` | AdditionalTextConstantGenerator/NameGenerators.cs:57-141 | A non-empty result starts with `_` or a letter, and all its characters are valid. |
| `NameGenerators.ConvertIdempotent` | AdditionalTextConstantGenerator/NameGenerators.cs:57-114 | Mangling a mangled name changes nothing. |
| `NameGenerators.ConvertSharesUnderscores` | AdditionalTextConstantGenerator/NameGenerators.cs:74-93 | For a letter `a` and a valid `b`, the two escapes in `a.-b` share one underscore, giving `A_dot_minus_b` with `a` upper-cased. |
| `NameGenerators.ConvertDotMinusExample` | AdditionalTextConstantGenerator/NameGenerators.cs:63-111 | `a.-b` becomes `A_dot_minus_b`. |
| `NameGenerators.ConvertMyFileExample` | AdditionalTextConstantGenerator/NameGenerators.cs:63-111 | `my-file.v2` becomes `My_minus_file_dot_v2`. |
| `NameGenerators.MangledNamesCanCollide` | AdditionalTextConstantGenerator/NameGenerators.cs:57-114 | For a letter `a` and a valid `b`, `a.b` and `a_dot_b` get the same name, `A_dot_b` with `a` upper-cased. |
| `NameGenerators.FallbackCanCollide` | AdditionalTextConstantGenerator/NameGenerators.cs:8-16 | The single fallback is not re-checked: a file named like its enclosing type still gets the type's name. |
| `Grouping.ValuesForEmpty` | AdditionalTextConstantGenerator/Generator.cs:176-194 | A key has values exactly when it occurs in the input. |
| `Grouping.GroupLoopContents` | AdditionalTextConstantGenerator/Generator.cs:180-189 | The loop adds exactly the keys it meets. It appends each key's values, in input order, after those already stored under it. |
| `Grouping.GroupByKeyContents` | AdditionalTextConstantGenerator/Generator.cs:176-194 | The dictionary's keys are exactly the keys in the input. Each key's array is the subsequence of values paired with it, in input order. |
| `Grouping.LookupGroupByKey` | AdditionalTextConstantGenerator/Generator.cs:176-194 | Looking up any key in the grouped dictionary, present or not, gives the values paired with it. |
| `Grouping.GroupByKeyKeepsEverything` | AdditionalTextConstantGenerator/Generator.cs:176-194 | The arrays together hold as many values as there were pairs, so nothing is lost or duplicated. |
| `Generator.MatchesAny` | AdditionalTextConstantGenerator/Generator.cs:126-138 | A text passes the pre-filter exactly when some declaration glob matches it. |
| `Generator.WildcardOnlyOnDeclarationSide` | AdditionalTextConstantGenerator/Generator.cs:135-137 | A declaration of `.*` matches every extension in its directory. A text with extension `.*` matches only a declaration of `.*`. |
| `Generator.GlobMatchesItself` | AdditionalTextConstantGenerator/Generator.cs:135-137 | Every glob matches itself. |
| `Generator.TextAtRootMatchesNothing` | AdditionalTextConstantGenerator/Generator.cs:106-118 | A text at a root path, whose directory is null, matches no declaration, because a declaration's directory is never null. |
| `Generator.FailedSearchPathMatchesBareFile` | AdditionalTextConstantGenerator/Generator.cs:253-260 | A declaration whose combined path cannot be made absolute searches `""`, the directory of a bare file name, so it matches every bare file name with its extension. |
| `Generator.SelectMatching` | AdditionalTextConstantGenerator/Generator.cs:168-172 | The fan-out yields at most one pair per declaration, and every pair carries the text's content. |
| `Generator.SelectMatchingTextAndAttribute` | AdditionalTextConstantGenerator/Generator.cs:156-173 | Every pair carries the content extracted for the text. |
| `Generator.SelectMatchingAppend` | AdditionalTextConstantGenerator/Generator.cs:168-172 | The fan-out keeps declaration order: over `a + b` it is the fan-out over `a`, then over `b`. |
| `Generator.SelectMatchingSingle` | AdditionalTextConstantGenerator/Generator.cs:169-172 | The fan-out's case for one declaration: its pair when its glob matches, and nothing otherwise. |
| `Generator.SelectMatchingMembers` | AdditionalTextConstantGenerator/Generator.cs:168-172 | A context is paired with the content if and only if a declaration with that context has a glob the text matches. |
| `Generator.SelectMatchingEmpty` | AdditionalTextConstantGenerator/Generator.cs:168-172 | The fan-out is empty if and only if no declaration glob matches. |
| `Generator.PrefilterSound` | AdditionalTextConstantGenerator/Generator.cs:126-173 | Over the declaration globs (`SelectJustGlobs` of every declaration), a text passes the pre-filter if and only if its fan-out is non-empty, so filtering first loses no pair. |
| `Generator.SelectMatchingValues` | AdditionalTextConstantGenerator/Generator.cs:168-172 | Under one context, the fan-out files one copy of the content per matching declaration with that context. |
| `Generator.SearchPathRooted` | AdditionalTextConstantGenerator/Generator.cs:242-260 | The case of a path argument starting with `/` or `\`: it is combined, without that character, with the project directory. |
| `Generator.SearchPathRelative` | AdditionalTextConstantGenerator/Generator.cs:247-260 | The case of any other path argument: it is combined with the declaring file's directory, or with `""` when that file has none. |
| `Generator.SearchPathDependencies` | AdditionalTextConstantGenerator/Generator.cs:242-251 | A rooted path argument does not depend on the declaring file. Any other path argument does not depend on the project directory. |
| `Generator.SearchPathFailure` | AdditionalTextConstantGenerator/Generator.cs:253-260 | The model's resolution never fails. The search path is the combined path's full path, or `""` when that cannot be formed; it is `""` exactly then or when the full path itself is `""`. |
| `Generator.DeclarationGlob` | AdditionalTextConstantGenerator/Generator.cs:106-111 | A declaration's glob always has a directory, and its extension is the extension argument. |
| `Generator.SameArgumentsSameContents` | AdditionalTextConstantGenerator/Generator.cs:106-111 | A declaration's glob depends on its attribute arguments and not on the type they are on: two declarations with the same arguments, declared equally often, get the same contents. |
| `Generator.SamePathSameMatches` | AdditionalTextConstantGenerator/Generator.cs:117-118 | A text's glob depends on its path only: two texts at the same path, whatever their contents, are matched with the same declarations, in the same order. |
| `Generator.ExtractAdditionalTextWithFileInfo` | AdditionalTextConstantGenerator/Generator.cs:141-153 | The file and glob data pass through, and the content's path is the text's own. |
| `Generator.LeftJoinOfGroups` | AdditionalTextConstantGenerator/Generator.cs:197-210 | The left join against the grouped pairs: a declaration gets its context, the options and the contents paired with its context, in order. It gets none exactly when its context was never paired. |
| `Generator.AttributesAndOptions` | AdditionalTextConstantGenerator/Generator.cs:36-40 | Every declaration, in order, paired with the one set of build options (`SelectAttributeAndOptions` on each). |
| `Generator.AttributesAndGlobs` | AdditionalTextConstantGenerator/Generator.cs:45-48 | One declaration-and-glob per declaration, in order. |
| `Generator.Run` | AdditionalTextConstantGenerator/Generator.cs:24-87 | Exactly one generation input per declaration, in order, each carrying its declaration and the build options. |
| `Generator.MatchTextIsFanOut` | AdditionalTextConstantGenerator/Generator.cs:57-71 | Through the pre-filter, a text yields exactly its fan-out. |
| `Generator.RunContents` | AdditionalTextConstantGenerator/Generator.cs:57-87 | A declaration's contents are those of every text its glob matches, in text order, each repeated once per occurrence of the declaration's context. |
| `Generator.RunContentsDistinct` | AdditionalTextConstantGenerator/Generator.cs:57-87 | When no context repeats, a declaration's contents are exactly those of the texts its glob matches, in text order. |
| `Generator.SameNameElsewhereIsDistinct` | AdditionalTextConstantGenerator/Generator.cs:176-193 | Two types of the same name and arguments in different namespaces or enclosing types are separate keys: each gets the content of every matching text once, not twice. |
| `Generator.NothingMatchedIsEmpty` | AdditionalTextConstantGenerator/Generator.cs:197-210 | A declaration that no text matches still gets its input, with no contents. |
| `Generator.RunIgnoresUnmatchedText` | AdditionalTextConstantGenerator/Generator.cs:156-194 | Adding or removing, anywhere, a text that does not match a declaration leaves that declaration's input unchanged. |
| `Generator.RunIgnoresUnmatchedChange` | AdditionalTextConstantGenerator/Generator.cs:156-194 | Replacing a text that does not match a declaration by another that does not match it leaves that declaration's input unchanged. |
| `Generator.RunIgnoresOtherDeclarations` | AdditionalTextConstantGenerator/Generator.cs:176-210 | A declaration's input depends only on its context and how often that is declared: the same context, declared equally often in two declaration lists, gets the same input wherever it stands. |
| `Generator.RunIgnoresInsertedDeclarations` | AdditionalTextConstantGenerator/Generator.cs:176-210 | Declaring other types anywhere, before or after a declaration, leaves its input as it was. |

## Left out

- The incremental pipeline's plumbing (`Generator.cs:13-97`): `Select`, `Combine`, `Where`, `SelectMany`, `CollectEquatable` and the caching of each stage by value equality.
  - `Generator.Run` is the function these stages compute together.
  - The locality lemmas state which inputs a declaration's result depends on, which is what makes that caching effective.
  - The collected pairs are taken in the order the texts are given.
- Code emission (`Generator.cs:17-21`, `212-233`): the attribute template, `CodeGenerator`, hint names and `AddSource`. Those types are not part of this model.
- Tracing (`LightweightTrace`, `TrackingNames.cs`) and cooperative cancellation (`ThrowIfCancellationRequested`). Neither affects any result.
- The `System.IO.Path` functions are parameters, since their results depend on the host operating system.
  - Of the exceptions `Path.GetFullPath` can throw, only `ArgumentException` is caught by the generator and modelled, as `None`.
  - Any other exception propagates in C# and is not modelled.
- Unicode categories outside ASCII and the culture's `char.ToUpper` are parameters; `Unicode.WellFormed` lists what the proofs assume of them.
- A lone UTF-16 surrogate cannot be represented: a Dafny `char` is a Unicode scalar value. There, `char.ConvertToUtf32` throws, and that path is not modelled. A well-formed surrogate pair is one `char` above U+FFFF.
- Options.FromConfig: the configuration is a map keyed by the exact spelling the generator asks for. Roslyn's analyzer options look keys up ignoring case, so a property spelled in another case is not modelled as supplying an option; `Options.OtherKeysChangeNothing` therefore only speaks of keys that differ from the three even ignoring case.
- `StringComparer.OrdinalIgnoreCase` is modelled as ASCII case folding. Compared with `"true"`, this is exact: no non-ASCII character upper-cases to `T`, `R`, `U` or `E`.
- `pathArg.StartsWith("/")` compares with the current culture. The model tests the first character, so culture-ignorable characters before a leading `/` or `\` are not modelled.
- `SourceText` line splitting and `Environment.NewLine`: a text is given as its lines and its content, and the newline is the parameter `nl`.
- Roslyn's argument extraction (`TypedConstant`, `ITypeSymbol`, `Attributes[0]`):
  - the first attribute's arguments are the input;
  - values other than `null`, `bool` and `string` (numbers, enums, types) are all `Other`, which the decoder ignores;
  - array constants are not modelled: `TypedConstant.Value` throws `InvalidOperationException` for them.
- `AttributeContextAndData` comes from a library that is not part of this model. It is modelled as `Generator.AttributeContext`, compared by value like the record.
- Generator.AttributeContext: identifies a type by the names of its namespace and enclosing types and its own name. Generic arity, and anything else the library's record may use to tell two such types apart, is not modelled: two types that agree on those names and on the attribute's arguments are one key.
- `GeneratorOptions.Select` and `NameGenerators.GetFileName`. Each only forwards to code that is modelled (the options constructor, `Path.GetFileName`).
