# arguably, modelled in Dafny

`arguably` is a single-header C++ command-line parser. Its schema is a list of
argument specifications built at compile time. Each specification is a flag, a
named parameter or an optionally-named parameter, with an abbreviation, a long
name and a default. A `Parser` reads `argv` in one pass and keeps three pieces
of state:
- each specification's value;
- whether each specification was supplied;
- a closed `ParseResult`.

This project models the header `include/arguably.hpp`: the cursor, the parse
loop with its three handlers, the schema lookups, and the value store with its
text conversions. It then proves what the parser guarantees.

The model is layered the way the header is:

| module | file | what it holds |
|---|---|---|
| `Cursor` | cursor.dfy | `ArgumentsView` as functions over positions, and as a class whose two indices move in place |
| `Schema` | schema.dfy | the spec list, `check_duplicate` as a predicate, `index_of`, `get_abbreviation_of_name`, the `is_*` tests, `abbreviation_of_first_unseen_optionally_named` |
| `Conversion` | conversion.dfy | `stream >> std::string` and `stream >> int` on the text of a token |
| `ValueStore` | value_store.dfy | `m_values` / `m_arguments_found` as a value, `store_at_impl`, `try_store_at`, `set_flag` |
| `Machine` | machine.dfy | `ParseResult`, `ParserState`, one function per handler, the loop body, the loop (`Run`) and `parse` |
| `Arguably` | parser.dfy | the class `Parser`, whose fields its methods update in place; each method is proved to end in the state the `Machine` functions compute |
| `Properties` | properties.dfy | what a run guarantees: the store only grows, error results and where they come from, `--` is never left, when the loop never ends |
| `Scenarios` | scenarios.dfy | the command lines of the repository's tests, traced pass by pass, generalised over values and schemas |

Argument 0 is never read. The NUL terminator of an argument reads as a space.
`argv` is a sequence of C strings, which contain no NUL.

The loop in `parse` does not always end. Take a pass in state `None` with
whitespace under the cursor before the end of input. That pass changes nothing,
and the C++ loop repeats it forever. Some inputs that do this:
- an empty argument that is not the last one;
- an argument that starts with whitespace;
- a lone `-` that is not the last argument (it advances one character only);
- a cluster that ends in whitespace before another argument (`a.out "-a " x`);
- two spaces in a row inside a cluster (`a.out "-a  b"`);
- a token `"- x"` while an optionally-named spec has not been found yet.

`Machine.Run` returns `Diverges` at such a pass, and `Arguably.Parser.Parse`
returns there with the result still `NothingParsedYet`. The input class `Tame`
excludes these inputs, and on it every parse is proved to finish.

## Model

| member | source | states |
|---|---|---|
| Cursor.CharAt | include/arguably.hpp:300-303 | the raw character at a position is NUL exactly at the argument's terminator |
| Cursor.NextPosition | include/arguably.hpp:323-338 | there is no next position exactly past the last argument or on the last argument's terminator; otherwise the next position is valid, inside argv, and strictly after the current one |
| Cursor.Current | include/arguably.hpp:300-303 | `current()` is never NUL: the terminator reads as a space, any other position as the argument's character |
| Cursor.Peek | include/arguably.hpp:311-316 | `peek()` is never NUL; it needs a next position, which the source asserts |
| Cursor.Advanced | include/arguably.hpp:340-348 | `advance()` stays put exactly when `eof()` holds, and otherwise moves strictly forward |
| Cursor.ArgTail | include/arguably.hpp:350-352 | the tail completes the argument from the cursor on, and is empty exactly at the terminator |
| Cursor.NextArgument | include/arguably.hpp:318-321 | `next_arg` lands at offset 0 of a later argument |
| Cursor.NotSpaceIsInside | include/arguably.hpp:300-303 | a non-space under the cursor is a real character, so the next position is one character on in the same argument and `eof()` is false |
| Cursor.ArgumentsView.constructor | include/arguably.hpp:295-296 | the view starts at argument 1, offset 0 |
| Cursor.ArgumentsView.Advance | include/arguably.hpp:340-348 | the indices move to the next position, or stay at end of input |
| Cursor.ArgumentsView.NextArg | include/arguably.hpp:318-321 | the indices move to the start of the next argument |
| Cursor.ArgumentsView.Consume | include/arguably.hpp:305-309 | returns the current character and advances |
| Cursor.ArgumentsView.ConsumeArg | include/arguably.hpp:354-359 | returns the rest of the argument and moves to the next one |
| Schema.CheckDuplicateIsWellFormed | include/arguably.hpp:95-110 | the recursive `check_duplicate` accepts exactly the schemas with no `h`/`help` and pairwise distinct abbreviations and names |
| Schema.IndexOfFrom | include/arguably.hpp:232-241 | returns the first index from the offset on that carries the abbreviation |
| Schema.IndexOf | include/arguably.hpp:232-241 | `index_of` returns the first spec carrying the abbreviation |
| Schema.IndexOfUnique | include/arguably.hpp:232-241 | in a well-formed schema, `index_of` finds the one spec carrying the abbreviation |
| Schema.AbbreviationOfNameFrom | include/arguably.hpp:181-191 | finds nothing exactly when no spec from the offset on has the name; otherwise returns the abbreviation of a spec with that name |
| Schema.AbbreviationOfNameResolves | include/arguably.hpp:181-191 | in a well-formed schema a name resolves to an abbreviation whose `index_of` spec has that name; an unknown name resolves to nothing |
| Schema.KindTestsAgreeWithIndexOf | include/arguably.hpp:193-218 | exactly one of `is_flag`, `is_named_parameter` and `is_optionally_named_parameter` holds for a known abbreviation, the one matching its spec's kind, and none holds for an unknown one |
| Schema.FirstUnseenOptionallyNamedFrom | include/arguably.hpp:366-378 | finds nothing exactly when every optionally-named spec from the offset on was found; otherwise returns the first optionally-named spec not found |
| Schema.FirstUnseenIndex | include/arguably.hpp:366-378 | the abbreviation found leads `index_of` to an unfound optionally-named spec before which every optionally-named spec was found; there is none exactly when all were found |
| Conversion.ExtractWord | include/arguably.hpp:278-284 | reading a string fails exactly when the text is all whitespace (an empty token included); the word read is non-empty and has no whitespace |
| Conversion.ExtractInt | include/arguably.hpp:278-284 | reading an int gives a value within 32 bits, and only when the text holds a digit |
| Conversion.ReadSigned | include/arguably.hpp:278-284 | after the whitespace, an int is read only when a digit comes first or right after a sign, and only within 32 bits |
| Conversion.LeadingDigits | include/arguably.hpp:278-284 | a run of digits is read exactly when the text starts with a digit |
| Conversion.Decimal | include/arguably.hpp:278-279 | the reference rendering of a number is a non-empty string of digits |
| Conversion.DecimalValueOfDecimal | include/arguably.hpp:278-284 | the digits written for `n` denote `n` |
| Conversion.LeadingDigitsOfDigits | include/arguably.hpp:278-284 | the digit run read from digits followed by a non-digit is exactly those digits |
| Conversion.ExtractIntOfDigits | include/arguably.hpp:278-284 | digits followed by a non-digit read as their value, trailing junk ignored |
| Conversion.ExtractIntAfterMinus | include/arguably.hpp:278-284 | a leading minus negates the digit run after it |
| Conversion.LeadingDigitsOfDecimal | include/arguably.hpp:278-284 | the digits written for `n`, followed by a non-digit, read back as `n` |
| Conversion.NegativeIntText | include/arguably.hpp:278-279 | a negative number is written as `-` followed by the digits of its magnitude |
| Conversion.ExtractIntOfIntText | include/arguably.hpp:278-284 | round trip: reading back what `<<` wrote for any 32-bit int gives that int, whatever non-digit text follows (`"43abc"` reads 43) |
| Conversion.ExtractWordOfWord | include/arguably.hpp:278-284 | round trip: a word surrounded by whitespace reads back as that word |
| Conversion.ExtractIntNeedsDigit | include/arguably.hpp:281-283 | a text with no digit, such as `"-"`, sets the failbit |
| Conversion.ExtractIntSkipsSpaces | include/arguably.hpp:278-284 | leading whitespace is skipped: what is read is what the sign-and-digits reader makes of the rest |
| Conversion.ReadSignedDigits | include/arguably.hpp:278-284 | an optional `+` or `-` and a digit run read as the signed value when it fits in 32 bits, and fail when it does not |
| Conversion.ReadSignedWithoutLeadingDigit | include/arguably.hpp:278-284 | with no digit first or right after the sign, nothing is read |
| Conversion.ExtractIntOfSigned | include/arguably.hpp:278-284 | whitespace, an optional `+` or `-`, digits and non-digit junk read as the signed value of the digits when it lies in the 32-bit range, and fail outside it (`" +43x"` reads 43, `"-2147483648"` reads the least int) |
| Conversion.ExtractIntOverflowFails | include/arguably.hpp:278-284 | a number above 2147483647 fails instead of being read or wrapped |
| Conversion.ExtractIntUnderflowFails | include/arguably.hpp:278-284 | a number below -2147483648 fails instead of being read or wrapped |
| Conversion.ExtractIntNeedsLeadingDigit | include/arguably.hpp:278-284 | when the first character after the whitespace and the sign is not a digit, the read fails even if a digit comes later (`"x5"`, `"-x5"`, `"+ 5"`) |
| ValueStore.InitialStore | include/arguably.hpp:386 | a fresh parser holds the defaults, well typed, with nothing found |
| ValueStore.Convert | include/arguably.hpp:278-284 | a conversion yields a value of the declared type; it succeeds exactly when the string or int read succeeds, and the value is the word or the int read |
| ValueStore.TryStoreAt | include/arguably.hpp:523-531 | `try_store_at` marks the spec found even when conversion fails; it overwrites the value only on success; no other spec changes |
| ValueStore.SetFlag | include/arguably.hpp:533-536 | `set_flag` makes the flag `true` and found; no other spec changes |
| Machine.FindFrom | include/arguably.hpp:665 | `find('=')` finds nothing exactly when there is no `=`, and otherwise returns the first `=` |
| Machine.UnnamedArgumentStep | include/arguably.hpp:607-621 | `handle_unnamed_argument` either goes on to a later position with the caller's state and a well-typed store, or returns an error |
| Machine.SingleDashStep | include/arguably.hpp:623-660 | one cluster character either moves the cursor strictly forward with a well-typed store, or returns an error |
| Machine.DoubleDashStep | include/arguably.hpp:662-718 | a long option either moves the cursor strictly forward with a well-typed store, or returns an error |
| Machine.NoneStep | include/arguably.hpp:549-584 | classifying a token either moves strictly forward or returns an error; a pass that does not move changes nothing |
| Machine.LoopBody | include/arguably.hpp:547-602 | one loop pass either changes nothing, moves strictly forward, or returns having written an error |
| Machine.Run | include/arguably.hpp:547-603 | a run that finishes ends with `Okay` or an error, never `NothingParsedYet` or `CannotParseAgain`, and with a well-typed store |
| Machine.RunUnfolds | include/arguably.hpp:547-602 | a run is its first pass followed by the run from there, an early return, or divergence on a pass that changes nothing |
| Machine.Parse | include/arguably.hpp:538-604 | a second `parse` writes `CannotParseAgain` and keeps the store; a first one that finishes writes `Okay` or an error |
| Arguably.Parser.constructor | include/arguably.hpp:386 | the parser starts with the schema's defaults, nothing found, and `NothingParsedYet` |
| Arguably.Parser.IsOkay | include/arguably.hpp:436-438 | `operator bool` is true exactly when the result is `Okay` |
| Arguably.Parser.WasProvided | include/arguably.hpp:497-502 | `was_provided` is true exactly when the spec with that abbreviation was found |
| Arguably.Parser.Get | include/arguably.hpp:504-508 | `get` returns the value of the spec with that abbreviation, which has the spec's declared type |
| Arguably.Parser.StoreAt | include/arguably.hpp:275-292 | `store_at_impl` succeeds exactly when the conversion does, and then writes only that index |
| Arguably.Parser.TryStoreAt | include/arguably.hpp:523-531 | the fields end as `ValueStore.TryStoreAt` says, and a failure writes `ArgumentTypeMismatch` |
| Arguably.Parser.SetFlag | include/arguably.hpp:533-536 | the fields end as `ValueStore.SetFlag` says; the result is untouched |
| Arguably.Parser.HandleUnnamedArgument | include/arguably.hpp:607-621 | the fields, the cursor and the return value match `Machine.UnnamedArgumentStep` |
| Arguably.Parser.HandleSingleDashArguments | include/arguably.hpp:623-660 | the fields, the cursor, the new state and the return value match `Machine.SingleDashStep` |
| Arguably.Parser.HandleDoubleDashArgument | include/arguably.hpp:662-718 | the fields, the cursor, the new state and the return value match `Machine.DoubleDashStep` |
| Arguably.Parser.HandleLongOptionWithValue | include/arguably.hpp:668-690 | the `--name=value` branch matches `Machine.DoubleDashStep` |
| Arguably.Parser.HandleLongOptionWithoutValue | include/arguably.hpp:691-715 | the `--name` branch matches `Machine.DoubleDashStep` |
| Arguably.Parser.ClassifyToken | include/arguably.hpp:549-584 | the `None` case of the switch matches `Machine.NoneStep` |
| Arguably.Parser.Parse | include/arguably.hpp:538-604 | the store and result end as `Machine.Parse` computes; a diverging run leaves `NothingParsedYet` |
| Properties.TryStoreAtGrows | include/arguably.hpp:523-531 | `try_store_at` forgets nothing found, keeps every unfound value, and keeps flags equal to their found bit |
| Properties.SetFlagGrows | include/arguably.hpp:533-536 | `set_flag` forgets nothing found, keeps every unfound value, and keeps flags equal to their found bit |
| Properties.UnnamedArgumentStepGrows | include/arguably.hpp:607-621 | `handle_unnamed_argument` forgets nothing found and keeps every unfound value |
| Properties.SingleDashStepGrows | include/arguably.hpp:623-660 | a cluster step forgets nothing found and keeps every unfound value |
| Properties.DoubleDashStepGrows | include/arguably.hpp:662-718 | a long option forgets nothing found and keeps every unfound value |
| Properties.LongOptionWithValueGrows | include/arguably.hpp:668-690 | the `--name=value` branch forgets nothing found and keeps every unfound value |
| Properties.LongOptionWithoutValueGrows | include/arguably.hpp:691-715 | the `--name` branch forgets nothing found and keeps every unfound value |
| Properties.NoneStepGrows | include/arguably.hpp:549-584 | classifying a token forgets nothing found and keeps every unfound value |
| Properties.LoopBodyGrows | include/arguably.hpp:547-602 | a pass writes the store only through `try_store_at` and `set_flag` |
| Properties.RunGrows | include/arguably.hpp:547-603 | over a whole run, found stays found, an unfound spec keeps its value, and flags read `true` exactly when found |
| Properties.ParseKeepsDefaults | include/arguably.hpp:740-747 | after a first parse every unfound spec holds its default and each flag's value equals its found bit (flags default to `false`) |
| Properties.ParseAgain | include/arguably.hpp:539-542 | parsing a second time writes `CannotParseAgain` and leaves the store alone |
| Properties.Passes | include/arguably.hpp:547-602 | every loop state reached after `n` passes is valid |
| Properties.PassesUnfolds | include/arguably.hpp:547-602 | after a return no pass follows; after a continue the passes go on from the next state |
| Properties.RunEndsAtAPass | include/arguably.hpp:547-603 | every outcome is decided at a pass the loop actually reaches |
| Properties.StuckOnlyOnSpace | include/arguably.hpp:579-584 | a pass leaves the cursor in place exactly in state `None` on whitespace |
| Properties.RunOutcomes | include/arguably.hpp:547-603 | `Okay` only at end of input; an error only from a handler returning early at a reached pass; divergence only in state `None` on whitespace |
| Properties.AfterFreestandingStep | include/arguably.hpp:596-600 | in `AfterFreestandingDoubleDash` every token goes to `handle_unnamed_argument` and the state is kept |
| Properties.AfterFreestandingRun | include/arguably.hpp:552-560 | after a freestanding `--` the rest of the run is every token, in order, through `handle_unnamed_argument` (reference `BareTokensRun`), so it is never left and never diverges |
| Properties.UnnamedArgumentBindsFirstUnseen | include/arguably.hpp:607-621 | a bare token goes to the first unfound optionally-named spec in schema order, skipping specs given by name |
| Properties.FirstUnseenIs | include/arguably.hpp:366-378 | the first unseen spec is the one before which all optionally-named specs were found |
| Properties.UnnamedArgumentExcess | include/arguably.hpp:610-614 | with every optionally-named spec found, a bare token gives `ExcessUnnamedArguments` with the store unchanged |
| Properties.BareTokenInStateNone | include/arguably.hpp:579-583 | in state `None` a token starting with neither `-` nor whitespace is a bare token |
| Properties.ClusterFlag | include/arguably.hpp:630-633 | a flag in a cluster is set, and the cursor moves one character on within the cluster |
| Properties.ClusterParameter | include/arguably.hpp:634-654 | a parameter in a cluster takes the rest of the token, or else the whole next token, or else `MissingArgument` naming it; then the cluster ends |
| Properties.ClusterValueInToken | include/arguably.hpp:648-654 | the parameter's value is the rest of the cluster's token |
| Properties.ClusterValueMissing | include/arguably.hpp:638-642 | with no next token the result is `MissingArgument` naming the parameter |
| Properties.ClusterValueInNextToken | include/arguably.hpp:638-647 | the parameter's value is the whole next token, and the loop resumes after it |
| Properties.ClusterCharacter | include/arguably.hpp:630-634 | a cluster character naming spec `i` resolves to `i`, and the kind tests report that spec's kind |
| Properties.ClusterUnknown | include/arguably.hpp:655-657 | a character no spec carries gives `UnknownOption` naming that character |
| Properties.LongOptionName | include/arguably.hpp:670 | a name that spec `k` carries resolves to `k`, and `is_flag` reports `k`'s kind |
| Properties.FindFirst | include/arguably.hpp:665 | `find('=')` reports the first `=` |
| Properties.LongOptionUnknown | include/arguably.hpp:669-673 | an unknown long name, up to the first `=` or the whole token, gives `UnknownOption` naming that string |
| Properties.LongOptionWithValue | include/arguably.hpp:668-690 | for `--name=value`: a flag gives `CannotSetValueOfFlag`, then an empty value gives `MissingArgument('\0')`, and only then is the value stored |
| Properties.LongOptionWithoutValue | include/arguably.hpp:691-715 | for `--name`: a flag is set; a parameter takes the whole next token, or gives `MissingArgument('\0')` |
| Properties.DoubleDashToken | include/arguably.hpp:550-560 | a token `--` enters `AfterFreestandingDoubleDash`; a longer `--...` token is a long option read from its third character |
| Properties.LoneDashExcess | include/arguably.hpp:561-568 | a lone `-` when every optionally-named spec is found ends the parse with `ExcessUnnamedArguments`, the store untouched |
| Properties.LoneDash | include/arguably.hpp:561-576 | a lone `-` stores `"-"` in the first unseen optionally-named spec and advances one character only |
| Properties.SpaceInStateNoneDiverges | include/arguably.hpp:579-584 | whitespace under the cursor in state `None` before end of input makes the loop spin forever |
| Properties.LoneDashBeforeLastDiverges | include/arguably.hpp:561-577 | a lone `-` that is not the last token, once stored, makes the loop spin forever |
| Properties.EmptyMiddleTokenDiverges | include/arguably.hpp:579-584 | `a.out "" x` never returns, under any schema |
| Properties.TameNoneStep | include/arguably.hpp:549-584 | on a tame input, a token start in state `None` is not whitespace and leads to another token start |
| Properties.TameSingleDashStep | include/arguably.hpp:623-660 | on a tame input, a cluster that returns to state `None` does so at a token start |
| Properties.TameStep | include/arguably.hpp:547-602 | on a tame input every pass moves the cursor |
| Properties.TameRunFinishes | include/arguably.hpp:547-603 | on a tame input the loop always ends |
| Properties.ParseFinishesOnTameInput | include/arguably.hpp:538-604 | on a tame input `parse` returns with `Okay` or an error |
| Scenarios.StoreWord | include/arguably.hpp:523-531 | storing a word in a string parameter stores exactly that word |
| Scenarios.OutputSchemaFits | test/tests.cpp:84-86 | the schema `-t/--test`, `-o/--output="-"` is well formed, and its initial store holds `false` and `"-"` |
| Scenarios.NamedWithSpace | test/tests.cpp:97-108 | `a.out -to <value>` succeeds with `t` set and `o` holding the value |
| Scenarios.NamedWithoutSpace | test/tests.cpp:84-95 | `a.out -to<value>` succeeds with `t` set and `o` holding the value |
| Scenarios.NamedBeforeEmptyLastToken | include/arguably.hpp:638-642 | `a.out -o ""` gives `MissingArgument('o')`, because an empty last token is already end of input |
| Scenarios.NumberInToken | include/arguably.hpp:636-651 | `a.out -i<text>` stores in the integer parameter `i` whatever int is read from `<text>`, and succeeds |
| Scenarios.NumberWithoutSpace | include/arguably.hpp:636-651 | `a.out -i<digits>`, such as `-i43`, succeeds with `i` holding the number the digits spell |
| Scenarios.NumberMismatch | include/arguably.hpp:636-651 | `a.out -i<word>`, such as `-iabc`, gives `ArgumentTypeMismatch`, with `i` marked found and still holding its default |
| Scenarios.LetterFlagsFit | test/tests.cpp:9-18 | the seven-letter flag schema is well formed and has no `y` |
| Scenarios.ClusterOpens | include/arguably.hpp:573-576 | a token `-c...` opens a cluster at its second character |
| Scenarios.ClusterCloses | include/arguably.hpp:625-628 | the terminator of a cluster that is not the last token returns to state `None` at the next token |
| Scenarios.SingleFlagTokenPass | include/arguably.hpp:630-633 | a token `-c` for a flag, not last, sets it and continues at the next token |
| Scenarios.BareWordPass | include/arguably.hpp:607-621 | a bare word fills the first unseen optionally-named string spec and continues at the next token |
| Scenarios.ClusterFlagPass | include/arguably.hpp:630-633 | a flag in a cluster, as a whole loop pass |
| Scenarios.UnknownFlagInCluster | test/tests.cpp:63-82 | `a.out -atyb -z -x` sets `a` and `t`, then stops with `UnknownOption('y')`; nothing after it is read |
| Scenarios.UnknownInClusterPass | include/arguably.hpp:655-657 | an unknown cluster character ends the run with `UnknownOption` naming it |
| Scenarios.ClusterOfThreeFlags | test/tests.cpp:20 | the cluster `-atb` sets its three flags and continues at the next token |
| Scenarios.LastFlagToken | include/arguably.hpp:630-633 | a last token `-c` for a flag sets it, and the parse succeeds |
| Scenarios.ClusteredFlags | test/tests.cpp:9-34 | `a.out -atb -z -x` succeeds with exactly those five flags set and found |
| Scenarios.LongOptionOpens | include/arguably.hpp:552-554 | a token `--name` enters `DoubleDashArgument` at its third character |
| Scenarios.LongFlagRead | include/arguably.hpp:699-701 | `--name` for a flag sets it and continues at the next token |
| Scenarios.LongFlagPass | include/arguably.hpp:699-714 | a token `--name` for a flag, as whole loop passes |
| Scenarios.LongLetterFlagsFit | test/tests.cpp:36-45 | the `t_arg`…`c_arg` flag schema is well formed |
| Scenarios.AtEndOfInput | include/arguably.hpp:603 | past the last token the run ends with `Okay` and the store unchanged |
| Scenarios.LongFlagsFirstTwo | test/tests.cpp:47 | `--a_arg --t_arg` set both flags |
| Scenarios.LongFlagsNextTwo | test/tests.cpp:47 | `--b_arg --z_arg` set both flags |
| Scenarios.LongFlagsLast | test/tests.cpp:47 | a last `--x_arg` sets the flag, and the parse succeeds |
| Scenarios.LongFlagsOnly | test/tests.cpp:36-61 | `a.out --a_arg --t_arg --b_arg --z_arg --x_arg` succeeds with exactly those five flags set and found |
| Scenarios.InputSchemaFits | test/tests.cpp:134-140 | the `first`/`second`/`option`/`third` schema is well formed, with defaults `"-"`, `"-"`, `false`, `"-"` |
| Scenarios.InputSchemaShape | test/tests.cpp:134-140 | that schema has optionally-named strings at 0, 1 and 3 and the flag `o` at 2 |
| Scenarios.InputsFirstHalf | test/tests.cpp:141 | `<a> -o` fills `first` and sets `option` |
| Scenarios.InputsSecondHalf | test/tests.cpp:141 | `<b> <c>` skip what is already found and fill `second`, then `third` |
| Scenarios.InputsFinalStore | test/tests.cpp:147-151 | the store after those four tokens, spelt out |
| Scenarios.InputsInOrder | test/tests.cpp:134-152 | bare words fill the optionally-named specs in schema order; the flag between them does not disturb that order |
| Scenarios.OptionallyNamedNotUsingName | test/tests.cpp:134-152 | `a.out first_arg -o second_arg third_arg` succeeds with the three words stored in order and `option` set |
| Scenarios.OptionallyNamedTooManyArguments | test/tests.cpp:154-169 | a fourth bare word gives `ExcessUnnamedArguments` |

## Left out

- Help and default-value printing (`print_help`, `max_name_length`, `get_name`, `print_default_values`): formatted output through `fmt`, which is I/O.
- The compile-time machinery:
  - the `String` literal wrapper;
  - pack recursion, `consteval` and `static_assert`;
  - the type-level `ParserBuilder` chain.

  Their effect is kept: a spec list with defaults. The static assertions become the preconditions `WellFormed` and `DefaultsFit`. An empty schema, which fails to compile in C++, is an ordinary empty list here.
- `std::any` and `any_cast`: replaced by the tagged union `Value`, so a bad cast cannot occur.
- `get_argc` and the null-terminated `argv` array: `argv` is a sequence of NUL-free strings, and its length is `argc`.
- `result()` and `result_is<T>()`: plain reads of the result field, which the model exposes directly.
- The generic `operator>>` and stream locales: only `std::string` and `int` are modelled, in the "C" locale. An `int` that does not fit in 32 bits counts as a failed read.
- Bytes: arguments are sequences of characters, not of the C++ `char` bytes. Input beyond ASCII therefore differs in two places. An unknown option such as `-é` (bytes `C3 A9`) is reported here with the character `é`, while the C++ reports the single byte `C3`. And `std::isspace` on a negative `char` is undefined behaviour in C++, while `IsSpace` here is simply false for every non-ASCII character.
- Cursor.Peek: the `assert` in `peek` is a precondition.
- Arguably.Parser.Parse: returns where the source loops forever. The `Diverges` outcome records the store and leaves the result `NothingParsedYet`; the source never returns there at all.
- Scenarios: the tests that use one particular value (such as `output_filename`) are proved for every non-empty, whitespace-free value, and for every schema of the test's shape.
- The tests `OptionallyNamed_UsingName_WithSpace`, `OptionallyNamed_UsingName_WithoutSpace` and `OptionallyNamed_MixedUsingNameAndNotUsingName` are not traced as whole runs. Their steps are covered by `Properties.ClusterValueInNextToken`, `Properties.ClusterValueInToken` and `Properties.UnnamedArgumentBindsFirstUnseen`.
- `--name=value` and `--name value` are covered by `Properties.LongOptionWithValue` and `Properties.LongOptionWithoutValue`, not by end-to-end scenarios.
