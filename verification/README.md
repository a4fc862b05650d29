# argvx parsing engine in Dafny

A model of the core of argvx, a header-only C++ command-line parser, together
with proofs about it. Four parts are covered:

- **Token walk.** After the program name, the walk handles each token in turn:
  long option, then short option, then positional.
  The first error stops the walk. Required arguments are checked only after
  every token has been handled.
- **Per-path dispatch.**
  - Long options split at the first assignment character.
  - Short options take the next token as their value unless they are boolean.
  - Positionals are filled in declaration order.
  - All three paths share one type check and the binder's write-back.
- **Value model.** The six-kind `value` variant, the default value parser,
  the `type_name` labels and `to_string`. Integers are read with the base-10
  `std::from_chars` rules of ISO C++ [charconv.from.chars].
- **Argument record and policies.** The `argument` record and its fluent
  setters. Also the `prefix_policy` and `delim_policy` template pairs, whose
  compile-time constraints become a `Valid()` predicate on a configuration
  value.

Modelling choices:

- `std::type_info` becomes the `Kind` enumeration.
- The `shared_ptr`-aliased records live in one arena. The positional list and
  the name table both hold arena indices.
- Each record's `provided` flag is the parser's `supplied` set.
- The write-back closures over caller variables are a store of bound values,
  keyed by arena index.
- The value parser template argument `Vp` is a `Decoder` function parameter.
  `DefaultDecoder` is `default_value_parser`.

Files, one module each: `wrappers.dfy` (Option/Result), `charconv.dfy`,
`values.dfy`, `policy.dfy`, `arguments.dfy`, `parser.dfy`, `parser_props.dfy`
(multi-call properties), `inertness.dfy` (inputs the engine never reads),
`dispatch.dfy` (per-token behaviour), `scenarios.dfy` (the test program's
command lines).

## Model

| member | source | states |
|---|---|---|
| CharConv.FromChars | include/argvx/value.hpp:84-90 | `from_chars` reports invalid exactly when no prefix of the input is an (optionally `-`-signed, signed targets only) digit string; otherwise it stops at the first non-digit after the longest such prefix and reports out-of-range or the value of that prefix |
| CharConv.ToDecimal | include/argvx/value.hpp:198 | `std::to_string` of a non-negative integer is a non-empty digit string, with no leading zero, whose decimal value is the integer |
| CharConv.DigitRun | include/argvx/value.hpp:84 | the digits `from_chars` reads stop at the end of the input or at the first non-digit |
| Values.ParseBool | include/argvx/value.hpp:72-78 | decoding succeeds exactly on `true`/`on`/`yes`/`false`/`off`/`no`, case-sensitively; it gives true exactly for the first three and `bad value (boolean)` for anything else |
| Values.Ladder | include/argvx/value.hpp:85-91 | the number decoders' error ladder: invalid gives a bad-number error, out-of-range its own error, a number followed by more characters a trailing-characters error; only a number that ends the token succeeds, with its value |
| Values.IntegerDecode | include/argvx/value.hpp:80-106 | integer decoding succeeds iff the whole token is one number that fits the target, and yields that number's value |
| Values.ParseInt64 | include/argvx/value.hpp:80-92 | int64 decoding succeeds iff the token is `-`? followed by one or more digits and its value lies in [-2^63, 2^63-1]; the result is that value |
| Values.ParseUInt64 | include/argvx/value.hpp:94-106 | uint64 decoding succeeds iff the token is one or more digits and its value is at most 2^64-1; the result is that value |
| Values.Decode | include/argvx/value.hpp:122-153 | `parse(sv, kind)` only ever yields a value of the requested kind; text and path wrap the token unchanged and always succeed; bool succeeds exactly on the six spellings, with true for `true`/`on`/`yes`, and otherwise fails with the boolean error; int64 and uint64 succeed exactly on a whole in-range decimal, giving its value, and otherwise pass on their `parse_as` error; double succeeds exactly when the codec's `from_chars` reads the whole token, giving its value, and otherwise passes on the `parse_as<double>` error |
| Values.ParseDouble | include/argvx/value.hpp:108-120 | `parse_as<double>` succeeds iff the floating-point `from_chars` reads the whole token, and gives its value; invalid input, out of range and trailing characters each give their own error, in that order |
| Values.TypeName | include/argvx/value.hpp:177-185 | the `type_info` labels and the alternative labels agree on every kind except bool, which one spells `boolean` and the other `bool` |
| Values.ValueTypeName | include/argvx/value.hpp:169-175 | the label of a value is `bool` for a boolean and otherwise the `type_info` label of its kind |
| Values.Render | include/argvx/value.hpp:187-201 | `to_string` gives `true`/`false` for a bool according to its value; for an int64 a decimal (signed exactly when negative) and for a uint64 a digit string, in both cases without leading zeros and denoting the value; strings and paths unchanged |
| Values.TypeNamesDistinct | include/argvx/value.hpp:165-185 | both label tables give the six kinds six different labels |
| Values.DefaultDecoderRespectsKind | include/argvx/value.hpp:122-150 | the default value parser returns only values of the kind it was asked for |
| Values.RoundTrip | include/argvx/value.hpp:72-199 | decoding the `to_string` rendering of a bool, int64, uint64, string or path value as its own kind gives the value back |
| Values.DecodeThenRender | include/argvx/value.hpp:80-199 | rendering a decoded int64 gives back its token exactly when the token was spelled canonically (no leading zero, no `-0`) |
| Values.CanonicalDigits | include/argvx/value.hpp:198 | a digit string without a leading zero is the decimal rendering of its own value |
| Values.NumberPrefixUnique | include/argvx/value.hpp:84 | the longest number prefix `from_chars` reads is unique |
| Values.IntegerErrorPrecedence | include/argvx/value.hpp:85-104 | each integer error kind holds exactly in its own case: no number prefix gives invalid; a prefix that does not fit gives out of range, even with junk after it; a fitting prefix followed by more characters gives trailing characters |
| Values.UnsignedRejectsMinus | include/argvx/value.hpp:98-100 | uint64 decoding rejects any token that starts with `-` as not a number |
| Policy.StaticString.Size | include/argvx/policy.hpp:30 | `size()` is the array length less one, the terminator; for a literal without embedded NULs that is the length of the prefix the parser sees |
| Policy.Equals | include/argvx/policy.hpp:22-28 | `operator==` on two literals holds exactly when they are the same array: false when the sizes differ, otherwise true iff every character matches |
| Policy.CString | include/argvx/policy.hpp:38-39 | the `string_view` built from a literal's array is its characters up to the first NUL |
| Policy.EqualFromSuffix | include/argvx/policy.hpp:25-27 | the element-by-element loop of `operator==` returns true exactly when the remaining parts of the arrays are identical |
| Policy.DefaultConfigValid | include/argvx/parser.hpp:41-42 | the default policies `prefix_policy<"--", "-">` and `delim_policy<'=', ','>` meet their constraints and give prefixes `--`, `-` and assignment `=` |
| Policy.ValidPrefixesDiffer | include/argvx/policy.hpp:35-40 | for literals without embedded NULs, a prefix policy exists exactly when its two prefixes differ |
| Policy.EmbeddedNulPrefixes | include/argvx/policy.hpp:35-39 | with an embedded NUL, the `Long != Short` constraint admits two prefixes that view alike |
| Arguments.OptionNames.OneDefined | include/argvx/argument.hpp:20-22 | `one_defined()` holds iff the long or the short name is non-empty |
| Arguments.Argument.Name | include/argvx/argument.hpp:49 | `name()` is the first of the record's names |
| Arguments.Argument.Required | include/argvx/argument.hpp:50 | `required()` sets the required flag and changes no other field |
| Arguments.Argument.Help | include/argvx/argument.hpp:51 | `help(h)` sets the help text and changes no other field |
| Arguments.NewArgument | include/argvx/argument.hpp:43-60 | a new record is not required, has empty help, and keeps the kind and names it was built with |
| Arguments.SettersCommute | include/argvx/argument.hpp:50-51 | `required()` is idempotent and independent of `help(h)` |
| Parser.New | include/argvx/parser.hpp:48 | a new parser has no records, no names, nothing supplied or bound, and meets the invariant |
| Parser.AddPositional | include/argvx/parser.hpp:51-66 | `positional(name)` with a non-empty name appends one new, unsupplied record of the given kind, named `name`, at the end of the positional list; the name table and bound values are unchanged; the invariant is kept |
| Parser.OptionNameList | include/argvx/parser.hpp:73-87 | the names vector holds exactly the non-empty names given, the long one first; it is non-empty iff some name is given |
| Parser.AddOption | include/argvx/parser.hpp:68-102 | `option(names)` adds one record whose display name is the long name if given and the short name otherwise; every given name maps to it, and every other name keeps its entry; the invariant is kept |
| Parser.SetRequired | include/argvx/parser.hpp:57-65 | `.required()` on a registered record sets its flag and touches no other record, name or binding |
| Parser.SetHelp | include/argvx/parser.hpp:57-65 | `.help(h)` on a registered record sets its help text and touches no other record, name or binding |
| Parser.FirstIndex | include/argvx/parser.hpp:124 | `find` gives the first position of the character, or the end when it does not occur |
| Parser.SplitAssign | include/argvx/parser.hpp:124-133 | the name part of a long token has no assignment character; with one present, the token is name, delimiter and value text, the value text possibly holding more delimiters; without one the value text is empty |
| Parser.MarkProvided | include/argvx/parser.hpp:141 | setting `provided` adds just that record to the supplied set and binds nothing |
| Parser.Bind | include/argvx/parser.hpp:22-37 | the binder writes the value iff its kind is the record's kind; otherwise it reports a mismatch naming the record and both kinds, and writes nothing |
| Parser.BindTrue | include/argvx/parser.hpp:146-147 | binding `true` to a boolean record always succeeds and writes just that record |
| Parser.TypeCheck | include/argvx/parser.hpp:205-219 | the type check passes iff the value's kind is the record's kind, and otherwise names the token, the expected kind and the value |
| Parser.CheckAndBind | include/argvx/parser.hpp:152-155 | a value passing the type check is bound and the parser is otherwise unchanged; a failing one leaves the parser alone with a type-mismatch error |
| Parser.LongOpt | include/argvx/parser.hpp:122-157 | an unregistered name (the part before the first `=`) is an unknown-option error and changes nothing; a registered one, and no other record, is marked provided; on success exactly that record's value is written and every other value is kept; nothing is bound on error; the token alone is consumed |
| Parser.ShortOpt | include/argvx/parser.hpp:159-185 | the exact token is looked up; unregistered is unknown-option with no change; a registered option, and no other record, is marked provided; a boolean one binds true and consumes its token alone; a non-boolean one at the end of the input is a missing-value error, otherwise it consumes two tokens; on success exactly the looked-up record's value is written and every other value is kept |
| Parser.ShortOptAsWritten | include/argvx/parser.hpp:179-182 | the short path as written is undefined exactly when a registered non-boolean option's next token does not decode; otherwise it behaves as `ShortOpt` |
| Parser.PositionalArg | include/argvx/parser.hpp:187-203 | a token past the declared positionals is `unexpected positional argument #position` and marks nothing; otherwise the positional at the counter is marked provided even if decoding fails, and on success holds the decoded token and nothing else changes |
| Parser.StepAt | include/argvx/parser.hpp:108-115 | one turn only sets flags and binds values of the right kind, and a successful turn consumes at least one token and no more than are left |
| Parser.Walk | include/argvx/parser.hpp:106-116 | the walk never changes the configuration, argv, records, positional list or name table, never clears a provided flag, and binds only values of the records' kinds |
| Parser.FirstMissingPositional | include/argvx/parser.hpp:222-224 | the sweep over positionals reports nothing iff no positional is required and unsupplied; otherwise it names the first such positional in declaration order |
| Parser.FirstMissingOption | include/argvx/parser.hpp:225-227 | the sweep over options reports nothing iff no name met in the iteration order leads to a required, unsupplied record, so, when the order visits every name, iff no option is missing; otherwise it names such a record by its display name |
| Parser.CheckRequired | include/argvx/parser.hpp:221-229 | over an iteration order that visits every name, nothing is reported iff no required positional and no required option is unsupplied; a missing positional is reported iff one exists, and it is the first in declaration order; a missing option is reported only when no positional is missing |
| Parser.Parse | include/argvx/parser.hpp:104-119 | a walk error is returned as is and flags set before it stay set; the parse succeeds iff the walk succeeds and afterwards no required positional or option is unsupplied; after an error-free walk, a missing positional is reported as a missing positional, and a missing option with no missing positional as a missing option |
| Parser.Classify | include/argvx/parser.hpp:109-115 | a token is long iff it begins with the long prefix, short iff it begins with the short prefix but not the long one, and positional otherwise |
| Parser.Tokens | include/argvx/parser.hpp:107 | the loop visits `argv[1]` to the last argument, in order, and nothing when `argv` is empty |
| ParserProperties.StepAtExtend | include/argvx/parser.hpp:107-115 | a turn reads no token beyond those it consumes, except when it stopped for want of a value |
| ParserProperties.WalkAppendOk | include/argvx/parser.hpp:107-116 | the walk over `a + b` is the walk over `a` followed by the walk over `b` from where it stopped |
| ParserProperties.WalkAppendError | include/argvx/parser.hpp:110-114 | the first error ends the walk: tokens after it are never processed (unless the error was a missing value at the end) |
| ParserProperties.UnknownOptionAnywhere | include/argvx/parser.hpp:109-165 | an option token with an unregistered name is an unknown-option error wherever it stands after an error-free walk |
| ParserProperties.PositionBounded | include/argvx/parser.hpp:190-201 | the positional counter never exceeds the declared positionals; the only extra-positional error is the one at that count |
| ParserProperties.StepPosition | include/argvx/parser.hpp:190-201 | one turn keeps the positional counter within the declared positionals |
| ParserProperties.NoBindMismatch | include/argvx/parser.hpp:28-200 | the binder's own mismatch error never reaches the caller |
| ParserProperties.NoTypeMismatch | include/argvx/parser.hpp:205-219 | with a decoder that returns only the requested kind, the walk never reports a type mismatch |
| ParserProperties.StepNoTypeMismatch | include/argvx/parser.hpp:152-199 | one turn with such a decoder never reports a type mismatch |
| ParserProperties.PositionalTurn | include/argvx/parser.hpp:113-203 | over positional tokens, a turn is the positional handler at the current counter, and the walk continues with the counter one higher |
| ParserProperties.PositionalWalk | include/argvx/parser.hpp:187-203 | a positional-only walk keeps the parser's structure, binds nothing outside the positionals from the counter on, and when it succeeds the counter rises by one per token and stays within the declared positionals |
| ParserProperties.PositionalWalkBinds | include/argvx/parser.hpp:194-201 | in a successful positional walk, the token at `k` sits decoded in the positional at list position `q + (k - i)` and is marked provided |
| ParserProperties.PositionalStepFrame | include/argvx/parser.hpp:194-200 | a positional turn leaves every other record's value alone |
| ParserProperties.WalkIsPositionalWalk | include/argvx/parser.hpp:107-116 | over positional tokens, the walk of `parse` equals the positional walk |
| ParserProperties.PositionalCount | include/argvx/parser.hpp:190-201 | a successful positional walk advances the counter by one per token and takes no more than the declared positionals |
| ParserProperties.PositionalFrame | include/argvx/parser.hpp:194-200 | a positional walk leaves the values of records outside the positionals from the counter on unchanged |
| ParserProperties.PositionalTokensInOrder | include/argvx/parser.hpp:190-201 | in a successful walk over positional tokens only, the k-th token is decoded into, bound to, and marks provided the k-th positional from the counter |
| ParserProperties.Width | include/argvx/parser.hpp:109-115 | the width of a turn is at least one token and never more than are left |
| ParserProperties.StepWidth | include/argvx/parser.hpp:109-183 | a successful turn consumes exactly its width |
| ParserProperties.WalkPosition | include/argvx/parser.hpp:106-201 | after a successful walk of any mix of tokens, the positional counter has moved on by exactly the number of positional turns, option tokens and their values not counted |
| ParserProperties.StepKeeps | include/argvx/parser.hpp:122-201 | a turn keeps the value of a bound positional record that is not at or after the counter, and the record stays clear of the new counter |
| ParserProperties.WalkKeeps | include/argvx/parser.hpp:106-201 | a walk keeps the value of a bound positional record that is not at or after the counter it starts from |
| ParserProperties.PositionalArgHolds | include/argvx/parser.hpp:187-201 | a successful positional turn marks the positional at the counter provided and binds it the decoded token |
| ParserProperties.FirstTurnPositional | include/argvx/parser.hpp:113-114 | a walk that starts with a positional token takes the positional path first and goes on from the next token with the counter one higher |
| ParserProperties.HoldsKept | include/argvx/parser.hpp:141-155 | a record that holds a decoded token keeps holding it in any later parser that keeps its value |
| ParserProperties.PositionalTurnBinds | include/argvx/parser.hpp:187-201 | in a successful walk starting with a positional token at counter `j`, the `j`-th positional ends up holding that token |
| ParserProperties.PositionalBindsAfter | include/argvx/parser.hpp:106-201 | a positional token met after any prefix of a successful walk is bound to the positional at the counter the prefix left |
| ParserProperties.PositionalsInOrder | include/argvx/parser.hpp:106-201 | whatever options come between them, in a successful walk the positional token met after `j` earlier positional turns is decoded into, bound to, and marks provided the `j`-th positional: positionals are filled strictly in declaration order |
| ParserProperties.StepSupplies | include/argvx/parser.hpp:109-185 | a turn whose token does not name an option record leaves that record unprovided |
| ParserProperties.WalkSupplies | include/argvx/parser.hpp:106-116 | a walk none of whose tokens names an option record leaves that record unprovided |
| ParserProperties.RequiredOptionAbsentFails | include/argvx/parser.hpp:104-229 | a required option that no token names always makes the parse fail, and, when the walk succeeds, with a missing-argument error |
| ParserProperties.StepLeavesLater | include/argvx/parser.hpp:109-201 | a turn marks no positional beyond the one at the counter it fills: option turns mark option records only |
| ParserProperties.WalkLeavesLater | include/argvx/parser.hpp:106-201 | a successful walk leaves every positional at or past the counter plus its positional turns unprovided |
| ParserProperties.RequiredPositionalAbsentFails | include/argvx/parser.hpp:104-224 | a required positional past the positional tokens always makes the parse fail, and, when the walk succeeds, with a missing required positional |
| Inertness.WalkAlike | include/argvx/parser.hpp:106-116 | the walk reads neither the help texts, nor the separator character, nor argv |
| Inertness.ParseAlike | include/argvx/parser.hpp:104-119 | two parsers that differ only in help texts, the separator and the program name parse to the same error and the same flags and values |
| Inertness.ProgramNameIgnored | include/argvx/parser.hpp:107 | `argv[0]` is never examined: replacing it changes no error, value or flag |
| Inertness.SeparatorIgnored | include/argvx/policy.hpp:46 | the separator character of `delim_policy` is never read by the engine |
| Inertness.HelpIgnored | include/argvx/argument.hpp:51 | the help text is never read by the engine |
| Dispatch.LongValueText | include/argvx/parser.hpp:124-155 | a registered non-boolean long option decodes exactly the text after the first `=` (empty when absent), is marked provided, consumes only its own token, and either binds the decoded value or fails with that decode error |
| Dispatch.LongBoolFlag | include/argvx/parser.hpp:143-148 | with the default parser a boolean long option always succeeds and binds false exactly when its value text is `false`, `off` or `no`; bare `--flag` and `--flag=xyz` bind true |
| Dispatch.ShortBoolFlag | include/argvx/parser.hpp:170-173 | a boolean short option binds true and consumes nothing beyond its own token |
| Dispatch.ShortTakesNext | include/argvx/parser.hpp:174-183 | a non-boolean short option consumes exactly the next token whatever it looks like, and is a missing-value error when there is none |
| Dispatch.ShortValueNotDispatched | include/argvx/parser.hpp:111-179 | the token after a non-boolean short option is its value and is never dispatched itself |
| Scenarios.InOut | test.cpp:84-91 | the registration calls of the tests build a parser with positional `input` and option `--output`/`-o`, both paths |
| Scenarios.AddFlag | test.cpp:117-119 | registering `--do-thing`/`-do` as a boolean adds a third record under both names |
| Scenarios.WithFlag | test.cpp:116-119 | the registration calls of the flag tests build that parser |
| Scenarios.ClassifyDefault | include/argvx/parser.hpp:109-115 | under the default policies `--x` is long (even though it also starts with `-`), `-x` (including `-5`) is short, and anything else is positional |
| Scenarios.PositionalTurnOk | include/argvx/parser.hpp:187-203 | a positional token that decodes binds the positional at the counter and the walk goes on after it |
| Scenarios.ShortTurnOk | include/argvx/parser.hpp:159-185 | a short option that takes a value binds the next token and the walk goes on after both |
| Scenarios.ShortTurnMissing | include/argvx/parser.hpp:175-177 | a non-boolean short option as the last token stops the walk with a missing value |
| Scenarios.LongTurnOk | include/argvx/parser.hpp:109-110 | a successful long turn consumes one token and leaves the counter alone |
| Scenarios.LongFlagTurn | include/argvx/parser.hpp:143-148 | a bare boolean long flag binds true and the walk goes on after it |
| Scenarios.NothingMissing | include/argvx/parser.hpp:221-229 | once every required record is supplied, the sweep reports nothing in any iteration order |
| Scenarios.OutputMissing | include/argvx/parser.hpp:225-227 | a required, unsupplied `--output`/`-o` is reported under `--output` in every iteration order |
| Scenarios.InputOutputWalk | test.cpp:126-139 | a positional token, `-o` and a path bind both records |
| Scenarios.InputMissingWalk | test.cpp:161-173 | a positional token then a bare `-o` stops with a missing value |
| Scenarios.InputOnly | test.cpp:72-78 | `positional("input", in).required()` on a new parser builds a parser with one required path positional and no options |
| Scenarios.RequiredPositionalAbsent | test.cpp:72-82 | with no tokens, the required positional `input` is reported missing |
| Scenarios.MissingRequiredPositionalTest | test.cpp:72-82 | `prog` alone fails with missing required positional `input` |
| Scenarios.RequiredOptionAbsent | test.cpp:84-95 | a positional token alone fails with missing required option `--output` |
| Scenarios.MissingRequiredOptionTest | test.cpp:84-95 | `prog input` fails with missing required option `--output` |
| Scenarios.UnknownLongOption | test.cpp:97-108 | an unregistered long token is an unknown-option error naming it |
| Scenarios.UnknownOptionTest | test.cpp:97-108 | `prog --nope` fails with unknown option `--nope` |
| Scenarios.InputThenOutput | test.cpp:126-139 | a positional token, `-o` and a path parse without error and bind both paths |
| Scenarios.PathOptionParses | test.cpp:126-139 | `prog in.txt -o res/out.txt` binds `in.txt` and `res/out.txt` |
| Scenarios.MissingValueAtEnd | test.cpp:161-173 | a positional token then `-o` at the end fails with a missing value |
| Scenarios.MissingValueTest | test.cpp:161-173 | `prog in -o` fails with a missing value for `-o` |
| Scenarios.OptionLikeValue | include/argvx/parser.hpp:179 | a short option's value may look like an option and is bound as it is |
| Scenarios.ShortSwallowsOptionLikeValue | include/argvx/parser.hpp:174-182 | `prog -o --nope` binds `--nope` as the output path rather than failing |
| Scenarios.FlagInputOutput | test.cpp:110-124 | a boolean long flag, a positional token, `-o` and a path set the flag and bind both paths |
| Scenarios.FlagScenario | test.cpp:110-124 | `prog --do-thing a -o b` sets the flag and binds `a` and `b` |
| Scenarios.BoolFlagSetsTrue | test.cpp:110-124 | `prog --do-thing file -o out` sets the flag true and binds `file` and `out` |
| Scenarios.FullHappyPath | test.cpp:141-159 | `prog --do-thing src/in -o dst/out`, with `--output` required, sets the flag true and binds both paths |
| Scenarios.IntOption | include/argvx/parser.hpp:68-102 | registering `-n` alone as an int64 option gives a parser with that one name |
| Scenarios.ShortDecodeFailure | include/argvx/parser.hpp:179-182 | `prog -n abc` with `-n` an int64 option is undefined in the short path as written, and a bad-number error in the corrected one |

## Left out

- Double values: `parse_as<double>` and `std::to_string(double)` are floating point. They are a caller-supplied `FloatCodec`, and `Double` is left out of the round trip.
- Values.Decode, Values.ParseDouble: for the double kind the contracts are stated relative to the codec's `from_chars` result, since floating-point reading is not modelled.
- Error messages: the `std::format` text is not built. Each `ParseError` carries the token, name, kinds or position its message names. `Values.Message` keeps the default parser's texts.
- `detail::require`/`panic` (util.hpp): registration checks that abort are preconditions (`name != ""`, `WellNamed`) rather than modelled aborts.
- `std::type_info` identity and non-canonical target types such as `int` or `float`: only the six exact kinds exist. The `std::unreachable` branch of `parse` and the binder's conversions are out of reach.
- The `std::function` write-back closures and `shared_ptr` aliasing are replaced by the arena and the store of bound values. `Parser.Bind` keeps the binder's mismatch branch, which `ParserProperties.NoBindMismatch` shows the walk never reaches.
- Parser.FirstMissingOption: the unordered-map iteration order is a parameter `order`, so the contract says only that some missing option met in that order is reported, not which one. `Parser.CheckRequired` and `Parser.Parse` require the order to visit every name (`Covers`), as iterating over the map does.
- Parser.StepAt: its own contract states only the frame and the consumption bound. The per-path behaviour is stated by `Parser.LongOpt`, `Parser.ShortOpt`, `Parser.PositionalArg` and the `Dispatch` lemmas.
- Scenario lemmas are stated for any parser of the test's shape (`InputOnlyShape`, `InOutShape`, `WithFlagShape`). `Scenarios.InputOnly`, `Scenarios.InOut` and `Scenarios.WithFlag` show that the tests' registration calls build such parsers.
- Policy.EmbeddedNulPrefixes: `static_string` compares whole arrays, but the parser sees prefixes only up to the first NUL. The model keeps both views and proves the prefixes differ only for NUL-free literals.
- An unknown option name is an error only where it starts a turn. A non-boolean short option takes the next token as its value whatever it looks like (`-o --nope` binds `--nope`, parser.hpp:174-182), and `Scenarios.ShortSwallowsOptionLikeValue` shows the case.
- The `help` text and `seperator_delim` are carried but never read; `Inertness` proves it.
- `argv` is a `seq<string>`, not a span of C strings.
- test.cpp's harness, console output and misspelled include path are not part of this model.

## Findings

| source | as written | input that shows it | evidently intended | confidence | as-written member | corrected member |
|---|---|---|---|---|---|---|
| include/argvx/parser.hpp:179-182 | the short path calls `Vp::parse` on the next token and dereferences the result without checking `has_value()`, which is undefined behaviour when decoding fails | option `-n` of type `int64_t`, argv `prog -n abc` | report the decode error as the long path does (`<token>: bad value (int64)`) | not executed | Parser.ShortOptAsWritten (counterexample Scenarios.ShortDecodeFailure) | Parser.ShortOpt |
