# hinder diagnostics, modelled in Dafny

This project models the core of `hinder`, a small C++ diagnostics library. The
modelled parts are:

- **Context renderers.** An exception carries a type name, a source location
  and key/value entries. `value_to_string`, `value_to_json`,
  `escape_json_string`, `to_string` and `to_json` render that context.
- **Cause-chain unwinder.** `format_exception` and `to_string` print an
  exception and its nested causes, one indented line each.
- **Message builders.** Three families build messages:
  - the default-only `make_exception_message` in `details.h`;
  - the mode-switched `make_exception_message` in `exception_message.h`
    (DEFAULT, USER, STRUCTURED);
  - `make_assert_message`.
- **Exception taxonomy and throwing macros.**
  - `HINDER_DEFINE_EXCEPTION` declares a type; `generic_error` sits under
    `std::runtime_error` and `assertion_error` under `generic_error`.
  - `HINDER_THROW` and `HINDER_NESTED_THROW` throw.
  - The contract macros are `HINDER_EXPECTS`, `HINDER_ENSURES` and
    `HINDER_INVARIANT`.
- **Assertions.** This covers the `HINDER_ASSERT` expansion, the
  `assert_config` handler slot and mode, and the throwing and classic handlers.
- **JSON fragment writers.** These are `json_string_to`, `json_number_to` and
  `json_bool_to`.
- **Byte-unit helpers.** These are `KiB`, `MiB`, `GiB` and `TiB`, computed in
  64-bit `size_t`. The literals of `misc/literals.h` do not compile (see
  "## Left out").

## How the model is built

- **Text.** Strings are `seq<char>`; each char stands for one byte of a
  `std::string`.
- **Appending code is a method.** Code that appends step by step becomes a
  method over a buffer or a local string:
  - `escape_json_string`, `to_string` and `to_json`;
  - `format_exception`, which appends to a caller-owned `Text.TextBuffer`;
  - the message builders and the JSON fragment writers.
- **Each method has a specification function.** The method is proved equal to
  a function stating the text it builds. That function is then tied to a
  partner:
  - **JSON escaping.** A byte-level reader of string bodies following the
    escapes of section 7 of RFC 8259 (`JsonEscape.ParseBody`/`Decode`)
    returns the original bytes.
  - **`to_json`.** A strict reader of the emitted schema (`JsonReader`) gives
    back the type name, file, line and every entry in order
    (`JsonReadBack.ToJsonReadsBack`). Distinct contexts therefore give
    distinct documents.
  - **`to_string` for an exception's context.** The report splits into one
    line per entry.
  - **The cause-chain `to_string`.** The result has a closed form: the i-th
    message is on the i-th line, after i·indent spaces.
  - **Message builders.** Readers recover the exception name, the rendered
    text and the line number from a finished message.
  - **Taxonomy.** Catchability is ancestor-or-self in a declaration list.
    Declaring a type keeps the list well formed, and every declared type is a
    `std::exception`.
- **Global state.** The handler slot and the message mode of `assert_config`
  are fields of `Assert.AssertConfig`. The classic handler writes to an
  `OutputStream` object whose text it extends.
- **Injected parameters.** The outside world enters as parameters:
  - the template renderer (`fmt::format` / `std::format`), as
    `MessageParts.Renderer`, which may fail;
  - the text of `utc_timestamp()`;
  - the formatting of a `double`, as `ExceptionValue.DoubleFormatter`;
  - whether `NDEBUG` and `HINDER_WITH_EXCEPTION_SOURCE` are defined.
- **Integer widths.**
  - `size_t` products wrap modulo 2^64, written out in `Units.Wrap`.
  - Source lines are `int` (32-bit) in the message builders, and 32-bit
    unsigned in a source location.
  - Context integers are `int64_t` / `uint64_t`.

### Where the specification and the code differ

`to_json` inserts `type_name()` without escaping it, while the file name and
every key are escaped. The model follows the code (`Format.TypePart`,
`Format.TypeNameVerbatim`). The read-back lemma therefore requires a type name
that needs no escaping.

### Where the code and its tests disagree

`exception.h` (line 31) includes only `detail/details.h`, so `HINDER_THROW`
builds its message with the default-only builder and ignores
`exception_config::format`. The library's own tests
(`tests/exception/exception_tests.cpp`, lines 56-134) set that mode and expect
USER and STRUCTURED output from `HINDER_THROW`, for instance
`generic_error - the answer is 42` at lines 114-115. The model follows the
header: `Exceptions.Throw`, `NestedThrow` and `Contract` use the default-only
builder. Both readings are stated:

- `Exceptions.ThrowIgnoresUserMode`: as written, the USER-mode test's expected
  text is never produced, whatever the renderer and the source switch, because
  the message has ": " right after the name.
- `Exceptions.ThrowInMode`: the same macro built over the mode-switched
  builder of `exception_message.h`. `Exceptions.ThrowInModeMeetsUserTest`
  proves it gives exactly the tests' expected USER text, and in DEFAULT mode
  it throws the same message as `Exceptions.Throw`.

## Model

| member | source | states |
|---|---|---|
| ExceptionValue.SignedUnsignedDistinct | include/hinder/exception/exception_value.h:40-47 | the same number stored as int64 and as uint64 gives two different values |
| Context.KeysDistinct | src/exception/format.cpp:116 | iteration over a context yields each key at most once |
| Decimal.NatToDecimal | src/exception/format.cpp:44-45 | an unsigned integer is written as a non-empty run of decimal digits |
| Decimal.NatToDecimalRoundTrip | src/exception/format.cpp:44-45 | reading the decimal text of an unsigned integer gives the integer back |
| Decimal.IntToDecimal | src/exception/format.cpp:44-45 | a signed integer's text starts with '-' exactly when it is negative, and is otherwise all digits |
| Decimal.IntToDecimalRoundTrip | src/exception/format.cpp:44-45 | reading the text of a signed integer gives the integer back |
| Decimal.IntToDecimalInjective | src/exception/format.cpp:44-45 | different integers get different texts |
| Format.ValueToStringMeaning | src/exception/format.cpp:34-48 | the text is empty only for the flag and the empty string; booleans become true/false; integers become decimal text that reads back, signed when negative; a string stays itself |
| Format.ValueToJsonMeaning | src/exception/format.cpp:85-100 | the flag becomes null; a string becomes a quoted literal whose body decodes to the string; other values keep their plain text |
| JsonEscape.EscapeChar | src/exception/format.cpp:56-80 | a byte that needs escaping becomes a backslash sequence; any other byte, including 0x7F and bytes at or above 0x80, is copied; no output byte is below 0x20 |
| JsonEscape.ControlByteForm | src/exception/format.cpp:72-76 | another control byte becomes \u00 and two lowercase hex digits |
| JsonEscape.Escape | src/exception/format.cpp:52-83 | the output is never shorter than the input and holds no raw control byte |
| JsonEscape.EscapeAppend | src/exception/format.cpp:55-81 | escaping works byte by byte: escape(a+b) = escape(a)+escape(b) |
| JsonEscape.EscapeIdentity | src/exception/format.cpp:72-79 | the output equals the input exactly when no byte needs escaping |
| JsonEscape.EscapeJsonString | src/exception/format.cpp:52-83 | the loop's result is the escape of its input |
| JsonEscape.EscapeReadsBack | src/exception/format.cpp:52-83 | a byte-level string-body reader following section 7 of RFC 8259, run on the output and a closing quote, returns the input and stops at that quote |
| JsonEscape.EscapeDecodes | src/exception/format.cpp:52-83 | the byte-level reader accepts the whole output as a string body and decodes it to the input, for every byte string |
| Format.ToString | src/exception/format.cpp:104-127 | the loop builds the header and then one segment per entry, in iteration order |
| Format.ExceptionTextLines | src/exception/format.cpp:104-127 | the report splits into the line "type @file:line" and one line per entry: "  key" when the value renders empty, "  key: value" otherwise |
| Format.EmptyStringRendersAsFlag | src/exception/format.cpp:117-123 | replacing an empty string value by the flag leaves the report unchanged |
| Format.JoinCommaSnoc | src/exception/format.cpp:148-153 | the `first` flag puts one comma between members and none before the first |
| Format.ToJson | src/exception/format.cpp:129-164 | the method builds the type, source and data members in that order; the data member is present only when the context is non-empty |
| Format.EmptyContextJson | src/exception/format.cpp:129-164 | an empty context gives exactly {"type":"T","source":{"file":"F","line":L}} |
| Format.TypeNameVerbatim | src/exception/format.cpp:134-136 | the document starts with {"type":" followed by the type name as it is, with nothing escaped |
| JsonReadBack.TypeReadsBack | src/exception/format.cpp:131-136 | the opening brace and type member read back as the type name |
| JsonReadBack.SourceReadsBack | src/exception/format.cpp:139-143 | the source member reads back as the file (escaped on the way out) and the line |
| JsonReader.DecimalIsJsonNumber | src/exception/format.cpp:85-100 | the decimal text of every integer value is a number under the grammar of section 6 of RFC 8259 |
| JsonReader.JsonNumberChars | src/exception/format.cpp:85-100 | a grammatical number starts with '-' or a digit and holds only number characters, so it cannot be taken for a string or keyword |
| JsonReadBack.ScalarReadsBack | src/exception/format.cpp:85-100 | each value's JSON reads back as the scalar it stands for |
| JsonReadBack.MemberReadsBack | src/exception/format.cpp:154-157 | one data member reads back as its key and value |
| JsonReadBack.MembersReadBack | src/exception/format.cpp:148-158 | the comma-separated members read back in iteration order, up to the closing brace |
| JsonReadBack.DataReadsBack | src/exception/format.cpp:145-160 | the data part reads back as every entry, and is empty when there are none |
| JsonReadBack.ToJsonReadsBack | src/exception/format.cpp:129-164 | the whole document reads back as the type name, file, line and every entry in order |
| JsonReadBack.ToJsonInjective | src/exception/format.cpp:129-164 | two contexts that give the same document agree in everything the document shows |
| CauseChain.FormatException | src/exception/string.cpp:35-53 | the walk only appends: the old buffer text is kept as a prefix; it adds the text of this exception and then its causes, one level deeper each; it reports a cause outside std::exception as escaping; the duplicate in src/exception/exception.cpp (lines 59-76) is the same code |
| CauseChain.ToString | src/exception/string.cpp:55-59 | starting from an empty buffer at level 0, it succeeds exactly when no cause outside std::exception is nested; the text is then the closed form of the chain; the duplicate in src/exception/exception.cpp (lines 78-82) is the same code |
| CauseChain.AppendedIsPieces | src/exception/exception.cpp:59-76 | what the recursion appends (here and in the same code in src/exception/string.cpp) equals the concatenation of one piece per message in the chain |
| CauseChain.RenderedLines | src/exception/string.cpp:55-59 | with messages free of line feeds, the result splits into one line per exception, the i-th being i·indent spaces and its message, deepest cause last |
| CauseChain.NestedThrowChain | include/hinder/exception/exception.h:114-121 | a nested throw puts its message in front of the handled chain; with the default indent 2 the handled exception's text follows on the next line, two spaces in |
| Exceptions.DefineException | include/hinder/exception/exception.h:57-61 | a declaration succeeds exactly when the name is new and the base is declared; it appends (name, base) |
| Exceptions.DefineKeepsValid | include/hinder/exception/exception.h:57-61 | declaring a type keeps the taxonomy well formed |
| Exceptions.IsAPrefix | include/hinder/exception/exception.h:57-61 | later declarations do not change what catches an existing type |
| Exceptions.DefinedIsA | include/hinder/exception/exception.h:57-61 | a new type is caught as itself and as whatever catches its base, and as nothing else |
| Exceptions.AllAreStdExceptions | include/hinder/exception/exception.h:57-61 | in a well-formed taxonomy every declared type is caught as std::exception |
| Exceptions.BuiltinValid | include/hinder/exception/exception.h:73 | the built-in chain std::runtime_error, generic_error, assertion_error is well formed |
| Exceptions.GenericErrorDescendant | include/hinder/exception/exception.h:73 | a type derived from generic_error is caught as itself, generic_error, std::runtime_error and std::exception, but not as assertion_error |
| Exceptions.Throw | include/hinder/exception/exception.h:111-122 | HINDER_THROW always throws: the named type with no cause, or the renderer's error when the template fails |
| Exceptions.ThrowMessageShape | include/hinder/exception/exception.h:99-122 | the built message is the name, ": " and the rendered text, with " @file:line" appended exactly when HINDER_WITH_EXCEPTION_SOURCE is defined; what() shows it up to the first NUL byte, so always the name and ": ", and all of it when it holds no NUL; then the name reads back from the front and, with the switch, the line from the end |
| Exceptions.NulCutsMessage | src/exception/string.cpp:39-44 | a NUL byte in the rendered text ends what what() shows: the name, ": " and the text before the NUL, with no source tail |
| Text.CText | src/exception/string.cpp:39-44 | the text of a const char* taken from a std::string: the longest prefix without a NUL byte |
| Exceptions.ThrowIgnoresUserMode | include/hinder/exception/exception.h:31 | the header's HINDER_THROW never yields the USER-mode text "generic_error - the answer is 42" that the tests expect |
| Exceptions.ThrowNeverGives | include/hinder/exception/exception.h:111-122 | for a type name (which never holds a NUL byte), no what() text of HINDER_THROW lacks the ':' right after the name |
| Exceptions.ThrowInMode | include/hinder/exception/detail/exception_message.h:41-86 | HINDER_THROW over the mode-switched builder always throws, fails to render only without the source switch, ends the process only with it, and in DEFAULT mode throws what Throw throws |
| Exceptions.ThrowInModeMeetsUserTest | tests/exception/exception_tests.cpp:111-116 | over the mode-switched builder, the USER-mode throw gives exactly "generic_error - the answer is 42" |
| Exceptions.NestedThrow | include/hinder/exception/exception.h:114-121 | the new exception's cause is the handled exception, or a cause outside std::exception when that is what is handled |
| Exceptions.Contract | include/hinder/exception/exception.h:143-150 | the three contract macros do nothing exactly when the condition holds, whatever NDEBUG says |
| Exceptions.ContractFailureMessage | include/hinder/exception/exception.h:143-150 | a false condition throws the named type; its what() starts with the name and ": ", then holds the caller's rendered text when that has no NUL byte, and with the source switch and no NUL byte its line reads back from the end |
| Details.MakeExceptionMessage | include/hinder/exception/detail/details.h:40-47 | the appends build name + ": " + rendered, or propagate the renderer's error |
| Details.MakeExceptionMessageWithSource | include/hinder/exception/detail/details.h:49-60 | the appends build name + ": " + rendered + " @file:line" |
| Details.WithSourceExtends | include/hinder/exception/detail/details.h:43-59 | the source form is the plain form with " @file:line" appended |
| Details.MessageReadsBack | include/hinder/exception/detail/details.h:40-47 | the text before the first ": " is the exception name, and the rendered text follows unchanged |
| Details.MessageWithSourceReadsBack | include/hinder/exception/detail/details.h:49-60 | the name reads back from the front and the line number from after the last ':' |
| MessageParts.SourceSuffixLineReadsBack | include/hinder/exception/detail/details.h:58 | the decimal line after " @file:" reads back as the line, whatever the file name holds |
| MessageParts.SourceMemberEnds | include/hinder/exception/detail/exception_message.h:134-138 | a message closed after the source member ends in a digit followed by "}}" |
| ExceptionMessage.MakeExceptionMessage | include/hinder/exception/detail/exception_message.h:41-86 | the appends build the DEFAULT, USER or STRUCTURED form the mode selects, or nothing for another mode value; a renderer error propagates |
| ExceptionMessage.MakeExceptionMessageWithSource | include/hinder/exception/detail/exception_message.h:88-142 | the same with the source: " @file:line", file and line as USER arguments {1} and {2}, or a source member; a renderer error ends the process |
| ExceptionMessage.DefaultIsDetails | include/hinder/exception/detail/exception_message.h:47-56 | in DEFAULT mode both overloads give what the default-only builders give |
| ExceptionMessage.ClockOnlyWhenStructured | include/hinder/exception/detail/exception_message.h:70-72 | outside STRUCTURED mode the result does not depend on the time text |
| ExceptionMessage.StructuredSourceBeforeBrace | include/hinder/exception/detail/exception_message.h:119-139 | the source form is the plain form with the source member inserted before its closing brace, so it ends in a digit and "}}" |
| ExceptionMessage.StructuredVerbatim | include/hinder/exception/detail/exception_message.h:74-80 | the exception name and the rendered text sit unescaped at fixed offsets, and the form ends with "\"}" |
| AssertMessage.MakeAssertMessage | include/hinder/assert/detail/format_message.h:42-94 | exactly one branch runs, chosen by the mode; another mode value gives the empty message |
| AssertMessage.DefaultReadsBack | include/hinder/assert/detail/format_message.h:49-57 | the DEFAULT form starts with "Assertion '" and the condition, and its line reads back |
| AssertMessage.StructuredShape | include/hinder/assert/detail/format_message.h:72-92 | the STRUCTURED form holds the condition unescaped at its offset and ends in a digit and "}}" |
| AssertMessage.ClockOnlyWhenStructured | include/hinder/assert/detail/format_message.h:77-79 | outside STRUCTURED mode the message does not depend on the time text |
| AssertMessage.UnnamedModeIsEmpty | include/hinder/assert/detail/format_message.h:48-93 | a mode outside the three gives the empty message, whatever the renderer does |
| AssertHandlers.ThrowHandle | include/hinder/assert/handlers/throw.h:40 | the throwing handler raises assertion_error with no cause, whose what() is the message up to its first NUL byte, and the whole message when it has none |
| AssertHandlers.ThrowHandleCaughtAs | include/hinder/assert/handlers/throw.h:40 | what it raises is caught as assertion_error, generic_error, std::runtime_error and std::exception, and as nothing else |
| AssertHandlers.ClassicAssertHandler.constructor | include/hinder/assert/handlers/classic.h:46 | the stream is fixed at construction |
| AssertHandlers.ClassicAssertHandler.Call | include/hinder/assert/handlers/classic.h:48-51 | the message and a line feed are appended to the stream, then the process terminates |
| Assert.AssertConfig.constructor | include/hinder/assert/assert_config.h:39-60 | the documented defaults: a classic handler on the error stream and the DEFAULT mode |
| Assert.AssertConfig.SetHandler | include/hinder/assert/assert_config.h:53 | assigning the slot replaces the handler and keeps the mode |
| Assert.AssertConfig.SetFormat | include/hinder/assert/assert_config.h:60 | assigning the mode keeps the handler |
| Assert.Expected | include/hinder/assert/assert.h:43-51 | under NDEBUG nothing happens; a true condition passes; a false one hands a message to the handler or lets the renderer's error escape |
| Assert.HinderAssert | include/hinder/assert/assert.h:43-51 | a failed assertion builds its message in the current mode and invokes the handler in the slot once; the classic handler's stream grows by the message and a line feed and is unchanged otherwise |
| Assert.FailedAssertRaises | include/hinder/assert/assert.h:46-50 | with the throwing handler installed, a failed assertion raises assertion_error whose what() is the message up to its first NUL byte (all of it when it has none), caught as generic_error and std::exception |
| Assert.AssertAfterReconfigure | include/hinder/assert/assert_config.h:48-60 | an assertion after the slot and mode are reassigned uses the new handler and mode |
| JsonString.JsonStringTo | include/hinder/misc/json_string.h:36-40 | appends "key": "value", or "key": "" for a null pointer, and returns the position after it |
| JsonString.JsonValueTo | include/hinder/misc/json_string.h:42-45 | appends "key": "value" and returns the position after it |
| JsonString.JsonNumberTo | include/hinder/misc/json_string.h:47-50 | appends "key": N with the number unquoted |
| JsonString.JsonBoolTo | include/hinder/misc/json_string.h:52-56 | appends "key": true or "key": false |
| JsonString.StringMemberReadsBack | include/hinder/misc/json_string.h:36-45 | a member whose key and value hold no quote, backslash or control byte reads back as that key and string |
| JsonString.NumberMemberReadsBack | include/hinder/misc/json_string.h:47-50 | a number member reads back as its key and the integer's text |
| JsonString.BoolMemberReadsBack | include/hinder/misc/json_string.h:52-56 | a bool member reads back as its key and value |
| JsonString.QuoteInValueEndsString | include/hinder/misc/json_string.h:44 | since nothing is escaped, a quote inside a value ends the JSON string early |
| Units.KiB | include/hinder/units.h:37-39 | the product wraps modulo 2^64: v·1024 of the low 54 bits of v, exact below 2^54; `misc::KiB` (include/hinder/misc/units.h, lines 38-40) is the same product |
| Units.MiB | include/hinder/units.h:41-43 | v·2^20 of the low 44 bits of v, exact below 2^44; `misc::MiB` and the `_MiB` literal (misc/units.h 42-44, misc/literals.h 41-43) are the same product |
| Units.GiB | include/hinder/units.h:45-47 | v·2^30 of the low 34 bits of v, exact below 2^34; `misc::GiB` and the `_GiB` literal (misc/units.h 46-48, misc/literals.h 45-47) are the same product |
| Units.TiB | include/hinder/units.h:49-51 | v·2^40 of the low 24 bits of v, exact below 2^24; `misc::TiB` and the `_TiB` literal (misc/units.h 50-52, misc/literals.h 49-51) are the same product |
| Units.UnitSteps | include/hinder/units.h:37-51 | each unit is 1024 of the one below it, also once the products wrap, for the functions of include/hinder/units.h and include/hinder/misc/units.h (and for what the bodies of the _MiB, _GiB and _TiB literals would compute) |
| Units.SmallBlocks | tests/misc/units_tests.cpp:36-49 | one and four blocks give the byte counts the unit tests expect, and each unit of four blocks is 1024 of the one below |
| Units.WrapsToZero | include/hinder/misc/units.h:38-52 | no overflow check, here or in include/hinder/units.h: 2^24 TiB and 2^54 KiB both wrap to zero |

## Left out

- **The clock.** `utc_timestamp()` and `exception_time()` read the system
  clock and do calendar arithmetic. The time text is a parameter.
- **Template rendering.** The `{}` placeholder syntax of `fmt`/`std::format`
  is not modelled. The renderer is a parameter that may fail. USER mode is
  therefore "render with these arguments".
- **Doubles.** Formatting a `double` is a parameter. NaN and infinities would
  give text that is not a JSON number. `JsonReadBack.ToJsonReadsBack`
  requires every double to be written as a number under the grammar of
  section 6 of RFC 8259. Integers are proved to meet that grammar.
- **`JsonEscape.EscapeDecodes`** does not check UTF-8. `escape_json_string`
  copies bytes at or above 0x80 unchanged, and the reader takes such bytes as
  they come. For a string that is not UTF-8, the output of `escape_json_string`
  (and so of `to_json`) is therefore not valid JSON text under section 8.1 of
  RFC 8259, although it still reads back byte for byte. The reader also does
  not accept escaped surrogate pairs, which the escaper never writes.
- **`JsonReadBack.ToJsonReadsBack` and `JsonReadBack.TypeReadsBack`** require
  a type name that needs no escaping, because `to_json` writes it unescaped.
- **`JsonString.JsonNumberTo`** takes integers only. The template also accepts
  floating-point values, which are formatted outside this model.
- **`JsonString.StringMemberReadsBack`** requires a key and value with no
  quote, backslash or control byte, because the writers escape nothing.
- **The literals of `misc/literals.h`.** The header does not compile. The body
  of `_KiB` (`return return ...`, line 38) is a parse error, so no translation
  unit that includes the header builds, and `_MiB`, `_GiB` and `_TiB` have no
  behaviour either. Separately, `operator"" _X(size_t)` is a valid literal
  operator only where `size_t` is `unsigned long long`. Where the rows of
  `Units.MiB`, `Units.GiB`, `Units.TiB` and `Units.UnitSteps` mention the
  literals, they describe what the bodies' text would compute. Their contracts
  hold for the functions of `units.h` and `misc/units.h`.
- **`Units.KiB` and the other units** model a 64-bit `size_t`. Other widths
  are not covered.
- **Real I/O and process exit.** `std::cerr` and other streams are
  `OutputStream` objects holding the text written to them. `std::terminate` is
  a `Terminated` outcome.
- **Concurrency.** Access to the global handler slot and mode is
  single-threaded.
- **Custom handlers.** User-defined handlers deriving from
  `assert_handler_base` are left out; only the two shipped handlers can occupy
  the slot.
- **A null handler slot.** `assert_config`'s handler is a
  `std::unique_ptr`, and a program may set it to null. A failing
  `HINDER_ASSERT` would then dereference null. `Assert.AssertConfig` always
  holds one of the shipped handlers, so this case is not modelled.
- **Handler names.** `name()` of each handler is a constant function without
  further contract.
- **A null nested exception.** `std::rethrow_if_nested` on a null nested
  pointer is not modelled.
- **`level * indent` overflow.** The product is taken as an unbounded natural
  number, not a wrapping `size_t`.
- **The `exception` class.** Beyond its read interface (type name, location,
  size and ordered entries), the class is not part of this model.
- **Which builder `HINDER_THROW` uses.** It builds its message with the
  default-only builders of `details.h`, which is the header `exception.h`
  includes. The tests expect the mode-switched builders instead. The section
  "Where the code and its tests disagree" above records this.
  `Exceptions.ThrowInMode` covers only the plain throw; `NestedThrow` and
  `Contract` over the mode-switched builder are not modelled.
- **Other headers.** `core/compiler.h` and `misc/portability.h` only hold
  branch hints and attributes. `HINDER_LIKELY(c)` is `c`.
