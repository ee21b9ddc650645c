# micro-error in Dafny

A model of the core of the PHP library micro-error. The library is a
process-wide error-capture layer. `ErrorHandlerController::initialize`
installs three hooks:

- the error hook, which handles PHP errors;
- the exception hook, which handles uncaught exceptions;
- the shutdown hook, which handles hard faults.

Each hook records the incident as a `SerializedError` in a static error
list. On a fatal path the hook then drains the output buffers, displays the
list and ends the request with an exit status. A fixed table (`fatalmap`)
classifies error numbers as fatal or not. The list is displayed through a
generic recursive HTML serializer.

The project has six modules, one file each:

- `php.dfy` (`Php`) holds what the library takes from the PHP runtime:
  - values and array keys;
  - `strpos`, `strtolower`, `trim` and `str_replace`;
  - integer printing and parsing, and the bitwise `&` of 64-bit integers.
- `severity.dfy` (`Severity`): `fatalmap`, `errno2const` and
  `is_errno_fatal`. The map is an ordered table of names and flags.
- `trace_text.dfy` (`TraceText`): the parsing half of
  `SerializedError::generate_trace`. It is a specification function
  `Trace` over the printed backtrace lines, and a method with the
  source's loop proved equal to it.
- `serialized_error.dfy` (`SerializedErrors`): the record as an immutable
  datatype, its constructor's normalisation rules, and `get_assoc` with an
  inverse that reads a record back from the array.
- `html_render.dfy` (`HtmlRender`): `_data_to_html` and its helpers as
  recursive functions. A separate tree (`Markup`) states what the output
  contains. The serializer's own postcondition states that it prints
  exactly that tree, and lemmas state what the tree and its printed text hold.
- `controller.dfy` (`Controller`): the class `ErrorHandlerController`.
  - Its fields are the registry's static fields plus the part of the host
    that the hooks read and write: the installed error and exception
    handlers, the shutdown registrations, the output-buffer stack,
    `error_get_last()`, the `error_reporting()` mask, and the calls made to
    `display`.
  - `initialize`, `reset`, `set_display_handler`, `display` and
    `ob_get_clean_all` are methods.
  - So are the three closures that `initialize` installs. Each returns an
    `Outcome` (continue, or exit with a status) instead of ending the
    process.

Host effects become parameters or fields:

- `debug_print_backtrace` becomes the printed lines, passed as a
  parameter;
- `var_dump` becomes a function parameter;
- `exit` becomes the returned `Outcome`.

In the source, `ErrorHandlerController` calls `errno2const`,
`is_errno_fatal` and `new static(...)` as if it extended
`SerializedError`. The model treats the records it builds as
`SerializedError` values, built by the same constructor rules.

`generate_trace` installs a no-op error handler while it prints the
backtrace. It puts the previous handler back only when there was one
(src/MicroError/SerializedError.php:139-143). While a user error handler
runs, PHP empties its error-handler slot, and afterwards refills the slot
only if it is still empty. Inside the error hook, `generate_trace`
therefore finds no previous handler. So once the error hook has recorded
an error, the no-op handler stays installed and swallows every later error
(`Controller.ErrorHandlerController.ErrorHook`,
`Controller.WarningSilencesLaterErrors`). The shutdown hook builds its
record outside any handler. It leaves the no-op handler installed only when
no handler was active (`Controller.AfterTrace`).

The closures read variables they never define, and PHP 8 raises an
E_WARNING for each read:

- the exception hook reads `$fatal_handler`
  (src/MicroError/ErrorHandlerController.php:160);
- the shutdown hook reads the `'type'` offset of a null last error (line
  133);
- on a hard fault, the shutdown hook reads `$fatal_handler` (line 138) and
  `$errno` (line 143).

Each warning's message, file, line and printed backtrace form a
`Diagnostic` parameter. The warning goes to the installed error handler.
The controller's error hook records it as a non-fatal `php-error` when the
mask lets E_WARNING through; the no-op handler swallows it
(`Controller.ErrorHandlerController.Warn`). The warnings are raised after
the list is enumerated, so they never appear in the displayed list.

`ob_get_clean_all` pops the levels from the innermost out, so their text
comes innermost level first. The buffer stack is a sequence with the
innermost level last. Levels `["a", "b"]` (`"b"` innermost) therefore drain
to `"ba"`.

## Model

| member | source | states |
|---|---|---|
| Severity.Errno2Const | src/MicroError/SerializedError.php:76-81 | a name found for errno is listed in the map and its constant is errno |
| Severity.FirstNamedSpec | src/MicroError/SerializedError.php:76-81 | the foreach finds a listed name whose constant equals errno, and finds nothing exactly when no listed name has that constant |
| Severity.MapNames | src/MicroError/SerializedError.php:56-71 | the map lists every error-level constant except E_USER_WARNING and E_ALL |
| Severity.Errno2ConstIff | src/MicroError/SerializedError.php:76-81 | errno2const(errno) is name n exactly when n is listed in the map and its constant is errno, so the name is unique |
| Severity.IsErrnoFatal | src/MicroError/SerializedError.php:86-94 | a number without a name is fatal, and a number counts as non-fatal only when the map's flag for its name is false |
| Severity.Listed | src/MicroError/SerializedError.php:86-94 | a number whose first listed name is n with flag f is classified as n and as fatal exactly when f holds |
| Severity.IsErrnoFatalIff | src/MicroError/SerializedError.php:86-94 | is_errno_fatal is false exactly for the nine non-fatal kinds of the map; all other numbers count as fatal |
| Severity.SoftKindsAreNotFatal | src/MicroError/SerializedError.php:86-94 | the nine non-fatal kinds have a name and are not fatal |
| Severity.WarningsAndNoticeAreNotFatal | src/MicroError/SerializedError.php:56-71 | E_WARNING, E_NOTICE, E_CORE_WARNING and E_COMPILE_WARNING have a name and are not fatal |
| Severity.NoticesAreNotFatal | src/MicroError/SerializedError.php:56-71 | E_USER_NOTICE and E_STRICT have a name and are not fatal |
| Severity.RecoverableAndDeprecatedAreNotFatal | src/MicroError/SerializedError.php:56-71 | E_RECOVERABLE_ERROR, E_DEPRECATED and E_USER_DEPRECATED have a name and are not fatal |
| Severity.HardFaultsAreFatal | src/MicroError/SerializedError.php:56-71 | E_ERROR, E_PARSE, E_CORE_ERROR, E_COMPILE_ERROR and E_USER_ERROR have a name and are fatal |
| Severity.UnmappedIsFatal | src/MicroError/SerializedError.php:88-93 | a number with no entry (E_USER_WARNING, E_ALL, any other) has no name and counts as fatal |
| Severity.AllMaskPasses | src/MicroError/ErrorHandlerController.php:174 | under error_reporting(E_ALL) the error hook's mask test lets every error-level constant through. The test `error_reporting() & $errno` is the predicate `Php.AndNonZero` over 64-bit integers |
| Severity.NoticeMask | src/MicroError/ErrorHandlerController.php:174 | the mask E_ALL & ~E_NOTICE stops notices and lets warnings through, and a zero mask stops every error number |
| TraceText.CleanFrame | src/MicroError/SerializedError.php:163 | a recorded frame neither starts nor ends with white space |
| TraceText.CleanFrameOfToken | src/MicroError/SerializedError.php:163 | a frame line "#i rest" whose rest does not repeat the token is recorded as the trimmed rest: only the token and the surrounding white space go |
| TraceText.Trace | src/MicroError/SerializedError.php:145-166 | the trace has at most one entry per frame line, and no entry starts or ends with white space |
| TraceText.GenerateTrace | src/MicroError/SerializedError.php:145-166 | the foreach with its frame counter builds exactly Trace(lines, offset, class) |
| TraceText.TraceIsKeptLines | src/MicroError/SerializedError.php:149-165 | the trace is the cleaned kept lines in printed order, and every kept line contributes one entry |
| TraceText.KeptIndicesOrdered | src/MicroError/SerializedError.php:149-158 | the recorded lines appear in increasing position, and each is a frame line past the offset that does not mention the class |
| TraceText.TraceEntries | src/MicroError/SerializedError.php:163 | entry k is the k-th kept line without its "#i " token, trimmed, where i is that line's frame number |
| TraceText.KeptIndicesComplete | src/MicroError/SerializedError.php:150-163 | every frame line that is past the offset and does not mention the class is recorded |
| TraceText.TraceLength | src/MicroError/SerializedError.php:147-152 | the trace has at most one entry per frame line after the first offset+1 |
| TraceText.NoFramesNoTrace | src/MicroError/SerializedError.php:150 | a dump without "#" lines gives an empty trace |
| SerializedErrors.NewSerializedError | src/MicroError/SerializedError.php:105-127 | a null type leaves every field unset; otherwise the fields are stored, the line only when given, and the trace is kept if it is an array, unset if false, and generated otherwise |
| SerializedErrors.GeneratedTraceShape | src/MicroError/SerializedError.php:124 | a generated trace is a list of strings, at most one per printed frame after the first |
| SerializedErrors.AssocEntries | src/MicroError/SerializedError.php:174-176 | entry i holds key i of the list and that getter's value |
| SerializedErrors.GetAssoc | src/MicroError/SerializedError.php:172-178 | get_assoc has exactly seven entries: type, name, code, msg, file, line and trace in that order, each holding its getter's value |
| SerializedErrors.AssocRoundTrip | src/MicroError/SerializedError.php:172-178 | reading the array back gives the record that produced it |
| SerializedErrors.AssocInjective | src/MicroError/SerializedError.php:172-178 | distinct records have distinct arrays |
| HtmlRender.Escape | src/MicroError/ErrorHandlerController.php:263 | the escaped text holds no < > " or ', and text without special characters is unchanged |
| HtmlRender.EscapeRoundTrip | src/MicroError/ErrorHandlerController.php:263 | decoding the escaped text gives the original text back |
| HtmlRender.StripNewlines | src/MicroError/ErrorHandlerController.php:262 | the result holds no line break, is never longer than the input, and text without line breaks is unchanged; one character is dropped exactly when it is a line break |
| HtmlRender.StripNewlinesConcat | src/MicroError/ErrorHandlerController.php:262 | stripping text is stripping its parts and joining them, so with the one-character case every character other than a line break is kept, in order |
| HtmlRender.LeafHtml | src/MicroError/ErrorHandlerController.php:261-271 | a leaf renders as '' exactly when it is the empty string, and a printable scalar renders without any tag or attribute delimiter |
| HtmlRender.LeafConstants | src/MicroError/ErrorHandlerController.php:261-271 | the empty string renders as '', true as 1, and false and null through the dump fallback |
| HtmlRender.LeafInt | src/MicroError/ErrorHandlerController.php:262-263 | an integer leaf renders as its decimal text |
| HtmlRender.LeafStr | src/MicroError/ErrorHandlerController.php:261-271 | a non-empty string renders escaped when it is printable once line breaks are removed, and through the dump fallback otherwise |
| HtmlRender.MetaValue | src/MicroError/ErrorHandlerController.php:206-221 | the data-type value holds no < > " or ', is "object" for a stdClass object, the escaped class name (which decodes back to the name) for any other object, and gettype's name for a non-object |
| HtmlRender.PlainTypeNames | src/MicroError/ErrorHandlerController.php:219 | escaping leaves every gettype name unchanged |
| HtmlRender.Indent | src/MicroError/ErrorHandlerController.php:222-226 | the indent is size times level characters, all spaces |
| HtmlRender.Spaces | src/MicroError/ErrorHandlerController.php:222-226 | the indent is exactly n spaces |
| HtmlRender.IntKeyText | src/MicroError/ErrorHandlerController.php:236 | an integer key's data-key attribute, for negative keys too, is its plain decimal text |
| HtmlRender.ValueTypeAttr | src/MicroError/ErrorHandlerController.php:242-251 | an item's value span carries type attributes exactly when the value is a scalar or null: `data-type="integer"` and `data-type="string"` (gettype's names), `data-type="boolean"` with `data-boolean-value="true"` or `"false"`, and `data-type="null"` |
| HtmlRender.ShapeOf | src/MicroError/ErrorHandlerController.php:229-258 | a composite becomes one container typed by _get_html_meta_value with one item per child, in order. Each item has its 0-based index, its escaped key, a visible label exactly for string keys, its value's type attributes and the child's own tree. A leaf becomes its rendered text. The label test `sprintf("%d",$key) != $key` (line 237) is the predicate `ShowsKey` |
| HtmlRender.DataToHtml | src/MicroError/ErrorHandlerController.php:227-276 | _data_to_html emits exactly the printed tree of its input |
| HtmlRender.ItemsHtml | src/MicroError/ErrorHandlerController.php:232-257 | the foreach from position i on emits exactly the printed items i onwards, one per child |
| HtmlRender.SerializeHtml | src/MicroError/ErrorHandlerController.php:192-205 | _serialize_html is the printed tree with ul containers and li items from indent level 0 |
| HtmlRender.ExampleListShape | src/MicroError/ErrorHandlerController.php:229-258 | [true, false, null] renders as an array container with three positional items, unlabelled and carrying `data-type="boolean" data-boolean-value="true"`, `data-type="boolean" data-boolean-value="false"` and `data-type="null"` |
| HtmlRender.PositionalItem | src/MicroError/ErrorHandlerController.php:232-253 | in any array or object whose j-th key is the integer j, item j is labelled by the decimal text of j, has no visible key and carries the child's type attributes and tree |
| HtmlRender.PrintedTree | src/MicroError/ErrorHandlerController.php:229-258 | the printed container starts with its `data-type` opening tag and ends with its closing tag; the items' text from j on starts with item j's tag carrying its data-index and data-key, and ends with the strictly shorter text from j + 1 on, so each item prints as its own element, in order. `ContainerOpen`, `ContainerClose`, `ItemOpen` and `ItemContent` (which make up `Container` and `ItemLine`) are the source's tag templates |
| HtmlRender.PrintedItem | src/MicroError/ErrorHandlerController.php:232-256 | one iteration of the foreach: item j's text opens with its tag and ends with the later items' text |
| HtmlRender.ExampleShape | src/MicroError/ErrorHandlerController.php:229-258 | {"a": 1, "b": [...]} renders as an array container with visibly keyed items a (rendered 1) and b (the list's tree) |
| Controller.AfterTrace | src/MicroError/SerializedError.php:141-143 | after generating a trace, the previous error handler is active again when there was one, and the no-op handler otherwise |
| Controller.Enumerate | src/MicroError/ErrorHandlerController.php:9-15 | one array per record, in list order, each equal to that record's get_assoc |
| Controller.EnumerateRecovers | src/MicroError/ErrorHandlerController.php:9-15 | every entry of the enumeration reads back as the record at the same position |
| Controller.EnumerateAppend | src/MicroError/ErrorHandlerController.php:9-15 | appending a record appends exactly its array to the enumeration |
| Controller.Drained | src/MicroError/ErrorHandlerController.php:98-111 | ob_get_clean_all returns null exactly after a memory error. The memory-error test (`strpos` of "memory" in the lower-cased last message) is the predicate `IsMemoryError` |
| Controller.DrainedContents | src/MicroError/ErrorHandlerController.php:98-111 | without a memory error the drained text is as long as all levels together, and starts with the innermost level's text |
| Controller.InnermostFirstPush | src/MicroError/ErrorHandlerController.php:107-110 | the text of a newly pushed level comes first in the drained text |
| Controller.InnermostFirstLength | src/MicroError/ErrorHandlerController.php:107-110 | the drained text is as long as all levels together |
| Controller.DrainedEmpty | src/MicroError/ErrorHandlerController.php:98-111 | draining no levels gives "", or null after a memory error |
| Controller.StripArgs | src/MicroError/ErrorHandlerController.php:154 | a stripped frame is never longer than the original, and a one-entry frame loses its entry exactly when it is a set 'args' |
| Controller.StripArgsConcat | src/MicroError/ErrorHandlerController.php:154 | stripping a frame is stripping its parts and joining them, so with the one-entry case the result is the frame's entries without the set 'args' one, in their order |
| Controller.StripArgsKeepsOtherKeys | src/MicroError/ErrorHandlerController.php:154 | a stripped frame reads the same as the original at every key but 'args' |
| Controller.StripArgsDropsArgs | src/MicroError/ErrorHandlerController.php:154 | a stripped frame has no set 'args' value |
| Controller.StripArgsUnset | src/MicroError/ErrorHandlerController.php:154 | a frame without a set 'args' value is unchanged |
| Controller.ExceptionTrace | src/MicroError/ErrorHandlerController.php:152-156 | one stripped frame per frame of the exception, in order |
| Controller.ErrorRecord | src/MicroError/ErrorHandlerController.php:175 | the error hook's record is a 'php-error' with errno as its code, errstr as its message, the file as a string or null, a line exactly when one is given, and a generated trace |
| Controller.ErrorRecordName | src/MicroError/ErrorHandlerController.php:175 | the error record has a name exactly when errno2const finds one, and that name is the constant whose value is errno |
| Controller.ExceptionRecord | src/MicroError/ErrorHandlerController.php:157 | the exception hook's record is a 'php-exception' named by the exception's class, with its message, file, line and code |
| Controller.ExceptionRecordTrace | src/MicroError/ErrorHandlerController.php:152-157 | the exception record's trace is a list with one frame per frame of the exception, in order, each without its set 'args' |
| Controller.FatalRecord | src/MicroError/ErrorHandlerController.php:136 | the shutdown hook's record is a 'php-fatal' with the last error's kind as its code and its message, file and line; it has a name exactly when errno2const finds one, and a generated trace |
| Controller.ExitStatus | src/MicroError/ErrorHandlerController.php:165-169 | the status is a 64-bit integer, and a status other than 1 from a string code is the value that string prints |
| Controller.ExitStatusCases | src/MicroError/ErrorHandlerController.php:165-169 | the status is an integer code; or the value of a string code that prints a 64-bit integer; and 1 for any other string, including the printed form of an integer beyond 64 bits |
| Controller.ExitStatusExamples | src/MicroError/ErrorHandlerController.php:165-169 | the code "custom-error" gives 1, 42 and "42" give 42, and "9223372036854775808" gives 1 |
| Controller.SecondWarningDropped | src/MicroError/SerializedError.php:139-143 | after one warning, a second warning adds no record and leaves the handler as it was |
| Controller.ErrorHandlerController.constructor | src/MicroError/ErrorHandlerController.php:81-90 | a fresh registry: nothing registered, saved or listed |
| Controller.ErrorHandlerController.Initialize | src/MicroError/ErrorHandlerController.php:123-190 | registers the shutdown hook the first time only and installs both hooks. It saves the previous error handler only while none is saved and keeps the error list |
| Controller.ErrorHandlerController.Reset | src/MicroError/ErrorHandlerController.php:30-35 | reinstalls the saved handler when there is one and clears the fatal handler; the list and the registration are kept |
| Controller.ErrorHandlerController.SetDisplayHandler | src/MicroError/ErrorHandlerController.php:40-42 | sets the display handler and nothing else |
| Controller.ErrorHandlerController.Display | src/MicroError/ErrorHandlerController.php:44-59 | records one display of the list and buffer with the handler set at that moment, and changes nothing else |
| Controller.ErrorHandlerController.ObGetCleanAll | src/MicroError/ErrorHandlerController.php:98-111 | pops every level. Returns null after a memory error, and otherwise the levels' text innermost first ("" for none) |
| Controller.ErrorHandlerController.ErrorHook | src/MicroError/ErrorHandlerController.php:172-188 | an error outside the mask changes nothing and continues. Otherwise one php-error record is appended and the no-op handler is left installed; a fatal kind then drains the buffers, displays the list and exits with errno, and a non-fatal one continues |
| Controller.ErrorHandlerController.RecordError | src/MicroError/ErrorHandlerController.php:175 | with the handler slot empty, appends the php-error record and leaves the no-op handler installed |
| Controller.ErrorHandlerController.DrainAndDisplay | src/MicroError/ErrorHandlerController.php:177-183 | empties the buffer stack and displays the whole list with the drained text |
| Controller.ErrorHandlerController.Warn | src/MicroError/ErrorHandlerController.php:172-176 | a warning is recorded exactly when the controller's hook is installed and the mask lets E_WARNING through, and then leaves the no-op handler installed; buffers and displays are untouched |
| Controller.ErrorHandlerController.ExceptionHook | src/MicroError/ErrorHandlerController.php:149-170 | drains, appends one php-exception record with the stripped trace, displays the list without the later warning about `$fatal_handler`, records that warning through the installed handler and exits with the code's status |
| Controller.ErrorHandlerController.ShutdownHook | src/MicroError/ErrorHandlerController.php:129-146 | with no last error, raises the null-offset warning and continues; with a soft last error, changes nothing; with a hard fault, reports it and exits with the undefined `$errno` |
| Controller.ErrorHandlerController.DrainTwice | src/MicroError/ErrorHandlerController.php:134-135 | two drains leave the stack empty and return "" (or null after a memory error) from the second |
| Controller.ErrorHandlerController.RecordHardFault | src/MicroError/ErrorHandlerController.php:136-138 | appends the php-fatal record, enumerates the list with it, and then records the `$fatal_handler` warning through the handler the record's trace left |
| Controller.ErrorHandlerController.ReportHardFault | src/MicroError/ErrorHandlerController.php:134-143 | drains twice, appends the php-fatal record and then at most one warning, displays the list with the fatal record and an empty (or null) buffer, and never records the `$errno` warning |
| Controller.ErrorHandlerController.WarnAgain | src/MicroError/ErrorHandlerController.php:143 | a warning raised after a first one changes nothing |
| Controller.InitializeThriceThenReset | src/MicroError/ErrorHandlerController.php:127-189 | three initialize calls register the shutdown hook once, and reset reinstalls the handler that was active before the first call |
| Controller.ResetAfterTwoInitializeFromNoHandler | src/MicroError/ErrorHandlerController.php:172-189 | with no handler active before, a second initialize saves the controller's own hook as the original, so reset leaves that hook installed |
| Controller.WarningSilencesLaterErrors | src/MicroError/SerializedError.php:139-143 | under error_reporting(E_ALL), after the error hook records one warning the no-op handler is installed and a later warning adds no record |
| Php.Trim | src/MicroError/SerializedError.php:163 | the trimmed text is an infix of the input, everything cut from either end is a trim character, and it neither starts nor ends with one |
| Php.RemoveAll | src/MicroError/SerializedError.php:163 | removing a pattern never lengthens the text, text without it is unchanged, and text with it loses at least one pattern's length |
| Php.RemoveAllLeading | src/MicroError/SerializedError.php:163 | a pattern at the front is removed and the scan resumes right after it; the text behind it is kept whole when it holds no further occurrence |
| Php.NatToDecimal | src/MicroError/SerializedError.php:163 | the frame number prints as a canonical decimal numeral |
| Php.DecimalRoundTrip | src/MicroError/ErrorHandlerController.php:166 | parsing an integer's printed form gives the integer back |
| Php.ParsedIsCanonical | src/MicroError/ErrorHandlerController.php:166 | a string that parses as an integer is that integer's printed form |

## Left out

- Controller.ExitStatus: a string code that is numeric but not canonical (`"042"`, `" 42"`, `"42.0"`) gives status 1 in the model. PHP compares such a code numerically in `sprintf("%d", $code) == $code` and exits with its integer value.
- HtmlRender.ShowsKey: numeric-looking string keys (such as `"01"`, or an object property `"5"`) are not modelled. The model shows a visible key label exactly for string keys, while PHP's loose `sprintf("%d", $key) != $key` hides the label for those keys as well.
- Controller.ErrorHandlerController.ShutdownHook: its exit status is `ExitUndefinedStatus`, because the closure exits with `$errno`, which it never defines.
- Controller.ErrorHandlerController.Display: the display handler that `set_display_handler` installs is foreign code. The model assumes it leaves the registry, the error list and the buffers untouched.
- Controller.ErrorHandlerController.Warn: a warning that meets a foreign error handler, or no handler at all, leaves the model unchanged. The foreign handler's own effects and PHP's standard report are not modelled.
- Controller.ErrorHandlerController.Warn: warnings are E_WARNING, as in PHP 8. PHP 7 raises E_NOTICE for an undefined variable and for an offset read on null; under a mask that stops notices, those would not be recorded.
- Controller.ErrorHandlerController.Display: the page itself is not modelled. That covers the response code, headers, banner, `display_errors` lookup and date footer, all output. Only the call and its handler are recorded. The error list's HTML is `HtmlRender.SerializeHtml`.
- Controller.ErrorHandlerController.Initialize: the `fatalNotice` and `fatalWarning` arguments are taken but never read, as in the source. `showArgs` is stored but never read either.
- The user fatal and non-fatal callbacks (`$fatal_handler`, `$nonfatal_handler`) are never bound in the closures, so the hooks always take the display path or continue. The error hook binds both by reference, which reads as null without a warning.
- `_filter_exception_trace` is not modelled. It reads an undefined class constant and nothing calls it.
- `get_error_list` is not modelled separately. It returns the `errorList` field.
- `debug_print_backtrace` and `explode` are not modelled. The printed lines are a parameter of the trace parser.
- The constructor's `$options['backtrace_show_args']` is not modelled. It only chooses the flags of `debug_print_backtrace`, whose output is already a parameter.
- `var_dump` is not modelled; it is a function parameter of the renderer.
- Floats are left out: float scalars, their string form and `gettype` "double".
- `ctype_print` is modelled for the C locale only (characters 0x20 to 0x7E).
- `ENT_SUBSTITUTE` is not modelled. Strings are sequences of characters, so there is no invalid encoding to substitute.
- The operating system's truncation of exit statuses to 0-255 is not modelled.
- The handler stack that `set_error_handler` keeps is not modelled. Only the active error handler is.
- Process termination, concurrency and the real hook registration are not modelled. The host is single-threaded, and each hook returns its outcome instead.
