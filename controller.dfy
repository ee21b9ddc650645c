/** ErrorHandlerController: the static handler registry and the three hooks
    it installs (the error hook, the exception hook and the shutdown hook),
    over an explicit model of the host runtime's state. A hook returns the
    way it ends the request instead of terminating the process. */
module Controller {
  import opened Php
  import opened Severity
  import opened SerializedErrors

  /** A callable the host may hold as a handler: one of the closures
      `initialize` installs, the no-op error handler generate_trace installs
      while it prints the backtrace, or some other code's. */
  datatype Callable = Foreign(id: nat) | OwnErrorHook | OwnExceptionHook | TraceSilencer

  /** The error handler after generate_trace: the previous one is put back
      only when there was one, so with none the no-op handler stays. */
  function AfterTrace(handler: Option<Callable>): (r: Option<Callable>)
    ensures r.Some?
    ensures handler.Some? ==> r == handler
    ensures handler.None? ==> r == Some(TraceSilencer)
  {
    if handler.Some? then handler else Some(TraceSilencer)
  }

  /** What error_get_last() reports. */
  datatype HostError = HostError(kind: int, message: string, file: string, line: int)

  /** How a hook ends: by returning, or by exit($status). The shutdown hook
      exits with a status that is not defined. */
  datatype Outcome = Continue | Exit(status: int) | ExitUndefinedStatus

  /** Exception::getCode(): a (64-bit) integer, or a string for some extensions. */
  datatype Code = IntCode(i: Int64) | StrCode(s: string)

  /** The uncaught exception as the exception hook reads it. */
  datatype ThrownException = ThrownException(
    className: string, message: string, file: string, line: int, code: Code,
    trace: seq<seq<(Key, Value)>>)

  /** A call of display($errlist, $buffer), with the display handler that was
      registered at that moment (none: the built-in page is printed). */
  datatype DisplayCall = DisplayCall(errlist: seq<Value>, buffer: Option<string>, handler: Option<Callable>)

  // ----------------------------------------------------------- enumerate

  /** enumerate: the get_assoc array of each listed record, in list order. */
  function Enumerate(list: seq<SerializedError>): (r: seq<Value>)
    ensures |r| == |list|
    ensures forall i {:trigger r[i]} :: 0 <= i < |list| ==> r[i] == GetAssoc(list[i])
  {
    if list == [] then [] else Enumerate(list[..|list| - 1]) + [GetAssoc(list[|list| - 1])]
  }

  /** The enumeration determines the list: every entry reads back as the
      record at the same position. */
  lemma EnumerateRecovers(list: seq<SerializedError>)
    ensures forall i :: 0 <= i < |list| ==> FromAssoc(Enumerate(list)[i]) == Some(list[i])
  {
    forall i | 0 <= i < |list|
      ensures FromAssoc(Enumerate(list)[i]) == Some(list[i])
    {
      AssocRoundTrip(list[i]);
    }
  }

  /** Recording one more error adds exactly its array at the end. */
  lemma EnumerateAppend(list: seq<SerializedError>, e: SerializedError)
    ensures Enumerate(list + [e]) == Enumerate(list) + [GetAssoc(e)]
  {
  }

  // --------------------------------------------------- ob_get_clean_all

  /** The buffer levels concatenated in the order ob_get_clean pops them:
      the innermost (last) level first. */
  function InnermostFirst(levels: seq<string>): string
  {
    if levels == [] then "" else InnermostFirst(levels[1..]) + levels[0]
  }

  /** Pushing a level puts its text in front of the drained text. */
  lemma {:induction false} InnermostFirstPush(levels: seq<string>, top: string)
    ensures InnermostFirst(levels + [top]) == top + InnermostFirst(levels)
  {
    if levels != [] {
      assert (levels + [top])[1..] == levels[1..] + [top];
      InnermostFirstPush(levels[1..], top);
    }
  }

  /** The drained text holds every character of every level. */
  lemma {:induction false} InnermostFirstLength(levels: seq<string>, total: nat)
    requires total == SumLengths(levels)
    ensures |InnermostFirst(levels)| == total
  {
    if levels != [] {
      InnermostFirstLength(levels[1..], SumLengths(levels[1..]));
    }
  }

  function SumLengths(levels: seq<string>): nat
  {
    if levels == [] then 0 else |levels[0]| + SumLengths(levels[1..])
  }

  /** The last error is a memory error: its message, lower-cased, contains "memory". */
  predicate IsMemoryError(last: Option<HostError>)
  {
    last.Some? && Contains(Lower(last.value.message), "memory")
  }

  /** What ob_get_clean_all returns for these levels and last error: null
      exactly after a memory error, and the levels' text otherwise. */
  function Drained(levels: seq<string>, last: Option<HostError>): (r: Option<string>)
    ensures r.None? <==> IsMemoryError(last)
  {
    if IsMemoryError(last) then None else Some(InnermostFirst(levels))
  }

  /** Without a memory error the drained text holds every character of every
      level, the innermost (last) level's text first. */
  lemma DrainedContents(levels: seq<string>, last: Option<HostError>)
    requires !IsMemoryError(last)
    ensures |Drained(levels, last).value| == SumLengths(levels)
    ensures levels != [] ==>
      Drained(levels, last).value == levels[|levels| - 1] + InnermostFirst(levels[..|levels| - 1])
  {
    InnermostFirstLength(levels, SumLengths(levels));
    if levels != [] {
      InnermostLast(levels);
    }
  }

  /** The innermost level's text comes first. */
  lemma InnermostLast(levels: seq<string>)
    requires levels != []
    ensures InnermostFirst(levels) == levels[|levels| - 1] + InnermostFirst(levels[..|levels| - 1])
  {
    InnermostFirstPush(levels[..|levels| - 1], levels[|levels| - 1]);
    assert levels == levels[..|levels| - 1] + [levels[|levels| - 1]];
  }

  /** A second drain right after a first finds no levels: it gives the empty
      text, or null after a memory error. */
  lemma DrainedEmpty(last: Option<HostError>)
    ensures Drained([], last) == (if IsMemoryError(last) then None else Some(""))
  {
  }

  // ------------------------------------------------------- exception frames

  /** `isset($l['args'])`: the entry is the args key with a non-null value. */
  predicate IsSetArgs(entry: (Key, Value))
  {
    entry.0 == StrKey("args") && entry.1 != Null
  }

  /** The frame with `unset($l['args'])` applied when the args value is set. */
  function StripArgs(frame: seq<(Key, Value)>): (r: seq<(Key, Value)>)
    ensures |r| <= |frame|
    ensures |frame| == 1 ==> r == if IsSetArgs(frame[0]) then [] else frame
  {
    if frame == [] then []
    else (if IsSetArgs(frame[0]) then [] else [frame[0]]) + StripArgs(frame[1..])
  }

  /** Stripping works entry by entry: together with the one-entry case, the
      result is the frame's entries without the set 'args' one, in order. */
  lemma {:induction false} StripArgsConcat(a: seq<(Key, Value)>, b: seq<(Key, Value)>)
    ensures StripArgs(a + b) == StripArgs(a) + StripArgs(b)
  {
    if a == [] {
      assert a + b == b;
    } else {
      assert (a + b)[1..] == a[1..] + b;
      StripArgsConcat(a[1..], b);
    }
  }

  /** `$a[$k]` on an array that starts with entry x. */
  lemma LookupCons(x: (Key, Value), rest: seq<(Key, Value)>, k: Key)
    ensures Lookup([x] + rest, k) == if x.0 == k then Some(x.1) else Lookup(rest, k)
  {
    assert ([x] + rest)[1..] == rest;
  }

  /** A stripped frame reads the same as the original at every key but 'args'. */
  lemma {:induction false} StripArgsKeepsOtherKeys(frame: seq<(Key, Value)>, k: Key)
    requires k != StrKey("args")
    ensures Lookup(StripArgs(frame), k) == Lookup(frame, k)
  {
    if frame != [] {
      var rest := StripArgs(frame[1..]);
      StripArgsKeepsOtherKeys(frame[1..], k);
      assert frame == [frame[0]] + frame[1..];
      LookupCons(frame[0], frame[1..], k);
      if IsSetArgs(frame[0]) {
        assert StripArgs(frame) == rest;
      } else {
        assert StripArgs(frame) == [frame[0]] + rest;
        LookupCons(frame[0], rest, k);
      }
    }
  }

  /** A stripped frame never holds a set 'args' value. */
  lemma {:induction false} StripArgsDropsArgs(frame: seq<(Key, Value)>)
    ensures Lookup(StripArgs(frame), StrKey("args")) == None || Lookup(StripArgs(frame), StrKey("args")) == Some(Null)
  {
    if frame != [] {
      var rest := StripArgs(frame[1..]);
      StripArgsDropsArgs(frame[1..]);
      if IsSetArgs(frame[0]) {
        assert StripArgs(frame) == rest;
      } else {
        assert StripArgs(frame) == [frame[0]] + rest;
        LookupCons(frame[0], rest, StrKey("args"));
      }
    }
  }

  /** A frame without a set 'args' value is left as it is. */
  lemma {:induction false} StripArgsUnset(frame: seq<(Key, Value)>)
    requires forall j :: 0 <= j < |frame| ==> !IsSetArgs(frame[j])
    ensures StripArgs(frame) == frame
  {
    if frame != [] {
      var tail := frame[1..];
      assert forall j :: 0 <= j < |tail| ==> tail[j] == frame[j + 1];
      StripArgsUnset(tail);
      assert !IsSetArgs(frame[0]);
      assert StripArgs(frame) == [frame[0]] + tail;
      assert frame == [frame[0]] + tail;
    }
  }

  /** The trace the exception hook stores: one frame per frame of the
      exception's trace, in order, each without its set 'args'. */
  function ExceptionTrace(frames: seq<seq<(Key, Value)>>): (r: seq<Value>)
    ensures |r| == |frames|
    ensures forall j :: 0 <= j < |frames| ==> r[j] == Arr(StripArgs(frames[j]))
  {
    seq(|frames|, j requires 0 <= j < |frames| => Arr(StripArgs(frames[j])))
  }

  // ------------------------------------------------------------- records

  /** The record's name field: errno2const's name, or null. */
  function NameValue(name: Option<ErrorConst>): Value
  {
    match name
    case Some(n) => Str(n.Name())
    case None => Null
  }

  function CodeValue(code: Code): Value
  {
    match code
    case IntCode(i) => Int(i as int)
    case StrCode(s) => Str(s)
  }

  function OptStr(s: Option<string>): Value
  {
    match s
    case Some(t) => Str(t)
    case None => Null
  }

  /** The record the error hook appends: a 'php-error' whose code is errno,
      whose message, file and line are the error's, and whose trace is the
      generated one. */
  function ErrorRecord(errno: int, errstr: string, errfile: Option<string>, errline: Option<int>,
                       backtrace: seq<string>): (r: SerializedError)
    ensures r.kind == Str("php-error") && r.code == Int(errno) && r.msg == Str(errstr)
    ensures r.file == OptStr(errfile) && (errline.Some? <==> r.line.Int?)
    ensures errline.Some? ==> r.line == Int(errline.value)
    ensures r.trace == GeneratedTrace(backtrace)
  {
    NewSerializedError(Str("php-error"), NameValue(Errno2Const(errno)), Str(errstr), OptStr(errfile),
                       errline, Int(errno), Bool(true), backtrace)
  }

  /** The record the exception hook appends: a 'php-exception' named by the
      exception's class, with its message, file, line and code. */
  function ExceptionRecord(ex: ThrownException): (r: SerializedError)
    ensures r.kind == Str("php-exception") && r.name == Str(ex.className)
    ensures r.msg == Str(ex.message) && r.file == Str(ex.file) && r.line == Int(ex.line)
    ensures r.code == CodeValue(ex.code)
  {
    NewSerializedError(Str("php-exception"), Str(ex.className), Str(ex.message), Str(ex.file),
                       Some(ex.line), CodeValue(ex.code), Arr(ListOf(ExceptionTrace(ex.trace))), [])
  }

  /** The record the shutdown hook appends for a hard fault: a 'php-fatal'
      carrying the last error's kind as its code, its message, file and line,
      a name exactly when errno2const has one, and the generated trace. */
  function FatalRecord(err: HostError, backtrace: seq<string>): (r: SerializedError)
    ensures r.kind == Str("php-fatal") && r.code == Int(err.kind) && r.msg == Str(err.message)
    ensures r.file == Str(err.file) && r.line == Int(err.line)
    ensures r.name.Str? <==> Errno2Const(err.kind).Some?
    ensures r.trace == GeneratedTrace(backtrace)
  {
    NewSerializedError(Str("php-fatal"), NameValue(Errno2Const(err.kind)), Str(err.message), Str(err.file),
                       Some(err.line), Int(err.kind), Bool(true), backtrace)
  }

  /** The error record is named exactly when errno is a listed constant's
      value, and then by that constant. */
  lemma ErrorRecordName(errno: int, errstr: string, errfile: Option<string>, errline: Option<int>,
                        backtrace: seq<string>)
    ensures Errno2Const(errno).Some? <==> ErrorRecord(errno, errstr, errfile, errline, backtrace).name.Str?
    ensures ErrorRecord(errno, errstr, errfile, errline, backtrace).name.Str? ==>
      exists n: ErrorConst :: n.Value() == errno && ErrorRecord(errno, errstr, errfile, errline, backtrace).name == Str(n.Name())
  {
    match Errno2Const(errno)
    case Some(n) =>
      Errno2ConstIff(errno, n);
    case None =>
  }

  /** The exception record keeps every frame of the exception's trace, in
      order, and drops only set 'args' values. */
  lemma ExceptionRecordTrace(ex: ThrownException)
    ensures ExceptionRecord(ex).trace.Arr? && |ExceptionRecord(ex).trace.entries| == |ex.trace|
    ensures forall j :: 0 <= j < |ex.trace| ==>
      ExceptionRecord(ex).trace.entries[j] == (IntKey(j), Arr(StripArgs(ex.trace[j])))
  {
  }

  // ------------------------------------------------------------ exit status

  /** The exception hook's exit status: an integer code, or a string code that
      is the canonical decimal form of a 64-bit integer; 1 otherwise. A status
      other than 1 from a string code is that string's value. */
  function ExitStatus(code: Code): (r: int)
    ensures IsInt64(r)
    ensures code.StrCode? && r != 1 ==> IntToDecimal(r) == code.s
  {
    match code
    case IntCode(i) => i as int
    case StrCode(s) =>
      match ParseCanonicalInt(s)
      case Some(i) =>
        ParsedIsCanonical(s, i);
        if IsInt64(i) then i else 1
      case None => 1
  }

  /** The status is the code exactly when the code is an integer or the
      printed form of a 64-bit one; every other code, including the printed
      form of an integer beyond 64 bits, gives 1. */
  lemma ExitStatusCases(code: Code)
    ensures code.IntCode? ==> ExitStatus(code) == code.i as int
    ensures code.StrCode? && ParseCanonicalInt(code.s).Some? && IsInt64(ParseCanonicalInt(code.s).value) ==>
      ExitStatus(code) == ParseCanonicalInt(code.s).value
    ensures code.StrCode? && (ParseCanonicalInt(code.s).None? || !IsInt64(ParseCanonicalInt(code.s).value)) ==>
      ExitStatus(code) == 1
    ensures forall i :: IsInt64(i) ==> ExitStatus(StrCode(IntToDecimal(i))) == i
    ensures forall i :: !IsInt64(i) ==> ExitStatus(StrCode(IntToDecimal(i))) == 1
  {
    forall i ensures ParseCanonicalInt(IntToDecimal(i)) == Some(i) {
      DecimalRoundTrip(i);
    }
  }

  lemma ExitStatusExamples()
    ensures ExitStatus(StrCode("custom-error")) == 1
    ensures ExitStatus(IntCode(42)) == 42
    ensures ExitStatus(StrCode("42")) == 42
    ensures ExitStatus(StrCode(IntToDecimal(0x8000_0000_0000_0000))) == 1
  {
    assert !IsDigit('c');
    DecimalRoundTrip(42);
    assert IntToDecimal(42) == "42";
    DecimalRoundTrip(0x8000_0000_0000_0000);
  }

  // ------------------------------------------------- warnings inside a hook

  /** A warning the host raises while a hook runs, such as the read of an
      undefined variable or of an offset of null (E_WARNING as of PHP 8),
      with the backtrace debug_print_backtrace would print if the error hook
      records it. */
  datatype Diagnostic = Diagnostic(message: string, file: string, line: int, backtrace: seq<string>)

  /** The record the error hook appends for such a warning. */
  function WarningRecord(d: Diagnostic): SerializedError
  {
    ErrorRecord(E_WARNING, d.message, Some(d.file), Some(d.line), d.backtrace)
  }

  /** The installed handler records an E_WARNING: it is the controller's
      error hook and the error_reporting mask lets the warning through. */
  predicate RecordsWarning(handler: Option<Callable>, mask: Int64)
  {
    handler == Some(OwnErrorHook) && AndNonZero(mask, E_WARNING as Int64)
  }

  /** The records a warning adds. */
  function WarningRecords(handler: Option<Callable>, mask: Int64, d: Diagnostic): seq<SerializedError>
  {
    if RecordsWarning(handler, mask) then [WarningRecord(d)] else []
  }

  /** The error handler after a warning: recording it leaves the no-op
      handler installed. */
  function HandlerAfterWarning(handler: Option<Callable>, mask: Int64): Option<Callable>
  {
    if RecordsWarning(handler, mask) then Some(TraceSilencer) else handler
  }

  /** Once a warning is recorded, no later warning is: the no-op handler
      swallows it and stays installed. */
  lemma SecondWarningDropped(handler: Option<Callable>, mask: Int64, d: Diagnostic)
    ensures WarningRecords(HandlerAfterWarning(handler, mask), mask, d) == []
    ensures HandlerAfterWarning(HandlerAfterWarning(handler, mask), mask) == HandlerAfterWarning(handler, mask)
  {
  }

  // ------------------------------------------------------------- registry

  /** The controller's static state together with the part of the host's
      state the hooks read and write. */
  class ErrorHandlerController {
    // the registry (the class's static fields)
    var registeredFatalCheck: bool
    var origErrorHandler: Option<Callable>
    var showArgs: bool
    var fatalHandler: Option<Callable>
    var displayHandler: Option<Callable>
    var errorList: seq<SerializedError>
    // the host
    var errorHandler: Option<Callable>
    var exceptionHandler: Option<Callable>
    var shutdownHooks: nat
    var buffers: seq<string>
    var lastError: Option<HostError>
    var errorReporting: Int64
    var displays: seq<DisplayCall>

    /** The shutdown hook is registered once, and only when the flag says so. */
    predicate Valid()
      reads this
    {
      shutdownHooks == (if registeredFatalCheck then 1 else 0)
    }

    /** Between two states the last error and the error_reporting mask are the same. */
    twostate predicate HostKept()
      reads this
    {
      lastError == old(lastError) && errorReporting == old(errorReporting)
    }

    /** A fresh registry in a host with the given error handler, buffer levels,
        last error and error_reporting mask. */
    constructor (handler: Option<Callable>, levels: seq<string>, last: Option<HostError>, reporting: Int64)
      ensures Valid()
      ensures !registeredFatalCheck && origErrorHandler.None? && !showArgs
      ensures fatalHandler.None? && displayHandler.None? && errorList == []
      ensures errorHandler == handler && exceptionHandler.None? && shutdownHooks == 0
      ensures buffers == levels && lastError == last && errorReporting == reporting && displays == []
    {
      registeredFatalCheck := false;
      origErrorHandler := None;
      showArgs := false;
      fatalHandler := None;
      displayHandler := None;
      errorList := [];
      errorHandler := handler;
      exceptionHandler := None;
      shutdownHooks := 0;
      buffers := levels;
      lastError := last;
      errorReporting := reporting;
      displays := [];
    }

    /** initialize: registers the shutdown hook the first time only, installs
        the exception and error hooks, and saves the previous error handler
        only while none is saved. The error list is kept. */
    method Initialize(fatalNotice: bool, fatalWarning: bool, showArgs: bool)
      requires Valid()
      modifies this`showArgs, this`registeredFatalCheck, this`shutdownHooks, this`exceptionHandler, this`errorHandler, this`origErrorHandler
      ensures Valid()
      ensures this.showArgs == showArgs
      ensures registeredFatalCheck
      ensures shutdownHooks == 1
      ensures old(registeredFatalCheck) ==> shutdownHooks == old(shutdownHooks)
      ensures exceptionHandler == Some(OwnExceptionHook)
      ensures errorHandler == Some(OwnErrorHook)
      ensures origErrorHandler == (if old(origErrorHandler).Some? then old(origErrorHandler) else old(errorHandler))
      ensures errorList == old(errorList)
      ensures fatalHandler == old(fatalHandler) && displayHandler == old(displayHandler)
      ensures buffers == old(buffers) && lastError == old(lastError)
      ensures errorReporting == old(errorReporting) && displays == old(displays)
    {
      this.showArgs := showArgs;
      if !registeredFatalCheck {
        registeredFatalCheck := true;
        shutdownHooks := shutdownHooks + 1;
      }
      exceptionHandler := Some(OwnExceptionHook);
      var lastHandler := errorHandler;
      errorHandler := Some(OwnErrorHook);
      if origErrorHandler.None? {
        origErrorHandler := lastHandler;
      }
    }

    /** reset: reinstalls the saved error handler, if any, and clears the
        fatal handler; the list and the registration are kept. */
    method Reset()
      requires Valid()
      modifies this`errorHandler, this`fatalHandler
      ensures Valid()
      ensures errorHandler == (if origErrorHandler.Some? then origErrorHandler else old(errorHandler))
      ensures fatalHandler.None?
      ensures origErrorHandler == old(origErrorHandler)
      ensures registeredFatalCheck == old(registeredFatalCheck) && shutdownHooks == old(shutdownHooks)
      ensures errorList == old(errorList) && showArgs == old(showArgs) && displayHandler == old(displayHandler)
      ensures exceptionHandler == old(exceptionHandler) && buffers == old(buffers)
      ensures lastError == old(lastError) && errorReporting == old(errorReporting) && displays == old(displays)
    {
      if origErrorHandler.Some? {
        errorHandler := origErrorHandler;
      }
      fatalHandler := None;
    }

    /** set_display_handler */
    method SetDisplayHandler(handler: Callable)
      modifies this`displayHandler
      ensures displayHandler == Some(handler)
      ensures registeredFatalCheck == old(registeredFatalCheck) && shutdownHooks == old(shutdownHooks)
      ensures origErrorHandler == old(origErrorHandler) && fatalHandler == old(fatalHandler)
      ensures errorList == old(errorList) && showArgs == old(showArgs)
      ensures errorHandler == old(errorHandler) && exceptionHandler == old(exceptionHandler)
      ensures buffers == old(buffers) && lastError == old(lastError)
      ensures errorReporting == old(errorReporting) && displays == old(displays)
    {
      displayHandler := Some(handler);
    }

    /** display: hands the list and the buffer to the display handler when one
        is set, and prints the built-in page otherwise; the call is recorded. */
    method Display(errlist: seq<Value>, buffer: Option<string>)
      modifies this`displays
      ensures displays == old(displays) + [DisplayCall(errlist, buffer, displayHandler)]
      ensures HostKept() && displayHandler == old(displayHandler)
      ensures errorList == old(errorList) && buffers == old(buffers)
    {
      displays := displays + [DisplayCall(errlist, buffer, displayHandler)];
    }

    /** ob_get_clean_all: pops every buffer level; returns null after a memory
        error, and otherwise the levels' text, innermost level first. */
    method ObGetCleanAll() returns (r: Option<string>)
      modifies this`buffers
      ensures r == Drained(old(buffers), lastError)
      ensures buffers == []
      ensures HostKept() && displayHandler == old(displayHandler)
      ensures errorList == old(errorList) && displays == old(displays)
    {
      var level := |buffers|;
      if IsMemoryError(lastError) {
        for i := 0 to level
          invariant buffers == old(buffers)[..level - i]
          invariant HostKept() && displayHandler == old(displayHandler)
          invariant errorList == old(errorList) && displays == old(displays)
        {
          buffers := buffers[..|buffers| - 1];
        }
        return None;
      }
      var buff := "";
      for i := 0 to level
        invariant buffers == old(buffers)[..level - i]
        invariant buff == InnermostFirst(old(buffers)[level - i..])
        invariant HostKept() && displayHandler == old(displayHandler)
        invariant errorList == old(errorList) && displays == old(displays)
      {
        var top := buffers[|buffers| - 1];
        assert old(buffers)[level - i - 1..][1..] == old(buffers)[level - i..];
        buffers := buffers[..|buffers| - 1];
        buff := buff + top;
      }
      r := Some(buff);
    }

    /** The error hook installed by initialize, as the host runs it: an
        error outside the error_reporting mask is ignored; otherwise one
        'php-error' record is appended, and a fatal kind drains the buffers,
        displays the list and exits with errno, while a non-fatal kind lets
        execution continue. The host empties its error-handler slot while
        the hook runs and refills it afterwards only if it is still empty;
        the record's generate_trace finds it empty, installs its no-op
        handler and has nothing to put back, so after a recorded error the
        no-op handler is the one installed. */
    method ErrorHook(errno: Int64, errstr: string, errfile: Option<string>, errline: Option<int>,
                     backtrace: seq<string>) returns (outcome: Outcome)
      modifies this`errorList, this`errorHandler, this`buffers, this`displays
      ensures !AndNonZero(errorReporting, errno) ==>
        && outcome == Continue && errorList == old(errorList) && buffers == old(buffers)
        && displays == old(displays) && errorHandler == old(errorHandler)
      ensures AndNonZero(errorReporting, errno) ==>
        && errorList == old(errorList) + [ErrorRecord(errno as int, errstr, errfile, errline, backtrace)]
        && errorHandler == Some(TraceSilencer)
      ensures AndNonZero(errorReporting, errno) && IsErrnoFatal(errno as int) ==>
        && outcome == Exit(errno as int)
        && buffers == []
        && displays == old(displays) + [DisplayCall(Enumerate(errorList), Drained(old(buffers), lastError), displayHandler)]
      ensures AndNonZero(errorReporting, errno) && !IsErrnoFatal(errno as int) ==>
        outcome == Continue && buffers == old(buffers) && displays == old(displays)
      ensures HostKept() && displayHandler == old(displayHandler)
    {
      var installed := errorHandler;
      errorHandler := None;
      if !AndNonZero(errorReporting, errno) {
        errorHandler := installed;
        return Continue;
      }
      RecordError(errno as int, errstr, errfile, errline, backtrace);
      if IsErrnoFatal(errno as int) {
        DrainAndDisplay();
        return Exit(errno as int);
      }
      // the slot is no longer empty, so the host leaves the no-op handler in it
      return Continue;
    }

    /** The error hook's record, built while the host's handler slot is
        empty: its trace installs the no-op handler there. */
    method RecordError(errno: int, errstr: string, errfile: Option<string>, errline: Option<int>,
                       backtrace: seq<string>)
      requires errorHandler.None?
      modifies this`errorList, this`errorHandler
      ensures errorList == old(errorList) + [ErrorRecord(errno, errstr, errfile, errline, backtrace)]
      ensures errorHandler == Some(TraceSilencer)
      ensures HostKept() && displayHandler == old(displayHandler)
    {
      var error := ErrorRecord(errno, errstr, errfile, errline, backtrace);
      errorHandler := AfterTrace(errorHandler);
      errorList := errorList + [error];
    }

    /** The fatal tail of the error hook: drains the buffers and displays
        the whole list with what they held. */
    method DrainAndDisplay()
      modifies this`buffers, this`displays
      ensures buffers == []
      ensures displays == old(displays) + [DisplayCall(Enumerate(errorList), Drained(old(buffers), lastError), displayHandler)]
      ensures errorList == old(errorList) && errorHandler == old(errorHandler)
      ensures HostKept() && displayHandler == old(displayHandler)
    {
      var buffer := ObGetCleanAll();
      var errlist := Enumerate(errorList);
      Display(errlist, buffer);
    }

    /** The host raises an E_WARNING: the controller's error hook, when it is
        the installed handler, handles it as above; the no-op handler
        swallows it. */
    method Warn(d: Diagnostic)
      modifies this`errorList, this`errorHandler, this`buffers, this`displays
      ensures errorList == old(errorList) + WarningRecords(old(errorHandler), errorReporting, d)
      ensures errorHandler == HandlerAfterWarning(old(errorHandler), errorReporting)
      ensures buffers == old(buffers) && displays == old(displays)
      ensures HostKept() && displayHandler == old(displayHandler)
    {
      if errorHandler == Some(OwnErrorHook) {
        WarningsAndNoticeAreNotFatal(E_WARNING);
        var _ := ErrorHook(E_WARNING as Int64, d.message, Some(d.file), Some(d.line), d.backtrace);
      }
    }

    /** The exception hook installed by initialize: drains the buffers,
        appends one 'php-exception' record whose trace is the exception's
        trace without set 'args', displays the list and exits with the
        status the code gives. The closure does not bind `$fatal_handler`,
        so reading it raises the warning `undefinedHandler` after the list
        is enumerated: the installed error hook records it after the
        exception, and it is not in the displayed list. */
    method ExceptionHook(ex: ThrownException, undefinedHandler: Diagnostic) returns (outcome: Outcome)
      modifies this`errorList, this`errorHandler, this`buffers, this`displays
      ensures errorList == old(errorList) + [ExceptionRecord(ex)]
        + WarningRecords(old(errorHandler), errorReporting, undefinedHandler)
      ensures buffers == []
      ensures displays == old(displays)
        + [DisplayCall(Enumerate(old(errorList) + [ExceptionRecord(ex)]), Drained(old(buffers), lastError), displayHandler)]
      ensures outcome == Exit(ExitStatus(ex.code))
      ensures errorHandler == HandlerAfterWarning(old(errorHandler), errorReporting)
      ensures HostKept() && displayHandler == old(displayHandler)
    {
      var buffer := ObGetCleanAll();
      var trace: seq<Value> := [];
      for k := 0 to |ex.trace|
        invariant |trace| == k
        invariant forall j :: 0 <= j < k ==> trace[j] == Arr(StripArgs(ex.trace[j]))
      {
        trace := trace + [Arr(StripArgs(ex.trace[k]))];
      }
      assert trace == ExceptionTrace(ex.trace);
      var error := NewSerializedError(Str("php-exception"), Str(ex.className), Str(ex.message), Str(ex.file),
                                      Some(ex.line), CodeValue(ex.code), Arr(ListOf(trace)), []);
      errorList := errorList + [error];
      var errlist := Enumerate(errorList);
      Warn(undefinedHandler);
      Display(errlist, buffer);
      return Exit(ExitStatus(ex.code));
    }

    /** The shutdown hook registered by initialize. With no last error,
        reading its 'type' offset raises the warning `nullOffset` and the
        hook ends. With a last error that is not a hard fault it does
        nothing. With a hard fault it drains the buffers twice (so the
        buffer it displays is always empty, or null after a memory error),
        appends one 'php-fatal' record, enumerates the list, raises the
        warning `undefinedHandler` for the unbound `$fatal_handler`, displays
        the list, raises `undefinedStatus` for the unbound `$errno` and exits;
        the second warning always meets the no-op handler or the mask and is
        never recorded. */
    method ShutdownHook(backtrace: seq<string>, nullOffset: Diagnostic, undefinedHandler: Diagnostic,
                        undefinedStatus: Diagnostic) returns (outcome: Outcome)
      modifies this`errorList, this`errorHandler, this`buffers, this`displays
      ensures lastError.None? ==>
        && outcome == Continue
        && errorList == old(errorList) + WarningRecords(old(errorHandler), errorReporting, nullOffset)
        && errorHandler == HandlerAfterWarning(old(errorHandler), errorReporting)
        && buffers == old(buffers) && displays == old(displays)
      ensures lastError.Some? && lastError.value.kind !in HardFaultKinds ==>
        && outcome == Continue && errorList == old(errorList) && errorHandler == old(errorHandler)
        && buffers == old(buffers) && displays == old(displays)
      ensures lastError.Some? && lastError.value.kind in HardFaultKinds ==>
        && outcome == ExitUndefinedStatus
        && errorList == old(errorList) + [FatalRecord(lastError.value, backtrace)]
           + WarningRecords(AfterTrace(old(errorHandler)), errorReporting, undefinedHandler)
        && buffers == []
        && displays == old(displays)
           + [DisplayCall(Enumerate(old(errorList) + [FatalRecord(lastError.value, backtrace)]),
                          Drained([], lastError), displayHandler)]
        && errorHandler == HandlerAfterWarning(AfterTrace(old(errorHandler)), errorReporting)
      ensures HostKept() && displayHandler == old(displayHandler)
    {
      var error := lastError;
      if error.None? {
        Warn(nullOffset);
        return Continue;
      }
      if error.value.kind in HardFaultKinds {
        ReportHardFault(error.value, backtrace, undefinedHandler, undefinedStatus);
        return ExitUndefinedStatus;
      }
      return Continue;
    }

    /** The hard-fault branch's two ob_get_clean_all calls: the second finds
        no level left, so it returns the empty text, or null after a memory
        error. */
    method DrainTwice() returns (buffer: Option<string>)
      modifies this`buffers
      ensures buffer == Drained([], lastError) && buffers == []
      ensures errorList == old(errorList) && errorHandler == old(errorHandler) && displays == old(displays)
      ensures HostKept() && displayHandler == old(displayHandler)
    {
      var _ := ObGetCleanAll();
      buffer := ObGetCleanAll();
    }

    /** The hard-fault branch's record: appends the 'php-fatal' record (whose
        trace installs the no-op handler in an empty slot), enumerates the
        list, and then raises the warning for the unbound `$fatal_handler`. */
    method RecordHardFault(err: HostError, backtrace: seq<string>, undefinedHandler: Diagnostic)
      returns (errlist: seq<Value>)
      modifies this`errorList, this`errorHandler, this`buffers, this`displays
      ensures errorList == old(errorList) + [FatalRecord(err, backtrace)]
        + WarningRecords(AfterTrace(old(errorHandler)), errorReporting, undefinedHandler)
      ensures errlist == Enumerate(old(errorList) + [FatalRecord(err, backtrace)])
      ensures errorHandler == HandlerAfterWarning(AfterTrace(old(errorHandler)), errorReporting)
      ensures buffers == old(buffers) && displays == old(displays)
      ensures HostKept() && displayHandler == old(displayHandler)
    {
      var record := FatalRecord(err, backtrace);
      errorHandler := AfterTrace(errorHandler);
      errorList := errorList + [record];
      errlist := Enumerate(errorList);
      Warn(undefinedHandler);
    }

    /** The hard-fault branch of the shutdown hook, for the last error err. */
    method ReportHardFault(err: HostError, backtrace: seq<string>, undefinedHandler: Diagnostic,
                           undefinedStatus: Diagnostic)
      modifies this`errorList, this`errorHandler, this`buffers, this`displays
      ensures errorList == old(errorList) + [FatalRecord(err, backtrace)]
        + WarningRecords(AfterTrace(old(errorHandler)), errorReporting, undefinedHandler)
      ensures buffers == []
      ensures displays == old(displays)
        + [DisplayCall(Enumerate(old(errorList) + [FatalRecord(err, backtrace)]), Drained([], lastError), displayHandler)]
      ensures errorHandler == HandlerAfterWarning(AfterTrace(old(errorHandler)), errorReporting)
    {
      var installed := errorHandler;
      var buffer := DrainTwice();
      var errlist := RecordHardFault(err, backtrace, undefinedHandler);
      Display(errlist, buffer);
      WarnAgain(AfterTrace(installed), undefinedStatus);
    }

    /** A warning raised after a first one (with the handler `handler` then
        installed) is swallowed: nothing changes. */
    method WarnAgain(handler: Option<Callable>, d: Diagnostic)
      requires errorHandler == HandlerAfterWarning(handler, errorReporting)
      modifies this`errorList, this`errorHandler, this`buffers, this`displays
      ensures errorList == old(errorList) && errorHandler == old(errorHandler)
      ensures buffers == old(buffers) && displays == old(displays)
      ensures HostKept() && displayHandler == old(displayHandler)
    {
      SecondWarningDropped(handler, errorReporting, d);
      Warn(d);
    }
  }

  // ------------------------------------------------------------ scenarios

  /** Calling initialize three times registers the shutdown hook once, and
      reset then reinstalls the handler that was active before the first call. */
  method InitializeThriceThenReset(previous: Callable) returns (c: ErrorHandlerController)
    ensures c.Valid() && c.shutdownHooks == 1
    ensures c.errorHandler == Some(previous) && c.origErrorHandler == Some(previous)
    ensures c.errorList == []
  {
    c := new ErrorHandlerController(Some(previous), [], None, -1);
    c.Initialize(true, false, false);
    c.Initialize(true, false, false);
    c.Initialize(true, false, true);
    c.Reset();
  }

  /** With no handler active before, a second initialize saves the
      controller's own hook as the original, so reset leaves it installed. */
  method ResetAfterTwoInitializeFromNoHandler() returns (c: ErrorHandlerController)
    ensures c.origErrorHandler == Some(OwnErrorHook)
    ensures c.errorHandler == Some(OwnErrorHook)
  {
    c := new ErrorHandlerController(None, [], None, -1);
    c.Initialize(true, false, false);
    c.Initialize(true, false, false);
    c.Reset();
  }

  /** Under error_reporting(E_ALL), one E_WARNING handled by the error hook
      leaves the no-op handler installed, so a later warning adds no record. */
  method WarningSilencesLaterErrors(first: Diagnostic, later: Diagnostic) returns (c: ErrorHandlerController)
    ensures c.errorHandler == Some(TraceSilencer)
    ensures c.errorList == [WarningRecord(first)]
  {
    c := new ErrorHandlerController(None, [], None, E_ALL as Int64);
    c.Initialize(true, false, false);
    AllMaskPasses(WARNING);
    WarningsAndNoticeAreNotFatal(E_WARNING);
    var _ := c.ErrorHook(E_WARNING as Int64, first.message, Some(first.file), Some(first.line), first.backtrace);
    c.Warn(later);
  }
}
