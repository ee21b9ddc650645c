/** Severity classification of PHP error numbers: the `fatalmap` table of
    SerializedError, `errno2const` and `is_errno_fatal`. */
module Severity {
  import opened Php

  const E_ERROR: int := 1
  const E_WARNING: int := 2
  const E_PARSE: int := 4
  const E_NOTICE: int := 8
  const E_CORE_ERROR: int := 16
  const E_CORE_WARNING: int := 32
  const E_COMPILE_ERROR: int := 64
  const E_COMPILE_WARNING: int := 128
  const E_USER_ERROR: int := 256
  const E_USER_WARNING: int := 512
  const E_USER_NOTICE: int := 1024
  const E_STRICT: int := 2048
  const E_RECOVERABLE_ERROR: int := 4096
  const E_DEPRECATED: int := 8192
  const E_USER_DEPRECATED: int := 16384
  const E_ALL: int := 32767

  /** The error-level constants by name; `Name` is the identifier the map
      uses as its key and `Value` is what constant($name) gives. */
  datatype ErrorConst =
    | ERROR | WARNING | PARSE | NOTICE | CORE_ERROR | CORE_WARNING
    | COMPILE_ERROR | COMPILE_WARNING | USER_ERROR | USER_WARNING | USER_NOTICE
    | STRICT | RECOVERABLE_ERROR | DEPRECATED | USER_DEPRECATED | ALL
  {
    function Value(): int
    {
      match this
      case ERROR => E_ERROR
      case WARNING => E_WARNING
      case PARSE => E_PARSE
      case NOTICE => E_NOTICE
      case CORE_ERROR => E_CORE_ERROR
      case CORE_WARNING => E_CORE_WARNING
      case COMPILE_ERROR => E_COMPILE_ERROR
      case COMPILE_WARNING => E_COMPILE_WARNING
      case USER_ERROR => E_USER_ERROR
      case USER_WARNING => E_USER_WARNING
      case USER_NOTICE => E_USER_NOTICE
      case STRICT => E_STRICT
      case RECOVERABLE_ERROR => E_RECOVERABLE_ERROR
      case DEPRECATED => E_DEPRECATED
      case USER_DEPRECATED => E_USER_DEPRECATED
      case ALL => E_ALL
    }

    function Name(): string
    {
      match this
      case ERROR => "E_ERROR"
      case WARNING => "E_WARNING"
      case PARSE => "E_PARSE"
      case NOTICE => "E_NOTICE"
      case CORE_ERROR => "E_CORE_ERROR"
      case CORE_WARNING => "E_CORE_WARNING"
      case COMPILE_ERROR => "E_COMPILE_ERROR"
      case COMPILE_WARNING => "E_COMPILE_WARNING"
      case USER_ERROR => "E_USER_ERROR"
      case USER_WARNING => "E_USER_WARNING"
      case USER_NOTICE => "E_USER_NOTICE"
      case STRICT => "E_STRICT"
      case RECOVERABLE_ERROR => "E_RECOVERABLE_ERROR"
      case DEPRECATED => "E_DEPRECATED"
      case USER_DEPRECATED => "E_USER_DEPRECATED"
      case ALL => "E_ALL"
    }
  }

  /** An ordered table of constant names and fatal flags, as the keys and
      values of a PHP array in declaration order. */
  datatype Table = End | Entry(name: ErrorConst, fatal: bool, rest: Table)
  {
    /** The table has an entry named n. */
    predicate Lists(n: ErrorConst)
    {
      match this
      case End => false
      case Entry(m, _, rest) => m == n || rest.Lists(n)
    }
  }

  /** The `fatalmap` array. E_USER_WARNING has no entry. */
  const FatalMap: Table :=
    Entry(ERROR, true,
    Entry(WARNING, false,
    Entry(PARSE, true,
    Entry(NOTICE, false,
    Entry(CORE_ERROR, true,
    Entry(CORE_WARNING, false,
    Entry(COMPILE_ERROR, true,
    Entry(COMPILE_WARNING, false,
    Entry(USER_ERROR, true,
    Entry(USER_NOTICE, false,
    Entry(STRICT, false,
    Entry(RECOVERABLE_ERROR, false,
    Entry(DEPRECATED, false,
    Entry(USER_DEPRECATED, false,
    End))))))))))))))

  /** The kinds the map lists as fatal (also the shutdown hook's hard faults). */
  const HardFaultKinds: set<int> := {E_ERROR, E_PARSE, E_CORE_ERROR, E_COMPILE_ERROR, E_USER_ERROR}

  /** The kinds the map lists as non-fatal. */
  const SoftKinds: set<int> := {
    E_WARNING, E_NOTICE, E_CORE_WARNING, E_COMPILE_WARNING, E_USER_NOTICE,
    E_STRICT, E_RECOVERABLE_ERROR, E_DEPRECATED, E_USER_DEPRECATED
  }

  /** The foreach of errno2const: the first name in the table whose constant
      equals errno, or nothing. */
  function FirstNamed(t: Table, errno: int): Option<ErrorConst>
  {
    match t
    case End => None
    case Entry(n, _, rest) => if n.Value() == errno then Some(n) else FirstNamed(rest, errno)
  }

  /** The lookup finds a listed name whose constant is errno, and finds
      nothing only when no listed name has that constant. */
  lemma {:induction false} FirstNamedSpec(t: Table, errno: int)
    ensures FirstNamed(t, errno).None? <==> forall n :: t.Lists(n) ==> n.Value() != errno
    ensures FirstNamed(t, errno).Some? ==>
      t.Lists(FirstNamed(t, errno).value) && FirstNamed(t, errno).value.Value() == errno
  {
    match t
    case End =>
    case Entry(n, _, rest) =>
      FirstNamedSpec(rest, errno);
  }

  /** No two constants share a value. */
  lemma ValueInjective(a: ErrorConst, b: ErrorConst)
    requires a.Value() == b.Value()
    ensures a == b
  {
  }

  /** errno2const: the name of the error-level constant equal to errno (null when none). */
  function Errno2Const(errno: int): (r: Option<ErrorConst>)
    ensures r.Some? ==> FatalMap.Lists(r.value) && r.value.Value() == errno
  {
    FirstNamedSpec(FatalMap, errno);
    FirstNamed(FatalMap, errno)
  }

  /** `$fatal[$const]` guarded by isset: the flag of the first entry named n. */
  function FlagOf(t: Table, n: ErrorConst): Option<bool>
  {
    match t
    case End => None
    case Entry(m, f, rest) => if m == n then Some(f) else FlagOf(rest, n)
  }

  /** is_errno_fatal: the map's flag for errno's name; fatal when errno has no entry. */
  function IsErrnoFatal(errno: int): (r: bool)
    ensures Errno2Const(errno).None? ==> r
    ensures !r ==> FlagOf(FatalMap, Errno2Const(errno).value) == Some(false)
  {
    match Errno2Const(errno)
    case Some(n) => (match FlagOf(FatalMap, n) case Some(f) => f case None => true)
    case None => true
  }

  /** The map lists every constant but E_USER_WARNING and E_ALL. */
  lemma MapNames()
    ensures forall n :: FatalMap.Lists(n) <==> n != USER_WARNING && n != ALL
  {
    forall n
      ensures FatalMap.Lists(n) <==> n != USER_WARNING && n != ALL
    {
      match n
      case ERROR => assert FatalMap.Lists(ERROR);
      case WARNING => assert FatalMap.Lists(WARNING);
      case PARSE => assert FatalMap.Lists(PARSE);
      case NOTICE => assert FatalMap.Lists(NOTICE);
      case CORE_ERROR => assert FatalMap.Lists(CORE_ERROR);
      case CORE_WARNING => assert FatalMap.Lists(CORE_WARNING);
      case COMPILE_ERROR => assert FatalMap.Lists(COMPILE_ERROR);
      case COMPILE_WARNING => assert FatalMap.Lists(COMPILE_WARNING);
      case USER_ERROR => assert FatalMap.Lists(USER_ERROR);
      case USER_WARNING => assert !FatalMap.Lists(USER_WARNING);
      case USER_NOTICE => assert FatalMap.Lists(USER_NOTICE);
      case STRICT => assert FatalMap.Lists(STRICT);
      case RECOVERABLE_ERROR => assert FatalMap.Lists(RECOVERABLE_ERROR);
      case DEPRECATED => assert FatalMap.Lists(DEPRECATED);
      case USER_DEPRECATED => assert FatalMap.Lists(USER_DEPRECATED);
      case ALL => assert !FatalMap.Lists(ALL);
    }
  }

  /** errno2const names exactly the listed constant whose value is errno. */
  lemma Errno2ConstIff(errno: int, name: ErrorConst)
    ensures Errno2Const(errno) == Some(name) <==> FatalMap.Lists(name) && name.Value() == errno
  {
    FirstNamedSpec(FatalMap, errno);
    if Errno2Const(errno).Some? && name.Value() == errno {
      ValueInjective(Errno2Const(errno).value, name);
    }
  }

  /** A number whose first listed name is n, with flag f, is classified as n
      and f. */
  lemma Listed(errno: int, n: ErrorConst, f: bool)
    requires FirstNamed(FatalMap, errno) == Some(n) && FlagOf(FatalMap, n) == Some(f)
    ensures Errno2Const(errno) == Some(n) && IsErrnoFatal(errno) == f
  {
  }

  /** is_errno_fatal is false exactly for the nine non-fatal kinds of the map;
      the five hard faults and every unmapped number (E_USER_WARNING, E_ALL, ...)
      count as fatal. */
  lemma IsErrnoFatalIff(errno: int)
    ensures errno in SoftKinds ==> !IsErrnoFatal(errno)
    ensures errno !in SoftKinds ==> IsErrnoFatal(errno)
  {
    if errno in HardFaultKinds {
      assert errno !in SoftKinds;
      HardFaultsAreFatal(errno);
    } else if errno in SoftKinds {
      SoftKindsAreNotFatal(errno);
    } else {
      UnmappedIsFatal(errno);
    }
  }

  /** The nine non-fatal kinds have a name and are not fatal. */
  lemma SoftKindsAreNotFatal(errno: int)
    requires errno in SoftKinds
    ensures !IsErrnoFatal(errno) && Errno2Const(errno).Some?
  {
    if errno in {E_WARNING, E_NOTICE, E_CORE_WARNING, E_COMPILE_WARNING} {
      WarningsAndNoticeAreNotFatal(errno);
    } else if errno in {E_USER_NOTICE, E_STRICT} {
      NoticesAreNotFatal(errno);
    } else {
      RecoverableAndDeprecatedAreNotFatal(errno);
    }
  }

  /** E_WARNING, E_NOTICE and the core and compile warnings have a name and
      are not fatal. */
  lemma WarningsAndNoticeAreNotFatal(errno: int)
    requires errno in {E_WARNING, E_NOTICE, E_CORE_WARNING, E_COMPILE_WARNING}
    ensures !IsErrnoFatal(errno) && Errno2Const(errno).Some?
  {
    if errno == E_WARNING { Listed(2, WARNING, false); }
    else if errno == E_NOTICE { Listed(8, NOTICE, false); }
    else if errno == E_CORE_WARNING { Listed(32, CORE_WARNING, false); }
    else { Listed(128, COMPILE_WARNING, false); }
  }

  lemma NoticesAreNotFatal(errno: int)
    requires errno in {E_USER_NOTICE, E_STRICT}
    ensures !IsErrnoFatal(errno) && Errno2Const(errno).Some?
  {
    if errno == E_USER_NOTICE { Listed(1024, USER_NOTICE, false); }
    else { Listed(2048, STRICT, false); }
  }

  lemma RecoverableAndDeprecatedAreNotFatal(errno: int)
    requires errno in {E_RECOVERABLE_ERROR, E_DEPRECATED, E_USER_DEPRECATED}
    ensures !IsErrnoFatal(errno) && Errno2Const(errno).Some?
  {
    if errno == E_RECOVERABLE_ERROR { Listed(4096, RECOVERABLE_ERROR, false); }
    else if errno == E_DEPRECATED { Listed(8192, DEPRECATED, false); }
    else { Listed(16384, USER_DEPRECATED, false); }
  }

  /** The shutdown hook's hard faults have a name and are fatal. */
  lemma HardFaultsAreFatal(errno: int)
    requires errno in HardFaultKinds
    ensures IsErrnoFatal(errno) && Errno2Const(errno).Some?
  {
    if errno == E_ERROR { Listed(1, ERROR, true); }
    else if errno == E_PARSE { Listed(4, PARSE, true); }
    else if errno == E_CORE_ERROR { Listed(16, CORE_ERROR, true); }
    else if errno == E_COMPILE_ERROR { Listed(64, COMPILE_ERROR, true); }
    else { Listed(256, USER_ERROR, true); }
  }

  /** error_reporting(E_ALL) lets every error-level constant through. */
  lemma AllMaskPasses(n: ErrorConst)
    ensures AndNonZero(E_ALL as Int64, n.Value() as Int64)
  {
    assert Pow2(15) - 1 == E_ALL;
    match n
    case ERROR => LowOnesMeetPower(15, 0, 64);
    case WARNING => LowOnesMeetPower(15, 1, 64);
    case PARSE => LowOnesMeetPower(15, 2, 64);
    case NOTICE => LowOnesMeetPower(15, 3, 64);
    case CORE_ERROR => LowOnesMeetPower(15, 4, 64);
    case CORE_WARNING => LowOnesMeetPower(15, 5, 64);
    case COMPILE_ERROR => LowOnesMeetPower(15, 6, 64);
    case COMPILE_WARNING => LowOnesMeetPower(15, 7, 64);
    case USER_ERROR => LowOnesMeetPower(15, 8, 64);
    case USER_WARNING => LowOnesMeetPower(15, 9, 64);
    case USER_NOTICE => LowOnesMeetPower(15, 10, 64);
    case STRICT => LowOnesMeetPower(15, 11, 64);
    case RECOVERABLE_ERROR => LowOnesMeetPower(15, 12, 64);
    case DEPRECATED => LowOnesMeetPower(15, 13, 64);
    case USER_DEPRECATED => LowOnesMeetPower(15, 14, 64);
    case ALL =>
  }

  /** A mask without the E_NOTICE bit stops notices but lets warnings
      through, and a zero mask stops every error. */
  lemma NoticeMask(errno: Int64)
    ensures !AndNonZero((E_ALL - E_NOTICE) as Int64, E_NOTICE as Int64)
    ensures AndNonZero((E_ALL - E_NOTICE) as Int64, E_WARNING as Int64)
    ensures !AndNonZero(0, errno)
  {
    NoCommonBitWithZero(Unsigned(errno), 64);
    NoCommonBitWithOne(4094, 61);
    assert CommonBit(32759, 8, 64) == CommonBit(4094, 1, 61);
  }

  /** A number with no entry in the map has no name and counts as fatal. */
  lemma UnmappedIsFatal(errno: int)
    requires errno !in HardFaultKinds + SoftKinds
    ensures Errno2Const(errno) == None && IsErrnoFatal(errno)
  {
    MapNames();
    FirstNamedSpec(FatalMap, errno);
  }
}
