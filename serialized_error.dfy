/** The captured-error record (SerializedError): its constructor's
    normalisation rules and its get_assoc projection. */
module SerializedErrors {
  import opened Php
  import TraceText

  /** The seven private fields, as the getters return them; a field the
      constructor leaves unset reads as null. */
  datatype SerializedError = SerializedError(
    kind: Value, name: Value, msg: Value, file: Value, code: Value, line: Value, trace: Value)

  /** The record built with a null type: nothing is set. */
  const Unset := SerializedError(Null, Null, Null, Null, Null, Null, Null)

  /** get_called_class() while a record generates its own trace. */
  const CapturingClass := "MicroError\\SerializedError"

  function StrList(xs: seq<string>): (r: seq<Value>)
    ensures |r| == |xs| && forall k :: 0 <= k < |xs| ==> r[k] == Str(xs[k])
  {
    seq(|xs|, k requires 0 <= k < |xs| => Str(xs[k]))
  }

  /** The array generate_trace(null, ...) returns for the printed backtrace:
      the offset is null + 1, so the first frame (the constructor's own call)
      is skipped. */
  function GeneratedTrace(backtrace: seq<string>): Value
  {
    Arr(ListOf(StrList(TraceText.Trace(backtrace, 0, CapturingClass))))
  }

  /** `new SerializedError($type, $name, $msg, $file, $line, $code, $trace)`
      where `backtrace` is what debug_print_backtrace would print at this
      point. */
  function NewSerializedError(
    kind: Value, name: Value, msg: Value, file: Value, line: Option<int>, code: Value, trace: Value,
    backtrace: seq<string>): (e: SerializedError)
    ensures kind == Null ==> e == Unset
    ensures kind != Null ==>
      && e.kind == kind && e.name == name && e.msg == msg && e.file == file && e.code == code
      && (line.None? ==> e.line == Null)
      && (line.Some? ==> e.line == Int(line.value))
      && (trace.Arr? ==> e.trace == trace)
      && (trace == Bool(false) ==> e.trace == Null)
      && (!trace.Arr? && trace != Bool(false) ==> e.trace == GeneratedTrace(backtrace))
  {
    if kind == Null then Unset
    else
      SerializedError(
        kind, name, msg, file, code,
        if line.Some? then Int(line.value) else Null,
        if trace.Arr? then trace
        else if trace != Bool(false) then GeneratedTrace(backtrace)
        else Null)
  }

  /** A generated trace is a list of strings, at most one per printed frame
      after the first. */
  lemma GeneratedTraceShape(backtrace: seq<string>)
    ensures var t := GeneratedTrace(backtrace);
      && t.Arr?
      && |t.entries| <= (if TraceText.FrameCount(backtrace) > 1 then TraceText.FrameCount(backtrace) - 1 else 0)
      && forall k :: 0 <= k < |t.entries| ==> t.entries[k].0 == IntKey(k) && t.entries[k].1.Str?
  {
    TraceText.TraceLength(backtrace, 0, CapturingClass);
  }

  /** The keys get_assoc emits, in order. */
  const AssocKeys: seq<string> := ["type", "name", "code", "msg", "file", "line", "trace"]

  /** `$this->{"get_$k"}()` */
  function Get(e: SerializedError, k: string): Value
  {
    match k
    case "type" => e.kind
    case "name" => e.name
    case "code" => e.code
    case "msg" => e.msg
    case "file" => e.file
    case "line" => e.line
    case "trace" => e.trace
    case _ => Null
  }

  /** The foreach of get_assoc over a list of keys. */
  function AssocEntries(e: SerializedError, keys: seq<string>): (r: seq<(Key, Value)>)
    ensures |r| == |keys|
    ensures forall i :: 0 <= i < |keys| ==> r[i] == (StrKey(keys[i]), Get(e, keys[i]))
  {
    if keys == [] then []
    else AssocEntries(e, keys[..|keys| - 1]) + [(StrKey(keys[|keys| - 1]), Get(e, keys[|keys| - 1]))]
  }

  /** get_assoc: the record as an associative array with exactly the keys
      type, name, code, msg, file, line, trace in that order, each holding
      its getter's value. */
  function GetAssoc(e: SerializedError): (r: Value)
    ensures r.Arr? && |r.entries| == 7
    ensures r.entries[0] == (StrKey("type"), e.kind)
    ensures r.entries[1] == (StrKey("name"), e.name)
    ensures r.entries[2] == (StrKey("code"), e.code)
    ensures r.entries[3] == (StrKey("msg"), e.msg)
    ensures r.entries[4] == (StrKey("file"), e.file)
    ensures r.entries[5] == (StrKey("line"), e.line)
    ensures r.entries[6] == (StrKey("trace"), e.trace)
  {
    Arr(AssocEntries(e, AssocKeys))
  }

  /** Reads a record back from an associative array holding the seven keys. */
  function FromAssoc(v: Value): Option<SerializedError>
  {
    if !v.Arr? then None
    else
      var es := v.entries;
      match (Lookup(es, StrKey("type")), Lookup(es, StrKey("name")), Lookup(es, StrKey("code")),
             Lookup(es, StrKey("msg")), Lookup(es, StrKey("file")), Lookup(es, StrKey("line")),
             Lookup(es, StrKey("trace")))
      case (Some(t), Some(n), Some(c), Some(m), Some(f), Some(l), Some(tr)) =>
        Some(SerializedError(t, n, m, f, c, l, tr))
      case _ => None
  }

  /** The associative array determines the record: reading it back gives the
      record that produced it. */
  lemma AssocRoundTrip(e: SerializedError)
    ensures FromAssoc(GetAssoc(e)) == Some(e)
  {
    var es := GetAssoc(e).entries;
    assert Lookup(es, StrKey("type")) == Some(e.kind);
    assert Lookup(es, StrKey("trace")) == Some(e.trace);
  }

  /** Distinct records have distinct associative arrays. */
  lemma AssocInjective(e1: SerializedError, e2: SerializedError)
    requires GetAssoc(e1) == GetAssoc(e2)
    ensures e1 == e2
  {
    AssocRoundTrip(e1);
    AssocRoundTrip(e2);
  }
}
