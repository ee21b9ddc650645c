/** The text-parsing half of SerializedError::generate_trace: the lines that
    debug_print_backtrace printed are walked in order, frame lines ("#...")
    are counted, the first offset+1 frames and the frames that mention the
    capturing class are dropped, and each kept frame loses its "#i " token
    and surrounding white space. */
module TraceText {
  import opened Php

  /** `"#" == substr($line, 0, 1)` */
  predicate IsFrameLine(line: string)
  {
    |line| > 0 && line[0] == '#'
  }

  /** The number of frame lines. */
  function FrameCount(lines: seq<string>): nat
  {
    if lines == [] then 0
    else FrameCount(lines[..|lines| - 1]) + (if IsFrameLine(lines[|lines| - 1]) then 1 else 0)
  }

  /** The token "#i " that prefixes frame i. */
  function FrameToken(i: nat): string
  {
    "#" + NatToDecimal(i) + " "
  }

  /** The entry recorded for a kept frame line that is frame number i. */
  function CleanFrame(line: string, i: nat): (r: string)
    ensures IsTrimmed(r)
  {
    Trim(RemoveAll(line, FrameToken(i)))
  }

  /** A frame line "#i rest" whose rest does not repeat the token is recorded
      as the trimmed rest. */
  lemma CleanFrameOfToken(i: nat, rest: string)
    requires !Contains(rest, FrameToken(i))
    ensures CleanFrame(FrameToken(i) + rest, i) == Trim(rest)
  {
    RemoveAllLeading(FrameToken(i), rest);
  }

  /** Line j is recorded: it is a frame line, it is not among the first
      offset+1 frames, and it does not mention the class. */
  predicate Kept(lines: seq<string>, j: int, offset: int, cls: string)
    requires 0 <= j < |lines|
  {
    IsFrameLine(lines[j]) && FrameCount(lines[..j]) > offset && !Contains(lines[j], cls)
  }

  /** The trace generate_trace returns for the printed lines: at most one
      entry per frame line, none of them with white space at either end. */
  function Trace(lines: seq<string>, offset: int, cls: string): (r: seq<string>)
    ensures |r| <= FrameCount(lines)
    ensures forall k :: 0 <= k < |r| ==> IsTrimmed(r[k])
  {
    if lines == [] then []
    else
      var n := |lines| - 1;
      assert lines[..|lines| - 1] == lines[..n];
      Trace(lines[..n], offset, cls)
        + (if Kept(lines, n, offset, cls) then [CleanFrame(lines[n], FrameCount(lines[..n]))] else [])
  }

  /** t neither starts nor ends with a character trim() removes. */
  predicate IsTrimmed(t: string)
  {
    t == [] || (!IsTrimChar(t[0]) && !IsTrimChar(t[|t| - 1]))
  }

  /** The foreach of generate_trace, with the frame counter $i. */
  method GenerateTrace(lines: seq<string>, offset: int, cls: string) returns (trace: seq<string>)
    ensures trace == Trace(lines, offset, cls)
  {
    trace := [];
    var i := -1;
    var skip := offset + 1;
    for k := 0 to |lines|
      invariant i == FrameCount(lines[..k]) - 1
      invariant trace == Trace(lines[..k], offset, cls)
    {
      assert lines[..k + 1][..k] == lines[..k];
      var line := lines[k];
      if |line| > 0 && line[0] == '#' {
        i := i + 1;
        if skip > i {
          continue;
        }
        if Contains(line, cls) {
          continue;
        }
        trace := trace + [Trim(RemoveAll(line, "#" + NatToDecimal(i) + " "))];
      }
    }
    assert lines[..|lines|] == lines;
  }

  /** The indices of the recorded lines, in order. */
  function KeptIndices(lines: seq<string>, offset: int, cls: string): seq<nat>
  {
    if lines == [] then []
    else
      var n := |lines| - 1;
      KeptIndices(lines[..n], offset, cls) + (if Kept(lines, n, offset, cls) then [n] else [])
  }

  lemma {:induction false} KeptPrefix(lines: seq<string>, n: nat, j: nat, offset: int, cls: string)
    requires j < n <= |lines|
    ensures Kept(lines[..n], j, offset, cls) == Kept(lines, j, offset, cls)
  {
    assert lines[..n][..j] == lines[..j];
  }

  /** Strictly increasing positions. */
  predicate Ascending(ks: seq<nat>)
  {
    forall a, b :: 0 <= a < b < |ks| ==> ks[a] < ks[b]
  }

  /** Every position in ks is a kept line. */
  predicate AllKept(lines: seq<string>, ks: seq<nat>, offset: int, cls: string)
  {
    forall k :: 0 <= k < |ks| ==> ks[k] < |lines| && Kept(lines, ks[k], offset, cls)
  }

  /** Entry k of t is the cleaned line at position ks[k]. */
  predicate CleanedAt(lines: seq<string>, ks: seq<nat>, t: seq<string>)
  {
    && |ks| == |t|
    && forall k :: 0 <= k < |ks| ==> ks[k] < |lines| && t[k] == CleanFrame(lines[ks[k]], FrameCount(lines[..ks[k]]))
  }

  /** The trace is exactly the cleaned kept lines, in the order of the printed
      lines: entry k comes from the k-th kept line, the kept lines appear in
      increasing position, and every kept line contributes an entry. */
  lemma TraceIsKeptLines(lines: seq<string>, offset: int, cls: string)
    ensures Ascending(KeptIndices(lines, offset, cls))
    ensures AllKept(lines, KeptIndices(lines, offset, cls), offset, cls)
    ensures CleanedAt(lines, KeptIndices(lines, offset, cls), Trace(lines, offset, cls))
    ensures forall j :: 0 <= j < |lines| && Kept(lines, j, offset, cls) ==> j in KeptIndices(lines, offset, cls)
  {
    KeptIndicesOrdered(lines, offset, cls);
    TraceEntries(lines, offset, cls);
    KeptIndicesComplete(lines, offset, cls);
  }

  lemma {:induction false} KeptIndicesOrdered(lines: seq<string>, offset: int, cls: string)
    ensures Ascending(KeptIndices(lines, offset, cls))
    ensures AllKept(lines, KeptIndices(lines, offset, cls), offset, cls)
  {
    if lines != [] {
      var n := |lines| - 1;
      var pre := lines[..n];
      KeptIndicesOrdered(pre, offset, cls);
      var ks' := KeptIndices(pre, offset, cls);
      forall k | 0 <= k < |ks'|
        ensures ks'[k] < n && Kept(lines, ks'[k], offset, cls)
      {
        KeptPrefix(lines, n, ks'[k], offset, cls);
      }
    }
  }

  lemma {:induction false} TraceEntries(lines: seq<string>, offset: int, cls: string)
    ensures CleanedAt(lines, KeptIndices(lines, offset, cls), Trace(lines, offset, cls))
  {
    if lines != [] {
      var n := |lines| - 1;
      var pre := lines[..n];
      TraceEntries(pre, offset, cls);
      var ks' := KeptIndices(pre, offset, cls);
      forall k | 0 <= k < |ks'|
        ensures lines[..ks'[k]] == pre[..ks'[k]] && lines[ks'[k]] == pre[ks'[k]]
      {
      }
    }
  }

  lemma {:induction false} KeptIndicesComplete(lines: seq<string>, offset: int, cls: string)
    ensures forall j :: 0 <= j < |lines| && Kept(lines, j, offset, cls) ==> j in KeptIndices(lines, offset, cls)
  {
    if lines != [] {
      var n := |lines| - 1;
      KeptIndicesComplete(lines[..n], offset, cls);
      forall j | 0 <= j < |lines| && Kept(lines, j, offset, cls)
        ensures j in KeptIndices(lines, offset, cls)
      {
        if j < n {
          KeptPrefix(lines, n, j, offset, cls);
        }
      }
    }
  }

  /** The trace has at most one entry per frame line after the first
      offset+1 ones. */
  lemma {:induction false} TraceLength(lines: seq<string>, offset: int, cls: string)
    ensures offset >= -1 ==>
      |Trace(lines, offset, cls)| <= (if FrameCount(lines) > offset + 1 then FrameCount(lines) - offset - 1 else 0)
  {
    if lines != [] {
      TraceLength(lines[..|lines| - 1], offset, cls);
    }
  }

  /** A printed dump without frame lines gives an empty trace. */
  lemma {:induction false} NoFramesNoTrace(lines: seq<string>, offset: int, cls: string)
    requires forall j :: 0 <= j < |lines| ==> !IsFrameLine(lines[j])
    ensures Trace(lines, offset, cls) == []
  {
    if lines != [] {
      NoFramesNoTrace(lines[..|lines| - 1], offset, cls);
    }
  }
}
