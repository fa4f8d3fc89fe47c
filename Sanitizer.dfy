/**
  The per-line policy of LogSanitizer's `handleFile` and the loop that
  applies it to every line of a file.  An empty replacement means "omit":
  a line in which either pattern finds an address is dropped and every
  other line is copied as it is.  A non-empty replacement means "replace":
  every line is kept, with the `ip4` matches replaced first and the `ip6`
  matches of that result replaced next.
 */
module Sanitizer {
  import opened Text
  import opened Search

  /** Neither pattern finds anything in `line`. */
  function Clean(line: string): bool {
    !HasMatch(IPv4, line) && !HasMatch(IPv6, line)
  }

  /** Both replacement passes, in the order the source runs them. */
  function Redact(line: string, replacement: string): string {
    ReplaceAll(IPv6, ReplaceAll(IPv4, line, replacement), replacement)
  }

  /** What one input line becomes: `None` when it is omitted. */
  function SanitizeLine(line: string, replacement: string): (r: Option<string>)
    ensures replacement == [] ==> (r.Some? <==> Clean(line))
    ensures replacement != [] ==> r.Some?
    ensures r.Some? && r.value != line ==> replacement != []
  {
    if replacement == [] then
      if Clean(line) then Some(line) else None
    else Some(Redact(line, replacement))
  }

  /** The lines `f` makes of `lines`, in order, leaving out those it maps
      to `None`. */
  function Outputs(lines: seq<string>, f: string -> Option<string>): seq<string>
    decreases |lines|
  {
    if lines == [] then []
    else
      var rest := Outputs(lines[..|lines| - 1], f);
      match f(lines[|lines| - 1])
      case None => rest
      case Some(l) => rest + [l]
  }

  /** The output lines for `lines`, in order. */
  function SanitizeAll(lines: seq<string>, replacement: string): seq<string> {
    Outputs(lines, line => SanitizeLine(line, replacement))
  }

  /** The loop of `handleFile`: each line read is written out sanitized, or
      not at all. */
  method HandleLines(lines: seq<string>, replacement: string) returns (out: seq<string>)
    ensures out == SanitizeAll(lines, replacement)
  {
    out := [];
    var i := 0;
    while i < |lines|
      invariant i <= |lines|
      invariant out == SanitizeAll(lines[..i], replacement)
    {
      var line := lines[i];
      assert lines[..i + 1][..i] == lines[..i];
      if replacement == [] {
        if Clean(line) {
          out := out + [line];
        }
      } else {
        line := ReplaceAll(IPv4, line, replacement);
        line := ReplaceAll(IPv6, line, replacement);
        out := out + [line];
      }
      i := i + 1;
    }
    assert lines[..i] == lines;
  }

  /** `handleFile`: the `.clean` output is opened before the input is
      checked, so an input that cannot be opened leaves an empty output and the result 1;
      otherwise every line is handled and the result is 0. */
  method HandleFile(input: Option<seq<string>>, replacement: string) returns (status: int, output: seq<string>)
    ensures input.None? ==> status == 1 && output == []
    ensures input.Some? ==> status == 0 && output == SanitizeAll(input.value, replacement)
  {
    output := [];
    if input.None? {
      status := 1;
    } else {
      output := HandleLines(input.value, replacement);
      status := 0;
    }
  }

  // ---------------------------------------------------------------------------
  // What the policy guarantees

  /** A line is clean exactly when no part of it is in either address
      language. */
  lemma CleanExact(line: string)
    ensures Clean(line) <==> (forall i: nat, j: nat :: i <= j <= |line| ==> !InLang(IPv4, line, i, j) && !InLang(IPv6, line, i, j))
  {
    HasMatchExact(IPv4, line);
    HasMatchExact(IPv6, line);
  }

  /** A clean line comes out unchanged in both modes. */
  lemma CleanUnchanged(line: string, replacement: string)
    requires Clean(line)
    ensures SanitizeLine(line, replacement) == Some(line)
  {
    if replacement != [] {
      NoMatchUnchanged(IPv4, line, replacement);
      NoMatchUnchanged(IPv6, line, replacement);
    }
  }

  /** When `f` keeps every line, the output has one line per input line,
      each what `f` makes of the line at the same place. */
  lemma {:induction false} OutputsOneToOne(lines: seq<string>, f: string -> Option<string>)
    requires forall line :: f(line).Some?
    ensures |Outputs(lines, f)| == |lines|
    ensures forall k :: 0 <= k < |lines| ==> Outputs(lines, f)[k] == f(lines[k]).value
    decreases |lines|
  {
    if lines != [] {
      var init := lines[..|lines| - 1];
      OutputsOneToOne(init, f);
      assert forall k :: 0 <= k < |init| ==> lines[k] == init[k];
    }
  }

  /** In replace mode there is one output line per input line, each the
      two passes applied to the line at the same place. */
  lemma ReplaceOneToOne(lines: seq<string>, replacement: string)
    requires replacement != []
    ensures |SanitizeAll(lines, replacement)| == |lines|
    ensures forall k :: 0 <= k < |lines| ==> SanitizeAll(lines, replacement)[k] == Redact(lines[k], replacement)
  {
    OutputsOneToOne(lines, line => SanitizeLine(line, replacement));
  }

  /** The positions of the lines `f` keeps, in increasing order. */
  function Kept(lines: seq<string>, f: string -> Option<string>): (idx: seq<nat>)
    ensures forall k :: 0 <= k < |idx| ==> idx[k] < |lines|
    decreases |lines|
  {
    if lines == [] then []
    else
      var rest := Kept(lines[..|lines| - 1], f);
      if f(lines[|lines| - 1]).Some? then rest + [|lines| - 1] else rest
  }

  /** `out` is the lines of `lines` at positions `idx`, in order. */
  ghost predicate SubsequenceAt(lines: seq<string>, out: seq<string>, idx: seq<nat>) {
    |idx| == |out|
    && (forall k :: 0 <= k < |idx| ==> idx[k] < |lines| && out[k] == lines[idx[k]])
    && (forall j, k :: 0 <= j < k < |idx| ==> idx[j] < idx[k])
  }

  /** When `f` either drops a line or keeps it as it is, the output is the
      kept lines in their original order. */
  lemma {:induction false} OutputsFilter(lines: seq<string>, f: string -> Option<string>)
    requires forall line :: f(line) == None || f(line) == Some(line)
    ensures SubsequenceAt(lines, Outputs(lines, f), Kept(lines, f))
    ensures forall i :: 0 <= i < |lines| ==> (f(lines[i]).Some? <==> i in Kept(lines, f))
    decreases |lines|
  {
    if lines != [] {
      var n := |lines| - 1;
      var init := lines[..n];
      OutputsFilter(init, f);
      assert forall i :: 0 <= i < n ==> lines[i] == init[i];
    }
  }

  /** In omit mode the output is the clean lines in their original order:
      an order-preserving subsequence that drops exactly the lines in which
      an address is found. */
  lemma OmitKeepsCleanInOrder(lines: seq<string>)
    ensures var idx := Kept(lines, line => SanitizeLine(line, []));
      SubsequenceAt(lines, SanitizeAll(lines, []), idx)
      && forall i :: 0 <= i < |lines| ==> (Clean(lines[i]) <==> i in idx)
  {
    OutputsFilter(lines, line => SanitizeLine(line, []));
  }
}
