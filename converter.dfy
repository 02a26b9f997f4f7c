/**
 * The row loop of `convert_novadax_to_koinly`: the Koinly header is written first, the
 * NovaDAX header row is skipped, and every further row is mapped on its own, in order. The
 * file handling around the loop is not modelled: rows come in and go out as sequences.
 */
module Converter {
  import opened RowClassifier

  /** Lines 151-164: the header, then one converted row per input row after the first. */
  method ConvertRows(input: seq<seq<string>>) returns (output: seq<seq<string>>)
    ensures |output| == if |input| == 0 then 1 else |input|
    ensures output[0] == Header
    ensures forall i :: 1 <= i < |input| ==> output[i] == ProcessRow(input[i])
    ensures forall i :: 0 <= i < |output| ==> |output[i]| == Width
  {
    output := [Header];
    var next := 1;
    while next < |input|
      invariant if |input| == 0 then next == 1 else 1 <= next <= |input|
      invariant |output| == next
      invariant output[0] == Header
      invariant forall i :: 1 <= i < next ==> output[i] == ProcessRow(input[i])
      invariant forall i :: 0 <= i < |output| ==> |output[i]| == Width
    {
      output := output + [ProcessRow(input[next])];
      next := next + 1;
    }
  }
}
