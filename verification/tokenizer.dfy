/**
 * The delimiter tokenizer of root.go (`makeSplitFunc`): a `bufio.SplitFunc`
 * that cuts a byte stream on an arbitrary delimiter, and the way
 * `bufio.Scanner` drives it once the whole input has been read.
 */
module Tokenizer {
  import opened Returns
  import Text

  type byte = Text.byte

  /**
   * One answer of the split function: how many bytes to consume and the
   * token to emit, if any (Go's `nil` token is `None`; an empty but non-nil
   * token is `Some([])`). The function never returns an error.
   */
  datatype Step = Step(advance: nat, token: Option<seq<byte>>)

  /**
   * The split function for `delim`, applied to the buffered `data`.
   * Four cases: nothing left at end of input ends the scan; a delimiter in
   * the buffer cuts the token before its first occurrence and consumes the
   * delimiter too; no delimiter before end of input asks for more data; no
   * delimiter at end of input makes the rest the final token.
   */
  function SplitStep(delim: seq<byte>, data: seq<byte>, atEOF: bool): (r: Step)
    ensures r.advance <= |data|
    ensures atEOF && |data| == 0 ==> r == Step(0, None)
    ensures !(atEOF && |data| == 0) && Text.Contains(data, delim) ==>
      && r.token.Some?
      && Text.OccursAt(data, delim, |r.token.value|)
      && r.token.value == data[..|r.token.value|]
      && (forall j: nat :: j < |r.token.value| ==> !Text.OccursAt(data, delim, j))
      && r.advance == |r.token.value| + |delim|
    ensures !atEOF && !Text.Contains(data, delim) ==> r == Step(0, None)
    ensures atEOF && |data| > 0 && !Text.Contains(data, delim) ==> r == Step(|data|, Some(data))
    ensures |delim| > 0 && r.token.Some? ==> r.advance >= 1
    ensures |delim| > 0 && r.token.Some? ==> !Text.Contains(r.token.value, delim)
  {
    if atEOF && |data| == 0 then Step(0, None)
    else
      var i := Text.IndexOf(data, delim);
      if i >= 0 then
        NoOccurrenceBefore(data, delim, i);
        Step(i + |delim|, Some(data[0..i]))
      else if atEOF then Step(|data|, Some(data))
      else Step(0, None)
  }

  /** A prefix that ends before the first occurrence of `sub` does not contain it. */
  lemma NoOccurrenceBefore<T>(s: seq<T>, sub: seq<T>, i: nat)
    requires i <= |s|
    requires forall j: nat :: j < i ==> !Text.OccursAt(s, sub, j)
    ensures |sub| > 0 ==> !Text.Contains(s[..i], sub)
  {
    forall j: nat | |sub| > 0 && Text.OccursAt(s[..i], sub, j)
      ensures false
    {
      assert s[..i][j..j + |sub|] == s[j..j + |sub|];
      assert Text.OccursAt(s, sub, j);
    }
  }

  /**
   * Once the delimiter is in the buffer, neither more buffered data nor
   * reaching the end of input changes the answer: the tokens do not depend
   * on how the reader happens to chunk the stream.
   */
  lemma {:induction false} MoreDataSameStep(delim: seq<byte>, data: seq<byte>, more: seq<byte>, atEOF: bool, atEOF': bool)
    requires |delim| > 0
    requires Text.Contains(data, delim)
    ensures SplitStep(delim, data + more, atEOF') == SplitStep(delim, data, atEOF)
  {
    var i := Text.IndexOf(data, delim);
    var s := data + more;
    assert s[i..i + |delim|] == data[i..i + |delim|];
    assert Text.OccursAt(s, delim, i);
    forall j: nat | j < i
      ensures !Text.OccursAt(s, delim, j)
    {
      assert !Text.OccursAt(data, delim, j);
      assert s[j..j + |delim|] == data[j..j + |delim|];
    }
    FirstOccurrenceUnique(s, delim, i);
    assert s[0..i] == data[0..i];
  }

  /** The first occurrence is the one `IndexOf` reports. */
  lemma FirstOccurrenceUnique<T>(s: seq<T>, sub: seq<T>, i: nat)
    requires Text.OccursAt(s, sub, i)
    requires forall j: nat :: j < i ==> !Text.OccursAt(s, sub, j)
    ensures Text.IndexOf(s, sub) == i
  {
    var r := Text.IndexOf(s, sub);
    assert i <= |s|;
    assert r != -1;
  }

  /**
   * The tokens `bufio.Scanner` produces from the complete input `data` once
   * the end of input has been reached: the split function is applied until
   * it emits no token.
   */
  function ScanAll(delim: seq<byte>, data: seq<byte>): (tokens: seq<seq<byte>>)
    requires |delim| > 0
    ensures forall k :: 0 <= k < |tokens| ==> !Text.Contains(tokens[k], delim)
    ensures |tokens| == 0 <==> |data| == 0
    decreases |data|
  {
    var step := SplitStep(delim, data, true);
    if step.token.None? then []
    else [step.token.value] + ScanAll(delim, data[step.advance..])
  }

  /**
   * Joining the scanned tokens with the delimiter gives the input back,
   * except for at most one trailing delimiter the scanner swallows.
   */
  lemma {:induction false} ScanJoin(delim: seq<byte>, data: seq<byte>)
    requires |delim| > 0
    ensures Text.Join(ScanAll(delim, data), delim) == data
         || Text.Join(ScanAll(delim, data), delim) + delim == data
    decreases |data|
  {
    if |data| > 0 {
      if Text.Contains(data, delim) {
        var tok, rest := ScanCut(delim, data);
        if |rest| > 0 {
          ScanJoin(delim, rest);
          Text.JoinCons(tok, ScanAll(delim, rest), delim);
        } else {
          assert [tok] + ScanAll(delim, rest) == [tok];
        }
      } else {
        ScanWhole(delim, data);
      }
    }
  }

  /** Without a delimiter, the whole non-empty input is the one token. */
  lemma ScanWhole(delim: seq<byte>, data: seq<byte>)
    requires |delim| > 0 && |data| > 0 && !Text.Contains(data, delim)
    ensures ScanAll(delim, data) == [data]
  {
    assert data[|data|..] == [];
  }

  /** The scan of an input holding the delimiter: one token, then the scan of the rest. */
  lemma ScanCut(delim: seq<byte>, data: seq<byte>) returns (tok: seq<byte>, rest: seq<byte>)
    requires |delim| > 0 && Text.Contains(data, delim)
    ensures data == tok + delim + rest
    ensures ScanAll(delim, data) == [tok] + ScanAll(delim, rest)
  {
    var step := SplitStep(delim, data, true);
    tok := step.token.value;
    rest := data[step.advance..];
    assert data[|tok|..|tok| + |delim|] == delim;
    assert data == tok + delim + rest;
  }

  /** With a one-byte delimiter, an occurrence is just that byte. */
  lemma OccursAtSingle<T>(s: seq<T>, c: T, j: nat)
    ensures Text.OccursAt(s, [c], j) <==> j < |s| && s[j] == c
  {
    if j < |s| {
      assert s[j..j + 1] == [s[j]];
    }
  }

  /**
   * The converse for a one-byte delimiter: delimiter-terminated records
   * scan back to exactly those records, each one terminator consumed.
   */
  lemma {:induction false} ScanTerminated(c: byte, records: seq<seq<byte>>)
    requires forall k :: 0 <= k < |records| ==> c !in records[k]
    ensures ScanAll([c], Terminated(records, c)) == records
    decreases |records|
  {
    if |records| > 0 {
      var p := records[0];
      var rest := Terminated(records[1..], c);
      var data := Terminated(records, c);
      assert data == p + [c] + rest;
      OccursAtSingle(data, c, |p|);
      forall j: nat | j < |p|
        ensures !Text.OccursAt(data, [c], j)
      {
        OccursAtSingle(data, c, j);
        assert data[j] == p[j];
      }
      FirstOccurrenceUnique(data, [c], |p|);
      assert data[0..|p|] == p;
      assert data[|p| + 1..] == rest;
      ScanTerminated(c, records[1..]);
    }
  }

  /** Each record followed by the one-byte terminator `c`. */
  function Terminated(records: seq<seq<byte>>, c: byte): (data: seq<byte>)
    ensures |records| > 0 ==> data == Text.Join(records, [c]) + [c]
  {
    if |records| == 0 then [] else records[0] + [c] + Terminated(records[1..], c)
  }
}
