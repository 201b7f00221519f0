/**
 * The lookup command's IPv4 filter (lookup.go): the regular expression
 * `\b(?:\d{1,3}\.){3}\d{1,3}\b` applied with `FindAllString` to the input
 * joined by spaces. Go's RE2 engine reads `\d` as an ASCII digit and `\b`
 * as an ASCII word boundary.
 *
 * The language of the expression is stated declaratively (four
 * dot-separated fields of one to three digits, between word boundaries) and
 * a scanner over maximal digit runs is proved to find exactly those matches.
 */
module IpGrep {
  import opened Returns
  import Text

  /** `\d`: an ASCII digit. */
  predicate IsDigit(c: char) {
    '0' <= c <= '9'
  }

  /** `\w`: an ASCII letter, digit or underscore. */
  predicate IsWordChar(c: char) {
    'a' <= c <= 'z' || 'A' <= c <= 'Z' || IsDigit(c) || c == '_'
  }

  /** `\b` at position `p` of `s`: a word character on exactly one side. */
  predicate AtWordBoundary(s: string, p: nat)
    requires p <= |s|
  {
    (p > 0 && IsWordChar(s[p - 1])) != (p < |s| && IsWordChar(s[p]))
  }

  predicate AllDigits(t: string) {
    forall k :: 0 <= k < |t| ==> IsDigit(t[k])
  }

  /** `\d{1,3}`: one to three digits. Values above 255 are not excluded. */
  predicate IsOctet(t: string) {
    1 <= |t| <= 3 && AllDigits(t)
  }

  predicate AllOctets(fields: seq<string>) {
    forall k :: 0 <= k < |fields| ==> IsOctet(fields[k])
  }

  /** `t` is `g` dot-separated fields of one to three digits each. */
  predicate Groups(t: string, g: nat) {
    var f := Text.Split(t, '.');
    |f| == g && AllOctets(f)
  }

  /**
   * The expression read left to right: an octet, then (for each further
   * group) a '.' and the remaining groups.
   */
  predicate GroupChain(t: string, g: nat)
    decreases g
  {
    if g <= 1 then g == 1 && '.' !in t && IsOctet(t)
    else '.' in t && IsOctet(t[..Text.Find(t, '.')]) && GroupChain(t[Text.Find(t, '.') + 1..], g - 1)
  }

  /** The language of `(?:\d{1,3}\.){3}\d{1,3}`: three octets each followed by '.', then an octet. */
  predicate DottedQuad(t: string) {
    GroupChain(t, 4)
  }

  /** The whole expression, word boundaries included, matches `s[p..e]`. */
  predicate MatchesAt(s: string, p: nat, e: nat) {
    p <= e <= |s| && AtWordBoundary(s, p) && DottedQuad(s[p..e]) && AtWordBoundary(s, e)
  }

  /** The length of the run of digits starting at `i`. */
  function DigitRun(s: string, i: nat): (n: nat)
    requires i <= |s|
    ensures i + n <= |s|
    decreases |s| - i
  {
    if i < |s| && IsDigit(s[i]) then
      1 + DigitRun(s, i + 1)
    else 0
  }

  /** The run is all digits and stops at a non-digit or at the end. */
  lemma {:induction false} DigitRunSpec(s: string, i: nat)
    requires i <= |s|
    ensures forall k :: i <= k < i + DigitRun(s, i) ==> IsDigit(s[k])
    ensures i + DigitRun(s, i) < |s| ==> !IsDigit(s[i + DigitRun(s, i)])
    decreases |s| - i
  {
    if i < |s| && IsDigit(s[i]) {
      DigitRunSpec(s, i + 1);
    }
  }

  lemma DigitsSlice(s: string, i: nat, n: nat)
    requires i + n <= |s| && forall k :: i <= k < i + n ==> IsDigit(s[k])
    ensures AllDigits(s[i..i + n]) && '.' !in s[i..i + n]
  {
    var u := s[i..i + n];
    forall k | 0 <= k < n ensures IsDigit(u[k]) && u[k] != '.' {
      assert u[k] == s[i + k];
    }
  }

  /** A run of digits ended by a non-digit (or the end) is the digit run there. */
  lemma {:induction false} RunUnique(s: string, i: nat, m: nat)
    requires i + m <= |s| && forall k :: i <= k < i + m ==> IsDigit(s[k])
    requires i + m < |s| ==> !IsDigit(s[i + m])
    ensures DigitRun(s, i) == m
    decreases m
  {
    if m > 0 {
      RunUnique(s, i + 1, m - 1);
    }
  }

  /**
   * Where `g` more dot-separated groups starting at `i` end, if they are
   * there. Each group must be a whole digit run of length one to three: a
   * shorter prefix of a run would leave a digit where the expression needs
   * a '.' or a word boundary.
   */
  function QuadEnd(s: string, i: nat, g: nat): (e: Option<nat>)
    requires i <= |s| && 1 <= g
    ensures e.Some? ==> i < e.value <= |s|
    decreases g
  {
    var n := DigitRun(s, i);
    if n < 1 || n > 3 then None
    else if g == 1 then Some(i + n)
    else if i + n < |s| && s[i + n] == '.' then QuadEnd(s, i + n + 1, g - 1)
    else None
  }

  /** The end of the match starting at `p`, if the expression matches there. */
  function MatchEnd(s: string, p: nat): (e: Option<nat>)
    requires p <= |s|
    ensures e.Some? ==> p < e.value <= |s|
  {
    if !AtWordBoundary(s, p) then None
    else match QuadEnd(s, p, 4)
      case None => None
      case Some(e) => if AtWordBoundary(s, e) then Some(e) else None
  }

  /** One group is a dot-free octet. */
  lemma GroupsOne(t: string)
    ensures Groups(t, 1) <==> '.' !in t && IsOctet(t)
  {
    var f := Text.Split(t, '.');
    if '.' !in t {
      assert f == [t];
      OctetsCons(t, []);
      assert [t] + [] == [t];
    } else {
      assert |f| != 1;
    }
  }

  lemma OctetsCons(a: string, rest: seq<string>)
    ensures AllOctets([a] + rest) <==> IsOctet(a) && AllOctets(rest)
  {
    var f := [a] + rest;
    if IsOctet(a) && AllOctets(rest) {
      forall k | 0 <= k < |f| ensures IsOctet(f[k]) {
        if k > 0 { assert f[k] == rest[k - 1]; }
      }
    }
    if AllOctets(f) {
      assert IsOctet(f[0]);
      forall k | 0 <= k < |rest| ensures IsOctet(rest[k]) {
        assert rest[k] == f[k + 1];
      }
    }
  }

  /** Several groups are an octet, a '.', and one group fewer. */
  lemma GroupsMore(t: string, g: nat)
    requires g >= 2
    ensures Groups(t, g) <==>
      '.' in t && IsOctet(t[..Text.Find(t, '.')]) && Groups(t[Text.Find(t, '.') + 1..], g - 1)
  {
    if '.' in t {
      var j := Text.Find(t, '.');
      var rest := Text.Split(t[j + 1..], '.');
      Text.SplitFirst(t, '.');
      OctetsCons(t[..j], rest);
    }
  }

  /** A dotted quad is exactly four dot-separated octets. */
  lemma DottedQuadFields(t: string)
    ensures DottedQuad(t) <==> Groups(t, 4)
  {
    GroupChainIff(t, 4);
  }

  /** The left-to-right reading and the dot-separated fields agree. */
  lemma {:induction false} GroupChainIff(t: string, g: nat)
    requires 1 <= g
    ensures GroupChain(t, g) <==> Groups(t, g)
    decreases g
  {
    if g == 1 {
      GroupsOne(t);
    } else {
      GroupsMore(t, g);
      if '.' in t {
        GroupChainIff(t[Text.Find(t, '.') + 1..], g - 1);
      }
    }
  }

  /** What the scanner finds is `g` groups, ended by a non-digit or the end. */
  lemma {:induction false} QuadEndSound(s: string, i: nat, g: nat)
    requires i <= |s| && 1 <= g && QuadEnd(s, i, g).Some?
    ensures var e := QuadEnd(s, i, g).value;
      GroupChain(s[i..e], g) && (e < |s| ==> !IsDigit(s[e]))
    decreases g
  {
    var e := QuadEnd(s, i, g).value;
    var n := DigitRun(s, i);
    DigitRunSpec(s, i);
    DigitsSlice(s, i, n);
    if g == 1 {
      assert s[i..e] == s[i..i + n];
    } else {
      assert QuadEnd(s, i, g) == QuadEnd(s, i + n + 1, g - 1);
      QuadEndSound(s, i + n + 1, g - 1);
      ChainCons(s, i, g, n, e);
    }
  }

  /** An octet at `i`, a '.', then `g - 1` groups up to `e`, make `g` groups from `i` to `e`. */
  lemma ChainCons(s: string, i: nat, g: nat, n: nat, e: nat)
    requires 2 <= g && 1 <= n <= 3 && i + n < e <= |s| && s[i + n] == '.'
    requires AllDigits(s[i..i + n]) && '.' !in s[i..i + n]
    requires GroupChain(s[i + n + 1..e], g - 1)
    ensures GroupChain(s[i..e], g)
  {
    var t := s[i..e];
    SliceAround(s, i, e, n);
    Text.FindUnique(t, '.', n);
  }

  /** `s[i..e]` is a chain of `g` groups. */
  predicate ChainIn(s: string, i: nat, e: nat, g: nat) {
    i <= e <= |s| && GroupChain(s[i..e], g)
  }

  /** Any `g` groups ended by a non-digit (or the end) are what the scanner finds. */
  lemma {:induction false} QuadEndComplete(s: string, i: nat, g: nat, e: nat)
    requires i <= e <= |s| && 1 <= g
    requires GroupChain(s[i..e], g)
    requires e < |s| ==> !IsDigit(s[e])
    ensures QuadEnd(s, i, g) == Some(e)
    decreases g, 1
  {
    if g == 1 {
      RunUnique(s, i, e - i);
    } else {
      var j := ChainHead(s, i, e, g);
      QuadEndCompleteAfter(s, i, g, j, e);
    }
  }

  /** The inductive step: the rest of the chain after the first group's '.'. */
  lemma {:induction false} QuadEndCompleteAfter(s: string, i: nat, g: nat, j: nat, e: nat)
    requires 2 <= g && 1 <= j <= 3 && i + j < e <= |s| && s[i + j] == '.' && DigitRun(s, i) == j
    requires ChainIn(s, i + j + 1, e, g - 1)
    requires e < |s| ==> !IsDigit(s[e])
    ensures QuadEnd(s, i, g) == Some(e)
    decreases g, 0
  {
    QuadEndComplete(s, i + j + 1, g - 1, e);
    QuadEndStep(s, i, g, j, e);
  }

  /** The first group of a chain in `s[i..e]` is the digit run at `i`, and a '.' follows it. */
  lemma ChainHead(s: string, i: nat, e: nat, g: nat) returns (j: nat)
    requires 2 <= g && ChainIn(s, i, e, g)
    ensures 1 <= j <= 3 && i + j < e && s[i + j] == '.' && DigitRun(s, i) == j
    ensures ChainIn(s, i + j + 1, e, g - 1)
  {
    var t := s[i..e];
    j := Text.Find(t, '.');
    SliceAround(s, i, e, j);
    forall k | i <= k < i + j ensures IsDigit(s[k]) {
      assert s[k] == t[..j][k - i];
    }
    RunUnique(s, i, j);
  }

  /** The scanner's step over one group and the '.' after it. */
  lemma QuadEndStep(s: string, i: nat, g: nat, j: nat, e: nat)
    requires 2 <= g && 1 <= j <= 3 && i + j < |s| && s[i + j] == '.'
    requires DigitRun(s, i) == j && QuadEnd(s, i + j + 1, g - 1) == Some(e)
    ensures QuadEnd(s, i, g) == Some(e)
  {
  }

  lemma SliceAround<T>(s: seq<T>, i: nat, e: nat, j: nat)
    requires i + j < e <= |s|
    ensures s[i..e][..j] == s[i..i + j]
    ensures s[i..e][j] == s[i + j]
    ensures s[i..e][j + 1..] == s[i + j + 1..e]
  {
  }

  /** A chain of groups starts and ends with a digit. */
  lemma {:induction false} ChainEnds(t: string, g: nat)
    requires GroupChain(t, g)
    ensures |t| > 0 && IsDigit(t[0]) && IsDigit(t[|t| - 1])
    decreases g
  {
    if g > 1 {
      var j := Text.Find(t, '.');
      var rest := t[j + 1..];
      ChainEnds(rest, g - 1);
      assert t[0] == t[..j][0];
      assert t[|t| - 1] == rest[|rest| - 1];
    }
  }

  /** A dotted quad starts and ends with a digit. */
  lemma QuadEnds(t: string)
    requires DottedQuad(t)
    ensures |t| > 0 && IsDigit(t[0]) && IsDigit(t[|t| - 1])
  {
    ChainEnds(t, 4);
  }

  /** What the scanner reports is a match of the expression. */
  lemma MatchEndSound(s: string, p: nat)
    requires p <= |s| && MatchEnd(s, p).Some?
    ensures MatchesAt(s, p, MatchEnd(s, p).value)
  {
    QuadEndSound(s, p, 4);
  }

  /** Every match of the expression is what the scanner reports. */
  lemma MatchEndComplete(s: string, p: nat, e: nat)
    requires MatchesAt(s, p, e)
    ensures MatchEnd(s, p) == Some(e)
  {
    MatchEndOfChain(s, p, e);
  }

  lemma MatchEndOfChain(s: string, p: nat, e: nat)
    requires ChainIn(s, p, e, 4) && AtWordBoundary(s, p) && AtWordBoundary(s, e)
    ensures MatchEnd(s, p) == Some(e)
  {
    ChainStops(s, p, e);
    QuadEndComplete(s, p, 4, e);
    MatchOfQuadEnd(s, p, e);
  }

  /** A chain that ends at a word boundary is not followed by a digit. */
  lemma ChainStops(s: string, p: nat, e: nat)
    requires ChainIn(s, p, e, 4) && AtWordBoundary(s, e)
    ensures e < |s| ==> !IsDigit(s[e])
  {
    var t := s[p..e];
    ChainEnds(t, 4);
    assert s[e - 1] == t[|t| - 1];
  }

  /** Four groups found by the scanner between two word boundaries are a match. */
  lemma MatchOfQuadEnd(s: string, p: nat, e: nat)
    requires p <= e <= |s| && QuadEnd(s, p, 4) == Some(e)
    requires AtWordBoundary(s, p) && AtWordBoundary(s, e)
    ensures MatchEnd(s, p) == Some(e)
  {
  }

  /**
   * The scanner and the expression agree: the scanner reports a match from
   * `p` to `e` exactly when the expression matches `s[p..e]`.
   */
  lemma MatchEndSpec(s: string, p: nat, e: nat)
    requires p <= |s|
    ensures MatchEnd(s, p) == Some(e) <==> MatchesAt(s, p, e)
  {
    if MatchEnd(s, p) == Some(e) {
      MatchEndSound(s, p);
    }
    if MatchesAt(s, p, e) {
      MatchEndComplete(s, p, e);
    }
  }

  /** At most one match starts at any position. */
  lemma MatchUnique(s: string, p: nat, e1: nat, e2: nat)
    requires MatchesAt(s, p, e1) && MatchesAt(s, p, e2)
    ensures e1 == e2
  {
    MatchEndSpec(s, p, e1);
    MatchEndSpec(s, p, e2);
  }

  /**
   * The spans `FindAllString` reports from position `from` on: scanning left
   * to right, each match is taken whole and the scan resumes at its end.
   */
  function Spans(s: string, from: nat): (spans: seq<(nat, nat)>)
    requires from <= |s|
    ensures forall k :: 0 <= k < |spans| ==> from <= spans[k].0 < spans[k].1 <= |s|
    decreases |s| - from
  {
    if from >= |s| then []
    else match MatchEnd(s, from)
      case Some(e) =>
        var rest := Spans(s, e);
        assert forall k :: 1 <= k < 1 + |rest| ==> ([(from, e)] + rest)[k] == rest[k - 1];
        [(from, e)] + rest
      case None => Spans(s, from + 1)
  }

  /** The reported matches are in order and do not overlap. */
  lemma {:induction false} SpansOrdered(s: string, from: nat)
    requires from <= |s|
    ensures forall j, k :: 0 <= j < k < |Spans(s, from)| ==> Spans(s, from)[j].1 <= Spans(s, from)[k].0
    decreases |s| - from
  {
    if from < |s| {
      match MatchEnd(s, from)
      case Some(e) =>
        SpansOrdered(s, e);
        var rest := Spans(s, e);
        assert Spans(s, from) == [(from, e)] + rest;
      case None =>
        SpansOrdered(s, from + 1);
    }
  }

  /** Every span in `spans` is a match of the expression. */
  predicate AllMatch(s: string, spans: seq<(nat, nat)>)
    decreases |spans|
  {
    |spans| == 0 || (MatchesAt(s, spans[0].0, spans[0].1) && AllMatch(s, spans[1..]))
  }

  lemma AllMatchCons(s: string, first: (nat, nat), rest: seq<(nat, nat)>)
    requires MatchesAt(s, first.0, first.1) && AllMatch(s, rest)
    ensures AllMatch(s, [first] + rest)
  {
    assert ([first] + rest)[1..] == rest;
  }

  /** The scan takes the match at `from` and resumes at its end. */
  lemma SpansTake(s: string, from: nat, e: nat)
    requires from < |s| && MatchEnd(s, from) == Some(e)
    ensures Spans(s, from) == [(from, e)] + Spans(s, e)
  {
  }

  /** Where nothing matches, the scan moves on by one. */
  lemma SpansSkip(s: string, from: nat)
    requires from < |s| && MatchEnd(s, from) == None
    ensures Spans(s, from) == Spans(s, from + 1)
  {
  }

  /** Every reported span is a match of the expression. */
  lemma {:induction false} SpansSound(s: string, from: nat)
    requires from <= |s|
    ensures AllMatch(s, Spans(s, from))
    decreases |s| - from
  {
    if from < |s| {
      match MatchEnd(s, from)
      case Some(e) =>
        MatchEndSound(s, from);
        SpansSound(s, e);
        SpansTake(s, from, e);
        AllMatchCons(s, (from, e), Spans(s, e));
      case None =>
        SpansSound(s, from + 1);
        SpansSkip(s, from);
    }
  }

  /** The match `(p, e)` is among `spans`, or starts strictly inside one of them. */
  predicate Covers(spans: seq<(nat, nat)>, p: nat, e: nat) {
    (exists k :: 0 <= k < |spans| && spans[k] == (p, e))
    || (exists k :: 0 <= k < |spans| && spans[k].0 < p < spans[k].1)
  }

  lemma CoversCons(first: (nat, nat), rest: seq<(nat, nat)>, p: nat, e: nat)
    requires Covers(rest, p, e)
    ensures Covers([first] + rest, p, e)
  {
    var spans := [first] + rest;
    if k :| 0 <= k < |rest| && rest[k] == (p, e) {
      assert spans[k + 1] == (p, e);
    } else {
      var k :| 0 <= k < |rest| && rest[k].0 < p < rest[k].1;
      assert spans[k + 1] == rest[k];
    }
  }

  /**
   * No match is missed: every match starting at or after `from` is either
   * reported or starts strictly inside a reported one (overlapping matches
   * are not reported).
   */
  lemma SpansComplete(s: string, from: nat, p: nat, e: nat)
    requires from <= p && MatchesAt(s, p, e)
    ensures Covers(Spans(s, from), p, e)
  {
    MatchEndComplete(s, p, e);
    ScanFinds(s, from, p, e);
  }

  /** The scan from `from` reaches every position the scanner matches at, or jumps over it. */
  lemma {:induction false} ScanFinds(s: string, from: nat, p: nat, e: nat)
    requires from <= p <= |s| && MatchEnd(s, p) == Some(e)
    ensures Covers(Spans(s, from), p, e)
    decreases |s| - from
  {
    var spans := Spans(s, from);
    match MatchEnd(s, from)
    case Some(e') =>
      var rest := Spans(s, e');
      assert spans == [(from, e')] + rest;
      if p == from {
        assert spans[0] == (p, e);
      } else if p < e' {
        assert spans[0].0 < p < spans[0].1;
      } else {
        ScanFinds(s, e', p, e);
        CoversCons((from, e'), rest, p, e);
      }
    case None =>
      assert from < p;
      ScanFinds(s, from + 1, p, e);
      assert spans == Spans(s, from + 1);
  }

  /** The text of each match the scan reports from `from`, in order. */
  function Texts(s: string, from: nat): seq<string>
    requires from <= |s|
    decreases |s| - from
  {
    if from >= |s| then []
    else match MatchEnd(s, from)
      case Some(e) => [s[from..e]] + Texts(s, e)
      case None => Texts(s, from + 1)
  }

  /** `texts` holds, in order, the text of each span in `spans`. */
  predicate CutOf(s: string, spans: seq<(nat, nat)>, texts: seq<string>) {
    |texts| == |spans| &&
    forall k :: 0 <= k < |spans| ==> spans[k].0 <= spans[k].1 <= |s| && texts[k] == s[spans[k].0..spans[k].1]
  }

  lemma CutOfCons(s: string, first: (nat, nat), spans: seq<(nat, nat)>, texts: seq<string>)
    requires first.0 <= first.1 <= |s| && CutOf(s, spans, texts)
    ensures CutOf(s, [first] + spans, [s[first.0..first.1]] + texts)
  {
    var sp, tx := [first] + spans, [s[first.0..first.1]] + texts;
    forall k | 1 <= k < |sp| ensures sp[k].0 <= sp[k].1 <= |s| && tx[k] == s[sp[k].0..sp[k].1] {
      assert sp[k] == spans[k - 1] && tx[k] == texts[k - 1];
    }
  }

  /** The scan finds the match `s[from..e]` at `from` and resumes at `e`. */
  lemma TextsTake(s: string, from: nat, e: nat)
    requires from < |s| && MatchEnd(s, from) == Some(e)
    ensures Texts(s, from) == [s[from..e]] + Texts(s, e)
  {
  }

  /** Where nothing matches, the scan for texts moves on by one. */
  lemma TextsSkip(s: string, from: nat)
    requires from < |s| && MatchEnd(s, from) == None
    ensures Texts(s, from) == Texts(s, from + 1)
  {
  }

  /** The texts are exactly the slices of the reported spans. */
  lemma {:induction false} TextsOfSpans(s: string, from: nat)
    requires from <= |s|
    ensures CutOf(s, Spans(s, from), Texts(s, from))
    decreases |s| - from
  {
    if from < |s| {
      match MatchEnd(s, from)
      case Some(e) =>
        TextsOfSpans(s, e);
        SpansTake(s, from, e);
        TextsTake(s, from, e);
        CutOfCons(s, (from, e), Spans(s, e), Texts(s, e));
      case None =>
        TextsOfSpans(s, from + 1);
        SpansSkip(s, from);
        TextsSkip(s, from);
    }
  }

  /** Every string in `ms` is a dotted quad. */
  predicate AllQuads(ms: seq<string>)
    decreases |ms|
  {
    |ms| == 0 || (DottedQuad(ms[0]) && AllQuads(ms[1..]))
  }

  lemma AllQuadsCons(a: string, rest: seq<string>)
    requires DottedQuad(a) && AllQuads(rest)
    ensures AllQuads([a] + rest)
  {
    assert ([a] + rest)[1..] == rest;
  }

  /** Every text the scan finds is a dotted quad. */
  lemma {:induction false} TextsAreQuads(s: string, from: nat)
    requires from <= |s|
    ensures AllQuads(Texts(s, from))
    decreases |s| - from
  {
    if from < |s| {
      match MatchEnd(s, from)
      case Some(e) =>
        MatchEndSound(s, from);
        TextsAreQuads(s, e);
        TextsTake(s, from, e);
        AllQuadsCons(s[from..e], Texts(s, e));
      case None =>
        TextsAreQuads(s, from + 1);
        TextsSkip(s, from);
    }
  }

  /** `FindAllString`: the matched text, in order. */
  function FindAll(s: string): (ms: seq<string>)
    ensures AllQuads(ms)
    ensures CutOf(s, Spans(s, 0), ms)
  {
    TextsAreQuads(s, 0);
    TextsOfSpans(s, 0);
    Texts(s, 0)
  }

  /**
   * `--grep`: the IPv4-shaped tokens of the input lines joined by spaces,
   * each the text of one match span of the joined input, in order.
   */
  function Grep(lines: seq<string>): (addrs: seq<string>)
    ensures AllQuads(addrs)
    ensures var joined := Text.Join(lines, " "); CutOf(joined, Spans(joined, 0), addrs)
  {
    FindAll(Text.Join(lines, " "))
  }

  /** A single line that is a dotted quad comes out of the filter unchanged. */
  lemma GrepKeepsAddress(a: string)
    requires DottedQuad(a)
    ensures Grep([a]) == [a]
  {
    assert Text.Join([a], " ") == a;
    assert a[0..|a|] == a;
    QuadPlaced(a, 0, |a|, a);
    TextsEnd(a);
  }

  /** A dotted quad after a non-word character (or the start) and before a space (or the end) is matched whole. */
  lemma QuadAt(s: string, p: nat, e: nat)
    requires p <= e <= |s| && DottedQuad(s[p..e])
    requires p > 0 ==> !IsWordChar(s[p - 1])
    requires e < |s| ==> s[e] == ' '
    ensures MatchEnd(s, p) == Some(e)
  {
    QuadEdges(s, p, e);
    Boundaries(s, p, e);
    MatchEndComplete(s, p, e);
  }

  lemma QuadEdges(s: string, p: nat, e: nat)
    requires p <= e <= |s| && DottedQuad(s[p..e])
    ensures p < e && IsDigit(s[p]) && IsDigit(s[e - 1])
  {
    var t := s[p..e];
    QuadEnds(t);
    assert s[p] == t[0] && s[e - 1] == t[|t| - 1];
  }

  lemma Boundaries(s: string, p: nat, e: nat)
    requires p < e <= |s| && IsDigit(s[p]) && IsDigit(s[e - 1])
    requires p > 0 ==> !IsWordChar(s[p - 1])
    requires e < |s| ==> s[e] == ' '
    ensures AtWordBoundary(s, p) && AtWordBoundary(s, e)
  {
  }

  /** A dotted quad `a` at `p..e`, after a non-word character and before a space, is the first match from `p`. */
  lemma QuadPlaced(s: string, p: nat, e: nat, a: string)
    requires p <= e <= |s| && s[p..e] == a && DottedQuad(a)
    requires p > 0 ==> !IsWordChar(s[p - 1])
    requires e < |s| ==> s[e] == ' '
    ensures Texts(s, p) == [a] + Texts(s, e)
  {
    QuadAt(s, p, e);
    TextsTake(s, p, e);
  }

  /** The scan from the end of the text finds nothing. */
  lemma TextsEnd(s: string)
    ensures Texts(s, |s|) == []
  {
  }
}
