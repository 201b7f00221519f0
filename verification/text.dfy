/**
 * The pieces of Go's `strings` package the core relies on: `Index`, `Split`
 * (with a one-element separator) and `Join`. They are generic over the
 * element type so that they serve both `string` (`seq<char>`) and `[]byte`.
 */
module Text {

  /** A Go `byte`. */
  newtype byte = x: int | 0 <= x < 256

  /** `sub` occurs in `s` starting at position `j`. */
  predicate OccursAt<T(==)>(s: seq<T>, sub: seq<T>, j: nat) {
    j + |sub| <= |s| && s[j..j + |sub|] == sub
  }

  /** `sub` occurs somewhere in `s`. */
  predicate Contains<T(==)>(s: seq<T>, sub: seq<T>) {
    exists j: nat :: j <= |s| && OccursAt(s, sub, j)
  }

  /**
   * `strings.Index(s, sub)`: the position of the first occurrence of `sub`
   * in `s`, or -1 when there is none. The empty `sub` occurs at 0.
   */
  function IndexOf<T(==)>(s: seq<T>, sub: seq<T>): (r: int)
    ensures -1 <= r <= |s|
    ensures r >= 0 ==> OccursAt(s, sub, r)
    ensures r >= 0 ==> forall j: nat :: j < r ==> !OccursAt(s, sub, j)
    ensures r == -1 <==> !Contains(s, sub)
  {
    IndexFrom(s, sub, 0)
  }

  /** The first occurrence of `sub` in `s` at or after position `k`, or -1. */
  function IndexFrom<T(==)>(s: seq<T>, sub: seq<T>, k: nat): (r: int)
    ensures r == -1 || (k <= r <= |s| && OccursAt(s, sub, r))
    ensures r >= 0 ==> forall j: nat :: k <= j < r ==> !OccursAt(s, sub, j)
    ensures r == -1 ==> forall j: nat :: k <= j ==> !OccursAt(s, sub, j)
    decreases |s| - k
  {
    if k + |sub| > |s| then -1
    else if s[k..k + |sub|] == sub then k
    else IndexFrom(s, sub, k + 1)
  }

  /** The position of the first `x` in `s`. */
  function Find<T(==)>(s: seq<T>, x: T): (i: nat)
    requires x in s
    ensures i < |s| && s[i] == x
  {
    if s[0] == x then 0
    else
      assert x in s[1..] by { assert s == [s[0]] + s[1..]; }
      1 + Find(s[1..], x)
  }

  /** No `x` comes before the one `Find` reports. */
  lemma {:induction false} FindFirst<T>(s: seq<T>, x: T)
    requires x in s
    ensures x !in s[..Find(s, x)]
  {
    if s[0] != x {
      assert x in s[1..] by { assert s == [s[0]] + s[1..]; }
      FindFirst(s[1..], x);
      var i := Find(s, x);
      assert s[..i] == [s[0]] + s[1..][..i - 1];
    }
  }

  /** The first `x` is at `i` when `x` is there and not before. */
  lemma FindUnique<T>(s: seq<T>, x: T, i: nat)
    requires i < |s| && s[i] == x && x !in s[..i]
    ensures Find(s, x) == i
  {
    FindFirst(s, x);
  }

  /** `strings.Join(parts, sep)`: the parts with `sep` between neighbours. */
  function Join<T>(parts: seq<seq<T>>, sep: seq<T>): seq<T> {
    if |parts| == 0 then []
    else if |parts| == 1 then parts[0]
    else parts[0] + sep + Join(parts[1..], sep)
  }

  /**
   * `strings.Split(s, string(sep))`: the fields of `s` between occurrences of
   * `sep`. There is always at least one field, none holds `sep`, and there
   * is more than one exactly when `sep` occurs.
   */
  function Split<T(==)>(s: seq<T>, sep: T): (r: seq<seq<T>>)
    ensures |r| >= 1
    ensures forall i :: 0 <= i < |r| ==> sep !in r[i]
    ensures |r| == 1 <==> sep !in s
    decreases |s|
  {
    if sep !in s then [s]
    else
      var i := Find(s, sep);
      FindFirst(s, sep);
      [s[..i]] + Split(s[i + 1..], sep)
  }

  /** Joining the fields of a split with the separator gives back the string. */
  lemma {:induction false} JoinSplit<T>(s: seq<T>, sep: T)
    ensures Join(Split(s, sep), [sep]) == s
    decreases |s|
  {
    if sep in s {
      var i := Find(s, sep);
      var a, t := s[..i], s[i + 1..];
      calc {
        Join(Split(s, sep), [sep]);
        { SplitFirst(s, sep); }
        Join([a] + Split(t, sep), [sep]);
        { JoinCons(a, Split(t, sep), [sep]); }
        a + [sep] + Join(Split(t, sep), [sep]);
        { JoinSplit(t, sep); }
        a + [sep] + t;
        { Around(s, i); }
        s;
      }
    }
  }

  /** A sequence is its prefix, the element at `i`, and its suffix. */
  lemma Around<T>(s: seq<T>, i: nat)
    requires i < |s|
    ensures s[..i] + [s[i]] + s[i + 1..] == s
  {
  }

  /** Joining a part in front of at least one more. */
  lemma JoinCons<T>(a: seq<T>, rest: seq<seq<T>>, sep: seq<T>)
    requires |rest| >= 1
    ensures Join([a] + rest, sep) == a + sep + Join(rest, sep)
  {
    assert ([a] + rest)[1..] == rest;
  }

  /** Joining a part after at least one more: the join grows at its end. */
  lemma {:induction false} JoinPush<T>(parts: seq<seq<T>>, last: seq<T>, sep: seq<T>)
    requires |parts| >= 1
    ensures Join(parts + [last], sep) == Join(parts, sep) + sep + last
    decreases |parts|
  {
    if |parts| == 1 {
      assert (parts + [last])[1..] == [last];
    } else {
      assert (parts + [last])[1..] == parts[1..] + [last];
      JoinPush(parts[1..], last, sep);
    }
  }

  /** The join of the first `n` parts, built one part at a time. */
  lemma JoinPrefix<T>(parts: seq<seq<T>>, n: nat, sep: seq<T>)
    requires 1 <= n <= |parts|
    ensures n == 1 ==> Join(parts[..n], sep) == parts[0]
    ensures n > 1 ==> Join(parts[..n], sep) == Join(parts[..n - 1], sep) + sep + parts[n - 1]
  {
    if n > 1 {
      assert parts[..n] == parts[..n - 1] + [parts[n - 1]];
      JoinPush(parts[..n - 1], parts[n - 1], sep);
    }
  }

  /** Three parts joined. */
  lemma JoinThree<T>(a: seq<T>, b: seq<T>, c: seq<T>, sep: seq<T>)
    ensures Join([a, b, c], sep) == a + sep + b + sep + c
  {
    calc {
      Join([a, b, c], sep);
      { assert [a, b, c][1..] == [b, c]; }
      a + sep + Join([b, c], sep);
      { assert [b, c][1..] == [c]; }
      a + sep + (b + sep + c);
    }
  }

  /** Four parts joined. */
  lemma JoinFour<T>(a: seq<T>, b: seq<T>, c: seq<T>, d: seq<T>, sep: seq<T>)
    ensures Join([a, b, c, d], sep) == a + sep + b + sep + c + sep + d
  {
    calc {
      Join([a, b, c, d], sep);
      { assert [a, b, c, d][1..] == [b, c, d]; }
      a + sep + Join([b, c, d], sep);
      { JoinThree(b, c, d, sep); }
      a + sep + (b + sep + c + sep + d);
    }
  }

  /** A string holding the separator splits into the text before its first one and the fields after it. */
  lemma SplitFirst<T>(s: seq<T>, sep: T)
    requires sep in s
    ensures Split(s, sep) == [s[..Find(s, sep)]] + Split(s[Find(s, sep) + 1..], sep)
  {
  }

  /**
   * The first two fields of a string holding the separator: the text before
   * its first occurrence, then the text up to the next one or the end.
   */
  lemma SplitSecond<T>(s: seq<T>, sep: T)
    requires sep in s
    ensures |Split(s, sep)| >= 2
    ensures var a, b := Split(s, sep)[0], Split(s, sep)[1];
      && |a| + 1 + |b| <= |s|
      && s == a + [sep] + b + s[|a| + 1 + |b|..]
      && (|a| + 1 + |b| < |s| ==> s[|a| + 1 + |b|] == sep)
  {
    var i := Find(s, sep);
    var t := s[i + 1..];
    assert |Split(s, sep)| >= 2 && Split(s, sep)[0] == s[..i] && Split(s, sep)[1] == Split(t, sep)[0] by {
      SplitFirst(s, sep);
    }
    var a, b := Split(s, sep)[0], Split(s, sep)[1];
    assert |b| <= |t| && b == t[..|b|] && (|b| < |t| ==> t[|b|] == sep) by {
      SplitHead(t, sep);
    }
    Decompose(s, sep, a, b);
    assert |b| < |t| ==> s[|a| + 1 + |b|] == t[|b|];
  }

  /** A string cut at a separator into `a`, the separator, a prefix `b` of the rest, and what follows. */
  lemma Decompose<T>(s: seq<T>, sep: T, a: seq<T>, b: seq<T>)
    requires |a| < |s| && s[|a|] == sep && a == s[..|a|]
    requires |a| + 1 + |b| <= |s| && b == s[|a| + 1..][..|b|]
    ensures s == a + [sep] + b + s[|a| + 1 + |b|..]
  {
    SliceOfSuffix(s, |a| + 1, |b|);
  }

  /** A prefix of a suffix is a slice. */
  lemma SliceOfSuffix<T>(s: seq<T>, i: nat, n: nat)
    requires i + n <= |s|
    ensures s[i..][..n] == s[i..i + n]
  {
  }

  /** Splitting the join of separator-free parts gives the parts back. */
  lemma {:induction false} SplitJoin<T>(parts: seq<seq<T>>, sep: T)
    requires |parts| >= 1
    requires forall i :: 0 <= i < |parts| ==> sep !in parts[i]
    ensures Split(Join(parts, [sep]), sep) == parts
    decreases |parts|
  {
    if |parts| == 1 {
      assert Join(parts, [sep]) == parts[0];
    } else {
      var p, rest := parts[0], parts[1..];
      calc {
        Split(Join(parts, [sep]), sep);
        { assert parts == [p] + rest; JoinCons(p, rest, [sep]); }
        Split(p + [sep] + Join(rest, [sep]), sep);
        { SplitCons(p, sep, Join(rest, [sep])); }
        [p] + Split(Join(rest, [sep]), sep);
        { SplitJoin(rest, sep); }
        [p] + rest;
        parts;
      }
    }
  }

  /** A separator-free part, the separator and a tail split into the part and the fields of the tail. */
  lemma SplitCons<T>(p: seq<T>, sep: T, tail: seq<T>)
    requires sep !in p
    ensures Split(p + [sep] + tail, sep) == [p] + Split(tail, sep)
  {
    var s := p + [sep] + tail;
    assert s[|p|] == sep;
    assert s[..|p|] == p;
    FindUnique(s, sep, |p|);
    assert s[|p| + 1..] == tail;
    SplitFirst(s, sep);
  }

  /**
   * The first field of a split is the longest prefix of `s` free of `sep`:
   * it is a prefix, holds no `sep`, and is followed by `sep` unless it is
   * all of `s`.
   */
  lemma SplitHead<T>(s: seq<T>, sep: T)
    ensures |Split(s, sep)[0]| <= |s|
    ensures Split(s, sep)[0] == s[..|Split(s, sep)[0]|]
    ensures sep !in Split(s, sep)[0]
    ensures |Split(s, sep)[0]| < |s| ==> s[|Split(s, sep)[0]|] == sep
    ensures sep !in s ==> Split(s, sep)[0] == s
  {
    if sep in s {
      var i := Find(s, sep);
      assert Split(s, sep)[0] == s[..i];
    }
  }
}
