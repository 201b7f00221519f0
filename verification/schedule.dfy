/**
 * The order in which concurrently running goroutines reach a shared writer.
 *
 * The source starts one goroutine per unit of work and lets each print when
 * it finishes, so the output order is whatever the scheduler and the network
 * make it. The model takes that order as an input: `picks[k]` names which
 * of the units still running prints next (a missing or out-of-range pick
 * means the first remaining unit). Every sequence of picks is a
 * legal schedule, and every permutation is produced by some schedule.
 */
module Schedule {
  import Text

  /** The index, among `n > 0` remaining units, of the one that prints next. */
  function Pick(picks: seq<nat>, n: nat): (i: nat)
    requires n > 0
    ensures i < n
  {
    if |picks| > 0 && picks[0] < n then picks[0] else 0
  }

  /** The picks left for the remaining units. */
  function Rest(picks: seq<nat>): seq<nat> {
    if |picks| > 0 then picks[1..] else []
  }

  /**
   * The units `xs` in the order the schedule `picks` lets them print: each
   * unit appears exactly as often as it was started.
   */
  function Arrange<T>(xs: seq<T>, picks: seq<nat>): (r: seq<T>)
    ensures |r| == |xs|
    ensures multiset(r) == multiset(xs)
    decreases |xs|
  {
    if |xs| == 0 then []
    else
      var i := Pick(picks, |xs|);
      var rest := xs[..i] + xs[i + 1..];
      assert xs == xs[..i] + [xs[i]] + xs[i + 1..];
      [xs[i]] + Arrange(rest, Rest(picks))
  }

  /** Taking one unit out of the running ones removes exactly that unit. */
  lemma RemoveAt<T>(xs: seq<T>, i: nat)
    requires i < |xs|
    ensures multiset(xs[..i] + xs[i + 1..]) == multiset(xs) - multiset{xs[i]}
  {
    assert xs == xs[..i] + [xs[i]] + xs[i + 1..];
  }

  /** Once the first of `ys` is found among `xs` and printed, the units still running are the rest of `ys`. */
  lemma RestMatches<T>(xs: seq<T>, ys: seq<T>, i: nat)
    requires multiset(ys) == multiset(xs) && |ys| > 0 && i < |xs| && xs[i] == ys[0]
    ensures multiset(xs[..i] + xs[i + 1..]) == multiset(ys[1..])
  {
    calc {
      multiset(xs[..i] + xs[i + 1..]);
      { RemoveAt(xs, i); }
      multiset(xs) - multiset{ys[0]};
      multiset(ys) - multiset{ys[0]};
      { assert ys == [ys[0]] + ys[1..]; }
      multiset(ys[1..]);
    }
  }

  /** A schedule that produces the order `ys` from the units `xs`. */
  function PicksFor<T(==)>(xs: seq<T>, ys: seq<T>): seq<nat>
    requires multiset(ys) == multiset(xs)
    decreases |ys|
  {
    if |ys| == 0 then []
    else
      assert ys[0] in multiset(ys);
      var i := Text.Find(xs, ys[0]);
      RestMatches(xs, ys, i);
      [i] + PicksFor(xs[..i] + xs[i + 1..], ys[1..])
  }

  /** The first step of `PicksFor`: pick the first running copy of `ys[0]`, then schedule the rest. */
  lemma PicksForFirst<T>(xs: seq<T>, ys: seq<T>, i: nat)
    requires multiset(ys) == multiset(xs) && |ys| > 0
    requires ys[0] in xs && i == Text.Find(xs, ys[0])
    requires multiset(xs[..i] + xs[i + 1..]) == multiset(ys[1..])
    ensures PicksFor(xs, ys) == [i] + PicksFor(xs[..i] + xs[i + 1..], ys[1..])
  {
  }

  /** Every reordering of the units is the output of some schedule. */
  lemma {:induction false} EveryOrderReachable<T>(xs: seq<T>, ys: seq<T>)
    requires multiset(ys) == multiset(xs)
    ensures Arrange(xs, PicksFor(xs, ys)) == ys
    decreases |ys|
  {
    if |ys| == 0 {
      assert |xs| == |multiset(xs)| == 0;
    } else {
      assert ys[0] in xs by {
        assert ys[0] in multiset(ys);
      }
      var i := Text.Find(xs, ys[0]);
      var rest := xs[..i] + xs[i + 1..];
      RestMatches(xs, ys, i);
      PicksForFirst(xs, ys, i);
      var later := PicksFor(rest, ys[1..]);
      calc {
        Arrange(xs, PicksFor(xs, ys));
        Arrange(xs, [i] + later);
        { ArrangeFirst(xs, i, later); }
        [xs[i]] + Arrange(rest, later);
        { EveryOrderReachable(rest, ys[1..]); }
        [ys[0]] + ys[1..];
        ys;
      }
    }
  }

  /** Some schedule produces any given reordering of the units. */
  lemma ScheduleExists<T>(xs: seq<T>, ys: seq<T>)
    requires multiset(ys) == multiset(xs)
    ensures exists picks :: Arrange(xs, picks) == ys
  {
    EveryOrderReachable(xs, ys);
  }

  /** A schedule whose first pick is `i` prints unit `i` first. */
  lemma ArrangeFirst<T>(xs: seq<T>, i: nat, later: seq<nat>)
    requires i < |xs|
    ensures Arrange(xs, [i] + later) == [xs[i]] + Arrange(xs[..i] + xs[i + 1..], later)
  {
    assert Pick([i] + later, |xs|) == i;
    assert Rest([i] + later) == later;
  }
}
