/**
 * Go returns a value and an error side by side; here the pair is one of
 * two alternatives. `Option` stands for a nil-able slice or pointer.
 */
module Returns {

  datatype Option<+T> = None | Some(value: T)

  datatype Result<+R, +E> = Ok(value: R) | Err(error: E) {
    /** The value, or `zero` for an error that the caller drops (`v, _ := f()`). */
    function GetOr(zero: R): R {
      if Ok? then value else zero
    }
  }

  /** How many of the results are successes. */
  function OkCount<R, E>(rs: seq<Result<R, E>>): nat {
    if |rs| == 0 then 0 else (if rs[0].Ok? then 1 else 0) + OkCount(rs[1..])
  }

  /**
   * The values of the successful results, in order: what is left of a batch
   * of operations once the failures' errors are dropped; `SuccessCounts`
   * shows each value appears exactly as often as it succeeded.
   */
  function Successes<R, E>(rs: seq<Result<R, E>>): (vs: seq<R>)
    ensures |vs| == OkCount(rs) <= |rs|
    ensures |vs| == |rs| <==> forall k :: 0 <= k < |rs| ==> rs[k].Ok?
    ensures forall k :: 0 <= k < |rs| && rs[k].Ok? ==> rs[k].value in vs
    ensures forall v :: v in vs ==> Ok(v) in rs
  {
    if |rs| == 0 then []
    else
      var rest := Successes(rs[1..]);
      assert forall k :: 1 <= k < |rs| ==> rs[k] == rs[1..][k - 1];
      assert forall r :: r in rs[1..] ==> r in rs;
      match rs[0]
      case Err(_) => rest
      case Ok(v) => [v] + rest
  }

  /** A value is kept once for every time it succeeded, and a value that never succeeded is not kept. */
  lemma {:induction false} SuccessCounts<R(!new), E>(rs: seq<Result<R, E>>)
    ensures forall v :: multiset(Successes(rs))[v] == multiset(rs)[Ok(v)]
  {
    if |rs| > 0 {
      SuccessCounts(rs[1..]);
      assert rs == [rs[0]] + rs[1..];
      assert multiset(rs) == multiset{rs[0]} + multiset(rs[1..]);
      if rs[0].Ok? {
        assert Successes(rs) == [rs[0].value] + Successes(rs[1..]);
      }
    }
  }
}
