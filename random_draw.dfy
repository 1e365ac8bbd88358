/**
 * Bounded integer sampling: piece.js `cusrand`. `Math.random()` is not modelled; each call
 * to it is a value of a draw stream supplied by the caller, one real number in [0, 1).
 */
module RandomDraw {
  import opened Wrappers

  /** A value `Math.random()` can return. */
  predicate IsUnitDraw(u: real) {
    0.0 <= u < 1.0
  }

  predicate AllUnitDraws(draws: seq<real>) {
    forall i :: 0 <= i < |draws| ==> IsUnitDraw(draws[i])
  }

  /**
   * One candidate of `cusrand`: `Math.floor(u * (max - min + 1) + min)`, in exact arithmetic.
   * A draw from [0, 1) lands in [min, max], both ends included.
   */
  function Draw(min: int, max: int, u: real): (k: int)
    ensures min <= max && IsUnitDraw(u) ==> min <= k <= max
  {
    (u * (max - min + 1) as real + min as real).Floor
  }

  /** The draw that makes `Draw(min, max, .)` come out as `k`: the left end of k's window. */
  function UnitFor(min: int, max: int, k: int): real
    requires min <= k <= max
  {
    (k - min) as real / (max - min + 1) as real
  }

  /** `Math.floor(x)` is `k` exactly when x lies in [k, k + 1). */
  lemma FloorIs(x: real, k: int)
    ensures x.Floor == k <==> k as real <= x < k as real + 1.0
  {
  }

  /** Scaling by a positive n maps the window [a/n, (a + 1)/n) onto [a, a + 1). */
  lemma ScaledWindow(u: real, n: real, a: real)
    requires n > 0.0
    ensures a <= u * n <==> a / n <= u
    ensures u * n < a + 1.0 <==> u < a / n + 1.0 / n
  {
    assert (a / n) * n == a;
    assert (a / n + 1.0 / n) * n == a + 1.0;
    assert u * n - (a / n) * n == (u - a / n) * n;
    assert u * n - (a / n + 1.0 / n) * n == (u - (a / n + 1.0 / n)) * n;
  }

  /**
   * Uniformity: `Draw` returns `k` exactly for the draws in a half-open window of width
   * 1 / (max - min + 1), so every value of [min, max] has an equal share of [0, 1).
   */
  lemma DrawWindow(min: int, max: int, u: real, k: int)
    requires min <= k <= max
    ensures Draw(min, max, u) == k <==>
      UnitFor(min, max, k) <= u < UnitFor(min, max, k) + 1.0 / (max - min + 1) as real
  {
    var n := (max - min + 1) as real;
    var x := u * n + min as real;
    FloorIs(x, k);
    ScaledWindow(u, n, (k - min) as real);
  }

  /** Every value of [min, max] is reachable: the draw `UnitFor(min, max, k)` produces `k`. */
  lemma DrawReaches(min: int, max: int, k: int)
    requires min <= k <= max
    ensures IsUnitDraw(UnitFor(min, max, k))
    ensures Draw(min, max, UnitFor(min, max, k)) == k
  {
    DrawWindow(min, max, UnitFor(min, max, k), k);
    var n := (max - min + 1) as real;
    assert (k - min) as real < n;
  }

  /**
   * The value `cusrand(min, max, exclude)` settles on: the candidate of the first draw of the
   * stream that is not in `exclude`, or `None` when every draw of the stream is excluded.
   */
  function FirstAccepted(min: int, max: int, exclude: seq<int>, draws: seq<real>): (r: Option<int>)
    ensures r.Some? ==> r.value !in exclude
    ensures r.None? <==> forall i :: 0 <= i < |draws| ==> Draw(min, max, draws[i]) in exclude
  {
    if draws == [] then None
    else if Draw(min, max, draws[0]) !in exclude then Some(Draw(min, max, draws[0]))
    else
      var r := FirstAccepted(min, max, exclude, draws[1..]);
      assert forall i :: 1 <= i < |draws| ==> draws[i] == draws[1..][i - 1];
      r
  }

  /** The accepted value of a stream of genuine draws lies in [min, max]. */
  lemma {:induction false} FirstAcceptedInRange(min: int, max: int, exclude: seq<int>, draws: seq<real>)
    requires min <= max && AllUnitDraws(draws)
    requires FirstAccepted(min, max, exclude, draws).Some?
    ensures min <= FirstAccepted(min, max, exclude, draws).value <= max
  {
    if Draw(min, max, draws[0]) in exclude {
      FirstAcceptedInRange(min, max, exclude, draws[1..]);
    }
  }

  /**
   * When `exclude` covers all of [min, max] no draw is ever accepted: the redraw loop of
   * `cusrand` does not end, whatever the stream.
   */
  lemma FullExclusionNeverAccepts(min: int, max: int, exclude: seq<int>, draws: seq<real>)
    requires min <= max && AllUnitDraws(draws)
    requires forall k :: min <= k <= max ==> k in exclude
    ensures FirstAccepted(min, max, exclude, draws) == None
  {
  }

  /**
   * piece.js `cusrand(min, max, arr)`: draw once; when an exclusion list is given, redraw
   * while the candidate is in it. The stream stands for the successive `Math.random()` calls;
   * `used` is how many of them were made. `None` means the stream ran out while the
   * candidate was still excluded (the source would go on drawing).
   */
  method Cusrand(min: int, max: int, exclude: Option<seq<int>>, draws: seq<real>)
    returns (result: Option<int>, used: nat)
    ensures used <= |draws|
    ensures exclude.None? ==> result == (if draws == [] then None else Some(Draw(min, max, draws[0])))
    ensures exclude.Some? ==> result == FirstAccepted(min, max, exclude.value, draws)
    ensures result.Some? ==> 1 <= used && result.value == Draw(min, max, draws[used - 1])
    ensures exclude.None? && draws != [] ==> used == 1
    ensures exclude.Some? ==> forall j :: 0 <= j < used - 1 ==> Draw(min, max, draws[j]) in exclude.value
    ensures exclude.Some? && result.None? ==> used == |draws|
  {
    if draws == [] {
      return None, 0;
    }
    var candidate := Draw(min, max, draws[0]);
    used := 1;
    if exclude.Some? {
      while candidate in exclude.value
        invariant 1 <= used <= |draws|
        invariant candidate == Draw(min, max, draws[used - 1])
        invariant forall j :: 0 <= j < used - 1 ==> Draw(min, max, draws[j]) in exclude.value
        invariant FirstAccepted(min, max, exclude.value, draws)
          == FirstAccepted(min, max, exclude.value, draws[used - 1..])
        decreases |draws| - used
      {
        if used == |draws| {
          return None, used;
        }
        assert draws[used - 1..][1..] == draws[used..];
        candidate := Draw(min, max, draws[used]);
        used := used + 1;
      }
    }
    result := Some(candidate);
  }
}
