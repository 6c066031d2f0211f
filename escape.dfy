/** The escape-count loop that `ispace` and `pspace` run for every pixel. The two
    variants differ only in the starting value and the parameter they pass, so one
    method takes both. */
module Escape {
  import opened Complex

  /** The orbit point number k lies outside the escape bound. */
  predicate EscapesAt(z0: Comp, c: Comp, bound: real, k: nat) {
    NormSq(Orbit(z0, c, k)) > bound * bound
  }

  /** n is the first step below `iterate` at which the orbit is outside the bound. */
  predicate IsFirstEscape(z0: Comp, c: Comp, bound: real, iterate: nat, n: nat) {
    n < iterate && EscapesAt(z0, c, bound, n) &&
    forall j :: 0 <= j < n ==> !EscapesAt(z0, c, bound, j)
  }

  /** Any escape below `iterate` implies a first one. */
  lemma {:induction false} FirstEscapeExists(z0: Comp, c: Comp, bound: real, iterate: nat, k: nat)
    requires k < iterate && EscapesAt(z0, c, bound, k)
    ensures exists n :: IsFirstEscape(z0, c, bound, iterate, n)
    decreases k
  {
    if exists j :: 0 <= j < k && EscapesAt(z0, c, bound, j) {
      var j :| 0 <= j < k && EscapesAt(z0, c, bound, j);
      FirstEscapeExists(z0, c, bound, iterate, j);
    } else {
      assert IsFirstEscape(z0, c, bound, iterate, k);
    }
  }

  /** The first escape step is unique. */
  lemma FirstEscapeUnique(z0: Comp, c: Comp, bound: real, iterate: nat, n: nat, m: nat)
    requires IsFirstEscape(z0, c, bound, iterate, n) && IsFirstEscape(z0, c, bound, iterate, m)
    ensures n == m
  {
  }

  /** The value the source's counter holds when the loop exits: the least k < iterate at
      which the orbit is outside the bound, or 0 when there is none. A pixel that never
      escapes is reset to 0 (src/main.rs), so it cannot be told apart from one that is
      outside from the start. The count is never `iterate` once iterate > 0. */
  ghost function EscapeCount(z0: Comp, c: Comp, bound: real, iterate: nat): (n: nat)
    ensures (exists k :: 0 <= k < iterate && EscapesAt(z0, c, bound, k)) ==> IsFirstEscape(z0, c, bound, iterate, n)
    ensures (forall k :: 0 <= k < iterate ==> !EscapesAt(z0, c, bound, k)) ==> n == 0
    ensures iterate > 0 ==> n < iterate
  {
    if exists k :: 0 <= k < iterate && EscapesAt(z0, c, bound, k) then
      var k :| 0 <= k < iterate && EscapesAt(z0, c, bound, k);
      FirstEscapeExists(z0, c, bound, iterate, k);
      var n: nat :| IsFirstEscape(z0, c, bound, iterate, n);
      n
    else
      0
  }

  /** A count of 0 means exactly one of two things: the start is already outside the
      bound, or the orbit never leaves it within `iterate` steps. */
  lemma ZeroCountIffImmediateOrNever(z0: Comp, c: Comp, bound: real, iterate: nat)
    ensures EscapeCount(z0, c, bound, iterate) == 0 <==>
      ((iterate > 0 && NormSq(z0) > bound * bound) ||
       (forall k :: 0 <= k < iterate ==> !EscapesAt(z0, c, bound, k)))
  {
    if exists k :: 0 <= k < iterate && EscapesAt(z0, c, bound, k) {
      var k :| 0 <= k < iterate && EscapesAt(z0, c, bound, k);
      FirstEscapeExists(z0, c, bound, iterate, k);
      var n := EscapeCount(z0, c, bound, iterate);
      assert IsFirstEscape(z0, c, bound, iterate, n);
      if n == 0 {
        assert EscapesAt(z0, c, bound, 0);
      } else {
        assert !EscapesAt(z0, c, bound, 0);
      }
    }
  }

  /** The inner `loop` of ispace/pspace: start at z0, stop with the counter reset to 0 once
      it reaches `iterate`, stop as soon as |z|^2 > bound^2, otherwise step the formula. */
  method Evaluate(z0: Comp, c: Comp, bound: real, iterate: nat) returns (counter: nat)
    ensures counter == EscapeCount(z0, c, bound, iterate)
    ensures counter == 0 || IsFirstEscape(z0, c, bound, iterate, counter)
  {
    counter := 0;
    var z := z0;
    while true
      invariant counter <= iterate
      invariant z == Orbit(z0, c, counter)
      invariant forall j :: 0 <= j < counter ==> !EscapesAt(z0, c, bound, j)
      decreases iterate - counter
    {
      if counter == iterate {
        counter := 0;
        break;
      }
      if NormSq(z) > bound * bound {
        assert IsFirstEscape(z0, c, bound, iterate, counter);
        FirstEscapeUnique(z0, c, bound, iterate, counter, EscapeCount(z0, c, bound, iterate));
        return;
      }
      z := Formula(z, c);
      counter := counter + 1;
    }
  }

  /** Starting at the origin with parameter 0 the orbit never leaves any bound, so the
      count is 0, the same value an immediate escape gives. */
  lemma OriginNeverEscapes(bound: real, iterate: nat)
    ensures forall k :: 0 <= k < iterate ==> !EscapesAt(Comp(0.0, 0.0), Comp(0.0, 0.0), bound, k)
    ensures EscapeCount(Comp(0.0, 0.0), Comp(0.0, 0.0), bound, iterate) == 0
  {
    forall k | 0 <= k < iterate
      ensures !EscapesAt(Comp(0.0, 0.0), Comp(0.0, 0.0), bound, k)
    {
      OriginIsFixed(k);
      assert NormSq(Orbit(Comp(0.0, 0.0), Comp(0.0, 0.0), k)) == 0.0;
      SquareNonNegative(bound);
    }
  }

  lemma SquareNonNegative(x: real)
    ensures 0.0 <= x * x
  {
    if x < 0.0 {
      assert x * x == (-x) * (-x);
    }
  }
}
