/** `Math.random` as explicit state: a fixed stream of draws in [0, 1) and a
    cursor that every call advances, so each run of the engine is a
    deterministic function of the stream. */
module Entropy {
  import opened Text

  /** The values `Math.random()` can return. */
  type Draw = r: real | 0.0 <= r < 1.0

  /** The characters of a JavaScript number printed in decimal or exponent form. */
  predicate IsNumeralChar(c: char) {
    IsDigit(c) || c == '.' || c == 'e' || c == '-' || c == '+'
  }

  /** How JavaScript prints a draw: numeral characters only (so never a line feed). */
  type NumberText = s: string | forall i :: 0 <= i < |s| ==> IsNumeralChar(s[i])

  /** `Math.floor(r * n)` for a draw `r`: an index below `n`. */
  function Scaled(r: Draw, n: nat): (k: nat)
    requires n > 0
    ensures k < n
  {
    ScaledBelow(r, n);
    (r * n as real).Floor
  }

  /** The index is the integer part of `r * n`. */
  lemma ScaledIsFloor(r: Draw, n: nat)
    requires n > 0
    ensures Scaled(r, n) as real <= r * n as real < Scaled(r, n) as real + 1.0
  {
  }

  lemma ScaledBelow(r: Draw, n: nat)
    requires n > 0
    ensures 0.0 <= r * n as real < n as real
  {
    assert r * n as real < 1.0 * n as real;
  }

  class MathRandom {
    /** The value returned by the k-th call. */
    const draws: nat -> Draw
    /** How JavaScript prints a draw inside a template literal. */
    const numberText: Draw -> NumberText
    /** How many draws have been taken so far. */
    var next: nat

    constructor (draws: nat -> Draw, numberText: Draw -> NumberText)
      ensures this.draws == draws && this.numberText == numberText && next == 0
    {
      this.draws := draws;
      this.numberText := numberText;
      next := 0;
    }

    /** One call of `Math.random()`. */
    method Next() returns (r: Draw)
      modifies this
      ensures r == draws(old(next)) && next == old(next) + 1
    {
      r := draws(next);
      next := next + 1;
    }

    /** `Math.floor(Math.random() * n)`. */
    method Below(n: nat) returns (k: nat)
      requires n > 0
      modifies this
      ensures k == Scaled(draws(old(next)), n) && k < n && next == old(next) + 1
    {
      var r := Next();
      k := Scaled(r, n);
    }

    /** `Math.random() > p`. */
    method Above(p: real) returns (b: bool)
      modifies this
      ensures b == (draws(old(next)) > p) && next == old(next) + 1
    {
      var r := Next();
      b := r > p;
    }
  }
}
