/** Quantisation of an escape count to one of the 16 symbols of HEX_GS. */
module Quantise {

  /** The symbol table HEX_GS: sixteen hexadecimal digits used as an intensity scale. */
  const HexGs: string := "0123456789abcdef"

  /** The table index `counter * 16 / iterate` (integer division, rounding down). The
      source divides by `iterate`, so iterate == 0 would panic; the escape loop keeps
      `counter` below `iterate`, which keeps the index inside the table. */
  function SymbolIndex(counter: nat, iterate: nat): (k: nat)
    requires 0 < iterate && counter < iterate
    ensures k < |HexGs|
    ensures k * iterate <= counter * 16 < k * iterate + iterate
  {
    var k := counter * 16 / iterate;
    DivisionBounds(counter, iterate);
    k
  }

  /** Floor division by `iterate` of a value below 16 * iterate stays below 16. */
  lemma DivisionBounds(counter: nat, iterate: nat)
    requires 0 < iterate && counter < iterate
    ensures var k := counter * 16 / iterate;
      k < 16 && k * iterate <= counter * 16 < k * iterate + iterate
  {
    var k := counter * 16 / iterate;
    assert k * iterate <= counter * 16 < k * iterate + iterate;
    if k >= 16 {
      MulLeftMonotone(16, k, iterate);
      assert false;
    }
  }

  /** The symbol printed for an escape count. */
  function Symbol(counter: nat, iterate: nat): (ch: char)
    requires 0 < iterate && counter < iterate
    ensures ch in HexGs
  {
    HexGs[SymbolIndex(counter, iterate)]
  }

  lemma MulLeftMonotone(a: nat, b: nat, m: nat)
    requires a <= b
    ensures a * m <= b * m
  {
  }

  /** A larger count never gives a smaller symbol index. */
  lemma {:induction false} SymbolIndexMonotone(a: nat, b: nat, iterate: nat)
    requires 0 < iterate && a <= b < iterate
    ensures SymbolIndex(a, iterate) <= SymbolIndex(b, iterate)
  {
    var ka, kb := SymbolIndex(a, iterate), SymbolIndex(b, iterate);
    if kb < ka {
      MulLeftMonotone(kb + 1, ka, iterate);
      assert false;
    }
  }
}
