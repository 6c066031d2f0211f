/** Complex numbers and the iteration formula `z * z + c` of the escape-time renderer.
    Components are exact reals: this is NOT IEEE f64 arithmetic, so rounding, drift,
    infinities and NaN are outside the model. */
module Complex {

  datatype Comp = Comp(r: real, i: real)

  function Add(a: Comp, b: Comp): (s: Comp) {
    Comp(a.r + b.r, a.i + b.i)
  }

  function Mul(a: Comp, b: Comp): (p: Comp) {
    Comp(a.r * b.r - a.i * b.i, a.r * b.i + a.i * b.r)
  }

  /** |z|^2, compared against bound^2 so that no square root is needed. */
  function NormSq(z: Comp): (n: real) {
    z.r * z.r + z.i * z.i
  }

  /** The `formula` closure shared by both render variants. */
  function Formula(z: Comp, c: Comp): (next: Comp) {
    Add(Mul(z, z), c)
  }

  /** The k-th point of the orbit of z0 under z -> z * z + c. */
  function Orbit(z0: Comp, c: Comp, k: nat): (z: Comp) {
    if k == 0 then z0 else Formula(Orbit(z0, c, k - 1), c)
  }

  /** The origin is a fixed point of z -> z * z + 0: the orbit of 0 under c = 0 stays at 0. */
  lemma {:induction false} OriginIsFixed(k: nat)
    ensures Orbit(Comp(0.0, 0.0), Comp(0.0, 0.0), k) == Comp(0.0, 0.0)
  {
    if k > 0 {
      OriginIsFixed(k - 1);
    }
  }
}
