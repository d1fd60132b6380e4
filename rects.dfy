/** `System.Drawing.Rectangle` as the packer and the texture code use it, and
    the truncating `(int)` cast from a real. */
module Rects {
  datatype Rect = Rect(x: int, y: int, width: int, height: int)
  {
    function Right(): int { x + width }
    function Bottom(): int { y + height }
  }

  /** `(int)r`: rounds toward zero, unlike `Floor`, which rounds down. */
  function Trunc(r: real): (n: int)
    ensures r >= 0.0 ==> 0 <= n && n as real <= r < n as real + 1.0
    ensures r < 0.0 ==> n <= 0 && n as real - 1.0 < r <= n as real
  {
    if r >= 0.0 then r.Floor else -((-r).Floor)
  }

  /** Truncation is monotone. */
  lemma {:induction false} TruncMonotone(a: real, b: real)
    requires a <= b
    ensures Trunc(a) <= Trunc(b)
  {
    if a < 0.0 && b >= 0.0 {
    } else if a >= 0.0 {
      assert a.Floor <= b.Floor;
    } else {
      assert (-b).Floor <= (-a).Floor;
    }
  }
}
