/** The integer overloads of `p2d::Math`: min, max and clamp on 32-bit ints. */
module P2dMath {
  import opened Bytes

  /** Math::min(int, int) */
  function Min(a: i32, b: i32): (r: i32)
    ensures r <= a && r <= b
    ensures r == a || r == b
  {
    if a < b then a else b
  }

  /** Math::max(int, int) */
  function Max(a: i32, b: i32): (r: i32)
    ensures a <= r && b <= r
    ensures r == a || r == b
  {
    if a > b then a else b
  }

  /** Math::clamp(int min, int max, int n): `max(min, min(max, n))`. */
  function Clamp(min: i32, max: i32, n: i32): (r: i32)
    ensures min <= max ==> min <= r <= max
    ensures min <= n <= max ==> r == n
    ensures n < min ==> r == min
    ensures min <= max < n ==> r == max
    ensures max < min ==> r == min
  {
    Max(min, Min(max, n))
  }
}
