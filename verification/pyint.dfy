/** Python integer operations whose Dafny counterparts differ: `//` and `str(int)`. */
module PyInt {
  import opened Strings

  /** Python's `a // b`: the quotient rounded toward negative infinity. */
  function FloorDiv(a: int, b: int): (q: int)
    requires b != 0
    ensures b > 0 ==> q * b <= a < q * b + b
    ensures b < 0 ==> q * b >= a > q * b + b
  {
    if b > 0 then a / b else (-a) / (-b)
  }

  /** `(total + size - 1) // size` is the ceiling of `total / size` for a positive size. */
  lemma CeilingPages(total: nat, size: int)
    requires size != 0
    ensures size > 0 ==>
      var p := FloorDiv(total + size - 1, size);
      && p >= 0
      && (total == 0 ==> p == 0)
      && (total > 0 ==> (p - 1) * size < total <= p * size)
  {
    if size > 0 {
      var p := FloorDiv(total + size - 1, size);
      assert p * size <= total + size - 1 < p * size + size;
    }
  }

  /** `str(n)` for any integer. */
  function IntToString(n: int): (r: string)
    ensures |r| >= 1
    ensures n >= 0 ==> r == NatToString(n)
    ensures n < 0 ==> r == "-" + NatToString(-n)
  {
    if n >= 0 then NatToString(n) else "-" + NatToString(-n)
  }
}
