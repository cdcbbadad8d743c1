/** What several modules share. */
module Common {

  type byte = x: int | 0 <= x < 256

  datatype Option<T> = None | Some(value: T)

  /** How many pieces of at most b make up n: n divided by b, rounded up. */
  function Units(n: nat, b: nat): nat
    requires b > 0
  {
    if n == 0 then 0 else if n <= b then 1 else 1 + Units(n - b, b)
  }

  lemma {:induction false} UnitsIs(n: nat, b: nat)
    requires b > 0
    ensures (Units(n, b) - 1) * b < n || n == 0
    ensures n <= Units(n, b) * b
  {
    if n > b {
      UnitsIs(n - b, b);
      var u := Units(n - b, b);
      assert (u + 1) * b == u * b + b && u * b == (u - 1) * b + b;
    }
  }
}
