/** Division rounded up. */
module Rounding {

  function CeilDiv(a: nat, b: nat): (n: nat)
    requires b > 0
    ensures a <= n * b < a + b
  {
    (a + b - 1) / b
  }

  lemma Monotone(x: int, y: int, c: nat)
    requires x <= y
    ensures x * c <= y * c
  {
  }

  lemma CeilDivIsLeast(a: nat, b: nat, n: nat)
    requires b > 0
    ensures n * b < a <==> n < CeilDiv(a, b)
  {
    hide CeilDiv;
    var q := CeilDiv(a, b);
    if n < q {
      Monotone(n + 1, q, b);
    } else {
      Monotone(q, n, b);
    }
  }
}
