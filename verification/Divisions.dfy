/** The few facts about division that digits and flag bits rest on. */
module Divisions {
  lemma DivAdd(x: nat, d: nat, k: nat)
    requires d > 0
    ensures (x + d * k) / d == x / d + k
  {
    DivIs(x + d * k, d, x / d + k, x % d);
  }

  lemma DivIs(x: nat, d: nat, q: nat, r: nat)
    requires d > 0 && x == d * q + r && r < d
    ensures x / d == q
  {
    SmallMultiple(x / d - q, d);
  }

  lemma SmallMultiple(k: int, d: nat)
    requires 0 - d < d * k < d
    ensures k == 0
  {
  }

  lemma DivDiv(x: nat, a: nat, b: nat)
    requires a > 0 && b > 0
    ensures a * b > 0 && x / (a * b) == x / a / b
  {
    var y := x / a;
    Regroup(a, b, y / b, y % b, x % a);
    DivIs(x, a * b, y / b, a * (y % b) + x % a);
  }

  lemma Regroup(a: nat, b: nat, q: nat, r: nat, s: nat)
    requires r < b && s < a
    ensures a * b > 0 && a * r + s < a * b && a * (b * q + r) + s == a * b * q + (a * r + s)
  {
    assert a * b == a * (b - 1) + a;
    assert a * r <= a * (b - 1);
    assert a * (b * q + r) == a * b * q + a * r;
  }
}
