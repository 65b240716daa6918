/** Quotient and remainder of natural numbers, from the equation that determines them. */
module Division {
  lemma QuotientRemainder(m: nat, h: nat, q: nat, r: nat)
    requires h > 0 && m == h * q + r && r < h
    ensures m / h == q && m % h == r
  {
    var d := m / h - q;
    assert m == h * (m / h) + m % h;
    assert h * d == h * (m / h) - h * q;
    assert d >= 1 ==> h * d >= h;
    assert d <= -1 ==> h * d <= -1 * h;
  }

  lemma TimesMonotone(a: int, b: int, p: nat)
    requires a <= b
    ensures a * p <= b * p
  {
  }

  lemma OneMore(m: nat, h: nat)
    requires h > 0
    ensures (m + h) / h == m / h + 1 && (m + h) % h == m % h
  {
    assert m == h * (m / h) + m % h && m + h == h * (m / h + 1) + m % h;
    QuotientRemainder(m + h, h, m / h + 1, m % h);
  }
}
