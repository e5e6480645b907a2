/** The few facts about multiplication, division and set sizes the other modules need. */
module Arith {

  lemma MulLe(a: int, b: int, m: int)
    requires a <= b && m >= 0
    ensures a * m <= b * m
  {
  }

  lemma QuotientUnique(q: int, r: int, q': int, r': int, m: int)
    requires 0 <= r < m && 0 <= r' < m && q * m + r == q' * m + r'
    ensures q == q' && r == r'
  {
    if q < q' {
      MulLe(q + 1, q', m);
    } else if q' < q {
      MulLe(q' + 1, q, m);
    }
  }

  /** Division is the only quotient with a remainder in range. */
  lemma DivUnique(a: int, q: int, r: int, m: int)
    requires 0 <= r < m && a == q * m + r
    ensures a / m == q && a % m == r
  {
    var q', r' := a / m, a % m;
    assert a == q' * m + r';
    QuotientUnique(q, r, q', r', m);
  }

  lemma DivMonotone(a: int, b: int, m: int)
    requires m >= 1 && a <= b
    ensures a / m <= b / m
  {
    var qa, ra := a / m, a % m;
    var qb, rb := b / m, b % m;
    assert a == qa * m + ra;
    assert b == qb * m + rb;
    QuotientLe(qa, ra, qb, rb, m);
  }

  lemma QuotientLe(qa: int, ra: int, qb: int, rb: int, m: int)
    requires 0 <= ra < m && 0 <= rb < m && qa * m + ra <= qb * m + rb
    ensures qa <= qb
  {
    if qb < qa {
      MulLe(qb + 1, qa, m);
    }
  }

  lemma SubsetSize<T>(a: set<T>, b: set<T>)
    requires a <= b
    ensures |a| <= |b| && (|a| == |b| <==> a == b)
  {
    assert b == a + (b - a);
  }
}
