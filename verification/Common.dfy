/** What several of the models need. */
module Wrappers {

  datatype Option<T> = None | Some(value: T)
}

module Division {

  /** Quotient and remainder are the only such pair. */
  lemma Unique(x: int, m: int, q: int, r: int)
    requires x == m * q + r && 0 <= r < m
    ensures x / m == q && x % m == r
  {
    var d := q - x / m;
    assert m * d == x % m - r;
    Multiple(m, d);
  }

  lemma Multiple(m: int, d: int)
    requires m > 0
    ensures d > 0 ==> m * d >= m
    ensures d < 0 ==> m * d <= -m
  {
  }
}
