/** What several modules share: optional values, minima and maxima, sums and
    the elements of a sequence. */
module Common {
  datatype Option<+T> = None | Some(value: T)

  function Min(a: int, b: int): int { if a <= b then a else b }
  function Max(a: int, b: int): int { if a >= b then a else b }
  function MaxReal(a: real, b: real): real { if a >= b then a else b }

  function SumOf(s: seq<nat>): nat {
    if s == [] then 0 else SumOf(s[..|s| - 1]) + s[|s| - 1]
  }

  function SumReal(s: seq<real>): real {
    if s == [] then 0.0 else SumReal(s[..|s| - 1]) + s[|s| - 1]
  }

  /** A value taken `n` times. */
  function Times(n: int, x: real): real { n as real * x }

  lemma OnceMore(n: int, x: real)
    ensures Times(n, x) == Times(n - 1, x) + x
  {
  }

  function ToSet<T>(s: seq<T>): set<T> {
    set x | x in s
  }
}
