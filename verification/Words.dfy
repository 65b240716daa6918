/** Combinatorics on words: borders, periods, minimal periods, primitive words
    and the periodicity theorem of Fine and Wilf. */
module Words {
  import opened Division

  /** The prefix of length `k` of `s` is also its suffix of length `k`. */
  ghost predicate IsBorder<T>(s: seq<T>, k: int) {
    0 <= k <= |s| && forall i, j {:trigger s[i], s[j]} :: 0 <= i < k && j == |s| - k + i ==> s[i] == s[j]
  }

  ghost predicate IsLongestBorder<T>(s: seq<T>, k: int) {
    k < |s| && IsBorder(s, k) && forall b :: k < b < |s| ==> !IsBorder(s, b)
  }

  ghost predicate HasPeriod<T>(s: seq<T>, p: int) {
    0 < p <= |s| && forall i, j {:trigger s[i], s[j]} :: 0 <= i < j < |s| && j - i == p ==> s[i] == s[j]
  }

  /** No proper divisor of the length is a period, so `s` is no power of a shorter word. */
  ghost predicate Primitive<T>(s: seq<T>) {
    |s| > 0 && forall d :: 0 < d < |s| && |s| % d == 0 ==> !HasPeriod(s, d)
  }

  ghost function LeastPeriodFrom<T>(s: seq<T>, p: nat): (r: nat)
    requires 0 < p <= |s|
    ensures p <= r <= |s|
    decreases |s| - p
  {
    if p == |s| || HasPeriod(s, p) then p else LeastPeriodFrom(s, p + 1)
  }

  ghost function MinimalPeriod<T>(s: seq<T>): (r: nat)
    requires |s| > 0
    ensures 0 < r <= |s|
  {
    LeastPeriodFrom(s, 1)
  }

  lemma {:induction false} LeastPeriodFromIsLeast<T>(s: seq<T>, p: nat)
    requires 0 < p <= |s|
    ensures HasPeriod(s, LeastPeriodFrom(s, p))
    ensures forall q :: p <= q < LeastPeriodFrom(s, p) ==> !HasPeriod(s, q)
    decreases |s| - p
  {
    if p < |s| && !HasPeriod(s, p) {
      LeastPeriodFromIsLeast(s, p + 1);
    }
  }

  lemma MinimalPeriodIsMinimal<T>(s: seq<T>)
    requires |s| > 0
    ensures HasPeriod(s, MinimalPeriod(s))
    ensures forall q :: 0 < q < MinimalPeriod(s) ==> !HasPeriod(s, q)
  {
    LeastPeriodFromIsLeast(s, 1);
  }

  lemma BorderIffPeriod<T>(s: seq<T>, k: nat)
    requires k < |s|
    ensures IsBorder(s, k) <==> HasPeriod(s, |s| - k)
  {
  }

  /** Subtracting the longest border from the length gives the minimal period. */
  lemma LongestBorderGivesMinimalPeriod<T>(s: seq<T>, k: nat)
    requires IsLongestBorder(s, k)
    ensures MinimalPeriod(s) == |s| - k
  {
    MinimalPeriodIsMinimal(s);
    BorderIffPeriod(s, k);
    BorderIffPeriod(s, |s| - MinimalPeriod(s));
  }

  /** A border of a border is a border, and every shorter border arises that way. */
  lemma BorderOfBorder<T>(s: seq<T>, k: nat, b: nat)
    requires b <= k <= |s| && IsBorder(s, k)
    ensures IsBorder(s, b) <==> IsBorder(s[..k], b)
  {
    var t := s[..k];
    if IsBorder(s, b) {
      forall i, j | 0 <= i < b && j == k - b + i ensures t[i] == t[j] {
        assert s[i] == s[|s| - b + i];
        assert s[j] == s[|s| - k + j];
      }
    }
    if IsBorder(t, b) {
      forall i, j | 0 <= i < b && j == |s| - b + i ensures s[i] == s[j] {
        assert t[i] == t[k - b + i];
        assert s[k - b + i] == s[|s| - k + (k - b + i)];
      }
    }
  }

  /** Appending one letter extends a border exactly when the next letters agree. */
  lemma BorderExtends<T>(t: seq<T>, pos: nat, b: nat)
    requires b < pos < |t|
    ensures IsBorder(t[..pos + 1], b + 1) <==> IsBorder(t[..pos], b) && t[b] == t[pos]
  {
    var s, u := t[..pos], t[..pos + 1];
    if IsBorder(u, b + 1) {
      assert u[b] == u[pos];
      forall i, j | 0 <= i < b && j == pos - b + i ensures s[i] == s[j] {
        assert u[i] == u[j];
      }
    }
    if IsBorder(s, b) && t[b] == t[pos] {
      forall i, j | 0 <= i < b + 1 && j == pos - b + i ensures u[i] == u[j] {
        if i < b {
          assert s[i] == s[j];
        }
      }
    }
  }

  /** Falling back from a border that does not extend to its own longest border
      skips no border that could extend. */
  lemma FallBack<T>(t: seq<T>, pos: nat, j: nat, k: nat)
    requires 0 < j < pos < |t| && t[j] != t[pos]
    requires IsBorder(t[..pos], j) && IsLongestBorder(t[..j], k)
    requires forall b :: j < b < pos && IsBorder(t[..pos], b) ==> t[b] != t[pos]
    ensures IsBorder(t[..pos], k)
    ensures forall b :: k < b < pos && IsBorder(t[..pos], b) ==> t[b] != t[pos]
  {
    assert t[..pos][..j] == t[..j];
    BorderOfBorder(t[..pos], j, k);
    forall b | k < b < pos && IsBorder(t[..pos], b) ensures t[b] != t[pos] {
      if b < j {
        BorderOfBorder(t[..pos], j, b);
      }
    }
  }

  /** The value stored after the fall-back loop is the longest border. */
  lemma NextLongestBorder<T>(t: seq<T>, pos: nat, j: nat)
    requires j < pos < |t| && IsBorder(t[..pos], j)
    requires forall b :: j < b < pos && IsBorder(t[..pos], b) ==> t[b] != t[pos]
    requires j == 0 || t[j] == t[pos]
    ensures IsLongestBorder(t[..pos + 1], if t[j] == t[pos] then j + 1 else j)
  {
    var u := t[..pos + 1];
    BorderExtends(t, pos, j);
    forall b | (if t[j] == t[pos] then j + 1 else j) < b < |u| ensures !IsBorder(u, b) {
      BorderExtends(t, pos, b - 1);
    }
  }

  // ----- Fine and Wilf

  function Gcd(a: nat, b: nat): (g: nat)
    requires a > 0 && b > 0
    ensures 0 < g <= a && g <= b
    decreases a + b
  {
    if a == b then a else if a < b then Gcd(a, b - a) else Gcd(a - b, b)
  }

  lemma DivisorOfSum(g: nat, a: nat, b: nat)
    requires g > 0 && a % g == 0 && b % g == 0
    ensures (a + b) % g == 0
  {
    var x, y := a / g, b / g;
    assert a == g * x && b == g * y;
    assert a + b == g * (x + y);
    QuotientRemainder(a + b, g, x + y, 0);
  }

  lemma {:induction false} GcdDivides(a: nat, b: nat)
    requires a > 0 && b > 0
    ensures a % Gcd(a, b) == 0 && b % Gcd(a, b) == 0
    decreases a + b
  {
    if a < b {
      GcdDivides(a, b - a);
      DivisorOfSum(Gcd(a, b), a, b - a);
    } else if b < a {
      GcdDivides(a - b, b);
      DivisorOfSum(Gcd(a, b), a - b, b);
    }
  }

  lemma DifferenceOfPeriods<T>(s: seq<T>, p: nat, q: nat)
    requires p < q && HasPeriod(s, p) && HasPeriod(s, q) && p + q <= |s|
    ensures HasPeriod(s, q - p)
  {
    forall i, j | 0 <= i < j < |s| && j - i == q - p ensures s[i] == s[j] {
      if i >= p {
        assert s[i - p] == s[i];
        assert s[i - p] == s[j];
      } else {
        assert s[i] == s[i + q];
        assert s[j] == s[i + q];
      }
    }
  }

  /** The periodicity theorem: two periods that together fit in the word force
      their greatest common divisor to be a period. */
  lemma {:induction false} FineWilf<T>(s: seq<T>, p: nat, q: nat)
    requires HasPeriod(s, p) && HasPeriod(s, q) && p + q <= |s|
    ensures HasPeriod(s, Gcd(p, q))
    decreases p + q
  {
    if p < q {
      DifferenceOfPeriods(s, p, q);
      FineWilf(s, p, q - p);
    } else if q < p {
      DifferenceOfPeriods(s, q, p);
      FineWilf(s, p - q, q);
    }
  }

  lemma {:induction false} PeriodMultiple<T>(s: seq<T>, d: nat, i: nat, j: nat)
    requires HasPeriod(s, d) && i <= j < |s| && (j - i) % d == 0
    ensures s[i] == s[j]
    decreases j - i
  {
    if i >= j {
    } else {
      assert j - i >= d;
      assert (j - d - i) % d == 0 by {
        assert (j - i) / d >= 1;
        assert j - i == d * ((j - i) / d);
        assert j - d - i == d * ((j - i) / d - 1);
        QuotientRemainder(j - d - i, d, (j - i) / d - 1, 0);
      }
      PeriodMultiple(s, d, i, j - d);
      assert s[j - d] == s[j];
    }
  }

  lemma {:induction false} BlockShift<T>(s: seq<T>, p: nat, d: nat, i: nat, j: nat)
    requires HasPeriod(s, p) && 0 < d < p && p % d == 0 && HasPeriod(s[..p], d)
    requires j < |s| && j - i == d
    ensures s[i] == s[j]
    decreases i
  {
    var b := s[..p];
    if i >= p {
      BlockShift(s, p, d, i - p, j - p);
      assert s[i - p] == s[i] && s[j - p] == s[j];
    } else if j < p {
      assert b[i] == b[j];
    } else {
      assert s[j - p] == s[j];
      assert (i - (j - p)) % d == 0 by {
        assert i - (j - p) == p - d;
        assert p == d * (p / d);
        assert p - d == d * (p / d - 1);
        QuotientRemainder(p - d, d, p / d - 1, 0);
      }
      PeriodMultiple(b, d, j - p, i);
      assert b[j - p] == b[i];
    }
  }

  /** A divisor of a period that is a period of the first block is a period of the word. */
  lemma BlockPeriodLifts<T>(s: seq<T>, p: nat, d: nat)
    requires HasPeriod(s, p) && 0 < d < p && p % d == 0 && HasPeriod(s[..p], d)
    ensures HasPeriod(s, d)
  {
    forall i, j | 0 <= i < j < |s| && j - i == d ensures s[i] == s[j] {
      BlockShift(s, p, d, i, j);
    }
  }

  /** The first block of a minimal period is primitive. */
  lemma MinimalPeriodIsPrimitive<T>(s: seq<T>)
    requires |s| > 0
    ensures Primitive(s[..MinimalPeriod(s)])
  {
    var p := MinimalPeriod(s);
    MinimalPeriodIsMinimal(s);
    forall d | 0 < d < p && p % d == 0 ensures !HasPeriod(s[..p], d) {
      if HasPeriod(s[..p], d) {
        BlockPeriodLifts(s, p, d);
      }
    }
  }

  /** A primitive word of length two or more has two different letters. */
  lemma PrimitiveHasTwoLetters<T>(s: seq<T>)
    requires Primitive(s) && |s| >= 2
    ensures exists i {:trigger s[i]} :: 0 < i < |s| && s[0] != s[i]
  {
    assert !HasPeriod(s, 1);
    var i, j :| 0 <= i < j < |s| && j - i == 1 && s[i] != s[j];
    assert s[0] != s[i] || s[0] != s[j];
  }

  /** In a word made of two or more copies of a primitive block, possibly with a
      partial tail, no period is shorter than the block. */
  lemma PrimitiveBlockIsMinimalPeriod<T>(s: seq<T>, p: nat)
    requires HasPeriod(s, p) && 2 * p <= |s| && Primitive(s[..p])
    ensures MinimalPeriod(s) == p
  {
    var q := MinimalPeriod(s);
    MinimalPeriodIsMinimal(s);
    FineWilf(s, q, p);
    GcdDivides(q, p);
    if q < p {
      var b := s[..p];
      forall i, j | 0 <= i < j < |b| && j - i == q ensures b[i] == b[j] {
        assert s[i] == s[j];
      }
      assert HasPeriod(b, q);
    }
  }
}
