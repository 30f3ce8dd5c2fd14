/** Shared vocabulary: optional values, identifiers, Go's 64-bit integers and the units of time.
    A time is a count of nanoseconds since Go's zero time (0001-01-01T00:00:00Z), so the zero time is 0. */
module Core {

  datatype Option<+T> = None | Some(value: T) {
    function GetOr(default: T): T {
      match this
      case Some(v) => v
      case None => default
    }
  }

  type UUID = nat

  const MILLISECOND := 1_000_000
  const SECOND := 1_000_000_000
  const MINUTE := 60 * SECOND
  const HOUR := 60 * MINUTE
  const DAY := 24 * HOUR

  const ZERO_TIME := 0

  const MIN_INT64 := -0x8000_0000_0000_0000
  const MAX_INT64 := 0x7fff_ffff_ffff_ffff
  const TWO_63 := 0x8000_0000_0000_0000
  const TWO_64 := 0x1_0000_0000_0000_0000

  predicate IsInt64(x: int) {
    MIN_INT64 <= x <= MAX_INT64
  }

  /** Two's-complement wrap-around of a mathematical integer into Go's int64. */
  function Wrap64(x: int): (r: int)
    ensures IsInt64(r)
    ensures IsInt64(x) ==> r == x
  {
    (x + TWO_63) % TWO_64 - TWO_63
  }

  function Min(a: int, b: int): int { if a <= b then a else b }

  function Max(a: int, b: int): int { if a >= b then a else b }

  function Pow2(n: nat): nat {
    if n == 0 then 1 else 2 * Pow2(n - 1)
  }

  ghost predicate Distinct<T>(s: seq<T>) {
    forall i, j :: 0 <= i < j < |s| ==> s[i] != s[j]
  }

  lemma DistinctConcat<T>(s: seq<T>, t: seq<T>)
    requires Distinct(s) && Distinct(t) && forall x :: x in s ==> x !in t
    ensures Distinct(s + t)
  {
    forall i, j | 0 <= i < j < |s + t|
      ensures (s + t)[i] != (s + t)[j]
    {
      if i < |s| && j >= |s| {
        assert (s + t)[i] in s && (s + t)[j] in t;
      }
    }
  }

  /** Go ranges over a map in any order. */
  method AnyOf<T>(keys: set<T>) returns (key: T)
    requires keys != {}
    ensures key in keys
  {
    key :| key in keys;
  }

  // ---------- arithmetic the solver does not find by itself ----------

  lemma Monotone(a: int, b: int, k: int)
    requires a <= b && 0 <= k
    ensures a * k <= b * k
  {
    assert (b - a) * k >= 0;
  }

  lemma UniqueQuotient(a: int, m: int, q: int, r: int)
    requires m > 0 && a == m * q + r && 0 <= r < m
    ensures a / m == q
  {
    var q', r' := a / m, a % m;
    assert m * (q' - q) == r - r';
    if q' > q {
      Monotone(1, q' - q, m);
    } else if q' < q {
      Monotone(1, q - q', m);
    }
  }

  /** Dividing twice is dividing by the product. */
  lemma DivDiv(a: nat, b: nat, c: nat)
    requires b > 0 && c > 0
    ensures b * c > 0 && a / (b * c) == a / b / c
  {
    var q := a / b;
    var r, e := a % b, q % c;
    assert b * c > 0 by { Monotone(1, b, c); }
    assert q == c * (q / c) + e;
    assert a == b * (c * (q / c) + e) + r;
    assert b * (c * (q / c) + e) == (b * c) * (q / c) + b * e by {
      assert b * (c * (q / c)) == (b * c) * (q / c);
    }
    assert 0 <= b * e + r < b * c by { assert b * e <= b * (c - 1) by { Monotone(e, c - 1, b); } }
    UniqueQuotient(a, b * c, q / c, b * e + r);
  }
}
