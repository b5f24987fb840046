/** Finite sums over the keys of a map, of integers and of reals. */
module Sums {

  ghost function Sum<K(!new)>(keys: set<K>, f: K -> int): int {
    if keys == {} then 0
    else
      var k :| k in keys;
      f(k) + Sum(keys - {k}, f)
  }

  ghost function SumReal<K(!new)>(keys: set<K>, f: K -> real): real {
    if keys == {} then 0.0
    else
      var k :| k in keys;
      f(k) + SumReal(keys - {k}, f)
  }

  lemma Pick<K(!new)>(s: set<K>) returns (k: K)
    requires s != {}
    ensures k in s
  {
    k :| k in s;
  }

  // ---------------------------------------------------------- integer sums

  /** Any key can be taken out first. */
  lemma {:induction false} SumRemove<K(!new)>(keys: set<K>, f: K -> int, k: K)
    requires k in keys
    ensures Sum(keys, f) == f(k) + Sum(keys - {k}, f)
    decreases keys
  {
    var first :| first in keys && Sum(keys, f) == f(first) + Sum(keys - {first}, f);
    if first != k {
      SumRemove(keys - {first}, f, k);
      SumRemove(keys - {k}, f, first);
      assert keys - {first} - {k} == keys - {k} - {first};
    }
  }

  lemma {:induction false} SumAdd<K(!new)>(keys: set<K>, f: K -> int, k: K)
    requires k !in keys
    ensures Sum(keys + {k}, f) == Sum(keys, f) + f(k)
  {
    SumRemove(keys + {k}, f, k);
    assert keys + {k} - {k} == keys;
  }

  /** Pointwise: f == g + d*h. */
  lemma {:induction false} SumAffine<K(!new)>(keys: set<K>, f: K -> int, g: K -> int, h: K -> int, d: int)
    requires forall k :: k in keys ==> f(k) == g(k) + d * h(k)
    ensures Sum(keys, f) == Sum(keys, g) + d * Sum(keys, h)
    decreases keys
  {
    if keys != {} {
      var k :| k in keys;
      SumRemove(keys, f, k);
      SumRemove(keys, g, k);
      SumRemove(keys, h, k);
      SumAffine(keys - {k}, f, g, h, d);
      Distribute(d, h(k), Sum(keys - {k}, h));
    }
  }

  lemma Distribute(d: int, a: int, b: int)
    ensures d * (a + b) == d * a + d * b
  {
  }

  lemma {:induction false} SumEqual<K(!new)>(keys: set<K>, f: K -> int, g: K -> int)
    requires forall k :: k in keys ==> f(k) == g(k)
    ensures Sum(keys, f) == Sum(keys, g)
  {
    SumAffine(keys, f, g, g, 0);
  }

  lemma {:induction false} SumAtMost<K(!new)>(keys: set<K>, f: K -> int, g: K -> int)
    requires forall k :: k in keys ==> f(k) <= g(k)
    ensures Sum(keys, f) <= Sum(keys, g)
    decreases keys
  {
    if keys != {} {
      var k :| k in keys;
      SumRemove(keys, f, k);
      SumRemove(keys, g, k);
      SumAtMost(keys - {k}, f, g);
    }
  }

  /** f <= g + d*h pointwise. */
  lemma SumAffineAtMost<K(!new)>(keys: set<K>, f: K -> int, g: K -> int, h: K -> int, d: int)
    requires forall k :: k in keys ==> f(k) <= g(k) + d * h(k)
    ensures Sum(keys, f) <= Sum(keys, g) + d * Sum(keys, h)
  {
    var bound := (k: K) => g(k) + d * h(k);
    SumAtMost(keys, f, bound);
    SumAffine(keys, bound, g, h, d);
  }

  lemma {:induction false} SumNonNegative<K(!new)>(keys: set<K>, f: K -> int)
    requires forall k :: k in keys ==> f(k) >= 0
    ensures Sum(keys, f) >= 0
    ensures forall k :: k in keys ==> f(k) <= Sum(keys, f)
    decreases keys
  {
    forall k | k in keys
      ensures f(k) <= Sum(keys, f)
    {
      SumRemove(keys, f, k);
      SumNonNegative(keys - {k}, f);
    }
    if keys != {} {
      var k :| k in keys;
      assert 0 <= f(k) <= Sum(keys, f);
    }
  }

  /** Two summands that agree away from one key, over key sets that agree away from it. */
  lemma SumChange<K(!new)>(keys: set<K>, keys': set<K>, f: K -> int, g: K -> int, k: K)
    requires k !in keys ==> g(k) == 0
    requires keys' == keys + {k}
    requires forall x :: x in keys && x != k ==> f(x) == g(x)
    ensures Sum(keys', f) == Sum(keys, g) + f(k) - g(k)
  {
    SumRemove(keys', f, k);
    SumEqual(keys' - {k}, f, g);
    if k in keys {
      SumRemove(keys, g, k);
      assert keys' - {k} == keys - {k};
    } else {
      assert keys' - {k} == keys;
    }
  }

  // ------------------------------------------------------------- real sums

  lemma {:induction false} SumRealRemove<K(!new)>(keys: set<K>, f: K -> real, k: K)
    requires k in keys
    ensures SumReal(keys, f) == f(k) + SumReal(keys - {k}, f)
    decreases keys
  {
    var first :| first in keys && SumReal(keys, f) == f(first) + SumReal(keys - {first}, f);
    if first != k {
      SumRealRemove(keys - {first}, f, k);
      SumRealRemove(keys - {k}, f, first);
      assert keys - {first} - {k} == keys - {k} - {first};
    }
  }

  /** Pointwise: f == g + d*h for an integer h. */
  lemma {:induction false} SumRealAffine<K(!new)>(keys: set<K>, f: K -> real, g: K -> real, h: K -> int, d: real)
    requires forall k :: k in keys ==> f(k) == g(k) + d * (h(k) as real)
    ensures SumReal(keys, f) == SumReal(keys, g) + d * (Sum(keys, h) as real)
    decreases keys
  {
    hide *;
    if keys == {} {
      SumsOfNothing(f, g, h);
    } else {
      var k :| k in keys;
      var rest := keys - {k};
      SumRealRemove(keys, f, k);
      SumRealRemove(keys, g, k);
      SumRemove(keys, h, k);
      SumRealAffine(rest, f, g, h, d);
      AffineStep(f(k), g(k), d, h(k), SumReal(rest, f), SumReal(rest, g), Sum(rest, h));
    }
  }

  lemma SumsOfNothing<K(!new)>(f: K -> real, g: K -> real, h: K -> int)
    ensures SumReal({}, f) == 0.0 && SumReal({}, g) == 0.0 && Sum({}, h) == 0
  {
  }

  lemma AffineStep(f: real, g: real, d: real, h: int, sumF: real, sumG: real, sumH: int)
    requires f == g + d * (h as real) && sumF == sumG + d * (sumH as real)
    ensures f + sumF == g + sumG + d * ((h + sumH) as real)
  {
    assert (h + sumH) as real == h as real + sumH as real;
    assert d * (h as real + sumH as real) == d * (h as real) + d * (sumH as real);
  }

  lemma SumRealEqual<K(!new)>(keys: set<K>, f: K -> real, g: K -> real)
    requires forall k :: k in keys ==> f(k) == g(k)
    ensures SumReal(keys, f) == SumReal(keys, g)
  {
    SumRealAffine(keys, f, g, (k: K) => 0, 0.0);
  }

  lemma {:induction false} SumRealNonNegative<K(!new)>(keys: set<K>, f: K -> real)
    requires forall k :: k in keys ==> f(k) >= 0.0
    ensures SumReal(keys, f) >= 0.0
    ensures forall k :: k in keys ==> f(k) <= SumReal(keys, f)
    decreases keys
  {
    forall k | k in keys
      ensures f(k) <= SumReal(keys, f)
    {
      SumRealRemove(keys, f, k);
      SumRealNonNegative(keys - {k}, f);
    }
    if keys != {} {
      var k :| k in keys;
      assert 0.0 <= f(k) <= SumReal(keys, f);
    }
  }

  lemma SumRealChange<K(!new)>(keys: set<K>, keys': set<K>, f: K -> real, g: K -> real, k: K)
    requires keys' == keys + {k} && (k !in keys ==> g(k) == 0.0)
    requires forall x :: x in keys && x != k ==> f(x) == g(x)
    ensures SumReal(keys', f) == SumReal(keys, g) + f(k) - g(k)
  {
    SumRealRemove(keys', f, k);
    SumRealEqual(keys' - {k}, f, g);
    if k in keys {
      SumRealRemove(keys, g, k);
      assert keys' - {k} == keys - {k};
    } else {
      assert keys' - {k} == keys;
    }
  }

  /** Keys without a share do not count. */
  lemma {:induction false} SumRealOver<K(!new)>(keys: set<K>, keys': set<K>, f: K -> real)
    requires keys <= keys' && forall k :: k in keys' && k !in keys ==> f(k) == 0.0
    ensures SumReal(keys', f) == SumReal(keys, f)
    decreases keys'
  {
    if forall k :: k in keys' ==> k in keys {
      assert keys' == keys;
    } else {
      var k :| k in keys' && k !in keys;
      SumRealRemove(keys', f, k);
      SumRealOver(keys, keys' - {k}, f);
    }
  }
}
