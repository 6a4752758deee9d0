/** Iterating a permutation of the bytes that fixes 0: if 1 comes back after 255 rounds, and
    not after 85, 51 or 15, then every nonzero byte is visited exactly once on the way. */
module ByteOrbit {
  import opened Arithmetic

  function Iterate(f: bv8 -> bv8, n: nat, a: bv8): bv8
    decreases n
  {
    if n == 0 then a else f(Iterate(f, n - 1, a))
  }

  ghost predicate Injective(f: bv8 -> bv8) { forall a, b | f(a) == f(b) :: a == b }

  ghost predicate Generator(f: bv8 -> bv8)
  {
    && Injective(f) && f(0) == 0 && Iterate(f, 255, 1) == 1
    && Iterate(f, 85, 1) != 1 && Iterate(f, 51, 1) != 1 && Iterate(f, 15, 1) != 1
  }

  lemma {:induction false} IterateAdd(f: bv8 -> bv8, m: nat, n: nat, a: bv8)
    ensures Iterate(f, m, Iterate(f, n, a)) == Iterate(f, m + n, a)
    decreases m
  {
    if m != 0 {
      IterateAdd(f, m - 1, n, a);
    }
  }

  lemma {:induction false} IterateInjective(f: bv8 -> bv8, n: nat, a: bv8, b: bv8)
    requires Injective(f) && Iterate(f, n, a) == Iterate(f, n, b)
    ensures a == b
    decreases n
  {
    if n != 0 {
      IterateInjective(f, n - 1, a, b);
    }
  }

  lemma {:induction false} IterateZero(f: bv8 -> bv8, n: nat)
    requires f(0) == 0
    ensures Iterate(f, n, 0) == 0
    decreases n
  {
    if n != 0 {
      IterateZero(f, n - 1);
    }
  }

  // ----------------------------------------------------------- the order of f

  /** When 1 comes back after d rounds, rounds count modulo d. */
  lemma {:induction false} IterateModulo(f: bv8 -> bv8, d: nat, k: nat)
    requires d > 0 && Iterate(f, d, 1) == 1
    ensures Iterate(f, k, 1) == Iterate(f, k % d, 1)
    decreases k
  {
    hide Iterate;
    if k >= d {
      IterateAdd(f, k - d, d, 1);
      IterateModulo(f, d, k - d);
      ModStep(k, d);
    }
  }

  lemma LeastPeriod(f: bv8 -> bv8, k: nat) returns (d: nat)
    requires 0 < k && Iterate(f, k, 1) == 1
    ensures 0 < d <= k && Iterate(f, d, 1) == 1
    ensures forall e | 0 < e < d :: Iterate(f, e, 1) != 1
    decreases k
  {
    hide *;
    if e: nat :| 0 < e < k && Iterate(f, e, 1) == 1 {
      d := LeastPeriod(f, e);
    } else {
      d := k;
    }
  }

  lemma ProperDivisorOf255(d: nat)
    requires 0 < d < 255 && 255 % d == 0
    ensures 85 % d == 0 || 51 % d == 0 || 15 % d == 0
  {
    var q := 255 / d;
    assert d * q == 255;
    if d >= 16 && q >= 16 {
      Monotone(16, d, q);
    } else if d >= 16 {
      assert q == 1 || q == 2 || q == 3 || q == 4 || q == 5 || q == 6 || q == 7 || q == 8 || q == 9 || q == 10
          || q == 11 || q == 12 || q == 13 || q == 14 || q == 15;
    }
  }

  /** 1 does not come back before round 255. */
  lemma Order(f: bv8 -> bv8, k: nat)
    requires Generator(f) && 0 < k < 255
    ensures Iterate(f, k, 1) != 1
  {
    hide Iterate; hide Injective;
    if Iterate(f, k, 1) == 1 {
      var d := LeastPeriod(f, k);
      IterateModulo(f, d, 255);
      assert 255 % d == 0;
      ProperDivisorOf255(d);
      IterateModulo(f, d, 85);
      IterateModulo(f, d, 51);
      IterateModulo(f, d, 15);
      NoRounds(f);
    }
  }

  lemma NoRounds(f: bv8 -> bv8)
    ensures Iterate(f, 0, 1) == 1
  {
  }

  lemma Distinct(f: bv8 -> bv8, i: nat, j: nat)
    requires Generator(f) && i < j < 255
    ensures Iterate(f, i, 1) != Iterate(f, j, 1)
  {
    hide Iterate; hide Injective;
    if Iterate(f, i, 1) == Iterate(f, j, 1) {
      IterateAdd(f, i, j - i, 1);
      IterateInjective(f, i, Iterate(f, j - i, 1), 1);
      Order(f, j - i);
    }
  }

  lemma Nonzero(f: bv8 -> bv8, i: nat)
    requires Generator(f)
    ensures Iterate(f, i, 1) != 0
  {
    hide Iterate; hide Injective;
    if Iterate(f, i, 1) == 0 {
      IterateZero(f, i);
      IterateInjective(f, i, 1, 0);
    }
  }

  // ------------------------------------------------- every nonzero byte is visited

  ghost function Visited(f: bv8 -> bv8, n: nat): set<bv8>
  {
    if n == 0 then {} else Visited(f, n - 1) + {Iterate(f, n - 1, 1)}
  }

  ghost function BytesBelow(n: nat): set<bv8>
    requires n <= 256
  {
    if n == 0 then {} else BytesBelow(n - 1) + {(n - 1) as bv8}
  }

  lemma {:induction false} VisitedWhen(f: bv8 -> bv8, n: nat, b: bv8) returns (l: nat)
    requires b in Visited(f, n)
    ensures l < n && Iterate(f, l, 1) == b
  {
    hide Iterate;
    if b == Iterate(f, n - 1, 1) {
      l := n - 1;
    } else {
      l := VisitedWhen(f, n - 1, b);
    }
  }

  lemma {:induction false} VisitedSize(f: bv8 -> bv8, n: nat)
    requires Generator(f) && n <= 255
    ensures |Visited(f, n)| == n && 0 !in Visited(f, n)
  {
    hide Iterate; hide Generator;
    if n != 0 {
      VisitedSize(f, n - 1);
      Nonzero(f, n - 1);
      if Iterate(f, n - 1, 1) in Visited(f, n - 1) {
        var l := VisitedWhen(f, n - 1, Iterate(f, n - 1, 1));
        Distinct(f, l, n - 1);
      }
    }
  }

  lemma {:induction false} BytesBelowSize(n: nat)
    requires n <= 256
    ensures |BytesBelow(n)| <= n
    ensures forall b: bv8 | (b as int) < n :: b in BytesBelow(n)
  {
    if n != 0 {
      BytesBelowSize(n - 1);
      forall b: bv8 | (b as int) < n
        ensures b in BytesBelow(n)
      {
        assert (b as int) as bv8 == b;
      }
    }
  }

  lemma Reaches(f: bv8 -> bv8, b: bv8) returns (l: nat)
    requires Generator(f) && b != 0
    ensures l < 255 && Iterate(f, l, 1) == b
  {
    hide Iterate; hide Visited; hide BytesBelow; hide Generator;
    VisitedSize(f, 255);
    BytesBelowSize(256);
    if b !in Visited(f, 255) {
      var all := Visited(f, 255) + {b} + {0};
      forall c: bv8
        ensures c in BytesBelow(256)
      {
        assert (c as int) < 256;
      }
      SubsetSize(all, BytesBelow(256));
    }
    l := VisitedWhen(f, 255, b);
  }

  lemma {:induction false} SubsetSize<T>(s: set<T>, t: set<T>)
    requires s <= t
    ensures |s| <= |t|
  {
    if s != {} {
      var x :| x in s;
      SubsetSize(s - {x}, t - {x});
    }
  }
}
