/** The RSPC equations H x V = 0 of ECMA-130 Annex A on a vector of bytes, the two
    parity bytes that complete a vector, and what the equations detect. */
module RspcCode {
  import opened Gf256
  import opened RspcTables
  import ByteOrbit

  /** First row of H x V: the sum of the first k bytes. */
  function Sum(v: seq<bv8>, k: nat): bv8
    requires k <= |v|
  {
    if k == 0 then 0 else Xor(Sum(v, k - 1), v[k - 1])
  }

  /** Second row of H x V over the first k bytes of an n-byte vector: byte i has coefficient x^(n-1-i). */
  function Dot(v: seq<bv8>, n: nat, k: nat): bv8
    requires k <= |v| && k <= n
  {
    if k == 0 then 0 else Xor(Dot(v, n, k - 1), Term(n - k, v[k - 1]))
  }

  function Term(e: nat, b: bv8): bv8 { Mul(RED, Power(e), b) }

  ghost predicate IsCodeword(v: seq<bv8>)
  {
    Sum(v, |v|) == 0 && Dot(v, |v|, |v|) == 0
  }

  // ---------------------------------------------------------------- encoding

  /** The byte stored last, with coefficient 1 (p0 or q0). */
  function Parity0(sum: bv8, hxv: bv8): bv8
  {
    RspcDiv3(Xor(RspcMult(2, sum), hxv))
  }

  /** The byte stored before it, with coefficient x (p1 or q1). */
  function Parity1(sum: bv8, hxv: bv8): bv8
  {
    Xor(sum, Parity0(sum, hxv))
  }

  lemma {:induction false} SumPrefix(v: seq<bv8>, w: seq<bv8>, k: nat)
    requires k <= |v| && k <= |w| && v[..k] == w[..k]
    ensures Sum(v, k) == Sum(w, k)
  {
    hide Xor;
    if k != 0 {
      assert v[..k - 1] == v[..k][..k - 1] == w[..k - 1];
      assert v[k - 1] == v[..k][k - 1] == w[k - 1];
      SumPrefix(v, w, k - 1);
    }
  }

  lemma {:induction false} DotPrefix(v: seq<bv8>, w: seq<bv8>, n: nat, k: nat)
    requires k <= |v| && k <= |w| && k <= n && v[..k] == w[..k]
    ensures Dot(v, n, k) == Dot(w, n, k)
  {
    hide Xor; hide Term;
    if k != 0 {
      assert v[..k - 1] == v[..k][..k - 1] == w[..k - 1];
      assert v[k - 1] == v[..k][k - 1] == w[k - 1];
      DotPrefix(v, w, n, k - 1);
    }
  }

  /** Two linear equations in the two parity bytes, solved. */
  lemma ParitySolves(sum: bv8, hxv: bv8)
    ensures var p0, p1 := Parity0(sum, hxv), Parity1(sum, hxv);
            Xor(Xor(sum, p1), p0) == 0 && Xor(Xor(hxv, Term(1, p1)), Term(0, p0)) == 0
  {
    hide Xor; hide Mul; hide RspcDiv3; hide RspcMult; hide Power;
    var p0, p1 := Parity0(sum, hxv), Parity1(sum, hxv);
    XorAssoc(sum, p1, p0);
    XorAssoc(sum, p0, p0);
    XorUnits(p0);
    XorUnits(sum);
    assert Xor(p1, p0) == sum;
    var xs := Mul(RED, 2, sum);
    RspcMultIsProduct(2, sum);
    Div3IsQuotient(Xor(xs, hxv));
    LowPowers();
    MulOne(RED, p0);
    // x * p1 + p0 = x * sum + 3 * p0
    MulXorRight(RED, 2, sum, p0);
    TwoPlusOne();
    MulXorLeft(RED, 2, 1, p0);
    var xp := Mul(RED, 2, p0);
    XorAssoc(hxv, Xor(xs, xp), p0);
    XorAssoc(xs, xp, p0);
    assert Xor(xp, p0) == Xor(xs, hxv);
    XorAssoc(xs, xs, hxv);
    XorUnits(xs);
    XorUnits(hxv);
  }

  lemma TwoPlusOne()
    ensures Xor(2, 1) == 3
  {
  }

  /** Appending the computed parity bytes to n - 2 payload bytes gives a code word. */
  lemma ParityCompletes(v: seq<bv8>)
    requires |v| >= 2
    requires var k := |v| - 2; var s := Sum(v, k); var h := Dot(v, |v|, k);
             v[k] == Parity1(s, h) && v[k + 1] == Parity0(s, h)
    ensures IsCodeword(v)
  {
    hide Xor; hide Term; hide Parity0; hide Parity1;
    var n := |v|;
    var k := n - 2;
    ParitySolves(Sum(v, k), Dot(v, n, k));
    assert Sum(v, n) == Xor(Sum(v, n - 1), v[n - 1]);
    assert Sum(v, n - 1) == Xor(Sum(v, k), v[k]);
    assert Dot(v, n, n) == Xor(Dot(v, n, n - 1), Term(0, v[n - 1]));
    assert Dot(v, n, n - 1) == Xor(Dot(v, n, k), Term(1, v[k]));
  }

  // ---------------------------------------------------- detection and location

  function XorSeq(v: seq<bv8>, w: seq<bv8>): (d: seq<bv8>)
    requires |v| == |w|
    ensures |d| == |v|
    ensures forall i | 0 <= i < |v| :: d[i] == Xor(v[i], w[i])
  {
    seq(|v|, i requires 0 <= i < |v| => Xor(v[i], w[i]))
  }

  lemma {:induction false} SumXor(v: seq<bv8>, w: seq<bv8>, k: nat)
    requires |v| == |w| && k <= |v|
    ensures Sum(XorSeq(v, w), k) == Xor(Sum(v, k), Sum(w, k))
  {
    hide Xor; hide XorSeq;
    if k == 0 {
      XorUnits(0);
    } else {
      SumXor(v, w, k - 1);
      XorSwap(Sum(v, k - 1), Sum(w, k - 1), v[k - 1], w[k - 1]);
    }
  }

  lemma {:induction false} DotXor(v: seq<bv8>, w: seq<bv8>, n: nat, k: nat)
    requires |v| == |w| && k <= |v| && k <= n
    ensures Dot(XorSeq(v, w), n, k) == Xor(Dot(v, n, k), Dot(w, n, k))
  {
    hide Xor; hide XorSeq; hide Mul; hide Power;
    if k == 0 {
      XorUnits(0);
    } else {
      DotXor(v, w, n, k - 1);
      MulXorRight(RED, Power(n - k), v[k - 1], w[k - 1]);
      XorSwap(Dot(v, n, k - 1), Dot(w, n, k - 1), Term(n - k, v[k - 1]), Term(n - k, w[k - 1]));
    }
  }

  lemma TermZero(e: nat)
    ensures Term(e, 0) == 0
  {
    hide Xor; hide Mul; hide Power;
    XorUnits(0);
    MulXorRight(RED, Power(e), 0, 0);
    XorUnits(Term(e, 0));
  }

  /** Both sums of a vector that is zero except at i and j. */
  lemma {:induction false} TwoTerms(d: seq<bv8>, i: nat, j: nat, n: nat, k: nat)
    requires i < j < |d| && k <= |d| <= n
    requires forall m | 0 <= m < |d| && m != i && m != j :: d[m] == 0
    ensures Sum(d, k) == Xor(if i < k then d[i] else 0, if j < k then d[j] else 0)
    ensures Dot(d, n, k) == Xor(if i < k then Term(n - 1 - i, d[i]) else 0, if j < k then Term(n - 1 - j, d[j]) else 0)
  {
    hide Xor; hide Term;
    XorUnits(0);
    if k != 0 {
      TwoTerms(d, i, j, n, k - 1);
      TermZero(n - k);
      XorUnits(Sum(d, k - 1));
      XorUnits(Dot(d, n, k - 1));
      XorUnits(d[i]);
      XorUnits(d[j]);
      XorUnits(Term(n - 1 - i, d[i]));
      XorUnits(Term(n - 1 - j, d[j]));
    }
  }

  /** x^a * e and x^b * e differ for a nonzero byte e and different small exponents. */
  lemma TermsDiffer(a: nat, b: nat, e: bv8)
    requires a < b < 255 && e != 0
    ensures Term(a, e) != Term(b, e)
  {
    hide Xor; hide Mul; hide Power;
    PowerDistinct(a, b);
    XorEqualsZero(Power(a), Power(b));
    MulNonzero(Xor(Power(a), Power(b)), e);
    MulXorLeft(RED, Power(a), Power(b), e);
    XorEqualsZero(Term(a, e), Term(b, e));
  }

  /** Minimum distance 3: two different code words of up to 255 bytes
      cannot agree everywhere except at two positions. */
  lemma MinimumDistance(v: seq<bv8>, w: seq<bv8>, i: nat, j: nat)
    requires |v| == |w| <= 255 && i < j < |v|
    requires IsCodeword(v) && IsCodeword(w)
    requires forall m | 0 <= m < |v| && m != i && m != j :: v[m] == w[m]
    ensures v == w
  {
    hide Xor; hide Term; hide XorSeq; hide Sum; hide Dot;
    var n, d := |v|, XorSeq(v, w);
    forall m | 0 <= m < n
      ensures d[m] == 0 <==> v[m] == w[m]
    {
      XorEqualsZero(v[m], w[m]);
    }
    SumXor(v, w, n);
    DotXor(v, w, n, n);
    XorUnits(0);
    TwoTerms(d, i, j, n, n);
    XorEqualsZero(d[i], d[j]);
    XorEqualsZero(Term(n - 1 - i, d[i]), Term(n - 1 - j, d[j]));
    if d[i] != 0 {
      TermsDiffer(n - 1 - j, n - 1 - i, d[i]);
    }
  }

  function Differences(v: seq<bv8>, w: seq<bv8>): set<nat>
    requires |v| == |w|
  {
    set m: nat | m < |v| && v[m] != w[m]
  }

  lemma ThirdDifference(v: seq<bv8>, w: seq<bv8>, i: nat, j: nat) returns (c: nat)
    requires |v| == |w| <= 255 && IsCodeword(v) && IsCodeword(w) && v != w
    requires i < |v| && j < |v| && i != j
    ensures c in Differences(v, w) && c != i && c != j
  {
    hide IsCodeword;
    if forall m | 0 <= m < |v| && m != i && m != j :: v[m] == w[m] {
      MinimumDistance(v, w, if i < j then i else j, if i < j then j else i);
    }
    c :| 0 <= c < |v| && c != i && c != j && v[c] != w[c];
  }

  /** Two different code words of up to 255 bytes differ in at least three bytes. */
  lemma DistanceThree(v: seq<bv8>, w: seq<bv8>)
    requires 2 <= |v| == |w| <= 255 && IsCodeword(v) && IsCodeword(w) && v != w
    ensures |Differences(v, w)| >= 3
  {
    hide IsCodeword;
    var a := ThirdDifference(v, w, 0, 1);
    var b := ThirdDifference(v, w, a, 0);
    var c := ThirdDifference(v, w, a, b);
    ByteOrbit.SubsetSize({a, b, c}, Differences(v, w));
  }

  /** x^(n-1-m) * s: the second syndrome that an error of value s at position m produces. */
  function ErrorAt(n: nat, m: nat, s: bv8): bv8
    requires m < n
  {
    Term(n - 1 - m, s)
  }

  /** The syndromes of a word with one altered byte give the byte's value and,
      through their quotient x^(n-1-k), its position. */
  lemma SingleErrorSyndromes(v: seq<bv8>, w: seq<bv8>, k: nat)
    requires 2 <= |v| == |w| <= 255 && k < |v| && IsCodeword(v)
    requires w == v[k := w[k]] && w[k] != v[k]
    ensures Sum(w, |w|) == Xor(v[k], w[k]) != 0
    ensures forall m | 0 <= m < |w| :: Dot(w, |w|, |w|) == ErrorAt(|w|, m, Sum(w, |w|)) <==> m == k
  {
    hide Xor; hide Term; hide XorSeq; hide Sum; hide Dot;
    var n, d := |v|, XorSeq(v, w);
    forall m | 0 <= m < n && m != k
      ensures d[m] == 0
    {
      XorEqualsZero(v[m], w[m]);
    }
    XorEqualsZero(v[k], w[k]);
    SumXor(v, w, n);
    DotXor(v, w, n, n);
    XorUnits(Sum(w, n));
    XorUnits(Dot(w, n, n));
    var i, j := if k == 0 then 0 else k - 1, if k == 0 then 1 else k;
    TwoTerms(d, i, j, n, n);
    TermZero(n - 1 - i);
    TermZero(n - 1 - j);
    XorUnits(d[k]);
    XorUnits(Term(n - 1 - k, d[k]));
    forall m | 0 <= m < n && m != k
      ensures ErrorAt(n, k, d[k]) != ErrorAt(n, m, d[k])
    {
      if m < k {
        TermsDiffer(n - 1 - k, n - 1 - m, d[k]);
      } else {
        TermsDiffer(n - 1 - m, n - 1 - k, d[k]);
      }
    }
  }
}
