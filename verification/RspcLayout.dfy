/** Where the code words of a raw sector lie: every payload byte belongs to one P column, and every
    byte of payload and P parity to one Q diagonal. */
module RspcLayout {
  import opened RspcSector
  import opened Arithmetic

  /** The column, lane and row of byte p. */
  function PPlace(p: nat): (nat, nat, nat)
    requires 12 <= p < 2248
  {
    var n := p - 12;
    ((n % 86) / 2, n % 2, n / 86)
  }

  /** The 26 rows of the 43 columns are the bytes 12 to 2247, each of them once. */
  lemma OneColumn(col: nat, lane: nat, k: nat, p: nat)
    requires col < 43 && lane < 2 && k < 26
    ensures 12 <= PPos(col, lane, k) < 2248 && PPlace(PPos(col, lane, k)) == (col, lane, k)
    ensures 12 <= p < 2248 ==> var (c, l, r) := PPlace(p); c < 43 && l < 2 && r < 26 && PPos(c, l, r) == p
  {
    var n := 2 * col + lane + 86 * k;
    DivisionUnique(k, 86, 2 * col + lane);
    assert n == 2 * (col + 43 * k) + lane;
    DivisionUnique(col + 43 * k, 2, lane);
    DivisionUnique(col, 2, lane);
    if 12 <= p < 2248 {
      ColumnOfByte(p - 12);
    }
  }

  lemma ColumnOfByte(n: nat)
    requires n < 2236
    ensures (n % 86) / 2 < 43 && n % 2 < 2 && n / 86 < 26 && n == 2 * ((n % 86) / 2) + n % 2 + 86 * (n / 86)
  {
    var q, r := n / 86, n % 86;
    assert n == 2 * (43 * q + r / 2) + r % 2;
    DivisionUnique(43 * q + r / 2, 2, r % 2);
  }

  /** The diagonal, lane and element of byte p. */
  function QPlace(p: nat): (nat, nat, nat)
    requires 12 <= p < 2248
  {
    var r := (p - 12) / 2;
    ((r / 43 + 43 - r % 43 + 9) % 26, (p - 12) % 2, r % 43)
  }

  /** The payload of the 26 diagonals are the bytes 12 to 2247, each of them once. */
  lemma OneDiagonal(diag: nat, lane: nat, k: nat, p: nat)
    requires diag < 26 && lane < 2 && k < 43
    ensures 12 <= QPos(diag, lane, k) < 2248 && QPlace(QPos(diag, lane, k)) == (diag, lane, k)
    ensures 12 <= p < 2248 ==> var (d, l, e) := QPlace(p); d < 26 && l < 2 && e < 43 && QPos(d, l, e) == p
  {
    hide QPos; hide QPlace;
    PlaceOfDiagonal(diag, lane, k);
    if 12 <= p < 2248 {
      DiagonalOfByte(p);
    }
  }

  lemma PlaceOfDiagonal(diag: nat, lane: nat, k: nat)
    requires diag < 26 && lane < 2 && k < 43
    ensures 12 <= QPos(diag, lane, k) < 2248 && QPlace(QPos(diag, lane, k)) == (diag, lane, k)
  {
    hide DiagonalIndex;
    var r := (43 * diag + 44 * k) % 1118;
    HalfIndex(diag, k);
    DivisionUnique(r, 2, lane);
    ElementOf(diag, k);
  }

  lemma DiagonalOfByte(p: nat)
    requires 12 <= p < 2248
    ensures var (d, l, e) := QPlace(p); d < 26 && l < 2 && e < 43 && QPos(d, l, e) == p
  {
    hide DiagonalIndex;
    var r := (p - 12) / 2;
    var (d, l, e) := QPlace(p);
    HalfIndex(d, e);
    IndexOf(r, r / 43, e, d);
  }

  lemma HalfIndex(diag: nat, k: nat)
    ensures DiagonalIndex(diag, k) == 2 * ((43 * diag + 44 * k) % 1118)
  {
    var m := 43 * diag + 44 * k;
    var q, r := m / 1118, m % 1118;
    assert 86 * diag + 88 * k == q * 2236 + 2 * r;
    DivisionUnique(q, 2236, 2 * r);
  }

  lemma ElementOf(diag: nat, k: nat)
    requires diag < 26 && k < 43
    ensures var r := (43 * diag + 44 * k) % 1118; r % 43 == k && (r / 43 + 43 - k + 9) % 26 == diag
  {
    var s := diag + k;
    var q, t := s / 26, s % 26;
    assert 43 * diag + 44 * k == q * 1118 + (43 * t + k);
    DivisionUnique(q, 1118, 43 * t + k);
    DivisionUnique(t, 43, k);
    assert t + 52 - k == (2 - q) * 26 + diag;
    if q <= 2 {
      DivisionUnique(2 - q, 26, diag);
    }
  }

  lemma IndexOf(r: nat, t: nat, k: nat, diag: nat)
    requires t < 26 && k < 43 && r == 43 * t + k && diag == (t + 43 - k + 9) % 26
    ensures (43 * diag + 44 * k) % 1118 == r
  {
    var q := (t + 52 - k) / 26;
    assert t + 52 - k == q * 26 + diag;
    assert 43 * diag + 44 * k == (2 - q) * 1118 + r;
    if q <= 2 {
      DivisionUnique(2 - q, 1118, r);
    }
  }
}
