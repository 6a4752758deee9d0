/** The 20-round Feistel network of poler_core.h. */
module PolerCipher {
  import opened Arithmetic
  import opened PolerWord
  import opened PolerSbox
  import Gf256
  import Octets

  // ----------------------------------------------------------- round function

  /** The bytes of a word in memory order (little endian). */
  datatype Bytes = Bytes(b0: bv8, b1: bv8, b2: bv8, b3: bv8)

  type octet = x: int | 0 <= x < 0x100

  function ByteOf(x: octet): bv8 { Octets.Narrow(x) }

  function ValueOf(b: bv8): octet { b as int }

  function ToBytes(w: word): Bytes
  {
    Bytes(ByteOf(w % 0x100), ByteOf((w / 0x100) % 0x100), ByteOf((w / 0x1_0000) % 0x100), ByteOf(w / 0x100_0000))
  }

  function FromBytes(b: Bytes): word
  {
    ValueOf(b.b0) + 0x100 * ValueOf(b.b1) + 0x1_0000 * ValueOf(b.b2) + 0x100_0000 * ValueOf(b.b3)
  }

  function PndMix(a: word, b: word, epsilon: word): word
  {
    var eps := if epsilon == 0 then 1 else epsilon;
    Add(Phi(Mul(a, b)), Mul(eps, Phi(Xor(a, b))))
  }

  /** One row of the matrix: 2 3 1 1. */
  function MixRow(p: bv8, q: bv8, r: bv8, s: bv8): bv8
  {
    Gf256.Mul(AES, 2, p) ^ Gf256.Mul(AES, 3, q) ^ r ^ s
  }

  function MixBytes(a: Bytes): Bytes
  {
    Bytes(MixRow(a.b0, a.b1, a.b2, a.b3), MixRow(a.b1, a.b2, a.b3, a.b0),
          MixRow(a.b2, a.b3, a.b0, a.b1), MixRow(a.b3, a.b0, a.b1, a.b2))
  }

  function MixColumns(w: word): word { FromBytes(MixBytes(ToBytes(w))) }

  function Bit(w: word, i: nat): nat
    requires i < 32
  {
    Pow2Positive(i);
    (w / Pow2(i)) % 2
  }

  /** One cell of the cellular automaton on the ring of 32 cells. */
  function LhcaBit(state: word, rule: word, i: nat): (b: nat)
    requires i < 32
    ensures b < 2
  {
    var left, right := Bit(state, if i == 0 then 31 else i - 1), Bit(state, if i == 31 then 0 else i + 1);
    (left + Bit(rule, i) * Bit(state, i) + right) % 2
  }

  function LhcaBits(state: word, rule: word, n: nat): (r: nat)
    requires n <= 32
    ensures r < Pow2(n)
  {
    if n == 0 then 0
    else
      var b := LhcaBit(state, rule, n - 1);
      LhcaBits(state, rule, n - 1) + if b == 1 then Pow2(n - 1) else 0
  }

  function LhcaStep(state: word, rule: word): word
  {
    Pow2At32();
    LhcaBits(state, rule, 32)
  }

  // The step in terms of bits: which bits it has, and that it is linear in the state.

  function BitOf(w: nat, i: nat): nat
    decreases i
  {
    if i == 0 then w % 2 else BitOf(w / 2, i - 1)
  }

  lemma {:induction false} BitIsBitOf(w: nat, i: nat)
    ensures Pow2(i) > 0 && (w / Pow2(i)) % 2 == BitOf(w, i)
    decreases i
  {
    Pow2Positive(i);
    if i > 0 {
      BitIsBitOf(w / 2, i - 1);
      HalfQuotient(w, Pow2(i - 1));
    }
  }

  lemma HalfQuotient(w: nat, d: nat)
    requires d > 0
    ensures w / (2 * d) == (w / 2) / d
  {
    var h := w / 2;
    var q, r := h / d, h % d;
    assert h == q * d + r;
    assert q * (2 * d) == 2 * (q * d);
    assert w == q * (2 * d) + (2 * r + w % 2);
    DivisionUnique(q, 2 * d, 2 * r + w % 2);
  }

  lemma {:induction false} BitOfParts(a: nat, b: nat, n: nat, i: nat)
    requires a < Pow2(n)
    ensures BitOf(a + b * Pow2(n), i) == if i < n then BitOf(a, i) else BitOf(b, i - n)
    decreases n
  {
    if n > 0 {
      var h := b * Pow2(n - 1);
      assert b * Pow2(n) == 2 * h;
      assert (a + 2 * h) / 2 == a / 2 + h && (a + 2 * h) % 2 == a % 2;
      if i > 0 {
        BitOfParts(a / 2, b, n - 1, i - 1);
      }
    }
  }

  lemma BitOfSum(a: nat, b: nat, n: nat, i: nat)
    requires a < Pow2(n) && b < 2 && i <= n
    ensures BitOf(a + b * Pow2(n), i) == if i < n then BitOf(a, i) else b
  {
    hide Pow2;
    BitOfParts(a, b, n, i);
    assert BitOf(b, 0) == b;
  }

  lemma {:induction false} LhcaBitsHas(state: word, rule: word, n: nat, i: nat)
    requires i < n <= 32
    ensures BitOf(LhcaBits(state, rule, n), i) == LhcaBit(state, rule, i)
    decreases n
  {
    hide LhcaBit; hide BitOf;
    var b := LhcaBit(state, rule, n - 1);
    BitOfSum(LhcaBits(state, rule, n - 1), b, n - 1, i);
    assert b * Pow2(n - 1) == if b == 1 then Pow2(n - 1) else 0;
    if i < n - 1 {
      LhcaBitsHas(state, rule, n - 1, i);
    }
  }

  /** Every cell of the new state is the sum of its neighbours and, where the rule says so,
      itself. */
  lemma StepHasBits(state: word, rule: word, i: nat)
    requires i < 32
    ensures Bit(LhcaStep(state, rule), i) == LhcaBit(state, rule, i)
  {
    hide LhcaBit;
    LhcaBitsHas(state, rule, 32, i);
    BitIsBitOf(LhcaStep(state, rule), i);
  }

  lemma Halves(e: nat, h: nat)
    requires e < 2
    ensures (e + 2 * h) % 2 == e && (e + 2 * h) / 2 == h
  {
    DivisionUnique(h, 2, e);
  }

  lemma BitSum(p: nat, q: nat)
    requires p < 2 && q < 2
    ensures (p + q) % 2 == if p == q then 0 else 1
  {
  }

  lemma {:induction false} BitOfXor(a: nat, b: nat, n: nat, i: nat)
    requires a < Pow2(n) && b < Pow2(n) && i < n
    ensures BitOf(XorBits(a, b, n), i) == (BitOf(a, i) + BitOf(b, i)) % 2
    decreases n
  {
    hide XorBits;
    XorBitsUnfold(a, b, n);
    BitSum(a % 2, b % 2);
    Halves(if a % 2 == b % 2 then 0 else 1, XorBits(a / 2, b / 2, n - 1));
    if i > 0 {
      BitOfXor(a / 2, b / 2, n - 1, i - 1);
    }
  }

  lemma BitXor(a: word, b: word, i: nat)
    requires i < 32
    ensures Bit(Xor(a, b), i) == (Bit(a, i) + Bit(b, i)) % 2
  {
    Pow2At32();
    hide XorBits; hide BitOf; hide Pow2;
    BitOfXor(a, b, 32, i);
    BitIsBitOf(a, i);
    BitIsBitOf(b, i);
    BitIsBitOf(Xor(a, b), i);
  }

  lemma {:induction false} SameBitsSame(a: nat, b: nat, n: nat)
    requires a < Pow2(n) && b < Pow2(n) && forall i: nat | i < n :: BitOf(a, i) == BitOf(b, i)
    ensures a == b
    decreases n
  {
    if n > 0 {
      assert BitOf(a, 0) == BitOf(b, 0);
      forall i: nat | i < n - 1
        ensures BitOf(a / 2, i) == BitOf(b / 2, i)
      {
        assert BitOf(a, i + 1) == BitOf(b, i + 1);
      }
      SameBitsSame(a / 2, b / 2, n - 1);
    }
  }

  lemma SameBits(a: word, b: word)
    requires forall i: nat | i < 32 :: Bit(a, i) == Bit(b, i)
    ensures a == b
  {
    Pow2At32();
    forall i: nat | i < 32
      ensures BitOf(a, i) == BitOf(b, i)
    {
      assert Bit(a, i) == Bit(b, i);
      BitIsBitOf(a, i);
      BitIsBitOf(b, i);
    }
    SameBitsSame(a, b, 32);
  }

  lemma CellLinear(s: word, t: word, rule: word, i: nat)
    requires i < 32
    ensures LhcaBit(Xor(s, t), rule, i) == (LhcaBit(s, rule, i) + LhcaBit(t, rule, i)) % 2
  {
    hide Xor; hide Bit;
    var l, r := if i == 0 then 31 else i - 1, if i == 31 then 0 else i + 1;
    BitXor(s, t, l);
    BitXor(s, t, i);
    BitXor(s, t, r);
    BitBelow2(rule, i);
    CellSum(Bit(s, l), Bit(t, l), Bit(s, i), Bit(t, i), Bit(s, r), Bit(t, r), Bit(rule, i));
  }

  function Par(x: nat): nat { x % 2 }

  lemma CellSum(l: nat, l': nat, m: nat, m': nat, r: nat, r': nat, b: nat)
    requires b < 2
    ensures Par(Par(l + l') + b * Par(m + m') + Par(r + r')) == Par(Par(l + b * m + r) + Par(l' + b * m' + r'))
  {
    hide Par;
    var x, y, z := l + l', m + m', r + r';
    if b == 0 {
      Parity(x, z);
      Parity(l + r, l' + r');
      assert l + r + (l' + r') == x + z;
    } else {
      Parity(x, y);
      Parity(Par(x) + Par(y), Par(z));
      Parity(z, z);
      Parity(x + y, z);
      Parity(l + m + r, l' + m' + r');
      assert l + m + r + (l' + m' + r') == x + y + z;
    }
  }

  lemma Parity(x: nat, y: nat)
    ensures Par(Par(x) + Par(y)) == Par(x + y) && Par(Par(x)) == Par(x)
  {
    var p, q, h := x % 2, y % 2, x / 2 + y / 2;
    assert x + y == (p + q) + 2 * h;
    BitSum(p, q);
    Halves(p, 0);
    if p == 1 && q == 1 {
      Halves(0, h + 1);
    } else {
      Halves(p + q, h);
    }
  }

  lemma BitBelow2(w: word, i: nat)
    requires i < 32
    ensures Bit(w, i) < 2
  {
  }

  /** The automaton is linear: differences of states evolve like states, whatever the rule. */
  lemma StepIsLinear(s: word, t: word, rule: word)
    ensures LhcaStep(Xor(s, t), rule) == Xor(LhcaStep(s, rule), LhcaStep(t, rule))
  {
    hide Xor; hide Bit; hide LhcaBit; hide LhcaStep;
    var a, b := LhcaStep(Xor(s, t), rule), Xor(LhcaStep(s, rule), LhcaStep(t, rule));
    forall i: nat | i < 32
      ensures Bit(a, i) == Bit(b, i)
    {
      StepHasBits(Xor(s, t), rule, i);
      StepHasBits(s, rule, i);
      StepHasBits(t, rule, i);
      CellLinear(s, t, rule, i);
      BitXor(LhcaStep(s, rule), LhcaStep(t, rule), i);
    }
    SameBits(a, b);
  }

  /** poler_lhca_step: cell by cell; the bit that is added is not set yet. */
  method StepAutomaton(state: word, rule: word) returns (result: word)
    ensures result == LhcaStep(state, rule)
    ensures forall i: nat | i < 32 :: Bit(result, i) == LhcaBit(state, rule, i)
  {
    hide LhcaBit; hide Pow2;
    Pow2At32();
    var r: nat := 0;
    for i := 0 to 32
      invariant r == LhcaBits(state, rule, i)
    {
      var bit := LhcaBit(state, rule, i);
      r := r + if bit == 1 then Pow2(i) else 0;
    }
    result := r;
    forall i: nat | i < 32
      ensures Bit(result, i) == LhcaBit(state, rule, i)
    {
      StepHasBits(state, rule, i);
    }
  }

  const LHCA_DEFAULT_RULE: word := 0xACACACAC

  function FeistelF(r: word, roundKey: word, epsilon: word): word
  {
    var b := ToBytes(r);
    var subbed := FromBytes(Bytes(CtSbox(b.b0), CtSbox(b.b1), CtSbox(b.b2), CtSbox(b.b3)));
    LhcaStep(MixColumns(PndMix(subbed, roundKey, epsilon)), LHCA_DEFAULT_RULE)
  }

  /** The round function on a half block, with the coupling of its two words. */
  function FeistelFHalf(r0: word, r1: word, k0: word, k1: word, epsilon: word): (word, word)
  {
    Couple(FeistelF(r0, k0, epsilon), FeistelF(r1, k1, epsilon))
  }

  function Couple(o0: word, o1: word): (word, word)
  {
    var cross0, cross1 := Phi(Xor(o0, o1)), Phi(Xor(o1, Add(o0, GOLDEN)));
    (Add(o0, Rotl(cross0, 5)), Add(o1, Rotl(cross1, 7)))
  }

  // ------------------------------------------------------------------ network

  datatype Block = Block(l0: word, l1: word, r0: word, r1: word)

  /** Contents of struct poler_cipher, whatever the key schedule has put there. */
  datatype Keys = Keys(key: seq<Block>, epsilon: seq<word>, rounds: nat)

  /** Word j of a block */
  function WordOf(b: Block, j: nat): word
    requires j < 4
  {
    if j == 0 then b.l0 else if j == 1 then b.l1 else if j == 2 then b.r0 else b.r1
  }

  predicate KeysOk(k: Keys)
  {
    |k.key| == 22 && |k.epsilon| == 22 && k.rounds <= 20
  }

  function Whiten(b: Block, k: Block): Block
  {
    Block(Xor(b.l0, k.l0), Xor(b.l1, k.l1), Xor(b.r0, k.r0), Xor(b.r1, k.r1))
  }

  /** One round of encryption; the index counts from 1. */
  function RoundForward(k: Keys, b: Block, i: nat): Block
    requires KeysOk(k) && 0 < i <= 20
  {
    var (f0, f1) := FeistelFHalf(b.r0, b.r1, k.key[i].l0, k.key[i].l1, k.epsilon[i]);
    Block(b.r0, b.r1, Xor(b.l0, f0), Xor(b.l1, f1))
  }

  function RoundBackward(k: Keys, b: Block, i: nat): Block
    requires KeysOk(k) && 0 < i <= 20
  {
    var (f0, f1) := FeistelFHalf(b.l0, b.l1, k.key[i].l0, k.key[i].l1, k.epsilon[i]);
    Block(Xor(b.r0, f0), Xor(b.r1, f1), b.l0, b.l1)
  }

  function Forward(k: Keys, b: Block, n: nat): Block
    requires KeysOk(k) && n <= 20
  {
    if n == 0 then b else RoundForward(k, Forward(k, b, n - 1), n)
  }

  function Backward(k: Keys, b: Block, n: nat): Block
    requires KeysOk(k) && n <= 20
    decreases n
  {
    if n == 0 then b else Backward(k, RoundBackward(k, b, n), n - 1)
  }

  function Encrypt(k: Keys, b: Block): Block
    requires KeysOk(k)
  {
    Whiten(Forward(k, Whiten(b, k.key[0]), k.rounds), k.key[k.rounds + 1])
  }

  function Decrypt(k: Keys, b: Block): Block
    requires KeysOk(k)
  {
    Whiten(Backward(k, Whiten(b, k.key[k.rounds + 1]), k.rounds), k.key[0])
  }

  lemma WhitenTwice(b: Block, k: Block)
    ensures Whiten(Whiten(b, k), k) == b
  {
    hide Xor;
    XorTwice(b.l0, k.l0);
    XorTwice(b.l1, k.l1);
    XorTwice(b.r0, k.r0);
    XorTwice(b.r1, k.r1);
  }

  lemma RoundInverse(k: Keys, b: Block, i: nat)
    requires KeysOk(k) && 0 < i <= 20
    ensures RoundBackward(k, RoundForward(k, b, i), i) == b
    ensures RoundForward(k, RoundBackward(k, b, i), i) == b
  {
    hide Xor; hide FeistelFHalf;
    var (f0, f1) := FeistelFHalf(b.r0, b.r1, k.key[i].l0, k.key[i].l1, k.epsilon[i]);
    XorTwice(b.l0, f0);
    XorTwice(b.l1, f1);
    var (g0, g1) := FeistelFHalf(b.l0, b.l1, k.key[i].l0, k.key[i].l1, k.epsilon[i]);
    XorTwice(b.r0, g0);
    XorTwice(b.r1, g1);
  }

  lemma {:induction false} NetworkInverse(k: Keys, b: Block, n: nat)
    requires KeysOk(k) && n <= 20
    ensures Backward(k, Forward(k, b, n), n) == b
    ensures Forward(k, Backward(k, b, n), n) == b
    decreases n
  {
    hide RoundForward; hide RoundBackward;
    if n > 0 {
      RoundInverse(k, Forward(k, b, n - 1), n);
      NetworkInverse(k, b, n - 1);
      NetworkInverse(k, RoundBackward(k, b, n), n - 1);
      RoundInverse(k, b, n);
    }
  }

  /** For every content of the key table, every round count and every block. */
  lemma CipherInverse(k: Keys, b: Block)
    requires KeysOk(k)
    ensures Decrypt(k, Encrypt(k, b)) == b
    ensures Encrypt(k, Decrypt(k, b)) == b
  {
    hide Whiten; hide Forward; hide Backward;
    var p := Whiten(b, k.key[0]);
    WhitenTwice(Forward(k, p, k.rounds), k.key[k.rounds + 1]);
    NetworkInverse(k, p, k.rounds);
    WhitenTwice(b, k.key[0]);
    var q := Whiten(b, k.key[k.rounds + 1]);
    WhitenTwice(Backward(k, q, k.rounds), k.key[0]);
    NetworkInverse(k, q, k.rounds);
    WhitenTwice(b, k.key[k.rounds + 1]);
  }

  // ------------------------------------------------------------------- methods

  function BlockOf(s: seq<word>): Block
    requires |s| == 4
  {
    Block(s[0], s[1], s[2], s[3])
  }

  class Cipher {
    const roundKeys: array2<word>
    const roundEpsilons: array<word>
    var rounds: nat

    ghost predicate Valid()
      reads this
    {
      roundKeys.Length0 == 22 && roundKeys.Length1 == 4 && roundEpsilons.Length == 22 && rounds <= 20
    }

    ghost function Table(): (k: Keys)
      requires Valid()
      reads this, roundKeys, roundEpsilons
      ensures KeysOk(k)
    {
      Keys(seq(22, i requires 0 <= i < 22 && Valid() reads this, roundKeys =>
                 Block(roundKeys[i, 0], roundKeys[i, 1], roundKeys[i, 2], roundKeys[i, 3])),
           roundEpsilons[..], rounds)
    }

    /** A cipher with the given round keys and epsilons, wherever they come from. */
    constructor (k: Keys)
      requires KeysOk(k)
      ensures Valid() && fresh(roundKeys) && fresh(roundEpsilons) && Table() == k
    {
      roundKeys := new word[22, 4]((i, j) requires 0 <= i < 22 && 0 <= j < 4 && |k.key| == 22 => WordOf(k.key[i], j));
      roundEpsilons := new word[22](i requires 0 <= i < 22 && |k.epsilon| == 22 => k.epsilon[i]);
      rounds := k.rounds;
      new;
      assert Table().key == k.key;
      assert Table().epsilon == k.epsilon;
    }

    /** plaintext and ciphertext may be the same array. */
    method EncryptBlock(plaintext: array<word>, ciphertext: array<word>)
      requires Valid() && plaintext.Length == 4 && ciphertext.Length == 4
      requires ciphertext != roundEpsilons
      modifies ciphertext
      ensures Table() == old(Table())
      ensures BlockOf(ciphertext[..]) == Encrypt(Table(), old(BlockOf(plaintext[..])))
    {
      hide Xor; hide FeistelFHalf;
      ghost var k := Table();
      var l0, l1, r0, r1 := plaintext[0], plaintext[1], plaintext[2], plaintext[3];
      l0, l1 := Xor(l0, roundKeys[0, 0]), Xor(l1, roundKeys[0, 1]);
      r0, r1 := Xor(r0, roundKeys[0, 2]), Xor(r1, roundKeys[0, 3]);
      ghost var start := Block(l0, l1, r0, r1);
      for round := 0 to rounds
        invariant Block(l0, l1, r0, r1) == Forward(k, start, round)
      {
        var idx := round + 1;
        var (f0, f1) := FeistelFHalf(r0, r1, roundKeys[idx, 0], roundKeys[idx, 1], roundEpsilons[idx]);
        l0, l1, r0, r1 := r0, r1, Xor(l0, f0), Xor(l1, f1);
      }
      l0, l1 := Xor(l0, roundKeys[rounds + 1, 0]), Xor(l1, roundKeys[rounds + 1, 1]);
      r0, r1 := Xor(r0, roundKeys[rounds + 1, 2]), Xor(r1, roundKeys[rounds + 1, 3]);
      ciphertext[0], ciphertext[1], ciphertext[2], ciphertext[3] := l0, l1, r0, r1;
    }

    method DecryptBlock(ciphertext: array<word>, plaintext: array<word>)
      requires Valid() && plaintext.Length == 4 && ciphertext.Length == 4
      requires plaintext != roundEpsilons
      modifies plaintext
      ensures Table() == old(Table())
      ensures BlockOf(plaintext[..]) == Decrypt(Table(), old(BlockOf(ciphertext[..])))
    {
      hide Xor; hide FeistelFHalf;
      ghost var k := Table();
      var l0, l1, r0, r1 := ciphertext[0], ciphertext[1], ciphertext[2], ciphertext[3];
      l0, l1 := Xor(l0, roundKeys[rounds + 1, 0]), Xor(l1, roundKeys[rounds + 1, 1]);
      r0, r1 := Xor(r0, roundKeys[rounds + 1, 2]), Xor(r1, roundKeys[rounds + 1, 3]);
      ghost var start := Block(l0, l1, r0, r1);
      var round: nat := rounds;
      while round > 0
        invariant round <= rounds
        invariant Backward(k, Block(l0, l1, r0, r1), round) == Backward(k, start, rounds)
      {
        var (f0, f1) := FeistelFHalf(l0, l1, roundKeys[round, 0], roundKeys[round, 1], roundEpsilons[round]);
        l0, l1, r0, r1 := Xor(r0, f0), Xor(r1, f1), l0, l1;
        round := round - 1;
      }
      l0, l1 := Xor(l0, roundKeys[0, 0]), Xor(l1, roundKeys[0, 1]);
      r0, r1 := Xor(r0, roundKeys[0, 2]), Xor(r1, roundKeys[0, 3]);
      plaintext[0], plaintext[1], plaintext[2], plaintext[3] := l0, l1, r0, r1;
    }

    /** Encryption followed by decryption, in place or not. */
    method RoundTrip(input: array<word>, between: array<word>, output: array<word>)
      requires Valid() && input.Length == 4 && between.Length == 4 && output.Length == 4
      requires between != roundEpsilons && output != roundEpsilons
      modifies between, output
      ensures Table() == old(Table())
      ensures BlockOf(output[..]) == old(BlockOf(input[..]))
    {
      hide Encrypt; hide Decrypt;
      CipherInverse(Table(), BlockOf(input[..]));
      EncryptBlock(input, between);
      DecryptBlock(between, output);
    }

    /** The self-test of the source: it succeeds with every key table. */
    method VerifyRoundtrip() returns (ok: bool)
      requires Valid()
      ensures ok
    {
      var original := new word[4][0x01234567, 0x89ABCDEF, 0xFEDCBA98, 0x76543210];
      var encrypted, decrypted := new word[4](_ => 0), new word[4](_ => 0);
      ghost var b := BlockOf(original[..]);
      RoundTrip(original, encrypted, decrypted);
      ok := decrypted[0] == original[0] && decrypted[1] == original[1]
            && decrypted[2] == original[2] && decrypted[3] == original[3];
    }
  }

  // ------------------------------------------------------- inter-word diffusion

  /** The cascade at the end of poler_lhca_diffuse_block. */
  function Cascade(b: Block): Block
  {
    var w0 := Xor(b.l0, b.r1);
    var w1 := Xor(b.l1, w0);
    var w2 := Xor(b.r0, w1);
    Block(w0, w1, w2, Xor(b.r1, w2))
  }

  function CascadeInverse(b: Block): Block
  {
    var w3 := Xor(b.r1, b.r0);
    Block(Xor(b.l0, w3), Xor(b.l1, b.l0), Xor(b.r0, b.l1), w3)
  }

  lemma CascadeInvertible(b: Block)
    ensures CascadeInverse(Cascade(b)) == b && Cascade(CascadeInverse(b)) == b
  {
    hide Xor;
    var c, d := Cascade(b), CascadeInverse(b);
    XorTwice(b.r1, c.r0);
    XorTwice(b.r0, c.l1);
    XorTwice(b.l1, c.l0);
    XorTwice(b.l0, b.r1);
    XorTwice(b.l0, d.r1);
    XorTwice(b.l1, b.l0);
    XorTwice(b.r0, b.l1);
    XorTwice(b.r1, b.r0);
  }

  lemma {:induction false} XorBitsZero(a: nat, n: nat)
    requires a < Pow2(n) && 0 < Pow2(n)
    ensures XorBits(a, a, n) == 0 && XorBits(a, 0, n) == a
    decreases n
  {
    if n > 0 {
      XorBitsZero(a / 2, n - 1);
    }
  }

  lemma {:induction false} XorBitsComm(a: nat, b: nat, n: nat)
    requires a < Pow2(n) && b < Pow2(n)
    ensures XorBits(a, b, n) == XorBits(b, a, n)
    decreases n
  {
    if n > 0 {
      XorBitsComm(a / 2, b / 2, n - 1);
    }
  }

  /** An exclusive or determines each operand by the other one. */
  lemma XorSolve(a: word, b: word, c: word)
    requires Xor(a, b) == c
    ensures Xor(c, b) == a && Xor(c, a) == b && Xor(b, a) == c
    ensures (c == a <==> b == 0) && (a == b <==> c == 0)
  {
    Pow2At32();
    hide XorBits;
    XorBitsComm(a, b, 32);
    XorTwice(a, b);
    XorTwice(b, a);
    XorBitsZero(a, 32);
    XorBitsZero(b, 32);
    XorBitsZero(c, 32);
    XorBitsComm(0, b, 32);
    XorBitsComm(0, a, 32);
  }

  /** The comment calls the cascade self-inverse. It is so on the zero block only. */
  lemma CascadeSelfInverseExactly(b: Block)
    ensures Cascade(Cascade(b)) == b <==> b == Block(0, 0, 0, 0)
  {
    hide Xor;
    var c := Cascade(b);
    XorSolve(b.l0, b.r1, c.l0);
    XorSolve(b.l1, c.l0, c.l1);
    XorSolve(b.r0, c.l1, c.r0);
    XorSolve(b.r1, c.r0, c.r1);
    var d := Cascade(c);
    XorSolve(c.l0, c.r1, d.l0);
    XorSolve(c.l1, d.l0, d.l1);
    XorSolve(c.r0, d.l1, d.r0);
    XorSolve(c.r1, d.r0, d.r1);
    if d == b {
      XorSolve(c.r0, b.r0, c.l1);
      assert c.l1 == b.l1;
      assert c.l0 == 0;
      XorSolve(b.r1, c.r0, c.r1);
      XorSolve(c.l1, b.l0, b.l1);
      assert b.l0 == 0;
      assert b.r1 == 0;
      XorSolve(c.r1, b.r0, b.r1);
      assert c.r0 == b.r0;
      assert c.l1 == 0;
      assert b == Block(0, 0, 0, 0);
    }
    if b == Block(0, 0, 0, 0) {
      assert c == b;
    }
  }
}
