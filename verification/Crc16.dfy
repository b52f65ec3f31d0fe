/** The CRC of the SD data transfer. Machine words are their bits, most significant first, so that
 * widths and truncating shifts are explicit. */
module Crc16 {

  type Bits = seq<bool>
  type Word = w: Bits | |w| == 16
    witness [false, false, false, false, false, false, false, false,
             false, false, false, false, false, false, false, false]
  type Byte = b: Bits | |b| == 8 witness [false, false, false, false, false, false, false, false]

  const ZERO: Word :=
    [false, false, false, false, false, false, false, false, false, false, false, false, false, false, false, false]

  function Xor(a: Word, b: Word): Word {
    seq(16, i requires 0 <= i < 16 => a[i] != b[i])
  }

  function Or(a: Word, b: Word): Word {
    seq(16, i requires 0 <= i < 16 => a[i] || b[i])
  }

  function ShiftLeft(a: Word, k: nat): Word {
    seq(16, i requires 0 <= i < 16 => i + k < 16 && a[i + k])
  }

  function ShiftRight(a: Word, k: nat): Word {
    seq(16, i requires 0 <= i < 16 => i >= k && a[i - k])
  }

  /** The low `k` bits; a cast to a narrower type and back. */
  function LowBits(a: Word, k: nat): Word {
    seq(16, i requires 0 <= i < 16 => i >= 16 - k && a[i])
  }

  function Extend(b: Byte): Word {
    seq(16, i requires 0 <= i < 16 => i >= 8 && b[i - 8])
  }

  // ---------- the boot loader's byte step ----------

  /** One byte into the CRC by shifts and exclusive ors. */
  method Crc16Round(crc: Word, data: Byte) returns (r: Word)
    ensures r == Remainder(crc, data)
  {
    r := Or(LowBits(ShiftRight(crc, 8), 8), ShiftLeft(crc, 8));
    r := Xor(r, Extend(data));
    r := Xor(r, LowBits(LowBits(ShiftRight(r, 4), 8), 4));
    r := Xor(r, ShiftLeft(r, 12));
    r := Xor(r, ShiftLeft(LowBits(r, 8), 5));
    RoundIsWide(crc, data);
    ByteIsWide(crc, data);
  }

  // ---------- bit-serial division by x^16 + x^12 + x^5 + 1 ----------

  /** Where the polynomial has a term below x^16: x^12, x^5 and 1. */
  predicate Tap(i: int) {
    i == 3 || i == 10 || i == 15
  }

  /** Shift one message bit into the remainder register. */
  function Divide(reg: Word, bit: bool): Word {
    var q := reg[0] != bit;
    seq(16, i requires 0 <= i < 16 => (i < 15 && reg[i + 1]) != (q && Tap(i)))
  }

  /** The register after a whole message. */
  function Remainder(reg: Word, message: Bits): Word
    decreases |message|
  {
    if message == [] then reg else Remainder(Divide(reg, message[0]), message[1..])
  }

  lemma {:induction false} RemainderAppend(reg: Word, a: Bits, b: Bits)
    ensures Remainder(reg, a + b) == Remainder(Remainder(reg, a), b)
    decreases |a|
  {
    if a == [] {
      assert a + b == b;
    } else {
      assert (a + b)[1..] == a[1..] + b;
      RemainderAppend(Divide(reg, a[0]), a[1..], b);
    }
  }

  // ---------- several quotient bits at once ----------

  /** Four quotient bits: none of them feeds back into the next three. */
  function Wide4(reg: Word, d: Bits): Word
    requires |d| == 4
  {
    seq(16, i requires 0 <= i < 16 =>
      (((i < 12 && reg[i + 4]) != (i < 4 && reg[i] != d[i]))
       != (7 <= i < 11 && reg[i - 7] != d[i - 7])) != (12 <= i && reg[i - 12] != d[i - 12]))
  }

  function Wide2(reg: Word, d: Bits): Word
    requires |d| == 2
  {
    seq(16, i requires 0 <= i < 16 =>
      (((i < 14 && reg[i + 2]) != (2 <= i < 4 && reg[i - 2] != d[i - 2]))
       != (9 <= i < 11 && reg[i - 9] != d[i - 9])) != (14 <= i && reg[i - 14] != d[i - 14]))
  }

  lemma TwoDivides(reg: Word, d: Bits)
    requires |d| == 2
    ensures Divide(Divide(reg, d[0]), d[1]) == Wide2(reg, d)
  {
  }

  lemma TwoPairs(reg: Word, d: Bits)
    requires |d| == 4
    ensures Wide2(Wide2(reg, d[..2]), d[2..]) == Wide4(reg, d)
  {
  }

  lemma TwoSteps(reg: Word, d: Bits)
    requires |d| == 2
    ensures Remainder(reg, d) == Wide2(reg, d)
  {
    TwoDivides(reg, d);
    hide Divide, Wide2;
    var r1 := Divide(reg, d[0]);
    assert d[1..][0] == d[1] && d[1..][1..] == [];
    assert Remainder(r1, d[1..]) == Remainder(Divide(r1, d[1]), []);
  }

  lemma FourSteps(reg: Word, d: Bits)
    requires |d| == 4
    ensures Remainder(reg, d) == Wide4(reg, d)
  {
    hide Remainder, Wide2, Wide4;
    assert d == d[..2] + d[2..];
    RemainderAppend(reg, d[..2], d[2..]);
    TwoSteps(reg, d[..2]);
    TwoSteps(Wide2(reg, d[..2]), d[2..]);
    TwoPairs(reg, d);
  }

  /** The `j`-th of eight quotient bits; the first four feed back into the last four. */
  predicate Quotient(reg: Word, d: Byte, j: int)
    requires 0 <= j < 8
  {
    (reg[j] != d[j]) != (j >= 4 && reg[j - 4] != d[j - 4])
  }

  function Wide8(reg: Word, d: Byte): Word {
    seq(16, i requires 0 <= i < 16 =>
      (((i < 8 && reg[i + 8]) != (i < 4 && Quotient(reg, d, i + 4)))
       != (3 <= i < 11 && Quotient(reg, d, i - 3))) != (8 <= i && Quotient(reg, d, i - 8)))
  }

  lemma TwoNibbles(reg: Word, d: Byte)
    ensures Wide4(Wide4(reg, d[..4]), d[4..]) == Wide8(reg, d)
  {
  }

  lemma ByteIsWide(reg: Word, d: Byte)
    ensures Remainder(reg, d) == Wide8(reg, d)
  {
    assert d == d[..4] + d[4..];
    RemainderAppend(reg, d[..4], d[4..]);
    FourSteps(reg, d[..4]);
    FourSteps(Wide4(reg, d[..4]), d[4..]);
    TwoNibbles(reg, d);
  }

  /** The loader's five lines in closed form. */
  lemma RoundIsWide(crc: Word, data: Byte)
    ensures var a := Xor(Or(LowBits(ShiftRight(crc, 8), 8), ShiftLeft(crc, 8)), Extend(data));
            var b := Xor(a, LowBits(LowBits(ShiftRight(a, 4), 8), 4));
            var c := Xor(b, ShiftLeft(b, 12));
            Xor(c, ShiftLeft(LowBits(c, 8), 5)) == Wide8(crc, data)
  {
  }

  // ---------- the remainder is the polynomial remainder ----------

  /** Coefficient `i` of the product of `q` with the generator polynomial, highest power first; `q`
   * has `n` coefficients and the product has `n + 16`. */
  predicate ProductAt(q: Bits, i: int) {
    ((At(q, i) != At(q, i - 4)) != At(q, i - 11)) != At(q, i - 16)
  }

  predicate At(q: Bits, i: int) {
    0 <= i < |q| && q[i]
  }

  /** `message` shifted by x^16, plus `rem`, is `q` times the generator. As `rem` has only 16
   * coefficients it is the remainder of the division, and `q` the quotient. */
  ghost predicate IsDivision(message: Bits, q: Bits, rem: Word) {
    && |q| == |message|
    && forall i | 0 <= i < |message| + 16 :: (message + rem)[i] == ProductAt(q, i)
  }

  lemma DivisionExtends(message: Bits, q: Bits, rem: Word, bit: bool)
    requires IsDivision(message, q, rem)
    ensures IsDivision(message + [bit], q + [rem[0] != bit], Divide(rem, bit))
  {
    var n := |message|;
    var m', q', rem' := message + [bit], q + [rem[0] != bit], Divide(rem, bit);
    forall i | 0 <= i < n + 17 ensures (m' + rem')[i] == ProductAt(q', i) {
      assert i < n + 16 ==> (message + rem)[i] == ProductAt(q, i);
    }
  }

  /** Starting from an empty register, the divider computes the polynomial remainder. */
  lemma {:induction false} DividerDivides(message: Bits) returns (q: Bits)
    ensures IsDivision(message, q, Remainder(ZERO, message))
    decreases |message|
  {
    if message == [] {
      q := [];
    } else {
      var k := |message| - 1;
      var shorter := message[..k];
      var p := DividerDivides(shorter);
      var rem := Remainder(ZERO, shorter);
      DivisionExtends(shorter, p, rem, message[k]);
      q := p + [rem[0] != message[k]];
      assert message == shorter + [message[k]];
      RemainderAppend(ZERO, shorter, [message[k]]);
      assert [message[k]][1..] == [];
      assert Remainder(rem, [message[k]]) == Divide(rem, message[k]);
    }
  }

  /** Division with remainder is unique, so the CRC is determined by the polynomial alone. */
  lemma DivisionUnique(message: Bits, q: Bits, rem: Word, q': Bits, rem': Word)
    requires IsDivision(message, q, rem) && IsDivision(message, q', rem')
    ensures q == q' && rem == rem'
  {
    QuotientUnique(message, q, rem, q', rem', |message|);
    assert q[..|message|] == q && q'[..|message|] == q';
    forall i | 0 <= i < 16 ensures rem[i] == rem'[i] {
      assert (message + rem)[|message| + i] == rem[i] && (message + rem')[|message| + i] == rem'[i];
    }
  }

  lemma {:induction false} QuotientUnique(message: Bits, q: Bits, rem: Word, q': Bits, rem': Word, n: nat)
    requires IsDivision(message, q, rem) && IsDivision(message, q', rem') && n <= |message|
    ensures q[..n] == q'[..n]
  {
    if n > 0 {
      QuotientUnique(message, q, rem, q', rem', n - 1);
      assert forall i | 0 <= i < n - 1 :: q[i] == q[..n - 1][i] == q'[..n - 1][i] == q'[i];
      assert (message + rem)[n - 1] == message[n - 1] == (message + rem')[n - 1];
      assert ProductAt(q, n - 1) == ProductAt(q', n - 1);
    }
  }

  // ---------- what the checksum detects ----------

  /** Sending the register itself after the message leaves an empty register. */
  lemma {:induction false} ShiftOut(reg: Word, k: nat)
    requires k <= 16 && forall i | 16 - k <= i < 16 :: !reg[i]
    ensures Remainder(reg, reg[..16 - k]) == ZERO
    decreases 16 - k
  {
    if k == 16 {
      assert reg == ZERO;
    } else {
      var next := Divide(reg, reg[0]);
      assert reg[..16 - k][1..] == next[..15 - k];
      ShiftOut(next, k + 1);
    }
  }

  /** Appending the CRC, high bit first, makes the remainder zero. */
  lemma AppendedCrcIsZero(message: Bits)
    ensures Remainder(ZERO, message + Remainder(ZERO, message)) == ZERO
  {
    var crc := Remainder(ZERO, message);
    RemainderAppend(ZERO, message, crc);
    ShiftOut(crc, 0);
    assert crc[..16] == crc;
  }

  /** Registers that agree from index `k` on. */
  predicate AgreeFrom(a: Word, b: Word, k: nat) {
    forall i | k <= i < 16 :: a[i] == b[i]
  }

  /** Going back over at most 15 steps, equal registers agree except at the top. */
  lemma {:induction false} AgreeBefore(a: Word, b: Word, u: Bits, v: Bits)
    requires |u| == |v| <= 15 && Remainder(a, u) == Remainder(b, v)
    ensures AgreeFrom(a, b, |u|)
    decreases |u|
  {
    if u != [] {
      AgreeBefore(Divide(a, u[0]), Divide(b, v[0]), u[1..], v[1..]);
      var a', b' := Divide(a, u[0]), Divide(b, v[0]);
      assert a'[15] == b'[15];
      forall i | |u| <= i < 16 ensures a[i] == b[i] {
        assert a'[i - 1] == b'[i - 1];
      }
    }
  }

  /** From the same register, different windows of at most 16 bits lead to different registers. */
  lemma {:induction false} WindowInjective(reg: Word, u: Bits, v: Bits)
    requires |u| == |v| <= 16 && Remainder(reg, u) == Remainder(reg, v)
    ensures u == v
    decreases |u|
  {
    if u != [] {
      var a, b := Divide(reg, u[0]), Divide(reg, v[0]);
      AgreeBefore(a, b, u[1..], v[1..]);
      assert a[15] == b[15];
      assert u[0] == v[0];
      WindowInjective(a, u[1..], v[1..]);
      assert u == [u[0]] + u[1..] && v == [v[0]] + v[1..];
    }
  }

  lemma DivideInjective(a: Word, b: Word, bit: bool)
    requires Divide(a, bit) == Divide(b, bit)
    ensures a == b
  {
    var a', b' := Divide(a, bit), Divide(b, bit);
    assert a'[15] == b'[15];
    forall i | 0 <= i < 16 ensures a[i] == b[i] {
      if i > 0 {
        assert a'[i - 1] == b'[i - 1];
      }
    }
  }

  lemma {:induction false} RemainderInjective(a: Word, b: Word, m: Bits)
    requires Remainder(a, m) == Remainder(b, m)
    ensures a == b
    decreases |m|
  {
    if m != [] {
      RemainderInjective(Divide(a, m[0]), Divide(b, m[0]), m[1..]);
      DivideInjective(a, b, m[0]);
    }
  }

  /** Two messages that differ only inside a window of at most 16 bits have different CRCs. */
  lemma BurstDetected(pre: Bits, u: Bits, v: Bits, post: Bits)
    requires |u| == |v| <= 16 && u != v
    ensures Remainder(ZERO, pre + u + post) != Remainder(ZERO, pre + v + post)
  {
    if Remainder(ZERO, pre + u + post) == Remainder(ZERO, pre + v + post) {
      var reg := Remainder(ZERO, pre);
      RemainderAppend(ZERO, pre + u, post);
      RemainderAppend(ZERO, pre, u);
      RemainderAppend(ZERO, pre + v, post);
      RemainderAppend(ZERO, pre, v);
      RemainderInjective(Remainder(reg, u), Remainder(reg, v), post);
      WindowInjective(reg, u, v);
    }
  }

  predicate Parity(b: Bits)
    decreases |b|
  {
    b != [] && b[0] != Parity(b[1..])
  }

  lemma {:induction false} ParityAppend(a: Bits, b: Bits)
    ensures Parity(a + b) == (Parity(a) != Parity(b))
    decreases |a|
  {
    if a == [] {
      assert a + b == b;
    } else {
      ParityAppend(a[1..], b);
      assert (a + b)[1..] == a[1..] + b;
    }
  }

  lemma {:induction false} ParityXor(a: Bits, b: Bits, c: Bits)
    requires |a| == |b| == |c| && forall i | 0 <= i < |a| :: c[i] == (a[i] != b[i])
    ensures Parity(c) == (Parity(a) != Parity(b))
    decreases |a|
  {
    if a != [] {
      ParityXor(a[1..], b[1..], c[1..]);
    }
  }

  function Zeros(n: nat): Bits {
    seq(n, i => false)
  }

  lemma {:induction false} ParityZeros(n: nat)
    ensures !Parity(Zeros(n))
  {
    if n > 0 {
      assert Zeros(n)[1..] == Zeros(n - 1);
      ParityZeros(n - 1);
    }
  }

  lemma ParityOne(n: nat, q: bool)
    ensures Parity(Zeros(n) + [q]) == q
  {
    ParityAppend(Zeros(n), [q]);
    ParityZeros(n);
    assert [q][1..] == [];
  }

  /** The taps of one division step: an odd number of terms below x^16. */
  lemma TapsParity(q: bool, taps: Bits)
    requires |taps| == 16 && forall i | 0 <= i < 16 :: taps[i] == (q && Tap(i))
    ensures Parity(taps) == q
  {
    var a, b, c := Zeros(3) + [q], Zeros(6) + [q], Zeros(4) + [q];
    assert taps == a + (b + c);
    ParityAppend(a, b + c);
    ParityAppend(b, c);
    ParityOne(3, q);
    ParityOne(6, q);
    ParityOne(4, q);
  }

  lemma DivideParity(reg: Word, bit: bool)
    ensures Parity(Divide(reg, bit)) == (Parity(reg) != bit)
  {
    var q := reg[0] != bit;
    var shifted, taps := reg[1..] + [false], seq(16, i => q && Tap(i));
    TapsParity(q, taps);
    ParityXor(shifted, taps, Divide(reg, bit));
    ParityAppend(reg[1..], [false]);
    assert !Parity([false]);
  }

  lemma {:induction false} RemainderParity(reg: Word, m: Bits)
    ensures Parity(Remainder(reg, m)) == (Parity(reg) != Parity(m))
    decreases |m|
  {
    if m != [] {
      DivideParity(reg, m[0]);
      RemainderParity(Divide(reg, m[0]), m[1..]);
    }
  }

  /** Any odd number of flipped bits, anywhere in message or CRC, is detected. */
  lemma OddErrorsDetected(message: Bits, received: Bits, crc: Word)
    requires Parity(received + crc) != Parity(message + Remainder(ZERO, message))
    ensures Remainder(ZERO, received) != crc
  {
    ParityAppend(received, crc);
    ParityAppend(message, Remainder(ZERO, message));
    RemainderParity(ZERO, message);
    RemainderParity(ZERO, received);
  }
}
