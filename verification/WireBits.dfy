/** The wire word as 64 bits: the shifts, ors and masks of src/sandbox/abi.rs on a signed word are the
    arithmetic that `SandboxAbi` uses. */
module WireBits {
  import opened SandboxAbi

  // Bits of a machine word, least significant first.
  type Word = bits: seq<bool> | |bits| == 64 witness seq(64, _ => false)

  function Bit(b: bool): int { if b then 1 else 0 }

  function Power(n: nat): nat { if n == 0 then 1 else 2 * Power(n - 1) }

  function Unsigned(bits: seq<bool>): nat {
    if bits == [] then 0 else Bit(bits[0]) + 2 * Unsigned(bits[1..])
  }

  /** The `i64` a word stands for, in two's complement. */
  function Signed(w: Word): int {
    if w[63] then Unsigned(w) - WORD * WORD else Unsigned(w)
  }

  function And(v: Word, w: Word): Word { seq(64, i requires 0 <= i < 64 => v[i] && w[i]) }
  function Or(v: Word, w: Word): Word { seq(64, i requires 0 <= i < 64 => v[i] || w[i]) }

  // `<< 32`, and the arithmetic `>> 32` of a signed word.
  function ShiftLeft32(w: Word): Word { seq(32, _ => false) + w[..32] }
  function ShiftRight32(w: Word): Word { w[32..] + seq(32, _ => w[63]) }

  const LOW_HALF: Word := seq(64, i => i < 32)

  // ---------- bits and numbers ----------

  lemma UnsignedStep(bits: seq<bool>)
    requires bits != []
    ensures Unsigned(bits) == Bit(bits[0]) + 2 * Unsigned(bits[1..])
  {
  }

  lemma DoubleProduct(p: int, u: int)
    ensures 2 * (p * u) == (2 * p) * u
  {
  }

  lemma {:induction false} UnsignedConcat(a: seq<bool>, b: seq<bool>)
    ensures Unsigned(a + b) == Unsigned(a) + Power(|a|) * Unsigned(b)
  {
    if a == [] {
      assert a + b == b;
    } else {
      hide Unsigned;
      assert (a + b)[1..] == a[1..] + b;
      UnsignedStep(a);
      UnsignedStep(a + b);
      UnsignedConcat(a[1..], b);
      DoubleProduct(Power(|a| - 1), Unsigned(b));
    }
  }

  lemma {:induction false} UnsignedBounds(bits: seq<bool>)
    ensures Unsigned(bits) < Power(|bits|)
    ensures bits != [] && bits[|bits| - 1] ==> Unsigned(bits) >= Power(|bits| - 1)
    ensures (forall i :: 0 <= i < |bits| ==> !bits[i]) <==> Unsigned(bits) == 0
  {
    if bits != [] {
      var rest := bits[1..];
      UnsignedBounds(rest);
      assert forall i :: 0 <= i < |rest| ==> rest[i] == bits[i + 1];
      assert (forall i :: 0 <= i < |bits| ==> !bits[i]) <==> !bits[0] && forall i :: 0 <= i < |rest| ==> !rest[i];
    }
  }

  lemma {:induction false} PowerAdds(m: nat, n: nat)
    ensures Power(m + n) == Power(m) * Power(n)
  {
    if m > 0 {
      PowerAdds(m - 1, n);
      DoubleProduct(Power(m - 1), Power(n));
    }
  }

  lemma HalfPower()
    ensures Power(32) == WORD && Power(31) == WORD / 2
  {
    assert Power(4) == 16;
    PowerAdds(4, 4);
    PowerAdds(8, 8);
    PowerAdds(16, 16);
    assert Power(32) == 2 * Power(31);
  }

  // A word is its halves.
  lemma HalvesOf(w: Word)
    ensures Unsigned(w) == Unsigned(w[..32]) + WORD * Unsigned(w[32..])
    ensures Unsigned(w[..32]) < WORD && Unsigned(w[32..]) < WORD
    ensures w[63] <==> Unsigned(w[32..]) >= WORD / 2
  {
    hide Unsigned, Power;
    HalfPower();
    assert w == w[..32] + w[32..];
    UnsignedConcat(w[..32], w[32..]);
    UnsignedBounds(w[..32]);
    UnsignedBounds(w[32..]);
    TopBit(w[32..]);
  }

  lemma TopBit(half: seq<bool>)
    requires |half| == 32 && Power(31) == WORD / 2
    ensures half[31] <==> Unsigned(half) >= WORD / 2
  {
    hide Unsigned, Power;
    UnsignedBounds(half);
    UnsignedBounds(half[..31]);
    if !half[31] {
      assert half == half[..31] + [false];
      UnsignedConcat(half[..31], [false]);
      UnsignedBounds([false]);
    }
  }

  lemma LowHalf(w: Word)
    ensures Unsigned(And(w, LOW_HALF)) == Unsigned(w[..32])
  {
    hide Unsigned, Power;
    var zeros := seq(32, _ => false);
    assert And(w, LOW_HALF) == w[..32] + zeros;
    UnsignedConcat(w[..32], zeros);
    UnsignedBounds(zeros);
  }

  // ---------- the wire format ----------

  /** Decoding: for every word, negative ones included, kind and auxiliary value are what shifting and
      masking give. */
  lemma DecodingIsBitwise(w: Word)
    ensures -0x8000_0000_0000_0000 <= Signed(w) < 0x8000_0000_0000_0000
    ensures KindOf(Signed(w)) == Unsigned(And(ShiftRight32(w), LOW_HALF))
    ensures AuxOf(Signed(w)) == Unsigned(And(w, LOW_HALF))
  {
    hide Unsigned, And;
    HalvesOf(w);
    LowHalf(w);
    LowHalf(ShiftRight32(w));
    assert ShiftRight32(w)[..32] == w[32..];
  }

  /** Encoding: the word built by shifting and or-ing stands for the packed value. */
  lemma EncodingIsBitwise(kind: Word, aux: Word)
    requires Unsigned(kind) <= 6 && Unsigned(aux) < WORD
    ensures Signed(Or(ShiftLeft32(kind), aux)) == Pack(Unsigned(kind), Unsigned(aux))
  {
    hide Unsigned;
    var w := Or(ShiftLeft32(kind), aux);
    HalvesOf(kind);
    HalvesOf(aux);
    UnsignedBounds(aux[32..]);
    assert forall i :: 0 <= i < 32 ==> !aux[32..][i];
    assert w == aux[..32] + kind[..32] by {
      assert forall i :: 32 <= i < 64 ==> aux[i] == aux[32..][i - 32];
    }
    HalvesOf(w);
    assert w[..32] == aux[..32] && w[32..] == kind[..32];
  }
}
