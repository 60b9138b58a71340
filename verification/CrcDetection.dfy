/**
  What the checksum detects: it is affine, it separates any two messages of one length whose
  differences fit in 16 consecutive bits, and it keeps bit parity.
*/
module CrcDetection {
  import opened Bytes
  import opened Crc16

  // ---------- The checksum is affine ----------

  lemma BitStepXor(r: Register, t: Register, a: bool, b: bool)
    ensures Xor(BitStep(r, a), BitStep(t, b)) == BitStep(Xor(r, t), a != b)
  {
  }

  lemma {:induction false} DivideXor(r: Register, t: Register, a: seq<bool>, b: seq<bool>)
    requires |a| == |b|
    ensures Xor(Divide(r, a), Divide(t, b)) == Divide(Xor(r, t), Xor(a, b))
    decreases |a|
  {
    hide BitStep;
    if a != [] {
      BitStepXor(r, t, a[0], b[0]);
      DivideXor(BitStep(r, a[0]), BitStep(t, b[0]), a[1..], b[1..]);
      assert Xor(a, b)[1..] == Xor(a[1..], b[1..]);
    }
  }

  /** The xor of two checksums is the zero-preset checksum of the xor of the messages. */
  lemma CrcIsAffine(a: seq<byte>, b: seq<byte>)
    requires |a| == |b|
    ensures Xor(Crc(a), Crc(b)) == Divide(seq(16, _ => false), Xor(Bits(a), Bits(b)))
  {
    hide BitStep, Divide, Bits;
    DivideXor(Preset(), Preset(), Bits(a), Bits(b));
    assert Xor(Preset(), Preset()) == seq(16, _ => false);
  }

  // ---------- Bursts of up to 16 bits are always detected ----------

  /** All bits before `from`, and all at or beyond `from + 16`, agree. */
  ghost predicate AgreeOutsideWindow(a: seq<bool>, b: seq<bool>, from: nat) {
    |a| == |b| && forall i :: 0 <= i < |a| && !(from <= i < from + 16) ==> a[i] == b[i]
  }

  /** If one step leaves registers that agree from bit k on, they agreed from bit k + 1 on. */
  lemma StepBack(s: Register, t: Register, a: bool, b: bool, k: nat)
    requires k < 16 && BitStep(s, a)[k..] == BitStep(t, b)[k..]
    ensures s[k + 1..] == t[k + 1..]
  {
    var s1, t1 := BitStep(s, a), BitStep(t, b);
    forall i | k <= i < 16 ensures s1[i] == t1[i] {
      assert s1[i] == s1[k..][i - k] && t1[i] == t1[k..][i - k];
    }
    assert s1[15] == t1[15];
    forall i | k < i < 16 ensures s[i] == t[i] {
      assert s1[i - 1] == t1[i - 1];
    }
  }

  /** Registers that k <= 16 further bits bring together agree from bit k on. */
  lemma {:induction false} MergingStates(s: Register, t: Register, a: seq<bool>, b: seq<bool>)
    requires |a| == |b| <= 16
    requires Divide(s, a) == Divide(t, b)
    ensures s[|a|..] == t[|a|..]
    decreases |a|
  {
    hide BitStep;
    if a != [] {
      MergingStates(BitStep(s, a[0]), BitStep(t, b[0]), a[1..], b[1..]);
      StepBack(s, t, a[0], b[0], |a| - 1);
    }
  }

  lemma BitStepInjective(s: Register, t: Register, b: bool)
    requires BitStep(s, b) == BitStep(t, b)
    ensures s == t
  {
    var s1, t1 := BitStep(s, b), BitStep(t, b);
    assert s1[15] == t1[15];
    forall i | 0 <= i < 16 ensures s[i] == t[i] {
      if i > 0 { assert s1[i - 1] == t1[i - 1]; }
    }
  }

  /** Equal further bits never bring two different registers together. */
  lemma {:induction false} DivideInjective(s: Register, t: Register, bits: seq<bool>)
    requires Divide(s, bits) == Divide(t, bits)
    ensures s == t
    decreases |bits|
  {
    hide BitStep;
    if bits != [] {
      DivideInjective(BitStep(s, bits[0]), BitStep(t, bits[0]), bits[1..]);
      BitStepInjective(s, t, bits[0]);
    }
  }

  /** Bit strings that differ at bit 0 and agree from bit 16 on leave different registers. */
  lemma BurstAtFront(r: Register, a: seq<bool>, b: seq<bool>)
    requires AgreeOutsideWindow(a, b, 0) && a != [] && a[0] != b[0]
    ensures Divide(r, a) != Divide(r, b)
  {
    var s1, t1 := BitStep(r, a[0]), BitStep(r, b[0]);
    assert s1[15] != t1[15];
    hide BitStep;
    var k := if |a| < 16 then |a| else 16;
    if Divide(r, a) == Divide(r, b) {
      assert a[1..] == a[1..k] + a[k..] && b[1..] == b[1..k] + a[k..];
      DivideAppend(s1, a[1..k], a[k..]);
      DivideAppend(t1, b[1..k], a[k..]);
      DivideInjective(Divide(s1, a[1..k]), Divide(t1, b[1..k]), a[k..]);
      MergingStates(s1, t1, a[1..k], b[1..k]);
    }
  }

  /** Two different bit strings of one length whose differences fit in 16 consecutive bits. */
  lemma {:induction false} BurstChangesRegister(r: Register, a: seq<bool>, b: seq<bool>, from: nat)
    requires AgreeOutsideWindow(a, b, from) && a != b
    ensures Divide(r, a) != Divide(r, b)
    decreases |a|
  {
    hide BitStep;
    assert a != [];
    if a[0] != b[0] {
      BurstAtFront(r, a, b);
    } else {
      var rest := if from == 0 then 0 else from - 1;
      forall i | 0 <= i < |a[1..]| && !(rest <= i < rest + 16) ensures a[1..][i] == b[1..][i] {
        assert a[1..][i] == a[i + 1] && b[1..][i] == b[i + 1];
      }
      assert a == [a[0]] + a[1..] && b == [b[0]] + b[1..];
      BurstChangesRegister(BitStep(r, a[0]), a[1..], b[1..], rest);
    }
  }

  // ---------- The checksum keeps the bit parity of the message ----------

  /** Whether an odd number of the bits is set. */
  function OddOnes(bits: seq<bool>): (odd: bool) {
    bits != [] && bits[0] != OddOnes(bits[1..])
  }

  /** How many positions hold different bits. */
  function Differences(a: seq<bool>, b: seq<bool>): (count: nat)
    requires |a| == |b|
  {
    if a == [] then 0 else (if a[0] != b[0] then 1 else 0) + Differences(a[1..], b[1..])
  }

  lemma {:induction false} OddOnesAppend(a: seq<bool>, b: seq<bool>)
    ensures OddOnes(a + b) == (OddOnes(a) != OddOnes(b))
  {
    if a == [] {
      assert a + b == b;
    } else {
      assert (a + b)[1..] == a[1..] + b;
      OddOnesAppend(a[1..], b);
    }
  }

  lemma {:induction false} OddOnesXor(a: seq<bool>, b: seq<bool>)
    requires |a| == |b|
    ensures OddOnes(Xor(a, b)) == (OddOnes(a) != OddOnes(b))
  {
    if a != [] {
      OddOnesXor(a[1..], b[1..]);
      assert Xor(a, b)[1..] == Xor(a[1..], b[1..]);
    }
  }

  lemma {:induction false} OddDifferences(a: seq<bool>, b: seq<bool>)
    requires |a| == |b|
    ensures OddOnes(a) != OddOnes(b) <==> Differences(a, b) % 2 == 1
  {
    if a != [] {
      OddDifferences(a[1..], b[1..]);
    }
  }

  function Taps(): (taps: Register) {
    seq(16, i requires 0 <= i < 16 => Tap(i))
  }

  /** The generator's lower terms are three: an odd number. */
  lemma {:induction false} OddTaps(i: nat)
    requires i <= 16
    ensures OddOnes(Taps()[i..]) == (i <= 3 || 10 < i <= 15)
    decreases 16 - i
  {
    if i < 16 {
      assert Taps()[i..][1..] == Taps()[i + 1..];
      OddTaps(i + 1);
    }
  }

  lemma {:induction false} OddPreset(i: nat)
    requires i <= 16
    ensures OddOnes(Preset()[i..]) == (i % 2 == 1)
    decreases 16 - i
  {
    if i < 16 {
      assert Preset()[i..][1..] == Preset()[i + 1..];
      OddPreset(i + 1);
    }
  }

  lemma ParityStep(r: Register, b: bool)
    ensures OddOnes(BitStep(r, b)) == (OddOnes(r) != b)
  {
    var shifted := r[1..] + [false];
    OddOnesAppend(r[1..], [false]);
    if r[0] != b {
      assert BitStep(r, b) == Xor(shifted, Taps());
      OddOnesXor(shifted, Taps());
      OddTaps(0);
      assert Taps()[0..] == Taps();
    } else {
      assert BitStep(r, b) == shifted;
    }
  }

  lemma {:induction false} DivideParity(r: Register, bits: seq<bool>)
    ensures OddOnes(Divide(r, bits)) == (OddOnes(r) != OddOnes(bits))
    decreases |bits|
  {
    hide BitStep;
    if bits != [] {
      ParityStep(r, bits[0]);
      DivideParity(BitStep(r, bits[0]), bits[1..]);
    }
  }

  /** The generator is divisible by x + 1 and the preset is even, so parity is kept. */
  lemma CrcParity(data: seq<byte>)
    ensures OddOnes(Crc(data)) == OddOnes(Bits(data))
  {
    hide Divide, Bits;
    DivideParity(Preset(), Bits(data));
    OddPreset(0);
    assert Preset()[0..] == Preset();
  }

  // ---------- Detectable changes ----------

  /** A change confined to 16 consecutive bits at any bit offset, or of an odd number of bits. */
  ghost predicate Detectable(a: seq<byte>, b: seq<byte>) {
    && |a| == |b| && a != b
    && ((exists from: nat :: AgreeOutsideWindow(Bits(a), Bits(b), from)) || Differences(Bits(a), Bits(b)) % 2 == 1)
  }

  lemma DetectableChangesCrc(a: seq<byte>, b: seq<byte>)
    requires Detectable(a, b)
    ensures Crc(a) != Crc(b)
  {
    hide Divide, Bits, OddOnes;
    if from: nat :| AgreeOutsideWindow(Bits(a), Bits(b), from) {
      if Bits(a) == Bits(b) { BitsInjective(a, b); }
      BurstChangesRegister(Preset(), Bits(a), Bits(b), from);
    } else {
      OddDifferences(Bits(a), Bits(b));
      CrcParity(a);
      CrcParity(b);
    }
  }
}
