/** The software CRC-32 of the x86 build: an MSB-first shift/XOR CRC with
    the IEEE 802.3 generator polynomial that consumes whole 32-bit words,
    starts from all ones and inverts the result. It is not reflected, so its
    output is not the Ethernet frame check sequence. */
module Crc32 {
  import opened Common

  const Polynomial: bv32 := 0x04C1_1DB7
  const InitValue: bv32 := 0xFFFF_FFFF
  const TopBit: bv32 := 0x8000_0000

  /** One step of the division: shift left, and subtract (XOR) the
      polynomial when the bit shifted out was set. The polynomial is odd and
      the shift clears the low bit, so the result's low bit records whether
      the top bit was set. */
  function Step(c: bv32): (r: bv32)
    ensures r & 1 != 0 <==> c & TopBit != 0
  {
    if c & TopBit != 0 then (c << 1) ^ Polynomial else c << 1
  }

  /** `n` steps in a row. */
  function Steps(c: bv32, n: nat): bv32
  {
    if n == 0 then c else Step(Steps(c, n - 1))
  }

  /** crc32_calculate_byte: XOR the word into the CRC, then 32 steps. */
  function UpdateWord(crc: bv32, data: bv32): bv32
  {
    Steps(crc ^ data, 32)
  }

  /** The firmware's per-word loop, one `Step` per iteration. It agrees with
      the reference update, and a word equal to the register clears it. */
  method CalculateWord(crc: bv32, data: bv32) returns (r: bv32)
    ensures r == UpdateWord(crc, data)
    ensures crc == data ==> r == 0
  {
    r := crc ^ data;
    for i := 0 to 32
      invariant r == Steps(crc ^ data, i)
    {
      r := Step(r);  // the loop body's if/else on the top bit
    }
    if crc == data {
      UpdateSelfIsZero(crc);
    }
  }

  /** The CRC register after the words of `buffer`, starting from `c`. */
  function Fold(c: bv32, buffer: seq<bv32>): bv32
  {
    if buffer == [] then c else UpdateWord(Fold(c, buffer[..|buffer| - 1]), buffer[|buffer| - 1])
  }

  /** The value crc_calculate returns for `buffer`. */
  function Crc(buffer: seq<bv32>): bv32
  {
    !Fold(InitValue, buffer)
  }

  /** crc_calculate: fold the words from ~0, then invert. */
  method CrcCalculate(buffer: seq<bv32>) returns (r: bv32)
    ensures r == !Fold(InitValue, buffer)
    ensures buffer == [] ==> r == 0
  {
    var crc: bv32 := !0;
    for i := 0 to |buffer|
      invariant crc == Fold(InitValue, buffer[..i])
    {
      assert buffer[..i + 1][..i] == buffer[..i];
      crc := CalculateWord(crc, buffer[i]);
    }
    assert buffer[..|buffer|] == buffer;
    r := !crc;
  }

  /** crc_init: nothing to set up on x86. */
  function CrcInit(): (s: StatusCode)
    ensures s.Ok?
  {
    Ok
  }

  // ---------------------------------------------------------------------
  // Bit-vector facts, each small enough for the solver's bit-level reasoning

  lemma XorSelf(a: bv32)
    ensures a ^ a == 0
  {
  }

  lemma NotInvolutive(a: bv32)
    ensures !!a == a
  {
  }

  lemma XorInjective(c1: bv32, d1: bv32, c2: bv32, d2: bv32)
    requires c1 ^ d1 == c2 ^ d2
    ensures c1 == c2 ==> d1 == d2
    ensures d1 == d2 ==> c1 == c2
  {
  }

  lemma ShiftBackTop(c: bv32)
    requires c & TopBit != 0
    ensures ((c << 1) >> 1) | TopBit == c
  {
  }

  lemma ShiftBack(c: bv32)
    requires c & TopBit == 0
    ensures (c << 1) >> 1 == c
  {
  }

  lemma XorPolynomialLow(c: bv32)
    ensures ((c << 1) ^ Polynomial) & 1 != 0
    ensures ((c << 1) ^ Polynomial) ^ Polynomial == c << 1
  {
  }

  lemma ShiftLow(c: bv32)
    ensures (c << 1) & 1 == 0
  {
  }

  // ---------------------------------------------------------------------
  // Properties of the word update

  /** The all-zero register stays zero. */
  lemma {:induction false} StepsZero(n: nat)
    ensures Steps(0, n) == 0
  {
    if n > 0 {
      StepsZero(n - 1);
    }
  }

  /** Updating a CRC with a word equal to it yields 0. */
  lemma UpdateSelfIsZero(c: bv32)
    ensures UpdateWord(c, c) == 0
  {
    XorSelf(c);
    StepsZero(32);
  }

  /** The inverse of a step: the polynomial's low bit is set, so the low bit
      of a step's result tells whether the polynomial was XOR-ed in. */
  function Unstep(c: bv32): bv32
  {
    if c & 1 != 0 then ((c ^ Polynomial) >> 1) | TopBit else c >> 1
  }

  lemma StepUndone(c: bv32)
    ensures Step(Unstep(c)) == c
  {
  }

  lemma StepInverse(c: bv32)
    ensures Unstep(Step(c)) == c
  {
    if c & TopBit != 0 {
      XorPolynomialLow(c);
      ShiftBackTop(c);
    } else {
      ShiftLow(c);
      ShiftBack(c);
    }
  }

  lemma {:induction false} StepsInjective(a: bv32, b: bv32, n: nat)
    requires Steps(a, n) == Steps(b, n)
    ensures a == b
  {
    if n > 0 {
      StepInverse(Steps(a, n - 1));
      StepInverse(Steps(b, n - 1));
      StepsInjective(a, b, n - 1);
    }
  }

  /** For a fixed register, different words give different updates; for a
      fixed word, different registers give different updates. */
  lemma UpdateInjective(c1: bv32, d1: bv32, c2: bv32, d2: bv32)
    requires UpdateWord(c1, d1) == UpdateWord(c2, d2)
    ensures c1 == c2 ==> d1 == d2
    ensures d1 == d2 ==> c1 == c2
  {
    StepsInjective(c1 ^ d1, c2 ^ d2, 32);
    XorInjective(c1, d1, c2, d2);
  }

  // ---------------------------------------------------------------------
  // Properties of the fold over a buffer

  /** Folding a concatenation continues from the prefix's register. */
  lemma {:induction false} FoldAppend(c: bv32, a: seq<bv32>, b: seq<bv32>)
    ensures Fold(c, a + b) == Fold(Fold(c, a), b)
    decreases |b|
  {
    if b == [] {
      assert a + b == a;
    } else {
      var b' := b[..|b| - 1];
      assert (a + b)[..|a + b| - 1] == a + b';
      FoldAppend(c, a, b');
    }
  }

  /** The fold over a buffer is injective in its starting register. */
  lemma {:induction false} FoldInjective(c1: bv32, c2: bv32, s: seq<bv32>)
    requires Fold(c1, s) == Fold(c2, s)
    ensures c1 == c2
    decreases |s|
  {
    if s != [] {
      var s' := s[..|s| - 1];
      UpdateInjective(Fold(c1, s'), s[|s| - 1], Fold(c2, s'), s[|s| - 1]);
      FoldInjective(c1, c2, s');
    }
  }

  /** Continuing the CRC of a prefix: the CRC of `a + b` is the inverted fold
      of `b` started from the prefix's register before inversion, and that
      register is the prefix's CRC inverted back. */
  lemma CrcConcat(a: seq<bv32>, b: seq<bv32>)
    ensures Crc(a + b) == !Fold(Fold(InitValue, a), b)
    ensures Fold(InitValue, a) == !Crc(a)
  {
    FoldAppend(InitValue, a, b);
    CrcIsInverted(a + b);
    CrcIsInverted(a);
  }

  /** The register before the final inversion is the CRC inverted back. */
  lemma CrcIsInverted(s: seq<bv32>)
    ensures Crc(s) == !Fold(InitValue, s)
    ensures Fold(InitValue, s) == !Crc(s)
  {
    NotInvolutive(Fold(InitValue, s));
  }

  /** Any two buffers of the same length that differ in exactly one word have
      different CRCs. */
  lemma SingleWordErrorDetected(a: seq<bv32>, b: seq<bv32>, k: nat)
    requires |a| == |b| && k < |a|
    requires a[k] != b[k]
    requires a[..k] == b[..k] && a[k + 1..] == b[k + 1..]
    ensures Crc(a) != Crc(b)
  {
    var p, q := a[..k], a[k + 1..];
    assert a == p + [a[k]] + q;
    assert b == p + [b[k]] + q;
    FoldAppend(InitValue, p + [a[k]], q);
    FoldAppend(InitValue, p + [b[k]], q);
    var start := Fold(InitValue, p);
    assert (p + [a[k]])[..|p|] == p && (p + [b[k]])[..|p|] == p;
    if Crc(a) == Crc(b) {
      CrcIsInverted(a);
      CrcIsInverted(b);
      FoldInjective(UpdateWord(start, a[k]), UpdateWord(start, b[k]), q);
      UpdateInjective(start, a[k], start, b[k]);
    }
  }
}
