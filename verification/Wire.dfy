/**
 The bytes both sides exchange: little-endian words, single-precision values and packed flags.
 */
module Wire {
  type byte = x: int | 0 <= x < 256
  type uint16 = x: int | 0 <= x < 65536
  type uint32 = x: int | 0 <= x < 0x1_0000_0000

  datatype Option<+T> = None | Some(value: T)

  // ----- double and single precision -----

  /** The values a double can take; finite ones are kept exact. */
  datatype Double = NaN(payload: nat) | Inf(negative: bool) | NegZero | Finite(value: real)

  const ZERO := Finite(0.0)

  type Vec6 = s: seq<Double> | |s| == 6 witness [ZERO, ZERO, ZERO, ZERO, ZERO, ZERO]
  type Vec4 = s: seq<Double> | |s| == 4 witness [ZERO, ZERO, ZERO, ZERO]
  type Bits16 = s: seq<bool> | |s| == 16 witness [false, false, false, false, false, false, false, false,
                                                       false, false, false, false, false, false, false, false]

  const ZERO6: Vec6 := [ZERO, ZERO, ZERO, ZERO, ZERO, ZERO]
  const ZERO4: Vec4 := [ZERO, ZERO, ZERO, ZERO]
  const ALL_OFF: Bits16 := [false, false, false, false, false, false, false, false,
                             false, false, false, false, false, false, false, false]

  /** The two casts between double and float32; a float32 is known by its 32 bits. */
  datatype Fp = Fp(narrow: Double -> uint32, widen: uint32 -> Double)

  /** Widening a float32 and narrowing it again gives the same 32 bits. */
  ghost predicate Lawful(fp: Fp) {
    forall w: uint32 :: fp.narrow(fp.widen(w)) == w
  }

  /** There are such casts. */
  lemma LawfulCastsExist() returns (fp: Fp)
    ensures Lawful(fp)
  {
    fp := Fp((d: Double) => if d.Finite? && 0.0 <= d.value < 4294967296.0 then d.value.Floor else 0,
             (w: uint32) => Finite(w as real));
  }

  function Narrowed(fp: Fp, xs: seq<Double>): (ys: seq<Double>)
    ensures |ys| == |xs|
    ensures forall i :: 0 <= i < |xs| ==> ys[i] == fp.widen(fp.narrow(xs[i]))
  {
    seq(|xs|, i requires 0 <= i < |xs| => fp.widen(fp.narrow(xs[i])))
  }

  // ----- words -----

  function LE16(v: uint16): (s: seq<byte>)
    ensures |s| == 2
  {
    [v % 256, v / 256]
  }

  function LE32(v: uint32): (s: seq<byte>)
    ensures |s| == 4
  {
    [v % 256, v / 256 % 256, v / 65536 % 256, v / 16777216]
  }

  function U16At(s: seq<byte>, offset: nat): uint16
    requires offset + 2 <= |s|
  {
    s[offset] as int + 256 * s[offset + 1] as int
  }

  function U32At(s: seq<byte>, offset: nat): uint32
    requires offset + 4 <= |s|
  {
    s[offset] as int + 256 * s[offset + 1] as int + 65536 * s[offset + 2] as int + 16777216 * s[offset + 3] as int
  }

  lemma U16RoundTrip(v: uint16, s: seq<byte>, offset: nat)
    requires offset + 2 <= |s| && s[offset..offset + 2] == LE16(v)
    ensures U16At(s, offset) == v
  {
    assert s[offset] == s[offset..offset + 2][0];
    assert s[offset + 1] == s[offset..offset + 2][1];
  }

  lemma Base256(v: uint32)
    ensures v == v % 256 + 256 * (v / 256 % 256) + 65536 * (v / 65536 % 256) + 16777216 * (v / 16777216)
  {
    assert v / 65536 == v / 256 / 256 && v / 16777216 == v / 65536 / 256;
  }

  lemma U32RoundTrip(v: uint32, s: seq<byte>, offset: nat)
    requires offset + 4 <= |s| && s[offset..offset + 4] == LE32(v)
    ensures U32At(s, offset) == v
  {
    var t := s[offset..offset + 4];
    assert s[offset] == t[0] && s[offset + 1] == t[1] && s[offset + 2] == t[2] && s[offset + 3] == t[3];
    Base256(v);
  }

  // ----- arrays of single-precision values -----

  function EncodeFloats(fp: Fp, xs: seq<Double>): (s: seq<byte>)
    ensures |s| == 4 * |xs|
  {
    if xs == [] then [] else EncodeFloats(fp, xs[..|xs| - 1]) + LE32(fp.narrow(xs[|xs| - 1]))
  }

  function FloatAt(fp: Fp, s: seq<byte>, offset: nat): Double
    requires offset + 4 <= |s|
  {
    fp.widen(U32At(s, offset))
  }

  function FloatsAt(fp: Fp, s: seq<byte>, offset: nat, n: nat): (xs: seq<Double>)
    requires offset + 4 * n <= |s|
    ensures |xs| == n
  {
    seq(n, i requires 0 <= i < n => FloatAt(fp, s, offset + 4 * i))
  }

  lemma FloatsSnoc(fp: Fp, s: seq<byte>, offset: nat, n: nat)
    requires offset + 4 * (n + 1) <= |s|
    ensures FloatsAt(fp, s, offset, n + 1) == FloatsAt(fp, s, offset, n) + [FloatAt(fp, s, offset + 4 * n)]
  {
  }

  lemma NarrowedSnoc(fp: Fp, xs: seq<Double>)
    requires xs != []
    ensures Narrowed(fp, xs) == Narrowed(fp, xs[..|xs| - 1]) + [fp.widen(fp.narrow(xs[|xs| - 1]))]
  {
  }

  /** A block that is a prefix followed by one word, found inside s. */
  lemma BlockSnoc(s: seq<byte>, offset: nat, front: seq<byte>, last: seq<byte>)
    requires offset + |front| + |last| <= |s| && s[offset..offset + |front| + |last|] == front + last
    ensures s[offset..offset + |front|] == front
    ensures s[offset + |front|..offset + |front| + |last|] == last
  {
    var block := s[offset..offset + |front| + |last|];
    assert s[offset..offset + |front|] == block[..|front|];
    assert s[offset + |front|..offset + |front| + |last|] == block[|front|..];
  }

  lemma {:induction false} FloatsRoundTrip(fp: Fp, xs: seq<Double>, s: seq<byte>, offset: nat)
    requires offset + 4 * |xs| <= |s| && s[offset..offset + 4 * |xs|] == EncodeFloats(fp, xs)
    ensures FloatsAt(fp, s, offset, |xs|) == Narrowed(fp, xs)
  {
    if xs != [] {
      var n := |xs| - 1;
      var word := LE32(fp.narrow(xs[n]));
      BlockSnoc(s, offset, EncodeFloats(fp, xs[..n]), word);
      FloatsRoundTrip(fp, xs[..n], s, offset);
      U32RoundTrip(fp.narrow(xs[n]), s, offset + 4 * n);
      FloatsSnoc(fp, s, offset, n);
      NarrowedSnoc(fp, xs);
    }
  }

  lemma {:induction false} EncodeNarrowed(fp: Fp, xs: seq<Double>)
    requires Lawful(fp)
    ensures EncodeFloats(fp, Narrowed(fp, xs)) == EncodeFloats(fp, xs)
  {
    if xs != [] {
      var n := |xs| - 1;
      EncodeNarrowed(fp, xs[..n]);
      assert Narrowed(fp, xs)[..n] == Narrowed(fp, xs[..n]);
    }
  }

  // ----- packed flags -----

  /** The number whose bit i is set exactly when bits[i] is true. */
  function Pack(bits: seq<bool>): nat {
    if bits == [] then 0 else (if bits[0] then 1 else 0) + 2 * Pack(bits[1..])
  }

  /** `(v & (1 << i)) != 0` */
  predicate Bit(v: nat, i: nat) {
    if i == 0 then v % 2 == 1 else Bit(v / 2, i - 1)
  }

  /** `v | (1 << i)` */
  function SetBit(v: nat, i: nat): nat {
    if i == 0 then (if v % 2 == 1 then v else v + 1) else v % 2 + 2 * SetBit(v / 2, i - 1)
  }

  function Pow2(n: nat): (p: nat)
    ensures p > 0
  {
    if n == 0 then 1 else 2 * Pow2(n - 1)
  }

  lemma {:induction false} PackBound(bits: seq<bool>)
    ensures Pack(bits) < Pow2(|bits|)
  {
    if bits != [] {
      PackBound(bits[1..]);
    }
  }

  lemma PackBound16(bits: seq<bool>)
    requires |bits| <= 16
    ensures Pack(bits) < 65536
  {
    PackBound(bits);
    Pow2Monotone(|bits|, 16);
    assert Pow2(4) == 16 by { assert Pow2(2) == 4; }
    assert Pow2(8) == 256 by { assert Pow2(6) == 64; }
    assert Pow2(12) == 4096 by { assert Pow2(10) == 1024; }
    assert Pow2(16) == 65536 by { assert Pow2(14) == 16384; }
  }

  lemma {:induction false} Pow2Monotone(m: nat, n: nat)
    requires m <= n
    ensures Pow2(m) <= Pow2(n)
    decreases n
  {
    if m < n {
      Pow2Monotone(m, n - 1);
    }
  }

  lemma {:induction false} BitOfPack(bits: seq<bool>, i: nat)
    requires i < |bits|
    ensures Bit(Pack(bits), i) == bits[i]
  {
    if i > 0 {
      BitOfPack(bits[1..], i - 1);
    }
  }

  /** Setting the next free bit, or leaving it clear, extends the packed sequence. */
  lemma {:induction false} PackSnoc(bits: seq<bool>, b: bool)
    ensures Pack(bits + [b]) == if b then SetBit(Pack(bits), |bits|) else Pack(bits)
  {
    if bits == [] {
      assert [b][1..] == [];
    } else {
      assert (bits + [b])[1..] == bits[1..] + [b];
      PackSnoc(bits[1..], b);
    }
  }

  function PackWord(bits: seq<bool>): uint16
    requires |bits| <= 16
  {
    PackBound16(bits);
    Pack(bits)
  }

  function Unpack16(v: nat): (bits: Bits16)
    ensures forall i :: 0 <= i < 16 ==> bits[i] == Bit(v, i)
  {
    seq(16, i requires 0 <= i < 16 => Bit(v, i))
  }

  lemma UnpackPack(bits: Bits16)
    ensures Unpack16(Pack(bits)) == bits
  {
    forall i | 0 <= i < 16
      ensures Unpack16(Pack(bits))[i] == bits[i]
    {
      BitOfPack(bits, i);
    }
  }

  // ----- layout -----

  /** If `prefix + block` opens s, then `prefix` opens s and `block` is the slice that follows it. */
  lemma Peel(prefix: seq<byte>, block: seq<byte>, s: seq<byte>)
    requires |prefix + block| <= |s| && s[..|prefix + block|] == prefix + block
    ensures |prefix| <= |s| && s[..|prefix|] == prefix
    ensures s[|prefix|..|prefix| + |block|] == block
  {
    var whole := s[..|prefix + block|];
    assert s[..|prefix|] == whole[..|prefix|];
    assert s[|prefix|..|prefix| + |block|] == whole[|prefix|..];
  }
}
