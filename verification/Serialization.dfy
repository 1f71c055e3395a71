/**
 The primitive and array (de)serializers: each writes or reads at an offset of a byte buffer and
 returns the number of bytes it used.
 */
module Serialization {
  import opened Wire

  /** `block` was written at `offset`: what precedes and what follows it is as before. */
  twostate predicate Wrote(buffer: array<byte>, offset: nat, block: seq<byte>)
    requires offset + |block| <= buffer.Length
    reads buffer
  {
    && buffer[..offset + |block|] == old(buffer[..offset]) + block
    && forall i :: offset + |block| <= i < buffer.Length ==> buffer[i] == old(buffer[i])
  }

  /** The buffer now opens with `frame`; what follows it is as before. */
  twostate predicate Filled(buffer: array<byte>, frame: seq<byte>)
    requires |frame| <= buffer.Length
    reads buffer
  {
    && buffer[..|frame|] == frame
    && forall i :: |frame| <= i < buffer.Length ==> buffer[i] == old(buffer[i])
  }

  method PutU8(value: byte, buffer: array<byte>, offset: nat) returns (n: nat)
    requires offset + 1 <= buffer.Length
    modifies buffer
    ensures n == 1 && Wrote(buffer, offset, [value])
  {
    buffer[offset] := value;
    return 1;
  }

  method PutU16(value: uint16, buffer: array<byte>, offset: nat) returns (n: nat)
    requires offset + 2 <= buffer.Length
    modifies buffer
    ensures n == 2 && Wrote(buffer, offset, LE16(value))
  {
    buffer[offset] := value % 256;
    buffer[offset + 1] := value / 256;
    return 2;
  }

  method PutU32(value: uint32, buffer: array<byte>, offset: nat) returns (n: nat)
    requires offset + 4 <= buffer.Length
    modifies buffer
    ensures n == 4 && Wrote(buffer, offset, LE32(value))
  {
    buffer[offset] := value % 256;
    buffer[offset + 1] := value / 256 % 256;
    buffer[offset + 2] := value / 65536 % 256;
    buffer[offset + 3] := value / 16777216;
    return 4;
  }

  /** A double travels as a float32. */
  method PutDouble(fp: Fp, value: Double, buffer: array<byte>, offset: nat) returns (n: nat)
    requires offset + 4 <= buffer.Length
    modifies buffer
    ensures n == 4 && Wrote(buffer, offset, LE32(fp.narrow(value)))
  {
    n := PutU32(fp.narrow(value), buffer, offset);
  }

  method PutArray(fp: Fp, items: seq<Double>, buffer: array<byte>, offset: nat) returns (n: nat)
    requires offset + 4 * |items| <= buffer.Length
    modifies buffer
    ensures n == 4 * |items| && Wrote(buffer, offset, EncodeFloats(fp, items))
  {
    n := 0;
    for i := 0 to |items|
      invariant n == 4 * i
      invariant buffer[..offset + n] == old(buffer[..offset]) + EncodeFloats(fp, items[..i])
      invariant forall k :: offset + n <= k < buffer.Length ==> buffer[k] == old(buffer[k])
    {
      assert items[..i + 1][..i] == items[..i];
      var used := PutDouble(fp, items[i], buffer, offset + n);
      n := n + used;
    }
    assert items[..|items|] == items;
  }

  /** `window` is what the caller may look at: the bytes that were received. */
  ghost predicate Shows(buffer: array<byte>, window: seq<byte>)
    reads buffer
  {
    |window| <= buffer.Length && buffer[..|window|] == window
  }

  method GetU8(buffer: array<byte>, offset: nat, ghost window: seq<byte>) returns (value: byte, n: nat)
    requires Shows(buffer, window) && offset + 1 <= |window|
    ensures n == 1 && value == window[offset]
  {
    assert buffer[offset] == buffer[..|window|][offset];
    return buffer[offset], 1;
  }

  method GetU16(buffer: array<byte>, offset: nat, ghost window: seq<byte>) returns (value: uint16, n: nat)
    requires Shows(buffer, window) && offset + 2 <= |window|
    ensures n == 2 && value == U16At(window, offset)
  {
    assert buffer[offset] == buffer[..|window|][offset] && buffer[offset + 1] == buffer[..|window|][offset + 1];
    return buffer[offset] as int + 256 * buffer[offset + 1] as int, 2;
  }

  method GetU32(buffer: array<byte>, offset: nat, ghost window: seq<byte>) returns (value: uint32, n: nat)
    requires Shows(buffer, window) && offset + 4 <= |window|
    ensures n == 4 && value == U32At(window, offset)
  {
    var b0, n0 := GetU8(buffer, offset, window);
    var b1, n1 := GetU8(buffer, offset + 1, window);
    var b2, n2 := GetU8(buffer, offset + 2, window);
    var b3, n3 := GetU8(buffer, offset + 3, window);
    return b0 as int + 256 * b1 as int + 65536 * b2 as int + 16777216 * b3 as int, 4;
  }

  method GetDouble(fp: Fp, buffer: array<byte>, offset: nat, ghost window: seq<byte>) returns (value: Double, n: nat)
    requires Shows(buffer, window) && offset + 4 <= |window|
    ensures n == 4 && value == FloatAt(fp, window, offset)
  {
    var word;
    word, n := GetU32(buffer, offset, window);
    value := fp.widen(word);
  }

  method GetArray(fp: Fp, buffer: array<byte>, offset: nat, count: nat, ghost window: seq<byte>)
    returns (items: seq<Double>, n: nat)
    requires Shows(buffer, window) && offset + 4 * count <= |window|
    ensures n == 4 * count && items == FloatsAt(fp, window, offset, count)
  {
    items, n := [], 0;
    for i := 0 to count
      invariant n == 4 * i && items == FloatsAt(fp, window, offset, i)
    {
      var value, used := GetDouble(fp, buffer, offset + n, window);
      items := items + [value];
      n := n + used;
    }
  }

  /** `if (flag) word |= 1 << i`, when bits 0 to i - 1 have been decided. */
  method OrFlag(word: nat, i: nat, flag: bool, ghost decided: seq<bool>) returns (r: nat)
    requires |decided| == i && word == Pack(decided)
    ensures r == Pack(decided + [flag])
  {
    PackSnoc(decided, flag);
    r := if flag then SetBit(word, i) else word;
  }

  /** Six flags ORed into a word one mask at a time. */
  method SixFlags(flags: seq<bool>) returns (word: uint16)
    requires |flags| == 6
    ensures word == PackWord(flags)
  {
    var acc: nat := 0;
    for i := 0 to 6
      invariant acc == Pack(flags[..i])
    {
      acc := OrFlag(acc, i, flags[i], flags[..i]);
      assert flags[..i + 1] == flags[..i] + [flags[i]];
    }
    assert flags[..6] == flags;
    PackBound16(flags);
    word := acc;
  }

  /** The loop that ORs `1 << i` into a word for every true flag. */
  method PackFlags(flags: Bits16) returns (word: uint16)
    ensures word == Pack(flags)
    ensures Unpack16(word) == flags
  {
    var acc: nat := 0;
    for i := 0 to 16
      invariant acc == Pack(flags[..i])
    {
      acc := OrFlag(acc, i, flags[i], flags[..i]);
      assert flags[..i + 1] == flags[..i] + [flags[i]];
    }
    assert flags[..16] == flags;
    PackBound16(flags);
    UnpackPack(flags);
    word := acc;
  }

  method UnpackFlags(word: uint16) returns (flags: Bits16)
    ensures flags == Unpack16(word)
  {
    flags := ALL_OFF;
    for i := 0 to 16
      invariant forall k :: 0 <= k < i ==> flags[k] == Bit(word, k)
    {
      flags := flags[i := Bit(word, i)];
    }
  }
}
