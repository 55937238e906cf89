/** Bytes, decimal text and the CRC-16/MODBUS checksum that every block carries. */
module Bytes {

  /** A Node.js Buffer element. */
  type byte = bv8

  /** What `Buffer.alloc(n)` returns: n zero bytes. */
  function Zeros(n: nat): (z: seq<byte>)
    ensures |z| == n
    ensures forall i :: 0 <= i < n ==> z[i] == 0
  {
    seq(n, _ => 0)
  }

  // ---------------------------------------------------------------------------
  // Decimal text, as produced by Number.prototype.toString() on a non-negative
  // integer and read back by Number(text).

  predicate IsDigit(c: char) { '0' <= c <= '9' }

  /** A string made of decimal digits only (the empty string reads as 0). */
  predicate IsDecimal(s: string) {
    forall i :: 0 <= i < |s| ==> IsDigit(s[i])
  }

  function DigitChar(d: nat): (c: char)
    requires d < 10
    ensures IsDigit(c)
  {
    ('0' as int + d) as char
  }

  function DigitValue(c: char): (d: nat)
    requires IsDigit(c)
    ensures d < 10
  {
    c as int - '0' as int
  }

  /** The decimal spelling of n, most significant digit first, without leading zeros. */
  function NatToString(n: nat): (s: string)
    decreases n
  {
    if n < 10 then [DigitChar(n)] else NatToString(n / 10) + [DigitChar(n % 10)]
  }

  /** The value of a digit string. */
  function ParseDecimal(s: string): nat
    requires IsDecimal(s)
    decreases |s|
  {
    if s == [] then 0 else ParseDecimal(s[..|s| - 1]) * 10 + DigitValue(s[|s| - 1])
  }

  /** Printing a number and reading it back gives the number: the decimal
      spelling is a non-empty digit string whose value is n. */
  lemma {:induction false} NatToStringRoundTrip(n: nat)
    ensures |NatToString(n)| > 0
    ensures IsDecimal(NatToString(n))
    ensures ParseDecimal(NatToString(n)) == n
    decreases n
  {
    if n >= 10 {
      NatToStringRoundTrip(n / 10);
      var s := NatToString(n);
      assert s[..|s| - 1] == NatToString(n / 10);
    }
  }

  /** Different numbers are spelled differently. */
  lemma NatToStringInjective(m: nat, n: nat)
    requires NatToString(m) == NatToString(n)
    ensures m == n
  {
    NatToStringRoundTrip(m);
    NatToStringRoundTrip(n);
  }

  // ---------------------------------------------------------------------------
  // CRC-16/MODBUS: initial value 0xFFFF, reflected polynomial 0xA001, no final
  // xor. The checksum is computed over the plaintext of a block.

  /** Eight (or k) shift steps of the reflected CRC register. */
  function CrcShift(crc: bv16, k: nat): bv16
    decreases k
  {
    if k == 0 then crc
    else CrcShift(if crc & 1 == 1 then (crc >> 1) ^ 0xA001 else crc >> 1, k - 1)
  }

  function CrcFrom(crc: bv16, data: seq<byte>): bv16
    decreases |data|
  {
    if data == [] then crc else CrcFrom(CrcShift(crc ^ (data[0] as bv16), 8), data[1..])
  }

  /** `crc16("MODBUS", data)`. */
  function Crc16(data: seq<byte>): bv16
  {
    CrcFrom(0xFFFF, data)
  }

  /** Checksumming a + b is checksumming b from the register a leaves. */
  lemma {:induction false} CrcFromAppend(crc: bv16, a: seq<byte>, b: seq<byte>)
    ensures CrcFrom(crc, a + b) == CrcFrom(CrcFrom(crc, a), b)
    decreases |a|
  {
    if a != [] {
      assert (a + b)[0] == a[0] && (a + b)[1..] == a[1..] + b;
      CrcFromAppend(CrcShift(crc ^ (a[0] as bv16), 8), a[1..], b);
    } else {
      assert a + b == b;
    }
  }

  // The register after each third of the check string "123456789".

  lemma CrcOf123()
    ensures CrcFrom(0xFFFF, [49, 50, 51]) == 0x7A75
  {
    assert CrcShift(0xFFFF ^ 49, 8) == 0x947E;
    assert CrcShift(0x947E ^ 50, 8) == 0xF595;
    assert CrcShift(0xF595 ^ 51, 8) == 0x7A75;
  }

  lemma CrcOf456()
    ensures CrcFrom(0x7A75, [52, 53, 54]) == 0x32E4
  {
    assert CrcShift(0x7A75 ^ 52, 8) == 0x30BA;
    assert CrcShift(0x30BA ^ 53, 8) == 0xA471;
    assert CrcShift(0xA471 ^ 54, 8) == 0x32E4;
  }

  lemma CrcOf789()
    ensures CrcFrom(0x32E4, [55, 56, 57]) == 0x4B37
  {
    assert CrcShift(0x32E4 ^ 55, 8) == 0x9D73;
    assert CrcShift(0x9D73 ^ 56, 8) == 0x37DD;
    assert CrcShift(0x37DD ^ 57, 8) == 0x4B37;
  }

  /** The check value of CRC-16/MODBUS: the nine ASCII digits "123456789"
      give 0x4B37. */
  lemma Crc16CheckValue()
    ensures Crc16([49, 50, 51, 52, 53, 54, 55, 56, 57]) == 0x4B37
  {
    var a: seq<byte> := [49, 50, 51];
    var b: seq<byte> := [52, 53, 54];
    var c: seq<byte> := [55, 56, 57];
    assert a + b + c == [49, 50, 51, 52, 53, 54, 55, 56, 57];
    CrcFromAppend(0xFFFF, a + b, c);
    CrcFromAppend(0xFFFF, a, b);
    CrcOf123();
    CrcOf456();
    CrcOf789();
  }

  // ---------------------------------------------------------------------------
  // Concatenation of chunks

  /** `Buffer.concat(chunks)`. */
  function Flatten(chunks: seq<seq<byte>>): seq<byte>
  {
    if chunks == [] then [] else chunks[0] + Flatten(chunks[1..])
  }

  /** Concatenating two runs of chunks is concatenating their concatenations. */
  lemma {:induction false} FlattenAppend(a: seq<seq<byte>>, b: seq<seq<byte>>)
    ensures Flatten(a + b) == Flatten(a) + Flatten(b)
    decreases |a|
  {
    if a != [] {
      assert (a + b)[0] == a[0] && (a + b)[1..] == a[1..] + b;
      FlattenAppend(a[1..], b);
      assert Flatten(a + b) == a[0] + (Flatten(a[1..]) + Flatten(b));
    } else {
      assert a + b == b;
    }
  }

  /** Chunks of n bytes each concatenate to n bytes per chunk. */
  lemma {:induction false} FlattenUniform(chunks: seq<seq<byte>>, n: nat)
    requires forall k :: 0 <= k < |chunks| ==> |chunks[k]| == n
    ensures |Flatten(chunks)| == |chunks| * n
    decreases |chunks|
  {
    if chunks != [] {
      FlattenUniform(chunks[1..], n);
    }
  }
}
