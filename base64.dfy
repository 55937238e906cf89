/** Base64 text as Node.js writes it (`buffer.toString("base64")`, section 4 of
    RFC 4648: alphabet A-Z a-z 0-9 + /, '=' padding) and reads it
    (`Buffer.from(text, "base64")`). Text is handled as its ASCII byte codes,
    which is what the UTF-8 conversions around it in Base64Crypto amount to. */
module Base64 {
  import opened Wrappers
  import opened Bytes

  const Pad: byte := 61  // '='

  /** The character of a 6-bit value, from the table in section 4 of RFC 4648. */
  function Char(v: bv8): (c: byte)
    requires v < 64
  {
    if v < 26 then 65 + v            // 'A'..'Z'
    else if v < 52 then 97 + (v - 26) // 'a'..'z'
    else if v < 62 then 48 + (v - 52) // '0'..'9'
    else if v == 62 then 43          // '+'
    else 47                          // '/'
  }

  /** The value of an alphabet character. Node also accepts the URL-safe
      '-' and '_' for 62 and 63; every other character has no value. */
  function Value(c: byte): (r: Option<bv8>)
    ensures r.Some? ==> r.value < 64
  {
    if 65 <= c <= 90 then Some(c - 65)
    else if 97 <= c <= 122 then Some(c - 97 + 26)
    else if 48 <= c <= 57 then Some(c - 48 + 52)
    else if c == 43 || c == 45 then Some(62)
    else if c == 47 || c == 95 then Some(63)
    else None
  }

  lemma CharValue(v: bv8)
    requires v < 64
    ensures Char(v) != Pad && Value(Char(v)) == Some(v)
  {
  }

  /** The 6-bit values of a group of three bytes, of a final pair, of a final byte. */
  function Group3(b0: byte, b1: byte, b2: byte): (s: seq<bv8>)
    ensures |s| == 4 && forall i :: 0 <= i < 4 ==> s[i] < 64
  {
    [b0 >> 2, ((b0 & 3) << 4) | (b1 >> 4), ((b1 & 15) << 2) | (b2 >> 6), b2 & 63]
  }

  function Group2(b0: byte, b1: byte): (s: seq<bv8>)
    ensures |s| == 3 && forall i :: 0 <= i < 3 ==> s[i] < 64
  {
    [b0 >> 2, ((b0 & 3) << 4) | (b1 >> 4), (b1 & 15) << 2]
  }

  function Group1(b0: byte): (s: seq<bv8>)
    ensures |s| == 2 && forall i :: 0 <= i < 2 ==> s[i] < 64
  {
    [b0 >> 2, (b0 & 3) << 4]
  }

  function Chars(s: seq<bv8>): (t: seq<byte>)
    requires forall i :: 0 <= i < |s| ==> s[i] < 64
    ensures |t| == |s|
    ensures forall i :: 0 <= i < |t| ==> t[i] != Pad && Value(t[i]).Some?
    decreases |s|
  {
    if s == [] then [] else CharValue(s[0]); [Char(s[0])] + Chars(s[1..])
  }

  /** The encoding: every three bytes become four characters; a final group
      of one or two bytes is padded with "==" or "=". */
  function Encode(x: seq<byte>): (t: seq<byte>)
    ensures |t| == 4 * ((|x| + 2) / 3)
    ensures forall i :: 0 <= i < |t| ==> t[i] == Pad || Value(t[i]).Some?
    decreases |x|
  {
    if |x| >= 3 then Chars(Group3(x[0], x[1], x[2])) + Encode(x[3..])
    else if |x| == 2 then Chars(Group2(x[0], x[1])) + [Pad]
    else if |x| == 1 then Chars(Group1(x[0])) + [Pad, Pad]
    else []
  }

  /** The values of the alphabet characters before the first '=', skipping
      every other character (the decoder ignores what is not base64). */
  function Sextets(t: seq<byte>): (s: seq<bv8>)
    ensures forall i :: 0 <= i < |s| ==> s[i] < 64
    ensures |s| <= |t|
    decreases |t|
  {
    if t == [] || t[0] == Pad then []
    else match Value(t[0])
      case Some(v) => [v] + Sextets(t[1..])
      case None => Sextets(t[1..])
  }

  /** The three bytes that four 6-bit values spell. */
  function Triple(a: bv8, b: bv8, c: bv8, d: bv8): seq<byte> {
    [(a << 2) | (b >> 4), ((b & 15) << 4) | (c >> 2), ((c & 3) << 6) | d]
  }

  /** Four values give three bytes; a final three give two, a final two give
      one, a lone final value gives nothing. */
  function FromSextets(s: seq<bv8>): (r: seq<byte>)
    requires forall i :: 0 <= i < |s| ==> s[i] < 64
    ensures |r| == 3 * |s| / 4
    decreases |s|
  {
    if |s| >= 4 then Triple(s[0], s[1], s[2], s[3]) + FromSextets(s[4..])
    else if |s| == 3 then [(s[0] << 2) | (s[1] >> 4), ((s[1] & 15) << 4) | (s[2] >> 2)]
    else if |s| == 2 then [(s[0] << 2) | (s[1] >> 4)]
    else []
  }

  /** `Buffer.from(text, "base64")`: three bytes for every four alphabet
      characters before the padding, rounded down. */
  function Decode(t: seq<byte>): (r: seq<byte>)
    ensures |r| == 3 * |Sextets(t)| / 4 && |r| <= |t|
  {
    FromSextets(Sextets(t))
  }

  /** An alphabet character in front contributes its value. */
  lemma SextetsCons(c: byte, v: bv8, rest: seq<byte>)
    requires c != Pad && Value(c) == Some(v)
    ensures Sextets([c] + rest) == [v] + Sextets(rest)
  {
    assert ([c] + rest)[1..] == rest;
  }

  /** The decoder reads back the values of written characters, up to the padding. */
  lemma {:induction false} SextetsOfChars(s: seq<bv8>, rest: seq<byte>)
    requires forall i :: 0 <= i < |s| ==> s[i] < 64
    ensures Sextets(Chars(s) + rest) == s + Sextets(rest)
    decreases |s|
  {
    if s != [] {
      CharValue(s[0]);
      calc {
        Sextets(Chars(s) + rest);
        { assert Chars(s) + rest == [Char(s[0])] + (Chars(s[1..]) + rest); }
        Sextets([Char(s[0])] + (Chars(s[1..]) + rest));
        { SextetsCons(Char(s[0]), s[0], Chars(s[1..]) + rest); }
        [s[0]] + Sextets(Chars(s[1..]) + rest);
        { SextetsOfChars(s[1..], rest); }
        [s[0]] + (s[1..] + Sextets(rest));
        { assert s == [s[0]] + s[1..]; }
        s + Sextets(rest);
      }
    } else {
      assert Chars(s) + rest == rest;
      assert s + Sextets(rest) == Sextets(rest);
    }
  }

  lemma {:induction false} SextetsOfEncode(x: seq<byte>)
    ensures |x| >= 3 ==> Sextets(Encode(x)) == Group3(x[0], x[1], x[2]) + Sextets(Encode(x[3..]))
    ensures |x| == 2 ==> Sextets(Encode(x)) == Group2(x[0], x[1])
    ensures |x| == 1 ==> Sextets(Encode(x)) == Group1(x[0])
    ensures |x| == 0 ==> Sextets(Encode(x)) == []
  {
    if |x| >= 3 {
      SextetsOfChars(Group3(x[0], x[1], x[2]), Encode(x[3..]));
    } else if |x| == 2 {
      SextetsOfChars(Group2(x[0], x[1]), [Pad]);
      assert Group2(x[0], x[1]) + [] == Group2(x[0], x[1]);
    } else if |x| == 1 {
      SextetsOfChars(Group1(x[0]), [Pad, Pad]);
      assert Group1(x[0]) + [] == Group1(x[0]);
    }
  }

  /** The bit arithmetic of one group: the 6-bit values of the bytes give the
      bytes back. */
  lemma FirstByte(b0: byte, b1: byte)
    ensures ((b0 >> 2) << 2) | ((((b0 & 3) << 4) | (b1 >> 4)) >> 4) == b0
  {
  }

  lemma SecondByte(b0: byte, b1: byte, b2: byte)
    ensures (((((b0 & 3) << 4) | (b1 >> 4)) & 15) << 4) | ((((b1 & 15) << 2) | (b2 >> 6)) >> 2) == b1
  {
  }

  lemma ThirdByte(b1: byte, b2: byte)
    ensures (((((b1 & 15) << 2) | (b2 >> 6)) & 3) << 6) | (b2 & 63) == b2
  {
  }

  lemma Group3RoundTrip(b0: byte, b1: byte, b2: byte)
    ensures FromSextets(Group3(b0, b1, b2)) == [b0, b1, b2]
  {
    FirstByte(b0, b1);
    SecondByte(b0, b1, b2);
    ThirdByte(b1, b2);
    var g := Group3(b0, b1, b2);
    assert g[4..] == [];
  }

  lemma Group2RoundTrip(b0: byte, b1: byte)
    ensures FromSextets(Group2(b0, b1)) == [b0, b1]
  {
    FirstByte(b0, b1);
    SecondByte(b0, b1, 0);
  }

  lemma Group1RoundTrip(b0: byte)
    ensures FromSextets(Group1(b0)) == [b0]
  {
    FirstByte(b0, 0);
  }

  /** Four sextets in front decode to three bytes in front. */
  lemma FromSextetsGroup(g: seq<bv8>, rest: seq<bv8>)
    requires |g| == 4
    requires forall i :: 0 <= i < |g| ==> g[i] < 64
    requires forall i :: 0 <= i < |rest| ==> rest[i] < 64
    ensures FromSextets(g + rest) == FromSextets(g) + FromSextets(rest)
  {
    var t := Triple(g[0], g[1], g[2], g[3]);
    assert FromSextets(g + rest) == t + FromSextets(rest) by {
      var h := g + rest;
      assert h[0] == g[0] && h[1] == g[1] && h[2] == g[2] && h[3] == g[3];
      assert h[4..] == rest;
    }
    assert FromSextets(g) == t by {
      assert g[4..] == [];
      assert FromSextets(g) == t + [];
    }
  }

  /** Reading back what was written gives the original bytes
      (test/crypto.test.ts encodes and decodes "this is a example"). */
  lemma {:induction false} DecodeEncode(x: seq<byte>)
    ensures Decode(Encode(x)) == x
    decreases |x|
  {
    SextetsOfEncode(x);
    if |x| >= 3 {
      var g, rest := Group3(x[0], x[1], x[2]), Sextets(Encode(x[3..]));
      calc {
        Decode(Encode(x));
        FromSextets(g + rest);
        { FromSextetsGroup(g, rest); }
        FromSextets(g) + FromSextets(rest);
        { Group3RoundTrip(x[0], x[1], x[2]); DecodeEncode(x[3..]); }
        [x[0], x[1], x[2]] + x[3..];
        { assert x == [x[0], x[1], x[2]] + x[3..]; }
        x;
      }
    } else if |x| == 2 {
      Group2RoundTrip(x[0], x[1]);
      assert x == [x[0], x[1]];
    } else if |x| == 1 {
      Group1RoundTrip(x[0]);
      assert x == [x[0]];
    }
  }

  /** "Man" is "TWFu", the classic example of the encoding. */
  lemma EncodeExample()
    ensures Encode([77, 97, 110]) == [84, 87, 70, 117]
  {
    var g := Group3(77, 97, 110);
    assert g == [19, 22, 5, 46];
    assert Chars(g[3..]) == [117];
    assert Chars(g[2..]) == [70, 117];
    assert Chars(g[1..]) == [87, 70, 117];
    assert Chars(g) == [84, 87, 70, 117];
    assert [77, 97, 110][3..] == [];
  }

}
