/** The cryptors a block's replicas are written through (fs/icrypto.ts):
    a registry looked up by id, the identity, a byte-wise XOR and a Base64
    re-encoding. A cryptor's transformation is what is stored; the id it was
    written with is recorded next to the block so that it can be undone. */
module Crypto {
  import opened Wrappers
  import opened Bytes
  import Base64

  datatype Cryptor =
    | NoneCrypto(id: string)
    | XorCrypto(id: string, mode: int)
    | Base64Crypto(id: string)

  /** `CryptoManager.getCrypto`: the first registered cryptor with that id. */
  function GetCrypto(cryptos: seq<Cryptor>, id: string): (r: Option<Cryptor>)
    ensures r.None? <==> forall i :: 0 <= i < |cryptos| ==> cryptos[i].id != id
    ensures r.Some? ==> exists i :: 0 <= i < |cryptos| && cryptos[i] == r.value
                                    && r.value.id == id
                                    && forall j :: 0 <= j < i ==> cryptos[j].id != id
    decreases |cryptos|
  {
    if cryptos == [] then None
    else if cryptos[0].id == id then Some(cryptos[0])
    else
      var r := GetCrypto(cryptos[1..], id);
      assert r.Some? ==> exists i :: 1 <= i < |cryptos| && cryptos[i] == r.value
                                      && forall j :: 1 <= j < i ==> cryptos[j].id != id
        by {
          if r.Some? {
            var k :| 0 <= k < |cryptos[1..]| && cryptos[1..][k] == r.value
                     && forall j :: 0 <= j < k ==> cryptos[1..][j].id != id;
            assert cryptos[k + 1] == r.value;
            forall j | 1 <= j < k + 1 ensures cryptos[j].id != id {
              assert cryptos[j] == cryptos[1..][j - 1];
            }
          }
        }
      r
  }

  /** The byte a JavaScript `^` with the key leaves in a Buffer element:
      the key is taken as a 32-bit integer and the result stored modulo 256,
      so only the key's low byte matters (Dafny's % is never negative, which is
      also the two's-complement low byte of a negative key). */
  function XorKey(mode: int): byte
  {
    (mode % 256) as byte
  }

  /** Every byte of the buffer combined with the key. */
  function XorAll(b: seq<byte>, key: byte): (r: seq<byte>)
    ensures |r| == |b|
  {
    seq(|b|, i requires 0 <= i < |b| => b[i] ^ key)
  }

  /** The loop of `XorCrypto.encrypt` / `decrypt`: a fresh buffer of the same
      length filled byte by byte. */
  method XorBytes(buffer: seq<byte>, mode: int) returns (content: array<byte>)
    ensures fresh(content)
    ensures content[..] == XorAll(buffer, XorKey(mode))
  {
    content := new byte[|buffer|](_ => 0);
    var key := XorKey(mode);
    for i := 0 to |buffer|
      invariant forall j :: 0 <= j < i ==> content[j] == buffer[j] ^ key
    {
      content[i] := buffer[i] ^ key;
    }
  }

  /** XOR with the same key twice gives the buffer back. */
  lemma XorTwice(b: seq<byte>, key: byte)
    ensures XorAll(XorAll(b, key), key) == b
  {
    forall i | 0 <= i < |b| ensures XorAll(XorAll(b, key), key)[i] == b[i] {
      assert (b[i] ^ key) ^ key == b[i];
    }
  }

  /** What `encrypt` stores. */
  function Encrypted(c: Cryptor, b: seq<byte>): (r: seq<byte>)
    ensures c.NoneCrypto? || c.XorCrypto? ==> |r| == |b|
    ensures c.Base64Crypto? ==> |r| == 4 * ((|b| + 2) / 3)
  {
    match c
    case NoneCrypto(_) => b
    case XorCrypto(_, mode) => XorAll(b, XorKey(mode))
    case Base64Crypto(_) => Base64.Encode(b)
  }

  /** What `decrypt` gives back. The Base64 cryptor reads the stored bytes as
      UTF-8 text first; that conversion keeps every ASCII byte and turns the
      rest into characters outside the Base64 alphabet, which the decoder
      skips, so decoding the bytes directly is the same. */
  function Decrypted(c: Cryptor, b: seq<byte>): (r: seq<byte>)
    ensures c.NoneCrypto? || c.XorCrypto? ==> |r| == |b|
    ensures c.Base64Crypto? ==> |r| <= |b|
  {
    match c
    case NoneCrypto(_) => b
    case XorCrypto(_, mode) => XorAll(b, XorKey(mode))
    case Base64Crypto(_) => Base64.Decode(b)
  }

  /** `encrypt` on any cryptor. */
  method Encrypt(c: Cryptor, buffer: seq<byte>) returns (r: seq<byte>)
    ensures Decrypted(c, r) == buffer
    ensures c.NoneCrypto? || c.XorCrypto? ==> |r| == |buffer|
    ensures c.Base64Crypto? ==> |r| == 4 * ((|buffer| + 2) / 3)
    ensures r == Encrypted(c, buffer)
  {
    match c
    case NoneCrypto(_) =>
      r := buffer;
    case XorCrypto(_, mode) =>
      var content := XorBytes(buffer, mode);
      r := content[..];
      XorTwice(buffer, XorKey(mode));
    case Base64Crypto(_) =>
      r := Base64.Encode(buffer);
      Base64.DecodeEncode(buffer);
  }

  /** `decrypt` on any cryptor. */
  method Decrypt(c: Cryptor, buffer: seq<byte>) returns (r: seq<byte>)
    ensures r == Decrypted(c, buffer)
  {
    match c
    case NoneCrypto(_) =>
      r := buffer;
    case XorCrypto(_, mode) =>
      var content := XorBytes(buffer, mode);
      r := content[..];
    case Base64Crypto(_) =>
      r := Base64.Decode(buffer);
  }

  /** Whatever a cryptor stores, the same cryptor reads back. */
  lemma DecryptEncrypt(c: Cryptor, b: seq<byte>)
    ensures Decrypted(c, Encrypted(c, b)) == b
  {
    match c
    case NoneCrypto(_) =>
    case XorCrypto(_, mode) => XorTwice(b, XorKey(mode));
    case Base64Crypto(_) => Base64.DecodeEncode(b);
  }

  /** XOR is its own inverse: encrypting and decrypting are the same operation. */
  lemma XorSymmetric(id: string, mode: int, b: seq<byte>)
    ensures Encrypted(XorCrypto(id, mode), b) == Decrypted(XorCrypto(id, mode), b)
    ensures Encrypted(XorCrypto(id, mode), Encrypted(XorCrypto(id, mode), b)) == b
  {
    XorTwice(b, XorKey(mode));
  }

  /** The XOR cases of test/crypto.test.ts: key 1 turns ones into zeros and back. */
  lemma XorExample()
    ensures Encrypted(XorCrypto("xor", 1), [1, 1, 1, 1]) == [0, 0, 0, 0]
    ensures Decrypted(XorCrypto("xor", 1), [0, 0, 0, 0]) == [1, 1, 1, 1]
  {
    assert XorKey(1) == 1;
  }
}
