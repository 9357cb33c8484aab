/**
 * The fingerprint codec of imgdiff.go: a 64-bit difference hash is packed
 * big-endian into 8 bytes, encoded with base16384, converted from UTF-16BE
 * to UTF-8 and cut to its first 15 bytes, which become the image's name.
 * Decoding appends the fixed suffix `lastchar` to the name, converts back to
 * UTF-16BE, decodes base16384 and unpacks the first 8 bytes.
 */
module ImgDiff {
  import opened Wrappers
  import opened GoText

  /**
   * The go-base16384 functions the codec calls; their source is not part of
   * this model, so the model is parametric in them.
   */
  datatype Library = Library(
    encode: Bytes -> Bytes,                  // base14.Encode: raw bytes to UTF-16BE text
    decode: Bytes -> Bytes,                  // base14.Decode: UTF-16BE text to raw bytes
    utf16beToUtf8: Bytes -> Bytes,           // base14.UTF16be2utf8 (its error is discarded)
    utf8ToUtf16be: Bytes -> Option<Bytes>)   // base14.UTF82utf16be; None is its error

  /** Byte length of an identifier: `[:15]`. */
  const IdLength: nat := 15

  /** `lastchar`, the UTF-8 bytes of the fixed suffix `decodeDHash` appends to a name. */
  const LastChar: Bytes := [0xE2, 0x80, 0x9E, 0xC2, 0xA5, 0xC3, 0x85]

  // ---------------------------------------------------------------------------
  // 64-bit words and big-endian packing (binary.BigEndian.PutUint64 / Uint64)
  // ---------------------------------------------------------------------------

  function Pow2(k: nat): (p: nat)
    ensures p >= 1
  {
    if k == 0 then 1 else 2 * Pow2(k - 1)
  }

  lemma {:induction false} Pow2Add(a: nat, b: nat)
    ensures Pow2(a + b) == Pow2(a) * Pow2(b)
    decreases a
  {
    if a > 0 {
      Pow2Add(a - 1, b);
    }
  }

  lemma Pow2Of64()
    ensures Pow2(64) == 0x1_0000_0000_0000_0000
  {
    assert Pow2(8) == 256 by {
      assert Pow2(4) == 16 by { assert Pow2(2) == 4; }
      Pow2Add(4, 4);
    }
    assert Pow2(16) == 0x1_0000 by { Pow2Add(8, 8); }
    assert Pow2(32) == 0x1_0000_0000 by { Pow2Add(16, 16); }
    Pow2Add(32, 32);
  }

  /** A Go `uint64`. */
  type Uint64 = x: int | 0 <= x < 0x1_0000_0000_0000_0000

  /** 256 to the power n: the number of values n bytes can hold. */
  function Pow256(n: nat): (p: nat)
    ensures p >= 1
  {
    if n == 0 then 1 else 256 * Pow256(n - 1)
  }

  lemma Pow256Of8()
    ensures Pow256(8) == 0x1_0000_0000_0000_0000
  {
  }

  /** The n-byte big-endian representation of x (its low n bytes, most significant first). */
  function BigEndian(x: nat, n: nat): (b: Bytes)
    ensures |b| == n
  {
    if n == 0 then [] else BigEndian(x / 256, n - 1) + [x % 256]
  }

  /** The number whose big-endian representation is b. */
  function FromBigEndian(b: Bytes): (x: nat)
    ensures x < Pow256(|b|)
  {
    if b == [] then 0 else FromBigEndian(b[..|b| - 1]) * 256 + b[|b| - 1]
  }

  lemma {:induction false} FromBigEndianOf(x: nat, n: nat)
    requires x < Pow256(n)
    ensures FromBigEndian(BigEndian(x, n)) == x
  {
    if n > 0 {
      var b := BigEndian(x, n);
      assert b[..n - 1] == BigEndian(x / 256, n - 1);
      FromBigEndianOf(x / 256, n - 1);
    }
  }

  lemma {:induction false} BigEndianOf(b: Bytes)
    ensures BigEndian(FromBigEndian(b), |b|) == b
  {
    if b != [] {
      var init := b[..|b| - 1];
      var x := FromBigEndian(b);
      assert x / 256 == FromBigEndian(init) && x % 256 == b[|b| - 1];
      BigEndianOf(init);
    }
  }

  /** `binary.BigEndian.PutUint64` into `var data [8]byte`. */
  function Pack(x: Uint64): (b: Bytes)
    ensures |b| == 8 && FromBigEndian(b) == x
  {
    Pow256Of8();
    FromBigEndianOf(x, 8);
    BigEndian(x, 8)
  }

  /** `binary.BigEndian.Uint64`: reads the first 8 bytes; Go panics on fewer. */
  function Unpack(b: Bytes): (x: Uint64)
    requires |b| >= 8
    ensures BigEndian(x, 8) == b[..8]
  {
    Pow256Of8();
    BigEndianOf(b[..8]);
    FromBigEndian(b[..8])
  }

  /** Unpacking undoes packing on every 64-bit value. */
  lemma UnpackPack(x: Uint64)
    ensures Unpack(Pack(x)) == x
  {
    Pow256Of8();
    FromBigEndianOf(x, 8);
    assert Pack(x)[..8] == Pack(x);
  }

  /** Packing undoes unpacking on the 8 bytes that are read: the two are a bijection. */
  lemma PackUnpack(b: Bytes)
    requires |b| >= 8
    ensures Pack(Unpack(b)) == b[..8]
  {
    BigEndianOf(b[..8]);
  }

  // ---------------------------------------------------------------------------
  // GetDHashStr
  // ---------------------------------------------------------------------------

  /** The full UTF-8 text of the base16384 encoding of the hash. */
  function EncodedText(lib: Library, x: Uint64): Bytes {
    lib.utf16beToUtf8(lib.encode(Pack(x)))
  }

  /** `[:15]` does not panic: the text has at least 15 bytes. */
  predicate Encodable(lib: Library, x: Uint64) {
    |EncodedText(lib, x)| >= IdLength
  }

  /** The identifier of a hash: the first 15 bytes of its encoded text. */
  function Identifier(lib: Library, x: Uint64): (id: Bytes)
    requires Encodable(lib, x)
    ensures |id| == IdLength && id <= EncodedText(lib, x)
  {
    EncodedText(lib, x)[..IdLength]
  }

  /**
   * `GetDHashStr`: the outcome of `goimagehash.DifferenceHash` is the
   * parameter `hash`; a hashing error is passed on (with the name "").
   */
  function GetDHashStr(lib: Library, hash: Result<Uint64>): (r: Result<Bytes>)
    requires hash.Ok? ==> Encodable(lib, hash.value)
    ensures r.Ok? <==> hash.Ok?
    ensures r.Ok? ==> |r.value| == IdLength && r.value <= EncodedText(lib, hash.value)
  {
    match hash
    case Ok(x) => Ok(Identifier(lib, x))
    case Err => Err
  }

  // ---------------------------------------------------------------------------
  // decodeDHash and HammDistance
  // ---------------------------------------------------------------------------

  /** The UTF-16BE text `decodeDHash` decodes: the name followed by `lastchar`. */
  function Utf16Of(lib: Library, name: Bytes): Option<Bytes> {
    lib.utf8ToUtf16be(name + LastChar)
  }

  /** `binary.BigEndian.Uint64` does not panic: a converted name decodes to at least 8 bytes. */
  predicate Decodable(lib: Library, name: Bytes) {
    match Utf16Of(lib, name)
    case None => true
    case Some(u) => |lib.decode(u)| >= 8
  }

  /**
   * `decodeDHash`: None is the nil hash returned when the UTF-8 to UTF-16BE
   * conversion fails; otherwise the hash whose big-endian bytes are the first
   * eight decoded bytes.
   */
  function DecodeDHash(lib: Library, name: Bytes): (r: Option<Uint64>)
    requires Decodable(lib, name)
    ensures r.None? <==> Utf16Of(lib, name).None?
    ensures r.Some? ==> Pack(r.value) == lib.decode(Utf16Of(lib, name).value)[..8]
  {
    match Utf16Of(lib, name)
    case None => None
    case Some(u) =>
      var dhb := lib.decode(u);
      PackUnpack(dhb);
      Some(Unpack(dhb))
  }

  /** Bitwise exclusive or of two naturals, one bit at a time from the least significant. */
  function Xor(a: nat, b: nat): nat
    decreases a + b
  {
    if a == 0 && b == 0 then 0
    else (if a % 2 == b % 2 then 0 else 1) + 2 * Xor(a / 2, b / 2)
  }

  /** Exclusive or is zero exactly on equal arguments. */
  lemma {:induction false} XorZero(a: nat, b: nat)
    ensures Xor(a, b) == 0 <==> a == b
    decreases a + b
  {
    if a != 0 || b != 0 {
      XorZero(a / 2, b / 2);
    }
  }

  lemma {:induction false} XorCommutes(a: nat, b: nat)
    ensures Xor(a, b) == Xor(b, a)
    decreases a + b
  {
    if a != 0 || b != 0 {
      XorCommutes(a / 2, b / 2);
    }
  }

  /** Exclusive or of two k-bit numbers is a k-bit number. */
  lemma {:induction false} XorBound(a: nat, b: nat, k: nat)
    requires a < Pow2(k) && b < Pow2(k)
    ensures Xor(a, b) < Pow2(k)
    decreases k
  {
    if k > 0 && (a != 0 || b != 0) {
      XorBound(a / 2, b / 2, k - 1);
    }
  }

  /** Number of one bits in the binary representation of `n`. */
  function PopCount(n: nat): nat {
    if n == 0 then 0 else n % 2 + PopCount(n / 2)
  }

  /** A number below 2^k has at most k one bits. */
  lemma {:induction false} PopCountBound(n: nat, k: nat)
    requires n < Pow2(k)
    ensures PopCount(n) <= k
    decreases k
  {
    if n > 0 {
      PopCountBound(n / 2, k - 1);
    }
  }

  /** Only zero has no one bits. */
  lemma {:induction false} PopCountZero(n: nat)
    ensures PopCount(n) == 0 <==> n == 0
  {
    if n > 0 && n % 2 == 0 {
      PopCountZero(n / 2);
    }
  }

  /** The Hamming distance of two 64-bit hashes: the one bits of their exclusive or. */
  function Distance(h1: Uint64, h2: Uint64): (d: nat)
    ensures d <= 64
    ensures d == 0 <==> h1 == h2
  {
    var x := Xor(h1, h2);
    Pow2Of64();
    XorBound(h1, h2, 64);
    PopCountBound(x, 64);
    PopCountZero(x);
    XorZero(h1, h2);
    PopCount(x)
  }

  /**
   * `HammDistance`: the distance of the two decoded hashes. A name whose
   * conversion fails yields a nil hash; the model reports that comparison as
   * an error, which the save path skips.
   */
  function HammDistance(lib: Library, img1: Bytes, img2: Bytes): (r: Result<nat>)
    requires Decodable(lib, img1) && Decodable(lib, img2)
    ensures r.Ok? <==> DecodeDHash(lib, img1).Some? && DecodeDHash(lib, img2).Some?
    ensures r.Ok? ==> r.value <= 64
    ensures r.Ok? ==> (r.value == 0 <==> DecodeDHash(lib, img1) == DecodeDHash(lib, img2))
  {
    match (DecodeDHash(lib, img1), DecodeDHash(lib, img2))
    case (Some(h1), Some(h2)) => Ok(Distance(h1, h2))
    case _ => Err
  }

  /** The distance does not depend on the order of its arguments. */
  lemma HammDistanceSymmetric(lib: Library, a: Bytes, b: Bytes)
    requires Decodable(lib, a) && Decodable(lib, b)
    ensures HammDistance(lib, a, b) == HammDistance(lib, b, a)
  {
    match (DecodeDHash(lib, a), DecodeDHash(lib, b))
    case (Some(h1), Some(h2)) =>
      XorCommutes(h1, h2);
    case _ =>
  }

  // ---------------------------------------------------------------------------
  // The round trip
  // ---------------------------------------------------------------------------

  /**
   * What `decodeDHash` needs of go-base16384 for the hash `x`: the identifier
   * can be cut, the identifier followed by `lastchar` converts to UTF-16BE,
   * and decoding that text yields the eight packed bytes first. Nothing is
   * assumed about the rest of the encoded text.
   */
  predicate DecodesBack(lib: Library, x: Uint64) {
    && Encodable(lib, x)
    && match lib.utf8ToUtf16be(Identifier(lib, x) + LastChar)
       case None => false
       case Some(u) => |lib.decode(u)| >= 8 && lib.decode(u)[..8] == Pack(x)
  }

  /** Under that fact, decoding an identifier gives back its hash. */
  lemma DHashRoundTrip(lib: Library, x: Uint64)
    requires DecodesBack(lib, x)
    ensures Encodable(lib, x) && Decodable(lib, Identifier(lib, x))
    ensures DecodeDHash(lib, Identifier(lib, x)) == Some(x)
  {
    var dhb := lib.decode(Utf16Of(lib, Identifier(lib, x)).value);
    UnpackPack(x);
    assert dhb[..8] == Pack(x)[..8];
    assert Unpack(dhb) == Unpack(Pack(x));
  }

  /**
   * The hypothesis can be met: a library whose encoder pads the eight bytes
   * to fifteen and whose conversions and decoder pass bytes through
   * satisfies it for every hash.
   */
  lemma DecodesBackSatisfiable(x: Uint64)
    ensures DecodesBack(Library(b => b + [0, 0, 0, 0, 0, 0, 0], b => b, b => b, b => Some(b)), x)
  {
    var lib := Library(b => b + [0, 0, 0, 0, 0, 0, 0], b => b, b => b, b => Some(b));
    assert EncodedText(lib, x) == Pack(x) + [0, 0, 0, 0, 0, 0, 0];
    assert Identifier(lib, x) == Pack(x) + [0, 0, 0, 0, 0, 0, 0];
    assert (Identifier(lib, x) + LastChar)[..8] == Pack(x);
  }

  /** Identifiers of hashes that decode back are distinct for distinct hashes. */
  lemma IdentifierInjective(lib: Library, x: Uint64, y: Uint64)
    requires DecodesBack(lib, x) && DecodesBack(lib, y)
    requires Identifier(lib, x) == Identifier(lib, y)
    ensures x == y
  {
    DHashRoundTrip(lib, x);
    DHashRoundTrip(lib, y);
  }

  /** The distance of two identifiers is the distance of the hashes they encode. */
  lemma IdentifierDistance(lib: Library, x: Uint64, y: Uint64)
    requires DecodesBack(lib, x) && DecodesBack(lib, y)
    ensures Decodable(lib, Identifier(lib, x)) && Decodable(lib, Identifier(lib, y))
    ensures HammDistance(lib, Identifier(lib, x), Identifier(lib, y)) == Ok(Distance(x, y))
  {
    DHashRoundTrip(lib, x);
    DHashRoundTrip(lib, y);
  }
}
