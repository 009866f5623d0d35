/**
 Opening an encrypted firmware container, over an abstract hash and block cipher: PBKDF1 (section 5.1 of
 RFC 8018, with SHA-256) for the key, CBC (section 6.2 of NIST SP 800-38A) for the body.
 */
module FirmwareContainer {
  import opened Wrappers

  type Byte = x: int | 0 <= x < 256

  const BLOCK: nat := 16
  const HASH: nat := 32
  const PASSWORD: seq<Byte> := [0x4F, 0x53, 0x44]
  const SIGNATURE: seq<Byte> := [0xCF, 0x06, 0x05, 0x04, 0x03, 0x02, 0x01, 0xFC]
  const ITERATIONS: nat := 1000
  const KEY_LENGTH: nat := 32
  const I64_LIMIT: nat := 0x8000_0000_0000_0000

  datatype ContainerError =
    | FileTooSmall | DecryptionFailed | PlainTooSmall | BadSignature | NegativeSize | SizeOverflow
    | TruncatedData | HashMismatch

  type Hash = seq<Byte> -> seq<Byte>

  datatype Cipher = Cipher(encrypt: (seq<Byte>, seq<Byte>) -> seq<Byte>, decrypt: (seq<Byte>, seq<Byte>) -> seq<Byte>)

  ghost predicate Hashes(hash: Hash) {
    forall x :: |hash(x)| == HASH
  }

  /** A block cipher: block in, block out, and decryption undoes encryption under the same key. */
  ghost predicate Deciphers(cipher: Cipher) {
    && (forall k, b :: |b| == BLOCK ==> |cipher.decrypt(k, b)| == BLOCK)
    && (forall k, b :: |b| == BLOCK ==> |cipher.encrypt(k, b)| == BLOCK && cipher.decrypt(k, cipher.encrypt(k, b)) == b)
  }

  // ---------------------------------------------------------------- bytes

  /** Exclusive or of the low `n` bits. */
  function XorBits(a: nat, b: nat, n: nat): (x: nat)
    ensures n == 0 ==> x == 0
  {
    if n == 0 then 0 else XorBits(a / 2, b / 2, n - 1) * 2 + (a % 2 + b % 2) % 2
  }

  function Pow2(n: nat): nat { if n == 0 then 1 else 2 * Pow2(n - 1) }

  /** One binary digit: taking a number apart and adding the same digit twice gives it back. */
  lemma XorDigit(h: nat, a: nat, b: nat)
    ensures (h * 2 + (a % 2 + b % 2) % 2) / 2 == h
    ensures ((h * 2 + (a % 2 + b % 2) % 2) % 2 + b % 2) % 2 == a % 2
  {
    var t := (a % 2 + b % 2) % 2;
    assert (h * 2 + t) % 2 == t;
  }

  lemma {:induction false} XorBitsBound(a: nat, b: nat, n: nat)
    ensures XorBits(a, b, n) < Pow2(n)
  {
    if n > 0 {
      XorBitsBound(a / 2, b / 2, n - 1);
    }
  }

  lemma {:induction false} XorBitsInvolution(a: nat, b: nat, n: nat)
    requires a < Pow2(n)
    ensures XorBits(XorBits(a, b, n), b, n) == a
  {
    if n > 0 {
      assert a / 2 < Pow2(n - 1);
      XorBitsInvolution(a / 2, b / 2, n - 1);
      XorDigit(XorBits(a / 2, b / 2, n - 1), a, b);
      assert a == a / 2 * 2 + a % 2;
    }
  }

  function Xor(a: Byte, b: Byte): Byte {
    XorBitsInvolution8(a, b);
    XorBits(a, b, 8)
  }

  lemma XorBitsInvolution8(a: Byte, b: Byte)
    ensures XorBits(a, b, 8) < 256 && XorBits(XorBits(a, b, 8), b, 8) == a
  {
    assert Pow2(4) == 16;
    assert Pow2(8) == 256;
    XorBitsBound(a, b, 8);
    XorBitsInvolution(a, b, 8);
  }

  function XorBlock(a: seq<Byte>, b: seq<Byte>): (x: seq<Byte>)
    requires |a| == |b|
    ensures |x| == |a| && forall i :: 0 <= i < |a| ==> x[i] == Xor(a[i], b[i])
  {
    seq(|a|, i requires 0 <= i < |a| => Xor(a[i], b[i]))
  }

  lemma XorBlockInvolution(a: seq<Byte>, b: seq<Byte>)
    requires |a| == |b|
    ensures XorBlock(XorBlock(a, b), b) == a
  {
    forall i | 0 <= i < |a| ensures XorBlock(XorBlock(a, b), b)[i] == a[i] {
      XorBitsInvolution8(a[i], b[i]);
    }
  }

  function LittleEndian(n: nat, width: nat): (b: seq<Byte>)
    ensures |b| == width
  {
    if width == 0 then [] else [n % 256] + LittleEndian(n / 256, width - 1)
  }

  function LittleEndianValue(b: seq<Byte>): nat {
    if b == [] then 0 else b[0] + 256 * LittleEndianValue(b[1..])
  }

  function Pow256(n: nat): nat { if n == 0 then 1 else 256 * Pow256(n - 1) }

  lemma {:induction false} LittleEndianRoundTrip(n: nat, width: nat)
    requires n < Pow256(width)
    ensures LittleEndianValue(LittleEndian(n, width)) == n
  {
    if width > 0 {
      LittleEndianRoundTrip(n / 256, width - 1);
      assert LittleEndian(n, width)[1..] == LittleEndian(n / 256, width - 1);
    }
  }

  /** A signed 64-bit little-endian number. */
  function SignedValue(b: seq<Byte>): int
    requires |b| == 8
  {
    var u := LittleEndianValue(b);
    if u < I64_LIMIT then u else u - 2 * I64_LIMIT
  }

  // ---------------------------------------------------------------- key and cipher mode

  /** The hash applied `n` times. */
  function Iterated(hash: Hash, x: seq<Byte>, n: nat): seq<Byte> {
    if n == 0 then x else hash(Iterated(hash, x, n - 1))
  }

  function Prefix(s: seq<Byte>, n: nat): seq<Byte> { if n < |s| then s[..n] else s }

  /** PBKDF1: the hash of password and salt, iterated, cut to the key length. */
  function Derived(hash: Hash, password: seq<Byte>, salt: seq<Byte>, iterations: nat, length: nat): seq<Byte> {
    Prefix(Iterated(hash, password + salt, if iterations == 0 then 1 else iterations), length)
  }

  method Pbkdf1(hash: Hash, password: seq<Byte>, salt: seq<Byte>, iterations: nat, length: nat) returns (key: seq<Byte>)
    ensures key == Derived(hash, password, salt, iterations, length)
  {
    var digest := hash(password + salt);
    assert Iterated(hash, password + salt, 0) == password + salt;
    var i := 1;
    while i < iterations
      invariant 1 <= i && (iterations >= 1 ==> i <= iterations)
      invariant digest == Iterated(hash, password + salt, i)
      invariant iterations == 0 ==> i == 1
    {
      digest := hash(digest);
      i := i + 1;
    }
    key := Prefix(digest, length);
  }

  function KeyFor(hash: Hash, salt: seq<Byte>): seq<Byte> {
    Derived(hash, PASSWORD, salt, ITERATIONS, KEY_LENGTH)
  }

  ghost function CbcEncrypt(cipher: Cipher, key: seq<Byte>, previous: seq<Byte>, plain: seq<Byte>): seq<Byte>
    requires Deciphers(cipher) && |previous| == BLOCK && |plain| % BLOCK == 0
    decreases |plain|
  {
    if plain == [] then []
    else
      var block := cipher.encrypt(key, XorBlock(plain[..BLOCK], previous));
      block + CbcEncrypt(cipher, key, block, plain[BLOCK..])
  }

  function CbcDecrypt(cipher: Cipher, key: seq<Byte>, previous: seq<Byte>, encrypted: seq<Byte>): (plain: seq<Byte>)
    requires |previous| == BLOCK && |encrypted| % BLOCK == 0
    requires forall k, b :: |b| == BLOCK ==> |cipher.decrypt(k, b)| == BLOCK
    ensures |plain| == |encrypted|
    decreases |encrypted|
  {
    if encrypted == [] then []
    else
      var block := encrypted[..BLOCK];
      XorBlock(cipher.decrypt(key, block), previous) + CbcDecrypt(cipher, key, block, encrypted[BLOCK..])
  }

  lemma {:induction false} CbcRoundTrip(cipher: Cipher, key: seq<Byte>, previous: seq<Byte>, plain: seq<Byte>)
    requires Deciphers(cipher) && |previous| == BLOCK && |plain| % BLOCK == 0
    ensures |CbcEncrypt(cipher, key, previous, plain)| == |plain|
    ensures CbcDecrypt(cipher, key, previous, CbcEncrypt(cipher, key, previous, plain)) == plain
    decreases |plain|
  {
    if plain != [] {
      var first := plain[..BLOCK];
      var block := cipher.encrypt(key, XorBlock(first, previous));
      CbcRoundTrip(cipher, key, block, plain[BLOCK..]);
      var encrypted := CbcEncrypt(cipher, key, previous, plain);
      assert encrypted[..BLOCK] == block && encrypted[BLOCK..] == CbcEncrypt(cipher, key, block, plain[BLOCK..]);
      XorBlockInvolution(first, previous);
      assert first + plain[BLOCK..] == plain;
    }
  }

  // ---------------------------------------------------------------- the container

  /** What a plaintext must be to be accepted: signature, a size that fits, and the hash of exactly that body. */
  ghost predicate Genuine(hash: Hash, plain: seq<Byte>, body: seq<Byte>) {
    && |plain| >= 16
    && plain[8..16] == SIGNATURE
    && SignedValue(plain[..8]) == |body|
    && 16 + |body| + HASH <= |plain|
    && plain[16..16 + |body|] == body
    && plain[16 + |body|..16 + |body| + HASH] == hash(body)
  }

  /** The plaintext of a file, when it has one. */
  ghost function PlainOf(hash: Hash, cipher: Cipher, data: seq<Byte>): Option<seq<Byte>>
    requires forall k, b :: |b| == BLOCK ==> |cipher.decrypt(k, b)| == BLOCK
  {
    if |data| < 32 || |data| % BLOCK != 0 then None
    else Some(CbcDecrypt(cipher, KeyFor(hash, data[16..32]), data[..16], data[32..]))
  }

  /** Parse a decrypted container. Every slice is in range and no sum overflows, whatever size the header claims. */
  method OpenPlain(hash: Hash, plain: seq<Byte>, usizeMax: nat) returns (r: Result<seq<Byte>, ContainerError>)
    requires Hashes(hash) && |plain| <= usizeMax
    ensures r.Ok? ==> Genuine(hash, plain, r.value)
    ensures r.Err? ==> forall body :: !Genuine(hash, plain, body)
  {
    if |plain| < 16 {
      return Err(PlainTooSmall);
    }
    var size := SignedValue(plain[..8]);
    if plain[8..16] != SIGNATURE {
      return Err(BadSignature);
    }
    if size < 0 {
      return Err(NegativeSize);
    }
    if size > usizeMax {
      return Err(SizeOverflow);
    }
    if 16 + size > usizeMax {
      return Err(SizeOverflow);
    }
    var bodyEnd := 16 + size;
    if bodyEnd + HASH > usizeMax {
      return Err(SizeOverflow);
    }
    var hashEnd := bodyEnd + HASH;
    if hashEnd > |plain| {
      return Err(TruncatedData);
    }
    var body := plain[16..bodyEnd];
    if hash(body) != plain[bodyEnd..hashEnd] {
      return Err(HashMismatch);
    }
    return Ok(body);
  }

  /** Decrypt a file: accepted exactly when its plaintext is genuine, and then the output is that body. */
  method DecryptFile(
      hash: Hash, cipher: Cipher, data: seq<Byte>, usizeMax: nat) returns (r: Result<seq<Byte>, ContainerError>)
    requires Hashes(hash) && |data| <= usizeMax
    requires forall k, b :: |b| == BLOCK ==> |cipher.decrypt(k, b)| == BLOCK
    ensures r.Ok? ==> PlainOf(hash, cipher, data).Some? && Genuine(hash, PlainOf(hash, cipher, data).value, r.value)
    ensures r.Err? && PlainOf(hash, cipher, data).Some? ==>
              forall body :: !Genuine(hash, PlainOf(hash, cipher, data).value, body)
    ensures |data| < 32 ==> r == Err(FileTooSmall)
  {
    if |data| < 32 {
      return Err(FileTooSmall);
    }
    var iv, salt, encrypted := data[..16], data[16..32], data[32..];
    var key := Pbkdf1(hash, PASSWORD, salt, ITERATIONS, KEY_LENGTH);
    if |encrypted| % BLOCK != 0 {
      return Err(DecryptionFailed);
    }
    var plain := CbcDecrypt(cipher, key, iv, encrypted);
    r := OpenPlain(hash, plain, usizeMax);
  }

  /** The plaintext a packer writes: size, signature, body, hash, and filler up to the block boundary. */
  function PackPlain(hash: Hash, body: seq<Byte>, filler: seq<Byte>): seq<Byte> {
    LittleEndian(|body|, 8) + SIGNATURE + body + hash(body) + filler
  }

  ghost function Pack(
      hash: Hash, cipher: Cipher, iv: seq<Byte>, salt: seq<Byte>, body: seq<Byte>, filler: seq<Byte>): seq<Byte>
    requires Deciphers(cipher) && |iv| == 16 && |PackPlain(hash, body, filler)| % BLOCK == 0
  {
    iv + salt + CbcEncrypt(cipher, KeyFor(hash, salt), iv, PackPlain(hash, body, filler))
  }

  lemma PackedIsGenuine(hash: Hash, body: seq<Byte>, filler: seq<Byte>)
    requires Hashes(hash) && |body| < I64_LIMIT
    ensures Genuine(hash, PackPlain(hash, body, filler), body)
  {
    hide LittleEndian, LittleEndianValue;
    var plain := PackPlain(hash, body, filler);
    assert Pow256(4) == 0x1_0000_0000;
    assert Pow256(8) == 2 * I64_LIMIT;
    LittleEndianRoundTrip(|body|, 8);
    assert plain[..8] == LittleEndian(|body|, 8);
    assert plain[8..16] == SIGNATURE;
    assert plain[16..16 + |body|] == body;
    assert plain[16 + |body|..16 + |body| + HASH] == hash(body);
  }

  /** A plaintext is genuine for at most one body. */
  lemma GenuineUnique(hash: Hash, plain: seq<Byte>, a: seq<Byte>, b: seq<Byte>)
    requires Genuine(hash, plain, a) && Genuine(hash, plain, b)
    ensures a == b
  {
  }

  /** Opening inverts packing: the packed file's plaintext is genuine for its body and for no other. */
  lemma PackRoundTrip(hash: Hash, cipher: Cipher, iv: seq<Byte>, salt: seq<Byte>, body: seq<Byte>, filler: seq<Byte>)
    requires Hashes(hash) && Deciphers(cipher) && |iv| == 16 && |salt| == 16 && |body| < I64_LIMIT
    requires |PackPlain(hash, body, filler)| % BLOCK == 0
    ensures var data := Pack(hash, cipher, iv, salt, body, filler);
            && PlainOf(hash, cipher, data).Some?
            && Genuine(hash, PlainOf(hash, cipher, data).value, body)
            && forall other :: Genuine(hash, PlainOf(hash, cipher, data).value, other) ==> other == body
  {
    hide PackPlain, CbcEncrypt, CbcDecrypt, KeyFor, Genuine;
    var plain := PackPlain(hash, body, filler);
    var key := KeyFor(hash, salt);
    var data := Pack(hash, cipher, iv, salt, body, filler);
    CbcRoundTrip(cipher, key, iv, plain);
    assert data[..16] == iv && data[16..32] == salt && data[32..] == CbcEncrypt(cipher, key, iv, plain);
    PackedIsGenuine(hash, body, filler);
    forall other | Genuine(hash, plain, other) ensures other == body {
      GenuineUnique(hash, plain, other, body);
    }
  }

  /** Any packed file opens to its body. */
  method OpenPacked(
      hash: Hash, cipher: Cipher, ghost iv: seq<Byte>, ghost salt: seq<Byte>, ghost body: seq<Byte>,
      ghost filler: seq<Byte>, data: seq<Byte>, usizeMax: nat)
    returns (r: Result<seq<Byte>, ContainerError>)
    requires Hashes(hash) && Deciphers(cipher) && |iv| == 16 && |salt| == 16 && |body| < I64_LIMIT
    requires |PackPlain(hash, body, filler)| % BLOCK == 0
    requires data == Pack(hash, cipher, iv, salt, body, filler) && |data| <= usizeMax
    ensures r == Ok(body)
  {
    PackRoundTrip(hash, cipher, iv, salt, body, filler);
    r := DecryptFile(hash, cipher, data, usizeMax);
  }
}
