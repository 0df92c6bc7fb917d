/**
 Cache keys: the streaming FNV-1a hasher, the byte stream a scan cache key
 feeds to it, and the text a parse cache key hashes.

 Two facts matter to the cache. The hash loses nothing that a single byte could
 hide: every step permutes the 64-bit states. And the bytes fed to it say which
 key they came from: no two keys feed the same stream, and none feeds a proper
 prefix of another's.
 */
module CacheKey {
  import opened Common

  const TWO_64: nat := 0x1_0000_0000_0000_0000
  const TWO_128: nat := 0x1_0000_0000_0000_0000_0000_0000_0000_0000

  /** The bytes of a UTF-8 string or a file; a length always fits in 64 bits. */
  type Byte = n: int | 0 <= n < 256
  type Bytes = b: seq<Byte> | |b| < TWO_64
  type U64 = n: int | 0 <= n < TWO_64
  type U128 = n: int | 0 <= n < TWO_128

  datatype Context = Context(
    chokkinVersion: Bytes, configHash: Bytes, manifestHash: Bytes, targetVersion: Bytes, unitVersion: Bytes)

  datatype SourceFingerprint = SourceFingerprint(
    path: Bytes, size: U64, modifiedNs: Option<U128>, fileId: Option<U64>, changeNs: Option<U128>, contentHash: Bytes)

  type Fingerprints = f: seq<SourceFingerprint> | |f| < TWO_64

  datatype ScanCacheKey = ScanCacheKey(context: Context, config: Fingerprints, manifest: Fingerprints)

  function Pow(base: nat, width: nat): nat {
    if width == 0 then 1 else base * Pow(base, width - 1)
  }

  lemma PowersOfTwo()
    ensures Pow(256, 8) == Pow(16, 16) == Pow(2, 64) == TWO_64 && Pow(256, 16) == TWO_128
  {
    PowSquares(2, 2);
    PowSquares(2, 4);
    PowSquares(2, 8);
    PowSquares(2, 16);
    PowSquares(2, 32);
    PowSquares(16, 2);
    PowSquares(16, 4);
    PowSquares(16, 8);
    PowSquares(256, 2);
    PowSquares(256, 4);
    PowSquares(256, 8);
  }

  lemma {:induction false} PowAdds(base: nat, a: nat, b: nat)
    ensures Pow(base, a + b) == Pow(base, a) * Pow(base, b)
  {
    if a > 0 {
      PowAdds(base, a - 1, b);
      assert Pow(base, a + b) == base * Pow(base, a - 1 + b);
      assert base * (Pow(base, a - 1) * Pow(base, b)) == (base * Pow(base, a - 1)) * Pow(base, b);
    }
  }

  lemma PowSquares(base: nat, a: nat)
    ensures Pow(base, 2 * a) == Pow(base, a) * Pow(base, a)
  {
    PowAdds(base, a, a);
  }

  // ---------------------------------------------------------------- FNV-1a

  const FNV_OFFSET: U64 := 0xcbf2_9ce4_8422_2325
  const FNV_PRIME: nat := 0x0000_0100_0000_01b3
  /** The prime is odd, so it has an inverse modulo 2^64. */
  const FNV_PRIME_INVERSE: nat := 0xce96_5057_aff6_957b

  /** Bitwise exclusive or of two numbers of `width` bits. */
  function Xor(a: nat, b: nat, width: nat): (x: nat)
    ensures x < Pow(2, width)
  {
    if width == 0 then 0 else (if a % 2 == b % 2 then 0 else 1) + 2 * Xor(a / 2, b / 2, width - 1)
  }

  /** `state ^ u64::from(byte)` */
  function XorByte(state: U64, byte: Byte): U64 {
    PowersOfTwo();
    Xor(state, byte, 64)
  }

  function WrappingMul(x: U64, y: nat): U64 {
    (x * y) % TWO_64
  }

  function Step(state: U64, byte: Byte): U64 {
    WrappingMul(XorByte(state, byte), FNV_PRIME)
  }

  function Unstep(state: U64, byte: Byte): U64 {
    XorByte(WrappingMul(state, FNV_PRIME_INVERSE), byte)
  }

  function Absorb(state: U64, bytes: seq<Byte>): U64
    decreases |bytes|
  {
    if bytes == [] then state else Absorb(Step(state, bytes[0]), bytes[1..])
  }

  lemma {:induction false} XorCancels(a: nat, b: nat, width: nat)
    requires a < Pow(2, width)
    ensures Xor(Xor(a, b, width), b, width) == a
  {
    if width > 0 {
      HalvesOf(if a % 2 == b % 2 then 0 else 1, Xor(a / 2, b / 2, width - 1));
      XorCancels(a / 2, b / 2, width - 1);
    }
  }

  lemma HalvesOf(bit: nat, rest: nat)
    requires bit < 2
    ensures (bit + 2 * rest) / 2 == rest && (bit + 2 * rest) % 2 == bit
  {
  }

  lemma {:induction false} XorCommutes(a: nat, b: nat, width: nat)
    ensures Xor(a, b, width) == Xor(b, a, width)
  {
    if width > 0 {
      XorCommutes(a / 2, b / 2, width - 1);
    }
  }

  lemma {:induction false} PowIsPositive(base: nat, width: nat)
    requires base > 0
    ensures Pow(base, width) > 0
  {
    if width > 0 {
      PowIsPositive(base, width - 1);
    }
  }

  /** The bit of weight 2^i. */
  function Bit(x: nat, i: nat): nat {
    PowIsPositive(2, i);
    x / Pow(2, i) % 2
  }

  lemma MulByNext(g: nat, a: nat)
    ensures g * (a + 1) == g * a + g
  {
  }

  lemma MulIsMonotone(g: nat, a: nat, b: nat)
    requires a <= b
    ensures g * a <= g * b
  {
  }

  lemma QuotientIs(x: nat, d: nat, q: nat, r: nat)
    requires x == d * q + r && r < d
    ensures x / d == q
  {
    var y := x / d;
    assert x == d * y + x % d;
    if y < q {
      MulIsMonotone(d, y + 1, q);
      MulByNext(d, y);
    } else if q < y {
      MulIsMonotone(d, q + 1, y);
      MulByNext(d, q);
    }
  }

  lemma TwiceProduct(p: nat, q: nat)
    ensures 2 * (p * q) == (2 * p) * q
  {
  }

  lemma BitOfHalf(x: nat, i: nat)
    requires i > 0
    ensures Bit(x, i) == Bit(x / 2, i - 1)
  {
    PowIsPositive(2, i - 1);
    var p := Pow(2, i - 1);
    var q, r := x / 2 / p, x / 2 % p;
    assert x / 2 == p * q + r;
    TwiceProduct(p, q);
    QuotientIs(x, 2 * p, q, 2 * r + x % 2);
  }

  /** Bit for bit: 1 exactly where the two differ. */
  lemma {:induction false} XorDiffersBitwise(a: nat, b: nat, width: nat, i: nat)
    requires i < width
    ensures Bit(Xor(a, b, width), i) == if Bit(a, i) != Bit(b, i) then 1 else 0
  {
    var bit := if a % 2 == b % 2 then 0 else 1;
    var rest := Xor(a / 2, b / 2, width - 1);
    HalvesOf(bit, rest);
    assert Xor(a, b, width) == bit + 2 * rest;
    if i == 0 {
      assert Pow(2, 0) == 1;
    } else {
      BitOfHalf(Xor(a, b, width), i);
      BitOfHalf(a, i);
      BitOfHalf(b, i);
      XorDiffersBitwise(a / 2, b / 2, width - 1, i - 1);
    }
  }

  lemma XorByteCancels(state: U64, byte: Byte)
    ensures XorByte(XorByte(state, byte), byte) == state
  {
    PowersOfTwo();
    XorCancels(state, byte, 64);
  }

  lemma XorByteSeparates(state: U64, a: Byte, b: Byte)
    requires XorByte(state, a) == XorByte(state, b)
    ensures a == b
  {
    PowersOfTwo();
    XorCommutes(state, a, 64);
    XorCommutes(state, b, 64);
    XorCancels(a, state, 64);
    XorCancels(b, state, 64);
  }

  /** Multiplying by the prime and then by its inverse is the identity: the
      product of the two is 1 modulo 2^64. */
  lemma PrimeHasInverse(x: U64)
    ensures WrappingMul(WrappingMul(x, FNV_PRIME), FNV_PRIME_INVERSE) == x
    ensures WrappingMul(WrappingMul(x, FNV_PRIME_INVERSE), FNV_PRIME) == x
  {
    var p, i, m := FNV_PRIME, FNV_PRIME_INVERSE, TWO_64;
    var k := (p * i) / m;
    assert p * i == k * m + 1;
    var q := (x * p) / m;
    var r := (x * i) / m;
    ModOfMultiple(x * k - q * i, x, WrappingMul(x, p) * i);
    ModOfMultiple(x * k - r * p, x, WrappingMul(x, i) * p);
  }

  lemma ModOfMultiple(a: int, x: U64, v: int)
    requires v == a * TWO_64 + x
    ensures v % TWO_64 == x
  {
  }

  lemma StepIsBijective(state: U64, byte: Byte)
    ensures Unstep(Step(state, byte), byte) == state
    ensures Step(Unstep(state, byte), byte) == state
  {
    PrimeHasInverse(XorByte(state, byte));
    PrimeHasInverse(state);
    XorByteCancels(state, byte);
    XorByteCancels(WrappingMul(state, FNV_PRIME_INVERSE), byte);
  }

  lemma StepSeparatesBytes(state: U64, a: Byte, b: Byte)
    requires Step(state, a) == Step(state, b)
    ensures a == b
  {
    PrimeHasInverse(XorByte(state, a));
    PrimeHasInverse(XorByte(state, b));
    XorByteSeparates(state, a, b);
  }

  lemma {:induction false} AbsorbConcat(state: U64, a: seq<Byte>, b: seq<Byte>)
    ensures Absorb(state, a + b) == Absorb(Absorb(state, a), b)
    decreases |a|
  {
    if a == [] {
      assert a + b == b;
    } else {
      assert (a + b)[1..] == a[1..] + b;
      AbsorbConcat(Step(state, a[0]), a[1..], b);
    }
  }

  /** Hashing a fixed suffix never merges two states. */
  lemma {:induction false} AbsorbIsInjective(s: U64, t: U64, bytes: seq<Byte>)
    ensures Absorb(s, bytes) == Absorb(t, bytes) <==> s == t
    decreases |bytes|
  {
    if bytes != [] {
      AbsorbIsInjective(Step(s, bytes[0]), Step(t, bytes[0]), bytes[1..]);
      StepIsBijective(s, bytes[0]);
      StepIsBijective(t, bytes[0]);
    }
  }

  /** Every state is reached from exactly one state by hashing `bytes`. */
  lemma {:induction false} AbsorbIsOnto(t: U64, bytes: seq<Byte>) returns (s: U64)
    ensures Absorb(s, bytes) == t
    decreases |bytes|
  {
    if bytes == [] {
      s := t;
    } else {
      var u := AbsorbIsOnto(t, bytes[1..]);
      s := Unstep(u, bytes[0]);
      StepIsBijective(u, bytes[0]);
    }
  }

  // ------------------------------------------------------------- hex digits

  /** The ASCII code of a lowercase hex digit. */
  function HexDigit(n: nat): Byte
    requires n < 16
  {
    if n < 10 then 0x30 + n else 0x61 + (n - 10)
  }

  /** The lowest `width` hex digits of `v`, most significant first. */
  function Hex(v: nat, width: nat): (s: seq<Byte>)
    ensures |s| == width
  {
    if width == 0 then [] else Hex(v / 16, width - 1) + [HexDigit(v % 16)]
  }

  lemma {:induction false} HexIsInjective(v: nat, w: nat, width: nat)
    requires v < Pow(16, width) && w < Pow(16, width)
    requires Hex(v, width) == Hex(w, width)
    ensures v == w
  {
    if width > 0 {
      ConcatSplits(Hex(v / 16, width - 1), [HexDigit(v % 16)], Hex(w / 16, width - 1), [HexDigit(w % 16)]);
      assert [HexDigit(v % 16)][0] == [HexDigit(w % 16)][0];
      HexIsInjective(v / 16, w / 16, width - 1);
    }
  }

  function Hex16(v: U64): Bytes {
    Hex(v, 16)
  }

  lemma Hex16IsInjective(v: U64, w: U64)
    ensures Hex16(v) == Hex16(w) <==> v == w
  {
    if Hex16(v) == Hex16(w) {
      PowersOfTwo();
      HexIsInjective(v, w, 16);
    }
  }

  function StableHexHash(bytes: seq<Byte>): Bytes {
    Hex16(Absorb(FNV_OFFSET, bytes))
  }

  /** Changing one byte always changes the hash: no two equal-length inputs
      that differ in exactly one place collide. */
  lemma OneByteApartNeverCollides(before: seq<Byte>, x: Byte, y: Byte, after: seq<Byte>)
    requires x != y
    ensures StableHexHash(before + [x] + after) != StableHexHash(before + [y] + after)
  {
    var s := Absorb(FNV_OFFSET, before);
    forall b: Byte ensures Absorb(FNV_OFFSET, before + [b] + after) == Absorb(Step(s, b), after) {
      AbsorbConcat(FNV_OFFSET, before + [b], after);
      AbsorbConcat(FNV_OFFSET, before, [b]);
      assert Absorb(s, [b]) == Absorb(Step(s, b), []);
    }
    if Step(s, x) == Step(s, y) {
      StepSeparatesBytes(s, x, y);
    }
    AbsorbIsInjective(Step(s, x), Step(s, y), after);
    Hex16IsInjective(Absorb(Step(s, x), after), Absorb(Step(s, y), after));
  }

  // ------------------------------------------------------------ byte stream

  function LeBytes(n: nat, width: nat): (b: seq<Byte>)
    ensures |b| == width
  {
    if width == 0 then [] else [n % 256] + LeBytes(n / 256, width - 1)
  }

  function EncodeField(bytes: Bytes): seq<Byte> {
    LeBytes(|bytes|, 8) + bytes
  }

  function EncodeOptU128(value: Option<U128>): seq<Byte> {
    match value
    case Some(v) => [1] + LeBytes(v, 16)
    case None => [0]
  }

  function WidenId(value: Option<U64>): Option<U128> {
    match value
    case Some(v) => Some(v)
    case None => None
  }

  function EncodeContext(c: Context): seq<Byte> {
    EncodeField(c.chokkinVersion) + (EncodeField(c.configHash) + (EncodeField(c.manifestHash) +
      (EncodeField(c.targetVersion) + EncodeField(c.unitVersion))))
  }

  function EncodeFingerprint(f: SourceFingerprint): seq<Byte> {
    EncodeField(f.path) + (LeBytes(f.size, 8) + (EncodeOptU128(f.modifiedNs) +
      (EncodeOptU128(WidenId(f.fileId)) + (EncodeOptU128(f.changeNs) + EncodeField(f.contentHash)))))
  }

  function EncodeEach(fs: seq<SourceFingerprint>): seq<Byte> {
    if fs == [] then [] else EncodeFingerprint(fs[0]) + EncodeEach(fs[1..])
  }

  function EncodeFingerprints(heading: Bytes, fs: Fingerprints): seq<Byte> {
    EncodeField(heading) + (LeBytes(|fs|, 8) + EncodeEach(fs))
  }

  /** "config" and "manifest" in ASCII. */
  const CONFIG_LABEL: Bytes := [0x63, 0x6f, 0x6e, 0x66, 0x69, 0x67]
  const MANIFEST_LABEL: Bytes := [0x6d, 0x61, 0x6e, 0x69, 0x66, 0x65, 0x73, 0x74]

  /** Everything `ScanCacheKey::file_name` feeds to the hasher, in order. */
  function EncodeKey(k: ScanCacheKey): seq<Byte> {
    EncodeContext(k.context)
    + (EncodeFingerprints(CONFIG_LABEL, k.config) + EncodeFingerprints(MANIFEST_LABEL, k.manifest))
  }

  // Each `...Splits` lemma below says: an encoding followed by anything is
  // read back in one way only. Sequencing such encodings keeps the property.

  lemma ConcatSplits<T>(a: seq<T>, r: seq<T>, b: seq<T>, s: seq<T>)
    requires |a| == |b| && a + r == b + s
    ensures a == b && r == s
  {
    assert a == (a + r)[..|a|] && b == (b + s)[..|b|];
    assert r == (a + r)[|a|..] && s == (b + s)[|b|..];
  }

  lemma Reassociate3<T>(a: seq<T>, b: seq<T>, c: seq<T>, r: seq<T>)
    ensures (a + (b + c)) + r == a + (b + (c + r))
  {
    Reassociate(a, b + c, r);
    Reassociate(b, c, r);
  }

  lemma Reassociate6<T>(a: seq<T>, b: seq<T>, c: seq<T>, d: seq<T>, e: seq<T>, f: seq<T>, r: seq<T>)
    ensures (a + (b + (c + (d + (e + f))))) + r == a + (b + (c + (d + (e + (f + r)))))
  {
    Reassociate(a, b + (c + (d + (e + f))), r);
    Reassociate(b, c + (d + (e + f)), r);
    Reassociate(c, d + (e + f), r);
    Reassociate3(d, e, f, r);
  }

  lemma {:induction false} LeBytesIsInjective(n: nat, m: nat, width: nat)
    requires n < Pow(256, width) && m < Pow(256, width)
    requires LeBytes(n, width) == LeBytes(m, width)
    ensures n == m
  {
    if width > 0 {
      ConcatSplits([n % 256], LeBytes(n / 256, width - 1), [m % 256], LeBytes(m / 256, width - 1));
      assert [n % 256][0] == [m % 256][0];
      LeBytesIsInjective(n / 256, m / 256, width - 1);
    }
  }

  lemma U64Splits(n: U64, r: seq<Byte>, m: U64, s: seq<Byte>)
    requires LeBytes(n, 8) + r == LeBytes(m, 8) + s
    ensures n == m && r == s
  {
    ConcatSplits(LeBytes(n, 8), r, LeBytes(m, 8), s);
    PowersOfTwo();
    LeBytesIsInjective(n, m, 8);
  }

  lemma FieldSplits(a: Bytes, r: seq<Byte>, b: Bytes, s: seq<Byte>)
    requires EncodeField(a) + r == EncodeField(b) + s
    ensures a == b && r == s
  {
    assert EncodeField(a) + r == LeBytes(|a|, 8) + (a + r);
    assert EncodeField(b) + s == LeBytes(|b|, 8) + (b + s);
    U64Splits(|a|, a + r, |b|, b + s);
    ConcatSplits(a, r, b, s);
  }

  lemma OptU128Splits(a: Option<U128>, r: seq<Byte>, b: Option<U128>, s: seq<Byte>)
    requires EncodeOptU128(a) + r == EncodeOptU128(b) + s
    ensures a == b && r == s
  {
    var whole := EncodeOptU128(a) + r;
    assert whole[0] == EncodeOptU128(a)[0] == EncodeOptU128(b)[0];
    assert a.Some? <==> b.Some?;
    ConcatSplits(EncodeOptU128(a), r, EncodeOptU128(b), s);
    if a.Some? {
      assert EncodeOptU128(a)[1..] == LeBytes(a.value, 16);
      assert EncodeOptU128(b)[1..] == LeBytes(b.value, 16);
      PowersOfTwo();
      LeBytesIsInjective(a.value, b.value, 16);
    }
  }

  lemma ContextSplits(a: Context, r: seq<Byte>, b: Context, s: seq<Byte>)
    requires EncodeContext(a) + r == EncodeContext(b) + s
    ensures a == b && r == s
  {
    ghost var a5, b5 := EncodeField(a.unitVersion) + r, EncodeField(b.unitVersion) + s;
    ghost var a4, b4 := EncodeField(a.targetVersion) + a5, EncodeField(b.targetVersion) + b5;
    ghost var a3, b3 := EncodeField(a.manifestHash) + a4, EncodeField(b.manifestHash) + b4;
    ghost var a2, b2 := EncodeField(a.configHash) + a3, EncodeField(b.configHash) + b3;
    assert EncodeContext(a) + r == EncodeField(a.chokkinVersion) + a2;
    assert EncodeContext(b) + s == EncodeField(b.chokkinVersion) + b2;
    FieldSplits(a.chokkinVersion, a2, b.chokkinVersion, b2);
    FieldSplits(a.configHash, a3, b.configHash, b3);
    FieldSplits(a.manifestHash, a4, b.manifestHash, b4);
    FieldSplits(a.targetVersion, a5, b.targetVersion, b5);
    FieldSplits(a.unitVersion, r, b.unitVersion, s);
  }

  lemma FingerprintSplits(a: SourceFingerprint, r: seq<Byte>, b: SourceFingerprint, s: seq<Byte>)
    requires EncodeFingerprint(a) + r == EncodeFingerprint(b) + s
    ensures a == b && r == s
  {
    ghost var a6, b6 := EncodeField(a.contentHash) + r, EncodeField(b.contentHash) + s;
    ghost var a5, b5 := EncodeOptU128(a.changeNs) + a6, EncodeOptU128(b.changeNs) + b6;
    ghost var a4, b4 := EncodeOptU128(WidenId(a.fileId)) + a5, EncodeOptU128(WidenId(b.fileId)) + b5;
    ghost var a3, b3 := EncodeOptU128(a.modifiedNs) + a4, EncodeOptU128(b.modifiedNs) + b4;
    ghost var a2, b2 := LeBytes(a.size, 8) + a3, LeBytes(b.size, 8) + b3;
    Reassociate6(EncodeField(a.path), LeBytes(a.size, 8), EncodeOptU128(a.modifiedNs),
      EncodeOptU128(WidenId(a.fileId)), EncodeOptU128(a.changeNs), EncodeField(a.contentHash), r);
    Reassociate6(EncodeField(b.path), LeBytes(b.size, 8), EncodeOptU128(b.modifiedNs),
      EncodeOptU128(WidenId(b.fileId)), EncodeOptU128(b.changeNs), EncodeField(b.contentHash), s);
    FieldSplits(a.path, a2, b.path, b2);
    U64Splits(a.size, a3, b.size, b3);
    OptU128Splits(a.modifiedNs, a4, b.modifiedNs, b4);
    OptU128Splits(WidenId(a.fileId), a5, WidenId(b.fileId), b5);
    OptU128Splits(a.changeNs, a6, b.changeNs, b6);
    FieldSplits(a.contentHash, r, b.contentHash, s);
  }

  lemma {:induction false} EachSplits(a: seq<SourceFingerprint>, r: seq<Byte>, b: seq<SourceFingerprint>, s: seq<Byte>)
    requires |a| == |b| && EncodeEach(a) + r == EncodeEach(b) + s
    ensures a == b && r == s
  {
    if a == [] {
      assert EncodeEach(a) + r == r && EncodeEach(b) + s == s;
    } else {
      Reassociate(EncodeFingerprint(a[0]), EncodeEach(a[1..]), r);
      Reassociate(EncodeFingerprint(b[0]), EncodeEach(b[1..]), s);
      FingerprintSplits(a[0], EncodeEach(a[1..]) + r, b[0], EncodeEach(b[1..]) + s);
      EachSplits(a[1..], r, b[1..], s);
      assert a == [a[0]] + a[1..] && b == [b[0]] + b[1..];
    }
  }

  lemma FingerprintsSplit(heading: Bytes, a: Fingerprints, r: seq<Byte>, b: Fingerprints, s: seq<Byte>)
    requires EncodeFingerprints(heading, a) + r == EncodeFingerprints(heading, b) + s
    ensures a == b && r == s
  {
    ghost var a3, b3 := EncodeEach(a) + r, EncodeEach(b) + s;
    ghost var a2, b2 := LeBytes(|a|, 8) + a3, LeBytes(|b|, 8) + b3;
    Reassociate3(EncodeField(heading), LeBytes(|a|, 8), EncodeEach(a), r);
    Reassociate3(EncodeField(heading), LeBytes(|b|, 8), EncodeEach(b), s);
    FieldSplits(heading, a2, heading, b2);
    U64Splits(|a|, a3, |b|, b3);
    EachSplits(a, r, b, s);
  }

  /** The stream determines the key and where it ends: keys are uniquely
      decodable, and no key's stream is a proper prefix of another's. */
  lemma KeyStreamIsUniquelyDecodable(a: ScanCacheKey, r: seq<Byte>, b: ScanCacheKey, s: seq<Byte>)
    requires EncodeKey(a) + r == EncodeKey(b) + s
    ensures a == b && r == s
  {
    ghost var a3, b3 :=
      EncodeFingerprints(MANIFEST_LABEL, a.manifest) + r, EncodeFingerprints(MANIFEST_LABEL, b.manifest) + s;
    ghost var a2, b2 :=
      EncodeFingerprints(CONFIG_LABEL, a.config) + a3, EncodeFingerprints(CONFIG_LABEL, b.config) + b3;
    Reassociate3(EncodeContext(a.context), EncodeFingerprints(CONFIG_LABEL, a.config),
      EncodeFingerprints(MANIFEST_LABEL, a.manifest), r);
    Reassociate3(EncodeContext(b.context), EncodeFingerprints(CONFIG_LABEL, b.config),
      EncodeFingerprints(MANIFEST_LABEL, b.manifest), s);
    ContextSplits(a.context, a2, b.context, b2);
    FingerprintsSplit(CONFIG_LABEL, a.config, a3, b.config, b3);
    FingerprintsSplit(MANIFEST_LABEL, a.manifest, r, b.manifest, s);
  }

  /** The stream `stable_list_hash` hashes: length-prefixed values, no count. */
  function EncodeList(values: seq<Bytes>): seq<Byte> {
    if values == [] then [] else EncodeField(values[0]) + EncodeList(values[1..])
  }

  /** Even without a count, a list of values is determined by its stream, so two
      different lists (two orders of one list, say) never feed the same bytes. */
  lemma {:induction false} ListStreamIsInjective(a: seq<Bytes>, b: seq<Bytes>)
    requires EncodeList(a) == EncodeList(b)
    ensures a == b
  {
    if a != [] && b != [] {
      FieldSplits(a[0], EncodeList(a[1..]), b[0], EncodeList(b[1..]));
      ListStreamIsInjective(a[1..], b[1..]);
      assert a == [a[0]] + a[1..] && b == [b[0]] + b[1..];
    }
  }

  // -------------------------------------------------------------- the hasher

  /** The streaming hasher; each method absorbs exactly one encoded piece. */
  class CacheKeyHasher {
    var state: U64

    constructor ()
      ensures state == FNV_OFFSET
    {
      state := FNV_OFFSET;
    }

    method Write(bytes: seq<Byte>)
      modifies this
      ensures state == Absorb(old(state), bytes)
    {
      var i := 0;
      while i < |bytes|
        invariant 0 <= i <= |bytes|
        invariant Absorb(state, bytes[i..]) == Absorb(old(state), bytes)
      {
        assert bytes[i..][0] == bytes[i] && bytes[i..][1..] == bytes[i + 1..];
        state := XorByte(state, bytes[i]);
        state := WrappingMul(state, FNV_PRIME);
        i := i + 1;
      }
    }

    method Field(bytes: Bytes)
      modifies this
      ensures state == Absorb(old(state), EncodeField(bytes))
    {
      AbsorbConcat(state, LeBytes(|bytes|, 8), bytes);
      Write(LeBytes(|bytes|, 8));
      Write(bytes);
    }

    method FieldU64(value: U64)
      modifies this
      ensures state == Absorb(old(state), LeBytes(value, 8))
    {
      Write(LeBytes(value, 8));
    }

    method FieldOptU128(value: Option<U128>)
      modifies this
      ensures state == Absorb(old(state), EncodeOptU128(value))
    {
      match value {
        case Some(v) =>
          AbsorbConcat(state, [1], LeBytes(v, 16));
          Write([1]);
          Write(LeBytes(v, 16));
        case None =>
          Write([0]);
      }
    }

    method Fingerprint(f: SourceFingerprint)
      modifies this
      ensures state == Absorb(old(state), EncodeFingerprint(f))
    {
      ghost var e5 := EncodeOptU128(f.changeNs) + EncodeField(f.contentHash);
      ghost var e4 := EncodeOptU128(WidenId(f.fileId)) + e5;
      ghost var e3 := EncodeOptU128(f.modifiedNs) + e4;
      AbsorbConcat(state, EncodeField(f.path), LeBytes(f.size, 8) + e3);
      Field(f.path);
      AbsorbConcat(state, LeBytes(f.size, 8), e3);
      FieldU64(f.size);
      AbsorbConcat(state, EncodeOptU128(f.modifiedNs), e4);
      FieldOptU128(f.modifiedNs);
      AbsorbConcat(state, EncodeOptU128(WidenId(f.fileId)), e5);
      FieldOptU128(WidenId(f.fileId));
      AbsorbConcat(state, EncodeOptU128(f.changeNs), EncodeField(f.contentHash));
      FieldOptU128(f.changeNs);
      Field(f.contentHash);
    }

    method HashFingerprints(heading: Bytes, fs: Fingerprints)
      modifies this
      ensures state == Absorb(old(state), EncodeFingerprints(heading, fs))
    {
      AbsorbConcat(state, EncodeField(heading), LeBytes(|fs|, 8) + EncodeEach(fs));
      Field(heading);
      AbsorbConcat(state, LeBytes(|fs|, 8), EncodeEach(fs));
      FieldU64(|fs|);
      ghost var start := state;
      for i := 0 to |fs|
        invariant Absorb(state, EncodeEach(fs[i..])) == Absorb(start, EncodeEach(fs))
      {
        assert fs[i..][1..] == fs[i + 1..];
        AbsorbConcat(state, EncodeFingerprint(fs[i]), EncodeEach(fs[i + 1..]));
        Fingerprint(fs[i]);
      }
      assert fs[|fs|..] == [];
    }

    method HashContext(c: Context)
      modifies this
      ensures state == Absorb(old(state), EncodeContext(c))
    {
      ghost var e4 := EncodeField(c.targetVersion) + EncodeField(c.unitVersion);
      ghost var e3 := EncodeField(c.manifestHash) + e4;
      AbsorbConcat(state, EncodeField(c.chokkinVersion), EncodeField(c.configHash) + e3);
      Field(c.chokkinVersion);
      AbsorbConcat(state, EncodeField(c.configHash), e3);
      Field(c.configHash);
      AbsorbConcat(state, EncodeField(c.manifestHash), e4);
      Field(c.manifestHash);
      AbsorbConcat(state, EncodeField(c.targetVersion), EncodeField(c.unitVersion));
      Field(c.targetVersion);
      Field(c.unitVersion);
    }
  }

  /** ".json" in ASCII. */
  const JSON_SUFFIX: seq<Byte> := [0x2e, 0x6a, 0x73, 0x6f, 0x6e]

  function FileName(k: ScanCacheKey): Bytes {
    StableHexHash(EncodeKey(k)) + JSON_SUFFIX
  }

  /** `ScanCacheKey::file_name`: streaming the parts hashes the whole stream. */
  method ComputeFileName(k: ScanCacheKey) returns (name: Bytes)
    ensures name == FileName(k)
  {
    var hasher := new CacheKeyHasher();
    ghost var tail := EncodeFingerprints(CONFIG_LABEL, k.config) + EncodeFingerprints(MANIFEST_LABEL, k.manifest);
    AbsorbConcat(hasher.state, EncodeContext(k.context), tail);
    hasher.HashContext(k.context);
    AbsorbConcat(hasher.state, EncodeFingerprints(CONFIG_LABEL, k.config),
      EncodeFingerprints(MANIFEST_LABEL, k.manifest));
    hasher.HashFingerprints(CONFIG_LABEL, k.config);
    hasher.HashFingerprints(MANIFEST_LABEL, k.manifest);
    name := Hex16(hasher.state) + JSON_SUFFIX;
  }

  /** Two keys share a file name exactly when they are equal or their streams,
      which then differ and neither starts the other, collide under FNV-1a. */
  lemma SharedFileNameIsAHashCollision(a: ScanCacheKey, b: ScanCacheKey)
    ensures FileName(a) == FileName(b) <==>
      a == b || (!(EncodeKey(a) <= EncodeKey(b)) && !(EncodeKey(b) <= EncodeKey(a)) &&
                 Absorb(FNV_OFFSET, EncodeKey(a)) == Absorb(FNV_OFFSET, EncodeKey(b)))
  {
    var x, y := EncodeKey(a), EncodeKey(b);
    ConcatSuffixInjective(StableHexHash(x), StableHexHash(y), JSON_SUFFIX);
    Hex16IsInjective(Absorb(FNV_OFFSET, x), Absorb(FNV_OFFSET, y));
    PrefixMeansEqual(a, b);
    PrefixMeansEqual(b, a);
  }

  /** No key's stream starts another's. */
  lemma PrefixMeansEqual(a: ScanCacheKey, b: ScanCacheKey)
    ensures EncodeKey(a) <= EncodeKey(b) <==> a == b
  {
    if EncodeKey(a) <= EncodeKey(b) {
      PrefixDecodes(a, b, PrefixRest(EncodeKey(a), EncodeKey(b)));
    }
  }

  lemma PrefixDecodes(a: ScanCacheKey, b: ScanCacheKey, rest: seq<Byte>)
    requires EncodeKey(a) + rest == EncodeKey(b)
    ensures a == b
  {
    assert EncodeKey(b) + [] == EncodeKey(b);
    KeyStreamIsUniquelyDecodable(a, rest, b, []);
  }

  function PrefixRest(x: seq<Byte>, y: seq<Byte>): (rest: seq<Byte>)
    requires x <= y
    ensures x + rest == y
  {
    y[|x|..]
  }

  lemma ConcatSuffixInjective(a: seq<Byte>, b: seq<Byte>, suffix: seq<Byte>)
    requires |a| == |b|
    ensures a + suffix == b + suffix <==> a == b
  {
    if a + suffix == b + suffix {
      ConcatSplits(a, suffix, b, suffix);
    }
  }

  // ---------------------------------------------------------- parse entry id

  const NEWLINE: Byte := 0x0a

  /** `n` in decimal, as ASCII digits. */
  function Decimal(n: nat): (s: seq<Byte>)
    ensures s != []
    ensures NEWLINE !in s
  {
    if n < 10 then [0x30 + n] else Decimal(n / 10) + [0x30 + n % 10]
  }

  function OptDecimal(value: Option<U128>): (s: seq<Byte>)
    ensures NEWLINE !in s
  {
    match value
    case Some(v) => Decimal(v)
    case None => []
  }

  function Line(before: seq<Byte>, next: seq<Byte>): seq<Byte> {
    before + [NEWLINE] + next
  }

  /** The text `ParseCacheKey::entry_id` hashes: the fields joined by newlines. */
  function EntryText(f: SourceFingerprint): seq<Byte> {
    Line(Line(Line(Line(Line(f.path, Decimal(f.size)), OptDecimal(f.modifiedNs)), OptDecimal(WidenId(f.fileId))),
      OptDecimal(f.changeNs)), f.contentHash)
  }

  lemma {:induction false} DecimalIsInjective(n: nat, m: nat)
    requires Decimal(n) == Decimal(m)
    ensures n == m
  {
    assert Decimal(n)[|Decimal(n)| - 1] == 0x30 + n % 10;
    assert Decimal(m)[|Decimal(m)| - 1] == 0x30 + m % 10;
    if n >= 10 && m >= 10 {
      ConcatSplits(Decimal(n / 10), [0x30 + n % 10], Decimal(m / 10), [0x30 + m % 10]);
      DecimalIsInjective(n / 10, m / 10);
    }
  }

  lemma OptDecimalIsInjective(a: Option<U128>, b: Option<U128>)
    requires OptDecimal(a) == OptDecimal(b)
    ensures a == b
  {
    if a.Some? && b.Some? {
      DecimalIsInjective(a.value, b.value);
    }
  }

  /** The last newline splits the text, whatever comes before it. */
  lemma LastLineSplits(a: seq<Byte>, x: seq<Byte>, b: seq<Byte>, y: seq<Byte>)
    requires NEWLINE !in x && NEWLINE !in y
    requires Line(a, x) == Line(b, y)
    ensures a == b && x == y
  {
    var t := Line(a, x);
    assert t[|a|] == NEWLINE && t[|b|] == NEWLINE;
    assert forall i :: |a| < i < |t| ==> t[i] == x[i - |a| - 1] && t[i] in x;
    assert forall i :: |b| < i < |t| ==> t[i] == y[i - |b| - 1] && t[i] in y;
    ConcatSplits(a + [NEWLINE], x, b + [NEWLINE], y);
    ConcatSplits(a, [NEWLINE], b, [NEWLINE]);
  }

  /** The hashed text is read back from the right, so it determines the
      fingerprint even when the path holds newlines. */
  lemma EntryTextIsInjective(a: SourceFingerprint, b: SourceFingerprint)
    requires NEWLINE !in a.contentHash && NEWLINE !in b.contentHash
    requires EntryText(a) == EntryText(b)
    ensures a == b
  {
    ghost var a1, b1 := Line(a.path, Decimal(a.size)), Line(b.path, Decimal(b.size));
    ghost var a2, b2 := Line(a1, OptDecimal(a.modifiedNs)), Line(b1, OptDecimal(b.modifiedNs));
    ghost var a3, b3 := Line(a2, OptDecimal(WidenId(a.fileId))), Line(b2, OptDecimal(WidenId(b.fileId)));
    ghost var a4, b4 := Line(a3, OptDecimal(a.changeNs)), Line(b3, OptDecimal(b.changeNs));
    LastLineSplits(a4, a.contentHash, b4, b.contentHash);
    LastLineSplits(a3, OptDecimal(a.changeNs), b3, OptDecimal(b.changeNs));
    LastLineSplits(a2, OptDecimal(WidenId(a.fileId)), b2, OptDecimal(WidenId(b.fileId)));
    LastLineSplits(a1, OptDecimal(a.modifiedNs), b1, OptDecimal(b.modifiedNs));
    LastLineSplits(a.path, Decimal(a.size), b.path, Decimal(b.size));
    OptDecimalIsInjective(a.changeNs, b.changeNs);
    OptDecimalIsInjective(WidenId(a.fileId), WidenId(b.fileId));
    OptDecimalIsInjective(a.modifiedNs, b.modifiedNs);
    DecimalIsInjective(a.size, b.size);
  }
}
