/**
 Readers of what the cache keys write: published digests, printed numbers, and a
 decoder of key streams that returns every key it is fed.
 */
module KeyReader {
  import opened Common
  import opened CacheKey

  // ------------------------------------------------------- published digests

  lemma {:induction false} XorWithZero(a: nat, width: nat)
    requires a < Pow(2, width)
    ensures Xor(a, 0, width) == a
  {
    if width > 0 {
      XorWithZero(a / 2, width - 1);
    }
  }

  /** One more bit at the low end. */
  lemma XorStep(a: nat, b: nat, halfA: nat, halfB: nat, width: nat, half: nat, x: nat)
    requires 2 * halfA <= a < 2 * halfA + 2 && 2 * halfB <= b < 2 * halfB + 2 && Xor(halfA, halfB, width) == half
    requires x == 2 * half + if a - 2 * halfA == b - 2 * halfB then 0 else 1
    ensures Xor(a, b, width + 1) == x
  {
    HalvesOf(a - 2 * halfA, halfA);
    HalvesOf(b - 2 * halfB, halfB);
  }

  /** A number below 2^k leaves the bits from `k` on alone. */
  lemma {:induction false} XorKeepsTheHighBits(high: nat, low: nat, b: nat, k: nat, width: nat)
    requires high < Pow(2, width) && low < Pow(2, k) && b < Pow(2, k)
    ensures Xor(Pow(2, k) * high + low, b, k + width) == Pow(2, k) * high + Xor(low, b, k)
  {
    if k == 0 {
      XorWithZero(high, width);
    } else {
      var a := Pow(2, k) * high + low;
      assert Pow(2, k) * high == 2 * (Pow(2, k - 1) * high);
      HalvesOf(low % 2, Pow(2, k - 1) * high + low / 2);
      assert a == low % 2 + 2 * (Pow(2, k - 1) * high + low / 2);
      XorKeepsTheHighBits(high, low / 2, b / 2, k - 1, width);
    }
  }

  /** 0x25 ^ 0x61, bit by bit. */
  lemma XorOfLowBytes(width: nat)
    requires width == 7
    ensures Xor(0x25, 0x61, width) == 0x44
  {
    XorStep(0, 1, 0, 0, width - 7, 0, 1);
    XorStep(1, 3, 0, 1, width - 6, 1, 2);
    XorStep(2, 6, 1, 3, width - 5, 2, 4);
    XorStep(4, 12, 2, 6, width - 4, 4, 8);
    XorStep(9, 24, 4, 12, width - 3, 8, 17);
    XorStep(18, 48, 9, 24, width - 2, 17, 34);
    XorStep(37, 97, 18, 48, width - 1, 34, 68);
  }

  lemma PowersHere()
    ensures Pow(2, 7) == 128 && Pow(2, 57) == 0x200_0000_0000_0000
  {
    PowersOfTwo();
    PowAdds(2, 3, 4);
    PowAdds(2, 7, 57);
  }

  /** 0xcbf29ce484222325 ^ 0x61 */
  lemma XorOfOffsetAndA(k: nat, width: nat)
    requires k == 7 && width == 57
    ensures Xor(0xcbf2_9ce4_8422_2325, 0x61, k + width) == 0xcbf2_9ce4_8422_2344
  {
    PowersHere();
    XorOfLowBytes(k);
    XorKeepsTheHighBits(0x197e539c9084446, 0x25, 0x61, k, width);
  }

  /** The product, with its quotient by 2^64. */
  lemma ProductOfA(x: U64, y: nat)
    requires x == 0xcbf2_9ce4_8422_2344 && y == 0x100_0000_01b3
    ensures WrappingMul(x, y) == 0xaf63_dc4c_8601_ec8c
  {
    ModOfMultiple(0xcbf29ce5de, 0xaf63_dc4c_8601_ec8c, x * y);
  }

  lemma HashOfA(a: seq<Byte>)
    requires a == [0x61]
    ensures Absorb(FNV_OFFSET, a) == 0xaf63_dc4c_8601_ec8c
  {
    XorOfOffsetAndA(7, 57);
    ProductOfA(XorByte(FNV_OFFSET, 0x61), FNV_PRIME);
    AbsorbOne(FNV_OFFSET, 0x61, 0xaf63_dc4c_8601_ec8c, a);
  }

  lemma AbsorbOne(state: U64, byte: Byte, next: U64, bytes: seq<Byte>)
    requires WrappingMul(XorByte(state, byte), FNV_PRIME) == next && bytes == [byte]
    ensures Absorb(state, bytes) == next
  {
    assert bytes[1..] == [];
  }

  predicate IsHex(ds: seq<nat>) {
    forall i :: 0 <= i < |ds| ==> ds[i] < 16
  }

  function Codes(ds: seq<nat>): seq<Byte>
    requires IsHex(ds)
  {
    seq(|ds|, i requires 0 <= i < |ds| && IsHex(ds) => HexDigit(ds[i]))
  }

  lemma OneDigit(high: nat, d: nat, width: nat)
    requires d < 16
    ensures Hex(high * 16 + d, width + 1) == Hex(high, width) + [HexDigit(d)]
  {
  }

  /** `v` is `high` and four more hex digits, those from `at` on. */
  predicate IsQuad(high: nat, v: nat, ds: seq<nat>, at: nat) {
    && IsHex(ds) && at + 4 <= |ds|
    && v == high * 65536 + ds[at] * 4096 + ds[at + 1] * 256 + ds[at + 2] * 16 + ds[at + 3]
  }

  lemma NextDigit(high: nat, v: nat, ds: seq<nat>, at: nat)
    requires IsHex(ds) && at < |ds| && v == high * 16 + ds[at] && Hex(high, at) == Codes(ds[..at])
    ensures Hex(v, at + 1) == Codes(ds[..at + 1])
  {
    OneDigit(high, ds[at], at);
    MoreCodes(ds, at);
  }

  lemma Quad(high: nat, v: nat, ds: seq<nat>, at: nat)
    requires IsQuad(high, v, ds, at) && Hex(high, at) == Codes(ds[..at])
    ensures Hex(v, at + 4) == Codes(ds[..at + 4])
  {
    var x := high * 16 + ds[at];
    var y := x * 16 + ds[at + 1];
    var z := y * 16 + ds[at + 2];
    NextDigit(high, x, ds, at);
    NextDigit(x, y, ds, at + 1);
    NextDigit(y, z, ds, at + 2);
    NextDigit(z, v, ds, at + 3);
  }

  lemma MoreCodes(ds: seq<nat>, n: nat)
    requires IsHex(ds) && n < |ds|
    ensures Codes(ds[..n + 1]) == Codes(ds[..n]) + [HexDigit(ds[n])]
  {
  }

  lemma Sixteen(a: nat, b: nat, c: nat, v: U64, ds: seq<nat>)
    requires |ds| == 16
    requires IsQuad(0, a, ds, 0) && IsQuad(a, b, ds, 4) && IsQuad(b, c, ds, 8) && IsQuad(c, v, ds, 12)
    ensures Hex16(v) == Codes(ds)
  {
    var none: nat := 0;
    Quad(0, a, ds, none);
    Quad(a, b, ds, none + 4);
    Quad(b, c, ds, none + 8);
    Quad(c, v, ds, none + 12);
    assert ds[..16] == ds;
  }

  /** The hash of nothing, as the repository fixes it, and the published FNV-1a
      digest of "a". */
  lemma PublishedDigests(nothing: seq<Byte>, a: seq<Byte>)
    requires nothing == [] && a == [0x61]
    ensures StableHexHash(nothing) ==
      [0x63, 0x62, 0x66, 0x32, 0x39, 0x63, 0x65, 0x34, 0x38, 0x34, 0x32, 0x32, 0x32, 0x33, 0x32, 0x35]
    ensures StableHexHash(a) ==
      [0x61, 0x66, 0x36, 0x33, 0x64, 0x63, 0x34, 0x63, 0x38, 0x36, 0x30, 0x31, 0x65, 0x63, 0x38, 0x63]
  {
    var ds: seq<nat> := [0xc, 0xb, 0xf, 0x2, 0x9, 0xc, 0xe, 0x4, 0x8, 0x4, 0x2, 0x2, 0x2, 0x3, 0x2, 0x5];
    CodesOfNothing(ds);
    DigitsOfNothing(Absorb(FNV_OFFSET, nothing), ds);
    var es: seq<nat> := [0xa, 0xf, 0x6, 0x3, 0xd, 0xc, 0x4, 0xc, 0x8, 0x6, 0x0, 0x1, 0xe, 0xc, 0x8, 0xc];
    HashOfA(a);
    CodesOfA(es);
    DigitsOfA(Absorb(FNV_OFFSET, a), es);
  }

  lemma CodesOfNothing(ds: seq<nat>)
    requires ds == [0xc, 0xb, 0xf, 0x2, 0x9, 0xc, 0xe, 0x4, 0x8, 0x4, 0x2, 0x2, 0x2, 0x3, 0x2, 0x5]
    ensures IsHex(ds) && Codes(ds) ==
      [0x63, 0x62, 0x66, 0x32, 0x39, 0x63, 0x65, 0x34, 0x38, 0x34, 0x32, 0x32, 0x32, 0x33, 0x32, 0x35]
  {
  }

  lemma DigitsOfNothing(v: U64, ds: seq<nat>)
    requires v == 0xcbf2_9ce4_8422_2325
    requires ds == [0xc, 0xb, 0xf, 0x2, 0x9, 0xc, 0xe, 0x4, 0x8, 0x4, 0x2, 0x2, 0x2, 0x3, 0x2, 0x5]
    ensures IsHex(ds) && Hex16(v) == Codes(ds)
  {
    Sixteen(0xcbf2, 0xcbf2_9ce4, 0xcbf2_9ce4_8422, v, ds);
  }

  lemma CodesOfA(ds: seq<nat>)
    requires ds == [0xa, 0xf, 0x6, 0x3, 0xd, 0xc, 0x4, 0xc, 0x8, 0x6, 0x0, 0x1, 0xe, 0xc, 0x8, 0xc]
    ensures IsHex(ds) && Codes(ds) ==
      [0x61, 0x66, 0x36, 0x33, 0x64, 0x63, 0x34, 0x63, 0x38, 0x36, 0x30, 0x31, 0x65, 0x63, 0x38, 0x63]
  {
  }

  lemma DigitsOfA(v: U64, ds: seq<nat>)
    requires v == 0xaf63_dc4c_8601_ec8c
    requires ds == [0xa, 0xf, 0x6, 0x3, 0xd, 0xc, 0x4, 0xc, 0x8, 0x6, 0x0, 0x1, 0xe, 0xc, 0x8, 0xc]
    ensures IsHex(ds) && Hex16(v) == Codes(ds)
  {
    Sixteen(0xaf63, 0xaf63_dc4c, 0xaf63_dc4c_8601, v, ds);
  }

  // ------------------------------------------------- the words and the numbers

  function Code(c: char): Byte {
    c as int % 256
  }

  /** The codes of ASCII characters. */
  function Ascii(s: string): seq<Byte> {
    seq(|s|, i requires 0 <= i < |s| => Code(s[i]))
  }

  /** The words the cache writes. */
  lemma WordsAre()
    ensures CONFIG_LABEL == Ascii("config")
    ensures MANIFEST_LABEL == Ascii("manifest")
    ensures JSON_SUFFIX == Ascii(".json")
  {
  }

  /** The digit an ASCII code stands for, in lower case. */
  function DigitOf(code: Byte): int {
    if 0x30 <= code <= 0x39 then code - 0x30
    else if 0x61 <= code <= 0x66 then code - 0x57
    else -1
  }

  function NumberIn(base: nat, codes: seq<Byte>): int {
    if codes == [] then 0
    else base * NumberIn(base, codes[..|codes| - 1]) + DigitOf(codes[|codes| - 1])
  }

  ghost predicate AreDigits(base: nat, codes: seq<Byte>) {
    forall i :: 0 <= i < |codes| ==> 0 <= DigitOf(codes[i]) < base
  }

  /** A hex print reads back, in lower-case digits. */
  lemma {:induction false} HexReadsBack(v: nat, width: nat)
    requires v < Pow(16, width)
    ensures AreDigits(16, Hex(v, width)) && NumberIn(16, Hex(v, width)) == v
  {
    if width > 0 {
      HexReadsBack(v / 16, width - 1);
      assert Hex(v, width)[..width - 1] == Hex(v / 16, width - 1);
    }
  }

  /** So does a decimal print, which has no leading zero. */
  lemma {:induction false} DecimalReadsBack(n: nat)
    ensures AreDigits(10, Decimal(n)) && NumberIn(10, Decimal(n)) == n
    ensures n > 0 ==> Decimal(n)[0] != 0x30
  {
    if n < 10 {
      assert Decimal(n)[..0] == [];
    } else {
      DecimalReadsBack(n / 10);
      assert Decimal(n)[..|Decimal(n)| - 1] == Decimal(n / 10);
    }
  }

  function Lines(ls: seq<seq<Byte>>): seq<Byte> {
    if ls == [] then []
    else if |ls| == 1 then ls[0]
    else ls[0] + [0x0a] + Lines(ls[1..])
  }

  function Decimals(value: Option<U128>): seq<Byte> {
    if value.Some? then Decimal(value.value) else []
  }

  /** The first two lines may be taken as one. */
  lemma TwoLinesAreOne(x: seq<Byte>, y: seq<Byte>, rest: seq<seq<Byte>>)
    ensures Lines([x] + ([y] + rest)) == Lines([Line(x, y)] + rest)
  {
    var more, two, one := [y] + rest, [x] + ([y] + rest), [Line(x, y)] + rest;
    assert two[1..] == more && more[1..] == rest && one[1..] == rest;
    assert Lines(two) == x + [NEWLINE] + Lines(more);
    if rest == [] {
      assert Lines(more) == y;
    } else {
      FoldLine(x, y, Lines(rest));
    }
  }

  lemma FoldLine(x: seq<Byte>, y: seq<Byte>, z: seq<Byte>)
    ensures x + [NEWLINE] + (y + [NEWLINE] + z) == Line(x, y) + [NEWLINE] + z
  {
  }

  lemma SixLines(a: seq<Byte>, b: seq<Byte>, c: seq<Byte>, d: seq<Byte>, e: seq<Byte>, f: seq<Byte>)
    ensures Lines([a] + ([b] + ([c] + ([d] + ([e] + ([f] + [])))))) == Line(Line(Line(Line(Line(a, b), c), d), e), f)
  {
    TwoLinesAreOne(a, b, [c] + ([d] + ([e] + ([f] + []))));
    TwoLinesAreOne(Line(a, b), c, [d] + ([e] + ([f] + [])));
    TwoLinesAreOne(Line(Line(a, b), c), d, [e] + ([f] + []));
    TwoLinesAreOne(Line(Line(Line(a, b), c), d), e, [f] + []);
    TwoLinesAreOne(Line(Line(Line(Line(a, b), c), d), e), f, []);
  }

  /** The hashed entry text: six lines, those of absent values empty. */
  lemma EntryTextIsSixLines(f: SourceFingerprint)
    ensures EntryText(f) == Lines(
      [f.path] + ([Decimal(f.size)] + ([Decimals(f.modifiedNs)] + ([Decimals(WidenId(f.fileId))] +
      ([Decimals(f.changeNs)] + ([f.contentHash] + []))))))
  {
    SixLines(f.path, Decimal(f.size), Decimals(f.modifiedNs), Decimals(WidenId(f.fileId)), Decimals(f.changeNs),
      f.contentHash);
  }

  // ---------------------------------------------------- a reader of key streams

  datatype Read<+T> = Failed | Got(value: T, rest: seq<Byte>)

  function LeValue(bytes: seq<Byte>): nat {
    if bytes == [] then 0 else bytes[0] + 256 * LeValue(bytes[1..])
  }

  function ReadNumber(s: seq<Byte>, width: nat): Read<nat> {
    if |s| < width then Failed else Got(LeValue(s[..width]), s[width..])
  }

  function ReadBytes(s: seq<Byte>): Read<Bytes> {
    match ReadNumber(s, 8)
    case Failed => Failed
    case Got(n, rest) => if n < TWO_64 && n <= |rest| then Got(rest[..n], rest[n..]) else Failed
  }

  function ReadU64(s: seq<Byte>): Read<U64> {
    match ReadNumber(s, 8)
    case Failed => Failed
    case Got(n, rest) => if n < TWO_64 then Got(n, rest) else Failed
  }

  function ReadOption(s: seq<Byte>): Read<Option<U128>> {
    if s == [] then Failed
    else if s[0] == 0 then Got(None, s[1..])
    else if s[0] == 1 then
      match ReadNumber(s[1..], 16)
      case Failed => Failed
      case Got(n, rest) => if n < TWO_128 then Got(Some(n), rest) else Failed
    else Failed
  }

  function NarrowId(value: Option<U128>): Option<U64> {
    if value.Some? && value.value < TWO_64 then Some(value.value) else None
  }

  /** All of a fingerprint after the size. */
  datatype Stamps = Stamps(modified: Option<U128>, id: Option<U128>, change: Option<U128>, hash: Bytes)

  function ReadStamps(s: seq<Byte>): Read<Stamps> {
    match ReadOption(s)
    case Failed => Failed
    case Got(modified, s1) =>
    match ReadOption(s1)
    case Failed => Failed
    case Got(id, s2) =>
    match ReadOption(s2)
    case Failed => Failed
    case Got(change, s3) =>
    match ReadBytes(s3)
    case Failed => Failed
    case Got(hash, rest) => Got(Stamps(modified, id, change, hash), rest)
  }

  function ReadFingerprint(s: seq<Byte>): Read<SourceFingerprint> {
    match ReadBytes(s)
    case Failed => Failed
    case Got(path, s1) =>
    match ReadU64(s1)
    case Failed => Failed
    case Got(size, s2) =>
    match ReadStamps(s2)
    case Failed => Failed
    case Got(at, rest) =>
      Got(SourceFingerprint(path, size, at.modified, NarrowId(at.id), at.change, at.hash), rest)
  }

  function ReadEach(s: seq<Byte>, n: nat): Read<seq<SourceFingerprint>> {
    if n == 0 then Got([], s)
    else
      match ReadFingerprint(s)
      case Failed => Failed
      case Got(f, s1) =>
        match ReadEach(s1, n - 1)
        case Failed => Failed
        case Got(fs, rest) => Got([f] + fs, rest)
  }

  /** A list under its word. */
  function ReadList(word: string, s: seq<Byte>): Read<Fingerprints> {
    match ReadBytes(s)
    case Failed => Failed
    case Got(heading, s1) =>
      if heading != Ascii(word) then Failed
      else
        match ReadU64(s1)
        case Failed => Failed
        case Got(n, s2) =>
          match ReadEach(s2, n)
          case Failed => Failed
          case Got(fs, rest) => if |fs| < TWO_64 then Got(fs, rest) else Failed
  }

  function ReadContext(s: seq<Byte>): Read<Context> {
    match ReadBytes(s)
    case Failed => Failed
    case Got(chokkin, s1) =>
    match ReadBytes(s1)
    case Failed => Failed
    case Got(config, s2) =>
    match ReadBytes(s2)
    case Failed => Failed
    case Got(manifest, s3) =>
    match ReadBytes(s3)
    case Failed => Failed
    case Got(target, s4) =>
    match ReadBytes(s4)
    case Failed => Failed
    case Got(unit, rest) => Got(Context(chokkin, config, manifest, target, unit), rest)
  }

  function ReadKey(s: seq<Byte>): Read<ScanCacheKey> {
    match ReadContext(s)
    case Failed => Failed
    case Got(context, s1) =>
    match ReadList("config", s1)
    case Failed => Failed
    case Got(config, s2) =>
    match ReadList("manifest", s2)
    case Failed => Failed
    case Got(manifest, rest) => Got(ScanCacheKey(context, config, manifest), rest)
  }

  lemma {:induction false} LeBytesReadBack(n: nat, width: nat)
    requires n < Pow(256, width)
    ensures LeValue(LeBytes(n, width)) == n
  {
    if width > 0 {
      LeBytesReadBack(n / 256, width - 1);
      assert LeBytes(n, width)[1..] == LeBytes(n / 256, width - 1);
    }
  }

  lemma NumberReads(n: nat, width: nat, r: seq<Byte>)
    requires n < Pow(256, width)
    ensures ReadNumber(LeBytes(n, width) + r, width) == Got(n, r)
  {
    LeBytesReadBack(n, width);
    assert (LeBytes(n, width) + r)[..width] == LeBytes(n, width);
  }

  lemma U64Reads(n: U64, r: seq<Byte>)
    ensures ReadU64(LeBytes(n, 8) + r) == Got(n, r)
  {
    PowersOfTwo();
    NumberReads(n, 8, r);
  }

  lemma FieldReads(bytes: Bytes, r: seq<Byte>)
    ensures ReadBytes(EncodeField(bytes) + r) == Got(bytes, r)
  {
    PowersOfTwo();
    Reassociate(LeBytes(|bytes|, 8), bytes, r);
    NumberReads(|bytes|, 8, bytes + r);
    assert (bytes + r)[..|bytes|] == bytes && (bytes + r)[|bytes|..] == r;
  }

  lemma OptionReads(value: Option<U128>, r: seq<Byte>)
    ensures ReadOption(EncodeOptU128(value) + r) == Got(value, r)
  {
    PowersOfTwo();
    match value {
      case Some(v) =>
        Reassociate([1], LeBytes(v, 16), r);
        NumberReads(v, 16, r);
        assert (EncodeOptU128(value) + r)[1..] == LeBytes(v, 16) + r;
      case None =>
        assert (EncodeOptU128(value) + r)[1..] == r;
    }
  }

  function EncodeStamps(f: SourceFingerprint): seq<Byte> {
    EncodeOptU128(f.modifiedNs) +
      (EncodeOptU128(WidenId(f.fileId)) + (EncodeOptU128(f.changeNs) + EncodeField(f.contentHash)))
  }

  lemma Reassociate4<T>(a: seq<T>, b: seq<T>, c: seq<T>, d: seq<T>, r: seq<T>)
    ensures (a + (b + (c + d))) + r == a + (b + (c + (d + r)))
  {
    Reassociate(a, b + (c + d), r);
    Reassociate(b, c + d, r);
    Reassociate(c, d, r);
  }

  lemma StampsRead(f: SourceFingerprint, r: seq<Byte>)
    ensures ReadStamps(EncodeStamps(f) + r) ==
      Got(Stamps(f.modifiedNs, WidenId(f.fileId), f.changeNs, f.contentHash), r)
  {
    var a, b, c := EncodeOptU128(f.modifiedNs), EncodeOptU128(WidenId(f.fileId)), EncodeOptU128(f.changeNs);
    var r3 := EncodeField(f.contentHash) + r;
    Reassociate4(a, b, c, EncodeField(f.contentHash), r);
    OptionReads(f.modifiedNs, b + (c + r3));
    OptionReads(WidenId(f.fileId), c + r3);
    OptionReads(f.changeNs, r3);
    FieldReads(f.contentHash, r);
  }

  lemma FingerprintStep(s: seq<Byte>, path: Bytes, s1: seq<Byte>, size: U64, s2: seq<Byte>, at: Stamps, r: seq<Byte>)
    requires ReadBytes(s) == Got(path, s1) && ReadU64(s1) == Got(size, s2) && ReadStamps(s2) == Got(at, r)
    ensures ReadFingerprint(s) ==
      Got(SourceFingerprint(path, size, at.modified, NarrowId(at.id), at.change, at.hash), r)
  {
  }

  lemma IdNarrows(id: Option<U64>)
    ensures NarrowId(WidenId(id)) == id
  {
  }

  lemma FingerprintIs(f: SourceFingerprint)
    ensures EncodeFingerprint(f) == EncodeField(f.path) + (LeBytes(f.size, 8) + EncodeStamps(f))
  {
  }

  lemma Sizes(size: U64, stamps: seq<Byte>, r: seq<Byte>, path: seq<Byte>) returns (s1: seq<Byte>)
    ensures ReadU64(s1) == Got(size, stamps + r)
    ensures (path + (LeBytes(size, 8) + stamps)) + r == path + s1
  {
    s1 := LeBytes(size, 8) + (stamps + r);
    U64Reads(size, stamps + r);
    Reassociate(path, LeBytes(size, 8) + stamps, r);
    Reassociate(LeBytes(size, 8), stamps, r);
  }

  lemma FingerprintReads(f: SourceFingerprint, r: seq<Byte>)
    ensures ReadFingerprint(EncodeFingerprint(f) + r) == Got(f, r)
  {
    var s1 := Sizes(f.size, EncodeStamps(f), r, EncodeField(f.path));
    FingerprintIs(f);
    FieldReads(f.path, s1);
    StampsRead(f, r);
    var at := Stamps(f.modifiedNs, WidenId(f.fileId), f.changeNs, f.contentHash);
    FingerprintStep(EncodeFingerprint(f) + r, f.path, s1, f.size, EncodeStamps(f) + r, at, r);
    IdNarrows(f.fileId);
  }

  lemma EachStep(f: SourceFingerprint, s: seq<Byte>, s1: seq<Byte>, fs: seq<SourceFingerprint>, rest: seq<Byte>)
    requires ReadFingerprint(s) == Got(f, s1) && ReadEach(s1, |fs|) == Got(fs, rest)
    ensures ReadEach(s, |fs| + 1) == Got([f] + fs, rest)
  {
  }

  /** A list of fingerprints reads back one after the other. */
  lemma {:induction false} EachReads(fs: seq<SourceFingerprint>, r: seq<Byte>)
    ensures ReadEach(EncodeEach(fs) + r, |fs|) == Got(fs, r)
  {
    if fs == [] {
      assert [] + r == r;
    } else {
      var first, more := EncodeFingerprint(fs[0]), EncodeEach(fs[1..]);
      EachReads(fs[1..], r);
      FirstReads(fs[0], first, more, r);
      EachStep(fs[0], first + more + r, more + r, fs[1..], r);
      assert EncodeEach(fs) == first + more && [fs[0]] + fs[1..] == fs;
    }
  }

  lemma FirstReads(f: SourceFingerprint, first: seq<Byte>, more: seq<Byte>, r: seq<Byte>)
    requires first == EncodeFingerprint(f)
    ensures ReadFingerprint(first + more + r) == Got(f, more + r)
  {
    Reassociate(first, more, r);
    FingerprintReads(f, more + r);
  }

  lemma ListReads(heading: Bytes, word: string, fs: Fingerprints, r: seq<Byte>)
    requires heading == Ascii(word)
    ensures ReadList(word, EncodeFingerprints(heading, fs) + r) == Got(fs, r)
  {
    var r1 := EncodeEach(fs) + r;
    Reassociate(EncodeField(heading), LeBytes(|fs|, 8) + EncodeEach(fs), r);
    Reassociate(LeBytes(|fs|, 8), EncodeEach(fs), r);
    FieldReads(heading, LeBytes(|fs|, 8) + r1);
    U64Reads(|fs|, r1);
    EachReads(fs, r);
  }

  lemma ContextReads(c: Context, r: seq<Byte>)
    ensures ReadContext(EncodeContext(c) + r) == Got(c, r)
  {
    var r4 := EncodeField(c.unitVersion) + r;
    var r3 := EncodeField(c.targetVersion) + r4;
    var r2 := EncodeField(c.manifestHash) + r3;
    var r1 := EncodeField(c.configHash) + r2;
    Reassociate4(EncodeField(c.chokkinVersion), EncodeField(c.configHash), EncodeField(c.manifestHash),
      EncodeField(c.targetVersion) + EncodeField(c.unitVersion), r);
    Reassociate(EncodeField(c.targetVersion), EncodeField(c.unitVersion), r);
    FieldReads(c.chokkinVersion, r1);
    FieldReads(c.configHash, r2);
    FieldReads(c.manifestHash, r3);
    FieldReads(c.targetVersion, r4);
    FieldReads(c.unitVersion, r);
  }

  /** Every key's stream, whatever follows it, reads back as the key. */
  lemma KeyReadsBack(k: ScanCacheKey, r: seq<Byte>)
    ensures ReadKey(EncodeKey(k) + r) == Got(k, r)
  {
    var r2 := EncodeFingerprints(MANIFEST_LABEL, k.manifest) + r;
    var r1 := EncodeFingerprints(CONFIG_LABEL, k.config) + r2;
    Reassociate(EncodeContext(k.context),
      EncodeFingerprints(CONFIG_LABEL, k.config) + EncodeFingerprints(MANIFEST_LABEL, k.manifest), r);
    Reassociate(EncodeFingerprints(CONFIG_LABEL, k.config), EncodeFingerprints(MANIFEST_LABEL, k.manifest), r);
    WordsAre();
    ContextReads(k.context, r1);
    ListReads(CONFIG_LABEL, "config", k.config, r2);
    ListReads(MANIFEST_LABEL, "manifest", k.manifest, r);
  }
}
