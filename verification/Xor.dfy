/** Repeating-key XOR obfuscation, and the proxy configuration packed into an IPv6 address. */
module Xor {
  import opened Arith
  import opened Bytes

  // ---- XOR on bytes ----

  /** Exclusive or of the low `n` bits. */
  function XorBits(a: nat, b: nat, n: nat): (r: nat)
    ensures r < Pow2(n)
  {
    if n == 0 then 0 else 2 * XorBits(a / 2, b / 2, n - 1) + (a % 2 + b % 2) % 2
  }

  function XorByte(a: byte, b: byte): (r: byte)
  {
    SmallPowers();
    XorBits(a, b, 8)
  }

  /** Bit `i` of `x`, from the low end. */
  function Bit(x: nat, i: nat): (b: nat)
  {
    if i == 0 then x % 2 else Bit(x / 2, i - 1)
  }

  /** Bit by bit, it is the exclusive or. */
  lemma {:induction false} XorBitAt(a: nat, b: nat, n: nat, i: nat)
    requires i < n
    ensures Bit(XorBits(a, b, n), i) == (Bit(a, i) + Bit(b, i)) % 2
  {
    LowBit(XorBits(a / 2, b / 2, n - 1), a, b);
    if i > 0 {
      XorBitAt(a / 2, b / 2, n - 1, i - 1);
    }
  }

  /** A number is told by its bits, each 0 or 1. */
  lemma {:induction false} SameBits(x: nat, y: nat, n: nat)
    requires x < Pow2(n) && y < Pow2(n)
    requires forall i | 0 <= i < n :: Bit(x, i) == Bit(y, i)
    ensures x == y
  {
    if n > 0 {
      PowSucc(n - 1);
      forall i | 0 <= i < n - 1
        ensures Bit(x / 2, i) == Bit(y / 2, i)
      {
        assert Bit(x, i + 1) == Bit(y, i + 1);
      }
      SameBits(x / 2, y / 2, n - 1);
      assert Bit(x, 0) == Bit(y, 0);
    }
  }

  lemma LowBit(y: nat, a: nat, b: nat)
    ensures var x := 2 * y + (a % 2 + b % 2) % 2;
            x / 2 == y && x % 2 == (a % 2 + b % 2) % 2
  {
  }

  lemma {:induction false} XorTwice(a: nat, b: nat, n: nat)
    requires a < Pow2(n)
    ensures XorBits(XorBits(a, b, n), b, n) == a
  {
    if n > 0 {
      PowSucc(n - 1);
      hide Pow2;
      XorTwice(a / 2, b / 2, n - 1);
      var x, y := XorBits(a, b, n), XorBits(a / 2, b / 2, n - 1);
      BitTwice(y, a % 2, b % 2);
      assert x == 2 * y + (a % 2 + b % 2) % 2;
      assert XorBits(x, b, n) == 2 * XorBits(y, b / 2, n - 1) + a % 2;
    }
  }

  lemma BitTwice(y: nat, p: nat, q: nat)
    requires p < 2 && q < 2
    ensures var x := 2 * y + (p + q) % 2;
            x / 2 == y && (x % 2 + q) % 2 == p
  {
  }

  // ---- Keys ----

  datatype ConfigError = UnknownProxyType(ty: nat) | XorV1Unsupported | InvalidPort(port: nat) | EmptyXorKey

  /** Six bytes, of which the first `len` are the key and the rest are zero. */
  datatype XorKey = XorKey(data: bytes, len: nat)

  predicate ValidKey(k: XorKey) {
    && |k.data| == 6 && 1 <= k.len <= 6
    && (forall i | 0 <= i < k.len :: k.data[i] != 0)
    && (forall i | k.len <= i < 6 :: k.data[i] == 0)
  }

  function KeyData(k: XorKey): (s: bytes)
    requires ValidKey(k)
    ensures |s| == k.len
  {
    k.data[..k.len]
  }

  /** Where the first zero is, or the length. */
  function FirstZero(s: bytes): (n: nat)
    ensures n <= |s| && (n < |s| ==> s[n] == 0) && forall i | 0 <= i < n :: s[i] != 0
  {
    if s == [] || s[0] == 0 then 0 else 1 + FirstZero(s[1..])
  }

  function Zeros(n: nat): (s: bytes)
    ensures |s| == n && forall i | 0 <= i < n :: s[i] == 0
  {
    if n == 0 then [] else [0] + Zeros(n - 1)
  }

  /** A key from its padded form; a zero byte ends it, and what follows is forgotten. */
  function KeyFrom(s: bytes): (r: Result<XorKey, ConfigError>)
    requires |s| == 6
    ensures if s[0] == 0 then r == Err(EmptyXorKey) else r.Ok?
    ensures r.Ok? ==> ValidKey(r.value) && r.value.len == FirstZero(s) && KeyData(r.value) == s[..r.value.len]
  {
    var n := FirstZero(s);
    if n == 0 then Err(EmptyXorKey) else Ok(XorKey(s[..n] + Zeros(6 - n), n))
  }

  /** The padded form of a key gives the key back. */
  lemma KeyRoundTrip(k: XorKey)
    requires ValidKey(k)
    ensures KeyFrom(k.data) == Ok(k)
  {
    var n := FirstZero(k.data);
    assert n < 6 ==> k.data[n] == 0;
    assert k.len < 6 ==> k.data[k.len] == 0;
    assert n == k.len;
    assert k.data[..n] + Zeros(6 - n) == k.data;
  }

  // ---- The keystream ----

  /** The key byte in use at a position of the stream. */
  function KeyPos(pos: nat, n: nat): (k: nat)
    requires n > 0
    ensures k < n
  {
    pos % n
  }

  /** `s` under the keystream from position `pos` on. */
  function Xored(s: bytes, key: bytes, pos: nat): (r: bytes)
    requires key != []
    ensures |r| == |s|
  {
    if s == [] then [] else [XorByte(s[0], key[KeyPos(pos, |key|)])] + Xored(s[1..], key, pos + 1)
  }

  /** The chunks of a stream, one after the other under one keystream. */
  function XoredChunks(chunks: seq<bytes>, key: bytes, pos: nat): (r: seq<bytes>)
    requires key != []
  {
    if chunks == [] then [] else [Xored(chunks[0], key, pos)] + XoredChunks(chunks[1..], key, pos + |chunks[0]|)
  }

  class XorObfuscator {
    const key: XorKey
    var keyIndex: nat

    ghost predicate Valid()
      reads this
    {
      ValidKey(key) && keyIndex < key.len
    }

    constructor (key: XorKey)
      requires ValidKey(key)
      ensures Valid() && this.key == key && keyIndex == 0
    {
      this.key := key;
      keyIndex := 0;
    }

    /** XORs the buffer in place and moves along the keystream. */
    method Obfuscate(buffer: array<byte>)
      requires Valid()
      modifies this, buffer
      ensures Valid()
      ensures buffer[..] == Xored(old(buffer[..]), KeyData(key), old(keyIndex))
      ensures keyIndex == KeyPos(old(keyIndex) + buffer.Length, key.len)
    {
      var keyData := KeyData(key);
      hide Xored, XorByte, ValidKey, KeyPos;
      ghost var s := buffer[..];
      ghost var start := keyIndex;
      WithinKey(start, key.len);
      for i := 0 to buffer.Length
        invariant keyIndex == KeyPos(start + i, |keyData|)
        invariant forall j | 0 <= j < i :: buffer[j] == XorByte(s[j], keyData[KeyPos(start + j, |keyData|)])
        invariant forall j | i <= j < buffer.Length :: buffer[j] == s[j]
      {
        ModStep(start + i, |keyData|);
        buffer[i] := XorByte(buffer[i], keyData[KeyPos(keyIndex, |keyData|)]);
        keyIndex := KeyPos(keyIndex + 1, |keyData|);
      }
      IsXored(s, buffer[..], keyData, start);
    }
  }

  /** Byte by byte, what the keystream does. */
  lemma {:induction false} IsXored(s: bytes, r: bytes, key: bytes, pos: nat)
    requires key != [] && |r| == |s|
    requires forall j | 0 <= j < |s| :: r[j] == XorByte(s[j], key[KeyPos(pos + j, |key|)])
    ensures r == Xored(s, key, pos)
  {
    hide KeyPos, XorByte;
    if s != [] {
      forall j | 0 <= j < |s[1..]|
        ensures r[1..][j] == XorByte(s[1..][j], key[KeyPos(pos + 1 + j, |key|)])
      {
        assert r[j + 1] == XorByte(s[j + 1], key[KeyPos(pos + (j + 1), |key|)]);
      }
      IsXored(s[1..], r[1..], key, pos + 1);
      assert r[0] == XorByte(s[0], key[KeyPos(pos + 0, |key|)]);
      assert r == [r[0]] + r[1..];
    }
  }

  lemma WithinKey(k: nat, n: nat)
    requires k < n
    ensures KeyPos(k, n) == k
  {
  }

  lemma ModStep(x: nat, n: nat)
    requires n > 0
    ensures KeyPos(KeyPos(x, n) + 1, n) == KeyPos(x + 1, n) && KeyPos(KeyPos(x, n), n) == KeyPos(x, n)
  {
    var q, r := x / n, x % n;
    assert x == n * q + r;
    DivUnique(r, n, 0);
    if r + 1 < n {
      DivUnique(r + 1, n, 0);
      DivUnique(x + 1, n, q);
    } else {
      DivUnique(r + 1, n, 1);
      assert x + 1 == n * (q + 1);
      DivUnique(x + 1, n, q + 1);
    }
  }

  lemma {:induction false} XoredConcat(a: bytes, b: bytes, key: bytes, pos: nat)
    requires key != []
    ensures Xored(a + b, key, pos) == Xored(a, key, pos) + Xored(b, key, pos + |a|)
  {
    if a == [] {
      assert a + b == b;
    } else {
      assert (a + b)[1..] == a[1..] + b;
      XoredConcat(a[1..], b, key, pos + 1);
    }
  }

  /** Chunk by chunk or all at once, the stream comes out the same. */
  lemma {:induction false} ChunkingIsIrrelevant(chunks: seq<bytes>, key: bytes, pos: nat)
    requires key != []
    ensures Flatten(XoredChunks(chunks, key, pos)) == Xored(Flatten(chunks), key, pos)
  {
    if chunks != [] {
      ChunkingIsIrrelevant(chunks[1..], key, pos + |chunks[0]|);
      XoredConcat(chunks[0], Flatten(chunks[1..]), key, pos);
    }
  }

  /** Only the position within the key matters. */
  lemma {:induction false} KeystreamRepeats(s: bytes, key: bytes, pos: nat)
    requires key != []
    ensures Xored(s, key, KeyPos(pos, |key|)) == Xored(s, key, pos)
  {
    hide KeyPos, XorByte;
    if s != [] {
      ModStep(pos, |key|);
      KeystreamRepeats(s[1..], key, KeyPos(pos, |key|) + 1);
      KeystreamRepeats(s[1..], key, pos + 1);
    }
  }

  /** One direction of a relayed connection: a fresh obfuscator, then each chunk as it comes. */
  method PumpObfuscated(key: XorKey, chunks: seq<bytes>) returns (out: seq<bytes>)
    requires ValidKey(key)
    ensures out == XoredChunks(chunks, KeyData(key), 0)
    ensures Flatten(out) == Xored(Flatten(chunks), KeyData(key), 0)
  {
    var keyData := KeyData(key);
    ChunkingIsIrrelevant(chunks, keyData, 0);
    WithinKey(0, |keyData|);
    hide Xored, ValidKey, KeyPos, Flatten, XoredChunks;
    assert chunks[0..] == chunks;
    var obfuscator := new XorObfuscator(key);
    out := [];
    ghost var pos: nat := 0;
    for i := 0 to |chunks|
      invariant obfuscator.Valid() && obfuscator.key == key && fresh(obfuscator)
      invariant obfuscator.keyIndex == KeyPos(pos, |keyData|)
      invariant XoredChunks(chunks, keyData, 0) == out + XoredChunks(chunks[i..], keyData, pos)
    {
      var chunk := ObfuscateChunk(obfuscator, chunks[i], pos);
      ChunksRound(chunks, i, keyData, pos);
      out := out + [chunk];
      pos := pos + |chunks[i]|;
    }
    assert chunks[|chunks|..] == [];
    assert XoredChunks([], keyData, pos) == [] by {
      NoChunks(keyData, pos);
    }
  }

  lemma ChunksRound(chunks: seq<bytes>, i: nat, key: bytes, pos: nat)
    requires key != [] && i < |chunks|
    ensures XoredChunks(chunks[i..], key, pos) ==
            [Xored(chunks[i], key, pos)] + XoredChunks(chunks[i + 1..], key, pos + |chunks[i]|)
  {
    assert chunks[i..][1..] == chunks[i + 1..];
  }

  lemma NoChunks(key: bytes, pos: nat)
    requires key != []
    ensures XoredChunks([], key, pos) == []
  {
  }

  /** One chunk of the relayed stream, `pos` bytes in. */
  method ObfuscateChunk(obfuscator: XorObfuscator, chunk: bytes, ghost pos: nat) returns (out: bytes)
    requires obfuscator.Valid() && obfuscator.keyIndex == KeyPos(pos, obfuscator.key.len)
    modifies obfuscator
    ensures obfuscator.Valid() && obfuscator.keyIndex == KeyPos(pos + |chunk|, obfuscator.key.len)
    ensures out == Xored(chunk, KeyData(obfuscator.key), pos)
  {
    hide Xored, ValidKey, KeyPos;
    var buffer := new byte[|chunk|](j requires 0 <= j < |chunk| => chunk[j]);
    assert buffer[..] == chunk;
    KeystreamRepeats(chunk, KeyData(obfuscator.key), pos);
    ModSum(pos, |chunk|, obfuscator.key.len);
    obfuscator.Obfuscate(buffer);
    out := buffer[..];
  }

  lemma ModSum(x: nat, m: nat, n: nat)
    requires n > 0
    ensures KeyPos(KeyPos(x, n) + m, n) == KeyPos(x + m, n)
  {
    var y := x % n;
    SumOfMultiples(x, m, n, x / n, y, (y + m) / n, (y + m) % n);
    ModOfMultiple(x + m, n, x / n + (y + m) / n, (y + m) % n);
  }

  lemma SumOfMultiples(x: nat, m: nat, n: nat, q: nat, y: nat, k: nat, r: nat)
    requires x == n * q + y && y + m == n * k + r
    ensures x + m == n * (q + k) + r
  {
    assert n * (q + k) == n * q + n * k;
  }

  lemma ModOfMultiple(z: nat, n: nat, q: nat, r: nat)
    requires r < n && z == n * q + r
    ensures z % n == r
  {
    assert n * (q + 1) == n * q + n;
    DivUnique(z, n, q);
  }

  lemma {:induction false} XoredTwice(s: bytes, key: bytes, pos: nat)
    requires key != []
    ensures Xored(Xored(s, key, pos), key, pos) == s
  {
    if s != [] {
      var k := key[KeyPos(pos, |key|)];
      SmallPowers();
      XorTwice(s[0], k, 8);
      XoredTwice(s[1..], key, pos + 1);
      assert s == [s[0]] + s[1..];
    }
  }

  /** Two obfuscators with one key cancel, however each side cuts the stream. */
  lemma ObfuscatorsCancel(sent: seq<bytes>, received: seq<bytes>, key: bytes)
    requires key != [] && Flatten(received) == Flatten(XoredChunks(sent, key, 0))
    ensures Flatten(XoredChunks(received, key, 0)) == Flatten(sent)
  {
    ChunkingIsIrrelevant(sent, key, 0);
    ChunkingIsIrrelevant(received, key, 0);
    XoredTwice(Flatten(sent), key, 0);
  }

  // ---- The configuration ----

  datatype ProxyConfig = ProxyConfig(ip: bytes, port: nat, obfuscation: Option<XorKey>)

  predicate ValidConfig(c: ProxyConfig) {
    |c.ip| == 4 && c.port < 65536 && (c.obfuscation.Some? ==> ValidKey(c.obfuscation.value))
  }

  function LittleEndian16(n: nat): (s: bytes)
    requires n < 65536
    ensures |s| == 2
  {
    [n % 256, n / 256]
  }

  function FromLittleEndian16(s: bytes): (n: nat)
    requires |s| == 2
    ensures n < 65536
  {
    s[0] as nat + 256 * (s[1] as nat)
  }

  function Packed(c: ProxyConfig, prefix: bytes): (octets: bytes)
    requires ValidConfig(c) && |prefix| == 2
    ensures |octets| == 16
  {
    var (ty, tail) := if c.obfuscation.None? then (0x01, Zeros(6)) else (0x03, c.obfuscation.value.data);
    prefix + LittleEndian16(ty) + c.ip + LittleEndian16(c.port) + tail
  }

  method CopyInto(octets: array<byte>, at: nat, s: bytes)
    requires at + |s| <= octets.Length
    modifies octets
    ensures octets[..] == old(octets[..at]) + s + old(octets[at + |s|..])
  {
    for i := 0 to |s|
      invariant octets[..] == old(octets[..at]) + s[..i] + old(octets[at + i..])
    {
      octets[at + i] := s[i];
    }
  }

  method ToIpv6(c: ProxyConfig, prefix: bytes) returns (ip: bytes)
    requires ValidConfig(c) && |prefix| == 2
    ensures ip == Packed(c, prefix)
  {
    var octets := new byte[16](_ => 0);
    CopyInto(octets, 0, prefix);
    var ty, tail := 0x01, Zeros(6);
    if c.obfuscation.Some? {
      ty, tail := 0x03, c.obfuscation.value.data;
    }
    CopyInto(octets, 2, LittleEndian16(ty));
    CopyInto(octets, 4, c.ip);
    CopyInto(octets, 8, LittleEndian16(c.port));
    CopyInto(octets, 10, tail);
    return octets[..];
  }

  function ParsePlain(data: bytes): (r: Result<ProxyConfig, ConfigError>)
    requires |data| == 12
  {
    var port := FromLittleEndian16(data[4..6]);
    if port == 0 then Err(InvalidPort(0)) else Ok(ProxyConfig(data[..4], port, None))
  }

  function ParseXor(data: bytes): (r: Result<ProxyConfig, ConfigError>)
    requires |data| == 12
  {
    var port := FromLittleEndian16(data[4..6]);
    if port == 0 then Err(InvalidPort(port))
    else
      match KeyFrom(data[6..])
      case Err(e) => Err(e)
      case Ok(key) => Ok(ProxyConfig(data[..4], port, Some(key)))
  }

  function Unpacked(octets: bytes): (r: Result<ProxyConfig, ConfigError>)
    requires |octets| == 16
  {
    var ty := FromLittleEndian16(octets[2..4]);
    if ty == 0x01 then ParsePlain(octets[4..])
    else if ty == 0x02 then Err(XorV1Unsupported)
    else if ty == 0x03 then ParseXor(octets[4..])
    else Err(UnknownProxyType(ty))
  }

  lemma LittleEndianRoundTrip(n: nat)
    requires n < 65536
    ensures FromLittleEndian16(LittleEndian16(n)) == n
  {
  }

  /** A plain address decodes exactly when its port is not zero, and to what it spells. */
  lemma PlainExact(octets: bytes)
    requires |octets| == 16 && FromLittleEndian16(octets[2..4]) == 0x01
    ensures Unpacked(octets) ==
            if octets[8] == 0 && octets[9] == 0 then Err(InvalidPort(0))
            else Ok(ProxyConfig(octets[4..8], FromLittleEndian16(octets[8..10]), None))
  {
    var data := octets[4..];
    assert data[4..6] == octets[8..10] && data[..4] == octets[4..8];
  }

  /** An obfuscated address also needs a key that does not start with zero. */
  lemma XorExact(octets: bytes)
    requires |octets| == 16 && FromLittleEndian16(octets[2..4]) == 0x03
    ensures Unpacked(octets) ==
            if octets[8] == 0 && octets[9] == 0 then Err(InvalidPort(0))
            else if octets[10] == 0 then Err(EmptyXorKey)
            else Ok(ProxyConfig(octets[4..8], FromLittleEndian16(octets[8..10]), Some(KeyFrom(octets[10..]).value)))
  {
    hide KeyFrom;
    var data := octets[4..];
    assert data[4..6] == octets[8..10] && data[..4] == octets[4..8] && data[6..] == octets[10..];
    assert octets[10..][0] == octets[10];
    ZeroPort(octets);
  }

  lemma FromThenLittleEndian(s: bytes)
    requires |s| == 2
    ensures LittleEndian16(FromLittleEndian16(s)) == s
  {
  }

  /** Where the parts of a packed configuration lie. */
  lemma PackedParts(c: ProxyConfig, prefix: bytes)
    requires ValidConfig(c) && |prefix| == 2
    ensures var octets := Packed(c, prefix);
            && octets[..2] == prefix && octets[4..8] == c.ip && octets[8..10] == LittleEndian16(c.port)
            && octets[2..4] == LittleEndian16(if c.obfuscation.None? then 0x01 else 0x03)
            && octets[10..] == if c.obfuscation.None? then Zeros(6) else c.obfuscation.value.data
  {
  }

  /** Under every prefix a configuration comes back from its address, exactly when its port is not zero. */
  lemma ConfigRoundTrip(c: ProxyConfig, prefix: bytes)
    requires ValidConfig(c) && |prefix| == 2
    ensures Unpacked(Packed(c, prefix)) == if c.port != 0 then Ok(c) else Err(InvalidPort(0))
  {
    var octets := Packed(c, prefix);
    PackedParts(c, prefix);
    LittleEndianRoundTrip(if c.obfuscation.None? then 0x01 else 0x03);
    LittleEndianRoundTrip(c.port);
    ZeroPort(octets);
    hide KeyFrom, ValidKey, Packed, Unpacked, LittleEndian16, FromLittleEndian16;
    if c.obfuscation.Some? {
      XorExact(octets);
      KeyRoundTrip(c.obfuscation.value);
      FirstOfKey(c.obfuscation.value);
      assert octets[10..][0] == octets[10];
    } else {
      PlainExact(octets);
    }
  }

  /** The layout of an address, octet by octet: a two-octet type, then address, port and key, low octet first. */
  lemma WireLayout(octets: bytes)
    requires |octets| == 16
    ensures var ty, port := octets[2] + 256 * (octets[3] as int), octets[8] + 256 * (octets[9] as int);
            && (ty == 1 && port != 0 ==> Unpacked(octets) == Ok(ProxyConfig(octets[4..8], port, None)))
            && (ty == 2 ==> Unpacked(octets) == Err(XorV1Unsupported))
            && (ty == 3 && port != 0 && octets[10] != 0 ==>
                  && Unpacked(octets).Ok?
                  && Unpacked(octets).value.ip == octets[4..8] && Unpacked(octets).value.port == port)
            && (ty == 0 || ty > 3 ==> Unpacked(octets) == Err(UnknownProxyType(ty)))
  {
    hide KeyFrom;
    var data := octets[4..];
    assert data[4..6] == octets[8..10] && data[..4] == octets[4..8] && data[6..] == octets[10..];
    assert octets[8..10][0] == octets[8] && octets[8..10][1] == octets[9];
    assert octets[2..4][0] == octets[2] && octets[2..4][1] == octets[3];
    assert octets[10..][0] == octets[10];
  }

  lemma ZeroPort(octets: bytes)
    requires |octets| == 16
    ensures FromLittleEndian16(octets[8..10]) == 0 <==> octets[8] == 0 && octets[9] == 0
  {
    assert octets[8..10][0] == octets[8] && octets[8..10][1] == octets[9];
  }

  lemma FirstOfKey(k: XorKey)
    requires ValidKey(k)
    ensures k.data[0] != 0
  {
  }

  lemma SameAddress(a: bytes, b: bytes)
    requires |a| == |b| == 16 && a[..2] == b[..2] && a[2..4] == b[2..4] && a[4..8] == b[4..8]
    requires a[8..10] == b[8..10] && a[10..] == b[10..]
    ensures a == b
  {
    assert a == a[..2] + a[2..4] + a[4..8] + a[8..10] + a[10..];
    assert b == b[..2] + b[2..4] + b[4..8] + b[8..10] + b[10..];
  }

  /** The bytes decoding does not look at, blanked: all six of a plain tail, or what follows a key's zero. */
  function Blanked(octets: bytes): (r: bytes)
    requires |octets| == 16
    ensures |r| == 16
  {
    octets[..10] + BlankedTail(octets[2..4], octets[10..])
  }

  function BlankedTail(ty: bytes, tail: bytes): (r: bytes)
    requires |ty| == 2 && |tail| == 6
    ensures |r| == 6
  {
    var n := if FromLittleEndian16(ty) == 0x03 then FirstZero(tail) else 0;
    tail[..n] + Zeros(6 - n)
  }

  lemma BlankedParts(octets: bytes)
    requires |octets| == 16
    ensures var b := Blanked(octets);
            && b[..2] == octets[..2] && b[2..4] == octets[2..4] && b[4..8] == octets[4..8]
            && b[8..10] == octets[8..10] && b[10..] == BlankedTail(octets[2..4], octets[10..])
  {
    hide BlankedTail;
  }

  /** Whatever decodes packs back into the address it came from, up to the bytes decoding does not look at. */
  lemma UnpackedRoundTrip(octets: bytes)
    requires |octets| == 16 && Unpacked(octets).Ok?
    ensures ValidConfig(Unpacked(octets).value)
    ensures Packed(Unpacked(octets).value, octets[..2]) == Blanked(octets)
  {
    var c := Unpacked(octets).value;
    var ty, tail := octets[2..4], octets[10..];
    FromThenLittleEndian(ty);
    FromThenLittleEndian(octets[8..10]);
    if FromLittleEndian16(ty) == 0x01 {
      PlainExact(octets);
      assert tail[..0] + Zeros(6) == Zeros(6);
    } else {
      XorExact(octets);
    }
    hide Unpacked, LittleEndian16, FromLittleEndian16, FirstZero, Zeros, ValidKey;
    PackedParts(c, octets[..2]);
    BlankedParts(octets);
    hide Packed, Blanked;
    SameAddress(Packed(c, octets[..2]), Blanked(octets));
  }
}
