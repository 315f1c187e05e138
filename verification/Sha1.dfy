/**
 ext/klib/kurl.c, the HMAC-SHA1 part: hashing one byte at a time over a circular schedule of
 sixteen words, against SHA-1 as FIPS 180-4 defines it and HMAC as RFC 2104 defines it.
 */
module Sha1 {
  import opened Chunks

  type byte = bv8
  type word = bv32

  // ---- FIPS 180-4 ---------------------------------------------------------------

  datatype Hash = Hash(a: word, b: word, c: word, d: word, e: word)

  function Xor4(x: word, y: word, z: word, w: word): word { x ^ y ^ z ^ w }

  function Rotl1(x: word): word { (x << 1) | (x >> 31) }
  function Rotl5(x: word): word { (x << 5) | (x >> 27) }
  function Rotl30(x: word): word { (x << 30) | (x >> 2) }

  // Section 4.1.1
  function Ch(x: word, y: word, z: word): word { (x & y) ^ (!x & z) }
  function Parity(x: word, y: word, z: word): word { x ^ y ^ z }
  function Maj(x: word, y: word, z: word): word { (x & y) ^ (x & z) ^ (y & z) }

  function F(t: nat, x: word, y: word, z: word): word {
    if t < 20 then Ch(x, y, z) else if t < 40 then Parity(x, y, z) else if t < 60 then Maj(x, y, z) else Parity(x, y, z)
  }

  // Section 4.2.1
  function K(t: nat): word {
    if t < 20 then 0x5a827999 else if t < 40 then 0x6ed9eba1 else if t < 60 then 0x8f1bbcdc else 0xca62c1d6
  }

  // Section 5.3.1
  const H0 := Hash(0x67452301, 0xefcdab89, 0x98badcfe, 0x10325476, 0xc3d2e1f0)

  /** Section 6.1.2, step 1: the schedule of eighty words. */
  function W(m: seq<word>, t: nat): word
    requires |m| == 16
  {
    if t < 16 then m[t] else Rotl1(Xor4(W(m, t - 3), W(m, t - 8), W(m, t - 14), W(m, t - 16)))
  }

  function Temp(r: word, f: word, e: word, k: word, w: word): word { r + f + e + k + w }

  function Round(t: nat, h: Hash, w: word): Hash {
    Hash(Temp(Rotl5(h.a), F(t, h.b, h.c, h.d), h.e, K(t), w), h.a, Rotl30(h.b), h.c, h.d)
  }

  /** Section 6.1.2, step 3: the working variables after `t` rounds. */
  function Rounds(h: Hash, m: seq<word>, t: nat): Hash
    requires |m| == 16
  {
    if t == 0 then h else Round(t - 1, Rounds(h, m, t - 1), W(m, t - 1))
  }

  function Added(h: Hash, g: Hash): Hash {
    Hash(h.a + g.a, h.b + g.b, h.c + g.c, h.d + g.d, h.e + g.e)
  }

  function Compress(h: Hash, m: seq<word>): Hash
    requires |m| == 16
  {
    Added(h, Rounds(h, m, 80))
  }

  /** Four bytes as a word, the first one highest. */
  function BigEndian(b0: byte, b1: byte, b2: byte, b3: byte): word {
    (b0 as word << 24) | (b1 as word << 16) | (b2 as word << 8) | b3 as word
  }

  /** Section 5.2.1: the sixteen words of a block. */
  function Words(block: seq<byte>): (m: seq<word>)
    requires |block| == 64
    ensures |m| == 16
  {
    seq(16, j requires 0 <= j < 16 => BigEndian(block[4 * j], block[4 * j + 1], block[4 * j + 2], block[4 * j + 3]))
  }

  /** The intermediate hash value after all the blocks of `s`. */
  function Chain(s: seq<byte>): Hash
    requires |s| % 64 == 0
  {
    if |s| == 0 then H0 else
      var n := |s| - 64;
      Compress(Chain(s[..n]), Words(s[n..]))
  }

  function Zeros(n: nat): (z: seq<byte>)
    ensures |z| == n
  {
    if n == 0 then [] else Zeros(n - 1) + [0]
  }

  /** The number `bits` in eight bytes, the first one highest. */
  function Length64(bits: nat): (s: seq<byte>)
    ensures |s| == 8
  {
    [Octet(bits, 0x100_0000_0000_0000), Octet(bits, 0x1_0000_0000_0000), Octet(bits, 0x100_0000_0000),
     Octet(bits, 0x1_0000_0000), Octet(bits, 0x100_0000), Octet(bits, 0x1_0000), Octet(bits, 0x100), Octet(bits, 1)]
  }

  function Octet(n: nat, unit: nat): byte
    requires unit > 0
  {
    (n / unit % 256) as byte
  }

  /** Section 5.1.1: a one bit, the fewest zero bits, and the length, up to a whole number of blocks. */
  function PadFor(len: nat, count: nat): (p: seq<byte>)
    ensures (len + |p|) % 64 == 0
  {
    [0x80] + Zeros((55 - len) % 64) + Length64(8 * count)
  }

  function Pad(message: seq<byte>): (s: seq<byte>)
    ensures |s| % 64 == 0
  {
    message + PadFor(|message|, |message|)
  }

  function WordBytes(x: word): (s: seq<byte>)
    ensures |s| == 4
  {
    [((x >> 24) & 0xff) as byte, ((x >> 16) & 0xff) as byte, ((x >> 8) & 0xff) as byte, (x & 0xff) as byte]
  }

  function HashBytes(h: Hash): (s: seq<byte>)
    ensures |s| == 20
  {
    WordBytes(h.a) + WordBytes(h.b) + WordBytes(h.c) + WordBytes(h.d) + WordBytes(h.e)
  }

  function Digest(message: seq<byte>): (s: seq<byte>)
    ensures |s| == 20
  {
    HashBytes(Chain(Pad(message)))
  }

  // ---- what the constants stand for -----------------------------------------------------

  /** The four constants are the roots of 2, 3, 5 and 10, with thirty bits behind the point. */
  lemma RoundConstants(t: nat)
    requires t < 80
    ensures var n := if t < 20 then 2 else if t < 40 then 3 else if t < 60 then 5 else 10;
            var k := K(t) as int;
            k * k <= n * 0x1000_0000_0000_0000 < (k + 1) * (k + 1)
  {
  }

  /** The start value is the table of bytes that `sha1_init` copies. */
  lemma StartValue()
    ensures HashMemory(H0) == [0x01, 0x23, 0x45, 0x67, 0x89, 0xab, 0xcd, 0xef, 0xfe, 0xdc,
                               0xba, 0x98, 0x76, 0x54, 0x32, 0x10, 0xf0, 0xe1, 0xd2, 0xc3]
  {
    assert Memory(0x67452301) == [0x01, 0x23, 0x45, 0x67];
    assert Memory(0xefcdab89) == [0x89, 0xab, 0xcd, 0xef];
    assert Memory(0x98badcfe) == [0xfe, 0xdc, 0xba, 0x98];
    assert Memory(0x10325476) == [0x76, 0x54, 0x32, 0x10];
    assert Memory(0xc3d2e1f0) == [0xf0, 0xe1, 0xd2, 0xc3];
    hide Memory;
  }

  lemma Rotations(x: word)
    ensures Rotl1(x) == x.RotateLeft(1) && Rotl5(x) == x.RotateLeft(5) && Rotl30(x) == x.RotateLeft(30)
  {
  }

  /** The bytes are the digits of `n` to the base 256, the first one highest. */
  ghost predicate Spells(s: seq<byte>, n: nat) {
    if |s| == 0 then n == 0 else s[|s| - 1] == (n % 256) as byte && Spells(s[..|s| - 1], n / 256)
  }

  lemma HighByte(n: nat, unit: nat)
    requires unit > 0
    ensures 256 * (n / (256 * unit)) + n / unit % 256 == n / unit
  {
    var q := n / unit;
    Regroup(q / 256, q % 256, unit, n % unit);
    QuotientIs(n, 256 * unit, q / 256, q % 256 * unit + n % unit);
  }

  lemma Regroup(a: nat, b: nat, unit: nat, r: nat)
    requires b < 256 && r < unit
    ensures (256 * a + b) * unit + r == a * (256 * unit) + (b * unit + r)
    ensures b * unit + r < 256 * unit
  {
    assert b * unit <= 255 * unit;
  }

  lemma SpellsMore(s: seq<byte>, more: seq<byte>, n: nat, unit: nat)
    requires unit > 0 && Spells(s, n / (256 * unit))
    requires more == s + [Octet(n, unit)]
    ensures Spells(more, n / unit)
  {
    assert more[..|more| - 1] == s;
    HighByte(n, unit);
  }

  lemma SpellsNothing(n: nat)
    requires n < 0x1_0000_0000_0000_0000
    ensures Spells([], n / (256 * 0x100_0000_0000_0000))
  {
  }

  lemma HighSpelled(bits: nat)
    requires bits < 0x1_0000_0000_0000_0000
    ensures Spells(Length64(bits)[..4], bits / 0x1_0000_0000)
  {
    hide Octet, Spells;
    var s := Length64(bits);
    SpellsNothing(bits);
    SpellsMore([], s[..1], bits, 0x100_0000_0000_0000);
    SpellsMore(s[..1], s[..2], bits, 0x1_0000_0000_0000);
    SpellsMore(s[..2], s[..3], bits, 0x100_0000_0000);
    SpellsMore(s[..3], s[..4], bits, 0x1_0000_0000);
  }

  lemma LengthSpelled(bits: nat)
    requires bits < 0x1_0000_0000_0000_0000
    ensures Spells(Length64(bits), bits)
  {
    hide Octet, Spells;
    var s := Length64(bits);
    HighSpelled(bits);
    SpellsMore(s[..4], s[..5], bits, 0x100_0000);
    SpellsMore(s[..5], s[..6], bits, 0x1_0000);
    SpellsMore(s[..6], s[..7], bits, 0x100);
    SpellsMore(s[..7], s, bits, 1);
  }

  /** Section 5.1.1: a one bit, zeros, and in the last eight bytes the number of bits; no block more than needed. */
  lemma PaddingShape(message: seq<byte>)
    requires |message| < 0x2000_0000_0000_0000
    ensures var p, n := Pad(message), |message|;
            && n + 9 <= |p| < n + 73 && |p| % 64 == 0
            && p[..n] == message && p[n] == 0x80
            && (forall i :: n < i < |p| - 8 ==> p[i] == 0)
            && Spells(p[|p| - 8..], 8 * n)
  {
    var n := |message|;
    LengthSpelled(8 * n);
    ZerosAre((55 - n) % 64);
    hide Length64, Spells, Zeros;
    assert Pad(message)[|Pad(message)| - 8..] == Length64(8 * n);
  }

  // ---- the same in the words of the program -------------------------------------------

  function MixCh(b: word, c: word, d: word): (r: word)
    ensures r == (b & c) ^ (!b & d)
  {
    d ^ (b & (c ^ d))
  }

  function MixMaj(b: word, c: word, d: word): (r: word)
    ensures r == (b & c) ^ (b & d) ^ (c & d)
  {
    (b & c) | (d & (b | c))
  }

  /** The round function as `sha1_hashBlock` writes it. */
  function Mix(i: nat, b: word, c: word, d: word): word {
    if i < 20 then MixCh(b, c, d) else if i < 40 then Parity(b, c, d)
    else if i < 60 then MixMaj(b, c, d) else Parity(b, c, d)
  }

  /** The sum of a round, in the order in which `sha1_hashBlock` adds. */
  function SumAsCoded(k: word, f: word, r: word, e: word, w: word): (t: word)
    ensures t == r + f + e + k + w
  {
    k + f + (r + e + w)
  }

  lemma MixIsCh(b: word, c: word, d: word)
    ensures MixCh(b, c, d) == Ch(b, c, d)
  {
  }

  lemma MixIsMaj(b: word, c: word, d: word)
    ensures MixMaj(b, c, d) == Maj(b, c, d)
  {
  }

  lemma SumIsTemp(k: word, f: word, r: word, e: word, w: word)
    ensures SumAsCoded(k, f, r, e, w) == Temp(r, f, e, k, w)
  {
  }

  lemma RoundAsCoded(i: nat, h: Hash, w: word)
    ensures SumAsCoded(K(i), Mix(i, h.b, h.c, h.d), Rotl5(h.a), h.e, w) == Round(i, h, w).a
  {
    hide Ch, Maj, MixCh, MixMaj, Parity, K, Rotl5, Rotl30, SumAsCoded, Temp;
    MixIsCh(h.b, h.c, h.d);
    MixIsMaj(h.b, h.c, h.d);
    SumIsTemp(K(i), F(i, h.b, h.c, h.d), Rotl5(h.a), h.e, w);
  }

  /** Byte `p` of a word in memory, the lowest byte first. */
  function ByteOf(x: word, p: nat): byte
    requires p < 4
  {
    if p == 0 then (x & 0xff) as byte
    else if p == 1 then ((x >> 8) & 0xff) as byte
    else if p == 2 then ((x >> 16) & 0xff) as byte
    else ((x >> 24) & 0xff) as byte
  }

  lemma FourBytes(x: word)
    ensures x == BigEndian(ByteOf(x, 3), ByteOf(x, 2), ByteOf(x, 1), ByteOf(x, 0))
  {
  }

  /** Word `j` of a buffer whose words are stored with the lowest byte first. */
  function Load(buf: seq<byte>, j: nat): word
    requires |buf| == 64 && j < 16
  {
    BigEndian(buf[4 * j + 3], buf[4 * j + 2], buf[4 * j + 1], buf[4 * j])
  }

  function Loaded(buf: seq<byte>): (w: seq<word>)
    requires |buf| == 64
    ensures |w| == 16
  {
    seq(16, j requires 0 <= j < 16 => Load(buf, j))
  }

  function Stored(buf: seq<byte>, j: nat, x: word): (b: seq<byte>)
    requires |buf| == 64 && j < 16
    ensures |b| == 64
  {
    buf[4 * j := ByteOf(x, 0)][4 * j + 1 := ByteOf(x, 1)][4 * j + 2 := ByteOf(x, 2)][4 * j + 3 := ByteOf(x, 3)]
  }

  lemma LoadedStored(buf: seq<byte>, j: nat, x: word)
    requires |buf| == 64 && j < 16
    ensures Loaded(Stored(buf, j, x)) == Loaded(buf)[j := x]
  {
    FourBytes(x);
    hide BigEndian, ByteOf;
    forall k | 0 <= k < 16
      ensures Load(Stored(buf, j, x), k) == if k == j then x else Load(buf, k)
    {
    }
  }

  /** Index `p ^ 3`: where byte `p` of a block goes, so that its words load with the first byte highest. */
  function Flip(p: nat): (q: nat)
    ensures p / 4 == q / 4
  {
    p / 4 * 4 + (3 - p % 4)
  }

  ghost predicate Holds(buf: seq<byte>, pending: seq<byte>)
    requires |buf| == 64
  {
    |pending| <= 64 && forall p :: 0 <= p < |pending| ==> buf[Flip(p)] == pending[p]
  }

  lemma HoldsNothing(buf: seq<byte>)
    requires |buf| == 64
    ensures Holds(buf, [])
  {
  }

  lemma HoldsMore(buf: seq<byte>, pending: seq<byte>, data: byte)
    requires |buf| == 64 && Holds(buf, pending) && |pending| < 64
    ensures Flip(|pending|) < 64 && Holds(buf[Flip(|pending|) := data], pending + [data])
  {
  }

  lemma FlipWord(j: nat)
    ensures Flip(4 * j) == 4 * j + 3 && Flip(4 * j + 1) == 4 * j + 2
    ensures Flip(4 * j + 2) == 4 * j + 1 && Flip(4 * j + 3) == 4 * j
  {
  }

  lemma HoldsAt(buf: seq<byte>, pending: seq<byte>, p: nat)
    requires |buf| == 64 && Holds(buf, pending) && p < |pending|
    ensures Flip(p) < 64 && buf[Flip(p)] == pending[p]
  {
  }

  lemma LoadedBlock(buf: seq<byte>, block: seq<byte>)
    requires |buf| == 64 && |block| == 64 && Holds(buf, block)
    ensures Loaded(buf) == Words(block)
  {
    hide BigEndian, Flip, Holds;
    forall j | 0 <= j < 16
      ensures Load(buf, j) == Words(block)[j]
    {
      FlipWord(j);
      HoldsAt(buf, block, 4 * j);
      HoldsAt(buf, block, 4 * j + 1);
      HoldsAt(buf, block, 4 * j + 2);
      HoldsAt(buf, block, 4 * j + 3);
    }
  }

  /** Before round `i` the sixteen words are the latest of the schedule. */
  ghost predicate Window(w: seq<word>, m: seq<word>, i: nat)
    requires |m| == 16
  {
    |w| == 16 && forall t :: 0 <= t && i - 16 <= t < (if i < 16 then 16 else i) ==> w[t % 16] == W(m, t)
  }

  lemma WindowStart(m: seq<word>)
    requires |m| == 16
    ensures Window(m, m, 0)
  {
  }

  function NextWord(w: seq<word>, i: nat): word
    requires |w| == 16
  {
    Rotl1(Xor4(w[(i + 13) % 16], w[(i + 8) % 16], w[(i + 2) % 16], w[i % 16]))
  }

  lemma Slots(i: nat)
    ensures (i + 13) % 16 == (i - 3) % 16 && (i + 8) % 16 == (i - 8) % 16
    ensures (i + 2) % 16 == (i - 14) % 16 && i % 16 == (i - 16) % 16
  {
  }

  lemma WindowWord(w: seq<word>, m: seq<word>, i: nat)
    requires |m| == 16 && Window(w, m, i) && i >= 16
    ensures NextWord(w, i) == W(m, i)
  {
    hide Rotl1, Xor4;
    Slots(i);
    assert w[(i - 3) % 16] == W(m, i - 3);
    assert w[(i - 8) % 16] == W(m, i - 8);
    assert w[(i - 14) % 16] == W(m, i - 14);
    assert w[(i - 16) % 16] == W(m, i - 16);
  }

  lemma WindowNext(w: seq<word>, m: seq<word>, i: nat)
    requires |m| == 16 && Window(w, m, i) && i >= 16
    ensures Window(w[i % 16 := W(m, i)], m, i + 1)
  {
    hide W;
  }

  lemma WindowEarly(w: seq<word>, m: seq<word>, i: nat)
    requires |m| == 16 && Window(w, m, i) && i < 16
    ensures Window(w, m, i + 1) && w[i] == W(m, i)
  {
    hide W;
    assert i % 16 == i;
  }

  lemma ChainStep(done: seq<byte>, block: seq<byte>)
    requires |done| % 64 == 0 && |block| == 64
    ensures Chain(done + block) == Compress(Chain(done), Words(block))
  {
    var s := done + block;
    assert s[..|s| - 64] == done && s[|s| - 64..] == block;
  }

  function Swapped(a: word): word {
    (a << 24) | ((a << 8) & 0x00ff_0000) | ((a >> 8) & 0x0000_ff00) | (a >> 24)
  }

  /** A word as it lies in memory. */
  function Memory(x: word): (s: seq<byte>)
    ensures |s| == 4
  {
    [ByteOf(x, 0), ByteOf(x, 1), ByteOf(x, 2), ByteOf(x, 3)]
  }

  lemma SwapIsBigEndian(a: word)
    ensures Memory(Swapped(a)) == WordBytes(a)
  {
  }

  function SwappedHash(h: Hash): Hash {
    Hash(Swapped(h.a), Swapped(h.b), Swapped(h.c), Swapped(h.d), Swapped(h.e))
  }

  function HashMemory(h: Hash): (s: seq<byte>)
    ensures |s| == 20
  {
    Memory(h.a) + Memory(h.b) + Memory(h.c) + Memory(h.d) + Memory(h.e)
  }

  lemma SwapGivesBytes(h: Hash)
    ensures HashMemory(SwappedHash(h)) == HashBytes(h)
  {
    hide Swapped, Memory, WordBytes;
    SwapIsBigEndian(h.a);
    SwapIsBigEndian(h.b);
    SwapIsBigEndian(h.c);
    SwapIsBigEndian(h.d);
    SwapIsBigEndian(h.e);
  }

  lemma ZerosMore(z: nat)
    ensures Zeros(z) + [0] == Zeros(z + 1)
  {
  }

  lemma ZerosLeft(n: nat, z: nat)
    requires z <= (56 - n) % 64 && (n + z) % 64 != 56
    ensures z < (56 - n) % 64
  {
  }

  /** The low byte of `count >> shift`, as `sha1_final` writes it. */
  function CountOctet(count: nat, unit: nat): byte
    requires unit > 0
  {
    (count / unit % 256) as byte
  }

  lemma OctetScaled(count: nat, unit: nat)
    requires unit > 0
    ensures Octet(8 * count, 8 * unit) == CountOctet(count, unit)
  {
    DivideBoth(count, unit);
  }

  lemma DivideBoth(n: nat, d: nat)
    requires d > 0
    ensures 8 * n / (8 * d) == n / d
  {
    var q, r := n / d, n % d;
    assert 8 * n == q * (8 * d) + 8 * r;
    QuotientIs(8 * n, 8 * d, q, 8 * r);
  }

  lemma QuotientIs(n: nat, d: nat, q: nat, r: nat)
    requires 0 <= r < d && n == q * d + r
    ensures n / d == q
  {
    var k := n / d - q;
    assert n == n / d * d + n % d;
    assert k * d == r - n % d;
    Multiple(k, d);
  }

  lemma Multiple(k: int, d: nat)
    ensures k >= 1 ==> k * d >= d
    ensures k <= -1 ==> k * d + d <= 0
  {
  }

  lemma OctetZero(n: nat, unit: nat)
    requires n < unit
    ensures Octet(n, unit) == 0
  {
    QuotientIs(n, unit, 0, n);
  }

  lemma OctetLast(n: nat)
    ensures Octet(n, 1) == CountOctet(n % 0x1_0000_0000, 1)
  {
    LowByte(n);
    assert n / 1 == n && n % 0x1_0000_0000 / 1 == n % 0x1_0000_0000;
  }

  lemma LowByte(n: nat)
    ensures n % 0x1_0000_0000 % 256 == n % 256
  {
  }

  /** The bytes `sha1_final` takes from its 32-bit counter are those of the 64-bit number of bits. */
  lemma CountOctets(count: nat)
    requires count < 0x1_0000_0000
    ensures Length64(8 * count) ==
      [0, 0, 0, CountOctet(count, 0x2000_0000), CountOctet(count, 0x20_0000), CountOctet(count, 0x2000),
       CountOctet(count, 0x20), CountOctet(count * 8 % 0x1_0000_0000, 1)]
  {
    hide Octet, CountOctet;
    OctetZero(8 * count, 0x100_0000_0000_0000);
    OctetZero(8 * count, 0x1_0000_0000_0000);
    OctetZero(8 * count, 0x100_0000_0000);
    OctetScaled(count, 0x2000_0000);
    OctetScaled(count, 0x20_0000);
    OctetScaled(count, 0x2000);
    OctetScaled(count, 0x20);
    OctetLast(8 * count);
  }

  lemma PadParts(s: seq<byte>, count: nat)
    ensures s + [0x80] + Zeros((56 - |s + [0x80]|) % 64) + Length64(8 * count) == s + PadFor(|s|, count)
  {
    hide Zeros, Length64;
    assert (56 - |s + [0x80]|) % 64 == (55 - |s|) % 64;
  }

  // ---- the streaming hash -----------------------------------------------------------

  const WRAP := 0x1_0000_0000

  /** A 32-bit counter that stood at `count`, after `n` more steps. */
  function Counter(count: nat, n: nat): nat {
    (count + n) % WRAP
  }

  lemma CounterMore(count: nat, n: nat, more: nat)
    ensures Counter(Counter(count, n), more) == Counter(count, n + more)
  {
  }

  lemma WrapIs()
    ensures WRAP == 0x1_0000_0000
  {
  }

  lemma CounterStart(count: nat)
    requires count < WRAP
    ensures Counter(count, 0) == count && Counter(0, count) == count
  {
  }

  lemma TwoFours(s: seq<byte>, b0: byte, b1: byte, b2: byte, b3: byte, b4: byte, b5: byte, b6: byte, b7: byte)
    ensures s + [b0, b1, b2, b3] + [b4, b5, b6, b7] == s + [b0, b1, b2, b3, b4, b5, b6, b7]
  {
  }

  class Stream {
    const buf: array<byte>        // 64 bytes, also read and written as sixteen words
    var bufOffset: nat
    var state: Hash
    var byteCount: nat            // a 32-bit counter
    ghost var done: seq<byte>     // bytes hashed since the start
    ghost var pending: seq<byte>  // bytes in the buffer

    ghost predicate Valid()
      reads this, buf
    {
      && buf.Length == 64
      && bufOffset == |pending| < 64 && byteCount < WRAP
      && |done| % 64 == 0 && state == Chain(done)
      && Holds(buf[..], pending)
    }

    /** All the bytes since the start. */
    ghost function Fed(): seq<byte>
      reads this
    {
      done + pending
    }

    lemma Offset()
      requires Valid()
      ensures bufOffset == |Fed()| % 64
    {
    }

    lemma Shape()
      requires Valid()
      ensures byteCount < WRAP && buf.Length == 64
    {
    }

    lemma WholeBlocks()
      requires Valid() && |Fed()| % 64 == 0
      ensures state == Chain(Fed())
    {
      assert Fed() == done;
    }

    constructor ()
      ensures buf.Length == 64 && fresh(buf)
    {
      buf := new byte[64];
      bufOffset, byteCount, state := 0, 0, H0;
    }

    method Init()
      requires buf.Length == 64
      modifies this
      ensures Valid() && Fed() == [] && byteCount == 0
    {
      state := H0;
      byteCount := 0;
      bufOffset := 0;
      done, pending := [], [];
    }

    method StoreWord(j: nat, x: word)
      requires buf.Length == 64 && j < 16
      modifies buf
      ensures buf[..] == Stored(old(buf[..]), j, x)
    {
      buf[4 * j] := ByteOf(x, 0);
      buf[4 * j + 1] := ByteOf(x, 1);
      buf[4 * j + 2] := ByteOf(x, 2);
      buf[4 * j + 3] := ByteOf(x, 3);
    }

    /** Word `i` of the schedule replaces word `i - 16`. */
    method NextOfSchedule(i: nat, ghost m: seq<word>)
      requires buf.Length == 64 && i >= 16
      requires |m| == 16 && Window(Loaded(buf[..]), m, i)
      modifies buf
      ensures Window(Loaded(buf[..]), m, i + 1) && Loaded(buf[..])[i % 16] == W(m, i)
    {
      hide W, Load, Rotl1, Xor4, Window, Stored;
      ghost var w := Loaded(buf[..]);
      WindowWord(w, m, i);
      WindowNext(w, m, i);
      var t := Xor4(Load(buf[..], (i + 13) % 16), Load(buf[..], (i + 8) % 16),
                      Load(buf[..], (i + 2) % 16), Load(buf[..], i % 16));
      assert Rotl1(t) == NextWord(w, i);
      LoadedStored(buf[..], i % 16, Rotl1(t));
      StoreWord(i % 16, Rotl1(t));
    }

    /** `sha1_hashBlock`: eighty rounds over the sixteen words of the buffer, which it overwrites. */
    method HashBlock()
      requires buf.Length == 64
      modifies buf, this`state
      ensures state == Compress(old(state), Loaded(old(buf[..])))
    {
      hide W, Load, Rotl1, Rotl5, Rotl30, Xor4, F, Mix, K, SumAsCoded, Temp, Window, Added;
      ghost var m := Loaded(buf[..]);
      WindowStart(m);
      var a, b, c, d, e := state.a, state.b, state.c, state.d, state.e;
      var i := 0;
      while i < 80
        invariant 0 <= i <= 80
        invariant Window(Loaded(buf[..]), m, i)
        invariant Hash(a, b, c, d, e) == Rounds(state, m, i)
        invariant state == old(state)
      {
        if i >= 16 {
          NextOfSchedule(i, m);
        } else {
          WindowEarly(Loaded(buf[..]), m, i);
          assert i % 16 == i;
        }
        assert Load(buf[..], i % 16) == W(m, i);
        RoundAsCoded(i, Hash(a, b, c, d, e), Load(buf[..], i % 16));
        var t := SumAsCoded(K(i), Mix(i, b, c, d), Rotl5(a), e, Load(buf[..], i % 16));
        e := d;
        d := c;
        c := Rotl30(b);
        b := a;
        a := t;
        i := i + 1;
      }
      state := Added(state, Hash(a, b, c, d, e));
    }

    /** `sha1_add`: one more byte, and a block whenever the buffer is full. */
    method Add(data: byte)
      requires Valid()
      modifies this`bufOffset, this`state, this`done, this`pending, buf
      ensures Valid() && Fed() == old(Fed()) + [data]
    {
      hide Chain, Holds, Words, Loaded, Compress;
      HoldsMore(buf[..], pending, data);
      buf[Flip(bufOffset)] := data;
      ghost var block := pending + [data];
      bufOffset := bufOffset + 1;
      if bufOffset == 64 {
        LoadedBlock(buf[..], block);
        ChainStep(done, block);
        HashBlock();
        bufOffset := 0;
        done, pending := done + block, [];
        HoldsNothing(buf[..]);
      } else {
        pending := block;
      }
    }

    method Write1(data: byte)
      requires Valid()
      modifies this, buf
      ensures Valid() && Fed() == old(Fed()) + [data]
      ensures byteCount == Counter(old(byteCount), 1)
    {
      byteCount := (byteCount + 1) % WRAP;
      Add(data);
    }

    method Write(data: seq<byte>)
      requires Valid()
      modifies this, buf
      ensures Valid() && Fed() == old(Fed()) + data
      ensures byteCount == Counter(old(byteCount), |data|)
    {
      Shape();
      hide *;
      CounterStart(byteCount);
      var i := 0;
      while i < |data|
        invariant 0 <= i <= |data|
        invariant Valid() && Fed() == old(Fed()) + data[..i]
        invariant byteCount == Counter(old(byteCount), i)
      {
        CounterMore(old(byteCount), i, 1);
        Write1(data[i]);
        i := i + 1;
      }
    }

    method WriteChunks(chunks: seq<seq<byte>>)
      requires Valid() && byteCount == Counter(0, |Fed()|)
      modifies this, buf
      ensures Valid() && Fed() == old(Fed()) + Flatten(chunks) && byteCount == Counter(0, |Fed()|)
    {
      hide Valid, Fed;
      var i := 0;
      while i < |chunks|
        invariant 0 <= i <= |chunks|
        invariant Valid() && Fed() == old(Fed()) + Flatten(chunks[..i]) && byteCount == Counter(0, |Fed()|)
      {
        CounterMore(0, |Fed()|, |chunks[i]|);
        Write(chunks[i]);
        assert chunks[..i + 1][..i] == chunks[..i];
        i := i + 1;
      }
      assert chunks[..i] == chunks;
    }

    /** Zero bytes up to offset 56 of a block. */
    method PadZeros()
      requires Valid()
      modifies this`bufOffset, this`state, this`done, this`pending, buf
      ensures Valid() && Fed() == old(Fed()) + Zeros((56 - |old(Fed())|) % 64)
    {
      hide Valid, Fed, Zeros;
      ghost var n := |Fed()|;
      ghost var z := 0;
      Offset();
      while bufOffset != 56
        invariant Valid() && 0 <= z <= (56 - n) % 64
        invariant Fed() == old(Fed()) + Zeros(z) && bufOffset == (n + z) % 64
        decreases (56 - n) % 64 - z
      {
        ZerosLeft(n, z);
        Add(0);
        ZerosMore(z);
        z := z + 1;
        Offset();
      }
    }

    /** The length in the last eight bytes of a block. */
    method PadLength()
      requires Valid()
      modifies this`bufOffset, this`state, this`done, this`pending, buf
      ensures Valid() && Fed() == old(Fed()) + Length64(8 * byteCount)
    {
      Shape();
      CountOctets(byteCount);
      hide *;
      TwoFours(Fed(), 0, 0, 0, CountOctet(byteCount, 0x2000_0000), CountOctet(byteCount, 0x20_0000),
               CountOctet(byteCount, 0x2000), CountOctet(byteCount, 0x20), CountOctet(byteCount * 8 % WRAP, 1));
      AddFour(0, 0, 0, CountOctet(byteCount, 0x2000_0000));
      AddFour(CountOctet(byteCount, 0x20_0000), CountOctet(byteCount, 0x2000),
              CountOctet(byteCount, 0x20), CountOctet(byteCount * 8 % WRAP, 1));
    }

    method AddFour(b0: byte, b1: byte, b2: byte, b3: byte)
      requires Valid()
      modifies this`bufOffset, this`state, this`done, this`pending, buf
      ensures Valid() && Fed() == old(Fed()) + [b0, b1, b2, b3]
    {
      hide Valid, Fed;
      Add(b0);
      Add(b1);
      Add(b2);
      Add(b3);
    }

    /** `sha1_final`: pads, and gives the digest as it lies in memory. */
    method Final() returns (digest: seq<byte>)
      requires Valid()
      modifies this, buf
      ensures digest == HashBytes(Chain(old(Fed()) + PadFor(|old(Fed())|, old(byteCount))))
      ensures unchanged(this`byteCount)
    {
      hide Chain, HashBytes, PadFor, HashMemory, SwappedHash, Valid, Fed;
      PadParts(Fed(), byteCount);
      Add(0x80);
      PadZeros();
      PadLength();
      WholeBlocks();
      SwapGivesBytes(state);
      state := SwappedHash(state);
      digest := HashMemory(state);
    }
  }

  // ---- what the stream computes -----------------------------------------------------

  /** A message written in pieces of any sizes. */
  method HashChunks(chunks: seq<seq<byte>>) returns (digest: seq<byte>)
    ensures |Flatten(chunks)| < 0x1_0000_0000 ==> digest == Digest(Flatten(chunks))
  {
    hide Chain, HashBytes, PadFor, Stream.Valid, Stream.Fed;
    var s := new Stream();
    s.Init();
    s.WriteChunks(chunks);
    assert [] + Flatten(chunks) == Flatten(chunks);
    digest := s.Final();
  }

  // ---- RFC 2104 -------------------------------------------------------------------------

  function Xored(s: seq<byte>, pad: byte): (r: seq<byte>)
    ensures |r| == |s|
  {
    seq(|s|, i requires 0 <= i < |s| => s[i] ^ pad)
  }

  /** Section 2: a key of more than a block is hashed first. */
  function ShortKey(key: seq<byte>): (short: seq<byte>)
    ensures |short| <= 64
  {
    if |key| > 64 then Digest(key) else key
  }

  /** Zeros fill the block. */
  function BlockKey(key: seq<byte>): (k: seq<byte>)
    ensures |k| == 64
  {
    ShortKey(key) + Zeros(64 - |ShortKey(key)|)
  }

  function Hmac(key: seq<byte>, text: seq<byte>): (mac: seq<byte>)
    ensures |mac| == 20
  {
    Digest(Xored(BlockKey(key), 0x5c) + Digest(Xored(BlockKey(key), 0x36) + text))
  }

  /** The two blocks that RFC 2104 hashes in front, byte by byte. */
  lemma HmacMasks(key: seq<byte>, text: seq<byte>, short: seq<byte>, inner: seq<byte>, outer: seq<byte>)
    requires short == if |key| > 64 then Digest(key) else key
    requires |inner| == 64 && |outer| == 64
    requires forall i :: 0 <= i < |short| ==> inner[i] == short[i] ^ 0x36 && outer[i] == short[i] ^ 0x5c
    requires forall i :: |short| <= i < 64 ==> inner[i] == 0x36 && outer[i] == 0x5c
    ensures Hmac(key, text) == Digest(outer + Digest(inner + text))
  {
    BlockKeyIs(key, short);
    ZerosAre(64 - |short|);
    hide Digest, Zeros, BlockKey;
    assert inner == Xored(BlockKey(key), 0x36);
    assert outer == Xored(BlockKey(key), 0x5c);
  }

  /** `sha1_init_hmac`, the writes and `sha1_final_hmac`. */
  method HmacChunks(key: seq<byte>, chunks: seq<seq<byte>>) returns (mac: seq<byte>)
    requires |key| < 0x8000_0000
    ensures |Flatten(chunks)| + 64 < 0x1_0000_0000 ==> mac == Hmac(key, Flatten(chunks))
  {
    hide Digest, BlockKey, Stream.Valid, Stream.Fed;
    var s := new Stream();
    var keyBuffer := new byte[64];
    InitHmac(s, keyBuffer, key);
    s.WriteChunks(chunks);
    mac := FinalHmac(s, keyBuffer);
  }

  /** `sha1_init_hmac`: the key fills one block, and that block masked is the first written. */
  method InitHmac(s: Stream, keyBuffer: array<byte>, key: seq<byte>)
    requires s.buf.Length == 64 && keyBuffer.Length == 64 && keyBuffer != s.buf
    requires |key| < 0x8000_0000
    modifies s, s.buf, keyBuffer
    ensures keyBuffer[..] == BlockKey(key)
    ensures s.Valid() && s.Fed() == Xored(BlockKey(key), 0x36) && s.byteCount == 64
  {
    hide *;
    WrapIs();
    var short := key;
    if |key| > 64 {
      s.Init();
      assert [] + key == key;
      s.Write(key);
      CounterStart(|key|);
      short := s.Final();
      FinalIsDigest(key);
    }
    BlockKeyIs(key, short);
    FillBlock(keyBuffer, short);
    s.Init();
    WriteMasked(s, keyBuffer, 0x36);
  }

  /** `sha1_final_hmac`: the inner digest is hashed behind the other masked key. */
  method FinalHmac(s: Stream, keyBuffer: array<byte>) returns (mac: seq<byte>)
    requires s.Valid() && s.byteCount == Counter(0, |s.Fed()|)
    requires keyBuffer.Length == 64 && keyBuffer != s.buf
    modifies s, s.buf
    ensures old(|s.Fed()|) < WRAP ==> mac == Digest(Xored(keyBuffer[..], 0x5c) + Digest(old(s.Fed())))
  {
    hide *;
    WrapIs();
    s.Shape();
    if |s.Fed()| < WRAP {
      CounterStart(|s.Fed()|);
    }
    FinalIsDigest(s.Fed());
    var innerHash := s.Final();
    s.Init();
    WriteMasked(s, keyBuffer, 0x5c);
    CounterMore(0, 64, 20);
    CounterStart(64);
    CounterStart(84);
    s.Write(innerHash);
    FinalIsDigest(s.Fed());
    mac := s.Final();
  }

  lemma FinalIsDigest(message: seq<byte>)
    ensures Digest(message) == HashBytes(Chain(message + PadFor(|message|, |message|)))
  {
  }

  lemma BlockKeyIs(key: seq<byte>, short: seq<byte>)
    requires short == if |key| > 64 then Digest(key) else key
    ensures short == ShortKey(key) && BlockKey(key) == short + Zeros(64 - |short|)
  {
    hide Digest, Zeros;
  }

  /** The short key and zeros behind it. */
  method FillBlock(keyBuffer: array<byte>, short: seq<byte>)
    requires keyBuffer.Length == 64 && |short| <= 64
    modifies keyBuffer
    ensures keyBuffer[..] == short + Zeros(64 - |short|)
  {
    forall i | 0 <= i < 64 {
      keyBuffer[i] := 0;
    }
    forall i | 0 <= i < |short| {
      keyBuffer[i] := short[i];
    }
    ZerosAre(64 - |short|);
  }

  lemma {:induction false} ZerosAre(n: nat)
    ensures forall i :: 0 <= i < n ==> Zeros(n)[i] == 0
  {
    if n > 0 {
      ZerosAre(n - 1);
    }
  }

  method WriteMasked(s: Stream, keyBuffer: array<byte>, pad: byte)
    requires s.Valid() && s.byteCount == 0 && s.Fed() == []
    requires keyBuffer.Length == 64 && keyBuffer != s.buf
    modifies s, s.buf
    ensures s.Valid() && s.Fed() == Xored(keyBuffer[..], pad) && s.byteCount == 64
  {
    hide Stream.Valid, Stream.Fed;
    var i := 0;
    while i < 64
      invariant 0 <= i <= 64
      invariant keyBuffer[..] == old(keyBuffer[..])
      invariant s.Valid() && s.Fed() == Xored(keyBuffer[..], pad)[..i] && s.byteCount == i
    {
      s.Write1(keyBuffer[i] ^ pad);
      i := i + 1;
    }
  }
}
