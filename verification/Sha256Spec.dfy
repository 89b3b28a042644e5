/** The construction of SHA-256 (FIPS 180-4): padding (section 5.1.1) and hash computation
    (6.2.2), over any words; the words of SHA-256 itself are in Sha256Words. */
module Sha256Spec {
  import opened BreezeFrame

  /** The operations on words that the computation is made of. */
  datatype Prim<!W> = Prim(
    load: (byte, byte, byte, byte) -> W,       // four bytes, the highest first
    next: (W, W, W, W) -> W,                   // W_t from W_(t-2), W_(t-7), W_(t-15), W_(t-16)
    t1: (W, W, W, W, W, W) -> W,               // T_1 from e, f, g, h, K_t and W_t
    t2: (W, W, W) -> W,                        // T_2 from a, b and c
    plus: (W, W) -> W,
    k: nat -> W,                               // K_t
    byteOf: (W, nat) -> byte)                  // the bytes of a word, the highest first

  /** The eight working variables, or the eight words of a hash value. */
  datatype Vars<W> = Vars(a: W, b: W, c: W, d: W, e: W, f: W, g: W, h: W)

  // ---------- one block ----------

  /** The message schedule W_t. */
  function Schedule<W>(p: Prim<W>, block: seq<byte>, t: nat): W
    requires |block| == 64 && t < 64
    decreases t
  {
    if t < 16 then p.load(block[4 * t], block[4 * t + 1], block[4 * t + 2], block[4 * t + 3])
    else p.next(Schedule(p, block, t - 2), Schedule(p, block, t - 7), Schedule(p, block, t - 15), Schedule(p, block, t - 16))
  }

  function Words<W>(p: Prim<W>, block: seq<byte>): (ws: seq<W>)
    requires |block| == 64
    ensures |ws| == 64 && forall t :: 0 <= t < 64 ==> ws[t] == Schedule(p, block, t)
  {
    seq(64, t requires 0 <= t < 64 => Schedule(p, block, t))
  }

  function Round<W>(p: Prim<W>, v: Vars<W>, k: W, w: W): Vars<W> {
    var t1 := p.t1(v.e, v.f, v.g, v.h, k, w);
    var t2 := p.t2(v.a, v.b, v.c);
    Vars(p.plus(t1, t2), v.a, v.b, v.c, p.plus(v.d, t1), v.e, v.f, v.g)
  }

  /** The working variables after as many rounds as there are words. */
  function Rounds<W>(p: Prim<W>, v: Vars<W>, ws: seq<W>): Vars<W>
    decreases |ws|
  {
    if ws == [] then v else Round(p, Rounds(p, v, ws[..|ws| - 1]), p.k(|ws| - 1), ws[|ws| - 1])
  }

  function Add<W>(p: Prim<W>, v: Vars<W>, w: Vars<W>): Vars<W> {
    Vars(p.plus(v.a, w.a), p.plus(v.b, w.b), p.plus(v.c, w.c), p.plus(v.d, w.d),
         p.plus(v.e, w.e), p.plus(v.f, w.f), p.plus(v.g, w.g), p.plus(v.h, w.h))
  }

  function Compress<W>(p: Prim<W>, v: Vars<W>, block: seq<byte>): Vars<W>
    requires |block| == 64
  {
    Add(p, v, Rounds(p, v, Words(p, block)))
  }

  // ---------- a message ----------

  /** The hash value after the first n blocks of a message. */
  function Fold<W>(p: Prim<W>, h0: Vars<W>, m: seq<byte>, n: nat): Vars<W>
    requires 64 * n <= |m|
    decreases n
  {
    if n == 0 then h0 else Compress(p, Fold(p, h0, m, n - 1), m[64 * (n - 1)..64 * n])
  }

  /** An unsigned integer of 64 bits. */
  function U64(n: nat): (r: nat)
    ensures r < 0x1_0000_0000_0000_0000 && r <= n && (r == n <==> n < 0x1_0000_0000_0000_0000)
  {
    if n < 0x1_0000_0000_0000_0000 then n else U64(n - 0x1_0000_0000_0000_0000)
  }

  lemma {:induction false} U64Add(a: nat, b: nat)
    ensures U64(U64(a) + b) == U64(a + b)
    decreases a
  {
    if a >= 0x1_0000_0000_0000_0000 { U64Add(a - 0x1_0000_0000_0000_0000, b); }
  }

  /** The lowest byte of l >> 8 * i. */
  function ByteAt(l: nat, i: nat): byte {
    if i == 0 then l % 256 else ByteAt(l / 256, i - 1)
  }

  /** l in n bytes, the highest first. */
  function BytesOf(l: nat, n: nat): (r: seq<byte>)
    ensures |r| == n && forall i {:trigger r[i]} :: 0 <= i < n ==> r[i] == ByteAt(l, n - 1 - i)
  {
    seq(n, i requires 0 <= i < n => ByteAt(l, n - 1 - i))
  }

  function Zeros(n: nat): (r: seq<byte>)
    ensures |r| == n && forall i :: 0 <= i < n ==> r[i] == 0
  {
    seq(n, _ => 0)
  }

  /** k zero bytes bring the length to 56 modulo 64. */
  predicate Fills(len: nat, k: nat) {
    (len + 1 + k) % 64 == 56
  }

  /** The number of zero bytes: the smallest that does so. */
  function ZeroCount(len: nat): (k: nat)
    ensures Fills(len, k) && forall j :: 0 <= j < k ==> !Fills(len, j)
  {
    (119 - len % 64) % 64
  }

  /** A one bit, zeroes, and the length in bits. */
  function Padding(len: nat): seq<byte> {
    [0x80] + Zeros(ZeroCount(len)) + BytesOf(U64(8 * len), 8)
  }

  function Pad(m: seq<byte>): (r: seq<byte>)
    ensures |r| % 64 == 0
  {
    Last8(|m| + 1 + ZeroCount(|m|));
    m + Padding(|m|)
  }

  lemma Last8(n: nat)
    requires n % 64 == 56
    ensures (n + 8) % 64 == 0
  {
  }

  function FourBytes<W>(p: Prim<W>, w: W): (r: seq<byte>)
    ensures |r| == 4
  {
    [p.byteOf(w, 0), p.byteOf(w, 1), p.byteOf(w, 2), p.byteOf(w, 3)]
  }

  function Output<W>(p: Prim<W>, v: Vars<W>): (r: seq<byte>)
    ensures |r| == 32
  {
    FourBytes(p, v.a) + FourBytes(p, v.b) + FourBytes(p, v.c) + FourBytes(p, v.d)
    + FourBytes(p, v.e) + FourBytes(p, v.f) + FourBytes(p, v.g) + FourBytes(p, v.h)
  }

  /** The message digest. */
  function DigestOf<W>(p: Prim<W>, h0: Vars<W>, m: seq<byte>): (r: seq<byte>)
    ensures |r| == 32
  {
    Output(p, Fold(p, h0, Pad(m), |Pad(m)| / 64))
  }

  // ---------- facts ----------

  /** The blocks of a longer message begin with those of the shorter one. */
  lemma {:induction false} FoldPrefix<W>(p: Prim<W>, h0: Vars<W>, m: seq<byte>, more: seq<byte>, n: nat)
    requires 64 * n <= |m|
    ensures Fold(p, h0, m + more, n) == Fold(p, h0, m, n)
    decreases n
  {
    if n > 0 {
      FoldPrefix(p, h0, m, more, n - 1);
      assert (m + more)[64 * (n - 1)..64 * n] == m[64 * (n - 1)..64 * n];
    }
  }

  lemma FoldNext<W>(p: Prim<W>, h0: Vars<W>, m: seq<byte>, n: nat)
    requires |m| == 64 * n + 64
    ensures Fold(p, h0, m, n + 1) == Compress(p, Fold(p, h0, m, n), m[64 * n..])
  {
    assert m[64 * n..64 * n + 64] == m[64 * n..];
  }

  /** How many zeroes there are when r bytes remain after n whole blocks. */
  lemma ZerosFor(n: nat, r: nat)
    requires r < 64
    ensures ZeroCount(64 * n + r) == if r < 56 then 55 - r else 119 - r
  {
    assert (64 * n + r) % 64 == r;
  }

  /** The value of bytes, the highest first. */
  function ValueOf(s: seq<byte>): nat {
    if s == [] then 0 else 256 * ValueOf(s[..|s| - 1]) + s[|s| - 1]
  }

  function Pow256(n: nat): nat {
    if n == 0 then 1 else 256 * Pow256(n - 1)
  }

  /** The length field holds the length. */
  lemma {:induction false} LengthRoundTrip(l: nat, n: nat)
    requires l < Pow256(n)
    ensures ValueOf(BytesOf(l, n)) == l
    decreases n
  {
    if n > 0 {
      LengthRoundTrip(l / 256, n - 1);
      LengthFront(l, n);
    }
  }

  lemma LengthFront(l: nat, n: nat)
    requires n > 0
    ensures BytesOf(l, n)[..n - 1] == BytesOf(l / 256, n - 1) && BytesOf(l, n)[n - 1] == l % 256
  {
    forall i | 0 <= i < n - 1 ensures BytesOf(l, n)[i] == BytesOf(l / 256, n - 1)[i] {
      assert ByteAt(l, n - 1 - i) == ByteAt(l / 256, n - 2 - i);
    }
  }
}

/** The words of SHA-256: 32 bits, with the functions and constants of FIPS 180-4, section 4, and
    the initial hash value of section 5.3.3. */
module Sha256Words {
  import opened BreezeFrame
  import opened Sha256Spec

  type Word = bv32

  function RotRight(a: Word, b: Word): Word
    requires b <= 32
  {
    (a >> b) | (a << (32 - b))
  }

  function Ch(x: Word, y: Word, z: Word): Word {
    (x & y) ^ (!x & z)
  }

  function Maj(x: Word, y: Word, z: Word): Word {
    (x & y) ^ (x & z) ^ (y & z)
  }

  function Ep0(x: Word): Word {
    RotRight(x, 2) ^ RotRight(x, 13) ^ RotRight(x, 22)
  }

  function Ep1(x: Word): Word {
    RotRight(x, 6) ^ RotRight(x, 11) ^ RotRight(x, 25)
  }

  function Sig0(x: Word): Word {
    RotRight(x, 7) ^ RotRight(x, 18) ^ (x >> 3)
  }

  function Sig1(x: Word): Word {
    RotRight(x, 17) ^ RotRight(x, 19) ^ (x >> 10)
  }

  /** The constants K_t, in rows of eight. */
  const ROUND_CONSTANTS: seq<seq<Word>> := [
    [0x428a2f98, 0x71374491, 0xb5c0fbcf, 0xe9b5dba5, 0x3956c25b, 0x59f111f1, 0x923f82a4, 0xab1c5ed5],
    [0xd807aa98, 0x12835b01, 0x243185be, 0x550c7dc3, 0x72be5d74, 0x80deb1fe, 0x9bdc06a7, 0xc19bf174],
    [0xe49b69c1, 0xefbe4786, 0x0fc19dc6, 0x240ca1cc, 0x2de92c6f, 0x4a7484aa, 0x5cb0a9dc, 0x76f988da],
    [0x983e5152, 0xa831c66d, 0xb00327c8, 0xbf597fc7, 0xc6e00bf3, 0xd5a79147, 0x06ca6351, 0x14292967],
    [0x27b70a85, 0x2e1b2138, 0x4d2c6dfc, 0x53380d13, 0x650a7354, 0x766a0abb, 0x81c2c92e, 0x92722c85],
    [0xa2bfe8a1, 0xa81a664b, 0xc24b8b70, 0xc76c51a3, 0xd192e819, 0xd6990624, 0xf40e3585, 0x106aa070],
    [0x19a4c116, 0x1e376c08, 0x2748774c, 0x34b0bcb5, 0x391c0cb3, 0x4ed8aa4a, 0x5b9cca4f, 0x682e6ff3],
    [0x748f82ee, 0x78a5636f, 0x84c87814, 0x8cc70208, 0x90befffa, 0xa4506ceb, 0xbef9a3f7, 0xc67178f2]
  ]

  function K(t: nat): Word
    requires t < 64
  {
    ROUND_CONSTANTS[t / 8][t % 8]
  }

  const H0: Vars<Word> :=
    Vars(0x6a09e667, 0xbb67ae85, 0x3c6ef372, 0xa54ff53a, 0x510e527f, 0x9b05688c, 0x1f83d9ab, 0x5be0cd19)

  function BigEndian(a: byte, b: byte, c: byte, d: byte): Word {
    ((a as Word) << 24) | ((b as Word) << 16) | ((c as Word) << 8) | (d as Word)
  }

  /** The i-th byte of a word, the highest first. */
  function WordByte(w: Word, i: nat): byte {
    LowByte(if i == 0 then w >> 24 else if i == 1 then w >> 16 else if i == 2 then w >> 8 else w)
  }

  function LowByte(w: Word): byte {
    (w & 0xff) as int
  }

  function Next(w2: Word, w7: Word, w15: Word, w16: Word): Word {
    Sig1(w2) + w7 + Sig0(w15) + w16
  }

  function T1(e: Word, f: Word, g: Word, h: Word, k: Word, w: Word): Word {
    h + Ep1(e) + Ch(e, f, g) + k + w
  }

  function T2(a: Word, b: Word, c: Word): Word {
    Ep0(a) + Maj(a, b, c)
  }

  function Plus(x: Word, y: Word): Word {
    x + y
  }

  const SHA: Prim<Word> := Prim(
    (a, b, c, d) => BigEndian(a, b, c, d),
    (w2, w7, w15, w16) => Next(w2, w7, w15, w16),
    (e, f, g, h, k, w) => T1(e, f, g, h, k, w),
    (a, b, c) => T2(a, b, c),
    (x, y) => Plus(x, y),
    t => if t < 64 then K(t) else 0,
    (w, i) => WordByte(w, i))

  /** The message digest of SHA-256. */
  function Digest(m: seq<byte>): (r: seq<byte>)
    ensures |r| == 32
  {
    DigestOf(SHA, H0, m)
  }
}
