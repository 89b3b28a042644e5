/** The byte-fed SHA-256 of lib_breeze/core/sha256_breeze.c, proved to compute the digest of
    FIPS 180-4 however the message is split. */
module Sha256 {
  import opened BreezeFrame
  import opened Sha256Spec
  import opened Sha256Words

  function VarsOf<W>(s: seq<W>): Vars<W>
    requires |s| == 8
  {
    Vars(s[0], s[1], s[2], s[3], s[4], s[5], s[6], s[7])
  }

  /** SHA256_CTX. The bit length is an unsigned long long. */
  class Ctx<W(0)> {
    const p: Prim<W>
    const h0: Vars<W>
    const data: array<byte>
    var datalen: nat
    var bitlen: nat
    const state: array<W>
    ghost var message: seq<byte>    // all bytes so far
    ghost var blocks: nat           // how many whole blocks they make

    ghost predicate Shape() {
      data.Length == 64 && state.Length == 8
    }

    ghost function Hash(): Vars<W>
      requires Shape()
      reads state
    {
      VarsOf(state[..])
    }

    /** The state is the hash of the whole blocks, the buffer holds the rest, and bitlen counts the
        bits of the whole blocks. */
    ghost predicate Held()
      reads this, data, state
    {
      && Shape() && datalen <= 64
      && |message| == 64 * blocks + datalen
      && data[..datalen] == message[64 * blocks..]
      && Hash() == Fold(p, h0, message, blocks)
      && bitlen == U64(512 * blocks)
    }

    ghost predicate Valid()
      reads this, data, state
    {
      Held() && datalen < 64
    }

    /** sha256_init */
    constructor (p: Prim<W>, h0: Vars<W>)
      ensures Valid() && message == [] && this.p == p && this.h0 == h0 && fresh(data) && fresh(state)
    {
      this.p, this.h0 := p, h0;
      data := new byte[64];
      state := new W[] [h0.a, h0.b, h0.c, h0.d, h0.e, h0.f, h0.g, h0.h];
      datalen, bitlen := 0, 0;
      message, blocks := [], 0;
    }

    static lemma WordAt(p: Prim<W>, b: seq<byte>, i: nat)
      requires |b| == 64 && i < 64
      ensures var ws := Words(p, b);
              ws[i] == if i < 16 then p.load(b[4 * i], b[4 * i + 1], b[4 * i + 2], b[4 * i + 3])
                       else p.next(ws[i - 2], ws[i - 7], ws[i - 15], ws[i - 16])
    {
    }

    /** The message schedule, as sha256_transform's two loops fill it. */
    method FillSchedule() returns (m: array<W>)
      requires Shape()
      ensures fresh(m) && m[..] == Words(p, data[..])
    {
      m := new W[64];
      ghost var b := data[..];
      ghost var ws := Words(p, b);
      var i, j := 0, 0;
      while i < 16
        invariant 0 <= i <= 16 && j == 4 * i && data[..] == b
        invariant forall t :: 0 <= t < i ==> m[t] == ws[t]
      {
        WordAt(p, b, i);
        m[i] := p.load(data[j], data[j + 1], data[j + 2], data[j + 3]);
        i, j := i + 1, j + 4;
      }
      while i < 64
        invariant 16 <= i <= 64 && data[..] == b
        invariant forall t :: 0 <= t < i ==> m[t] == ws[t]
      {
        WordAt(p, b, i);
        m[i] := p.next(m[i - 2], m[i - 7], m[i - 15], m[i - 16]);
        i := i + 1;
      }
    }

    /** The 64 rounds on the working variables. */
    method RunRounds(v: Vars<W>, m: array<W>) returns (r: Vars<W>)
      requires m.Length == 64
      ensures r == Rounds(p, v, m[..])
    {
      var a, b, c, d, e, f, g, h := v.a, v.b, v.c, v.d, v.e, v.f, v.g, v.h;
      var i := 0;
      while i < 64
        invariant 0 <= i <= 64 && Vars(a, b, c, d, e, f, g, h) == Rounds(p, v, m[..i])
      {
        assert m[..i + 1][..i] == m[..i];
        var t1 := p.t1(e, f, g, h, p.k(i), m[i]);
        var t2 := p.t2(a, b, c);
        h := g;
        g := f;
        f := e;
        e := p.plus(d, t1);
        d := c;
        c := b;
        b := a;
        a := p.plus(t1, t2);
        i := i + 1;
      }
      assert m[..64] == m[..];
      r := Vars(a, b, c, d, e, f, g, h);
    }

    /** sha256_transform */
    method Transform()
      requires Shape()
      modifies state
      ensures Hash() == Compress(p, old(Hash()), data[..])
    {
      var m := FillSchedule();
      var r := RunRounds(Vars(state[0], state[1], state[2], state[3], state[4], state[5], state[6], state[7]), m);
      state[0] := p.plus(state[0], r.a);
      state[1] := p.plus(state[1], r.b);
      state[2] := p.plus(state[2], r.c);
      state[3] := p.plus(state[3], r.d);
      state[4] := p.plus(state[4], r.e);
      state[5] := p.plus(state[5], r.f);
      state[6] := p.plus(state[6], r.g);
      state[7] := p.plus(state[7], r.h);
    }

    /** One more byte in the buffer, which may be full then. */
    method PutByte(x: byte)
      requires Valid()
      modifies this`datalen, this`message, data
      ensures Held() && message == old(message) + [x]
    {
      ghost var tail := data[..datalen];
      data[datalen] := x;
      datalen := datalen + 1;
      FoldPrefix(p, h0, message, [x], blocks);
      assert data[..datalen] == tail + [x];
      assert (message + [x])[64 * blocks..] == message[64 * blocks..] + [x];
      message := message + [x];
    }

    /** The full buffer is one more block. */
    method Flush()
      requires Held() && datalen == 64
      modifies this`datalen, this`bitlen, this`blocks, state
      ensures Valid()
    {
      assert data[..] == message[64 * blocks..] by { assert data[..] == data[..64]; }
      ghost var n := blocks + 1;
      assert |message| == 64 * n && message[64 * n..] == [];
      FoldNext(p, h0, message, blocks);
      Transform();
      ghost var h := Hash();
      assert h == Fold(p, h0, message, n);
      BlockBits(blocks);
      StartBlock();
      assert blocks == n && Hash() == h;
      assert data[..datalen] == [];
    }

    /** A whole block is done: its bits are counted, and the buffer is empty. */
    method StartBlock()
      modifies this`datalen, this`bitlen, this`blocks
      ensures datalen == 0 && bitlen == U64(old(bitlen) + 512) && blocks == old(blocks) + 1
    {
      datalen, bitlen, blocks := 0, U64(bitlen + 512), blocks + 1;
    }

    static lemma BlockBits(n: nat)
      ensures U64(U64(512 * n) + 512) == U64(512 * (n + 1))
    {
      U64Add(512 * n, 512);
    }

    /** One byte of sha256_update. */
    method UpdateByte(x: byte)
      requires Valid()
      modifies this`datalen, this`bitlen, this`message, this`blocks, data, state
      ensures Valid() && message == old(message) + [x]
    {
      PutByte(x);
      if datalen == 64 { Flush(); }
    }

    static lemma OneMore(was: seq<byte>, bytes: seq<byte>, i: nat)
      requires i < |bytes|
      ensures was + bytes[..i + 1] == was + bytes[..i] + [bytes[i]]
    {
    }

    /** sha256_update: the bytes are appended to the message. */
    method Update(bytes: seq<byte>)
      requires Valid()
      modifies this`datalen, this`bitlen, this`message, this`blocks, data, state
      ensures Valid() && message == old(message) + bytes
    {
      var i := 0;
      while i < |bytes|
        invariant 0 <= i <= |bytes| && Valid() && message == old(message) + bytes[..i]
      {
        OneMore(old(message), bytes, i);
        UpdateByte(bytes[i]);
        i := i + 1;
      }
    }

    /** The one bit, and zeroes up to the limit. */
    method PadBuffer(limit: nat)
      requires Shape() && datalen < limit <= 64
      modifies data
      ensures data[..limit] == old(data[..datalen]) + ([0x80] + Zeros(limit - datalen - 1))
    {
      ghost var tail := data[..datalen];
      var i := datalen;
      data[i] := 0x80;
      i := i + 1;
      while i < limit
        invariant datalen < i <= limit && data[..datalen] == tail && data[datalen] == 0x80
        invariant forall j :: datalen < j < i ==> data[j] == 0
      {
        data[i] := 0;
        i := i + 1;
      }
      assert data[..limit] == tail + ([0x80] + Zeros(limit - datalen - 1));
    }

    /** bitlen into the last eight bytes */
    method PutLength()
      requires Shape()
      modifies data
      ensures data[..] == old(data[..56]) + BytesOf(bitlen, 8)
    {
      ghost var front := data[..56];
      forall i | 0 <= i < 8 { data[63 - i] := ByteAt(bitlen, i); }
      assert data[..56] == front && data[56..] == BytesOf(bitlen, 8);
    }

    /** byte j of every word is in its place. */
    ghost predicate Column(hash: seq<byte>, j: nat)
      requires Shape() && |hash| == 32 && j < 4
      reads state
    {
      && hash[j] == p.byteOf(state[0], j) && hash[j + 4] == p.byteOf(state[1], j)
      && hash[j + 8] == p.byteOf(state[2], j) && hash[j + 12] == p.byteOf(state[3], j)
      && hash[j + 16] == p.byteOf(state[4], j) && hash[j + 20] == p.byteOf(state[5], j)
      && hash[j + 24] == p.byteOf(state[6], j) && hash[j + 28] == p.byteOf(state[7], j)
    }

    ghost predicate Columns(hash: seq<byte>, i: nat)
      requires Shape() && |hash| == 32 && i <= 4
      reads state
    {
      forall j :: 0 <= j < i ==> Column(hash, j)
    }

    /** byte i of every word, the rest being as before. */
    method PutColumn(hash: array<byte>, i: nat)
      requires Shape() && hash.Length == 32 && i < 4
      requires hash != data
      modifies hash
      ensures Column(hash[..], i)
      ensures forall k {:trigger hash[k]} :: 0 <= k < 32 && k % 4 != i ==> hash[k] == old(hash[k])
    {
      hash[i] := p.byteOf(state[0], i);
      hash[i + 4] := p.byteOf(state[1], i);
      hash[i + 8] := p.byteOf(state[2], i);
      hash[i + 12] := p.byteOf(state[3], i);
      hash[i + 16] := p.byteOf(state[4], i);
      hash[i + 20] := p.byteOf(state[5], i);
      hash[i + 24] := p.byteOf(state[6], i);
      hash[i + 28] := p.byteOf(state[7], i);
    }

    /** The words of the state, the highest byte of each first. */
    method PutHash() returns (hash: array<byte>)
      requires Shape()
      ensures fresh(hash) && hash[..] == Output(p, Hash())
    {
      hash := new byte[32];
      var i := 0;
      while i < 4
        invariant 0 <= i <= 4 && Columns(hash[..], i)
      {
        ghost var was := hash[..];
        PutColumn(hash, i);
        forall j | 0 <= j < i ensures Column(hash[..], j) { assert Column(was, j); }
        i := i + 1;
      }
      AllPut(hash[..]);
    }

    lemma AllPut(hash: seq<byte>)
      requires Shape() && |hash| == 32 && Columns(hash, 4)
      ensures hash == Output(p, Hash())
    {
      assert Column(hash, 0) && Column(hash, 1) && Column(hash, 2) && Column(hash, 3);
      Four(hash, 0, state[0]);
      Four(hash, 4, state[1]);
      Four(hash, 8, state[2]);
      Four(hash, 12, state[3]);
      Four(hash, 16, state[4]);
      Four(hash, 20, state[5]);
      Four(hash, 24, state[6]);
      Four(hash, 28, state[7]);
      Eight(hash);
    }

    lemma Four(h: seq<byte>, k: nat, w: W)
      requires |h| == 32 && k <= 28
      requires h[k] == p.byteOf(w, 0) && h[k + 1] == p.byteOf(w, 1) && h[k + 2] == p.byteOf(w, 2) && h[k + 3] == p.byteOf(w, 3)
      ensures h[k..k + 4] == FourBytes(p, w)
    {
    }

    static lemma Eight(h: seq<byte>)
      requires |h| == 32
      ensures h == h[0..4] + h[4..8] + h[8..12] + h[12..16] + h[16..20] + h[20..24] + h[24..28] + h[28..32]
    {
    }

    /** The first part of sha256_final: the padding up to the length, with a block of its own if
        the buffer has no room for the length. */
    method PadMessage()
      requires Shape() && datalen < 64
      modifies data, state
      ensures data[..56] == Front(old(data[..datalen])) && Hash() == Before(p, old(Hash()), old(data[..datalen]))
    {
      if datalen < 56 {
        PadBuffer(56);
      } else {
        PadBuffer(64);
        assert data[..64] == data[..];
        Transform();
        forall i | 0 <= i < 56 { data[i] := 0; }
        assert data[..56] == Zeros(56);
      }
    }

    /** The second part: the length in bits, and the last block. */
    method AppendLength()
      requires Shape()
      modifies this`bitlen, data, state
      ensures Hash() == Compress(p, old(Hash()), old(data[..56]) + BytesOf(U64(old(bitlen) + datalen * 8), 8))
    {
      bitlen := U64(bitlen + datalen * 8);
      PutLength();
      Transform();
    }

    /** Both parts, for a message of n bytes. */
    method Finish(ghost n: nat)
      requires Shape() && datalen < 64 && U64(bitlen + datalen * 8) == U64(8 * n)
      modifies this`bitlen, data, state
      ensures Hash() == Closed(p, old(Hash()), old(data[..datalen]), n)
    {
      PadMessage();
      AppendLength();
    }

    /** The last one or two blocks. */
    method Close()
      requires Valid()
      modifies this`bitlen, data, state
      ensures Shape() && Output(p, Hash()) == DigestOf(p, h0, message)
    {
      ghost var n := |message|;
      ClosedIsDigest(p, h0, message, blocks, data[..datalen]);
      AllBits(blocks, datalen, n);
      Finish(n);
    }

    static lemma AllBits(n: nat, rest: nat, len: nat)
      requires len == 64 * n + rest
      ensures U64(U64(512 * n) + rest * 8) == U64(8 * len)
    {
      U64Add(512 * n, rest * 8);
    }

    /** sha256_final, through either padding path: the digest of all bytes that were fed. */
    method Final() returns (hash: array<byte>)
      requires Valid()
      modifies this`bitlen, data, state
      ensures fresh(hash) && hash[..] == DigestOf(p, h0, message)
    {
      Close();
      hash := PutHash();
    }
  }

  /** What stands before the length in the last block, when `rest` bytes remain of the message. */
  function Front(rest: seq<byte>): (f: seq<byte>)
    requires |rest| < 64
    ensures |f| == 56
  {
    if |rest| < 56 then rest + ([0x80] + Zeros(55 - |rest|)) else Zeros(56)
  }

  /** The hash value before the last block: if the length does not fit behind the rest of the
      message, the padding makes two blocks. */
  function Before<W>(p: Prim<W>, v: Vars<W>, rest: seq<byte>): Vars<W>
    requires |rest| < 64
  {
    if |rest| < 56 then v else Compress(p, v, rest + ([0x80] + Zeros(63 - |rest|)))
  }

  /** The hash value after a message of n bytes, of which `rest` remain after the whole blocks. */
  function Closed<W>(p: Prim<W>, v: Vars<W>, rest: seq<byte>, n: nat): Vars<W>
    requires |rest| < 64
  {
    Compress(p, Before(p, v, rest), Front(rest) + BytesOf(U64(8 * n), 8))
  }

  lemma ClosedIsDigest<W>(p: Prim<W>, h0: Vars<W>, m: seq<byte>, n: nat, rest: seq<byte>)
    requires |m| == 64 * n + |rest| && |rest| < 64 && rest == m[64 * n..]
    ensures DigestOf(p, h0, m) == Output(p, Closed(p, Fold(p, h0, m, n), rest, |m|))
  {
    if |rest| < 56 { ShortPadding(p, h0, m, n, rest); } else { LongPadding(p, h0, m, n, rest); }
  }

  /** With less than 56 bytes left, the padding makes one more block. */
  lemma {:induction false} ShortPadding<W>(p: Prim<W>, h0: Vars<W>, m: seq<byte>, n: nat, rest: seq<byte>)
    requires |m| == 64 * n + |rest| && |rest| < 56 && rest == m[64 * n..]
    ensures DigestOf(p, h0, m) == Output(p, Closed(p, Fold(p, h0, m, n), rest, |m|))
  {
    PadsOne(m, n, rest);
    FoldFirst(p, h0, m, n, rest, Padding(|m|));
    assert |Pad(m)| == 64 * (n + 1);
  }

  lemma {:induction false} PadsOne(m: seq<byte>, n: nat, rest: seq<byte>)
    requires |m| == 64 * n + |rest| && |rest| < 56
    ensures rest + Padding(|m|) == rest + ([0x80] + Zeros(55 - |rest|)) + BytesOf(U64(8 * |m|), 8)
  {
    ZerosFor(n, |rest|);
  }

  /** Else it makes two: the second holds zeroes and the length. */
  lemma {:induction false} LongPadding<W>(p: Prim<W>, h0: Vars<W>, m: seq<byte>, n: nat, rest: seq<byte>)
    requires |m| == 64 * n + |rest| && 56 <= |rest| < 64 && rest == m[64 * n..]
    ensures DigestOf(p, h0, m) == Output(p, Closed(p, Fold(p, h0, m, n), rest, |m|))
  {
    var front := [0x80] + Zeros(63 - |rest|);
    var last := Zeros(56) + BytesOf(U64(8 * |m|), 8);
    PadsTwo(m, n, rest);
    Joined(m, front, last);
    FoldFirst(p, h0, m, n, rest, front);
    FoldSecond(p, h0, m + front, last, n + 1);
    assert |Pad(m)| == 64 * (n + 2);
  }

  lemma Joined(m: seq<byte>, front: seq<byte>, last: seq<byte>)
    ensures m + (front + last) == (m + front) + last
  {
  }

  lemma {:induction false} PadsTwo(m: seq<byte>, n: nat, rest: seq<byte>)
    requires |m| == 64 * n + |rest| && 56 <= |rest| < 64
    ensures Padding(|m|) == [0x80] + Zeros(63 - |rest|) + (Zeros(56) + BytesOf(U64(8 * |m|), 8))
  {
    ZerosFor(n, |rest|);
    ZerosSplit(63 - |rest|, 56);
  }

  lemma ZerosSplit(a: nat, b: nat)
    ensures Zeros(a + b) == Zeros(a) + Zeros(b)
  {
  }

  lemma {:induction false} FoldFirst<W>(p: Prim<W>, h0: Vars<W>, m: seq<byte>, n: nat, rest: seq<byte>, more: seq<byte>)
    requires |m| == 64 * n + |rest| && rest == m[64 * n..] && |rest| + |more| == 64
    ensures Fold(p, h0, m + more, n + 1) == Compress(p, Fold(p, h0, m, n), rest + more)
  {
    FoldPrefix(p, h0, m, more, n);
    FoldNext(p, h0, m + more, n);
    assert (m + more)[64 * n..] == rest + more;
  }

  lemma {:induction false} FoldSecond<W>(p: Prim<W>, h0: Vars<W>, m: seq<byte>, last: seq<byte>, n: nat)
    requires |m| == 64 * n && |last| == 64
    ensures Fold(p, h0, m + last, n + 1) == Compress(p, Fold(p, h0, m, n), last)
  {
    FoldFirst(p, h0, m, n, [], last);
    assert [] + last == last;
  }

  function Concat(parts: seq<seq<byte>>): seq<byte> {
    if parts == [] then [] else Concat(parts[..|parts| - 1]) + parts[|parts| - 1]
  }

  lemma {:induction false} ConcatNext(parts: seq<seq<byte>>, i: nat)
    requires i < |parts|
    ensures Concat(parts[..i + 1]) == Concat(parts[..i]) + parts[i]
  {
    assert parts[..i + 1][..i] == parts[..i];
  }

  /** Init, any number of updates, and final: the digest of all the parts together, and so the
      same however a message is split. */
  method HashParts(parts: seq<seq<byte>>) returns (hash: array<byte>)
    ensures hash[..] == Digest(Concat(parts))
  {
    var ctx := new Ctx<Word>(SHA, H0);
    var i := 0;
    while i < |parts|
      invariant 0 <= i <= |parts| && ctx.Valid() && ctx.message == Concat(parts[..i])
      invariant fresh(ctx) && fresh(ctx.data) && fresh(ctx.state) && ctx.p == SHA && ctx.h0 == H0
    {
      ConcatNext(parts, i);
      ctx.Update(parts[i]);
      i := i + 1;
    }
    assert parts[..i] == parts;
    hash := ctx.Final();
  }
}
