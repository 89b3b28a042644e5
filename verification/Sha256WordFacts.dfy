/** What the operations on words do (FIPS 180-4, sections 2.2.2, 3.2 and 4.1.2). */
module Sha256WordFacts {
  import opened BreezeFrame
  import opened Sha256Spec
  import opened Sha256Words

  /** Ch chooses: where x has its bits, those of y; elsewhere those of z. */
  lemma ChMeaning(x: Word, y: Word, z: Word)
    ensures Ch(x, y, z) & x == y & x && Ch(x, y, z) & !x == z & !x
  {
  }

  /** Maj takes the majority: where x and y agree, their bits; elsewhere those of z. */
  lemma MajMeaning(x: Word, y: Word, z: Word)
    ensures Maj(x, y, z) & !(x ^ y) == x & !(x ^ y) && Maj(x, y, z) & (x ^ y) == z & (x ^ y)
  {
  }

  /** The i-th bit of a word, the lowest first. */
  predicate Bit(w: Word, i: Word)
    requires i < 32
  {
    (w >> i) & 1 == 1
  }

  /** The amounts by which words are rotated. */
  predicate IsAmount(n: Word) {
    n == 2 || n == 6 || n == 7 || n == 11 || n == 13 || n == 17 || n == 18 || n == 19 || n == 22 || n == 25
  }

  /** Rotation to the right: each bit is the one that was n places higher, and those that fall out
      come in at the top. */
  lemma RotatesBits(x: Word, n: Word, i: Word)
    requires i < 32 && IsAmount(n)
    ensures Bit(RotRight(x, n), i) == Bit(x, (i + n) & 31)
  {
    if n == 2 {} else if n == 6 {} else if n == 7 {} else if n == 11 {} else if n == 13 {}
    else if n == 17 {} else if n == 18 {} else if n == 19 {} else if n == 22 {} else {}
  }

  // ---------- words and bytes ----------

  lemma FourParts(w: Word)
    ensures ((((w >> 24) & 0xff) << 24) | (((w >> 16) & 0xff) << 16) | (((w >> 8) & 0xff) << 8) | (w & 0xff)) == w
  {
  }

  lemma ThereAndBack(w: Word)
    requires w < 256
    ensures ((w as int) as Word) == w
  {
  }

  lemma ByteBack(w: Word, b: byte)
    requires b == LowByte(w)
    ensures (b as Word) == w & 0xff
  {
    ThereAndBack(w & 0xff);
  }

  lemma FromParts(w: Word, a: byte, b: byte, c: byte, d: byte)
    requires (a as Word) == (w >> 24) & 0xff && (b as Word) == (w >> 16) & 0xff
    requires (c as Word) == (w >> 8) & 0xff && (d as Word) == w & 0xff
    ensures BigEndian(a, b, c, d) == w
  {
    FourParts(w);
  }

  /** The bytes that a word is written as are read back as the word. */
  lemma ReadsBack(w: Word, a: byte, b: byte, c: byte, d: byte)
    requires FourBytes(SHA, w) == [a, b, c, d]
    ensures SHA.load(a, b, c, d) == w
  {
    BytesAre(w, a, b, c, d);
    ByteBack(w >> 24, a);
    ByteBack(w >> 16, b);
    ByteBack(w >> 8, c);
    ByteBack(w, d);
    FromParts(w, a, b, c, d);
  }

  lemma BytesAre(w: Word, a: byte, b: byte, c: byte, d: byte)
    requires FourBytes(SHA, w) == [a, b, c, d]
    ensures WordByte(w, 0) == a && WordByte(w, 1) == b && WordByte(w, 2) == c && WordByte(w, 3) == d
  {
    var s := FourBytes(SHA, w);
    assert s[0] == a && s[1] == b && s[2] == c && s[3] == d;
  }
}
