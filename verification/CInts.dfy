/** Narrow unsigned integers of the C code, as functions that step down to the remainder. */
module CInts {

  /** The value of an uint8_t field that n was stored in: n modulo 256 (see U8IsMod). */
  function U8(n: nat): (r: nat)
    ensures r < 256 && r <= n && (r == n <==> n < 256)
  {
    if n < 256 then n else U8(n - 256)
  }

  lemma {:induction false} U8IsMod(n: nat)
    ensures U8(n) == n % 256
  {
    if n >= 256 { U8IsMod(n - 256); }
  }

  lemma {:induction false} U8Next(n: nat)
    ensures U8(U8(n) + 1) == U8(n + 1)
  {
    if n >= 256 { U8Next(n - 256); }
  }

  /** n & 0xF */
  function Low4(n: nat): (r: nat)
    ensures r < 16 && r <= n && (r == n <==> n < 16)
  {
    if n < 16 then n else Low4(n - 16)
  }

  lemma {:induction false} Low4IsMod(n: nat)
    ensures Low4(n) == n % 16
  {
    if n >= 16 { Low4IsMod(n - 16); }
  }

  lemma {:induction false} Low4Shift(n: nat, k: nat)
    ensures Low4(n + 16 * k) == Low4(n)
  {
    if k > 0 { Low4Shift(n, k - 1); }
  }

  /** The low nibble of an uint8_t is that of the number stored in it. */
  lemma {:induction false} Low4OfU8(n: nat)
    ensures Low4(U8(n)) == Low4(n)
  {
    if n >= 256 {
      Low4OfU8(n - 256);
      Low4Shift(n - 256, 16);
    }
  }

  /** n / 16 */
  function Blocks16(n: nat): (r: nat)
    ensures 16 * r <= n < 16 * r + 16
  {
    if n < 16 then 0 else 1 + Blocks16(n - 16)
  }
}
