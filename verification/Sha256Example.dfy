/** The worked example of FIPS 180-2, appendix B.1: the digest of "abc", round by round. */
module Sha256Example {
  import opened BreezeFrame
  import opened Sha256Spec
  import opened Sha256Words

  // ---------- the words of the only block ----------

  /** W_t, in rows of eight. */
  const SCHEDULE: seq<seq<Word>> := [
    [0x61626380, 0x00000000, 0x00000000, 0x00000000, 0x00000000, 0x00000000, 0x00000000, 0x00000000],
    [0x00000000, 0x00000000, 0x00000000, 0x00000000, 0x00000000, 0x00000000, 0x00000000, 0x00000018],
    [0x61626380, 0x000f0000, 0x7da86405, 0x600003c6, 0x3e9d7b78, 0x0183fc00, 0x12dcbfdb, 0xe2e2c38e],
    [0xc8215c1a, 0xb73679a2, 0xe5bc3909, 0x32663c5b, 0x9d209d67, 0xec8726cb, 0x702138a4, 0xd3b7973b],
    [0x93f5997f, 0x3b68ba73, 0xaff4ffc1, 0xf10a5c62, 0x0a8b3996, 0x72af830a, 0x9409e33e, 0x24641522],
    [0x9f47bf94, 0xf0a64f5a, 0x3e246a79, 0x27333ba3, 0x0c4763f2, 0x840abf27, 0x7a290d5d, 0x065c43da],
    [0xfb3e89cb, 0xcc7617db, 0xb9e66c34, 0xa9993667, 0x84badedd, 0xc21462bc, 0x1487472c, 0xb20f7a99],
    [0xef57b9cd, 0xebe6b238, 0x9fe3095e, 0x78bc8d4b, 0xa43fcf15, 0x668b2ff8, 0xeeaba2cc, 0x12b1edeb]
  ]

  function W(t: nat): Word
    requires t < 64
  {
    SCHEDULE[t / 8][t % 8]
  }

  /** W_t comes from the words before it. */
  predicate WordAt(t: nat)
    requires 16 <= t < 64
  {
    Next(W(t - 2), W(t - 7), W(t - 15), W(t - 16)) == W(t)
  }

  lemma {:induction false} NextIs(t: nat, w2: Word, w7: Word, w15: Word, w16: Word, w: Word)
    requires 16 <= t < 64 && W(t - 2) == w2 && W(t - 7) == w7 && W(t - 15) == w15 && W(t - 16) == w16 && W(t) == w
    requires Next(w2, w7, w15, w16) == w
    ensures WordAt(t)
  {
  }

  lemma {:induction false} Words16(t: nat)
    requires 16 <= t < 20
    ensures WordAt(t)
  {
    match t
    case 16 => NextIs(16, 0x00000000, 0x00000000, 0x00000000, 0x61626380, 0x61626380);
    case 17 => NextIs(17, 0x00000018, 0x00000000, 0x00000000, 0x00000000, 0x000f0000);
    case 18 => NextIs(18, 0x61626380, 0x00000000, 0x00000000, 0x00000000, 0x7da86405);
    case 19 => NextIs(19, 0x000f0000, 0x00000000, 0x00000000, 0x00000000, 0x600003c6);
  }

  lemma {:induction false} Words20(t: nat)
    requires 20 <= t < 24
    ensures WordAt(t)
  {
    match t
    case 20 => NextIs(20, 0x7da86405, 0x00000000, 0x00000000, 0x00000000, 0x3e9d7b78);
    case 21 => NextIs(21, 0x600003c6, 0x00000000, 0x00000000, 0x00000000, 0x0183fc00);
    case 22 => NextIs(22, 0x3e9d7b78, 0x00000018, 0x00000000, 0x00000000, 0x12dcbfdb);
    case 23 => NextIs(23, 0x0183fc00, 0x61626380, 0x00000000, 0x00000000, 0xe2e2c38e);
  }

  lemma {:induction false} Words24(t: nat)
    requires 24 <= t < 28
    ensures WordAt(t)
  {
    match t
    case 24 => NextIs(24, 0x12dcbfdb, 0x000f0000, 0x00000000, 0x00000000, 0xc8215c1a);
    case 25 => NextIs(25, 0xe2e2c38e, 0x7da86405, 0x00000000, 0x00000000, 0xb73679a2);
    case 26 => NextIs(26, 0xc8215c1a, 0x600003c6, 0x00000000, 0x00000000, 0xe5bc3909);
    case 27 => NextIs(27, 0xb73679a2, 0x3e9d7b78, 0x00000000, 0x00000000, 0x32663c5b);
  }

  lemma {:induction false} Words28(t: nat)
    requires 28 <= t < 32
    ensures WordAt(t)
  {
    match t
    case 28 => NextIs(28, 0xe5bc3909, 0x0183fc00, 0x00000000, 0x00000000, 0x9d209d67);
    case 29 => NextIs(29, 0x32663c5b, 0x12dcbfdb, 0x00000000, 0x00000000, 0xec8726cb);
    case 30 => NextIs(30, 0x9d209d67, 0xe2e2c38e, 0x00000018, 0x00000000, 0x702138a4);
    case 31 => NextIs(31, 0xec8726cb, 0xc8215c1a, 0x61626380, 0x00000018, 0xd3b7973b);
  }

  lemma {:induction false} Words32(t: nat)
    requires 32 <= t < 36
    ensures WordAt(t)
  {
    match t
    case 32 => NextIs(32, 0x702138a4, 0xb73679a2, 0x000f0000, 0x61626380, 0x93f5997f);
    case 33 => NextIs(33, 0xd3b7973b, 0xe5bc3909, 0x7da86405, 0x000f0000, 0x3b68ba73);
    case 34 => NextIs(34, 0x93f5997f, 0x32663c5b, 0x600003c6, 0x7da86405, 0xaff4ffc1);
    case 35 => NextIs(35, 0x3b68ba73, 0x9d209d67, 0x3e9d7b78, 0x600003c6, 0xf10a5c62);
  }

  lemma {:induction false} Words36(t: nat)
    requires 36 <= t < 40
    ensures WordAt(t)
  {
    match t
    case 36 => NextIs(36, 0xaff4ffc1, 0xec8726cb, 0x0183fc00, 0x3e9d7b78, 0x0a8b3996);
    case 37 => NextIs(37, 0xf10a5c62, 0x702138a4, 0x12dcbfdb, 0x0183fc00, 0x72af830a);
    case 38 => NextIs(38, 0x0a8b3996, 0xd3b7973b, 0xe2e2c38e, 0x12dcbfdb, 0x9409e33e);
    case 39 => NextIs(39, 0x72af830a, 0x93f5997f, 0xc8215c1a, 0xe2e2c38e, 0x24641522);
  }

  lemma {:induction false} Words40(t: nat)
    requires 40 <= t < 44
    ensures WordAt(t)
  {
    match t
    case 40 => NextIs(40, 0x9409e33e, 0x3b68ba73, 0xb73679a2, 0xc8215c1a, 0x9f47bf94);
    case 41 => NextIs(41, 0x24641522, 0xaff4ffc1, 0xe5bc3909, 0xb73679a2, 0xf0a64f5a);
    case 42 => NextIs(42, 0x9f47bf94, 0xf10a5c62, 0x32663c5b, 0xe5bc3909, 0x3e246a79);
    case 43 => NextIs(43, 0xf0a64f5a, 0x0a8b3996, 0x9d209d67, 0x32663c5b, 0x27333ba3);
  }

  lemma {:induction false} Words44(t: nat)
    requires 44 <= t < 48
    ensures WordAt(t)
  {
    match t
    case 44 => NextIs(44, 0x3e246a79, 0x72af830a, 0xec8726cb, 0x9d209d67, 0x0c4763f2);
    case 45 => NextIs(45, 0x27333ba3, 0x9409e33e, 0x702138a4, 0xec8726cb, 0x840abf27);
    case 46 => NextIs(46, 0x0c4763f2, 0x24641522, 0xd3b7973b, 0x702138a4, 0x7a290d5d);
    case 47 => NextIs(47, 0x840abf27, 0x9f47bf94, 0x93f5997f, 0xd3b7973b, 0x065c43da);
  }

  lemma {:induction false} Words48(t: nat)
    requires 48 <= t < 52
    ensures WordAt(t)
  {
    match t
    case 48 => NextIs(48, 0x7a290d5d, 0xf0a64f5a, 0x3b68ba73, 0x93f5997f, 0xfb3e89cb);
    case 49 => NextIs(49, 0x065c43da, 0x3e246a79, 0xaff4ffc1, 0x3b68ba73, 0xcc7617db);
    case 50 => NextIs(50, 0xfb3e89cb, 0x27333ba3, 0xf10a5c62, 0xaff4ffc1, 0xb9e66c34);
    case 51 => NextIs(51, 0xcc7617db, 0x0c4763f2, 0x0a8b3996, 0xf10a5c62, 0xa9993667);
  }

  lemma {:induction false} Words52(t: nat)
    requires 52 <= t < 56
    ensures WordAt(t)
  {
    match t
    case 52 => NextIs(52, 0xb9e66c34, 0x840abf27, 0x72af830a, 0x0a8b3996, 0x84badedd);
    case 53 => NextIs(53, 0xa9993667, 0x7a290d5d, 0x9409e33e, 0x72af830a, 0xc21462bc);
    case 54 => NextIs(54, 0x84badedd, 0x065c43da, 0x24641522, 0x9409e33e, 0x1487472c);
    case 55 => NextIs(55, 0xc21462bc, 0xfb3e89cb, 0x9f47bf94, 0x24641522, 0xb20f7a99);
  }

  lemma {:induction false} Words56(t: nat)
    requires 56 <= t < 60
    ensures WordAt(t)
  {
    match t
    case 56 => NextIs(56, 0x1487472c, 0xcc7617db, 0xf0a64f5a, 0x9f47bf94, 0xef57b9cd);
    case 57 => NextIs(57, 0xb20f7a99, 0xb9e66c34, 0x3e246a79, 0xf0a64f5a, 0xebe6b238);
    case 58 => NextIs(58, 0xef57b9cd, 0xa9993667, 0x27333ba3, 0x3e246a79, 0x9fe3095e);
    case 59 => NextIs(59, 0xebe6b238, 0x84badedd, 0x0c4763f2, 0x27333ba3, 0x78bc8d4b);
  }

  lemma {:induction false} Words60(t: nat)
    requires 60 <= t < 64
    ensures WordAt(t)
  {
    match t
    case 60 => NextIs(60, 0x9fe3095e, 0xc21462bc, 0x840abf27, 0x0c4763f2, 0xa43fcf15);
    case 61 => NextIs(61, 0x78bc8d4b, 0x1487472c, 0x7a290d5d, 0x840abf27, 0x668b2ff8);
    case 62 => NextIs(62, 0xa43fcf15, 0xb20f7a99, 0x065c43da, 0x7a290d5d, 0xeeaba2cc);
    case 63 => NextIs(63, 0x668b2ff8, 0xef57b9cd, 0xfb3e89cb, 0x065c43da, 0x12b1edeb);
  }

  // ---------- the rounds ----------

  predicate IsRound(v: Vars<Word>, k: Word, w: Word, a: Word, e: Word) {
    Plus(T1(v.e, v.f, v.g, v.h, k, w), T2(v.a, v.b, v.c)) == a && Plus(v.d, T1(v.e, v.f, v.g, v.h, k, w)) == e
  }

  function Moved(v: Vars<Word>, a: Word, e: Word): Vars<Word> {
    Vars(a, v.a, v.b, v.c, e, v.e, v.f, v.g)
  }

  lemma RoundIs(v: Vars<Word>, k: Word, w: Word, a: Word, e: Word)
    requires IsRound(v, k, w, a, e)
    ensures Round(SHA, v, k, w) == Moved(v, a, e)
  {
  }

  predicate IsRoundNumber(t: int) {
    0 <= t < 64
  }

  /** The variables before each round, and after the last. */
  ghost predicate IsRun(vs: seq<Vars<Word>>) {
    |vs| == 65 && vs[0] == H0
    && forall t {:trigger IsRoundNumber(t)} :: IsRoundNumber(t) ==> vs[t + 1] == Round(SHA, vs[t], SHA.k(t), W(t))
  }

  /** Round t, with the new values of the variables a and e. */
  lemma {:induction false} Go(vs: seq<Vars<Word>>, v: Vars<Word>, t: nat, k: Word, w: Word, a: Word, e: Word) returns (r: Vars<Word>)
    requires IsRun(vs) && t < 64 && vs[t] == v && K(t) == k && W(t) == w && IsRound(v, k, w, a, e)
    ensures r == Moved(v, a, e) && vs[t + 1] == r
  {
    assert IsRoundNumber(t);
    RoundIs(v, k, w, a, e);
    r := vs[t + 1];
  }

  lemma {:induction false} Rounds0(vs: seq<Vars<Word>>)
    requires IsRun(vs)
    requires vs[0] == Vars(0x6a09e667, 0xbb67ae85, 0x3c6ef372, 0xa54ff53a, 0x510e527f, 0x9b05688c, 0x1f83d9ab, 0x5be0cd19)
    ensures vs[8] == Vars(0x85a07b5f, 0xe5030380, 0x2b4209f5, 0x04409a6a, 0x0c657a79, 0x9b27a401, 0x714260ad, 0x43ada245)
  {
    var v := vs[0];
    v := Go(vs, v, 0, 0x428a2f98, 0x61626380, 0x5d6aebcd, 0xfa2a4622);
    v := Go(vs, v, 1, 0x71374491, 0x00000000, 0x5a6ad9ad, 0x78ce7989);
    v := Go(vs, v, 2, 0xb5c0fbcf, 0x00000000, 0xc8c347a7, 0xf92939eb);
    v := Go(vs, v, 3, 0xe9b5dba5, 0x00000000, 0xd550f666, 0x24e00850);
    v := Go(vs, v, 4, 0x3956c25b, 0x00000000, 0x04409a6a, 0x43ada245);
    v := Go(vs, v, 5, 0x59f111f1, 0x00000000, 0x2b4209f5, 0x714260ad);
    v := Go(vs, v, 6, 0x923f82a4, 0x00000000, 0xe5030380, 0x9b27a401);
    v := Go(vs, v, 7, 0xab1c5ed5, 0x00000000, 0x85a07b5f, 0x0c657a79);
  }

  lemma {:induction false} Rounds8(vs: seq<Vars<Word>>)
    requires IsRun(vs)
    requires vs[8] == Vars(0x85a07b5f, 0xe5030380, 0x2b4209f5, 0x04409a6a, 0x0c657a79, 0x9b27a401, 0x714260ad, 0x43ada245)
    ensures vs[16] == Vars(0xb0fa238e, 0xc0645fde, 0xd932eb16, 0x87912990, 0x07590dcd, 0x0b92f20c, 0x745a48de, 0x1e578218)
  {
    var v := vs[8];
    v := Go(vs, v, 8, 0xd807aa98, 0x00000000, 0x8e04ecb9, 0x32ca2d8c);
    v := Go(vs, v, 9, 0x12835b01, 0x00000000, 0x8c87346b, 0x1cc92596);
    v := Go(vs, v, 10, 0x243185be, 0x00000000, 0x4798a3f4, 0x436b23e8);
    v := Go(vs, v, 11, 0x550c7dc3, 0x00000000, 0xf71fc5a9, 0x816fd6e9);
    v := Go(vs, v, 12, 0x72be5d74, 0x00000000, 0x87912990, 0x1e578218);
    v := Go(vs, v, 13, 0x80deb1fe, 0x00000000, 0xd932eb16, 0x745a48de);
    v := Go(vs, v, 14, 0x9bdc06a7, 0x00000000, 0xc0645fde, 0x0b92f20c);
    v := Go(vs, v, 15, 0xc19bf174, 0x00000018, 0xb0fa238e, 0x07590dcd);
  }

  lemma {:induction false} Rounds16(vs: seq<Vars<Word>>)
    requires IsRun(vs)
    requires vs[16] == Vars(0xb0fa238e, 0xc0645fde, 0xd932eb16, 0x87912990, 0x07590dcd, 0x0b92f20c, 0x745a48de, 0x1e578218)
    ensures vs[24] == Vars(0xc5d53d8d, 0xa7a3623f, 0xc2606d6d, 0x9dc68b63, 0xaa47c347, 0x49f5114a, 0xe1257970, 0x8ada8930)
  {
    var v := vs[16];
    v := Go(vs, v, 16, 0xe49b69c1, 0x61626380, 0x21da9a9b, 0x8034229c);
    v := Go(vs, v, 17, 0xefbe4786, 0x000f0000, 0xc2fbd9d1, 0x846ee454);
    v := Go(vs, v, 18, 0x0fc19dc6, 0x7da86405, 0xfe777bbf, 0xcc899961);
    v := Go(vs, v, 19, 0x240ca1cc, 0x600003c6, 0xe1f20c33, 0xb0638179);
    v := Go(vs, v, 20, 0x2de92c6f, 0x3e9d7b78, 0x9dc68b63, 0x8ada8930);
    v := Go(vs, v, 21, 0x4a7484aa, 0x0183fc00, 0xc2606d6d, 0xe1257970);
    v := Go(vs, v, 22, 0x5cb0a9dc, 0x12dcbfdb, 0xa7a3623f, 0x49f5114a);
    v := Go(vs, v, 23, 0x76f988da, 0xe2e2c38e, 0xc5d53d8d, 0xaa47c347);
  }

  lemma {:induction false} Rounds24(vs: seq<Vars<Word>>)
    requires IsRun(vs)
    requires vs[24] == Vars(0xc5d53d8d, 0xa7a3623f, 0xc2606d6d, 0x9dc68b63, 0xaa47c347, 0x49f5114a, 0xe1257970, 0x8ada8930)
    ensures vs[32] == Vars(0x73b33bf5, 0xea992a22, 0xa0060b30, 0x363482c9, 0xba591112, 0x0109ab3a, 0xade79437, 0x6112a3b7)
  {
    var v := vs[24];
    v := Go(vs, v, 24, 0x983e5152, 0xc8215c1a, 0x1c2c2838, 0x2823ef91);
    v := Go(vs, v, 25, 0xa831c66d, 0xb73679a2, 0xcde8037d, 0x14383d8e);
    v := Go(vs, v, 26, 0xb00327c8, 0xe5bc3909, 0xb62ec4bc, 0xc74c6516);
    v := Go(vs, v, 27, 0xbf597fc7, 0x32663c5b, 0x77d37528, 0xedffbff8);
    v := Go(vs, v, 28, 0xc6e00bf3, 0x9d209d67, 0x363482c9, 0x6112a3b7);
    v := Go(vs, v, 29, 0xd5a79147, 0xec8726cb, 0xa0060b30, 0xade79437);
    v := Go(vs, v, 30, 0x06ca6351, 0x702138a4, 0xea992a22, 0x0109ab3a);
    v := Go(vs, v, 31, 0x14292967, 0xd3b7973b, 0x73b33bf5, 0xba591112);
  }

  lemma {:induction false} Rounds32(vs: seq<Vars<Word>>)
    requires IsRun(vs)
    requires vs[32] == Vars(0x73b33bf5, 0xea992a22, 0xa0060b30, 0x363482c9, 0xba591112, 0x0109ab3a, 0xade79437, 0x6112a3b7)
    ensures vs[40] == Vars(0x79ea687a, 0x6dc57a8a, 0x34df1604, 0x41a65cb1, 0x1efbc0a0, 0xf0781bc8, 0xa507a53d, 0x0772a26b)
  {
    var v := vs[32];
    v := Go(vs, v, 32, 0x27b70a85, 0x93f5997f, 0x98e12507, 0x9cd9f5f6);
    v := Go(vs, v, 33, 0x2e1b2138, 0x3b68ba73, 0xfe604df5, 0x59249dd3);
    v := Go(vs, v, 34, 0x4d2c6dfc, 0xaff4ffc1, 0xa9a7738c, 0x085f3833);
    v := Go(vs, v, 35, 0x53380d13, 0xf10a5c62, 0x65a0cfe4, 0xf4b002d6);
    v := Go(vs, v, 36, 0x650a7354, 0x0a8b3996, 0x41a65cb1, 0x0772a26b);
    v := Go(vs, v, 37, 0x766a0abb, 0x72af830a, 0x34df1604, 0xa507a53d);
    v := Go(vs, v, 38, 0x81c2c92e, 0x9409e33e, 0x6dc57a8a, 0xf0781bc8);
    v := Go(vs, v, 39, 0x92722c85, 0x24641522, 0x79ea687a, 0x1efbc0a0);
  }

  lemma {:induction false} Rounds40(vs: seq<Vars<Word>>)
    requires IsRun(vs)
    requires vs[40] == Vars(0x79ea687a, 0x6dc57a8a, 0x34df1604, 0x41a65cb1, 0x1efbc0a0, 0xf0781bc8, 0xa507a53d, 0x0772a26b)
    ensures vs[48] == Vars(0x4172328d, 0xa14c14b0, 0x72ab4b91, 0x26628815, 0xfecf0bc6, 0xd57b94a9, 0xb7755da1, 0xa80f11f0)
  {
    var v := vs[40];
    v := Go(vs, v, 40, 0xa2bfe8a1, 0x9f47bf94, 0xd6670766, 0x26352d63);
    v := Go(vs, v, 41, 0xa81a664b, 0xf0a64f5a, 0xdf46652f, 0x838b2711);
    v := Go(vs, v, 42, 0xc24b8b70, 0x3e246a79, 0x17aa0dfe, 0xdecd4715);
    v := Go(vs, v, 43, 0xc76c51a3, 0x27333ba3, 0x9d4baf93, 0xfda24c2e);
    v := Go(vs, v, 44, 0xd192e819, 0x0c4763f2, 0x26628815, 0xa80f11f0);
    v := Go(vs, v, 45, 0xd6990624, 0x840abf27, 0x72ab4b91, 0xb7755da1);
    v := Go(vs, v, 46, 0xf40e3585, 0x7a290d5d, 0xa14c14b0, 0xd57b94a9);
    v := Go(vs, v, 47, 0x106aa070, 0x065c43da, 0x4172328d, 0xfecf0bc6);
  }

  lemma {:induction false} Rounds48(vs: seq<Vars<Word>>)
    requires IsRun(vs)
    requires vs[48] == Vars(0x4172328d, 0xa14c14b0, 0x72ab4b91, 0x26628815, 0xfecf0bc6, 0xd57b94a9, 0xb7755da1, 0xa80f11f0)
    ensures vs[56] == Vars(0x38cc9913, 0x3ec45cdb, 0xf5702fdb, 0x101fd28f, 0x54cb266b, 0xe50e1b4f, 0x9f4787c3, 0x529e7d00)
  {
    var v := vs[48];
    v := Go(vs, v, 48, 0x19a4c116, 0xfb3e89cb, 0x05757ceb, 0xbd714038);
    v := Go(vs, v, 49, 0x1e376c08, 0xcc7617db, 0xf11bfaa8, 0x6e5c390c);
    v := Go(vs, v, 50, 0x2748774c, 0xb9e66c34, 0x7a0508a1, 0x52f1ccf7);
    v := Go(vs, v, 51, 0x34b0bcb5, 0xa9993667, 0x886e7a22, 0x49231c1e);
    v := Go(vs, v, 52, 0x391c0cb3, 0x84badedd, 0x101fd28f, 0x529e7d00);
    v := Go(vs, v, 53, 0x4ed8aa4a, 0xc21462bc, 0xf5702fdb, 0x9f4787c3);
    v := Go(vs, v, 54, 0x5b9cca4f, 0x1487472c, 0x3ec45cdb, 0xe50e1b4f);
    v := Go(vs, v, 55, 0x682e6ff3, 0xb20f7a99, 0x38cc9913, 0x54cb266b);
  }

  lemma {:induction false} Rounds56(vs: seq<Vars<Word>>)
    requires IsRun(vs)
    requires vs[56] == Vars(0x38cc9913, 0x3ec45cdb, 0xf5702fdb, 0x101fd28f, 0x54cb266b, 0xe50e1b4f, 0x9f4787c3, 0x529e7d00)
    ensures vs[64] == Vars(0x506e3058, 0xd39a2165, 0x04d24d6c, 0xb85e2ce9, 0x5ef50f24, 0xfb121210, 0x948d25b6, 0x961f4894)
  {
    var v := vs[56];
    v := Go(vs, v, 56, 0x748f82ee, 0xef57b9cd, 0xfcd1887b, 0x9b5e906c);
    v := Go(vs, v, 57, 0x78a5636f, 0xebe6b238, 0xc062d46f, 0x7e44008e);
    v := Go(vs, v, 58, 0x84c87814, 0x9fe3095e, 0xffb70472, 0x6d83bfc6);
    v := Go(vs, v, 59, 0x8cc70208, 0x78bc8d4b, 0xb6ae8fff, 0xb21bad3d);
    v := Go(vs, v, 60, 0x90befffa, 0xa43fcf15, 0xb85e2ce9, 0x961f4894);
    v := Go(vs, v, 61, 0xa4506ceb, 0x668b2ff8, 0x04d24d6c, 0x948d25b6);
    v := Go(vs, v, 62, 0xbef9a3f7, 0xeeaba2cc, 0xd39a2165, 0xfb121210);
    v := Go(vs, v, 63, 0xc67178f2, 0x12b1edeb, 0x506e3058, 0x5ef50f24);
  }

  lemma {:induction false} AllRounds(vs: seq<Vars<Word>>)
    requires IsRun(vs)
    ensures vs[64] == Vars(0x506e3058, 0xd39a2165, 0x04d24d6c, 0xb85e2ce9, 0x5ef50f24, 0xfb121210, 0x948d25b6, 0x961f4894)
  {
    Rounds0(vs);
    Rounds8(vs);
    Rounds16(vs);
    Rounds24(vs);
    Rounds32(vs);
    Rounds40(vs);
    Rounds48(vs);
    Rounds56(vs);
  }

  // ---------- the message ----------

  /** "abc" */
  const ABC: seq<byte> := [97, 98, 99]

  /** Its published digest. */
  const DIGEST: seq<byte> :=
    [0xba, 0x78, 0x16, 0xbf] + [0x8f, 0x01, 0xcf, 0xea] + [0x41, 0x41, 0x40, 0xde] + [0x5d, 0xae, 0x22, 0x23]
    + [0xb0, 0x03, 0x61, 0xa3] + [0x96, 0x17, 0x7a, 0x9c] + [0xb4, 0x10, 0xff, 0x61] + [0xf2, 0x00, 0x15, 0xad]

  /** Its only block: the message, a one bit, zeroes, and 24 for its length in bits. */
  predicate IsBlock(block: seq<byte>) {
    && |block| == 64 && block[0] == 97 && block[1] == 98 && block[2] == 99 && block[3] == 0x80 && block[63] == 24
    && forall i :: 4 <= i < 63 ==> block[i] == 0
  }

  lemma {:induction false} PadsToBlock()
    ensures IsBlock(Pad(ABC))
  {
    assert ZeroCount(3) == 52;
    var l := BytesOf(U64(24), 8);
    forall i | 0 <= i < 8 ensures l[i] == if i == 7 then 24 else 0 { SmallByte(7 - i); }
    assert Pad(ABC) == ABC + ([0x80] + Zeros(52) + l);
  }

  lemma {:induction false} SmallByte(i: nat)
    ensures ByteAt(24, i) == if i == 0 then 24 else 0
  {
    if i > 0 { NoByte(i - 1); }
  }

  lemma {:induction false} NoByte(i: nat)
    ensures ByteAt(0, i) == 0
  {
    if i > 0 { NoByte(i - 1); }
  }

  lemma {:induction false} FirstWords(block: seq<byte>, t: nat)
    requires IsBlock(block) && t < 16
    ensures Schedule(SHA, block, t) == W(t)
  {
    LoadsFour();
    match t
    case 0 => case 1 => case 2 => case 3 => case 4 => case 5 => case 6 => case 7 =>
    case 8 => case 9 => case 10 => case 11 => case 12 => case 13 => case 14 => case 15 =>
  }

  lemma LoadsFour()
    ensures BigEndian(97, 98, 99, 0x80) == 0x61626380 && BigEndian(0, 0, 0, 0) == 0 && BigEndian(0, 0, 0, 24) == 0x18
  {
  }

  lemma {:induction false} EachWord(t: nat)
    requires 16 <= t < 64
    ensures WordAt(t)
  {
    if t < 20 { Words16(t); } else if t < 24 { Words20(t); } else if t < 28 { Words24(t); }
    else if t < 32 { Words28(t); } else if t < 36 { Words32(t); } else if t < 40 { Words36(t); }
    else if t < 44 { Words40(t); } else if t < 48 { Words44(t); } else if t < 52 { Words48(t); }
    else if t < 56 { Words52(t); } else if t < 60 { Words56(t); } else { Words60(t); }
  }

  lemma {:induction false} ScheduleIs(block: seq<byte>, t: nat)
    requires IsBlock(block) && t < 64
    ensures Schedule(SHA, block, t) == W(t)
  {
    if t < 16 {
      FirstWords(block, t);
    } else {
      ScheduleIs(block, t - 2);
      ScheduleIs(block, t - 7);
      ScheduleIs(block, t - 15);
      ScheduleIs(block, t - 16);
      EachWord(t);
    }
  }

  lemma {:induction false} RunsAlong(vs: seq<Vars<Word>>, ws: seq<Word>)
    requires |vs| == 65 && |ws| == 64 && forall t :: 0 <= t < 65 ==> vs[t] == Rounds(SHA, H0, ws[..t])
    requires forall t :: 0 <= t < 64 ==> ws[t] == W(t)
    ensures IsRun(vs)
  {
    forall t | IsRoundNumber(t) ensures vs[t + 1] == Round(SHA, vs[t], SHA.k(t), W(t)) {
      assert ws[..t + 1][..t] == ws[..t];
    }
  }

  lemma {:induction false} RunOf(ws: seq<Word>) returns (vs: seq<Vars<Word>>)
    requires |ws| == 64 && forall t :: 0 <= t < 64 ==> ws[t] == W(t)
    ensures IsRun(vs) && vs[64] == Rounds(SHA, H0, ws)
  {
    vs := Prefixes(SHA, H0, ws);
    RunsAlong(vs, ws);
    assert ws[..64] == ws;
  }

  function Prefixes<X>(p: Prim<X>, v: Vars<X>, ws: seq<X>): (vs: seq<Vars<X>>)
    requires |ws| == 64
    ensures |vs| == 65 && forall t :: 0 <= t < 65 ==> vs[t] == Rounds(p, v, ws[..t])
  {
    seq(65, t requires 0 <= t < 65 => Rounds(p, v, ws[..t]))
  }

  lemma {:induction false} LastVariables(ws: seq<Word>)
    requires |ws| == 64 && forall t :: 0 <= t < 64 ==> ws[t] == W(t)
    ensures Rounds(SHA, H0, ws)
         == Vars(0x506e3058, 0xd39a2165, 0x04d24d6c, 0xb85e2ce9, 0x5ef50f24, 0xfb121210, 0x948d25b6, 0x961f4894)
  {
    var vs := RunOf(ws);
    AllRounds(vs);
  }

  lemma {:induction false} AddIs(v: Vars<Word>, w: Vars<Word>)
    ensures Add(SHA, v, w) == Vars(Plus(v.a, w.a), Plus(v.b, w.b), Plus(v.c, w.c), Plus(v.d, w.d),
                                   Plus(v.e, w.e), Plus(v.f, w.f), Plus(v.g, w.g), Plus(v.h, w.h))
  {
  }

  /** The hash value after the block. */
  const HASH: Vars<Word> :=
    Vars(0xba7816bf, 0x8f01cfea, 0x414140de, 0x5dae2223, 0xb00361a3, 0x96177a9c, 0xb410ff61, 0xf20015ad)

  lemma {:induction false} HashOfBlock(block: seq<byte>)
    requires IsBlock(block)
    ensures Compress(SHA, H0, block) == HASH
  {
    forall t | 0 <= t < 64 ensures Words(SHA, block)[t] == W(t) { ScheduleIs(block, t); }
    LastVariables(Words(SHA, block));
    AddIs(H0, Rounds(SHA, H0, Words(SHA, block)));
  }

  lemma {:induction false} FourBytesAre(w: Word, a: byte, b: byte, c: byte, d: byte)
    requires WordByte(w, 0) == a && WordByte(w, 1) == b && WordByte(w, 2) == c && WordByte(w, 3) == d
    ensures FourBytes(SHA, w) == [a, b, c, d]
  {
  }

  lemma {:induction false} Bytes0()
    ensures FourBytes(SHA, 0xba7816bf) == [0xba, 0x78, 0x16, 0xbf]
    ensures FourBytes(SHA, 0x8f01cfea) == [0x8f, 0x01, 0xcf, 0xea]
    ensures FourBytes(SHA, 0x414140de) == [0x41, 0x41, 0x40, 0xde]
    ensures FourBytes(SHA, 0x5dae2223) == [0x5d, 0xae, 0x22, 0x23]
  {
    FourBytesAre(0xba7816bf, 0xba, 0x78, 0x16, 0xbf);
    FourBytesAre(0x8f01cfea, 0x8f, 0x01, 0xcf, 0xea);
    FourBytesAre(0x414140de, 0x41, 0x41, 0x40, 0xde);
    FourBytesAre(0x5dae2223, 0x5d, 0xae, 0x22, 0x23);
  }

  lemma {:induction false} Bytes4()
    ensures FourBytes(SHA, 0xb00361a3) == [0xb0, 0x03, 0x61, 0xa3]
    ensures FourBytes(SHA, 0x96177a9c) == [0x96, 0x17, 0x7a, 0x9c]
    ensures FourBytes(SHA, 0xb410ff61) == [0xb4, 0x10, 0xff, 0x61]
    ensures FourBytes(SHA, 0xf20015ad) == [0xf2, 0x00, 0x15, 0xad]
  {
    FourBytesAre(0xb00361a3, 0xb0, 0x03, 0x61, 0xa3);
    FourBytesAre(0x96177a9c, 0x96, 0x17, 0x7a, 0x9c);
    FourBytesAre(0xb410ff61, 0xb4, 0x10, 0xff, 0x61);
    FourBytesAre(0xf20015ad, 0xf2, 0x00, 0x15, 0xad);
  }

  lemma {:induction false} OneBlock<X>(p: Prim<X>, h0: Vars<X>, m: seq<byte>, v: Vars<X>)
    requires |Pad(m)| == 64 && Compress(p, h0, Pad(m)) == v
    ensures DigestOf(p, h0, m) == Output(p, v)
  {
    var block := Pad(m);
    assert block[0..64] == block && Fold(p, h0, block, 0) == h0;
  }

  lemma {:induction false} HashOfAbc()
    ensures DigestOf(SHA, H0, ABC) == Output(SHA, HASH)
  {
    PadsToBlock();
    HashOfBlock(Pad(ABC));
    OneBlock(SHA, H0, ABC, HASH);
  }

  lemma {:induction false} OutputIs()
    ensures Output(SHA, HASH) == DIGEST
  {
    Bytes0();
    Bytes4();
  }

  /** The published digest. */
  lemma {:induction false} DigestOfAbc()
    ensures Digest(ABC) == DIGEST
  {
    HashOfAbc();
    OutputIs();
  }
}
