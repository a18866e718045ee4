/** The words of SHA-256 and SHA-1 as FIPS 180-4 gives them: the constants by the roots of primes, the
    logical functions in another form, and the rounds as recurrences of one or two registers. */
module ShaStandard {
  import opened Common
  import opened Sha
  import Sha1
  import Sha256

  const TWO_32 := 0x1_0000_0000

  /** k is the first 32 bits of the fractional part of the square root of p, whose integer part is n. */
  ghost predicate RootBits(p: nat, n: nat, k: int)
  {
    var q := n * TWO_32 + k;
    0 <= k < TWO_32 && q * q <= p * TWO_32 * TWO_32 < (q + 1) * (q + 1)
  }

  /** k is the first 32 bits of the fractional part of the cube root of p, whose integer part is n. */
  ghost predicate CubeRootBits(p: nat, n: nat, k: int)
  {
    var q := n * TWO_32 + k;
    0 <= k < TWO_32 && q * q * q <= p * TWO_32 * TWO_32 * TWO_32 < (q + 1) * (q + 1) * (q + 1)
  }

  ghost predicate RootRow(ps: seq<nat>, ns: seq<nat>, row: seq<word>)
  {
    && |ps| == |ns| == |row| == 8
    && RootBits(ps[0], ns[0], row[0] as int) && RootBits(ps[1], ns[1], row[1] as int)
    && RootBits(ps[2], ns[2], row[2] as int) && RootBits(ps[3], ns[3], row[3] as int)
    && RootBits(ps[4], ns[4], row[4] as int) && RootBits(ps[5], ns[5], row[5] as int)
    && RootBits(ps[6], ns[6], row[6] as int) && RootBits(ps[7], ns[7], row[7] as int)
  }

  ghost predicate CubeRootRow(ps: seq<nat>, ns: seq<nat>, row: seq<word>)
  {
    && |ps| == |ns| == |row| == 8
    && CubeRootBits(ps[0], ns[0], row[0] as int) && CubeRootBits(ps[1], ns[1], row[1] as int)
    && CubeRootBits(ps[2], ns[2], row[2] as int) && CubeRootBits(ps[3], ns[3], row[3] as int)
    && CubeRootBits(ps[4], ns[4], row[4] as int) && CubeRootBits(ps[5], ns[5], row[5] as int)
    && CubeRootBits(ps[6], ns[6], row[6] as int) && CubeRootBits(ps[7], ns[7], row[7] as int)
  }

  /** Section 5.3.3: the first eight primes. */
  lemma Sha256Init()
    ensures RootRow([2, 3, 5, 7, 11, 13, 17, 19], [1, 1, 2, 2, 3, 3, 4, 4], Sha256.INIT)
  {
  }

  /** Section 4.2.2: the first sixty-four primes, eight to a row. */
  lemma Sha256Row0()
    ensures CubeRootRow([2, 3, 5, 7, 11, 13, 17, 19], [1, 1, 1, 1, 2, 2, 2, 2], Sha256.K0)
  {
  }

  lemma Sha256Row1()
    ensures CubeRootRow([23, 29, 31, 37, 41, 43, 47, 53], [2, 3, 3, 3, 3, 3, 3, 3], Sha256.K1)
  {
  }

  lemma Sha256Row2()
    ensures CubeRootRow([59, 61, 67, 71, 73, 79, 83, 89], [3, 3, 4, 4, 4, 4, 4, 4], Sha256.K2)
  {
  }

  lemma Sha256Row3()
    ensures CubeRootRow([97, 101, 103, 107, 109, 113, 127, 131], [4, 4, 4, 4, 4, 4, 5, 5], Sha256.K3)
  {
  }

  lemma Sha256Row4()
    ensures CubeRootRow([137, 139, 149, 151, 157, 163, 167, 173], [5, 5, 5, 5, 5, 5, 5, 5], Sha256.K4)
  {
  }

  lemma Sha256Row5()
    ensures CubeRootRow([179, 181, 191, 193, 197, 199, 211, 223], [5, 5, 5, 5, 5, 5, 5, 6], Sha256.K5)
  {
  }

  lemma Sha256Row6()
    ensures CubeRootRow([227, 229, 233, 239, 241, 251, 257, 263], [6, 6, 6, 6, 6, 6, 6, 6], Sha256.K6)
  {
  }

  lemma Sha256Row7()
    ensures CubeRootRow([269, 271, 277, 281, 283, 293, 307, 311], [6, 6, 6, 6, 6, 6, 6, 6], Sha256.K7)
  {
  }

  /** The rows make up the table. */
  lemma Rows()
    ensures |Sha256.K| == 64
    ensures Sha256.K[0..8] == Sha256.K0 && Sha256.K[8..16] == Sha256.K1 && Sha256.K[16..24] == Sha256.K2
    ensures Sha256.K[24..32] == Sha256.K3 && Sha256.K[32..40] == Sha256.K4 && Sha256.K[40..48] == Sha256.K5
    ensures Sha256.K[48..56] == Sha256.K6 && Sha256.K[56..64] == Sha256.K7
  {
  }

  /** Section 4.2.1: the square roots of 2, 3, 5 and 10, times two to the thirtieth. */
  ghost predicate ScaledRoot(p: nat, k: int)
  {
    var two60 := 0x1000_0000_0000_0000;
    k * k <= p * two60 < (k + 1) * (k + 1)
  }

  lemma Sha1Constants()
    ensures |Sha1.K| == 4 && ScaledRoot(2, Sha1.K[0] as int) && ScaledRoot(3, Sha1.K[1] as int)
    ensures ScaledRoot(5, Sha1.K[2] as int) && ScaledRoot(10, Sha1.K[3] as int)
  {
  }

  /** Section 5.3.1: the hexadecimal digits counted up and down, the octets of each word last first. */
  lemma Sha1Init()
    ensures |Sha1.INIT| == 5
    ensures Sha1.INIT[0] as int == 0x01 + 0x23 * 0x100 + 0x45 * 0x1_0000 + 0x67 * 0x100_0000
    ensures Sha1.INIT[1] as int == 0x89 + 0xAB * 0x100 + 0xCD * 0x1_0000 + 0xEF * 0x100_0000
    ensures Sha1.INIT[2] as int == 0xFE + 0xDC * 0x100 + 0xBA * 0x1_0000 + 0x98 * 0x100_0000
    ensures Sha1.INIT[3] as int == 0x76 + 0x54 * 0x100 + 0x32 * 0x1_0000 + 0x10 * 0x100_0000
    ensures Sha1.INIT[4] as int == 0xF0 + 0xE1 * 0x100 + 0xD2 * 0x1_0000 + 0xC3 * 0x100_0000
  {
  }

  // ----- the functions (section 4.1)

  /** Choose and majority, as the bits where x decides and where two agree. */
  lemma Choose256(x: word, y: word, z: word)
    ensures Sha256.Ch(x, y, z) == (x & y) | (!x & z)
  {
  }

  lemma Choose1(x: word, y: word, z: word)
    ensures Sha1.Ch(x, y, z) == (x & y) | (!x & z)
  {
  }

  lemma Majority256(x: word, y: word, z: word)
    ensures Sha256.Maj(x, y, z) == (x & y) | (x & z) | (y & z)
  {
  }

  lemma Majority1(x: word, y: word, z: word)
    ensures Sha1.Maj(x, y, z) == (x & y) | (x & z) | (y & z)
  {
  }

  /** The rotations by the built-in ones. */
  lemma RightBy(x: word)
    ensures Sha256.RotR(x, 2) == x.RotateRight(2) && Sha256.RotR(x, 6) == x.RotateRight(6)
    ensures Sha256.RotR(x, 7) == x.RotateRight(7) && Sha256.RotR(x, 11) == x.RotateRight(11)
    ensures Sha256.RotR(x, 13) == x.RotateRight(13) && Sha256.RotR(x, 17) == x.RotateRight(17)
    ensures Sha256.RotR(x, 18) == x.RotateRight(18) && Sha256.RotR(x, 19) == x.RotateRight(19)
    ensures Sha256.RotR(x, 22) == x.RotateRight(22) && Sha256.RotR(x, 25) == x.RotateRight(25)
  {
  }

  lemma LeftBy(x: word)
    ensures Sha1.RotL(x, 1) == x.RotateLeft(1) && Sha1.RotL(x, 5) == x.RotateLeft(5) && Sha1.RotL(x, 30) == x.RotateLeft(30)
  {
  }

  lemma SigmaBig(x: word)
    ensures Sha256.Sigma0(x) == Sha256.RotR(x, 2) ^ Sha256.RotR(x, 13) ^ Sha256.RotR(x, 22)
    ensures Sha256.Sigma1(x) == Sha256.RotR(x, 6) ^ Sha256.RotR(x, 11) ^ Sha256.RotR(x, 25)
  {
    hide Sha256.RotR;
  }

  lemma SigmaSmall(x: word)
    ensures Sha256.LittleSigma0(x) == Sha256.RotR(x, 7) ^ Sha256.RotR(x, 18) ^ (x >> 3)
    ensures Sha256.LittleSigma1(x) == Sha256.RotR(x, 17) ^ Sha256.RotR(x, 19) ^ (x >> 10)
  {
    hide Sha256.RotR;
  }

  // ----- words and octets

  /** A word read from a block has its octets, most significant first. */
  lemma WordOctets(a: byte, b: byte, c: byte, d: byte)
    ensures var w := Sha256.WordOf(a, b, c, d);
            && w >> 24 == a as word && (w >> 16) & 0xFF == b as word && (w >> 8) & 0xFF == c as word && w & 0xFF == d as word
  {
    ByteWord(a);
    ByteWord(b);
    ByteWord(c);
    ByteWord(d);
    Octets(a as word, b as word, c as word, d as word);
  }

  lemma WordOctets1(a: byte, b: byte, c: byte, d: byte)
    ensures var w := Sha1.WordOf(a, b, c, d);
            && w >> 24 == a as word && (w >> 16) & 0xFF == b as word && (w >> 8) & 0xFF == c as word && w & 0xFF == d as word
  {
    ByteWord(a);
    ByteWord(b);
    ByteWord(c);
    ByteWord(d);
    OctetsAdded(a as word, b as word, c as word, d as word);
  }

  lemma OctetsAdded(x: word, y: word, z: word, u: word)
    requires x <= 0xFF && y <= 0xFF && z <= 0xFF && u <= 0xFF
    ensures var w := (x << 24) + (y << 16) + (z << 8) + u;
            w >> 24 == x && (w >> 16) & 0xFF == y && (w >> 8) & 0xFF == z && w & 0xFF == u
  {
  }

  lemma ByteWord(a: byte)
    ensures (a as word) <= 0xFF
  {
  }

  lemma Octets(x: word, y: word, z: word, u: word)
    requires x <= 0xFF && y <= 0xFF && z <= 0xFF && u <= 0xFF
    ensures var w := (x << 24) | (y << 16) | (z << 8) | u;
            w >> 24 == x && (w >> 16) & 0xFF == y && (w >> 8) & 0xFF == z && w & 0xFF == u
  {
  }

  // ----- the schedule and the rounds (sections 6.1.2 and 6.2.2)

  function Sum3(x: word, y: word, z: word): word
  {
    Sha256.Add(Sha256.Add(x, y), z)
  }

  function Sum5(x: word, y: word, z: word, u: word, v: word): word
  {
    Sha256.Add(Sha256.Add(Sum3(x, y, z), u), v)
  }

  lemma ScheduleStart(block: seq<byte>, t: nat)
    requires |block| == BLOCK && t < 16
    ensures Sha256.W(block, t) == Sha256.WordOf(block[4 * t], block[4 * t + 1], block[4 * t + 2], block[4 * t + 3])
    ensures Sha1.W(block, t) == Sha1.WordOf(block[4 * t], block[4 * t + 1], block[4 * t + 2], block[4 * t + 3])
  {
    hide Sha256.WordOf, Sha1.WordOf;
  }

  lemma Schedule256(block: seq<byte>, t: nat)
    requires |block| == BLOCK && 16 <= t < 64
    ensures Sha256.W(block, t)
         == Sha256.Add(Sum3(Sha256.LittleSigma1(Sha256.W(block, t - 2)), Sha256.W(block, t - 7), Sha256.LittleSigma0(Sha256.W(block, t - 15))),
                       Sha256.W(block, t - 16))
  {
    hide Sha256.LittleSigma0, Sha256.LittleSigma1, Sha256.Add;
  }

  lemma Schedule1(block: seq<byte>, t: nat)
    requires |block| == BLOCK && 16 <= t < 80
    ensures Sha1.W(block, t)
         == Sha1.RotL(Sha1.W(block, t - 3) ^ Sha1.W(block, t - 8) ^ Sha1.W(block, t - 14) ^ Sha1.W(block, t - 16), 1)
  {
    hide Sha1.RotL;
  }

  /** The values registers a and e take in round t, and in the rounds before it; at zero and below they
      are those of the chaining value. */
  ghost function A(r: Sha256.Regs, block: seq<byte>, t: int): word
    requires |block| == BLOCK && -3 <= t <= 64
    decreases t + 4, 1
  {
    if t == 0 then r.a else if t == -1 then r.b else if t == -2 then r.c else if t == -3 then r.d
    else
      Sha256.Add(New(r, block, t),
                 Sha256.Add(Sha256.Sigma0(A(r, block, t - 1)), Sha256.Maj(A(r, block, t - 1), A(r, block, t - 2), A(r, block, t - 3))))
  }

  ghost function E(r: Sha256.Regs, block: seq<byte>, t: int): word
    requires |block| == BLOCK && -3 <= t <= 64
    decreases t + 4, 1
  {
    if t == 0 then r.e else if t == -1 then r.f else if t == -2 then r.g else if t == -3 then r.h
    else Sha256.Add(A(r, block, t - 4), New(r, block, t))
  }

  ghost function New(r: Sha256.Regs, block: seq<byte>, t: int): word
    requires |block| == BLOCK && 1 <= t <= 64
    decreases t + 4, 0
  {
    Sum5(E(r, block, t - 4), Sha256.Sigma1(E(r, block, t - 1)), Sha256.Ch(E(r, block, t - 1), E(r, block, t - 2), E(r, block, t - 3)),
         Sha256.K[t - 1], Sha256.W(block, t - 1))
  }

  lemma {:induction false} Rounds256(r: Sha256.Regs, block: seq<byte>, t: nat)
    requires |block| == BLOCK && t <= 64
    ensures Sha256.Rounds(r, block, t)
         == Sha256.Regs(A(r, block, t), A(r, block, t - 1), A(r, block, t - 2), A(r, block, t - 3),
                        E(r, block, t), E(r, block, t - 1), E(r, block, t - 2), E(r, block, t - 3))
  {
    hide Sha256.Sigma0, Sha256.Sigma1, Sha256.Ch, Sha256.Maj, Sha256.W, Sha256.Add, Sha256.T1, Sha256.T2, Sum5;
    if t > 0 {
      Rounds256(r, block, t - 1);
      Temporaries(A(r, block, t - 1), A(r, block, t - 2), A(r, block, t - 3), E(r, block, t - 1), E(r, block, t - 2),
                  E(r, block, t - 3), E(r, block, t - 4), Sha256.K[t - 1], Sha256.W(block, t - 1));
    }
  }

  lemma Temporaries(a: word, b: word, c: word, e: word, f: word, g: word, h: word, k: word, w: word)
    ensures Sha256.T1(e, f, g, h, k, w) == Sum5(h, Sha256.Sigma1(e), Sha256.Ch(e, f, g), k, w)
    ensures Sha256.T2(a, b, c) == Sha256.Add(Sha256.Sigma0(a), Sha256.Maj(a, b, c))
  {
    hide Sha256.Sigma0, Sha256.Sigma1, Sha256.Ch, Sha256.Maj, Sha256.Add;
  }

  /** The compression adds the registers after the last round to the chaining value. */
  lemma Compress256(h: seq<word>, block: seq<byte>)
    requires |h| == 8 && |block| == BLOCK
    ensures var r := Sha256.Regs(h[0], h[1], h[2], h[3], h[4], h[5], h[6], h[7]);
            var r' := Sha256.Regs(A(r, block, 64), A(r, block, 63), A(r, block, 62), A(r, block, 61),
                                  E(r, block, 64), E(r, block, 63), E(r, block, 62), E(r, block, 61));
            Sha256.Compress(h, block)
            == [Sha256.Add(h[0], r'.a), Sha256.Add(h[1], r'.b), Sha256.Add(h[2], r'.c), Sha256.Add(h[3], r'.d),
                Sha256.Add(h[4], r'.e), Sha256.Add(h[5], r'.f), Sha256.Add(h[6], r'.g), Sha256.Add(h[7], r'.h)]
  {
    hide A, E, Sha256.Rounds, Sha256.Add;
    Rounds256(Sha256.RegsOf(h), block, 64);
  }

  /** The functions of the four stages of SHA-1. */
  ghost function Mixed(t: nat, x: word, y: word, z: word): word
  {
    if t < 20 then Sha1.Ch(x, y, z) else if t < 40 then Sha1.Parity(x, y, z) else if t < 60 then Sha1.Maj(x, y, z)
    else Sha1.Parity(x, y, z)
  }

  /** The value register a of SHA-1 takes in round t; registers c, d and e are older ones rotated. */
  ghost function B(r: Sha1.Regs, block: seq<byte>, t: int): word
    requires |block| == BLOCK && -1 <= t <= 80
    decreases t + 5, 1
  {
    if t == 0 then r.a else if t == -1 then r.b
    else
      var x, y, z := B(r, block, t - 2), Older(r, block, t - 3), Older(r, block, t - 4);
      Sha1.Add(Sha1.Add(Sha1.Add(Sha1.Add(Sha1.RotL(B(r, block, t - 1), 5), Mixed(t - 1, x, y, z)), Older(r, block, t - 5)),
                        Sha1.K[(t - 1) / 20]), Sha1.W(block, t - 1))
  }

  ghost function Older(r: Sha1.Regs, block: seq<byte>, t: int): word
    requires |block| == BLOCK && -4 <= t <= 80
    decreases t + 5, 2
  {
    if t == -2 then r.c else if t == -3 then r.d else if t == -4 then r.e else Sha1.RotL(B(r, block, t), 30)
  }

  lemma {:induction false} Rounds1(r: Sha1.Regs, block: seq<byte>, t: nat)
    requires |block| == BLOCK && t <= 80
    ensures Sha1.Rounds(r, block, t)
         == Sha1.Regs(B(r, block, t), B(r, block, t - 1), Older(r, block, t - 2), Older(r, block, t - 3), Older(r, block, t - 4))
  {
    hide Sha1.RotL, Sha1.W, Sha1.Add, Sha1.F, Mixed;
    if t > 0 {
      Rounds1(r, block, t - 1);
      Stages(t - 1, B(r, block, t - 2), Older(r, block, t - 3), Older(r, block, t - 4));
    }
  }

  lemma Stages(t: nat, x: word, y: word, z: word)
    ensures Sha1.F(t, x, y, z) == Mixed(t, x, y, z)
  {
    hide Sha1.Ch, Sha1.Parity, Sha1.Maj;
  }

  lemma Compress1(h: seq<word>, block: seq<byte>)
    requires |h| == 5 && |block| == BLOCK
    ensures var r := Sha1.Regs(h[0], h[1], h[2], h[3], h[4]);
            Sha1.Compress(h, block)
            == [Sha1.Add(h[0], B(r, block, 80)), Sha1.Add(h[1], B(r, block, 79)), Sha1.Add(h[2], Older(r, block, 78)),
                Sha1.Add(h[3], Older(r, block, 77)), Sha1.Add(h[4], Older(r, block, 76))]
  {
    hide B, Older, Sha1.Rounds, Sha1.Add;
    Rounds1(Sha1.RegsOf(h), block, 80);
  }
}
