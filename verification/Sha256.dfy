/** SHA-256 (misc/sha256.c), against sections 4.1.2, 4.2.2, 5.3.3 and 6.2.2 of FIPS 180-4. */
module Sha256 {
  import opened Common
  import opened Sha

  const INIT: seq<word> :=
    [0x6a09e667, 0xbb67ae85, 0x3c6ef372, 0xa54ff53a, 0x510e527f, 0x9b05688c, 0x1f83d9ab, 0x5be0cd19]

  /** The constants of the rounds, eight to a row. */
  const K0: seq<word> := [0x428a2f98, 0x71374491, 0xb5c0fbcf, 0xe9b5dba5, 0x3956c25b, 0x59f111f1, 0x923f82a4, 0xab1c5ed5]
  const K1: seq<word> := [0xd807aa98, 0x12835b01, 0x243185be, 0x550c7dc3, 0x72be5d74, 0x80deb1fe, 0x9bdc06a7, 0xc19bf174]
  const K2: seq<word> := [0xe49b69c1, 0xefbe4786, 0x0fc19dc6, 0x240ca1cc, 0x2de92c6f, 0x4a7484aa, 0x5cb0a9dc, 0x76f988da]
  const K3: seq<word> := [0x983e5152, 0xa831c66d, 0xb00327c8, 0xbf597fc7, 0xc6e00bf3, 0xd5a79147, 0x06ca6351, 0x14292967]
  const K4: seq<word> := [0x27b70a85, 0x2e1b2138, 0x4d2c6dfc, 0x53380d13, 0x650a7354, 0x766a0abb, 0x81c2c92e, 0x92722c85]
  const K5: seq<word> := [0xa2bfe8a1, 0xa81a664b, 0xc24b8b70, 0xc76c51a3, 0xd192e819, 0xd6990624, 0xf40e3585, 0x106aa070]
  const K6: seq<word> := [0x19a4c116, 0x1e376c08, 0x2748774c, 0x34b0bcb5, 0x391c0cb3, 0x4ed8aa4a, 0x5b9cca4f, 0x682e6ff3]
  const K7: seq<word> := [0x748f82ee, 0x78a5636f, 0x84c87814, 0x8cc70208, 0x90befffa, 0xa4506ceb, 0xbef9a3f7, 0xc67178f2]

  const K: seq<word> := K0 + K1 + K2 + K3 + K4 + K5 + K6 + K7

  function RotR(x: word, n: nat): word
    requires n <= 32
  {
    (x >> n) | (x << (32 - n))
  }

  function Ch(x: word, y: word, z: word): word
  {
    (x & y) ^ (!x & z)
  }

  function Maj(x: word, y: word, z: word): word
  {
    (x & y) ^ (x & z) ^ (y & z)
  }

  function Sigma0(x: word): word
  {
    RotR(x, 2) ^ RotR(x, 13) ^ RotR(x, 22)
  }

  function Sigma1(x: word): word
  {
    RotR(x, 6) ^ RotR(x, 11) ^ RotR(x, 25)
  }

  function LittleSigma0(x: word): word
  {
    RotR(x, 7) ^ RotR(x, 18) ^ (x >> 3)
  }

  function LittleSigma1(x: word): word
  {
    RotR(x, 17) ^ RotR(x, 19) ^ (x >> 10)
  }

  function WordOf(a: byte, b: byte, c: byte, d: byte): word
  {
    ((a as word) << 24) | ((b as word) << 16) | ((c as word) << 8) | (d as word)
  }

  /** Addition modulo two to the thirty-second. */
  function Add(x: word, y: word): word
  {
    x + y
  }

  function Expand(w2: word, w7: word, w15: word, w16: word): word
  {
    Add(Add(Add(LittleSigma1(w2), w7), LittleSigma0(w15)), w16)
  }

  /** The message schedule. */
  function W(block: seq<byte>, t: nat): word
    requires |block| == BLOCK && t < 64
  {
    if t < 16 then WordOf(block[4 * t], block[4 * t + 1], block[4 * t + 2], block[4 * t + 3])
    else Expand(W(block, t - 2), W(block, t - 7), W(block, t - 15), W(block, t - 16))
  }

  datatype Regs = Regs(a: word, b: word, c: word, d: word, e: word, f: word, g: word, h: word)

  function T1(e: word, f: word, g: word, h: word, k: word, w: word): word
  {
    Add(Add(Add(Add(h, Sigma1(e)), Ch(e, f, g)), k), w)
  }

  function T2(a: word, b: word, c: word): word
  {
    Add(Sigma0(a), Maj(a, b, c))
  }

  function Round(r: Regs, k: word, w: word): Regs
  {
    var t1, t2 := T1(r.e, r.f, r.g, r.h, k, w), T2(r.a, r.b, r.c);
    Regs(Add(t1, t2), r.a, r.b, r.c, Add(r.d, t1), r.e, r.f, r.g)
  }

  function Rounds(r: Regs, block: seq<byte>, t: nat): Regs
    requires |block| == BLOCK && t <= 64
  {
    if t == 0 then r else Round(Rounds(r, block, t - 1), K[t - 1], W(block, t - 1))
  }

  function RegsOf(state: seq<word>): Regs
    requires |state| == 8
  {
    Regs(state[0], state[1], state[2], state[3], state[4], state[5], state[6], state[7])
  }

  function AddRegs(state: seq<word>, r: Regs): seq<word>
    requires |state| == 8
  {
    [Add(state[0], r.a), Add(state[1], r.b), Add(state[2], r.c), Add(state[3], r.d),
     Add(state[4], r.e), Add(state[5], r.f), Add(state[6], r.g), Add(state[7], r.h)]
  }

  /** The compression function. */
  function Compress(state: seq<word>, block: seq<byte>): seq<word>
  {
    if |state| == 8 && |block| == BLOCK then AddRegs(state, Rounds(RegsOf(state), block, 64)) else state
  }

  /** The first part of __sha256_transform. */
  method Schedule(block: seq<byte>) returns (m: array<word>)
    requires |block| == BLOCK
    ensures fresh(m) && m.Length == 64 && forall k :: 0 <= k < 64 ==> m[k] == W(block, k)
  {
    hide WordOf, Expand;
    m := new word[64];
    var i, j := 0, 0;
    while i < 16
      invariant i <= 16 && j == 4 * i && forall k :: 0 <= k < i ==> m[k] == W(block, k)
    {
      m[i] := WordOf(block[j], block[j + 1], block[j + 2], block[j + 3]);
      i, j := i + 1, j + 4;
    }
    while i < 64
      invariant 16 <= i <= 64 && forall k :: 0 <= k < i ==> m[k] == W(block, k)
    {
      m[i] := Expand(m[i - 2], m[i - 7], m[i - 15], m[i - 16]);
      i := i + 1;
    }
  }

  /** __sha256_transform. */
  method Transform(state: seq<word>, block: seq<byte>) returns (r: seq<word>)
    requires |state| == 8 && |block| == BLOCK
    ensures r == Compress(state, block) && |r| == 8
  {
    hide W, T1, T2, Add;
    var m := Schedule(block);
    var a, b, c, d, e, f, g, h := state[0], state[1], state[2], state[3], state[4], state[5], state[6], state[7];
    var i := 0;
    while i < 64
      invariant i <= 64 && Regs(a, b, c, d, e, f, g, h) == Rounds(RegsOf(state), block, i)
    {
      var t1 := T1(e, f, g, h, K[i], m[i]);
      var t2 := T2(a, b, c);
      h := g;
      g := f;
      f := e;
      e := Add(d, t1);
      d := c;
      c := b;
      b := a;
      a := Add(t1, t2);
      i := i + 1;
    }
    r := [Add(state[0], a), Add(state[1], b), Add(state[2], c), Add(state[3], d),
          Add(state[4], e), Add(state[5], f), Add(state[6], g), Add(state[7], h)];
  }

  // ----- the hash

  /** The hash of a message, by the standard. */
  ghost function Hash(msg: seq<byte>): seq<byte>
  {
    Digest(Fold(Compress, INIT, Padded(msg, 8 * |msg|)))
  }

  /** sha256: init, update, final. */
  method Sum(msg: seq<byte>) returns (hash: seq<byte>)
    ensures |msg| < 0x2000_0000_0000_0000 ==> hash == Hash(msg)
  {
    hide Fold, Padded;
    var ctx := new Context(Compress, INIT);
    ctx.Update(msg);
    ctx.Final();
    assert [] + msg == msg;
    hash := Output(ctx.state);
  }
}
