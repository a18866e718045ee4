/** SHA-1 (misc/sha1.c), against sections 4.1.1, 4.2.1, 5.3.1 and 6.1.2 of FIPS 180-4. */
module Sha1 {
  import opened Common
  import opened Sha

  const INIT: seq<word> := [0x67452301, 0xEFCDAB89, 0x98BADCFE, 0x10325476, 0xc3d2e1f0]

  const K: seq<word> := [0x5a827999, 0x6ed9eba1, 0x8f1bbcdc, 0xca62c1d6]

  function RotL(x: word, n: nat): word
    requires n <= 32
  {
    (x << n) | (x >> (32 - n))
  }

  function WordOf(a: byte, b: byte, c: byte, d: byte): word
  {
    ((a as word) << 24) + ((b as word) << 16) + ((c as word) << 8) + (d as word)
  }

  function Expand(w3: word, w8: word, w14: word, w16: word): word
  {
    RotL(w3 ^ w8 ^ w14 ^ w16, 1)
  }

  /** The message schedule. */
  function W(block: seq<byte>, t: nat): word
    requires |block| == BLOCK && t < 80
  {
    if t < 16 then WordOf(block[4 * t], block[4 * t + 1], block[4 * t + 2], block[4 * t + 3])
    else Expand(W(block, t - 3), W(block, t - 8), W(block, t - 14), W(block, t - 16))
  }

  function Ch(x: word, y: word, z: word): word
  {
    (x & y) ^ (!x & z)
  }

  function Parity(x: word, y: word, z: word): word
  {
    x ^ y ^ z
  }

  function Maj(x: word, y: word, z: word): word
  {
    (x & y) ^ (x & z) ^ (y & z)
  }

  /** The function and the constant of round t. */
  function F(t: nat, x: word, y: word, z: word): word
  {
    if t < 20 then Ch(x, y, z) else if t < 40 then Parity(x, y, z) else if t < 60 then Maj(x, y, z) else Parity(x, y, z)
  }

  datatype Regs = Regs(a: word, b: word, c: word, d: word, e: word)

  function Add(x: word, y: word): word
  {
    x + y
  }

  function T(a: word, f: word, e: word, k: word, w: word): word
  {
    Add(Add(Add(Add(RotL(a, 5), f), e), k), w)
  }

  function Round(r: Regs, f: word, k: word, w: word): Regs
  {
    Regs(T(r.a, f, r.e, k, w), r.a, RotL(r.b, 30), r.c, r.d)
  }

  function Rounds(r: Regs, block: seq<byte>, t: nat): Regs
    requires |block| == BLOCK && t <= 80
  {
    if t == 0 then r
    else
      var s := Rounds(r, block, t - 1);
      Round(s, F(t - 1, s.b, s.c, s.d), K[(t - 1) / 20], W(block, t - 1))
  }

  function RegsOf(state: seq<word>): Regs
    requires |state| == 5
  {
    Regs(state[0], state[1], state[2], state[3], state[4])
  }

  /** The compression function. */
  function Compress(state: seq<word>, block: seq<byte>): seq<word>
  {
    if |state| != 5 || |block| != BLOCK then state
    else
      var r := Rounds(RegsOf(state), block, 80);
      [Add(state[0], r.a), Add(state[1], r.b), Add(state[2], r.c), Add(state[3], r.d), Add(state[4], r.e)]
  }

  /** The first part of __sha1_transform. */
  method Schedule(block: seq<byte>) returns (m: array<word>)
    requires |block| == BLOCK
    ensures fresh(m) && m.Length == 80 && forall k :: 0 <= k < 80 ==> m[k] == W(block, k)
  {
    hide WordOf, Expand;
    m := new word[80];
    var i, j := 0, 0;
    while i < 16
      invariant i <= 16 && j == 4 * i && forall k :: 0 <= k < i ==> m[k] == W(block, k)
    {
      m[i] := WordOf(block[j], block[j + 1], block[j + 2], block[j + 3]);
      i, j := i + 1, j + 4;
    }
    while i < 80
      invariant 16 <= i <= 80 && forall k :: 0 <= k < i ==> m[k] == W(block, k)
    {
      m[i] := Expand(m[i - 3], m[i - 8], m[i - 14], m[i - 16]);
      i := i + 1;
    }
  }

  /** The loop of rounds 0 to 19. */
  method FirstTwenty(r0: Regs, ghost start: Regs, block: seq<byte>, m: array<word>) returns (r: Regs)
    requires |block| == BLOCK && m.Length == 80 && (forall k :: 0 <= k < 80 ==> m[k] == W(block, k))
    requires r0 == Rounds(start, block, 0)
    ensures r == Rounds(start, block, 20)
  {
    hide W, T, Ch, Parity, Maj, RotL;
    var a, b, c, d, e := r0.a, r0.b, r0.c, r0.d, r0.e;
    var i := 0;
    while i < 20
      invariant 0 <= i <= 20 && Regs(a, b, c, d, e) == Rounds(start, block, i)
    {
      var t := T(a, Ch(b, c, d), e, K[0], m[i]);
      e := d;
      d := c;
      c := RotL(b, 30);
      b := a;
      a := t;
      i := i + 1;
    }
    r := Regs(a, b, c, d, e);
  }

  /** The loop of rounds 20 to 39. */
  method SecondTwenty(r0: Regs, ghost start: Regs, block: seq<byte>, m: array<word>) returns (r: Regs)
    requires |block| == BLOCK && m.Length == 80 && (forall k :: 0 <= k < 80 ==> m[k] == W(block, k))
    requires r0 == Rounds(start, block, 20)
    ensures r == Rounds(start, block, 40)
  {
    hide W, T, Ch, Parity, Maj, RotL;
    var a, b, c, d, e := r0.a, r0.b, r0.c, r0.d, r0.e;
    var i := 20;
    while i < 40
      invariant 20 <= i <= 40 && Regs(a, b, c, d, e) == Rounds(start, block, i)
    {
      var t := T(a, Parity(b, c, d), e, K[1], m[i]);
      e := d;
      d := c;
      c := RotL(b, 30);
      b := a;
      a := t;
      i := i + 1;
    }
    r := Regs(a, b, c, d, e);
  }

  /** The loop of rounds 40 to 59. */
  method ThirdTwenty(r0: Regs, ghost start: Regs, block: seq<byte>, m: array<word>) returns (r: Regs)
    requires |block| == BLOCK && m.Length == 80 && (forall k :: 0 <= k < 80 ==> m[k] == W(block, k))
    requires r0 == Rounds(start, block, 40)
    ensures r == Rounds(start, block, 60)
  {
    hide W, T, Ch, Parity, Maj, RotL;
    var a, b, c, d, e := r0.a, r0.b, r0.c, r0.d, r0.e;
    var i := 40;
    while i < 60
      invariant 40 <= i <= 60 && Regs(a, b, c, d, e) == Rounds(start, block, i)
    {
      var t := T(a, Maj(b, c, d), e, K[2], m[i]);
      e := d;
      d := c;
      c := RotL(b, 30);
      b := a;
      a := t;
      i := i + 1;
    }
    r := Regs(a, b, c, d, e);
  }

  /** The loop of rounds 60 to 79. */
  method LastTwenty(r0: Regs, ghost start: Regs, block: seq<byte>, m: array<word>) returns (r: Regs)
    requires |block| == BLOCK && m.Length == 80 && (forall k :: 0 <= k < 80 ==> m[k] == W(block, k))
    requires r0 == Rounds(start, block, 60)
    ensures r == Rounds(start, block, 80)
  {
    hide W, T, Ch, Parity, Maj, RotL;
    var a, b, c, d, e := r0.a, r0.b, r0.c, r0.d, r0.e;
    var i := 60;
    while i < 80
      invariant 60 <= i <= 80 && Regs(a, b, c, d, e) == Rounds(start, block, i)
    {
      var t := T(a, Parity(b, c, d), e, K[3], m[i]);
      e := d;
      d := c;
      c := RotL(b, 30);
      b := a;
      a := t;
      i := i + 1;
    }
    r := Regs(a, b, c, d, e);
  }

  /** __sha1_transform, with its four loops of twenty rounds. */
  method Transform(state: seq<word>, block: seq<byte>) returns (r: seq<word>)
    requires |state| == 5 && |block| == BLOCK
    ensures r == Compress(state, block) && |r| == 5
  {
    hide W, Round, Add;
    var m := Schedule(block);
    var s := RegsOf(state);
    ghost var start := s;
    s := FirstTwenty(s, start, block, m);
    s := SecondTwenty(s, start, block, m);
    s := ThirdTwenty(s, start, block, m);
    s := LastTwenty(s, start, block, m);
    r := [Add(state[0], s.a), Add(state[1], s.b), Add(state[2], s.c), Add(state[3], s.d), Add(state[4], s.e)];
  }

  /** The hash of a message, by the standard. */
  ghost function Hash(msg: seq<byte>): seq<byte>
  {
    Digest(Fold(Compress, INIT, Padded(msg, 8 * |msg|)))
  }

  /** sha1: init, update, final. */
  method Sum(msg: seq<byte>) returns (hash: seq<byte>)
    ensures |msg| < 0x2000_0000_0000_0000 ==> hash == Hash(msg)
  {
    hide Fold, Padded;
    var ctx := new Context(Compress, INIT);
    ctx.Update(msg);
    ctx.Final();
    assert [] + msg == msg;
    hash := Output(ctx.state);
  }
}
