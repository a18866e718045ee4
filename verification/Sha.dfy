/** What misc/sha256.c and misc/sha1.c share: bytes are collected into blocks of 64, whole blocks go
    through the compression function, and the message is padded at the end. */
module Sha {
  import opened Arith
  import opened Common
  import opened Sequences

  type word = bv32

  /** The compression function of one of the two hashes. */
  type Compress = (seq<word>, seq<byte>) -> seq<word>

  const BLOCK := 64

  /** 64-bit arithmetic of the bit counter. */
  const WRAP := 0x1_0000_0000_0000_0000

  /** The bytes of a word, most significant first. */
  function WordBytes(w: word): (r: seq<byte>)
    ensures |r| == 4
  {
    [(w as int) / 0x100_0000 % 256, (w as int) / 0x1_0000 % 256, (w as int) / 0x100 % 256, (w as int) % 256]
  }

  // ----- sections 5.1.1 and 5.2.1 of FIPS 180-4

  ghost function Zeros(n: nat): seq<byte>
  {
    if n == 0 then [] else Zeros(n - 1) + [0]
  }

  lemma {:induction false} ZerosLength(n: nat)
    ensures |Zeros(n)| == n && forall i :: 0 <= i < n ==> Zeros(n)[i] == 0
  {
    if n > 0 {
      ZerosLength(n - 1);
    }
  }

  function ByteAt(n: nat, k: nat): byte
  {
    n / Power256(k) % 256
  }

  function Power256(k: nat): (r: nat)
    ensures r > 0
  {
    if k == 0 then 1 else 256 * Power256(k - 1)
  }

  /** A 64-bit number, most significant byte first. */
  function Length64(n: nat): seq<byte>
  {
    [ByteAt(n, 7), ByteAt(n, 6), ByteAt(n, 5), ByteAt(n, 4), ByteAt(n, 3), ByteAt(n, 2), ByteAt(n, 1), ByteAt(n, 0)]
  }

  /** The smallest number of zero bytes after the end mark that leaves room for the length alone
      in the last block. */
  ghost function Fill(n: nat): (k: nat)
    ensures (n + 1 + k) % BLOCK == 56 && k < BLOCK
  {
    (55 - n) % BLOCK
  }

  ghost function Padded(msg: seq<byte>, bits: nat): seq<byte>
  {
    msg + [0x80] + Zeros(Fill(|msg|)) + Length64(bits)
  }

  /** The compression function folded over the blocks of a message. */
  ghost function Fold(compress: Compress, state: seq<word>, bytes: seq<byte>): seq<word>
    decreases |bytes|
  {
    if |bytes| < BLOCK then state else Fold(compress, compress(state, bytes[..BLOCK]), bytes[BLOCK..])
  }

  lemma {:induction false} FoldMore(compress: Compress, state: seq<word>, a: seq<byte>, block: seq<byte>)
    requires |a| % BLOCK == 0 && |block| == BLOCK
    ensures Fold(compress, state, a + block) == compress(Fold(compress, state, a), block)
    decreases |a|
  {
    if a == [] {
      assert a + block == block;
      assert block[..BLOCK] == block && block[BLOCK..] == [];
    } else {
      assert (a + block)[..BLOCK] == a[..BLOCK] && (a + block)[BLOCK..] == a[BLOCK..] + block;
      FoldMore(compress, compress(state, a[..BLOCK]), a[BLOCK..], block);
    }
  }

  // ----- streaming

  /** The message up to its last whole block, and the rest. */
  ghost function Whole(msg: seq<byte>): seq<byte>
  {
    msg[..|msg| / BLOCK * BLOCK]
  }

  ghost function Rest(msg: seq<byte>): seq<byte>
  {
    msg[|msg| / BLOCK * BLOCK..]
  }

  lemma WholeRest(msg: seq<byte>)
    ensures msg == Whole(msg) + Rest(msg) && |Rest(msg)| == |msg| % BLOCK && |Whole(msg)| % BLOCK == 0
  {
  }

  lemma RestMore(msg: seq<byte>, b: byte)
    ensures |msg| % BLOCK < 63 ==> Whole(msg + [b]) == Whole(msg) && Rest(msg + [b]) == Rest(msg) + [b]
    ensures |msg| % BLOCK == 63 ==> Whole(msg + [b]) == Whole(msg) + (Rest(msg) + [b]) && Rest(msg + [b]) == []
  {
    var q, n := |msg| / BLOCK, |msg|;
    if n % BLOCK < 63 {
      assert (n + 1) / BLOCK == q;
    } else {
      assert (n + 1) / BLOCK == q + 1;
    }
  }

  lemma {:induction false} ZerosMore(m: nat, n: nat)
    ensures Zeros(m) + Zeros(n) == Zeros(m + n)
    decreases n
  {
    if n > 0 {
      ZerosMore(m, n - 1);
      Assoc(Zeros(m), Zeros(n - 1), [0]);
    }
  }

  /** The padding ends in the block the message ends in, or needs one more block. */
  lemma PaddedBlocks(msg: seq<byte>, bits: nat)
    ensures var n := |msg| % BLOCK;
            n < 56 ==> Padded(msg, bits) == Whole(msg) + (Rest(msg) + [0x80] + Zeros(55 - n) + Length64(bits))
    ensures var n := |msg| % BLOCK;
            n >= 56 ==> Padded(msg, bits) == Whole(msg) + (Rest(msg) + [0x80] + Zeros(63 - n)) + (Zeros(56) + Length64(bits))
  {
    hide Zeros, Length64, Whole, Rest;
    WholeRest(msg);
    var n, w, r, l := |msg| % BLOCK, Whole(msg), Rest(msg), Length64(bits);
    if n < 56 {
      Regroup(w, r, [0x80], Zeros(55 - n), l);
    } else {
      assert Fill(|msg|) == 119 - n;
      ZerosMore(63 - n, 56);
      Regroup(w, r, [0x80], Zeros(119 - n), l);
      Nested(w, r, Zeros(63 - n), Zeros(56), l);
    }
  }

  lemma Regroup(w: seq<byte>, r: seq<byte>, m: seq<byte>, z: seq<byte>, l: seq<byte>)
    ensures (w + r) + m + z + l == w + (r + m + z + l)
  {
  }

  lemma Nested(w: seq<byte>, r: seq<byte>, a: seq<byte>, b: seq<byte>, l: seq<byte>)
    ensures w + (r + [0x80] + (a + b) + l) == w + (r + [0x80] + a) + (b + l)
  {
  }

  class Context {
    var data: array<byte>
    var datalen: nat
    var bitlen: nat
    var state: seq<word>
    const compress: Compress
    const init: seq<word>
    ghost var msg: seq<byte>   // what was hashed so far

    ghost predicate Valid()
      reads this, data
    {
      && data.Length == BLOCK && datalen == |msg| % BLOCK && data[..datalen] == Rest(msg)
      && bitlen == 8 * |Whole(msg)| % WRAP && state == Fold(compress, init, Whole(msg))
    }

    constructor (compress: Compress, init: seq<word>)
      ensures Valid() && fresh(data) && msg == [] && this.compress == compress && this.init == init
    {
      this.compress, this.init := compress, init;
      data, datalen, bitlen, state, msg := new byte[BLOCK], 0, 0, init, [];
    }

    /** One byte of the update loop. */
    method Push(b: byte)
      requires Valid()
      modifies this, data
      ensures Valid() && msg == old(msg) + [b] && data == old(data)
    {
      hide Fold;
      RestMore(msg, b);
      WholeRest(msg);
      data[datalen] := b;
      datalen := datalen + 1;
      assert data[..datalen] == Rest(msg) + [b];
      if datalen == BLOCK {
        FoldMore(compress, init, Whole(msg), Rest(msg) + [b]);
        assert data[..] == data[..BLOCK];
        state := compress(state, data[..]);
        bitlen := (bitlen + 512) % WRAP;
        datalen := 0;
        Wraps(8 * |Whole(msg)|, 512);
      }
      msg := msg + [b];
    }

    /** __sha256_update and __sha1_update. */
    method Update(bytes: seq<byte>)
      requires Valid()
      modifies this, data
      ensures Valid() && msg == old(msg) + bytes && data == old(data)
    {
      for i := 0 to |bytes|
        invariant Valid() && msg == old(msg) + bytes[..i] && data == old(data)
      {
        hide Fold, Whole, Rest;
        assert bytes[..i + 1] == bytes[..i] + [bytes[i]];
        Assoc(old(msg), bytes[..i], [bytes[i]]);
        Push(bytes[i]);
      }
      assert bytes[..|bytes|] == bytes;
    }

    /** The end mark, and zeros up to a limit. */
    method Mark(limit: nat)
      requires data.Length == BLOCK && datalen < limit <= BLOCK
      modifies data
      ensures data[..limit] == old(data[..datalen]) + [0x80] + Zeros(limit - datalen - 1)
    {
      ghost var before := data[..datalen];
      data[datalen] := 0x80;
      var i := datalen + 1;
      assert data[..i] == before + [0x80] + Zeros(0);
      while i < limit
        invariant datalen < i <= limit
        invariant data[..i] == before + [0x80] + Zeros(i - datalen - 1)
      {
        data[i] := 0;
        assert data[..i + 1] == data[..i] + [0];
        Assoc(before + [0x80], Zeros(i - datalen - 1), [0]);
        i := i + 1;
      }
    }

    method PutLength()
      requires data.Length == BLOCK
      modifies data
      ensures forall i :: 0 <= i < 56 ==> data[i] == old(data[i])
      ensures forall k :: 0 <= k < 8 ==> data[63 - k] == ByteAt(bitlen, k)
    {
      hide ByteAt;
      for k := 0 to 8
        invariant forall i :: 0 <= i < 56 ==> data[i] == old(data[i])
        invariant forall j :: 0 <= j < k ==> data[63 - j] == ByteAt(bitlen, j)
      {
        data[63 - k] := ByteAt(bitlen, k);
      }
    }

    /** The block in data is compressed. */
    method Transform(ghost done: seq<byte>)
      requires data.Length == BLOCK && state == Fold(compress, init, done) && |done| % BLOCK == 0
      modifies this`state
      ensures state == Fold(compress, init, done + data[..])
    {
      hide Fold;
      FoldMore(compress, init, done, data[..]);
      state := compress(state, data[..]);
    }

    /** The length in the last eight bytes, and the last block. */
    method Finish(ghost done: seq<byte>)
      requires data.Length == BLOCK && state == Fold(compress, init, done) && |done| % BLOCK == 0
      modifies this`state, data
      ensures state == Fold(compress, init, done + (old(data[..56]) + Length64(bitlen)))
    {
      hide Fold, ByteAt;
      ghost var front := data[..56];
      PutLength();
      assert data[..] == front + Length64(bitlen);
      Transform(done);
    }

    /** A block with no room for the length: it is compressed, and the last block starts empty. */
    method Overflow(ghost done: seq<byte>)
      requires data.Length == BLOCK && state == Fold(compress, init, done) && |done| % BLOCK == 0 && 56 <= datalen < BLOCK
      modifies this`state, data
      ensures state == Fold(compress, init, done + (old(data[..datalen]) + [0x80] + Zeros(63 - datalen)))
      ensures data[..56] == Zeros(56)
    {
      hide Fold, Zeros;
      Mark(BLOCK);
      assert data[..] == data[..BLOCK];
      Transform(done);
      Clear56();
    }

    /** __sha256_final and __sha1_final up to the output: the state is the compression function
        folded over the blocks of the padded message. */
    method Final()
      requires Valid()
      modifies this, data
      ensures msg == old(msg) && state == Fold(compress, init, Padded(msg, 8 * |msg| % WRAP))
    {
      hide Fold, Padded, Zeros, Length64;
      WholeRest(msg);
      ghost var whole := Whole(msg);
      ghost var rest := data[..datalen];
      PaddedBlocks(msg, 8 * |msg| % WRAP);
      LengthSum(msg);
      hide Whole, Rest;
      if datalen < 56 {
        Mark(56);
      } else {
        Overflow(whole);
        ZerosSize(63 - datalen);
        BlockMore(whole, rest + [0x80] + Zeros(63 - datalen));
        whole := whole + (rest + [0x80] + Zeros(63 - datalen));
      }
      bitlen := (bitlen + datalen * 8) % WRAP;
      Finish(whole);
    }

    method Clear56()
      requires data.Length == BLOCK
      modifies data
      ensures data[..56] == Zeros(56)
    {
      ZerosLength(56);
      forall i | 0 <= i < 56 {
        data[i] := 0;
      }
    }
  }

  lemma BlockMore(a: seq<byte>, b: seq<byte>)
    requires |a| % BLOCK == 0 && |b| == BLOCK
    ensures |a + b| % BLOCK == 0
  {
  }

  /** The value of bytes, most significant first. */
  ghost function BigEndian(s: seq<byte>): nat
  {
    if s == [] then 0 else 256 * BigEndian(s[..|s| - 1]) + s[|s| - 1]
  }

  /** The eight length bytes of the padding are the number of bits of the message. */
  lemma LengthBytes(n: nat)
    requires n < WRAP
    ensures BigEndian(Length64(n)) == n
  {
    var s := Length64(n);
    assert forall k :: 0 <= k < 8 ==> s[7 - k] == n / Power256(k) % 256;
    BigEndianFrom(n, s, 8);
    assert s[..8] == s;
    assert Power256(1) == 256 && Power256(2) == 256 * Power256(1) && Power256(4) == 256 * (256 * Power256(2));
    assert Power256(8) == 256 * (256 * (256 * (256 * Power256(4))));
    assert n / Power256(0) == n;
  }

  /** The first k bytes of a 64-bit number are its quotient by the weight of the others. */
  lemma {:induction false} BigEndianFrom(n: nat, s: seq<byte>, k: nat)
    requires |s| == 8 && k <= 8 && n < Power256(8)
    requires forall k :: 0 <= k < 8 ==> s[7 - k] == n / Power256(k) % 256
    ensures BigEndian(s[..k]) == n / Power256(8 - k)
  {
    hide Power256;
    if k == 0 {
      Below(n, Power256(8));
    } else {
      BigEndianFrom(n, s, k - 1);
      LastByte(s[..k]);
      assert s[..k][..k - 1] == s[..k - 1] && s[..k][k - 1] == s[7 - (8 - k)];
      PowerNext(8 - k);
      NextByte(n, Power256(8 - k));
    }
  }

  lemma LastByte(s: seq<byte>)
    requires s != []
    ensures BigEndian(s) == 256 * BigEndian(s[..|s| - 1]) + s[|s| - 1]
  {
  }

  lemma PowerNext(k: nat)
    ensures Power256(k + 1) == 256 * Power256(k)
  {
  }

  lemma NextByte(n: nat, p: nat)
    requires p > 0
    ensures n / p == 256 * (n / (256 * p)) + n / p % 256
  {
    DivDiv(n, p, 256);
    Divides(n / p, 256);
    assert p * 256 == 256 * p;
  }

  lemma Below(n: nat, m: nat)
    requires n < m
    ensures n / m == 0
  {
  }

  lemma ZerosSize(n: nat)
    ensures |Zeros(n)| == n
  {
    ZerosLength(n);
  }

  lemma LengthSum(msg: seq<byte>)
    ensures (8 * |Whole(msg)| % WRAP + |msg| % BLOCK * 8) % WRAP == 8 * |msg| % WRAP
  {
    WholeRest(msg);
    Wraps(8 * |Whole(msg)|, |msg| % BLOCK * 8);
  }

  lemma Wraps(a: nat, b: nat)
    ensures (a % WRAP + b) % WRAP == (a + b) % WRAP
  {
  }

  // ----- output

  /** The hash value as bytes. */
  ghost function Digest(state: seq<word>): seq<byte>
  {
    if state == [] then [] else WordBytes(state[0]) + Digest(state[1..])
  }

  lemma {:induction false} DigestAt(state: seq<word>, w: nat, i: nat)
    requires w < |state| && i < 4
    ensures |Digest(state)| == 4 * |state| && Digest(state)[4 * w + i] == WordBytes(state[w])[i]
  {
    hide WordBytes;
    DigestLength(state);
    if w > 0 {
      DigestAt(state[1..], w - 1, i);
    }
  }

  lemma {:induction false} DigestLength(state: seq<word>)
    ensures |Digest(state)| == 4 * |state|
  {
    hide WordBytes;
    if state != [] {
      DigestLength(state[1..]);
    }
  }

  /** The end of __sha256_final and __sha1_final: byte i of every word, for each i. */
  method Output(state: seq<word>) returns (hash: seq<byte>)
    ensures hash == Digest(state)
  {
    hide WordBytes;
    var out := new byte[4 * |state|];
    for i := 0 to 4
      invariant forall w, k :: 0 <= w < |state| && 0 <= k < i ==> out[4 * w + k] == WordBytes(state[w])[k]
    {
      for v := 0 to |state|
        invariant forall w, k :: 0 <= w < |state| && 0 <= k < i ==> out[4 * w + k] == WordBytes(state[w])[k]
        invariant forall w :: 0 <= w < v ==> out[4 * w + i] == WordBytes(state[w])[i]
      {
        out[4 * v + i] := WordBytes(state[v])[i];
      }
    }
    hash := out[..];
    DigestLength(state);
    forall p | 0 <= p < |hash|
      ensures hash[p] == Digest(state)[p]
    {
      DigestAt(state, p / 4, p % 4);
      assert out[4 * (p / 4) + p % 4] == WordBytes(state[p / 4])[p % 4];
    }
  }
}
