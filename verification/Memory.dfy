/** Blocks of bytes as memcpy, memmove and malloc see them. */
module Memory {
  /** The block with bytes written at an offset; writing past its end is not possible. */
  function Write(block: string, offset: nat, bytes: string): (r: string)
    requires offset + |bytes| <= |block|
    ensures |r| == |block| && r[..offset] == block[..offset]
    ensures r[offset..offset + |bytes|] == bytes && r[offset + |bytes|..] == block[offset + |bytes|..]
  {
    block[..offset] + bytes + block[offset + |bytes|..]
  }

  /** A new block; what it holds is not known to the caller. */
  method Malloc(n: nat) returns (block: string)
    ensures |block| == n
  {
    block := seq(n, _ => '\0');
  }

  /** A block of another size that keeps what fits of the old one. */
  method Realloc(block: string, n: nat) returns (r: string)
    ensures |r| == n && forall i :: 0 <= i < n && i < |block| ==> r[i] == block[i]
  {
    r := seq(n, i requires 0 <= i => if i < |block| then block[i] else '\0');
  }

  /** Opening a gap and filling it inserts into the used part of a block. */
  lemma Inserted(block: string, size: nat, pos: nat, bytes: string)
    requires pos <= size && size + |bytes| <= |block|
    ensures var moved := Write(block, pos + |bytes|, block[pos..size]);
            Write(moved, pos, bytes)[..size + |bytes|] == block[..pos] + bytes + block[pos..size]
  {
    var n := |bytes|;
    var moved := Write(block, pos + n, block[pos..size]);
    var r := Write(moved, pos, bytes);
    assert r[..pos] == moved[..pos] == block[..pos];
    assert r[pos + n..size + n] == r[pos + n..][..size - pos];
    assert moved[pos + n..size + n] == moved[pos + n..][..size - pos];
    assert r[..size + n] == r[..pos] + r[pos..pos + n] + r[pos + n..size + n];
  }

  lemma Terminated(block: string, size: nat)
    requires size < |block|
    ensures block[size := '\0'][..size] == block[..size]
  {
  }
}
